/**
 Which entries count (src/filesystem.rs, `supported_entry`, `measure_directory`), said of the entries
 themselves: what is served, what only the quota charges, and what keeps a walk from being complete.
 */
module EntryPolicies {
  import opened Common
  import opened VirtualPaths
  import opened Trees
  import opened ArchiveWalks
  import UsageWalks

  /** Served to users: listed, and a directory or a file without other links. */
  predicate IsServed(e: Entry) {
    e.listed && (e.node.Dir? || (e.node.File? && !e.node.alias))
  }

  // ---- plain trees ----

  /** Directories and single-link files, all listed and none of this process's own. */
  ghost predicate IsPlain(t: Tree) {
    forall i :: 0 <= i < |t| ==> IsPlainEntry(t[i])
  }

  ghost predicate IsPlainEntry(e: Entry) {
    e.listed && !e.own && (match e.node case File(_, alias) => !alias case Dir(_, entries) => IsPlain(entries) case Special => false)
  }

  /** The number of directories at any level. */
  function Directories(t: Tree): nat
    decreases Weight(t)
  {
    if t == [] then 0 else (if t[0].node.Dir? then 1 + Directories(t[0].node.entries) else 0) + Directories(t[1..])
  }

  /** The sizes of all files at any level. */
  function FileSizes(t: Tree): nat
    decreases Weight(t)
  {
    if t == [] then 0
    else
      (match t[0].node case File(size, _) => size case Dir(_, entries) => FileSizes(entries) case Special => 0)
      + FileSizes(t[1..])
  }

  /** In a plain tree every file counts, and the quota charges so much for every directory besides. */
  lemma {:induction false} PlainTotals(t: Tree)
    requires IsPlain(t)
    ensures TrueSize(t) == FileSizes(t)
    ensures UsageWalks.Usage(t) == FileSizes(t) + DIRECTORY_QUOTA_BYTES * Directories(t)
    decreases Weight(t)
  {
    if t != [] {
      assert IsPlainEntry(t[0]);
      assert IsPlain(t[1..]) by {
        assert forall i :: 0 <= i < |t[1..]| ==> t[1..][i] == t[i + 1];
      }
      PlainTotals(t[1..]);
      if t[0].node.Dir? {
        PlainTotals(t[0].node.entries);
      }
    }
  }

  /** The walk over a plain tree fails for nothing but unreadable directories, faults and depth, and
      scans every entry. */
  lemma {:induction false} PlainCounts(t: Tree)
    requires IsPlain(t) && UsageWalks.Readable(t)
    ensures ScanCount(t) == Weight(t)
    ensures forall depth: nat :: depth + Height(t) <= MAX_PATH_DEPTH ==> Clean(t, depth)
    decreases Weight(t)
  {
    if t != [] {
      assert IsPlainEntry(t[0]);
      assert IsPlain(t[1..]) by {
        assert forall i :: 0 <= i < |t[1..]| ==> t[1..][i] == t[i + 1];
      }
      PlainCounts(t[1..]);
      if t[0].node.Dir? {
        PlainCounts(t[0].node.entries);
      }
    }
  }

  // ---- what is passed over ----

  lemma {:induction false} ConcatTotals(a: Tree, b: Tree)
    ensures TrueSize(a + b) == TrueSize(a) + TrueSize(b) && ScanCount(a + b) == ScanCount(a) + ScanCount(b)
  {
    if a == [] {
      assert a + b == b;
    } else {
      assert (a + b)[0] == a[0] && (a + b)[1..] == a[1..] + b;
      ConcatTotals(a[1..], b);
    }
  }

  lemma {:induction false} ConcatChildren(a: Tree, b: Tree)
    ensures Children(a + b) == Children(a) + Children(b)
  {
    if a == [] {
      assert a + b == b;
    } else {
      assert (a + b)[0] == a[0] && (a + b)[1..] == a[1..] + b;
      ConcatChildren(a[1..], b);
    }
  }

  lemma OneTotals(e: Entry)
    ensures TrueSize([e]) == VisibleSize(e, TrueSize(Below(e)))
    ensures ScanCount([e]) == 1 + if Supported(e) then ScanCount(Below(e)) else 0
    ensures Children([e]) == if Supported(e) then [e] else []
  {
    assert [e][1..] == [];
  }

  lemma UnservedIsNoChild(a: Tree, e: Entry, b: Tree)
    requires !IsServed(e)
    ensures Children(a + [e] + b) == Children(a + b)
  {
    ConcatChildren(a + [e], b);
    ConcatChildren(a, [e]);
    ConcatChildren(a, b);
    OneTotals(e);
  }

  /** Files with other links, special files and unlisted entries add nothing to a folder's size, are
      never archived, and are not descended into, wherever they are. */
  lemma UnservedAddNothing(a: Tree, e: Entry, b: Tree, prefix: Path)
    requires !IsServed(e)
    ensures TrueSize(a + [e] + b) == TrueSize(a + b) && ScanCount(a + [e] + b) == ScanCount(a + b) + 1
    ensures Items(a + [e] + b, prefix) == Items(a + b, prefix)
  {
    ConcatTotals(a + [e], b);
    ConcatTotals(a, [e]);
    ConcatTotals(a, b);
    OneTotals(e);
    UnservedIsNoChild(a, e, b);
    SameChildrenSameItems(a + [e] + b, a + b, prefix);
  }

  lemma SameChildrenSameItems(s: Tree, t: Tree, prefix: Path)
    requires Children(s) == Children(t)
    ensures Items(s, prefix) == Items(t, prefix)
  {
  }

  /** A served file counts with its size, a served directory with what is in it. */
  lemma ServedCount(a: Tree, e: Entry, b: Tree)
    requires IsServed(e)
    ensures TrueSize(a + [e] + b) == TrueSize(a + b) + if e.node.File? then e.node.size else TrueSize(e.node.entries)
  {
    ConcatTotals(a + [e], b);
    ConcatTotals(a, [e]);
    ConcatTotals(a, b);
    OneTotals(e);
  }

  // ---- what keeps a walk from being complete ----

  /** What is descended into: for the quota, every directory that is not this process's own; otherwise
      listed directories without a fault. */
  predicate Descends(quota: bool, c: Entry) {
    c.node.Dir? && if quota then !c.own else c.listed && c.fault.Fine?
  }

  /** The walk comes to the entry `e` by this path. */
  ghost predicate Reaches(quota: bool, t: Tree, path: Path, e: Entry)
    decreases |path|, 1
  {
    path != [] && exists i :: 0 <= i < |t| && ReachesFrom(quota, t[i], path, e)
  }

  ghost predicate ReachesFrom(quota: bool, c: Entry, path: Path, e: Entry)
    decreases |path|, 0
  {
    && path != [] && c.name == path[0]
    && (if |path| == 1 then c == e
        else Descends(quota, c) && Reaches(quota, c.node.entries, path[1..], e))
  }

  /** The entry can be read, and if it counts it is not too deep, and its directory can be opened. */
  predicate IsSoundAt(quota: bool, e: Entry, depth: nat) {
    && !e.fault.BadEntry? && ((if quota then !e.own else e.listed) ==> !e.fault.BadStat?)
    && ((if quota then !e.own else IsServed(e)) ==> depth <= MAX_PATH_DEPTH && (e.node.Dir? ==> e.node.readable))
  }

  ghost predicate IsSound(quota: bool, t: Tree, depth: nat) {
    forall path, e :: Reaches(quota, t, path, e) ==> IsSoundAt(quota, e, depth + |path|)
  }

  lemma ReachesFirst(quota: bool, t: Tree, path: Path, e: Entry)
    requires t != [] && path != []
    ensures Reaches(quota, t, path, e) <==> ReachesFrom(quota, t[0], path, e) || Reaches(quota, t[1..], path, e)
  {
    if Reaches(quota, t, path, e) {
      var i :| 0 <= i < |t| && ReachesFrom(quota, t[i], path, e);
      if i > 0 {
        assert t[1..][i - 1] == t[i];
      }
    }
    if Reaches(quota, t[1..], path, e) {
      var i :| 0 <= i < |t[1..]| && ReachesFrom(quota, t[1..][i], path, e);
      assert t[i + 1] == t[1..][i];
    }
  }

  lemma ReachesBelow(quota: bool, c: Entry, path: Path, e: Entry)
    requires Descends(quota, c) && Reaches(quota, c.node.entries, path, e)
    ensures ReachesFrom(quota, c, [c.name] + path, e)
  {
    assert ([c.name] + path)[1..] == path;
  }

  /** The first entry's share. */
  ghost predicate IsSoundFrom(quota: bool, c: Entry, depth: nat) {
    IsSoundAt(quota, c, depth + 1) && (Descends(quota, c) ==> IsSound(quota, c.node.entries, depth + 1))
  }

  lemma SoundFirst(quota: bool, t: Tree, depth: nat)
    requires t != []
    ensures IsSound(quota, t, depth) <==> IsSoundFrom(quota, t[0], depth) && IsSound(quota, t[1..], depth)
  {
    var c := t[0];
    if IsSound(quota, t, depth) {
      assert Reaches(quota, t, [c.name], c) by {
        assert ReachesFrom(quota, t[0], [c.name], c);
      }
      if Descends(quota, c) {
        forall path, e | Reaches(quota, c.node.entries, path, e) ensures IsSoundAt(quota, e, depth + 1 + |path|) {
          ReachesBelow(quota, c, path, e);
          ReachesFirst(quota, t, [c.name] + path, e);
        }
      }
      forall path, e | Reaches(quota, t[1..], path, e) ensures IsSoundAt(quota, e, depth + |path|) {
        ReachesFirst(quota, t, path, e);
      }
    }
    if IsSoundFrom(quota, c, depth) && IsSound(quota, t[1..], depth) {
      forall path, e | Reaches(quota, t, path, e) ensures IsSoundAt(quota, e, depth + |path|) {
        ReachesFirst(quota, t, path, e);
        if ReachesFrom(quota, c, path, e) && |path| > 1 {
          assert Reaches(quota, c.node.entries, path[1..], e);
        }
      }
    }
  }

  /** A walk is complete exactly when every entry it comes to is sound. */
  lemma {:induction false} CleanIff(t: Tree, depth: nat)
    ensures Clean(t, depth) <==> IsSound(false, t, depth)
    decreases Weight(t)
  {
    if t != [] {
      SoundFirst(false, t, depth);
      CleanIff(t[1..], depth);
      if t[0].node.Dir? {
        CleanIff(t[0].node.entries, depth + 1);
      }
    }
  }

  /** So it is for the quota, whose walk comes to every entry but those in directories of its own. */
  lemma {:induction false} MeasurableIff(t: Tree, depth: nat)
    ensures UsageWalks.Measurable(t, depth) <==> IsSound(true, t, depth)
    decreases Weight(t)
  {
    if t != [] {
      SoundFirst(true, t, depth);
      MeasurableIff(t[1..], depth);
      MeasurableIff(Below(t[0]), depth + 1);
    }
  }

  // ---- the quota ----

  lemma {:induction false} ConcatUsage(a: Tree, b: Tree)
    ensures UsageWalks.Usage(a + b) == UsageWalks.Usage(a) + UsageWalks.Usage(b)
    ensures UsageWalks.UsageCount(a + b) == UsageWalks.UsageCount(a) + UsageWalks.UsageCount(b)
  {
    if a == [] {
      assert a + b == b;
    } else {
      assert (a + b)[0] == a[0] && (a + b)[1..] == a[1..] + b;
      ConcatUsage(a[1..], b);
    }
  }

  /** Wherever an entry is, the quota charges it unless it is this process's own: a file with its size,
      whatever links it has, a directory with a block and what is in it, and nothing else. Every entry
      counts as visited, with what is in it unless it is this process's own. */
  lemma EntryUsage(a: Tree, e: Entry, b: Tree)
    ensures UsageWalks.Usage(a + [e] + b) == UsageWalks.Usage(a + b)
            + if e.own then 0
              else match e.node
                case File(size, _) => size
                case Dir(_, entries) => DIRECTORY_QUOTA_BYTES + UsageWalks.Usage(entries)
                case Special => 0
    ensures UsageWalks.UsageCount(a + [e] + b) == UsageWalks.UsageCount(a + b) + 1
            + if !e.own && e.node.Dir? then UsageWalks.UsageCount(e.node.entries) else 0
  {
    ConcatUsage(a + [e], b);
    ConcatUsage(a, [e]);
    ConcatUsage(a, b);
    assert [e][1..] == [];
  }
}
