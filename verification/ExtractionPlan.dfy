/**
 What the entries of an archive come to, as plain sets and numbers: which paths there are, which of
 them are files, which are explicit, and how many bytes they hold. One more entry is placed exactly
 when it clashes with nothing and the totals with it fit.
 */
module ExtractionPlans {
  import opened Common
  import opened VirtualPaths
  import opened Extraction

  /** A located archive entry. */
  datatype Item = Item(path: Path, kind: Kind, body: Bytes)

  function BodyBytes(item: Item): nat {
    if item.kind.File? then |item.body| else 0
  }

  /** All paths, implicit parents included; the files; the explicit entries; and the file bytes. */
  datatype Plan = Plan(all: set<Path>, files: set<Path>, explicit: set<Path>, bytes: nat)

  ghost predicate IsPlan(p: Plan) {
    p.files <= p.explicit <= p.all
  }

  ghost function NameBytes(paths: set<Path>): nat {
    if paths == {} then 0
    else
      var p :| p in paths;
      |Display(p)| + NameBytes(paths - {p})
  }

  /** The quota charge: one block for the root and for each directory, and the file bytes. */
  function PlanCharge(p: Plan): nat {
    DIRECTORY_QUOTA_BYTES * (1 + |p.all - p.files|) + p.bytes
  }

  ghost predicate PlanFits(cfg: Config, p: Plan) {
    && |p.all| <= cfg.maxEntries
    && NameBytes(p.all) <= cfg.maxNameBytes
    && p.bytes <= cfg.maxBytes
    && PlanCharge(p) <= cfg.maxCharge
  }

  lemma {:induction false} NameBytesRemove(paths: set<Path>, x: Path)
    requires x in paths
    ensures NameBytes(paths) == |Display(x)| + NameBytes(paths - {x})
    decreases |paths|
  {
    var p :| p in paths && NameBytes(paths) == |Display(p)| + NameBytes(paths - {p});
    if p != x {
      NameBytesRemove(paths - {p}, x);
      NameBytesRemove(paths - {x}, p);
      assert paths - {p} - {x} == paths - {x} - {p};
    }
  }

  lemma NameBytesAdd(paths: set<Path>, x: Path)
    requires x !in paths
    ensures NameBytes(paths + {x}) == NameBytes(paths) + |Display(x)|
  {
    NameBytesRemove(paths + {x}, x);
    assert paths + {x} - {x} == paths;
  }

  lemma {:induction false} NameBytesMonotone(small: set<Path>, large: set<Path>)
    requires small <= large
    ensures NameBytes(small) <= NameBytes(large)
    decreases |large|
  {
    if small != large {
      var x :| x in large && x !in small;
      NameBytesRemove(large, x);
      NameBytesMonotone(small, large - {x});
    }
  }

  lemma {:induction false} NameBytesUnion(a: set<Path>, b: set<Path>)
    requires a !! b
    ensures NameBytes(a + b) == NameBytes(a) + NameBytes(b)
    decreases |b|
  {
    if b == {} {
      assert a + b == a;
    } else {
      var x :| x in b;
      NameBytesUnion(a, b - {x});
      NameBytesRemove(b, x);
      NameBytesRemove(a + b, x);
      assert a + b - {x} == a + (b - {x});
    }
  }

  // ---- the parents of an entry ----

  function Prefixes(path: Path, n: nat): set<Path>
    requires n <= |path|
  {
    set k | 1 <= k <= n :: path[..k]
  }

  lemma PrefixesStep(path: Path, n: nat)
    requires 1 <= n <= |path|
    ensures Prefixes(path, n) == Prefixes(path, n - 1) + {path[..n]}
    ensures path[..n] !in Prefixes(path, n - 1)
  {
  }

  /** The limits that `add` enforces. */
  predicate Within(cfg: Config, s: State) {
    |s.entries.Keys| <= cfg.maxEntries && s.names <= cfg.maxNameBytes && s.charge <= cfg.maxCharge
  }

  /** The staged tree holds what was recorded, and nothing else. */
  ghost predicate TreeAgrees(s: State) {
    && s.tree.Keys == s.entries.Keys
    && forall p :: p in s.entries ==> (s.tree[p].Folder? <==> s.entries[p].kind.Directory?)
  }

  /** `t` is `s` with these folders recorded as implicit parents where they were not recorded. */
  ghost predicate AddsFolders(s: State, t: State, paths: set<Path>) {
    AddsMaps(s, t, paths) && AddsTotals(s, t, paths - s.entries.Keys)
  }

  /** The states that recording these folders can lead to: exactly one. */
  ghost function WithFolders(s: State, paths: set<Path>): iset<State> {
    iset t: State | AddsFolders(s, t, paths)
  }

  ghost predicate AddsMaps(s: State, t: State, paths: set<Path>) {
    && t.entries.Keys == s.entries.Keys + paths
    && (forall p :: p in t.entries ==> t.entries[p] == if p in s.entries then s.entries[p] else Recorded(Directory, false))
    && t.tree.Keys == s.tree.Keys + paths
    && (forall p :: p in t.tree ==> t.tree[p] == if p in s.tree then s.tree[p] else Folder)
  }

  ghost predicate AddsTotals(s: State, t: State, extra: set<Path>) {
    && t.names == s.names + NameBytes(extra)
    && t.charge == s.charge + DIRECTORY_QUOTA_BYTES * |extra|
    && t.bytes == s.bytes
  }

  /** Room for these folders on top of what is recorded. */
  ghost predicate FoldersFit(cfg: Config, s: State, extra: set<Path>) {
    && |s.entries.Keys| + |extra| <= cfg.maxEntries
    && s.names + NameBytes(extra) <= cfg.maxNameBytes
    && s.charge + DIRECTORY_QUOTA_BYTES * |extra| <= cfg.maxCharge
  }

  /** None of the first `n` ancestors is recorded as a file. */
  predicate NoFileAbove(s: State, path: Path, n: nat)
    requires n <= |path|
  {
    forall k :: 1 <= k <= n ==> NoFileAt(s, path[..k])
  }

  predicate NoFileAt(s: State, path: Path) {
    path in s.entries ==> s.entries[path].kind.Directory?
  }

  lemma FoldersFitMonotone(cfg: Config, s: State, small: set<Path>, large: set<Path>)
    requires small <= large && FoldersFit(cfg, s, large)
    ensures FoldersFit(cfg, s, small)
  {
    NameBytesMonotone(small, large);
    assert |large| == |small| + |large - small| by {
      assert large == small + (large - small);
    }
  }

  lemma AddsFoldersCount(s: State, t: State, paths: set<Path>)
    requires TreeAgrees(s) && AddsFolders(s, t, paths)
    ensures TreeAgrees(t) && |t.entries.Keys| == |s.entries.Keys| + |paths - s.entries.Keys|
  {
    assert t.entries.Keys == s.entries.Keys + (paths - s.entries.Keys);
    assert |t.entries.Keys| == |s.entries.Keys| + |paths - s.entries.Keys|;
  }

  /** A folder that is already recorded changes nothing. */
  lemma AddsKnownFolder(s: State, t: State, paths: set<Path>, q: Path)
    requires TreeAgrees(s) && AddsFolders(s, t, paths) && q in s.entries && s.entries[q].kind.Directory?
    ensures Record(t, q, Directory, false) == t && AddsFolders(s, t, paths + {q})
  {
    assert t.entries[q := t.entries[q]] == t.entries;
    assert (paths + {q}) - s.entries.Keys == paths - s.entries.Keys;
  }

  lemma ExtraStep(keys: set<Path>, paths: set<Path>, q: Path)
    requires q !in keys && q !in paths
    ensures (paths + {q}) - keys == (paths - keys) + {q}
    ensures |(paths + {q}) - keys| == |paths - keys| + 1
    ensures NameBytes((paths + {q}) - keys) == NameBytes(paths - keys) + |Display(q)|
  {
    assert (paths + {q}) - keys == (paths - keys) + {q};
    NameBytesAdd(paths - keys, q);
  }

  lemma AddsNewMaps(s: State, t: State, paths: set<Path>, q: Path)
    requires TreeAgrees(s) && AddsMaps(s, t, paths) && q !in s.entries && q !in paths
    ensures q !in t.entries && AddsMaps(s, Record(t, q, Directory, false), paths + {q})
  {
  }

  lemma AddsNewFolder(s: State, t: State, paths: set<Path>, q: Path)
    requires TreeAgrees(s) && AddsFolders(s, t, paths) && q !in s.entries && q !in paths
    ensures AddsFolders(s, Record(t, q, Directory, false), paths + {q})
  {
    AddsNewMaps(s, t, paths, q);
    ExtraStep(s.entries.Keys, paths, q);
  }

  /** The first `n` ancestors can be recorded: none is a file, and the new folders fit. */
  ghost predicate ParentsFit(cfg: Config, s: State, path: Path, n: nat)
    requires n <= |path|
  {
    NoFileAbove(s, path, n) && FoldersFit(cfg, s, Prefixes(path, n) - s.entries.Keys)
  }

  lemma NoParents(cfg: Config, s: State, path: Path)
    requires 0 < |path| && Within(cfg, s) && TreeAgrees(s)
    ensures AddParents(cfg, s, path, 0) == Ok(s) && ParentsFit(cfg, s, path, 0) && s in WithFolders(s, Prefixes(path, 0))
  {
    assert Prefixes(path, 0) == {};
    assert Prefixes(path, 0) - s.entries.Keys == {};
  }

  /** The parent loop succeeds exactly when no ancestor is a file and the new folders fit. */
  lemma {:induction false} ParentsExact(cfg: Config, s: State, path: Path, n: nat)
    requires n < |path| && Within(cfg, s) && TreeAgrees(s)
    ensures AddParents(cfg, s, path, n).Ok? == ParentsFit(cfg, s, path, n)
    ensures AddParents(cfg, s, path, n).Ok? ==> AddParents(cfg, s, path, n).value in WithFolders(s, Prefixes(path, n))
  {
    if n == 0 {
      NoParents(cfg, s, path);
    } else {
      ParentsExact(cfg, s, path, n - 1);
      if AddParents(cfg, s, path, n - 1).Ok? {
        NextParent(cfg, s, AddParents(cfg, s, path, n - 1).value, path, n);
      } else {
        ParentFails(cfg, s, path, n);
      }
    }
  }

  lemma ParentFails(cfg: Config, s: State, path: Path, n: nat)
    requires 1 <= n < |path| && AddParents(cfg, s, path, n - 1).Err? && ParentsFit(cfg, s, path, n - 1) == false
    ensures AddParents(cfg, s, path, n).Err? && ParentsFit(cfg, s, path, n) == false
  {
    ParentsStayUnfit(cfg, s, path, n);
  }

  lemma NextParent(cfg: Config, s: State, t: State, path: Path, n: nat)
    requires 1 <= n < |path| && TreeAgrees(s) && AddParents(cfg, s, path, n - 1) == Ok(t)
    requires t in WithFolders(s, Prefixes(path, n - 1)) && ParentsFit(cfg, s, path, n - 1) == true
    ensures AddParents(cfg, s, path, n).Ok? == ParentsFit(cfg, s, path, n)
    ensures AddParents(cfg, s, path, n).Ok? ==> AddParents(cfg, s, path, n).value in WithFolders(s, Prefixes(path, n))
  {
    assert AddParents(cfg, s, path, n) == Add(cfg, t, path[..n], Directory, false);
    ParentStep(cfg, s, t, path, n);
  }

  lemma NoFileAboveStep(s: State, path: Path, n: nat)
    requires 1 <= n <= |path|
    ensures NoFileAbove(s, path, n)
       <==> NoFileAbove(s, path, n - 1) && NoFileAt(s, path[..n])
  {
  }

  /** What stops the first ancestors stops all of them. */
  lemma ParentsStayUnfit(cfg: Config, s: State, path: Path, n: nat)
    requires 1 <= n < |path|
    requires ParentsFit(cfg, s, path, n - 1) == false
    ensures ParentsFit(cfg, s, path, n) == false
  {
    NoFileAboveStep(s, path, n);
    PrefixesStep(path, n);
    if FoldersFit(cfg, s, Prefixes(path, n) - s.entries.Keys) {
      FoldersFitMonotone(cfg, s, Prefixes(path, n - 1) - s.entries.Keys, Prefixes(path, n) - s.entries.Keys);
    }
  }

  /** The parent of the next folder is already one. */
  lemma ParentReady(s: State, t: State, path: Path, n: nat)
    requires 1 <= n < |path| && TreeAgrees(s) && AddsMaps(s, t, Prefixes(path, n - 1)) && NoFileAbove(s, path, n - 1)
    ensures ParentIsFolder(t.tree, path[..n])
  {
    if n > 1 {
      assert path[..n][..n - 1] == path[..n - 1];
      assert path[..n - 1] in Prefixes(path, n - 1);
    }
  }

  /** Recording a folder that is not recorded yet works exactly when there is room. */
  lemma AddNewFolderExact(cfg: Config, s: State, t: State, before: set<Path>, q: Path)
    requires q != [] && q !in before && TreeAgrees(s) && AddsFolders(s, t, before) && ParentIsFolder(t.tree, q)
    requires q !in s.entries
    ensures
      var r := Add(cfg, t, q, Directory, false);
      && (r.Ok? <==> FoldersFit(cfg, s, (before + {q}) - s.entries.Keys))
      && (r.Ok? ==> r.value == Record(t, q, Directory, false))
  {
    AddsFoldersCount(s, t, before);
    ExtraStep(s.entries.Keys, before, q);
    assert q !in t.entries && q !in t.tree;
  }

  /** Recording one more folder works exactly when it is not a file already and there is room. */
  lemma AddFolderExact(cfg: Config, s: State, t: State, before: set<Path>, q: Path)
    requires q != [] && q !in before && TreeAgrees(s) && t in WithFolders(s, before) && ParentIsFolder(t.tree, q)
    requires FoldersFit(cfg, s, before - s.entries.Keys)
    ensures
      var r := Add(cfg, t, q, Directory, false);
      && (r.Ok? <==> (q in s.entries ==> s.entries[q].kind.Directory?) && FoldersFit(cfg, s, (before + {q}) - s.entries.Keys))
      && (r.Ok? ==> r.value in WithFolders(s, before + {q}))
  {
    if q !in s.entries {
      AddNewFolderExact(cfg, s, t, before, q);
      AddsNewFolder(s, t, before, q);
    } else {
      assert (before + {q}) - s.entries.Keys == before - s.entries.Keys;
      var r := Add(cfg, t, q, Directory, false);
      assert t.entries[q] == s.entries[q];
      if s.entries[q].kind.Directory? {
        assert r == Ok(Record(t, q, Directory, false));
        AddsKnownFolder(s, t, before, q);
      } else {
        assert r == Err(Invalid);
      }
    }
  }

  lemma ParentStep(cfg: Config, s: State, t: State, path: Path, n: nat)
    requires 1 <= n < |path| && TreeAgrees(s)
    requires t in WithFolders(s, Prefixes(path, n - 1)) && ParentsFit(cfg, s, path, n - 1) == true
    ensures Add(cfg, t, path[..n], Directory, false).Ok? == ParentsFit(cfg, s, path, n)
    ensures Add(cfg, t, path[..n], Directory, false).Ok? ==>
      Add(cfg, t, path[..n], Directory, false).value in WithFolders(s, Prefixes(path, n))
  {
    var before, q := Prefixes(path, n - 1), path[..n];
    assert Prefixes(path, n) == before + {q} && q !in before by { PrefixesStep(path, n); }
    ParentReady(s, t, path, n);
    NoFileAboveStep(s, path, n);
    AddFolderExact(cfg, s, t, before, q);
  }

  /** The entry's own path has its parent in the tree. */
  lemma OwnParentReady(s: State, t: State, path: Path)
    requires path != [] && TreeAgrees(s) && AddsMaps(s, t, Prefixes(path, |path| - 1)) && NoFileAbove(s, path, |path| - 1)
    ensures ParentIsFolder(t.tree, path)
  {
    if |path| > 1 {
      assert path[..|path| - 1] in Prefixes(path, |path| - 1);
    }
  }

  /** An `add` without a clash succeeds exactly when the recorded entry is within the limits. */
  lemma AddExact(cfg: Config, t: State, p: Path, kind: Kind)
    requires p != [] && Compatible(t, p, kind, true) && TreeAgrees(t) && Within(cfg, t) && ParentIsFolder(t.tree, p)
    ensures
      var r, u := Add(cfg, t, p, kind, true), Record(t, p, kind, true);
      (r.Ok? <==> Within(cfg, u)) && (r.Ok? ==> r.value == u)
  {
    OwnCounts(t, p, kind);
  }

  lemma SelfCounts(all: set<Path>, p: Path)
    ensures |{p} - all| == (if p in all then 0 else 1)
    ensures NameBytes({p} - all) == (if p in all then 0 else |Display(p)|)
  {
    if p in all {
      assert {p} - all == {};
    } else {
      assert {p} - all == {} + {p};
      NameBytesAdd({}, p);
    }
  }

  lemma OwnCounts(t: State, p: Path, kind: Kind)
    ensures
      var u, unseen := Record(t, p, kind, true), p !in t.entries;
      && |u.entries.Keys| == |t.entries.Keys| + (if unseen then 1 else 0)
      && u.names == t.names + (if unseen then |Display(p)| else 0) && u.bytes == t.bytes
      && u.charge == t.charge + (if unseen && kind.Directory? then DIRECTORY_QUOTA_BYTES else 0)
  {
    var u := Record(t, p, kind, true);
    assert u.entries.Keys == t.entries.Keys + {p};
  }

  // ---- one more entry ----

  function Grown(p: Plan, item: Item): Plan {
    Plan(p.all + Prefixes(item.path, |item.path|), p.files + (if item.kind.File? then {item.path} else {}),
         p.explicit + {item.path}, p.bytes + BodyBytes(item))
  }

  /** No file is in the item's way, and nothing explicit, or for a file nothing at all, has its path. */
  ghost predicate Clear(p: Plan, item: Item) {
    && item.path != [] && Prefixes(item.path, |item.path| - 1) !! p.files
    && item.path !in p.explicit && (item.kind.File? ==> item.path !in p.all)
  }

  lemma OwnNotAbove(p: Path)
    requires p != []
    ensures p !in Prefixes(p, |p| - 1) && Prefixes(p, |p|) == Prefixes(p, |p| - 1) + {p}
  {
    assert p[..|p|] == p;
    PrefixesStep(p, |p|);
  }

  /** All paths, with the new ones apart. */
  lemma GrownAll(p: Plan, item: Item, extra: set<Path>, self: set<Path>)
    requires item.path != []
    requires extra == Prefixes(item.path, |item.path| - 1) - p.all && self == {item.path} - p.all
    ensures Grown(p, item).all == p.all + extra + self
    ensures extra !! p.all && self !! p.all && self !! extra
  {
    OwnNotAbove(item.path);
  }

  lemma SizesOfUnion(a: set<Path>, b: set<Path>, c: set<Path>)
    requires a !! b && a !! c && b !! c
    ensures |a + b + c| == |a| + |b| + |c|
    ensures NameBytes(a + b + c) == NameBytes(a) + NameBytes(b) + NameBytes(c)
  {
    assert |a + b + c| == |a + b| + |c| && |a + b| == |a| + |b|;
    NameBytesUnion(a + b, c);
    NameBytesUnion(a, b);
  }

  /** The folders, with the new ones apart. */
  lemma GrownFolders(p: Plan, item: Item, extra: set<Path>, self: set<Path>)
    requires IsPlan(p) && Clear(p, item)
    requires extra == Prefixes(item.path, |item.path| - 1) - p.all && self == {item.path} - p.all
    ensures Grown(p, item).all - Grown(p, item).files
         == (p.all - p.files) + extra + (if item.kind.Directory? then self else {})
  {
    GrownAll(p, item, extra, self);
    OwnNotAbove(item.path);
  }

  lemma CountOfUnion(a: set<Path>, b: set<Path>, c: set<Path>)
    requires a !! b && a !! c && b !! c
    ensures |a + b + c| == |a| + |b| + |c|
  {
    assert |a + b + c| == |a + b| + |c| && |a + b| == |a| + |b|;
  }

  /** What one more item adds. */
  lemma Gains(p: Plan, item: Item, extra: set<Path>)
    requires IsPlan(p) && Clear(p, item) && extra == Prefixes(item.path, |item.path| - 1) - p.all
    ensures
      var g, unseen := Grown(p, item), item.path !in p.all;
      && |g.all| == |p.all| + |extra| + (if unseen then 1 else 0)
      && NameBytes(g.all) == NameBytes(p.all) + NameBytes(extra) + (if unseen then |Display(item.path)| else 0)
      && |g.all - g.files| == |p.all - p.files| + |extra| + (if unseen && item.kind.Directory? then 1 else 0)
  {
    var self := {item.path} - p.all;
    SelfCounts(p.all, item.path);
    GrownAll(p, item, extra, self);
    SizesOfUnion(p.all, extra, self);
    GrownFolders(p, item, extra, self);
    CountOfUnion(p.all - p.files, extra, if item.kind.Directory? then self else {});
  }

  // ---- the state that a plan calls for ----

  ghost predicate RecordsSets(all: set<Path>, files: set<Path>, explicit: set<Path>, entries: map<Path, Recorded>) {
    && entries.Keys == all
    && (forall p :: p in entries ==> (entries[p].kind.File? <==> p in files))
    && (forall p :: p in entries ==> (entries[p].explicit <==> p in explicit))
  }

  ghost predicate FoldersElsewhere(all: set<Path>, files: set<Path>, tree: Tree) {
    tree.Keys == all && forall p :: p in tree && p !in files ==> tree[p] == Folder
  }

  ghost predicate RecordsMaps(p: Plan, s: State) {
    RecordsSets(p.all, p.files, p.explicit, s.entries) && FoldersElsewhere(p.all, p.files, s.tree)
  }

  ghost predicate RecordsTotals(p: Plan, s: State) {
    s.names == NameBytes(p.all) && s.bytes == p.bytes && s.charge == PlanCharge(p)
  }

  /** Everything but the contents of files. */
  ghost predicate Records(p: Plan, s: State) {
    RecordsMaps(p, s) && RecordsTotals(p, s)
  }

  lemma RecordsSetsSnoc(all: set<Path>, files: set<Path>, explicit: set<Path>, s: State, t: State,
                        above: set<Path>, p: Path, kind: Kind)
    requires RecordsSets(all, files, explicit, s.entries) && AddsMaps(s, t, above)
    requires files <= explicit <= all && above !! files && p !in above && p !in explicit
    requires kind.File? ==> p !in all
    ensures RecordsSets(all + above + {p}, files + (if kind.File? then {p} else {}), explicit + {p},
                        Record(t, p, kind, true).entries)
  {
    var u := Record(t, p, kind, true);
    assert u.entries.Keys == all + above + {p};
  }

  lemma FoldersElsewhereSnoc(all: set<Path>, files: set<Path>, s: State, t: State, above: set<Path>, p: Path, kind: Kind, node: Node, tree: Tree)
    requires FoldersElsewhere(all, files, s.tree) && AddsMaps(s, t, above)
    requires above !! files && p !in above && p !in files
    requires tree == if kind.Directory? && p in t.tree then t.tree else t.tree[p := if kind.File? then node else Folder]
    ensures FoldersElsewhere(all + above + {p}, files + (if kind.File? then {p} else {}), tree)
  {
    assert tree.Keys == all + above + {p};
  }

  /** The parents of an item add what the plan gains by them. */
  lemma ParentsAdded(p: Plan, s: State, t: State, path: Path, extra: set<Path>)
    requires path != [] && s.entries.Keys == p.all && TreeAgrees(s)
    requires AddsFolders(s, t, Prefixes(path, |path| - 1)) && extra == Prefixes(path, |path| - 1) - p.all
    ensures AddsTotals(s, t, extra) && |t.entries.Keys| == |s.entries.Keys| + |extra|
    ensures path in t.entries <==> path in p.all
  {
    OwnNotAbove(path);
    AddsFoldersCount(s, t, Prefixes(path, |path| - 1));
  }

  /** The totals once the item is recorded, but for the file bytes. */
  ghost predicate RecordedTotals(g: Plan, item: Item, u: State) {
    && |u.entries.Keys| == |g.all| && u.names == NameBytes(g.all)
    && u.bytes + BodyBytes(item) == g.bytes && u.charge + BodyBytes(item) == PlanCharge(g)
  }

  lemma TotalsGrow(p: Plan, s: State, t: State, item: Item, extra: set<Path>)
    requires IsPlan(p) && Clear(p, item) && extra == Prefixes(item.path, |item.path| - 1) - p.all
    requires s.entries.Keys == p.all && RecordsTotals(p, s) && AddsTotals(s, t, extra)
    requires |t.entries.Keys| == |s.entries.Keys| + |extra| && (item.path in t.entries <==> item.path in p.all)
    ensures RecordedTotals(Grown(p, item), item, Record(t, item.path, item.kind, true))
  {
    Gains(p, item, extra);
    TotalsAddUp(p, Grown(p, item), s, t, item, |extra|, NameBytes(extra));
  }

  lemma TotalsAddUp(p: Plan, g: Plan, s: State, t: State, item: Item, extra: nat, names: nat)
    requires
      var unseen := item.path !in p.all;
      && |g.all| == |p.all| + extra + (if unseen then 1 else 0)
      && NameBytes(g.all) == NameBytes(p.all) + names + (if unseen then |Display(item.path)| else 0)
      && |g.all - g.files| == |p.all - p.files| + extra + (if unseen && item.kind.Directory? then 1 else 0)
      && g.bytes == p.bytes + BodyBytes(item)
    requires RecordsTotals(p, s) && t.names == s.names + names && t.bytes == s.bytes
    requires t.charge == s.charge + DIRECTORY_QUOTA_BYTES * extra
    requires |t.entries.Keys| == |p.all| + extra && (item.path in t.entries <==> item.path in p.all)
    ensures RecordedTotals(g, item, Record(t, item.path, item.kind, true))
  {
    OwnCounts(t, item.path, item.kind);
  }

  lemma RecordingTotals(p: Plan, s: State, t: State, item: Item)
    requires IsPlan(p) && Clear(p, item) && Records(p, s) && TreeAgrees(s)
    requires AddsFolders(s, t, Prefixes(item.path, |item.path| - 1))
    ensures RecordedTotals(Grown(p, item), item, Record(t, item.path, item.kind, true))
  {
    var extra := Prefixes(item.path, |item.path| - 1) - p.all;
    ParentsAdded(p, s, t, item.path, extra);
    TotalsGrow(p, s, t, item, extra);
  }

  lemma OwnAddExact(cfg: Config, s: State, t: State, p: Path, kind: Kind)
    requires p != [] && TreeAgrees(s) && t in WithFolders(s, Prefixes(p, |p| - 1)) && Within(cfg, t)
    requires NoFileAbove(s, p, |p| - 1) && Compatible(t, p, kind, true)
    ensures
      var r, u := Add(cfg, t, p, kind, true), Record(t, p, kind, true);
      (r.Ok? <==> Within(cfg, u)) && (r.Ok? ==> r.value == u)
  {
    AddsFoldersCount(s, t, Prefixes(p, |p| - 1));
    OwnParentReady(s, t, p);
    AddExact(cfg, t, p, kind);
  }

  lemma WriteExact(cfg: Config, u: State, p: Path, e: ArchiveEntry)
    requires p != [] && p !in u.tree && ParentIsFolder(u.tree, p) && u.bytes <= cfg.maxBytes && u.charge <= cfg.maxCharge
    ensures
      var r := WriteBody(cfg, u, p, e);
      && (r.Ok? <==> |e.body| == e.size && u.bytes + |e.body| <= cfg.maxBytes && u.charge + |e.body| <= cfg.maxCharge)
      && (r.Ok? ==> r.value == u.(bytes := u.bytes + |e.body|, charge := u.charge + |e.body|, tree := u.tree[p := Contents(e.body)]))
  {
  }

  /** What is staged once the item is recorded, and for a file written. */
  ghost predicate Finished(t: State, item: Item, v: State) {
    var u := Record(t, item.path, item.kind, true);
    && v.entries == u.entries && v.names == u.names
    && v.bytes == u.bytes + BodyBytes(item) && v.charge == u.charge + BodyBytes(item)
    && v.tree == if item.kind.File? then t.tree[item.path := Contents(item.body)] else u.tree
  }

  /** The outcome of recording and writing, in terms of the recorded state. */
  lemma FinishSteps(cfg: Config, t: State, e: ArchiveEntry, item: Item)
    requires item.path != [] && item.kind == e.kind && item.body == e.body && t.bytes <= cfg.maxBytes
    requires AddIsOpen(cfg, t, item.path, item.kind) && WriteIsOpen(t, item)
    ensures
      var r, u := Finish(cfg, t, item.path, e), Record(t, item.path, item.kind, true);
      && (r.Ok? <==> && (e.kind.File? ==> |e.body| == e.size) && |u.entries.Keys| <= cfg.maxEntries && u.names <= cfg.maxNameBytes
                     && u.bytes + BodyBytes(item) <= cfg.maxBytes && u.charge + BodyBytes(item) <= cfg.maxCharge)
      && (r.Ok? ==> Finished(t, item, r.value))
  {
    var u := Record(t, item.path, item.kind, true);
    if Within(cfg, u) && item.kind.File? {
      WriteExact(cfg, u, item.path, e);
    }
  }

  // ---- placing an entry ----

  /** The entry's path is free in the state, and no ancestor is a file. */
  predicate Free(s: State, item: Item)
    requires item.path != []
  {
    NoFileAbove(s, item.path, |item.path| - 1) && Compatible(s, item.path, item.kind, true)
  }

  lemma NoFileAboveIff(p: Plan, s: State, path: Path)
    requires path != [] && IsPlan(p) && RecordsSets(p.all, p.files, p.explicit, s.entries)
    ensures NoFileAbove(s, path, |path| - 1) <==> Prefixes(path, |path| - 1) !! p.files
  {
    if NoFileAbove(s, path, |path| - 1) {
      forall q | q in Prefixes(path, |path| - 1) ensures q !in p.files {
        var k :| 1 <= k <= |path| - 1 && q == path[..k];
      }
    } else {
      var k :| 1 <= k <= |path| - 1 && path[..k] in s.entries && s.entries[path[..k]].kind.File?;
      assert path[..k] in Prefixes(path, |path| - 1);
    }
  }

  lemma FreeIsClear(p: Plan, s: State, item: Item)
    requires item.path != [] && IsPlan(p) && RecordsMaps(p, s)
    ensures Free(s, item) <==> Clear(p, item)
  {
    NoFileAboveIff(p, s, item.path);
  }

  /** Recording the parents does not change whether the entry's own path is free. */
  lemma ParentsDoNotClash(s: State, t: State, path: Path, kind: Kind)
    requires path != [] && AddsMaps(s, t, Prefixes(path, |path| - 1))
    ensures Compatible(t, path, kind, true) == Compatible(s, path, kind, true)
  {
    OwnNotAbove(path);
  }

  /** A file finds its parent in place and its own path free. */
  lemma FilePlaceReady(p: Plan, s: State, t: State, item: Item)
    requires Clear(p, item) && item.kind.File? && TreeAgrees(s) && s.tree.Keys == p.all
    requires AddsMaps(s, t, Prefixes(item.path, |item.path| - 1)) && NoFileAbove(s, item.path, |item.path| - 1)
    ensures item.path !in t.tree && ParentIsFolder(t.tree, item.path)
  {
    OwnNotAbove(item.path);
    OwnParentReady(s, t, item.path);
  }

  /** The last `add` of an entry is only a matter of the limits. */
  ghost predicate AddIsOpen(cfg: Config, t: State, path: Path, kind: Kind)
    requires path != []
  {
    var r, u := Add(cfg, t, path, kind, true), Record(t, path, kind, true);
    (r.Ok? <==> Within(cfg, u)) && (r.Ok? ==> r.value == u)
  }

  /** A file can be written. */
  predicate WriteIsOpen(t: State, item: Item)
    requires item.path != []
  {
    item.kind.File? ==> item.path !in t.tree && ParentIsFolder(t.tree, item.path)
  }

  lemma AddOpens(cfg: Config, s: State, t: State, item: Item)
    requires item.path != [] && TreeAgrees(s) && Free(s, item)
    requires t in WithFolders(s, Prefixes(item.path, |item.path| - 1)) && Within(cfg, t)
    ensures AddIsOpen(cfg, t, item.path, item.kind)
  {
    ParentsDoNotClash(s, t, item.path, item.kind);
    OwnAddExact(cfg, s, t, item.path, item.kind);
  }

  lemma WriteOpens(p: Plan, s: State, t: State, item: Item)
    requires Clear(p, item) && RecordsMaps(p, s) && TreeAgrees(s) && Free(s, item)
    requires t in WithFolders(s, Prefixes(item.path, |item.path| - 1))
    ensures WriteIsOpen(t, item)
  {
    if item.kind.File? {
      FilePlaceReady(p, s, t, item);
    }
  }

  lemma BytesStay(s: State, t: State, paths: set<Path>)
    requires t in WithFolders(s, paths)
    ensures t.bytes == s.bytes
  {
  }

  /** Recording the item and writing its body works exactly when the totals fit. */
  lemma FinishIff(cfg: Config, g: Plan, t: State, e: ArchiveEntry, item: Item)
    requires item.path != [] && item.kind == e.kind && item.body == e.body && t.bytes <= cfg.maxBytes
    requires AddIsOpen(cfg, t, item.path, item.kind) && WriteIsOpen(t, item)
    requires RecordedTotals(g, item, Record(t, item.path, item.kind, true))
    ensures
      var r := Finish(cfg, t, item.path, e);
      && (r.Ok? <==> SizeIsRight(e) && PlanFits(cfg, g))
      && (r.Ok? ==> Finished(t, item, r.value))
  {
    FinishSteps(cfg, t, e, item);
  }

  predicate SizeIsRight(e: ArchiveEntry) {
    e.kind.File? ==> |e.body| == e.size
  }

  lemma FinishedTree(s: State, t: State, item: Item, v: State)
    requires item.path != [] && TreeAgrees(s) && AddsMaps(s, t, Prefixes(item.path, |item.path| - 1)) && Finished(t, item, v)
    ensures v.tree == if item.kind.Directory? && item.path in t.tree then t.tree
                      else t.tree[item.path := if item.kind.File? then Contents(item.body) else Folder]
  {
    assert item.path in t.entries <==> item.path in t.tree;
  }

  lemma FinishedMaps(p: Plan, s: State, t: State, item: Item, v: State)
    requires IsPlan(p) && Clear(p, item) && RecordsMaps(p, s) && TreeAgrees(s)
    requires AddsMaps(s, t, Prefixes(item.path, |item.path| - 1)) && Finished(t, item, v)
    ensures RecordsMaps(Grown(p, item), v)
  {
    var above := Prefixes(item.path, |item.path| - 1);
    OwnNotAbove(item.path);
    assert Grown(p, item).all == p.all + above + {item.path};
    RecordsSetsSnoc(p.all, p.files, p.explicit, s, t, above, item.path, item.kind);
    FinishedTree(s, t, item, v);
    FoldersElsewhereSnoc(p.all, p.files, s, t, above, item.path, item.kind, Contents(item.body), v.tree);
  }

  /** The staged tree has gained the item, and lost nothing. */
  ghost predicate TreeGrows(before: Tree, item: Item, after: Tree) {
    && (forall q :: q in before && q != item.path ==> q in after && after[q] == before[q])
    && (item.kind.File? ==> item.path in after && after[item.path] == Contents(item.body))
  }

  ghost predicate Placed(p: Plan, s: State, item: Item, v: State) {
    Records(Grown(p, item), v) && TreeGrows(s.tree, item, v.tree)
  }

  /** The states that placing the item can lead to. */
  ghost function PlacedStates(p: Plan, s: State, item: Item): iset<State> {
    iset v: State | Placed(p, s, item, v)
  }

  lemma FinishedTotals(p: Plan, s: State, t: State, item: Item, v: State)
    requires RecordedTotals(Grown(p, item), item, Record(t, item.path, item.kind, true)) && Finished(t, item, v)
    ensures RecordsTotals(Grown(p, item), v)
  {
  }

  lemma FinishedTreeGrows(s: State, t: State, item: Item, v: State)
    requires item.path != [] && TreeAgrees(s) && AddsMaps(s, t, Prefixes(item.path, |item.path| - 1)) && Finished(t, item, v)
    ensures TreeGrows(s.tree, item, v.tree)
  {
    FinishedTree(s, t, item, v);
  }

  lemma FinishedIsPlaced(p: Plan, s: State, t: State, item: Item, v: State)
    requires IsPlan(p) && Clear(p, item) && RecordsMaps(p, s) && TreeAgrees(s)
    requires AddsMaps(s, t, Prefixes(item.path, |item.path| - 1)) && Finished(t, item, v)
    requires RecordedTotals(Grown(p, item), item, Record(t, item.path, item.kind, true))
    ensures v in PlacedStates(p, s, item)
  {
    FinishedMaps(p, s, t, item, v);
    FinishedTotals(p, s, t, item, v);
    FinishedTreeGrows(s, t, item, v);
  }

  /** What it takes for an item to be placed. */
  ghost predicate Accepts(cfg: Config, p: Plan, e: ArchiveEntry, item: Item) {
    Clear(p, item) && SizeIsRight(e) && PlanFits(cfg, Grown(p, item))
  }

  /** The states that a plan calls for, up to the contents of files. */
  ghost function RecordedStates(p: Plan): iset<State> {
    iset s: State | Records(p, s) && TreeAgrees(s)
  }

  lemma FinishClear(cfg: Config, p: Plan, s: State, t: State, e: ArchiveEntry, item: Item)
    requires IsPlan(p) && Clear(p, item) && Free(s, item) && item.kind == e.kind && item.body == e.body
    requires Records(p, s) && TreeAgrees(s) && s.bytes <= cfg.maxBytes
    requires t in WithFolders(s, Prefixes(item.path, |item.path| - 1)) && Within(cfg, t)
    ensures
      var r := Finish(cfg, t, item.path, e);
      && (r.Ok? <==> SizeIsRight(e) && PlanFits(cfg, Grown(p, item)))
      && (r.Ok? ==> r.value in PlacedStates(p, s, item))
  {
    AddOpens(cfg, s, t, item);
    WriteOpens(p, s, t, item);
    BytesStay(s, t, Prefixes(item.path, |item.path| - 1));
    RecordingTotals(p, s, t, item);
    FinishIff(cfg, Grown(p, item), t, e, item);
    if Finish(cfg, t, item.path, e).Ok? {
      FinishedIsPlaced(p, s, t, item, Finish(cfg, t, item.path, e).value);
    }
  }

  lemma FinishClash(cfg: Config, p: Plan, s: State, t: State, e: ArchiveEntry, item: Item)
    requires item.path != [] && item.kind == e.kind && IsPlan(p) && RecordsMaps(p, s)
    requires t in WithFolders(s, Prefixes(item.path, |item.path| - 1))
    requires NoFileAbove(s, item.path, |item.path| - 1) && !Clear(p, item)
    ensures Finish(cfg, t, item.path, e).Err?
  {
    FreeIsClear(p, s, item);
    ParentsDoNotClash(s, t, item.path, item.kind);
  }

  /** With its parents in place, an entry is refused for a clash or taken when the totals fit. */
  lemma FinishExact(cfg: Config, p: Plan, s: State, t: State, e: ArchiveEntry, item: Item)
    requires item.path != [] && item.kind == e.kind && item.body == e.body
    requires IsPlan(p) && s in RecordedStates(p) && s.bytes <= cfg.maxBytes
    requires t in WithFolders(s, Prefixes(item.path, |item.path| - 1)) && Within(cfg, t)
    requires NoFileAbove(s, item.path, |item.path| - 1)
    ensures Finish(cfg, t, item.path, e).Ok? == Accepts(cfg, p, e, item)
    ensures Finish(cfg, t, item.path, e).Ok? ==> Finish(cfg, t, item.path, e).value in PlacedStates(p, s, item)
  {
    if Clear(p, item) {
      FreeIsClear(p, s, item);
      FinishClear(cfg, p, s, t, e, item);
    } else {
      FinishClash(cfg, p, s, t, e, item);
    }
  }

  /** If everything fits with the item, its parents fit. */
  lemma ParentsFitIfAllFits(cfg: Config, p: Plan, s: State, item: Item)
    requires IsPlan(p) && Clear(p, item) && s.entries.Keys == p.all && RecordsTotals(p, s)
    requires PlanFits(cfg, Grown(p, item))
    ensures FoldersFit(cfg, s, Prefixes(item.path, |item.path| - 1) - s.entries.Keys)
  {
    Gains(p, item, Prefixes(item.path, |item.path| - 1) - p.all);
  }

  /** An item whose totals fit passes the size check made before anything is recorded. */
  lemma SizeFits(cfg: Config, p: Plan, item: Item)
    requires IsPlan(p) && Clear(p, item) && PlanFits(cfg, Grown(p, item))
    ensures p.bytes + BodyBytes(item) <= cfg.maxBytes && PlanCharge(p) + BodyBytes(item) <= cfg.maxCharge
    ensures PlanFits(cfg, p)
  {
    Gains(p, item, Prefixes(item.path, |item.path| - 1) - p.all);
  }

  /** The parents of the entry can be put in place. */
  predicate ParentsDone(cfg: Config, s: State, path: Path)
    requires path != []
  {
    AddParents(cfg, s, path, |path| - 1).Ok?
  }

  lemma AcceptedParentsFit(cfg: Config, p: Plan, s: State, item: Item)
    requires IsPlan(p) && Clear(p, item) && s in RecordedStates(p) && PlanFits(cfg, Grown(p, item))
    ensures ParentsFit(cfg, s, item.path, |item.path| - 1)
  {
    FreeIsClear(p, s, item);
    ParentsFitIfAllFits(cfg, p, s, item);
  }

  lemma AcceptedParentsDone(cfg: Config, p: Plan, s: State, e: ArchiveEntry, item: Item)
    requires item.path != [] && IsPlan(p) && s in RecordedStates(p) && Within(cfg, s) && Accepts(cfg, p, e, item)
    ensures ParentsDone(cfg, s, item.path)
  {
    AcceptedParentsFit(cfg, p, s, item);
    ParentsExact(cfg, s, item.path, |item.path| - 1);
  }

  lemma ParentsStayWithin(cfg: Config, s: State, t: State, paths: set<Path>)
    requires TreeAgrees(s) && t in WithFolders(s, paths) && FoldersFit(cfg, s, paths - s.entries.Keys)
    ensures Within(cfg, t)
  {
    AddsFoldersCount(s, t, paths);
  }

  lemma PlaceFinishes(cfg: Config, s: State, e: ArchiveEntry, path: Path) returns (t: State)
    requires path != [] && TreeAgrees(s) && Within(cfg, s) && ParentsDone(cfg, s, path)
    ensures Place(cfg, s, path, e) == Finish(cfg, t, path, e) && NoFileAbove(s, path, |path| - 1)
    ensures t in WithFolders(s, Prefixes(path, |path| - 1)) && Within(cfg, t)
  {
    ParentsExact(cfg, s, path, |path| - 1);
    t := AddParents(cfg, s, path, |path| - 1).value;
    ParentsStayWithin(cfg, s, t, Prefixes(path, |path| - 1));
  }

  lemma PlaceExact(cfg: Config, p: Plan, s: State, e: ArchiveEntry, item: Item)
    requires item.path != [] && item.kind == e.kind && item.body == e.body
    requires IsPlan(p) && s in RecordedStates(p) && Within(cfg, s) && s.bytes <= cfg.maxBytes
    ensures Place(cfg, s, item.path, e).Ok? == Accepts(cfg, p, e, item)
    ensures Place(cfg, s, item.path, e).Ok? ==> Place(cfg, s, item.path, e).value in PlacedStates(p, s, item)
  {
    if ParentsDone(cfg, s, item.path) {
      var t := PlaceFinishes(cfg, s, e, item.path);
      FinishExact(cfg, p, s, t, e, item);
    } else if Accepts(cfg, p, e, item) {
      AcceptedParentsDone(cfg, p, s, e, item);
    }
  }

  lemma RefusedIsNotAccepted(cfg: Config, p: Plan, s: State, e: ArchiveEntry, item: Item)
    requires item.kind == e.kind && item.body == e.body && (e.kind.Directory? ==> e.size == 0)
    requires IsPlan(p) && RecordsTotals(p, s) && SizeRefused(cfg, s, e.size)
    ensures !Accepts(cfg, p, e, item)
  {
    if Accepts(cfg, p, e, item) {
      SizeFits(cfg, p, item);
    }
  }

  lemma FitsIsWithin(cfg: Config, p: Plan, s: State)
    requires Records(p, s) && PlanFits(cfg, p)
    ensures Within(cfg, s) && s.bytes <= cfg.maxBytes
  {
  }

  /** A located entry is taken exactly when its declared size is right, it clashes with nothing,
      and the totals with it fit. */
  lemma AdmitExact(cfg: Config, p: Plan, s: State, e: ArchiveEntry, item: Item)
    requires item.path != [] && item.kind == e.kind && item.body == e.body && (e.kind.Directory? ==> e.size == 0)
    requires IsPlan(p) && s in RecordedStates(p) && PlanFits(cfg, p)
    ensures Admit(cfg, s, item.path, e).Ok? == Accepts(cfg, p, e, item)
    ensures Admit(cfg, s, item.path, e).Ok? ==> Admit(cfg, s, item.path, e).value in PlacedStates(p, s, item)
  {
    FitsIsWithin(cfg, p, s);
    if SizeRefused(cfg, s, e.size) {
      RefusedIsNotAccepted(cfg, p, s, e, item);
    } else {
      PlaceExact(cfg, p, s, e, item);
    }
  }
}
