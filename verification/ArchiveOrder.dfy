/**
 What a folder archive holds, and how its walk agrees with the folder-size walk.
 */
module ArchiveOrder {
  import opened Common
  import opened VirtualPaths
  import opened Orders
  import opened Trees
  import opened ArchiveWalks
  import SizeWalks
  import UsageWalks

  // ---- sizes ----

  lemma {:induction false} ItemSizes(t: Tree, prefix: Path, depth: nat)
    requires Clean(t, depth)
    ensures SizeOf(Items(t, prefix)) == TrueSize(t)
    decreases Height(t), 1, 0
  {
    ChildrenTotals(t, depth);
    SortTotals(Children(t), depth);
    OrderedEntries(t);
    ItemSizesOf(Ordered(t), prefix, depth);
  }

  lemma {:induction false} ItemSizesOf(cs: Tree, prefix: Path, depth: nat)
    requires Clean(cs, depth) && forall i :: 0 <= i < |cs| ==> Supported(cs[i])
    ensures SizeOf(ItemsOf(cs, prefix)) == TrueSize(cs)
    decreases Height(cs), 0, |cs|
  {
    if cs != [] {
      var e := cs[0];
      var item, rest := [ItemFor(e, prefix)], ItemsOf(cs[1..], prefix);
      var below := if e.node.Dir? then Items(e.node.entries, prefix + [e.name]) else [];
      if e.node.Dir? {
        ItemSizes(e.node.entries, prefix + [e.name], depth + 1);
      }
      ItemSizesOf(cs[1..], prefix, depth);
      assert item[1..] == [];
      assert SizeOf(item) == item[0].size;
      TotalsOfConcat(item, below);
      TotalsOfConcat(item + below, rest);
    }
  }

  /**
   An archive succeeds exactly when nothing keeps its walk from any visible file and the entries,
   file sizes and names fit its limits; it then holds exactly the directory's items.
   */
  lemma ArchiveSucceedsIff(l: Limits, t: Tree, depth: nat)
    ensures
      var r, items := Visited(l, ArchiveWalks.START, t, [], depth), Items(t, []);
      && (r.error.None? <==>
          && Clean(t, depth) && ScanCount(t) <= l.maxEntries
          && SatAdd(0, TrueSize(t)) <= l.maxBytes && SatAdd(0, NamesOf(items)) <= l.maxNameBytes)
      && (r.error.None? ==> r.items == items && SizeOf(items) == TrueSize(t))
  {
    VisitIsExact(l, ArchiveWalks.START, t, [], depth);
    if Clean(t, depth) {
      ItemSizes(t, [], depth);
    }
  }

  /**
   Whenever the archive succeeds, a folder-size walk with at least its entry budget and no deadline
   is complete, and is the sum of the archived sizes.
   */
  lemma ArchiveAgreesWithFolderSize(l: Limits, t: Tree, depth: nat, b: SizeWalks.Budget)
    requires Visited(l, ArchiveWalks.START, t, [], depth).error.None?
    requires b.maxEntries >= l.maxEntries && forall n :: !b.late(n)
    ensures
      var r := SizeWalks.Walked(b, SizeWalks.START, t, depth);
      r.complete && r.bytes == SatAdd(0, SizeOf(Visited(l, ArchiveWalks.START, t, [], depth).items))
  {
    ArchiveSucceedsIff(l, t, depth);
    SizeWalks.WalkIsExact(b, t, depth);
  }

  /** Whenever a folder size is complete, an archive with as large an entry budget fails only for its size or its names. */
  lemma FolderSizeAgreesWithArchive(b: SizeWalks.Budget, t: Tree, depth: nat, l: Limits)
    requires SizeWalks.Walked(b, SizeWalks.START, t, depth).complete && l.maxEntries >= b.maxEntries
    ensures Visited(l, ArchiveWalks.START, t, [], depth).error.None?
       <==> && SizeWalks.Walked(b, SizeWalks.START, t, depth).bytes <= l.maxBytes
            && SatAdd(0, NamesOf(Items(t, []))) <= l.maxNameBytes
  {
    ArchiveSucceedsIff(l, t, depth);
    SizeWalks.WalkIsExact(b, t, depth);
  }

  // ---- what is archived ----

  /** A path leads to `e` through entries that are listed, can be read, and are directories or, at the
      end, files without other links. */
  ghost predicate Leads(t: Tree, path: Path, e: Entry)
    decreases |path|, 1
  {
    path != [] && exists i :: 0 <= i < |t| && LeadsFrom(t[i], path, e)
  }

  ghost predicate LeadsFrom(c: Entry, path: Path, e: Entry)
    decreases |path|, 0
  {
    && path != [] && c.name == path[0]
    && c.listed && c.fault.Fine? && (c.node.Dir? || (c.node.File? && !c.node.alias))
    && (if |path| == 1 then c == e else c.node.Dir? && Leads(Below(c), path[1..], e))
  }

  /** Every item is at a path that leads to its entry. */
  lemma {:induction false} ItemIsReached(t: Tree, prefix: Path, item: Item) returns (path: Path, e: Entry)
    requires item in Items(t, prefix)
    ensures Leads(t, path, e) && item.relative == prefix + path
    ensures item.isDirectory == e.node.Dir? && item.size == if e.node.File? then e.node.size else 0
    decreases Height(t), 1, 0
  {
    OrderedEntries(t);
    var c;
    c, path, e := ItemIsReachedFrom(Ordered(t), prefix, item);
    var i :| 0 <= i < |t| && t[i] == c;
  }

  lemma {:induction false} ItemIsReachedFrom(cs: Tree, prefix: Path, item: Item) returns (c: Entry, path: Path, e: Entry)
    requires item in ItemsOf(cs, prefix) && forall i :: 0 <= i < |cs| ==> Supported(cs[i])
    ensures c in cs && LeadsFrom(c, path, e) && item.relative == prefix + path
    ensures item.isDirectory == e.node.Dir? && item.size == if e.node.File? then e.node.size else 0
    decreases Height(cs), 0, |cs|
  {
    assert ItemsOf(cs, prefix) == FirstItems(cs[0], prefix) + ItemsOf(cs[1..], prefix);
    if item in FirstItems(cs[0], prefix) {
      c := cs[0];
      path, e := ItemOfFirst(cs, prefix, item);
    } else {
      c, path, e := ItemIsReachedFrom(cs[1..], prefix, item);
    }
  }

  lemma {:induction false} ItemOfFirst(cs: Tree, prefix: Path, item: Item) returns (path: Path, e: Entry)
    requires cs != [] && Supported(cs[0]) && item in FirstItems(cs[0], prefix)
    ensures LeadsFrom(cs[0], path, e) && item.relative == prefix + path
    ensures item.isDirectory == e.node.Dir? && item.size == if e.node.File? then e.node.size else 0
    decreases Height(cs), 0, 0
  {
    var c := cs[0];
    if item == ItemFor(c, prefix) {
      path, e := [c.name], c;
    } else {
      var rest;
      rest, e := ItemIsReached(c.node.entries, prefix + [c.name], item);
      StepDown(c, rest, e);
      path := [c.name] + rest;
      Reassociate(prefix, c.name, rest);
    }
  }

  lemma Reassociate(prefix: Path, name: Name, rest: Path)
    ensures prefix + ([name] + rest) == (prefix + [name]) + rest
  {
  }

  lemma StepDown(c: Entry, rest: Path, e: Entry)
    requires Supported(c) && c.node.Dir? && Leads(c.node.entries, rest, e)
    ensures LeadsFrom(c, [c.name] + rest, e)
  {
    assert ([c.name] + rest)[1..] == rest;
  }

  /** Every entry that a path leads to is archived there. */
  lemma {:induction false} ReachedIsItem(t: Tree, prefix: Path, path: Path, e: Entry)
    requires Leads(t, path, e)
    ensures Item(prefix + path, e.node.Dir?, if e.node.File? then e.node.size else 0) in Items(t, prefix)
    decreases Height(t), 1, 0
  {
    var i :| 0 <= i < |t| && LeadsFrom(t[i], path, e);
    OrderedEntries(t);
    ReachedIsItemFrom(Ordered(t), t[i], prefix, path, e);
  }

  lemma {:induction false} ReachedIsItemFrom(cs: Tree, c: Entry, prefix: Path, path: Path, e: Entry)
    requires c in cs && LeadsFrom(c, path, e)
    ensures Item(prefix + path, e.node.Dir?, if e.node.File? then e.node.size else 0) in ItemsOf(cs, prefix)
    decreases Height(cs), 0, |cs|
  {
    if c != cs[0] {
      ReachedIsItemFrom(cs[1..], c, prefix, path, e);
    } else if |path| == 1 {
      assert path == [c.name];
    } else {
      ReachedIsItem(c.node.entries, prefix + [c.name], path[1..], e);
      assert path == [c.name] + path[1..];
      assert prefix + [c.name] + path[1..] == prefix + path;
    }
  }

  // ---- depth ----

  /** An archive that reports depth has met an entry that is too deep. */
  lemma {:induction false} TooDeepIsDeep(l: Limits, w: State, t: Tree, prefix: Path, depth: nat)
      returns (path: Path, e: Entry)
    requires w.error.None? && Visited(l, w, t, prefix, depth).error == Some(TooDeep)
    ensures Leads(t, path, e) && depth + |path| > MAX_PATH_DEPTH
    decreases Height(t), 1, 0
  {
    var scanned := Scanned(l, w, t);
    ScanIsNotDeep(l, w, t);
    OrderedEntries(t);
    var c;
    if Children(t) != [] && depth >= MAX_PATH_DEPTH {
      ChildrenAreSupported(t);
      c := Children(t)[0];
      path, e := [c.name], c;
      assert c in Children(t);
    } else {
      c, path, e := AddedTooDeepIsDeep(l, scanned, Ordered(t), prefix, depth);
    }
    var i :| 0 <= i < |t| && t[i] == c;
  }

  lemma {:induction false} AddedTooDeepIsDeep(l: Limits, w: State, cs: Tree, prefix: Path, depth: nat)
      returns (c: Entry, path: Path, e: Entry)
    requires w.error.None? && Added(l, w, cs, prefix, depth).error == Some(TooDeep)
    requires forall i :: 0 <= i < |cs| ==> Supported(cs[i])
    ensures c in cs && LeadsFrom(c, path, e) && depth + |path| > MAX_PATH_DEPTH
    decreases Height(cs), 0, |cs|
  {
    var first := FirstAdded(l, w, cs[0], prefix, depth);
    if first.error.None? {
      c, path, e := AddedTooDeepIsDeep(l, first, cs[1..], prefix, depth);
    } else {
      c := cs[0];
      var recorded := Recorded(l, w, c, prefix);
      var rest;
      rest, e := TooDeepIsDeep(l, recorded, c.node.entries, prefix + [c.name], depth + 1);
      StepDown(c, rest, e);
      path := [c.name] + rest;
    }
  }

  lemma {:induction false} ScanIsNotDeep(l: Limits, w: State, t: Tree)
    requires w.error != Some(TooDeep)
    ensures Scanned(l, w, t).error != Some(TooDeep)
    decreases |t|
  {
    if t != [] && w.error.None? && w.scanned + 1 <= l.maxEntries && !Fails(t[0]) {
      ScanIsNotDeep(l, w.(scanned := w.scanned + 1), t[1..]);
    }
  }

  /** What can be archived is the user's. */
  lemma {:induction false} LeadsIsHeld(t: Tree, path: Path, e: Entry)
    requires IsTree(t) && Leads(t, path, e)
    ensures Holds(t, path)
    decreases |path|
  {
    var i :| 0 <= i < |t| && LeadsFrom(t[i], path, e);
    assert IsEntry(t[i]);
    if |path| > 1 {
      LeadsIsHeld(Below(t[i]), path[1..], e);
    }
    assert HoldsFrom(t[i], path);
  }

  // ---- quota ----

  /** What a folder size reports never exceeds what the quota charges for the same tree. */
  lemma QuotaCoversFolderSize(b: SizeWalks.Budget, l: UsageWalks.Limits, t: Tree, depth: nat, d: nat)
    requires IsTree(t) && UsageWalks.Measured(l, UsageWalks.START, t, depth).error.None?
    ensures SizeWalks.Walked(b, SizeWalks.START, t, d).bytes <= UsageWalks.Measured(l, UsageWalks.START, t, depth).bytes
  {
    UsageWalks.MeasureIsExact(l, UsageWalks.START, t, depth);
    UsageWalks.UsageCoversSize(t);
    SizeWalks.WalkIsExact(b, t, d);
  }

  // ---- the order of items ----

  /** Component-wise order: a path comes before everything beneath it. */
  predicate PathBefore(p: Path, q: Path) {
    if p == [] then q != []
    else q != [] && (NameBefore(p[0], q[0]) || (p[0] == q[0] && PathBefore(p[1..], q[1..])))
  }

  ghost predicate InOrder(items: seq<Item>) {
    forall i, j :: 0 <= i < j < |items| ==> PathBefore(items[i].relative, items[j].relative)
  }

  lemma {:induction false} BeforeBeneath(prefix: Path, p: Path, q: Path)
    ensures PathBefore(prefix + p, prefix + q) == PathBefore(p, q)
  {
    if prefix == [] {
      assert prefix + p == p && prefix + q == q;
    } else {
      assert (prefix + p)[1..] == prefix[1..] + p && (prefix + q)[1..] == prefix[1..] + q;
      NameBeforeIsStrictOrder(prefix[0], prefix[0], prefix[0]);
      BeforeBeneath(prefix[1..], p, q);
    }
  }

  lemma InOrderConcat(a: seq<Item>, b: seq<Item>)
    requires InOrder(a) && InOrder(b)
    requires forall x, y :: x in a && y in b ==> PathBefore(x.relative, y.relative)
    ensures InOrder(a + b)
  {
    forall i, j | 0 <= i < j < |a + b| ensures PathBefore((a + b)[i].relative, (a + b)[j].relative) {
      if i < |a| && |a| <= j {
        assert a[i] in a && b[j - |a|] in b;
      }
    }
  }

  lemma {:induction false} ChildrenAreDistinct(t: Tree)
    requires forall i, j :: 0 <= i < j < |t| ==> t[i].name != t[j].name
    ensures Comparable(ByName, Children(t))
  {
    if t != [] {
      ChildrenAreDistinct(t[1..]);
      ChildrenAreSupported(t[1..]);
      var rest := Children(t[1..]);
      forall j | 0 <= j < |rest| ensures ByName(t[0], rest[j]) || ByName(rest[j], t[0]) {
        assert rest[j] in t[1..];
        NameBeforeIsStrictOrder(t[0].name, rest[j].name, []);
      }
    }
  }

  lemma OrderedIsSorted(t: Tree)
    requires IsTree(t)
    ensures StrictlySorted(ByName, Ordered(t))
  {
    ChildrenAreDistinct(t);
    assert IsOrder(ByName) by {
      forall a: Entry, b: Entry, c: Entry
        ensures !ByName(a, a) && (ByName(a, b) && ByName(b, c) ==> ByName(a, c))
      {
        NameBeforeIsStrictOrder(a.name, b.name, c.name);
      }
    }
    SortSorts(ByName, Children(t));
  }

  /** Items from one child come before items from a later one. */
  lemma EarlierChildFirst(prefix: Path, p: Path, q: Path)
    requires p != [] && q != [] && NameBefore(p[0], q[0])
    ensures PathBefore(prefix + p, prefix + q)
  {
    BeforeBeneath(prefix, p, q);
  }

  /** Archived items are strictly increasing in component-wise order. */
  lemma {:induction false} ItemsAreInOrder(t: Tree, prefix: Path)
    requires IsTree(t)
    ensures InOrder(Items(t, prefix))
    decreases Height(t), 1, 0
  {
    OrderedEntries(t);
    OrderedIsSorted(t);
    forall i | 0 <= i < |Ordered(t)| ensures IsEntry(Ordered(t)[i]) {
      assert Ordered(t)[i] in t;
    }
    ItemsOfAreInOrder(Ordered(t), prefix);
  }

  lemma {:induction false} FirstItemsAreInOrder(cs: Tree, prefix: Path)
    requires cs != [] && IsEntry(cs[0])
    ensures InOrder(FirstItems(cs[0], prefix))
    decreases Height(cs), 0, 0
  {
    var e := cs[0];
    if e.node.Dir? {
      var item, below := [ItemFor(e, prefix)], Items(e.node.entries, prefix + [e.name]);
      ItemsAreInOrder(e.node.entries, prefix + [e.name]);
      forall y | y in below ensures PathBefore(item[0].relative, y.relative) {
        var rest, _ := ItemIsReached(e.node.entries, prefix + [e.name], y);
        BeforeBeneath(prefix + [e.name], [], rest);
        assert prefix + [e.name] + [] == prefix + [e.name];
      }
      InOrderConcat(item, below);
    }
  }

  lemma {:induction false} ItemsOfAreInOrder(cs: Tree, prefix: Path)
    requires StrictlySorted(ByName, cs)
    requires forall i :: 0 <= i < |cs| ==> IsEntry(cs[i]) && Supported(cs[i])
    ensures InOrder(ItemsOf(cs, prefix))
    decreases Height(cs), 0, |cs|
  {
    if cs != [] {
      var first, rest := FirstItems(cs[0], prefix), ItemsOf(cs[1..], prefix);
      FirstItemsAreInOrder(cs, prefix);
      ItemsOfAreInOrder(cs[1..], prefix);
      forall x, y | x in first && y in rest ensures PathBefore(x.relative, y.relative) {
        var p, _ := ItemOfFirst(cs, prefix, x);
        var c, q, _ := ItemIsReachedFrom(cs[1..], prefix, y);
        var j :| 0 <= j < |cs[1..]| && cs[1..][j] == c;
        assert ByName(cs[0], cs[j + 1]);
        EarlierChildFirst(prefix, p, q);
      }
      InOrderConcat(first, rest);
    }
  }

  // ---- parents ----

  lemma {:induction false} ParentLeads(t: Tree, path: Path, e: Entry) returns (parent: Entry)
    requires Leads(t, path, e) && |path| > 1
    ensures Leads(t, path[..|path| - 1], parent) && parent.node.Dir?
    decreases |path|
  {
    var i :| 0 <= i < |t| && LeadsFrom(t[i], path, e);
    var up := path[..|path| - 1];
    if |path| == 2 {
      parent := t[i];
    } else {
      parent := ParentLeads(Below(t[i]), path[1..], e);
      assert up[1..] == path[1..][..|path[1..]| - 1];
    }
    assert LeadsFrom(t[i], up, parent);
  }

  lemma {:induction false} PrefixIsBefore(p: Path, q: Path)
    requires p < q
    ensures PathBefore(p, q)
  {
    if p != [] {
      PrefixIsBefore(p[1..], q[1..]);
    }
  }

  lemma {:induction false} NotBeforeBoth(p: Path, q: Path)
    ensures !(PathBefore(p, q) && PathBefore(q, p)) && !PathBefore(p, p)
  {
    if p != [] && q != [] {
      NameBeforeIsStrictOrder(p[0], q[0], p[0]);
      NotBeforeBoth(p[1..], q[1..]);
    } else if p != [] {
      NameBeforeIsStrictOrder(p[0], p[0], p[0]);
      NotBeforeBoth(p[1..], p[1..]);
    }
  }

  /** Every archived item below the top has its directory before it in the archive. */
  lemma ParentsComeFirst(t: Tree, k: nat) returns (j: nat)
    requires IsTree(t) && k < |Items(t, [])| && |Items(t, [])[k].relative| > 1
    ensures
      var items := Items(t, []);
      && j < k && items[j].isDirectory
      && items[j].relative == items[k].relative[..|items[k].relative| - 1]
  {
    var items := Items(t, []);
    var path, e := ItemIsReached(t, [], items[k]);
    assert [] + path == path;
    var parent := ParentLeads(t, path, e);
    var up := path[..|path| - 1];
    ReachedIsItem(t, [], up, parent);
    assert [] + up == up;
    j :| 0 <= j < |items| && items[j] == Item(up, true, 0);
    ItemsAreInOrder(t, []);
    PrefixIsBefore(up, path);
    NotBeforeBoth(up, path);
  }
}
