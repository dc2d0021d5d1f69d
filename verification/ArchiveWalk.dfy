/** The folder archive walk (src/filesystem.rs, `archive_items`, `ArchiveWalk`). */
module ArchiveWalks {
  import opened Common
  import opened VirtualPaths
  import opened Orders
  import opened Trees

  datatype Limits = Limits(maxEntries: nat, maxBytes: U64, maxNameBytes: U64)

  datatype Error = TooLarge | TooDeep | Io

  datatype Item = Item(relative: Path, isDirectory: bool, size: nat)

  datatype State = State(scanned: nat, bytes: U64, nameBytes: U64, items: seq<Item>, error: Option<Error>)

  const START := State(0, 0, 0, [], None)

  // ---- children in name order ----

  predicate ByName(a: Entry, b: Entry) {
    NameBefore(a.name, b.name)
  }

  function Children(t: Tree): Tree {
    if t == [] then [] else (if Supported(t[0]) then [t[0]] else []) + Children(t[1..])
  }

  /** What a directory contributes, in the order it is archived. */
  function Ordered(t: Tree): (cs: Tree)
    ensures Height(cs) <= Height(t)
  {
    ChildrenTotals(t, 0);
    SortTotals(Children(t), 0);
    Sort(ByName, Children(t))
  }

  /** One entry's share of the totals. */
  ghost function OneCount(e: Entry): nat {
    1 + if Supported(e) then ScanCount(Below(e)) else 0
  }

  ghost predicate OneClean(e: Entry, depth: nat) {
    CleanEntry(e, depth) && (Supported(e) ==> Clean(Below(e), depth + 1))
  }

  function Max(a: nat, b: nat): nat {
    if a > b then a else b
  }

  lemma {:induction false} InsertTotals(e: Entry, t: Tree, depth: nat)
    ensures
      var r := Insert(ByName, e, t);
      && ScanCount(r) == OneCount(e) + ScanCount(t)
      && (Clean(r, depth) <==> OneClean(e, depth) && Clean(t, depth))
      && TrueSize(r) == VisibleSize(e, TrueSize(Below(e))) + TrueSize(t)
      && Height(r) == Max(1 + Height(Below(e)), Height(t))
      && |r| == 1 + |t|
  {
    var r := Insert(ByName, e, t);
    if t == [] || ByName(e, t[0]) {
      assert r[0] == e && r[1..] == t;
    } else {
      InsertTotals(e, t[1..], depth);
      assert r[0] == t[0] && r[1..] == Insert(ByName, e, t[1..]);
    }
  }

  /** Sorting changes no total. */
  lemma {:induction false} SortTotals(t: Tree, depth: nat)
    ensures
      var r := Sort(ByName, t);
      && ScanCount(r) == ScanCount(t) && (Clean(r, depth) <==> Clean(t, depth))
      && TrueSize(r) == TrueSize(t) && Height(r) == Height(t) && |r| == |t|
  {
    if t != [] {
      SortTotals(t[1..], depth);
      InsertTotals(t[0], Sort(ByName, t[1..]), depth);
    }
  }

  ghost predicate NoneFails(t: Tree) {
    forall i :: 0 <= i < |t| ==> !Fails(t[i])
  }

  lemma {:induction false} ChildrenTotals(t: Tree, depth: nat)
    ensures
      var cs := Children(t);
      && |cs| <= |t| && ScanCount(t) - |t| == ScanCount(cs) - |cs|
      && (Clean(t, depth) <==> NoneFails(t) && Clean(cs, depth))
      && (NoneFails(t) ==> TrueSize(cs) == TrueSize(t)) && Height(cs) <= Height(t)
  {
    if t != [] {
      ChildrenTotals(t[1..], depth);
      var cs, rest := Children(t), Children(t[1..]);
      assert NoneFails(t) <==> !Fails(t[0]) && NoneFails(t[1..]) by {
        assert forall i :: 0 < i < |t| ==> t[i] == t[1..][i - 1];
      }
      if Supported(t[0]) {
        assert cs[0] == t[0] && cs[1..] == rest;
      } else {
        assert cs == rest;
      }
    }
  }

  lemma {:induction false} ChildrenAreSupported(t: Tree)
    ensures forall e :: e in Children(t) <==> e in t && Supported(e)
  {
    if t != [] {
      ChildrenAreSupported(t[1..]);
    }
  }

  lemma OrderedEntries(t: Tree)
    ensures forall e :: e in Ordered(t) <==> e in t && Supported(e)
  {
    ChildrenAreSupported(t);
    SortKeeps(ByName, Children(t));
    forall e ensures e in Ordered(t) <==> e in Children(t) {
      assert e in Ordered(t) <==> e in multiset(Ordered(t));
      assert e in Children(t) <==> e in multiset(Children(t));
    }
  }

  // ---- the walk ----

  /** The first loop of `visit`: every entry counts, and none may fail. */
  function Scanned(l: Limits, w: State, t: Tree): State
    decreases |t|
  {
    if t == [] || w.error.Some? then w
    else
      var next := w.(scanned := w.scanned + 1);
      if next.scanned > l.maxEntries then next.(error := Some(TooLarge))
      else if Fails(t[0]) then next.(error := Some(Io))
      else Scanned(l, next, t[1..])
  }

  function ItemFor(e: Entry, prefix: Path): Item {
    Item(prefix + [e.name], e.node.Dir?, if e.node.File? then e.node.size else 0)
  }

  /** `add` up to where a directory is walked. */
  function Recorded(l: Limits, w: State, e: Entry, prefix: Path): State {
    var item := ItemFor(e, prefix);
    var named := w.(nameBytes := SatAdd(w.nameBytes, |Display(item.relative)|));
    if named.nameBytes > l.maxNameBytes then named.(error := Some(TooLarge))
    else if e.node.Dir? then
      if !e.node.readable then named.(error := Some(Io)) else named.(items := named.items + [item])
    else
      var sized := named.(bytes := SatAdd(named.bytes, item.size));
      if sized.bytes > l.maxBytes then sized.(error := Some(TooLarge)) else sized.(items := sized.items + [item])
  }

  /** The second loop of `visit`. */
  function Added(l: Limits, w: State, cs: Tree, prefix: Path, depth: nat): State
    decreases Height(cs), 0, |cs|
  {
    if cs == [] || w.error.Some? then w
    else
      var recorded := Recorded(l, w, cs[0], prefix);
      var below :=
        if recorded.error.None? && cs[0].node.Dir?
        then Visited(l, recorded, cs[0].node.entries, prefix + [cs[0].name], depth + 1)
        else recorded;
      Added(l, below, cs[1..], prefix, depth)
  }

  function Visited(l: Limits, w: State, t: Tree, prefix: Path, depth: nat): State
    decreases Height(t), 1, 0
  {
    var scanned := Scanned(l, w, t);
    if scanned.error.Some? then scanned
    else if Children(t) != [] && depth >= MAX_PATH_DEPTH then scanned.(error := Some(TooDeep))
    else Added(l, scanned, Ordered(t), prefix, depth)
  }

  class ArchiveWalk {
    const limits: Limits
    var items: seq<Item>
    var scanned: nat
    var bytes: U64
    var nameBytes: U64

    constructor (limits: Limits)
      ensures this.limits == limits && Now(None) == START
    {
      this.limits := limits;
      items, scanned, bytes, nameBytes := [], 0, 0, 0;
    }

    ghost function Now(error: Option<Error>): State
      reads this
    {
      State(scanned, bytes, nameBytes, items, error)
    }

    method Scan(t: Tree) returns (children: Tree, error: Option<Error>)
      modifies this
      ensures Now(error) == Scanned(limits, old(Now(None)), t)
      ensures error.None? ==> children == Children(t)
    {
      children := [];
      for i := 0 to |t|
        invariant Scanned(limits, old(Now(None)), t) == Scanned(limits, Now(None), t[i..])
        invariant Children(t) == children + Children(t[i..])
      {
        assert t[i..][0] == t[i] && t[i..][1..] == t[i + 1..];
        scanned := scanned + 1;
        if scanned > limits.maxEntries {
          return children, Some(TooLarge);
        }
        if Fails(t[i]) {
          return children, Some(Io);
        }
        if Supported(t[i]) {
          children := children + [t[i]];
        }
      }
      error := None;
    }

    method Record(e: Entry, prefix: Path) returns (error: Option<Error>)
      modifies this
      ensures Now(error) == Recorded(limits, old(Now(None)), e, prefix)
    {
      var item := ItemFor(e, prefix);
      nameBytes := SatAdd(nameBytes, |Display(item.relative)|);
      if nameBytes > limits.maxNameBytes {
        return Some(TooLarge);
      }
      if e.node.Dir? {
        if !e.node.readable {
          return Some(Io);
        }
      } else {
        bytes := SatAdd(bytes, item.size);
        if bytes > limits.maxBytes {
          return Some(TooLarge);
        }
      }
      items := items + [item];
      error := None;
    }

    method Visit(t: Tree, prefix: Path, depth: nat) returns (error: Option<Error>)
      modifies this
      ensures Now(error) == Visited(limits, old(Now(None)), t, prefix, depth)
      decreases Height(t), 1
    {
      var children;
      children, error := Scan(t);
      if error.Some? {
        return;
      }
      if children != [] && depth >= MAX_PATH_DEPTH {
        return Some(TooDeep);
      }
      var cs := Sort(ByName, children);
      assert cs == Ordered(t);
      error := AddAll(cs, prefix, depth);
    }

    /** Each child, and what is below it. */
    method AddAll(cs: Tree, prefix: Path, depth: nat) returns (error: Option<Error>)
      modifies this
      ensures Now(error) == Added(limits, old(Now(None)), cs, prefix, depth)
      decreases Height(cs), 0
    {
      for i := 0 to |cs|
        invariant Added(limits, old(Now(None)), cs, prefix, depth) == Added(limits, Now(None), cs[i..], prefix, depth)
      {
        var e := cs[i];
        assert cs[i..][0] == e && cs[i..][1..] == cs[i + 1..];
        error := Record(e, prefix);
        if error.Some? {
          return;
        }
        if e.node.Dir? {
          HeightBounds(cs, e);
          error := Visit(e.node.entries, prefix + [e.name], depth + 1);
          if error.Some? {
            return;
          }
        }
      }
      error := None;
    }
  }

  // ---- what the walk computes ----

  /** The items of a directory, in order: each before its own contents. */
  function Items(t: Tree, prefix: Path): seq<Item>
    decreases Height(t), 1, 0
  {
    ItemsOf(Ordered(t), prefix)
  }

  function ItemsOf(cs: Tree, prefix: Path): seq<Item>
    decreases Height(cs), 0, |cs|
  {
    if cs == [] then []
    else
      [ItemFor(cs[0], prefix)]
      + (if cs[0].node.Dir? then Items(cs[0].node.entries, prefix + [cs[0].name]) else [])
      + ItemsOf(cs[1..], prefix)
  }

  function SizeOf(items: seq<Item>): nat {
    if items == [] then 0 else items[0].size + SizeOf(items[1..])
  }

  function NamesOf(items: seq<Item>): nat {
    if items == [] then 0 else |Display(items[0].relative)| + NamesOf(items[1..])
  }

  lemma {:induction false} TotalsOfConcat(a: seq<Item>, b: seq<Item>)
    ensures SizeOf(a + b) == SizeOf(a) + SizeOf(b) && NamesOf(a + b) == NamesOf(a) + NamesOf(b)
  {
    if a == [] {
      assert a + b == b;
    } else {
      assert (a + b)[0] == a[0] && (a + b)[1..] == a[1..] + b;
      TotalsOfConcat(a[1..], b);
    }
  }

  /** The state after `count` entries and these items. */
  ghost function Grown(w: State, count: nat, items: seq<Item>): State {
    State(w.scanned + count, SatAdd(w.bytes, SizeOf(items)), SatAdd(w.nameBytes, NamesOf(items)), w.items + items, w.error)
  }

  ghost predicate Fits(l: Limits, w: State) {
    w.scanned <= l.maxEntries && w.bytes <= l.maxBytes && w.nameBytes <= l.maxNameBytes
  }

  lemma GrownTwice(w: State, m: nat, a: seq<Item>, n: nat, b: seq<Item>)
    ensures Grown(Grown(w, m, a), n, b) == Grown(w, m + n, a + b)
  {
    TotalsOfConcat(a, b);
    assert (w.items + a) + b == w.items + (a + b);
  }

  lemma {:induction false} ScanIsExact(l: Limits, w: State, t: Tree)
    requires w.error.None? && w.scanned <= l.maxEntries
    ensures
      var r := Scanned(l, w, t);
      if NoneFails(t) && w.scanned + |t| <= l.maxEntries then r == w.(scanned := w.scanned + |t|) else r.error.Some?
    decreases |t|
  {
    if t != [] && w.scanned < l.maxEntries && !Fails(t[0]) {
      ScanIsExact(l, w.(scanned := w.scanned + 1), t[1..]);
      assert NoneFails(t) <==> NoneFails(t[1..]) by {
        assert forall i :: 0 < i < |t| ==> t[i] == t[1..][i - 1];
      }
    }
  }

  lemma RecordIsExact(l: Limits, w: State, e: Entry, prefix: Path)
    requires w.error.None? && Fits(l, w)
    ensures
      var r, grown := Recorded(l, w, e, prefix), Grown(w, 0, [ItemFor(e, prefix)]);
      if (e.node.Dir? ==> e.node.readable) && Fits(l, grown) then r == grown else r.error.Some?
  {
    var item := ItemFor(e, prefix);
    assert [item][1..] == [];
    assert SizeOf([item]) == item.size && NamesOf([item]) == |Display(item.relative)|;
  }

  /** Whether the walk of these children, or of this directory, ends as it should. */
  ghost predicate Exactly(l: Limits, w: State, clean: bool, count: nat, items: seq<Item>, r: State) {
    if clean && Fits(l, Grown(w, count, items)) then r == Grown(w, count, items) else r.error.Some?
  }

  lemma ExactlyThen(
      l: Limits, w: State, c: bool, m: nat, a: seq<Item>, v: State, d: bool, n: nat, b: seq<Item>, r: State)
    requires Exactly(l, w, c, m, a, v)
    requires if v.error.None? then Exactly(l, v, d, n, b, r) else r == v
    requires w.error.None?
    ensures Exactly(l, w, c && d, m + n, a + b, r)
  {
    GrownTwice(w, m, a, n, b);
  }

  /** Nothing to add. */
  lemma NothingAdded(l: Limits, w: State)
    requires w.error.None? && Fits(l, w)
    ensures Exactly(l, w, true, 0, [], w)
  {
    assert w.items + [] == w.items;
  }

  lemma {:induction false} AddIsExact(l: Limits, w: State, cs: Tree, prefix: Path, depth: nat)
    requires w.error.None? && Fits(l, w) && (cs != [] ==> depth < MAX_PATH_DEPTH)
    requires forall i :: 0 <= i < |cs| ==> Supported(cs[i])
    ensures ScanCount(cs) >= |cs|
    ensures Exactly(l, w, Clean(cs, depth), ScanCount(cs) - |cs|, ItemsOf(cs, prefix), Added(l, w, cs, prefix, depth))
    decreases Height(cs), 0, |cs|
  {
    if cs == [] {
      NothingAdded(l, w);
    } else {
      var e, rest := cs[0], cs[1..];
      var first := FirstAdded(l, w, e, prefix, depth);
      FirstIsExact(l, w, cs, prefix, depth);
      CountsItsEntries(rest);
      if first.error.None? {
        AddIsExact(l, first, rest, prefix, depth);
      }
      ExactlyThen(l, w, OneClean(e, depth), ScanCount(Below(e)), FirstItems(e, prefix), first,
                  Clean(rest, depth), ScanCount(rest) - |rest|, ItemsOf(rest, prefix), Added(l, first, rest, prefix, depth));
    }
  }

  ghost function FirstAdded(l: Limits, w: State, e: Entry, prefix: Path, depth: nat): State {
    var recorded := Recorded(l, w, e, prefix);
    if recorded.error.None? && e.node.Dir?
    then Visited(l, recorded, e.node.entries, prefix + [e.name], depth + 1)
    else recorded
  }

  ghost function FirstItems(e: Entry, prefix: Path): seq<Item> {
    [ItemFor(e, prefix)] + if e.node.Dir? then Items(e.node.entries, prefix + [e.name]) else []
  }

  lemma {:induction false} FirstIsExact(l: Limits, w: State, cs: Tree, prefix: Path, depth: nat)
    requires w.error.None? && Fits(l, w) && cs != [] && depth < MAX_PATH_DEPTH && Supported(cs[0])
    ensures
      var e := cs[0];
      Exactly(l, w, OneClean(e, depth), ScanCount(Below(e)), FirstItems(e, prefix), FirstAdded(l, w, e, prefix, depth))
    decreases Height(cs), 0, 0
  {
    var e := cs[0];
    RecordIsExact(l, w, e, prefix);
    var recorded, item := Recorded(l, w, e, prefix), [ItemFor(e, prefix)];
    if e.node.Dir? {
      if recorded.error.None? {
        VisitIsExact(l, recorded, e.node.entries, prefix + [e.name], depth + 1);
      }
      ExactlyThen(l, w, e.node.readable, 0, item, recorded,
                  Clean(e.node.entries, depth + 1), ScanCount(e.node.entries), Items(e.node.entries, prefix + [e.name]),
                  FirstAdded(l, w, e, prefix, depth));
    } else {
      assert item + [] == item;
    }
  }

  lemma {:induction false} CountsItsEntries(t: Tree)
    ensures ScanCount(t) >= |t|
  {
    if t != [] {
      CountsItsEntries(t[1..]);
    }
  }

  /** The scan charges its entries and nothing else. */
  lemma ScanEnds(l: Limits, w: State, t: Tree)
    requires w.error.None? && Fits(l, w)
    ensures Exactly(l, w, NoneFails(t), |t|, [], Scanned(l, w, t))
  {
    ScanIsExact(l, w, t);
    assert w.items + [] == w.items;
  }

  /** The children have the totals of their directory, once it is scanned. */
  lemma OrderedTotals(t: Tree, depth: nat)
    ensures
      var cs := Ordered(t);
      && |cs| == |Children(t)| && ScanCount(cs) >= |cs| && ScanCount(t) == |t| + (ScanCount(cs) - |cs|)
      && (Clean(t, depth) <==> NoneFails(t) && Clean(cs, depth))
      && forall i :: 0 <= i < |cs| ==> Supported(cs[i])
  {
    ChildrenTotals(t, depth);
    SortTotals(Children(t), depth);
    OrderedEntries(t);
    CountsItsEntries(Ordered(t));
    forall i | 0 <= i < |Ordered(t)| ensures Supported(Ordered(t)[i]) {
      assert Ordered(t)[i] in Ordered(t);
    }
  }

  /** What `visit` does after its scan. */
  ghost function AfterScan(l: Limits, w: State, cs: Tree, prefix: Path, depth: nat): State {
    if w.error.Some? then w
    else if cs != [] && depth >= MAX_PATH_DEPTH then w.(error := Some(TooDeep))
    else Added(l, w, cs, prefix, depth)
  }

  lemma TooDeepIsUnclean(cs: Tree, depth: nat)
    requires cs != [] && depth >= MAX_PATH_DEPTH && Supported(cs[0])
    ensures !Clean(cs, depth)
  {
  }

  lemma {:induction false} VisitIsExact(l: Limits, w: State, t: Tree, prefix: Path, depth: nat)
    requires w.error.None? && Fits(l, w)
    ensures Exactly(l, w, Clean(t, depth), ScanCount(t), Items(t, prefix), Visited(l, w, t, prefix, depth))
    decreases Height(t), 1, 0
  {
    var cs, scanned := Ordered(t), Scanned(l, w, t);
    OrderedTotals(t, depth);
    ScanEnds(l, w, t);
    if scanned.error.None? {
      if cs != [] && depth >= MAX_PATH_DEPTH {
        TooDeepIsUnclean(cs, depth);
      } else {
        AddIsExact(l, scanned, cs, prefix, depth);
      }
    }
    ExactlyThen(l, w, NoneFails(t), |t|, [], scanned, Clean(cs, depth), ScanCount(cs) - |cs|, ItemsOf(cs, prefix),
                AfterScan(l, scanned, cs, prefix, depth));
    assert [] + ItemsOf(cs, prefix) == Items(t, prefix);
  }
}
