/**
 What an archive must look like to be extracted, said without the order of its entries, and
 the proof that the incremental checker accepts exactly those archives.
 */
module ExtractionTheory {
  import opened Common
  import opened VirtualPaths
  import opened Extraction
  import opened ExtractionNames
  import opened ExtractionPlans

  /** The entries that have a place in the tree, in the archive's order. */
  function Items(cfg: Config, es: seq<ArchiveEntry>): (items: seq<Item>)
    ensures AllPlaced(items)
  {
    if es == [] then []
    else Items(cfg, es[..|es| - 1]) + ItemOf(cfg, es[|es| - 1])
  }

  function ItemOf(cfg: Config, e: ArchiveEntry): seq<Item> {
    match EntryPath(cfg, e.raw, e.kind.Directory?)
    case At(path) => [Item(path, e.kind, e.body)]
    case _ => []
  }

  predicate AllPlaced(items: seq<Item>) {
    forall i :: 0 <= i < |items| ==> items[i].path != []
  }

  // ---- the declarative condition ----

  /** What one entry must satisfy on its own. */
  predicate EntryFine(cfg: Config, e: ArchiveEntry) {
    var at := EntryPath(cfg, e.raw, e.kind.Directory?);
    && !at.Bad?
    && (if e.kind.Directory? then e.size == 0 else |e.body| == e.size)
  }

  /** No two entries share a path, and no file's path is a proper prefix of another's. */
  predicate Separate(items: seq<Item>) {
    forall i, j :: 0 <= i < |items| && 0 <= j < |items| && i != j ==>
      items[i].path != items[j].path && !(items[i].kind.File? && items[i].path < items[j].path)
  }

  /** Every entry and every implicit parent. */
  function AllPaths(items: seq<Item>): set<Path> {
    set i, n | 0 <= i < |items| && 1 <= n <= |items[i].path| :: items[i].path[..n]
  }

  function FilePaths(items: seq<Item>): set<Path> {
    set i | 0 <= i < |items| && items[i].kind.File? :: items[i].path
  }

  function ExplicitPaths(items: seq<Item>): set<Path> {
    set i | 0 <= i < |items| :: items[i].path
  }

  function FileBytes(items: seq<Item>): nat {
    if items == [] then 0 else FileBytes(items[..|items| - 1]) + BodyBytes(items[|items| - 1])
  }

  function PlanOf(items: seq<Item>): Plan {
    Plan(AllPaths(items), FilePaths(items), ExplicitPaths(items), FileBytes(items))
  }

  /** The paths, the names, the bytes and the charge of the items are within the four budgets. */
  ghost predicate FitsBudgets(cfg: Config, items: seq<Item>) {
    PlanFits(cfg, PlanOf(items))
  }

  predicate AllFine(cfg: Config, es: seq<ArchiveEntry>) {
    forall i :: 0 <= i < |es| ==> EntryFine(cfg, es[i])
  }

  /** The items clash nowhere and fit. */
  ghost predicate Fitting(cfg: Config, items: seq<Item>) {
    Separate(items) && FitsBudgets(cfg, items)
  }

  ghost predicate Acceptable(cfg: Config, es: seq<ArchiveEntry>) {
    AllFine(cfg, es) && Fitting(cfg, Items(cfg, es))
  }

  // ---- the state that a set of items calls for ----

  /** Every file's body is in the tree. */
  ghost predicate HoldsBodies(items: seq<Item>, tree: Tree) {
    forall i :: 0 <= i < |items| && items[i].kind.File? ==>
      items[i].path in tree && tree[items[i].path] == Contents(items[i].body)
  }

  ghost predicate Represents(items: seq<Item>, s: State) {
    Records(PlanOf(items), s) && HoldsBodies(items, s.tree)
  }

  /** The states that the items call for; for separate items there is exactly one. */
  ghost function StatesFor(items: seq<Item>): iset<State> {
    iset s: State | Represents(items, s)
  }

  lemma RepresentsAgrees(items: seq<Item>, s: State)
    requires s in StatesFor(items)
    ensures s in RecordedStates(PlanOf(items))
  {
    forall p | p in s.entries ensures s.tree[p].Folder? <==> s.entries[p].kind.Directory? {
      if p in FilePaths(items) {
        var i :| 0 <= i < |items| && items[i].kind.File? && items[i].path == p;
        assert s.tree[items[i].path] == Contents(items[i].body);
      }
    }
  }

  // ---- one more item ----

  lemma AllPathsSnoc(items: seq<Item>, item: Item)
    ensures AllPaths(items + [item]) == AllPaths(items) + Prefixes(item.path, |item.path|)
  {
    var more := items + [item];
    forall p | p in AllPaths(items) ensures p in AllPaths(more) {
      var i, n :| 0 <= i < |items| && 1 <= n <= |items[i].path| && p == items[i].path[..n];
      assert more[i].path[..n] == p;
    }
    forall p | p in Prefixes(item.path, |item.path|) ensures p in AllPaths(more) {
      var n :| 1 <= n <= |item.path| && p == item.path[..n];
      assert more[|items|].path[..n] == p;
    }
  }

  lemma FilePathsSnoc(items: seq<Item>, item: Item)
    ensures FilePaths(items + [item]) == FilePaths(items) + (if item.kind.File? then {item.path} else {})
  {
    var more := items + [item];
    assert more[|items|] == item;
    forall p | p in FilePaths(items) ensures p in FilePaths(more) {
      var i :| 0 <= i < |items| && items[i].kind.File? && items[i].path == p;
      assert more[i].path == p;
    }
  }

  lemma ExplicitPathsSnoc(items: seq<Item>, item: Item)
    ensures ExplicitPaths(items + [item]) == ExplicitPaths(items) + {item.path}
  {
    var more := items + [item];
    assert more[|items|] == item;
    forall p | p in ExplicitPaths(items) ensures p in ExplicitPaths(more) {
      var i :| 0 <= i < |items| && items[i].path == p;
      assert more[i].path == p;
    }
  }

  lemma PlanSnoc(items: seq<Item>, item: Item)
    ensures PlanOf(items + [item]) == Grown(PlanOf(items), item)
  {
    AllPathsSnoc(items, item);
    FilePathsSnoc(items, item);
    ExplicitPathsSnoc(items, item);
    assert (items + [item])[..|items|] == items;
  }

  lemma PlanOfIsPlan(items: seq<Item>)
    requires AllPlaced(items)
    ensures IsPlan(PlanOf(items))
  {
    forall i | 0 <= i < |items| ensures items[i].path in AllPaths(items) {
      assert items[i].path[..|items[i].path|] == items[i].path;
    }
  }

  /** The new item clashes with none of the others. */
  predicate Joins(items: seq<Item>, item: Item) {
    forall i :: 0 <= i < |items| ==>
      && items[i].path != item.path
      && !(items[i].kind.File? && items[i].path < item.path)
      && !(item.kind.File? && item.path < items[i].path)
  }

  lemma SeparateSnoc(items: seq<Item>, item: Item)
    ensures Separate(items + [item]) <==> Separate(items) && Joins(items, item)
  {
    var more := items + [item];
    assert more[|items|] == item;
    assert forall i :: 0 <= i < |items| ==> more[i] == items[i];
    if Separate(more) {
      forall i, j | 0 <= i < |items| && 0 <= j < |items| && i != j
        ensures items[i].path != items[j].path && !(items[i].kind.File? && items[i].path < items[j].path)
      {
        assert more[i] == items[i] && more[j] == items[j];
      }
      forall i | 0 <= i < |items| ensures items[i].path != item.path
        && !(items[i].kind.File? && items[i].path < item.path) && !(item.kind.File? && item.path < items[i].path)
      {
        assert more[i] == items[i];
      }
    }
  }

  lemma InAllPathsIff(items: seq<Item>, path: Path)
    requires path != []
    ensures path in AllPaths(items) <==> exists i :: 0 <= i < |items| && path <= items[i].path
  {
    if i :| 0 <= i < |items| && path <= items[i].path {
      assert items[i].path[..|path|] == path;
    }
  }

  /** A file is in the way of a path exactly when its path is a proper prefix. */
  lemma FileInTheWayIff(items: seq<Item>, path: Path)
    requires path != [] && AllPlaced(items)
    ensures Prefixes(path, |path| - 1) !! FilePaths(items)
       <==> forall i :: 0 <= i < |items| && items[i].kind.File? ==> !(items[i].path < path)
  {
    if i :| 0 <= i < |items| && items[i].kind.File? && items[i].path < path {
      assert path[..|items[i].path|] == items[i].path;
      assert items[i].path in Prefixes(path, |path| - 1) && items[i].path in FilePaths(items);
    }
  }

  /** An item clashes with no other exactly when it is clear of the sets they make. */
  lemma JoinsIffClear(items: seq<Item>, item: Item)
    requires item.path != [] && AllPlaced(items)
    ensures Joins(items, item) <==> Clear(PlanOf(items), item)
  {
    FileInTheWayIff(items, item.path);
    InAllPathsIff(items, item.path);
    assert forall i :: 0 <= i < |items| ==> items[i].path in ExplicitPaths(items);
  }

  lemma HoldsBodiesSnoc(items: seq<Item>, item: Item, before: Tree, after: Tree)
    requires Joins(items, item) && HoldsBodies(items, before) && TreeGrows(before, item, after)
    ensures HoldsBodies(items + [item], after)
  {
  }

  /** What it takes for one more located entry to be accepted. */
  ghost predicate Admissible(cfg: Config, items: seq<Item>, item: Item, e: ArchiveEntry) {
    SizeIsRight(e) && Joins(items, item) && FitsBudgets(cfg, items + [item])
  }

  lemma AdmissibleIff(cfg: Config, items: seq<Item>, item: Item, e: ArchiveEntry)
    requires item.path != [] && AllPlaced(items)
    ensures Admissible(cfg, items, item, e) <==> Accepts(cfg, PlanOf(items), e, item)
  {
    JoinsIffClear(items, item);
    PlanSnoc(items, item);
  }

  lemma PlacedRepresents(items: seq<Item>, item: Item, s: State, v: State)
    requires Joins(items, item) && s in StatesFor(items) && v in PlacedStates(PlanOf(items), s, item)
    ensures v in StatesFor(items + [item])
  {
    PlanSnoc(items, item);
    HoldsBodiesSnoc(items, item, s.tree, v.tree);
  }

  /** A located entry is taken exactly when its declared size is right, it clashes with nothing,
      and the totals with it fit. */
  lemma EntryExact(cfg: Config, items: seq<Item>, s: State, e: ArchiveEntry, item: Item)
    requires item.path != [] && item.kind == e.kind && item.body == e.body && (e.kind.Directory? ==> e.size == 0)
    requires AllPlaced(items) && s in StatesFor(items) && FitsBudgets(cfg, items)
    ensures Admit(cfg, s, item.path, e).Ok? == Admissible(cfg, items, item, e)
    ensures Admit(cfg, s, item.path, e).Ok? ==> Admit(cfg, s, item.path, e).value in StatesFor(items + [item])
  {
    PlanOfIsPlan(items);
    RepresentsAgrees(items, s);
    AdmissibleIff(cfg, items, item, e);
    AdmitExact(cfg, PlanOf(items), s, e, item);
    if Admissible(cfg, items, item, e) {
      PlacedRepresents(items, item, s, Admit(cfg, s, item.path, e).value);
    }
  }

  // ---- whole archives ----

  lemma EmptyIsStart(cfg: Config)
    requires cfg.maxCharge >= DIRECTORY_QUOTA_BYTES
    ensures Start() in StatesFor([]) && FitsBudgets(cfg, [])
  {
    assert AllPaths([]) == {} && FilePaths([]) == {} && ExplicitPaths([]) == {};
  }

  lemma AllFineSnoc(cfg: Config, es: seq<ArchiveEntry>, e: ArchiveEntry)
    ensures AllFine(cfg, es + [e]) <==> AllFine(cfg, es) && EntryFine(cfg, e)
  {
    var all := es + [e];
    assert all[|es|] == e;
    if AllFine(cfg, all) {
      forall i | 0 <= i < |es| ensures EntryFine(cfg, es[i]) {
        assert all[i] == es[i];
      }
    }
  }

  /** One more entry adds its item, if it is located. */
  lemma ItemsSnoc(cfg: Config, es: seq<ArchiveEntry>, e: ArchiveEntry)
    ensures Items(cfg, es + [e]) == Items(cfg, es) + ItemOf(cfg, e)
  {
    assert (es + [e])[..|es|] == es;
  }

  /** Items that fit with one more fit without it. */
  lemma FitsWithout(cfg: Config, items: seq<Item>, item: Item)
    requires item.path != [] && AllPlaced(items) && Joins(items, item) && FitsBudgets(cfg, items + [item])
    ensures FitsBudgets(cfg, items)
  {
    PlanOfIsPlan(items);
    JoinsIffClear(items, item);
    PlanSnoc(items, item);
    SizeFits(cfg, PlanOf(items), item);
  }

  lemma FittingSnoc(cfg: Config, items: seq<Item>, item: Item)
    requires item.path != [] && AllPlaced(items)
    ensures Fitting(cfg, items + [item]) == (Fitting(cfg, items) && Joins(items, item) && FitsBudgets(cfg, items + [item]))
  {
    SeparateSnoc(items, item);
    if Joins(items, item) && FitsBudgets(cfg, items + [item]) {
      FitsWithout(cfg, items, item);
    }
  }

  /** What it takes for one more entry to be accepted after these items. */
  ghost predicate Admits(cfg: Config, items: seq<Item>, e: ArchiveEntry) {
    EntryFine(cfg, e) && (ItemOf(cfg, e) != [] ==> Admissible(cfg, items, ItemOf(cfg, e)[0], e))
  }

  lemma FineSizeIsRight(cfg: Config, e: ArchiveEntry)
    requires EntryFine(cfg, e)
    ensures SizeIsRight(e)
  {
  }

  lemma AcceptableSnoc(cfg: Config, es: seq<ArchiveEntry>, e: ArchiveEntry)
    ensures Acceptable(cfg, es + [e]) == (Acceptable(cfg, es) && Admits(cfg, Items(cfg, es), e))
  {
    AllFineSnoc(cfg, es, e);
    ItemsSnoc(cfg, es, e);
    if EntryFine(cfg, e) {
      FineSizeIsRight(cfg, e);
      if ItemOf(cfg, e) != [] {
        FittingSnoc(cfg, Items(cfg, es), ItemOf(cfg, e)[0]);
      } else {
        assert Items(cfg, es) + ItemOf(cfg, e) == Items(cfg, es);
      }
    }
  }

  lemma EnterExact(cfg: Config, items: seq<Item>, s: State, e: ArchiveEntry)
    requires AllPlaced(items) && s in StatesFor(items) && FitsBudgets(cfg, items)
    ensures Enter(cfg, s, e).Ok? == Admits(cfg, items, e)
    ensures Enter(cfg, s, e).Ok? ==> Enter(cfg, s, e).value in StatesFor(items + ItemOf(cfg, e))
  {
    if ItemOf(cfg, e) != [] {
      if e.kind.Directory? ==> e.size == 0 {
        EntryExact(cfg, items, s, e, ItemOf(cfg, e)[0]);
      }
    } else {
      assert items + ItemOf(cfg, e) == items;
    }
  }

  /** The checker accepts an archive exactly when its items are fine, and then its state is the one
      that they call for. */
  lemma {:induction false} FoldsItems(cfg: Config, es: seq<ArchiveEntry>)
    requires cfg.maxCharge >= DIRECTORY_QUOTA_BYTES
    ensures Fold(cfg, es).Ok? == Acceptable(cfg, es)
    ensures Fold(cfg, es).Ok? ==> Fold(cfg, es).value in StatesFor(Items(cfg, es))
  {
    if es == [] {
      EmptyIsStart(cfg);
    } else {
      var front, e := es[..|es| - 1], es[|es| - 1];
      assert es == front + [e];
      FoldsItems(cfg, front);
      AcceptableSnoc(cfg, front, e);
      if Acceptable(cfg, front) {
        EnterExact(cfg, Items(cfg, front), Fold(cfg, front).value, e);
        assert Items(cfg, es) == Items(cfg, front) + ItemOf(cfg, e);
      }
    }
  }

  // ---- the entries by what their names spell ----

  /** The entry spells the top of the tree and gives no item, or it spells a path that may be created
      below the destination and gives one item there. */
  ghost predicate Locates(cfg: Config, e: ArchiveEntry, items: seq<Item>) {
    && cfg.names.utf8(e.raw)
    && ((e.kind.Directory? && SpellsTop(e.raw) && items == [])
        || exists path :: LocatesAt(cfg, e, path) && items == [Item(path, e.kind, e.body)])
  }

  ghost predicate LocatesAt(cfg: Config, e: ArchiveEntry, path: Path) {
    Spells(e.raw, e.kind.Directory?, path) && IsName(cfg, path) && FitsBelow(cfg, path)
  }

  /** The items of an archive, in the order of its entries. */
  ghost predicate LocatesAll(cfg: Config, es: seq<ArchiveEntry>, items: seq<Item>) {
    if es == [] then items == []
    else exists n: nat :: n <= |items| && LocatesAll(cfg, es[..|es| - 1], items[..n]) && Locates(cfg, es[|es| - 1], items[n..])
  }

  ghost predicate AllLocated(cfg: Config, es: seq<ArchiveEntry>) {
    forall i :: 0 <= i < |es| ==> !EntryPath(cfg, es[i].raw, es[i].kind.Directory?).Bad?
  }

  predicate SizesAreRight(es: seq<ArchiveEntry>) {
    forall i :: 0 <= i < |es| ==> (if es[i].kind.Directory? then es[i].size == 0 else |es[i].body| == es[i].size)
  }

  lemma LocatesIff(cfg: Config, e: ArchiveEntry, items: seq<Item>)
    requires IsDestination(cfg)
    ensures Locates(cfg, e, items) == (!EntryPath(cfg, e.raw, e.kind.Directory?).Bad? && items == ItemOf(cfg, e))
  {
    var at := EntryPath(cfg, e.raw, e.kind.Directory?);
    NoPlaceIff(cfg, e.raw, e.kind.Directory?);
    if at.At? {
      PlaceIff(cfg, e.raw, e.kind.Directory?, at.path);
    }
    forall path | LocatesAt(cfg, e, path) && cfg.names.utf8(e.raw) ensures at == At(path) {
      PlaceIff(cfg, e.raw, e.kind.Directory?, path);
    }
  }

  lemma AllLocatedSnoc(cfg: Config, es: seq<ArchiveEntry>)
    requires es != []
    ensures
      var front, e := es[..|es| - 1], es[|es| - 1];
      AllLocated(cfg, es) == (AllLocated(cfg, front) && !EntryPath(cfg, e.raw, e.kind.Directory?).Bad?)
  {
    var front := es[..|es| - 1];
    forall i | 0 <= i < |front| ensures es[i] == front[i] {
    }
  }

  /** An archive has items exactly when every entry has, and they are then the checker's. */
  lemma {:induction false} LocatesAllIff(cfg: Config, es: seq<ArchiveEntry>, items: seq<Item>)
    requires IsDestination(cfg)
    ensures LocatesAll(cfg, es, items) == (AllLocated(cfg, es) && items == Items(cfg, es))
    decreases |es|
  {
    if es != [] {
      var front, e := es[..|es| - 1], es[|es| - 1];
      AllLocatedSnoc(cfg, es);
      if LocatesAll(cfg, es, items) {
        var n: nat :| n <= |items| && LocatesAll(cfg, front, items[..n]) && Locates(cfg, e, items[n..]);
        LocatesAllIff(cfg, front, items[..n]);
        LocatesIff(cfg, e, items[n..]);
        assert items == items[..n] + items[n..];
      }
      if AllLocated(cfg, es) && items == Items(cfg, es) {
        var n := |Items(cfg, front)|;
        assert items[..n] == Items(cfg, front) && items[n..] == ItemOf(cfg, e);
        LocatesAllIff(cfg, front, items[..n]);
        LocatesIff(cfg, e, items[n..]);
      }
    }
  }

  lemma AllFineIff(cfg: Config, es: seq<ArchiveEntry>)
    ensures AllFine(cfg, es) == (AllLocated(cfg, es) && SizesAreRight(es))
  {
  }

  /** An archive is accepted exactly when every entry's name spells a place, the declared sizes are
      right, and the items so given clash nowhere and fit; the state, including the staged tree and
      the charge, is then the one that they call for. */
  lemma FoldExact(cfg: Config, es: seq<ArchiveEntry>)
    requires cfg.maxCharge >= DIRECTORY_QUOTA_BYTES && IsDestination(cfg)
    ensures Fold(cfg, es).Ok? <==> SizesAreRight(es) && exists items :: LocatesAll(cfg, es, items) && Fitting(cfg, items)
    ensures Fold(cfg, es).Ok? ==> forall items :: LocatesAll(cfg, es, items) ==> Fold(cfg, es).value in StatesFor(items)
  {
    FoldsItems(cfg, es);
    AllFineIff(cfg, es);
    LocatesAllIff(cfg, es, Items(cfg, es));
    forall items | LocatesAll(cfg, es, items) ensures items == Items(cfg, es) && AllLocated(cfg, es) {
      LocatesAllIff(cfg, es, items);
    }
  }
}
