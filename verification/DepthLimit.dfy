/**
 The depth limit of a share over whole runs (src/filesystem.rs, `move_entry`, `begin_write`,
 `publish_new`; src/filesystem/trash.rs; src/archives.rs, extraction; src/mutations.rs, which lets
 one change at a time commit to a share).

 An upload opens its parent directory when it begins and publishes through that handle when it
 commits, so its place moves along with the directory, to Trash and back too.
 */
module DepthLimit {
  import opened Common
  import opened VirtualPaths
  import opened ShareMoves
  import Trees
  import UsageWalks
  import ArchiveWalks
  import ArchiveOrder
  import Extraction

  // ---- extraction ----

  /** An extracted tree fits below its destination, and everything in it is in a directory. */
  ghost predicate IsExtracted(cfg: Extraction.Config, tree: Extraction.Tree) {
    forall p :: p in tree ==>
                  p != [] && Extraction.ParentIsFolder(tree, p) && |cfg.destination| + |p| <= MAX_PATH_DEPTH
  }

  /** The states whose tree is such a tree. */
  ghost function Extracting(cfg: Extraction.Config): iset<Extraction.State> {
    iset s: Extraction.State | IsExtracted(cfg, s.tree)
  }

  lemma AddKeepsExtracted(cfg: Extraction.Config, s: Extraction.State, path: Path, kind: Extraction.Kind, explicit: bool)
    requires path != [] && s in Extracting(cfg) && |cfg.destination| + |path| <= MAX_PATH_DEPTH
    requires Extraction.Add(cfg, s, path, kind, explicit).Ok?
    ensures Extraction.Add(cfg, s, path, kind, explicit).value in Extracting(cfg)
  {
    var t := Extraction.Add(cfg, s, path, kind, explicit).value.tree;
    forall p | p in t ensures p != [] && Extraction.ParentIsFolder(t, p) && |cfg.destination| + |p| <= MAX_PATH_DEPTH {
      assert p == path || p in s.tree;
    }
  }

  lemma {:induction false} ParentsKeepExtracted(cfg: Extraction.Config, s: Extraction.State, path: Path, n: nat)
    requires n < |path| && s in Extracting(cfg) && |cfg.destination| + |path| <= MAX_PATH_DEPTH
    requires Extraction.AddParents(cfg, s, path, n).Ok?
    ensures Extraction.AddParents(cfg, s, path, n).value in Extracting(cfg)
  {
    if n > 0 {
      ParentsKeepExtracted(cfg, s, path, n - 1);
      var t := Extraction.AddParents(cfg, s, path, n - 1).value;
      assert Extraction.AddParents(cfg, s, path, n) == Extraction.Add(cfg, t, path[..n], Extraction.Directory, false);
      AddKeepsExtracted(cfg, t, path[..n], Extraction.Directory, false);
    }
  }

  lemma WriteKeepsExtracted(cfg: Extraction.Config, s: Extraction.State, path: Path, e: Extraction.ArchiveEntry)
    requires path != [] && s in Extracting(cfg) && |cfg.destination| + |path| <= MAX_PATH_DEPTH
    requires Extraction.WriteBody(cfg, s, path, e).Ok?
    ensures Extraction.WriteBody(cfg, s, path, e).value in Extracting(cfg)
  {
    var t := Extraction.WriteBody(cfg, s, path, e).value.tree;
    forall p | p in t ensures p != [] && Extraction.ParentIsFolder(t, p) && |cfg.destination| + |p| <= MAX_PATH_DEPTH {
      assert p == path || p in s.tree;
    }
  }

  lemma FinishKeepsExtracted(cfg: Extraction.Config, t: Extraction.State, path: Path, e: Extraction.ArchiveEntry)
    requires path != [] && t in Extracting(cfg) && |cfg.destination| + |path| <= MAX_PATH_DEPTH
    requires Extraction.Finish(cfg, t, path, e).Ok?
    ensures Extraction.Finish(cfg, t, path, e).value in Extracting(cfg)
  {
    AddKeepsExtracted(cfg, t, path, e.kind, true);
    if e.kind.File? {
      WriteKeepsExtracted(cfg, Extraction.Add(cfg, t, path, e.kind, true).value, path, e);
    }
  }

  lemma PlaceKeepsExtracted(cfg: Extraction.Config, s: Extraction.State, path: Path, e: Extraction.ArchiveEntry)
    requires path != [] && s in Extracting(cfg) && |cfg.destination| + |path| <= MAX_PATH_DEPTH
    requires Extraction.Place(cfg, s, path, e).Ok?
    ensures Extraction.Place(cfg, s, path, e).value in Extracting(cfg)
  {
    ParentsKeepExtracted(cfg, s, path, |path| - 1);
    FinishKeepsExtracted(cfg, Extraction.AddParents(cfg, s, path, |path| - 1).value, path, e);
  }

  lemma EnterKeepsExtracted(cfg: Extraction.Config, s: Extraction.State, e: Extraction.ArchiveEntry)
    requires s in Extracting(cfg) && Extraction.Enter(cfg, s, e).Ok?
    ensures Extraction.Enter(cfg, s, e).value in Extracting(cfg)
  {
    var located := Extraction.EntryPath(cfg, e.raw, e.kind.Directory?);
    if located.At? {
      Extraction.LocatedIsValid(cfg, e.raw, e.kind.Directory?);
      PlaceKeepsExtracted(cfg, s, located.path, e);
    }
  }

  lemma {:induction false} ExtractionFits(cfg: Extraction.Config, es: seq<Extraction.ArchiveEntry>)
    requires Extraction.Fold(cfg, es).Ok?
    ensures Extraction.Fold(cfg, es).value in Extracting(cfg)
  {
    if es != [] {
      ExtractionFits(cfg, es[..|es| - 1]);
      EnterKeepsExtracted(cfg, Extraction.Fold(cfg, es[..|es| - 1]).value, es[|es| - 1]);
    }
  }

  /** The staged tree's paths below its destination. */
  function Grafted(destination: Path, tree: Extraction.Tree): Share {
    map q | q in (set p | p in tree :: destination + p) && q[|destination|..] in tree :: tree[q[|destination|..]].Folder?
  }

  /** The share after the staged tree is renamed to its destination. */
  function WithTree(share: Share, destination: Path, tree: Extraction.Tree): Share {
    share[destination := true] + Grafted(destination, tree)
  }

  lemma GraftedEntries(d: Path, tree: Extraction.Tree)
    ensures forall q :: q in Grafted(d, tree) <==> StartsWith(q, d) && q[|d|..] in tree
    ensures forall p :: p in tree ==> Grafted(d, tree)[d + p] == tree[p].Folder?
  {
    forall p | p in tree ensures (d + p)[|d|..] == p && d + p in Grafted(d, tree) {
    }
    forall q | StartsWith(q, d) && q[|d|..] in tree ensures q in Grafted(d, tree) {
      assert q == d + q[|d|..];
    }
  }

  lemma TreeEntries(share: Share, d: Path, tree: Extraction.Tree, q: Path)
    requires d !in share && (q in share ==> !StartsWith(q, d)) && [] !in tree
    ensures
      var after := WithTree(share, d, tree);
      && (q in share ==> q in after && after[q] == share[q])
      && (q in after ==> q in share || q == d || (StartsWith(q, d) && q[|d|..] in tree))
      && (StartsWith(q, d) && q[|d|..] in tree ==> q in after && after[q] == tree[q[|d|..]].Folder?)
      && d in after && after[d]
  {
    GraftedEntries(d, tree);
    assert d[|d|..] == [];
    if StartsWith(q, d) {
      assert q == d + q[|d|..];
    }
  }

  /** Where a path of the published tree lies. */
  lemma TreeParent(share: Share, d: Path, tree: Extraction.Tree, q: Path)
    requires d != [] && d !in share && [] !in tree && StartsWith(q, d) && q[|d|..] in tree && Extraction.ParentIsFolder(tree, q[|d|..])
    requires forall p :: p in share ==> !StartsWith(p, d)
    ensures q != [] && IsFolder(WithTree(share, d, tree), Parent(q))
  {
    var p := q[|d|..];
    assert q == d + p;
    if |p| == 1 {
      assert Parent(q) == d;
      TreeEntries(share, d, tree, d);
    } else {
      assert Parent(q) == d + Parent(p) && Parent(q)[|d|..] == Parent(p);
      TreeEntries(share, d, tree, Parent(q));
    }
  }

  lemma AddedParent(share: Share, cfg: Extraction.Config, tree: Extraction.Tree, q: Path)
    requires IsShare(share) && IsExtracted(cfg, tree) && cfg.destination != [] && cfg.destination !in share
    requires IsFolder(share, Parent(cfg.destination)) && q in WithTree(share, cfg.destination, tree)
    ensures q != [] && IsFolder(WithTree(share, cfg.destination, tree), Parent(q))
    ensures q in share || q == cfg.destination || |q| <= MAX_PATH_DEPTH
  {
    var d := cfg.destination;
    DestinationIsFree(share, d);
    TreeEntries(share, d, tree, q);
    if q in share || q == d {
      TreeEntries(share, d, tree, Parent(q));
    } else {
      TreeParent(share, d, tree, q);
    }
  }

  /** Publishing an extracted tree leaves a share, and keeps the limit. */
  lemma TreeIsAdded(share: Share, cfg: Extraction.Config, tree: Extraction.Tree)
    requires IsShare(share) && IsExtracted(cfg, tree) && cfg.destination != [] && cfg.destination !in share
    requires IsFolder(share, Parent(cfg.destination))
    ensures IsShare(WithTree(share, cfg.destination, tree))
    ensures Bounded(share) && |cfg.destination| <= MAX_PATH_DEPTH ==> Bounded(WithTree(share, cfg.destination, tree))
  {
    var after := WithTree(share, cfg.destination, tree);
    forall q | q in after
      ensures q != [] && IsFolder(after, Parent(q))
      ensures q in share || q == cfg.destination || |q| <= MAX_PATH_DEPTH
    {
      AddedParent(share, cfg, tree, q);
    }
  }

  // ---- runs ----

  /** An upload in progress: its parent, wherever that is now, unless it was removed. */
  datatype Upload = Upload(parent: Option<Path>, name: Name)

  /** `originals` holds, for every item in Trash, where it came from, as text. */
  datatype State = State(share: Share, uploads: map<nat, Upload>, originals: map<Name, Bytes>)

  /** Paths come as text. `Create` stands for every change that finds its parent and adds an entry
      while it holds the share's lock. `Discard` moves an entry to Trash under a random name;
      `Remove` takes away anything, in Trash or not. */
  datatype Event =
    | Create(text: Bytes, directory: bool)
    | Begin(id: nat, text: Bytes)
    | Publish(id: nat)
    | Abandon(id: nat)
    | Move(source: Bytes, destination: Bytes, seen: Trees.Tree)
    | Remove(path: Path)
    | Discard(item: Name, text: Bytes, seen: Trees.Tree)
    | Restore(item: Name, to: Option<Bytes>, seen: Trees.Tree)
    | Extract(cfg: Extraction.Config, text: Bytes, entries: seq<Extraction.ArchiveEntry>)

  type Policy = Name -> bool

  /** The policy refuses the internal directory. */
  predicate Reserves(policy: Policy) {
    !policy(INTERNAL_DIRECTORY)
  }

  /** `VirtualPath::parse_stored` */
  function ParseStored(policy: Policy, text: Bytes): Option<Path> {
    ParseWithDepth(policy, text, U64_MAX)
  }

  function ItemPath(item: Name): Path {
    TRASH + [item]
  }

  ghost predicate Enabled(policy: Policy, s: State, e: Event) {
    match e
    case Begin(id, _) => id !in s.uploads
    case Publish(id) => id in s.uploads
    case Abandon(id) => id in s.uploads
    case Move(source, _, seen) =>
      var path := Parse(policy, source);
      path.Some? ==> Shows(seen, s.share, path.value)
    case Discard(item, text, seen) =>
      && item !in s.originals && ItemPath(item) !in s.share
      && var path := Parse(policy, text);
         path.Some? ==> Shows(seen, s.share, path.value)
    case Restore(item, _, seen) => Shows(seen, s.share, ItemPath(item))
    case Extract(cfg, text, _) => Parse(policy, text) == Some(cfg.destination)
    case _ => true
  }

  function Added(share: Share, parent: Path, name: Name, directory: bool): Share {
    if IsFolder(share, parent) && parent + [name] !in share then share[parent + [name] := directory] else share
  }

  function MovedUploads(uploads: map<nat, Upload>, source: Path, destination: Path): map<nat, Upload> {
    map id | id in uploads ::
      match uploads[id].parent
      case None => uploads[id]
      case Some(parent) => uploads[id].(parent := Some(Renamed(parent, source, destination)))
  }

  /** A rename takes the open uploads along. */
  function RenameStep(s: State, source: Path, destination: Path): State {
    s.(share := Moved(s.share, source, destination), uploads := MovedUploads(s.uploads, source, destination))
  }

  function MoveStep(s: State, source: Path, destination: Path, seen: Trees.Tree): State {
    if MoveEntry(s.share, source, destination, seen).Failed? then s else RenameStep(s, source, destination)
  }

  function RemoveStep(s: State, path: Path): State {
    s.(share := map p | p in s.share && !StartsWith(p, path) :: s.share[p],
       uploads := map id | id in s.uploads ::
         if s.uploads[id].parent.Some? && StartsWith(s.uploads[id].parent.value, path)
         then s.uploads[id].(parent := None) else s.uploads[id])
  }

  /** `move_into_trash`, when no validation fails. */
  function DiscardStep(s: State, item: Name, path: Path, seen: Trees.Tree): State {
    if path !in s.share || (s.share[path] && SubtreeCheck(seen, path).error.Some?) || !IsFolder(s.share, TRASH) then s
    else RenameStep(s, path, ItemPath(item)).(originals := s.originals[item := Display(path)])
  }

  /** Where an item would be restored to. */
  function Target(policy: Policy, s: State, item: Name, to: Option<Bytes>): Option<Path> {
    if item !in s.originals then None
    else if to.Some? then Parse(policy, to.value)
    else ParseStored(policy, s.originals[item])
  }

  /** The checks of `restore_trash`, when no validation fails. */
  predicate CanRestore(s: State, item: Name, target: Path, seen: Trees.Tree) {
    && ItemPath(item) in s.share && 0 < |target| <= MAX_PATH_DEPTH
    && (s.share[ItemPath(item)] ==> SubtreeCheck(seen, target).error.None?)
    && IsFolder(s.share, Parent(target)) && target !in s.share
  }

  function RestoreStep(s: State, item: Name, target: Path, seen: Trees.Tree): State {
    if !CanRestore(s, item, target, seen) then s
    else RenameStep(s, ItemPath(item), target).(originals := s.originals - {item})
  }

  function ExtractStep(s: State, cfg: Extraction.Config, entries: seq<Extraction.ArchiveEntry>): State
    requires cfg.destination != []
  {
    var result := Extraction.Fold(cfg, entries);
    if result.Err? || cfg.destination in s.share || !IsFolder(s.share, Parent(cfg.destination)) then s
    else s.(share := WithTree(s.share, cfg.destination, result.value.tree))
  }

  function PublishStep(s: State, id: nat): State
    requires id in s.uploads
  {
    var upload := s.uploads[id];
    s.(share := if upload.parent.None? then s.share else Added(s.share, upload.parent.value, upload.name, false),
       uploads := s.uploads - {id})
  }

  function BeginStep(s: State, id: nat, path: Path): State
    requires path != []
  {
    if !IsFolder(s.share, Parent(path)) then s
    else s.(uploads := s.uploads[id := Upload(Some(Parent(path)), path[|path| - 1])])
  }

  ghost function Step(policy: Policy, s: State, e: Event): State
    requires Enabled(policy, s, e)
  {
    match e
    case Create(text, directory) =>
      var path := Parse(policy, text);
      if path.None? then s else s.(share := Added(s.share, Parent(path.value), path.value[|path.value| - 1], directory))
    case Begin(id, text) =>
      var path := Parse(policy, text);
      if path.None? then s else BeginStep(s, id, path.value)
    case Publish(id) => PublishStep(s, id)
    case Abandon(id) => s.(uploads := s.uploads - {id})
    case Move(source, destination, seen) =>
      var from, to := Parse(policy, source), Parse(policy, destination);
      if from.None? || to.None? then s else MoveStep(s, from.value, to.value, seen)
    case Remove(path) => if path == [] then s else RemoveStep(s, path)
    case Discard(item, text, seen) =>
      var path := Parse(policy, text);
      if path.None? then s else DiscardStep(s, item, path.value, seen)
    case Restore(item, to, seen) =>
      var target := Target(policy, s, item, to);
      if target.None? then s else RestoreStep(s, item, target.value, seen)
    case Extract(cfg, _, entries) => ExtractStep(s, cfg, entries)
  }

  ghost predicate IsRun(policy: Policy, states: seq<State>, events: seq<Event>) {
    && Reserves(policy)
    && |states| == |events| + 1 && IsShare(states[0].share) && Bounded(states[0].share) && states[0].uploads == map[]
    && forall i :: 0 <= i < |events| ==> StepAt(policy, states, events, i)
  }

  ghost predicate StepAt(policy: Policy, states: seq<State>, events: seq<Event>, i: nat)
    requires i < |events| < |states|
  {
    Enabled(policy, states[i], events[i]) && states[i + 1] == Step(policy, states[i], events[i])
  }

  // ---- single steps ----

  /** What a request names is shown, and within the limit. */
  lemma ParsedIsShallow(policy: Policy, text: Bytes)
    requires Reserves(policy) && Parse(policy, text).Some?
    ensures 0 < |Parse(policy, text).value| <= MAX_PATH_DEPTH && Shown(Parse(policy, text).value)
  {
    ParseExactlyInvertsDisplay(policy, text, MAX_PATH_DEPTH, Parse(policy, text).value);
  }

  /** So is what Trash remembers, but for the limit. */
  lemma TargetIsShown(policy: Policy, s: State, item: Name, to: Option<Bytes>)
    requires Reserves(policy) && Target(policy, s, item, to).Some?
    ensures Target(policy, s, item, to).value != [] && Shown(Target(policy, s, item, to).value)
  {
    var text := if to.Some? then to.value else s.originals[item];
    var depth := if to.Some? then MAX_PATH_DEPTH else U64_MAX;
    ParseExactlyInvertsDisplay(policy, text, depth, Target(policy, s, item, to).value);
  }

  /** The publication that the limit does not survive: its parent is as deep as anything may be. */
  predicate PublishesTooDeep(s: State, e: Event) {
    && e.Publish? && e.id in s.uploads && s.uploads[e.id].parent.Some?
    && var upload := s.uploads[e.id];
    && |upload.parent.value| >= MAX_PATH_DEPTH && Shown(upload.parent.value) && IsFolder(s.share, upload.parent.value)
    && upload.parent.value + [upload.name] !in s.share
  }

  ghost function Shares(): iset<Share> {
    iset share: Share | IsShare(share)
  }

  ghost function BoundedShares(): iset<Share> {
    iset share: Share | Bounded(share)
  }

  lemma AddedIsShare(share: Share, parent: Path, name: Name, directory: bool)
    requires share in Shares()
    ensures Added(share, parent, name, directory) in Shares()
  {
    var after := Added(share, parent, name, directory);
    forall p | p in after ensures p != [] && IsFolder(after, Parent(p)) {
      if p !in share {
        assert Parent(p) == parent;
      }
    }
  }

  lemma AddedIsBounded(share: Share, parent: Path, name: Name, directory: bool)
    requires share in BoundedShares() && |parent| < MAX_PATH_DEPTH
    ensures Added(share, parent, name, directory) in BoundedShares()
  {
  }

  lemma RemovedIsShare(s: State, path: Path)
    requires s.share in Shares() && path != []
    ensures RemoveStep(s, path).share in Shares()
  {
    var after := RemoveStep(s, path).share;
    forall p | p in after ensures p != [] && IsFolder(after, Parent(p)) {
      assert IsFolder(s.share, Parent(p));
      assert StartsWith(Parent(p), path) ==> StartsWith(p, path);
    }
  }

  /** What is in Trash is not below what is shown, and the other way round. */
  lemma OtherSide(source: Path, destination: Path)
    requires source != [] && Shown(source) != Shown(destination)
    ensures !StartsWith(destination, source)
  {
  }

  lemma DiscardIsRename(s: State, item: Name, path: Path, seen: Trees.Tree)
    requires s.share in Shares() && path != [] && Shown(path) && ItemPath(item) !in s.share
    requires DiscardStep(s, item, path, seen) != s
    ensures CanMove(s.share, path, ItemPath(item))
  {
    assert Parent(ItemPath(item)) == TRASH;
    OtherSide(path, ItemPath(item));
  }

  lemma RestoreIsRename(s: State, item: Name, target: Path, seen: Trees.Tree)
    requires s.share in Shares() && Shown(target) && CanRestore(s, item, target, seen)
    ensures CanMove(s.share, ItemPath(item), target)
  {
    OtherSide(ItemPath(item), target);
  }

  lemma DiscardKeeps(s: State, item: Name, path: Path, seen: Trees.Tree)
    requires s.share in Shares() && path != [] && Shown(path) && ItemPath(item) !in s.share
    ensures DiscardStep(s, item, path, seen).share in Shares()
    ensures s.share in BoundedShares() ==> DiscardStep(s, item, path, seen).share in BoundedShares()
  {
    if DiscardStep(s, item, path, seen) != s {
      DiscardIsRename(s, item, path, seen);
      MovedIsShare(s.share, path, ItemPath(item));
      if s.share in BoundedShares() {
        RenameKeepsLimit(s.share, path, ItemPath(item));
      }
    }
  }

  lemma RestoredFits(s: State, item: Name, target: Path, seen: Trees.Tree)
    requires s.share in Shares() && CanRestore(s, item, target, seen) && Shows(seen, s.share, ItemPath(item))
    ensures FitsBelow(s.share, ItemPath(item), target)
  {
    if s.share[ItemPath(item)] {
      CheckedFits(s.share, ItemPath(item), target, seen);
    } else {
      FileFits(s.share, ItemPath(item), target);
    }
  }

  lemma RestoreKeeps(s: State, item: Name, target: Path, seen: Trees.Tree)
    requires s.share in Shares() && Shown(target) && Shows(seen, s.share, ItemPath(item))
    ensures RestoreStep(s, item, target, seen).share in Shares()
    ensures s.share in BoundedShares() ==> RestoreStep(s, item, target, seen).share in BoundedShares()
  {
    if CanRestore(s, item, target, seen) {
      RestoreIsRename(s, item, target, seen);
      RestoredFits(s, item, target, seen);
      MovedIsShare(s.share, ItemPath(item), target);
      if s.share in BoundedShares() {
        RenameKeepsLimit(s.share, ItemPath(item), target);
      }
    }
  }

  lemma MoveKeeps(s: State, from: Path, to: Path, seen: Trees.Tree)
    requires s.share in Shares() && Shown(from) && |to| <= MAX_PATH_DEPTH && Shows(seen, s.share, from)
    ensures MoveStep(s, from, to, seen).share in Shares()
    ensures s.share in BoundedShares() ==> MoveStep(s, from, to, seen).share in BoundedShares()
  {
    if MoveEntry(s.share, from, to, seen).Done? {
      MovedIsShare(s.share, from, to);
      if s.share in BoundedShares() {
        MoveKeepsLimit(s.share, from, to, seen);
      }
    }
  }

  lemma ExtractKeeps(s: State, cfg: Extraction.Config, entries: seq<Extraction.ArchiveEntry>)
    requires s.share in Shares() && 0 < |cfg.destination| <= MAX_PATH_DEPTH
    ensures ExtractStep(s, cfg, entries).share in Shares()
    ensures s.share in BoundedShares() ==> ExtractStep(s, cfg, entries).share in BoundedShares()
  {
    if Extraction.Fold(cfg, entries).Ok? && cfg.destination !in s.share && IsFolder(s.share, Parent(cfg.destination)) {
      ExtractionFits(cfg, entries);
      TreeIsAdded(s.share, cfg, Extraction.Fold(cfg, entries).value.tree);
    }
  }

  /** Every step but a publication keeps the limit. */
  lemma OtherStepKeeps(policy: Policy, s: State, e: Event)
    requires Reserves(policy) && Enabled(policy, s, e) && s.share in Shares() && !e.Publish?
    ensures Step(policy, s, e).share in Shares()
    ensures s.share in BoundedShares() ==> Step(policy, s, e).share in BoundedShares()
  {
    match e
    case Create(text, directory) => CreateKeeps(policy, s, text, directory);
    case Move(source, destination, seen) =>
      if Parse(policy, source).Some? && Parse(policy, destination).Some? {
        ParsedIsShallow(policy, source);
        ParsedIsShallow(policy, destination);
        MoveKeeps(s, Parse(policy, source).value, Parse(policy, destination).value, seen);
      }
    case Remove(path) =>
      if path != [] {
        RemovedIsShare(s, path);
      }
    case Discard(item, text, seen) =>
      if Parse(policy, text).Some? {
        ParsedIsShallow(policy, text);
        DiscardKeeps(s, item, Parse(policy, text).value, seen);
      }
    case Restore(item, to, seen) =>
      if Target(policy, s, item, to).Some? {
        TargetIsShown(policy, s, item, to);
        RestoreKeeps(s, item, Target(policy, s, item, to).value, seen);
      }
    case Extract(cfg, text, entries) =>
      ParsedIsShallow(policy, text);
      ExtractKeeps(s, cfg, entries);
    case _ =>
  }

  lemma CreateKeeps(policy: Policy, s: State, text: Bytes, directory: bool)
    requires Reserves(policy) && s.share in Shares()
    ensures Step(policy, s, Create(text, directory)).share in Shares()
    ensures s.share in BoundedShares() ==> Step(policy, s, Create(text, directory)).share in BoundedShares()
  {
    var path := Parse(policy, text);
    if path.Some? {
      ParsedIsShallow(policy, text);
      AddedIsShare(s.share, Parent(path.value), path.value[|path.value| - 1], directory);
      if s.share in BoundedShares() {
        AddedIsBounded(s.share, Parent(path.value), path.value[|path.value| - 1], directory);
      }
    }
  }

  lemma StepKeepsShare(policy: Policy, s: State, e: Event)
    requires Reserves(policy) && Enabled(policy, s, e) && s.share in Shares()
    ensures Step(policy, s, e).share in Shares()
  {
    if !e.Publish? {
      OtherStepKeeps(policy, s, e);
    } else if s.uploads[e.id].parent.Some? {
      AddedIsShare(s.share, s.uploads[e.id].parent.value, s.uploads[e.id].name, false);
    }
  }

  lemma PublishKeepsLimitIff(s: State, id: nat)
    requires id in s.uploads && s.share in BoundedShares()
    ensures PublishStep(s, id).share in BoundedShares() <==> !PublishesTooDeep(s, Publish(id))
  {
    var upload := s.uploads[id];
    if PublishesTooDeep(s, Publish(id)) {
      var p := upload.parent.value + [upload.name];
      assert p in PublishStep(s, id).share && Shown(p) && |p| > MAX_PATH_DEPTH;
    } else if upload.parent.Some? && |upload.parent.value| < MAX_PATH_DEPTH {
      AddedIsBounded(s.share, upload.parent.value, upload.name, false);
    }
  }

  /** A step keeps the limit, unless it is that publication. */
  lemma StepKeepsLimitIff(policy: Policy, s: State, e: Event)
    requires Reserves(policy) && Enabled(policy, s, e) && IsShare(s.share) && Bounded(s.share)
    ensures Bounded(Step(policy, s, e).share) <==> !PublishesTooDeep(s, e)
  {
    if e.Publish? {
      PublishKeepsLimitIff(s, e.id);
    } else {
      OtherStepKeeps(policy, s, e);
    }
  }

  // ---- theorems ----

  lemma {:induction false} RunKeepsShare(policy: Policy, states: seq<State>, events: seq<Event>, n: nat)
    requires IsRun(policy, states, events) && n < |states|
    ensures states[n].share in Shares()
  {
    if n > 0 {
      RunKeepsShare(policy, states, events, n - 1);
      RunStepKeepsShare(policy, states, events, n);
    }
  }

  lemma RunStepKeepsShare(policy: Policy, states: seq<State>, events: seq<Event>, n: nat)
    requires IsRun(policy, states, events) && 0 < n < |states| && states[n - 1].share in Shares()
    ensures states[n].share in Shares()
  {
    assert StepAt(policy, states, events, n - 1);
    StepKeepsShare(policy, states[n - 1], events[n - 1]);
  }

  ghost predicate NeverPublishesTooDeep(states: seq<State>, events: seq<Event>, n: nat)
    requires n <= |events| <= |states|
  {
    forall i :: 0 <= i < n ==> !PublishesTooDeep(states[i], events[i])
  }

  ghost predicate StaysBounded(states: seq<State>, n: nat)
    requires n < |states|
  {
    forall i :: 0 <= i <= n ==> Bounded(states[i].share)
  }

  lemma RunStepKeepsLimitIff(policy: Policy, states: seq<State>, events: seq<Event>, n: nat)
    requires IsRun(policy, states, events) && n < |events| && Bounded(states[n].share)
    ensures Bounded(states[n + 1].share) <==> !PublishesTooDeep(states[n], events[n])
  {
    RunKeepsShare(policy, states, events, n);
    assert StepAt(policy, states, events, n);
    StepKeepsLimitIff(policy, states[n], events[n]);
  }

  /**
   A run from a share within the limit stays within it exactly when no upload is published into a
   directory that is by then as deep as anything may be.
   */
  lemma {:induction false} LimitHoldsIff(policy: Policy, states: seq<State>, events: seq<Event>, n: nat)
    requires IsRun(policy, states, events) && n < |states|
    ensures StaysBounded(states, n) <==> NeverPublishesTooDeep(states, events, n)
  {
    if n > 0 {
      LimitHoldsIff(policy, states, events, n - 1);
      if StaysBounded(states, n - 1) {
        RunStepKeepsLimitIff(policy, states, events, n - 1);
      }
      StaysBoundedStep(states, n);
      NeverPublishesStep(states, events, n);
    }
  }

  lemma StaysBoundedStep(states: seq<State>, n: nat)
    requires 0 < n < |states|
    ensures StaysBounded(states, n) == (StaysBounded(states, n - 1) && Bounded(states[n].share))
  {
  }

  lemma NeverPublishesStep(states: seq<State>, events: seq<Event>, n: nat)
    requires 0 < n <= |events| <= |states|
    ensures NeverPublishesTooDeep(states, events, n)
         == (NeverPublishesTooDeep(states, events, n - 1) && !PublishesTooDeep(states[n - 1], events[n - 1]))
  {
  }

  predicate UploadBelow(s: State, path: Path) {
    exists id :: id in s.uploads && s.uploads[id].parent.Some? && StartsWith(s.uploads[id].parent.value, path)
  }

  /** A directory goes deeper, or comes back from Trash deeper than it was, while an upload has it,
      or a directory below it, open. */
  predicate Races(policy: Policy, s: State, e: Event) {
    match e
    case Move(source, destination, _) =>
      && Parse(policy, source).Some? && Parse(policy, destination).Some?
      && |Parse(policy, destination).value| > |Parse(policy, source).value|
      && UploadBelow(s, Parse(policy, source).value)
    case Restore(item, to, _) =>
      && Target(policy, s, item, to).Some? && Target(policy, s, item, None).Some?
      && |Target(policy, s, item, to).value| > |Target(policy, s, item, None).value|
      && UploadBelow(s, ItemPath(item))
    case _ => false
  }

  /** A directory in Trash whose entries would fit again where it came from. */
  predicate FitsInTrash(policy: Policy, originals: map<Name, Bytes>, path: Path) {
    && |path| >= 3 && path[..2] == TRASH && path[2] in originals
    && var original := ParseStored(policy, originals[path[2]]);
       original.Some? && |original.value| + |path| - 3 < MAX_PATH_DEPTH
  }

  predicate PlaceFits(policy: Policy, originals: map<Name, Bytes>, path: Path) {
    if Shown(path) then |path| < MAX_PATH_DEPTH else FitsInTrash(policy, originals, path)
  }

  ghost predicate UploadsFit(policy: Policy, s: State) {
    forall id :: id in s.uploads && s.uploads[id].parent.Some? ==> PlaceFits(policy, s.originals, s.uploads[id].parent.value)
  }

  lemma MovedPlaceFits(policy: Policy, originals: map<Name, Bytes>, from: Path, to: Path, path: Path)
    requires from != [] && to != [] && Shown(from) && Shown(to) && PlaceFits(policy, originals, path)
    requires StartsWith(path, from) ==> |to| <= |from|
    ensures PlaceFits(policy, originals, Renamed(path, from, to))
  {
  }

  lemma MoveKeepsUploads(policy: Policy, s: State, source: Bytes, destination: Bytes, seen: Trees.Tree)
    requires Reserves(policy) && Enabled(policy, s, Move(source, destination, seen)) && UploadsFit(policy, s)
    requires !Races(policy, s, Move(source, destination, seen))
    ensures UploadsFit(policy, Step(policy, s, Move(source, destination, seen)))
  {
    var from, to := Parse(policy, source), Parse(policy, destination);
    if from.Some? && to.Some? && MoveEntry(s.share, from.value, to.value, seen).Done? {
      ParsedIsShallow(policy, source);
      ParsedIsShallow(policy, destination);
      forall id | id in s.uploads && s.uploads[id].parent.Some?
        ensures PlaceFits(policy, s.originals, Renamed(s.uploads[id].parent.value, from.value, to.value))
      {
        MovedPlaceFits(policy, s.originals, from.value, to.value, s.uploads[id].parent.value);
      }
    }
  }

  lemma DiscardedPlaceFits(policy: Policy, originals: map<Name, Bytes>, item: Name, from: Path, path: Path)
    requires from != [] && Shown(from) && item !in originals && ParseStored(policy, Display(from)) == Some(from)
    requires PlaceFits(policy, originals, path)
    ensures PlaceFits(policy, originals[item := Display(from)], Renamed(path, from, ItemPath(item)))
  {
    if StartsWith(path, from) {
      var place := ItemPath(item) + path[|from|..];
      assert place[..2] == TRASH && place[2] == item && !Shown(place);
    }
  }

  lemma DiscardKeepsUploads(policy: Policy, s: State, item: Name, text: Bytes, seen: Trees.Tree)
    requires Reserves(policy) && Enabled(policy, s, Discard(item, text, seen)) && UploadsFit(policy, s)
    ensures UploadsFit(policy, Step(policy, s, Discard(item, text, seen)))
  {
    if Parse(policy, text).Some? {
      var path := Parse(policy, text).value;
      ParsedIsShallow(policy, text);
      ParseExactlyInvertsDisplay(policy, text, MAX_PATH_DEPTH, path);
      ParseExactlyInvertsDisplay(policy, text, U64_MAX, path);
      forall id | id in s.uploads && s.uploads[id].parent.Some?
        ensures PlaceFits(policy, s.originals[item := Display(path)], Renamed(s.uploads[id].parent.value, path, ItemPath(item)))
      {
        DiscardedPlaceFits(policy, s.originals, item, path, s.uploads[id].parent.value);
      }
    }
  }

  lemma RestoredPlaceFits(policy: Policy, originals: map<Name, Bytes>, item: Name, target: Path, path: Path)
    requires target != [] && Shown(target) && PlaceFits(policy, originals, path)
    requires StartsWith(path, ItemPath(item)) && item in originals && ParseStored(policy, originals[item]).Some? ==>
      |target| <= |ParseStored(policy, originals[item]).value|
    ensures PlaceFits(policy, originals - {item}, Renamed(path, ItemPath(item), target))
  {
    if StartsWith(path, ItemPath(item)) {
      assert path[0] == INTERNAL_DIRECTORY && path[2] == item;
    } else if !Shown(path) {
      assert path[..3] == path[..2] + [path[2]];
      assert path[2] != item;
    }
  }

  lemma RestoreKeepsUploads(policy: Policy, s: State, item: Name, to: Option<Bytes>, seen: Trees.Tree)
    requires Reserves(policy) && Enabled(policy, s, Restore(item, to, seen)) && UploadsFit(policy, s)
    requires !Races(policy, s, Restore(item, to, seen))
    ensures UploadsFit(policy, Step(policy, s, Restore(item, to, seen)))
  {
    if Target(policy, s, item, to).Some? {
      var target := Target(policy, s, item, to).value;
      TargetIsShown(policy, s, item, to);
      forall id | id in s.uploads && s.uploads[id].parent.Some?
        ensures PlaceFits(policy, s.originals - {item}, Renamed(s.uploads[id].parent.value, ItemPath(item), target))
      {
        RestoredPlaceFits(policy, s.originals, item, target, s.uploads[id].parent.value);
      }
    }
  }

  lemma StepKeepsUploads(policy: Policy, s: State, e: Event)
    requires Reserves(policy) && Enabled(policy, s, e) && UploadsFit(policy, s) && !Races(policy, s, e)
    ensures UploadsFit(policy, Step(policy, s, e))
  {
    match e
    case Begin(id, text) =>
      if Parse(policy, text).Some? {
        ParsedIsShallow(policy, text);
      }
    case Move(source, destination, seen) => MoveKeepsUploads(policy, s, source, destination, seen);
    case Discard(item, text, seen) => DiscardKeepsUploads(policy, s, item, text, seen);
    case Restore(item, to, seen) => RestoreKeepsUploads(policy, s, item, to, seen);
    case _ =>
  }

  ghost function FittingUploads(policy: Policy): iset<State> {
    iset s: State | UploadsFit(policy, s)
  }

  lemma {:induction false} RunKeepsUploads(policy: Policy, states: seq<State>, events: seq<Event>, n: nat)
    requires IsRun(policy, states, events) && n < |states|
    requires forall i :: 0 <= i < n ==> !Races(policy, states[i], events[i])
    ensures states[n] in FittingUploads(policy)
  {
    if n > 0 {
      RunKeepsUploads(policy, states, events, n - 1);
      RunStepKeepsUploads(policy, states, events, n);
    }
  }

  lemma RunStepKeepsUploads(policy: Policy, states: seq<State>, events: seq<Event>, n: nat)
    requires IsRun(policy, states, events) && 0 < n < |states| && !Races(policy, states[n - 1], events[n - 1])
    requires states[n - 1] in FittingUploads(policy)
    ensures states[n] in FittingUploads(policy)
  {
    assert StepAt(policy, states, events, n - 1);
    StepKeepsUploads(policy, states[n - 1], events[n - 1]);
  }

  /** So it holds in every run in which no directory goes deeper under an open upload. */
  lemma {:induction false} LimitHoldsWithoutRaces(policy: Policy, states: seq<State>, events: seq<Event>)
    requires IsRun(policy, states, events)
    requires forall i :: 0 <= i < |events| ==> !Races(policy, states[i], events[i])
    ensures StaysBounded(states, |events|)
  {
    forall i | 0 <= i < |events| ensures !PublishesTooDeep(states[i], events[i]) {
      RunKeepsUploads(policy, states, events, i);
    }
    LimitHoldsIff(policy, states, events, |events|);
  }

  // ---- Trash and back ----

  /** The tree in Trash is the tree that was moved there. */
  lemma DiscardedShows(share: Share, path: Path, item: Name, seen: Trees.Tree)
    requires CanMove(share, path, ItemPath(item)) && Shown(path) && Shows(seen, share, path)
    ensures Shows(seen, Moved(share, path, ItemPath(item)), ItemPath(item))
  {
    MovedEntries(share, path, ItemPath(item));
    forall q ensures path + q in share <==> ItemPath(item) + q in Moved(share, path, ItemPath(item)) {
      assert (path + q)[|path|..] == q && (ItemPath(item) + q)[|ItemPath(item)|..] == q;
      assert Renamed(path + q, path, ItemPath(item)) == ItemPath(item) + q;
      assert Renamed(ItemPath(item) + q, ItemPath(item), path) == path + q;
    }
  }

  /** The place that a deleted entry left is free, and still in a directory. */
  lemma PlaceIsFree(share: Share, path: Path, item: Name)
    requires CanMove(share, path, ItemPath(item)) && Shown(path)
    ensures path !in Moved(share, path, ItemPath(item))
    ensures IsFolder(Moved(share, path, ItemPath(item)), Parent(path))
  {
    SourceIsFree(share, path, ItemPath(item));
    assert IsFolder(share, Parent(path)) && !StartsWith(Parent(path), path);
    FolderMoves(share, path, ItemPath(item), Parent(path));
  }

  /** A deleted entry can go back. */
  lemma DiscardedCanReturn(s: State, item: Name, path: Path, seen: Trees.Tree)
    requires s.share in Shares() && 0 < |path| <= MAX_PATH_DEPTH && Shown(path) && ItemPath(item) !in s.share
    requires DiscardStep(s, item, path, seen) != s
    ensures CanRestore(DiscardStep(s, item, path, seen), item, path, seen)
  {
    DiscardIsRename(s, item, path, seen);
    PlaceIsFree(s.share, path, item);
    MovedEntries(s.share, path, ItemPath(item));
    assert Renamed(path, path, ItemPath(item)) == ItemPath(item);
  }

  lemma PutAndTaken(m: map<Name, Bytes>, item: Name, text: Bytes)
    requires item !in m
    ensures m[item := text] - {item} == m
  {
  }

  lemma DiscardThenRestore(s: State, item: Name, path: Path, seen: Trees.Tree)
    requires s.share in Shares() && 0 < |path| <= MAX_PATH_DEPTH && Shown(path) && ItemPath(item) !in s.share
    requires item !in s.originals && DiscardStep(s, item, path, seen) != s
    ensures RestoreStep(DiscardStep(s, item, path, seen), item, path, seen).share == s.share
    ensures RestoreStep(DiscardStep(s, item, path, seen), item, path, seen).originals == s.originals
  {
    var t := DiscardStep(s, item, path, seen);
    DiscardIsRename(s, item, path, seen);
    DiscardedCanReturn(s, item, path, seen);
    assert RestoreStep(t, item, path, seen) == RenameStep(t, ItemPath(item), path).(originals := t.originals - {item});
    MoveBackRestores(s.share, path, ItemPath(item));
    PutAndTaken(s.originals, item, Display(path));
  }

  /** What Trash remembers of an entry is where it was. */
  lemma TargetIsOriginal(policy: Policy, s: State, item: Name, text: Bytes, path: Path)
    requires Parse(policy, text) == Some(path) && item in s.originals && s.originals[item] == Display(path)
    ensures Target(policy, s, item, None) == Some(path)
  {
    ParseExactlyInvertsDisplay(policy, text, MAX_PATH_DEPTH, path);
    ParseExactlyInvertsDisplay(policy, text, U64_MAX, path);
  }

  /** An entry that was deleted and is restored to where it was leaves the share as it was. */
  lemma RestoreUndoesDiscard(policy: Policy, s: State, item: Name, text: Bytes, path: Path, seen: Trees.Tree)
    requires Reserves(policy) && s.share in Shares() && Parse(policy, text) == Some(path)
    requires Enabled(policy, s, Discard(item, text, seen))
    requires path !in Step(policy, s, Discard(item, text, seen)).share && path in s.share
    ensures
      var t := Step(policy, s, Discard(item, text, seen));
      && Enabled(policy, t, Restore(item, None, seen))
      && var u := Step(policy, t, Restore(item, None, seen));
         u.share == s.share && u.originals == s.originals
  {
    var t := DiscardStep(s, item, path, seen);
    assert t == Step(policy, s, Discard(item, text, seen));
    ParsedIsShallow(policy, text);
    DiscardIsRename(s, item, path, seen);
    DiscardedShows(s.share, path, item, seen);
    TargetIsOriginal(policy, t, item, text, path);
    assert Step(policy, t, Restore(item, None, seen)) == RestoreStep(t, item, path, seen);
    DiscardThenRestore(s, item, path, seen);
  }

  // ---- a run that exceeds the limit ----

  /** `a/a/.../a` */
  function Chain(n: nat): (path: Path)
    ensures |path| == n && forall i :: 0 <= i < n ==> path[i] == [97]
  {
    if n == 0 then [] else Chain(n - 1) + [[97]]
  }

  /** A chain of directories. */
  function ChainShare(n: nat): Share {
    if n == 0 then map[] else ChainShare(n - 1)[Chain(n) := true]
  }

  lemma {:induction false} ChainIsShare(n: nat)
    ensures IsShare(ChainShare(n)) && (n > 0 ==> Chain(n) in ChainShare(n) && ChainShare(n)[Chain(n)])
    ensures forall p :: p in ChainShare(n) ==> |p| <= n && p[0] == [97] && ChainShare(n)[p]
  {
    if n > 0 {
      ChainIsShare(n - 1);
      assert Parent(Chain(n)) == Chain(n - 1);
    }
  }

  /** Components of one byte print in two bytes each, but for the first separator. */
  lemma {:induction false} OneByteNames(path: Path)
    requires path != [] && forall i :: 0 <= i < |path| ==> |path[i]| == 1
    ensures |Display(path)| == 2 * |path| - 1
  {
    if |path| > 1 {
      OneByteNames(path[1..]);
    }
  }

  /** Any other name will do. */
  const ANY_NAME: Policy := name => name != INTERNAL_DIRECTORY

  lemma TextOf(path: Path)
    requires 0 < |path| <= MAX_PATH_DEPTH && forall i :: 0 <= i < |path| ==> |path[i]| == 1 && path[i] != [DOT] && SLASH !in path[i]
    ensures Parse(ANY_NAME, Display(path)) == Some(path)
  {
    OneByteNames(path);
    ParseExactlyInvertsDisplay(ANY_NAME, Display(path), MAX_PATH_DEPTH, path);
  }

  /** An empty directory that may go to a free place at the limit. */
  ghost predicate MayGoToTheLimit(share: Share, from: Path, to: Path) {
    && CanMove(share, from, to) && share[from] && Shown(from) && Shown(to) && Shows([], share, from)
    && |from| < |to| == MAX_PATH_DEPTH
  }

  lemma EmptyDirectoryMoves(share: Share, from: Path, to: Path)
    requires MayGoToTheLimit(share, from, to)
    ensures MoveEntry(share, from, to, []) == Done(Moved(share, from, to))
  {
    UsageWalks.CheckIsExact(UsageWalks.Check(0, None), [], MAX_PATH_DEPTH - |to|);
  }

  lemma MovedDirectoryIsEmpty(share: Share, from: Path, to: Path, name: Name)
    requires MayGoToTheLimit(share, from, to)
    ensures IsFolder(Moved(share, from, to), to) && to + [name] !in Moved(share, from, to)
  {
    assert Renamed(from, from, to) == to;
    FolderMoves(share, from, to, from);
    assert from + [name] !in share by {
      assert !Trees.Holds([], [name]);
      assert Shown(from + [name]);
    }
    assert Renamed(to + [name], to, from) == from + [name];
    MovedEntries(share, from, to);
  }

  /** A state with one upload under way. */
  function Uploading(share: Share, parent: Path, name: Name): State {
    State(share, map[0 := Upload(Some(parent), name)], map[])
  }

  lemma UploadBegins(share: Share, from: Path, name: Name, text: Bytes)
    requires IsFolder(share, from) && Parse(ANY_NAME, text) == Some(from + [name])
    ensures Step(ANY_NAME, State(share, map[], map[]), Begin(0, text)) == Uploading(share, from, name)
  {
    assert Parent(from + [name]) == from;
  }

  lemma ParentIsMoved(share: Share, moved: Share, from: Path, to: Path, name: Name, source: Bytes, destination: Bytes)
    requires Shows([], share, from) && MoveEntry(share, from, to, []) == Done(moved)
    requires Parse(ANY_NAME, source) == Some(from) && Parse(ANY_NAME, destination) == Some(to)
    ensures Step(ANY_NAME, Uploading(share, from, name), Move(source, destination, [])) == Uploading(moved, to, name)
  {
    assert Renamed(from, from, to) == to;
    assert MovedUploads(map[0 := Upload(Some(from), name)], from, to) == map[0 := Upload(Some(to), name)];
  }

  lemma UploadLands(share: Share, parent: Path, name: Name)
    requires IsFolder(share, parent) && parent + [name] !in share && |parent| == MAX_PATH_DEPTH && Shown(parent)
    ensures !Bounded(Step(ANY_NAME, Uploading(share, parent, name), Publish(0)).share)
  {
    var after := Step(ANY_NAME, Uploading(share, parent, name), Publish(0)).share;
    assert parent + [name] in after && Shown(parent + [name]) && |parent + [name]| > MAX_PATH_DEPTH;
  }

  /** An upload into it begins, it moves, and the upload is published in it, one level too deep. */
  lemma RaceExceedsLimit(share: Share, from: Path, to: Path, name: Name, text: Bytes, source: Bytes, destination: Bytes)
      returns (states: seq<State>, events: seq<Event>)
    requires share in BoundedShares() && MayGoToTheLimit(share, from, to)
    requires Parse(ANY_NAME, text) == Some(from + [name])
    requires Parse(ANY_NAME, source) == Some(from) && Parse(ANY_NAME, destination) == Some(to)
    ensures IsRun(ANY_NAME, states, events) && states[0].share == share && !Bounded(states[|events|].share)
  {
    var moved := Moved(share, from, to);
    EmptyDirectoryMoves(share, from, to);
    MovedDirectoryIsEmpty(share, from, to, name);
    UploadBegins(share, from, name, text);
    ParentIsMoved(share, moved, from, to, name, source, destination);
    UploadLands(moved, to, name);
    states, events := ThreeSteps(ANY_NAME, State(share, map[], map[]), Begin(0, text), Move(source, destination, []), Publish(0));
  }

  lemma ThreeSteps(policy: Policy, s: State, a: Event, b: Event, c: Event) returns (states: seq<State>, events: seq<Event>)
    requires Reserves(policy) && s.share in Shares() && s.share in BoundedShares() && s.uploads == map[]
    requires Enabled(policy, s, a) && Enabled(policy, Step(policy, s, a), b)
    requires Enabled(policy, Step(policy, Step(policy, s, a), b), c)
    ensures IsRun(policy, states, events) && |events| == 3 && states[0] == s
    ensures states[3] == Step(policy, Step(policy, Step(policy, s, a), b), c)
  {
    var t := Step(policy, s, a);
    var u := Step(policy, t, b);
    events := [a, b, c];
    states := [s, t, u, Step(policy, u, c)];
    assert StepAt(policy, states, events, 0) && StepAt(policy, states, events, 1) && StepAt(policy, states, events, 2);
  }

  const B_PATH: Path := [[98]]

  /** A chain of directories, and an empty directory `b` beside it. */
  function ChainAndB(n: nat): Share {
    ChainShare(n)[B_PATH := true]
  }

  lemma ChainAndBIsShare(n: nat)
    ensures ChainAndB(n) in Shares() && IsFolder(ChainAndB(n), Chain(n))
    ensures forall p :: p in ChainAndB(n) ==> |p| <= n || p == B_PATH
    ensures forall p :: p in ChainAndB(n) && p != B_PATH ==> p[0] == [97]
  {
    ChainIsShare(n);
  }

  lemma BIsEmpty(n: nat)
    ensures Shows([], ChainAndB(n), B_PATH)
  {
    ChainAndBIsShare(n);
    forall q | q != [] ensures B_PATH + q !in ChainAndB(n) {
      assert (B_PATH + q)[0] == [98] && |B_PATH + q| > 1;
    }
  }

  lemma BMayGoToTheLimit(n: nat)
    requires n == MAX_PATH_DEPTH - 1
    ensures ChainAndB(n) in BoundedShares() && MayGoToTheLimit(ChainAndB(n), B_PATH, Chain(n) + B_PATH)
  {
    ChainAndBIsShare(n);
    BIsEmpty(n);
    var to := Chain(n) + B_PATH;
    assert to[0] == [97] && Parent(to) == Chain(n) && to != B_PATH;
  }

  /** So the limit can be exceeded. */
  lemma LimitCanBeExceeded() returns (states: seq<State>, events: seq<Event>)
    ensures IsRun(ANY_NAME, states, events) && !Bounded(states[|events|].share)
  {
    var n := MAX_PATH_DEPTH - 1;
    BMayGoToTheLimit(n);
    TextsOf(n, [102]);
    states, events := RaceExceedsLimit(ChainAndB(n), B_PATH, Chain(n) + B_PATH, [102],
                                       Display(B_PATH + [[102]]), Display(B_PATH), Display(Chain(n) + B_PATH));
  }

  lemma TextsOf(n: nat, name: Name)
    requires n == MAX_PATH_DEPTH - 1 && name == [102]
    ensures Parse(ANY_NAME, Display(B_PATH)) == Some(B_PATH)
    ensures Parse(ANY_NAME, Display(B_PATH + [name])) == Some(B_PATH + [name])
    ensures Parse(ANY_NAME, Display(Chain(n) + B_PATH)) == Some(Chain(n) + B_PATH)
  {
    TextOf(B_PATH);
    TextOf(B_PATH + [name]);
    TextOf(Chain(n) + B_PATH);
  }

  // ---- what the walks make of it ----

  /** Measuring the usage of a share within the limit never reports depth. */
  lemma UsageIsNotTooDeep(share: Share, t: Trees.Tree, l: UsageWalks.Limits)
    requires Bounded(share) && Shows(t, share, [])
    ensures UsageWalks.Measured(l, UsageWalks.START, t, 0).error != Some(UsageWalks.TooDeep)
  {
    if UsageWalks.Measured(l, UsageWalks.START, t, 0).error == Some(UsageWalks.TooDeep) {
      var q := UsageWalks.TooDeepIsDeep(l, UsageWalks.START, t, 0);
    }
  }

  /** Neither does archiving any of its directories. */
  lemma ArchiveIsNotTooDeep(share: Share, base: Path, t: Trees.Tree, l: ArchiveWalks.Limits)
    requires Bounded(share) && Trees.IsTree(t) && Shown(base) && Shows(t, share, base)
    ensures ArchiveWalks.Visited(l, ArchiveWalks.START, t, [], |base|).error != Some(ArchiveWalks.TooDeep)
  {
    if ArchiveWalks.Visited(l, ArchiveWalks.START, t, [], |base|).error == Some(ArchiveWalks.TooDeep) {
      var q, e := ArchiveOrder.TooDeepIsDeep(l, ArchiveWalks.START, t, [], |base|);
      ArchiveOrder.LeadsIsHeld(t, q, e);
    }
  }
}
