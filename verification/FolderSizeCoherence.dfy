/**
 Coherence of the folder-size cache under concurrency. Walks read a changing tree one
 directory entry at a time, store what they found, and race with mutators that first change
 the tree and only later invalidate the cache (src/browse.rs `folder_size`, src/mutations.rs
 `audited`, src/filesystem.rs `SizeWalk::visit`).
 */
module FolderSizeCoherence {
  import opened Common
  import opened VirtualPaths
  import opened FolderSizes

  // ---- trees ----

  datatype Node = Folder | FileNode(size: nat)

  /** Every entry that the walk's policy counts, by share and path; share roots are implicit. */
  type Tree = map<Key, Node>

  predicate Within(k: Key, top: Key) {
    k.share == top.share && top.path <= k.path
  }

  predicate Below(k: Key, top: Key) {
    k.share == top.share && top.path < k.path
  }

  function Prefix(k: Key, n: nat): Key
    requires n <= |k.path|
  {
    Key(k.share, k.path[..n])
  }

  predicate IsChild(c: Key, d: Key) {
    Below(c, d) && |c.path| == |d.path| + 1
  }

  predicate IsFolder(tree: Tree, k: Key) {
    k.path == [] || (k in tree && tree[k].Folder?)
  }

  ghost predicate WellFormed(tree: Tree) {
    forall k, n :: k in tree && 0 <= n < |k.path| ==> IsFolder(tree, Prefix(k, n))
  }

  function Children(tree: Tree, d: Key): set<Key> {
    set c | c in tree && IsChild(c, d)
  }

  function FilesBelow(tree: Tree, top: Key): set<Key> {
    set k | k in tree && tree[k].FileNode? && Below(k, top)
  }

  ghost predicate AreFiles(tree: Tree, ks: set<Key>) {
    forall k :: k in ks ==> k in tree && tree[k].FileNode?
  }

  ghost function Total(tree: Tree, ks: set<Key>): nat
    requires AreFiles(tree, ks)
  {
    if ks == {} then 0
    else
      var k :| k in ks;
      tree[k].size + Total(tree, ks - {k})
  }

  function Saturate(n: nat): nat {
    if n < U64_LIMIT then n else U64_LIMIT - 1
  }

  /** The size of a folder: the sum of the files beneath it, in saturating 64-bit arithmetic. */
  ghost function SizeAt(tree: Tree, top: Key): nat {
    Saturate(Total(tree, FilesBelow(tree, top)))
  }

  lemma {:induction false} TotalRemove(tree: Tree, ks: set<Key>, x: Key)
    requires AreFiles(tree, ks) && x in ks
    ensures Total(tree, ks) == tree[x].size + Total(tree, ks - {x})
    decreases |ks|
  {
    var k :| k in ks && Total(tree, ks) == tree[k].size + Total(tree, ks - {k});
    if k != x {
      TotalRemove(tree, ks - {k}, x);
      TotalRemove(tree, ks - {x}, k);
      assert ks - {k} - {x} == ks - {x} - {k};
    }
  }

  lemma {:induction false} TotalSame(tree: Tree, other: Tree, ks: set<Key>)
    requires AreFiles(tree, ks) && AreFiles(other, ks)
    requires forall k :: k in ks ==> tree[k] == other[k]
    ensures Total(tree, ks) == Total(other, ks)
    decreases |ks|
  {
    if ks != {} {
      var x :| x in ks;
      TotalSame(tree, other, ks - {x});
      TotalRemove(tree, ks, x);
      TotalRemove(other, ks, x);
    }
  }

  // ---- one walk ----

  /** A walk in progress: folders to open, open listings with what they held when opened, entries
      a listing gave that are to be looked at, and the sum so far. `yielded`, `entered`,
      `counted` and `dirty` record what happened and do not steer the walk; `dirty` means that
      a related change was committed since the walk started. */
  datatype Walk = Walk(
    top: Key, started: nat, toOpen: set<Key>, listings: map<Key, set<Key>>, toStat: set<Key>,
    bytes: nat, complete: bool,
    yielded: set<Key>, entered: set<Key>, counted: set<Key>, dirty: bool)

  function NewWalk(top: Key, generation: nat): Walk {
    Walk(top, generation, {top}, map[], {}, 0, true, {}, {}, {}, false)
  }

  predicate Finished(walk: Walk) {
    walk.toOpen == {} && walk.listings == map[] && walk.toStat == {}
  }

  datatype Move =
    | Open(d: Key)            // open a folder, or find it gone
    | Yield(d: Key, c: Key)   // a listing gives an entry it has not given before
    | Close(d: Key)           // a listing ends: it gave everything that stayed since it was opened
    | Stat(c: Key)            // look at an entry: count a file, descend into a folder, skip a vanished one
    | Spoil                   // the budget ran out, or something could not be read

  predicate CanMove(tree: Tree, walk: Walk, move: Move) {
    match move
    case Open(d) => d in walk.toOpen
    case Yield(d, c) => d in walk.listings && c in tree && IsChild(c, d) && c !in walk.yielded
    case Close(d) => d in walk.listings && forall c :: c in walk.listings[d] && c in tree ==> c in walk.yielded
    case Stat(c) => c in walk.toStat
    case Spoil => true
  }

  function DoMove(tree: Tree, walk: Walk, move: Move): Walk
    requires CanMove(tree, walk, move)
  {
    match move
    case Open(d) =>
      var rest := walk.(toOpen := walk.toOpen - {d});
      if IsFolder(tree, d) then rest.(listings := walk.listings[d := Children(tree, d)], entered := walk.entered + {d}) else rest
    case Yield(d, c) => walk.(toStat := walk.toStat + {c}, yielded := walk.yielded + {c})
    case Close(d) => walk.(listings := walk.listings - {d})
    case Stat(c) =>
      var rest := walk.(toStat := walk.toStat - {c});
      if c !in tree then rest
      else if tree[c].Folder? then rest.(toOpen := walk.toOpen + {c})
      else rest.(bytes := Saturate(walk.bytes + tree[c].size), counted := walk.counted + {c})
    case Spoil => walk.(complete := false)
  }

  /** The walk has still to come to `f`. */
  ghost predicate Awaits(walk: Walk, f: Key) {
    exists n :: |walk.top.path| <= n <= |f.path| && AwaitsAt(walk, f, n)
  }

  predicate AwaitsAt(walk: Walk, f: Key, n: nat)
    requires n <= |f.path|
  {
    || Prefix(f, n) in walk.toOpen
    || Prefix(f, n) in walk.toStat
    || (n < |f.path| && Prefix(f, n) in walk.listings && Prefix(f, n + 1) !in walk.yielded)
  }

  /** Every entry the walk knows lies in its folder, and is in one stage only. */
  ghost predicate Staged(walk: Walk) {
    && (forall y :: y in walk.yielded ==> Below(y, walk.top) && Prefix(y, |y.path| - 1) in walk.entered)
    && walk.entered <= walk.yielded + {walk.top}
    && walk.toOpen <= walk.yielded + {walk.top}
    && walk.toStat <= walk.yielded && walk.counted <= walk.yielded
    && walk.listings.Keys <= walk.entered
    && walk.toOpen !! walk.entered && walk.toStat !! walk.entered
    && walk.toOpen !! walk.toStat && walk.toStat !! walk.counted
  }

  /** What a walk knows about a tree that has not changed under it. */
  ghost predicate Tracks(tree: Tree, walk: Walk) {
    && Staged(walk)
    && (forall d :: d in walk.toOpen && d != walk.top ==> IsFolder(tree, d))
    && (forall d :: d in walk.listings ==> walk.listings[d] == Children(tree, d))
    && (forall f :: f in FilesBelow(tree, walk.top) ==> f in walk.counted || Awaits(walk, f))
    && walk.counted <= FilesBelow(tree, walk.top)
    && walk.bytes == Saturate(Total(tree, walk.counted))
  }

  lemma NewWalkTracks(tree: Tree, top: Key, generation: nat)
    ensures Tracks(tree, NewWalk(top, generation))
  {
    var walk := NewWalk(top, generation);
    forall f | f in FilesBelow(tree, top) ensures Awaits(walk, f) {
      assert Prefix(f, |top.path|) == top;
      assert AwaitsAt(walk, f, |top.path|);
    }
  }

  /** The step from a folder on the way to `f`: the next one down is in the tree, its child. */
  lemma NextDown(tree: Tree, f: Key, n: nat)
    requires WellFormed(tree) && f in tree && n < |f.path|
    ensures IsFolder(tree, Prefix(f, n)) && Prefix(f, n + 1) in Children(tree, Prefix(f, n))
    ensures Prefix(Prefix(f, n + 1), n) == Prefix(f, n)
  {
    assert IsFolder(tree, Prefix(f, n));
    if n + 1 < |f.path| {
      assert IsFolder(tree, Prefix(f, n + 1));
    } else {
      assert Prefix(f, n + 1) == f;
    }
    assert Prefix(Prefix(f, n + 1), n) == Prefix(f, n);
  }

  lemma OpenAwaits(tree: Tree, walk: Walk, d: Key, f: Key, n: nat)
    requires WellFormed(tree) && Staged(walk) && d in walk.toOpen && (d != walk.top ==> IsFolder(tree, d))
    requires f in tree && tree[f].FileNode? && Below(f, walk.top) && |walk.top.path| <= n <= |f.path| && AwaitsAt(walk, f, n)
    ensures AwaitsAt(DoMove(tree, walk, Open(d)), f, n)
  {
    assert n == |f.path| ==> Prefix(f, n) == f;
    if Prefix(f, n) == d {
      NextDown(tree, f, n);
      var c := Prefix(f, n + 1);
      assert Prefix(c, |c.path| - 1) == d;
    }
  }

  lemma CloseAwaits(tree: Tree, walk: Walk, d: Key, f: Key, n: nat)
    requires WellFormed(tree) && CanMove(tree, walk, Close(d)) && walk.listings[d] == Children(tree, d)
    requires f in tree && |walk.top.path| <= n <= |f.path| && AwaitsAt(walk, f, n)
    ensures AwaitsAt(DoMove(tree, walk, Close(d)), f, n)
  {
    if n < |f.path| {
      NextDown(tree, f, n);
    }
  }

  lemma YieldAwaits(tree: Tree, walk: Walk, d: Key, c: Key, f: Key, n: nat)
    requires CanMove(tree, walk, Yield(d, c))
    requires |walk.top.path| <= n <= |f.path| && AwaitsAt(walk, f, n)
    ensures Awaits(DoMove(tree, walk, Yield(d, c)), f)
  {
    var next := DoMove(tree, walk, Yield(d, c));
    if !AwaitsAt(next, f, n) {
      assert AwaitsAt(next, f, n + 1);
    }
  }

  lemma StatAwaits(tree: Tree, walk: Walk, c: Key, f: Key, n: nat)
    requires WellFormed(tree) && Staged(walk) && c in walk.toStat
    requires f in tree && tree[f].FileNode? && |walk.top.path| <= n <= |f.path| && AwaitsAt(walk, f, n)
    ensures f in DoMove(tree, walk, Stat(c)).counted || AwaitsAt(DoMove(tree, walk, Stat(c)), f, n)
  {
    if Prefix(f, n) == c {
      if n < |f.path| {
        NextDown(tree, f, n);
      } else {
        assert c == f;
      }
    }
  }

  /** Whatever the walk was still to come to, it has counted or is still to come to. */
  lemma MoveAwaits(tree: Tree, walk: Walk, move: Move, f: Key)
    requires WellFormed(tree) && Tracks(tree, walk) && CanMove(tree, walk, move)
    requires f in FilesBelow(tree, walk.top) && Awaits(walk, f)
    ensures f in DoMove(tree, walk, move).counted || Awaits(DoMove(tree, walk, move), f)
  {
    var n :| |walk.top.path| <= n <= |f.path| && AwaitsAt(walk, f, n);
    match move
    case Open(d) => OpenAwaits(tree, walk, d, f, n);
    case Yield(d, c) => YieldAwaits(tree, walk, d, c, f, n);
    case Close(d) => CloseAwaits(tree, walk, d, f, n);
    case Stat(c) => StatAwaits(tree, walk, c, f, n);
    case Spoil => assert AwaitsAt(DoMove(tree, walk, move), f, n);
  }

  lemma OpenStaged(tree: Tree, walk: Walk, d: Key)
    requires Staged(walk) && CanMove(tree, walk, Open(d))
    ensures Staged(DoMove(tree, walk, Open(d)))
  {
  }

  lemma YieldStaged(tree: Tree, walk: Walk, d: Key, c: Key)
    requires Staged(walk) && CanMove(tree, walk, Yield(d, c))
    ensures Staged(DoMove(tree, walk, Yield(d, c)))
  {
    assert d == walk.top || Below(d, walk.top);
    ChildIsBelow(c, d, walk.top);
    var next := DoMove(tree, walk, Yield(d, c));
    forall y | y in next.yielded ensures Below(y, walk.top) && Prefix(y, |y.path| - 1) in walk.entered {
      assert y == c || y in walk.yielded;
    }
  }

  lemma ChildIsBelow(c: Key, d: Key, top: Key)
    requires IsChild(c, d) && (d == top || Below(d, top))
    ensures Below(c, top) && c != top && Prefix(c, |c.path| - 1) == d
  {
  }

  lemma CloseStaged(tree: Tree, walk: Walk, d: Key)
    requires Staged(walk) && CanMove(tree, walk, Close(d))
    ensures Staged(DoMove(tree, walk, Close(d)))
  {
  }

  lemma StatStaged(tree: Tree, walk: Walk, c: Key)
    requires Staged(walk) && CanMove(tree, walk, Stat(c))
    ensures Staged(DoMove(tree, walk, Stat(c)))
  {
  }

  lemma MoveStaged(tree: Tree, walk: Walk, move: Move)
    requires Staged(walk) && CanMove(tree, walk, move)
    ensures Staged(DoMove(tree, walk, move))
  {
    match move
    case Open(d) => OpenStaged(tree, walk, d);
    case Yield(d, c) => YieldStaged(tree, walk, d, c);
    case Close(d) => CloseStaged(tree, walk, d);
    case Stat(c) => StatStaged(tree, walk, c);
    case Spoil =>
  }

  lemma MoveCounts(tree: Tree, walk: Walk, move: Move)
    requires Tracks(tree, walk) && CanMove(tree, walk, move)
    ensures
      var next := DoMove(tree, walk, move);
      next.counted <= FilesBelow(tree, walk.top) && next.bytes == Saturate(Total(tree, next.counted))
  {
    var next := DoMove(tree, walk, move);
    if move.Stat? && move.c in tree && tree[move.c].FileNode? {
      assert next.counted - {move.c} == walk.counted;
      TotalRemove(tree, next.counted, move.c);
    }
  }

  lemma MoveFolders(tree: Tree, walk: Walk, move: Move)
    requires Tracks(tree, walk) && CanMove(tree, walk, move)
    ensures
      var next := DoMove(tree, walk, move);
      && (forall d :: d in next.toOpen && d != walk.top ==> IsFolder(tree, d))
      && (forall d :: d in next.listings ==> next.listings[d] == Children(tree, d))
  {
  }

  lemma MoveTracks(tree: Tree, walk: Walk, move: Move)
    requires WellFormed(tree) && Tracks(tree, walk) && CanMove(tree, walk, move)
    ensures Tracks(tree, DoMove(tree, walk, move))
  {
    MoveStaged(tree, walk, move);
    MoveCounts(tree, walk, move);
    MoveFolders(tree, walk, move);
    MoveReaches(tree, walk, move);
  }

  /** No file is forgotten. */
  lemma MoveReaches(tree: Tree, walk: Walk, move: Move)
    requires WellFormed(tree) && Tracks(tree, walk) && CanMove(tree, walk, move)
    ensures
      var next := DoMove(tree, walk, move);
      next.top == walk.top && forall f :: f in FilesBelow(tree, walk.top) ==> f in next.counted || Awaits(next, f)
  {
    var next := DoMove(tree, walk, move);
    forall f | f in FilesBelow(tree, walk.top) ensures f in next.counted || Awaits(next, f) {
      if f !in walk.counted {
        MoveAwaits(tree, walk, move, f);
      }
    }
  }

  /** A finished walk of a tree that did not change under it has the exact size. */
  lemma FinishedIsExact(tree: Tree, walk: Walk)
    requires Tracks(tree, walk) && Finished(walk)
    ensures walk.bytes == SizeAt(tree, walk.top)
  {
    assert walk.counted == FilesBelow(tree, walk.top);
  }

  // ---- walks, mutators and the cache ----

  /** `pending` holds the folders of committed mutations whose invalidation has not run. A request
      invalidates only if it ends in success, so a change may stay there for good. `stale` records
      for which folders a related change was committed since the walk started that gave their
      cached size; like `dirty`, it steers nothing. */
  datatype World = World(
    tree: Tree, entries: Entries, generation: nat, walks: map<nat, Walk>, pending: map<nat, Key>,
    ttl: nat, capacity: nat, stale: set<Key>)

  datatype Step =
    | StartWalk(id: nat, top: Key)
    | MoveWalk(id: nat, move: Move)
    | StoreWalk(id: nat, now: nat)
    | DropWalk(id: nat)
    | Commit(m: nat, at: Key)          // a mutator changes the tree at and beneath `at`
    | Invalidate(m: nat, over: Key)      // and later invalidates a folder that contains it
    | Observe(over: Key)                 // an event stream invalidates what it watches
    | Read(key: Key, now: nat)

  /** Changes at and beneath `at` only. */
  ghost predicate ChangesAt(before: Tree, after: Tree, at: Key) {
    forall k :: !Within(k, at) ==> (k in before <==> k in after) && (k in before ==> before[k] == after[k])
  }

  function Dirtied(walks: map<nat, Walk>, at: Key): map<nat, Walk> {
    map id | id in walks :: if Related(at, walks[id].top) then walks[id].(dirty := true) else walks[id]
  }

  function RelatedEntries(entries: Entries, at: Key): set<Key> {
    set k | k in entries && Related(at, k)
  }

  /** The result of a walk is stored unless an invalidation happened since it started. */
  ghost predicate StoresWalk(w: World, v: World, walk: Walk, now: nat) {
    if walk.started != w.generation then v.entries == w.entries && v.stale == w.stale
    else
      && Stores(w.entries, v.entries, walk.top, Cached(FolderSize(walk.bytes, walk.complete), now), w.ttl, w.capacity)
      && v.stale == w.stale - {walk.top} + (if walk.dirty then {walk.top} else {})
  }

  ghost predicate Next(w: World, v: World, step: Step) {
    match step
    case StartWalk(id, top) =>
      id !in w.walks && v == w.(walks := w.walks[id := NewWalk(top, w.generation)])
    case MoveWalk(id, move) =>
      && id in w.walks && CanMove(w.tree, w.walks[id], move)
      && v == w.(walks := w.walks[id := DoMove(w.tree, w.walks[id], move)])
    case StoreWalk(id, now) =>
      && id in w.walks && (Finished(w.walks[id]) || !w.walks[id].complete)
      && v == w.(walks := w.walks - {id}, entries := v.entries, stale := v.stale)
      && StoresWalk(w, v, w.walks[id], now)
    case DropWalk(id) => v == w.(walks := w.walks - {id})
    case Commit(m, at) =>
      && m !in w.pending && WellFormed(v.tree) && ChangesAt(w.tree, v.tree, at)
      && v == w.(tree := v.tree, pending := w.pending[m := at], walks := Dirtied(w.walks, at),
                 stale := w.stale + RelatedEntries(w.entries, at))
    case Invalidate(m, over) =>
      && m in w.pending && Within(w.pending[m], over) && WithinBound(w)
      && Forgets(w.entries, v.entries, over)
      && v == w.(entries := v.entries, generation := WrappingAdd(w.generation), pending := w.pending - {m})
    case Observe(over) =>
      && WithinBound(w) && Forgets(w.entries, v.entries, over)
      && v == w.(entries := v.entries, generation := WrappingAdd(w.generation))
    case Read(key, now) =>
      v == w.(entries := if key in w.entries && !Fresh(w.entries[key], now, w.ttl) then w.entries - {key} else w.entries)
  }

  /** Fewer than 2^64 invalidations happen: the counter does not wrap. */
  predicate WithinBound(w: World) {
    w.generation + 1 < U64_LIMIT
  }

  predicate Initial(w: World) {
    w.entries == map[] && w.generation == 0 && w.walks == map[] && w.pending == map[] && w.stale == {}
  }

  ghost predicate IsRun(trace: seq<World>, steps: seq<Step>) {
    && |trace| == |steps| + 1
    && forall i :: 0 <= i < |steps| ==> Next(trace[i], trace[i + 1], steps[i])
  }

  /** Some committed change above or below the folder has not been invalidated yet. */
  ghost predicate Excused(w: World, k: Key) {
    exists m :: m in w.pending && Related(w.pending[m], k)
  }

  /** The entry is the folder's size now, if it is complete and not stale; if it is stale, an
      invalidation is due. */
  ghost predicate EntryOk(w: World, k: Key, cached: Cached) {
    if k in w.stale then Excused(w, k) else cached.size.complete ==> cached.size.bytes == SizeAt(w.tree, k)
  }

  ghost predicate Coherent(w: World) {
    forall k :: k in w.entries ==> EntryOk(w, k, w.entries[k])
  }

  ghost predicate WalkOk(w: World, walk: Walk) {
    && walk.started <= w.generation
    && (walk.dirty && walk.started == w.generation ==> Excused(w, walk.top))
    && (!walk.dirty ==> Tracks(w.tree, walk))
  }

  ghost predicate Inv(w: World) {
    && WellFormed(w.tree) && Coherent(w)
    && forall id :: id in w.walks ==> WalkOk(w, w.walks[id])
  }

  /** A change that is not above or below a folder is not seen from it. */
  lemma UnrelatedUnchanged(before: Tree, after: Tree, at: Key, top: Key)
    requires ChangesAt(before, after, at) && !Related(at, top)
    ensures forall k :: Within(k, top) ==> (k in before <==> k in after) && (k in before ==> before[k] == after[k])
    ensures FilesBelow(before, top) == FilesBelow(after, top)
    ensures SizeAt(before, top) == SizeAt(after, top)
  {
    assert forall k :: Within(k, top) ==> !Within(k, at);
    TotalSame(before, after, FilesBelow(before, top));
  }

  lemma UnrelatedTracks(before: Tree, after: Tree, at: Key, walk: Walk)
    requires ChangesAt(before, after, at) && !Related(at, walk.top) && Tracks(before, walk)
    ensures Tracks(after, walk)
  {
    UnrelatedUnchanged(before, after, at, walk.top);
    TotalSame(before, after, walk.counted);
    forall d | d in walk.listings ensures walk.listings[d] == Children(after, d) {
      assert Within(d, walk.top);
      assert Children(before, d) == Children(after, d);
    }
  }

  lemma StaysExcused(w: World, v: World, k: Key)
    requires Excused(w, k) && forall m :: m in w.pending ==> m in v.pending && v.pending[m] == w.pending[m]
    ensures Excused(v, k)
  {
    var m :| m in w.pending && Related(w.pending[m], k);
    assert v.pending[m] == w.pending[m];
  }

  lemma CommitEntryOk(w: World, v: World, m: nat, at: Key, k: Key)
    requires Next(w, v, Commit(m, at)) && k in w.entries && EntryOk(w, k, w.entries[k])
    ensures EntryOk(v, k, w.entries[k])
  {
    if Related(at, k) {
      assert v.pending[m] == at;
    } else {
      UnrelatedUnchanged(w.tree, v.tree, at, k);
      if k in w.stale {
        StaysExcused(w, v, k);
      }
    }
  }

  lemma CommitWalkOk(w: World, v: World, m: nat, at: Key, walk: Walk)
    requires Next(w, v, Commit(m, at)) && WalkOk(w, walk)
    ensures WalkOk(v, if Related(at, walk.top) then walk.(dirty := true) else walk)
  {
    if Related(at, walk.top) {
      assert v.pending[m] == at;
    } else {
      if Excused(w, walk.top) {
        StaysExcused(w, v, walk.top);
      }
      if !walk.dirty {
        UnrelatedTracks(w.tree, v.tree, at, walk);
      }
    }
  }

  lemma CommitInv(w: World, v: World, m: nat, at: Key)
    requires Inv(w) && Next(w, v, Commit(m, at))
    ensures Inv(v)
  {
    forall k | k in v.entries ensures EntryOk(v, k, v.entries[k]) {
      CommitEntryOk(w, v, m, at, k);
    }
    forall id | id in v.walks ensures WalkOk(v, v.walks[id]) {
      CommitWalkOk(w, v, m, at, w.walks[id]);
    }
  }

  /** A change that is invalidated excuses nothing that stays in the cache. */
  lemma OthersStillExcuse(w: World, v: World, m: nat, over: Key, k: Key)
    requires Next(w, v, Invalidate(m, over)) && Excused(w, k) && !Related(k, over)
    ensures Excused(v, k)
  {
    var n :| n in w.pending && Related(w.pending[n], k);
    assert n != m;
    assert v.pending[n] == w.pending[n];
  }

  lemma InvalidateInv(w: World, v: World, m: nat, over: Key)
    requires Inv(w) && Next(w, v, Invalidate(m, over))
    ensures Inv(v)
  {
    forall k | k in v.entries ensures EntryOk(v, k, v.entries[k]) {
      assert EntryOk(w, k, w.entries[k]);
      if k in w.stale {
        OthersStillExcuse(w, v, m, over, k);
      }
    }
    forall id | id in v.walks ensures WalkOk(v, v.walks[id]) {
      assert WalkOk(w, w.walks[id]);
    }
  }

  /** What is in the cache after a store was there, or is the new entry. */
  lemma StoredEntry(before: Entries, after: Entries, key: Key, cached: Cached, ttl: nat, capacity: nat, k: Key)
    requires Stores(before, after, key, cached, ttl, capacity) && k in after
    ensures if k == key then after[k] == cached else k in before && after[k] == before[k]
  {
  }

  lemma StoreEntryOk(w: World, v: World, walk: Walk, now: nat, k: Key)
    requires Coherent(w) && WalkOk(w, walk) && (Finished(walk) || !walk.complete) && StoresWalk(w, v, walk, now)
    requires v.pending == w.pending && v.tree == w.tree && k in v.entries
    ensures EntryOk(v, k, v.entries[k])
  {
    if walk.started != w.generation {
      assert EntryOk(w, k, w.entries[k]);
    } else {
      StoredEntry(w.entries, v.entries, walk.top, Cached(FolderSize(walk.bytes, walk.complete), now), w.ttl, w.capacity, k);
      if k != walk.top {
        assert EntryOk(w, k, w.entries[k]);
      } else if !walk.dirty && walk.complete {
        FinishedIsExact(w.tree, walk);
      }
    }
  }

  lemma StoreInv(w: World, v: World, id: nat, now: nat)
    requires Inv(w) && Next(w, v, StoreWalk(id, now))
    ensures Inv(v)
  {
    assert WalkOk(w, w.walks[id]);
    forall k | k in v.entries ensures EntryOk(v, k, v.entries[k]) {
      StoreEntryOk(w, v, w.walks[id], now, k);
    }
    forall i | i in v.walks ensures WalkOk(v, v.walks[i]) {
      assert WalkOk(w, w.walks[i]);
    }
  }

  /** A step that touches nothing but walks keeps coherence and every walk it leaves alone. */
  lemma OnlyWalksChange(w: World, v: World)
    requires Inv(w) && v == w.(walks := v.walks)
    requires forall id :: id in v.walks ==> (id in w.walks && v.walks[id] == w.walks[id]) || WalkOk(w, v.walks[id])
    ensures Inv(v)
  {
    forall k | k in v.entries ensures EntryOk(v, k, v.entries[k]) {
      assert EntryOk(w, k, w.entries[k]);
    }
    forall id | id in v.walks ensures WalkOk(v, v.walks[id]) {
      assert WalkOk(w, v.walks[id]);
    }
  }

  lemma WalkInv(w: World, v: World, step: Step)
    requires Inv(w) && Next(w, v, step) && (step.StartWalk? || step.MoveWalk? || step.DropWalk?)
    ensures Inv(v)
  {
    if step.StartWalk? {
      NewWalkTracks(w.tree, step.top, w.generation);
    } else if step.MoveWalk? {
      MoveWalkOk(w, w.walks[step.id], step.move);
    }
    OnlyWalksChange(w, v);
  }

  lemma MoveWalkOk(w: World, walk: Walk, move: Move)
    requires WellFormed(w.tree) && WalkOk(w, walk) && CanMove(w.tree, walk, move)
    ensures WalkOk(w, DoMove(w.tree, walk, move))
  {
    if !walk.dirty {
      MoveTracks(w.tree, walk, move);
    }
  }

  lemma ForgetInv(w: World, v: World, step: Step)
    requires Inv(w) && Next(w, v, step) && (step.Observe? || step.Read?)
    ensures Inv(v)
  {
    forall id | id in v.walks ensures WalkOk(v, v.walks[id]) {
      assert WalkOk(w, w.walks[id]);
    }
    forall k | k in v.entries ensures EntryOk(v, k, v.entries[k]) {
      assert k in w.entries && v.entries[k] == w.entries[k];
      assert EntryOk(w, k, w.entries[k]);
    }
  }

  lemma NextInv(w: World, v: World, step: Step)
    requires Inv(w) && Next(w, v, step)
    ensures Inv(v)
  {
    match step
    case StartWalk(_, _) => WalkInv(w, v, step);
    case MoveWalk(_, _) => WalkInv(w, v, step);
    case DropWalk(_) => WalkInv(w, v, step);
    case StoreWalk(id, now) => StoreInv(w, v, id, now);
    case Commit(m, at) => CommitInv(w, v, m, at);
    case Invalidate(m, over) => InvalidateInv(w, v, m, over);
    case Observe(_) => ForgetInv(w, v, step);
    case Read(_, _) => ForgetInv(w, v, step);
  }

  lemma {:induction false} RunInv(trace: seq<World>, steps: seq<Step>, i: nat)
    requires IsRun(trace, steps) && Initial(trace[0]) && WellFormed(trace[0].tree) && i < |trace|
    ensures Inv(trace[i])
  {
    if i > 0 {
      RunInv(trace, steps, i - 1);
      NextInv(trace[i - 1], trace[i], steps[i - 1]);
    }
  }

  /** In every interleaving of walks, stores, evictions, expiry, commits and invalidations, every
      complete cached size equals the folder's current size unless a change above or below it was
      committed since its walk started and has not run its invalidation yet. */
  lemma CacheIsCoherent(trace: seq<World>, steps: seq<Step>, i: nat, k: Key)
    requires IsRun(trace, steps) && Initial(trace[0]) && WellFormed(trace[0].tree) && i < |trace|
    requires k in trace[i].entries && trace[i].entries[k].size.complete
    ensures trace[i].entries[k].size.bytes == SizeAt(trace[i].tree, k) || (k in trace[i].stale && Excused(trace[i], k))
    ensures trace[i].pending == map[] ==> trace[i].entries[k].size.bytes == SizeAt(trace[i].tree, k)
  {
    RunInv(trace, steps, i);
    assert EntryOk(trace[i], k, trace[i].entries[k]);
  }

  /** What a reader is given: `get_at` serves live entries only. */
  predicate Serves(w: World, key: Key, now: nat, size: FolderSize) {
    key in w.entries && Fresh(w.entries[key], now, w.ttl) && w.entries[key].size == size
  }

  /** Even if an invalidation never runs, because its request failed after the change or was
      dropped, a size that the change made wrong is served only until it expires, and only if its
      walk had started before the change. */
  lemma WrongSizesExpire(trace: seq<World>, steps: seq<Step>, i: nat, key: Key, now: nat, size: FolderSize)
    requires IsRun(trace, steps) && Initial(trace[0]) && WellFormed(trace[0].tree) && i < |trace|
    requires Serves(trace[i], key, now, size) && size.complete && size.bytes != SizeAt(trace[i].tree, key)
    ensures key in trace[i].stale && Excused(trace[i], key)
    ensures now < trace[i].entries[key].stored + trace[i].ttl
  {
    CacheIsCoherent(trace, steps, i, key);
  }

  /** A walk with no related change and no invalidation in its time is stored, and right if it is
      complete, whatever invalidations of earlier changes are still due. */
  lemma LaterWalksAreExact(trace: seq<World>, steps: seq<Step>, j: nat, i: nat, id: nat, top: Key, now: nat)
    requires IsRun(trace, steps) && Initial(trace[0]) && WellFormed(trace[0].tree)
    requires j + 1 < i <= |steps| && steps[j] == StartWalk(id, top) && steps[i - 1] == StoreWalk(id, now)
    requires forall n :: j < n < i - 1 ==> KeepsWalk(steps[n], id) && !ChangesRelated(steps[n], top)
    requires trace[i - 1].generation == trace[j].generation
    ensures
      var w := trace[i];
      && top in w.entries && w.entries[top].stored == now
      && (w.entries[top].size.complete ==> w.entries[top].size.bytes == SizeAt(w.tree, top))
  {
    WalkStaysClean(trace, steps, j, i - 1, id, top);
    RunInv(trace, steps, i);
    assert Next(trace[i - 1], trace[i], steps[i - 1]);
    assert EntryOk(trace[i], top, trace[i].entries[top]);
  }

  /** The step does not end this walk. */
  predicate KeepsWalk(step: Step, id: nat) {
    !(step.StoreWalk? && step.id == id) && !(step.DropWalk? && step.id == id)
  }

  predicate ChangesRelated(step: Step, top: Key) {
    step.Commit? && Related(step.at, top)
  }

  ghost predicate HasCleanWalk(w: World, id: nat, top: Key, started: nat) {
    id in w.walks && w.walks[id].top == top && !w.walks[id].dirty && w.walks[id].started == started
  }

  /** The worlds in which this walk is under way and no related change was committed since it started. */
  ghost function CleanWalkWorlds(id: nat, top: Key, started: nat): iset<World> {
    iset w: World | HasCleanWalk(w, id, top, started)
  }

  ghost function Successors(w: World, step: Step): iset<World> {
    iset v: World | Next(w, v, step)
  }

  lemma RunStep(trace: seq<World>, steps: seq<Step>, n: nat)
    requires IsRun(trace, steps) && n < |steps|
    ensures trace[n + 1] in Successors(trace[n], steps[n])
  {
    assert Next(trace[n], trace[n + 1], steps[n]);
  }

  lemma {:induction false} WalkStaysClean(trace: seq<World>, steps: seq<Step>, j: nat, n: nat, id: nat, top: Key)
    requires IsRun(trace, steps) && j < n <= |steps| && steps[j] == StartWalk(id, top)
    requires forall m :: j < m < n ==> KeepsWalk(steps[m], id) && !ChangesRelated(steps[m], top)
    ensures trace[n] in CleanWalkWorlds(id, top, trace[j].generation)
  {
    RunStep(trace, steps, n - 1);
    if n == j + 1 {
      StartsClean(trace[j], trace[n], id, top);
    } else {
      WalkStaysClean(trace, steps, j, n - 1, id, top);
      StepKeepsClean(trace[n - 1], trace[n], steps[n - 1], id, top, trace[j].generation);
    }
  }

  lemma StartsClean(w: World, v: World, id: nat, top: Key)
    requires v in Successors(w, StartWalk(id, top))
    ensures v in CleanWalkWorlds(id, top, w.generation)
  {
  }

  lemma StepKeepsClean(w: World, v: World, step: Step, id: nat, top: Key, started: nat)
    requires v in Successors(w, step) && KeepsWalk(step, id) && !ChangesRelated(step, top)
    requires w in CleanWalkWorlds(id, top, started)
    ensures v in CleanWalkWorlds(id, top, started)
  {
  }
}
