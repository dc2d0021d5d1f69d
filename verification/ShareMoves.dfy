/**
 A share as the set of its paths, and what a rename does to it (src/filesystem.rs, `move_entry`;
 src/filesystem/trash.rs, where deleting and restoring are renames too).
 */
module ShareMoves {
  import opened Common
  import opened VirtualPaths
  import Trees
  import UsageWalks

  /** For every path below a share's root, whether it is a directory. The root is not listed. */
  type Share = map<Path, bool>

  /** `.crabinet`, a name that no request can name. */
  const INTERNAL_DIRECTORY: Name := [46, 99, 114, 97, 98, 105, 110, 101, 116]

  /** `.crabinet/trash`: deleted entries stay below the share's root. */
  const TRASH: Path := [INTERNAL_DIRECTORY, [116, 114, 97, 115, 104]]

  /** What a user can see. */
  predicate Shown(path: Path) {
    path == [] || path[0] != INTERNAL_DIRECTORY
  }

  function Parent(path: Path): Path
    requires path != []
  {
    path[..|path| - 1]
  }

  predicate IsFolder(share: Share, path: Path) {
    path == [] || (path in share && share[path])
  }

  /** Everything is in a directory. */
  ghost predicate IsShare(share: Share) {
    forall p :: p in share ==> p != [] && IsFolder(share, Parent(p))
  }

  /** Nothing that a user can see is deeper than the limit. */
  ghost predicate Bounded(share: Share) {
    forall p :: p in share && Shown(p) ==> |p| <= MAX_PATH_DEPTH
  }

  // ---- moves ----

  /** Where a path is after everything at `source` went to `destination`. */
  function Renamed(p: Path, source: Path, destination: Path): Path {
    if StartsWith(p, source) then destination + p[|source|..] else p
  }

  function Moved(share: Share, source: Path, destination: Path): Share {
    map q | q in (set p | p in share :: Renamed(p, source, destination)) && Renamed(q, destination, source) in share
      :: share[Renamed(q, destination, source)]
  }

  datatype MoveError = Conflict | NotFound | InvalidPath | Refused(error: UsageWalks.Error)

  datatype MoveResult = Done(share: Share) | Failed(error: MoveError)

  /** `move_entry`, when no validation fails; `seen` is the tree that the depth check reads. */
  function MoveEntry(share: Share, source: Path, destination: Path, seen: Trees.Tree): MoveResult {
    if source == destination then Failed(Conflict)
    else if source !in share then Failed(NotFound)
    else if share[source] && StartsWith(destination, source) then Failed(InvalidPath)
    else if
      && share[source] && |destination| > |source|
      && SubtreeCheck(seen, destination).error.Some?
    then Failed(Refused(SubtreeCheck(seen, destination).error.value))
    else if destination == [] || !IsFolder(share, Parent(destination)) then Failed(NotFound)
    else if destination in share then Failed(Conflict)
    else Done(Moved(share, source, destination))
  }

  function SubtreeCheck(seen: Trees.Tree, destination: Path): UsageWalks.Check {
    var allowance := if |destination| > MAX_PATH_DEPTH then 0 else MAX_PATH_DEPTH - |destination|;
    UsageWalks.Checked(UsageWalks.Check(0, None), seen, allowance)
  }

  /** The tree below a path of the share; below a path that is shown, what is shown. */
  ghost predicate Shows(t: Trees.Tree, share: Share, base: Path) {
    forall q :: Trees.Holds(t, q) <==> q != [] && base + q in share && (Shown(base) ==> Shown(base + q))
  }

  lemma NothingBeneath(share: Share, p: Path, q: Path)
    requires IsShare(share) && p in share && q != [] && StartsWith(p, q) && p != q
    ensures q in share && share[q]
    decreases |p|
  {
    assert StartsWith(Parent(p), q);
    if Parent(p) != q {
      NothingBeneath(share, Parent(p), q);
    }
  }

  /** A path goes to its new place and back. */
  lemma RenamedBack(p: Path, source: Path, destination: Path)
    requires !StartsWith(p, destination)
    ensures Renamed(Renamed(p, source, destination), destination, source) == p
  {
    if StartsWith(p, source) {
      assert (destination + p[|source|..])[|destination|..] == p[|source|..];
      assert p == source + p[|source|..];
    }
  }

  /** Nothing is at or below a free destination. */
  lemma DestinationIsFree(share: Share, destination: Path)
    requires IsShare(share) && destination != [] && destination !in share
    ensures forall p :: p in share ==> !StartsWith(p, destination)
  {
    forall p | p in share ensures !StartsWith(p, destination) {
      if StartsWith(p, destination) && p != destination {
        NothingBeneath(share, p, destination);
      }
    }
  }

  /** What a move leaves: each entry at its new place. */
  lemma MovedEntries(share: Share, source: Path, destination: Path)
    requires IsShare(share) && destination != [] && destination !in share
    ensures forall p :: p in share ==>
                          Renamed(p, source, destination) in Moved(share, source, destination)
                          && Moved(share, source, destination)[Renamed(p, source, destination)] == share[p]
    ensures forall q :: q in Moved(share, source, destination) ==>
                          Renamed(q, destination, source) in share
                          && Renamed(Renamed(q, destination, source), source, destination) == q
  {
    DestinationIsFree(share, destination);
    forall p | p in share
      ensures Renamed(Renamed(p, source, destination), destination, source) == p
    {
      RenamedBack(p, source, destination);
    }
  }

  /** The move can be made: the source is there, the destination is free and in a directory outside the source. */
  ghost predicate CanMove(share: Share, source: Path, destination: Path) {
    && IsShare(share) && source in share && destination != [] && destination !in share
    && IsFolder(share, Parent(destination)) && (share[source] ==> !StartsWith(destination, source))
  }

  lemma ParentStays(share: Share, source: Path, destination: Path)
    requires CanMove(share, source, destination)
    ensures !StartsWith(Parent(destination), source)
  {
    var d := Parent(destination);
    if StartsWith(d, source) {
      assert StartsWith(destination, source);
      if d != source {
        NothingBeneath(share, d, source);
      }
    }
  }

  lemma FolderMoves(share: Share, source: Path, destination: Path, d: Path)
    requires CanMove(share, source, destination) && IsFolder(share, d)
    ensures IsFolder(Moved(share, source, destination), Renamed(d, source, destination))
  {
    MovedEntries(share, source, destination);
  }

  lemma RenamedParent(p: Path, source: Path, destination: Path)
    requires StartsWith(p, source) && p != source
    ensures Renamed(p, source, destination) != []
    ensures Parent(Renamed(p, source, destination)) == Renamed(Parent(p), source, destination)
  {
    assert StartsWith(Parent(p), source) && Parent(p)[|source|..] == p[|source|..|p| - 1];
    assert Parent(Renamed(p, source, destination)) == destination + p[|source|..|p| - 1];
  }

  lemma ParentMoves(share: Share, source: Path, destination: Path, p: Path)
    requires CanMove(share, source, destination) && p in share
    ensures
      var q := Renamed(p, source, destination);
      q != [] && IsFolder(Moved(share, source, destination), Parent(q))
  {
    var q := Renamed(p, source, destination);
    if p == source {
      ParentStays(share, source, destination);
      FolderMoves(share, source, destination, Parent(destination));
      assert q == destination;
    } else {
      FolderMoves(share, source, destination, Parent(p));
      if StartsWith(p, source) {
        RenamedParent(p, source, destination);
      }
    }
  }

  /** A move leaves a share. */
  lemma MovedIsShare(share: Share, source: Path, destination: Path)
    requires CanMove(share, source, destination)
    ensures IsShare(Moved(share, source, destination))
  {
    MovedEntries(share, source, destination);
    var moved := Moved(share, source, destination);
    forall q | q in moved ensures q != [] && IsFolder(moved, Parent(q)) {
      ParentMoves(share, source, destination, Renamed(q, destination, source));
    }
  }

  /** The rollback of a move restores the share exactly. */
  lemma MoveBackRestores(share: Share, source: Path, destination: Path)
    requires CanMove(share, source, destination)
    ensures Moved(Moved(share, source, destination), destination, source) == share
  {
    var moved := Moved(share, source, destination);
    MovedEntries(share, source, destination);
    MovedIsShare(share, source, destination);
    SourceIsFree(share, source, destination);
    MovedEntries(moved, destination, source);
    var back := Moved(moved, destination, source);
    forall p | p in share ensures p in back && back[p] == share[p] {
      DestinationIsFree(share, destination);
      RenamedBack(p, source, destination);
      assert Renamed(p, source, destination) in moved;
    }
    forall p | p in back ensures p in share {
      assert Renamed(p, source, destination) in moved;
      DestinationIsFree(moved, source);
      RenamedBack(Renamed(p, source, destination), destination, source);
    }
  }

  lemma SourceIsFree(share: Share, source: Path, destination: Path)
    requires CanMove(share, source, destination)
    ensures source !in Moved(share, source, destination)
  {
    MovedEntries(share, source, destination);
    var moved := Moved(share, source, destination);
    if source in moved {
      var p := Renamed(source, destination, source);
      assert p in share && Renamed(p, source, destination) == source;
      if StartsWith(p, source) {
        assert StartsWith(source, destination);
        assert source in share;
        DestinationIsFree(share, destination);
      }
    }
  }

  /** Everything below `source` keeps within the limit below `destination`. */
  ghost predicate FitsBelow(share: Share, source: Path, destination: Path) {
    |destination| <= MAX_PATH_DEPTH && forall q :: q != [] && source + q in share ==> |destination| + |q| <= MAX_PATH_DEPTH
  }

  lemma RenamedFits(share: Share, source: Path, destination: Path, p: Path)
    requires p in share && destination != [] && Bounded(share)
    requires Shown(destination) ==> FitsBelow(share, source, destination)
    ensures Shown(Renamed(p, source, destination)) ==> |Renamed(p, source, destination)| <= MAX_PATH_DEPTH
  {
    if StartsWith(p, source) {
      var q := p[|source|..];
      assert p == source + q && (destination + q)[0] == destination[0];
    }
  }

  /** A rename keeps the limit if what it moves fits, or goes out of sight. */
  lemma RenameKeepsLimit(share: Share, source: Path, destination: Path)
    requires CanMove(share, source, destination) && Bounded(share)
    requires Shown(destination) ==> FitsBelow(share, source, destination)
    ensures Bounded(Moved(share, source, destination))
  {
    MovedEntries(share, source, destination);
    forall r | r in Moved(share, source, destination) && Shown(r) ensures |r| <= MAX_PATH_DEPTH {
      RenamedFits(share, source, destination, Renamed(r, destination, source));
    }
  }

  /** The check of the subtree is enough: nothing ends up too deep. */
  lemma CheckedFits(share: Share, source: Path, destination: Path, seen: Trees.Tree)
    requires |destination| <= MAX_PATH_DEPTH && source != [] && Shows(seen, share, source)
    requires SubtreeCheck(seen, destination).error.None?
    ensures FitsBelow(share, source, destination)
  {
    UsageWalks.CheckIsExact(UsageWalks.Check(0, None), seen, MAX_PATH_DEPTH - |destination|);
    forall q | q != [] && source + q in share ensures |destination| + |q| <= MAX_PATH_DEPTH {
      assert (source + q)[0] == source[0];
      assert Trees.Holds(seen, q);
      Trees.HoldsIsHas(seen, q);
      Trees.PathsAreNoDeeper(seen, q);
    }
  }

  /** Nothing is below a file. */
  lemma FileFits(share: Share, source: Path, destination: Path)
    requires IsShare(share) && source in share && !share[source] && |destination| <= MAX_PATH_DEPTH
    ensures FitsBelow(share, source, destination)
  {
    forall q | q != [] ensures source + q !in share {
      if source + q in share {
        NothingBeneath(share, source + q, source);
      }
    }
  }

  /** What is no deeper than before fits unchecked. */
  lemma ShallowerFits(share: Share, source: Path, destination: Path)
    requires Bounded(share) && source != [] && Shown(source) && |destination| <= |source| <= MAX_PATH_DEPTH
    ensures FitsBelow(share, source, destination)
  {
    forall q | q != [] && source + q in share ensures |destination| + |q| <= MAX_PATH_DEPTH {
      assert Shown(source + q) && |source + q| <= MAX_PATH_DEPTH;
    }
  }

  /** A successful move keeps the limit, although moves to the same or a smaller depth check nothing. */
  lemma MoveKeepsLimit(share: Share, source: Path, destination: Path, seen: Trees.Tree)
    requires IsShare(share) && Bounded(share) && Shown(source) && |destination| <= MAX_PATH_DEPTH && Shows(seen, share, source)
    requires MoveEntry(share, source, destination, seen).Done?
    ensures CanMove(share, source, destination)
    ensures Bounded(MoveEntry(share, source, destination, seen).share)
  {
    if !share[source] {
      FileFits(share, source, destination);
    } else if |destination| > |source| {
      CheckedFits(share, source, destination, seen);
    } else {
      ShallowerFits(share, source, destination);
    }
    RenameKeepsLimit(share, source, destination);
  }

  /** A move succeeds exactly when the source is there, the destination is free, in a directory and not
      in the source, and a directory that goes deeper can be read, is small enough and fits. */
  lemma MoveSucceedsIff(share: Share, source: Path, destination: Path, seen: Trees.Tree)
    requires |destination| <= MAX_PATH_DEPTH
    ensures MoveEntry(share, source, destination, seen).Done? <==>
      && source in share && destination !in share && destination != [] && IsFolder(share, Parent(destination))
      && (share[source] ==> !StartsWith(destination, source))
      && (share[source] && |destination| > |source| ==>
            && UsageWalks.Readable(seen) && |destination| + Trees.Height(seen) <= MAX_PATH_DEPTH
            && Trees.Weight(seen) <= UsageWalks.MAX_SUBTREE_CHECK_ENTRIES)
  {
    UsageWalks.CheckIsExact(UsageWalks.Check(0, None), seen, MAX_PATH_DEPTH - |destination|);
  }
}
