/** Folder sizes (src/filesystem.rs, `folder_size`, `SizeWalk`). */
module SizeWalks {
  import opened Common
  import opened VirtualPaths
  import opened Trees

  /** `late(n)`: the deadline has passed when the clock is read for the `n`th entry. */
  datatype Budget = Budget(maxEntries: nat, late: nat -> bool)

  datatype State = State(scanned: nat, bytes: U64, complete: bool, going: bool)

  const START := State(0, 0, true, true)

  /** One entry that the budget allows; `below` is the walk of its directory. */
  function Visited(next: State, e: Entry, depth: nat, below: State): State {
    if Fails(e) then next.(complete := false)
    else if !Supported(e) then next
    else if depth >= MAX_PATH_DEPTH then next.(complete := false)
    else if e.node.File? then next.(bytes := SatAdd(next.bytes, e.node.size))
    else if !e.node.readable then next.(complete := false)
    else below
  }

  /** The walk over a directory's entries, one after the other. */
  function Walked(b: Budget, w: State, t: Tree, depth: nat): State
    decreases Weight(t)
  {
    if t == [] || !w.going then w
    else
      var next := w.(scanned := w.scanned + 1);
      if next.scanned > b.maxEntries || b.late(next.scanned) then next.(complete := false, going := false)
      else Walked(b, Visited(next, t[0], depth, Walked(b, next, Below(t[0]), depth + 1)), t[1..], depth)
  }

  class SizeWalk {
    const budget: Budget
    var scanned: nat
    var bytes: U64
    var complete: bool

    constructor (budget: Budget)
      ensures this.budget == budget && Now(true) == START
    {
      this.budget := budget;
      scanned, bytes, complete := 0, 0, true;
    }

    ghost function Now(going: bool): State
      reads this
    {
      State(scanned, bytes, complete, going)
    }

    /** False once the budget is spent, so that every caller stops. */
    method Visit(entries: Tree, depth: nat) returns (going: bool)
      modifies this
      ensures Now(going) == Walked(budget, old(Now(true)), entries, depth)
      decreases entries
    {
      for i := 0 to |entries|
        invariant Walked(budget, old(Now(true)), entries, depth) == Walked(budget, Now(true), entries[i..], depth)
      {
        var e := entries[i];
        assert entries[i..][0] == e && entries[i..][1..] == entries[i + 1..];
        ghost var before := Now(true);
        scanned := scanned + 1;
        if scanned > budget.maxEntries || budget.late(scanned) {
          complete := false;
          return false;
        }
        ghost var next := Visited(Now(true), e, depth, Walked(budget, Now(true), Below(e), depth + 1));
        assert Walked(budget, before, entries[i..], depth) == Walked(budget, next, entries[i + 1..], depth);
        if Fails(e) {
          complete := false;
          continue;
        }
        if !Supported(e) {
          continue;
        }
        if depth >= MAX_PATH_DEPTH {
          complete := false;
          continue;
        }
        if e.node.File? {
          bytes := SatAdd(bytes, e.node.size);
        } else if e.node.readable {
          var more := Visit(e.node.entries, depth + 1);
          if !more {
            return false;
          }
        } else {
          complete := false;
        }
      }
      going := true;
    }
  }

  /** `folder_size` of a directory that can be read. */
  method FolderSize(entries: Tree, depth: nat, budget: Budget) returns (bytes: U64, complete: bool)
    ensures bytes <= SatAdd(0, TrueSize(entries))
    ensures complete ==> bytes == SatAdd(0, TrueSize(entries))
    ensures complete <==> Clean(entries, depth) && InTime(budget, 0, ScanCount(entries))
  {
    var walk := new SizeWalk(budget);
    var going := walk.Visit(entries, depth);
    WalkIsExact(budget, entries, depth);
    bytes, complete := walk.bytes, walk.complete;
  }

  // ---- what the walk computes ----

  /** The budget lasts for `count` more entries. */
  ghost predicate InTime(b: Budget, scanned: nat, count: nat) {
    scanned + count <= b.maxEntries && forall n :: scanned < n <= scanned + count ==> !b.late(n)
  }

  /** Once incomplete, always incomplete; sizes only grow, by no more than `size`. */
  ghost predicate OnlyAdds(w: State, r: State, size: nat) {
    && w.bytes <= r.bytes <= SatAdd(w.bytes, size)
    && (r.complete ==> w.complete) && (r.going || !r.complete)
  }

  lemma OnlyAddsTwice(w: State, v: State, r: State, m: nat, n: nat)
    requires OnlyAdds(w, v, m) && OnlyAdds(v, r, n)
    ensures OnlyAdds(w, r, m + n)
  {
  }

  lemma EntryOnlyAdds(next: State, e: Entry, depth: nat, below: State)
    requires next.going && OnlyAdds(next, below, TrueSize(Below(e)))
    ensures OnlyAdds(next, Visited(next, e, depth, below), VisibleSize(e, TrueSize(Below(e))))
  {
  }

  /** So it is for every walk, with the true size. */
  lemma {:induction false} WalkOnlyAdds(b: Budget, w: State, t: Tree, depth: nat)
    requires w.going || !w.complete
    ensures OnlyAdds(w, Walked(b, w, t, depth), TrueSize(t))
    decreases Weight(t)
  {
    if t != [] && w.going {
      var next := w.(scanned := w.scanned + 1);
      if next.scanned <= b.maxEntries && !b.late(next.scanned) {
        var below := Walked(b, next, Below(t[0]), depth + 1);
        var visited := Visited(next, t[0], depth, below);
        WalkOnlyAdds(b, next, Below(t[0]), depth + 1);
        EntryOnlyAdds(next, t[0], depth, below);
        WalkOnlyAdds(b, visited, t[1..], depth);
        OnlyAddsTwice(next, visited, Walked(b, visited, t[1..], depth), VisibleSize(t[0], TrueSize(Below(t[0]))), TrueSize(t[1..]));
      }
    }
  }

  /** The state after a complete walk. */
  function Completed(w: State, count: nat, size: nat): State {
    State(w.scanned + count, SatAdd(w.bytes, size), w.complete, true)
  }

  lemma CleanEntryCompletes(next: State, e: Entry, depth: nat, below: State)
    requires next.going && CleanEntry(e, depth)
    requires Supported(e) ==> below == Completed(next, ScanCount(Below(e)), TrueSize(Below(e)))
    ensures Visited(next, e, depth, below)
         == Completed(next, if Supported(e) then ScanCount(Below(e)) else 0, VisibleSize(e, TrueSize(Below(e))))
  {
  }

  lemma InTimeParts(b: Budget, scanned: nat, m: nat, n: nat)
    requires InTime(b, scanned, m + n)
    ensures InTime(b, scanned, m) && InTime(b, scanned + m, n)
  {
  }

  /** A clean tree within the budget is walked to its end. */
  lemma {:induction false} CleanWalkCompletes(b: Budget, w: State, t: Tree, depth: nat)
    requires w.going && Clean(t, depth) && InTime(b, w.scanned, ScanCount(t))
    ensures Walked(b, w, t, depth) == Completed(w, ScanCount(t), TrueSize(t))
    decreases Weight(t)
  {
    if t != [] {
      var next, count := w.(scanned := w.scanned + 1), if Supported(t[0]) then ScanCount(Below(t[0])) else 0;
      InTimeParts(b, w.scanned, 1, count + ScanCount(t[1..]));
      InTimeParts(b, next.scanned, count, ScanCount(t[1..]));
      assert !b.late(next.scanned);
      if Supported(t[0]) {
        CleanWalkCompletes(b, next, Below(t[0]), depth + 1);
      }
      CleanEntryCompletes(next, t[0], depth, Walked(b, next, Below(t[0]), depth + 1));
      CleanWalkCompletes(b, Visited(next, t[0], depth, Walked(b, next, Below(t[0]), depth + 1)), t[1..], depth);
    }
  }

  /** Only such a tree is: anything else marks the result incomplete. */
  lemma {:induction false} CompleteWalkIsClean(b: Budget, w: State, t: Tree, depth: nat)
    requires w.going && Walked(b, w, t, depth).complete && w.scanned <= b.maxEntries
    ensures Clean(t, depth) && InTime(b, w.scanned, ScanCount(t))
    ensures Walked(b, w, t, depth).scanned == w.scanned + ScanCount(t)
    decreases Weight(t)
  {
    if t != [] {
      var next := w.(scanned := w.scanned + 1);
      var below := Walked(b, next, Below(t[0]), depth + 1);
      var visited := Visited(next, t[0], depth, below);
      WalkOnlyAdds(b, next, Below(t[0]), depth + 1);
      WalkOnlyAdds(b, visited, t[1..], depth);
      assert visited.complete;
      if Supported(t[0]) {
        CompleteWalkIsClean(b, next, Below(t[0]), depth + 1);
      }
      CompleteWalkIsClean(b, visited, t[1..], depth);
    }
  }

  /** A folder size is a lower bound, and exact when complete; it is complete exactly for clean trees in time. */
  lemma WalkIsExact(b: Budget, t: Tree, depth: nat)
    ensures
      var r := Walked(b, START, t, depth);
      && r.bytes <= SatAdd(0, TrueSize(t))
      && (r.complete ==> r.bytes == SatAdd(0, TrueSize(t)))
      && (r.complete <==> Clean(t, depth) && InTime(b, 0, ScanCount(t)))
  {
    WalkOnlyAdds(b, START, t, depth);
    if Walked(b, START, t, depth).complete {
      CompleteWalkIsClean(b, START, t, depth);
    }
    if Clean(t, depth) && InTime(b, 0, ScanCount(t)) {
      CleanWalkCompletes(b, START, t, depth);
    }
  }
}
