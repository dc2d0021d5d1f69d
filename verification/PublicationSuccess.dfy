/**
 Requests that nothing disturbs succeed (src/filesystem.rs): if the names hold what the request
 expects, none of its calls fails, and nobody else changes its names, it reports success after exactly
 the calls that its code makes, whatever other requests do in between.
 */
module PublicationSuccess {
  import opened Common
  import opened Publication
  import opened PublicationInvariant
  import opened PublicationSafety

  /** What a request needs its names to hold before it changes them. */
  ghost predicate IsWanted(op: Op, slot: Slot, expected: Node, visible: Visible) {
    match op
    case New => slot !in visible
    case Tree => slot !in visible
    case Replace => slot in visible && Matches(visible[slot], expected) && visible[slot].kind == File
    case Delete => slot in visible && Matches(visible[slot], expected)
    case Move(to) => slot in visible && Matches(visible[slot], expected) && slot != to && to !in visible
  }

  /** What its names hold once it has succeeded. */
  ghost predicate IsDone(op: Op, slot: Slot, own: Node, before: Visible, after: Visible) {
    match op
    case New => slot in after && after[slot] == own
    case Tree => slot in after && after[slot] == own
    case Replace => slot in after && after[slot] == own
    case Delete => slot !in after
    case Move(to) => slot in before && slot !in after && to in after && after[to] == before[slot]
  }

  /** How many calls a request makes that succeeds. */
  function Calls(op: Op): nat {
    match op case New => 3 case Tree => 2 case Replace => 5 case Delete => 4 case Move(_) => 3
  }

  /** How many of them it has made. */
  function Turn(op: Op, pc: Pc): nat {
    match pc
    case Start => 0
    case Checked => 1
    case Armed => 2
    case Renamed => if op.Replace? then 3 else 2
    case Removing => if op.Replace? then 4 else 3
    case _ => 5
  }

  /** A directory to be deleted has nothing in it. */
  ghost predicate IsEmptied(op: Op, expected: Node, visible: Visible) {
    op.Delete? && expected.kind.Directory? ==> forall s :: s in visible ==> s.dir != expected.id
  }

  /** The request is on its way to success: its names are as it wants them, or as it left them. */
  ghost predicate OnTrack(w: World, q: Request, before: Visible) {
    match q.pc
    case Start => View(w.visible, Slots(q)) == before && IsWanted(q.op, q.slot, q.expected, before)
    case Checked => View(w.visible, Slots(q)) == before && IsWanted(q.op, q.slot, q.expected, before)
    case Armed => View(w.visible, Slots(q)) == before && IsWanted(q.op, q.slot, q.expected, before)
    case Renamed => q.before == before && IsWanted(q.op, q.slot, q.expected, before) && (q.op.New? ==> IsDone(New, q.slot, q.own, before, w.visible))
    case Removing => q.before == before && IsWanted(q.op, q.slot, q.expected, before)
    case _ => false
  }

  /** One successful call brings a request one turn further, or ends it with success. */
  ghost predicate MovesOn(w: World, v: World, r: nat, before: Visible)
    requires r in w.requests
  {
    var q := w.requests[r];
    if Turn(q.op, q.pc) + 1 < Calls(q.op) then
      r in v.requests && IsSame(v.requests[r], q) && OnTrack(v, v.requests[r], before)
      && Turn(q.op, v.requests[r].pc) == Turn(q.op, q.pc) + 1
    else
      && |v.outcomes| == |w.outcomes| + 1 && v.outcomes[|w.outcomes|].result == Ok
      && IsSame(v.outcomes[|w.outcomes|].request, q) && IsDone(q.op, q.slot, q.own, before, v.visible)
  }

  lemma ViewOfOne(visible: Visible, q: Request, before: Visible)
    requires View(visible, Slots(q)) == before
    ensures q.slot in visible <==> q.slot in before
    ensures q.slot in before ==> before[q.slot] == visible[q.slot]
    ensures q.op.Move? ==> (q.op.to in visible <==> q.op.to in before)
  {
    assert q.slot in Slots(q) && (q.op.Move? ==> q.op.to in Slots(q));
  }

  lemma NewMovesOn(w: World, r: nat, io: Io, before: Visible)
    requires r in w.requests && w.requests[r].op.New? && Placed(w, w.requests[r]) && io.ok
    requires OnTrack(w, w.requests[r], before)
    ensures MovesOn(w, ActNew(w, r, io), r, before)
  {
    ViewIfBefore(w, w.requests[r], before);
  }

  /** Before its window, the names are what the request found. */
  lemma ViewIfBefore(w: World, q: Request, before: Visible)
    requires OnTrack(w, q, before)
    ensures !InWindow(q.pc) ==>
      && (q.slot in w.visible <==> q.slot in before) && (q.slot in before ==> before[q.slot] == w.visible[q.slot])
      && (q.op.Move? ==> (q.op.to in w.visible <==> q.op.to in before))
  {
    if !InWindow(q.pc) {
      ViewOfOne(w.visible, q, before);
    }
  }

  lemma TreeMovesOn(w: World, r: nat, io: Io, before: Visible)
    requires r in w.requests && w.requests[r].op.Tree? && Placed(w, w.requests[r]) && io.ok
    requires OnTrack(w, w.requests[r], before)
    ensures MovesOn(w, ActTree(w, r, io), r, before)
  {
    ViewIfBefore(w, w.requests[r], before);
  }

  lemma ReplaceMovesOn(w: World, r: nat, io: Io, name: string, before: Visible)
    requires r in w.requests && w.requests[r].op.Replace? && Placed(w, w.requests[r]) && io.ok
    requires OnTrack(w, w.requests[r], before) && (w.requests[r].pc.Checked? ==> name !in w.staging)
    ensures MovesOn(w, ActReplace(w, r, io, name), r, before)
  {
    ViewIfBefore(w, w.requests[r], before);
  }

  lemma DeleteMovesOn(w: World, r: nat, io: Io, name: string, before: Visible)
    requires r in w.requests && w.requests[r].op.Delete? && Placed(w, w.requests[r]) && io.ok
    requires OnTrack(w, w.requests[r], before) && (w.requests[r].pc.Checked? ==> name !in w.staging)
    requires IsEmptied(Delete, w.requests[r].expected, w.visible)
    ensures MovesOn(w, ActDelete(w, r, io, name), r, before)
  {
    ViewIfBefore(w, w.requests[r], before);
  }

  lemma MoveMovesOn(w: World, r: nat, io: Io, before: Visible)
    requires r in w.requests && w.requests[r].op.Move? && Placed(w, w.requests[r]) && io.ok
    requires OnTrack(w, w.requests[r], before)
    ensures MovesOn(w, ActMove(w, r, io), r, before)
  {
    ViewIfBefore(w, w.requests[r], before);
  }

  lemma OwnCallMovesOn(w: World, r: nat, io: Io, name: string, before: Visible)
    requires w in Sound() && r in w.requests && io.ok && OnTrack(w, w.requests[r], before)
    requires ChoosesName(w.requests[r]) ==> name !in w.staging
    requires IsEmptied(w.requests[r].op, w.requests[r].expected, w.visible)
    ensures MovesOn(w, Act(w, r, io, name), r, before)
  {
    assert Placed(w, w.requests[r]);
    match w.requests[r].op
    case New => NewMovesOn(w, r, io, before);
    case Tree => TreeMovesOn(w, r, io, before);
    case Replace => ReplaceMovesOn(w, r, io, name, before);
    case Delete => DeleteMovesOn(w, r, io, name, before);
    case Move(_) => MoveMovesOn(w, r, io, before);
  }

  // ---- whole requests ----

  /** The request as step `b` begins it. */
  function Begun(step: Step): Request
    requires step.BeginStaged? || step.BeginDirect?
  {
    match step
    case BeginStaged(_, op, slot, expected, own, temp) => Request(op, slot, expected, own, temp, Start, map[])
    case BeginDirect(_, op, slot, expected) => Request(op, slot, expected, expected, "", Start, map[])
  }

  /** Step `b` begins request `r`, whose names hold what it expects. */
  ghost predicate Begins(trace: seq<World>, steps: seq<Step>, b: nat, r: nat) {
    && IsRun(trace, steps) && Initial(trace[0]) && b < |steps|
    && (steps[b].BeginStaged? || steps[b].BeginDirect?) && steps[b].r == r
    && IsWanted(steps[b].op, steps[b].slot, steps[b].expected, trace[b].visible)
  }

  /** Step `i` is a call of the request that does not fail, or a step of somebody else's that leaves its
      names as they are; and no directory it deletes gets something in it. */
  ghost predicate IsQuietFor(trace: seq<World>, steps: seq<Step>, i: nat, r: nat, q0: Request)
    requires i < |steps| < |trace|
  {
    && IsEmptied(q0.op, q0.expected, trace[i].visible)
    && !steps[i].Crash? && !(steps[i].Cancel? && steps[i].r == r)
    && if steps[i].Call? && steps[i].r == r then
         steps[i].io.ok && (r in trace[i].requests && ChoosesName(trace[i].requests[r]) ==> steps[i].name !in trace[i].staging)
       else View(trace[i + 1].visible, Slots(q0)) == View(trace[i].visible, Slots(q0))
  }

  ghost predicate IsQuietUntil(trace: seq<World>, steps: seq<Step>, b: nat, k: nat, r: nat, q0: Request)
    requires b < k <= |steps| < |trace|
  {
    forall i :: b < i < k ==> IsQuietFor(trace, steps, i, r, q0)
  }

  /** The request has made so many successful calls and is on its way. */
  ghost predicate IsOnTrack(w: World, r: nat, q0: Request, before: Visible, made: nat) {
    && r in w.requests && IsSame(w.requests[r], q0) && OnTrack(w, w.requests[r], before)
    && Turn(q0.op, w.requests[r].pc) == made
  }

  lemma WantedInView(visible: Visible, q: Request)
    requires IsWanted(q.op, q.slot, q.expected, visible)
    ensures IsWanted(q.op, q.slot, q.expected, View(visible, Slots(q)))
  {
    ViewOfOne(visible, q, View(visible, Slots(q)));
  }

  lemma TrackBegins(w: World, step: Step, q0: Request)
    requires (step.BeginStaged? || step.BeginDirect?) && q0 == Begun(step)
    requires IsWanted(q0.op, q0.slot, q0.expected, w.visible)
    ensures IsOnTrack(Next(w, step), step.r, q0, View(w.visible, Slots(q0)), 0) == true
  {
    WantedInView(w.visible, q0);
  }

  /** Somebody else's step leaves the request where it is. */
  lemma OthersKeepTrack(w: World, step: Step, r: nat, q0: Request, before: Visible, made: nat)
    requires step in Moves(w) && IsOnTrack(w, r, q0, before, made) == true
    requires !step.Crash? && !((step.Call? || step.Cancel?) && step.r == r)
    requires View(Next(w, step).visible, Slots(q0)) == View(w.visible, Slots(q0))
    ensures IsOnTrack(Next(w, step), r, q0, before, made) == true
  {
    OthersKeepRequest(w, step, r);
    SameView(w, Next(w, step), w.requests[r], before);
  }

  lemma OthersKeepRequest(w: World, step: Step, r: nat)
    requires step in Moves(w) && r in w.requests
    requires !step.Crash? && !((step.Call? || step.Cancel?) && step.r == r)
    ensures r in Next(w, step).requests && Next(w, step).requests[r] == w.requests[r]
  {
    if step.Call? {
      ActKeepsOthers(w, step.r, step.io, step.name, r);
    }
  }

  lemma SameView(w: World, v: World, q: Request, before: Visible)
    requires OnTrack(w, q, before) == true && View(v.visible, Slots(q)) == View(w.visible, Slots(q))
    ensures OnTrack(v, q, before) == true
  {
    ViewOfOne(v.visible, q, View(v.visible, Slots(q)));
    ViewOfOne(w.visible, q, View(w.visible, Slots(q)));
  }

  lemma OwnKeepsTrack(w: World, r: nat, io: Io, name: string, q0: Request, before: Visible, made: nat)
    requires w in Sound() && IsOnTrack(w, r, q0, before, made) == true && io.ok && made + 1 < Calls(q0.op)
    requires (ChoosesName(w.requests[r]) ==> name !in w.staging) && IsEmptied(q0.op, q0.expected, w.visible)
    ensures IsOnTrack(Act(w, r, io, name), r, q0, before, made + 1) == true
  {
    OwnCallMovesOn(w, r, io, name, before);
  }

  lemma TrackGoesOn(trace: seq<World>, steps: seq<Step>, n: nat, m: nat, r: nat, q0: Request, before: Visible, made: nat, after: nat)
    requires IsRun(trace, steps) == true && Initial(trace[0]) == true && n < |steps| && m == n + 1
    requires IsQuietFor(trace, steps, n, r, q0) == true && IsOnTrack(trace[n], r, q0, before, made) == true
    requires after == made + |Made(steps[n], r)| < Calls(q0.op)
    ensures IsOnTrack(trace[m], r, q0, before, after) == true
  {
    RunStep(trace, steps, n);
    if steps[n].Call? && steps[n].r == r {
      OwnKeepsTrack(trace[n], r, steps[n].io, steps[n].name, q0, before, made);
    } else {
      OthersKeepTrack(trace[n], steps[n], r, q0, before, made);
    }
  }

  lemma FirstOnTrack(trace: seq<World>, steps: seq<Step>, b: nat, r: nat, q0: Request)
    requires Begins(trace, steps, b, r) == true && q0 == Begun(steps[b])
    ensures IsOnTrack(trace[b + 1], r, q0, View(trace[b].visible, Slots(q0)), 0) == true
  {
    RunStep(trace, steps, b);
    TrackBegins(trace[b], steps[b], q0);
  }

  /** The request has not made its last call by `k`, and nothing has disturbed it. */
  ghost predicate IsUnderWay(trace: seq<World>, steps: seq<Step>, b: nat, k: nat, r: nat, q0: Request) {
    && IsRun(trace, steps) && Initial(trace[0]) && b < k <= |steps|
    && IsQuietUntil(trace, steps, b, k, r, q0) && |CallsOf(steps, b + 1, k, r)| < Calls(q0.op)
  }

  /** At `n` it has made the calls so far and is on its way. */
  ghost predicate IsOnTrackAt(trace: seq<World>, steps: seq<Step>, b: nat, n: nat, r: nat, q0: Request, before: Visible) {
    n <= |steps| < |trace| && IsOnTrack(trace[n], r, q0, before, |CallsOf(steps, b + 1, n, r)|)
  }

  lemma GoesOnAt(trace: seq<World>, steps: seq<Step>, b: nat, k: nat, r: nat, q0: Request, before: Visible, n: nat, m: nat)
    requires IsUnderWay(trace, steps, b, k, r, q0) == true && b < n < k && m == n + 1
    requires IsOnTrackAt(trace, steps, b, n, r, q0, before) == true
    ensures IsOnTrackAt(trace, steps, b, m, r, q0, before) == true
  {
    CallsSoFar(steps, b + 1, n, m, k, r);
    QuietAt(trace, steps, b, k, r, q0, n);
    TrackGoesOn(trace, steps, n, m, r, q0, before, |CallsOf(steps, b + 1, n, r)|, |CallsOf(steps, b + 1, m, r)|);
  }

  lemma {:induction false} StaysOnTrack(trace: seq<World>, steps: seq<Step>, b: nat, k: nat, r: nat, q0: Request, before: Visible, n: nat)
    requires IsUnderWay(trace, steps, b, k, r, q0) == true && b < n <= k
    requires IsOnTrackAt(trace, steps, b, b + 1, r, q0, before) == true
    ensures IsOnTrackAt(trace, steps, b, n, r, q0, before) == true
    decreases n
  {
    if n > b + 1 {
      StaysOnTrack(trace, steps, b, k, r, q0, before, n - 1);
      GoesOnAt(trace, steps, b, k, r, q0, before, n - 1, n);
    }
  }

  lemma QuietAt(trace: seq<World>, steps: seq<Step>, b: nat, k: nat, r: nat, q0: Request, n: nat)
    requires b < n < k <= |steps| < |trace| && IsQuietUntil(trace, steps, b, k, r, q0) == true
    ensures IsQuietFor(trace, steps, n, r, q0) == true
  {
  }

  lemma CallsSoFar(steps: seq<Step>, b: nat, n: nat, m: nat, k: nat, r: nat)
    requires b <= n < k <= |steps| && m == n + 1
    ensures |CallsOf(steps, b, m, r)| == |CallsOf(steps, b, n, r)| + |Made(steps[n], r)| <= |CallsOf(steps, b, k, r)|
  {
    FewerCalls(steps, b, m, k, r);
  }

  lemma {:induction false} FewerCalls(steps: seq<Step>, b: nat, n: nat, k: nat, r: nat)
    requires n <= k <= |steps|
    ensures |CallsOf(steps, b, n, r)| <= |CallsOf(steps, b, k, r)|
    decreases k
  {
    if n < k {
      FewerCalls(steps, b, n, k - 1, r);
    }
  }

  /**
   If a request's names hold what it expects when it begins, and until its last call none of its calls
   fails, its staging name is unused, and nobody else changes its names, then that call, the third of
   a new file or a move, the second of a tree, the fifth of a replacement, the fourth of a deletion,
   reports success, and the names are as they should be.
   */
  lemma UndisturbedSucceeds(trace: seq<World>, steps: seq<Step>, b: nat, k: nat, r: nat, q0: Request)
    requires Begins(trace, steps, b, r) && q0 == Begun(steps[b])
    requires b < k < |steps| && IsQuietUntil(trace, steps, b, k + 1, r, q0)
    requires steps[k].Call? && steps[k].r == r && |CallsOf(steps, b + 1, k, r)| == Calls(q0.op) - 1
    ensures |trace[k + 1].outcomes| == |trace[k].outcomes| + 1
    ensures
      var o := trace[k + 1].outcomes[|trace[k].outcomes|];
      && o.result == Ok && IsSame(o.request, q0)
      && IsDone(q0.op, q0.slot, q0.own, View(trace[b].visible, Slots(q0)), trace[k + 1].visible)
  {
    var before := View(trace[b].visible, Slots(q0));
    FirstOnTrack(trace, steps, b, r, q0);
    assert IsQuietUntil(trace, steps, b, k, r, q0);
    StaysOnTrack(trace, steps, b, k, r, q0, before, k);
    QuietAt(trace, steps, b, k + 1, r, q0, k);
    LastCall(trace, steps, k, r, q0, before);
  }

  lemma LastCall(trace: seq<World>, steps: seq<Step>, k: nat, r: nat, q0: Request, before: Visible)
    requires IsRun(trace, steps) && Initial(trace[0]) && k < |steps| && IsQuietFor(trace, steps, k, r, q0) == true
    requires steps[k].Call? && steps[k].r == r && IsOnTrack(trace[k], r, q0, before, Calls(q0.op) - 1) == true
    ensures |trace[k + 1].outcomes| == |trace[k].outcomes| + 1
    ensures
      var o := trace[k + 1].outcomes[|trace[k].outcomes|];
      o.result == Ok && IsSame(o.request, q0) && IsDone(q0.op, q0.slot, q0.own, before, trace[k + 1].visible)
  {
    RunStep(trace, steps, k);
    OwnCallMovesOn(trace[k], r, steps[k].io, steps[k].name, before);
  }

  // ---- leftovers ----

  lemma ActKeepsRequest(w: World, r: nat, io: Io, name: string)
    requires r in w.requests && r in Act(w, r, io, name).requests
    ensures IsSame(Act(w, r, io, name).requests[r], w.requests[r])
  {
    assert Touches(w.requests, Act(w, r, io, name).requests, r);
  }

  lemma StepKeepsRequest(w: World, step: Step, r: nat)
    requires step in Moves(w) && r in w.requests && r in Next(w, step).requests
    ensures IsSame(Next(w, step).requests[r], w.requests[r])
  {
    if step.Call? {
      if step.r == r {
        ActKeepsRequest(w, r, step.io, step.name);
      } else {
        ActKeepsOthers(w, step.r, step.io, step.name, r);
      }
    }
  }

  /** Step `b` begins a staged request, which is still there at `k`. */
  ghost predicate StaysUntil(trace: seq<World>, steps: seq<Step>, b: nat, k: nat, r: nat) {
    && IsRun(trace, steps) && Initial(trace[0]) && b < k <= |steps| && steps[b].BeginStaged? && steps[b].r == r
    && forall i :: b < i <= k ==> r in trace[i].requests
  }

  lemma RequestStaysOn(trace: seq<World>, steps: seq<Step>, b: nat, k: nat, r: nat, n: nat)
    requires StaysUntil(trace, steps, b, k, r) == true && b < n - 1 && n <= k && IsSame(trace[n - 1].requests[r], Begun(steps[b])) == true
    ensures IsSame(trace[n].requests[r], Begun(steps[b])) == true
  {
    RunStep(trace, steps, n - 1);
    StepKeepsRequest(trace[n - 1], steps[n - 1], r);
  }

  lemma RequestIsBegun(trace: seq<World>, steps: seq<Step>, b: nat, k: nat, r: nat, n: nat)
    requires StaysUntil(trace, steps, b, k, r) == true && n == b + 1
    ensures IsSame(trace[n].requests[r], Begun(steps[b])) == true
  {
    RunStep(trace, steps, b);
  }

  lemma {:induction false} RequestStays(trace: seq<World>, steps: seq<Step>, b: nat, k: nat, r: nat, n: nat)
    requires StaysUntil(trace, steps, b, k, r) == true && b < n <= k
    ensures IsSame(trace[n].requests[r], Begun(steps[b])) == true
    decreases n
  {
    if n == b + 1 {
      RequestIsBegun(trace, steps, b, k, r, n);
    } else {
      RequestStays(trace, steps, b, k, r, n - 1);
      RequestStaysOn(trace, steps, b, k, r, n);
    }
  }

  /** What a crash leaves of a request that has not yet renamed its staged node, startup recovery removes. */
  lemma LeftoverIsRemoved(trace: seq<World>, steps: seq<Step>, b: nat, k: nat, r: nat)
    requires StaysUntil(trace, steps, b, k, r) && (trace[k].requests[r].pc.Start? || trace[k].requests[r].pc.Checked?)
    ensures
      var temp, v := trace[k].requests[r].temp, Next(trace[k], Crash);
      && temp in v.staging && v.staging[temp] == steps[b].own
      && Recover(temp) in Moves(v) && temp !in Next(v, Recover(temp)).staging
  {
    RunStep(trace, steps, b);
    RunInv(trace, steps, k);
    RequestStays(trace, steps, b, k, r, k);
    StagedIsRecoverable(trace[k], trace[k].requests[r], steps[b].own);
  }

  lemma StagedIsRecoverable(w: World, q: Request, own: Node)
    requires Placed(w, q) && Guarded(q.op) && (q.pc.Start? || q.pc.Checked?) && q.own == own
    requires own.kind == if q.op.Tree? then Directory else File
    ensures q.temp in w.staging && w.staging[q.temp] == own && IsRecoverable(q.temp, own)
  {
    assert q.temp[7] == (if q.op.Tree? then TREE_PREFIX else TEMP_PREFIX)[7];
    assert DELETE_PREFIX[7] == 'd' && REPLACE_PREFIX[7] == 'r' && TREE_PREFIX[7] == 'a' && TEMP_PREFIX[7] == 't';
  }

  /** What an earlier version or a deleted entry is kept under, recovery never removes. */
  lemma RetainedIsKept(w: World, name: string)
    requires IsRetained(name)
    ensures Recover(name) !in Moves(w)
  {
  }
}
