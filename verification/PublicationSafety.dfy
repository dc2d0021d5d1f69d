/**
 What every run of the publication machine keeps: no user's entry is unlinked unless it is
 the expected version, displaced entries stay under names that recovery retains, and a
 failing request leaves the visible tree as it found it. `publish_new` is the exception to
 both, and it is said exactly when.
 */
module PublicationSafety {
  import opened Common
  import opened Publication
  import opened PublicationInvariant

  // ---- the name of a new file ----

  /** The request is publishing a new file, and the rename has happened. */
  predicate InNewWindow(w: World, r: nat) {
    r in w.requests && w.requests[r].op.New? && InWindow(w.requests[r].pc)
  }

  /** Its name does not hold the published file. */
  ghost predicate Disturbed(w: World, r: nat)
    requires InNewWindow(w, r)
  {
    Held(w, w.requests[r].slot) != Some(w.requests[r].own)
  }

  lemma NewFrame(w: World, t: nat, io: Io, s: Slot)
    requires t in w.requests && s != w.requests[t].slot
    ensures Held(ActNew(w, t, io), s) == Held(w, s)
  {
  }

  lemma TreeFrame(w: World, t: nat, io: Io, s: Slot)
    requires t in w.requests && s != w.requests[t].slot
    ensures Held(ActTree(w, t, io), s) == Held(w, s)
  {
  }

  lemma ReplaceFrame(w: World, t: nat, io: Io, name: string, s: Slot)
    requires t in w.requests && s != w.requests[t].slot
    ensures Held(ActReplace(w, t, io, name), s) == Held(w, s)
  {
  }

  lemma DeleteFrame(w: World, t: nat, io: Io, name: string, s: Slot)
    requires t in w.requests && s != w.requests[t].slot
    ensures Held(ActDelete(w, t, io, name), s) == Held(w, s)
  {
  }

  lemma MoveFrame(w: World, t: nat, io: Io, s: Slot)
    requires t in w.requests && w.requests[t].op.Move? && s != w.requests[t].slot && s != w.requests[t].op.to
    ensures Held(ActMove(w, t, io), s) == Held(w, s)
  {
  }

  /** A call leaves all names but its request's own. */
  lemma ActFrame(w: World, t: nat, io: Io, name: string, s: Slot)
    requires t in w.requests && s !in Slots(w.requests[t])
    ensures Held(Act(w, t, io, name), s) == Held(w, s)
  {
    match w.requests[t].op
    case New => NewFrame(w, t, io, s);
    case Tree => TreeFrame(w, t, io, s);
    case Replace => ReplaceFrame(w, t, io, name, s);
    case Delete => DeleteFrame(w, t, io, name, s);
    case Move(_) => MoveFrame(w, t, io, s);
  }

  /** A call that fails before the window has changed no name. */
  lemma EarlyFailuresChangeNothing(w: World, r: nat, io: Io, name: string)
    requires r in w.requests && !InWindow(w.requests[r].pc) && w.outcomes < Act(w, r, io, name).outcomes
    requires Act(w, r, io, name).outcomes[|w.outcomes|].result.Err?
    ensures Act(w, r, io, name).visible == w.visible
  {
    if EntersWindow(w.requests[r]) {
      EarlyFailureAtTheDoor(w, r, io, name);
    }
  }

  lemma EarlyFailureAtTheDoor(w: World, r: nat, io: Io, name: string)
    requires r in w.requests && EntersWindow(w.requests[r]) && w.outcomes < Act(w, r, io, name).outcomes
    requires Act(w, r, io, name).outcomes[|w.outcomes|].result.Err?
    ensures Act(w, r, io, name).visible == w.visible
  {
    match w.requests[r].op
    case New => assert Act(w, r, io, name) == Conclude(w, r, Err(io.error), false);
    case Tree =>
    case Replace => assert Act(w, r, io, name) == Conclude(w, r, Err(io.error), false);
    case Delete => assert Act(w, r, io, name) == Conclude(w, r, Err(io.error), false);
    case Move(_) => assert Act(w, r, io, name) == Conclude(w, r, Err(io.error), false);
  }

  /** Another request's call leaves the name of a new file. */
  lemma NewSlotStaysUnderCall(w: World, t: nat, io: Io, name: string, r: nat)
    requires w in Sound() && Call(t, io, name) in Moves(w) && InNewWindow(w, r) && t != r
    ensures Held(Act(w, t, io, name), w.requests[r].slot) == Held(w, w.requests[r].slot)
  {
    assert Unlocked(w, r, Slots(w.requests[r]));
    if InWindow(w.requests[t].pc) || EntersWindow(w.requests[t]) {
      ActFrame(w, t, io, name, w.requests[r].slot);
    }
  }

  /** A call changes no request but its own. */
  lemma ActKeepsOthers(w: World, t: nat, io: Io, name: string, r: nat)
    requires t in w.requests && t != r
    ensures r in Act(w, t, io, name).requests <==> r in w.requests
    ensures r in w.requests ==> Act(w, t, io, name).requests[r] == w.requests[r]
  {
    assert Touches(w.requests, Act(w, t, io, name).requests, t);
  }

  /** A request that is in its window after its own call and whose file is not in place was there
      before, and the call changed nothing. */
  lemma OwnCallInNewWindow(w: World, io: Io, r: nat)
    requires w in Sound() && r in w.requests && w.requests[r].op.New? && !w.requests[r].pc.Cleaning?
    requires InNewWindow(ActNew(w, r, io), r) && Disturbed(ActNew(w, r, io), r)
    ensures w.requests[r].pc.Renamed? && ActNew(w, r, io) == Goto(w, r, Undoing(Conflict))
  {
    assert Placed(w, w.requests[r]);
    if w.requests[r].pc.Checked? {
      JustRenamedIsInPlace(w, io, r);
    }
  }

  /** Right after its rename, a new file is in place. */
  lemma JustRenamedIsInPlace(w: World, io: Io, r: nat)
    requires r in w.requests && w.requests[r].op.New? && w.requests[r].pc.Checked? && Placed(w, w.requests[r])
    ensures InNewWindow(ActNew(w, r, io), r) ==> !Disturbed(ActNew(w, r, io), r)
  {
  }

  lemma InWindowIsNotCleaned(w: World, r: nat, io: Io, name: string)
    requires r in w.requests && InNewWindow(Act(w, r, io, name), r)
    ensures w.requests[r].op.New? && !w.requests[r].pc.Cleaning? && Act(w, r, io, name) == ActNew(w, r, io)
  {
    assert w.requests[r].pc.Cleaning? ==> Act(w, r, io, name) == Clean(w, r, io);
  }

  /** Only another process puts something else at the name of a new file. */
  lemma NewSlotStays(w: World, step: Step, r: nat)
    requires w in Sound() && step in Moves(w) && InNewWindow(Next(w, step), r) && Disturbed(Next(w, step), r)
    ensures InNewWindow(w, r)
    ensures var q, q' := w.requests[r], Next(w, step).requests[r]; q'.slot == q.slot && q'.own == q.own
    ensures !step.Environment? ==> Held(Next(w, step), w.requests[r].slot) == Held(w, w.requests[r].slot)
  {
    if step.Call? {
      if step.r == r {
        InWindowIsNotCleaned(w, r, step.io, step.name);
        OwnCallInNewWindow(w, step.io, r);
      } else {
        ActKeepsOthers(w, step.r, step.io, step.name, r);
        NewSlotStaysUnderCall(w, step.r, step.io, step.name, r);
      }
    }
  }

  /** Step `e` is another process putting there what the name of `r`'s new file holds at `k`. */
  ghost predicate PutInPlace(trace: seq<World>, steps: seq<Step>, e: nat, k: nat, r: nat)
    requires |trace| == |steps| + 1 && k < |trace| && InNewWindow(trace[k], r)
  {
    var s := trace[k].requests[r].slot;
    && e < k && steps[e].Environment? && InNewWindow(trace[e], r) && trace[e].requests[r].slot == s
    && Held(trace[e], s) != Held(trace[e + 1], s) == Held(trace[k], s)
  }

  lemma NewSlotStaysInRun(trace: seq<World>, steps: seq<Step>, k: nat, r: nat)
    requires IsRun(trace, steps) && Initial(trace[0]) && k < |steps| && InNewWindow(trace[k + 1], r) && Disturbed(trace[k + 1], r)
    ensures InNewWindow(trace[k], r)
    ensures trace[k + 1].requests[r].slot == trace[k].requests[r].slot && trace[k + 1].requests[r].own == trace[k].requests[r].own
    ensures !steps[k].Environment? ==> Held(trace[k + 1], trace[k].requests[r].slot) == Held(trace[k], trace[k].requests[r].slot)
  {
    RunStep(trace, steps, k);
    NewSlotStays(trace[k], steps[k], r);
  }

  lemma {:induction false} SomebodyDisturbed(trace: seq<World>, steps: seq<Step>, k: nat, r: nat) returns (e: nat)
    requires IsRun(trace, steps) && Initial(trace[0]) && k < |trace| && InNewWindow(trace[k], r) && Disturbed(trace[k], r)
    ensures PutInPlace(trace, steps, e, k, r)
  {
    NewSlotStaysInRun(trace, steps, k - 1, r);
    var slot := trace[k].requests[r].slot;
    if Held(trace[k - 1], slot) == Held(trace[k], slot) {
      e := SomebodyDisturbed(trace, steps, k - 1, r);
    } else {
      e := k - 1;
    }
  }

  /** Another process leaves the files just published alone. */
  ghost predicate Quiet(w: World, step: Step) {
    step.Environment? ==>
      forall r :: InNewWindow(w, r) ==> Held(w.(visible := step.visible), w.requests[r].slot) == Held(w, w.requests[r].slot)
  }

  ghost predicate QuietUntil(trace: seq<World>, steps: seq<Step>, k: nat)
    requires |trace| == |steps| + 1 && k < |trace|
  {
    forall i :: 0 <= i < k ==> Quiet(trace[i], steps[i])
  }

  lemma PutInPlaceIsNotQuiet(trace: seq<World>, steps: seq<Step>, e: nat, k: nat, r: nat)
    requires IsRun(trace, steps) && k < |trace| && InNewWindow(trace[k], r) && PutInPlace(trace, steps, e, k, r)
    ensures !Quiet(trace[e], steps[e])
  {
    assert StepAt(trace, steps, e);
    assert trace[e + 1] == trace[e].(visible := steps[e].visible);
  }

  lemma QuietIsUndisturbed(trace: seq<World>, steps: seq<Step>, k: nat, r: nat)
    requires IsRun(trace, steps) && Initial(trace[0]) && k < |trace| && InNewWindow(trace[k], r)
    requires QuietUntil(trace, steps, k)
    ensures !Disturbed(trace[k], r)
  {
    if Disturbed(trace[k], r) {
      var e := SomebodyDisturbed(trace, steps, k, r);
      PutInPlaceIsNotQuiet(trace, steps, e, k, r);
    }
  }

  /** What a call unlinks. */
  function NewUnlinks(w: World, v: World): seq<Unlink>
    requires w.unlinked <= v.unlinked
  {
    v.unlinked[|w.unlinked|..]
  }

  /** The call removes a file that is not its request's own. */
  ghost predicate RemovesAnothers(w: World, step: Step) {
    && step.Call? && step.io.ok && InNewWindow(w, step.r) && w.requests[step.r].pc.Undoing? && Disturbed(w, step.r)
    && w.requests[step.r].slot in w.visible && w.visible[w.requests[step.r].slot].kind.File?
  }

  lemma NewMistakenStep(w: World, r: nat, io: Io, name: string)
    requires w in Sound() && r in w.requests && w.requests[r].op.New? && !w.requests[r].pc.Cleaning?
    ensures (exists u :: u in NewUnlinks(w, ActNew(w, r, io)) && Mistaken(u)) <==> RemovesAnothers(w, Call(r, io, name))
  {
    var q := w.requests[r];
    var more := NewUnlinks(w, ActNew(w, r, io));
    if q.pc.Undoing? && io.ok && q.slot in w.visible && w.visible[q.slot].kind.File? {
      assert more == [Unlink(w.visible[q.slot], ByRequest(q))];
      assert more[0] in more;
    } else {
      assert more == [];
    }
  }

  /** A call records its own unlinking, if any. */
  ghost predicate UnlinksAs(w: World, v: World, q: Request)
    requires w.unlinked <= v.unlinked
  {
    forall u :: u in NewUnlinks(w, v) ==> u.actor == ByRequest(q)
  }

  lemma ReplaceUnlinks(w: World, r: nat, io: Io, name: string)
    requires r in w.requests
    ensures UnlinksAs(w, ActReplace(w, r, io, name), w.requests[r])
  {
  }

  lemma DeleteUnlinks(w: World, r: nat, io: Io, name: string)
    requires r in w.requests
    ensures UnlinksAs(w, ActDelete(w, r, io, name), w.requests[r])
  {
  }

  lemma OtherCallsAreNotMistaken(w: World, r: nat, io: Io, name: string)
    requires r in w.requests && (!w.requests[r].op.New? || w.requests[r].pc.Cleaning?)
    ensures forall u :: u in NewUnlinks(w, Act(w, r, io, name)) ==> !Mistaken(u)
  {
    var q := w.requests[r];
    if !q.pc.Cleaning? {
      match q.op
      case Replace => ReplaceUnlinks(w, r, io, name);
      case Delete => DeleteUnlinks(w, r, io, name);
      case Tree => assert ActTree(w, r, io).unlinked == w.unlinked;
      case Move(_) => assert ActMove(w, r, io).unlinked == w.unlinked;
    }
  }

  lemma OthersAreNotMistaken(w: World, step: Step)
    requires step in Moves(w)
    requires step.Call? ==> !w.requests[step.r].op.New? || w.requests[step.r].pc.Cleaning?
    ensures w.unlinked <= Next(w, step).unlinked
    ensures forall u :: u in NewUnlinks(w, Next(w, step)) ==> !Mistaken(u)
  {
    if step.Call? {
      OtherCallsAreNotMistaken(w, step.r, step.io, step.name);
    }
  }

  lemma MistakenStep(w: World, step: Step)
    requires w in Sound() && step in Moves(w)
    ensures w.unlinked <= Next(w, step).unlinked
    ensures (exists u :: u in NewUnlinks(w, Next(w, step)) && Mistaken(u)) <==> RemovesAnothers(w, step)
  {
    if step.Call? && w.requests[step.r].op.New? && !w.requests[step.r].pc.Cleaning? {
      NewMistakenStep(w, step.r, step.io, step.name);
    } else {
      OthersAreNotMistaken(w, step);
    }
  }

  /** `publish_new` unlinks a file that is not its own exactly when it withdraws, the removal works
      on a file, and another process has put that file at the name since the rename. */
  lemma UnlinksAnothersFileIff(trace: seq<World>, steps: seq<Step>, k: nat)
    requires IsRun(trace, steps) && Initial(trace[0]) && k < |steps|
    ensures trace[k].unlinked <= trace[k + 1].unlinked
    ensures (exists u :: u in NewUnlinks(trace[k], trace[k + 1]) && Mistaken(u))
       <==> && steps[k].Call? && steps[k].io.ok
            && InNewWindow(trace[k], steps[k].r) && trace[k].requests[steps[k].r].pc.Undoing?
            && trace[k].requests[steps[k].r].slot in trace[k].visible
            && trace[k].visible[trace[k].requests[steps[k].r].slot].kind.File?
            && trace[k].visible[trace[k].requests[steps[k].r].slot] != trace[k].requests[steps[k].r].own
            && exists e :: PutInPlace(trace, steps, e, k, steps[k].r)
  {
    RunStep(trace, steps, k);
    MistakenStep(trace[k], steps[k]);
    if RemovesAnothers(trace[k], steps[k]) {
      var e := SomebodyDisturbed(trace, steps, k, steps[k].r);
    }
  }

  lemma QuietStepIsNotMistaken(trace: seq<World>, steps: seq<Step>, k: nat)
    requires IsRun(trace, steps) && Initial(trace[0]) && k < |steps| && QuietUntil(trace, steps, k)
    ensures trace[k].unlinked <= trace[k + 1].unlinked
    ensures forall u :: u in NewUnlinks(trace[k], trace[k + 1]) ==> !Mistaken(u)
  {
    RunStep(trace, steps, k);
    MistakenStep(trace[k], steps[k]);
    if steps[k].Call? && InNewWindow(trace[k], steps[k].r) {
      QuietIsUndisturbed(trace, steps, k, steps[k].r);
    }
  }

  lemma {:induction false} QuietIsNotMistaken(trace: seq<World>, steps: seq<Step>, i: nat)
    requires IsRun(trace, steps) && Initial(trace[0]) && i < |trace| && QuietUntil(trace, steps, i)
    ensures forall u :: u in trace[i].unlinked ==> !Mistaken(u)
  {
    if i > 0 {
      QuietIsNotMistaken(trace, steps, i - 1);
      QuietStepIsNotMistaken(trace, steps, i - 1);
      assert trace[i].unlinked == trace[i - 1].unlinked + NewUnlinks(trace[i - 1], trace[i]);
    }
  }

  // ---- what is unlinked, and what is reported ----

  /** In every run, with any failing calls, failed rollbacks, dropped requests, crashes and
      recoveries: whatever was unlinked is a staged node that never reached the user, or the very
      version that a replacement or deletion expected to remove, or the file that `publish_new`
      found in place of its own; and that only if another process put it there. */
  lemma OnlyExpectedVersionsAreUnlinked(trace: seq<World>, steps: seq<Step>, i: nat)
    requires IsRun(trace, steps) && Initial(trace[0]) && i < |trace|
    ensures forall u :: u in trace[i].unlinked ==> AsExpected(u) || Mistaken(u) || Private(trace[i], u.node)
    ensures QuietUntil(trace, steps, i) ==>
      forall u :: u in trace[i].unlinked ==> AsExpected(u) || Private(trace[i], u.node)
  {
    RunInv(trace, steps, i);
    forall u | u in trace[i].unlinked ensures AsExpected(u) || Mistaken(u) || Private(trace[i], u.node) {
      var k :| 0 <= k < |trace[i].unlinked| && trace[i].unlinked[k] == u;
      assert UnlinkAllowed(trace[i], u);
    }
    if QuietUntil(trace, steps, i) {
      QuietIsNotMistaken(trace, steps, i);
    }
  }

  /** In every run, each report tells the truth about its names; in particular a replacement,
      deletion, move or tree publication that fails with anything but Unavailable left them as
      they were. */
  lemma ReportsAreCorrect(trace: seq<World>, steps: seq<Step>, i: nat)
    requires IsRun(trace, steps) && Initial(trace[0]) && i < |trace|
    ensures forall o :: o in trace[i].outcomes ==>
      && OutcomeCorrect(o)
      && (o.result.Err? && o.result.code != Unavailable && !o.request.op.New? ==> o.before == o.after)
  {
    RunInv(trace, steps, i);
    forall o | o in trace[i].outcomes ensures OutcomeCorrect(o) {
      var k :| 0 <= k < |trace[i].outcomes| && trace[i].outcomes[k] == o;
    }
  }

  // ---- a whole call of publish_new ----

  /** The results of the calls that request `r` makes from step `b` on and before step `k`. */
  function CallsOf(steps: seq<Step>, b: nat, k: nat, r: nat): seq<Io>
    requires k <= |steps|
  {
    if k <= b then [] else CallsOf(steps, b, k - 1, r) + Made(steps[k - 1], r)
  }

  /** Step `b` begins a new file, whose request `r` is still there at `k`. */
  ghost predicate NewRunsUntil(trace: seq<World>, steps: seq<Step>, b: nat, k: nat, r: nat) {
    && IsRun(trace, steps) && Initial(trace[0]) && b < k < |trace|
    && steps[b].BeginStaged? && steps[b].op.New? && steps[b].r == r
    && forall i :: b < i <= k ==> r in trace[i].requests
  }

  /** How far the calls made so far have brought a new file. */
  predicate NewProgress(pc: Pc, ios: seq<Io>) {
    match pc
    case Start => ios == []
    case Checked => |ios| == 1 && ios[0].ok
    case Renamed => |ios| == 2 && ios[0].ok && ios[1].ok
    case Undoing(_) => |ios| == 3 && ios[0].ok && ios[1].ok
    case Cleaning => true
    case _ => false
  }

  /** The io of a step, if it is a call of this request. */
  function Made(step: Step, r: nat): seq<Io> {
    if step.Call? && step.r == r then [step.io] else []
  }

  /** What a step does to a new file's request that is still there after it. */
  ghost predicate Progresses(w: World, v: World, step: Step, r: nat, ios: seq<Io>)
    requires r in w.requests && r in v.requests
  {
    var q, q' := w.requests[r], v.requests[r];
    && q.op.New? && q'.op.New? && q'.slot == q.slot && q'.own == q.own && NewProgress(q'.pc, ios + Made(step, r))
    && (q'.pc.Undoing? ==>
          || (q.pc.Undoing? && Made(step, r) == [])
          || (q.pc.Renamed? && step.Call? && Made(step, r) == [step.io] && (step.io.ok ==> Disturbed(w, r))))
  }

  lemma OwnCallProgresses(w: World, r: nat, io: Io, name: string, ios: seq<Io>)
    requires w in Sound() && r in w.requests && w.requests[r].op.New? && !w.requests[r].pc.Cleaning?
    requires r in ActNew(w, r, io).requests && NewProgress(w.requests[r].pc, ios)
    ensures Progresses(w, ActNew(w, r, io), Call(r, io, name), r, ios)
  {
    OwnCallMovesOn(w, r, io);
  }

  lemma OwnCallMovesOn(w: World, r: nat, io: Io)
    requires r in w.requests && w.requests[r].op.New? && !w.requests[r].pc.Cleaning? && !w.requests[r].pc.Armed?
    requires !w.requests[r].pc.Removing? && r in ActNew(w, r, io).requests
    ensures
      var q, q' := w.requests[r], ActNew(w, r, io).requests[r];
      && q'.op.New? && q'.slot == q.slot && q'.own == q.own
      && (match q'.pc
          case Cleaning => true
          case Checked => q.pc.Start? && io.ok
          case Renamed => q.pc.Checked? && io.ok
          case Undoing(_) => q.pc.Renamed? && (io.ok ==> Disturbed(w, r))
          case _ => false)
  {
    var q, q' := w.requests[r], ActNew(w, r, io).requests[r];
    match q.pc
    case Start => assert q' == q.(pc := if io.ok then Checked else Cleaning);
    case Checked => CheckedCallMovesOn(w, r, io);
    case Renamed => assert q' == q.(pc := Cleaning) || q' == q.(pc := Undoing(Conflict));
    case Undoing(_) => assert q' == q.(pc := Cleaning);
  }

  lemma CheckedCallMovesOn(w: World, r: nat, io: Io)
    requires r in w.requests && w.requests[r].op.New? && w.requests[r].pc.Checked? && r in ActNew(w, r, io).requests
    ensures
      var q, q' := w.requests[r], ActNew(w, r, io).requests[r];
      q'.op.New? && q'.slot == q.slot && q'.own == q.own && (q'.pc.Cleaning? || (q'.pc.Renamed? && io.ok))
  {
  }

  lemma OtherStepsKeepRequest(w: World, step: Step, r: nat)
    requires step in Moves(w) && r in w.requests && r in Next(w, step).requests && Made(step, r) == []
    ensures Next(w, step).requests[r] == if step.Cancel? && step.r == r then w.requests[r].(pc := Cleaning) else w.requests[r]
  {
    if step.Call? {
      ActKeepsOthers(w, step.r, step.io, step.name, r);
    }
  }

  /** One step moves a new file on exactly as its own calls do. */
  lemma StepProgresses(w: World, step: Step, r: nat, ios: seq<Io>)
    requires w in Sound() && step in Moves(w) && r in w.requests && r in Next(w, step).requests
    requires w.requests[r].op.New? && NewProgress(w.requests[r].pc, ios)
    ensures Progresses(w, Next(w, step), step, r, ios)
  {
    if Made(step, r) == [] {
      OtherStepsKeepRequest(w, step, r);
      assert ios + [] == ios;
    } else if !w.requests[r].pc.Cleaning? {
      OwnCallProgresses(w, r, step.io, step.name, ios);
    }
  }

  /** At `k` the request `r`, begun at `b`, is where its calls have brought it. */
  ghost predicate HasProgressed(trace: seq<World>, steps: seq<Step>, b: nat, k: nat, r: nat)
    requires |trace| == |steps| + 1 && b < k < |trace| && r in trace[k].requests && steps[b].BeginStaged?
  {
    var q, ios := trace[k].requests[r], CallsOf(steps, b + 1, k, r);
    && q.op.New? && q.slot == steps[b].slot && q.own == steps[b].own && NewProgress(q.pc, ios)
    && (q.pc.Undoing? && QuietUntil(trace, steps, k) ==> !ios[2].ok)
  }

  lemma RunProgresses(trace: seq<World>, steps: seq<Step>, b: nat, k: nat, r: nat, i: nat)
    requires NewRunsUntil(trace, steps, b, k, r) == true && b + 1 < i <= k && HasProgressed(trace, steps, b, i - 1, r) == true
    ensures r in trace[i - 1].requests && r in trace[i].requests
    ensures Progresses(trace[i - 1], trace[i], steps[i - 1], r, CallsOf(steps, b + 1, i - 1, r)) == true
  {
    RunStep(trace, steps, i - 1);
    StepProgresses(trace[i - 1], steps[i - 1], r, CallsOf(steps, b + 1, i - 1, r));
  }

  lemma HasProgressedStep(trace: seq<World>, steps: seq<Step>, b: nat, k: nat, r: nat, i: nat)
    requires NewRunsUntil(trace, steps, b, k, r) == true && b + 1 < i <= k && HasProgressed(trace, steps, b, i - 1, r) == true
    ensures HasProgressed(trace, steps, b, i, r) == true
  {
    RunProgresses(trace, steps, b, k, r, i);
    if QuietUntil(trace, steps, i) && InNewWindow(trace[i - 1], r) {
      QuietIsUndisturbed(trace, steps, i - 1, r);
    }
  }

  lemma ProgressBegins(trace: seq<World>, steps: seq<Step>, b: nat, k: nat, r: nat)
    requires NewRunsUntil(trace, steps, b, k, r) == true
    ensures HasProgressed(trace, steps, b, b + 1, r) == true
  {
    RunStep(trace, steps, b);
  }

  lemma {:induction false} ProgressesUntil(trace: seq<World>, steps: seq<Step>, b: nat, k: nat, r: nat, i: nat)
    requires NewRunsUntil(trace, steps, b, k, r) == true && b < i <= k
    ensures HasProgressed(trace, steps, b, i, r) == true
    decreases i
  {
    if i == b + 1 {
      ProgressBegins(trace, steps, b, k, r);
    } else {
      ProgressesUntil(trace, steps, b, k, r, i - 1);
      HasProgressedStep(trace, steps, b, k, r, i);
    }
  }

  lemma NewProgresses(trace: seq<World>, steps: seq<Step>, b: nat, k: nat, r: nat)
    requires NewRunsUntil(trace, steps, b, k, r)
    ensures HasProgressed(trace, steps, b, k, r)
  {
    ProgressesUntil(trace, steps, b, k, r, k);
  }

  /** The report of a new file: what it says, and when the names then differ from before. */
  lemma NewReportStep(w: World, r: nat, io: Io)
    requires w in Sound() && r in w.requests && w.requests[r].op.New? && !w.requests[r].pc.Cleaning?
    requires w.outcomes < ActNew(w, r, io).outcomes
    ensures
      var q, o := w.requests[r], ActNew(w, r, io).outcomes[|w.outcomes|];
      && o.request.op.New? && o.request.slot == q.slot && o.request.own == q.own
      && (o.result.Err? && o.after != o.before
          <==> q.pc.Undoing? && q.slot in w.visible && !(io.ok && w.visible[q.slot].kind.File?))
  {
    assert Placed(w, w.requests[r]);
    if w.requests[r].pc.Undoing? {
      WithdrawalReport(w, r, io);
    }
  }

  /** A request in its window reports what its names held before it and what they hold now. */
  lemma WindowReport(w: World, r: nat, result: Result)
    requires r in w.requests && InWindow(w.requests[r].pc)
    ensures
      var q := w.requests[r];
      Conclude(w, r, result, false).outcomes
      == w.outcomes + [Outcome(q, result, q.before, View(w.visible, Slots(q)), Lookup(w.staging, q.temp))]
  {
  }

  lemma WithdrawalReport(w: World, r: nat, io: Io)
    requires r in w.requests && w.requests[r].op.New? && w.requests[r].pc.Undoing? && w.requests[r].before == map[]
    ensures
      var q, v := w.requests[r], ActNew(w, r, io);
      && w.outcomes < v.outcomes && v.outcomes[|w.outcomes|].result.Err? && v.outcomes[|w.outcomes|].request == q
      && v.outcomes[|w.outcomes|].before == map[]
      && (v.outcomes[|w.outcomes|].after != map[] <==> q.slot in w.visible && !(io.ok && w.visible[q.slot].kind.File?))
  {
    var q, v := w.requests[r], ActNew(w, r, io);
    NamesLeft(w, r, io);
    OneNameView(v.visible, q);
  }

  lemma OneNameView(visible: Visible, q: Request)
    requires q.op.New?
    ensures View(visible, Slots(q)) != map[] <==> q.slot in visible
  {
    assert q.slot in visible ==> q.slot in View(visible, Slots(q));
  }

  lemma NamesLeft(w: World, r: nat, io: Io)
    requires r in w.requests && w.requests[r].op.New? && w.requests[r].pc.Undoing?
    ensures
      var q, v := w.requests[r], ActNew(w, r, io);
      && (q.slot in v.visible <==> q.slot in w.visible && !(io.ok && w.visible[q.slot].kind.File?))
      && v.outcomes == w.outcomes + [Outcome(q, Err(q.pc.error), q.before, View(v.visible, Slots(q)), Lookup(w.staging, q.temp))]
  {
    var q := w.requests[r];
    if io.ok && q.slot in w.visible && w.visible[q.slot].kind.File? {
      var gone := w.(visible := w.visible - {q.slot},
                     unlinked := w.unlinked + [Unlink(w.visible[q.slot], ByRequest(q))]);
      WindowReport(gone, r, Err(q.pc.error));
    } else {
      var left := if q.slot in w.visible && w.visible[q.slot] == q.own then Publish(w, q.own) else w;
      WindowReport(left, r, Err(q.pc.error));
    }
  }

  /** The request failed, and its names are not what they were. */
  predicate FailedChanged(o: Outcome) {
    o.result.Err? && o.after != o.before
  }

  /** Request `r`, begun at `b`, makes its report at `k`. */
  ghost predicate NewReportsAt(trace: seq<World>, steps: seq<Step>, b: nat, k: nat, r: nat) {
    && NewRunsUntil(trace, steps, b, k, r) && k < |steps| && steps[k].Call? && steps[k].r == r
    && trace[k].outcomes < trace[k + 1].outcomes
  }

  function NewReport(trace: seq<World>, k: nat): Outcome
    requires k + 1 < |trace| && trace[k].outcomes < trace[k + 1].outcomes
  {
    trace[k + 1].outcomes[|trace[k].outcomes|]
  }

  /**
   `publish_new` ignores whether its own removal worked. In every run, a request for a new file
   fails and leaves its name changed exactly when it made all four calls (the rename worked and
   the validation did not) and the last, the removal, left something there.
   */
  lemma NewLeavesAChangeIff(trace: seq<World>, steps: seq<Step>, b: nat, k: nat, r: nat)
    requires NewReportsAt(trace, steps, b, k, r)
    ensures NewReport(trace, k).request.op.New? && NewReport(trace, k).request.slot == steps[b].slot
    ensures
      var ios, s := CallsOf(steps, b + 1, k + 1, r), steps[b].slot;
      && (|ios| == 4 ==> ios[0].ok && ios[1].ok)
      && (FailedChanged(NewReport(trace, k))
          <==> |ios| == 4 && s in trace[k].visible && !(ios[3].ok && trace[k].visible[s].kind.File?))
  {
    FourCallsIffWithdrawing(trace, steps, b, k, r);
    NewReportIsByActNew(trace, steps, b, k, r);
    NewReportStep(trace[k], r, steps[k].io);
  }

  lemma FourCallsIffWithdrawing(trace: seq<World>, steps: seq<Step>, b: nat, k: nat, r: nat)
    requires NewReportsAt(trace, steps, b, k, r)
    ensures
      var q, ios := trace[k].requests[r], CallsOf(steps, b + 1, k + 1, r);
      && q.op.New? && q.slot == steps[b].slot && (|ios| == 4 <==> q.pc.Undoing?)
      && (|ios| == 4 ==> ios[0].ok && ios[1].ok && ios[3] == steps[k].io)
  {
    NewProgresses(trace, steps, b, k, r);
    NewReportIsByActNew(trace, steps, b, k, r);
    ProgressCounts(trace[k].requests[r].pc, CallsOf(steps, b + 1, k, r), steps[k].io);
  }

  lemma ProgressCounts(pc: Pc, ios: seq<Io>, io: Io)
    requires NewProgress(pc, ios) && !pc.Cleaning?
    ensures |ios + [io]| == 4 <==> pc.Undoing?
    ensures pc.Undoing? ==> (ios + [io])[0].ok && (ios + [io])[1].ok && (ios + [io])[3] == io
  {
  }

  lemma NewReportIsByActNew(trace: seq<World>, steps: seq<Step>, b: nat, k: nat, r: nat)
    requires NewReportsAt(trace, steps, b, k, r) && trace[k].requests[r].op.New?
    ensures trace[k] in Sound() && !trace[k].requests[r].pc.Cleaning?
    ensures trace[k + 1] == ActNew(trace[k], r, steps[k].io)
  {
    RunStep(trace, steps, k);
  }

  /** If other processes left the file alone, that means exactly that the last two calls, the
      validation and the removal, failed. */
  lemma NewConflictIsCleanIffRemoved(trace: seq<World>, steps: seq<Step>, b: nat, k: nat, r: nat)
    requires NewReportsAt(trace, steps, b, k, r) && QuietUntil(trace, steps, k)
    ensures
      var ios := CallsOf(steps, b + 1, k + 1, r);
      FailedChanged(NewReport(trace, k)) <==> |ios| == 4 && !ios[2].ok && !ios[3].ok
  {
    NewProgresses(trace, steps, b, k, r);
    NewLeavesAChangeIff(trace, steps, b, k, r);
    OwnKindIsFile(trace, steps, b);
    if InNewWindow(trace[k], r) {
      QuietIsUndisturbed(trace, steps, k, r);
    }
    FourCallsIffWithdrawing(trace, steps, b, k, r);
  }

  lemma OwnKindIsFile(trace: seq<World>, steps: seq<Step>, b: nat)
    requires IsRun(trace, steps) && b < |steps| && steps[b].BeginStaged? && steps[b].op.New?
    ensures steps[b].own.kind.File?
  {
    assert StepAt(trace, steps, b);
  }

  // ---- runs in which publish_new goes wrong ----

  lemma RunOn(trace: seq<World>, steps: seq<Step>, step: Step)
    requires IsRun(trace, steps) && step in Moves(trace[|steps|])
    ensures IsRun(trace + [Next(trace[|steps|], step)], steps + [step])
  {
    var trace', steps' := trace + [Next(trace[|steps|], step)], steps + [step];
    forall i | 0 <= i < |steps'| ensures StepAt(trace', steps', i) {
      if i < |steps| {
        assert StepAt(trace, steps, i);
        assert trace'[i] == trace[i] && steps'[i] == steps[i] && trace'[i + 1] == trace[i + 1];
      }
    }
  }

  /** A call whose result is `ok`. */
  function Answer(ok: bool): Step {
    Call(0, Io(ok, Unavailable), "")
  }

  /** A new file is in place and not yet validated; nothing else ever happened. */
  ghost function JustRenamed(own: Node, slot: Slot, temp: string): World {
    World(map[slot := own], map[], map[0 := Request(New, slot, own, own, temp, Renamed, map[])],
          false, {own.id}, {}, [], [])
  }

  lemma StageInEmptyShare(own: Node, slot: Slot, temp: string) returns (trace: seq<World>, steps: seq<Step>)
    requires own.kind.File? && IsGenerated(TEMP_PREFIX, temp)
    ensures IsRun(trace, steps) && Initial(trace[0]) && trace[|steps|] == JustStaged(own, slot, temp, Start)
    ensures forall i :: 0 <= i < |steps| ==> !steps[i].Environment?
  {
    var start := World(map[], map[], map[], true, {}, {}, [], []);
    var served := start.(starting := false);
    var begin := BeginStaged(0, New, slot, own, own, temp);
    BeginInEmptyShare(served, own, slot, temp);
    RunOn([start], [], Serve);
    RunOn([start] + [served], [] + [Serve], begin);
    trace, steps := [start] + [served] + [JustStaged(own, slot, temp, Start)], [] + [Serve] + [begin];
  }

  lemma RenameInEmptyShare(own: Node, slot: Slot, temp: string) returns (trace: seq<World>, steps: seq<Step>)
    requires own.kind.File? && IsGenerated(TEMP_PREFIX, temp)
    ensures IsRun(trace, steps) && Initial(trace[0]) && trace[|steps|] == JustRenamed(own, slot, temp)
    ensures forall i :: 0 <= i < |steps| ==> !steps[i].Environment?
  {
    trace, steps := StageInEmptyShare(own, slot, temp);
    CheckInEmptyShare(own, slot, temp);
    PlaceInEmptyShare(own, slot, temp);
    RunOn(trace, steps, Answer(true));
    trace, steps := trace + [JustStaged(own, slot, temp, Checked)], steps + [Answer(true)];
    RunOn(trace, steps, Answer(true));
    trace, steps := trace + [JustRenamed(own, slot, temp)], steps + [Answer(true)];
  }

  ghost function JustStaged(own: Node, slot: Slot, temp: string, pc: Pc): World {
    World(map[], map[temp := own], map[0 := Request(New, slot, own, own, temp, pc, map[])], false, {own.id}, {}, [], [])
  }

  lemma BeginInEmptyShare(served: World, own: Node, slot: Slot, temp: string)
    requires own.kind.File? && IsGenerated(TEMP_PREFIX, temp)
    requires served == World(map[], map[], map[], false, {}, {}, [], [])
    ensures
      var begin := BeginStaged(0, New, slot, own, own, temp);
      begin in Moves(served) && Next(served, begin) == JustStaged(own, slot, temp, Start)
  {
  }

  lemma CheckInEmptyShare(own: Node, slot: Slot, temp: string)
    ensures Answer(true) in Moves(JustStaged(own, slot, temp, Start))
    ensures Next(JustStaged(own, slot, temp, Start), Answer(true)) == JustStaged(own, slot, temp, Checked)
  {
  }

  lemma PlaceInEmptyShare(own: Node, slot: Slot, temp: string)
    ensures Answer(true) in Moves(JustStaged(own, slot, temp, Checked))
    ensures Next(JustStaged(own, slot, temp, Checked), Answer(true)) == JustRenamed(own, slot, temp)
  {
    var w := JustStaged(own, slot, temp, Checked);
    assert View(w.visible, {slot}) == map[] && w.staging - {temp} == map[];
  }

  /** Whatever file and name: from an empty share there is a run in which `publish_new` reports
      Conflict and leaves its file visible. */
  lemma NewConflictCanLeaveAFile(own: Node, slot: Slot, temp: string) returns (trace: seq<World>, steps: seq<Step>)
    requires own.kind.File? && IsGenerated(TEMP_PREFIX, temp)
    ensures IsRun(trace, steps) && Initial(trace[0]) && QuietUntil(trace, steps, |steps|)
    ensures exists o :: o in trace[|steps|].outcomes && o.result == Err(Conflict) && o.before != o.after
    ensures trace[|steps|].visible == map[slot := own]
  {
    trace, steps := RenameInEmptyShare(own, slot, temp);
    var undoing := Goto(JustRenamed(own, slot, temp), 0, Undoing(Conflict));
    OwnIsLeft(own, slot, temp);
    RunOn(trace, steps, Answer(false));
    trace, steps := trace + [undoing], steps + [Answer(false)];
    RunOn(trace, steps, Answer(false));
    trace, steps := trace + [Next(undoing, Answer(false))], steps + [Answer(false)];
  }

  lemma OwnIsLeft(own: Node, slot: Slot, temp: string)
    ensures
      var w := JustRenamed(own, slot, temp);
      var undoing := Goto(w, 0, Undoing(Conflict));
      var left := Next(undoing, Answer(false));
      && Answer(false) in Moves(w) && Next(w, Answer(false)) == undoing && Answer(false) in Moves(undoing)
      && left.visible == map[slot := own]
      && exists o :: o in left.outcomes && o.result == Err(Conflict) && o.before != o.after
  {
    var left := Next(Goto(JustRenamed(own, slot, temp), 0, Undoing(Conflict)), Answer(false));
    var o := left.outcomes[0];
    assert o in left.outcomes && slot in o.after && slot !in o.before;
  }

  /** Whatever other file takes its place: there is a run in which `publish_new` unlinks that file. */
  lemma NewConflictCanUnlinkAnothers(own: Node, slot: Slot, temp: string, other: Node)
      returns (trace: seq<World>, steps: seq<Step>)
    requires own.kind.File? && IsGenerated(TEMP_PREFIX, temp) && other.kind.File? && other.id != own.id
    ensures IsRun(trace, steps) && Initial(trace[0])
    ensures exists u :: u in trace[|steps|].unlinked && u.node == other && Mistaken(u)
    ensures trace[|steps|].visible == map[] && !Kept(trace[|steps|], other)
  {
    trace, steps := RenameInEmptyShare(own, slot, temp);
    var takes := Environment(map[slot := other]);
    var taken := JustRenamed(own, slot, temp).(visible := map[slot := other]);
    var undoing := Goto(taken, 0, Undoing(Conflict));
    AnotherTakesThePlace(own, slot, temp, other);
    RunOn(trace, steps, takes);
    trace, steps := trace + [taken], steps + [takes];
    RunOn(trace, steps, Answer(true));
    trace, steps := trace + [undoing], steps + [Answer(true)];
    AnothersIsWithdrawn(own, slot, temp, other);
    RunOn(trace, steps, Answer(true));
    trace, steps := trace + [Next(undoing, Answer(true))], steps + [Answer(true)];
  }

  lemma AnotherTakesThePlace(own: Node, slot: Slot, temp: string, other: Node)
    requires other.id != own.id
    ensures
      var w, takes := JustRenamed(own, slot, temp), Environment(map[slot := other]);
      var taken := w.(visible := map[slot := other]);
      && takes in Moves(w) && Next(w, takes) == taken
      && Answer(true) in Moves(taken) && Next(taken, Answer(true)) == Goto(taken, 0, Undoing(Conflict))
  {
  }

  lemma AnothersIsWithdrawn(own: Node, slot: Slot, temp: string, other: Node)
    requires other.id != own.id && other.kind.File?
    ensures
      var undoing := Goto(JustRenamed(own, slot, temp).(visible := map[slot := other]), 0, Undoing(Conflict));
      var gone := Next(undoing, Answer(true));
      && Answer(true) in Moves(undoing) && gone.visible == map[] && !Kept(gone, other)
      && exists u :: u in gone.unlinked && u.node == other && Mistaken(u)
  {
    var undoing := Goto(JustRenamed(own, slot, temp).(visible := map[slot := other]), 0, Undoing(Conflict));
    var gone := Next(undoing, Answer(true));
    assert gone.visible == map[slot := other] - {slot};
    assert gone.unlinked[0] in gone.unlinked && gone.unlinked[0].node == other;
  }

  // ---- nothing of the user's disappears ----

  /** A node the user can still get at: by name, or by asking for what recovery retains. */
  ghost predicate Kept(w: World, node: Node) {
    || (exists s :: s in w.visible && w.visible[s] == node)
    || (exists n :: n in w.staging && w.staging[n] == node && IsRetained(n))
  }

  ghost predicate UnlinkedAsExpected(w: World, node: Node) {
    exists u :: u in w.unlinked && u.node == node && AsExpected(u)
  }

  ghost predicate UnlinkedByMistake(w: World, node: Node) {
    exists u :: u in w.unlinked && u.node == node && Mistaken(u)
  }

  ghost predicate OnRecord(w: World, node: Node) {
    UnlinkedAsExpected(w, node) || UnlinkedByMistake(w, node)
  }

  /** The node is the user's, and still there, or its removal is on record. */
  ghost predicate Accounted(w: World, node: Node) {
    (Kept(w, node) && !Private(w, node)) || OnRecord(w, node)
  }

  lemma RecordStays(w: World, v: World, node: Node)
    requires OnRecord(w, node) && w.unlinked <= v.unlinked
    ensures OnRecord(v, node)
  {
    var u :| u in w.unlinked && u.node == node && (AsExpected(u) || Mistaken(u));
    assert u in v.unlinked;
  }

  lemma NewKeepsVisible(w: World, r: nat, io: Io, s: Slot)
    requires w in Sound() && r in w.requests && w.requests[r].op.New? && s in w.visible && !Private(w, w.visible[s])
    ensures Kept(ActNew(w, r, io), w.visible[s]) || UnlinkedByMistake(ActNew(w, r, io), w.visible[s])
  {
    var q, v := w.requests[r], ActNew(w, r, io);
    assert Placed(w, q);
    if Held(v, s) == Held(w, s) {
      assert v.visible[s] == w.visible[s];
    } else {
      assert v.unlinked[|w.unlinked|] == Unlink(w.visible[s], ByRequest(q));
    }
  }

  lemma ReplaceKeepsVisible(w: World, r: nat, io: Io, name: string, s: Slot)
    requires w in Sound() && r in w.requests && w.requests[r].op.Replace? && s in w.visible && !Private(w, w.visible[s])
    ensures Kept(ActReplace(w, r, io, name), w.visible[s])
  {
    var q, v := w.requests[r], ActReplace(w, r, io, name);
    assert Placed(w, q);
    if Held(v, s) == Held(w, s) {
      assert v.visible[s] == w.visible[s];
    } else {
      assert v.staging[q.temp] == w.visible[s];
    }
  }

  lemma DeleteKeepsVisible(w: World, r: nat, io: Io, name: string, s: Slot)
    requires w in Sound() && r in w.requests && w.requests[r].op.Delete? && MayChoose(w, w.requests[r], name)
    requires s in w.visible && !Private(w, w.visible[s])
    ensures Kept(ActDelete(w, r, io, name), w.visible[s])
  {
    var q, v := w.requests[r], ActDelete(w, r, io, name);
    assert Placed(w, q);
    if Held(v, s) == Held(w, s) {
      assert v.visible[s] == w.visible[s];
    } else {
      assert v.staging[name] == w.visible[s];
    }
  }

  lemma MoveKeepsVisible(w: World, r: nat, io: Io, s: Slot)
    requires w in Sound() && r in w.requests && w.requests[r].op.Move? && s in w.visible
    ensures Kept(ActMove(w, r, io), w.visible[s])
  {
    var q, v := w.requests[r], ActMove(w, r, io);
    assert Placed(w, q);
    if Held(v, s) == Held(w, s) {
      assert v.visible[s] == w.visible[s];
    } else {
      var to := if q.pc.Checked? then q.op.to else q.slot;
      assert v.visible[to] == w.visible[s];
    }
  }

  /** A user's visible node stays visible, goes under a retained name, or is withdrawn by mistake. */
  lemma VisibleKeeps(w: World, r: nat, io: Io, name: string, s: Slot)
    requires w in Sound() && Call(r, io, name) in Moves(w) && s in w.visible && !Private(w, w.visible[s])
    ensures Kept(Act(w, r, io, name), w.visible[s]) || UnlinkedByMistake(Act(w, r, io, name), w.visible[s])
  {
    var q := w.requests[r];
    if q.pc.Cleaning? {
      assert s in Clean(w, r, io).visible;
    } else {
      match q.op
      case New => NewKeepsVisible(w, r, io, s);
      case Tree => assert s in ActTree(w, r, io).visible;
      case Replace => ReplaceKeepsVisible(w, r, io, name, s);
      case Delete => DeleteKeepsVisible(w, r, io, name, s);
      case Move(_) => MoveKeepsVisible(w, r, io, s);
    }
  }

  /** A user's node under a retained name stays there, goes back to its visible name, or is
      unlinked as the expected version. */
  ghost predicate StaysOrExpected(w: World, v: World, n: string)
    requires n in w.staging
  {
    Kept(v, w.staging[n]) || UnlinkedAsExpected(v, w.staging[n])
  }

  lemma StagedStays(w: World, v: World, n: string)
    requires n in w.staging && IsRetained(n) && Lookup(v.staging, n) == Lookup(w.staging, n)
    ensures StaysOrExpected(w, v, n)
  {
    assert v.staging[n] == w.staging[n];
  }

  lemma ReplaceKeepsStaged(w: World, r: nat, io: Io, name: string, n: string)
    requires w in Sound() && r in w.requests && w.requests[r].op.Replace?
    requires n in w.staging && IsRetained(n) && !Private(w, w.staging[n])
    ensures StaysOrExpected(w, ActReplace(w, r, io, name), n)
  {
    var q, v := w.requests[r], ActReplace(w, r, io, name);
    assert Placed(w, q);
    if Lookup(v.staging, n) == Lookup(w.staging, n) {
      StagedStays(w, v, n);
    } else if q.pc.Removing? {
      assert v.unlinked[|w.unlinked|] == Unlink(w.staging[n], ByRequest(q));
    } else {
      assert v.visible[q.slot] == w.staging[n];
    }
  }

  lemma DeleteKeepsStaged(w: World, r: nat, io: Io, name: string, n: string)
    requires w in Sound() && r in w.requests && w.requests[r].op.Delete?
    requires n in w.staging && IsRetained(n)
    ensures StaysOrExpected(w, ActDelete(w, r, io, name), n)
  {
    var q, v := w.requests[r], ActDelete(w, r, io, name);
    assert Placed(w, q);
    if Lookup(v.staging, n) == Lookup(w.staging, n) {
      StagedStays(w, v, n);
    } else if q.pc.Removing? {
      assert v.unlinked[|w.unlinked|] == Unlink(w.staging[n], ByRequest(q));
    } else {
      assert v.visible[q.slot] == w.staging[n];
    }
  }

  lemma StagedKeeps(w: World, r: nat, io: Io, name: string, n: string)
    requires w in Sound() && Call(r, io, name) in Moves(w)
    requires n in w.staging && IsRetained(n) && !Private(w, w.staging[n])
    ensures StaysOrExpected(w, Act(w, r, io, name), n)
  {
    var q := w.requests[r];
    assert Placed(w, q);
    if q.pc.Cleaning? {
      StagedStays(w, Clean(w, r, io), n);
    } else {
      match q.op
      case New => StagedStays(w, ActNew(w, r, io), n);
      case Tree => StagedStays(w, ActTree(w, r, io), n);
      case Replace => ReplaceKeepsStaged(w, r, io, name, n);
      case Delete => DeleteKeepsStaged(w, r, io, name, n);
      case Move(_) => StagedStays(w, ActMove(w, r, io), n);
    }
  }

  /** A call publishes nothing but what was private, and stages nothing. */
  lemma ActKeeps(w: World, r: nat, io: Io, name: string, node: Node)
    requires w in Sound() && Call(r, io, name) in Moves(w) && Accounted(w, node)
    ensures Accounted(Act(w, r, io, name), node)
  {
    if OnRecord(w, node) {
      RecordStays(w, Act(w, r, io, name), node);
    } else if s :| s in w.visible && w.visible[s] == node {
      VisibleKeeps(w, r, io, name, s);
    } else {
      var n :| n in w.staging && w.staging[n] == node && IsRetained(n);
      StagedKeeps(w, r, io, name, n);
    }
  }

  lemma OtherStepLeaves(w: World, step: Step)
    requires step in Moves(w) && !step.Environment? && !step.Call?
    ensures Next(w, step).visible == w.visible
    ensures forall n :: n in w.staging && IsRetained(n) ==> n in Next(w, step).staging && Next(w, step).staging[n] == w.staging[n]
  {
    if step.BeginStaged? {
      assert step.temp !in w.staging;
    }
  }

  lemma OtherStepKeepsPublic(w: World, step: Step, node: Node)
    requires w in Sound() && step in Moves(w) && !step.Environment? && !step.Call? && Kept(w, node) && !Private(w, node)
    ensures !Private(Next(w, step), node)
  {
  }

  /** No other step of Crabinet, and no crash, moves a node of the user's. */
  lemma OtherStepKeeps(w: World, step: Step, node: Node)
    requires w in Sound() && step in Moves(w) && !step.Environment? && !step.Call? && Kept(w, node) && !Private(w, node)
    ensures Kept(Next(w, step), node) && !Private(Next(w, step), node)
  {
    OtherStepLeaves(w, step);
    OtherStepKeepsPublic(w, step, node);
  }

  lemma NextKeeps(w: World, step: Step, node: Node)
    requires w in Sound() && step in Moves(w) && !step.Environment? && Accounted(w, node)
    ensures Accounted(Next(w, step), node)
  {
    if step.Call? {
      ActKeeps(w, step.r, step.io, step.name, node);
    } else if OnRecord(w, node) {
      RecordStays(w, Next(w, step), node);
    } else {
      OtherStepKeeps(w, step, node);
    }
  }

  /** The next step is another process taking the node away. */
  ghost predicate TakenAway(w: World, step: Step, v: World, node: Node) {
    step.Environment? && Kept(w, node) && !Kept(v, node)
  }

  lemma NextKeepsOrTakenAway(w: World, step: Step, node: Node)
    requires w in Sound() && step in Moves(w) && Accounted(w, node)
    ensures Accounted(Next(w, step), node) || TakenAway(w, step, Next(w, step), node)
  {
    if !step.Environment? {
      NextKeeps(w, step, node);
    } else if OnRecord(w, node) {
      RecordStays(w, Next(w, step), node);
    }
  }

  ghost predicate SomebodyTook(trace: seq<World>, steps: seq<Step>, i: nat, j: nat, node: Node)
    requires |trace| == |steps| + 1 && j < |trace|
  {
    exists k :: i <= k < j && TakenAway(trace[k], steps[k], trace[k + 1], node)
  }

  lemma RunKeepsOrTakenAway(trace: seq<World>, steps: seq<Step>, k: nat, node: Node)
    requires IsRun(trace, steps) && Initial(trace[0]) && k < |steps| && Accounted(trace[k], node)
    ensures Accounted(trace[k + 1], node) || TakenAway(trace[k], steps[k], trace[k + 1], node)
  {
    RunStep(trace, steps, k);
    NextKeepsOrTakenAway(trace[k], steps[k], node);
  }

  lemma {:induction false} StaysAccounted(trace: seq<World>, steps: seq<Step>, i: nat, j: nat, node: Node)
    requires IsRun(trace, steps) && Initial(trace[0]) && i <= j < |trace| && Accounted(trace[i], node)
    ensures Accounted(trace[j], node) || SomebodyTook(trace, steps, i, j, node)
  {
    if i < j {
      StaysAccounted(trace, steps, i, j - 1, node);
      if Accounted(trace[j - 1], node) {
        RunKeepsOrTakenAway(trace, steps, j - 1, node);
      }
    }
  }

  /** In every run, a user's node that was once visible or retained is still so, or was unlinked
      as the expected version, or was taken away by another process, or was withdrawn by
      `publish_new` after another process put it where a new file had just been published. */
  lemma NothingOfTheUsersIsLost(trace: seq<World>, steps: seq<Step>, i: nat, j: nat, node: Node)
    requires IsRun(trace, steps) && Initial(trace[0]) && i <= j < |trace|
    requires Kept(trace[i], node) && !Private(trace[i], node)
    ensures || Kept(trace[j], node) || UnlinkedAsExpected(trace[j], node)
            || SomebodyTook(trace, steps, i, j, node)
            || UnlinkedByMistake(trace[j], node)
    ensures QuietUntil(trace, steps, j) ==> !UnlinkedByMistake(trace[j], node)
  {
    StaysAccounted(trace, steps, i, j, node);
    if QuietUntil(trace, steps, j) {
      QuietIsNotMistaken(trace, steps, j);
    }
  }
}
