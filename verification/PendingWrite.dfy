/**
 The publishing code itself (src/filesystem.rs): `PendingWrite`, `delete_entry`, `move_entry`
 and startup recovery, as objects whose methods change two directories. `ios` lists the
 results the operating system gives to the calls a method makes, in order.

 Each method says outright what it leaves in the directories, and is also proved to do what the
 step machine does when its request runs alone, from a share that satisfies the machine's
 invariant to one that does. So the theorems about runs speak of this code.
 */
module PendingWrites {
  import opened Common
  import opened Publication
  import opened PublicationInvariant
  import opened PublicationSafety

  // ---- one request alone ----

  /** A share with one request. */
  ghost function Alone(idle: World, q: Request): World {
    idle.(requests := map[0 := q])
  }

  /** Where the machine is when request 0 has made its calls from the `k`th on, until it is gone. */
  ghost function RunAlone(w: World, ios: seq<Io>, k: nat, name: string): World
    decreases |ios| - k
  {
    if k < |ios| && 0 in w.requests then RunAlone(Act(w, 0, ios[k], name), ios, k + 1, name) else w
  }

  /** The machine's run from `w` ends with this report on these directories. */
  ghost predicate Ends(w: World, ios: seq<Io>, k: nat, name: string, idle: World, result: Result) {
    var v := RunAlone(w, ios, k, name);
    && v.requests == map[] && v.(unlinked := [], outcomes := []) == idle
    && |v.outcomes| == 1 && v.outcomes[0].result == result
  }

  /** Only request 0 is there, and the name it may choose is a good one. */
  ghost predicate Solo(w: World, name: string) {
    && w in Sound() && !w.starting && w.requests.Keys <= {0}
    && (0 in w.requests ==> NameIsGood(w.requests[0], name))
  }

  predicate NameIsGood(q: Request, name: string) {
    && (q.op.Replace? ==> IsGenerated(REPLACE_PREFIX, name))
    && (q.op.Delete? ==> IsGenerated(DELETE_PREFIX, name))
  }

  lemma PrefixesDiffer(temp: string, name: string)
    requires IsGenerated(TEMP_PREFIX, temp) && IsGenerated(REPLACE_PREFIX, name)
    ensures temp != name
  {
    assert temp[7] == TEMP_PREFIX[7] && name[7] == REPLACE_PREFIX[7];
  }

  lemma SoloMayCall(w: World, io: Io, name: string)
    requires Solo(w, name) && 0 in w.requests
    ensures Call(0, io, name) in Moves(w)
  {
    var q := w.requests[0];
    assert Placed(w, q);
    if q.op.Replace? && q.pc.Checked? {
      PrefixesDiffer(q.temp, name);
    }
  }

  lemma SoloStep(w: World, io: Io, name: string)
    requires Solo(w, name) && 0 in w.requests
    ensures Call(0, io, name) in Moves(w) && Solo(Act(w, 0, io, name), name)
  {
    SoloMayCall(w, io, name);
    ActInv(w, 0, io, name);
    assert Touches(w.requests, Act(w, 0, io, name).requests, 0);
  }

  /** A run that reaches a state with only this request goes on with its calls, one after another.
      So what holds of every run holds of the methods below. */
  lemma {:induction false} AloneContinues(trace: seq<World>, steps: seq<Step>, ios: seq<Io>, k: nat, name: string)
      returns (trace': seq<World>, steps': seq<Step>)
    requires IsRun(trace, steps) && Solo(trace[|steps|], name)
    ensures IsRun(trace', steps') && trace <= trace' && trace'[|steps'|] == RunAlone(trace[|steps|], ios, k, name)
    ensures Solo(RunAlone(trace[|steps|], ios, k, name), name)
    decreases |ios| - k
  {
    var w := trace[|steps|];
    trace', steps' := trace, steps;
    if k < |ios| && 0 in w.requests {
      SoloStep(w, ios[k], name);
      RunOn(trace, steps, Call(0, ios[k], name));
      trace', steps' := AloneContinues(trace + [Act(w, 0, ios[k], name)], steps + [Call(0, ios[k], name)], ios, k + 1, name);
    }
  }

  /** A share in order, with a request whose nodes are in place. */
  lemma AloneIsSolo(idle: World, q: Request, name: string)
    requires IsIdle(idle) && Placed(Alone(idle, q), q) && NameIsGood(q, name)
    requires Guarded(q.op) ==> q.own.id in idle.created
    ensures Solo(Alone(idle, q), name)
  {
    DiskSame(idle, Alone(idle, q));
  }

  /** A share in order, without requests. */
  ghost predicate IsIdle(w: World) {
    w.requests == map[] && !w.starting && w.unlinked == [] && w.outcomes == [] && DiskOk(w)
  }

  /** After a request has run alone, the share is in order again. */
  lemma EndsIdle(w: World, ios: seq<Io>, k: nat, name: string, idle: World, result: Result)
    requires Solo(w, name) && Ends(w, ios, k, name, idle, result)
    ensures IsIdle(idle)
  {
    var _, _ := AloneContinues([w], [], ios, k, name);
  }

  lemma MovesAlone(idle: World, q: Request, pc: Pc)
    ensures Goto(Alone(idle, q), 0, pc) == Alone(idle, q.(pc := pc))
  {
    assert map[0 := q][0 := q.(pc := pc)] == map[0 := q.(pc := pc)];
  }

  /** The change of names puts the request into its window. */
  lemma EntersAlone(idle: World, q: Request, w: World, visible: Visible, staging: Staging)
    requires 0 in w.requests && w == Alone(idle, w.requests[0]) && q.pc == Renamed
    requires q == w.requests[0].(pc := Renamed, temp := q.temp, before := View(idle.visible, Slots(w.requests[0])))
    ensures Enter(w, 0, q.temp, visible, staging) == Alone(idle.(visible := visible, staging := staging), q)
  {
    assert w.requests[0 := q] == map[0 := q];
  }

  ghost function Direct(op: Op, slot: Slot, expected: Node): Request {
    Request(op, slot, expected, expected, "", Start, map[])
  }

  /** What is reported when a change has to be undone: its failure, unless undoing it fails too. */
  function Undone(undo: Io, failure: Code): Result {
    Err(if undo.ok then failure else Unavailable)
  }

  /** A directory can be removed when no name is in it. */
  predicate CanBeRemoved(visible: Visible, kind: Kind, node: Node) {
    match kind
    case File => node.kind.File?
    case Directory => node.kind.Directory? && forall s :: s in visible ==> s.dir != node.id
  }

  // ---- why an operation fails, call by call ----

  function DeletionError(visible: Visible, staging: Staging, slot: Slot, expected: Node, name: string, ios: seq<Io>): Result
    requires |ios| >= 5
  {
    if !ios[0].ok then Err(ios[0].error)
    else if slot !in visible then Err(NotFound)
    else if !Matches(visible[slot], expected) then Err(Conflict)
    else if !ios[1].ok || name in staging then Err(ios[1].error)
    else if !ios[2].ok then Undone(ios[3], Conflict)
    else Undone(ios[4], ios[3].error)
  }

  /** The result of a deletion from its rename on. */
  function OfDeletion(visible: Visible, staging: Staging, slot: Slot, expected: Node, name: string, ios: seq<Io>): Result
    requires |ios| >= 5
  {
    if !ios[1].ok || slot !in visible || name in staging then Err(ios[1].error)
    else OfRemoval(visible - {slot}, visible[slot], expected, ios)
  }

  /** The result once the entry is aside. */
  function OfRemoval(visible: Visible, aside: Node, expected: Node, ios: seq<Io>): Result
    requires |ios| >= 5
  {
    if !ios[2].ok || !Matches(aside, expected) then Undone(ios[3], Conflict)
    else if ios[3].ok && CanBeRemoved(visible, expected.kind, aside) then Ok
    else Undone(ios[4], ios[3].error)
  }

  function MoveError(visible: Visible, from: Slot, to: Slot, expected: Node, ios: seq<Io>): Result
    requires |ios| >= 4
  {
    if from == to then Err(Conflict)
    else if !ios[0].ok then Err(ios[0].error)
    else if from !in visible then Err(NotFound)
    else if !Matches(visible[from], expected) then Err(Conflict)
    else if !ios[1].ok || to in visible then Err(ios[1].error)
    else Undone(ios[3], ios[2].error)
  }

  /** The result of a move of the expected entry, from its rename on. */
  function OfRename(visible: Visible, from: Slot, to: Slot, ios: seq<Io>): Result
    requires |ios| >= 4
  {
    if !ios[1].ok || from !in visible || to in visible then Err(ios[1].error)
    else if ios[2].ok then Ok
    else Undone(ios[3], ios[2].error)
  }

  function NewError(visible: Visible, slot: Slot, ios: seq<Io>): Result
    requires |ios| >= 5
  {
    if !ios[0].ok then Err(ios[0].error) else if !ios[1].ok || slot in visible then Err(ios[1].error) else Err(Conflict)
  }

  function ReplacementError(visible: Visible, staging: Staging, slot: Slot, expected: Node, name: string, ios: seq<Io>): Result
    requires |ios| >= 7
  {
    if !ios[0].ok then Err(ios[0].error)
    else if slot !in visible then Err(NotFound)
    else if !Matches(visible[slot], expected) || visible[slot].kind != File then Err(Conflict)
    else if !ios[1].ok || name in staging then Err(ios[1].error)
    else if !ios[2].ok then Err(ios[2].error)
    else if !ios[3].ok then Undone(ios[4], Conflict)
    else Undone(ios[5], ios[4].error)
  }

  /** The result of a replacement of the expected version, from the first rename on. */
  function OfReplacement(staging: Staging, name: string, ios: seq<Io>): Result
    requires |ios| >= 7
  {
    if !ios[1].ok || name in staging then Err(ios[1].error) else if !ios[2].ok then Err(ios[2].error) else OfExchange(ios)
  }

  /** The result once the versions are exchanged. */
  function OfExchange(ios: seq<Io>): Result
    requires |ios| >= 7
  {
    if !ios[3].ok then Undone(ios[4], Conflict) else if ios[4].ok then Ok else Undone(ios[5], ios[4].error)
  }

  function Failure(io: Io, missing: Code): Result {
    Err(if io.ok then missing else io.error)
  }

  // ---- how a step of the machine goes on alone ----

  lemma GoesOn(w: World, v: World, ios: seq<Io>, k: nat, name: string)
    requires k < |ios| && 0 in w.requests && Act(w, 0, ios[k], name) == v
    ensures RunAlone(w, ios, k, name) == RunAlone(v, ios, k + 1, name)
  {
  }

  /** The world without requests and histories. */
  ghost function Settled(w: World): World {
    w.(requests := map[], unlinked := [], outcomes := [])
  }

  /** The step reports, and the request is gone. */
  lemma Reports(w: World, x: World, ios: seq<Io>, k: nat, name: string, result: Result, disarmed: bool)
    requires k < |ios| && 0 in w.requests && x.requests.Keys == {0} && x.outcomes == []
    requires Act(w, 0, ios[k], name) == Conclude(x, 0, result, disarmed)
    requires !Guarded(x.requests[0].op) || disarmed
    ensures Ends(w, ios, k, name, Settled(x), result)
  {
    assert x.requests - {0} == map[];
  }

  /** The step reports, and the drop guard runs. */
  lemma ReportsAndCleans(w: World, x: World, ios: seq<Io>, k: nat, name: string, result: Result)
    requires k + 1 < |ios| && 0 in w.requests && x.requests.Keys == {0} && x.outcomes == []
    requires Act(w, 0, ios[k], name) == Conclude(x, 0, result, false) && Guarded(x.requests[0].op)
    ensures
      var temp := x.requests[0].temp;
      Ends(w, ios, k, name,
           Settled(if ios[k + 1].ok then x.(staging := x.staging - {temp}) else x), result)
  {
    var v := Conclude(x, 0, result, false);
    var temp := x.requests[0].temp;
    GoesOn(w, v, ios, k, name);
    var gone := Clean(v, 0, ios[k + 1]);
    assert Act(v, 0, ios[k + 1], name) == gone;
    assert gone.requests == map[];
    GoesOn(v, gone, ios, k + 1, name);
    assert temp !in x.staging ==> x.staging - {temp} == x.staging;
  }

  lemma MovedAndBack(visible: Visible, from: Slot, to: Slot)
    requires from in visible && to !in visible
    ensures ((visible - {from})[to := visible[from]] - {to})[from := visible[from]] == visible
  {
  }

  /** The step that puts a deleted entry aside. */
  lemma DeleteEnters(idle: World, r: Request, io: Io, name: string)
    requires r.op.Delete? && r.pc.Checked? && io.ok && r.slot in idle.visible && name !in idle.staging
    ensures Act(Alone(idle, r), 0, io, name) == Alone(
      idle.(visible := idle.visible - {r.slot}, staging := idle.staging[name := idle.visible[r.slot]]),
      r.(pc := Renamed, temp := name, before := View(idle.visible, {r.slot})))
  {
    var q := r.(pc := Renamed, temp := name, before := View(idle.visible, {r.slot}));
    EntersAlone(idle, q, Alone(idle, r), idle.visible - {r.slot}, idle.staging[name := idle.visible[r.slot]]);
  }

  lemma MoveEnters(idle: World, r: Request, io: Io)
    requires r.op.Move? && r.pc.Checked? && io.ok && r.slot in idle.visible && r.op.to !in idle.visible
    ensures Act(Alone(idle, r), 0, io, "") == Alone(
      idle.(visible := (idle.visible - {r.slot})[r.op.to := idle.visible[r.slot]]),
      r.(pc := Renamed, before := View(idle.visible, {r.slot, r.op.to})))
  {
    var q := r.(pc := Renamed, before := View(idle.visible, {r.slot, r.op.to}));
    EntersAlone(idle, q, Alone(idle, r), (idle.visible - {r.slot})[r.op.to := idle.visible[r.slot]], idle.staging);
  }

  lemma NewEnters(idle: World, r: Request, io: Io)
    requires r.op.New? && r.pc.Checked? && io.ok && r.slot !in idle.visible && r.temp in idle.staging && r.before == map[]
    ensures Act(Alone(idle, r), 0, io, "") == Alone(
      idle.(visible := idle.visible[r.slot := idle.staging[r.temp]], staging := idle.staging - {r.temp}),
      r.(pc := Renamed))
  {
    var q := r.(pc := Renamed);
    assert View(idle.visible, {r.slot}) == map[];
    EntersAlone(idle, q, Alone(idle, r), idle.visible[r.slot := idle.staging[r.temp]], idle.staging - {r.temp});
  }

  lemma ReplaceArms(idle: World, r: Request, io: Io, name: string)
    requires r.op.Replace? && r.pc.Checked? && io.ok && r.temp in idle.staging && name !in idle.staging
    ensures Act(Alone(idle, r), 0, io, name) == Alone(
      idle.(staging := (idle.staging - {r.temp})[name := idle.staging[r.temp]]), r.(pc := Armed, temp := name))
  {
    var q := r.(pc := Armed, temp := name);
    assert map[0 := r][0 := q] == map[0 := q];
  }

  /** The previous version is removed, or the exchange must be undone. */
  lemma ReplaceRemoves(idle: World, r: Request, io: Io, name: string)
    requires r.op.Replace? && r.pc.Removing? && r.temp in idle.staging
    ensures
      var w, done := Alone(idle, r), io.ok && idle.staging[r.temp].kind.File?;
      Act(w, 0, io, name) ==
        if done then Conclude(Publish(UnlinkStaged(w, 0), r.own), 0, Ok, true)
        else Alone(idle, r.(pc := Undoing(io.error)))
  {
    MovesAlone(idle, r, Undoing(io.error));
  }

  lemma PreviousIsGone(idle: World, r: Request, ios: seq<Io>, k: nat, name: string)
    requires r.op.Replace? && r.pc.Removing? && r.temp in idle.staging && k < |ios|
    requires ios[k].ok && idle.staging[r.temp].kind.File? && idle == Settled(idle)
    ensures Ends(Alone(idle, r), ios, k, name,
                 idle.(staging := idle.staging - {r.temp}, published := idle.published + {r.own.id}), Ok)
  {
    var w := Alone(idle, r);
    ReplaceRemoves(idle, r, ios[k], name);
    Reports(w, Publish(UnlinkStaged(w, 0), r.own), ios, k, name, Ok, true);
  }

  lemma ReplaceEnters(idle: World, r: Request, io: Io, name: string)
    requires r.op.Replace? && r.pc.Armed? && io.ok && r.slot in idle.visible && r.temp in idle.staging
    ensures Act(Alone(idle, r), 0, io, name) == Alone(
      idle.(visible := idle.visible[r.slot := idle.staging[r.temp]], staging := idle.staging[r.temp := idle.visible[r.slot]]),
      r.(pc := Renamed, before := View(idle.visible, {r.slot})))
  {
    var q := r.(pc := Renamed, before := View(idle.visible, {r.slot}));
    EntersAlone(idle, q, Alone(idle, r), idle.visible[r.slot := idle.staging[r.temp]],
                idle.staging[r.temp := idle.visible[r.slot]]);
  }

  predicate Distinct<T(==)>(s: seq<T>) {
    forall i, j :: 0 <= i < j < |s| ==> s[i] != s[j]
  }

  function Names(s: seq<string>): set<string> {
    set n | n in s
  }

  lemma {:induction false} DistinctCount(s: seq<string>)
    requires Distinct(s)
    ensures |Names(s)| == |s|
  {
    if s == [] {
    } else {
      var front, last := s[..|s| - 1], s[|s| - 1];
      DistinctCount(front);
      assert s == front + [last];
      assert Names(s) == Names(front) + {last};
    }
  }

  // ---- what recovery does to the staging directory ----

  function Recoverable(staging: Staging): set<string> {
    set n | n in staging && IsRecoverable(n, staging[n])
  }

  /** A tree that recovery has begun to remove. */
  predicate CutDown(before: Node, after: Node) {
    before.kind.Directory? && after == before.(contents := after.contents) && after.contents <= before.contents
  }

  /** Every name is as it was, or is one of these and has been removed, or begun to be. */
  ghost predicate OnlyCleans(before: Staging, after: Staging, names: set<string>) {
    && (forall n :: n in after ==> n in before && (after[n] == before[n] || (n in names && CutDown(before[n], after[n]))))
    && (forall n :: n in before && n !in after ==> n in names)
  }

  lemma CleansMore(before: Staging, after: Staging, names: set<string>, more: set<string>)
    requires OnlyCleans(before, after, names) && names <= more
    ensures OnlyCleans(before, after, more)
  {
  }

  lemma CleansInTurn(before: Staging, after: Staging, first: set<string>, second: set<string>)
    requires OnlyCleans(before - first, after, second)
    ensures OnlyCleans(before, after, first + second)
    ensures after == (before - first) - second ==> after == before - (first + second)
  {
  }

  /** The scan has found what recovery may remove. */
  ghost predicate FoundIn(staging: Staging, trees: seq<string>, files: seq<string>) {
    && (forall n :: n in trees || n in files <==> n in staging && IsRecoverable(n, staging[n]))
    && (forall n :: n in trees ==> n !in files)
    && Distinct(trees) && Distinct(files)
  }

  lemma FoundIsRecoverable(staging: Staging, trees: seq<string>, files: seq<string>)
    requires FoundIn(staging, trees, files)
    ensures Names(trees) + Names(files) == Recoverable(staging)
    ensures |Recoverable(staging)| == |trees| + |files|
  {
    DistinctCount(trees);
    DistinctCount(files);
    assert Names(trees) + Names(files) == Recoverable(staging) && Names(trees) !! Names(files);
  }

  // ---- the share ----

  /** A share's directories and the calls made on them; a refused or failed call changes nothing.
      `created` and `published` are the machine's ledger of staged nodes. */
  class Share {
    var visible: Visible
    var staging: Staging
    ghost var created: set<nat>
    ghost var published: set<nat>

    constructor (visible: Visible, staging: Staging, ghost created: set<nat>)
      ensures this.visible == visible && this.staging == staging && this.created == created && published == {}
    {
      this.visible := visible;
      this.staging := staging;
      this.created := created;
      this.published := {};
    }

    ghost function Idle(): World
      reads this
    {
      World(visible, staging, map[], false, created, published, [], [])
    }

    /** The directories are as the machine's invariant wants them. */
    ghost predicate Valid()
      reads this
    {
      IsIdle(Idle())
    }

    method RenameIntoPlace(name: string, slot: Slot, io: Io) returns (done: bool)
      modifies this`visible, this`staging
      ensures done <==> io.ok && name in old(staging) && slot !in old(visible)
      ensures done ==> visible == old(visible)[slot := old(staging)[name]] && staging == old(staging) - {name}
      ensures !done ==> visible == old(visible) && staging == old(staging)
    {
      done := io.ok && name in staging && slot !in visible;
      if done {
        visible := visible[slot := staging[name]];
        staging := staging - {name};
      }
    }

    method RenameAside(slot: Slot, name: string, io: Io) returns (done: bool)
      modifies this`visible, this`staging
      ensures done <==> io.ok && slot in old(visible) && name !in old(staging)
      ensures done ==> visible == old(visible) - {slot} && staging == old(staging)[name := old(visible)[slot]]
      ensures !done ==> visible == old(visible) && staging == old(staging)
    {
      done := io.ok && slot in visible && name !in staging;
      if done {
        staging := staging[name := visible[slot]];
        visible := visible - {slot};
      }
    }

    method RenameStaged(from: string, name: string, io: Io) returns (done: bool)
      modifies this`staging
      ensures done <==> io.ok && from in old(staging) && name !in old(staging)
      ensures done ==> staging == (old(staging) - {from})[name := old(staging)[from]]
      ensures visible == old(visible) && (!done ==> staging == old(staging))
    {
      done := io.ok && from in staging && name !in staging;
      if done {
        staging := (staging - {from})[name := staging[from]];
      }
    }

    method RenameVisible(from: Slot, to: Slot, io: Io) returns (done: bool)
      modifies this`visible
      ensures done <==> io.ok && from in old(visible) && to !in old(visible)
      ensures done ==> visible == (old(visible) - {from})[to := old(visible)[from]]
      ensures !done ==> visible == old(visible)
    {
      done := io.ok && from in visible && to !in visible;
      if done {
        visible := (visible - {from})[to := visible[from]];
      }
    }

    method Exchange(name: string, slot: Slot, io: Io) returns (done: bool)
      modifies this`visible, this`staging
      ensures done <==> io.ok && slot in old(visible) && name in old(staging)
      ensures done ==> visible == old(visible)[slot := old(staging)[name]] && staging == old(staging)[name := old(visible)[slot]]
      ensures !done ==> visible == old(visible) && staging == old(staging)
    {
      done := io.ok && slot in visible && name in staging;
      if done {
        visible, staging := visible[slot := staging[name]], staging[name := visible[slot]];
      }
    }

    method RemoveStaged(name: string, io: Io) returns (done: bool)
      modifies this`staging
      ensures done <==> io.ok && name in old(staging)
      ensures done ==> staging == old(staging) - {name}
      ensures visible == old(visible) && (!done ==> staging == old(staging))
    {
      done := io.ok && name in staging;
      if done {
        staging := staging - {name};
      }
    }

    predicate Shows(slot: Slot, node: Node)
      reads this
    {
      slot in visible && Matches(visible[slot], node)
    }

    predicate Stages(name: string, node: Node)
      reads this
    {
      name in staging && Matches(staging[name], node)
    }

    /** `delete_entry` */
    method DeleteEntry(slot: Slot, expected: Node, name: string, ios: seq<Io>) returns (result: Result)
      requires Valid() && IsGenerated(DELETE_PREFIX, name) && |ios| >= 5
      modifies this`visible, this`staging
      ensures Valid()
      ensures Ends(old(Alone(Idle(), Direct(Delete, slot, expected))), ios, 0, name, Idle(), result)
      ensures result.Ok? <==>
        && ios[0].ok && ios[1].ok && ios[2].ok && ios[3].ok && name !in old(staging)
        && slot in old(visible) && Matches(old(visible)[slot], expected)
        && CanBeRemoved(old(visible) - {slot}, expected.kind, old(visible)[slot])
      ensures result.Err? ==> result == DeletionError(old(visible), old(staging), slot, expected, name, ios)
      ensures result.Ok? ==>
        && slot in old(visible) && Matches(old(visible)[slot], expected)
        && visible == old(visible) - {slot} && staging == old(staging)
      ensures result.Err? ==>
        || (visible == old(visible) && staging == old(staging))
        || (&& result == Err(Unavailable) && slot in old(visible) && IsRetained(name) && name !in old(staging)
            && visible == old(visible) - {slot} && staging == old(staging)[name := old(visible)[slot]])
    {
      ghost var q := Direct(Delete, slot, expected);
      ghost var w := Alone(Idle(), q);
      AloneIsSolo(Idle(), q, name);
      result := LookAndDelete(slot, expected, name, ios);
      EndsIdle(w, ios, 0, name, Idle(), result);
    }

    method LookAndDelete(slot: Slot, expected: Node, name: string, ios: seq<Io>) returns (result: Result)
      requires |ios| >= 5
      modifies this`visible, this`staging
      ensures Ends(old(Alone(Idle(), Direct(Delete, slot, expected))), ios, 0, name, Idle(), result)
      ensures Deleted(slot, expected, name, old(visible), old(staging), result)
      ensures result == if !ios[0].ok || slot !in old(visible) then Failure(ios[0], NotFound)
                        else if !Matches(old(visible)[slot], expected) then Err(Conflict)
                        else OfDeletion(old(visible), old(staging), slot, expected, name, ios)
    {
      ghost var q := Direct(Delete, slot, expected);
      ghost var w := Alone(Idle(), q);
      if !ios[0].ok || slot !in visible {
        result := Failure(ios[0], NotFound);
        Reports(w, w, ios, 0, name, result, false);
        return;
      }
      if !Shows(slot, expected) {
        Reports(w, w, ios, 0, name, Err(Conflict), false);
        return Err(Conflict);
      }
      ghost var checked := Alone(Idle(), q.(pc := Checked));
      MovesAlone(Idle(), q, Checked);
      GoesOn(w, checked, ios, 0, name);
      result := StageAndDelete(slot, expected, name, ios, q.(pc := Checked));
    }

    /** The rest of a deletion, once the entry is known to be the expected one. */
    method StageAndDelete(slot: Slot, expected: Node, name: string, ios: seq<Io>, ghost r: Request) returns (result: Result)
      requires r.op == Delete && r.slot == slot && r.expected == expected && r.pc == Checked && |ios| >= 5
      modifies this`visible, this`staging
      ensures Ends(old(Alone(Idle(), r)), ios, 1, name, Idle(), result)
      ensures Deleted(slot, expected, name, old(visible), old(staging), result)
      ensures result == OfDeletion(old(visible), old(staging), slot, expected, name, ios)
    {
      ghost var checked := Alone(Idle(), r);
      var staged := RenameAside(slot, name, ios[1]);
      if !staged {
        Reports(checked, checked, ios, 1, name, Err(ios[1].error), false);
        return Err(ios[1].error);
      }
      ghost var q := r.(temp := name, pc := Renamed, before := View(old(visible), {slot}));
      DeleteEnters(old(Idle()), r, ios[1], name);
      GoesOn(checked, Alone(Idle(), q), ios, 1, name);
      result := RemoveAside(slot, expected, name, ios, q);
      DeletedFromAside(slot, expected, name, old(visible), old(staging), result);
    }

    lemma DeletedFromAside(slot: Slot, expected: Node, name: string, before: Visible, staged: Staging, result: Result)
      requires slot in before && name !in staged
      requires Deleted(slot, expected, name, (before - {slot})[slot := before[slot]], staged[name := before[slot]] - {name}, result)
      ensures Deleted(slot, expected, name, before, staged, result)
    {
      assert (before - {slot})[slot := before[slot]] == before;
      assert staged[name := before[slot]] - {name} == staged;
    }

    /** What a deletion leaves. */
    ghost predicate Deleted(slot: Slot, expected: Node, name: string, oldVisible: Visible, oldStaging: Staging, result: Result)
      reads this
    {
      if result.Ok? then
        && slot in oldVisible && Matches(oldVisible[slot], expected)
        && visible == oldVisible - {slot} && staging == oldStaging
      else
        || (visible == oldVisible && staging == oldStaging)
        || (&& result == Err(Unavailable) && slot in oldVisible && name !in oldStaging
            && visible == oldVisible - {slot} && staging == oldStaging[name := oldVisible[slot]])
    }

    /** The rest of a deletion, once the entry is aside: check it, remove it, or put it back. */
    method RemoveAside(slot: Slot, expected: Node, name: string, ios: seq<Io>, ghost q: Request) returns (result: Result)
      requires q.op == Delete && q.slot == slot && q.expected == expected && q.temp == name && q.pc == Renamed
      requires |ios| >= 5 && name in staging && slot !in visible
      modifies this`visible, this`staging
      ensures Ends(old(Alone(Idle(), q)), ios, 2, name, Idle(), result)
      ensures Deleted(slot, expected, name, old(visible)[slot := old(staging)[name]], old(staging) - {name}, result)
      ensures result == OfRemoval(old(visible), old(staging)[name], expected, ios)
    {
      ghost var w := Alone(Idle(), q);
      if !(ios[2].ok && Stages(name, expected)) {
        MovesAlone(Idle(), q, Undoing(Conflict));
        GoesOn(w, Alone(Idle(), q.(pc := Undoing(Conflict))), ios, 2, name);
        result := PutBack(slot, expected, name, Conflict, ios, 3, q.(pc := Undoing(Conflict)));
        return;
      }
      ghost var removing := Alone(Idle(), q.(pc := Removing));
      MovesAlone(Idle(), q, Removing);
      GoesOn(w, removing, ios, 2, name);
      if ios[3].ok && CanBeRemoved(visible, expected.kind, staging[name]) {
        Reports(removing, UnlinkStaged(removing, 0), ios, 3, name, Ok, true);
        staging := staging - {name};
        assert visible == old(visible)[slot := old(staging)[name]] - {slot};
        return Ok;
      }
      MovesAlone(Idle(), q.(pc := Removing), Undoing(ios[3].error));
      GoesOn(removing, Alone(Idle(), q.(pc := Undoing(ios[3].error))), ios, 3, name);
      result := PutBack(slot, expected, name, ios[3].error, ios, 4, q.(pc := Undoing(ios[3].error)));
    }

    /** The `rollback` closure of a deletion, and the report after it. */
    method PutBack(slot: Slot, expected: Node, name: string, failure: Code, ios: seq<Io>, k: nat, ghost q: Request)
      returns (result: Result)
      requires q.op == Delete && q.slot == slot && q.temp == name && q.pc == Undoing(failure)
      requires |ios| > k && name in staging && slot !in visible
      modifies this`visible, this`staging
      ensures Ends(old(Alone(Idle(), q)), ios, k, name, Idle(), result)
      ensures Deleted(slot, expected, name, old(visible)[slot := old(staging)[name]], old(staging) - {name}, result)
      ensures result == Undone(ios[k], failure)
    {
      ghost var w := Alone(Idle(), q);
      var restored := RenameIntoPlace(name, slot, ios[k]);
      result := Err(if restored then failure else Unavailable);
      Reports(w, Alone(Idle(), q), ios, k, name, result, false);
      assert old(visible) == old(visible)[slot := old(staging)[name]] - {slot};
      assert old(staging) == (old(staging) - {name})[name := old(staging)[name]];
    }

    /** `move_entry`; the refusals of its depth and self-containment checks are failures of its rename. */
    method MoveEntry(from: Slot, to: Slot, expected: Node, ios: seq<Io>) returns (result: Result)
      requires Valid() && |ios| >= 4
      modifies this`visible
      ensures Valid()
      ensures Ends(old(Alone(Idle(), Direct(Move(to), from, expected))), ios, 0, "", Idle(), result)
      ensures result.Ok? <==>
        && ios[0].ok && ios[1].ok && ios[2].ok && from != to
        && from in old(visible) && Matches(old(visible)[from], expected) && to !in old(visible)
      ensures result.Err? ==> result == MoveError(old(visible), from, to, expected, ios)
      ensures result.Ok? ==>
        && from in old(visible) && to !in old(visible) && from != to && Matches(old(visible)[from], expected)
        && visible == (old(visible) - {from})[to := old(visible)[from]]
      ensures result.Err? ==>
        || visible == old(visible)
        || (&& result == Err(Unavailable) && from in old(visible) && to !in old(visible)
            && visible == (old(visible) - {from})[to := old(visible)[from]])
    {
      ghost var q := Direct(Move(to), from, expected);
      ghost var w := Alone(Idle(), q);
      AloneIsSolo(Idle(), q, "");
      result := LookAndMove(from, to, expected, ios);
      EndsIdle(w, ios, 0, "", Idle(), result);
    }

    /** What a move leaves. */
    ghost predicate MovedOrNot(from: Slot, to: Slot, expected: Node, oldVisible: Visible, result: Result)
      reads this
    {
      || (result.Err? && visible == oldVisible)
      || (&& from in oldVisible && to !in oldVisible && from != to
          && visible == (oldVisible - {from})[to := oldVisible[from]]
          && (if result.Ok? then Matches(oldVisible[from], expected) else result == Err(Unavailable)))
    }

    method LookAndMove(from: Slot, to: Slot, expected: Node, ios: seq<Io>) returns (result: Result)
      requires |ios| >= 4
      modifies this`visible
      ensures Ends(old(Alone(Idle(), Direct(Move(to), from, expected))), ios, 0, "", Idle(), result)
      ensures MovedOrNot(from, to, expected, old(visible), result)
      ensures result == if from == to then Err(Conflict)
                        else if !ios[0].ok || from !in old(visible) then Failure(ios[0], NotFound)
                        else if !Matches(old(visible)[from], expected) then Err(Conflict)
                        else OfRename(old(visible), from, to, ios)
    {
      ghost var q := Direct(Move(to), from, expected);
      ghost var w := Alone(Idle(), q);
      if from == to {
        Reports(w, w, ios, 0, "", Err(Conflict), false);
        return Err(Conflict);
      }
      if !ios[0].ok || from !in visible {
        result := Failure(ios[0], NotFound);
        Reports(w, w, ios, 0, "", result, false);
        return;
      }
      if !Shows(from, expected) {
        Reports(w, w, ios, 0, "", Err(Conflict), false);
        return Err(Conflict);
      }
      ghost var checked := Alone(Idle(), q.(pc := Checked));
      MovesAlone(Idle(), q, Checked);
      GoesOn(w, checked, ios, 0, "");
      result := RenameAndCheck(from, to, expected, ios, q.(pc := Checked));
    }

    /** The rest of a move, once the entry is known to be the expected one. */
    method RenameAndCheck(from: Slot, to: Slot, expected: Node, ios: seq<Io>, ghost r: Request) returns (result: Result)
      requires r.op == Move(to) && r.slot == from && r.expected == expected && r.pc == Checked && from != to && |ios| >= 4
      requires from in visible && Matches(visible[from], expected)
      modifies this`visible
      ensures Ends(old(Alone(Idle(), r)), ios, 1, "", Idle(), result)
      ensures MovedOrNot(from, to, expected, old(visible), result)
      ensures result == OfRename(old(visible), from, to, ios)
    {
      ghost var checked := Alone(Idle(), r);
      var moved := RenameVisible(from, to, ios[1]);
      if !moved {
        Reports(checked, checked, ios, 1, "", Err(ios[1].error), false);
        return Err(ios[1].error);
      }
      ghost var q := r.(pc := Renamed, before := View(old(visible), {from, to}));
      MoveEnters(old(Idle()), r, ios[1]);
      GoesOn(checked, Alone(Idle(), q), ios, 1, "");
      result := CheckMoved(from, to, expected, ios, q);
      MovedAndBack(old(visible), from, to);
    }

    /** The rest of a move, once the entry is at its destination: check it, or move it back. */
    method CheckMoved(from: Slot, to: Slot, expected: Node, ios: seq<Io>, ghost q: Request) returns (result: Result)
      requires q.op == Move(to) && q.slot == from && q.expected == expected && q.pc == Renamed
      requires |ios| >= 4 && from !in visible && to in visible && Matches(visible[to], expected)
      modifies this`visible
      ensures Ends(old(Alone(Idle(), q)), ios, 2, "", Idle(), result)
      ensures result == if ios[2].ok then Ok else Undone(ios[3], ios[2].error)
      ensures result.Ok? ==> visible == old(visible) && Matches(visible[to], expected)
      ensures result.Err? ==>
        || visible == (old(visible) - {to})[from := old(visible)[to]]
        || (visible == old(visible) && result == Err(Unavailable))
    {
      ghost var w := Alone(Idle(), q);
      if ios[2].ok && Shows(to, expected) {
        Reports(w, w, ios, 2, "", Ok, false);
        return Ok;
      }
      ghost var failure := if ios[2].ok then Conflict else ios[2].error;
      ghost var undoing := Alone(Idle(), q.(pc := Undoing(failure)));
      MovesAlone(Idle(), q, Undoing(failure));
      GoesOn(w, undoing, ios, 2, "");
      var restored := RenameVisible(to, from, ios[3]);
      result := if restored then Failure(ios[2], Conflict) else Err(Unavailable);
      Reports(undoing, Alone(Idle(), q.(pc := Undoing(failure))), ios, 3, "", result, false);
    }

    /** `recover_staging_directory`: scan everything first, then remove leftover trees, then
        leftover files. `listing` is the directory listing; a tree's `contents` is the number of
        entries in it, each of which counts against the budget, and `cuts` says how many of them go
        before a call that fails. */
    method RecoverStaging(listing: seq<string>, maxEntries: nat, ios: seq<Io>, cuts: seq<nat>)
      returns (result: Result, count: nat)
      requires (forall n :: n in listing <==> n in staging) && Distinct(listing)
      requires |ios| == |cuts| >= |listing|
      modifies this`staging
      ensures OnlyCleans(old(staging), staging, Recoverable(old(staging)))
      ensures |listing| > maxEntries ==> result == Err(TooLarge) && staging == old(staging)
      ensures result.Ok? ==>
        staging == old(staging) - Recoverable(old(staging)) && count == |Recoverable(old(staging))|
    {
      count := 0;
      var fits, trees, files := ScanStaging(listing, maxEntries);
      if !fits {
        return Err(TooLarge), 0;
      }
      assert FoundIn(old(staging), trees, files);
      FoundIsRecoverable(old(staging), trees, files);
      result := CleanTrees(trees, |listing|, maxEntries, ios, cuts);
      if result.Err? {
        CleansMore(old(staging), staging, Names(trees), Recoverable(old(staging)));
        return;
      }
      assert staging == old(staging) - Names(trees);
      result := RemoveFiles(files, ios[|trees|..]);
      CleansInTurn(old(staging), staging, Names(trees), Names(files));
      if result.Err? {
        return;
      }
      count := |files| + |trees|;
    }

    /** `clean_tree`: the entries go one by one, until they are gone, the budget is spent, or a call
        fails after `cut` of them; then the directory itself goes. */
    method CleanTree(name: string, visited: nat, maxEntries: nat, io: Io, cut: nat) returns (result: Result, visited': nat)
      requires name in staging && staging[name].kind.Directory? && visited <= maxEntries
      modifies this`staging
      ensures OnlyCleans(old(staging), staging, {name})
      ensures result.Ok? ==> staging == old(staging) - {name} && visited' == visited + old(staging)[name].contents
      ensures result.Ok? <==> io.ok && visited + old(staging)[name].contents <= maxEntries
      ensures result.Ok? ==> visited' <= maxEntries
    {
      var entries, room := staging[name].contents, maxEntries - visited;
      var going := if io.ok then entries else Min(cut, entries);
      if entries > room && going >= room {
        staging := staging[name := staging[name].(contents := entries - room)];
        return Err(TooLarge), maxEntries;
      }
      visited' := visited + going;
      if !io.ok {
        staging := staging[name := staging[name].(contents := entries - going)];
        return Err(io.error), visited';
      }
      staging := staging - {name};
      result := Ok;
    }

    /** The first removal loop, which stops at the first failure. */
    method CleanTrees(trees: seq<string>, scanned: nat, maxEntries: nat, ios: seq<Io>, cuts: seq<nat>) returns (result: Result)
      requires Distinct(trees) && forall n :: n in trees ==> n in staging && staging[n].kind.Directory?
      requires scanned <= maxEntries && |ios| == |cuts| >= |trees|
      modifies this`staging
      ensures OnlyCleans(old(staging), staging, Names(trees))
      ensures result.Ok? ==> staging == old(staging) - Names(trees)
    {
      var visited: nat := scanned;
      ghost var gone: set<string> := {};
      for i := 0 to |trees|
        invariant visited <= maxEntries
        invariant forall n :: n in gone <==> n in trees[..i]
        invariant staging == old(staging) - gone
      {
        var name := trees[i];
        assert trees[..i + 1] == trees[..i] + [name];
        assert name !in trees[..i];
        result, visited := CleanTree(name, visited, maxEntries, ios[i], cuts[i]);
        if result.Err? {
          return;
        }
        gone := gone + {name};
      }
      result := Ok;
      assert trees[..|trees|] == trees;
      assert gone == Names(trees);
    }

    /** The second removal loop, which stops at the first failure. */
    method RemoveFiles(files: seq<string>, ios: seq<Io>) returns (result: Result)
      requires Distinct(files) && (forall n :: n in files ==> n in staging) && |ios| >= |files|
      modifies this`staging
      ensures OnlyCleans(old(staging), staging, Names(files))
      ensures result.Ok? ==> staging == old(staging) - Names(files)
    {
      ghost var gone: set<string> := {};
      for i := 0 to |files|
        invariant forall n :: n in gone <==> n in files[..i]
        invariant staging == old(staging) - gone
      {
        assert files[..i + 1] == files[..i] + [files[i]];
        assert files[i] !in files[..i];
        var removed := RemoveStaged(files[i], ios[i]);
        if !removed {
          return Err(ios[i].error);
        }
        gone := gone + {files[i]};
      }
      result := Ok;
      assert files[..|files|] == files;
      assert gone == Names(files);
    }

    /** The scan phase: every entry counts, and only recoverable names are kept for removal. */
    method ScanStaging(listing: seq<string>, maxEntries: nat) returns (fits: bool, trees: seq<string>, files: seq<string>)
      requires (forall n :: n in listing ==> n in staging) && Distinct(listing)
      ensures fits <==> |listing| <= maxEntries
      ensures fits ==> Classified(listing, trees, files) && |trees| + |files| <= |listing|
    {
      trees, files := [], [];
      for i := 0 to |listing|
        invariant i <= maxEntries && |files| + |trees| <= i
        invariant Classified(listing[..i], trees, files)
      {
        if i + 1 > maxEntries {
          return false, trees, files;
        }
        var name := listing[i];
        assert listing[..i + 1] == listing[..i] + [name];
        assert name !in listing[..i];
        if !IsRetained(name) {
          if IsGenerated(TREE_PREFIX, name) && staging[name].kind.Directory? {
            trees := trees + [name];
          } else if IsGenerated(TEMP_PREFIX, name) && staging[name].kind.File? {
            files := files + [name];
          }
        }
      }
      assert listing[..|listing|] == listing;
      fits := true;
    }

    /** The scanned names, sorted into leftover trees and leftover files. */
    ghost predicate Classified(scanned: seq<string>, trees: seq<string>, files: seq<string>)
      reads this
    {
      && (forall n :: n in scanned ==> n in staging)
      && (forall n :: n in trees || n in files <==> n in scanned && IsRecoverable(n, staging[n]))
      && (forall n :: n in trees ==> n in staging && staging[n].kind.Directory?)
      && (forall n :: n in files ==> n in staging && staging[n].kind.File?)
      && Distinct(trees) && Distinct(files)
    }
  }

  // ---- staged files ----

  /** A staged file and its drop guard. */
  class PendingWrite {
    const share: Share
    const destination: Slot
    const own: Node
    var temporaryName: string
    var published: bool

    /** `begin_write`: a new file under a new staging name. */
    constructor (share: Share, temporaryName: string, destination: Slot, own: Node)
      requires share.Valid() && own.kind.File? && IsGenerated(TEMP_PREFIX, temporaryName)
      requires temporaryName !in share.staging && own.id !in share.created && own.id !in share.published
      requires Absent(share.Idle(), own.id)
      modifies share`staging, share`created
      ensures this.share == share && this.destination == destination && this.own == own
      ensures this.temporaryName == temporaryName && Valid()
      ensures share.staging == old(share.staging)[temporaryName := own]
    {
      this.share := share;
      this.temporaryName := temporaryName;
      this.destination := destination;
      this.own := own;
      this.published := false;
      new;
      ghost var before := share.Idle();
      share.staging := share.staging[temporaryName := own];
      share.created := share.created + {own.id};
      DiskCreate(before, share.Idle(), temporaryName, own);
    }

    /** The file is staged under its temporary name, and nowhere else. */
    ghost predicate Valid()
      reads this, share
    {
      && share.Valid() && !published && own.kind.File?
      && IsGenerated(TEMP_PREFIX, temporaryName) && temporaryName in share.staging
      && share.staging[temporaryName] == own && Private(share.Idle(), own)
    }

    /** The machine's state with only this object's request. */
    ghost function Now(op: Op, expected: Node, pc: Pc, before: Visible): World
      reads this, share
    {
      Alone(share.Idle(), AsRequest(op, expected, pc, before))
    }

    ghost function AsRequest(op: Op, expected: Node, pc: Pc, before: Visible): Request
      reads this
    {
      Request(op, destination, expected, own, temporaryName, pc, before)
    }

    /** The drop guard. */
    method Drop(io: Io)
      modifies share`staging
      ensures share.staging ==
        if !published && io.ok then old(share.staging) - {temporaryName} else old(share.staging)
    {
      if !published {
        var _ := share.RemoveStaged(temporaryName, io);
        assert temporaryName !in old(share.staging) ==> old(share.staging) - {temporaryName} == old(share.staging);
      }
    }

    /** The file keeps its staging name, because its removal fails too. */
    predicate GuardFails(visible: Visible, ios: seq<Io>)
      requires |ios| >= 5
    {
      if !ios[0].ok then !ios[1].ok else (!ios[1].ok || destination in visible) && !ios[2].ok
    }

    /** `publish_new`, ending with the drop of the object. It fails and leaves the names changed
        exactly when the rename worked and both the validation and the removal after it failed. */
    method PublishNew(ios: seq<Io>) returns (result: Result)
      requires Valid() && |ios| >= 5
      modifies this`published, share`visible, share`staging, share`published
      ensures share.Valid()
      ensures Ends(old(Now(New, own, Start, map[])), ios, 0, "", share.Idle(), result)
      ensures result.Ok? <==> ios[0].ok && ios[1].ok && ios[2].ok && destination !in old(share.visible)
      ensures result.Err? ==> result == NewError(old(share.visible), destination, ios)
      ensures share.staging == if GuardFails(old(share.visible), ios) then old(share.staging) else old(share.staging) - {old(temporaryName)}
      ensures result.Ok? ==>
        && destination !in old(share.visible) && share.visible == old(share.visible)[destination := own]
      ensures result.Err? ==>
        || share.visible == old(share.visible)
        || (&& result == Err(Conflict) && destination !in old(share.visible)
            && share.visible == old(share.visible)[destination := own])
      ensures result.Err? && share.visible != old(share.visible)
         <==> ios[0].ok && ios[1].ok && destination !in old(share.visible) && !ios[2].ok && !ios[3].ok
    {
      ghost var w := Now(New, own, Start, map[]);
      AloneIsSolo(share.Idle(), AsRequest(New, own, Start, map[]), "");
      if !ios[0].ok {
        ReportsAndCleans(w, w, ios, 0, "", Err(ios[0].error));
        Drop(ios[1]);
        result := Err(ios[0].error);
      } else {
        MovesAlone(share.Idle(), AsRequest(New, own, Start, map[]), Checked);
        GoesOn(w, Now(New, own, Checked, map[]), ios, 0, "");
        result := RenameAndValidate(ios);
      }
      EndsIdle(w, ios, 0, "", share.Idle(), result);
    }

    /** The rest of `publish_new`, once the file is synced. */
    method RenameAndValidate(ios: seq<Io>) returns (result: Result)
      requires !published && own.kind.File? && |ios| >= 5
      requires temporaryName in share.staging && share.staging[temporaryName] == own
      modifies this`published, share`visible, share`staging, share`published
      ensures Ends(old(Now(New, own, Checked, map[])), ios, 1, "", share.Idle(), result)
      ensures
        if !ios[1].ok || destination in old(share.visible) then
          result == Err(ios[1].error) && share.visible == old(share.visible)
        else if ios[2].ok then result.Ok? && share.visible == old(share.visible)[destination := own]
        else
          && result == Err(Conflict)
          && share.visible == if ios[3].ok then old(share.visible) else old(share.visible)[destination := own]
      ensures share.staging == if (!ios[1].ok || destination in old(share.visible)) && !ios[2].ok then old(share.staging)
                               else old(share.staging) - {temporaryName}
    {
      ghost var w := Now(New, own, Checked, map[]);
      var renamed := share.RenameIntoPlace(temporaryName, destination, ios[1]);
      if !renamed {
        ReportsAndCleans(w, w, ios, 1, "", Err(ios[1].error));
        Drop(ios[2]);
        return Err(ios[1].error);
      }
      NewEnters(old(share.Idle()), old(AsRequest(New, own, Checked, map[])), ios[1]);
      GoesOn(w, Now(New, own, Renamed, map[]), ios, 1, "");
      result := Validate(ios);
      assert old(share.visible)[destination := own] - {destination} == old(share.visible);
    }

    /** The rest, once the staged file has its destination name. */
    method Validate(ios: seq<Io>) returns (result: Result)
      requires !published && |ios| >= 5 && own.kind.File?
      requires destination in share.visible && share.visible[destination] == own && temporaryName !in share.staging
      modifies this`published, share`visible, share`staging, share`published
      ensures Ends(old(Now(New, own, Renamed, map[])), ios, 2, "", share.Idle(), result)
      ensures
        if ios[2].ok then result.Ok? && share.visible == old(share.visible)
        else
          && result == Err(Conflict)
          && share.visible == if ios[3].ok then old(share.visible) - {destination} else old(share.visible)
      ensures share.staging == old(share.staging)
    {
      ghost var w := Now(New, own, Renamed, map[]);
      if ios[2].ok && share.Shows(destination, own) {
        Reports(w, Publish(w, own), ios, 2, "", Ok, true);
        published := true;
        share.published := share.published + {own.id};
        Drop(ios[3]);
        return Ok;
      }
      MovesAlone(share.Idle(), AsRequest(New, own, Renamed, map[]), Undoing(Conflict));
      GoesOn(w, Now(New, own, Undoing(Conflict), map[]), ios, 2, "");
      result := Withdraw(ios);
    }

    /** The destination cannot be vouched for: remove it, whether or not that works. */
    method Withdraw(ios: seq<Io>) returns (result: Result)
      requires !published && |ios| >= 5 && own.kind.File?
      requires destination in share.visible && share.visible[destination] == own && temporaryName !in share.staging
      modifies share`visible, share`staging, share`published
      ensures Ends(old(Now(New, own, Undoing(Conflict), map[])), ios, 3, "", share.Idle(), result)
      ensures result == Err(Conflict)
      ensures share.visible == if ios[3].ok then old(share.visible) - {destination} else old(share.visible)
      ensures share.staging == old(share.staging)
    {
      ghost var w := Now(New, own, Undoing(Conflict), map[]);
      ghost var q := w.requests[0];
      if ios[3].ok && destination in share.visible && share.visible[destination].kind.File? {
        ghost var u := Unlink(own, ByRequest(q));
        ReportsAndCleans(w, w.(visible := w.visible - {destination}, unlinked := w.unlinked + [u]), ios, 3, "", Err(Conflict));
        share.visible := share.visible - {destination};
      } else {
        ReportsAndCleans(w, Publish(w, own), ios, 3, "", Err(Conflict));
        share.published := share.published + {own.id};
      }
      Drop(ios[4]);
      result := Err(Conflict);
    }

    /** What a replacement leaves. */
    ghost predicate Replaced(expected: Node, name: string, temp: string, oldVisible: Visible, oldStaging: Staging, result: Result)
      reads this, share
    {
      if result.Ok? then
        && destination in oldVisible && Matches(oldVisible[destination], expected)
        && share.visible == oldVisible[destination := own] && share.staging == oldStaging - {temp}
      else
        || (share.visible == oldVisible && share.staging - {temp, name} == oldStaging - {temp, name})
        || (&& result == Err(Unavailable) && destination in oldVisible
            && share.visible == oldVisible[destination := own]
            && share.staging == (oldStaging - {temp})[name := oldVisible[destination]])
    }

    /** `publish_replacement`, ending with the drop of the object. It succeeds only on the expected
        version; it fails leaving the names as they were, or reports Unavailable with the previous
        version kept under a name that recovery retains. */
    method PublishReplacement(expected: Node, name: string, ios: seq<Io>) returns (result: Result)
      requires Valid() && IsGenerated(REPLACE_PREFIX, name) && |ios| >= 7
      modifies this`published, this`temporaryName, share`visible, share`staging, share`published
      ensures share.Valid() && IsRetained(name)
      ensures Ends(old(Now(Replace, expected, Start, map[])), ios, 0, name, share.Idle(), result)
      ensures Replaced(expected, name, old(temporaryName), old(share.visible), old(share.staging), result)
      ensures result.Ok? <==>
        && ios[0].ok && ios[1].ok && ios[2].ok && ios[3].ok && ios[4].ok && name !in old(share.staging)
        && destination in old(share.visible) && Matches(old(share.visible)[destination], expected)
        && old(share.visible)[destination].kind == File
      ensures result.Err? ==>
        result == ReplacementError(old(share.visible), old(share.staging), destination, expected, name, ios)
    {
      ghost var w := Now(Replace, expected, Start, map[]);
      AloneIsSolo(share.Idle(), AsRequest(Replace, expected, Start, map[]), name);
      PrefixesDiffer(temporaryName, name);
      result := LookAndReplace(expected, name, ios);
      EndsIdle(w, ios, 0, name, share.Idle(), result);
    }

    method LookAndReplace(expected: Node, name: string, ios: seq<Io>) returns (result: Result)
      requires !published && temporaryName in share.staging && share.staging[temporaryName] == own
      requires name != temporaryName && |ios| >= 7
      modifies this`published, this`temporaryName, share`visible, share`staging, share`published
      ensures Ends(old(Now(Replace, expected, Start, map[])), ios, 0, name, share.Idle(), result)
      ensures Replaced(expected, name, old(temporaryName), old(share.visible), old(share.staging), result)
      ensures result == if !ios[0].ok || destination !in old(share.visible) then Failure(ios[0], NotFound)
                        else if !Matches(old(share.visible)[destination], expected) || !old(share.visible)[destination].kind.File?
                        then Err(Conflict)
                        else OfReplacement(old(share.staging), name, ios)
    {
      ghost var w := Now(Replace, expected, Start, map[]);
      if !ios[0].ok || destination !in share.visible {
        result := Failure(ios[0], NotFound);
        ReportsAndCleans(w, w, ios, 0, name, result);
        Drop(ios[1]);
        return;
      }
      if !share.Shows(destination, expected) || !share.visible[destination].kind.File? {
        ReportsAndCleans(w, w, ios, 0, name, Err(Conflict));
        Drop(ios[1]);
        return Err(Conflict);
      }
      MovesAlone(share.Idle(), AsRequest(Replace, expected, Start, map[]), Checked);
      GoesOn(w, Now(Replace, expected, Checked, map[]), ios, 0, name);
      result := ArmAndReplace(expected, name, ios);
    }

    /** The destination has the expected version, and it is a file. */
    predicate IsThere(expected: Node)
      reads this, share
    {
      share.Shows(destination, expected) && share.visible[destination].kind.File?
    }

    /** The rest of a replacement, once the current version is known to be the expected one. */
    method ArmAndReplace(expected: Node, name: string, ios: seq<Io>) returns (result: Result)
      requires !published && temporaryName in share.staging && share.staging[temporaryName] == own
      requires name != temporaryName && |ios| >= 7 && IsThere(expected)
      modifies this`published, this`temporaryName, share`visible, share`staging, share`published
      ensures Ends(old(Now(Replace, expected, Checked, map[])), ios, 1, name, share.Idle(), result)
      ensures Replaced(expected, name, old(temporaryName), old(share.visible), old(share.staging), result)
      ensures result == OfReplacement(old(share.staging), name, ios)
    {
      ghost var w := Now(Replace, expected, Checked, map[]);
      var retained := share.RenameStaged(temporaryName, name, ios[1]);
      if !retained {
        ReportsAndCleans(w, w, ios, 1, name, Err(ios[1].error));
        Drop(ios[2]);
        return Err(ios[1].error);
      }
      temporaryName := name;
      ReplaceArms(old(share.Idle()), old(AsRequest(Replace, expected, Checked, map[])), ios[1], name);
      GoesOn(w, Now(Replace, expected, Armed, map[]), ios, 1, name);
      result := ExchangeVersions(expected, name, ios);
      ReplacedFromArmed(expected, name, old(temporaryName), old(share.visible), old(share.staging), result);
    }

    lemma ReplacedFromArmed(expected: Node, name: string, temp: string, visible: Visible, staging: Staging, result: Result)
      requires temp in staging && name !in staging
      requires Replaced(expected, name, name, visible, (staging - {temp})[name := staging[temp]], result)
      ensures Replaced(expected, name, temp, visible, staging, result)
    {
      var armed := (staging - {temp})[name := staging[temp]];
      assert armed - {name} == staging - {temp};
      if result.Err? && share.staging - {name, name} == armed - {name, name} {
        assert share.staging - {temp, name} == (share.staging - {name, name}) - {temp};
        assert staging - {temp, name} == (armed - {name, name}) - {temp};
      }
    }

    /** The rest of a replacement, once the staged file has its retained name. */
    method ExchangeVersions(expected: Node, name: string, ios: seq<Io>) returns (result: Result)
      requires !published && temporaryName == name && name in share.staging && share.staging[name] == own && |ios| >= 7
      requires IsThere(expected)
      modifies this`published, share`visible, share`staging, share`published
      ensures Ends(old(Now(Replace, expected, Armed, map[])), ios, 2, name, share.Idle(), result)
      ensures Replaced(expected, name, name, old(share.visible), old(share.staging), result)
      ensures result == if !ios[2].ok then Err(ios[2].error) else OfExchange(ios)
    {
      ghost var w := Now(Replace, expected, Armed, map[]);
      var exchanged := share.Exchange(temporaryName, destination, ios[2]);
      if !exchanged {
        ReportsAndCleans(w, w, ios, 2, name, Err(ios[2].error));
        Drop(ios[3]);
        return Err(ios[2].error);
      }
      ghost var before := View(old(share.visible), {destination});
      ReplaceEnters(old(share.Idle()), old(AsRequest(Replace, expected, Armed, map[])), ios[2], name);
      GoesOn(w, Now(Replace, expected, Renamed, before), ios, 2, name);
      result := CheckExchange(expected, name, ios, before);
      ReplacedFromExchanged(expected, name, old(share.visible), old(share.staging), result);
    }

    /** The names and the staged file, seen from after the exchange. */
    ghost predicate Decided(expected: Node, name: string, visible: Visible, staging: Staging, result: Result)
      requires destination in visible && name in staging
      reads this, share
    {
      if result.Ok? then
        && Matches(staging[name], expected) && share.visible == visible && share.staging == staging - {name}
      else
        || (share.visible == visible[destination := staging[name]] && share.staging - {name} == staging - {name})
        || (result == Err(Unavailable) && share.visible == visible && share.staging == staging)
    }

    lemma ReplacedFromExchanged(expected: Node, name: string, visible: Visible, staging: Staging, result: Result)
      requires destination in visible && name in staging && staging[name] == own
      requires Decided(expected, name, visible[destination := own], staging[name := visible[destination]], result)
      ensures Replaced(expected, name, name, visible, staging, result)
    {
      var there, aside := visible[destination := own], staging[name := visible[destination]];
      assert there[destination := visible[destination]] == visible;
      assert aside - {name} == staging - {name} && aside == (staging - {name})[name := visible[destination]];
      assert share.staging - {name, name} == share.staging - {name} && staging - {name, name} == staging - {name};
    }

    /** The rest of a replacement, once the files are exchanged: check both. */
    method CheckExchange(expected: Node, name: string, ios: seq<Io>, ghost before: Visible) returns (result: Result)
      requires !published && temporaryName == name && |ios| >= 7
      requires name in share.staging && Matches(share.staging[name], expected) && share.staging[name].kind.File?
      requires destination in share.visible && share.visible[destination] == own
      modifies this`published, share`visible, share`staging, share`published
      ensures Ends(old(Now(Replace, expected, Renamed, before)), ios, 3, name, share.Idle(), result)
      ensures Decided(expected, name, old(share.visible), old(share.staging), result)
      ensures result == OfExchange(ios)
    {
      ghost var w := Now(Replace, expected, Renamed, before);
      if ios[3].ok && share.Shows(destination, own) && share.Stages(temporaryName, expected) {
        MovesAlone(share.Idle(), AsRequest(Replace, expected, Renamed, before), Removing);
        GoesOn(w, Now(Replace, expected, Removing, before), ios, 3, name);
        result := RemovePrevious(expected, name, ios, before);
      } else {
        result := RefuseExchange(expected, name, ios, before);
      }
    }

    /** The files cannot be vouched for: exchange them back. */
    method RefuseExchange(expected: Node, name: string, ios: seq<Io>, ghost before: Visible) returns (result: Result)
      requires !published && temporaryName == name && |ios| >= 7 && !ios[3].ok
      requires name in share.staging && destination in share.visible && share.visible[destination] == own
      modifies this`published, share`visible, share`staging, share`published
      ensures Ends(old(Now(Replace, expected, Renamed, before)), ios, 3, name, share.Idle(), result)
      ensures Decided(expected, name, old(share.visible), old(share.staging), result)
      ensures result == Undone(ios[4], Conflict)
    {
      ghost var w := Now(Replace, expected, Renamed, before);
      MovesAlone(share.Idle(), AsRequest(Replace, expected, Renamed, before), Undoing(Conflict));
      GoesOn(w, Now(Replace, expected, Undoing(Conflict), before), ios, 3, name);
      result := RollBack(expected, Conflict, name, ios, 4, before);
    }

    /** Remove the previous version, or exchange the files back. */
    method RemovePrevious(expected: Node, name: string, ios: seq<Io>, ghost before: Visible) returns (result: Result)
      requires !published && temporaryName == name && |ios| >= 7
      requires name in share.staging && Matches(share.staging[name], expected) && share.staging[name].kind.File?
      requires destination in share.visible && share.visible[destination] == own
      modifies this`published, share`visible, share`staging, share`published
      ensures Ends(old(Now(Replace, expected, Removing, before)), ios, 4, name, share.Idle(), result)
      ensures Decided(expected, name, old(share.visible), old(share.staging), result)
      ensures result == if ios[4].ok then Ok else Undone(ios[5], ios[4].error)
    {
      ghost var w := Now(Replace, expected, Removing, before);
      ReplaceRemoves(share.Idle(), AsRequest(Replace, expected, Removing, before), ios[4], name);
      if share.staging[temporaryName].kind.File? {
        var removed := share.RemoveStaged(temporaryName, ios[4]);
        if removed {
          PreviousIsGone(old(share.Idle()), old(AsRequest(Replace, expected, Removing, before)), ios, 4, name);
          share.published := share.published + {own.id};
          published := true;
          Drop(ios[5]);
          return Ok;
        }
      }
      GoesOn(w, Now(Replace, expected, Undoing(ios[4].error), before), ios, 4, name);
      result := RollBack(expected, ios[4].error, name, ios, 5, before);
    }

    /** `rollback_exchange`, `retain_after_failed_rollback`, and the report after them: the files are
        exchanged back, or the previous version stays under its retained name and the guard is disarmed. */
    method RollBack(expected: Node, failure: Code, name: string, ios: seq<Io>, k: nat, ghost before: Visible)
      returns (result: Result)
      requires !published && temporaryName == name && |ios| > k + 1
      requires name in share.staging && destination in share.visible && share.visible[destination] == own
      modifies this`published, share`visible, share`staging, share`published
      ensures Ends(old(Now(Replace, expected, Undoing(failure), before)), ios, k, name, share.Idle(), result)
      ensures if ios[k].ok then
          && result == Err(failure)
          && share.visible == old(share.visible)[destination := old(share.staging)[name]]
          && share.staging == if ios[k + 1].ok then old(share.staging) - {name} else old(share.staging)[name := own]
        else
          result == Err(Unavailable) && published && share.visible == old(share.visible) && share.staging == old(share.staging)
    {
      ghost var w := Now(Replace, expected, Undoing(failure), before);
      var rolledBack := share.Exchange(temporaryName, destination, ios[k]);
      if !rolledBack {
        Reports(w, Publish(w, own), ios, k, name, Err(Unavailable), true);
        share.published := share.published + {own.id};
        published := true;
        Drop(ios[k + 1]);
        return Err(Unavailable);
      }
      ReportsAndCleans(w, w.(visible := share.visible, staging := share.staging), ios, k, name, Err(failure));
      Drop(ios[k + 1]);
      assert old(share.staging)[name := own] - {name} == old(share.staging) - {name};
      result := Err(failure);
    }
  }
}
