/**
 Staged publication, deletion, moves and startup recovery (src/filesystem.rs) as a step
 machine. Every step is one system call of one request, and its success or failure is a
 free choice. Any number of requests interleave with each other, with other processes,
 and with crashes followed by startup recovery.

 Assumptions about the world outside the code:
 - a failed system call has no effect, and the private staging directory is private;
 - while a request has an entry renamed or exchanged but not yet kept or rolled back, no
   other request touches its user-visible names (the commit lock gives this), and no other
   process does either, except that it may remove or replace a new file just published;
 - validator equality stands for "same version", and a random staging name is not one that
   a live request is using.
 */
module Publication {
  import opened Common

  datatype Kind = File | Directory

  /** A filesystem object. Only the first four fields are visible to the validator. */
  datatype Node = Node(kind: Kind, size: nat, modified: int, id: nat, contents: nat)

  /** A directory entry: the identity of the containing directory and a name in it. */
  datatype Slot = Slot(dir: nat, name: string)

  type Visible = map<Slot, Node>

  type Staging = map<string, Node>

  datatype Code =
    | AccessDenied | Conflict | CrossDevice | InvalidPath | NotFound | TooLarge | TooDeep
    | UnsupportedEntry | Unavailable

  datatype Result = Ok | Err(code: Code)

  /** The result the operating system gives to one call; `error` is read only on failure. */
  datatype Io = Io(ok: bool, error: Code)

  predicate Matches(a: Node, b: Node) {
    a.kind == b.kind && a.size == b.size && a.modified == b.modified && a.id == b.id
  }

  // ---- staging names ----

  const TEMP_PREFIX := ".index-tmp-"
  const DELETE_PREFIX := ".index-del-"
  const REPLACE_PREFIX := ".index-rep-"
  const TREE_PREFIX := ".index-arc-"

  predicate StartsWith(name: string, prefix: string) {
    prefix <= name
  }

  predicate IsHexDigit(c: char) {
    '0' <= c <= '9' || 'a' <= c <= 'f' || 'A' <= c <= 'F'
  }

  /** `prefix` followed by exactly 32 hexadecimal digits. */
  predicate IsGenerated(prefix: string, name: string) {
    && StartsWith(name, prefix)
    && |name| == |prefix| + 32
    && forall i :: |prefix| <= i < |name| ==> IsHexDigit(name[i])
  }

  predicate IsRetained(name: string) {
    StartsWith(name, DELETE_PREFIX) || StartsWith(name, REPLACE_PREFIX)
  }

  /** What startup recovery removes. */
  predicate IsRecoverable(name: string, node: Node) {
    && !IsRetained(name)
    && ((IsGenerated(TREE_PREFIX, name) && node.kind.Directory?)
        || (IsGenerated(TEMP_PREFIX, name) && node.kind.File?))
  }

  // ---- requests ----

  /** The operations. `New`, `Tree` and `Replace` own a staged node and a drop guard. */
  datatype Op = New | Tree | Replace | Delete | Move(to: Slot)

  datatype Pc =
    | Start                 // nothing of the user's has been looked at
    | Checked               // the validator matched before any change
    | Armed                 // Replace: the staged file has its retained name
    | Renamed               // the rename or exchange happened and is not yet validated
    | Removing              // the displaced entry was validated; it is about to be unlinked
    | Undoing(error: Code)  // the rename or exchange must be rolled back
    | Cleaning              // the result is decided; the drop guard is about to run

  datatype Request = Request(
    op: Op, slot: Slot, expected: Node, own: Node, temp: string, pc: Pc, before: Visible)

  predicate Guarded(op: Op) {
    op.New? || op.Tree? || op.Replace?
  }

  predicate UsesTemp(q: Request) {
    Guarded(q.op) || (q.op.Delete? && InWindow(q.pc))
  }

  /** Between the change of a user-visible name and the decision to keep or undo it. */
  predicate InWindow(pc: Pc) {
    pc.Renamed? || pc.Removing? || pc.Undoing?
  }

  /** The next successful step of this request changes a user-visible name. */
  predicate EntersWindow(q: Request) {
    if q.op.Replace? then q.pc.Armed? else q.pc.Checked?
  }

  function Slots(q: Request): set<Slot> {
    if q.op.Move? then {q.slot, q.op.to} else {q.slot}
  }

  function View(visible: Visible, slots: set<Slot>): Visible {
    map s | s in visible && s in slots :: visible[s]
  }

  /** What a request reported, what its names held before its first change and at its report,
      and what its staging name held at its report. */
  datatype Outcome = Outcome(
    request: Request, result: Result, before: Visible, after: Visible, kept: Option<Node>)

  function Lookup(staging: Staging, name: string): Option<Node> {
    if name in staging then Some(staging[name]) else None
  }

  datatype Actor = ByRequest(request: Request) | ByRecovery

  datatype Unlink = Unlink(node: Node, actor: Actor)

  /** `created` and `published` are the identities of nodes Crabinet staged, and of those it
      has since given to the user; `unlinked` and `outcomes` are histories. */
  datatype World = World(
    visible: Visible, staging: Staging, requests: map<nat, Request>, starting: bool,
    created: set<nat>, published: set<nat>, unlinked: seq<Unlink>, outcomes: seq<Outcome>)

  function VisibleIds(w: World): set<nat> {
    set s | s in w.visible :: w.visible[s].id
  }

  predicate Private(w: World, node: Node) {
    node.id in w.created && node.id !in w.published
  }

  // ---- one system call of one request ----

  /** The request returns `result` to its caller; a guarded request that did not succeed, and
      was not disarmed, still has its drop guard to run. */
  function Conclude(w: World, r: nat, result: Result, disarmed: bool): World
    requires r in w.requests
  {
    var q := w.requests[r];
    var after := View(w.visible, Slots(q));
    var before := if InWindow(q.pc) then q.before else after;
    var rest := if Guarded(q.op) && !disarmed then w.requests[r := q.(pc := Cleaning)] else w.requests - {r};
    w.(requests := rest, outcomes := w.outcomes + [Outcome(q, result, before, after, Lookup(w.staging, q.temp))])
  }

  function Goto(w: World, r: nat, pc: Pc): World
    requires r in w.requests
  {
    w.(requests := w.requests[r := w.requests[r].(pc := pc)])
  }

  /** Enters the window, remembering what the request's names held. */
  function Enter(w: World, r: nat, temp: string, visible: Visible, staging: Staging): World
    requires r in w.requests
  {
    var q := w.requests[r];
    w.(visible := visible, staging := staging,
       requests := w.requests[r := q.(pc := Renamed, temp := temp, before := View(w.visible, Slots(q)))])
  }

  function Publish(w: World, node: Node): World {
    w.(published := w.published + {node.id})
  }

  predicate CanRemove(w: World, kind: Kind, node: Node) {
    match kind
    case File => node.kind.File?
    case Directory => node.kind.Directory? && forall s :: s in w.visible ==> s.dir != node.id
  }

  function UnlinkStaged(w: World, r: nat): World
    requires r in w.requests && w.requests[r].temp in w.staging
  {
    var q := w.requests[r];
    w.(staging := w.staging - {q.temp}, unlinked := w.unlinked + [Unlink(w.staging[q.temp], ByRequest(q))])
  }

  /** The request is still the same one. */
  predicate IsSame(q: Request, q0: Request) {
    q.op == q0.op && q.slot == q0.slot && q.expected == q0.expected && q.own == q0.own
  }

  /** A call leaves its request or removes it; others are untouched. */
  predicate Touches(before: map<nat, Request>, after: map<nat, Request>, r: nat)
    requires r in before
  {
    && (after == before || after == before - {r} || (r in after && after == before[r := after[r]]))
    && (r in after ==> IsSame(after[r], before[r]))
  }

  /** A call only adds to the histories, and stages nothing new. */
  predicate LedgerGrows(w: World, v: World) {
    && v.starting == w.starting && v.created == w.created && w.published <= v.published
    && w.unlinked <= v.unlinked && w.outcomes <= v.outcomes
  }

  /** `PendingWrite::publish_new` */
  function ActNew(w: World, r: nat, io: Io): (v: World)
    requires r in w.requests
    ensures LedgerGrows(w, v) && Touches(w.requests, v.requests, r)
  {
    var q := w.requests[r];
    match q.pc
    case Start => if io.ok then Goto(w, r, Checked) else Conclude(w, r, Err(io.error), false)
    case Checked =>
      if io.ok && q.slot !in w.visible && q.temp in w.staging then
        Enter(w, r, q.temp, w.visible[q.slot := w.staging[q.temp]], w.staging - {q.temp})
      else Conclude(w, r, Err(io.error), false)
    case Renamed =>
      if io.ok && q.slot in w.visible && Matches(w.visible[q.slot], q.own) then
        Conclude(Publish(w, q.own), r, Ok, true)
      else Goto(w, r, Undoing(Conflict))
    case Undoing(error) =>
      // The result of this removal is ignored.
      if io.ok && q.slot in w.visible && w.visible[q.slot].kind.File? then
        var gone := w.(visible := w.visible - {q.slot},
                       unlinked := w.unlinked + [Unlink(w.visible[q.slot], ByRequest(q))]);
        Conclude(gone, r, Err(error), false)
      else
        // A file of ours that stays visible belongs to the user from then on.
        var left := if q.slot in w.visible && w.visible[q.slot] == q.own then Publish(w, q.own) else w;
        Conclude(left, r, Err(error), false)
    case _ => w
  }

  /** `PendingTree::publish` */
  function ActTree(w: World, r: nat, io: Io): (v: World)
    requires r in w.requests
    ensures LedgerGrows(w, v) && Touches(w.requests, v.requests, r)
  {
    var q := w.requests[r];
    match q.pc
    case Start => if io.ok then Goto(w, r, Checked) else Conclude(w, r, Err(io.error), false)
    case Checked =>
      if io.ok && q.slot !in w.visible && q.temp in w.staging then
        var entered := Enter(w, r, q.temp, w.visible[q.slot := w.staging[q.temp]], w.staging - {q.temp});
        Conclude(Publish(entered, q.own), r, Ok, true)
      else Conclude(w, r, Err(io.error), false)
    case _ => w
  }

  /** `PendingWrite::publish_replacement` */
  function ActReplace(w: World, r: nat, io: Io, name: string): (v: World)
    requires r in w.requests
    ensures LedgerGrows(w, v) && Touches(w.requests, v.requests, r)
  {
    var q := w.requests[r];
    match q.pc
    case Start =>
      if !io.ok then Conclude(w, r, Err(io.error), false)
      else if q.slot !in w.visible then Conclude(w, r, Err(NotFound), false)
      else if !Matches(w.visible[q.slot], q.expected) || !w.visible[q.slot].kind.File? then
        Conclude(w, r, Err(Conflict), false)
      else Goto(w, r, Checked)
    case Checked =>
      if io.ok && q.temp in w.staging && name !in w.staging then
        w.(staging := (w.staging - {q.temp})[name := w.staging[q.temp]],
           requests := w.requests[r := q.(pc := Armed, temp := name)])
      else Conclude(w, r, Err(io.error), false)
    case Armed =>
      if io.ok && q.slot in w.visible && q.temp in w.staging then
        Enter(w, r, q.temp, w.visible[q.slot := w.staging[q.temp]], w.staging[q.temp := w.visible[q.slot]])
      else Conclude(w, r, Err(io.error), false)
    case Renamed =>
      if && io.ok && q.slot in w.visible && Matches(w.visible[q.slot], q.own)
         && q.temp in w.staging && Matches(w.staging[q.temp], q.expected) then Goto(w, r, Removing)
      else Goto(w, r, Undoing(Conflict))
    case Removing =>
      if io.ok && q.temp in w.staging && CanRemove(w, File, w.staging[q.temp]) then
        Conclude(Publish(UnlinkStaged(w, r), q.own), r, Ok, true)
      else Goto(w, r, Undoing(io.error))
    case Undoing(error) =>
      if io.ok && q.slot in w.visible && q.temp in w.staging then
        var back := w.(visible := w.visible[q.slot := w.staging[q.temp]],
                       staging := w.staging[q.temp := w.visible[q.slot]]);
        Conclude(back, r, Err(error), false)
      else Conclude(Publish(w, q.own), r, Err(Unavailable), true)
    case _ => w
  }

  /** `AuthorizedShare::delete_entry` */
  function ActDelete(w: World, r: nat, io: Io, name: string): (v: World)
    requires r in w.requests
    ensures LedgerGrows(w, v) && Touches(w.requests, v.requests, r)
  {
    var q := w.requests[r];
    match q.pc
    case Start =>
      if !io.ok then Conclude(w, r, Err(io.error), false)
      else if q.slot !in w.visible then Conclude(w, r, Err(NotFound), false)
      else if !Matches(w.visible[q.slot], q.expected) then Conclude(w, r, Err(Conflict), false)
      else Goto(w, r, Checked)
    case Checked =>
      if io.ok && q.slot in w.visible && name !in w.staging then
        Enter(w, r, name, w.visible - {q.slot}, w.staging[name := w.visible[q.slot]])
      else Conclude(w, r, Err(io.error), false)
    case Renamed =>
      if io.ok && q.temp in w.staging && Matches(w.staging[q.temp], q.expected) then Goto(w, r, Removing)
      else Goto(w, r, Undoing(Conflict))
    case Removing =>
      if io.ok && q.temp in w.staging && CanRemove(w, q.expected.kind, w.staging[q.temp]) then
        Conclude(UnlinkStaged(w, r), r, Ok, true)
      else Goto(w, r, Undoing(io.error))
    case Undoing(error) =>
      if io.ok && q.temp in w.staging && q.slot !in w.visible then
        var back := w.(visible := w.visible[q.slot := w.staging[q.temp]], staging := w.staging - {q.temp});
        Conclude(back, r, Err(error), false)
      else Conclude(w, r, Err(Unavailable), false)
    case _ => w
  }

  /** `AuthorizedShare::move_entry`; its depth and self-containment refusals are failures of
      its rename. */
  function ActMove(w: World, r: nat, io: Io): (v: World)
    requires r in w.requests && w.requests[r].op.Move?
    ensures LedgerGrows(w, v) && Touches(w.requests, v.requests, r)
  {
    var q := w.requests[r];
    var to := q.op.to;
    match q.pc
    case Start =>
      if q.slot == to then Conclude(w, r, Err(Conflict), false)
      else if !io.ok then Conclude(w, r, Err(io.error), false)
      else if q.slot !in w.visible then Conclude(w, r, Err(NotFound), false)
      else if !Matches(w.visible[q.slot], q.expected) then Conclude(w, r, Err(Conflict), false)
      else Goto(w, r, Checked)
    case Checked =>
      if io.ok && q.slot in w.visible && to !in w.visible then
        Enter(w, r, q.temp, (w.visible - {q.slot})[to := w.visible[q.slot]], w.staging)
      else Conclude(w, r, Err(io.error), false)
    case Renamed =>
      if !io.ok then Goto(w, r, Undoing(io.error))
      else if to in w.visible && Matches(w.visible[to], q.expected) then Conclude(w, r, Ok, false)
      else Goto(w, r, Undoing(Conflict))
    case Undoing(error) =>
      if io.ok && to in w.visible && q.slot !in w.visible then
        var back := w.(visible := (w.visible - {to})[q.slot := w.visible[to]]);
        Conclude(back, r, Err(error), false)
      else Conclude(w, r, Err(Unavailable), false)
    case _ => w
  }

  /** The drop guard: unlinks the staged name if it can, and the request is gone. */
  function Clean(w: World, r: nat, io: Io): (v: World)
    requires r in w.requests
    ensures LedgerGrows(w, v) && Touches(w.requests, v.requests, r)
  {
    var q := w.requests[r];
    var gone := if io.ok && q.temp in w.staging then UnlinkStaged(w, r) else w;
    gone.(requests := gone.requests - {r})
  }

  /** Only a request in its window, or one that enters it, changes user-visible names. */
  function Act(w: World, r: nat, io: Io, name: string): (v: World)
    requires r in w.requests
    ensures LedgerGrows(w, v) && Touches(w.requests, v.requests, r)
    ensures !InWindow(w.requests[r].pc) && !EntersWindow(w.requests[r]) ==> v.visible == w.visible
  {
    var q := w.requests[r];
    if q.pc.Cleaning? then Clean(w, r, io)
    else
      match q.op
      case New => ActNew(w, r, io)
      case Tree => ActTree(w, r, io)
      case Replace => ActReplace(w, r, io, name)
      case Delete => ActDelete(w, r, io, name)
      case Move(_) => ActMove(w, r, io)
  }

  // ---- the machine ----

  datatype Step =
    | BeginStaged(r: nat, op: Op, slot: Slot, expected: Node, own: Node, temp: string)
    | BeginDirect(r: nat, op: Op, slot: Slot, expected: Node)
    | Call(r: nat, io: Io, name: string)  // one system call of one request
    | Cancel(r: nat)                 // the request is dropped before it starts publishing
    | Environment(visible: Visible)  // other processes change the share
    | Crash
    | Recover(name: string)          // startup recovery unlinks one staged name
    | Serve

  predicate UnusedName(w: World, name: string) {
    forall r :: r in w.requests && UsesTemp(w.requests[r]) ==> w.requests[r].temp != name
  }

  /** No other request is inside its window on one of these names. */
  predicate Unlocked(w: World, except: nat, slots: set<Slot>) {
    forall r :: r in w.requests && r != except && InWindow(w.requests[r].pc) ==> Slots(w.requests[r]) !! slots
  }

  /** The request is about to choose a staging name. */
  predicate ChoosesName(q: Request) {
    q.pc.Checked? && (q.op.Replace? || q.op.Delete?)
  }

  /** The name has the operation's prefix, and no live request is using it. */
  predicate MayChoose(w: World, q: Request, name: string) {
    ChoosesName(q) ==> IsGenerated(if q.op.Replace? then REPLACE_PREFIX else DELETE_PREFIX, name) && UnusedName(w, name)
  }

  /** Other processes leave the names of a request in its window alone, unless it publishes a new
      file, and have no way to make a node that Crabinet keeps private appear anywhere. */
  predicate EnvironmentMay(w: World, visible: Visible) {
    && (forall r :: r in w.requests && InWindow(w.requests[r].pc) && !w.requests[r].op.New? ==>
          View(visible, Slots(w.requests[r])) == View(w.visible, Slots(w.requests[r])))
    && (forall s :: s in visible && Private(w, visible[s]) ==> s in w.visible && visible[s] == w.visible[s])
  }

  predicate Enabled(w: World, step: Step) {
    match step
    case BeginStaged(r, op, slot, expected, own, temp) =>
      && !w.starting && r !in w.requests && Guarded(op)
      && own.id !in w.created && own.id !in w.published
      && (forall s :: s in w.visible ==> w.visible[s].id != own.id)
      && (forall n :: n in w.staging ==> w.staging[n].id != own.id)
      && own.kind == (if op.Tree? then Directory else File)
      && IsGenerated(if op.Tree? then TREE_PREFIX else TEMP_PREFIX, temp)
      && temp !in w.staging && UnusedName(w, temp)
    case BeginDirect(r, op, slot, expected) =>
      !w.starting && r !in w.requests && !Guarded(op)
    case Call(r, io, name) =>
      && !w.starting && r in w.requests
      && (EntersWindow(w.requests[r]) ==> Unlocked(w, r, Slots(w.requests[r])))
      && MayChoose(w, w.requests[r], name)
    case Cancel(r) => !w.starting && r in w.requests && w.requests[r].pc.Start?
    case Environment(visible) => EnvironmentMay(w, visible)
    case Crash => true
    case Recover(name) => w.starting && name in w.staging && IsRecoverable(name, w.staging[name])
    case Serve => w.starting
  }

  /** The world after an enabled step. */
  function Next(w: World, step: Step): World {
    match step
    case BeginStaged(r, op, slot, expected, own, temp) =>
      w.(staging := w.staging[temp := own], created := w.created + {own.id},
         requests := w.requests[r := Request(op, slot, expected, own, temp, Start, map[])])
    case BeginDirect(r, op, slot, expected) =>
      w.(requests := w.requests[r := Request(op, slot, expected, expected, "", Start, map[])])
    case Call(r, io, name) => if r in w.requests then Act(w, r, io, name) else w
    case Cancel(r) =>
      if r in w.requests && Guarded(w.requests[r].op) then Goto(w, r, Cleaning) else w.(requests := w.requests - {r})
    case Environment(visible) => w.(visible := visible)
    case Crash =>
      // Whatever is visible at a crash belongs to the user from then on.
      w.(requests := map[], starting := true, published := w.published + VisibleIds(w))
    case Recover(name) =>
      if name !in w.staging then w
      else w.(staging := w.staging - {name}, unlinked := w.unlinked + [Unlink(w.staging[name], ByRecovery)])
    case Serve => w.(starting := false)
  }

  /** A freshly started share: any visible tree, whatever an earlier process kept for review,
      and temporaries it left behind. */
  predicate Initial(w: World) {
    && w.requests == map[] && w.starting && w.published == {}
    && w.unlinked == [] && w.outcomes == []
    && (forall s :: s in w.visible ==> w.visible[s].id !in w.created)
    && (forall n :: n in w.staging ==> (w.staging[n].id in w.created <==> IsRecoverable(n, w.staging[n])))
    && (forall m, n :: m in w.staging && n in w.staging && m != n ==> w.staging[m].id != w.staging[n].id)
  }

  ghost predicate StepAt(trace: seq<World>, steps: seq<Step>, i: nat)
    requires i < |steps| < |trace|
  {
    Enabled(trace[i], steps[i]) && trace[i + 1] == Next(trace[i], steps[i])
  }

  ghost predicate IsRun(trace: seq<World>, steps: seq<Step>) {
    && |trace| == |steps| + 1
    && forall i :: 0 <= i < |steps| ==> StepAt(trace, steps, i)
  }
}
