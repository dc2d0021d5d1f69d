/**
 The invariant of the publication machine: where the nodes of every request are, which nodes are
 private, and what the histories say so far; and the proof that every step keeps it.
 */
module PublicationInvariant {
  import opened Common
  import opened Publication

  // ---- the invariant ----

  /** Where the nodes of one request are. */
  ghost predicate Placed(w: World, q: Request) {
    match q.pc
    case Start => Guarded(q.op) ==> StagedUnder(w, q, if q.op.Tree? then TREE_PREFIX else TEMP_PREFIX)
    case Checked =>
      && (Guarded(q.op) ==> StagedUnder(w, q, if q.op.Tree? then TREE_PREFIX else TEMP_PREFIX))
      && (q.op.Move? ==> q.slot != q.op.to)
    case Armed => q.op.Replace? && StagedUnder(w, q, REPLACE_PREFIX)
    case Cleaning => Guarded(q.op) && (q.temp in w.staging ==> w.staging[q.temp] == q.own && Private(w, q.own))
    case _ => Displaced(w, q)
  }

  ghost predicate StagedUnder(w: World, q: Request, prefix: string) {
    q.temp in w.staging && w.staging[q.temp] == q.own && Private(w, q.own) && IsGenerated(prefix, q.temp)
  }

  /** Inside the window: the names hold the new state, and the displaced node is where only
      this request, or nobody, will remove it. */
  ghost predicate Displaced(w: World, q: Request) {
    match q.op
    case New =>
      && q.before == map[] && !q.pc.Removing? && (q.pc.Undoing? ==> q.pc.error == Conflict)
      && Private(w, q.own) && q.temp !in w.staging
      && (q.slot in w.visible && Private(w, w.visible[q.slot]) ==> w.visible[q.slot] == q.own)
    case Tree => false
    case Replace =>
      && q.slot in q.before && q.before == map[q.slot := q.before[q.slot]]
      && q.slot in w.visible && w.visible[q.slot] == q.own && Private(w, q.own)
      && q.temp in w.staging && w.staging[q.temp] == q.before[q.slot] && IsGenerated(REPLACE_PREFIX, q.temp)
      && (q.pc.Removing? ==> Matches(q.before[q.slot], q.expected))
    case Delete =>
      && q.slot in q.before && q.before == map[q.slot := q.before[q.slot]]
      && q.slot !in w.visible
      && q.temp in w.staging && w.staging[q.temp] == q.before[q.slot] && IsGenerated(DELETE_PREFIX, q.temp)
      && (q.pc.Removing? ==> Matches(q.before[q.slot], q.expected))
    case Move(to) =>
      && q.slot != to && !q.pc.Removing?
      && q.slot in q.before && q.before == map[q.slot := q.before[q.slot]]
      && q.slot !in w.visible && to in w.visible && w.visible[to] == q.before[q.slot]
  }

  ghost predicate AllPlaced(w: World) {
    forall r :: r in w.requests ==> Placed(w, w.requests[r])
  }

  ghost predicate TempsDistinct(w: World) {
    forall r, t :: r in w.requests && t in w.requests && r != t && UsesTemp(w.requests[r]) && UsesTemp(w.requests[t])
                   ==> w.requests[r].temp != w.requests[t].temp
  }

  ghost predicate OwnsDistinct(w: World) {
    && (forall r :: r in w.requests && Guarded(w.requests[r].op) ==> w.requests[r].own.id in w.created)
    && (forall r, t :: r in w.requests && t in w.requests && r != t && Guarded(w.requests[r].op) && Guarded(w.requests[t].op)
                       ==> w.requests[r].own.id != w.requests[t].own.id)
  }

  ghost predicate WindowsDisjoint(w: World) {
    forall r :: r in w.requests && InWindow(w.requests[r].pc) ==> Unlocked(w, r, Slots(w.requests[r]))
  }

  /** A node that Crabinet staged and has not given away is in one place only. */
  ghost predicate PrivateOnce(w: World) {
    && (forall s, t :: s in w.visible && t in w.visible && s != t && Private(w, w.visible[s])
                       ==> w.visible[s].id != w.visible[t].id)
    && (forall s, n :: s in w.visible && n in w.staging && Private(w, w.visible[s])
                       ==> w.visible[s].id != w.staging[n].id)
    && (forall m, n :: m in w.staging && n in w.staging && m != n && Private(w, w.staging[m])
                       ==> w.staging[m].id != w.staging[n].id)
  }

  ghost predicate RecoverableIsPrivate(w: World) {
    forall n :: n in w.staging && IsRecoverable(n, w.staging[n]) ==> Private(w, w.staging[n])
  }

  ghost predicate Absent(w: World, id: nat) {
    && (forall s :: s in w.visible ==> w.visible[s].id != id)
    && (forall n :: n in w.staging ==> w.staging[n].id != id)
  }

  /** An unlinked node was the expected version of the request that unlinked it, or a staged
      node that was never given to the user, or what `publish_new` found in place of its own. */
  ghost predicate UnlinkAllowed(w: World, u: Unlink) {
    AsExpected(u) || Mistaken(u) || (Private(w, u.node) && Absent(w, u.node.id))
  }

  /** `publish_new` withdraws a file that is not the one it published. */
  predicate Mistaken(u: Unlink) {
    && u.actor.ByRequest? && u.actor.request.op.New? && u.actor.request.pc.Undoing?
    && u.node != u.actor.request.own
  }

  predicate AsExpected(u: Unlink) {
    && u.actor.ByRequest? && u.actor.request.pc.Removing?
    && (u.actor.request.op.Replace? || u.actor.request.op.Delete?)
    && Matches(u.node, u.actor.request.expected)
  }

  ghost predicate UnlinksAllowed(w: World) {
    forall i :: 0 <= i < |w.unlinked| ==> UnlinkAllowed(w, w.unlinked[i])
  }

  /** What a report says about the names of its request. */
  predicate OutcomeCorrect(o: Outcome) {
    var q, b, a := o.request, o.before, o.after;
    match o.result
    case Ok =>
      (match q.op
       case New => b == map[] && a == map[q.slot := q.own]
       case Tree => b == map[] && a == map[q.slot := q.own]
       case Replace =>
         && q.slot in b && b == map[q.slot := b[q.slot]] && Matches(b[q.slot], q.expected)
         && a == map[q.slot := q.own] && o.kept == None
       case Delete =>
         q.slot in b && b == map[q.slot := b[q.slot]] && Matches(b[q.slot], q.expected) && a == map[] && o.kept == None
       case Move(to) =>
         && q.slot in b && b == map[q.slot := b[q.slot]] && q.slot != to && Matches(b[q.slot], q.expected)
         && a == map[to := b[q.slot]])
    case Err(code) =>
      a == b || LeftChanged(o)
  }

  /** The failures after which the names differ from what they held before. */
  predicate LeftChanged(o: Outcome) {
    var q, b, a := o.request, o.before, o.after;
    match q.op
    case New => o.result == Err(Conflict) && b == map[] && q.slot in a && a == map[q.slot := a[q.slot]]
    case Tree => false
    case Replace =>
      && o.result == Err(Unavailable) && q.slot in b && a == map[q.slot := q.own]
      && o.kept == Some(b[q.slot]) && IsRetained(q.temp)
    case Delete =>
      && o.result == Err(Unavailable) && q.slot in b && a == map[]
      && o.kept == Some(b[q.slot]) && IsRetained(q.temp)
    case Move(to) =>
      o.result == Err(Unavailable) && q.slot in b && a == map[to := b[q.slot]]
  }

  ghost predicate OutcomesCorrect(w: World) {
    forall i :: 0 <= i < |w.outcomes| ==> OutcomeCorrect(w.outcomes[i])
  }

  ghost predicate RequestsOk(w: World) {
    AllPlaced(w) && TempsDistinct(w) && OwnsDistinct(w) && WindowsDisjoint(w)
  }

  ghost predicate DiskOk(w: World) {
    PrivateOnce(w) && RecoverableIsPrivate(w) && UnlinksAllowed(w)
  }

  ghost predicate Inv(w: World) {
    (w.starting ==> w.requests == map[]) && RequestsOk(w) && DiskOk(w) && OutcomesCorrect(w)
  }

  // ---- the disk under each kind of change ----

  ghost predicate SameLedger(w: World, v: World) {
    v.created == w.created && v.published == w.published && v.unlinked == w.unlinked
  }

  lemma DiskSame(w: World, v: World)
    requires DiskOk(w) && SameLedger(w, v) && v.visible == w.visible && v.staging == w.staging
    ensures DiskOk(v)
  {
  }

  lemma DiskRenameOut(w: World, v: World, name: string, slot: Slot)
    requires DiskOk(w) && SameLedger(w, v)
    requires name in w.staging && slot !in w.visible
    requires v.visible == w.visible[slot := w.staging[name]] && v.staging == w.staging - {name}
    ensures DiskOk(v)
  {
  }

  lemma DiskRenameIn(w: World, v: World, slot: Slot, name: string)
    requires DiskOk(w) && SameLedger(w, v)
    requires slot in w.visible && name !in w.staging && IsRetained(name)
    requires v.visible == w.visible - {slot} && v.staging == w.staging[name := w.visible[slot]]
    ensures DiskOk(v)
  {
  }

  lemma DiskRenameStaged(w: World, v: World, from: string, name: string)
    requires DiskOk(w) && SameLedger(w, v)
    requires from in w.staging && name !in w.staging && IsRetained(name)
    requires v.visible == w.visible && v.staging == (w.staging - {from})[name := w.staging[from]]
    ensures DiskOk(v)
  {
  }

  lemma DiskExchange(w: World, v: World, name: string, slot: Slot)
    requires DiskOk(w) && SameLedger(w, v)
    requires name in w.staging && slot in w.visible && IsRetained(name)
    requires v.visible == w.visible[slot := w.staging[name]] && v.staging == w.staging[name := w.visible[slot]]
    ensures DiskOk(v)
  {
  }

  lemma DiskMove(w: World, v: World, from: Slot, to: Slot)
    requires DiskOk(w) && SameLedger(w, v)
    requires from in w.visible && to !in w.visible
    requires v.visible == (w.visible - {from})[to := w.visible[from]] && v.staging == w.staging
    ensures DiskOk(v)
  {
  }

  lemma DiskUnlinkStaged(w: World, v: World, name: string, u: Unlink)
    requires DiskOk(w) && v.created == w.created && v.published == w.published
    requires name in w.staging && u.node == w.staging[name] && (AsExpected(u) || Private(w, u.node))
    requires v.visible == w.visible && v.staging == w.staging - {name} && v.unlinked == w.unlinked + [u]
    ensures DiskOk(v)
  {
  }

  lemma DiskUnlinkVisible(w: World, v: World, slot: Slot, u: Unlink)
    requires DiskOk(w) && v.created == w.created && v.published == w.published
    requires slot in w.visible && u.node == w.visible[slot] && (Mistaken(u) || Private(w, u.node))
    requires v.visible == w.visible - {slot} && v.staging == w.staging && v.unlinked == w.unlinked + [u]
    ensures DiskOk(v)
  {
  }

  /** Giving visible nodes to the user. */
  lemma DiskPublish(w: World, v: World, ids: set<nat>)
    requires DiskOk(w) && v.created == w.created && v.published == w.published + ids && v.unlinked == w.unlinked
    requires v.visible == w.visible && v.staging == w.staging
    requires ids <= VisibleIds(w)
    ensures DiskOk(v)
  {
    forall n | n in v.staging && IsRecoverable(n, v.staging[n])
      ensures Private(v, v.staging[n])
    {
      if v.staging[n].id in ids {
        var s :| s in w.visible && w.visible[s].id == v.staging[n].id;
        assert Private(w, w.visible[s]);
        assert false;
      }
    }
    forall i | 0 <= i < |v.unlinked|
      ensures UnlinkAllowed(v, v.unlinked[i])
    {
      var u := v.unlinked[i];
      assert UnlinkAllowed(w, u);
    }
  }

  // ---- the other requests under a change by one ----

  /** The change from `w` to `v` leaves alone everything that request `q` relies on. */
  ghost predicate KeepsFor(w: World, v: World, q: Request) {
    && (UsesTemp(q) ==> Lookup(v.staging, q.temp) == Lookup(w.staging, q.temp))
    && (InWindow(q.pc) ==> forall s :: s in Slots(q) ==> Held(v, s) == Held(w, s))
    && !TurnsPrivate(w, v, q.slot)
    && (Guarded(q.op) && Private(w, q.own) ==> Private(v, q.own))
  }

  ghost function Held(w: World, s: Slot): Option<Node> {
    if s in w.visible then Some(w.visible[s]) else None
  }

  ghost predicate TurnsPrivate(w: World, v: World, s: Slot) {
    s in v.visible && Private(v, v.visible[s]) && !Private(w, v.visible[s])
  }

  lemma KeepsPlaced(w: World, v: World, q: Request)
    requires Placed(w, q) && KeepsFor(w, v, q)
    ensures Placed(v, q)
  {
    if InWindow(q.pc) {
      assert Held(v, q.slot) == Held(w, q.slot);
      if q.op.Move? {
        assert Held(v, q.op.to) == Held(w, q.op.to);
      }
    }
  }

  ghost predicate KeepsOthers(w: World, v: World, r: nat) {
    forall t :: t in w.requests && t != r ==> KeepsFor(w, v, w.requests[t])
  }

  /** A change confined to the acting request's staging names and user-visible names. */
  lemma ConfinedKeepsOthers(w: World, v: World, r: nat, names: set<string>)
    requires RequestsOk(w) && r in w.requests
    requires forall n :: n !in names ==> Lookup(v.staging, n) == Lookup(w.staging, n)
    requires forall n :: n in names ==> UnusedName(w, n) || (UsesTemp(w.requests[r]) && n == w.requests[r].temp)
    requires forall s :: s !in Slots(w.requests[r]) ==> Held(v, s) == Held(w, s)
    requires Unlocked(w, r, Slots(w.requests[r])) || v.visible == w.visible
    requires v.created == w.created
    requires v.published == w.published || (Guarded(w.requests[r].op) && v.published == w.published + {w.requests[r].own.id})
    ensures KeepsOthers(w, v, r)
  {
  }

  lemma KeepsAllPlaced(w: World, v: World, r: nat)
    requires AllPlaced(w) && KeepsOthers(w, v, r)
    requires forall t :: t in v.requests && t != r ==> t in w.requests && v.requests[t] == w.requests[t]
    requires r in v.requests ==> Placed(v, v.requests[r])
    ensures AllPlaced(v)
  {
    forall t | t in v.requests ensures Placed(v, v.requests[t]) {
      if t != r {
        KeepsPlaced(w, v, w.requests[t]);
      }
    }
  }

  /** Request `r` moves on to `q`; the others are as they were. */
  lemma RequestAdvances(w: World, v: World, r: nat, q: Request)
    requires RequestsOk(w) && r in w.requests && KeepsOthers(w, v, r)
    requires v.requests == w.requests[r := q] && v.created == w.created
    requires Placed(v, q)
    requires Slots(q) == Slots(w.requests[r]) && q.op == w.requests[r].op && q.own == w.requests[r].own
    requires UsesTemp(q) ==> UnusedName(w, q.temp) || (UsesTemp(w.requests[r]) && q.temp == w.requests[r].temp)
    requires InWindow(q.pc) ==> InWindow(w.requests[r].pc) || Unlocked(w, r, Slots(q))
    ensures RequestsOk(v)
  {
    KeepsAllPlaced(w, v, r);
    StaysApart(w, v, r, q);
  }

  lemma StaysApart(w: World, v: World, r: nat, q: Request)
    requires TempsDistinct(w) && OwnsDistinct(w) && WindowsDisjoint(w)
    requires r in w.requests && v.requests == w.requests[r := q] && v.created == w.created
    requires Slots(q) == Slots(w.requests[r]) && q.op == w.requests[r].op && q.own == w.requests[r].own
    requires UsesTemp(q) ==> UnusedName(w, q.temp) || (UsesTemp(w.requests[r]) && q.temp == w.requests[r].temp)
    requires InWindow(q.pc) ==> InWindow(w.requests[r].pc) || Unlocked(w, r, Slots(q))
    ensures TempsDistinct(v) && OwnsDistinct(v) && WindowsDisjoint(v)
  {
  }

  lemma RequestLeaves(w: World, v: World, r: nat)
    requires RequestsOk(w) && KeepsOthers(w, v, r)
    requires v.requests == w.requests - {r} && v.created == w.created
    ensures RequestsOk(v)
  {
    KeepsAllPlaced(w, v, r);
  }

  // ---- one step of one request ----

  /** The request only learns something. */
  lemma GotoInv(w: World, r: nat, pc: Pc)
    requires Inv(w) && r in w.requests && Placed(w, w.requests[r].(pc := pc))
    requires InWindow(pc) <==> InWindow(w.requests[r].pc)
    ensures Inv(Goto(w, r, pc))
  {
    var v := Goto(w, r, pc);
    DiskSame(w, v);
    ConfinedKeepsOthers(w, v, r, {});
    RequestAdvances(w, v, r, w.requests[r].(pc := pc));
  }

  lemma ConcludeRequests(w: World, x: World, r: nat, result: Result, disarmed: bool)
    requires RequestsOk(w) && r in w.requests && x.requests == w.requests && x.created == w.created && KeepsOthers(w, x, r)
    requires Guarded(w.requests[r].op) && !disarmed ==> Placed(x, w.requests[r].(pc := Cleaning))
    ensures RequestsOk(Conclude(x, r, result, disarmed))
  {
    var v := Conclude(x, r, result, disarmed);
    assert KeepsOthers(w, v, r);
    if Guarded(w.requests[r].op) && !disarmed {
      RequestAdvances(w, v, r, w.requests[r].(pc := Cleaning));
    } else {
      RequestLeaves(w, v, r);
    }
  }

  /** The request changes the disk from `w` to `x` and reports. */
  lemma ConcludeInv(w: World, x: World, r: nat, result: Result, disarmed: bool)
    requires Inv(w) && r in w.requests && !w.starting
    requires x.requests == w.requests && x.starting == w.starting && x.created == w.created && x.outcomes == w.outcomes
    requires DiskOk(x) && KeepsOthers(w, x, r)
    requires
      var q := w.requests[r];
      var after := View(x.visible, Slots(q));
      OutcomeCorrect(Outcome(q, result, if InWindow(q.pc) then q.before else after, after, Lookup(x.staging, q.temp)))
    requires Guarded(w.requests[r].op) && !disarmed ==> Placed(x, w.requests[r].(pc := Cleaning))
    ensures Inv(Conclude(x, r, result, disarmed))
  {
    DiskSame(x, Conclude(x, r, result, disarmed));
    ConcludeRequests(w, x, r, result, disarmed);
  }

  /** The request fails before it has changed anything. */
  lemma EarlyFailureInv(w: World, r: nat, code: Code)
    requires Inv(w) && r in w.requests && !w.starting && !InWindow(w.requests[r].pc) && !w.requests[r].pc.Cleaning?
    ensures Inv(Conclude(w, r, Err(code), false))
  {
    ConfinedKeepsOthers(w, w, r, {});
    ConcludeInv(w, w, r, Err(code), false);
  }

  /** The request changes user-visible names and enters its window. */
  lemma EnterInv(w: World, r: nat, temp: string, visible: Visible, staging: Staging)
    requires Inv(w) && r in w.requests && !InWindow(w.requests[r].pc) && Unlocked(w, r, Slots(w.requests[r]))
    requires DiskOk(w.(visible := visible, staging := staging))
    requires UnusedName(w, temp) || temp == w.requests[r].temp
    requires forall n :: n != temp ==> Lookup(staging, n) == Lookup(w.staging, n)
    requires UsesTemp(w.requests[r]) ==> temp == w.requests[r].temp
    requires !UsesTemp(w.requests[r]) && !w.requests[r].op.Delete? ==> staging == w.staging
    requires w.requests[r].op.Delete? ==> UnusedName(w, temp)
    requires forall s :: s !in Slots(w.requests[r]) ==>
      Held(w.(visible := visible), s) == Held(w, s)
    requires Displaced(Enter(w, r, temp, visible, staging), Enter(w, r, temp, visible, staging).requests[r])
    ensures Inv(Enter(w, r, temp, visible, staging))
  {
    var v := Enter(w, r, temp, visible, staging);
    DiskSame(w.(visible := visible, staging := staging), v);
    ConfinedKeepsOthers(w, v, r, if staging == w.staging then {} else {temp});
    EnterRequests(w, r, temp, visible, staging);
  }

  lemma EnterRequests(w: World, r: nat, temp: string, visible: Visible, staging: Staging)
    requires RequestsOk(w) && r in w.requests && Unlocked(w, r, Slots(w.requests[r]))
    requires KeepsOthers(w, Enter(w, r, temp, visible, staging), r)
    requires UsesTemp(w.requests[r]) ==> temp == w.requests[r].temp
    requires w.requests[r].op.Delete? ==> UnusedName(w, temp)
    requires Displaced(Enter(w, r, temp, visible, staging), Enter(w, r, temp, visible, staging).requests[r])
    ensures RequestsOk(Enter(w, r, temp, visible, staging))
  {
    var v := Enter(w, r, temp, visible, staging);
    RequestAdvances(w, v, r, v.requests[r]);
  }

  lemma GiveToUser(w: World, r: nat)
    requires Inv(w) && r in w.requests && Guarded(w.requests[r].op)
    requires w.requests[r].slot in w.visible && w.visible[w.requests[r].slot] == w.requests[r].own
    ensures DiskOk(Publish(w, w.requests[r].own)) && KeepsOthers(w, Publish(w, w.requests[r].own), r)
  {
    var q := w.requests[r];
    var x := Publish(w, q.own);
    assert w.visible[q.slot].id in VisibleIds(w);
    DiskPublish(w, x, {q.own.id});
    ConfinedKeepsOthers(w, x, r, {});
  }

  /** The first step of every operation: look, and change nothing. */
  lemma StartInv(w: World, r: nat, io: Io, name: string)
    requires Inv(w) && r in w.requests && !w.starting && w.requests[r].pc.Start?
    ensures Inv(Act(w, r, io, name))
  {
    var q := w.requests[r];
    var looks := q.op.Replace? || q.op.Delete? || q.op.Move?;
    if q.op.Move? && q.slot == q.op.to {
      EarlyFailureInv(w, r, Conflict);
    } else if !io.ok {
      EarlyFailureInv(w, r, io.error);
    } else if looks && q.slot !in w.visible {
      EarlyFailureInv(w, r, NotFound);
    } else if looks && (!Matches(w.visible[q.slot], q.expected) || (q.op.Replace? && !w.visible[q.slot].kind.File?)) {
      EarlyFailureInv(w, r, Conflict);
    } else {
      GotoInv(w, r, Checked);
    }
  }

  lemma NewEnterInv(w: World, r: nat, io: Io)
    requires Inv(w) && r in w.requests && !w.starting && w.requests[r].op.New? && w.requests[r].pc.Checked?
    requires Unlocked(w, r, Slots(w.requests[r]))
    ensures Inv(ActNew(w, r, io))
  {
    var q := w.requests[r];
    if io.ok && q.slot !in w.visible {
      var visible, staging := w.visible[q.slot := w.staging[q.temp]], w.staging - {q.temp};
      DiskRenameOut(w, w.(visible := visible, staging := staging), q.temp, q.slot);
      assert View(w.visible, Slots(q)) == map[];
      EnterInv(w, r, q.temp, visible, staging);
    } else {
      EarlyFailureInv(w, r, io.error);
    }
  }

  lemma NewValidateInv(w: World, r: nat, io: Io)
    requires Inv(w) && r in w.requests && !w.starting && w.requests[r].op.New? && w.requests[r].pc.Renamed?
    ensures Inv(ActNew(w, r, io))
  {
    var q := w.requests[r];
    if io.ok && q.slot in w.visible && Matches(w.visible[q.slot], q.own) {
      var x := Publish(w, q.own);
      GiveToUser(w, r);
      assert View(x.visible, Slots(q)) == map[q.slot := q.own];
      ConcludeInv(w, x, r, Ok, true);
    } else {
      GotoInv(w, r, Undoing(Conflict));
    }
  }

  /** The withdrawal removes what is there, whether or not it is ours. */
  lemma NewRemoveInv(w: World, r: nat)
    requires Inv(w) && r in w.requests && !w.starting && w.requests[r].op.New? && w.requests[r].pc.Undoing?
    requires w.requests[r].slot in w.visible
    ensures
      var q := w.requests[r];
      var x := w.(visible := w.visible - {q.slot}, unlinked := w.unlinked + [Unlink(w.visible[q.slot], ByRequest(q))]);
      Inv(Conclude(x, r, Err(q.pc.error), false))
  {
    var q := w.requests[r];
    var u := Unlink(w.visible[q.slot], ByRequest(q));
    var x := w.(visible := w.visible - {q.slot}, unlinked := w.unlinked + [u]);
    DiskUnlinkVisible(w, x, q.slot, u);
    assert Unlocked(w, r, Slots(q));
    ConfinedKeepsOthers(w, x, r, {});
    assert View(x.visible, Slots(q)) == map[];
    ConcludeInv(w, x, r, Err(q.pc.error), false);
  }

  /** The withdrawal leaves what is there, if anything is. */
  lemma NewLeaveInv(w: World, r: nat)
    requires Inv(w) && r in w.requests && !w.starting && w.requests[r].op.New? && w.requests[r].pc.Undoing?
    ensures
      var q := w.requests[r];
      var x := if q.slot in w.visible && w.visible[q.slot] == q.own then Publish(w, q.own) else w;
      Inv(Conclude(x, r, Err(q.pc.error), false))
  {
    var q := w.requests[r];
    if q.slot in w.visible && w.visible[q.slot] == q.own {
      var x := Publish(w, q.own);
      GiveToUser(w, r);
      assert View(x.visible, Slots(q)) == map[q.slot := q.own];
      ConcludeInv(w, x, r, Err(q.pc.error), false);
    } else {
      ConfinedKeepsOthers(w, w, r, {});
      assert View(w.visible, Slots(q)) == if q.slot in w.visible then map[q.slot := w.visible[q.slot]] else map[];
      ConcludeInv(w, w, r, Err(q.pc.error), false);
    }
  }

  lemma TreePublishDisk(w: World, r: nat, io: Io)
    requires Inv(w) && r in w.requests && w.requests[r].op.Tree? && w.requests[r].pc.Checked?
    requires io.ok && w.requests[r].slot !in w.visible
    ensures DiskOk(ActTree(w, r, io))
  {
    var q := w.requests[r];
    var x := w.(visible := w.visible[q.slot := w.staging[q.temp]], staging := w.staging - {q.temp});
    DiskRenameOut(w, x, q.temp, q.slot);
    var y := Publish(x, q.own);
    assert x.visible[q.slot].id in VisibleIds(x);
    DiskPublish(x, y, {q.own.id});
    DiskSame(y, ActTree(w, r, io));
  }

  lemma TreeRequests(w: World, r: nat, v: World)
    requires RequestsOk(w) && r in w.requests && w.requests[r].op.Tree? && Unlocked(w, r, Slots(w.requests[r]))
    requires forall n :: n != w.requests[r].temp ==> Lookup(v.staging, n) == Lookup(w.staging, n)
    requires forall s :: s != w.requests[r].slot ==> Held(v, s) == Held(w, s)
    requires v.created == w.created && v.published == w.published + {w.requests[r].own.id} && v.requests == w.requests - {r}
    ensures RequestsOk(v)
  {
    ConfinedKeepsOthers(w, v, r, {w.requests[r].temp});
    RequestLeaves(w, v, r);
  }

  lemma TreePublishInv(w: World, r: nat, io: Io)
    requires Inv(w) && r in w.requests && !w.starting && w.requests[r].op.Tree? && w.requests[r].pc.Checked?
    requires Unlocked(w, r, Slots(w.requests[r])) && io.ok && w.requests[r].slot !in w.visible
    ensures RequestsOk(ActTree(w, r, io)) && OutcomesCorrect(ActTree(w, r, io))
  {
    var q, v := w.requests[r], ActTree(w, r, io);
    TreeRequests(w, r, v);
    assert View(w.visible, Slots(q)) == map[];
    assert View(v.visible, Slots(q)) == map[q.slot := q.own];
  }

  lemma TreeEnterInv(w: World, r: nat, io: Io)
    requires Inv(w) && r in w.requests && !w.starting && w.requests[r].op.Tree? && w.requests[r].pc.Checked?
    requires Unlocked(w, r, Slots(w.requests[r]))
    ensures Inv(ActTree(w, r, io))
  {
    if io.ok && w.requests[r].slot !in w.visible {
      TreePublishDisk(w, r, io);
      TreePublishInv(w, r, io);
    } else {
      EarlyFailureInv(w, r, io.error);
    }
  }

  lemma ReplaceArmInv(w: World, r: nat, io: Io, name: string)
    requires Inv(w) && r in w.requests && !w.starting && w.requests[r].op.Replace? && w.requests[r].pc.Checked?
    requires MayChoose(w, w.requests[r], name)
    ensures Inv(ActReplace(w, r, io, name))
  {
    var q := w.requests[r];
    if io.ok && name !in w.staging {
      var v := ActReplace(w, r, io, name);
      DiskRenameStaged(w, v, q.temp, name);
      ConfinedKeepsOthers(w, v, r, {q.temp, name});
      RequestAdvances(w, v, r, q.(pc := Armed, temp := name));
    } else {
      EarlyFailureInv(w, r, io.error);
    }
  }

  lemma ReplaceEnterInv(w: World, r: nat, io: Io, name: string)
    requires Inv(w) && r in w.requests && !w.starting && w.requests[r].op.Replace? && w.requests[r].pc.Armed?
    requires Unlocked(w, r, Slots(w.requests[r]))
    ensures Inv(ActReplace(w, r, io, name))
  {
    var q := w.requests[r];
    if io.ok && q.slot in w.visible {
      var visible, staging := w.visible[q.slot := w.staging[q.temp]], w.staging[q.temp := w.visible[q.slot]];
      DiskExchange(w, w.(visible := visible, staging := staging), q.temp, q.slot);
      assert View(w.visible, Slots(q)) == map[q.slot := w.visible[q.slot]];
      EnterInv(w, r, q.temp, visible, staging);
    } else {
      EarlyFailureInv(w, r, io.error);
    }
  }

  lemma ReplaceValidateInv(w: World, r: nat, io: Io, name: string)
    requires Inv(w) && r in w.requests && !w.starting && w.requests[r].op.Replace? && w.requests[r].pc.Renamed?
    ensures Inv(ActReplace(w, r, io, name))
  {
    var q := w.requests[r];
    GotoInv(w, r, if io.ok && Matches(w.visible[q.slot], q.own) && Matches(w.staging[q.temp], q.expected)
                  then Removing else Undoing(Conflict));
  }

  lemma ReplaceRemoveDisk(w: World, r: nat)
    requires Inv(w) && r in w.requests && w.requests[r].op.Replace? && w.requests[r].pc.Removing?
    ensures DiskOk(Publish(UnlinkStaged(w, r), w.requests[r].own))
    ensures KeepsOthers(w, Publish(UnlinkStaged(w, r), w.requests[r].own), r)
  {
    var q := w.requests[r];
    var x := UnlinkStaged(w, r);
    DiskUnlinkStaged(w, x, q.temp, Unlink(w.staging[q.temp], ByRequest(q)));
    var y := Publish(x, q.own);
    assert x.visible[q.slot].id in VisibleIds(x);
    DiskPublish(x, y, {q.own.id});
    ConfinedKeepsOthers(w, y, r, {q.temp});
  }

  lemma ReplaceRemoveInv(w: World, r: nat, io: Io, name: string)
    requires Inv(w) && r in w.requests && !w.starting && w.requests[r].op.Replace? && w.requests[r].pc.Removing?
    ensures Inv(ActReplace(w, r, io, name))
  {
    var q := w.requests[r];
    if io.ok && CanRemove(w, File, w.staging[q.temp]) {
      ReplaceRemoveDisk(w, r);
      var y := Publish(UnlinkStaged(w, r), q.own);
      assert View(y.visible, Slots(q)) == map[q.slot := q.own];
      ConcludeInv(w, y, r, Ok, true);
    } else {
      GotoInv(w, r, Undoing(io.error));
    }
  }

  /** The disk after a rollback by exchange. */
  function ExchangedBack(w: World, q: Request): World
    requires q.slot in w.visible && q.temp in w.staging
  {
    w.(visible := w.visible[q.slot := w.staging[q.temp]], staging := w.staging[q.temp := w.visible[q.slot]])
  }

  lemma ReplaceBackDisk(w: World, r: nat)
    requires Inv(w) && r in w.requests && w.requests[r].op.Replace? && w.requests[r].pc.Undoing?
    requires w.requests[r].slot in w.visible && w.requests[r].temp in w.staging
    ensures DiskOk(ExchangedBack(w, w.requests[r])) && KeepsOthers(w, ExchangedBack(w, w.requests[r]), r)
  {
    var q := w.requests[r];
    DiskExchange(w, ExchangedBack(w, q), q.temp, q.slot);
    assert Unlocked(w, r, Slots(q));
    ConfinedKeepsOthers(w, ExchangedBack(w, q), r, {q.temp});
  }

  lemma ReplaceBackInv(w: World, r: nat, io: Io, name: string)
    requires Inv(w) && r in w.requests && !w.starting && w.requests[r].op.Replace? && w.requests[r].pc.Undoing? && io.ok
    ensures Inv(ActReplace(w, r, io, name))
  {
    var q := w.requests[r];
    var x := ExchangedBack(w, q);
    ReplaceBackDisk(w, r);
    assert View(x.visible, Slots(q)) == q.before;
    ConcludeInv(w, x, r, Err(q.pc.error), false);
  }

  lemma ReplaceRetainInv(w: World, r: nat, io: Io, name: string)
    requires Inv(w) && r in w.requests && !w.starting && w.requests[r].op.Replace? && w.requests[r].pc.Undoing? && !io.ok
    ensures Inv(ActReplace(w, r, io, name))
  {
    var q := w.requests[r];
    var x := Publish(w, q.own);
    GiveToUser(w, r);
    assert View(x.visible, Slots(q)) == map[q.slot := q.own];
    ConcludeInv(w, x, r, Err(Unavailable), true);
  }

  lemma DeleteEnterInv(w: World, r: nat, io: Io, name: string)
    requires Inv(w) && r in w.requests && !w.starting && w.requests[r].op.Delete? && w.requests[r].pc.Checked?
    requires Unlocked(w, r, Slots(w.requests[r]))
    requires MayChoose(w, w.requests[r], name)
    ensures Inv(ActDelete(w, r, io, name))
  {
    var q := w.requests[r];
    if io.ok && q.slot in w.visible && name !in w.staging {
      var visible, staging := w.visible - {q.slot}, w.staging[name := w.visible[q.slot]];
      DiskRenameIn(w, w.(visible := visible, staging := staging), q.slot, name);
      assert View(w.visible, Slots(q)) == map[q.slot := w.visible[q.slot]];
      EnterInv(w, r, name, visible, staging);
    } else {
      EarlyFailureInv(w, r, io.error);
    }
  }

  lemma DeleteValidateInv(w: World, r: nat, io: Io, name: string)
    requires Inv(w) && r in w.requests && !w.starting && w.requests[r].op.Delete? && w.requests[r].pc.Renamed?
    ensures Inv(ActDelete(w, r, io, name))
  {
    var q := w.requests[r];
    GotoInv(w, r, if io.ok && Matches(w.staging[q.temp], q.expected) then Removing else Undoing(Conflict));
  }

  lemma DeleteRemoveInv(w: World, r: nat, io: Io, name: string)
    requires Inv(w) && r in w.requests && !w.starting && w.requests[r].op.Delete? && w.requests[r].pc.Removing?
    ensures Inv(ActDelete(w, r, io, name))
  {
    var q := w.requests[r];
    if io.ok && CanRemove(w, q.expected.kind, w.staging[q.temp]) {
      var x := UnlinkStaged(w, r);
      DiskUnlinkStaged(w, x, q.temp, Unlink(w.staging[q.temp], ByRequest(q)));
      ConfinedKeepsOthers(w, x, r, {q.temp});
      assert View(x.visible, Slots(q)) == map[];
      ConcludeInv(w, x, r, Ok, true);
    } else {
      GotoInv(w, r, Undoing(io.error));
    }
  }

  /** The disk after a rollback from staging. */
  function RenamedBack(w: World, q: Request): World
    requires q.temp in w.staging
  {
    w.(visible := w.visible[q.slot := w.staging[q.temp]], staging := w.staging - {q.temp})
  }

  lemma DeleteBackDisk(w: World, r: nat)
    requires Inv(w) && r in w.requests && w.requests[r].op.Delete? && w.requests[r].pc.Undoing?
    requires w.requests[r].slot !in w.visible && w.requests[r].temp in w.staging
    ensures DiskOk(RenamedBack(w, w.requests[r])) && KeepsOthers(w, RenamedBack(w, w.requests[r]), r)
  {
    var q := w.requests[r];
    DiskRenameOut(w, RenamedBack(w, q), q.temp, q.slot);
    assert Unlocked(w, r, Slots(q));
    ConfinedKeepsOthers(w, RenamedBack(w, q), r, {q.temp});
  }

  lemma DeleteBackInv(w: World, r: nat, io: Io, name: string)
    requires Inv(w) && r in w.requests && !w.starting && w.requests[r].op.Delete? && w.requests[r].pc.Undoing? && io.ok
    ensures Inv(ActDelete(w, r, io, name))
  {
    var q := w.requests[r];
    var x := RenamedBack(w, q);
    DeleteBackDisk(w, r);
    assert View(x.visible, Slots(q)) == q.before;
    ConcludeInv(w, x, r, Err(q.pc.error), false);
  }

  lemma DeleteRetainInv(w: World, r: nat, io: Io, name: string)
    requires Inv(w) && r in w.requests && !w.starting && w.requests[r].op.Delete? && w.requests[r].pc.Undoing? && !io.ok
    ensures Inv(ActDelete(w, r, io, name))
  {
    var q := w.requests[r];
    ConfinedKeepsOthers(w, w, r, {});
    assert View(w.visible, Slots(q)) == map[];
    ConcludeInv(w, w, r, Err(Unavailable), false);
  }

  lemma MoveEnterInv(w: World, r: nat, io: Io)
    requires Inv(w) && r in w.requests && !w.starting && w.requests[r].op.Move? && w.requests[r].pc.Checked?
    requires Unlocked(w, r, Slots(w.requests[r]))
    ensures Inv(ActMove(w, r, io))
  {
    var q := w.requests[r];
    var to := q.op.to;
    if io.ok && q.slot in w.visible && to !in w.visible {
      var visible := (w.visible - {q.slot})[to := w.visible[q.slot]];
      DiskMove(w, w.(visible := visible, staging := w.staging), q.slot, to);
      assert View(w.visible, Slots(q)) == map[q.slot := w.visible[q.slot]];
      EnterInv(w, r, q.temp, visible, w.staging);
    } else {
      EarlyFailureInv(w, r, io.error);
    }
  }

  /** The disk after the rollback of a move. */
  function MovedBack(w: World, q: Request): World
    requires q.op.Move? && q.op.to in w.visible
  {
    w.(visible := (w.visible - {q.op.to})[q.slot := w.visible[q.op.to]])
  }

  lemma MoveBackDisk(w: World, r: nat)
    requires Inv(w) && r in w.requests && w.requests[r].op.Move? && w.requests[r].pc.Undoing?
    requires w.requests[r].slot !in w.visible && w.requests[r].op.to in w.visible
    ensures DiskOk(MovedBack(w, w.requests[r])) && KeepsOthers(w, MovedBack(w, w.requests[r]), r)
  {
    var q := w.requests[r];
    DiskMove(w, MovedBack(w, q), q.op.to, q.slot);
    assert Unlocked(w, r, Slots(q));
    ConfinedKeepsOthers(w, MovedBack(w, q), r, {});
  }

  lemma MoveBackInv(w: World, r: nat, io: Io)
    requires Inv(w) && r in w.requests && !w.starting && w.requests[r].op.Move? && w.requests[r].pc.Undoing? && io.ok
    ensures Inv(ActMove(w, r, io))
  {
    var q := w.requests[r];
    var x := MovedBack(w, q);
    MoveBackDisk(w, r);
    assert View(x.visible, Slots(q)) == q.before;
    ConcludeInv(w, x, r, Err(q.pc.error), false);
  }

  lemma MoveStayInv(w: World, r: nat, io: Io)
    requires Inv(w) && r in w.requests && !w.starting && w.requests[r].op.Move? && InWindow(w.requests[r].pc)
    requires w.requests[r].pc.Undoing? ==> !io.ok
    ensures Inv(ActMove(w, r, io))
  {
    var q := w.requests[r];
    var to := q.op.to;
    if q.pc.Renamed? && !(io.ok && Matches(w.visible[to], q.expected)) {
      GotoInv(w, r, Undoing(if io.ok then Conflict else io.error));
    } else {
      ConfinedKeepsOthers(w, w, r, {});
      assert View(w.visible, Slots(q)) == map[to := q.before[q.slot]];
      ConcludeInv(w, w, r, if q.pc.Renamed? then Ok else Err(Unavailable), false);
    }
  }

  lemma CleanInv(w: World, r: nat, io: Io)
    requires Inv(w) && r in w.requests && !w.starting && w.requests[r].pc.Cleaning?
    ensures Inv(Clean(w, r, io))
  {
    var q := w.requests[r];
    var v := Clean(w, r, io);
    if io.ok && q.temp in w.staging {
      DiskUnlinkStaged(w, v, q.temp, Unlink(w.staging[q.temp], ByRequest(q)));
    } else {
      DiskSame(w, v);
    }
    ConfinedKeepsOthers(w, v, r, {q.temp});
    RequestLeaves(w, v, r);
  }

  lemma NewInv(w: World, r: nat, io: Io)
    requires Inv(w) && r in w.requests && !w.starting && w.requests[r].op.New?
    requires !w.requests[r].pc.Start? && !w.requests[r].pc.Cleaning?
    requires EntersWindow(w.requests[r]) ==> Unlocked(w, r, Slots(w.requests[r]))
    ensures Inv(ActNew(w, r, io))
  {
    var q := w.requests[r];
    assert Placed(w, q);
    if q.pc.Checked? {
      NewEnterInv(w, r, io);
    } else if q.pc.Renamed? {
      NewValidateInv(w, r, io);
    } else if io.ok && q.slot in w.visible && w.visible[q.slot].kind.File? {
      NewRemoveInv(w, r);
    } else {
      NewLeaveInv(w, r);
    }
  }

  lemma ReplaceInv(w: World, r: nat, io: Io, name: string)
    requires Inv(w) && r in w.requests && !w.starting && w.requests[r].op.Replace?
    requires !w.requests[r].pc.Start? && !w.requests[r].pc.Cleaning? && MayChoose(w, w.requests[r], name)
    requires EntersWindow(w.requests[r]) ==> Unlocked(w, r, Slots(w.requests[r]))
    ensures Inv(ActReplace(w, r, io, name))
  {
    match w.requests[r].pc
    case Checked => ReplaceArmInv(w, r, io, name);
    case Armed => ReplaceEnterInv(w, r, io, name);
    case Renamed => ReplaceValidateInv(w, r, io, name);
    case Removing => ReplaceRemoveInv(w, r, io, name);
    case Undoing(_) => if io.ok { ReplaceBackInv(w, r, io, name); } else { ReplaceRetainInv(w, r, io, name); }
  }

  lemma DeleteInv(w: World, r: nat, io: Io, name: string)
    requires Inv(w) && r in w.requests && !w.starting && w.requests[r].op.Delete?
    requires !w.requests[r].pc.Start? && !w.requests[r].pc.Cleaning? && MayChoose(w, w.requests[r], name)
    requires EntersWindow(w.requests[r]) ==> Unlocked(w, r, Slots(w.requests[r]))
    ensures Inv(ActDelete(w, r, io, name))
  {
    assert Placed(w, w.requests[r]);
    match w.requests[r].pc
    case Checked => DeleteEnterInv(w, r, io, name);
    case Renamed => DeleteValidateInv(w, r, io, name);
    case Removing => DeleteRemoveInv(w, r, io, name);
    case Undoing(_) => if io.ok { DeleteBackInv(w, r, io, name); } else { DeleteRetainInv(w, r, io, name); }
    case Armed =>
  }

  lemma MoveInv(w: World, r: nat, io: Io)
    requires Inv(w) && r in w.requests && !w.starting && w.requests[r].op.Move?
    requires !w.requests[r].pc.Start? && !w.requests[r].pc.Cleaning?
    requires EntersWindow(w.requests[r]) ==> Unlocked(w, r, Slots(w.requests[r]))
    ensures Inv(ActMove(w, r, io))
  {
    var q := w.requests[r];
    assert Placed(w, q);
    if q.pc.Checked? {
      MoveEnterInv(w, r, io);
    } else if q.pc.Undoing? && io.ok {
      MoveBackInv(w, r, io);
    } else {
      MoveStayInv(w, r, io);
    }
  }

  lemma ActInv(w: World, r: nat, io: Io, name: string)
    requires Inv(w) && Enabled(w, Call(r, io, name))
    ensures Inv(Act(w, r, io, name))
  {
    var q := w.requests[r];
    assert Placed(w, q);
    if q.pc.Cleaning? {
      CleanInv(w, r, io);
    } else if q.pc.Start? {
      StartInv(w, r, io, name);
    } else {
      match q.op
      case New => NewInv(w, r, io);
      case Tree => TreeEnterInv(w, r, io);
      case Replace => ReplaceInv(w, r, io, name);
      case Delete => DeleteInv(w, r, io, name);
      case Move(_) => MoveInv(w, r, io);
    }
  }

  // ---- whole runs ----

  lemma DiskCreate(w: World, v: World, name: string, own: Node)
    requires DiskOk(w) && name !in w.staging && own.id !in w.created && own.id !in w.published && Absent(w, own.id)
    requires v.visible == w.visible && v.staging == w.staging[name := own]
    requires v.created == w.created + {own.id} && v.published == w.published && v.unlinked == w.unlinked
    ensures DiskOk(v)
  {
    forall i | 0 <= i < |v.unlinked| ensures UnlinkAllowed(v, v.unlinked[i]) {
      assert UnlinkAllowed(w, v.unlinked[i]);
    }
  }

  /** A request begins; the disk may gain its staged node. */
  lemma RequestBegins(w: World, v: World, r: nat, q: Request)
    requires RequestsOk(w) && r !in w.requests && v.requests == w.requests[r := q] && Placed(v, q)
    requires KeepsOthers(w, v, r) && w.created <= v.created
    requires q.pc.Start? && (UsesTemp(q) ==> UnusedName(w, q.temp))
    requires Guarded(q.op) ==> q.own.id in v.created && q.own.id !in w.created
    ensures RequestsOk(v)
  {
    KeepsAllPlaced(w, v, r);
    StaysApartAtBegin(w, v, r, q);
  }

  lemma StaysApartAtBegin(w: World, v: World, r: nat, q: Request)
    requires TempsDistinct(w) && OwnsDistinct(w) && WindowsDisjoint(w)
    requires r !in w.requests && v.requests == w.requests[r := q] && w.created <= v.created
    requires q.pc.Start? && (UsesTemp(q) ==> UnusedName(w, q.temp))
    requires Guarded(q.op) ==> q.own.id in v.created && q.own.id !in w.created
    ensures TempsDistinct(v) && OwnsDistinct(v) && WindowsDisjoint(v)
  {
  }

  lemma BeginStagedInv(w: World, step: Step)
    requires Inv(w) && Enabled(w, step) && step.BeginStaged?
    ensures Inv(Next(w, step))
  {
    var v := Next(w, step);
    DiskCreate(w, v, step.temp, step.own);
    forall t | t in w.requests && t != step.r ensures KeepsFor(w, v, w.requests[t]) {
    }
    RequestBegins(w, v, step.r, v.requests[step.r]);
  }

  lemma SameKeepsOthers(w: World, v: World, r: nat)
    requires SameLedger(w, v) && v.visible == w.visible && v.staging == w.staging
    ensures KeepsOthers(w, v, r)
  {
  }

  lemma BeginDirectInv(w: World, step: Step)
    requires Inv(w) && Enabled(w, step) && step.BeginDirect?
    ensures Inv(Next(w, step))
  {
    var v := Next(w, step);
    DiskSame(w, v);
    SameKeepsOthers(w, v, step.r);
    RequestBegins(w, v, step.r, v.requests[step.r]);
  }

  /** Other processes leave every request where it is. */
  lemma EnvironmentPlaced(w: World, visible: Visible, r: nat)
    requires Inv(w) && EnvironmentMay(w, visible) && r in w.requests
    ensures Placed(w.(visible := visible), w.requests[r])
  {
    var q, v := w.requests[r], w.(visible := visible);
    assert Placed(w, q);
    if InWindow(q.pc) && !q.op.New? {
      var here, there := View(v.visible, Slots(q)), View(w.visible, Slots(q));
      forall s | s in Slots(q) ensures Held(v, s) == Held(w, s) {
        assert s in here <==> s in there;
      }
    }
  }

  lemma EnvironmentDisk(w: World, visible: Visible)
    requires DiskOk(w) && EnvironmentMay(w, visible)
    ensures DiskOk(w.(visible := visible))
  {
  }

  lemma EnvironmentInv(w: World, step: Step)
    requires Inv(w) && Enabled(w, step) && step.Environment?
    ensures Inv(Next(w, step))
  {
    var v := Next(w, step);
    EnvironmentDisk(w, step.visible);
    forall r | r in v.requests ensures Placed(v, v.requests[r]) {
      EnvironmentPlaced(w, step.visible, r);
    }
  }

  lemma CrashInv(w: World, step: Step)
    requires Inv(w) && Enabled(w, step) && (step.Crash? || step.Recover? || step.Serve?)
    ensures Inv(Next(w, step))
  {
    var v := Next(w, step);
    match step
    case Crash => DiskPublish(w, v, VisibleIds(w));
    case Recover(name) => DiskUnlinkStaged(w, v, name, Unlink(w.staging[name], ByRecovery));
    case Serve => DiskSame(w, v);
  }

  lemma CancelInv(w: World, step: Step)
    requires Inv(w) && Enabled(w, step) && step.Cancel?
    ensures Inv(Next(w, step))
  {
    var v := Next(w, step);
    if Guarded(w.requests[step.r].op) {
      GotoInv(w, step.r, Cleaning);
    } else {
      DiskSame(w, v);
      ConfinedKeepsOthers(w, v, step.r, {});
      RequestLeaves(w, v, step.r);
    }
  }

  lemma InitialInv(w: World)
    requires Initial(w)
    ensures Inv(w)
  {
  }

  lemma NextInv(w: World, step: Step)
    requires Inv(w) && Enabled(w, step)
    ensures Inv(Next(w, step))
  {
    match step
    case BeginStaged(_, _, _, _, _, _) => BeginStagedInv(w, step);
    case BeginDirect(_, _, _, _) => BeginDirectInv(w, step);
    case Call(r, io, name) => ActInv(w, r, io, name);
    case Cancel(_) => CancelInv(w, step);
    case Environment(_) => EnvironmentInv(w, step);
    case Crash => CrashInv(w, step);
    case Recover(_) => CrashInv(w, step);
    case Serve => CrashInv(w, step);
  }

  /** The worlds that satisfy the invariant, and the steps possible there. Membership is not
      unfolded where it is only passed on. */
  ghost function Sound(): iset<World> {
    iset w: World | Inv(w)
  }

  ghost function Moves(w: World): iset<Step> {
    iset step: Step | Enabled(w, step)
  }

  lemma {:induction false} RunKeepsInv(trace: seq<World>, steps: seq<Step>, i: nat)
    requires IsRun(trace, steps) && Inv(trace[0]) && i < |trace|
    ensures Inv(trace[i])
  {
    if i > 0 {
      RunKeepsInv(trace, steps, i - 1);
      assert StepAt(trace, steps, i - 1);
      NextInv(trace[i - 1], steps[i - 1]);
    }
  }

  lemma RunInv(trace: seq<World>, steps: seq<Step>, i: nat)
    requires IsRun(trace, steps) && Initial(trace[0]) && i < |trace|
    ensures Inv(trace[i])
  {
    InitialInv(trace[0]);
    RunKeepsInv(trace, steps, i);
  }

  lemma RunStep(trace: seq<World>, steps: seq<Step>, k: nat)
    requires IsRun(trace, steps) && Initial(trace[0]) && k < |steps|
    ensures trace[k] in Sound() && steps[k] in Moves(trace[k]) && trace[k + 1] == Next(trace[k], steps[k])
  {
    RunInv(trace, steps, k);
    assert StepAt(trace, steps, k);
  }
}
