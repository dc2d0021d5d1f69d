/**
 Requests racing over the session table: each store call (`lookup`, `touch`, `delete`, `rotate`)
 is one step, and between the steps of one request those of any other may come. The clock is read
 once per request and may return anything. Session keys are digests of fresh random tokens, so a
 key is never issued twice.
 */
module SessionRuns {
  import opened Common
  import opened RateLimits
  import opened Sessions

  datatype Config = Config(idle: Seconds, absolute: Seconds, maxPerUser: nat, maxTotal: nat)

  /** The ranges that configuration allows. */
  predicate IsConfig(c: Config) {
    c.idle >= 0 && c.absolute >= 0 && c.maxPerUser >= 1 && c.maxTotal >= 1
  }

  type Id = nat

  /** Where a request is in `validate_session`; `extending` tells `authenticate` from `session_is_active`. */
  datatype Request =
    | Looking(key: Key, now: Seconds, extending: bool)
    | Touching(key: Key, now: Seconds)
    | Deleting(key: Key)

  /** A validation that succeeded, at the time its request read. */
  datatype Success = Success(key: Key, now: Seconds)

  datatype World = World(rows: Table, issued: map<Key, Seconds>, pending: map<Id, Request>, log: seq<Success>)

  datatype Event =
    | Arrive(id: Id, key: Key, now: Seconds, extending: bool)
    | Look(id: Id, userIsActive: bool)
    | Finish(id: Id)
    | Abandon(id: Id)
    | Logout(key: Key)
    | Issue(oldKey: Option<Key>, newKey: Key, user: User, now: Seconds)

  const INITIAL := World(map[], map[], map[], [])

  predicate Enabled(w: World, e: Event) {
    match e
    case Arrive(id, _, _, _) => id !in w.pending
    case Look(id, _) => id in w.pending && w.pending[id].Looking?
    case Finish(id) => id in w.pending && !w.pending[id].Looking?
    case Abandon(id) => id in w.pending
    case Logout(_) => true
    case Issue(_, newKey, _, _) => newKey !in w.issued
  }

  function Touched(rows: Table, key: Key, now: Seconds): Table {
    if key in rows then rows[key := rows[key].(lastSeenAt := now)] else rows
  }

  function RotationFor(c: Config, e: Event): Rotation
    requires e.Issue?
  {
    Rotation(e.oldKey, e.newKey, e.user, e.now, SaturatingAdd(e.now, c.absolute), SaturatingSub(e.now, c.idle),
             c.maxPerUser, c.maxTotal)
  }

  /** The lookup of `validate_session` and what the request goes on to do. */
  predicate Validates(c: Config, w: World, id: Id, userIsActive: bool)
    requires Enabled(w, Look(id, userIsActive))
  {
    var r := w.pending[id];
    r.key in w.rows && !Expired(w.rows[r.key], r.now, c.idle) && userIsActive
  }

  function LookStep(c: Config, w: World, id: Id, userIsActive: bool): World
    requires Enabled(w, Look(id, userIsActive))
  {
    var r := w.pending[id];
    if r.key !in w.rows then
      w.(pending := w.pending - {id})
    else if !Validates(c, w, id, userIsActive) then
      w.(pending := w.pending[id := Deleting(r.key)])
    else
      w.(pending := if r.extending then w.pending[id := Touching(r.key, r.now)] else w.pending - {id},
         log := w.log + [Success(r.key, r.now)])
  }

  function Step(c: Config, w: World, e: Event): World
    requires Enabled(w, e)
  {
    match e
    case Arrive(id, key, now, extending) => w.(pending := w.pending[id := Looking(key, now, extending)])
    case Look(id, userIsActive) => LookStep(c, w, id, userIsActive)
    case Finish(id) =>
      var r := w.pending[id];
      w.(rows := if r.Touching? then Touched(w.rows, r.key, r.now) else w.rows - {r.key}, pending := w.pending - {id})
    case Abandon(id) => w.(pending := w.pending - {id})
    case Logout(key) => w.(rows := w.rows - {key})
    case Issue(_, newKey, _, now) =>
      var rotated := Rotated(w.rows, RotationFor(c, e));
      w.(rows := if rotated.Some? then rotated.value else w.rows, issued := w.issued[newKey := now])
  }

  /** The worlds that runs from the empty store reach. */
  ghost predicate IsRun(c: Config, worlds: seq<World>, events: seq<Event>) {
    && |worlds| == |events| + 1 && worlds[0] == INITIAL
    && forall i | 0 <= i < |events| :: Enabled(worlds[i], events[i]) && worlds[i + 1] == Step(c, worlds[i], events[i])
  }

  // ---- the invariant ----

  /** `b` is when the session was created, or a success already logged for it. */
  ghost predicate Basis(w: World, key: Key, b: Seconds) {
    (key in w.issued && b == w.issued[key]) || Success(key, b) in w.log
  }

  /** A stored row is that of an issued session, with its creation time, its expiry and a basis. */
  ghost predicate RowOk(c: Config, w: World, key: Key, row: Row) {
    && key in w.issued && row.createdAt == w.issued[key]
    && row.expiresAt == SaturatingAdd(row.createdAt, c.absolute)
    && Basis(w, key, row.lastSeenAt)
  }

  ghost predicate Inv(c: Config, w: World) {
    && (forall key :: key in w.rows ==> RowOk(c, w, key, w.rows[key]))
    && (forall id :: id in w.pending && w.pending[id].Touching? ==> Success(w.pending[id].key, w.pending[id].now) in w.log)
  }

  lemma IssueKeepsInv(c: Config, w: World, e: Event)
    requires IsConfig(c) && Inv(c, w) && e.Issue? && Enabled(w, e)
    ensures Inv(c, Step(c, w, e))
  {
    var w', r := Step(c, w, e), RotationFor(c, e);
    SurvivorsShape(w.rows, r);
    forall key | key in w'.rows ensures RowOk(c, w', key, w'.rows[key]) {
      if key != e.newKey {
        assert key in w.rows && w'.rows[key] == w.rows[key];
        assert RowOk(c, w, key, w.rows[key]);
      }
    }
  }

  lemma LookKeepsInv(c: Config, w: World, id: Id, userIsActive: bool)
    requires Inv(c, w) && Enabled(w, Look(id, userIsActive))
    ensures Inv(c, LookStep(c, w, id, userIsActive))
  {
    var w' := LookStep(c, w, id, userIsActive);
    forall key | key in w'.rows ensures RowOk(c, w', key, w'.rows[key]) {
      assert RowOk(c, w, key, w.rows[key]);
    }
  }

  lemma FinishKeepsInv(c: Config, w: World, id: Id)
    requires Inv(c, w) && Enabled(w, Finish(id))
    ensures Inv(c, Step(c, w, Finish(id)))
  {
    var w' := Step(c, w, Finish(id));
    forall key | key in w'.rows ensures RowOk(c, w', key, w'.rows[key]) {
      assert RowOk(c, w, key, w.rows[key]);
    }
  }

  lemma StepKeepsInv(c: Config, w: World, e: Event)
    requires IsConfig(c) && Inv(c, w) && Enabled(w, e)
    ensures Inv(c, Step(c, w, e))
  {
    match e
    case Look(id, userIsActive) => LookKeepsInv(c, w, id, userIsActive);
    case Finish(id) => FinishKeepsInv(c, w, id);
    case Issue(_, _, _, _) => IssueKeepsInv(c, w, e);
    case _ =>
      var w' := Step(c, w, e);
      forall key | key in w'.rows ensures RowOk(c, w', key, w'.rows[key]) {
        assert RowOk(c, w, key, w.rows[key]);
      }
  }

  lemma {:induction false} RunKeepsInv(c: Config, worlds: seq<World>, events: seq<Event>, n: nat)
    requires IsConfig(c) && IsRun(c, worlds, events) && n < |worlds|
    ensures Inv(c, worlds[n])
  {
    if n > 0 {
      RunKeepsInv(c, worlds, events, n - 1);
      StepKeepsInv(c, worlds[n - 1], events[n - 1]);
    }
  }

  // ---- theorems ----

  /**
   A session validates only from its creation until the absolute timeout, and less than the idle
   timeout after its creation or some earlier success.
   */
  lemma ValidationIsTimely(c: Config, worlds: seq<World>, events: seq<Event>, n: nat, id: Id, userIsActive: bool)
    requires IsConfig(c) && IsRun(c, worlds, events) && n < |worlds|
    requires Enabled(worlds[n], Look(id, userIsActive)) && Validates(c, worlds[n], id, userIsActive)
    ensures
      var w, r := worlds[n], worlds[n].pending[id];
      && userIsActive
      && r.key in w.issued && w.issued[r.key] <= r.now < w.issued[r.key] + c.absolute
      && exists b :: Basis(w, r.key, b) && r.now - b < c.idle
  {
    RunKeepsInv(c, worlds, events, n);
    var w, r := worlds[n], worlds[n].pending[id];
    var row := w.rows[r.key];
    assert RowOk(c, w, r.key, row);
    assert Basis(w, r.key, row.lastSeenAt) && r.now - row.lastSeenAt < c.idle;
  }

  lemma StepIssuesNothingAgain(c: Config, w: World, e: Event, key: Key)
    requires IsConfig(c) && Enabled(w, e) && key in w.issued && key !in w.rows
    ensures key in Step(c, w, e).issued && key !in Step(c, w, e).rows
  {
    if e.Issue? {
      SurvivorsShape(w.rows, RotationFor(c, e));
    }
  }

  lemma StaysGone(c: Config, worlds: seq<World>, events: seq<Event>, key: Key, n: nat)
    requires IsConfig(c) && IsRun(c, worlds, events) && n < |events| && worlds[n] in GoneFrom(key)
    ensures worlds[n + 1] in GoneFrom(key)
  {
    StepIssuesNothingAgain(c, worlds[n], events[n], key);
  }

  /** The worlds in which this key was issued and its row is gone. */
  ghost function GoneFrom(key: Key): iset<World> {
    iset w: World | key in w.issued && key !in w.rows
  }

  /** Once the row of an issued session is gone it never comes back, whatever was still under way. */
  lemma {:induction false} GoneForGood(c: Config, worlds: seq<World>, events: seq<Event>, key: Key, m: nat, n: nat)
    requires IsConfig(c) && IsRun(c, worlds, events) && m <= n < |worlds|
    requires worlds[m] in GoneFrom(key)
    ensures worlds[n] in GoneFrom(key)
    decreases n
  {
    if m < n {
      GoneForGood(c, worlds, events, key, m, n - 1);
      StaysGone(c, worlds, events, key, n - 1);
    }
  }

  /** So no lookup of it succeeds again. */
  lemma NeverValidatesAgain(c: Config, worlds: seq<World>, events: seq<Event>, m: nat, n: nat, id: Id, active: bool)
    requires IsConfig(c) && IsRun(c, worlds, events) && m <= n < |worlds|
    requires Enabled(worlds[n], Look(id, active))
    requires worlds[n].pending[id].key in worlds[m].issued && worlds[n].pending[id].key !in worlds[m].rows
    ensures !Validates(c, worlds[n], id, active)
  {
    GoneForGood(c, worlds, events, worlds[n].pending[id].key, m, n);
  }

  lemma OnlyIssueAddsRows(c: Config, w: World, e: Event)
    requires Enabled(w, e) && !e.Issue?
    ensures
      var rows := Step(c, w, e).rows;
      rows.Keys <= w.rows.Keys && forall key :: key in rows ==> rows[key].user == w.rows[key].user
  {
  }

  lemma StepKeepsCaps(c: Config, w: World, e: Event)
    requires IsConfig(c) && Enabled(w, e) && WithinCaps(w.rows, c.maxPerUser, c.maxTotal)
    ensures WithinCaps(Step(c, w, e).rows, c.maxPerUser, c.maxTotal)
  {
    if e.Issue? {
      if Rotated(w.rows, RotationFor(c, e)).Some? {
        RotationKeepsCaps(w.rows, RotationFor(c, e));
      }
    } else {
      OnlyIssueAddsRows(c, w, e);
      FewerRowsStayWithin(Step(c, w, e).rows, w.rows, c.maxPerUser, c.maxTotal);
    }
  }

  /** Every run keeps both caps. */
  lemma {:induction false} CapsHold(c: Config, worlds: seq<World>, events: seq<Event>, n: nat)
    requires IsConfig(c) && IsRun(c, worlds, events) && n < |worlds|
    ensures WithinCaps(worlds[n].rows, c.maxPerUser, c.maxTotal)
  {
    if n > 0 {
      CapsHold(c, worlds, events, n - 1);
      StepKeepsCaps(c, worlds[n - 1], events[n - 1]);
    } else {
      assert forall user :: OfUser(map[], user) == {};
    }
  }

  /** A rotation's own session is in the store right after it, even when every timestamp ties. */
  lemma NewSessionSurvives(c: Config, worlds: seq<World>, events: seq<Event>, n: nat)
    requires IsConfig(c) && IsRun(c, worlds, events) && n < |events| && events[n].Issue?
    ensures
      var e, after := events[n], worlds[n + 1].rows;
      e.newKey in after && after[e.newKey] == Row(e.user, e.now, e.now, SaturatingAdd(e.now, c.absolute))
  {
    RunKeepsInv(c, worlds, events, n);
    var w, r := worlds[n], RotationFor(c, events[n]);
    SurvivorsShape(w.rows, r);
    assert forall key :: key in w.rows ==> RowOk(c, w, key, w.rows[key]);
  }

  // ---- what a session in time can rely on ----

  /** When the session was last seen: at its last touch, or when it was issued. */
  function LastSeen(worlds: seq<World>, events: seq<Event>, key: Key, n: nat): Option<Seconds>
    requires n <= |events| < |worlds|
  {
    if n == 0 then None
    else
      match events[n - 1]
      case Issue(_, newKey, _, now) => if newKey == key then Some(now) else LastSeen(worlds, events, key, n - 1)
      case Finish(id) =>
        var w := worlds[n - 1];
        if id in w.pending && w.pending[id].Touching? && w.pending[id].key == key then Some(w.pending[id].now)
        else LastSeen(worlds, events, key, n - 1)
      case _ => LastSeen(worlds, events, key, n - 1)
  }

  lemma StepKeepsSeen(c: Config, w: World, e: Event, key: Key, seen: Option<Seconds>)
    requires IsConfig(c) && Enabled(w, e) && key in Step(c, w, e).rows && !(e.Issue? && e.newKey == key)
    requires key in w.rows ==> seen == Some(w.rows[key].lastSeenAt)
    ensures
      var touched := e.Finish? && w.pending[e.id].Touching? && w.pending[e.id].key == key;
      key in w.rows && Some(Step(c, w, e).rows[key].lastSeenAt) == if touched then Some(w.pending[e.id].now) else seen
  {
    if e.Issue? {
      SurvivorsShape(w.rows, RotationFor(c, e));
    }
  }

  lemma IssuedIsSeen(c: Config, w: World, e: Event)
    requires IsConfig(c) && Inv(c, w) && Enabled(w, e) && e.Issue?
    ensures e.newKey in Step(c, w, e).rows && Step(c, w, e).rows[e.newKey].lastSeenAt == e.now
  {
    SurvivorsShape(w.rows, RotationFor(c, e));
    assert forall key :: key in w.rows ==> RowOk(c, w, key, w.rows[key]);
  }

  lemma RunStep(c: Config, worlds: seq<World>, events: seq<Event>, n: nat)
    requires IsRun(c, worlds, events) && 0 < n <= |events|
    ensures Enabled(worlds[n - 1], events[n - 1]) && worlds[n] == Step(c, worlds[n - 1], events[n - 1])
  {
  }

  /** The rows' times agree with what happened before. */
  ghost function SeenAt(worlds: seq<World>, events: seq<Event>, key: Key, n: nat): iset<World>
    requires n <= |events| < |worlds|
  {
    iset w: World | key in w.rows ==> LastSeen(worlds, events, key, n) == Some(w.rows[key].lastSeenAt)
  }

  lemma StepIsSeen(c: Config, worlds: seq<World>, events: seq<Event>, key: Key, n: nat)
    requires IsConfig(c) && IsRun(c, worlds, events) && 0 < n < |worlds|
    requires worlds[n - 1] in SeenAt(worlds, events, key, n - 1)
    ensures worlds[n] in SeenAt(worlds, events, key, n)
  {
    var w, e := worlds[n - 1], events[n - 1];
    RunStep(c, worlds, events, n);
    if e.Issue? && e.newKey == key {
      RunKeepsInv(c, worlds, events, n - 1);
      IssuedIsSeen(c, w, e);
    } else if key in worlds[n].rows {
      StepKeepsSeen(c, w, e, key, LastSeen(worlds, events, key, n - 1));
    }
  }

  /** A row holds the time at which its session was last seen. */
  lemma {:induction false} RowIsLastSeen(c: Config, worlds: seq<World>, events: seq<Event>, key: Key, n: nat)
    requires IsConfig(c) && IsRun(c, worlds, events) && n < |worlds|
    ensures worlds[n] in SeenAt(worlds, events, key, n)
  {
    if n > 0 {
      RowIsLastSeen(c, worlds, events, key, n - 1);
      StepIsSeen(c, worlds, events, key, n);
    }
  }

  /** A lookup succeeds exactly when the row is there, the user is active, the time is not before the
      creation, the absolute timeout is not reached, and the session was last seen less than the idle
      timeout ago. */
  lemma ValidatesIff(c: Config, worlds: seq<World>, events: seq<Event>, n: nat, id: Id, userIsActive: bool)
    requires IsConfig(c) && IsRun(c, worlds, events) && n < |worlds| && Enabled(worlds[n], Look(id, userIsActive))
    ensures
      var w, r, seen := worlds[n], worlds[n].pending[id], LastSeen(worlds, events, worlds[n].pending[id].key, n);
      Validates(c, w, id, userIsActive) <==>
      && userIsActive && r.key in w.rows && r.key in w.issued && seen.Some?
      && w.issued[r.key] <= r.now < SaturatingAdd(w.issued[r.key], c.absolute) && r.now - seen.value < c.idle
  {
    RunKeepsInv(c, worlds, events, n);
    var w, r := worlds[n], worlds[n].pending[id];
    if r.key in w.rows {
      assert RowOk(c, w, r.key, w.rows[r.key]);
      RowIsLastSeen(c, worlds, events, r.key, n);
    }
  }

  /** A row goes only when its session is logged out, or a request that found it expired or its user
      inactive deletes it, or a rotation removes it. */
  lemma WhyARowGoes(c: Config, w: World, e: Event, key: Key)
    requires IsConfig(c) && Enabled(w, e) && key in w.rows && key !in Step(c, w, e).rows
    ensures || e == Logout(key) || (e.Finish? && w.pending[e.id] == Deleting(key))
            || (e.Issue? && key !in Survivors(w.rows, RotationFor(c, e)))
  {
  }

  /** And a request comes to delete a row only by a lookup that does not succeed. */
  lemma OnlyFailuresDelete(c: Config, w: World, e: Event, id: Id, key: Key)
    requires Enabled(w, e) && id in Step(c, w, e).pending && Step(c, w, e).pending[id] == Deleting(key)
    ensures (id in w.pending && w.pending[id] == Deleting(key)) || (e.Look? && e.id == id && !Validates(c, w, id, e.userIsActive))
  {
  }

  /** A request that may extend its session goes on to touch it when its lookup succeeds, and the touch
      makes its time the one at which the session was last seen, if the row is still there. */
  lemma SuccessExtends(c: Config, w: World, id: Id, userIsActive: bool)
    requires Enabled(w, Look(id, userIsActive)) && Validates(c, w, id, userIsActive) && w.pending[id].extending
    ensures
      var r, v := w.pending[id], Step(c, w, Look(id, userIsActive));
      && v.rows == w.rows && id in v.pending && v.pending[id] == Touching(r.key, r.now) && Enabled(v, Finish(id))
      && Step(c, v, Finish(id)).rows == w.rows[r.key := w.rows[r.key].(lastSeenAt := r.now)]
  {
  }
}
