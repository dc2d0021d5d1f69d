/**
 Concurrency gates (src/browse.rs, `SubjectGate`, `SubjectLease`): a process-wide semaphore and a
 map of active leases per subject. An acquisition takes a permit and then consults the map; a
 dropped lease leaves the map and then gives its permit back. Each of the four is one step, and
 the steps of different requests interleave freely.
 */
module SubjectGates {
  type Subject = string

  type Id = nat

  /** Where a request that has a permit is. */
  datatype Phase = Trying | Leased | Returning

  datatype Holder = Holder(subject: Subject, phase: Phase)

  datatype State = State(free: nat, subjects: map<Subject, nat>, holders: map<Id, Holder>)

  datatype Event =
    | TakePermit(id: Id, subject: Subject)
    | Consult(id: Id)             // count the subject in, or refuse it
    | EndLease(id: Id)
    | GivePermit(id: Id)

  function Initial(capacity: nat): State {
    State(capacity, map[], map[])
  }

  predicate At(s: State, id: Id, phase: Phase) {
    id in s.holders && s.holders[id].phase == phase
  }

  predicate Enabled(s: State, e: Event) {
    match e
    case TakePermit(id, _) => id !in s.holders && s.free > 0
    case Consult(id) => At(s, id, Trying)
    case EndLease(id) => At(s, id, Leased)
    case GivePermit(id) => At(s, id, Returning)
  }

  function Move(s: State, id: Id, phase: Phase): State
    requires id in s.holders
  {
    s.(holders := s.holders[id := s.holders[id].(phase := phase)])
  }

  /** `entry(subject).or_default()`. */
  function Active(subjects: map<Subject, nat>, subject: Subject): nat {
    if subject in subjects then subjects[subject] else 0
  }

  /** The map after a lease's `drop`. */
  function Decremented(subjects: map<Subject, nat>, subject: Subject): map<Subject, nat> {
    if subject !in subjects then subjects
    else if subjects[subject] <= 1 then subjects - {subject}
    else subjects[subject := subjects[subject] - 1]
  }

  function Step(perSubject: nat, s: State, e: Event): State
    requires Enabled(s, e)
  {
    match e
    case TakePermit(id, subject) => s.(free := s.free - 1, holders := s.holders[id := Holder(subject, Trying)])
    case Consult(id) =>
      var subject := s.holders[id].subject;
      var active := Active(s.subjects, subject);
      if active >= perSubject then Move(s, id, Returning).(subjects := s.subjects[subject := active])
      else Move(s, id, Leased).(subjects := s.subjects[subject := active + 1])
    case EndLease(id) => Move(s, id, Returning).(subjects := Decremented(s.subjects, s.holders[id].subject))
    case GivePermit(id) => s.(free := s.free + 1, holders := s.holders - {id})
  }

  ghost predicate IsRun(capacity: nat, perSubject: nat, states: seq<State>, events: seq<Event>) {
    && |states| == |events| + 1 && states[0] == Initial(capacity)
    && forall i | 0 <= i < |events| ::
         Enabled(states[i], events[i]) && states[i + 1] == Step(perSubject, states[i], events[i])
  }

  // ---- the gate in place ----

  class SubjectGate {
    const perSubject: nat
    var process: nat
    var subjects: map<Subject, nat>
    ghost var holders: map<Id, Holder>

    constructor (process: nat, perSubject: nat)
      ensures Now() == Initial(process) && this.perSubject == perSubject
    {
      this.process, this.perSubject := process, perSubject;
      subjects, holders := map[], map[];
    }

    ghost function Now(): State
      reads this
    {
      State(process, subjects, holders)
    }

    /** `try_acquire` with nothing in between; without a permit nothing changes. */
    method TryAcquire(ghost id: Id, subject: Subject) returns (leased: bool)
      requires id !in holders
      modifies this
      ensures old(process) == 0 ==> !leased && Now() == old(Now())
      ensures old(process) > 0 ==>
        var consulted := Step(perSubject, Step(perSubject, old(Now()), TakePermit(id, subject)), Consult(id));
        && leased == At(consulted, id, Leased)
        && Now() == if leased then consulted else Step(perSubject, consulted, GivePermit(id))
    {
      if process == 0 {
        return false;
      }
      process := process - 1;
      holders := holders[id := Holder(subject, Trying)];
      if subject !in subjects {
        subjects := subjects[subject := 0];
      }
      if subjects[subject] >= perSubject {
        process := process + 1;
        holders := holders[id := Holder(subject, Returning)] - {id};
        return false;
      }
      subjects := subjects[subject := subjects[subject] + 1];
      holders := holders[id := Holder(subject, Leased)];
      leased := true;
    }

    /** `SubjectLease::drop`, then its permit. */
    method Drop(ghost id: Id, subject: Subject)
      requires At(Now(), id, Leased) && holders[id].subject == subject
      modifies this
      ensures Now() == Step(perSubject, Step(perSubject, old(Now()), EndLease(id)), GivePermit(id))
    {
      if subject in subjects {
        var active := if subjects[subject] == 0 then 0 else subjects[subject] - 1;
        subjects := if active == 0 then subjects - {subject} else subjects[subject := active];
      }
      process := process + 1;
      holders := holders - {id};
    }
  }

  // ---- the invariant ----

  function Leases(holders: map<Id, Holder>, subject: Subject): set<Id> {
    set id | id in holders && holders[id] == Holder(subject, Leased)
  }

  /** The map counts exactly the leases that the subject has. */
  ghost predicate CountOk(perSubject: nat, s: State, subject: Subject) {
    && Active(s.subjects, subject) == |Leases(s.holders, subject)| <= perSubject
    && (subject in s.subjects && perSubject > 0 ==> s.subjects[subject] > 0)
  }

  ghost predicate Counts(perSubject: nat, s: State) {
    forall subject :: CountOk(perSubject, s, subject)
  }

  ghost predicate Inv(capacity: nat, perSubject: nat, s: State) {
    && s.free + |s.holders| == capacity && (capacity == 0 ==> s.subjects == map[])
    && Counts(perSubject, s)
  }

  lemma ConsultKeepsCount(perSubject: nat, s: State, id: Id, subject: Subject)
    requires Enabled(s, Consult(id)) && CountOk(perSubject, s, subject)
    ensures CountOk(perSubject, Step(perSubject, s, Consult(id)), subject)
  {
    var s', own := Step(perSubject, s, Consult(id)), s.holders[id].subject;
    if subject == own && Active(s.subjects, own) < perSubject {
      assert Leases(s'.holders, subject) == Leases(s.holders, subject) + {id};
    } else {
      assert Leases(s'.holders, subject) == Leases(s.holders, subject);
    }
  }

  lemma EndLeaseKeepsCount(perSubject: nat, s: State, id: Id, subject: Subject)
    requires Enabled(s, EndLease(id)) && CountOk(perSubject, s, subject)
    ensures CountOk(perSubject, Step(perSubject, s, EndLease(id)), subject)
  {
    var s', own := Step(perSubject, s, EndLease(id)), s.holders[id].subject;
    if subject == own {
      assert Leases(s'.holders, subject) == Leases(s.holders, subject) - {id};
    } else {
      assert Leases(s'.holders, subject) == Leases(s.holders, subject);
    }
  }

  lemma PermitStepKeepsCount(perSubject: nat, s: State, e: Event, subject: Subject)
    requires Enabled(s, e) && (e.TakePermit? || e.GivePermit?) && CountOk(perSubject, s, subject)
    ensures CountOk(perSubject, Step(perSubject, s, e), subject)
  {
    assert Leases(Step(perSubject, s, e).holders, subject) == Leases(s.holders, subject);
  }

  lemma StepKeepsCounts(perSubject: nat, s: State, e: Event)
    requires Counts(perSubject, s) && Enabled(s, e)
    ensures Counts(perSubject, Step(perSubject, s, e))
  {
    var s' := Step(perSubject, s, e);
    forall subject ensures CountOk(perSubject, s', subject) {
      assert CountOk(perSubject, s, subject);
      match e
      case Consult(id) => ConsultKeepsCount(perSubject, s, id, subject);
      case EndLease(id) => EndLeaseKeepsCount(perSubject, s, id, subject);
      case _ => PermitStepKeepsCount(perSubject, s, e, subject);
    }
  }

  lemma HoldersAfter(holders: map<Id, Holder>, id: Id, h: Holder)
    ensures |holders[id := h]| == |holders| + if id in holders then 0 else 1
    ensures id in holders ==> |holders - {id}| == |holders| - 1
  {
    assert holders[id := h].Keys == holders.Keys + {id};
    assert (holders - {id}).Keys == holders.Keys - {id};
  }

  lemma StepKeepsPermits(perSubject: nat, s: State, e: Event)
    requires Enabled(s, e)
    ensures var s' := Step(perSubject, s, e); s'.free + |s'.holders| == s.free + |s.holders| > 0
  {
    var s' := Step(perSubject, s, e);
    HoldersAfter(s.holders, e.id, if e.id in s'.holders then s'.holders[e.id] else s.holders[e.id]);
  }

  lemma StepKeepsInv(capacity: nat, perSubject: nat, s: State, e: Event)
    requires Inv(capacity, perSubject, s) && Enabled(s, e)
    ensures Inv(capacity, perSubject, Step(perSubject, s, e))
  {
    StepKeepsCounts(perSubject, s, e);
    StepKeepsPermits(perSubject, s, e);
  }

  lemma {:induction false} RunKeepsInv(capacity: nat, perSubject: nat, states: seq<State>, events: seq<Event>, n: nat)
    requires IsRun(capacity, perSubject, states, events) && n < |states|
    ensures Inv(capacity, perSubject, states[n])
  {
    if n > 0 {
      RunKeepsInv(capacity, perSubject, states, events, n - 1);
      StepKeepsInv(capacity, perSubject, states[n - 1], events[n - 1]);
    } else {
      assert forall subject :: Leases(map[], subject) == {};
    }
  }

  // ---- theorems ----

  function InPhase(s: State, phase: Phase): set<Id> {
    set id | id in s.holders && s.holders[id].phase == phase
  }

  /** In every run: free permits, live leases, attempts and returns in progress make up the capacity. */
  lemma PermitsAreConserved(capacity: nat, perSubject: nat, states: seq<State>, events: seq<Event>, n: nat)
    requires IsRun(capacity, perSubject, states, events) && n < |states|
    ensures
      var s := states[n];
      s.free + |InPhase(s, Leased)| + |InPhase(s, Trying)| + |InPhase(s, Returning)| == capacity
  {
    RunKeepsInv(capacity, perSubject, states, events, n);
    var s := states[n];
    assert s.holders.Keys == InPhase(s, Leased) + (InPhase(s, Trying) + InPhase(s, Returning));
  }

  /** In every run: no subject holds more leases than its cap, and one is refused exactly when it holds that many. */
  lemma SubjectCapHolds(capacity: nat, perSubject: nat, states: seq<State>, events: seq<Event>, n: nat, subject: Subject)
    requires IsRun(capacity, perSubject, states, events) && n < |states|
    ensures |Leases(states[n].holders, subject)| <= perSubject
    ensures forall id :: At(states[n], id, Trying) && states[n].holders[id].subject == subject ==>
                           (At(Step(perSubject, states[n], Consult(id)), id, Returning)
                            <==> |Leases(states[n].holders, subject)| == perSubject)
  {
    RunKeepsInv(capacity, perSubject, states, events, n);
    assert CountOk(perSubject, states[n], subject);
  }

  /** In every run: with nobody left, every permit is back. */
  lemma QuietGateIsFull(capacity: nat, perSubject: nat, states: seq<State>, events: seq<Event>, n: nat)
    requires IsRun(capacity, perSubject, states, events) && n < |states| && states[n].holders == map[]
    ensures states[n].free == capacity
    ensures perSubject >= 1 || capacity == 0 ==> states[n].subjects == map[]
  {
    RunKeepsInv(capacity, perSubject, states, events, n);
    var s := states[n];
    if perSubject >= 1 {
      forall subject ensures subject !in s.subjects {
        assert Leases(map[], subject) == {};
        assert CountOk(perSubject, s, subject);
      }
    }
  }

  /** Some run ends with nobody left and a subject still in the map. */
  ghost predicate LeavesASubject(capacity: nat, perSubject: nat) {
    exists states: seq<State>, events: seq<Event> ::
      && IsRun(capacity, perSubject, states, events)
      && states[|events|].holders == map[] && states[|events|].subjects != map[]
  }

  /** A subject cap of zero leaves an entry for every subject it refuses. */
  lemma ZeroCapLeavesASubject(capacity: nat)
    requires capacity > 0
    ensures LeavesASubject(capacity, 0)
  {
    var events := [TakePermit(0, "s"), Consult(0), GivePermit(0)];
    var s0 := Initial(capacity);
    var s1 := Step(0, s0, events[0]);
    var s2 := Step(0, s1, events[1]);
    var s3 := Step(0, s2, events[2]);
    assert s3.holders == map[] && "s" in s3.subjects;
    assert IsRun(capacity, 0, [s0, s1, s2, s3], events);
  }

  /** The map empties with the gate in every run, exactly when the cap is positive or there are no permits. */
  lemma MapEmptiesIff(capacity: nat, perSubject: nat)
    ensures !LeavesASubject(capacity, perSubject) <==> perSubject >= 1 || capacity == 0
  {
    if perSubject == 0 && capacity > 0 {
      ZeroCapLeavesASubject(capacity);
    } else if LeavesASubject(capacity, perSubject) {
      var states: seq<State>, events: seq<Event> :|
        && IsRun(capacity, perSubject, states, events)
        && states[|events|].holders == map[] && states[|events|].subjects != map[];
      QuietGateIsFull(capacity, perSubject, states, events, |events|);
    }
  }
}
