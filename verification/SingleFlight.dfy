/**
 The single-flight locks of thumbnail rendering (src/thumbnail.rs, `in_flight`,
 `release_in_flight`, `render_miss`): a map from cache key to a reference-counted lock, shared by
 requests that enter, wait, hold the lock, time out, are cancelled and release, in any interleaving.

 Every change of a reference count is a step of its own, and so are reading the count and removing
 the entry, which happen under the map's mutex. A handle names an allocation, and a freed one may
 be used again.
 */
module SingleFlight {
  import opened Common

  type Key = nat

  type Handle = nat

  type Id = nat

  datatype Phase =
    | Entered
    | Waiting                     // a second reference is in the `lock_owned` future
    | Holding                     // ... in the guard
    | Unlocked(releases: bool)    // ... in a guard that has unlocked and not yet dropped it
    | Releasing                   // about to call `release_in_flight`
    | Removing                    // in it: saw a count of at most two, holds the map's mutex
    | Removed                     // took the entry out, has its own reference still to drop
    | Leaving                     // will drop its reference without another look at the map

  datatype Request = Request(key: Key, handle: Handle, phase: Phase)

  datatype State = State(locks: map<Key, Handle>, requests: map<Id, Request>)

  const INITIAL := State(map[], map[])

  predicate HasSecond(r: Request) {
    r.phase.Waiting? || r.phase.Holding? || r.phase.Unlocked?
  }

  function Naming(s: State, h: Handle): set<Key> {
    set k | k in s.locks && s.locks[k] == h
  }

  function Users(s: State, h: Handle): set<Id> {
    set id | id in s.requests && s.requests[id].handle == h
  }

  function SecondUsers(s: State, h: Handle): set<Id> {
    set id | id in s.requests && s.requests[id].handle == h && HasSecond(s.requests[id])
  }

  /** `Arc::strong_count`: the map's references, each request's own, and those of futures and guards. */
  function StrongCount(s: State, h: Handle): nat {
    |Naming(s, h)| + |Users(s, h)| + |SecondUsers(s, h)|
  }

  predicate MapIsLocked(s: State) {
    exists id :: id in s.requests && s.requests[id].phase.Removing?
  }

  datatype Event =
    | Enter(id: Id, key: Key, handle: Handle)
    | Wait(id: Id)
    | Acquire(id: Id)
    | GiveUp(id: Id)              // the wait times out or is cancelled, dropping the future
    | Unlock(id: Id, releases: bool)  // `releases` is false when the request is cancelled
    | DropGuard(id: Id)
    | Look(id: Id)                // lock the map and read the count
    | Remove(id: Id)
    | Leave(id: Id)

  predicate At(s: State, id: Id, phase: Phase) {
    id in s.requests && s.requests[id].phase == phase
  }

  predicate Enabled(s: State, e: Event) {
    match e
    case Enter(id, key, handle) => id !in s.requests && !MapIsLocked(s) && (key in s.locks || StrongCount(s, handle) == 0)
    case Wait(id) => At(s, id, Entered)
    case Acquire(id) =>
      At(s, id, Waiting) && forall j :: j in s.requests && s.requests[j].phase.Holding? ==> s.requests[j].handle != s.requests[id].handle
    case GiveUp(id) => At(s, id, Waiting)
    case Unlock(id, _) => At(s, id, Holding)
    case DropGuard(id) => id in s.requests && s.requests[id].phase.Unlocked?
    case Look(id) => At(s, id, Releasing) && !MapIsLocked(s)
    case Remove(id) => At(s, id, Removing)
    case Leave(id) => At(s, id, Removed) || At(s, id, Leaving)
  }

  function Move(s: State, id: Id, phase: Phase): State
    requires id in s.requests
  {
    s.(requests := s.requests[id := s.requests[id].(phase := phase)])
  }

  function Step(s: State, e: Event): State
    requires Enabled(s, e)
  {
    match e
    case Enter(id, key, handle) =>
      var locks := if key in s.locks then s.locks else s.locks[key := handle];
      State(locks, s.requests[id := Request(key, locks[key], Entered)])
    case Wait(id) => Move(s, id, Waiting)
    case Acquire(id) => Move(s, id, Holding)
    case GiveUp(id) => Move(s, id, Leaving)
    case Unlock(id, releases) => Move(s, id, Unlocked(releases))
    case DropGuard(id) => Move(s, id, if s.requests[id].phase.releases then Releasing else Leaving)
    case Look(id) => Move(s, id, if StrongCount(s, s.requests[id].handle) <= 2 then Removing else Leaving)
    case Remove(id) => Move(s.(locks := s.locks - {s.requests[id].key}), id, Removed)
    case Leave(id) => s.(requests := s.requests - {id})
  }

  ghost predicate IsRun(states: seq<State>, events: seq<Event>) {
    && |states| == |events| + 1 && states[0] == INITIAL
    && forall i | 0 <= i < |events| :: Enabled(states[i], events[i]) && states[i + 1] == Step(states[i], events[i])
  }

  // ---- the two functions that touch the map ----

  /** The map in place, beside the requests that have references to its locks. */
  class ThumbnailService {
    var inFlight: map<Key, Handle>
    ghost var requests: map<Id, Request>

    constructor ()
      ensures Now() == INITIAL
    {
      inFlight, requests := map[], map[];
    }

    ghost function Now(): State
      reads this
    {
      State(inFlight, requests)
    }

    /** `in_flight`: the key's lock, or a new one at an unused `handle`. */
    method InFlight(ghost id: Id, key: Key, handle: Handle) returns (lock: Handle)
      requires Enabled(Now(), Enter(id, key, handle))
      modifies this
      ensures Now() == Step(old(Now()), Enter(id, key, handle))
      ensures id in requests && requests[id].handle == lock
    {
      if key !in inFlight {
        inFlight := inFlight[key := handle];
      }
      lock := inFlight[key];
      requests := requests[id := Request(key, lock, Entered)];
    }

    /** `release_in_flight` up to the drop of its argument; `count` is what `strong_count` returns. */
    method ReleaseInFlight(ghost id: Id, key: Key, lock: Handle, count: nat)
      requires Enabled(Now(), Look(id)) && requests[id].key == key && requests[id].handle == lock
      requires count == StrongCount(Now(), lock)
      modifies this
      ensures
        var looked := Step(old(Now()), Look(id));
        Now() == if looked.requests[id].phase.Removing? then Step(looked, Remove(id)) else looked
    {
      requests := Move(Now(), id, if count <= 2 then Removing else Leaving).requests;
      if count <= 2 {
        inFlight := inFlight - {key};
        requests := Move(Now(), id, Removed).requests;
      }
    }
  }

  // ---- the invariant ----

  /** The request's handle is the one the map names for its key. */
  ghost predicate Named(s: State, id: Id)
    requires id in s.requests
  {
    var r := s.requests[id];
    r.key in s.locks && s.locks[r.key] == r.handle
  }

  /** Nobody else has the request's handle. */
  ghost predicate Alone(s: State, id: Id)
    requires id in s.requests
  {
    forall j :: j in s.requests && j != id ==> s.requests[j].handle != s.requests[id].handle
  }

  ghost predicate RequestOk(s: State, id: Id)
    requires id in s.requests
  {
    var phase := s.requests[id].phase;
    && (!phase.Removed? ==> Named(s, id))
    && (phase.Removing? || phase.Removed? ==> Alone(s, id))
    && (phase.Removed? ==> forall k :: k in s.locks ==> s.locks[k] != s.requests[id].handle)
  }

  ghost predicate Inv(s: State) {
    && (forall id :: id in s.requests ==> RequestOk(s, id))
    && (forall k, l :: k in s.locks && l in s.locks && s.locks[k] == s.locks[l] ==> k == l)
    && (forall i, j :: i in s.requests && j in s.requests && s.requests[i].phase.Holding? && s.requests[j].phase.Holding?
                       && s.requests[i].handle == s.requests[j].handle
                       ==> i == j)
  }

  /** A count of zero: neither the map nor any request has the handle. */
  lemma UnusedHandle(s: State, h: Handle)
    requires StrongCount(s, h) == 0
    ensures forall k :: k in s.locks ==> s.locks[k] != h
    ensures forall id :: id in s.requests ==> s.requests[id].handle != h
  {
    assert forall k :: k in s.locks && s.locks[k] == h ==> k in Naming(s, h);
    assert forall id :: id in s.requests && s.requests[id].handle == h ==> id in Users(s, h);
  }

  /** A count of at most two, seen by a request whose handle the map names: nobody else has it. */
  lemma CountTwoIsAlone(s: State, id: Id)
    requires id in s.requests && Named(s, id) && StrongCount(s, s.requests[id].handle) <= 2
    ensures Alone(s, id)
  {
    var h := s.requests[id].handle;
    SubsetSize({s.requests[id].key}, Naming(s, h));
    forall j | j in s.requests && j != id ensures s.requests[j].handle != h {
      if s.requests[j].handle == h {
        SubsetSize({id, j}, Users(s, h));
      }
    }
  }

  lemma EnterKeepsInv(s: State, e: Event)
    requires Inv(s) && e.Enter? && Enabled(s, e)
    ensures Inv(Step(s, e))
  {
    if e.key !in s.locks {
      UnusedHandle(s, e.handle);
    }
    var s' := Step(s, e);
    forall id | id in s'.requests ensures RequestOk(s', id) {
      if id != e.id {
        assert s'.requests[id] == s.requests[id] && RequestOk(s, id);
        assert !At(s, id, Removing);
      }
    }
  }

  /** A request moves on, keeping what its new phase requires. */
  lemma MoveKeepsInv(s: State, id: Id, phase: Phase)
    requires Inv(s) && id in s.requests && !s.requests[id].phase.Removed? && !phase.Removed?
    requires phase.Removing? ==> Alone(s, id)
    requires phase.Holding? ==> Enabled(s, Acquire(id))
    ensures Inv(Move(s, id, phase))
  {
    var s' := Move(s, id, phase);
    assert RequestOk(s, id);
    forall j | j in s'.requests ensures RequestOk(s', j) {
      assert RequestOk(s, j);
    }
  }

  lemma RemoveKeepsInv(s: State, id: Id)
    requires Inv(s) && Enabled(s, Remove(id))
    ensures Inv(Step(s, Remove(id)))
  {
    var s' := Step(s, Remove(id));
    assert RequestOk(s, id);
    forall j | j in s'.requests ensures RequestOk(s', j) {
      assert RequestOk(s, j);
    }
  }

  lemma LeaveKeepsInv(s: State, id: Id)
    requires Inv(s) && Enabled(s, Leave(id))
    ensures Inv(Step(s, Leave(id)))
  {
    var s' := Step(s, Leave(id));
    forall j | j in s'.requests ensures RequestOk(s', j) {
      assert RequestOk(s, j);
    }
  }

  lemma StepKeepsInv(s: State, e: Event)
    requires Inv(s) && Enabled(s, e)
    ensures Inv(Step(s, e))
  {
    match e
    case Enter(_, _, _) => EnterKeepsInv(s, e);
    case Wait(id) => MoveKeepsInv(s, id, Waiting);
    case Acquire(id) => MoveKeepsInv(s, id, Holding);
    case GiveUp(id) => MoveKeepsInv(s, id, Leaving);
    case Unlock(id, releases) => MoveKeepsInv(s, id, Unlocked(releases));
    case DropGuard(id) => MoveKeepsInv(s, id, if s.requests[id].phase.releases then Releasing else Leaving);
    case Look(id) =>
      assert RequestOk(s, id);
      if StrongCount(s, s.requests[id].handle) <= 2 {
        CountTwoIsAlone(s, id);
        MoveKeepsInv(s, id, Removing);
      } else {
        MoveKeepsInv(s, id, Leaving);
      }
    case Remove(id) => RemoveKeepsInv(s, id);
    case Leave(id) => LeaveKeepsInv(s, id);
  }

  lemma {:induction false} RunKeepsInv(states: seq<State>, events: seq<Event>, n: nat)
    requires IsRun(states, events) && n < |states|
    ensures Inv(states[n])
  {
    if n > 0 {
      RunKeepsInv(states, events, n - 1);
      StepKeepsInv(states[n - 1], events[n - 1]);
    }
  }

  // ---- theorems ----

  /** In every run, the handle of a request that may still use it is the one the map names for its key. */
  lemma HandlesInUseAreNamed(states: seq<State>, events: seq<Event>, n: nat, id: Id)
    requires IsRun(states, events) && n < |states| && id in states[n].requests
    requires !states[n].requests[id].phase.Removed?
    ensures Named(states[n], id)
  {
    RunKeepsInv(states, events, n);
    assert RequestOk(states[n], id);
  }

  /** In every run, no two requests hold the guard of one key at once. */
  lemma GuardsExclude(states: seq<State>, events: seq<Event>, n: nat, a: Id, b: Id)
    requires IsRun(states, events) && n < |states|
    requires At(states[n], a, Holding) && At(states[n], b, Holding)
    ensures a == b <==> states[n].requests[a].key == states[n].requests[b].key
  {
    RunKeepsInv(states, events, n);
    HandlesInUseAreNamed(states, events, n, a);
    HandlesInUseAreNamed(states, events, n, b);
  }

  /** In every run, an entry is removed only by the last request that has its lock. */
  lemma RemovalIsByTheLast(states: seq<State>, events: seq<Event>, n: nat, id: Id)
    requires IsRun(states, events) && n < |states| && Enabled(states[n], Remove(id))
    ensures Named(states[n], id) && Alone(states[n], id)
    ensures forall j :: j in states[n].requests && states[n].requests[j].key == states[n].requests[id].key && j != id
                        ==> states[n].requests[j].phase.Removed?
  {
    var s := states[n];
    RunKeepsInv(states, events, n);
    assert RequestOk(s, id);
    forall j | j in s.requests && s.requests[j].key == s.requests[id].key && j != id
      ensures s.requests[j].phase.Removed?
    {
      assert RequestOk(s, j);
    }
  }

}
