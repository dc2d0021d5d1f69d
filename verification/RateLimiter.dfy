/**
 The login rate limiter (src/auth.rs, `RateLimiter`): fixed windows per key in a pruned map of
 bounded size. Times are 64-bit seconds, subtracted with saturation as the code does.
 */
module RateLimits {
  import opened Common

  const RATE_LIMIT_WINDOW_SECONDS := 60
  const MAX_RATE_LIMIT_KEYS: nat := 4096
  const I64_MIN: int := -0x8000_0000_0000_0000
  const I64_MAX: int := 0x7FFF_FFFF_FFFF_FFFF

  type Seconds = t: int | I64_MIN <= t <= I64_MAX witness 0

  datatype Window = Window(startedAt: Seconds, attempts: nat, lastSeenAt: Seconds)

  function SaturatingSub(a: Seconds, b: Seconds): Seconds {
    if a - b < I64_MIN then I64_MIN else if a - b > I64_MAX then I64_MAX else a - b
  }

  /** What `retain` keeps. */
  function Live<K>(entries: map<K, Window>, now: Seconds): map<K, Window> {
    map k | k in entries && SaturatingSub(now, entries[k].lastSeenAt) < RATE_LIMIT_WINDOW_SECONDS :: entries[k]
  }

  /** One attempt against the window of its key. */
  function Attempt(limit: nat, window: Option<Window>, now: Seconds): (Window, bool) {
    var current :=
      if window.None? || SaturatingSub(now, window.value.startedAt) >= RATE_LIMIT_WINDOW_SECONDS || now < window.value.startedAt
      then Window(now, 0, now)
      else window.value.(lastSeenAt := now);
    if current.attempts >= limit then (current, false) else (current.(attempts := current.attempts + 1), true)
  }

  function Lookup<K>(entries: map<K, Window>, key: K): Option<Window> {
    if key in entries then Some(entries[key]) else None
  }

  /** One of the longest unseen keys whose window is not exhausted. */
  ghost predicate IsVictim<K>(limit: nat, entries: map<K, Window>, victim: K) {
    && victim in entries && entries[victim].attempts < limit
    && forall k :: k in entries && entries[k].attempts < limit ==> entries[victim].lastSeenAt <= entries[k].lastSeenAt
  }

  predicate Full<K(==)>(entries: map<K, Window>, key: K) {
    |entries| >= MAX_RATE_LIMIT_KEYS && key !in entries
  }

  /** The attempt is counted in `room`, which has a place for its key. */
  predicate Counts<K>(limit: nat, room: map<K, Window>, key: K, now: Seconds, after: map<K, Window>, answer: bool) {
    var (window, allowed) := Attempt(limit, Lookup(room, key), now);
    after == room[key := window] && answer == allowed
  }

  /** The whole effect and answer of `allow`. */
  ghost predicate Allows<K(!new)>(limit: nat, before: map<K, Window>, key: K, now: Seconds, after: map<K, Window>, answer: bool) {
    var live := Live(before, now);
    if !Full(live, key) then Counts(limit, live, key, now, after, answer)
    else if forall k :: k in live ==> live[k].attempts >= limit then after == live && !answer
    else exists victim :: IsVictim(limit, live, victim) && Counts(limit, live - {victim}, key, now, after, answer)
  }

  class RateLimiter<K(==, !new)> {
    const attemptsPerWindow: nat
    var entries: map<K, Window>

    ghost predicate Valid()
      reads this
    {
      |entries| <= MAX_RATE_LIMIT_KEYS
    }

    constructor (attemptsPerWindow: nat)
      ensures Valid() && this.attemptsPerWindow == attemptsPerWindow && entries == map[]
    {
      this.attemptsPerWindow := attemptsPerWindow;
      this.entries := map[];
    }

    method Allow(key: K, now: Seconds) returns (answer: bool)
      requires Valid()
      modifies this
      ensures Valid()
      ensures Allows(attemptsPerWindow, old(entries), key, now, entries, answer)
    {
      LiveSize(entries, now);
      ghost var live := Live(entries, now);
      entries := Live(entries, now);
      if |entries| >= MAX_RATE_LIMIT_KEYS && key !in entries {
        var oldest := OldestOpen();
        if oldest.None? {
          return false;
        }
        answer := Replace(oldest.value, key, now);
        assert IsVictim(attemptsPerWindow, live, oldest.value);
        return;
      }
      answer := Count(key, now);
    }

    /** Evicts `victim` and counts the attempt. */
    method Replace(victim: K, key: K, now: Seconds) returns (answer: bool)
      requires victim in entries && key !in entries && |entries| <= MAX_RATE_LIMIT_KEYS
      modifies this
      ensures Counts(attemptsPerWindow, old(entries) - {victim}, key, now, entries, answer)
      ensures |entries| <= MAX_RATE_LIMIT_KEYS
    {
      assert (entries - {victim}).Keys == entries.Keys - {victim};
      entries := entries - {victim};
      answer := Count(key, now);
    }

    /** The attempt against the window of its key. */
    method Count(key: K, now: Seconds) returns (answer: bool)
      modifies this
      ensures Counts(attemptsPerWindow, old(entries), key, now, entries, answer)
      ensures |entries| == |old(entries)| + (if key in old(entries) then 0 else 1)
    {
      var window := if key in entries then entries[key] else Window(now, 0, now);
      if SaturatingSub(now, window.startedAt) >= RATE_LIMIT_WINDOW_SECONDS || now < window.startedAt {
        window := Window(now, 0, now);
      }
      window := window.(lastSeenAt := now);
      answer := window.attempts < attemptsPerWindow;
      if answer {
        window := window.(attempts := window.attempts + 1);
      }
      entries := entries[key := window];
      assert entries.Keys == old(entries).Keys + {key};
    }

    /** The `min_by_key` over windows that are not exhausted. */
    method OldestOpen() returns (oldest: Option<K>)
      ensures oldest.None? ==> forall k :: k in entries ==> entries[k].attempts >= attemptsPerWindow
      ensures oldest.Some? ==> IsVictim(attemptsPerWindow, entries, oldest.value)
    {
      oldest := None;
      var rest := entries.Keys;
      while rest != {}
        invariant rest <= entries.Keys
        invariant oldest.None? ==> forall k :: k in entries && k !in rest ==> entries[k].attempts >= attemptsPerWindow
        invariant oldest.Some? ==>
          && oldest.value in entries && entries[oldest.value].attempts < attemptsPerWindow
          && forall k :: k in entries && k !in rest && entries[k].attempts < attemptsPerWindow ==>
               entries[oldest.value].lastSeenAt <= entries[k].lastSeenAt
        decreases |rest|
      {
        var k :| k in rest;
        if entries[k].attempts < attemptsPerWindow {
          if oldest.None? || entries[k].lastSeenAt < entries[oldest.value].lastSeenAt {
            oldest := Some(k);
          }
        }
        rest := rest - {k};
      }
    }

    method Clear(key: K)
      requires Valid()
      modifies this
      ensures Valid() && entries == old(entries) - {key}
    {
      assert (entries - {key}).Keys == entries.Keys - {key};
      entries := entries - {key};
    }
  }

  lemma LiveSize<K>(entries: map<K, Window>, now: Seconds)
    ensures |Live(entries, now)| <= |entries|
  {
    assert Live(entries, now).Keys <= entries.Keys;
    SubsetSize(Live(entries, now).Keys, entries.Keys);
  }

  // ---- runs ----

  datatype Op<K> = Try(key: K, now: Seconds) | Forget(key: K)

  /** `states[i]` is the map before `ops[i]`; `answers[i]` is its answer (true for a `Forget`). */
  ghost predicate IsRun<K(!new)>(limit: nat, ops: seq<Op<K>>, states: seq<map<K, Window>>, answers: seq<bool>) {
    && |states| == |ops| + 1 && |answers| == |ops| && states[0] == map[]
    && forall i :: 0 <= i < |ops| ==> Step(limit, states[i], ops[i], states[i + 1], answers[i])
  }

  ghost predicate Step<K(!new)>(limit: nat, before: map<K, Window>, op: Op<K>, after: map<K, Window>, answer: bool) {
    match op
    case Try(key, now) => Allows(limit, before, key, now, after, answer)
    case Forget(key) => after == before - {key} && answer
  }

  /** What an operation can lead to, with its answer. */
  ghost function Effects<K(!new)>(limit: nat, before: map<K, Window>, op: Op<K>): iset<(map<K, Window>, bool)> {
    iset e: (map<K, Window>, bool) | Step(limit, before, op, e.0, e.1)
  }

  lemma RunStep<K(!new)>(limit: nat, ops: seq<Op<K>>, states: seq<map<K, Window>>, answers: seq<bool>, i: nat)
    requires IsRun(limit, ops, states, answers) && i < |ops|
    ensures (states[i + 1], answers[i]) in Effects(limit, states[i], ops[i])
  {
    assert Step(limit, states[i], ops[i], states[i + 1], answers[i]);
  }

  ghost predicate Monotone<K(!new)>(ops: seq<Op<K>>) {
    forall i, j :: 0 <= i < j < |ops| && ops[i].Try? && ops[j].Try? ==> ops[i].now <= ops[j].now
  }

  /** In every run the map stays within its bound. */
  lemma {:induction false} SizeBounded<K(!new)>(limit: nat, ops: seq<Op<K>>, states: seq<map<K, Window>>, answers: seq<bool>, i: nat)
    requires IsRun(limit, ops, states, answers) && i < |states|
    ensures |states[i]| <= MAX_RATE_LIMIT_KEYS
  {
    if i > 0 {
      SizeBounded(limit, ops, states, answers, i - 1);
      RunStep(limit, ops, states, answers, i - 1);
      StepSize(limit, states[i - 1], ops[i - 1], states[i], answers[i - 1]);
    }
  }

  lemma StepSize<K(!new)>(limit: nat, before: map<K, Window>, op: Op<K>, after: map<K, Window>, answer: bool)
    requires (after, answer) in Effects(limit, before, op) && |before| <= MAX_RATE_LIMIT_KEYS
    ensures |after| <= MAX_RATE_LIMIT_KEYS
  {
    match op
    case Forget(key) =>
      assert after.Keys <= before.Keys;
      SubsetSize(after.Keys, before.Keys);
    case Try(key, now) =>
      var live := Live(before, now);
      LiveSize(before, now);
      if !Full(live, key) {
        CountsSize(limit, live, key, now, after, answer);
      } else if !(forall k :: k in live ==> live[k].attempts >= limit) {
        var victim :| IsVictim(limit, live, victim) && Counts(limit, live - {victim}, key, now, after, answer);
        assert (live - {victim}).Keys == live.Keys - {victim};
        CountsSize(limit, live - {victim}, key, now, after, answer);
      }
  }

  lemma CountsSize<K>(limit: nat, room: map<K, Window>, key: K, now: Seconds, after: map<K, Window>, answer: bool)
    requires Counts(limit, room, key, now, after, answer)
    ensures |after| == |room| + (if key in room then 0 else 1)
  {
    assert after.Keys == room.Keys + {key};
  }

  // ---- the pruned limiter answers like one that never forgets ----

  /** A limiter that keeps every key's window forever. */
  function Unpruned<K>(limit: nat, windows: map<K, Window>, op: Op<K>): (map<K, Window>, bool) {
    match op
    case Try(key, now) =>
      var (window, allowed) := Attempt(limit, Lookup(windows, key), now);
      (windows[key := window], allowed)
    case Forget(key) => (windows - {key}, true)
  }

  function UnprunedRun<K>(limit: nat, ops: seq<Op<K>>): map<K, Window> {
    if ops == [] then map[]
    else Unpruned(limit, UnprunedRun(limit, ops[..|ops| - 1]), ops[|ops| - 1]).0
  }

  /** The pruned map holds the same windows, and what it lacks has expired by `now`. */
  ghost predicate Agrees<K(!new)>(entries: map<K, Window>, windows: map<K, Window>, now: Seconds) {
    && (forall k :: k in entries ==> k in windows && entries[k] == windows[k])
    && (forall k :: k in windows ==> windows[k].startedAt <= windows[k].lastSeenAt <= now)
    && (forall k :: k in windows && k !in entries ==> now - windows[k].startedAt >= RATE_LIMIT_WINDOW_SECONDS)
  }

  lemma AttemptAgrees<K(!new)>(limit: nat, before: map<K, Window>, windows: map<K, Window>, past: Seconds,
                               key: K, now: Seconds, after: map<K, Window>, answer: bool)
    requires Agrees(before, windows, past) && past <= now
    requires !Full(Live(before, now), key) && Allows(limit, before, key, now, after, answer)
    ensures
      var (kept, allowed) := Unpruned(limit, windows, Try(key, now));
      answer == allowed && Agrees(after, kept, now)
  {
    LiveAgrees(before, windows, past, now);
    CountsAgree(limit, Live(before, now), windows, key, now, after, answer);
  }

  /** Pruning forgets only what has expired. */
  lemma LiveAgrees<K(!new)>(before: map<K, Window>, windows: map<K, Window>, past: Seconds, now: Seconds)
    requires Agrees(before, windows, past) && past <= now
    ensures Agrees(Live(before, now), windows, now)
  {
    forall k | k in windows && k !in Live(before, now) ensures now - windows[k].startedAt >= RATE_LIMIT_WINDOW_SECONDS {
      if k in before {
        assert SaturatingSub(now, before[k].lastSeenAt) >= RATE_LIMIT_WINDOW_SECONDS;
      }
    }
  }

  /** An expired window counts like none. */
  lemma SameAttempt<K(!new)>(limit: nat, live: map<K, Window>, windows: map<K, Window>, key: K, now: Seconds)
    requires Agrees(live, windows, now)
    ensures Attempt(limit, Lookup(live, key), now) == Attempt(limit, Lookup(windows, key), now)
  {
    if key in windows && key !in live {
      assert SaturatingSub(now, windows[key].startedAt) >= RATE_LIMIT_WINDOW_SECONDS;
    }
  }

  lemma CountsAgree<K(!new)>(limit: nat, live: map<K, Window>, windows: map<K, Window>, key: K, now: Seconds,
                             after: map<K, Window>, answer: bool)
    requires Agrees(live, windows, now) && Counts(limit, live, key, now, after, answer)
    ensures
      var (kept, allowed) := Unpruned(limit, windows, Try(key, now));
      answer == allowed && Agrees(after, kept, now)
  {
    SameAttempt(limit, live, windows, key, now);
    var window := Attempt(limit, Lookup(windows, key), now).0;
    assert window.startedAt <= window.lastSeenAt <= now;
    StillAgrees(live, windows, key, window, now);
  }

  lemma StillAgrees<K(!new)>(live: map<K, Window>, windows: map<K, Window>, key: K, window: Window, now: Seconds)
    requires Agrees(live, windows, now) && window.startedAt <= window.lastSeenAt <= now
    ensures Agrees(live[key := window], windows[key := window], now)
  {
  }

  lemma ForgettingAgrees<K(!new)>(entries: map<K, Window>, windows: map<K, Window>, now: Seconds, key: K)
    requires Agrees(entries, windows, now)
    ensures Agrees(entries - {key}, windows - {key}, now)
  {
  }

  /** The time by which the first `i` operations had been made. */
  function LastTime<K>(ops: seq<Op<K>>): Seconds {
    if ops == [] then I64_MIN
    else
      match ops[|ops| - 1]
      case Try(_, now) => now
      case Forget(_) => LastTime(ops[..|ops| - 1])
  }

  lemma {:induction false} LastTimeBefore<K(!new)>(ops: seq<Op<K>>, j: nat, now: Seconds)
    requires j <= |ops| && forall i :: 0 <= i < j && ops[i].Try? ==> ops[i].now <= now
    ensures LastTime(ops[..j]) <= now
  {
    if j > 0 {
      assert ops[..j][..j - 1] == ops[..j - 1];
      LastTimeBefore(ops, j - 1, now);
    }
  }

  /** The pruned maps that agree with these windows at this time. */
  ghost function Agreeing<K(!new)>(windows: map<K, Window>, now: Seconds): iset<map<K, Window>> {
    iset entries: map<K, Window> | Agrees(entries, windows, now)
  }

  lemma StepAgrees<K(!new)>(limit: nat, before: map<K, Window>, windows: map<K, Window>, past: Seconds, op: Op<K>,
                            after: map<K, Window>, answer: bool)
    requires before in Agreeing(windows, past) && (after, answer) in Effects(limit, before, op)
    requires op.Try? ==> past <= op.now && !Full(Live(before, op.now), op.key)
    ensures answer == Unpruned(limit, windows, op).1
    ensures after in Agreeing(Unpruned(limit, windows, op).0, if op.Try? then op.now else past)
  {
    match op
    case Try(key, now) => AttemptAgrees(limit, before, windows, past, key, now, after, answer);
    case Forget(key) => ForgettingAgrees(before, windows, past, key);
  }

  /** No attempt among the first `n` meets a full map. */
  ghost predicate HasRoom<K(!new)>(ops: seq<Op<K>>, states: seq<map<K, Window>>, n: nat)
    requires n <= |ops| <= |states|
  {
    forall j :: 0 <= j < n && ops[j].Try? ==> !Full(Live(states[j], ops[j].now), ops[j].key)
  }

  lemma PrefixStep<K(!new)>(limit: nat, ops: seq<Op<K>>, i: nat)
    requires i < |ops|
    ensures UnprunedRun(limit, ops[..i + 1]) == Unpruned(limit, UnprunedRun(limit, ops[..i]), ops[i]).0
    ensures LastTime(ops[..i + 1]) == if ops[i].Try? then ops[i].now else LastTime(ops[..i])
  {
    assert ops[..i + 1][..i] == ops[..i];
  }

  lemma {:induction false} AlwaysAgrees<K(!new)>(limit: nat, ops: seq<Op<K>>, states: seq<map<K, Window>>, answers: seq<bool>, i: nat)
    requires IsRun(limit, ops, states, answers) && Monotone(ops) && i <= |ops| && HasRoom(ops, states, i)
    ensures states[i] in Agreeing(UnprunedRun(limit, ops[..i]), LastTime(ops[..i]))
  {
    if i > 0 {
      AlwaysAgrees(limit, ops, states, answers, i - 1);
      PrefixStep(limit, ops, i - 1);
      AnswersAgree(limit, ops, states, answers, i - 1);
    }
  }

  lemma AnswersAgree<K(!new)>(limit: nat, ops: seq<Op<K>>, states: seq<map<K, Window>>, answers: seq<bool>, i: nat)
    requires IsRun(limit, ops, states, answers) && Monotone(ops) && i < |ops|
    requires ops[i].Try? ==> !Full(Live(states[i], ops[i].now), ops[i].key)
    requires states[i] in Agreeing(UnprunedRun(limit, ops[..i]), LastTime(ops[..i]))
    ensures answers[i] == Unpruned(limit, UnprunedRun(limit, ops[..i]), ops[i]).1
    ensures states[i + 1] in Agreeing(Unpruned(limit, UnprunedRun(limit, ops[..i]), ops[i]).0,
                                      if ops[i].Try? then ops[i].now else LastTime(ops[..i]))
  {
    RunStep(limit, ops, states, answers, i);
    if ops[i].Try? {
      LastTimeBefore(ops, i, ops[i].now);
    }
    StepAgrees(limit, states[i], UnprunedRun(limit, ops[..i]), LastTime(ops[..i]), ops[i], states[i + 1], answers[i]);
  }

  /** With a clock that does not go back, as long as no attempt meets a full map, every answer is
      the one that a limiter keeping all windows forever would give. */
  lemma PruningIsInvisible<K(!new)>(limit: nat, ops: seq<Op<K>>, states: seq<map<K, Window>>, answers: seq<bool>, i: nat)
    requires IsRun(limit, ops, states, answers) && Monotone(ops) && i <= |ops| && HasRoom(ops, states, i)
    ensures states[i] in Agreeing(UnprunedRun(limit, ops[..i]), LastTime(ops[..i]))
    ensures forall j :: 0 <= j < i ==> answers[j] == Unpruned(limit, UnprunedRun(limit, ops[..j]), ops[j]).1
  {
    AlwaysAgrees(limit, ops, states, answers, i);
    forall j | 0 <= j < i ensures answers[j] == Unpruned(limit, UnprunedRun(limit, ops[..j]), ops[j]).1 {
      AlwaysAgrees(limit, ops, states, answers, j);
      AnswersAgree(limit, ops, states, answers, j);
    }
  }

  // ---- an exhausted window stays exhausted ----

  ghost predicate Exhausted<K(!new)>(limit: nat, entries: map<K, Window>, key: K, since: Seconds) {
    && key in entries && entries[key].attempts >= limit
    && entries[key].startedAt == since <= entries[key].lastSeenAt
  }

  ghost function ExhaustedMaps<K(!new)>(limit: nat, key: K, since: Seconds): iset<map<K, Window>> {
    iset entries: map<K, Window> | Exhausted(limit, entries, key, since)
  }

  lemma StepKeepsExhausted<K(!new)>(limit: nat, before: map<K, Window>, op: Op<K>, after: map<K, Window>, answer: bool, key: K, since: Seconds)
    requires (after, answer) in Effects(limit, before, op) && before in ExhaustedMaps(limit, key, since)
    requires op != Forget(key) && (op.Try? ==> since <= op.now < since + RATE_LIMIT_WINDOW_SECONDS)
    ensures after in ExhaustedMaps(limit, key, since)
    ensures op.Try? && op.key == key ==> !answer
  {
    if op.Try? {
      AllowKeepsExhausted(limit, before, op.key, op.now, after, answer, key, since);
    }
  }

  lemma AllowKeepsExhausted<K(!new)>(limit: nat, before: map<K, Window>, k: K, now: Seconds, after: map<K, Window>, answer: bool,
                                     key: K, since: Seconds)
    requires Allows(limit, before, k, now, after, answer) && Exhausted(limit, before, key, since)
    requires since <= now < since + RATE_LIMIT_WINDOW_SECONDS
    ensures Exhausted(limit, after, key, since) && (k == key ==> !answer)
  {
    var live := Live(before, now);
    PruningKeepsExhausted(limit, before, now, key, since);
    if !Full(live, k) {
      CountingKeepsExhausted(limit, live, k, now, after, answer, key, since);
    } else if !(forall k :: k in live ==> live[k].attempts >= limit) {
      var victim :| IsVictim(limit, live, victim) && Counts(limit, live - {victim}, k, now, after, answer);
      CountingKeepsExhausted(limit, live - {victim}, k, now, after, answer, key, since);
    }
  }

  lemma PruningKeepsExhausted<K(!new)>(limit: nat, before: map<K, Window>, now: Seconds, key: K, since: Seconds)
    requires Exhausted(limit, before, key, since) && since <= now < since + RATE_LIMIT_WINDOW_SECONDS
    ensures Exhausted(limit, Live(before, now), key, since)
  {
  }

  lemma CountingKeepsExhausted<K(!new)>(limit: nat, room: map<K, Window>, k: K, now: Seconds, after: map<K, Window>, answer: bool,
                                        key: K, since: Seconds)
    requires Counts(limit, room, k, now, after, answer) && Exhausted(limit, room, key, since)
    requires since <= now < since + RATE_LIMIT_WINDOW_SECONDS
    ensures Exhausted(limit, after, key, since) && (k == key ==> !answer)
  {
  }

  ghost predicate TimesAreBy<K(!new)>(entries: map<K, Window>, now: Seconds) {
    forall k :: k in entries ==> entries[k].startedAt <= entries[k].lastSeenAt <= now
  }

  ghost function TimesUpTo<K(!new)>(now: Seconds): iset<map<K, Window>> {
    iset entries: map<K, Window> | TimesAreBy(entries, now)
  }

  lemma StepTimesArePast<K(!new)>(limit: nat, before: map<K, Window>, past: Seconds, op: Op<K>, after: map<K, Window>, answer: bool)
    requires before in TimesUpTo(past) && (after, answer) in Effects(limit, before, op) && (op.Try? ==> past <= op.now)
    ensures after in TimesUpTo(if op.Try? then op.now else past)
  {
  }

  /** Every time in the map is one that the clock has shown. */
  lemma {:induction false} TimesArePast<K(!new)>(limit: nat, ops: seq<Op<K>>, states: seq<map<K, Window>>, answers: seq<bool>, i: nat)
    requires IsRun(limit, ops, states, answers) && Monotone(ops) && i <= |ops|
    ensures states[i] in TimesUpTo(LastTime(ops[..i]))
  {
    if i > 0 {
      TimesArePast(limit, ops, states, answers, i - 1);
      PrefixStep(limit, ops, i - 1);
      RunStep(limit, ops, states, answers, i - 1);
      if ops[i - 1].Try? {
        LastTimeBefore(ops, i - 1, ops[i - 1].now);
      }
      StepTimesArePast(limit, states[i - 1], LastTime(ops[..i - 1]), ops[i - 1], states[i], answers[i - 1]);
    }
  }

  lemma {:induction false} StaysExhausted<K(!new)>(limit: nat, ops: seq<Op<K>>, states: seq<map<K, Window>>, answers: seq<bool>,
                                                   key: K, since: Seconds, i: nat, j: nat)
    requires IsRun(limit, ops, states, answers) && i <= j <= |ops|
    requires states[i] in ExhaustedMaps(limit, key, since)
    requires forall k :: i <= k < j && ops[k].Try? ==> since <= ops[k].now < since + RATE_LIMIT_WINDOW_SECONDS
    requires forall k :: i <= k < j ==> ops[k] != Forget(key)
    ensures states[j] in ExhaustedMaps(limit, key, since)
  {
    if i < j {
      StaysExhausted(limit, ops, states, answers, key, since, i, j - 1);
      RunStep(limit, ops, states, answers, j - 1);
      StepKeepsExhausted(limit, states[j - 1], ops[j - 1], states[j], answers[j - 1], key, since);
    }
  }

  /** Once a key's window is exhausted, the key is refused until a minute after the window began,
      whatever other keys are tried meanwhile and however many, unless the key is cleared. */
  lemma FloodCannotReopen<K(!new)>(limit: nat, ops: seq<Op<K>>, states: seq<map<K, Window>>, answers: seq<bool>, key: K, i: nat, j: nat)
    requires IsRun(limit, ops, states, answers) && Monotone(ops) && i <= j < |ops|
    requires key in states[i] && states[i][key].attempts >= limit
    requires ops[j].Try? && ops[j].key == key && ops[j].now < states[i][key].startedAt + RATE_LIMIT_WINDOW_SECONDS
    requires forall k :: i <= k < j ==> ops[k] != Forget(key)
    ensures !answers[j]
  {
    var since := states[i][key].startedAt;
    TimesArePast(limit, ops, states, answers, i);
    forall k | i <= k <= j && ops[k].Try? ensures since <= ops[k].now < since + RATE_LIMIT_WINDOW_SECONDS {
      LastTimeBefore(ops, i, ops[k].now);
    }
    StaysExhausted(limit, ops, states, answers, key, since, i, j);
    RunStep(limit, ops, states, answers, j);
    StepKeepsExhausted(limit, states[j], ops[j], states[j + 1], answers[j], key, since);
  }

  // ---- what the answers are ----

  predicate IsAttempt<K(==)>(ops: seq<Op<K>>, key: K, i: nat)
    requires i < |ops|
  {
    ops[i].Try? && ops[i].key == key
  }

  /** The last attempt of the key before `n`. */
  function LastAttempt<K(==)>(ops: seq<Op<K>>, key: K, n: nat): (last: Option<nat>)
    requires n <= |ops|
    ensures last.Some? ==> last.value < n && IsAttempt(ops, key, last.value)
    ensures forall i :: (if last.Some? then last.value + 1 else 0) <= i < n ==> !IsAttempt(ops, key, i)
  {
    if n == 0 then None else if IsAttempt(ops, key, n - 1) then Some(n - 1) else LastAttempt(ops, key, n - 1)
  }

  /** The attempt that began the minute that attempt `i` falls into: `i` itself, if the one that began
      the minute of the attempt before it is a minute ago. */
  function WindowStart<K(==)>(ops: seq<Op<K>>, key: K, i: nat): (start: nat)
    requires i < |ops| && IsAttempt(ops, key, i)
    ensures start <= i && IsAttempt(ops, key, start)
  {
    var previous := LastAttempt(ops, key, i);
    if previous.None? then i
    else
      var start := WindowStart(ops, key, previous.value);
      if ops[i].now - ops[start].now >= RATE_LIMIT_WINDOW_SECONDS then i else start
  }

  /** How many attempts of the key there are from `start` on and before `end`. */
  function Attempts<K(==)>(ops: seq<Op<K>>, key: K, start: nat, end: nat): nat
    requires end <= |ops|
  {
    if end <= start then 0
    else Attempts(ops, key, start, end - 1) + (if IsAttempt(ops, key, end - 1) then 1 else 0)
  }

  /** The key is never forgotten, and no attempt of its own or another's leaves it without a place in
      the map that it has, or asks for. */
  ghost predicate HasPlace<K(!new)>(ops: seq<Op<K>>, states: seq<map<K, Window>>, key: K, n: nat)
    requires n <= |ops| < |states|
  {
    forall i :: 0 <= i < n ==> HasPlaceAt(ops, states, key, i)
  }

  ghost predicate HasPlaceAt<K(!new)>(ops: seq<Op<K>>, states: seq<map<K, Window>>, key: K, i: nat)
    requires i < |ops| < |states|
  {
    match ops[i]
    case Try(k, now) => k == key || key in Live(states[i], now) ==> key in states[i + 1]
    case Forget(k) => k != key
  }

  /** What the map should hold for the key: nothing before its first attempt; then the window that the
      last attempt fell into, unless a minute has passed since that attempt. */
  ghost predicate Recorded<K(!new)>(limit: nat, ops: seq<Op<K>>, entries: map<K, Window>, key: K, n: nat)
    requires n <= |ops|
  {
    var last := LastAttempt(ops, key, n);
    if last.None? then key !in entries
    else
      var start := WindowStart(ops, key, last.value);
      if key in entries then
        entries[key] == Window(ops[start].now, Min(limit, Attempts(ops, key, start, n)), ops[last.value].now)
      else LastTime(ops[..n]) - ops[last.value].now >= RATE_LIMIT_WINDOW_SECONDS
  }

  ghost function Recordings<K(!new)>(limit: nat, ops: seq<Op<K>>, key: K, n: nat): iset<map<K, Window>>
    requires n <= |ops|
  {
    iset entries: map<K, Window> | Recorded(limit, ops, entries, key, n)
  }

  lemma SaturatingSubIff(a: Seconds, b: Seconds)
    ensures SaturatingSub(a, b) >= RATE_LIMIT_WINDOW_SECONDS <==> a - b >= RATE_LIMIT_WINDOW_SECONDS
  {
  }

  /** An attempt of another key leaves this one's window, or prunes or evicts it. */
  lemma OthersLeaveWindow<K(!new)>(limit: nat, before: map<K, Window>, k: K, now: Seconds, after: map<K, Window>, answer: bool, key: K)
    requires (after, answer) in Effects(limit, before, Try(k, now)) && k != key
    ensures key in after ==> key in Live(before, now) && after[key] == before[key]
  {
  }

  /** An own attempt is made against the window in the map, if it is still live. */
  lemma OwnAttempt<K(!new)>(limit: nat, before: map<K, Window>, key: K, now: Seconds, after: map<K, Window>, answer: bool)
    requires (after, answer) in Effects(limit, before, Try(key, now)) && key in after
    ensures (after[key], answer) == Attempt(limit, Lookup(Live(before, now), key), now)
  {
    var live := Live(before, now);
    if Full(live, key) && !(forall k :: k in live ==> live[k].attempts >= limit) {
      var victim :| IsVictim(limit, live, victim) && Counts(limit, live - {victim}, key, now, after, answer);
      assert Lookup(live - {victim}, key) == Lookup(live, key);
    }
  }

  lemma AttemptIsLater<K(!new)>(ops: seq<Op<K>>, key: K, n: nat)
    requires Monotone(ops) && n < |ops| && ops[n].Try?
    ensures LastTime(ops[..n]) <= ops[n].now
    ensures
      var last := LastAttempt(ops, key, n);
      last.Some? ==> ops[WindowStart(ops, key, last.value)].now <= ops[last.value].now <= ops[n].now
  {
    LastTimeBefore(ops, n, ops[n].now);
  }

  /** The window that an attempt should be made against: none, if a minute has passed since it began. */
  lemma LiveWindow<K(!new)>(limit: nat, ops: seq<Op<K>>, entries: map<K, Window>, key: K, n: nat)
    requires Monotone(ops) && n < |ops| && IsAttempt(ops, key, n) && entries in Recordings(limit, ops, key, n)
    ensures
      var start, found := WindowStart(ops, key, n), Lookup(Live(entries, ops[n].now), key);
      if start == n then found.None? || ops[n].now - found.value.startedAt >= RATE_LIMIT_WINDOW_SECONDS
      else
        && found.Some? && found.value.startedAt == ops[start].now && ops[n].now - ops[start].now < RATE_LIMIT_WINDOW_SECONDS
        && ops[start].now <= ops[n].now && found.value.attempts == Min(limit, Attempts(ops, key, start, n))
  {
    var now, last := ops[n].now, LastAttempt(ops, key, n);
    AttemptIsLater(ops, key, n);
    if last.Some? && key in entries {
      SaturatingSubIff(now, entries[key].lastSeenAt);
    }
  }

  lemma AttemptExact(limit: nat, found: Option<Window>, now: Seconds, opens: bool, start: Seconds, count: nat)
    requires if opens then found.None? || now - found.value.startedAt >= RATE_LIMIT_WINDOW_SECONDS
             else && found.Some? && found.value.startedAt == start && now - start < RATE_LIMIT_WINDOW_SECONDS && start <= now
                  && found.value.attempts == Min(limit, count)
    ensures
      var (window, answer) := Attempt(limit, found, now);
      if opens then window == Window(now, Min(limit, 1), now) && (answer <==> 0 < limit)
      else window == Window(start, Min(limit, count + 1), now) && (answer <==> count < limit)
  {
    if found.Some? {
      SaturatingSubIff(now, found.value.startedAt);
    }
  }

  lemma OwnStepRecords<K(!new)>(limit: nat, ops: seq<Op<K>>, before: map<K, Window>, after: map<K, Window>, answer: bool, key: K, n: nat)
    requires Monotone(ops) && n < |ops| && IsAttempt(ops, key, n) && key in after
    requires before in Recordings(limit, ops, key, n) && (after, answer) in Effects(limit, before, ops[n])
    ensures after in Recordings(limit, ops, key, n + 1)
    ensures answer <==> Attempts(ops, key, WindowStart(ops, key, n), n) < limit
  {
    var start, now := WindowStart(ops, key, n), ops[n].now;
    OwnAttempt(limit, before, key, now, after, answer);
    LiveWindow(limit, ops, before, key, n);
    AttemptExact(limit, Lookup(Live(before, now), key), now, start == n, ops[start].now, Attempts(ops, key, start, n));
    assert Attempts(ops, key, n, n) == 0;
  }

  lemma OtherStepRecords<K(!new)>(limit: nat, ops: seq<Op<K>>, before: map<K, Window>, after: map<K, Window>, answer: bool, key: K, n: nat)
    requires Monotone(ops) && n < |ops| && !IsAttempt(ops, key, n) && ops[n] != Forget(key)
    requires ops[n].Try? && key in Live(before, ops[n].now) ==> key in after
    requires before in Recordings(limit, ops, key, n) && (after, answer) in Effects(limit, before, ops[n])
    ensures after in Recordings(limit, ops, key, n + 1)
  {
    PrefixStep(limit, ops, n);
    var last := LastAttempt(ops, key, n);
    if ops[n].Try? {
      AttemptIsLater(ops, key, n);
      OthersLeaveWindow(limit, before, ops[n].key, ops[n].now, after, answer, key);
      if last.Some? && key in before {
        SaturatingSubIff(ops[n].now, before[key].lastSeenAt);
      }
    }
  }

  lemma PlaceIsKept<K(!new)>(ops: seq<Op<K>>, states: seq<map<K, Window>>, key: K, n: nat, i: nat)
    requires i < n <= |ops| < |states| && HasPlace(ops, states, key, n)
    ensures ops[i] != Forget(key) && (ops[i].Try? && key in Live(states[i], ops[i].now) ==> key in states[i + 1])
    ensures IsAttempt(ops, key, i) ==> key in states[i + 1]
  {
    assert HasPlaceAt(ops, states, key, i);
  }

  lemma StepRecords<K(!new)>(limit: nat, ops: seq<Op<K>>, states: seq<map<K, Window>>, answers: seq<bool>, key: K, m: nat, n: nat)
    requires IsRun(limit, ops, states, answers) && Monotone(ops) && n < m <= |ops| && HasPlace(ops, states, key, m)
    requires states[n] in Recordings(limit, ops, key, n)
    ensures states[n + 1] in Recordings(limit, ops, key, n + 1)
  {
    RunStep(limit, ops, states, answers, n);
    PlaceIsKept(ops, states, key, m, n);
    if IsAttempt(ops, key, n) {
      OwnStepRecords(limit, ops, states[n], states[n + 1], answers[n], key, n);
    } else {
      OtherStepRecords(limit, ops, states[n], states[n + 1], answers[n], key, n);
    }
  }

  lemma {:induction false} AlwaysRecorded<K(!new)>(limit: nat, ops: seq<Op<K>>, states: seq<map<K, Window>>, answers: seq<bool>,
                                                    key: K, m: nat, n: nat)
    requires IsRun(limit, ops, states, answers) && Monotone(ops) && n <= m <= |ops| && HasPlace(ops, states, key, m)
    ensures states[n] in Recordings(limit, ops, key, n)
    decreases n
  {
    if n > 0 {
      AlwaysRecorded(limit, ops, states, answers, key, m, n - 1);
      StepRecords(limit, ops, states, answers, key, m, n - 1);
    }
  }

  /** With a clock that does not go back, as long as the key is neither forgotten nor evicted, exactly
      the first `limit` attempts of each minute are allowed. A minute begins with the first attempt,
      and again with the first attempt at least 60 seconds after the one that began the last. */
  lemma AttemptsAreCounted<K(!new)>(limit: nat, ops: seq<Op<K>>, states: seq<map<K, Window>>, answers: seq<bool>, key: K, i: nat)
    requires IsRun(limit, ops, states, answers) && Monotone(ops) && i < |ops| && HasPlace(ops, states, key, i + 1)
    requires IsAttempt(ops, key, i)
    ensures answers[i] <==> Attempts(ops, key, WindowStart(ops, key, i), i) < limit
  {
    AlwaysRecorded(limit, ops, states, answers, key, i + 1, i);
    RunStep(limit, ops, states, answers, i);
    PlaceIsKept(ops, states, key, i + 1, i);
    OwnStepRecords(limit, ops, states[i], states[i + 1], answers[i], key, i);
  }

  /** Every attempt of a minute belongs to the minute of its first attempt. */
  lemma {:induction false} MinutesAreShared<K(!new)>(ops: seq<Op<K>>, key: K, i: nat, j: nat)
    requires Monotone(ops) && i <= j < |ops| && IsAttempt(ops, key, i) && IsAttempt(ops, key, j)
    requires WindowStart(ops, key, i) == i
    ensures WindowStart(ops, key, j) == i <==> ops[j].now - ops[i].now < RATE_LIMIT_WINDOW_SECONDS
    ensures WindowStart(ops, key, j) >= i
  {
    if i < j {
      var previous := LastAttempt(ops, key, j).value;
      MinutesAreShared(ops, key, i, previous);
    }
  }

  /** What is evicted was last seen no later than any other key of the map that is not exhausted. */
  lemma EvictedIsLongestUnseen<K(!new)>(limit: nat, before: map<K, Window>, k: K, now: Seconds, after: map<K, Window>, answer: bool,
                                        evicted: K, other: K)
    requires (after, answer) in Effects(limit, before, Try(k, now)) && evicted in Live(before, now) && evicted !in after
    ensures k !in Live(before, now) && |Live(before, now)| >= MAX_RATE_LIMIT_KEYS && before[evicted].attempts < limit
    ensures other in Live(before, now) && before[other].attempts < limit ==> before[evicted].lastSeenAt <= before[other].lastSeenAt
  {
  }
}
