/**
 Quota measurement and the depth check before moves (src/filesystem.rs, `measure_directory`,
 `UsageScan`, `ensure_subtree_within`).
 */
module UsageWalks {
  import opened Common
  import opened VirtualPaths
  import opened Trees

  const MAX_SUBTREE_CHECK_ENTRIES: nat := 1_000_000

  datatype Error = TooManyEntries | LimitExceeded | TooDeep | Io

  // ---- quota ----

  datatype Limits = Limits(maxEntries: nat, maxBytes: U64)

  datatype Scan = Scan(entries: nat, bytes: U64, error: Option<Error>)

  const START := Scan(0, 0, None)

  function Charged(l: Limits, s: Scan, bytes: nat): Scan {
    if s.bytes + bytes > U64_MAX then s.(error := Some(LimitExceeded))
    else s.(bytes := s.bytes + bytes, error := if s.bytes + bytes > l.maxBytes then Some(LimitExceeded) else None)
  }

  /** What comes before a directory is opened, or all there is for anything else. */
  function Entered(l: Limits, s: Scan, e: Entry, depth: nat): Scan {
    if s.entries + 1 > l.maxEntries then Scan(s.entries + 1, s.bytes, Some(TooManyEntries))
    else
      var next := s.(entries := s.entries + 1);
      if e.fault.BadEntry? then next.(error := Some(Io))
      else if e.own then next
      else if depth >= MAX_PATH_DEPTH then next.(error := Some(TooDeep))
      else if e.fault.BadStat? then next.(error := Some(Io))
      else if e.node.Special? then next
      else if e.node.File? then Charged(l, next, e.node.size)
      else
        var charged := Charged(l, next, DIRECTORY_QUOTA_BYTES);
        if charged.error.None? && !e.node.readable then charged.(error := Some(Io)) else charged
  }

  function Measured(l: Limits, s: Scan, t: Tree, depth: nat): Scan
    decreases Weight(t)
  {
    if t == [] || s.error.Some? then s
    else
      var entered := Entered(l, s, t[0], depth);
      var visited := if t[0].own then entered else Measured(l, entered, Below(t[0]), depth + 1);
      Measured(l, visited, t[1..], depth)
  }

  class UsageScan {
    const limits: Limits
    var entries: nat
    var bytes: U64

    constructor (limits: Limits)
      ensures this.limits == limits && Now(None) == START
    {
      this.limits := limits;
      entries, bytes := 0, 0;
    }

    ghost function Now(error: Option<Error>): Scan
      reads this
    {
      Scan(entries, bytes, error)
    }

    method Charge(charge: nat) returns (error: Option<Error>)
      modifies this
      ensures Now(error) == Charged(limits, old(Now(None)), charge)
    {
      if bytes + charge > U64_MAX {
        return Some(LimitExceeded);
      }
      bytes := bytes + charge;
      error := if bytes > limits.maxBytes then Some(LimitExceeded) else None;
    }

    method Enter(e: Entry, depth: nat) returns (error: Option<Error>)
      modifies this
      ensures Now(error) == Entered(limits, old(Now(None)), e, depth)
    {
      entries := entries + 1;
      if entries > limits.maxEntries {
        return Some(TooManyEntries);
      }
      if e.fault.BadEntry? {
        return Some(Io);
      }
      if e.own {
        return None;
      }
      if depth >= MAX_PATH_DEPTH {
        return Some(TooDeep);
      }
      if e.fault.BadStat? {
        return Some(Io);
      }
      error := None;
      if e.node.Dir? {
        error := Charge(DIRECTORY_QUOTA_BYTES);
        if error.None? && !e.node.readable {
          error := Some(Io);
        }
      } else if e.node.File? {
        error := Charge(e.node.size);
      }
    }

    /** `measure_directory`. */
    method Measure(tree: Tree, depth: nat) returns (error: Option<Error>)
      modifies this
      ensures Now(error) == Measured(limits, old(Now(None)), tree, depth)
      decreases tree
    {
      for i := 0 to |tree|
        invariant Measured(limits, old(Now(None)), tree, depth) == Measured(limits, Now(None), tree[i..], depth)
      {
        var e := tree[i];
        assert tree[i..][0] == e && tree[i..][1..] == tree[i + 1..];
        error := Enter(e, depth);
        if error.Some? {
          return;
        }
        if !e.own && e.node.Dir? {
          error := Measure(e.node.entries, depth + 1);
          if error.Some? {
            return;
          }
        }
      }
      error := None;
    }
  }

  /** The bytes charged: every file, and so much for every directory. */
  function Usage(t: Tree): nat
    decreases Weight(t)
  {
    if t == [] then 0 else (if t[0].own then 0 else Charge(t[0]) + Usage(Below(t[0]))) + Usage(t[1..])
  }

  function Charge(e: Entry): nat {
    match e.node
    case File(size, _) => size
    case Dir(_, _) => DIRECTORY_QUOTA_BYTES
    case Special => 0
  }

  function UsageCount(t: Tree): nat
    decreases Weight(t)
  {
    if t == [] then 0 else 1 + (if t[0].own then 0 else UsageCount(Below(t[0]))) + UsageCount(t[1..])
  }

  ghost predicate Measurable(t: Tree, depth: nat)
    decreases Weight(t)
  {
    || t == []
    || (&& MeasurableEntry(t[0], depth)
        && (!t[0].own ==> Measurable(Below(t[0]), depth + 1))
        && Measurable(t[1..], depth))
  }

  ghost predicate MeasurableEntry(e: Entry, depth: nat) {
    && !e.fault.BadEntry?
    && (!e.own ==> depth < MAX_PATH_DEPTH && !e.fault.BadStat? && (e.node.Dir? ==> e.node.readable))
  }

  /** A measurement succeeds exactly within its limits, and is then the usage. */
  lemma {:induction false} MeasureIsExact(l: Limits, s: Scan, t: Tree, depth: nat)
    requires s.error.None? && s.entries <= l.maxEntries && s.bytes <= l.maxBytes
    ensures
      var r := Measured(l, s, t, depth);
      if Measurable(t, depth) && s.entries + UsageCount(t) <= l.maxEntries && s.bytes + Usage(t) <= l.maxBytes
      then r == Scan(s.entries + UsageCount(t), s.bytes + Usage(t), None)
      else r.error.Some?
    decreases Weight(t)
  {
    if t != [] {
      var entered := Entered(l, s, t[0], depth);
      if entered.error.None? {
        var visited := entered;
        if !t[0].own {
          MeasureIsExact(l, entered, Below(t[0]), depth + 1);
          visited := Measured(l, entered, Below(t[0]), depth + 1);
        }
        if visited.error.None? {
          MeasureIsExact(l, visited, t[1..], depth);
        }
      }
    }
  }

  /** The quota counts at least what a folder size counts, and each listed directory besides. */
  lemma {:induction false} UsageCoversSize(t: Tree)
    requires IsTree(t)
    ensures TrueSize(t) <= Usage(t)
    decreases Weight(t)
  {
    if t != [] {
      assert IsEntry(t[0]);
      assert IsTree(t[1..]) by {
        assert forall i :: 0 <= i < |t[1..]| ==> t[1..][i] == t[i + 1];
      }
      if t[0].node.Dir? {
        UsageCoversSize(t[0].node.entries);
      }
      UsageCoversSize(t[1..]);
    }
  }

  /** A measurement that reports depth has met an entry of the user's that is too deep. */
  lemma {:induction false} TooDeepIsDeep(l: Limits, s: Scan, t: Tree, depth: nat) returns (path: Path)
    requires s.error != Some(TooDeep) && Measured(l, s, t, depth).error == Some(TooDeep)
    ensures Holds(t, path) && depth + |path| > MAX_PATH_DEPTH
    decreases Weight(t)
  {
    var e := t[0];
    var entered := Entered(l, s, e, depth);
    var visited := if e.own then entered else Measured(l, entered, Below(e), depth + 1);
    if entered.error == Some(TooDeep) {
      path := [e.name];
      assert HoldsFrom(t[0], path);
    } else if !e.own && visited.error == Some(TooDeep) {
      var rest := TooDeepIsDeep(l, entered, Below(e), depth + 1);
      HoldsBelow(t, e, rest);
      path := [e.name] + rest;
    } else {
      path := TooDeepIsDeep(l, visited, t[1..], depth);
      HoldsInRest(t, path);
    }
  }

  // ---- the check before a move ----

  datatype Check = Check(visited: nat, error: Option<Error>)

  function Checked(s: Check, t: Tree, allowance: nat): Check
    decreases Weight(t)
  {
    if t == [] || s.error.Some? then s
    else
      var next := Check(s.visited + 1, None);
      var e := t[0];
      if next.visited > MAX_SUBTREE_CHECK_ENTRIES then next.(error := Some(TooManyEntries))
      else if e.fault.BadEntry? then next.(error := Some(Io))
      else if allowance == 0 then next.(error := Some(TooDeep))
      else if e.fault.BadStat? then next.(error := Some(Io))
      else if !e.node.Dir? then Checked(next, t[1..], allowance)
      else if !e.node.readable then next.(error := Some(Io))
      else Checked(Checked(next, Below(e), allowance - 1), t[1..], allowance)
  }

  /** `ensure_subtree_within`. */
  method EnsureSubtreeWithin(tree: Tree, allowance: nat, visited: nat) returns (now: nat, error: Option<Error>)
    ensures Check(now, error) == Checked(Check(visited, None), tree, allowance)
    decreases tree
  {
    now := visited;
    for i := 0 to |tree|
      invariant Checked(Check(visited, None), tree, allowance) == Checked(Check(now, None), tree[i..], allowance)
    {
      var e := tree[i];
      assert tree[i..][0] == e && tree[i..][1..] == tree[i + 1..];
      now := now + 1;
      if now > MAX_SUBTREE_CHECK_ENTRIES {
        return now, Some(TooManyEntries);
      }
      if e.fault.BadEntry? {
        return now, Some(Io);
      }
      if allowance == 0 {
        return now, Some(TooDeep);
      }
      if e.fault.BadStat? {
        return now, Some(Io);
      }
      if !e.node.Dir? {
        continue;
      }
      if !e.node.readable {
        return now, Some(Io);
      }
      now, error := EnsureSubtreeWithin(e.node.entries, allowance - 1, now);
      if error.Some? {
        return;
      }
    }
    error := None;
  }

  /** Everything in the tree can be read. */
  ghost predicate Readable(t: Tree)
    decreases Weight(t)
  {
    t == [] || (t[0].fault.Fine? && (t[0].node.Dir? ==> t[0].node.readable) && Readable(Below(t[0])) && Readable(t[1..]))
  }

  /** The check passes exactly for a readable tree no higher than the allowance, of no more entries than it may visit. */
  lemma {:induction false} CheckIsExact(s: Check, t: Tree, allowance: nat)
    requires s.error.None? && s.visited <= MAX_SUBTREE_CHECK_ENTRIES
    ensures
      var r := Checked(s, t, allowance);
      if Readable(t) && Height(t) <= allowance && s.visited + Weight(t) <= MAX_SUBTREE_CHECK_ENTRIES
      then r == Check(s.visited + Weight(t), None)
      else r.error.Some?
    decreases Weight(t)
  {
    if t != [] && s.visited < MAX_SUBTREE_CHECK_ENTRIES && allowance > 0 && t[0].fault.Fine? {
      var next := Check(s.visited + 1, None);
      if !t[0].node.Dir? {
        assert Height(Below(t[0])) == 0 && Readable(Below(t[0]));
        CheckIsExact(next, t[1..], allowance);
      } else if t[0].node.readable {
        CheckIsExact(next, Below(t[0]), allowance - 1);
        var below := Checked(next, Below(t[0]), allowance - 1);
        if below.error.None? {
          CheckIsExact(below, t[1..], allowance);
        }
      }
    }
  }

  /** It reports depth only for a tree that is too high. */
  lemma {:induction false} CheckFindsDepth(s: Check, t: Tree, allowance: nat)
    requires s.error.None? && Checked(s, t, allowance).error == Some(TooDeep)
    ensures Height(t) > allowance
    decreases Weight(t)
  {
    if allowance > 0 {
      var next := Check(s.visited + 1, None);
      if !t[0].node.Dir? {
        CheckFindsDepth(next, t[1..], allowance);
      } else {
        var below := Checked(next, Below(t[0]), allowance - 1);
        if below.error.Some? {
          CheckFindsDepth(next, Below(t[0]), allowance - 1);
        } else {
          CheckFindsDepth(below, t[1..], allowance);
        }
      }
    }
  }
}
