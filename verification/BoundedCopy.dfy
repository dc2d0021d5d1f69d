/**
 The byte-bounding reader and the copy loop (src/archives.rs, `Bounded` and `copy`). A read may
 deliver any non-empty part of what is left, so every statement here holds whatever the
 chunking. Cancellation and I/O errors are left out.
 */
module BoundedCopy {
  import opened Common
  import opened VirtualPaths

  const CHUNK: nat := 65536

  datatype Transfer<+T> = Done(value: T) | TooLarge

  /** Something to read: its bytes, and how many have been read. */
  class Source {
    const data: Bytes
    var position: nat

    ghost predicate Valid()
      reads this
    {
      position <= |data|
    }

    ghost function Rest(): Bytes
      requires Valid()
      reads this
    {
      data[position..]
    }

    constructor (data: Bytes)
      ensures Valid() && this.data == data && position == 0
    {
      this.data := data;
      this.position := 0;
    }

    /** Delivers some of what is left, and nothing only at the end or for an empty buffer. */
    method Read(size: nat) returns (chunk: Bytes)
      requires Valid()
      modifies this
      ensures Valid() && old(Rest()) == chunk + Rest() && |chunk| <= size
      ensures chunk == [] <==> size == 0 || old(Rest()) == []
    {
      var most := Min(size, |data| - position);
      var n := 0;
      if most > 0 {
        n :| 1 <= n <= most;
      }
      chunk := data[position..position + n];
      position := position + n;
    }
  }

  /** `Bounded` around a source; no bound stands for the source itself. */
  class Input {
    const inner: Source
    var remaining: Option<nat>

    ghost predicate Valid()
      reads this, inner
    {
      inner.Valid() && (remaining.Some? ==> remaining.value <= U64_MAX)
    }

    ghost function Rest(): Bytes
      requires Valid()
      reads this, inner
    {
      inner.Rest()
    }

    /** What is left does not fit what may still be read. */
    ghost predicate TooLong()
      requires Valid()
      reads this, inner
    {
      remaining.Some? && |Rest()| > remaining.value
    }

    constructor (inner: Source, remaining: Option<nat>)
      requires inner.Valid() && (remaining.Some? ==> remaining.value <= U64_MAX)
      ensures Valid() && this.inner == inner && this.remaining == remaining
    {
      this.inner := inner;
      this.remaining := remaining;
    }

    /** Takes at most one byte beyond the bound from the source, and fails exactly when it gets it. */
    method Read(size: nat) returns (r: Transfer<Bytes>)
      requires Valid()
      modifies this, inner
      ensures Valid()
      ensures r.Done? ==> old(Rest()) == r.value + Rest() && |r.value| <= size
      ensures r.Done? ==> (r.value == [] <==> size == 0 || old(Rest()) == [])
      ensures r.Done? ==> remaining == (if old(remaining).Some? then Some(old(remaining).value - |r.value|) else None)
      ensures r.Done? && old(remaining).Some? ==> |r.value| <= old(remaining).value
      ensures |Rest()| <= |old(Rest())|
      ensures r.TooLarge? <==> old(remaining).Some? && |old(Rest())| - |Rest()| > old(remaining).value
      ensures old(remaining).Some? ==> |old(Rest())| - |Rest()| <= old(remaining).value + 1
      ensures r.TooLarge? ==> old(TooLong())
    {
      if size == 0 {
        return Done([]);
      }
      var most := size;
      if remaining.Some? {
        var saturated := if remaining.value == U64_MAX then U64_MAX else remaining.value + 1;
        most := Min(Min(size, CHUNK), saturated);
      }
      var chunk := inner.Read(most);
      if remaining.Some? {
        if |chunk| > remaining.value {
          return TooLarge;
        }
        remaining := Some(remaining.value - |chunk|);
      }
      r := Done(chunk);
    }
  }

  class Output {
    var data: Bytes

    constructor ()
      ensures data == []
    {
      data := [];
    }
  }

  /** What a copy can move: everything, unless that exceeds the reader's bound or the caller's. */
  ghost predicate CopyFits(rest: Bytes, remaining: Option<nat>, max: nat) {
    |rest| <= max && (remaining.Some? ==> |rest| <= remaining.value)
  }

  lemma Advances(all: Bytes, total: nat, chunk: Bytes, rest: Bytes)
    requires total <= |all| && all[total..] == chunk + rest
    ensures total + |chunk| <= |all| && all[..total + |chunk|] == all[..total] + chunk && all[total + |chunk|..] == rest
  {
    assert all == all[..total] + chunk + rest;
  }

  /** `copy`: succeeds exactly when everything that is left fits the smaller bound, and then
      delivers it unchanged; on failure it has written a prefix that is within both bounds. */
  method Copy(input: Input, output: Output, max: nat) returns (r: Transfer<nat>)
    requires input.Valid() && max <= U64_MAX
    modifies input, input.inner, output
    ensures r.Done? <==> CopyFits(old(input.Rest()), old(input.remaining), max)
    ensures r.Done? ==> r.value == |old(input.Rest())| && output.data == old(output.data) + old(input.Rest())
    ensures old(output.data) <= output.data <= old(output.data) + old(input.Rest())
    ensures |output.data| - |old(output.data)| <= max
    ensures old(input.remaining).Some? ==> |output.data| - |old(output.data)| <= old(input.remaining).value
  {
    ghost var all := input.Rest();
    var total := 0;
    while true
      invariant input.Valid() && total <= max && total <= |all|
      invariant input.Rest() == all[total..]
      invariant input.remaining == (if old(input.remaining).Some? then Some(old(input.remaining).value - total) else None)
      invariant old(input.remaining).Some? ==> total <= old(input.remaining).value
      invariant output.data == old(output.data) + all[..total]
      decreases |all| - total
    {
      var chunk := input.Read(CHUNK);
      if chunk.TooLarge? {
        return TooLarge;
      }
      var n := |chunk.value|;
      if n == 0 {
        return Done(total);
      }
      if total + n > U64_MAX || total + n > max {
        return TooLarge;
      }
      Advances(all, total, chunk.value, input.Rest());
      output.data := output.data + chunk.value;
      total := total + n;
    }
  }
}
