/**
 Client addresses behind trusted reverse proxies (src/client_address.rs): networks, the splitter
 that respects quoted strings, and the walk from the right over the combined `Forwarded` (section 4
 of RFC 7239) or X-Forwarded-For header.

 An address is its value as an unsigned integer. A header instance is `None` when it is not visible
 ASCII. The address parsers of the standard library are parameters.
 */
module ClientAddresses {
  import opened Common

  // ---- networks ----

  const V4_LIMIT: nat := 0x1_0000_0000
  const V6_LIMIT: nat := 0x1_0000_0000_0000_0000_0000_0000_0000_0000

  type U32 = n: nat | n < V4_LIMIT

  type U128 = n: nat | n < V6_LIMIT

  datatype Address = V4(v4: U32) | V6(v6: U128)

  datatype Network = Network(address: Address, prefix: nat)

  function ShiftRight(x: nat, k: nat): (r: nat)
    ensures r <= x
  {
    if k == 0 then x else ShiftRight(x / 2, k - 1)
  }

  function ShiftLeft(x: nat, k: nat): nat {
    if k == 0 then x else 2 * ShiftLeft(x, k - 1)
  }

  /** `x` with its low `k` bits cleared: the conjunction with a mask of ones shifted left by `k`. */
  function ClearLow(x: nat, k: nat): nat {
    ShiftLeft(ShiftRight(x, k), k)
  }

  function Width(a: Address): nat {
    if a.V4? then 32 else 128
  }

  function Value(a: Address): nat {
    if a.V4? then a.v4 else a.v6
  }

  /** `masked`. */
  function Masked(a: Address, prefix: nat): nat
    requires prefix <= Width(a)
  {
    ClearLow(Value(a), Width(a) - prefix)
  }

  /** `to_canonical`: an IPv4-mapped IPv6 address becomes IPv4. */
  function Canonical(a: Address): Address {
    if a.V6? && a.v6 / V4_LIMIT == 0xffff then V4(a.v6 % V4_LIMIT) else a
  }

  lemma MappedParts(n: nat, x: U32)
    ensures n / V4_LIMIT == 0xffff && n % V4_LIMIT == x <==> n == 0xffff * V4_LIMIT + x
  {
  }

  /** Exactly the addresses `::ffff:x` become the IPv4 address `x`; every other stays as it is. */
  lemma CanonicalIff(a: Address, x: U32)
    ensures Canonical(a) == V4(x) <==> a == V4(x) || (a.V6? && a.v6 == 0xffff * V4_LIMIT + x)
    ensures Canonical(a) != a ==> Canonical(a).V4?
  {
    if a.V6? {
      MappedParts(a.v6, x);
    }
  }

  /** What `IpNetwork::parse` returns: host bits cleared. */
  predicate IsNetwork(n: Network) {
    n.prefix <= Width(n.address) && Masked(n.address, n.prefix) == Value(n.address)
  }

  predicate Contains(n: Network, a: Address)
    requires n.prefix <= Width(n.address)
  {
    var address := Canonical(a);
    address.V4? == n.address.V4? && Masked(address, n.prefix) == Value(n.address)
  }

  /** Bit `j`, counting from the lowest. */
  function Bit(x: nat, j: nat): nat {
    ShiftRight(x, j) % 2
  }

  /** The same family and the same leading bits. */
  ghost predicate SharesPrefix(n: Network, a: Address)
    requires n.prefix <= Width(n.address)
  {
    && a.V4? == n.address.V4?
    && forall j :: Width(a) - n.prefix <= j < Width(a) ==> Bit(Value(a), j) == Bit(Value(n.address), j)
  }

  lemma {:induction false} ShiftLeftThenRight(x: nat, k: nat)
    ensures ShiftRight(ShiftLeft(x, k), k) == x
  {
    if k > 0 {
      ShiftLeftThenRight(x, k - 1);
    }
  }

  lemma {:induction false} ShiftRightTwice(x: nat, k: nat, j: nat)
    ensures ShiftRight(x, k + j) == ShiftRight(ShiftRight(x, k), j)
  {
    if k > 0 {
      ShiftRightTwice(x / 2, k - 1, j);
    }
  }

  /** Numbers of the same width are equal if their bits are. */
  lemma {:induction false} BitsDetermine(x: nat, y: nat, width: nat)
    requires ShiftRight(x, width) == 0 == ShiftRight(y, width)
    requires forall j :: 0 <= j < width ==> Bit(x, j) == Bit(y, j)
    ensures x == y
  {
    if width > 0 {
      forall j | 0 <= j < width - 1 ensures Bit(x / 2, j) == Bit(y / 2, j) {
        assert Bit(x, j + 1) == Bit(y, j + 1);
      }
      BitsDetermine(x / 2, y / 2, width - 1);
      assert Bit(x, 0) == Bit(y, 0);
    }
  }

  lemma HighBits(x: nat, k: nat, width: nat)
    requires k <= width
    ensures ShiftRight(x, width) == ShiftRight(ShiftRight(x, k), width - k)
    ensures forall j :: k <= j < width ==> Bit(x, j) == Bit(ShiftRight(x, k), j - k)
  {
    ShiftRightTwice(x, k, width - k);
    forall j | k <= j < width ensures Bit(x, j) == Bit(ShiftRight(x, k), j - k) {
      ShiftRightTwice(x, k, j - k);
    }
  }

  /** Clearing low bits leaves `y`, itself so cleared, exactly when the bits above agree. */
  lemma ClearedIffHighBitsAgree(x: nat, y: nat, k: nat, width: nat)
    requires k <= width && ShiftRight(x, width) == 0 == ShiftRight(y, width) && ClearLow(y, k) == y
    ensures ClearLow(x, k) == y <==> forall j :: k <= j < width ==> Bit(x, j) == Bit(y, j)
  {
    var high, high' := ShiftRight(x, k), ShiftRight(y, k);
    ShiftLeftThenRight(high, k);
    HighBits(x, k, width);
    HighBits(y, k, width);
    if forall j :: k <= j < width ==> Bit(x, j) == Bit(y, j) {
      forall j | 0 <= j < width - k ensures Bit(high, j) == Bit(high', j) {
        assert Bit(x, j + k) == Bit(y, j + k);
      }
      BitsDetermine(high, high', width - k);
    }
  }

  lemma {:induction false} BelowIsShiftedOut(x: nat, k: nat)
    requires x < ShiftLeft(1, k)
    ensures ShiftRight(x, k) == 0
  {
    if k > 0 {
      BelowIsShiftedOut(x / 2, k - 1);
    }
  }

  lemma {:induction false} ShiftLeftAdds(x: nat, j: nat, k: nat)
    ensures ShiftLeft(ShiftLeft(x, j), k) == ShiftLeft(x, j + k)
  {
    if k > 0 {
      ShiftLeftAdds(x, j, k - 1);
    }
  }

  lemma ShiftLeftBy8(x: nat)
    ensures ShiftLeft(x, 8) == 0x100 * x
  {
    assert ShiftLeft(x, 1) == 2 * x;
    assert ShiftLeft(x, 3) == 8 * x;
    assert ShiftLeft(x, 5) == 32 * x;
    assert ShiftLeft(x, 7) == 128 * x;
  }

  lemma ShiftLeftBy32(x: nat)
    ensures ShiftLeft(x, 32) == V4_LIMIT * x
  {
    ShiftLeftBy8(x);
    ShiftLeftBy8(ShiftLeft(x, 8));
    ShiftLeftBy8(ShiftLeft(x, 16));
    ShiftLeftBy8(ShiftLeft(x, 24));
    ShiftLeftAdds(x, 8, 8);
    ShiftLeftAdds(x, 16, 8);
    ShiftLeftAdds(x, 24, 8);
  }

  lemma Limits()
    ensures ShiftLeft(1, 32) == V4_LIMIT && ShiftLeft(1, 128) == V6_LIMIT
  {
    ShiftLeftBy32(1);
    ShiftLeftBy32(ShiftLeft(1, 32));
    ShiftLeftBy32(ShiftLeft(1, 64));
    ShiftLeftBy32(ShiftLeft(1, 96));
    ShiftLeftAdds(1, 32, 32);
    ShiftLeftAdds(1, 64, 32);
    ShiftLeftAdds(1, 96, 32);
  }

  lemma FitsItsWidth(a: Address)
    ensures ShiftRight(Value(a), Width(a)) == 0
  {
    Limits();
    BelowIsShiftedOut(Value(a), Width(a));
  }

  /** A network contains exactly the addresses that share its prefix, mapped ones as IPv4. */
  lemma ContainsIffSharesPrefix(n: Network, a: Address)
    requires IsNetwork(n)
    ensures Contains(n, a) <==> SharesPrefix(n, Canonical(a))
  {
    var c := Canonical(a);
    if c.V4? == n.address.V4? {
      FitsItsWidth(c);
      FitsItsWidth(n.address);
      ClearedIffHighBitsAgree(Value(c), Value(n.address), Width(c) - n.prefix, Width(c));
    }
  }

  // ---- text ----

  predicate IsSpace(c: char) {
    c == ' ' || c == '\t' || c == '\n' || c == '\r' || c == 11 as char || c == 12 as char
  }

  function TrimStart(s: string): string {
    if s != "" && IsSpace(s[0]) then TrimStart(s[1..]) else s
  }

  function TrimEnd(s: string): string {
    if s != "" && IsSpace(s[|s| - 1]) then TrimEnd(s[..|s| - 1]) else s
  }

  function Trim(s: string): string {
    TrimEnd(TrimStart(s))
  }

  /** `split_once`. */
  function SplitOnce(s: string, c: char): Option<(string, string)> {
    if s == "" then None
    else if s[0] == c then Some(("", s[1..]))
    else
      var rest := SplitOnce(s[1..], c);
      if rest.None? then None else Some(([s[0]] + rest.value.0, rest.value.1))
  }

  function Lower(c: char): char {
    if 'A' <= c <= 'Z' then c - 'A' + 'a' else c
  }

  predicate IsFor(name: string) {
    |name| == 3 && Lower(name[0]) == 'f' && Lower(name[1]) == 'o' && Lower(name[2]) == 'r'
  }

  predicate AllDigits(s: string) {
    forall i :: 0 <= i < |s| ==> '0' <= s[i] <= '9'
  }

  function Decimal(s: string): nat
    requires AllDigits(s)
  {
    if s == "" then 0 else 10 * Decimal(s[..|s| - 1]) + (s[|s| - 1] - '0') as nat
  }

  predicate ValidPort(s: string) {
    0 < |s| <= 5 && AllDigits(s) && Decimal(s) < 0x1_0000
  }

  // ---- quoted strings ----

  const QUOTE := '"'
  const BACKSLASH := '\\'

  /** Text put in front of the first part. */
  function Prepend(prefix: string, parts: Option<seq<string>>): Option<seq<string>>
    requires parts.Some? ==> parts.value != []
  {
    if parts.None? then None else Some([prefix + parts.value[0]] + parts.value[1..])
  }

  /** The parts of `text` between separators outside quoted strings; `None` if a quoted string does not end. */
  function Parts(text: string, separator: char, quoted: bool): (parts: Option<seq<string>>)
    ensures parts.Some? ==> parts.value != []
  {
    if text == "" then
      if quoted then None else Some([""])
    else if text[0] == BACKSLASH && quoted then
      if |text| == 1 then None else Prepend(text[..2], Parts(text[2..], separator, true))
    else if text[0] == QUOTE then
      Prepend(text[..1], Parts(text[1..], separator, !quoted))
    else if text[0] == separator && !quoted then
      var rest := Parts(text[1..], separator, false);
      if rest.None? then None else Some([""] + rest.value)
    else
      Prepend(text[..1], Parts(text[1..], separator, quoted))
  }

  /** What the loop has so far, then the part it is in, then the rest. */
  ghost function Joined(done: seq<string>, current: string, rest: Option<seq<string>>): Option<seq<string>>
    requires rest.Some? ==> rest.value != []
  {
    if rest.None? then None else Some(done + Prepend(current, rest).value)
  }

  lemma JoinedMoves(done: seq<string>, current: string, piece: string, rest: Option<seq<string>>)
    requires rest.Some? ==> rest.value != []
    ensures Joined(done, current, Prepend(piece, rest)) == Joined(done, current + piece, rest)
    ensures rest.Some? ==> Joined(done, current, Some([""] + rest.value)) == Joined(done + [current], "", rest)
    ensures Joined([], "", rest) == rest
  {
    if rest.Some? {
      var first, others := rest.value[0], rest.value[1..];
      assert current + (piece + first) == (current + piece) + first;
      assert ([""] + rest.value)[1..] == rest.value && current + "" == current;
      assert "" + first == first && [first] + others == rest.value;
      assert done + ([current] + rest.value) == (done + [current]) + rest.value;
      assert [] + rest.value == rest.value;
    }
  }

  /** Where the loop stands, as the result it is heading for. */
  ghost function Heading(text: string, separator: char, parts: seq<string>, start: nat, index: nat, quoted: bool)
    : Option<seq<string>>
    requires start <= index <= |text|
  {
    Joined(parts, text[start..index], Parts(text[index..], separator, quoted))
  }

  lemma HeadingBegins(text: string, separator: char)
    ensures Heading(text, separator, [], 0, 0, false) == Parts(text, separator, false)
  {
    JoinedMoves([], "", "", Parts(text, separator, false));
    assert text[0..] == text && text[0..0] == "";
  }

  lemma HeadingMoves(text: string, separator: char, parts: seq<string>, start: nat, index: nat, next: nat, q: bool)
    requires start <= index < next <= |text|
    ensures Joined(parts, text[start..index], Prepend(text[index..][..next - index], Parts(text[next..], separator, q)))
         == Heading(text, separator, parts, start, next, q)
    ensures text[index..][next - index..] == text[next..]
  {
    assert text[index..][..next - index] == text[index..next];
    assert text[start..index] + text[index..next] == text[start..next];
    JoinedMoves(parts, text[start..index], text[index..next], Parts(text[next..], separator, q));
  }

  lemma HeadingSplits(text: string, separator: char, parts: seq<string>, start: nat, index: nat)
    requires start <= index < |text| && text[index] == separator && separator != QUOTE
    ensures Heading(text, separator, parts, start, index, false)
         == Heading(text, separator, parts + [text[start..index]], index + 1, index + 1, false)
  {
    assert text[index..][1..] == text[index + 1..] && text[index + 1..index + 1] == "";
    JoinedMoves(parts, text[start..index], "", Parts(text[index + 1..], separator, false));
  }

  lemma HeadingEnds(text: string, separator: char, parts: seq<string>, start: nat, quoted: bool)
    requires start <= |text|
    ensures Heading(text, separator, parts, start, |text|, quoted)
         == if quoted then None else Some(parts + [text[start..]])
  {
    var current := text[start..|text|];
    assert text[|text|..] == "" && current == text[start..];
    if !quoted {
      assert Parts(text[|text|..], separator, false) == Some([""]);
      assert current + "" == current;
      assert Prepend(current, Some([""])).value == [current];
    }
  }

  /** `split_outside_quotes`. */
  method SplitOutsideQuotes(text: string, separator: char) returns (result: Option<seq<string>>)
    ensures result == Parts(text, separator, false)
  {
    var parts: seq<string> := [];
    var start, quoted, index := 0, false, 0;
    HeadingBegins(text, separator);
    while index < |text|
      invariant start <= |text| && start <= index <= |text| + 1
      invariant index == |text| + 1 ==> quoted && Parts(text, separator, false).None?
      invariant index <= |text| ==> Parts(text, separator, false) == Heading(text, separator, parts, start, index, quoted)
    {
      if text[index] == BACKSLASH && quoted {
        if index + 1 < |text| {
          HeadingMoves(text, separator, parts, start, index, index + 2, true);
        }
        index := index + 1;
      } else if text[index] == QUOTE {
        HeadingMoves(text, separator, parts, start, index, index + 1, !quoted);
        quoted := !quoted;
      } else if text[index] == separator && !quoted {
        HeadingSplits(text, separator, parts, start, index);
        parts := parts + [text[start..index]];
        start := index + 1;
      } else {
        HeadingMoves(text, separator, parts, start, index, index + 1, quoted);
      }
      index := index + 1;
    }
    if index == |text| {
      HeadingEnds(text, separator, parts, start, quoted);
    }
    if quoted {
      return None;
    }
    parts := parts + [text[start..]];
    result := Some(parts);
  }

  // ---- splitting beside a separator ----

  lemma {:induction false} QuoteFreeSplits(text: string, separator: char, quoted: bool)
    requires QUOTE !in text
    ensures Parts(text, separator, quoted).Some? <==> !quoted
    decreases |text|
  {
    if text != "" {
      if text[0] == BACKSLASH && quoted && |text| > 1 {
        QuoteFreeSplits(text[2..], separator, true);
      } else {
        QuoteFreeSplits(text[1..], separator, quoted);
      }
    }
  }

  ghost function Append(left: Option<seq<string>>, right: seq<string>): Option<seq<string>> {
    if left.None? then None else Some(left.value + right)
  }

  lemma AppendPrepend(prefix: string, left: Option<seq<string>>, right: seq<string>)
    requires left.Some? ==> left.value != []
    ensures Append(Prepend(prefix, left), right) == Prepend(prefix, Append(left, right))
    ensures left.Some? ==> Append(Some([""] + left.value), right) == Some([""] + Append(left, right).value)
  {
    if left.Some? {
      assert (left.value + right)[0] == left.value[0] && (left.value + right)[1..] == left.value[1..] + right;
      assert ([""] + left.value) + right == [""] + (left.value + right);
      var first := [prefix + left.value[0]];
      assert (first + left.value[1..]) + right == first + (left.value[1..] + right);
    }
  }

  /** A separator before quote-free text splits there, whatever comes before it, or nothing is split at all. */
  lemma {:induction false} SplitBeside(left: string, separator: char, right: string, quoted: bool)
    requires QUOTE !in right && separator != QUOTE && separator != BACKSLASH
    ensures Parts(right, separator, false).Some?
    ensures Parts(left + [separator] + right, separator, quoted)
         == Append(Parts(left, separator, quoted), Parts(right, separator, false).value)
    decreases |left|
  {
    var text := left + [separator] + right;
    QuoteFreeSplits(right, separator, false);
    QuoteFreeSplits(right, separator, true);
    var parts := Parts(right, separator, false).value;
    if left == "" {
      assert text[1..] == right;
    } else if left[0] == BACKSLASH && quoted {
      if |left| == 1 {
        assert text[2..] == right;
      } else {
        assert text[..2] == left[..2] && text[2..] == left[2..] + [separator] + right;
        SplitBeside(left[2..], separator, right, true);
        AppendPrepend(left[..2], Parts(left[2..], separator, true), parts);
      }
    } else {
      var q := if left[0] == QUOTE then !quoted else quoted;
      assert text[..1] == left[..1] && text[1..] == left[1..] + [separator] + right;
      SplitBeside(left[1..], separator, right, q);
      AppendPrepend(left[..1], Parts(left[1..], separator, q), parts);
    }
  }

  // ---- one entry ----

  /** `str::parse` of the two address types. */
  datatype Parsers = Parsers(v4: string -> Option<U32>, v6: string -> Option<U128>)

  function AsV4(v4: Option<U32>): Option<Address> {
    if v4.Some? then Some(V4(v4.value)) else None
  }

  function AsV6(v6: Option<U128>): Option<Address> {
    if v6.Some? then Some(V6(v6.value)) else None
  }

  /** `parse_node`. */
  function ParseNode(p: Parsers, text: string): Option<Address> {
    if text != "" && text[0] == '[' then
      var split := SplitOnce(text[1..], ']');
      if split.None? then None
      else
        var (address, rest) := split.value;
        if rest != "" && !(rest[0] == ':' && ValidPort(rest[1..])) then None else AsV6(p.v6(address))
    else if p.v4(text).Some? then AsV4(p.v4(text))
    else if p.v6(text).Some? then AsV6(p.v6(text))
    else
      var split := SplitOnce(text, ':');
      if split.None? || !ValidPort(split.value.1) then None else AsV4(p.v4(split.value.0))
  }

  /** A parameter's value, without its quotes if it has any. */
  function Unquoted(value: string): Option<string> {
    if value == "" || value[0] != QUOTE then Some(value)
    else if |value| == 1 || value[|value| - 1] != QUOTE then None
    else
      var inner := value[1..|value| - 1];
      if QUOTE in inner || BACKSLASH in inner then None else Some(inner)
  }

  /** What one pair of an element says. */
  datatype Reading = Nameless | Other | For(address: Option<Address>)

  function Read(p: Parsers, pair: string): Reading {
    var split := SplitOnce(Trim(pair), '=');
    if split.None? then Nameless
    else if !IsFor(Trim(split.value.0)) then Other
    else
      var value := Unquoted(Trim(split.value.1));
      For(if value.None? then None else ParseNode(p, value.value))
  }

  ghost function ReadAll(p: Parsers, pairs: seq<string>): (readings: seq<Reading>)
    ensures |readings| == |pairs|
    ensures forall i :: 0 <= i < |pairs| ==> readings[i] == Read(p, pairs[i])
  {
    seq(|pairs|, i requires 0 <= i < |pairs| => Read(p, pairs[i]))
  }

  /** Every pair has a name, and exactly one is `for`, with the address as its value. */
  ghost predicate HasOneFor(readings: seq<Reading>, a: Address) {
    exists i :: 0 <= i < |readings| && readings[i] == For(Some(a)) && OthersFrom(readings, i)
  }

  ghost predicate OthersFrom(readings: seq<Reading>, i: nat) {
    forall j :: 0 <= j < |readings| && j != i ==> readings[j] == Other
  }

  /** The address of an element: that of its only `for`, if it can be read. */
  ghost function ForwardedFor(p: Parsers, element: string): (r: Option<Address>)
    ensures forall a :: r == Some(a) <==>
                          Parts(element, ';', false).Some? && HasOneFor(ReadAll(p, Parts(element, ';', false).value), a)
  {
    var pairs := Parts(element, ';', false);
    if pairs.None? then None else TheOnlyFor(ReadAll(p, pairs.value))
  }

  ghost function TheOnlyFor(readings: seq<Reading>): (r: Option<Address>)
    ensures forall a :: r == Some(a) <==> HasOneFor(readings, a)
  {
    if exists a :: HasOneFor(readings, a) then
      var a :| HasOneFor(readings, a);
      Some(a)
    else None
  }

  lemma NamelessOrUnreadable(readings: seq<Reading>, i: nat)
    requires i < |readings| && (readings[i].Nameless? || readings[i] == For(None))
    ensures TheOnlyFor(readings) == None
  {
  }

  lemma TwoFors(readings: seq<Reading>, i: nat, j: nat)
    requires i < j < |readings| && readings[i].For? && readings[j].For?
    ensures TheOnlyFor(readings) == None
  {
  }

  lemma OnlyOthers(readings: seq<Reading>)
    requires forall j :: 0 <= j < |readings| ==> readings[j] == Other
    ensures TheOnlyFor(readings) == None
  {
  }

  lemma OneFor(readings: seq<Reading>, i: nat)
    requires i < |readings| && readings[i].For? && readings[i].address.Some? && OthersFrom(readings, i)
    ensures TheOnlyFor(readings) == readings[i].address
  {
    assert HasOneFor(readings, readings[i].address.value);
  }

  /** `forwarded_for`. */
  method FindFor(p: Parsers, element: string) returns (found: Option<Address>)
    ensures found == ForwardedFor(p, element)
  {
    var pairs := SplitOutsideQuotes(element, ';');
    if pairs.None? {
      return None;
    }
    found := FindForAmong(p, pairs.value);
  }

  method FindForAmong(p: Parsers, pairs: seq<string>) returns (found: Option<Address>)
    ensures found == TheOnlyFor(ReadAll(p, pairs))
  {
    found := None;
    ghost var readings, at := ReadAll(p, pairs), 0;
    for i := 0 to |pairs|
      invariant found.None? ==> forall j :: 0 <= j < i ==> readings[j] == Other
      invariant found.Some? ==> at < i && readings[at] == For(found)
      invariant found.Some? ==> forall j :: 0 <= j < i && j != at ==> readings[j] == Other
    {
      var reading := Read(p, pairs[i]);
      assert reading == readings[i];
      if reading.Nameless? {
        NamelessOrUnreadable(readings, i);
        return None;
      }
      if reading.Other? {
        continue;
      }
      if found.Some? {
        TwoFors(readings, at, i);
        return None;
      }
      found := reading.address;
      if found.None? {
        NamelessOrUnreadable(readings, i);
        return None;
      }
      at := i;
    }
    if found.Some? {
      OneFor(readings, at);
    } else {
      OnlyOthers(readings);
    }
  }

  // ---- the header ----

  const MAX_FORWARDED_BYTES: nat := 8 * 1024
  const MAX_FORWARDED_ENTRIES: nat := 64

  datatype Header = XForwardedFor | Forwarded

  datatype Proxies = Proxies(networks: seq<Network>, header: Header, parsers: Parsers)

  /** The networks come from configuration. */
  predicate IsConfigured(proxies: Proxies) {
    forall i :: 0 <= i < |proxies.networks| ==> IsNetwork(proxies.networks[i])
  }

  predicate IsTrusted(proxies: Proxies, a: Address)
    requires IsConfigured(proxies)
  {
    exists i :: 0 <= i < |proxies.networks| && Contains(proxies.networks[i], a)
  }

  /** The instances received, joined by commas after `combined`; `None` if unreadable or too long. */
  function Combined(combined: string, values: seq<Option<string>>): Option<string>
    decreases |values|
  {
    if values == [] then Some(combined)
    else if values[0].None? || |combined| + |values[0].value| + 1 > MAX_FORWARDED_BYTES then None
    else Combined((if combined == "" then "" else combined + ",") + values[0].value, values[1..])
  }

  /** What the walk makes of one entry. */
  datatype Verdict = Unreadable | Skipped | Untrusted(address: Address)

  ghost function EntryAddress(proxies: Proxies, entry: string): Option<Address> {
    match proxies.header
    case XForwardedFor => ParseNode(proxies.parsers, Trim(entry))
    case Forwarded => ForwardedFor(proxies.parsers, entry)
  }

  ghost function Judge(proxies: Proxies, entry: string): Verdict
    requires IsConfigured(proxies)
  {
    var address := EntryAddress(proxies, entry);
    if address.None? then Unreadable
    else if IsTrusted(proxies, Canonical(address.value)) then Skipped
    else Untrusted(Canonical(address.value))
  }

  /** From the right, the first address that is not trusted, if everything up to it can be read. */
  ghost function Nearest(judge: string -> Verdict, entries: seq<string>): Option<Address> {
    if entries == [] then None
    else
      match judge(entries[|entries| - 1])
      case Unreadable => None
      case Untrusted(address) => Some(address)
      case Skipped => Nearest(judge, entries[..|entries| - 1])
  }

  // ---- which entry that is ----

  /** The address lies in no configured network. */
  ghost predicate Outside(proxies: Proxies, a: Address)
    requires IsConfigured(proxies)
  {
    forall n :: n in proxies.networks ==> !SharesPrefix(n, a)
  }

  /** It lies in one of them. */
  ghost predicate Inside(proxies: Proxies, a: Address)
    requires IsConfigured(proxies)
  {
    exists n :: n in proxies.networks && SharesPrefix(n, a)
  }

  /** The entry can be read, and names this address. */
  ghost predicate Names(proxies: Proxies, entry: string, a: Address) {
    exists address :: EntryAddress(proxies, entry) == Some(address) && Canonical(address) == a
  }

  /** The entry names a proxy. */
  ghost predicate NamesProxy(proxies: Proxies, entry: string)
    requires IsConfigured(proxies)
  {
    exists a :: Names(proxies, entry, a) && Inside(proxies, a)
  }

  /** Entry `i` names an address outside every network, and every entry to its right a proxy. */
  ghost predicate NearestAt(proxies: Proxies, entries: seq<string>, i: nat, a: Address)
    requires IsConfigured(proxies)
  {
    && i < |entries| && Names(proxies, entries[i], a) && Outside(proxies, a)
    && forall j :: i < j < |entries| ==> NamesProxy(proxies, entries[j])
  }

  lemma TrustedIff(proxies: Proxies, a: Address)
    requires IsConfigured(proxies) && Canonical(a) == a
    ensures IsTrusted(proxies, a) <==> Inside(proxies, a)
    ensures IsTrusted(proxies, a) <==> !Outside(proxies, a)
  {
    forall i | 0 <= i < |proxies.networks| ensures Contains(proxies.networks[i], a) <==> SharesPrefix(proxies.networks[i], a) {
      ContainsIffSharesPrefix(proxies.networks[i], a);
    }
    if n :| n in proxies.networks && SharesPrefix(n, a) {
      var i :| 0 <= i < |proxies.networks| && proxies.networks[i] == n;
      assert Contains(proxies.networks[i], a);
    }
  }

  lemma JudgeIff(proxies: Proxies, entry: string)
    requires IsConfigured(proxies)
    ensures Judge(proxies, entry).Skipped? <==> NamesProxy(proxies, entry)
    ensures forall a :: Judge(proxies, entry) == Untrusted(a) <==> Names(proxies, entry, a) && Outside(proxies, a)
  {
    var address := EntryAddress(proxies, entry);
    if address.Some? {
      var a := Canonical(address.value);
      assert Names(proxies, entry, a);
      TrustedIff(proxies, a);
    }
  }

  /** The walk from the right finds exactly that entry. */
  lemma {:induction false} NearestIff(proxies: Proxies, entries: seq<string>, a: Address)
    requires IsConfigured(proxies)
    ensures Nearest(Judges(proxies), entries) == Some(a) <==> NearestNames(proxies, entries, a)
    decreases |entries|
  {
    if entries != [] {
      var last, front := entries[|entries| - 1], entries[..|entries| - 1];
      JudgeIff(proxies, last);
      NearestIff(proxies, front, a);
      assert Judges(proxies)(last) == Judge(proxies, last);
      NearestAtStep(proxies, entries, a);
    }
  }

  /** Some entry is the nearest, and names this address. */
  ghost predicate NearestNames(proxies: Proxies, entries: seq<string>, a: Address)
    requires IsConfigured(proxies)
  {
    exists i: nat :: NearestAt(proxies, entries, i, a)
  }

  lemma NearestAtStep(proxies: Proxies, entries: seq<string>, a: Address)
    requires IsConfigured(proxies) && entries != []
    ensures
      var last, front := entries[|entries| - 1], entries[..|entries| - 1];
      NearestNames(proxies, entries, a)
      == ((Names(proxies, last, a) && Outside(proxies, a)) || (NamesProxy(proxies, last) && NearestNames(proxies, front, a)))
  {
    var last, front := entries[|entries| - 1], entries[..|entries| - 1];
    if NearestNames(proxies, entries, a) {
      var i: nat :| NearestAt(proxies, entries, i, a);
      if i < |front| {
        NearestInFront(proxies, entries, i, a);
      }
    }
    if Names(proxies, last, a) && Outside(proxies, a) {
      assert NearestAt(proxies, entries, |front|, a);
    }
    if NamesProxy(proxies, last) && NearestNames(proxies, front, a) {
      var i: nat :| NearestAt(proxies, front, i, a);
      NearestInFront(proxies, entries, i, a);
    }
  }

  lemma NearestInFront(proxies: Proxies, entries: seq<string>, i: nat, a: Address)
    requires IsConfigured(proxies) && entries != [] && i < |entries| - 1
    ensures NearestAt(proxies, entries, i, a)
         == (NamesProxy(proxies, entries[|entries| - 1]) && NearestAt(proxies, entries[..|entries| - 1], i, a))
  {
    var front := entries[..|entries| - 1];
    forall j | i < j < |entries| ensures NamesProxy(proxies, entries[j]) <==> if j < |front| then NamesProxy(proxies, front[j]) else NamesProxy(proxies, entries[|entries| - 1]) {
    }
  }

  ghost function Judges(proxies: Proxies): (judge: string -> Verdict)
    requires IsConfigured(proxies)
    ensures forall entry :: judge(entry) == Judge(proxies, entry)
  {
    entry => Judge(proxies, entry)
  }

  ghost function NamedBy(proxies: Proxies, text: string): Option<Address>
    requires IsConfigured(proxies)
  {
    var entries := Parts(text, ',', false);
    if text == "" || entries.None? || |entries.value| > MAX_FORWARDED_ENTRIES then None
    else Nearest(Judges(proxies), entries.value)
  }

  /** `forwarded_client`, loop by loop below. */
  ghost function ForwardedClient(proxies: Proxies, values: seq<Option<string>>): Option<Address>
    requires IsConfigured(proxies)
  {
    var text := Combined("", values);
    if text.None? then None else NamedBy(proxies, text.value)
  }

  ghost function ClientOf(proxies: Proxies, peer: Address, values: seq<Option<string>>): Address
    requires IsConfigured(proxies)
  {
    var forwarded := ForwardedClient(proxies, values);
    if IsTrusted(proxies, Canonical(peer)) && forwarded.Some? then forwarded.value else Canonical(peer)
  }

  method Combine(values: seq<Option<string>>) returns (combined: Option<string>)
    ensures combined == Combined("", values)
  {
    var text := "";
    for i := 0 to |values|
      invariant Combined("", values) == Combined(text, values[i..])
    {
      assert values[i..][1..] == values[i + 1..];
      if values[i].None? || |text| + |values[i].value| + 1 > MAX_FORWARDED_BYTES {
        return None;
      }
      if text != "" {
        text := text + ",";
      }
      text := text + values[i].value;
    }
    combined := Some(text);
  }

  method FindNearest(proxies: Proxies, entries: seq<string>) returns (client: Option<Address>)
    requires IsConfigured(proxies)
    ensures client == Nearest(Judges(proxies), entries)
    ensures forall a :: client == Some(a) <==> NearestNames(proxies, entries, a)
  {
    forall a ensures Nearest(Judges(proxies), entries) == Some(a) <==> NearestNames(proxies, entries, a) {
      NearestIff(proxies, entries, a);
    }
    ghost var judge := Judges(proxies);
    assert entries[..|entries|] == entries;
    for i := |entries| downto 0
      invariant Nearest(judge, entries) == Nearest(judge, entries[..i])
    {
      assert entries[..i + 1][..i] == entries[..i];
      assert judge(entries[i]) == Judge(proxies, entries[i]);
      var address;
      match proxies.header {
        case XForwardedFor => address := ParseNode(proxies.parsers, Trim(entries[i]));
        case Forwarded => address := FindFor(proxies.parsers, entries[i]);
      }
      if address.None? {
        return None;
      }
      if !IsTrusted(proxies, Canonical(address.value)) {
        return Some(Canonical(address.value));
      }
    }
    client := None;
  }

  /** `client_address`. */
  method ClientAddress(proxies: Proxies, peer: Address, values: seq<Option<string>>) returns (client: Address)
    requires IsConfigured(proxies)
    ensures client == ClientOf(proxies, peer, values)
    ensures client == Canonical(peer) || (Inside(proxies, Canonical(peer)) && Outside(proxies, client))
  {
    PeerOrOutside(proxies, peer, values);
    client := Canonical(peer);
    if !IsTrusted(proxies, client) {
      return;
    }
    var text := Combine(values);
    if text.None? || text.value == "" {
      return;
    }
    var entries := SplitOutsideQuotes(text.value, ',');
    if entries.None? || |entries.value| > MAX_FORWARDED_ENTRIES {
      return;
    }
    var nearest := FindNearest(proxies, entries.value);
    if nearest.Some? {
      client := nearest.value;
    }
  }

  // ---- theorems ----

  /** The result is the peer, unless the peer is a proxy; and then it is never another proxy. */
  lemma PeerOrOutside(proxies: Proxies, peer: Address, values: seq<Option<string>>)
    requires IsConfigured(proxies)
    ensures
      var client := ClientOf(proxies, peer, values);
      client == Canonical(peer) || (Inside(proxies, Canonical(peer)) && Outside(proxies, client))
  {
    var text := Combined("", values);
    var client := ForwardedClient(proxies, values);
    TrustedIff(proxies, Canonical(peer));
    if client.Some? {
      NearestIff(proxies, Parts(text.value, ',', false).value, client.value);
    }
  }
}
