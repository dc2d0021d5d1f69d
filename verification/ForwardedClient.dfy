/**
 What a client can do about its address (src/client_address.rs): how entries are read, and that the
 entries a trusted proxy appends decide, whatever the client wrote before them.
 */
module ForwardedClients {
  import opened Common
  import opened ClientAddresses

  // ---- reading text ----

  /** The text is split at its first separator. */
  lemma {:induction false} SplitOnceIff(s: string, c: char, a: string, b: string)
    ensures SplitOnce(s, c) == Some((a, b)) <==> c !in a && s == a + [c] + b
  {
    if a != "" {
      if s != "" {
        SplitOnceIff(s[1..], c, a[1..], b);
        SplitOnceTail(s, c, a, b);
      }
    } else {
      assert (a + [c] + b)[0] == c && (a + [c] + b)[1..] == b;
      if s != "" && s[0] == c && s[1..] == b {
        assert s == a + [c] + b;
      }
    }
  }

  lemma SplitOnceTail(s: string, c: char, a: string, b: string)
    requires s != "" && a != ""
    ensures s == a + [c] + b <==> s[0] == a[0] && s[1..] == a[1..] + [c] + b
    ensures [s[0]] + a[1..] == a <==> s[0] == a[0]
  {
    assert (a + [c] + b)[0] == a[0] && (a + [c] + b)[1..] == a[1..] + [c] + b;
    assert a == [a[0]] + a[1..] && s == [s[0]] + s[1..];
    if s[0] == a[0] && s[1..] == a[1..] + [c] + b {
      assert s == a + [c] + b;
    }
  }

  predicate AllSpace(s: string) {
    forall i :: 0 <= i < |s| ==> IsSpace(s[i])
  }

  /** Nothing to trim. */
  predicate IsTrimmed(s: string) {
    s == "" || (!IsSpace(s[0]) && !IsSpace(s[|s| - 1]))
  }

  lemma {:induction false} TrimStartOf(left: string, s: string)
    requires AllSpace(left) && (s == "" || !IsSpace(s[0]))
    ensures TrimStart(left + s) == s
  {
    if left != "" {
      assert (left + s)[0] == left[0] && (left + s)[1..] == left[1..] + s;
      TrimStartOf(left[1..], s);
    } else {
      assert left + s == s;
    }
  }

  lemma {:induction false} TrimEndOf(s: string, right: string)
    requires AllSpace(right) && (s == "" || !IsSpace(s[|s| - 1]))
    ensures TrimEnd(s + right) == s
  {
    if right != "" {
      var all := s + right;
      assert all[|all| - 1] == right[|right| - 1] && all[..|all| - 1] == s + right[..|right| - 1];
      TrimEndOf(s, right[..|right| - 1]);
    } else {
      assert s + right == s;
    }
  }

  /** Space around a text, and nothing else, is trimmed. */
  lemma TrimIsExact(left: string, s: string, right: string)
    requires AllSpace(left) && AllSpace(right) && IsTrimmed(s)
    ensures Trim(left + s + right) == s
  {
    if s == "" {
      assert AllSpace(left + right) && left + s + right == (left + right) + "";
      TrimStartOf(left + right, "");
    } else {
      assert left + s + right == left + (s + right);
      TrimStartOf(left, s + right);
      TrimEndOf(s, right);
    }
  }

  /** An address in brackets, with or without a port. */
  ghost predicate IsBracketed(text: string, address: string) {
    && ']' !in address
    && (text == "[" + address + "]" || exists port :: ValidPort(port) && text == "[" + address + "]:" + port)
  }

  ghost predicate HasPort(text: string, address: string) {
    ':' !in address && exists port :: ValidPort(port) && text == address + ":" + port
  }

  /** The forms of a node: an IPv6 address in brackets with or without a port, a plain address, or an
      IPv4 address with a port. */
  ghost predicate IsNode(p: Parsers, text: string, a: Address) {
    if text != "" && text[0] == '[' then
      a.V6? && exists address :: IsBracketed(text, address) && p.v6(address) == Some(a.v6)
    else if p.v4(text).Some? then a == V4(p.v4(text).value)
    else if p.v6(text).Some? then a == V6(p.v6(text).value)
    else a.V4? && exists address :: HasPort(text, address) && p.v4(address) == Some(a.v4)
  }

  /** What the code makes of the text after the opening bracket. */
  predicate BracketSplits(text: string, address: string)
    requires text != ""
  {
    var split := SplitOnce(text[1..], ']');
    split.Some? && split.value.0 == address && (split.value.1 == "" || (split.value.1[0] == ':' && ValidPort(split.value.1[1..])))
  }

  lemma BracketedSplits(text: string, address: string)
    requires text != "" && text[0] == '[' && IsBracketed(text, address)
    ensures BracketSplits(text, address)
  {
    if text == "[" + address + "]" {
      assert text[1..] == address + [']'] + "";
      SplitOnceIff(text[1..], ']', address, "");
    } else {
      var port :| ValidPort(port) && text == "[" + address + "]:" + port;
      assert text[1..] == address + [']'] + (":" + port);
      SplitOnceIff(text[1..], ']', address, ":" + port);
      assert (":" + port)[1..] == port;
    }
  }

  lemma SplitIsBracketed(text: string, address: string)
    requires text != "" && text[0] == '[' && BracketSplits(text, address)
    ensures IsBracketed(text, address)
  {
    var rest := SplitOnce(text[1..], ']').value.1;
    SplitOnceIff(text[1..], ']', address, rest);
    assert text == "[" + text[1..];
    BracketRest(text, address, rest);
  }

  lemma BracketRest(text: string, address: string, rest: string)
    requires text == "[" + (address + [']'] + rest)
    ensures rest == "" ==> text == "[" + address + "]"
    ensures rest != "" && rest[0] == ':' ==> text == "[" + address + "]:" + rest[1..]
  {
    assert rest != "" && rest[0] == ':' ==> rest == ":" + rest[1..];
  }

  lemma HasPortIff(text: string, address: string)
    ensures
      var split := SplitOnce(text, ':');
      HasPort(text, address) <==> split.Some? && split.value.0 == address && ValidPort(split.value.1)
  {
    var split := SplitOnce(text, ':');
    if HasPort(text, address) {
      var port :| ValidPort(port) && text == address + ":" + port;
      SplitOnceIff(text, ':', address, port);
    }
    if split.Some? && split.value.0 == address && ValidPort(split.value.1) {
      SplitOnceIff(text, ':', address, split.value.1);
      assert text == address + ":" + split.value.1;
    }
  }

  /** `parse_node` accepts exactly these forms. */
  lemma ParseNodeIff(p: Parsers, text: string, a: Address)
    ensures ParseNode(p, text) == Some(a) <==> IsNode(p, text, a)
  {
    if text != "" && text[0] == '[' {
      forall address ensures IsBracketed(text, address) <==> BracketSplits(text, address) {
        if IsBracketed(text, address) {
          BracketedSplits(text, address);
        }
        if BracketSplits(text, address) {
          SplitIsBracketed(text, address);
        }
      }
    } else if p.v4(text).None? && p.v6(text).None? {
      forall address ensures
        var split := SplitOnce(text, ':');
        HasPort(text, address) <==> split.Some? && split.value.0 == address && ValidPort(split.value.1)
      {
        HasPortIff(text, address);
      }
    }
  }

  /** A `for` pair, its value quoted or not, and the address it names. */
  ghost predicate IsForPair(p: Parsers, pair: string, a: Address) {
    exists name, value ::
      && '=' !in name && Trim(pair) == name + "=" + value && IsFor(Trim(name))
      && IsValue(p, Trim(value), a)
  }

  ghost predicate IsValue(p: Parsers, value: string, a: Address) {
    || (IsNode(p, value, a) && (value == "" || value[0] != QUOTE))
    || exists inner :: value == [QUOTE] + inner + [QUOTE] && QUOTE !in inner && BACKSLASH !in inner && IsNode(p, inner, a)
  }

  lemma ValueIff(p: Parsers, value: string, a: Address)
    ensures
      var unquoted := Unquoted(value);
      IsValue(p, value, a) <==> unquoted.Some? && ParseNode(p, unquoted.value) == Some(a)
  {
    if value == "" || value[0] != QUOTE {
      ParseNodeIff(p, value, a);
    } else {
      if |value| > 1 && value[|value| - 1] == QUOTE {
        var inner := value[1..|value| - 1];
        assert value == [QUOTE] + inner + [QUOTE];
        ParseNodeIff(p, inner, a);
      }
      if inner :| value == [QUOTE] + inner + [QUOTE] && QUOTE !in inner && BACKSLASH !in inner && IsNode(p, inner, a) {
        assert inner == value[1..|value| - 1];
      }
    }
  }

  /** What a pair says of an address. */
  lemma ReadIff(p: Parsers, pair: string, a: Address)
    ensures Read(p, pair) == For(Some(a)) <==> IsForPair(p, pair, a)
  {
    var split := SplitOnce(Trim(pair), '=');
    if split.Some? {
      var (name, value) := split.value;
      SplitOnceIff(Trim(pair), '=', name, value);
      ValueIff(p, Trim(value), a);
      assert Trim(pair) == name + "=" + value;
    }
    if IsForPair(p, pair, a) {
      var name, value :| && '=' !in name && Trim(pair) == name + "=" + value && IsFor(Trim(name))
                         && IsValue(p, Trim(value), a);
      SplitOnceIff(Trim(pair), '=', name, value);
      ValueIff(p, Trim(value), a);
    }
  }

  // ---- what a proxy appends ----

  /** Entries without quotes or commas. */
  predicate ArePlain(entries: seq<string>) {
    entries != [] && forall i :: 0 <= i < |entries| ==> QUOTE !in entries[i] && ',' !in entries[i]
  }

  function WithCommas(entries: seq<string>): string
    requires entries != []
  {
    if |entries| == 1 then entries[0] else entries[0] + "," + WithCommas(entries[1..])
  }

  lemma {:induction false} NoQuotes(entries: seq<string>)
    requires ArePlain(entries)
    ensures QUOTE !in WithCommas(entries)
  {
    if |entries| > 1 {
      NoQuotes(entries[1..]);
    }
  }

  lemma {:induction false} OnePart(text: string)
    requires QUOTE !in text && ',' !in text
    ensures Parts(text, ',', false) == Some([text])
  {
    if text != "" {
      OnePart(text[1..]);
      assert text == text[..1] + text[1..];
      assert Prepend(text[..1], Some([text[1..]])).value == [text[..1] + text[1..]];
    }
  }

  /** The splitter gives back what was joined. */
  lemma {:induction false} PartsOfWithCommas(entries: seq<string>)
    requires ArePlain(entries)
    ensures Parts(WithCommas(entries), ',', false) == Some(entries)
  {
    OnePart(entries[0]);
    if |entries| == 1 {
      assert entries == [entries[0]];
    } else {
      PartsOfWithCommas(entries[1..]);
      NoQuotes(entries[1..]);
      SplitBeside(entries[0], ',', WithCommas(entries[1..]), false);
      assert entries == [entries[0]] + entries[1..];
    }
  }

  /** What the entries on the right name does not depend on those further left. */
  lemma {:induction false} NearestIgnoresTheLeft(judge: string -> Verdict, left: seq<string>, right: seq<string>)
    requires Nearest(judge, right).Some?
    ensures Nearest(judge, left + right) == Nearest(judge, right)
    decreases |right|
  {
    var all := left + right;
    assert all[|all| - 1] == right[|right| - 1] && all[..|all| - 1] == left + right[..|right| - 1];
    if judge(right[|right| - 1]).Skipped? {
      NearestIgnoresTheLeft(judge, left, right[..|right| - 1]);
    }
  }

  /** Entries appended to any text name the address that they name by themselves, or nothing: exactly
      when the text does not end within quotes and there are not too many entries. */
  lemma LeftPartCannotRename(proxies: Proxies, left: string, entries: seq<string>, a: Address)
    requires IsConfigured(proxies) && ArePlain(entries) && NearestNames(proxies, entries, a)
    ensures
      var lefts := Parts(left, ',', false);
      NamedBy(proxies, left + "," + WithCommas(entries)) ==
      if lefts.Some? && |lefts.value| + |entries| <= MAX_FORWARDED_ENTRIES then Some(a) else None
  {
    var suffix, lefts := WithCommas(entries), Parts(left, ',', false);
    NoQuotes(entries);
    PartsOfWithCommas(entries);
    SplitBeside(left, ',', suffix, false);
    NearestIff(proxies, entries, a);
    if lefts.Some? {
      NearestIgnoresTheLeft(Judges(proxies), lefts.value, entries);
    }
  }

  /** The same without anything before them. */
  lemma AppendedAlone(proxies: Proxies, entries: seq<string>, a: Address)
    requires IsConfigured(proxies) && ArePlain(entries) && NearestNames(proxies, entries, a)
    ensures NamedBy(proxies, WithCommas(entries))
         == if WithCommas(entries) != "" && |entries| <= MAX_FORWARDED_ENTRIES then Some(a) else None
  {
    PartsOfWithCommas(entries);
    NearestIff(proxies, entries, a);
  }

  /** The text before what a last instance adds. */
  ghost function Lead(combined: string): string {
    if combined == "" then "" else combined + ","
  }

  lemma {:induction false} CombinedEndsWith(combined: string, values: seq<Option<string>>, last: string)
    ensures
      var before := Combined(combined, values);
      Combined(combined, values + [Some(last)]) ==
      if before.Some? && |before.value| + |last| + 1 <= MAX_FORWARDED_BYTES then Some(Lead(before.value) + last) else None
    decreases |values|
  {
    var all := values + [Some(last)];
    if values == [] {
      assert all[1..] == [];
    } else {
      assert all[0] == values[0] && all[1..] == values[1..] + [Some(last)];
      if values[0].Some? {
        CombinedEndsWith(Lead(combined) + values[0].value, values[1..], last);
      }
    }
  }

  /** The entries as an instance of their own. */
  lemma AfterOtherInstances(proxies: Proxies, values: seq<Option<string>>, entries: seq<string>, a: Address)
    requires IsConfigured(proxies) && ArePlain(entries) && NearestNames(proxies, entries, a)
    ensures ForwardedClient(proxies, values + [Some(WithCommas(entries))]) in {None, Some(a)}
  {
    var suffix := WithCommas(entries);
    CombinedEndsWith("", values, suffix);
    AppendedAlone(proxies, entries, a);
    var before := Combined("", values);
    if before.Some? {
      LeftPartCannotRename(proxies, before.value, entries, a);
      assert "" + suffix == suffix;
    }
  }

  /** The entries after a comma, in the last instance. */
  lemma AfterTheLastInstance(proxies: Proxies, values: seq<Option<string>>, last: string, entries: seq<string>, a: Address)
    requires IsConfigured(proxies) && ArePlain(entries) && NearestNames(proxies, entries, a)
    ensures ForwardedClient(proxies, values + [Some(last + "," + WithCommas(entries))]) in {None, Some(a)}
  {
    var suffix := WithCommas(entries);
    CombinedEndsWith("", values, last + "," + suffix);
    var before := Combined("", values);
    if before.Some? {
      Regroup(Lead(before.value), last, suffix);
      LeftPartCannotRename(proxies, Lead(before.value) + last, entries, a);
    }
  }

  lemma Regroup(lead: string, last: string, suffix: string)
    ensures lead + (last + "," + suffix) == lead + last + "," + suffix
  {
  }

  /**
   The proxy appends entries as an instance of their own, or after a comma to the last one. If one of
   them names an address outside every network and those to its right name proxies, then whatever
   the client sent before them, the result is that address or the peer.
   */
  lemma ClientCannotChoose(
      proxies: Proxies, peer: Address, values: seq<Option<string>>, last: string, entries: seq<string>, i: nat, a: Address)
    requires IsConfigured(proxies) && ArePlain(entries) && NearestAt(proxies, entries, i, a)
    ensures ClientOf(proxies, peer, values + [Some(WithCommas(entries))]) in {a, Canonical(peer)}
    ensures ClientOf(proxies, peer, values + [Some(last + "," + WithCommas(entries))]) in {a, Canonical(peer)}
  {
    assert NearestNames(proxies, entries, a);
    AfterOtherInstances(proxies, values, entries, a);
    AfterTheLastInstance(proxies, values, last, entries, a);
  }

  /** And it is that address, if the peer is a proxy, the header is short enough, and what the client
      wrote in it neither ends within quotes nor has too many entries. */
  lemma ClientIsNamed(proxies: Proxies, peer: Address, last: string, entries: seq<string>, i: nat, a: Address)
    requires IsConfigured(proxies) && ArePlain(entries) && NearestAt(proxies, entries, i, a)
    requires Inside(proxies, Canonical(peer)) && |last| + |WithCommas(entries)| + 2 <= MAX_FORWARDED_BYTES
    requires
      var lefts := Parts(last, ',', false);
      lefts.Some? && |lefts.value| + |entries| <= MAX_FORWARDED_ENTRIES
    ensures ClientOf(proxies, peer, [Some(last + "," + WithCommas(entries))]) == a
  {
    var text := last + "," + WithCommas(entries);
    assert NearestNames(proxies, entries, a);
    assert [Some(text)] == [] + [Some(text)];
    CombinedEndsWith("", [], text);
    assert Lead("") + text == text;
    LeftPartCannotRename(proxies, last, entries, a);
    TrustedIff(proxies, Canonical(peer));
  }
}
