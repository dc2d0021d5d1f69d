/**
 Page cursors (src/browse.rs, `encode_cursor`, `decode_cursor`, `update_cursor_mac`,
 `listing_fingerprint`): the bytes of a cursor and the byte strings that are authenticated and
 hashed. The MAC and the hash are parameters, and the base64 text around the cursor is left out.
 */
module Cursors {
  import opened Common
  import opened VirtualPaths

  const ISIZE_MAX: nat := 0x7fff_ffff_ffff_ffff

  /** A byte string in memory. */
  type Text = s: Bytes | |s| <= ISIZE_MAX

  const HASH_BYTES: nat := 32
  const CURSOR_VERSION: Byte := 1
  const CURSOR_BYTES: nat := 1 + 8 + HASH_BYTES + HASH_BYTES

  type Hash = s: Bytes | |s| == HASH_BYTES witness seq(HASH_BYTES, i => 0)

  // ---- fixed-width integers ----

  function Pow256(width: nat): (p: nat)
    ensures p > 0
  {
    if width == 0 then 1 else 256 * Pow256(width - 1)
  }

  /** `to_be_bytes`, for any width. */
  function BigEndian(n: nat, width: nat): (s: Bytes)
    ensures |s| == width
  {
    if width == 0 then [] else BigEndian(n / 256, width - 1) + [n % 256]
  }

  /** `from_be_bytes`. */
  function FromBigEndian(s: Bytes): nat {
    if s == [] then 0 else 256 * FromBigEndian(s[..|s| - 1]) + s[|s| - 1]
  }

  lemma {:induction false} BigEndianRoundTrip(n: nat, width: nat)
    requires n < Pow256(width)
    ensures FromBigEndian(BigEndian(n, width)) == n
  {
    if width > 0 {
      BigEndianRoundTrip(n / 256, width - 1);
      var s := BigEndian(n, width);
      assert s[..|s| - 1] == BigEndian(n / 256, width - 1);
    }
  }

  lemma {:induction false} FromBigEndianRoundTrip(s: Bytes)
    ensures FromBigEndian(s) < Pow256(|s|) && BigEndian(FromBigEndian(s), |s|) == s
  {
    if s != [] {
      FromBigEndianRoundTrip(s[..|s| - 1]);
    }
  }

  lemma Pow256Of8()
    ensures Pow256(8) == U64_LIMIT
  {
    assert Pow256(4) == 0x1_0000_0000 by {
      assert Pow256(2) == 0x1_0000;
    }
    assert Pow256(8) == 256 * 256 * 256 * 256 * Pow256(4);
  }

  function Be64(n: U64): (s: Bytes)
    ensures |s| == 8
  {
    BigEndian(n, 8)
  }

  lemma Be64Injective(a: U64, b: U64)
    requires Be64(a) == Be64(b)
    ensures a == b
  {
    Pow256Of8();
    BigEndianRoundTrip(a, 8);
    BigEndianRoundTrip(b, 8);
  }

  // ---- framing ----

  /** `update_framed`. */
  function Framed(value: Text): Bytes {
    Be64(|value|) + value
  }

  /** Whatever follows, a framed value can be told from any other. */
  lemma FramedIsUnambiguous(a: Text, b: Text, x: Bytes, y: Bytes)
    requires Framed(a) + x == Framed(b) + y
    ensures a == b && x == y
  {
    var s, t := Framed(a) + x, Framed(b) + y;
    assert s[..8] == Be64(|a|) && t[..8] == Be64(|b|);
    Be64Injective(|a|, |b|);
    assert s[8..8 + |a|] == a && t[8..8 + |b|] == b;
    assert s[8 + |a|..] == x && t[8 + |b|..] == y;
  }

  datatype Access = ReadOnly | ReadWrite

  /** Whose listing of what a cursor belongs to. */
  datatype Context = Context(subject: Text, share: Text, path: Path, access: Access)

  ghost predicate IsContext(c: Context) {
    Separated(c.path) && |Display(c.path)| <= ISIZE_MAX
  }

  function AccessByte(access: Access): Byte {
    match access case ReadOnly => 0 case ReadWrite => 1
  }

  /** What `update_cursor_mac` feeds the MAC. */
  function MacInput(c: Context, offset: U64, fingerprint: Hash): Bytes
    requires |Display(c.path)| <= ISIZE_MAX
  {
    Framed(c.subject) + (Framed(c.share) + (Framed(Display(c.path))
    + ([AccessByte(c.access)] + Be64(offset) + fingerprint)))
  }

  /** Two cursors are authenticated by the same bytes only if they agree in everything. */
  lemma MacInputInjective(c: Context, offset: U64, fp: Hash, d: Context, offset': U64, fp': Hash)
    requires IsContext(c) && IsContext(d)
    requires MacInput(c, offset, fp) == MacInput(d, offset', fp')
    ensures c == d && offset == offset' && fp == fp'
  {
    var tail, tail' := [AccessByte(c.access)] + Be64(offset) + fp, [AccessByte(d.access)] + Be64(offset') + fp';
    var path, path' := Framed(Display(c.path)) + tail, Framed(Display(d.path)) + tail';
    FramedIsUnambiguous(c.subject, d.subject, Framed(c.share) + path, Framed(d.share) + path');
    FramedIsUnambiguous(c.share, d.share, path, path');
    FramedIsUnambiguous(Display(c.path), Display(d.path), tail, tail');
    DisplayInjective(c.path, d.path);
    assert tail[0] == AccessByte(c.access) && tail'[0] == AccessByte(d.access);
    assert tail[1..9] == Be64(offset) && tail'[1..9] == Be64(offset');
    Be64Injective(offset, offset');
    assert tail[9..] == fp && tail'[9..] == fp';
  }

  // ---- cursors ----

  type Mac = Bytes -> Hash

  /** `encode_cursor`. */
  function Encode(mac: Mac, c: Context, offset: U64, fingerprint: Hash): (cursor: Bytes)
    requires |Display(c.path)| <= ISIZE_MAX
    ensures |cursor| == CURSOR_BYTES
  {
    [CURSOR_VERSION] + Be64(offset) + fingerprint + mac(MacInput(c, offset, fingerprint))
  }

  /** `decode_cursor`; `None` is the Conflict error. */
  function Decode(mac: Mac, cursor: Bytes, c: Context, current: Hash): (offset: Option<U64>)
    requires |Display(c.path)| <= ISIZE_MAX
  {
    if |cursor| != CURSOR_BYTES || cursor[0] != CURSOR_VERSION then None
    else
      var offset := DecodeOffset(cursor[1..9]);
      var fingerprint := cursor[9..41];
      if fingerprint != current then None
      else if mac(MacInput(c, offset, fingerprint)) != cursor[41..] then None
      else Some(offset)
  }

  function DecodeOffset(s: Bytes): (n: U64)
    requires |s| == 8
    ensures Be64(n) == s
  {
    Pow256Of8();
    FromBigEndianRoundTrip(s);
    FromBigEndian(s)
  }

  /** Decoding accepts exactly what encoding makes for the same context and listing, and returns its offset. */
  lemma DecodeExactlyInvertsEncode(mac: Mac, cursor: Bytes, c: Context, current: Hash, offset: U64)
    requires |Display(c.path)| <= ISIZE_MAX
    ensures Decode(mac, cursor, c, current) == Some(offset) <==> cursor == Encode(mac, c, offset, current)
  {
    if cursor == Encode(mac, c, offset, current) {
      assert cursor[1..9] == Be64(offset) && cursor[9..41] == current;
      assert cursor[41..] == mac(MacInput(c, offset, current));
      Be64Injective(DecodeOffset(cursor[1..9]), offset);
    }
    if Decode(mac, cursor, c, current) == Some(offset) {
      assert cursor == [cursor[0]] + cursor[1..9] + cursor[9..41] + cursor[41..];
    }
  }

  /**
   A cursor is good where it was made, for the listing it was made from. Anywhere else it is
   accepted exactly when the MAC gives two different inputs the same tag.
   */
  lemma CursorsAreBound(mac: Mac, c: Context, offset: U64, fp: Hash, d: Context, fp': Hash)
    requires IsContext(c) && IsContext(d)
    ensures
      var x, y := MacInput(c, offset, fp), MacInput(d, offset, fp');
      Decode(mac, Encode(mac, c, offset, fp), d, fp') ==
      if fp == fp' && (c == d || (x != y && mac(x) == mac(y))) then Some(offset) else None
  {
    var cursor := Encode(mac, c, offset, fp);
    assert cursor[1..9] == Be64(offset) && cursor[9..41] == fp;
    assert cursor[41..] == mac(MacInput(c, offset, fp));
    Be64Injective(DecodeOffset(cursor[1..9]), offset);
    if MacInput(c, offset, fp) == MacInput(d, offset, fp') {
      MacInputInjective(c, offset, fp, d, offset, fp');
    }
  }
}
