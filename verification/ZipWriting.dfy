/**
 ZIP archives as they are written (PKWARE APPNOTE, sections 4.3.12 and 4.3.14 to 4.3.16), and that the
 preflight accepts them: central directory headers, then the end records, with and without ZIP64.
 */
module ZipWriting {
  import opened Common
  import opened VirtualPaths
  import opened ZipPreflight

  // ---- numbers ----

  function Le16(n: nat): (b: Bytes)
    requires n < 0x1_0000
    ensures |b| == 2
  {
    [n % 0x100, n / 0x100]
  }

  function Le32(n: nat): (b: Bytes)
    requires n < 0x1_0000_0000
    ensures |b| == 4
  {
    Le16(n % 0x1_0000) + Le16(n / 0x1_0000)
  }

  function Le64(n: nat): (b: Bytes)
    requires n < U64_LIMIT
    ensures |b| == 8
  {
    Le32(n % 0x1_0000_0000) + Le32(n / 0x1_0000_0000)
  }

  /** These bytes are in the file at this place. Contracts compare it with `true`, which keeps it folded. */
  predicate HoldsAt(data: Bytes, at: nat, piece: Bytes) {
    at + |piece| <= |data| && data[at..at + |piece|] == piece
  }

  lemma HoldsBoth(data: Bytes, at: nat, a: Bytes, b: Bytes)
    requires HoldsAt(data, at, a + b) == true
    ensures HoldsAt(data, at, a) == true && HoldsAt(data, at + |a|, b) == true
  {
    assert (a + b)[..|a|] == a && (a + b)[|a|..] == b;
    assert data[at..at + |a|] == data[at..at + |a + b|][..|a|];
    assert data[at + |a|..at + |a + b|] == data[at..at + |a + b|][|a|..];
  }

  lemma Read16(data: Bytes, at: nat, n: nat)
    requires n < 0x1_0000 && HoldsAt(data, at, Le16(n)) == true
    ensures U16(data, at) == n
  {
    assert data[at] == data[at..at + 2][0] && data[at + 1] == data[at..at + 2][1];
  }

  lemma Read32(data: Bytes, at: nat, n: nat)
    requires n < 0x1_0000_0000 && HoldsAt(data, at, Le32(n)) == true
    ensures U32(data, at) == n
  {
    HoldsBoth(data, at, Le16(n % 0x1_0000), Le16(n / 0x1_0000));
    Read16(data, at, n % 0x1_0000);
    Read16(data, at + 2, n / 0x1_0000);
  }

  lemma Read64(data: Bytes, at: nat, n: nat)
    requires n < U64_LIMIT && HoldsAt(data, at, Le64(n)) == true
    ensures ZipPreflight.U64(data, at) == n
  {
    HoldsBoth(data, at, Le32(n % 0x1_0000_0000), Le32(n / 0x1_0000_0000));
    Read32(data, at, n % 0x1_0000_0000);
    Read32(data, at + 4, n / 0x1_0000_0000);
  }

  lemma ReadMagic(data: Bytes, at: nat, magic: Magic)
    requires HoldsAt(data, at, magic) == true
    ensures MagicAt(data, at, magic)
  {
    var piece := data[at..at + 4];
    assert piece[0] == data[at] && piece[1] == data[at + 1] && piece[2] == data[at + 2] && piece[3] == data[at + 3];
  }

  // ---- headers ----

  /** A central directory header: its name, extra field and comment, and the fixed fields that the
      preflight does not look at. */
  datatype Fields = Fields(early: Bytes, late: Bytes, name: Bytes, extra: Bytes, comment: Bytes)

  type Header = h: Fields |
    |h.early| == 24 && |h.late| == 10 && |h.name| < 0x1_0000 && |h.extra| < 0x1_0000 && |h.comment| < 0x1_0000
    witness Fields(seq(24, _ => 0), seq(10, _ => 0), [], [], [])

  function HeaderBytes(h: Header): Bytes
  {
    HEADER_MAGIC + (h.early + (Le16(|h.name|) + (Le16(|h.extra|) + (Le16(|h.comment|) + (Le16(0)
    + (h.late + (h.name + (h.extra + h.comment))))))))
  }

  function DirectoryBytes(headers: seq<Header>): Bytes
  {
    if headers == [] then [] else HeaderBytes(headers[0]) + DirectoryBytes(headers[1..])
  }

  function NameBytes(headers: seq<Header>): nat {
    if headers == [] then 0 else |headers[0].name| + NameBytes(headers[1..])
  }

  lemma ReadHeaderFields(data: Bytes, at: nat, h: Header)
    requires HoldsAt(data, at, HeaderBytes(h)) == true
    ensures HeaderFixed(data, at) && U16(data, at + 28) == |h.name|
    ensures HEADER_BYTES + Variable(data, at) == |HeaderBytes(h)|
  {
    var variable := h.name + (h.extra + h.comment);
    var lengths := Le16(|h.extra|) + (Le16(|h.comment|) + (Le16(0) + (h.late + variable)));
    HoldsBoth(data, at, HEADER_MAGIC, h.early + (Le16(|h.name|) + lengths));
    HoldsBoth(data, at + 4, h.early, Le16(|h.name|) + lengths);
    HoldsBoth(data, at + 28, Le16(|h.name|), lengths);
    HoldsBoth(data, at + 30, Le16(|h.extra|), Le16(|h.comment|) + (Le16(0) + (h.late + variable)));
    HoldsBoth(data, at + 32, Le16(|h.comment|), Le16(0) + (h.late + variable));
    HoldsBoth(data, at + 34, Le16(0), h.late + variable);
    ReadMagic(data, at, HEADER_MAGIC);
    Read16(data, at + 28, |h.name|);
    Read16(data, at + 30, |h.extra|);
    Read16(data, at + 32, |h.comment|);
    Read16(data, at + 34, 0);
  }

  /** So many headers fill the region, with names of so many bytes. */
  ghost predicate Fill(data: Bytes, at: nat, count: nat, boundary: nat, names: nat) {
    Tiled(data, at, count, boundary) && NameLengths(data, at, count, boundary) == names
  }

  /** One more header in front. */
  lemma FillOn(data: Bytes, at: nat, next: nat, count: nat, boundary: nat, names: nat)
    requires at + HEADER_BYTES <= |data| && HeaderFixed(data, at) && next == at + HEADER_BYTES + Variable(data, at)
    requires next <= boundary <= |data| && Fill(data, next, count, boundary, names) == true
    ensures Fill(data, at, count + 1, boundary, U16(data, at + 28) + names) == true
  {
  }

  lemma FirstHeader(data: Bytes, at: nat, headers: seq<Header>) returns (next: nat)
    requires headers != [] && HoldsAt(data, at, DirectoryBytes(headers)) == true
    ensures at + HEADER_BYTES <= |data| && HeaderFixed(data, at) && U16(data, at + 28) == |headers[0].name|
    ensures next == at + HEADER_BYTES + Variable(data, at) && HoldsAt(data, next, DirectoryBytes(headers[1..])) == true
    ensures next + |DirectoryBytes(headers[1..])| == at + |DirectoryBytes(headers)|
  {
    HoldsBoth(data, at, HeaderBytes(headers[0]), DirectoryBytes(headers[1..]));
    ReadHeaderFields(data, at, headers[0]);
    next := at + |HeaderBytes(headers[0])|;
  }

  /** Headers written one after the other fill their region, and their names are counted. */
  lemma {:induction false} HeadersFill(data: Bytes, at: nat, headers: seq<Header>, boundary: nat)
    requires HoldsAt(data, at, DirectoryBytes(headers)) == true && boundary == at + |DirectoryBytes(headers)|
    ensures Fill(data, at, |headers|, boundary, NameBytes(headers)) == true
    decreases |headers|
  {
    if headers != [] {
      var next := FirstHeader(data, at, headers);
      HeadersFill(data, next, headers[1..], boundary);
      FillOn(data, at, next, |headers| - 1, boundary, NameBytes(headers[1..]));
    }
  }

  // ---- end records ----

  function EndRecord(count: nat, bytes: nat, offset: nat, comment: Bytes): (b: Bytes)
    requires count < 0x1_0000 && bytes < 0x1_0000_0000 && offset < 0x1_0000_0000 && |comment| < 0x1_0000
    ensures |b| == END_BYTES + |comment|
  {
    END_MAGIC + (Le16(0) + (Le16(0) + (Le16(count) + (Le16(count) + (Le32(bytes) + (Le32(offset)
    + (Le16(|comment|) + comment)))))))
  }

  lemma ReadEndRecord(data: Bytes, at: nat, count: nat, bytes: nat, offset: nat, comment: Bytes)
    requires count < 0x1_0000 && bytes < 0x1_0000_0000 && offset < 0x1_0000_0000 && |comment| < 0x1_0000
    requires HoldsAt(data, at, EndRecord(count, bytes, offset, comment)) == true && |data| == at + END_BYTES + |comment|
    ensures MagicAt(data, at, END_MAGIC) && EndOk(data, at)
    ensures U16(data, at + 10) == count && U32(data, at + 12) == bytes && U32(data, at + 16) == offset
  {
    var tail := Le32(bytes) + (Le32(offset) + (Le16(|comment|) + comment));
    HoldsBoth(data, at, END_MAGIC, Le16(0) + (Le16(0) + (Le16(count) + (Le16(count) + tail))));
    HoldsBoth(data, at + 4, Le16(0), Le16(0) + (Le16(count) + (Le16(count) + tail)));
    HoldsBoth(data, at + 6, Le16(0), Le16(count) + (Le16(count) + tail));
    HoldsBoth(data, at + 8, Le16(count), Le16(count) + tail);
    HoldsBoth(data, at + 10, Le16(count), tail);
    HoldsBoth(data, at + 12, Le32(bytes), Le32(offset) + (Le16(|comment|) + comment));
    HoldsBoth(data, at + 16, Le32(offset), Le16(|comment|) + comment);
    HoldsBoth(data, at + 20, Le16(|comment|), comment);
    ReadMagic(data, at, END_MAGIC);
    Read16(data, at + 4, 0);
    Read16(data, at + 6, 0);
    Read16(data, at + 8, count);
    Read16(data, at + 10, count);
    Read32(data, at + 12, bytes);
    Read32(data, at + 16, offset);
    Read16(data, at + 20, |comment|);
  }

  /** The ZIP64 end record; `versions` are the two fields that the preflight does not look at. */
  function End64Record(versions: Bytes, count: nat, bytes: nat, offset: nat): (b: Bytes)
    requires |versions| == 4 && count < U64_LIMIT && bytes < U64_LIMIT && offset < U64_LIMIT
    ensures |b| == END64_BYTES
  {
    END64_MAGIC + (Le64(44) + (versions + (Le32(0) + (Le32(0) + (Le64(count) + (Le64(count) + (Le64(bytes) + Le64(offset))))))))
  }

  lemma ReadEnd64Record(data: Bytes, z: nat, versions: Bytes, count: nat, bytes: nat, offset: nat)
    requires |versions| == 4 && count < U64_LIMIT && bytes < U64_LIMIT && offset < U64_LIMIT
    requires HoldsAt(data, z, End64Record(versions, count, bytes, offset)) == true
    ensures End64Ok(data, z) && ZipPreflight.U64(data, z + 32) == count && ZipPreflight.U64(data, z + 40) == bytes && ZipPreflight.U64(data, z + 48) == offset
  {
    var tail := Le64(count) + (Le64(bytes) + Le64(offset));
    HoldsBoth(data, z, END64_MAGIC, Le64(44) + (versions + (Le32(0) + (Le32(0) + (Le64(count) + tail)))));
    HoldsBoth(data, z + 4, Le64(44), versions + (Le32(0) + (Le32(0) + (Le64(count) + tail))));
    HoldsBoth(data, z + 12, versions, Le32(0) + (Le32(0) + (Le64(count) + tail)));
    HoldsBoth(data, z + 16, Le32(0), Le32(0) + (Le64(count) + tail));
    HoldsBoth(data, z + 20, Le32(0), Le64(count) + tail);
    HoldsBoth(data, z + 24, Le64(count), tail);
    HoldsBoth(data, z + 32, Le64(count), Le64(bytes) + Le64(offset));
    HoldsBoth(data, z + 40, Le64(bytes), Le64(offset));
    ReadMagic(data, z, END64_MAGIC);
    Read64(data, z + 4, 44);
    Read32(data, z + 16, 0);
    Read32(data, z + 20, 0);
    Read64(data, z + 24, count);
    Read64(data, z + 32, count);
    Read64(data, z + 40, bytes);
    Read64(data, z + 48, offset);
  }

  function Locator(z: nat): (b: Bytes)
    requires z < U64_LIMIT
    ensures |b| == LOCATOR_BYTES
  {
    LOCATOR_MAGIC + (Le32(0) + (Le64(z) + Le32(1)))
  }

  lemma ReadLocatorFields(data: Bytes, at: nat, z: nat)
    requires z < U64_LIMIT && HoldsAt(data, at, Locator(z)) == true && z + END64_BYTES <= at
    ensures LocatorOk(data, at + LOCATOR_BYTES) && LocatedEnd64(data, at + LOCATOR_BYTES) == z
  {
    HoldsBoth(data, at, LOCATOR_MAGIC, Le32(0) + (Le64(z) + Le32(1)));
    HoldsBoth(data, at + 4, Le32(0), Le64(z) + Le32(1));
    HoldsBoth(data, at + 8, Le64(z), Le32(1));
    ReadMagic(data, at, LOCATOR_MAGIC);
    Read32(data, at + 4, 0);
    Read64(data, at + 8, z);
    Read32(data, at + 16, 1);
  }

  // ---- archives ----

  /** The archive keeps within what the preflight allows. */
  predicate IsWithin(limits: Limits, headers: seq<Header>) {
    && |headers| <= limits.maxEntries && |DirectoryBytes(headers)| <= MAX_ZIP_DIRECTORY
    && NameBytes(headers) <= limits.maxNameBytes
  }

  /** An end record with its signature, and what it says. */
  predicate EndsSay(data: Bytes, d: Directory) {
    MagicAt(data, d.endAt, END_MAGIC) && EndOk(data, d.endAt) && SaysFrom(data, d)
  }

  /** After `d.offset + d.bytes`: the end record, up to the end. */
  ghost predicate EndsWith(data: Bytes, comment: Bytes, d: Directory) {
    && |comment| < 0x1_0000 && d.count < 0xFFFF && d.bytes < 0xFFFF_FFFF && d.offset < 0xFFFF_FFFF
    && d.end64At == None && d.endAt == d.offset + d.bytes && |data| == d.endAt + END_BYTES + |comment|
    && HoldsAt(data, d.endAt, EndRecord(d.count, d.bytes, d.offset, comment))
  }

  /** The same with a ZIP64 end record and its locator before it. */
  ghost predicate EndsWith64(data: Bytes, versions: Bytes, comment: Bytes, d: Directory) {
    && |comment| < 0x1_0000 && |versions| == 4 && d.count < U64_LIMIT && d.offset + d.bytes < U64_LIMIT
    && d.end64At == Some(d.offset + d.bytes) && d.endAt == d.offset + d.bytes + END64_BYTES + LOCATOR_BYTES
    && |data| == d.endAt + END_BYTES + |comment|
    && HoldsAt(data, d.offset + d.bytes, End64Record(versions, d.count, d.bytes, d.offset))
    && HoldsAt(data, d.offset + d.bytes + END64_BYTES, Locator(d.offset + d.bytes))
    && HoldsAt(data, d.endAt, EndRecord(0xFFFF, 0xFFFF_FFFF, 0xFFFF_FFFF, comment))
  }

  /** End records that say so, and headers that fill the region before them. */
  lemma IsWellFormed(data: Bytes, limits: Limits, headers: seq<Header>, d: Directory)
    requires IsWithin(limits, headers) == true && OnlyValidatedEnds(data, d) == true
    requires d.count == |headers| && d.bytes == |DirectoryBytes(headers)| && HoldsAt(data, d.offset, DirectoryBytes(headers)) == true
    requires d.offset + d.bytes == Boundary(d) <= d.endAt && |data| <= d.endAt + TAIL && |data| <= Boundary(d) + 65657
    requires EndsSay(data, d) == true
    ensures WellFormed(data, limits, d)
  {
    HeadersFill(data, d.offset, headers, Boundary(d));
    assert LastEnd(data, d.endAt);
  }

  lemma EndsAreRead(data: Bytes, comment: Bytes, d: Directory)
    requires EndsWith(data, comment, d) == true
    ensures EndsSay(data, d) == true && |data| <= d.endAt + TAIL
    ensures d.offset + d.bytes == Boundary(d) <= d.endAt && |data| <= Boundary(d) + 65657
  {
    ReadEndRecord(data, d.endAt, d.count, d.bytes, d.offset, comment);
  }

  lemma Ends64AreRead(data: Bytes, versions: Bytes, comment: Bytes, d: Directory)
    requires EndsWith64(data, versions, comment, d) == true
    ensures EndsSay(data, d) == true && |data| <= d.endAt + TAIL
    ensures d.offset + d.bytes == Boundary(d) <= d.endAt && |data| <= Boundary(d) + 65657
  {
    Read64Ends(data, d.offset + d.bytes, d.endAt, versions, d.count, d.bytes, d.offset, comment);
  }

  lemma Read64Ends(data: Bytes, z: nat, at: nat, versions: Bytes, count: nat, bytes: nat, offset: nat, comment: Bytes)
    requires |versions| == 4 && count < U64_LIMIT && bytes < U64_LIMIT && offset < U64_LIMIT && |comment| < 0x1_0000
    requires z < U64_LIMIT && at == z + END64_BYTES + LOCATOR_BYTES && |data| == at + END_BYTES + |comment|
    requires HoldsAt(data, z, End64Record(versions, count, bytes, offset)) == true
    requires HoldsAt(data, z + END64_BYTES, Locator(z)) == true
    requires HoldsAt(data, at, EndRecord(0xFFFF, 0xFFFF_FFFF, 0xFFFF_FFFF, comment)) == true
    ensures MagicAt(data, at, END_MAGIC) && EndOk(data, at) && NeedsEnd64(data, at)
    ensures LocatorOk(data, at) && LocatedEnd64(data, at) == z
    ensures SaysEnd64(data, z, Directory(at, Some(z), count, bytes, offset))
  {
    ReadEnd64Record(data, z, versions, count, bytes, offset);
    ReadLocatorFields(data, z + END64_BYTES, z);
    ReadEndRecord(data, at, 0xFFFF, 0xFFFF_FFFF, 0xFFFF_FFFF, comment);
  }

  /** The preflight accepts an archive as it is written: files, the directory, and right after it the
      end records, with or without ZIP64, if no other end-record signature occurs in it from the
      directory on. */
  lemma WrittenIsAccepted(data: Bytes, limits: Limits, headers: seq<Header>, versions: Bytes, comment: Bytes, d: Directory)
    requires d.count == |headers| && d.bytes == |DirectoryBytes(headers)| && HoldsAt(data, d.offset, DirectoryBytes(headers))
    requires EndsWith(data, comment, d) || EndsWith64(data, versions, comment, d)
    requires IsWithin(limits, headers) && OnlyValidatedEnds(data, d)
    ensures WellFormed(data, limits, d)
  {
    if EndsWith(data, comment, d) {
      EndsAreRead(data, comment, d);
    } else {
      Ends64AreRead(data, versions, comment, d);
    }
    IsWellFormed(data, limits, headers, d);
  }
}
