/**
 The ZIP preflight (src/archives.rs, `preflight_zip` and `ZipInput`): before a ZIP library sees
 a file, its end records, its central directory and every later signature are checked, and the
 file bodies are masked. The layouts are those of the PKWARE APPNOTE, sections 4.3.12 (central
 directory header), 4.3.14 and 4.3.15 (ZIP64 end record and locator) and 4.3.16 (end record).
 */
module ZipPreflight {
  import opened Common
  import opened VirtualPaths

  const MAX_ZIP_DIRECTORY: nat := 8 * 1024 * 1024
  const TAIL: nat := 65557
  const END_BYTES: nat := 22
  const HEADER_BYTES: nat := 46
  const LOCATOR_BYTES: nat := 20
  const END64_BYTES: nat := 56

  const END_MAGIC: Magic := [0x50, 0x4B, 0x05, 0x06]
  const END64_MAGIC: Magic := [0x50, 0x4B, 0x06, 0x06]
  const LOCATOR_MAGIC: Magic := [0x50, 0x4B, 0x06, 0x07]
  const HEADER_MAGIC: Magic := [0x50, 0x4B, 0x01, 0x02]

  datatype Error = Invalid | Limit

  datatype Outcome<+T> = Ok(value: T) | Err(error: Error)

  datatype Limits = Limits(maxEntries: nat, maxNameBytes: nat)

  function U16(data: Bytes, at: nat): nat
    requires at + 2 <= |data|
  {
    data[at] as int + 0x100 * data[at + 1] as int
  }

  function U32(data: Bytes, at: nat): nat
    requires at + 4 <= |data|
  {
    U16(data, at) + 0x1_0000 * U16(data, at + 2)
  }

  function U64(data: Bytes, at: nat): nat
    requires at + 8 <= |data|
  {
    U32(data, at) + 0x1_0000_0000 * U32(data, at + 4)
  }

  type Magic = m: Bytes | |m| == 4 witness [0, 0, 0, 0]

  predicate MagicAt(data: Bytes, at: nat, magic: Magic) {
    && at + 4 <= |data|
    && data[at] == magic[0] && data[at + 1] == magic[1] && data[at + 2] == magic[2] && data[at + 3] == magic[3]
  }

  // ---- what a well-formed archive is ----

  /** Where the central directory is, and which end records say so. */
  datatype Directory = Directory(endAt: nat, end64At: Option<nat>, count: nat, bytes: nat, offset: nat)

  function TailStart(data: Bytes): nat {
    if |data| < TAIL then 0 else |data| - TAIL
  }

  /** The last end-record signature of the file's tail. */
  ghost predicate LastEnd(data: Bytes, at: nat) {
    && TailStart(data) <= at && MagicAt(data, at, END_MAGIC)
    && forall p :: p > at ==> !MagicAt(data, p, END_MAGIC)
  }

  /** The end record reaches the end of the file, and the archive is a single part. */
  predicate EndOk(data: Bytes, at: nat) {
    && at + END_BYTES <= |data|
    && at + END_BYTES + U16(data, at + 20) == |data|
    && U16(data, at + 4) == 0 && U16(data, at + 6) == 0 && U16(data, at + 8) == U16(data, at + 10)
  }

  predicate NeedsEnd64(data: Bytes, at: nat)
    requires at + END_BYTES <= |data|
  {
    U16(data, at + 10) == 0xFFFF || U32(data, at + 12) == 0xFFFF_FFFF || U32(data, at + 16) == 0xFFFF_FFFF
  }

  /** The locator right before the end record names a ZIP64 end record that ends before it. */
  predicate LocatorOk(data: Bytes, at: nat) {
    && LOCATOR_BYTES <= at <= |data|
    && var locator := at - LOCATOR_BYTES;
       && MagicAt(data, locator, LOCATOR_MAGIC) && U32(data, locator + 4) == 0 && U32(data, locator + 16) == 1
       && U64(data, locator + 8) + END64_BYTES <= locator
  }

  function LocatedEnd64(data: Bytes, at: nat): nat
    requires LocatorOk(data, at)
  {
    U64(data, at - LOCATOR_BYTES + 8)
  }

  predicate End64Ok(data: Bytes, at: nat) {
    && at + END64_BYTES <= |data|
    && MagicAt(data, at, END64_MAGIC) && U64(data, at + 4) == 44
    && U32(data, at + 16) == 0 && U32(data, at + 20) == 0 && U64(data, at + 24) == U64(data, at + 32)
  }

  /** The end records are well formed and say this. */
  ghost predicate Says(data: Bytes, d: Directory) {
    LastEnd(data, d.endAt) && EndOk(data, d.endAt) && SaysFrom(data, d)
  }

  predicate SaysFrom(data: Bytes, d: Directory)
    requires EndOk(data, d.endAt)
  {
    if !NeedsEnd64(data, d.endAt) then
      && d.end64At == None
      && d.count == U16(data, d.endAt + 10) && d.bytes == U32(data, d.endAt + 12) && d.offset == U32(data, d.endAt + 16)
    else
      LocatorOk(data, d.endAt) && SaysEnd64(data, LocatedEnd64(data, d.endAt), d)
  }

  predicate SaysEnd64(data: Bytes, z: nat, d: Directory) {
    && End64Ok(data, z) && d.end64At == Some(z)
    && d.count == U64(data, z + 32) && d.bytes == U64(data, z + 40) && d.offset == U64(data, z + 48)
  }

  /** Where the directory has to end: at the record that describes it. */
  function Boundary(d: Directory): nat {
    if d.end64At.Some? then d.end64At.value else d.endAt
  }

  /** The length of the variable part of a central directory header. */
  function Variable(data: Bytes, at: nat): nat
    requires at + HEADER_BYTES <= |data|
  {
    U16(data, at + 28) + U16(data, at + 30) + U16(data, at + 32)
  }

  predicate HeaderOk(data: Bytes, at: nat, boundary: nat) {
    && at + HEADER_BYTES <= boundary <= |data| && HeaderFixed(data, at)
    && at + HEADER_BYTES + Variable(data, at) <= boundary
  }

  /** What the fixed part of a header must hold. */
  predicate HeaderFixed(data: Bytes, at: nat)
    requires at + HEADER_BYTES <= |data|
  {
    MagicAt(data, at, HEADER_MAGIC) && U16(data, at + 34) == 0
  }

  /** `count` well-formed headers, one after the other, fill the region exactly. */
  predicate Tiled(data: Bytes, at: nat, count: nat, boundary: nat)
    decreases count
  {
    if count == 0 then at == boundary
    else HeaderOk(data, at, boundary) && Tiled(data, at + HEADER_BYTES + Variable(data, at), count - 1, boundary)
  }

  function NameLengths(data: Bytes, at: nat, count: nat, boundary: nat): nat
    requires Tiled(data, at, count, boundary)
    decreases count
  {
    if count == 0 then 0
    else U16(data, at + 28) + NameLengths(data, at + HEADER_BYTES + Variable(data, at), count - 1, boundary)
  }

  /** From the directory on, end-record signatures occur only where they were validated. */
  ghost predicate OnlyValidatedEnds(data: Bytes, d: Directory) {
    forall p :: d.offset <= p && p + 4 <= |data| ==>
      && (MagicAt(data, p, END_MAGIC) ==> p == d.endAt)
      && (MagicAt(data, p, END64_MAGIC) ==> d.end64At == Some(p))
  }

  ghost predicate WellFormed(data: Bytes, limits: Limits, d: Directory) {
    && Says(data, d)
    && d.count <= limits.maxEntries && d.bytes <= MAX_ZIP_DIRECTORY
    && d.offset + d.bytes == Boundary(d)
    && Tiled(data, d.offset, d.count, Boundary(d))
    && NameLengths(data, d.offset, d.count, Boundary(d)) <= limits.maxNameBytes
    && |data| - d.offset <= MAX_ZIP_DIRECTORY + 65657
    && OnlyValidatedEnds(data, d)
  }

  /** The end records of a file describe one directory at most. */
  lemma SaysUnique(data: Bytes, d: Directory, e: Directory)
    requires Says(data, d) && Says(data, e)
    ensures d == e
  {
    assert d.endAt == e.endAt;
  }

  // ---- the code ----

  /** An open file. */
  class Handle {
    const data: Bytes
    var position: nat

    constructor (data: Bytes)
      ensures this.data == data && position == 0
    {
      this.data := data;
      this.position := 0;
    }

    method SeekTo(at: nat)
      modifies this
      ensures position == at
    {
      position := at;
    }

    method ReadExact(n: nat) returns (bytes: Option<Bytes>)
      modifies this
      ensures bytes.Some? <==> old(position) + n <= |data|
      ensures bytes.Some? ==> bytes.value == data[old(position)..old(position) + n] && position == old(position) + n
    {
      if position + n > |data| {
        return None;
      }
      bytes := Some(data[position..position + n]);
      position := position + n;
    }
  }

  /** The `rposition` over the windows of the tail. */
  method FindLastEnd(data: Bytes) returns (at: Option<nat>)
    ensures at.Some? ==> LastEnd(data, at.value)
    ensures at.None? ==> forall p :: !LastEnd(data, p)
  {
    if |data| < 4 {
      return None;
    }
    var start := TailStart(data);
    var p := |data| - 3;
    while p > start
      invariant start <= p <= |data| - 3
      invariant forall q :: q >= p ==> !MagicAt(data, q, END_MAGIC)
    {
      p := p - 1;
      if MagicAt(data, p, END_MAGIC) {
        return Some(p);
      }
    }
    at := None;
  }

  /** The first half of `preflight_zip`: find and check the end records. */
  method ReadEnds(file: Handle) returns (d: Option<Directory>)
    modifies file
    ensures d.Some? ==> Says(file.data, d.value)
    ensures d.None? ==> forall e :: !Says(file.data, e)
  {
    var data := file.data;
    var size := |data|;
    var tailSize := if size < TAIL then size else TAIL;
    file.SeekTo(size - tailSize);
    var found := FindLastEnd(data);
    if found.None? {
      return None;
    }
    var at := found.value;
    forall e | Says(data, e) ensures e.endAt == at {
      OneLastEnd(data, at, e.endAt);
    }
    if size - at < END_BYTES || at + END_BYTES + U16(data, at + 20) != size {
      return None;
    }
    if U16(data, at + 4) != 0 || U16(data, at + 6) != 0 || U16(data, at + 8) != U16(data, at + 10) {
      return None;
    }
    d := ReadDirectory(file, at);
  }

  lemma OneLastEnd(data: Bytes, p: nat, q: nat)
    requires LastEnd(data, p) && LastEnd(data, q)
    ensures p == q
  {
  }

  /** What a checked end record, or the ZIP64 record it defers to, says. */
  method ReadDirectory(file: Handle, at: nat) returns (d: Option<Directory>)
    requires EndOk(file.data, at)
    modifies file
    ensures d.Some? ==> d.value.endAt == at && SaysFrom(file.data, d.value)
    ensures d.None? ==> forall e: Directory :: e.endAt == at ==> !SaysFrom(file.data, e)
  {
    var data := file.data;
    var count, bytes, offset := U16(data, at + 10), U32(data, at + 12), U32(data, at + 16);
    if !(count == 0xFFFF || bytes == 0xFFFF_FFFF || offset == 0xFFFF_FFFF) {
      return Some(Directory(at, None, count, bytes, offset));
    }
    var at64 := ReadLocator(file, at);
    if at64.None? {
      return None;
    }
    d := ReadEnd64(file, at, at64.value);
  }

  method ReadEnd64(file: Handle, at: nat, z: nat) returns (d: Option<Directory>)
    requires z + END64_BYTES <= |file.data|
    modifies file
    ensures d.Some? <==> End64Ok(file.data, z)
    ensures d.Some? ==> d.value.endAt == at && SaysEnd64(file.data, z, d.value)
  {
    file.SeekTo(z);
    var record := file.ReadExact(END64_BYTES);
    assert record.Some?;
    End64Fields(file.data, z);
    var r := record.value;
    if !MagicAt(r, 0, END64_MAGIC) || U64(r, 4) != 44 || U32(r, 16) != 0 || U32(r, 20) != 0 || U64(r, 24) != U64(r, 32) {
      return None;
    }
    d := Some(Directory(at, Some(z), U64(r, 32), U64(r, 40), U64(r, 48)));
  }

  /** The fields of a ZIP64 end record, read from its bytes. */
  lemma End64Fields(data: Bytes, z: nat)
    requires z + END64_BYTES <= |data|
    ensures
      var r := data[z..z + END64_BYTES];
      && (MagicAt(r, 0, END64_MAGIC) <==> MagicAt(data, z, END64_MAGIC)) && U64(r, 4) == U64(data, z + 4)
      && U32(r, 16) == U32(data, z + 16) && U32(r, 20) == U32(data, z + 20)
      && U64(r, 24) == U64(data, z + 24) && U64(r, 32) == U64(data, z + 32)
      && U64(r, 40) == U64(data, z + 40) && U64(r, 48) == U64(data, z + 48)
  {
    var r := data[z..z + END64_BYTES];
    assert forall i :: 0 <= i < END64_BYTES ==> r[i] == data[z + i];
  }

  method ReadLocator(file: Handle, at: nat) returns (z: Option<nat>)
    requires at <= |file.data|
    modifies file
    ensures z.Some? <==> LocatorOk(file.data, at)
    ensures z.Some? ==> z.value == LocatedEnd64(file.data, at) && z.value + END64_BYTES <= at - LOCATOR_BYTES
  {
    if at < LOCATOR_BYTES {
      return None;
    }
    file.SeekTo(at - LOCATOR_BYTES);
    var read := file.ReadExact(LOCATOR_BYTES);
    assert read.Some?;
    var locator := read.value;
    var from := at - LOCATOR_BYTES;
    assert forall i :: 0 <= i < LOCATOR_BYTES ==> locator[i] == file.data[from + i];
    if !MagicAt(locator, 0, LOCATOR_MAGIC) || U32(locator, 4) != 0 || U32(locator, 16) != 1 {
      return None;
    }
    var end64 := U64(locator, 8);
    if end64 > at - LOCATOR_BYTES || at - LOCATOR_BYTES - end64 < END64_BYTES {
      return None;
    }
    z := Some(end64);
  }

  /** `left` headers remain from `at` on, and the names before them add up to `names`. */
  ghost predicate Remains(data: Bytes, d: Directory, at: nat, left: nat, names: nat) {
    && (Tiled(data, d.offset, d.count, Boundary(d)) <==> Tiled(data, at, left, Boundary(d)))
    && (Tiled(data, at, left, Boundary(d)) ==>
          NameLengths(data, d.offset, d.count, Boundary(d)) == names + NameLengths(data, at, left, Boundary(d)))
  }

  lemma RemainsStep(data: Bytes, d: Directory, at: nat, left: nat, names: nat)
    requires left > 0 && Remains(data, d, at, left, names)
    ensures HeaderOk(data, at, Boundary(d)) ==>
      Remains(data, d, at + HEADER_BYTES + Variable(data, at), left - 1, names + U16(data, at + 28))
    ensures !HeaderOk(data, at, Boundary(d)) ==> !Tiled(data, d.offset, d.count, Boundary(d))
  {
  }

  /** The header loop of `preflight_zip`: succeeds exactly when the headers tile the directory and
      their names fit. */
  method CheckHeaders(file: Handle, d: Directory, limits: Limits) returns (r: Outcome<()>)
    requires d.offset + d.bytes == Boundary(d) <= |file.data|
    modifies file
    ensures r.Ok? <==> && Tiled(file.data, d.offset, d.count, Boundary(d))
                       && NameLengths(file.data, d.offset, d.count, Boundary(d)) <= limits.maxNameBytes
  {
    file.SeekTo(d.offset);
    var consumed: nat, names: nat := 0, 0;
    for i := 0 to d.count
      invariant consumed <= d.bytes && names <= limits.maxNameBytes
      invariant file.position == d.offset + consumed
      invariant Remains(file.data, d, d.offset + consumed, d.count - i, names)
    {
      RemainsStep(file.data, d, d.offset + consumed, d.count - i, names);
      var header := ReadHeader(file, d.bytes - consumed);
      if header.None? {
        return Err(Invalid);
      }
      var (name, variable) := header.value;
      names := names + name;
      consumed := consumed + HEADER_BYTES + variable;
      if consumed > d.bytes || names > limits.maxNameBytes {
        return Err(Limit);
      }
      file.SeekTo(file.position + variable);
    }
    if consumed != d.bytes {
      return Err(Invalid);
    }
    r := Ok(());
  }

  /** One header, with `left` bytes of the directory to go: the lengths of its name and of all its
      variable parts. */
  method ReadHeader(file: Handle, left: nat) returns (header: Option<(nat, nat)>)
    requires file.position + left <= |file.data|
    modifies file
    ensures header.Some? <==> left >= HEADER_BYTES && HeaderFixed(file.data, old(file.position))
    ensures header.Some? ==> header.value == (U16(file.data, old(file.position) + 28), Variable(file.data, old(file.position)))
    ensures header.Some? ==> file.position == old(file.position) + HEADER_BYTES
  {
    if left < HEADER_BYTES {
      return None;
    }
    HeaderFields(file.data, file.position);
    var read := file.ReadExact(HEADER_BYTES);
    var bytes := read.value;
    if !MagicAt(bytes, 0, HEADER_MAGIC) || U16(bytes, 34) != 0 {
      return None;
    }
    header := Some((U16(bytes, 28), U16(bytes, 28) + U16(bytes, 30) + U16(bytes, 32)));
  }

  lemma HeaderFields(data: Bytes, at: nat)
    requires at + HEADER_BYTES <= |data|
    ensures
      var header := data[at..at + HEADER_BYTES];
      && (MagicAt(header, 0, HEADER_MAGIC) <==> MagicAt(data, at, HEADER_MAGIC)) && U16(header, 28) == U16(data, at + 28)
      && U16(header, 30) == U16(data, at + 30) && U16(header, 32) == U16(data, at + 32)
      && U16(header, 34) == U16(data, at + 34)
  {
    var header := data[at..at + HEADER_BYTES];
    assert forall i :: 0 <= i < HEADER_BYTES ==> header[i] == data[at + i];
  }

  /** The window loop of `preflight_zip`. */
  method CheckSignatures(file: Handle, d: Directory) returns (fine: bool)
    requires d.offset <= |file.data|
    modifies file
    ensures fine <==> OnlyValidatedEnds(file.data, d)
  {
    file.SeekTo(d.offset);
    var read := file.ReadExact(|file.data| - d.offset);
    assert read.Some?;
    var metadata := read.value;
    var index := 0;
    while index + 4 <= |metadata|
      invariant index <= |metadata|
      invariant forall p :: d.offset <= p < d.offset + index && p + 4 <= |file.data| ==>
        && (MagicAt(file.data, p, END_MAGIC) ==> p == d.endAt)
        && (MagicAt(file.data, p, END64_MAGIC) ==> d.end64At == Some(p))
    {
      var position := d.offset + index;
      assert forall i :: index <= i < index + 4 ==> metadata[i] == file.data[d.offset + i];
      assert MagicAt(metadata, index, END_MAGIC) == MagicAt(file.data, position, END_MAGIC);
      assert MagicAt(metadata, index, END64_MAGIC) == MagicAt(file.data, position, END64_MAGIC);
      if || (MagicAt(metadata, index, END_MAGIC) && position != d.endAt)
         || (MagicAt(metadata, index, END64_MAGIC) && Some(position) != d.end64At) {
        return false;
      }
      index := index + 1;
    }
    fine := true;
  }

  /** `preflight_zip` accepts exactly the files with a well-formed directory, and names it. */
  method Preflight(file: Handle, limits: Limits) returns (r: Outcome<(nat, nat)>, ghost d: Option<Directory>)
    modifies file
    ensures r.Ok? ==> d.Some? && WellFormed(file.data, limits, d.value) && r.value == (d.value.offset, d.value.count)
    ensures r.Err? ==> forall e :: !WellFormed(file.data, limits, e)
  {
    var ends := ReadEnds(file);
    d := ends;
    if ends.None? {
      return Err(Invalid), None;
    }
    var found := ends.value;
    forall e | Says(file.data, e) ensures e == found {
      SaysUnique(file.data, e, found);
    }
    if found.count > limits.maxEntries || found.bytes > MAX_ZIP_DIRECTORY {
      return Err(Limit), None;
    }
    if found.offset + found.bytes != Boundary(found) {
      return Err(Invalid), None;
    }
    var headers := CheckHeaders(file, found, limits);
    if headers.Err? {
      return Err(headers.error), None;
    }
    if |file.data| - found.offset > MAX_ZIP_DIRECTORY + 65657 {
      return Err(Limit), None;
    }
    var fine := CheckSignatures(file, found);
    if !fine {
      return Err(Invalid), None;
    }
    r := Ok((found.offset, found.count));
  }

  // ---- what the ZIP library can see ----

  /** The file with everything before the directory blanked. */
  function Masked(data: Bytes, start: nat): Bytes {
    seq(|data|, i requires 0 <= i < |data| => if i < start then 0 else data[i])
  }

  /** Masking hides exactly the signatures before the directory: none starts with a zero. */
  lemma MaskedMagic(data: Bytes, start: nat, p: nat, magic: Magic)
    requires magic[0] != 0
    ensures MagicAt(Masked(data, start), p, magic) <==> start <= p && MagicAt(data, p, magic)
  {
    var view := Masked(data, start);
    assert forall i :: 0 <= i < |data| ==> view[i] == if i < start then 0 else data[i];
  }

  /** In the masked file, end-record signatures are at the validated positions and nowhere else. */
  lemma MaskedEnds(data: Bytes, limits: Limits, d: Directory, p: nat)
    requires WellFormed(data, limits, d)
    ensures MagicAt(Masked(data, d.offset), p, END_MAGIC) <==> p == d.endAt
    ensures MagicAt(Masked(data, d.offset), p, END64_MAGIC) <==> d.end64At == Some(p)
  {
    MaskedMagic(data, d.offset, p, END_MAGIC);
    MaskedMagic(data, d.offset, p, END64_MAGIC);
    assert d.offset <= Boundary(d) <= d.endAt;
  }

  /** `ZipInput`: while metadata is being discovered, reads before the directory give zeroes. */
  class ZipInput {
    const file: Handle
    const directoryStart: nat
    var metadataOnly: bool

    ghost function Shown(): Bytes
      reads this
    {
      if metadataOnly then Masked(file.data, directoryStart) else file.data
    }

    constructor (file: Handle, directoryStart: nat)
      requires directoryStart <= |file.data|
      ensures this.file == file && this.directoryStart == directoryStart && metadataOnly
    {
      this.file := file;
      this.directoryStart := directoryStart;
      this.metadataOnly := true;
    }

    /** Delivers some of what is shown at the current position. */
    method Read(size: nat) returns (bytes: Bytes)
      requires directoryStart <= |file.data|
      modifies file
      ensures bytes == [] <==> size == 0 || old(file.position) >= |file.data|
      ensures bytes != [] ==>
        && old(file.position) + |bytes| <= |file.data| && |bytes| <= size
        && bytes == Shown()[old(file.position)..old(file.position) + |bytes|]
      ensures file.position == old(file.position) + |bytes|
    {
      var position := file.position;
      if metadataOnly && position < directoryStart {
        var n := if size < directoryStart - position then size else directoryStart - position;
        bytes := seq(n, i => 0);
        file.SeekTo(position + n);
        return;
      }
      var n := 0;
      if size > 0 && position < |file.data| {
        n :| 1 <= n <= size && position + n <= |file.data|;
      }
      bytes := if n == 0 then [] else file.data[position..position + n];
      file.SeekTo(position + n);
    }
  }

  datatype Call = SeekTo(at: nat) | ReadUpTo(size: nat)

  datatype Seen = Seen(at: nat, bytes: Bytes)

  /** A signature within what one read delivered. */
  ghost predicate Shows(seen: Seen, p: nat, magic: Magic) {
    seen.at <= p && MagicAt(seen.bytes, p - seen.at, magic)
  }

  ghost predicate FromView(view: Bytes, seen: Seen) {
    seen.at + |seen.bytes| <= |view| && seen.bytes == view[seen.at..seen.at + |seen.bytes|]
  }

  /** Any sequence of seeks and reads is shown parts of the masked file only. */
  method Observe(input: ZipInput, calls: seq<Call>) returns (log: seq<Seen>)
    requires input.metadataOnly && input.directoryStart <= |input.file.data|
    modifies input.file
    ensures forall i :: 0 <= i < |log| ==> FromView(Masked(input.file.data, input.directoryStart), log[i])
  {
    log := [];
    for k := 0 to |calls|
      invariant forall i :: 0 <= i < |log| ==> FromView(Masked(input.file.data, input.directoryStart), log[i])
    {
      match calls[k] {
        case SeekTo(at) => input.file.SeekTo(at);
        case ReadUpTo(size) =>
          var at := input.file.position;
          var bytes := input.Read(size);
          if bytes != [] {
            log := log + [Seen(at, bytes)];
          }
      }
    }
  }

  /** Whatever a library seeks and reads while it looks for metadata in a file that passed the
      preflight, every end-record signature it is shown is a validated one. */
  method Discover(input: ZipInput, limits: Limits, d: Directory, calls: seq<Call>) returns (log: seq<Seen>)
    requires input.metadataOnly && input.directoryStart == d.offset && WellFormed(input.file.data, limits, d)
    modifies input.file
    ensures forall i :: 0 <= i < |log| ==> FromView(Masked(input.file.data, d.offset), log[i])
    ensures forall i :: 0 <= i < |log| ==> OnlyShows(log[i], d)
  {
    assert d.offset <= |input.file.data|;
    log := Observe(input, calls);
    forall i | 0 <= i < |log| ensures OnlyShows(log[i], d) {
      SeenEnds(input.file.data, limits, d, log[i]);
    }
  }

  ghost predicate OnlyShows(seen: Seen, d: Directory) {
    && (forall p: nat :: Shows(seen, p, END_MAGIC) ==> p == d.endAt)
    && (forall p: nat :: Shows(seen, p, END64_MAGIC) ==> d.end64At == Some(p))
  }

  lemma SeenEnds(data: Bytes, limits: Limits, d: Directory, seen: Seen)
    requires WellFormed(data, limits, d) && FromView(Masked(data, d.offset), seen)
    ensures OnlyShows(seen, d)
  {
    var view := Masked(data, d.offset);
    forall p: nat | Shows(seen, p, END_MAGIC) ensures p == d.endAt {
      SliceMagic(view, seen, p, END_MAGIC);
      MaskedEnds(data, limits, d, p);
    }
    forall p: nat | Shows(seen, p, END64_MAGIC) ensures d.end64At == Some(p) {
      SliceMagic(view, seen, p, END64_MAGIC);
      MaskedEnds(data, limits, d, p);
    }
  }

  lemma SliceMagic(view: Bytes, seen: Seen, p: nat, magic: Magic)
    requires FromView(view, seen)
    requires seen.at <= p && p - seen.at + 4 <= |seen.bytes|
    ensures Shows(seen, p, magic) <==> MagicAt(view, p, magic)
  {
    assert forall i :: 0 <= i < |seen.bytes| ==> seen.bytes[i] == view[seen.at + i];
  }
}
