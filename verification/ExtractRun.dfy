/**
 The extracting code itself (src/archives.rs, `Extraction` and `extract`): fields updated entry
 by entry, bodies copied through bounded loops, and the disk space that all of this takes.
 */
module ExtractRun {
  import opened Common
  import opened VirtualPaths
  import opened Extraction
  import opened BoundedCopy

  /** The reader delivers the entry's body and is itself unbounded. */
  ghost predicate Feeds(reader: Input, e: ArchiveEntry)
    reads reader, reader.inner
  {
    reader.Valid() && reader.remaining == None && reader.Rest() == e.body
  }

  /** `Extraction`. `used` is the quota that the staged tree takes on disk: a block for its root
      and for every directory, and every byte written. No method lets it shrink, so the bound on it
      after a call bounds it after each of the calls that the method makes. */
  class Extractor {
    const cfg: Config
    var entries: map<Path, Recorded>
    var names: nat
    var bytes: nat
    var charge: nat
    var tree: Tree
    var used: nat

    ghost function AsState(): State
      reads this
    {
      State(entries, names, bytes, charge, tree)
    }

    ghost predicate Valid()
      reads this
    {
      used == charge <= cfg.maxCharge <= U64_MAX && cfg.maxBytes <= U64_MAX
    }

    constructor (cfg: Config)
      requires DIRECTORY_QUOTA_BYTES <= cfg.maxCharge <= U64_MAX && cfg.maxBytes <= U64_MAX
      ensures Valid() && this.cfg == cfg && AsState() == Start()
    {
      this.cfg := cfg;
      this.entries := map[];
      this.names := 0;
      this.bytes := 0;
      this.charge := DIRECTORY_QUOTA_BYTES;
      this.tree := map[];
      this.used := DIRECTORY_QUOTA_BYTES;
    }

    /** `add` */
    method AddEntry(path: Path, kind: Kind, explicit: bool) returns (r: Outcome<bool>)
      requires Valid() && path != []
      modifies this
      ensures old(used) <= used <= cfg.maxCharge
      ensures r.Err? ==> Add(cfg, old(AsState()), path, kind, explicit) == Err(r.error)
      ensures r.Ok? ==> Valid() && Add(cfg, old(AsState()), path, kind, explicit) == Ok(AsState())
      ensures r.Ok? ==> (r.value <==> path !in old(entries))
    {
      if path in entries {
        var previous := entries[path];
        if !kind.Directory? || previous.kind != kind || (explicit && previous.explicit) {
          return Err(Invalid);
        }
        entries := entries[path := Recorded(previous.kind, previous.explicit || explicit)];
        return Ok(false);
      }
      var printed := Print(path);
      names := names + |printed|;
      if |entries.Keys| >= cfg.maxEntries || names > cfg.maxNameBytes {
        return Err(Limit);
      }
      if kind.Directory? {
        charge := charge + DIRECTORY_QUOTA_BYTES;
        if charge > cfg.maxCharge {
          return Err(Limit);
        }
        if path in tree || !ParentIsFolder(tree, path) {
          return Err(Fs);
        }
        tree := tree[path := Folder];
        used := used + DIRECTORY_QUOTA_BYTES;
      }
      entries := entries[path := Recorded(kind, explicit)];
      r := Ok(true);
    }

    /** The parent loop of `entry`. */
    method AddAncestors(path: Path) returns (r: Outcome<()>)
      requires Valid() && path != []
      modifies this
      ensures old(used) <= used <= cfg.maxCharge
      ensures r.Err? ==> AddParents(cfg, old(AsState()), path, |path| - 1) == Err(r.error)
      ensures r.Ok? ==> Valid() && AddParents(cfg, old(AsState()), path, |path| - 1) == Ok(AsState())
    {
      for n := 0 to |path| - 1
        invariant Valid() && old(used) <= used && AddParents(cfg, old(AsState()), path, n) == Ok(AsState())
      {
        ghost var before := AsState();
        var added := AddEntry(path[..n + 1], Directory, false);
        assert AddParents(cfg, old(AsState()), path, n + 1) == Add(cfg, before, path[..n + 1], Directory, false);
        if added.Err? {
          ParentsFailOnward(cfg, old(AsState()), path, n + 1, |path| - 1, added.error);
          return Err(added.error);
        }
      }
      r := Ok(());
    }

    /** The file branch of `entry`. */
    method WriteFile(path: Path, e: ArchiveEntry, reader: Input) returns (r: Outcome<()>)
      requires Valid() && path != [] && Feeds(reader, e) && bytes <= cfg.maxBytes
      modifies this, reader, reader.inner
      ensures old(used) <= used <= cfg.maxCharge
      ensures r.Err? ==> WriteBody(cfg, old(AsState()), path, e) == Err(r.error)
      ensures r.Ok? ==> Valid() && bytes <= cfg.maxBytes && WriteBody(cfg, old(AsState()), path, e) == Ok(AsState())
    {
      if path in tree || !ParentIsFolder(tree, path) {
        return Err(Fs);
      }
      var file := new Output();
      var max := Min(SaturatingSub(cfg.maxBytes, bytes), SaturatingSub(cfg.maxCharge, charge));
      var count := Copy(reader, file, max);
      used := used + |file.data|;
      if count.TooLarge? {
        return Err(Limit);
      }
      if count.value != e.size {
        return Err(Invalid);
      }
      assert file.data == e.body;
      tree := tree[path := Contents(file.data)];
      bytes := bytes + count.value;
      charge := charge + count.value;
      r := Ok(());
    }

    /** The part of `entry` after the size check. */
    method PlaceEntry(path: Path, e: ArchiveEntry, reader: Input) returns (r: Outcome<()>)
      requires Valid() && path != [] && Feeds(reader, e) && bytes <= cfg.maxBytes
      modifies this, reader, reader.inner
      ensures old(used) <= used <= cfg.maxCharge
      ensures r.Err? ==> Place(cfg, old(AsState()), path, e) == Err(r.error)
      ensures r.Ok? ==> Valid() && bytes <= cfg.maxBytes && Place(cfg, old(AsState()), path, e) == Ok(AsState())
    {
      var parents := AddAncestors(path);
      if parents.Err? {
        return Err(parents.error);
      }
      AddParentsKeepsBytes(cfg, old(AsState()), path, |path| - 1);
      ghost var t := AsState();
      var added := AddEntry(path, e.kind, true);
      assert Place(cfg, old(AsState()), path, e) == Finish(cfg, t, path, e);
      if added.Err? {
        return Err(added.error);
      }
      assert bytes == t.bytes;
      if e.kind.Directory? {
        return Ok(());
      }
      assert Finish(cfg, t, path, e) == WriteBody(cfg, AsState(), path, e);
      r := WriteFile(path, e, reader);
    }

    /** `entry` */
    method Entry(e: ArchiveEntry, reader: Input) returns (r: Outcome<()>)
      requires Valid() && Feeds(reader, e) && bytes <= cfg.maxBytes
      modifies this, reader, reader.inner
      ensures old(used) <= used <= cfg.maxCharge
      ensures r.Err? ==> Enter(cfg, old(AsState()), e) == Err(r.error)
      ensures r.Ok? ==> Valid() && bytes <= cfg.maxBytes && Enter(cfg, old(AsState()), e) == Ok(AsState())
    {
      if e.kind.Directory? && e.size != 0 {
        return Err(Invalid);
      }
      var at := EntryPath(cfg, e.raw, e.kind.Directory?);
      if at.Bad? {
        return Err(at.error);
      }
      if at.Skip? {
        return Ok(());
      }
      if e.size > SaturatingSub(cfg.maxBytes, bytes) || e.size > SaturatingSub(cfg.maxCharge, charge) {
        return Err(Limit);
      }
      assert Enter(cfg, AsState(), e) == Place(cfg, AsState(), at.path, e);
      r := PlaceEntry(at.path, e, reader);
    }

    /** The entry loop of `extract` for ZIP and tar archives. */
    method Entries(es: seq<ArchiveEntry>) returns (r: Outcome<()>)
      requires Valid() && AsState() == Start()
      modifies this
      ensures old(used) <= used <= cfg.maxCharge
      ensures r.Ok? ==> Valid() && Fold(cfg, es) == Ok(AsState())
      ensures r.Err? ==> Fold(cfg, es) == Err(r.error)
    {
      for i := 0 to |es|
        invariant Valid() && old(used) <= used && bytes <= cfg.maxBytes && Fold(cfg, es[..i]) == Ok(AsState())
      {
        var source := new Source(es[i].body);
        var reader := new Input(source, None);
        ghost var before := AsState();
        var entered := Entry(es[i], reader);
        assert es[..i + 1][..i] == es[..i];
        assert Fold(cfg, es[..i + 1]) == Enter(cfg, before, es[i]);
        if entered.Err? {
          FoldFailsOnward(cfg, es, i + 1, entered.error);
          return Err(entered.error);
        }
      }
      assert es[..|es|] == es;
      r := Ok(());
    }

    /** The single file of a gzip archive. */
    method Gunzip(name: Bytes, body: Bytes) returns (r: Outcome<()>)
      requires Valid() && AsState() == Start()
      modifies this
      ensures old(used) <= used <= cfg.maxCharge
      ensures r.Err? ==> Gunzipped(cfg, name, body) == Err(r.error)
      ensures r.Ok? ==> Gunzipped(cfg, name, body) == Ok(tree) && used == DIRECTORY_QUOTA_BYTES + |body|
    {
      var at := EntryPath(cfg, name, false);
      if at.Bad? {
        return Err(at.error);
      }
      SingleFile(cfg, at.path);
      var added := AddEntry(at.path, File, true);
      if added.Err? {
        return Err(added.error);
      }
      if !ParentIsFolder(tree, at.path) {
        return Err(Fs);
      }
      r := Decode(at.path, body);
    }

    /** Writes the decoded body of a gzip archive. */
    method Decode(path: Path, body: Bytes) returns (r: Outcome<()>)
      requires Valid() && tree == map[] && used == DIRECTORY_QUOTA_BYTES
      modifies this
      ensures old(used) <= used <= cfg.maxCharge
      ensures r.Ok? <==> |body| <= cfg.maxBytes && DIRECTORY_QUOTA_BYTES + |body| <= cfg.maxCharge
      ensures r.Ok? ==> tree == map[path := Contents(body)] && used == DIRECTORY_QUOTA_BYTES + |body|
      ensures r.Err? ==> r.error == Limit
    {
      var source := new Source(body);
      var decoder := new Input(source, None);
      var output := new Output();
      var count := Copy(decoder, output, Min(cfg.maxBytes, cfg.maxCharge - DIRECTORY_QUOTA_BYTES));
      used := used + |output.data|;
      if count.TooLarge? {
        return Err(Limit);
      }
      assert output.data == body;
      tree := map[path := Contents(output.data)];
      r := Ok(());
    }
  }

  /** The first file recorded in an empty tree. */
  lemma SingleFile(cfg: Config, path: Path)
    requires path != []
    ensures Add(cfg, Start(), path, File, true)
         == if cfg.maxEntries == 0 || |Display(path)| > cfg.maxNameBytes then Err(Limit)
            else Ok(Start().(entries := map[path := Recorded(File, true)], names := |Display(path)|))
    ensures ParentIsFolder(map[], path) <==> |path| == 1
  {
  }

  /** What a gzip archive gives: one file at the top of the tree, if its name and its size are fine. */
  function Gunzipped(cfg: Config, name: Bytes, body: Bytes): Outcome<Tree>
    requires DIRECTORY_QUOTA_BYTES <= cfg.maxCharge
  {
    match EntryPath(cfg, name, false)
    case Bad(error) => Err(error)
    case At(path) =>
      if cfg.maxEntries == 0 || |Display(path)| > cfg.maxNameBytes then Err(Limit)
      else if |path| > 1 then Err(Fs)
      else if |body| > cfg.maxBytes || DIRECTORY_QUOTA_BYTES + |body| > cfg.maxCharge then Err(Limit)
      else Ok(map[path := Contents(body)])
  }

  /** A source of `size` bytes, found to be of `length` bytes before it was copied, leaves no room. */
  predicate TooLargeBySelf(cfg: Config, size: nat, length: nat) {
    length > cfg.maxBytes || size > cfg.maxBytes || size + DIRECTORY_QUOTA_BYTES > cfg.maxCharge
  }

  /** What an archive gives. */
  function Staged(cfg: Config, format: Format, es: seq<ArchiveEntry>, name: Bytes, body: Bytes): Outcome<Tree>
    requires DIRECTORY_QUOTA_BYTES <= cfg.maxCharge
  {
    match format
    case Gzip => Gunzipped(cfg, name, body)
    case Entries =>
      match Fold(cfg, es)
      case Err(error) => Err(error)
      case Ok(state) => Ok(state.tree)
  }

  /** The disk space that a staged tree takes: what its archive was charged. */
  function StagedUse(cfg: Config, format: Format, es: seq<ArchiveEntry>, body: Bytes): nat {
    match format
    case Gzip => DIRECTORY_QUOTA_BYTES + |body|
    case Entries => if Fold(cfg, es).Ok? then Fold(cfg, es).value.charge else 0
  }

  /** Once an ancestor is refused, so are the ancestors as a whole. */
  lemma {:induction false} ParentsFailOnward(cfg: Config, s: State, path: Path, n: nat, m: nat, error: Error)
    requires n <= m < |path| && AddParents(cfg, s, path, n) == Err(error)
    ensures AddParents(cfg, s, path, m) == Err(error)
    decreases m
  {
    if n < m {
      ParentsFailOnward(cfg, s, path, n, m - 1, error);
    }
  }

  lemma {:induction false} AddParentsKeepsBytes(cfg: Config, s: State, path: Path, n: nat)
    requires n < |path| && AddParents(cfg, s, path, n).Ok?
    ensures AddParents(cfg, s, path, n).value.bytes == s.bytes
  {
    if n > 0 {
      AddParentsKeepsBytes(cfg, s, path, n - 1);
    }
  }

  lemma {:induction false} FoldFailsOnward(cfg: Config, es: seq<ArchiveEntry>, n: nat, error: Error)
    requires n <= |es| && Fold(cfg, es[..n]) == Err(error)
    ensures Fold(cfg, es) == Err(error)
    decreases |es| - n
  {
    if n < |es| {
      FoldFailsNext(cfg, es, n, error);
      FoldFailsOnward(cfg, es, n + 1, error);
    } else {
      assert es[..n] == es;
    }
  }

  lemma FoldFailsNext(cfg: Config, es: seq<ArchiveEntry>, n: nat, error: Error)
    requires n < |es| && Fold(cfg, es[..n]) == Err(error)
    ensures Fold(cfg, es[..n + 1]) == Err(error)
  {
    assert es[..n + 1][..n] == es[..n];
  }

  datatype Format = Entries | Gzip

  /** `extract`: takes a private snapshot of the source, then stages its contents. The archive
      libraries stand behind `es` (ZIP, tar) and `body` (gzip): what they decode from the
      snapshot. Whatever happens, the snapshot and the staged tree together stay within the
      caller's charge. */
  method Extract(cfg: Config, source: Source, length: nat, format: Format, es: seq<ArchiveEntry>, name: Bytes, body: Bytes)
    returns (r: Outcome<Tree>, snapshot: nat, staged: nat)
    requires source.Valid() && cfg.maxBytes <= U64_MAX && cfg.maxCharge <= U64_MAX
    modifies source
    ensures snapshot + staged <= cfg.maxCharge
    ensures TooLargeBySelf(cfg, |old(source.Rest())|, length) ==> r == Err(Limit)
    ensures !TooLargeBySelf(cfg, |old(source.Rest())|, length) ==>
      && snapshot == |old(source.Rest())|
      && r == Staged(cfg.(maxCharge := cfg.maxCharge - snapshot), format, es, name, body)
      && (r.Ok? ==> staged == StagedUse(cfg.(maxCharge := cfg.maxCharge - snapshot), format, es, body))
  {
    snapshot, staged := 0, 0;
    ghost var size := |source.Rest()|;
    if cfg.maxCharge < DIRECTORY_QUOTA_BYTES || length > cfg.maxBytes {
      return Err(Limit), snapshot, staged;
    }
    var fits;
    fits, snapshot := TakeSnapshot(source, Min(cfg.maxBytes, cfg.maxCharge));
    if !fits || SaturatingSub(cfg.maxCharge, snapshot) < DIRECTORY_QUOTA_BYTES {
      return Err(Limit), snapshot, staged;
    }
    assert snapshot == size;
    r, staged := Stage(cfg.(maxCharge := cfg.maxCharge - snapshot), format, es, name, body);
  }

  /** The private copy of the source that everything is read from. */
  method TakeSnapshot(source: Source, max: nat) returns (fits: bool, snapshot: nat)
    requires source.Valid() && max <= U64_MAX
    modifies source
    ensures fits <==> |old(source.Rest())| <= max
    ensures snapshot <= max && (fits ==> snapshot == |old(source.Rest())|)
  {
    var input := new Input(source, None);
    var file := new Output();
    var size := Copy(input, file, max);
    fits, snapshot := size.Done?, |file.data|;
  }

  /** The part of `extract` after the snapshot. */
  method Stage(cfg: Config, format: Format, es: seq<ArchiveEntry>, name: Bytes, body: Bytes)
    returns (r: Outcome<Tree>, staged: nat)
    requires DIRECTORY_QUOTA_BYTES <= cfg.maxCharge <= U64_MAX && cfg.maxBytes <= U64_MAX
    ensures staged <= cfg.maxCharge && r == Staged(cfg, format, es, name, body)
    ensures r.Ok? ==> staged == StagedUse(cfg, format, es, body)
  {
    var state := new Extractor(cfg);
    var done;
    match format {
      case Entries => done := state.Entries(es);
      case Gzip => done := state.Gunzip(name, body);
    }
    staged := state.used;
    r := if done.Err? then Err(done.error) else Ok(state.tree);
  }
}
