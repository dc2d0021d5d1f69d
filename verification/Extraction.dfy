/**
 Archive extraction (src/archives.rs, `Extraction::{path, add, entry}`): an incremental
 checker that builds a private tree under four budgets, one archive entry at a time.
 */
module Extraction {
  import opened Common
  import opened VirtualPaths

  datatype Kind = File | Directory

  datatype Error = Invalid | Limit | Depth | Fs

  datatype Outcome<+T> = Ok(value: T) | Err(error: Error)

  /** What decides about names: well-formed text, the component policy, and the extra policy for
      names about to be created. */
  datatype Names = Names(utf8: Bytes -> bool, policy: Name -> bool, creatable: Name -> bool)

  /** One extraction: where it goes and what it may use. */
  datatype Config = Config(
    names: Names, destination: Path, maxEntries: nat, maxNameBytes: nat, maxBytes: nat, maxCharge: nat)

  /** One archive entry: its stored name, kind and declared size, and what its reader delivers. */
  datatype ArchiveEntry = ArchiveEntry(raw: Bytes, kind: Kind, size: nat, body: Bytes)

  datatype Node = Folder | Contents(bytes: Bytes)

  type Tree = map<Path, Node>

  datatype Recorded = Recorded(kind: Kind, explicit: bool)

  /** The fields that `add` and `entry` update. Entries are keyed by path; the printed form that
      the code uses as key is injective (VirtualPaths.DisplayInjective). */
  datatype State = State(entries: map<Path, Recorded>, names: nat, bytes: nat, charge: nat, tree: Tree)

  function Start(): State {
    State(map[], 0, 0, DIRECTORY_QUOTA_BYTES, map[])
  }

  function SaturatingSub(a: nat, b: nat): nat {
    if a < b then 0 else a - b
  }

  // ---- names ----

  datatype Located = Skip | Bad(error: Error) | At(path: Path)

  function StripDotSlash(name: Bytes): Bytes {
    if |name| >= 2 && name[0] == DOT && name[1] == SLASH then StripDotSlash(name[2..]) else name
  }

  function StripTrailingSlash(name: Bytes): Bytes {
    if name != [] && name[|name| - 1] == SLASH then name[..|name| - 1] else name
  }

  predicate AreCreatable(names: Names, path: Path) {
    forall i :: 0 <= i < |path| ==> names.creatable(path[i])
  }

  /** `Extraction::path` */
  function EntryPath(cfg: Config, raw: Bytes, directory: bool): (located: Located)
    ensures located.At? ==> located.path != []
    ensures located.Skip? ==> directory
  {
    if !cfg.names.utf8(raw) then Bad(Invalid)
    else
      var name := StripDotSlash(raw);
      if directory && (name == [DOT] || name == []) then Skip
      else
        var text := if directory then StripTrailingSlash(name) else name;
        match Parse(cfg.names.policy, text)
        case None => Bad(Fs)
        case Some(path) =>
          if !AreCreatable(cfg.names, path) then Bad(Fs)
          else if |cfg.destination| + |path| > MAX_PATH_DEPTH then Bad(Depth)
          else if Parse(cfg.names.policy, Display(cfg.destination) + [SLASH] + Display(path)).None? then Bad(Fs)
          else At(path)
  }

  /** A located entry is a valid path that stays within the depth limit below its destination. */
  lemma LocatedIsValid(cfg: Config, raw: Bytes, directory: bool)
    requires EntryPath(cfg, raw, directory).At?
    ensures
      var path := EntryPath(cfg, raw, directory).path;
      && path != [] && AllEntryNames(cfg.names.policy, path)
      && |cfg.destination| + |path| <= MAX_PATH_DEPTH
      && |Display(cfg.destination)| + 1 + |Display(path)| <= MAX_VIRTUAL_PATH_BYTES
  {
    var name := StripDotSlash(raw);
    var text := if directory then StripTrailingSlash(name) else name;
    var path := EntryPath(cfg, raw, directory).path;
    ParseExactlyInvertsDisplay(cfg.names.policy, text, MAX_PATH_DEPTH, path);
    var full := Display(cfg.destination) + [SLASH] + Display(path);
    ParseExactlyInvertsDisplay(cfg.names.policy, full, MAX_PATH_DEPTH, Parse(cfg.names.policy, full).value);
  }

  // ---- recording entries ----

  predicate ParentIsFolder(tree: Tree, path: Path)
    requires path != []
  {
    |path| == 1 || (path[..|path| - 1] in tree && tree[path[..|path| - 1]].Folder?)
  }

  /** An entry already recorded at this path may be met again only as a directory, and explicitly
      only once. */
  predicate Compatible(s: State, path: Path, kind: Kind, explicit: bool) {
    path in s.entries ==>
      kind.Directory? && s.entries[path].kind.Directory? && !(explicit && s.entries[path].explicit)
  }

  /** The state with the entry recorded, before any limit is looked at. */
  function Record(s: State, path: Path, kind: Kind, explicit: bool): State {
    if path in s.entries then
      s.(entries := s.entries[path := Recorded(s.entries[path].kind, s.entries[path].explicit || explicit)])
    else
      s.(entries := s.entries[path := Recorded(kind, explicit)],
         names := s.names + |Display(path)|,
         charge := s.charge + (if kind.Directory? then DIRECTORY_QUOTA_BYTES else 0),
         tree := if kind.Directory? then s.tree[path := Folder] else s.tree)
  }

  /** `Extraction::add` */
  function Add(cfg: Config, s: State, path: Path, kind: Kind, explicit: bool): Outcome<State>
    requires path != []
  {
    if !Compatible(s, path, kind, explicit) then Err(Invalid)
    else if path in s.entries then Ok(Record(s, path, kind, explicit))
    else if |s.entries.Keys| >= cfg.maxEntries || s.names + |Display(path)| > cfg.maxNameBytes then Err(Limit)
    else if kind.Directory? && s.charge + DIRECTORY_QUOTA_BYTES > cfg.maxCharge then Err(Limit)
    else if kind.Directory? && (path in s.tree || !ParentIsFolder(s.tree, path)) then Err(Fs)
    else Ok(Record(s, path, kind, explicit))
  }

  /** The parent loop of `Extraction::entry`: the first `n` ancestors, outermost first. */
  function AddParents(cfg: Config, s: State, path: Path, n: nat): Outcome<State>
    requires n < |path|
  {
    if n == 0 then Ok(s)
    else
      match AddParents(cfg, s, path, n - 1)
      case Err(error) => Err(error)
      case Ok(t) => Add(cfg, t, path[..n], Directory, false)
  }

  /** The file branch of `Extraction::entry`. */
  function WriteBody(cfg: Config, s: State, path: Path, e: ArchiveEntry): Outcome<State>
    requires path != []
  {
    if path in s.tree || !ParentIsFolder(s.tree, path) then Err(Fs)
    else if |e.body| > Min(SaturatingSub(cfg.maxBytes, s.bytes), SaturatingSub(cfg.maxCharge, s.charge)) then Err(Limit)
    else if |e.body| != e.size then Err(Invalid)
    else Ok(s.(bytes := s.bytes + |e.body|, charge := s.charge + |e.body|, tree := s.tree[path := Contents(e.body)]))
  }

  /** The part of `Extraction::entry` after the parent loop. */
  function Finish(cfg: Config, t: State, path: Path, e: ArchiveEntry): Outcome<State>
    requires path != []
  {
    match Add(cfg, t, path, e.kind, true)
    case Err(error) => Err(error)
    case Ok(u) => if e.kind.File? then WriteBody(cfg, u, path, e) else Ok(u)
  }

  /** The part after the size check. */
  function Place(cfg: Config, s: State, path: Path, e: ArchiveEntry): Outcome<State>
    requires path != []
  {
    match AddParents(cfg, s, path, |path| - 1)
    case Err(error) => Err(error)
    case Ok(t) => Finish(cfg, t, path, e)
  }

  /** The part after the path is known. */
  function Admit(cfg: Config, s: State, path: Path, e: ArchiveEntry): Outcome<State>
    requires path != []
  {
    if SizeRefused(cfg, s, e.size) then Err(Limit) else Place(cfg, s, path, e)
  }

  predicate SizeRefused(cfg: Config, s: State, size: nat) {
    size > SaturatingSub(cfg.maxBytes, s.bytes) || size > SaturatingSub(cfg.maxCharge, s.charge)
  }

  /** `Extraction::entry` */
  function Enter(cfg: Config, s: State, e: ArchiveEntry): Outcome<State> {
    if e.kind.Directory? && e.size != 0 then Err(Invalid)
    else
      match EntryPath(cfg, e.raw, e.kind.Directory?)
      case Bad(error) => Err(error)
      case Skip => Ok(s)
      case At(path) => Admit(cfg, s, path, e)
  }

  /** A whole archive. */
  function Fold(cfg: Config, es: seq<ArchiveEntry>): Outcome<State> {
    if es == [] then Ok(Start())
    else
      match Fold(cfg, es[..|es| - 1])
      case Err(error) => Err(error)
      case Ok(s) => Enter(cfg, s, es[|es| - 1])
  }
}
