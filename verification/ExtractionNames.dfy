/**
 Which path the stored name of an archive entry gives (src/archives.rs, `Extraction::path`), said of
 the text itself.
 */
module ExtractionNames {
  import opened Common
  import opened VirtualPaths
  import opened Extraction

  /** `./`, so many times. */
  function DotSlashes(n: nat): Bytes {
    if n == 0 then [] else [DOT, SLASH] + DotSlashes(n - 1)
  }

  /** The path as it is printed, after any number of `./`, and for a directory perhaps before a slash. */
  ghost predicate SpellsAfter(raw: Bytes, directory: bool, path: Path, n: nat) {
    raw == DotSlashes(n) + Display(path) || (directory && raw == DotSlashes(n) + Display(path) + [SLASH])
  }

  ghost predicate Spells(raw: Bytes, directory: bool, path: Path) {
    exists n: nat :: SpellsAfter(raw, directory, path, n)
  }

  ghost predicate SpellsTopAfter(raw: Bytes, n: nat) {
    raw == DotSlashes(n) || raw == DotSlashes(n) + [DOT]
  }

  /** The top of the tree: nothing, or `.`, after any number of `./`. */
  ghost predicate SpellsTop(raw: Bytes) {
    exists n: nat :: SpellsTopAfter(raw, n)
  }

  /** Valid components, all of which may be created. */
  ghost predicate IsName(cfg: Config, path: Path) {
    path != [] && AllEntryNames(cfg.names.policy, path) && AreCreatable(cfg.names, path)
  }

  /** The path by itself is within the limits of a path. */
  ghost predicate IsShort(path: Path) {
    |path| <= MAX_PATH_DEPTH && |Display(path)| <= MAX_VIRTUAL_PATH_BYTES
  }

  /** Below the destination it still is. */
  ghost predicate FitsBelow(cfg: Config, path: Path) {
    && |cfg.destination| + |path| <= MAX_PATH_DEPTH
    && |Display(cfg.destination)| + 1 + |Display(path)| <= MAX_VIRTUAL_PATH_BYTES
  }

  /** The destination is a path, and not the root. */
  ghost predicate IsDestination(cfg: Config) {
    cfg.destination != [] && AllEntryNames(cfg.names.policy, cfg.destination)
  }

  // ---- the text ----

  predicate StartsDotSlash(text: Bytes) {
    |text| >= 2 && text[0] == DOT && text[1] == SLASH
  }

  lemma {:induction false} StripsAll(n: nat, text: Bytes)
    requires !StartsDotSlash(text)
    ensures StripDotSlash(DotSlashes(n) + text) == text
  {
    if n == 0 {
      assert DotSlashes(0) + text == text;
    } else {
      var all := DotSlashes(n) + text;
      assert all[0] == DOT && all[1] == SLASH && all[2..] == DotSlashes(n - 1) + text;
      StripsAll(n - 1, text);
    }
  }

  lemma {:induction false} StripLeaves(raw: Bytes) returns (n: nat)
    ensures raw == DotSlashes(n) + StripDotSlash(raw) && !StartsDotSlash(StripDotSlash(raw))
  {
    if StartsDotSlash(raw) {
      var m := StripLeaves(raw[2..]);
      n := m + 1;
      OneMoreDotSlash(raw, m, StripDotSlash(raw));
    } else {
      n := 0;
      assert DotSlashes(0) + raw == raw;
    }
  }

  lemma OneMoreDotSlash(raw: Bytes, m: nat, rest: Bytes)
    requires StartsDotSlash(raw) && raw[2..] == DotSlashes(m) + rest
    ensures raw == DotSlashes(m + 1) + rest
  {
    assert raw == [DOT, SLASH] + raw[2..];
    assert [DOT, SLASH] + (DotSlashes(m) + rest) == ([DOT, SLASH] + DotSlashes(m)) + rest;
  }

  lemma {:induction false} DisplayEnds(path: Path)
    requires path != [] && Separated(path)
    ensures Display(path) != [] && Display(path)[|Display(path)| - 1] != SLASH
  {
    if |path| > 1 {
      DisplayEnds(path[1..]);
    }
  }

  /** A printed path starts with its first component, so not with `./`, and is not `.`. */
  lemma DisplayStarts(policy: Name -> bool, path: Path)
    requires path != [] && AllEntryNames(policy, path)
    ensures !StartsDotSlash(Display(path)) && !StartsDotSlash(Display(path) + [SLASH]) && Display(path) != [DOT]
  {
    var text, first := Display(path), path[0];
    assert IsEntryName(policy, first);
    assert first <= text && (|text| > |first| ==> text[|first|] == SLASH);
    if text[0] == DOT && |first| > 1 {
      assert text[1] == first[1];
    }
  }

  lemma StripTopIff(raw: Bytes)
    ensures StripDotSlash(raw) == [] || StripDotSlash(raw) == [DOT] <==> SpellsTop(raw)
  {
    var n := StripLeaves(raw);
    if StripDotSlash(raw) == [] {
      assert DotSlashes(n) + [] == DotSlashes(n);
      assert SpellsTopAfter(raw, n);
    } else if StripDotSlash(raw) == [DOT] {
      assert SpellsTopAfter(raw, n);
    }
    if SpellsTop(raw) {
      var m: nat :| SpellsTopAfter(raw, m);
      assert DotSlashes(m) + [] == DotSlashes(m);
      StripsAll(m, []);
      StripsAll(m, [DOT]);
    }
  }

  /** The text that is parsed. */
  function Text(raw: Bytes, directory: bool): Bytes {
    if directory then StripTrailingSlash(StripDotSlash(raw)) else StripDotSlash(raw)
  }

  lemma TextSpells(raw: Bytes, directory: bool, path: Path)
    requires Text(raw, directory) == Display(path)
    ensures Spells(raw, directory, path)
  {
    var text, name := Display(path), StripDotSlash(raw);
    var n := StripLeaves(raw);
    if name != text {
      assert name == text + [SLASH];
      assert DotSlashes(n) + (text + [SLASH]) == DotSlashes(n) + text + [SLASH];
    }
    assert SpellsAfter(raw, directory, path, n);
  }

  lemma SpelledText(raw: Bytes, directory: bool, policy: Name -> bool, path: Path)
    requires path != [] && AllEntryNames(policy, path) && Spells(raw, directory, path)
    ensures Text(raw, directory) == Display(path) && StripDotSlash(raw) != [] && StripDotSlash(raw) != [DOT]
  {
    var text := Display(path);
    DisplayStarts(policy, path);
    DisplayEnds(path);
    var m: nat :| SpellsAfter(raw, directory, path, m);
    if raw == DotSlashes(m) + text {
      StripsAll(m, text);
    } else {
      assert DotSlashes(m) + (text + [SLASH]) == DotSlashes(m) + text + [SLASH];
      StripsAll(m, text + [SLASH]);
    }
  }

  // ---- the result ----

  /** The first of the checks: what the text gives by itself. */
  lemma ParsesIff(cfg: Config, raw: Bytes, directory: bool, path: Path)
    ensures Parse(cfg.names.policy, Text(raw, directory)) == Some(path)
       <==> path != [] && Spells(raw, directory, path) && AllEntryNames(cfg.names.policy, path) && IsShort(path)
  {
    ParseExactlyInvertsDisplay(cfg.names.policy, Text(raw, directory), MAX_PATH_DEPTH, path);
    if Text(raw, directory) == Display(path) {
      TextSpells(raw, directory, path);
    }
    if path != [] && AllEntryNames(cfg.names.policy, path) && Spells(raw, directory, path) {
      SpelledText(raw, directory, cfg.names.policy, path);
    }
  }

  /** The last of the checks: the whole path below the destination. */
  lemma BelowIff(cfg: Config, path: Path)
    requires IsDestination(cfg) && path != [] && AllEntryNames(cfg.names.policy, path)
    requires |cfg.destination| + |path| <= MAX_PATH_DEPTH
    ensures Parse(cfg.names.policy, Display(cfg.destination) + [SLASH] + Display(path)).Some? <==> FitsBelow(cfg, path)
  {
    var policy, full := cfg.names.policy, cfg.destination + path;
    var text := Display(cfg.destination) + [SLASH] + Display(path);
    DisplayConcat(cfg.destination, path);
    assert AllEntryNames(policy, full);
    ParseExactlyInvertsDisplay(policy, text, MAX_PATH_DEPTH, full);
    if Parse(policy, text).Some? {
      ParseExactlyInvertsDisplay(policy, text, MAX_PATH_DEPTH, Parse(policy, text).value);
    }
  }

  /** What is passed over, or not well-formed text, or not a short path at all. */
  lemma WithoutPath(cfg: Config, raw: Bytes, directory: bool)
    ensures EntryPath(cfg, raw, directory) == Bad(Invalid) <==> !cfg.names.utf8(raw)
    ensures EntryPath(cfg, raw, directory).Skip? <==> cfg.names.utf8(raw) && directory && SpellsTop(raw)
    ensures cfg.names.utf8(raw) && !(directory && SpellsTop(raw)) && Parse(cfg.names.policy, Text(raw, directory)).None? ==>
      EntryPath(cfg, raw, directory) == Bad(Fs)
  {
    StripTopIff(raw);
  }

  /** What becomes of a path. */
  function OfPath(cfg: Config, path: Path): Located
    requires path != []
  {
    if !AreCreatable(cfg.names, path) then Bad(Fs)
    else if |cfg.destination| + |path| > MAX_PATH_DEPTH then Bad(Depth)
    else if |Display(cfg.destination)| + 1 + |Display(path)| > MAX_VIRTUAL_PATH_BYTES then Bad(Fs)
    else At(path)
  }

  lemma WithPath(cfg: Config, raw: Bytes, directory: bool, path: Path)
    requires IsDestination(cfg) && cfg.names.utf8(raw) && Parse(cfg.names.policy, Text(raw, directory)) == Some(path)
    ensures !SpellsTop(raw) && EntryPath(cfg, raw, directory) == OfPath(cfg, path)
  {
    ParsesIff(cfg, raw, directory, path);
    SpelledText(raw, directory, cfg.names.policy, path);
    StripTopIff(raw);
    if |cfg.destination| + |path| <= MAX_PATH_DEPTH {
      BelowIff(cfg, path);
    }
  }

  /** An entry has its place exactly at the path that its name spells, if that is a name that may be
      created and it fits below the destination. */
  lemma PlaceIff(cfg: Config, raw: Bytes, directory: bool, path: Path)
    requires IsDestination(cfg)
    ensures EntryPath(cfg, raw, directory) == At(path)
       <==> cfg.names.utf8(raw) && Spells(raw, directory, path) && IsName(cfg, path) && FitsBelow(cfg, path)
  {
    WithoutPath(cfg, raw, directory);
    ParsesIff(cfg, raw, directory, path);
    var parsed := Parse(cfg.names.policy, Text(raw, directory));
    if parsed.Some? && cfg.names.utf8(raw) {
      WithPath(cfg, raw, directory, parsed.value);
    }
    assert FitsBelow(cfg, path) ==> IsShort(path);
  }

  /** What is passed over, and what is refused for its text or for its depth; the rest is refused as a name. */
  lemma NoPlaceIff(cfg: Config, raw: Bytes, directory: bool)
    requires IsDestination(cfg)
    ensures EntryPath(cfg, raw, directory).Skip? <==> cfg.names.utf8(raw) && directory && SpellsTop(raw)
    ensures EntryPath(cfg, raw, directory) == Bad(Invalid) <==> !cfg.names.utf8(raw)
    ensures EntryPath(cfg, raw, directory) == Bad(Depth) <==> cfg.names.utf8(raw) && exists path :: IsTooDeep(cfg, raw, directory, path)
    ensures EntryPath(cfg, raw, directory).Bad? ==> EntryPath(cfg, raw, directory).error in {Invalid, Depth, Fs}
  {
    WithoutPath(cfg, raw, directory);
    var parsed := Parse(cfg.names.policy, Text(raw, directory));
    if parsed.Some? && cfg.names.utf8(raw) {
      ParsesIff(cfg, raw, directory, parsed.value);
      WithPath(cfg, raw, directory, parsed.value);
      assert OfPath(cfg, parsed.value) == Bad(Depth) <==> IsTooDeep(cfg, raw, directory, parsed.value);
    }
    forall path | IsTooDeep(cfg, raw, directory, path) ensures parsed == Some(path) {
      ParsesIff(cfg, raw, directory, path);
    }
  }

  ghost predicate IsTooDeep(cfg: Config, raw: Bytes, directory: bool, path: Path) {
    && Spells(raw, directory, path) && IsName(cfg, path) && IsShort(path)
    && |cfg.destination| + |path| > MAX_PATH_DEPTH
  }
}
