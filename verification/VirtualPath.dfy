/**
 Virtual paths: the slash-separated grammar that every request path goes through
 (src/filesystem.rs, `EntryName`, `VirtualPath`).

 Text is modelled as its UTF-8 bytes, which is what the length limits count and
 what the slash filter scans.
 */
module VirtualPaths {
  import opened Common

  type Byte = b: int | 0 <= b < 256

  type Bytes = seq<Byte>

  /** One component; the share root is the empty path. */
  type Name = Bytes

  type Path = seq<Name>

  const SLASH: Byte := 47
  const DOT: Byte := 46
  const MAX_COMPONENT_BYTES := 255
  const MAX_VIRTUAL_PATH_BYTES := 4096
  const MAX_PATH_DEPTH := 64

  /** Component validation. `policy` stands for the remaining checks on the text:
      reserved, control, device and non-normalised names. */
  predicate IsEntryName(policy: Name -> bool, name: Name) {
    0 < |name| <= MAX_COMPONENT_BYTES && name != [DOT] && name != [DOT, DOT] && SLASH !in name && policy(name)
  }

  ghost predicate AllEntryNames(policy: Name -> bool, path: Path) {
    forall i :: 0 <= i < |path| ==> IsEntryName(policy, path[i])
  }

  /** No component holds a separator: the part of validity that printing relies on. */
  ghost predicate Separated(path: Path) {
    forall i :: 0 <= i < |path| ==> path[i] != [] && SLASH !in path[i]
  }

  function CountSlashes(text: Bytes): nat {
    if text == [] then 0 else (if text[0] == SLASH then 1 else 0) + CountSlashes(text[1..])
  }

  /** `text.split('/')`: never empty, one more piece than there are separators. */
  function Split(text: Bytes): (pieces: Path)
    ensures |pieces| == CountSlashes(text) + 1
    ensures forall i :: 0 <= i < |pieces| ==> SLASH !in pieces[i]
  {
    if text == [] then [[]]
    else
      var rest := Split(text[1..]);
      if text[0] == SLASH then [[]] + rest
      else [[text[0]] + rest[0]] + rest[1..]
  }

  /** `VirtualPath::parse_with_depth`; `None` is the InvalidPath error. */
  function ParseWithDepth(policy: Name -> bool, text: Bytes, maxDepth: nat): (path: Option<Path>)
    ensures path.Some? ==> path.value != []
  {
    if text == [] || |text| > MAX_VIRTUAL_PATH_BYTES || CountSlashes(text) >= maxDepth then None
    else
      var pieces := Split(text);
      if forall i :: 0 <= i < |pieces| ==> IsEntryName(policy, pieces[i]) then Some(pieces) else None
  }

  function Parse(policy: Name -> bool, text: Bytes): Option<Path> {
    ParseWithDepth(policy, text, MAX_PATH_DEPTH)
  }

  /** The printed form. */
  function Display(path: Path): Bytes {
    if |path| == 0 then []
    else if |path| == 1 then path[0]
    else path[0] + [SLASH] + Display(path[1..])
  }

  /** `VirtualPath::starts_with`: component-wise prefix. */
  predicate StartsWith(path: Path, other: Path) {
    other <= path
  }

  /** The `fmt` loop: a separator before every component but the first. */
  method Print(path: Path) returns (text: Bytes)
    ensures text == Display(path)
  {
    text := [];
    for index := 0 to |path|
      invariant text == Display(path[..index])
    {
      assert path[..index + 1] == path[..index] + [path[index]];
      DisplaySnoc(path[..index], path[index]);
      if index != 0 {
        text := text + [SLASH];
      }
      text := text + path[index];
    }
    assert path[..|path|] == path;
  }

  lemma {:induction false} DisplaySnoc(path: Path, name: Name)
    ensures Display(path + [name]) == if path == [] then name else Display(path) + [SLASH] + name
  {
    if |path| > 1 {
      assert (path + [name])[1..] == path[1..] + [name];
      DisplaySnoc(path[1..], name);
    } else if |path| == 1 {
      assert (path + [name])[1..] == [name];
    }
  }

  // ---- parse and print undo each other ----

  lemma {:induction false} DisplayOfSplit(text: Bytes)
    ensures Display(Split(text)) == text
  {
    if text != [] {
      DisplayOfSplit(text[1..]);
      var rest := Split(text[1..]);
      if text[0] == SLASH {
        assert Split(text)[1..] == rest;
      } else if |rest| > 1 {
        assert Split(text)[1..] == rest[1..];
      }
    }
  }

  lemma {:induction false} SplitOfName(name: Name)
    requires SLASH !in name
    ensures Split(name) == [name]
  {
    if name != [] {
      SplitOfName(name[1..]);
      assert [name[0]] + name[1..] == name;
    }
  }

  /** Splitting distributes over an explicit separator. */
  lemma {:induction false} SplitAtSeparator(left: Bytes, right: Bytes)
    ensures Split(left + [SLASH] + right) == Split(left) + Split(right)
  {
    var whole := left + [SLASH] + right;
    if left == [] {
      assert whole[1..] == right;
    } else {
      assert whole[1..] == left[1..] + [SLASH] + right;
      SplitAtSeparator(left[1..], right);
    }
  }

  lemma {:induction false} SplitOfDisplay(path: Path)
    requires path != [] && Separated(path)
    ensures Split(Display(path)) == path
  {
    SplitOfName(path[0]);
    if |path| > 1 {
      SplitOfDisplay(path[1..]);
      SplitAtSeparator(path[0], Display(path[1..]));
    }
  }

  /** Parsing accepts exactly the printed forms of valid non-root paths within the depth and
      length limits, and returns the path that was printed. */
  lemma ParseExactlyInvertsDisplay(policy: Name -> bool, text: Bytes, maxDepth: nat, path: Path)
    ensures ParseWithDepth(policy, text, maxDepth) == Some(path)
       <==> && path != [] && AllEntryNames(policy, path) && |path| <= maxDepth
            && |text| <= MAX_VIRTUAL_PATH_BYTES && Display(path) == text
  {
    if ParseWithDepth(policy, text, maxDepth) == Some(path) {
      DisplayOfSplit(text);
    }
    if path != [] && AllEntryNames(policy, path) && Display(path) == text {
      SplitOfDisplay(path);
    }
  }

  /** Distinct paths, the root included, never print alike. */
  lemma DisplayInjective(p: Path, q: Path)
    requires Separated(p) && Separated(q)
    requires Display(p) == Display(q)
    ensures p == q
  {
    if p != [] && q != [] {
      SplitOfDisplay(p);
      SplitOfDisplay(q);
    } else if p != [] {
      DisplayNonEmpty(p);
    } else if q != [] {
      DisplayNonEmpty(q);
    }
  }

  lemma DisplayNonEmpty(p: Path)
    requires p != [] && Separated(p)
    ensures Display(p) != []
  {
  }

  lemma {:induction false} DisplayConcat(p: Path, q: Path)
    requires p != [] && q != []
    ensures Display(p + q) == Display(p) + [SLASH] + Display(q)
  {
    if |p| == 1 {
      assert (p + q)[1..] == q;
    } else {
      assert (p + q)[1..] == p[1..] + q;
      DisplayConcat(p[1..], q);
    }
  }

  /** Component-wise prefix is prefix at a slash boundary of the printed text. */
  lemma StartsWithIffTextual(p: Path, q: Path)
    requires p != [] && q != [] && Separated(p) && Separated(q)
    ensures StartsWith(p, q)
       <==> Display(p) == Display(q) || Display(q) + [SLASH] <= Display(p)
  {
    if q <= p && q != p {
      assert p == q + p[|q|..];
      DisplayConcat(q, p[|q|..]);
    }
    if Display(p) == Display(q) {
      DisplayInjective(p, q);
    }
    if Display(q) + [SLASH] <= Display(p) {
      var rest := Display(p)[|Display(q)| + 1..];
      assert Display(p) == Display(q) + [SLASH] + rest;
      SplitAtSeparator(Display(q), rest);
      SplitOfDisplay(p);
      SplitOfDisplay(q);
    }
  }
}
