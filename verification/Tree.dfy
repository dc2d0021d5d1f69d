/**
 Directory trees as the walks see them (src/filesystem.rs). A tree is static: nothing in it changes
 while it is walked. Its entries are in the order in which the directory is read.
 */
module Trees {
  import opened Common
  import opened VirtualPaths

  /** A file counts as an alias when it has another hard link. */
  datatype Node = File(size: U64, alias: bool) | Dir(readable: bool, entries: Tree) | Special

  /** Reading the directory entry can fail, or reading the status of what it names. */
  datatype Fault = Fine | BadEntry | BadStat

  /** `own`: an internal name of this process; `listed`: a valid name that is not internal. */
  datatype Entry = Entry(name: Name, own: bool, listed: bool, fault: Fault, node: Node)

  type Tree = seq<Entry>

  function Below(e: Entry): Tree {
    if e.node.Dir? then e.node.entries else []
  }

  /** The number of entries at any level. */
  function Weight(t: Tree): nat {
    if t == [] then 0 else 1 + (if t[0].node.Dir? then Weight(t[0].node.entries) else 0) + Weight(t[1..])
  }

  /** Names in a directory are distinct; listed ones are components, and are not internal. */
  ghost predicate IsTree(t: Tree) {
    && (forall i, j :: 0 <= i < j < |t| ==> t[i].name != t[j].name)
    && (forall i :: 0 <= i < |t| ==> IsEntry(t[i]))
  }

  ghost predicate IsEntry(e: Entry) {
    && (e.listed ==> !e.own && e.name != [] && SLASH !in e.name)
    && (e.node.Dir? ==> IsTree(e.node.entries))
  }

  /** What the entry policy shows: files without aliases, and directories. */
  predicate Visible(e: Entry) {
    e.listed && (e.node.Dir? || (e.node.File? && !e.node.alias))
  }

  /** `supported_entry` returns an error. */
  predicate Fails(e: Entry) {
    e.fault.BadEntry? || (e.listed && e.fault.BadStat?)
  }

  /** `supported_entry` returns the entry. */
  predicate Supported(e: Entry) {
    Visible(e) && e.fault.Fine?
  }

  function SatAdd(a: nat, b: nat): (c: U64) {
    if a + b > U64_MAX then U64_MAX else a + b
  }

  /** The number of levels of entries. */
  function Height(t: Tree): nat
    decreases Weight(t)
  {
    if t == [] then 0
    else
      var first, rest := 1 + Height(Below(t[0])), Height(t[1..]);
      if first > rest then first else rest
  }

  lemma {:induction false} HeightBounds(t: Tree, e: Entry)
    requires e in t
    ensures Height(Below(e)) < Height(t)
  {
    if e != t[0] {
      HeightBounds(t[1..], e);
    }
  }

  /** The sizes of all visible files, whether or not a walk can reach them. */
  function TrueSize(t: Tree): nat
    decreases Weight(t)
  {
    if t == [] then 0 else VisibleSize(t[0], TrueSize(Below(t[0]))) + TrueSize(t[1..])
  }

  function VisibleSize(e: Entry, below: nat): nat {
    if !Visible(e) then 0 else if e.node.File? then e.node.size else below
  }

  /** How many entries a complete walk scans. */
  function ScanCount(t: Tree): nat
    decreases Weight(t)
  {
    if t == [] then 0 else 1 + (if Supported(t[0]) then ScanCount(Below(t[0])) else 0) + ScanCount(t[1..])
  }

  /** Nothing keeps a walk from reaching every visible file. */
  ghost predicate Clean(t: Tree, depth: nat)
    decreases Weight(t)
  {
    t == [] || (CleanEntry(t[0], depth) && (Supported(t[0]) ==> Clean(Below(t[0]), depth + 1)) && Clean(t[1..], depth))
  }

  ghost predicate CleanEntry(e: Entry, depth: nat) {
    && !Fails(e)
    && (Supported(e) ==> depth < MAX_PATH_DEPTH && (e.node.Dir? ==> e.node.readable))
  }

  /** The tree has an entry at this path. */
  ghost predicate Has(t: Tree, path: Path)
    decreases |path|
  {
    path != [] && exists i :: 0 <= i < |t| && t[i].name == path[0] && (|path| == 1 || Has(Below(t[i]), path[1..]))
  }

  /** The height bounds the paths, and some path is that long. */
  lemma {:induction false} PathsAreNoDeeper(t: Tree, path: Path)
    requires Has(t, path)
    ensures |path| <= Height(t)
    decreases |path|
  {
    var i :| 0 <= i < |t| && t[i].name == path[0] && (|path| == 1 || Has(Below(t[i]), path[1..]));
    HeightBounds(t, t[i]);
    if |path| > 1 {
      PathsAreNoDeeper(Below(t[i]), path[1..]);
    }
  }

  lemma {:induction false} DeepestPath(t: Tree) returns (path: Path)
    requires t != []
    ensures Has(t, path) && |path| == Height(t)
    decreases Weight(t)
  {
    if t[1..] != [] && 1 + Height(Below(t[0])) <= Height(t[1..]) {
      path := DeepestPath(t[1..]);
      var i :| 0 <= i < |t[1..]| && t[1..][i].name == path[0] && (|path| == 1 || Has(Below(t[1..][i]), path[1..]));
      assert t[i + 1] == t[1..][i];
    } else if Below(t[0]) == [] {
      path := [t[0].name];
    } else {
      var rest := DeepestPath(Below(t[0]));
      path := [t[0].name] + rest;
      assert path[1..] == rest;
    }
  }

  lemma HeightIsLongestPath(t: Tree, n: nat)
    ensures Height(t) <= n <==> forall path :: Has(t, path) ==> |path| <= n
  {
    if Height(t) <= n {
      forall path | Has(t, path) ensures |path| <= n {
        PathsAreNoDeeper(t, path);
      }
    } else {
      var path := DeepestPath(t);
    }
  }

  /** The same through entries that are not internal to this process: the user's tree. */
  ghost predicate Holds(t: Tree, path: Path)
    decreases |path|, 1
  {
    && path != []
    && exists i :: 0 <= i < |t| && HoldsFrom(t[i], path)
  }

  ghost predicate HoldsFrom(e: Entry, path: Path)
    requires path != []
    decreases |path|, 0
  {
    !e.own && e.name == path[0] && (|path| == 1 || Holds(Below(e), path[1..]))
  }

  lemma {:induction false} HoldsIsHas(t: Tree, path: Path)
    requires Holds(t, path)
    ensures Has(t, path)
    decreases |path|
  {
    var i :| 0 <= i < |t| && HoldsFrom(t[i], path);
    if |path| > 1 {
      HoldsIsHas(Below(t[i]), path[1..]);
    }
  }

  /** What the rest of a directory holds, the directory holds. */
  lemma HoldsInRest(t: Tree, path: Path)
    requires t != [] && Holds(t[1..], path)
    ensures Holds(t, path)
  {
    var i :| 0 <= i < |t[1..]| && HoldsFrom(t[1..][i], path);
    assert t[i + 1] == t[1..][i];
  }

  lemma HoldsBelow(t: Tree, e: Entry, path: Path)
    requires e in t && !e.own && Holds(Below(e), path)
    ensures Holds(t, [e.name] + path)
  {
    var i :| 0 <= i < |t| && t[i] == e;
    assert ([e.name] + path)[1..] == path;
    assert HoldsFrom(t[i], [e.name] + path);
  }
}
