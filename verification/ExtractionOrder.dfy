/**
 The order of an archive's entries does not matter: neither for whether it is accepted nor for
 what is staged.
 */
module ExtractionOrder {
  import opened Common
  import opened VirtualPaths
  import opened Extraction
  import opened ExtractionPlans
  import opened ExtractionTheory

  function Without<T>(s: seq<T>, j: nat): seq<T>
    requires j < |s|
  {
    s[..j] + s[j + 1..]
  }

  lemma WithoutBag<T>(s: seq<T>, j: nat)
    requires j < |s|
    ensures multiset(s) == multiset(Without(s, j)) + multiset{s[j]}
  {
    assert s == s[..j] + [s[j]] + s[j + 1..];
  }

  lemma FrontBag<T>(s: seq<T>)
    requires s != []
    ensures multiset(s) == multiset(s[..|s| - 1]) + multiset{s[|s| - 1]}
  {
    assert s == s[..|s| - 1] + [s[|s| - 1]];
  }

  /** Where the last element of one sequence is in a permutation of it. */
  lemma FindLast<T>(a: seq<T>, b: seq<T>) returns (j: nat)
    requires multiset(a) == multiset(b) && b != []
    ensures j < |a| && a[j] == b[|b| - 1] && multiset(Without(a, j)) == multiset(b[..|b| - 1])
  {
    var x := b[|b| - 1];
    assert x in multiset(b);
    j :| 0 <= j < |a| && a[j] == x;
    WithoutBag(a, j);
    FrontBag(b);
    assert multiset(Without(a, j)) == multiset(a) - multiset{x};
    assert multiset(b[..|b| - 1]) == multiset(b) - multiset{x};
  }

  /** Equal bags are rearrangements: `b[i]` is `a[pi[i]]`, each position used once. */
  lemma {:induction false} Rearrangement<T>(a: seq<T>, b: seq<T>) returns (pi: seq<nat>)
    requires multiset(a) == multiset(b)
    ensures |a| == |b| == |pi|
    ensures forall i :: 0 <= i < |pi| ==> pi[i] < |a| && b[i] == a[pi[i]]
    ensures forall i, j :: 0 <= i < j < |pi| ==> pi[i] != pi[j]
    decreases |b|
  {
    assert |multiset(a)| == |a| && |multiset(b)| == |b|;
    if b == [] {
      pi := [];
    } else {
      var j := FindLast(a, b);
      var rest := Rearrangement(Without(a, j), b[..|b| - 1]);
      pi := seq(|rest|, i requires 0 <= i < |rest| => if rest[i] < j then rest[i] else rest[i] + 1) + [j];
    }
  }

  // ---- items ----

  lemma {:induction false} ItemsWithout(cfg: Config, es: seq<ArchiveEntry>, j: nat)
    requires j < |es|
    ensures multiset(Items(cfg, es)) == multiset(Items(cfg, Without(es, j))) + multiset(ItemOf(cfg, es[j]))
    decreases |es|
  {
    var front, e := es[..|es| - 1], es[|es| - 1];
    if j == |es| - 1 {
      assert Without(es, j) == front;
    } else {
      ItemsWithout(cfg, front, j);
      WithoutSnoc(cfg, es, j);
      BagsTogether(Items(cfg, front), Items(cfg, Without(front, j)), ItemOf(cfg, es[j]), ItemOf(cfg, e));
    }
  }

  lemma WithoutSnoc(cfg: Config, es: seq<ArchiveEntry>, j: nat)
    requires j < |es| - 1
    ensures
      var front, e := es[..|es| - 1], es[|es| - 1];
      Items(cfg, Without(es, j)) == Items(cfg, Without(front, j)) + ItemOf(cfg, e) && front[j] == es[j]
  {
    var front, e := es[..|es| - 1], es[|es| - 1];
    assert Without(es, j) == Without(front, j) + [e];
    ItemsSnoc(cfg, Without(front, j), e);
  }

  lemma BagsTogether(a: seq<Item>, b: seq<Item>, c: seq<Item>, more: seq<Item>)
    requires multiset(a) == multiset(b) + multiset(c)
    ensures multiset(a + more) == multiset(b + more) + multiset(c)
  {
  }

  lemma {:induction false} SameItems(cfg: Config, es: seq<ArchiveEntry>, fs: seq<ArchiveEntry>)
    requires multiset(es) == multiset(fs)
    ensures multiset(Items(cfg, es)) == multiset(Items(cfg, fs))
    decreases |fs|
  {
    assert |multiset(es)| == |es| && |multiset(fs)| == |fs|;
    if fs != [] {
      var j := FindLast(es, fs);
      var front, e := fs[..|fs| - 1], fs[|fs| - 1];
      assert fs == front + [e];
      SameItems(cfg, Without(es, j), front);
      ItemsWithout(cfg, es, j);
      ItemsSnoc(cfg, front, e);
    }
  }

  lemma {:induction false} FileBytesWithout(items: seq<Item>, j: nat)
    requires j < |items|
    ensures FileBytes(items) == FileBytes(Without(items, j)) + BodyBytes(items[j])
    decreases |items|
  {
    var front, last := items[..|items| - 1], items[|items| - 1];
    if j == |items| - 1 {
      assert Without(items, j) == front;
    } else {
      var less := Without(items, j);
      assert less[..|less| - 1] == Without(front, j) && less[|less| - 1] == last;
      FileBytesWithout(front, j);
    }
  }

  lemma {:induction false} SameFileBytes(a: seq<Item>, b: seq<Item>)
    requires multiset(a) == multiset(b)
    ensures FileBytes(a) == FileBytes(b)
    decreases |b|
  {
    assert |multiset(a)| == |a| && |multiset(b)| == |b|;
    if b != [] {
      var j := FindLast(a, b);
      SameFileBytes(Without(a, j), b[..|b| - 1]);
      FileBytesWithout(a, j);
    }
  }

  lemma PathsIncluded(a: seq<Item>, b: seq<Item>)
    requires forall x :: x in a ==> x in b
    ensures AllPaths(a) <= AllPaths(b) && FilePaths(a) <= FilePaths(b) && ExplicitPaths(a) <= ExplicitPaths(b)
  {
    forall p | p in AllPaths(a) ensures p in AllPaths(b) {
      var i, n :| 0 <= i < |a| && 1 <= n <= |a[i].path| && p == a[i].path[..n];
      assert a[i] in b;
      var k :| 0 <= k < |b| && b[k] == a[i];
      assert b[k].path[..n] == p;
    }
    forall p | p in FilePaths(a) ensures p in FilePaths(b) {
      var i :| 0 <= i < |a| && a[i].kind.File? && a[i].path == p;
      assert a[i] in b;
      var k :| 0 <= k < |b| && b[k] == a[i];
      assert b[k].path == p;
    }
    forall p | p in ExplicitPaths(a) ensures p in ExplicitPaths(b) {
      var i :| 0 <= i < |a| && a[i].path == p;
      assert a[i] in b;
      var k :| 0 <= k < |b| && b[k] == a[i];
      assert b[k].path == p;
    }
  }

  lemma SamePaths(a: seq<Item>, b: seq<Item>)
    requires multiset(a) == multiset(b)
    ensures AllPaths(a) == AllPaths(b) && FilePaths(a) == FilePaths(b) && ExplicitPaths(a) == ExplicitPaths(b)
  {
    forall x | x in a ensures x in b { assert x in multiset(a); assert x in multiset(b); }
    forall x | x in b ensures x in a { assert x in multiset(b); assert x in multiset(a); }
    PathsIncluded(a, b);
    PathsIncluded(b, a);
  }

  lemma SeparateRearranged(a: seq<Item>, b: seq<Item>)
    requires multiset(a) == multiset(b) && Separate(a)
    ensures Separate(b)
  {
    var pi := Rearrangement(a, b);
    forall i, j | 0 <= i < |b| && 0 <= j < |b| && i != j
      ensures b[i].path != b[j].path && !(b[i].kind.File? && b[i].path < b[j].path)
    {
      assert pi[i] != pi[j];
      assert b[i] == a[pi[i]] && b[j] == a[pi[j]];
    }
  }

  lemma AllFineRearranged(cfg: Config, es: seq<ArchiveEntry>, fs: seq<ArchiveEntry>)
    requires multiset(es) == multiset(fs) && AllFine(cfg, es)
    ensures AllFine(cfg, fs)
  {
    forall i | 0 <= i < |fs| ensures EntryFine(cfg, fs[i]) {
      assert fs[i] in multiset(es);
      var j :| 0 <= j < |es| && es[j] == fs[i];
    }
  }

  lemma AcceptableRearranged(cfg: Config, es: seq<ArchiveEntry>, fs: seq<ArchiveEntry>)
    requires multiset(es) == multiset(fs) && Acceptable(cfg, es)
    ensures Acceptable(cfg, fs)
  {
    AllFineRearranged(cfg, es, fs);
    SameItems(cfg, es, fs);
    SamePlan(Items(cfg, es), Items(cfg, fs));
    SeparateRearranged(Items(cfg, es), Items(cfg, fs));
  }

  lemma SameTree(a: seq<Item>, b: seq<Item>, all: set<Path>, s: Tree, t: Tree)
    requires multiset(a) == multiset(b) && HoldsBodies(a, s) && HoldsBodies(b, t)
    requires FoldersElsewhere(all, FilePaths(a), s) && FoldersElsewhere(all, FilePaths(a), t)
    ensures s == t
  {
    forall p | p in s ensures s[p] == t[p] {
      if p in FilePaths(a) {
        var i :| 0 <= i < |a| && a[i].kind.File? && a[i].path == p;
        assert a[i] in multiset(a) && a[i] in multiset(b);
        var j :| 0 <= j < |b| && b[j] == a[i];
      }
    }
  }

  lemma SameEntries(all: set<Path>, files: set<Path>, explicit: set<Path>, s: map<Path, Recorded>, t: map<Path, Recorded>)
    requires RecordsSets(all, files, explicit, s) && RecordsSets(all, files, explicit, t)
    ensures s == t
  {
    forall p | p in s ensures s[p] == t[p] {
      assert s[p].kind == t[p].kind && s[p].explicit == t[p].explicit;
    }
  }

  lemma SamePlan(a: seq<Item>, b: seq<Item>)
    requires multiset(a) == multiset(b)
    ensures PlanOf(a) == PlanOf(b)
  {
    SamePaths(a, b);
    SameFileBytes(a, b);
  }

  /** Items call for one state, whatever their order. */
  lemma StateUnique(a: seq<Item>, b: seq<Item>, s: State, t: State)
    requires multiset(a) == multiset(b)
    requires s in StatesFor(a) && t in StatesFor(b)
    ensures s == t
  {
    SamePlan(a, b);
    SameTree(a, b, AllPaths(a), s.tree, t.tree);
    SameEntries(AllPaths(a), FilePaths(a), ExplicitPaths(a), s.entries, t.entries);
  }

  /** Rearranging the entries of an archive changes neither whether it is accepted nor anything
      that is recorded, charged or staged. */
  lemma OrderDoesNotMatter(cfg: Config, es: seq<ArchiveEntry>, fs: seq<ArchiveEntry>)
    requires cfg.maxCharge >= DIRECTORY_QUOTA_BYTES && multiset(es) == multiset(fs)
    ensures Fold(cfg, es).Ok? <==> Fold(cfg, fs).Ok?
    ensures Fold(cfg, es).Ok? ==> Fold(cfg, es) == Fold(cfg, fs)
  {
    FoldsItems(cfg, es);
    FoldsItems(cfg, fs);
    if Acceptable(cfg, es) {
      AcceptableRearranged(cfg, es, fs);
      SameItems(cfg, es, fs);
      StateUnique(Items(cfg, es), Items(cfg, fs), Fold(cfg, es).value, Fold(cfg, fs).value);
    } else if Acceptable(cfg, fs) {
      AcceptableRearranged(cfg, fs, es);
    }
  }
}
