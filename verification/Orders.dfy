/** The byte-wise order of names (`str` comparison), and sorting by a strict order (`sort_by`). */
module Orders {
  import opened VirtualPaths

  predicate NameBefore(a: Bytes, b: Bytes) {
    if a == [] then b != []
    else b != [] && (a[0] < b[0] || (a[0] == b[0] && NameBefore(a[1..], b[1..])))
  }

  lemma {:induction false} NameBeforeIsStrictOrder(a: Bytes, b: Bytes, c: Bytes)
    ensures !NameBefore(a, a) && (NameBefore(a, b) ==> !NameBefore(b, a))
    ensures a != b ==> NameBefore(a, b) || NameBefore(b, a)
    ensures NameBefore(a, b) && NameBefore(b, c) ==> NameBefore(a, c)
  {
    if a != [] {
      NameBeforeIsStrictOrder(a[1..], if b == [] then [] else b[1..], if c == [] then [] else c[1..]);
      assert b != [] && a != b && a[0] == b[0] ==> a[1..] != b[1..] by {
        assert a == [a[0]] + a[1..] && (b != [] ==> b == [b[0]] + b[1..]);
      }
    }
  }

  /** A name comes before another exactly if it is a proper beginning of it, or has the smaller byte
      where they first differ. */
  lemma {:induction false} NameBeforeIff(a: Bytes, b: Bytes)
    ensures NameBefore(a, b) <==> a < b || SmallerByte(a, b)
  {
    if a != [] && b != [] {
      assert a == [a[0]] + a[1..] && b == [b[0]] + b[1..];
      if a[0] == b[0] {
        NameBeforeIff(a[1..], b[1..]);
        SmallerByteBehind(a, b);
      } else {
        SmallerByteFirst(a, b);
      }
    }
  }

  ghost predicate SmallerByte(a: Bytes, b: Bytes) {
    exists i :: DiffersAt(a, b, i) && a[i] < b[i]
  }

  lemma SmallerByteFirst(a: Bytes, b: Bytes)
    requires a != [] && b != [] && a[0] != b[0]
    ensures SmallerByte(a, b) <==> a[0] < b[0]
  {
    assert DiffersAt(a, b, 0);
    if SmallerByte(a, b) {
      var i :| DiffersAt(a, b, i) && a[i] < b[i];
      assert i > 0 ==> a[..i][0] == b[..i][0];
    }
  }

  lemma SmallerByteBehind(a: Bytes, b: Bytes)
    requires a != [] && b != [] && a[0] == b[0]
    ensures SmallerByte(a, b) <==> SmallerByte(a[1..], b[1..])
  {
    var s, t := a[1..], b[1..];
    if SmallerByte(a, b) {
      var i :| DiffersAt(a, b, i) && a[i] < b[i];
      assert s[..i - 1] == a[..i][1..] && t[..i - 1] == b[..i][1..];
      assert DiffersAt(s, t, i - 1);
    }
    if SmallerByte(s, t) {
      var j :| DiffersAt(s, t, j) && s[j] < t[j];
      assert a[..j + 1] == [a[0]] + s[..j] && b[..j + 1] == [b[0]] + t[..j];
      assert DiffersAt(a, b, j + 1);
    }
  }

  predicate DiffersAt(a: Bytes, b: Bytes, i: int) {
    0 <= i < |a| && i < |b| && a[..i] == b[..i] && a[i] != b[i]
  }

  // ---- sorting ----

  type Order<!T> = (T, T) -> bool

  ghost predicate IsOrder<T(!new)>(before: Order<T>) {
    && (forall a :: !before(a, a))
    && (forall a, b, c :: before(a, b) && before(b, c) ==> before(a, c))
  }

  ghost predicate StrictlySorted<T>(before: Order<T>, s: seq<T>) {
    forall i, j :: 0 <= i < j < |s| ==> before(s[i], s[j])
  }

  /** Any two elements come in some order. */
  ghost predicate Comparable<T>(before: Order<T>, s: seq<T>) {
    forall i, j :: 0 <= i < j < |s| ==> before(s[i], s[j]) || before(s[j], s[i])
  }

  function Insert<T>(before: Order<T>, e: T, s: seq<T>): seq<T> {
    if s == [] || before(e, s[0]) then [e] + s else [s[0]] + Insert(before, e, s[1..])
  }

  function Sort<T>(before: Order<T>, s: seq<T>): seq<T> {
    if s == [] then [] else Insert(before, s[0], Sort(before, s[1..]))
  }

  lemma {:induction false} InsertKeeps<T>(before: Order<T>, e: T, s: seq<T>)
    ensures multiset(Insert(before, e, s)) == multiset{e} + multiset(s)
  {
    if s != [] && !before(e, s[0]) {
      InsertKeeps(before, e, s[1..]);
      assert s == [s[0]] + s[1..];
    }
  }

  lemma {:induction false} SortKeeps<T>(before: Order<T>, s: seq<T>)
    ensures multiset(Sort(before, s)) == multiset(s) && |Sort(before, s)| == |s|
  {
    if s != [] {
      SortKeeps(before, s[1..]);
      InsertKeeps(before, s[0], Sort(before, s[1..]));
      assert s == [s[0]] + s[1..];
    }
    assert |Sort(before, s)| == |multiset(Sort(before, s))| == |s|;
  }

  lemma {:induction false} InsertSorts<T(!new)>(before: Order<T>, e: T, s: seq<T>)
    requires IsOrder(before) && StrictlySorted(before, s)
    requires forall x :: x in s ==> before(e, x) || before(x, e)
    ensures StrictlySorted(before, Insert(before, e, s))
  {
    if s == [] {
    } else if before(e, s[0]) {
      forall i | 0 < i < |s| ensures before(e, s[i]) {
        assert before(s[0], s[i]);
      }
    } else {
      InsertSorts(before, e, s[1..]);
      InsertKeeps(before, e, s[1..]);
      var rest := Insert(before, e, s[1..]);
      assert s[0] in s;
      forall i | 0 <= i < |rest| ensures before(s[0], rest[i]) {
        assert rest[i] in multiset(rest);
        assert rest[i] == e || rest[i] in s[1..];
      }
    }
  }

  lemma {:induction false} SortSorts<T(!new)>(before: Order<T>, s: seq<T>)
    requires IsOrder(before) && Comparable(before, s)
    ensures StrictlySorted(before, Sort(before, s))
  {
    if s != [] {
      SortSorts(before, s[1..]);
      SortKeeps(before, s[1..]);
      var rest := Sort(before, s[1..]);
      forall x | x in rest ensures before(s[0], x) || before(x, s[0]) {
        assert x in multiset(rest);
        assert x in s[1..];
      }
      InsertSorts(before, s[0], rest);
    }
  }

  /** The first of one order is not after the first of the other. */
  lemma FirstIsFirst<T>(before: Order<T>, s: seq<T>, t: seq<T>)
    requires StrictlySorted(before, s) && s != [] && t != [] && multiset(s) == multiset(t)
    ensures t[0] == s[0] || before(s[0], t[0])
  {
    assert t[0] in multiset(s);
    var j :| 0 <= j < |s| && s[j] == t[0];
  }

  lemma TailsAgree<T>(s: seq<T>, t: seq<T>)
    requires s != [] && t != [] && s[0] == t[0] && multiset(s) == multiset(t)
    ensures multiset(s[1..]) == multiset(t[1..])
  {
    assert s == [s[0]] + s[1..] && t == [t[0]] + t[1..];
    assert multiset(s[1..]) == multiset(s) - multiset{s[0]};
    assert multiset(t[1..]) == multiset(t) - multiset{t[0]};
  }

  /** There is only one way to put things in order. */
  lemma {:induction false} SortedIsUnique<T(!new)>(before: Order<T>, s: seq<T>, t: seq<T>)
    requires IsOrder(before) && StrictlySorted(before, s) && StrictlySorted(before, t) && multiset(s) == multiset(t)
    ensures s == t
  {
    assert |s| == |multiset(s)| == |t|;
    if s != [] {
      FirstIsFirst(before, s, t);
      FirstIsFirst(before, t, s);
      TailsAgree(s, t);
      SortedIsUnique(before, s[1..], t[1..]);
      assert s == [s[0]] + s[1..] && t == [t[0]] + t[1..];
    }
  }
}
