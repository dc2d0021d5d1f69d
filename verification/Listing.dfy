/**
 Paged directory listings (src/browse.rs, `list_directory`, `listing_fingerprint`): filter, sort,
 find the page a cursor points at, and hand out the cursor of the next one.
 */
module Listings {
  import opened Common
  import opened VirtualPaths
  import opened Cursors
  import opened Orders

  datatype Kind = Directory | File

  datatype Entry = Entry(kind: Kind, name: Text, fileId: U64, size: nat)

  /** What the handler is configured with, and the directory it is asked for. */
  datatype Env = Env(mac: Mac, hash: Bytes -> Hash, context: Context, maxPageSize: nat, showHidden: bool)

  datatype Error = InvalidRequest | Conflict

  datatype Page = Page(entries: seq<Entry>, next: Option<Bytes>)

  datatype Response = Ok(page: Page) | Err(error: Error)

  /** Names in one directory are distinct, and there are fewer than `u64` holds. */
  ghost predicate IsDirectory(entries: seq<Entry>) {
    && |entries| < U64_LIMIT
    && forall i, j :: 0 <= i < j < |entries| ==> entries[i].name != entries[j].name
  }

  // ---- order ----

  function KindOrder(kind: Kind): Byte {
    match kind case Directory => 0 case File => 1
  }

  predicate Before(a: Entry, b: Entry) {
    KindOrder(a.kind) < KindOrder(b.kind) || (a.kind == b.kind && NameBefore(a.name, b.name))
  }

  // ---- the listing ----

  predicate IsHidden(e: Entry) {
    e.name != [] && e.name[0] == DOT
  }

  function Visible(entries: seq<Entry>): seq<Entry> {
    if entries == [] then []
    else (if IsHidden(entries[0]) then [] else [entries[0]]) + Visible(entries[1..])
  }

  function Shown(env: Env, entries: seq<Entry>): seq<Entry> {
    if env.showHidden then entries else Visible(entries)
  }

  function Listing(env: Env, entries: seq<Entry>): seq<Entry> {
    Sort(Before, Shown(env, entries))
  }

  /** One entry in the bytes that `listing_fingerprint` hashes. */
  function EntryBytes(e: Entry): Bytes {
    [KindOrder(e.kind)] + (Framed(e.name) + Be64(e.fileId))
  }

  function EntriesBytes(s: seq<Entry>): Bytes {
    if s == [] then [] else EntryBytes(s[0]) + EntriesBytes(s[1..])
  }

  function FingerprintInput(s: seq<Entry>): Bytes
    requires |s| < U64_LIMIT
  {
    Be64(|s|) + EntriesBytes(s)
  }

  // ---- the handler ----

  /** `list_directory`, given the entries as the directory was read. */
  function Respond(env: Env, entries: seq<Entry>, cursor: Option<Bytes>, limit: nat): Response
    requires IsContext(env.context) && |Listing(env, entries)| < U64_LIMIT
  {
    if limit == 0 || limit > env.maxPageSize then Err(InvalidRequest)
    else
      var listing := Listing(env, entries);
      var fingerprint := env.hash(FingerprintInput(listing));
      var offset := if cursor.Some? then Decode(env.mac, cursor.value, env.context, fingerprint) else Some(0);
      if offset.None? || offset.value > |listing| then Err(Conflict)
      else
        var end := Min(offset.value + limit, |listing|);
        var next := if end < |listing| then Some(Encode(env.mac, env.context, end, fingerprint)) else None;
        Ok(Page(listing[offset.value..end], next))
  }

  // ---- sorting ----

  lemma BeforeIsOrder()
    ensures IsOrder(Before)
  {
    forall a: Entry, b: Entry, c: Entry
      ensures !Before(a, a) && (Before(a, b) && Before(b, c) ==> Before(a, c))
    {
      NameBeforeIsStrictOrder(a.name, b.name, c.name);
    }
  }

  lemma DistinctNamesCompare(entries: seq<Entry>)
    requires IsDirectory(entries)
    ensures Comparable(Before, entries)
  {
    forall i, j | 0 <= i < j < |entries| ensures Before(entries[i], entries[j]) || Before(entries[j], entries[i]) {
      NameBeforeIsStrictOrder(entries[i].name, entries[j].name, []);
    }
  }

  lemma FirstInBag(entries: seq<Entry>, e: Entry)
    requires entries != []
    ensures multiset(entries)[e] == multiset(entries[1..])[e] + (if entries[0] == e then 1 else 0)
  {
    assert entries == [entries[0]] + entries[1..];
  }

  lemma {:induction false} VisibleKeeps(entries: seq<Entry>, e: Entry)
    ensures multiset(Visible(entries))[e] == if IsHidden(e) then 0 else multiset(entries)[e]
  {
    if entries != [] {
      VisibleKeeps(entries[1..], e);
      FirstInBag(entries, e);
      if !IsHidden(entries[0]) {
        assert Visible(entries)[1..] == Visible(entries[1..]);
        FirstInBag(Visible(entries), e);
      }
    }
  }

  lemma {:induction false} VisibleIsDistinct(entries: seq<Entry>)
    requires IsDirectory(entries)
    ensures IsDirectory(Visible(entries)) && |Visible(entries)| <= |entries|
    ensures forall e :: e in Visible(entries) ==> e in entries
  {
    if entries != [] {
      VisibleIsDistinct(entries[1..]);
      var rest := Visible(entries[1..]);
      forall j | 0 <= j < |rest| ensures rest[j].name != entries[0].name {
        assert rest[j] in entries[1..];
      }
    }
  }

  /** The listing has every shown entry once, in strict order. */
  lemma ListingIsSorted(env: Env, entries: seq<Entry>)
    requires IsDirectory(entries)
    ensures StrictlySorted(Before, Listing(env, entries)) && |Listing(env, entries)| < U64_LIMIT
    ensures forall e :: multiset(Listing(env, entries))[e]
                        == if !env.showHidden && IsHidden(e) then 0 else multiset(entries)[e]
  {
    VisibleIsDistinct(entries);
    var shown := Shown(env, entries);
    SortKeeps(Before, shown);
    BeforeIsOrder();
    DistinctNamesCompare(shown);
    SortSorts(Before, shown);
    forall e ensures multiset(shown)[e] == if !env.showHidden && IsHidden(e) then 0 else multiset(entries)[e] {
      VisibleKeeps(entries, e);
    }
  }

  /** Directories come first, then files, each by rising names. An entry is listed exactly when it is in
      the directory and hidden entries are shown or its name does not begin with a dot. */
  lemma ListingOrder(env: Env, entries: seq<Entry>)
    requires IsDirectory(entries)
    ensures
      var listing := Listing(env, entries);
      && (forall i, j :: 0 <= i < j < |listing| ==>
            && (listing[i].kind.File? ==> listing[j].kind.File?)
            && (listing[i].kind == listing[j].kind ==> NameBefore(listing[i].name, listing[j].name)))
      && forall e :: e in listing <==> e in entries && (env.showHidden || e.name == [] || e.name[0] != 46)
  {
    ListingIsSorted(env, entries);
    var listing := Listing(env, entries);
    forall i, j | 0 <= i < j < |listing|
      ensures listing[i].kind.File? ==> listing[j].kind.File?
      ensures listing[i].kind == listing[j].kind ==> NameBefore(listing[i].name, listing[j].name)
    {
      assert Before(listing[i], listing[j]);
    }
    forall e ensures e in listing <==> e in entries && (env.showHidden || !IsHidden(e)) {
      assert e in listing <==> multiset(listing)[e] > 0;
      assert e in entries <==> multiset(entries)[e] > 0;
    }
  }

  /** The order in which the directory was read does not matter. */
  lemma ListingIgnoresReadOrder(env: Env, a: seq<Entry>, b: seq<Entry>)
    requires IsDirectory(a) && IsDirectory(b) && multiset(a) == multiset(b)
    ensures Listing(env, a) == Listing(env, b)
  {
    ListingIsSorted(env, a);
    ListingIsSorted(env, b);
    var m, n := multiset(Listing(env, a)), multiset(Listing(env, b));
    assert forall e :: m[e] == n[e];
    assert m == n;
    BeforeIsOrder();
    SortedIsUnique(Before, Listing(env, a), Listing(env, b));
  }

  // ---- the fingerprint ----

  /** What of an entry the fingerprint covers: not its size. */
  function Covered(e: Entry): (Kind, Text, U64) {
    (e.kind, e.name, e.fileId)
  }

  lemma EntryBytesUnambiguous(a: Entry, b: Entry, x: Bytes, y: Bytes)
    requires EntryBytes(a) + x == EntryBytes(b) + y
    ensures Covered(a) == Covered(b) && x == y
  {
    EntryBytesThen(a, x);
    EntryBytesThen(b, y);
    FramedIsUnambiguous(a.name, b.name, Be64(a.fileId) + x, Be64(b.fileId) + y);
    Be64IsUnambiguous(a.fileId, b.fileId, x, y);
  }

  lemma EntryBytesThen(e: Entry, x: Bytes)
    ensures (EntryBytes(e) + x)[0] == KindOrder(e.kind)
    ensures (EntryBytes(e) + x)[1..] == Framed(e.name) + (Be64(e.fileId) + x)
  {
  }

  lemma Be64IsUnambiguous(a: U64, b: U64, x: Bytes, y: Bytes)
    requires Be64(a) + x == Be64(b) + y
    ensures a == b && x == y
  {
    var u, v := Be64(a) + x, Be64(b) + y;
    assert u[..8] == Be64(a) && v[..8] == Be64(b) && u[8..] == x && v[8..] == y;
    Be64Injective(a, b);
  }

  lemma {:induction false} EntriesBytesInjective(s: seq<Entry>, t: seq<Entry>)
    requires |s| == |t| && EntriesBytes(s) == EntriesBytes(t)
    ensures forall i :: 0 <= i < |s| ==> Covered(s[i]) == Covered(t[i])
  {
    if s != [] {
      EntryBytesUnambiguous(s[0], t[0], EntriesBytes(s[1..]), EntriesBytes(t[1..]));
      EntriesBytesInjective(s[1..], t[1..]);
      forall i | 0 < i < |s| ensures Covered(s[i]) == Covered(t[i]) {
        assert s[i] == s[1..][i - 1] && t[i] == t[1..][i - 1];
      }
    }
  }

  /** Two listings are hashed as the same bytes exactly when their kinds, names and identities agree. */
  lemma FingerprintInputExact(s: seq<Entry>, t: seq<Entry>)
    requires |s| < U64_LIMIT && |t| < U64_LIMIT
    ensures FingerprintInput(s) == FingerprintInput(t)
       <==> |s| == |t| && forall i :: 0 <= i < |s| ==> Covered(s[i]) == Covered(t[i])
  {
    if FingerprintInput(s) == FingerprintInput(t) {
      assert FingerprintInput(s)[..8] == Be64(|s|) && FingerprintInput(t)[..8] == Be64(|t|);
      assert FingerprintInput(s)[8..] == EntriesBytes(s) && FingerprintInput(t)[8..] == EntriesBytes(t);
      Be64Injective(|s|, |t|);
      EntriesBytesInjective(s, t);
    } else if |s| == |t| && forall i :: 0 <= i < |s| ==> Covered(s[i]) == Covered(t[i]) {
      SameEntriesBytes(s, t);
    }
  }

  lemma {:induction false} SameEntriesBytes(s: seq<Entry>, t: seq<Entry>)
    requires |s| == |t| && forall i :: 0 <= i < |s| ==> Covered(s[i]) == Covered(t[i])
    ensures EntriesBytes(s) == EntriesBytes(t)
  {
    if s != [] {
      assert Covered(s[0]) == Covered(t[0]);
      SameEntriesBytes(s[1..], t[1..]);
    }
  }

  // ---- following cursors ----

  /** The cursor that the request for page `i` carries. */
  function CursorFor(pages: seq<Page>, i: nat): Option<Bytes>
    requires i <= |pages|
  {
    if i == 0 then None else pages[i - 1].next
  }

  ghost predicate Answers(env: Env, dir: seq<Entry>, cursor: Option<Bytes>, limit: nat, page: Page) {
    && IsContext(env.context) && IsDirectory(dir) && |Listing(env, dir)| < U64_LIMIT
    && Respond(env, dir, cursor, limit) == Ok(page)
  }

  /** A client's requests: page limits, and the directory in whatever order each request read it. */
  ghost predicate IsWalk(env: Env, dirs: seq<seq<Entry>>, limits: seq<nat>, pages: seq<Page>) {
    && |dirs| == |limits| == |pages| > 0
    && (forall i :: 0 <= i < |dirs| ==> multiset(dirs[i]) == multiset(dirs[0]))
    && (forall i :: 0 <= i < |pages| ==> Answers(env, dirs[i], CursorFor(pages, i), limits[i], pages[i]))
    && (forall i :: 0 < i < |pages| ==> CursorFor(pages, i).Some?)
  }

  function Concat(pages: seq<Page>): seq<Entry> {
    if pages == [] then [] else Concat(pages[..|pages| - 1]) + pages[|pages| - 1].entries
  }

  /** The cursor after `done` entries. */
  ghost function CursorAt(env: Env, listing: seq<Entry>, done: nat): Option<Bytes>
    requires IsContext(env.context) && done <= |listing| < U64_LIMIT
  {
    if done < |listing| then Some(Encode(env.mac, env.context, done, env.hash(FingerprintInput(listing)))) else None
  }

  /** A request with the cursor after `done` entries gets the entries that follow. */
  lemma NextPage(env: Env, entries: seq<Entry>, done: nat, cursor: Option<Bytes>, limit: nat)
    requires IsContext(env.context) && done <= |Listing(env, entries)| < U64_LIMIT && 0 < limit <= env.maxPageSize
    requires if done == 0 then cursor.None? else cursor.Some? && cursor == CursorAt(env, Listing(env, entries), done)
    ensures
      var listing := Listing(env, entries);
      var end := Min(done + limit, |listing|);
      Respond(env, entries, cursor, limit) == Ok(Page(listing[done..end], CursorAt(env, listing, end)))
  {
    var listing := Listing(env, entries);
    if cursor.Some? {
      DecodeExactlyInvertsEncode(env.mac, cursor.value, env.context, env.hash(FingerprintInput(listing)), done);
    }
  }

  /** After some pages: the listing so far, at least one entry a page, and the cursor of the rest. */
  ghost predicate Progress(env: Env, listing: seq<Entry>, pages: seq<Page>)
    requires IsContext(env.context) && |listing| < U64_LIMIT
  {
    var done := |Concat(pages)|;
    && done <= |listing| && Concat(pages) == listing[..done]
    && (|pages| <= done || (listing == [] && |pages| == 1))
    && (pages != [] ==> pages[|pages| - 1].next == CursorAt(env, listing, done))
  }

  lemma ConcatSnoc(pages: seq<Page>, page: Page)
    ensures Concat(pages + [page]) == Concat(pages) + page.entries
  {
    assert (pages + [page])[..|pages|] == pages;
  }

  lemma ProgressSnoc(env: Env, listing: seq<Entry>, pages: seq<Page>, end: nat)
    requires IsContext(env.context) && |listing| < U64_LIMIT && Progress(env, listing, pages)
    requires |Concat(pages)| <= end <= |listing| && (|Concat(pages)| < end || (pages == [] && listing == []))
    ensures Progress(env, listing, pages + [Page(listing[|Concat(pages)|..end], CursorAt(env, listing, end))])
  {
    var page := Page(listing[|Concat(pages)|..end], CursorAt(env, listing, end));
    ConcatSnoc(pages, page);
    assert Concat(pages) + page.entries == listing[..end];
  }

  lemma PageMakesProgress(env: Env, dir: seq<Entry>, limit: nat, listing: seq<Entry>, pages: seq<Page>, cursor: Option<Bytes>, page: Page)
    requires Answers(env, dir, cursor, limit, page) == true && cursor == CursorFor(pages, |pages|)
    requires IsContext(env.context) && listing == Listing(env, dir) && |listing| < U64_LIMIT
    requires Progress(env, listing, pages) == true && (pages != [] ==> cursor.Some?)
    ensures Progress(env, listing, pages + [page]) == true
  {
    var done := |Concat(pages)|;
    assert 0 < limit <= env.maxPageSize;
    NextPage(env, dir, done, cursor, limit);
    ProgressSnoc(env, listing, pages, Min(done + limit, |listing|));
  }

  lemma WalkReadsOneListing(env: Env, dirs: seq<seq<Entry>>, limits: seq<nat>, pages: seq<Page>, n: nat)
    requires IsWalk(env, dirs, limits, pages) && n < |pages|
    ensures Answers(env, dirs[n], CursorFor(pages, n), limits[n], pages[n]) == true
    ensures IsContext(env.context) && IsDirectory(dirs[0]) && |Listing(env, dirs[0])| < U64_LIMIT
    ensures Listing(env, dirs[n]) == Listing(env, dirs[0]) && (n > 0 ==> CursorFor(pages, n).Some?)
  {
    assert Answers(env, dirs[0], CursorFor(pages, 0), limits[0], pages[0]);
    assert Answers(env, dirs[n], CursorFor(pages, n), limits[n], pages[n]);
    ListingIgnoresReadOrder(env, dirs[n], dirs[0]);
  }

  lemma TakeOneMore(pages: seq<Page>, n: nat)
    requires 0 < n <= |pages|
    ensures pages[..n] == pages[..n - 1] + [pages[n - 1]]
  {
  }

  lemma OneMorePage(env: Env, dirs: seq<seq<Entry>>, limits: seq<nat>, pages: seq<Page>, n: nat)
    requires IsWalk(env, dirs, limits, pages) && 0 < n <= |pages|
    requires IsContext(env.context) && |Listing(env, dirs[0])| < U64_LIMIT
    requires Progress(env, Listing(env, dirs[0]), pages[..n - 1]) == true
    ensures Progress(env, Listing(env, dirs[0]), pages[..n]) == true
  {
    WalkReadsOneListing(env, dirs, limits, pages, n - 1);
    PageMakesProgress(env, dirs[n - 1], limits[n - 1], Listing(env, dirs[0]), pages[..n - 1], CursorFor(pages, n - 1), pages[n - 1]);
    TakeOneMore(pages, n);
  }

  lemma {:induction false} ProgressUpTo(env: Env, dirs: seq<seq<Entry>>, limits: seq<nat>, pages: seq<Page>, n: nat)
    requires IsWalk(env, dirs, limits, pages) && n <= |pages|
    requires IsContext(env.context) && |Listing(env, dirs[0])| < U64_LIMIT
    ensures Progress(env, Listing(env, dirs[0]), pages[..n]) == true
  {
    if n > 0 {
      ProgressUpTo(env, dirs, limits, pages, n - 1);
      OneMorePage(env, dirs, limits, pages, n);
    }
  }

  lemma WalkMakesProgress(env: Env, dirs: seq<seq<Entry>>, limits: seq<nat>, pages: seq<Page>)
    requires IsWalk(env, dirs, limits, pages)
    ensures IsContext(env.context) && IsDirectory(dirs[0]) && |Listing(env, dirs[0])| < U64_LIMIT
    ensures Progress(env, Listing(env, dirs[0]), pages)
  {
    WalkReadsOneListing(env, dirs, limits, pages, 0);
    ProgressUpTo(env, dirs, limits, pages, |pages|);
    assert pages[..|pages|] == pages;
  }

  lemma FinishedWalkIsTheListing(env: Env, dirs: seq<seq<Entry>>, limits: seq<nat>, pages: seq<Page>)
    requires IsWalk(env, dirs, limits, pages) && pages[|pages| - 1].next.None?
    ensures Concat(pages) == Listing(env, dirs[0]) && IsDirectory(dirs[0])
  {
    WalkMakesProgress(env, dirs, limits, pages);
  }

  /** Following cursors to the end yields every shown entry exactly once, in order. */
  lemma WalkIsComplete(env: Env, dirs: seq<seq<Entry>>, limits: seq<nat>, pages: seq<Page>)
    requires IsWalk(env, dirs, limits, pages) && pages[|pages| - 1].next.None?
    ensures StrictlySorted(Before, Concat(pages))
    ensures forall e :: multiset(Concat(pages))[e]
                        == if !env.showHidden && IsHidden(e) then 0 else multiset(dirs[0])[e]
  {
    FinishedWalkIsTheListing(env, dirs, limits, pages);
    ListingIsSorted(env, dirs[0]);
  }

  /** It takes no more pages than there are entries to show, or one. */
  lemma WalkTerminates(env: Env, dirs: seq<seq<Entry>>, limits: seq<nat>, pages: seq<Page>)
    requires IsWalk(env, dirs, limits, pages)
    ensures |pages| == 1 || |pages| <= |Listing(env, dirs[0])|
  {
    WalkMakesProgress(env, dirs, limits, pages);
  }

  /** Until the end, the next request succeeds for any limit allowed, however the directory is read. */
  lemma WalkGoesOn(env: Env, dirs: seq<seq<Entry>>, limits: seq<nat>, pages: seq<Page>, dir: seq<Entry>, limit: nat) returns (page: Page)
    requires IsWalk(env, dirs, limits, pages) && pages[|pages| - 1].next.Some?
    requires IsDirectory(dir) && multiset(dir) == multiset(dirs[0]) && 0 < limit <= env.maxPageSize
    ensures Answers(env, dir, pages[|pages| - 1].next, limit, page)
  {
    WalkMakesProgress(env, dirs, limits, pages);
    ListingIgnoresReadOrder(env, dir, dirs[0]);
    NextPage(env, dir, |Concat(pages)|, pages[|pages| - 1].next, limit);
    page := Respond(env, dir, pages[|pages| - 1].next, limit).page;
  }
}
