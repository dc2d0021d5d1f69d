/**
 The session table (src/auth.rs, `SessionStore`, `validate_session`, `authenticate`): rotation
 with expiry purge and caps, and validation, touching and deletion as separate steps. Each SQL
 transaction is one atomic change of a map from session key to row. A key is the digest's value
 as a number, which orders like the fixed-length hexadecimal text that SQL sorts by.
 */
module Sessions {
  import opened Common
  import opened RateLimits

  type Key = nat

  type User = string

  datatype Row = Row(user: User, createdAt: Seconds, lastSeenAt: Seconds, expiresAt: Seconds)

  type Table = map<Key, Row>

  function SaturatingAdd(a: Seconds, b: Seconds): Seconds {
    if a + b < I64_MIN then I64_MIN else if a + b > I64_MAX then I64_MAX else a + b
  }

  // ---- rotation ----

  datatype Rotation = Rotation(
    oldKey: Option<Key>, newKey: Key, user: User, now: Seconds, expiresAt: Seconds, idleCutoff: Seconds,
    maxPerUser: nat, maxTotal: nat)

  /** The ORDER BY: last seen, then created, then key, all descending. */
  predicate Ahead(table: Table, a: Key, b: Key)
    requires a in table && b in table
  {
    || table[a].lastSeenAt > table[b].lastSeenAt
    || (table[a].lastSeenAt == table[b].lastSeenAt && table[a].createdAt > table[b].createdAt)
    || (table[a].lastSeenAt == table[b].lastSeenAt && table[a].createdAt == table[b].createdAt && a > b)
  }

  /** How many rows of the scope come before `k`. */
  function Rank(table: Table, scope: set<Key>, k: Key): nat
    requires scope <= table.Keys && k in table
  {
    |set j | j in scope && Ahead(table, j, k)|
  }

  /** `DELETE ... LIMIT -1 OFFSET n`: the scope keeps its first `n` rows. */
  function KeepFirst(table: Table, scope: set<Key>, n: nat): Table
    requires scope <= table.Keys
  {
    map k | k in table && (k in scope ==> Rank(table, scope, k) < n) :: table[k]
  }

  function OfUser(table: Table, user: User): set<Key> {
    set k | k in table && table[k].user == user
  }

  /** What the purge deletes. */
  predicate Purged(row: Row, now: Seconds, idleCutoff: Seconds) {
    row.expiresAt <= now || row.lastSeenAt <= idleCutoff
  }

  function Purge(table: Table, now: Seconds, idleCutoff: Seconds): Table {
    map k | k in table && !Purged(table[k], now, idleCutoff) :: table[k]
  }

  /** What the first two statements leave. */
  function Unexpired(table: Table, oldKey: Option<Key>, now: Seconds, idleCutoff: Seconds): Table {
    Purge(if oldKey.Some? then table - {oldKey.value} else table, now, idleCutoff)
  }

  function Decrement(n: nat): nat {
    if n == 0 then 0 else n - 1
  }

  /** The third and fourth statements: the user's cap, then everyone's. */
  function Capped(table: Table, user: User, perUser: nat, total: nat): Table {
    var ofUser := KeepFirst(table, OfUser(table, user), perUser);
    KeepFirst(ofUser, ofUser.Keys, total)
  }

  /** The rows that survive a rotation, before the new one is inserted. */
  function Survivors(table: Table, r: Rotation): Table {
    Capped(Unexpired(table, r.oldKey, r.now, r.idleCutoff), r.user, Decrement(r.maxPerUser), Decrement(r.maxTotal))
  }

  function NewRow(r: Rotation): Row {
    Row(r.user, r.now, r.now, r.expiresAt)
  }

  /** `rotate`: `None` when the key is taken, in which case the transaction is rolled back. */
  function Rotated(table: Table, r: Rotation): Option<Table> {
    var survivors := Survivors(table, r);
    if r.newKey in survivors then None else Some(survivors[r.newKey := NewRow(r)])
  }

  class SessionStore {
    var rows: Table

    constructor ()
      ensures rows == map[]
    {
      rows := map[];
    }

    /** The transaction, statement by statement; a failed insert undoes the deletions. */
    method Rotate(r: Rotation) returns (done: bool)
      modifies this
      ensures done <==> Rotated(old(rows), r).Some?
      ensures rows == if done then Rotated(old(rows), r).value else old(rows)
    {
      var before := rows;
      DeleteExpired(r.oldKey, r.now, r.idleCutoff);
      DeleteBeyond(OfUser(rows, r.user), Decrement(r.maxPerUser));
      DeleteBeyond(rows.Keys, Decrement(r.maxTotal));
      assert rows == Survivors(before, r);
      if r.newKey in rows {
        rows := before;
        return false;
      }
      rows := rows[r.newKey := NewRow(r)];
      done := true;
    }

    /** The first two statements: the session being replaced, then what has expired. */
    method DeleteExpired(oldKey: Option<Key>, now: Seconds, idleCutoff: Seconds)
      modifies this
      ensures rows == Unexpired(old(rows), oldKey, now, idleCutoff)
    {
      if oldKey.Some? {
        rows := rows - {oldKey.value};
      }
      rows := map k | k in rows && !(rows[k].expiresAt <= now || rows[k].lastSeenAt <= idleCutoff) :: rows[k];
    }

    method DeleteBeyond(scope: set<Key>, n: nat)
      requires scope <= rows.Keys
      modifies this
      ensures rows == KeepFirst(old(rows), scope, n)
    {
      rows := map k | k in rows && (k in scope ==> Rank(rows, scope, k) < n) :: rows[k];
    }

    method Lookup(key: Key) returns (row: Option<Row>)
      ensures row == if key in rows then Some(rows[key]) else None
    {
      row := if key in rows then Some(rows[key]) else None;
    }

    method Touch(key: Key, now: Seconds)
      modifies this
      ensures rows == if key in old(rows) then old(rows)[key := old(rows)[key].(lastSeenAt := now)] else old(rows)
    {
      if key in rows {
        rows := rows[key := rows[key].(lastSeenAt := now)];
      }
    }

    method Delete(key: Key)
      modifies this
      ensures rows == old(rows) - {key}
    {
      rows := rows - {key};
    }
  }

  // ---- caps ----

  /** Some row of a non-empty scope has no row of the scope behind it. */
  lemma {:induction false} LastOf(table: Table, scope: set<Key>) returns (last: Key)
    requires scope <= table.Keys && scope != {}
    ensures last in scope && forall j :: j in scope && j != last ==> Ahead(table, j, last)
    decreases |scope|
  {
    var k :| k in scope;
    if scope == {k} {
      last := k;
    } else {
      var rest := scope - {k};
      var l := LastOf(table, rest);
      last := if Ahead(table, k, l) then l else k;
      forall j | j in scope && j != last ensures Ahead(table, j, last) {
        if j != k && j != l {
          assert j in rest && Ahead(table, j, l);
        }
      }
    }
  }

  /** The rows of a scope with fewer than `n` rows before them. */
  ghost function First(table: Table, scope: set<Key>, n: nat): set<Key>
    requires scope <= table.Keys
  {
    set k | k in scope && Rank(table, scope, k) < n
  }

  /** They are `n`, or all if there are fewer. */
  lemma {:induction false} FirstCount(table: Table, scope: set<Key>, n: nat)
    requires scope <= table.Keys
    ensures |First(table, scope, n)| == if |scope| < n then |scope| else n
    decreases |scope|
  {
    if scope == {} {
      assert First(table, scope, n) == {};
    } else {
      var last := LastOf(table, scope);
      var rest := scope - {last};
      FirstCount(table, rest, n);
      LastChangesNoRank(table, scope, last);
      if |rest| < n {
        assert First(table, scope, n) == First(table, rest, n) + {last};
      } else {
        assert First(table, scope, n) == First(table, rest, n);
      }
    }
  }

  lemma LastChangesNoRank(table: Table, scope: set<Key>, last: Key)
    requires scope <= table.Keys && last in scope
    requires forall j :: j in scope && j != last ==> Ahead(table, j, last)
    ensures Rank(table, scope, last) == |scope - {last}|
    ensures forall k :: k in scope - {last} ==> Rank(table, scope, k) == Rank(table, scope - {last}, k)
  {
    var rest := scope - {last};
    assert (set j | j in scope && Ahead(table, j, last)) == rest;
    forall k | k in rest ensures Rank(table, scope, k) == Rank(table, rest, k) {
      assert (set j | j in scope && Ahead(table, j, k)) == (set j | j in rest && Ahead(table, j, k));
    }
  }

  /** A cap leaves at most `n` rows of its scope, and touches no other row. */
  lemma KeepFirstCaps(table: Table, scope: set<Key>, n: nat)
    requires scope <= table.Keys
    ensures |KeepFirst(table, scope, n).Keys * scope| <= n
    ensures KeepFirst(table, scope, n).Keys - scope == table.Keys - scope
  {
    FirstCount(table, scope, n);
    assert KeepFirst(table, scope, n).Keys * scope == First(table, scope, n);
  }

  ghost predicate WithinCaps(table: Table, maxPerUser: nat, maxTotal: nat) {
    && |table| <= maxTotal
    && forall user :: |OfUser(table, user)| <= maxPerUser
  }

  lemma FewerRowsStayWithin(small: Table, large: Table, maxPerUser: nat, maxTotal: nat)
    requires small.Keys <= large.Keys && (forall k :: k in small ==> small[k].user == large[k].user)
    requires WithinCaps(large, maxPerUser, maxTotal)
    ensures WithinCaps(small, maxPerUser, maxTotal)
  {
    SubsetSize(small.Keys, large.Keys);
    forall user ensures |OfUser(small, user)| <= maxPerUser {
      SubsetSize(OfUser(small, user), OfUser(large, user));
    }
  }

  /** One table's rows are rows of the other, unchanged. */
  ghost predicate Within(small: Table, large: Table) {
    small.Keys <= large.Keys && forall k :: k in small ==> small[k] == large[k]
  }

  /** A capped table holds rows of the original, and at most `n` of the scope. */
  lemma CappedScope(table: Table, scope: set<Key>, n: nat)
    requires scope <= table.Keys
    ensures Within(KeepFirst(table, scope, n), table)
    ensures |KeepFirst(table, scope, n).Keys * scope| <= n
  {
    KeepFirstCaps(table, scope, n);
  }

  lemma CappedUser(table: Table, user: User, n: nat, small: Table)
    requires Within(small, KeepFirst(table, OfUser(table, user), n))
    ensures |OfUser(small, user)| <= n
  {
    var capped := KeepFirst(table, OfUser(table, user), n);
    CappedScope(table, OfUser(table, user), n);
    SubsetSize(OfUser(small, user), capped.Keys * OfUser(table, user));
  }

  lemma BothCaps(table: Table, user: User, perUser: nat, total: nat)
    ensures Within(Capped(table, user, perUser, total), table)
    ensures |Capped(table, user, perUser, total)| <= total
    ensures |OfUser(Capped(table, user, perUser, total), user)| <= perUser
  {
    var ofUser := KeepFirst(table, OfUser(table, user), perUser);
    CappedScope(table, OfUser(table, user), perUser);
    CappedTable(ofUser, total);
    CappedUser(table, user, perUser, KeepFirst(ofUser, ofUser.Keys, total));
  }

  lemma CappedTable(table: Table, n: nat)
    ensures Within(KeepFirst(table, table.Keys, n), table)
    ensures |KeepFirst(table, table.Keys, n)| <= n
  {
    CappedScope(table, table.Keys, n);
    var s := KeepFirst(table, table.Keys, n);
    assert s.Keys * table.Keys == s.Keys;
  }

  /** What a rotation keeps: rows of the table, one less than each cap allows. */
  lemma SurvivorsShape(table: Table, r: Rotation)
    requires r.maxPerUser >= 1 && r.maxTotal >= 1
    ensures Within(Survivors(table, r), table)
    ensures |Survivors(table, r)| <= r.maxTotal - 1
    ensures |OfUser(Survivors(table, r), r.user)| <= r.maxPerUser - 1
  {
    BothCaps(Unexpired(table, r.oldKey, r.now, r.idleCutoff), r.user, r.maxPerUser - 1, r.maxTotal - 1);
  }

  lemma InsertedForUser(s: Table, key: Key, row: Row, user: User)
    requires key !in s
    ensures |OfUser(s[key := row], user)| == |OfUser(s, user)| + if user == row.user then 1 else 0
  {
    var after := s[key := row];
    if user == row.user {
      assert OfUser(after, user) == OfUser(s, user) + {key};
    } else {
      assert OfUser(after, user) == OfUser(s, user);
    }
  }

  lemma InsertedWithin(table: Table, s: Table, key: Key, row: Row, maxPerUser: nat, maxTotal: nat)
    requires WithinCaps(table, maxPerUser, maxTotal) && Within(s, table) && key !in s
    requires |s| < maxTotal && |OfUser(s, row.user)| < maxPerUser
    ensures WithinCaps(s[key := row], maxPerUser, maxTotal)
  {
    assert |s[key := row]| == |s| + 1 by {
      assert s[key := row].Keys == s.Keys + {key};
    }
    FewerRowsStayWithin(s, table, maxPerUser, maxTotal);
    var after := s[key := row];
    forall user ensures |OfUser(after, user)| <= maxPerUser {
      InsertedForUser(s, key, row, user);
    }
  }

  /** A rotation keeps both caps, and the session it creates survives it. */
  lemma RotationKeepsCaps(table: Table, r: Rotation)
    requires r.maxPerUser >= 1 && r.maxTotal >= 1 && WithinCaps(table, r.maxPerUser, r.maxTotal)
    requires Rotated(table, r).Some?
    ensures WithinCaps(Rotated(table, r).value, r.maxPerUser, r.maxTotal)
  {
    SurvivorsShape(table, r);
    InsertedWithin(table, Survivors(table, r), r.newKey, NewRow(r), r.maxPerUser, r.maxTotal);
  }

  // ---- eviction ----

  /** A cap never drops a session that is ahead of one it keeps in the same scope. */
  lemma CapDropsTheLast(table: Table, scope: set<Key>, n: nat, dropped: Key, kept: Key)
    requires scope <= table.Keys && dropped in scope && kept in scope
    requires dropped !in KeepFirst(table, scope, n) && kept in KeepFirst(table, scope, n)
    ensures Ahead(table, kept, dropped)
  {
    if !Ahead(table, kept, dropped) {
      var before, more := (set j | j in scope && Ahead(table, j, dropped)), (set j | j in scope && Ahead(table, j, kept));
      assert before <= more;
      SubsetSize(before, more);
    }
  }

  /**
   An evicted session of the user signing in comes after every session the user keeps; any
   other evicted session comes after every session kept at all.
   */
  lemma EvictionTakesTheLast(table: Table, user: User, perUser: nat, total: nat, dropped: Key, kept: Key)
    requires dropped in table && dropped !in Capped(table, user, perUser, total)
    requires kept in table && kept in Capped(table, user, perUser, total)
    requires table[dropped].user == user ==> table[kept].user == user
    ensures Ahead(table, kept, dropped)
  {
    var ofUser := KeepFirst(table, OfUser(table, user), perUser);
    assert kept in ofUser;
    if dropped in ofUser {
      CapDropsTheLast(ofUser, ofUser.Keys, total, dropped, kept);
    } else {
      CapDropsTheLast(table, OfUser(table, user), perUser, dropped, kept);
    }
  }

  lemma CapDropsOnlyWhenFull(table: Table, scope: set<Key>, n: nat, dropped: Key)
    requires scope <= table.Keys && dropped in table && dropped !in KeepFirst(table, scope, n)
    ensures dropped in scope && n < |scope|
  {
    var before := set j | j in scope && Ahead(table, j, dropped);
    assert !Ahead(table, dropped, dropped);
    SubsetSize(before + {dropped}, scope);
  }

  /** Nothing unexpired is evicted unless the new session would exceed the user's or the whole cap. */
  lemma EvictionOnlyWhenFull(table: Table, user: User, perUser: nat, total: nat, dropped: Key)
    requires dropped in table && dropped !in Capped(table, user, perUser, total)
    ensures (table[dropped].user == user && perUser < |OfUser(table, user)|) || total < |table|
  {
    var ofUser := KeepFirst(table, OfUser(table, user), perUser);
    if dropped in ofUser {
      CapDropsOnlyWhenFull(ofUser, ofUser.Keys, total, dropped);
      assert ofUser.Keys <= table.Keys;
      SubsetSize(ofUser.Keys, table.Keys);
    } else {
      CapDropsOnlyWhenFull(table, OfUser(table, user), perUser, dropped);
    }
  }

  /** The session lost its place fairly: a cap was full, and nothing it competed with comes after it. */
  ghost predicate FairlyEvicted(live: Table, survivors: Table, r: Rotation, k: Key)
    requires k in live
  {
    && ((live[k].user == r.user && r.maxPerUser <= |OfUser(live, r.user)|) || r.maxTotal <= |live|)
    && forall kept :: kept in live && kept in survivors && (live[k].user == r.user ==> live[kept].user == r.user)
                      ==> NoLater(live, k, kept)
  }

  /** Last seen earlier, or created earlier, or with the smaller key. */
  predicate NoLater(table: Table, a: Key, b: Key)
    requires a in table && b in table
  {
    && table[a].lastSeenAt <= table[b].lastSeenAt
    && (table[a].lastSeenAt == table[b].lastSeenAt ==> table[a].createdAt <= table[b].createdAt)
    && (table[a].lastSeenAt == table[b].lastSeenAt && table[a].createdAt == table[b].createdAt ==> a <= b)
  }

  /** Why a rotation removes a session: it is the one replaced, it has expired, or a cap evicts it. */
  lemma WhyASessionLeaves(table: Table, r: Rotation, k: Key)
    requires r.maxPerUser >= 1 && r.maxTotal >= 1 && k in table && k !in Survivors(table, r)
    ensures
      var live := Unexpired(table, r.oldKey, r.now, r.idleCutoff);
      if k in live then FairlyEvicted(live, Survivors(table, r), r, k)
      else r.oldKey == Some(k) || Purged(table[k], r.now, r.idleCutoff)
  {
    var live := Unexpired(table, r.oldKey, r.now, r.idleCutoff);
    if k in live {
      EvictionOnlyWhenFull(live, r.user, r.maxPerUser - 1, r.maxTotal - 1, k);
      forall kept | kept in live && kept in Survivors(table, r) && (live[k].user == r.user ==> live[kept].user == r.user)
        ensures NoLater(live, k, kept)
      {
        EvictionTakesTheLast(live, r.user, r.maxPerUser - 1, r.maxTotal - 1, k, kept);
      }
    }
  }

  /** After a rotation the new session is there, the one it replaces is not, and neither is any that
      had expired or been idle for too long; what is left is unchanged. */
  lemma RotationRemoves(table: Table, r: Rotation)
    requires r.maxPerUser >= 1 && r.maxTotal >= 1 && Rotated(table, r).Some?
    ensures
      var after := Rotated(table, r).value;
      && r.newKey in after && after[r.newKey] == Row(r.user, r.now, r.now, r.expiresAt)
      && (r.oldKey.Some? && r.oldKey.value != r.newKey ==> r.oldKey.value !in after)
      && forall k :: k in after && k != r.newKey ==>
           k in table && after[k] == table[k] && table[k].expiresAt > r.now && table[k].lastSeenAt > r.idleCutoff
  {
    BothCaps(Unexpired(table, r.oldKey, r.now, r.idleCutoff), r.user, r.maxPerUser - 1, r.maxTotal - 1);
  }

  // ---- the purge against validation ----

  /** `validate_session` finds the row expired. */
  predicate Expired(row: Row, now: Seconds, idle: Seconds) {
    now >= row.expiresAt || SaturatingSub(now, row.lastSeenAt) >= idle || now < row.createdAt
  }

  /**
   The purge removes only rows that validation would refuse exactly when its cutoff does not
   saturate: otherwise a row last seen at the smallest time is lost.
   */
  lemma PurgeAgreesIff(now: Seconds, idle: Seconds)
    requires idle >= 0
    ensures
      (forall row: Row :: Purged(row, now, SaturatingSub(now, idle)) ==> Expired(row, now, idle))
      <==> now - idle >= I64_MIN
  {
    if now - idle < I64_MIN {
      var row := Row("", I64_MIN, I64_MIN, I64_MAX);
      assert Purged(row, now, SaturatingSub(now, idle)) && !Expired(row, now, idle);
    }
  }
}
