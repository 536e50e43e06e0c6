/** The self-pruning revocation table (backend/src/auth/revocations.rs) against a log that is
    never pruned. */
module Revocations {
  import opened Words
  import opened Wrappers

  /** A row holds an expiry, or text that does not parse. */
  datatype Row = Until(expiresAt: u64) | Unreadable

  type Table = map<string, Row>

  /** An unreadable row denies; an expired one no longer counts. */
  predicate Denies(row: Row, now: u64) {
    row.Unreadable? || row.expiresAt > now
  }

  predicate IsRevoked(t: Table, key: string, now: u64) {
    key in t && Denies(t[key], now)
  }

  function Prune(t: Table, now: u64): Table {
    map k | k in t && Denies(t[k], now) :: t[k]
  }

  function Revoke(t: Table, key: string, expiresAt: u64, now: u64): Table {
    Prune(t, now)[key := Until(expiresAt)]
  }

  /** How far a read of the database gets. */
  datatype Access = NoDatabase | NoTable | NoRow | Readable

  class RevocationTable {
    var rows: Table

    /** Collect the expired keys, remove them one by one, then file the new revocation. */
    method RevokeKey(key: string, expiresAt: u64, now: u64)
      modifies this
      ensures rows == Revoke(old(rows), key, expiresAt, now)
    {
      var expired := set k | k in rows && !Denies(rows[k], now);
      rows := RemoveAll(rows, expired);
      assert rows == Prune(old(rows), now);
      rows := rows[key := Until(expiresAt)];
    }

    method Clear()
      modifies this
      ensures rows == map[]
    {
      rows := RemoveAll(rows, rows.Keys);
    }

    /** A database that cannot be read grants nothing; a table or a row that cannot be read
        revokes nothing. */
    method IsKeyRevoked(access: Access, key: string, now: u64) returns (r: bool)
      ensures r <==> access.NoDatabase? || (access.Readable? && IsRevoked(rows, key, now))
    {
      if access.NoDatabase? {
        return true;
      }
      if access.NoTable? || access.NoRow? {
        return false;
      }
      if key !in rows {
        return false;
      }
      if rows[key].Unreadable? {
        return true;
      }
      r := rows[key].expiresAt > now;
    }
  }

  method RemoveAll<V>(rows: map<string, V>, keys: set<string>) returns (kept: map<string, V>)
    ensures kept == rows - keys
  {
    kept := rows;
    var todo := keys;
    while todo != {}
      invariant todo <= keys
      invariant forall k :: k in kept <==> k in rows && (k !in keys || k in todo)
      invariant forall k :: k in kept ==> kept[k] == rows[k]
      decreases |todo|
    {
      var k :| k in todo;
      kept := kept - {k};
      todo := todo - {k};
    }
  }

  // ---- The never-pruned log

  datatype Op = DoRevoke(key: string, expiresAt: u64, now: u64) | DoClear

  function Run(t: Table, ops: seq<Op>): Table {
    if ops == [] then t
    else
      var before := Run(t, ops[..|ops| - 1]);
      match ops[|ops| - 1]
      case DoRevoke(key, expiresAt, now) => Revoke(before, key, expiresAt, now)
      case DoClear => map[]
  }

  /** The never-pruned log's last word on a key: the latest revocation of it since the last
      clear, or else the row the run started from. */
  function LastWord(t: Table, ops: seq<Op>, key: string): Option<Row> {
    if ops == [] then (if key in t then Some(t[key]) else None)
    else match ops[|ops| - 1]
      case DoClear => None
      case DoRevoke(k, expiresAt, _) => if k == key then Some(Until(expiresAt)) else LastWord(t, ops[..|ops| - 1], key)
  }

  predicate LogDenies(t: Table, ops: seq<Op>, key: string, now: u64) {
    LastWord(t, ops, key).Some? && Denies(LastWord(t, ops, key).value, now)
  }

  /** A later revocation, made at or past the expiry of the last word, has dropped it. */
  predicate Forgotten(t: Table, ops: seq<Op>, key: string) {
    ops != [] && ops[|ops| - 1].DoRevoke? && ops[|ops| - 1].key != key
    && var before := ops[..|ops| - 1];
       (Forgotten(t, before, key)
        || (LastWord(t, before, key).Some? && !Denies(LastWord(t, before, key).value, ops[|ops| - 1].now)))
  }

  /** For every run under any clock, the table holds exactly the last words not forgotten. */
  lemma {:induction false} TableHoldsUnforgotten(t: Table, ops: seq<Op>, key: string)
    ensures key in Run(t, ops) <==> LastWord(t, ops, key).Some? && !Forgotten(t, ops, key)
    ensures key in Run(t, ops) ==> Run(t, ops)[key] == LastWord(t, ops, key).value
  {
    if ops != [] {
      TableHoldsUnforgotten(t, ops[..|ops| - 1], key);
    }
  }

  function Clock(ops: seq<Op>): u64 {
    if ops == [] then 0
    else match ops[|ops| - 1]
      case DoRevoke(_, _, now) => now
      case DoClear => Clock(ops[..|ops| - 1])
  }

  predicate Ascending(ops: seq<Op>) {
    ops != [] ==>
      && Ascending(ops[..|ops| - 1])
      && (ops[|ops| - 1].DoRevoke? ==> Clock(ops[..|ops| - 1]) <= ops[|ops| - 1].now)
  }

  lemma {:induction false} ForgottenIsExpired(t: Table, ops: seq<Op>, key: string)
    requires Ascending(ops) && Forgotten(t, ops, key)
    ensures !LogDenies(t, ops, key, Clock(ops))
  {
    var before := ops[..|ops| - 1];
    if Forgotten(t, before, key) {
      ForgottenIsExpired(t, before, key);
    }
  }

  /** With a clock that never goes back, pruning is invisible: at any later time the table and
      the log give the same answer for every key. */
  lemma {:induction false} PrunedTableMatchesLog(t: Table, ops: seq<Op>, key: string, now: u64)
    requires Ascending(ops) && Clock(ops) <= now
    ensures IsRevoked(Run(t, ops), key, now) == LogDenies(t, ops, key, now)
  {
    TableHoldsUnforgotten(t, ops, key);
    if Forgotten(t, ops, key) {
      ForgottenIsExpired(t, ops, key);
    }
  }

  /** Under any clock, table and log differ exactly on a key whose last word was forgotten and is
      asked for at a time before its expiry. */
  lemma {:induction false} PruningVisibleIff(t: Table, ops: seq<Op>, key: string, now: u64)
    ensures IsRevoked(Run(t, ops), key, now) != LogDenies(t, ops, key, now) <==>
      Forgotten(t, ops, key) && LogDenies(t, ops, key, now)
  {
    TableHoldsUnforgotten(t, ops, key);
  }

  /** And it happens: a second revocation made at the expiry of the first drops it, and a clock set
      back before that expiry then finds the first key usable again. */
  lemma ClockSetBackRestores(t: Table, a: string, b: string, expiry: u64, now: u64)
    requires a != b && now < expiry
    ensures var ops := [DoRevoke(a, expiry, now), DoRevoke(b, expiry, expiry)];
      Forgotten(t, ops, a) && LogDenies(t, ops, a, now) && !IsRevoked(Run(t, ops), a, now)
  {
    var ops := [DoRevoke(a, expiry, now), DoRevoke(b, expiry, expiry)];
    assert ops[..|ops| - 1] == [DoRevoke(a, expiry, now)];
    assert LastWord(t, ops[..1], a) == Some(Until(expiry));
    PruningVisibleIff(t, ops, a, now);
  }

  // ---- What a row says

  /** A revocation holds exactly until its expiry, replacing whatever was filed under the key; every
      other key answers as before from the time of the call on. */
  lemma RevokeTakesEffect(t: Table, key: string, expiresAt: u64, now: u64, other: string, at: u64)
    ensures IsRevoked(Revoke(t, key, expiresAt, now), key, at) <==> at < expiresAt
    ensures other != key && now <= at ==>
      (IsRevoked(Revoke(t, key, expiresAt, now), other, at) <==> IsRevoked(t, other, at))
  {
  }

  /** The operation neither replaces the row of `key` nor clears the table. */
  predicate Spares(op: Op, key: string) {
    op.DoRevoke? && op.key != key
  }

  /** A row that cannot be read denies its key at every time, and outlives every pruning. */
  lemma {:induction false} UnreadableAlwaysDenies(t: Table, ops: seq<Op>, key: string, at: u64)
    requires key in t && t[key].Unreadable? && forall op :: op in ops ==> Spares(op, key)
    ensures key in Run(t, ops) && Run(t, ops)[key] == Unreadable && IsRevoked(Run(t, ops), key, at)
  {
    if ops != [] {
      var n := |ops| - 1;
      assert forall op :: op in ops[..n] ==> op in ops;
      UnreadableAlwaysDenies(t, ops[..n], key, at);
      assert Spares(ops[n], key);
    }
  }
}
