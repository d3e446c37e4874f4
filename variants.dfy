/**
  The two variants side by side. A SQLite table holding `expiresAt` and a
  Replit store holding `createdAt` describe the same keys when every
  `expiresAt` is `createdAt + TTL`. Under that correspondence both variants
  accept a trimmed, non-empty key with a timestamp other than 0 at the same
  instants, and, when the index.js gate passes and the key is new, issue
  corresponding records.
*/
module Variants {
  import opened Wrappers
  import opened Hex
  import opened JsString
  import opened Lifetime
  import SqliteKeys
  import ReplitKeys

  predicate Corresponds(table: SqliteKeys.Table, store: ReplitKeys.Store) {
    table.Keys == store.Keys && forall k :: k in store ==> table[k] == store[k] + TTL
  }

  /** The records of a SQLite table that have not expired at `now`. */
  function Live(table: SqliteKeys.Table, now: int): SqliteKeys.Table
  {
    map k | k in table && NotExpired(table[k], now) :: table[k]
  }

  /**
    For a key without surrounding whitespace, and a timestamp other than 0,
    index.js and api/validar.js give the same answer.
  */
  lemma ValidationAgrees(table: SqliteKeys.Table, store: ReplitKeys.Store, key: string, now: int)
    requires Corresponds(table, store)
    requires key != "" && Trim(key) == key
    requires key in store ==> store[key] != 0
    ensures SqliteKeys.ValidateStep(table, Some(key), now).result == ReplitKeys.Validate(store, Some(key), now).valid
  {
    if key in store {
      BoundariesAgree(store[key], now);
    }
  }

  /**
    Issuing the same random bytes at the same instant: when index.js accepts the
    referer and the key is new, the live part of its table corresponds to the
    store api/gerar.js leaves behind.
  */
  lemma IssuanceAgrees(table: SqliteKeys.Table, store: ReplitKeys.Store, referer: Option<string>, now: int, random: seq<byte>)
    requires |random| == KeyBytes && Corresponds(table, store)
    requires SqliteKeys.RefererAllowed(referer) && MintKey(random) !in table
    ensures Corresponds(Live(SqliteKeys.IssueStep(table, referer, now, random).table, now),
                        ReplitKeys.Generated(store, now, random))
  {
    var issued := SqliteKeys.IssueStep(table, referer, now, random).table;
    var live := Live(issued, now);
    var generated := ReplitKeys.Generated(store, now, random);
    forall k | k in store
      ensures NotExpired(table[k], now) <==> !TooOld(store[k], now)
    {
      BoundariesAgree(store[k], now);
    }
    assert live.Keys == generated.Keys;
  }
}
