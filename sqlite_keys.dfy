/**
  The SQLite variant (index.js). The `keys` table has `key` as its primary key
  and one `expiresAt` column, so it is a map from key to expiry instant.
  `GET /api/gerar` issues a key behind a referer gate; `GET /api/validar`
  looks a key up and deletes it on read once it has expired.

  IssueStep and ValidateStep give each handler's response and new table as a
  function of the old table; KeyTable performs the same steps statement by
  statement on a table it updates in place.
*/
module SqliteKeys {
  import opened Wrappers
  import opened Hex
  import opened JsString
  import opened Lifetime

  /** Rows of the `keys` table: key to `expiresAt`. */
  type Table = map<string, int>

  /** The text the referer must contain for `/api/gerar` to issue a key. */
  const TrustedHost: string := "liink.uk"

  /** Response of `/api/gerar`. */
  datatype IssueResult =
    | Forbidden                          // 403 "Acesso negado!"
    | Issued(key: string, expiresAt: int) // 200 { key, expiresAt }
    | InsertFailed                       // the INSERT threw: 500 from the framework's error handler
  {
    function Status(): int {
      match this
      case Forbidden => 403
      case Issued(_, _) => 200
      case InsertFailed => 500
    }
  }

  /** A handler's response together with the table it leaves behind. */
  datatype Step<R> = Step(result: R, table: Table)

  /** `(req.get("referer") || "").includes("liink.uk")`: a missing referer counts as "". */
  predicate RefererAllowed(referer: Option<string>) {
    Includes(referer.GetOr(""), TrustedHost)
  }

  /** Keys every record of the table could have been issued under: 12 upper-case hex digits. */
  predicate WellFormed(table: Table) {
    forall k :: k in table ==> |k| == 2 * KeyBytes && forall i :: 0 <= i < |k| ==> IsUpperHexDigit(k[i])
  }

  /** `/api/gerar` at time `now`, with `random` the six bytes `crypto.randomBytes(6)` returned. */
  function IssueStep(table: Table, referer: Option<string>, now: int, random: seq<byte>): (s: Step<IssueResult>)
    requires |random| == KeyBytes
    ensures s.result.Forbidden? <==> !RefererAllowed(referer)
    ensures s.result.InsertFailed? <==> RefererAllowed(referer) && MintKey(random) in table
    ensures !s.result.Issued? ==> s.table == table
    ensures s.result.Issued? ==>
              && s.result.key == MintKey(random)
              && s.result.expiresAt == now + TTL
              && s.result.key !in table
              && s.table.Keys == table.Keys + {s.result.key}
              && s.table[s.result.key] == s.result.expiresAt
              && (forall k :: k in table ==> s.table[k] == table[k])
  {
    if !RefererAllowed(referer) then Step(Forbidden, table)
    else
      var key := MintKey(random);
      var expiresAt := now + TTL;
      if key in table then Step(InsertFailed, table)
      else Step(Issued(key, expiresAt), table[key := expiresAt])
  }

  /** `/api/validar?key=...` at time `now`; `key` is absent when the query has no `key`. */
  function ValidateStep(table: Table, key: Option<string>, now: int): (s: Step<bool>)
    ensures s.result <==> key.Some? && key.value != "" && key.value in table && NotExpired(table[key.value], now)
    ensures s.table.Keys <= table.Keys && forall k :: k in s.table ==> s.table[k] == table[k]
    ensures s.table != table <==>
              key.Some? && key.value != "" && key.value in table && !NotExpired(table[key.value], now)
    ensures s.table != table ==> s.table.Keys == table.Keys - {key.value}
  {
    if key.None? || key.value == "" then Step(false, table)
    else if key.value !in table then Step(false, table)
    else if now > table[key.value] then Step(false, table - {key.value})
    else Step(true, table)
  }

  /**
    `key` is the primary key: issuing again with the same random bytes makes the
    INSERT fail, so the second request gets a 500 and the first record stays as it was.
  */
  lemma DuplicateInsertFails(table: Table, referer: Option<string>, now: int, later: int, random: seq<byte>)
    requires |random| == KeyBytes
    requires IssueStep(table, referer, now, random).result.Issued?
    ensures var s := IssueStep(table, referer, now, random);
            var again := IssueStep(s.table, referer, later, random);
            again.result == InsertFailed && again.result.Status() == 500 && again.table == s.table
  {
  }

  /** Issuing never puts anything but a minted key into the table. */
  lemma IssueKeepsWellFormed(table: Table, referer: Option<string>, now: int, random: seq<byte>)
    requires |random| == KeyBytes && WellFormed(table)
    ensures WellFormed(IssueStep(table, referer, now, random).table)
  {
  }

  /** Validation only ever removes records. */
  lemma ValidateKeepsWellFormed(table: Table, key: Option<string>, now: int)
    requires WellFormed(table)
    ensures WellFormed(ValidateStep(table, key, now).table)
  {
  }

  /**
    A key just issued validates, without touching the table, at every instant
    up to and including the `expiresAt` it was returned with.
  */
  lemma IssuedKeyValidates(table: Table, referer: Option<string>, now: int, random: seq<byte>, t: int)
    requires |random| == KeyBytes
    requires IssueStep(table, referer, now, random).result.Issued?
    requires t <= IssueStep(table, referer, now, random).result.expiresAt
    ensures var s := IssueStep(table, referer, now, random);
            ValidateStep(s.table, Some(s.result.key), t) == Step(true, s.table)
  {
    var s := IssueStep(table, referer, now, random);
    assert s.result.key != "" by {
      assert |s.result.key| == 2 * KeyBytes;
    }
  }

  /**
    Validation after `expiresAt` answers false and deletes the record; on the table
    the delete leaves, the key is invalid at every instant.
  */
  lemma ExpiredKeyIsReaped(table: Table, key: string, now: int, later: int)
    requires key != "" && key in table && now > table[key]
    ensures var s := ValidateStep(table, Some(key), now);
            && !s.result && key !in s.table
            && ValidateStep(s.table, Some(key), later) == Step(false, s.table)
  {
  }

  /** The gate on concrete referers: a missing referer is refused, a link through liink.uk passes. */
  lemma GateExamples()
    ensures !RefererAllowed(None)
    ensures RefererAllowed(Some("https://liink.uk/go"))
  {
    IncludesInside("https://", TrustedHost, "/go");
    assert "https://" + TrustedHost + "/go" == "https://liink.uk/go";
  }

  /**
    Any referer that merely carries the text "liink.uk" somewhere passes:
    the test is a substring search, not a match on the referring host.
  */
  lemma GateIsSubstringTest()
    ensures RefererAllowed(Some("https://evil.example/?liink.uk"))
  {
    IncludesInside("https://evil.example/?", TrustedHost, "");
    assert "https://evil.example/?" + TrustedHost + "" == "https://evil.example/?liink.uk";
  }

  /** A referer from another site is refused. */
  lemma ForeignRefererRefused()
    ensures !RefererAllowed(Some("https://evil.example"))
  {
    // the fifth character of "liink.uk" is a 'k', and this referer has none
    MissingCharExcludes("https://evil.example", TrustedHost, 4);
  }

  /**
    The `keys` table of index.js, updated in place by the two handlers, with the
    `(key, expiresAt)` schema index.js creates when the table does not exist yet.
  */
  class KeyTable {
    var rows: Table

    /** Opens the database; `CREATE TABLE IF NOT EXISTS` keeps whatever rows the file already holds. */
    constructor (existing: Table)
      ensures rows == existing
    {
      rows := existing;
    }

    /** `SELECT * FROM keys WHERE key=?`. */
    function Get(key: string): Option<int>
      reads this
    {
      if key in rows then Some(rows[key]) else None
    }

    /** `INSERT INTO keys (key, expiresAt) VALUES (?, ?)`; fails on a duplicate primary key. */
    method Insert(key: string, expiresAt: int) returns (ok: bool)
      modifies this
      ensures ok <==> key !in old(rows)
      ensures rows == if ok then old(rows)[key := expiresAt] else old(rows)
    {
      ok := key !in rows;
      if ok {
        rows := rows[key := expiresAt];
      }
    }

    /** `DELETE FROM keys WHERE key=?`. */
    method Delete(key: string)
      modifies this
      ensures rows == old(rows) - {key}
    {
      rows := rows - {key};
    }

    /** The `/api/gerar` handler. */
    method Issue(referer: Option<string>, now: int, random: seq<byte>) returns (result: IssueResult)
      requires |random| == KeyBytes
      modifies this
      ensures Step(result, rows) == IssueStep(old(rows), referer, now, random)
    {
      var ref := referer.GetOr("");
      if !Includes(ref, TrustedHost) {
        return Forbidden;
      }
      var key := MintKey(random);
      var expiresAt := now + TTL;
      var ok := Insert(key, expiresAt);
      if !ok {
        return InsertFailed;
      }
      result := Issued(key, expiresAt);
    }

    /** The `/api/validar` handler. */
    method Validate(key: Option<string>, now: int) returns (valid: bool)
      modifies this
      ensures Step(valid, rows) == ValidateStep(old(rows), key, now)
    {
      if key.None? || key.value == "" {
        return false;
      }
      var row := Get(key.value);
      if row.None? {
        return false;
      }
      if now > row.value {
        Delete(key.value);
        return false;
      }
      valid := true;
    }
  }
}
