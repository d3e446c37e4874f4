# Key store with a 24-hour lifetime

This project models the key server of the repository in Dafny. The server
hands out short-lived access keys and checks them later. The logic exists
twice, once per storage backend:

- **SQLite variant** (`index.js`). The `keys` table maps each key to its
  `expiresAt` instant.
  - `GET /api/gerar` issues a key. The referer must contain `liink.uk`,
    otherwise the answer is 403. The key is the upper-case hex of six random
    bytes, and `expiresAt` is the current time plus one day. The record is
    inserted under `key`, which is the primary key.
  - `GET /api/validar` looks the key up. A record is valid up to and including
    the instant `expiresAt`. An expired record is deleted when it is read.
- **Replit Database variant** (`api/gerar.js`, `api/validar.js`). The store
  maps each key to its `createdAt` instant.
  - Issuing first sweeps the store, deleting every entry older than a day one
    at a time. It then sets the new key to the current time. There is no
    referer check, and a colliding key is overwritten.
  - Validating trims the key and answers 400 when the key is missing or blank.
    Otherwise it answers 200, with `valid` true exactly when a timestamp other
    than 0 is stored and is at most a day old. It never writes.

Both stores are modelled as maps from key strings to integer millisecond
timestamps. The clock (`Date.now()`) and the random bytes
(`crypto.randomBytes(6)`) are parameters.

Files:

- `wrappers.dfy`: `Option`.
- `hex.dfy`: key minting, which is lower-case hex followed by upper-casing,
  and its inverse parser.
- `jsstring.dfy`: `String.prototype.includes` and `String.prototype.trim`,
  with the ECMAScript whitespace set.
- `lifetime.dfy`: the one-day constant and the three expiry tests the handlers
  use.
- `sqlite_keys.dfy`: the index.js handlers, and `KeyTable.Get` as the `SELECT`. Each one is a pure step function
  (`IssueStep`, `ValidateStep`) that gives the response and the new table. The
  class `KeyTable` updates its `rows` in place and is proved equal to those
  functions.
- `replit_keys.dfy`: the api/ handlers, with `ReplitDb.List` and `ReplitDb.Get` as `db.list` and `db.get`. The class `ReplitDb` holds the sweep
  loop, with its invariant over the partly swept store, and the issuing
  handler. `Validate` is a pure function of the store.
- `variants.dfy`: the two variants side by side, under `expiresAt = createdAt + TTL`.
  For a trimmed, non-empty key whose stored timestamp is not 0, they give the
  same validation answer. When the index.js gate passes and the key is new,
  issuing leaves a table whose live records (`Live`) correspond to the Replit store.

## Model

| member | source | states |
|---|---|---|
| `Hex.ToHex` | index.js:33 | `toString("hex")` gives two characters per byte, each a lower-case hex digit |
| `Hex.MintKey` | index.js:33 | a minted key has 2·n characters (12 for the 6 bytes drawn), each in `0-9A-F` |
| `Hex.ParseMintKey` | index.js:33 | round trip: parsing a minted key gives back the random bytes it came from |
| `Hex.MintParsedKey` | index.js:33 | the other direction: every string the parser accepts is exactly the key minted from the parsed bytes, so the upper-case form is canonical |
| `Hex.MintKeyInjective` | api/gerar.js:18 | distinct random bytes give distinct keys, so a key collision needs a repeated random draw |
| `JsString.IncludesIff` | index.js:29 | `includes` is true exactly when the needle occurs at some offset |
| `JsString.IncludesInside` | index.js:29 | a string with the needle in it includes the needle, whatever surrounds it |
| `JsString.MissingCharExcludes` | index.js:29 | a string that lacks any one character of the needle does not include it |
| `JsString.TrimStart` | api/validar.js:6 | drops leading whitespace: a suffix that does not start with whitespace |
| `JsString.TrimEnd` | api/validar.js:6 | drops trailing whitespace: a prefix that does not end with whitespace |
| `JsString.LeadingWhitespace` | api/validar.js:6 | everything the start-trim removes is whitespace |
| `JsString.TrailingWhitespace` | api/validar.js:6 | everything the end-trim removes is whitespace |
| `JsString.TrimSlice` | api/validar.js:6 | `trim` returns a slice `s[lo..hi]` with only whitespace outside it |
| `JsString.TrimBorders` | api/validar.js:6 | what `trim` returns neither starts nor ends with whitespace |
| `JsString.TrimUnchanged` | api/validar.js:6 | a string without surrounding whitespace is left unchanged |
| `JsString.TrimIdempotent` | api/validar.js:6 | trimming twice is the same as trimming once |
| `Lifetime.BoundariesAgree` | index.js:48 | with `expiresAt = createdAt + TTL`, `!(now > expiresAt)` holds iff `now - createdAt <= TTL`, and the sweep test `agora - ts > TTL` is its negation; a key is good at the exact expiry instant and bad 1 ms later |
| `Lifetime.ExpiryIsPermanent` | api/validar.js:10 | a timestamp outside the window at t1 is outside it, and due for sweeping, at every t2 >= t1 |
| `SqliteKeys.IssueStep` | index.js:26-38 | refused (403, table unchanged) iff the referer, with missing read as "", does not contain "liink.uk"; insert fails (500, table unchanged) iff the minted key is already a key of the table; otherwise the key is `MintKey(random)`, `expiresAt = now + 86400000`, the key was absent, exactly that one record is added, all other records keep their values, and the response carries the stored pair |
| `SqliteKeys.ValidateStep` | index.js:41-54 | valid iff the key is present, non-empty, in the table and `!(now > expiresAt)`; the table changes iff the record exists and has expired, and then exactly that record is deleted and no other record changes |
| `SqliteKeys.DuplicateInsertFails` | index.js:35 | after a key is issued, issuing the same key again fails with 500 and leaves the table as it was: the primary key never holds two records |
| `SqliteKeys.IssueKeepsWellFormed` | index.js:33-35 | issuing keeps "every key is 12 upper-case hex digits" |
| `SqliteKeys.ValidateKeepsWellFormed` | index.js:49 | validation keeps that invariant, because it only deletes |
| `SqliteKeys.IssuedKeyValidates` | index.js:34 | a freshly issued key validates, without any change to the table, at every instant up to and including the `expiresAt` it was returned with |
| `SqliteKeys.ExpiredKeyIsReaped` | index.js:48-51 | validating after `expiresAt` answers false and removes the record, and on the table the delete leaves, the key is invalid at every instant |
| `SqliteKeys.GateExamples` | index.js:27-31 | a missing referer is refused; `https://liink.uk/go` passes |
| `SqliteKeys.ForeignRefererRefused` | index.js:29-30 | the referer `https://evil.example` is refused |
| `SqliteKeys.GateIsSubstringTest` | index.js:29 | `https://evil.example/?liink.uk` passes: the gate is a substring search, not a host check |
| `SqliteKeys.KeyTable.constructor` | index.js:10-16 | opening the database keeps the rows already in the file |
| `SqliteKeys.KeyTable.Insert` | index.js:35 | succeeds iff the key is new, and then adds exactly that row; otherwise the table is unchanged |
| `SqliteKeys.KeyTable.Delete` | index.js:49 | removes exactly the row with that key |
| `SqliteKeys.KeyTable.Issue` | index.js:26-38 | the in-place handler returns the response and leaves the rows that `IssueStep` gives for the old rows |
| `SqliteKeys.KeyTable.Validate` | index.js:41-54 | the in-place handler returns the answer and leaves the rows that `ValidateStep` gives for the old rows |
| `ReplitKeys.Swept` | api/gerar.js:8-15 | after the sweep, every entry is an original entry with its value unchanged and is not more than a day old, and every entry not more than a day old, including exactly one day old, is kept |
| `ReplitKeys.SweptIdempotent` | api/gerar.js:10-14 | sweeping again at the same `agora` deletes nothing |
| `ReplitKeys.Generated` | api/gerar.js:8-19 | the new key maps to `agora`, even if it collided and was overwritten; every other entry is a surviving original entry; every original entry not more than a day old is kept |
| `ReplitKeys.Validate` | api/validar.js:5-15 | status 400 iff the key is missing or empty after `trim`, otherwise 200; `valid` iff the trimmed key maps to a timestamp other than 0 with `now - ts <= 86400000` |
| `ReplitKeys.ValidateIgnoresSurroundingSpace` | api/validar.js:6 | a key with surrounding whitespace gets the same answer as the trimmed key |
| `ReplitKeys.InvalidStaysInvalid` | api/validar.js:10 | a key that is invalid at t1 is invalid at every later instant |
| `ReplitKeys.MintedKeyIsTrimmed` | api/gerar.js:18 | a minted key is non-empty and `trim` leaves it unchanged |
| `ReplitKeys.SurvivorValidates` | api/gerar.js:12 | an entry kept by the sweep at t validates at t, given a non-empty key with no surrounding whitespace and a timestamp other than 0 |
| `ReplitKeys.StoredKeyValidates` | api/validar.js:6-14 | a stored non-empty trimmed key with a non-zero timestamp validates (200, valid) while within a day of that timestamp |
| `ReplitKeys.FreshKeyValidates` | api/gerar.js:8-19 | a non-empty trimmed key set at `agora` after the sweep validates at every instant up to a day later, unless `agora` is 0 |
| `ReplitKeys.GeneratedKeyValidates` | api/gerar.js:19 | the key just generated at `agora` validates at every instant up to `agora + 86400000`, unless the clock read 0 |
| `ReplitKeys.ReplitDb.constructor` | api/gerar.js:4 | the database handle starts from the entries already stored |
| `ReplitKeys.ReplitDb.Set` | api/gerar.js:19 | `db.set` writes one entry and overwrites any old value |
| `ReplitKeys.ReplitDb.Delete` | api/gerar.js:13 | `db.delete` removes the entry under that key, if there is one |
| `ReplitKeys.ReplitDb.SweepExpired` | api/gerar.js:8-15 | the delete-one-at-a-time loop over the listed keys leaves exactly `Swept(old entries, agora)` |
| `ReplitKeys.ReplitDb.Generate` | api/gerar.js:6-19 | always issues a key (no gate); the key is `MintKey(random)`, and the store becomes `Generated(old entries, agora, random)`, with one `agora` for both the sweep and the new entry |
| `Variants.ValidationAgrees` | api/validar.js:10 | for corresponding stores, a trimmed non-empty key and a timestamp other than 0, index.js and api/validar.js give the same answer at every instant |
| `Variants.IssuanceAgrees` | api/gerar.js:19 | for corresponding stores, when the index.js gate passes and the key is new, issuing the same bytes at the same instant leaves a SQLite table whose live records correspond to the Replit store after `gerar` |

## Left out

- HTTP plumbing is not modelled: Express routing, the `/` page (`res.sendFile`), `app.listen`, and the HTML body of api/gerar.js (lines 21-27). Each handler is modelled by its status code and JSON fields.
- `Date.now()` and `crypto.randomBytes(6)` are parameters. The model draws no randomness and does not regenerate a key after a collision, and neither does the code.
- Concurrency is not modelled. Each handler runs as one sequential step, so interleavings of concurrent `await`s in api/gerar.js (two sweeps at once, a delete racing a `get`) are outside the model.
- JavaScript numbers are doubles. Timestamps are modelled as unbounded integers, which is exact for millisecond instants below 2^53.
- `req.get("referer")` is taken as given. Express's folding of `referrer` into `referer` is not modelled. A query `key` that Express parses into an array or an object is also not modelled.
- The Replit database client is modelled with the behaviour these handlers assume: `list()` returns the keys, and `get()` returns the stored number or `null`. A client version that wraps results in objects would change these handlers' behaviour; that is not modelled.
- Hex.ToUpperCase: models `toUpperCase` on ASCII letters only. The only input is lower-case hex, where full Unicode upper-casing gives the same result.
- ReplitKeys.SurvivorValidates: stated for non-empty keys without surrounding whitespace and timestamps other than 0. `validar` answers 400 for an empty key (api/validar.js:7), trims the key and treats a timestamp of 0 as absent, so a key outside these conditions can survive the sweep and still be invalid.
- setup.js (filesystem checks), api/mongo.js (MongoDB connection caching) and migrate.js (schema migration, backup table, statistics) are not part of this model. The migration's expiry delete `expiresAt < now` agrees with index.js:48 at the boundary. Its "active" count `expiresAt > now` does not: a record at exactly `expiresAt` still validates in index.js but is not counted as active.
- Client identity and "one key per IP" are not modelled. They exist only as a `UNIQUE(ip_address)` column in migrate.js; no handler resolves an IP or enforces the rule.
- SqliteKeys.KeyTable: assumes the two-column `(key, expiresAt)` table that index.js creates itself (index.js:13-16). `CREATE TABLE IF NOT EXISTS` keeps an existing table as it is. A `keys` table created by migrate.js has an `ip_address TEXT NOT NULL` column without a default (migrate.js:32-38). With that table, every INSERT at index.js:35 fails, so every `/api/gerar` that passes the gate answers 500. `IssueStep`'s "insert fails iff the key is already present" holds only for index.js's own schema.
- Behaviour of the code at the edges, as modelled:
  - Keys are 6 bytes, so 12 hex digits.
  - A record is still valid at `now == expiresAt` (index.js:48).
  - index.js deletes an expired record only when it is read (index.js:48-49).
  - A colliding key makes index.js answer 500 (index.js:35), while api/gerar.js overwrites it (api/gerar.js:19).
