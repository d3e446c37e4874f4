/**
  The Replit Database variant (api/gerar.js and api/validar.js). The database
  maps each key to the instant it was created. Issuing first sweeps every entry
  older than a day, one delete at a time, then stores the new key; validating
  only reads.

  The database client is taken with the behaviour its calls are used for here:
  `list()` yields every key, `get(key)` yields the stored number or `null`,
  `set` and `delete` write one entry.
*/
module ReplitKeys {
  import opened Wrappers
  import opened Hex
  import opened JsString
  import opened Lifetime

  /** Entries of the database: key to `createdAt`. */
  type Store = map<string, int>

  /** The store once the sweep at `agora` is over: exactly the entries no older than a day. */
  function Swept(store: Store, agora: int): (r: Store)
    ensures forall k :: k in r ==> k in store && r[k] == store[k] && !TooOld(store[k], agora)
    ensures forall k :: k in store && !TooOld(store[k], agora) ==> k in r
  {
    map k | k in store && !TooOld(store[k], agora) :: store[k]
  }

  /** The store while the sweep is under way: the keys in `done` have been looked at, the rest not yet. */
  ghost function PartlySwept(store: Store, agora: int, done: set<string>): Store
  {
    map k | k in store && (k !in done || !TooOld(store[k], agora)) :: store[k]
  }

  /** A second sweep at the same instant finds nothing to delete. */
  lemma SweptIdempotent(store: Store, agora: int)
    ensures Swept(Swept(store, agora), agora) == Swept(store, agora)
  {
  }

  /** The store api/gerar.js leaves behind: the swept store with the new key set to `agora`. */
  function Generated(store: Store, agora: int, random: seq<byte>): (r: Store)
    requires |random| == KeyBytes
    ensures MintKey(random) in r && r[MintKey(random)] == agora
    ensures forall k :: k in r && k != MintKey(random) ==> k in store && r[k] == store[k] && !TooOld(store[k], agora)
    ensures forall k :: k in store && !TooOld(store[k], agora) ==> k in r
  {
    Swept(store, agora)[MintKey(random) := agora]
  }

  /** Response of `/api/validar`: an HTTP status and the `valid` flag. */
  datatype ValidarResponse = ValidarResponse(status: int, valid: bool)

  /** JavaScript truthiness of what `db.get` returns: `null` and `0` are both false. */
  predicate Truthy(stored: Option<int>) {
    stored.Some? && stored.value != 0
  }

  function Lookup(store: Store, key: string): Option<int> {
    if key in store then Some(store[key]) else None
  }

  /** `/api/validar?key=...` at time `now`; `rawKey` is absent when the query has no `key`. */
  function Validate(store: Store, rawKey: Option<string>, now: int): (r: ValidarResponse)
    ensures r.status == 400 <==> rawKey.None? || Trim(rawKey.value) == ""
    ensures r.status != 400 ==> r.status == 200
    ensures r.valid <==>
              && rawKey.Some? && Trim(rawKey.value) != ""
              && var key := Trim(rawKey.value);
                 key in store && store[key] != 0 && WithinWindow(store[key], now)
  {
    if rawKey.None? then ValidarResponse(400, false)
    else
      var key := Trim(rawKey.value);
      if key == "" then ValidarResponse(400, false)
      else
        var timestamp := Lookup(store, key);
        if Truthy(timestamp) && now - timestamp.value <= TTL then ValidarResponse(200, true)
        else ValidarResponse(200, false)
  }

  /** Surrounding whitespace in the query makes no difference to the answer. */
  lemma ValidateIgnoresSurroundingSpace(store: Store, raw: string, now: int)
    ensures Validate(store, Some(raw), now) == Validate(store, Some(Trim(raw)), now)
  {
    TrimIdempotent(raw);
  }

  /** A key that was invalid at some instant stays invalid at every later one. */
  lemma InvalidStaysInvalid(store: Store, rawKey: Option<string>, t1: int, t2: int)
    requires t1 <= t2 && !Validate(store, rawKey, t1).valid
    ensures !Validate(store, rawKey, t2).valid
  {
    if rawKey.Some? && Trim(rawKey.value) in store {
      var ts := store[Trim(rawKey.value)];
      if !WithinWindow(ts, t1) {
        ExpiryIsPermanent(ts, t1, t2);
      }
    }
  }

  /** A minted key is never changed by `trim` and is never empty. */
  lemma MintedKeyIsTrimmed(random: seq<byte>)
    requires |random| == KeyBytes
    ensures Trim(MintKey(random)) == MintKey(random) && MintKey(random) != ""
  {
    var key := MintKey(random);
    assert IsUpperHexDigit(key[0]) && IsUpperHexDigit(key[|key| - 1]);
    TrimUnchanged(key);
  }

  /** A stored key with a timestamp other than 0, queried as it is, validates while within the window. */
  lemma StoredKeyValidates(store: Store, key: string, t: int)
    requires key in store && key != "" && Trim(key) == key
    requires store[key] != 0 && WithinWindow(store[key], t)
    ensures Validate(store, Some(key), t) == ValidarResponse(200, true)
  {
  }

  /**
    Every entry the sweep at `t` keeps validates at `t`, provided its key has no
    surrounding whitespace and its timestamp is not 0 (which `validar` reads as absent).
  */
  lemma SurvivorValidates(store: Store, t: int, key: string)
    requires key in Swept(store, t) && key != "" && Trim(key) == key && store[key] != 0
    ensures Validate(Swept(store, t), Some(key), t) == ValidarResponse(200, true)
  {
    BoundariesAgree(store[key], t);
  }

  /**
    The key api/gerar.js hands out validates from the instant it is created
    through the instant exactly a day later, unless the clock read 0.
  */
  lemma GeneratedKeyValidates(store: Store, agora: int, random: seq<byte>, t: int)
    requires |random| == KeyBytes && agora != 0 && t <= agora + TTL
    ensures Validate(Generated(store, agora, random), Some(MintKey(random)), t) == ValidarResponse(200, true)
  {
    MintedKeyIsTrimmed(random);
    FreshKeyValidates(store, agora, MintKey(random), t);
  }

  /** Any trimmed key set at `agora` after the sweep validates through the instant exactly a day later. */
  lemma FreshKeyValidates(store: Store, agora: int, key: string, t: int)
    requires agora != 0 && t <= agora + TTL && key != "" && Trim(key) == key
    ensures Validate(Swept(store, agora)[key := agora], Some(key), t) == ValidarResponse(200, true)
  {
    StoredKeyValidates(Swept(store, agora)[key := agora], key, t);
  }

  /** The Replit database, changed in place by api/gerar.js. */
  class ReplitDb {
    var entries: Store

    constructor (existing: Store)
      ensures entries == existing
    {
      entries := existing;
    }

    /** `db.list()`: the keys present right now. */
    function List(): set<string>
      reads this
    {
      entries.Keys
    }

    /** `db.get(key)`. */
    function Get(key: string): Option<int>
      reads this
    {
      Lookup(entries, key)
    }

    /** `db.set(key, value)`: overwrites any entry already under `key`. */
    method Set(key: string, value: int)
      modifies this
      ensures entries == old(entries)[key := value]
    {
      entries := entries[key := value];
    }

    /** `db.delete(key)`. */
    method Delete(key: string)
      modifies this
      ensures entries == old(entries) - {key}
    {
      entries := entries - {key};
    }

    /** The cleaning loop of api/gerar.js: visits every listed key and deletes it if it is more than a day old. */
    method SweepExpired(agora: int)
      modifies this
      ensures entries == Swept(old(entries), agora)
    {
      var allKeys := List();
      var pending := allKeys;
      while pending != {}
        invariant pending <= allKeys
        invariant entries == PartlySwept(old(entries), agora, allKeys - pending)
        decreases pending
      {
        var key :| key in pending;
        // a `null` from `db.get` would count as 0 in the subtraction
        var timestamp := Get(key).GetOr(0);
        if agora - timestamp > TTL {
          Delete(key);
        }
        assert entries == PartlySwept(old(entries), agora, allKeys - (pending - {key}));
        pending := pending - {key};
      }
      assert entries == Swept(old(entries), agora);
    }

    /** The api/gerar.js handler at time `agora`, with `random` the bytes `crypto.randomBytes(6)` returned. */
    method Generate(agora: int, random: seq<byte>) returns (key: string)
      requires |random| == KeyBytes
      modifies this
      ensures key == MintKey(random)
      ensures entries == Generated(old(entries), agora, random)
    {
      SweepExpired(agora);
      key := MintKey(random);
      Set(key, agora);
    }
  }
}
