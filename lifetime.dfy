/**
  The 24-hour key lifetime and the three ways the handlers test it.
  Timestamps are integer milliseconds since the epoch, as `Date.now()` returns them.
*/
module Lifetime {

  /** `24*60*60*1000`: one day in milliseconds. */
  const TTL: int := 24 * 60 * 60 * 1000

  /** index.js keeps a record while `Date.now() > expiresAt` is false. */
  predicate NotExpired(expiresAt: int, now: int) {
    !(now > expiresAt)
  }

  /** api/gerar.js deletes an entry when `agora - timestamp > TTL`. */
  predicate TooOld(createdAt: int, now: int) {
    now - createdAt > TTL
  }

  /** api/validar.js accepts a timestamp when `Date.now() - timestamp <= TTL`. */
  predicate WithinWindow(createdAt: int, now: int) {
    now - createdAt <= TTL
  }

  /**
    With `expiresAt = createdAt + TTL` the three tests draw the same line:
    a key is still good at the exact expiry instant and bad one millisecond later.
  */
  lemma BoundariesAgree(createdAt: int, now: int)
    ensures NotExpired(createdAt + TTL, now) <==> WithinWindow(createdAt, now)
    ensures TooOld(createdAt, now) <==> !WithinWindow(createdAt, now)
    ensures WithinWindow(createdAt, createdAt + TTL) && !WithinWindow(createdAt, createdAt + TTL + 1)
  {
  }

  /** Once a key is past its window it stays past it: time never makes it valid again. */
  lemma ExpiryIsPermanent(createdAt: int, t1: int, t2: int)
    requires t1 <= t2 && !WithinWindow(createdAt, t1)
    ensures !WithinWindow(createdAt, t2) && TooOld(createdAt, t2)
  {
  }
}
