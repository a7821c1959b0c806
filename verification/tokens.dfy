/** The access tokens the backend issues. Signing and checking the signature
    are left abstract: every token here is one that `Sign` produced, so a
    token is its claims. What remains is the claim the backend puts in (the
    user id) and the expiry `expiresIn: "72h"` fixes: timestamps in whole
    seconds, the token rejected from its expiry second on. */
module Tokens {
  import opened Optional

  type Id = nat

  /** 72 hours, in seconds. */
  const LifetimeSeconds: nat := 72 * 60 * 60

  datatype Token = Token(userId: Id, issuedAt: int, expiresAt: int)

  /** Seconds since the epoch of a millisecond clock reading, rounded down. */
  function Seconds(nowMs: nat): nat
  {
    nowMs / 1000
  }

  /** Issue a token for `userId` at clock reading `nowMs`. */
  function Sign(userId: Id, nowMs: nat): (t: Token)
    ensures t.userId == userId
    ensures t.issuedAt * 1000 <= nowMs < t.issuedAt * 1000 + 1000
    ensures t.expiresAt == t.issuedAt + LifetimeSeconds
  {
    Token(userId, Seconds(nowMs), Seconds(nowMs) + LifetimeSeconds)
  }

  /** The user a token names, when checked at clock reading `nowMs`; `None`
      once the clock has reached the expiry second. */
  function Verify(t: Token, nowMs: nat): (r: Option<Id>)
    ensures r.Some? <==> nowMs < t.expiresAt * 1000
    ensures r.Some? ==> r.value == t.userId
  {
    if Seconds(nowMs) < t.expiresAt then Some(t.userId) else None
  }

  /** Verifying a freshly signed token gives back the signed user id for
      exactly 72 hours, counted in the whole seconds the token records. */
  lemma VerifyInvertsSign(userId: Id, issuedMs: nat, nowMs: nat)
    ensures Verify(Sign(userId, issuedMs), nowMs) == Some(userId)
            <==> nowMs / 1000 < issuedMs / 1000 + LifetimeSeconds
  {
  }

  /** Any check up to 72 hours minus one second after issue succeeds; any
      check 72 hours or more after issue fails. */
  lemma TokenLifetime(userId: Id, issuedMs: nat, nowMs: nat)
    ensures nowMs + 1000 <= issuedMs + LifetimeSeconds * 1000
            ==> Verify(Sign(userId, issuedMs), nowMs) == Some(userId)
    ensures issuedMs + LifetimeSeconds * 1000 <= nowMs
            ==> Verify(Sign(userId, issuedMs), nowMs) == None
  {
    var t := Sign(userId, issuedMs);
    assert t.issuedAt * 1000 <= issuedMs;
  }
}
