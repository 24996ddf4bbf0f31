/** Refresh tokens (`RefreshToken`) and their expiry. */
module Tokens {
  import opened Domain

  /** A stored refresh token: its opaque value, when it expires, and the user it was issued to. */
  datatype RefreshToken = RefreshToken(token: string, expires: Instant, userId: int)

  /** How long a refresh token lives. */
  const LifetimeDays: int := 7

  /** `IsExpired`: the expiry instant itself already counts as expired. */
  predicate IsExpired(t: RefreshToken, now: Instant) {
    now >= t.expires
  }

  /** A token is expired exactly from its expiry instant on. */
  lemma ExpiredAtExpiry(t: RefreshToken)
    ensures IsExpired(t, t.expires)
    ensures forall now | now < t.expires :: !IsExpired(t, now)
  {
  }

  /** Once expired, a token stays expired. */
  lemma ExpiryMonotone(t: RefreshToken, now: Instant, later: Instant)
    requires now <= later
    ensures IsExpired(t, now) ==> IsExpired(t, later)
  {
  }

  /**
   * `GenerateRefreshToken`: a token for `userId` whose value is the fresh
   * identifier `guid`, expiring seven days after `now`. It is live when
   * issued and until exactly seven days later.
   */
  function Generate(userId: int, guid: string, now: Instant): (t: RefreshToken)
    ensures t.userId == userId && t.token == guid
    ensures !IsExpired(t, now)
    ensures forall later :: IsExpired(t, later) <==> later >= AddDays(now, LifetimeDays)
  {
    RefreshToken(guid, AddDays(now, LifetimeDays), userId)
  }
}
