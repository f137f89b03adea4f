/** The access-token lifecycle of `ghCheckToken` and `ghCreateToken`: when a
    cached installation token must be replaced, and how a replacement is
    stored. Time is an integer count of milliseconds, as `moment` keeps it. */
module Token {
  import opened Results

  const MillisPerSecond: int := 1000
  const MillisPerMinute: int := 60 * MillisPerSecond

  /** The safety margin: a token is replaced once less than five minutes of
      its life remain. */
  const BufferMinutes: int := 5
  const BufferMillis: int := BufferMinutes * MillisPerMinute

  /** Lifetime of the signed application assertion: nine and a half minutes. */
  const AssertionLifetimeSeconds: int := 9 * 60 + 30

  /** The cached pair `ghAccessToken` / `ghTokenExpiration`; `None` stands for
      the initial `null` (and for `undefined`). */
  datatype TokenState = TokenState(accessToken: Option<string>, expiration: Option<int>)

  const Unset: TokenState := TokenState(None, None)

  /** `!ghAccessToken || !ghTokenExpiration`: JavaScript truthiness makes an
      empty token string count as missing. */
  predicate NoToken(st: TokenState)
  {
    st.accessToken.None? || st.accessToken.value == "" || st.expiration.None?
  }

  /** The refresh rule: no usable token, or the expiry moved five minutes
      earlier is strictly before `now` (`isBefore`). */
  function NeedToken(st: TokenState, now: int): (b: bool)
    ensures !b <==> && st.accessToken.Some? && st.accessToken.value != ""
                    && st.expiration.Some? && st.expiration.value - now >= BufferMillis
  {
    NoToken(st) || st.expiration.value - BufferMillis < now
  }

  /** The claims of the signed assertion: issued-at, expiry and issuer. */
  datatype Claims = Claims(iat: int, exp: int, iss: string)

  /** The assertion claims built at `nowMillis`: `unix()` truncates to whole
      seconds, and the expiry is taken after adding 570 seconds. */
  function AssertionClaims(nowMillis: int, appId: string): (c: Claims)
    ensures c.exp - c.iat == AssertionLifetimeSeconds
    ensures c.iat * MillisPerSecond <= nowMillis < (c.iat + 1) * MillisPerSecond
    ensures c.iss == appId
  {
    Claims(nowMillis / MillisPerSecond,
           (nowMillis + AssertionLifetimeSeconds * MillisPerSecond) / MillisPerSecond,
           appId)
  }

  /** What the token-issuance endpoint gives back. On a failed call `ghApi`
      yields `false`, whose parse has no `token` field. */
  datatype ExchangeReply = Issued(token: string, expiresAt: int) | ExchangeFailed

  /** The state stored by `ghCreateToken` at time `now`. Both fields are
      overwritten together from the reply; after a failed exchange the token
      is `undefined` and `moment(undefined)` reads as the current time. */
  function CreateToken(reply: ExchangeReply, now: int): (st: TokenState)
    ensures reply.Issued? ==> st.accessToken == Some(reply.token) && st.expiration == Some(reply.expiresAt)
    ensures reply.ExchangeFailed? ==> NoToken(st)
  {
    match reply
    case Issued(token, expiresAt) => TokenState(Some(token), Some(expiresAt))
    case ExchangeFailed => TokenState(None, Some(now))
  }

  /** `ghCheckToken` at time `now`, with `reply` the answer the exchange would
      get: the state is replaced exactly when the refresh rule fires. */
  function CheckToken(st: TokenState, now: int, reply: ExchangeReply): (r: TokenState)
    ensures !NeedToken(st, now) ==> r == st
    ensures NeedToken(st, now) && reply.Issued? ==>
              r.accessToken == Some(reply.token) && r.expiration == Some(reply.expiresAt)
    ensures NeedToken(st, now) && reply.ExchangeFailed? ==> NoToken(r)
  {
    if NeedToken(st, now) then CreateToken(reply, now) else st
  }

  /** A token that needs no refresh now needed none at any earlier time, and
      one that needs a refresh keeps needing it as time passes. */
  lemma NeedTokenMonotone(st: TokenState, t: int, later: int)
    requires t <= later
    ensures NeedToken(st, t) ==> NeedToken(st, later)
  {
  }

  /** With an exchange that issues a usable token, the cached state changes
      if and only if the refresh rule fires. */
  lemma RefreshIff(st: TokenState, now: int, token: string, expiresAt: int)
    requires token != "" && expiresAt - BufferMillis >= now
    ensures CheckToken(st, now, Issued(token, expiresAt)) == st <==> !NeedToken(st, now)
  {
  }

  /** After a check whose exchange issues a fresh token, the cached token is
      usable for at least the safety margin: the next check at the same time
      does nothing. */
  lemma CheckLeavesUsableToken(st: TokenState, now: int, reply: ExchangeReply)
    requires reply.Issued? && reply.token != "" && reply.expiresAt - BufferMillis >= now
    ensures !NeedToken(CheckToken(st, now, reply), now)
    ensures var r := CheckToken(st, now, reply);
            r.expiration.value - now >= BufferMillis
  {
  }

  /** A failed exchange is not fatal: the run carries on without a token and
      the next check, at any time, asks for one again. */
  lemma FailedExchangeRetried(st: TokenState, now: int, later: int)
    requires NeedToken(st, now)
    ensures NeedToken(CheckToken(st, now, ExchangeFailed), later)
  {
  }

  /** The first check of a run always asks for a token. */
  lemma StartupNeedsToken(now: int)
    ensures NeedToken(Unset, now)
  {
  }

  /** Four minutes of life left: the token is replaced. */
  lemma FourMinutesLeftRefreshes(token: string, now: int)
    requires token != ""
    ensures NeedToken(TokenState(Some(token), Some(now + 4 * MillisPerMinute)), now)
  {
  }

  /** Ten minutes of life left: the token is kept. */
  lemma TenMinutesLeftKeeps(token: string, now: int)
    requires token != ""
    ensures !NeedToken(TokenState(Some(token), Some(now + 10 * MillisPerMinute)), now)
  {
  }

  /** Exactly five minutes left: `isBefore` is strict, so the token is kept. */
  lemma ExactlyBufferLeftKeeps(token: string, now: int)
    requires token != ""
    ensures !NeedToken(TokenState(Some(token), Some(now + BufferMillis)), now)
  {
  }
}
