/** The access-token cache of the identity-provider client: one slot holding
    the last token. The token request, the token's `exp` claim and the clock
    are parameters: `issued` is what the token request would answer (possibly
    nothing), `expOf` reads a token's expiry and `now` is the float clock
    `time.time()` rounded up to whole seconds. Because `exp` is an integer,
    `time.time() > exp` holds exactly when the rounded-up time exceeds `exp`,
    so the comparison on `now` is the source's comparison. */
module Auth {
  import opened Wrappers

  /** Does `get_access_token` have to request a new token? Only when the slot
      holds none, or the held token's expiry lies strictly before `now`. */
  predicate NeedsRefresh(slot: Option<string>, now: int, expOf: string -> int)
    ensures slot.None? ==> NeedsRefresh(slot, now, expOf)
    ensures Truthy(slot) && now <= expOf(slot.value) ==> !NeedsRefresh(slot, now, expOf)
  {
    !Truthy(slot) || now > expOf(slot.value)
  }

  /** The token `get_access_token` answers, which is also what the slot holds afterwards. */
  function TokenAfter(slot: Option<string>, now: int, expOf: string -> int, issued: Option<string>): (r: Option<string>)
    ensures r == issued || r == slot
    ensures !Truthy(slot) ==> r == issued
  {
    if NeedsRefresh(slot, now, expOf) then issued else slot
  }

  class TokenCache {
    /** `cache["access_token"]`; None also stands for the key never written. */
    var slot: Option<string>

    constructor ()
      ensures slot == None
    {
      slot := None;
    }

    /** `get_access_token`. `fetched` reports whether the token request was made. */
    method GetAccessToken(now: int, expOf: string -> int, issued: Option<string>)
      returns (token: Option<string>, fetched: bool)
      modifies this
      ensures fetched <==> NeedsRefresh(old(slot), now, expOf)
      ensures token == (if fetched then issued else old(slot))
      ensures token == TokenAfter(old(slot), now, expOf, issued)
      ensures slot == token
    {
      token := slot;
      if token.Some? && token.value != "" {
        if now > expOf(token.value) {
          token := issued;
          fetched := true;
        } else {
          fetched := false;
        }
      } else {
        token := issued;
        fetched := true;
      }
      slot := token;
    }
  }

  /** An empty cache always requests a token and stores what it gets. */
  lemma EmptyFetches(now: int, expOf: string -> int, issued: Option<string>)
    ensures NeedsRefresh(None, now, expOf) && NeedsRefresh(Some(""), now, expOf)
    ensures TokenAfter(None, now, expOf, issued) == issued
  {
  }

  /** A held token is reused up to and including its expiry second, and replaced after it. */
  lemma ExpiryBoundary(tok: string, now: int, expOf: string -> int, issued: Option<string>)
    requires tok != ""
    ensures NeedsRefresh(Some(tok), now, expOf) <==> now > expOf(tok)
    ensures now == expOf(tok) ==> TokenAfter(Some(tok), now, expOf, issued) == Some(tok)
    ensures now > expOf(tok) ==> TokenAfter(Some(tok), now, expOf, issued) == issued
  {
  }

  /** Once a call leaves a non-empty token that has not expired at `later`, a
      call at `later` answers that token without a request, whatever a request
      would have answered. */
  lemma FreshTokenReused(slot: Option<string>, now: int, later: int, expOf: string -> int,
                         issued: Option<string>, issued': Option<string>)
    requires Truthy(TokenAfter(slot, now, expOf, issued))
    requires later <= expOf(TokenAfter(slot, now, expOf, issued).value)
    ensures var t := TokenAfter(slot, now, expOf, issued);
      !NeedsRefresh(t, later, expOf) && TokenAfter(t, later, expOf, issued') == t
  {
  }
}
