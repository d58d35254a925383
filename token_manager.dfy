/**
  The refresh manager of token_manager.py.  The google-auth pieces become
  inputs: `expired` stands for `Credentials(**token_info).expired`, and the
  provider's token endpoint, reached by `credentials.refresh(...)`, is a
  `TokenEndpoint` object that logs each request and answers it.
*/
module TokenManager {
  import opened Wrappers
  import opened TokenManagement

  /** The `HTTPException` raised to the route layer. */
  datatype HttpError = HttpError(statusCode: int, detail: string)

  /** What every failure inside the refresh attempt becomes. */
  const RefreshFailed: HttpError := HttpError(500, "Failed to refresh token")

  /** What the credential sends to the provider's token endpoint. */
  datatype RefreshRequest = RefreshRequest(
    tokenUri: string,
    clientId: string,
    clientSecret: string,
    refreshToken: Option<string>)

  /** The provider's answer: a new access token and maybe a new refresh token, or an error. */
  datatype RefreshReply = Refreshed(token: string, refreshToken: Option<string>) | RefreshError

  /** Python truthiness of an optional string: present and non-empty. */
  predicate Truthy(s: Option<string>)
  {
    s.Some? && s.value != ""
  }

  /** The guard of `refresh_access_token`: expired and holding a refresh token. */
  predicate NeedsRefresh(info: TokenInfo, expired: bool)
    // a credential the guard sends to the provider is never one the manager calls valid
    ensures NeedsRefresh(info, expired) ==> !IsTokenValid(info, expired)
  {
    expired && Truthy(info.refreshToken)
  }

  /** The request a credential built from `info` sends. */
  function RequestFor(info: TokenInfo): RefreshRequest
  {
    RefreshRequest(info.tokenUri, info.clientId, info.clientSecret, info.refreshToken)
  }

  /**
    The six-field record built after a successful refresh.  It has no
    `expires_at`, so the store's validity test rejects it at every time, and
    it never loses a refresh token the input had.
  */
  function RefreshedRecord(info: TokenInfo, newToken: string, newRefreshToken: Option<string>): (r: TokenInfo)
    ensures forall now :: !TokenManagement.IsTokenValid(r, now)
    ensures Truthy(info.refreshToken) ==> Truthy(r.refreshToken)
    ensures r.token == newToken
    ensures r.refreshToken == if Truthy(newRefreshToken) then newRefreshToken else info.refreshToken
  {
    TokenInfo(
      newToken,
      if Truthy(newRefreshToken) then newRefreshToken else info.refreshToken,
      info.tokenUri,
      info.clientId,
      info.clientSecret,
      info.scopes,
      None)
  }

  /** What `refresh_access_token` returns or raises, and the record it saves, if any. */
  datatype RefreshOutcome = RefreshOutcome(result: Result<TokenInfo, HttpError>, saved: Option<TokenInfo>)

  /**
    The decision of `refresh_access_token`, given the answer the provider
    would give.  Without the guard the input comes back and nothing is saved;
    a provider error becomes `RefreshFailed` and nothing is saved; otherwise
    the new record is saved and returned.
  */
  function RefreshDecision(info: TokenInfo, expired: bool, reply: RefreshReply): (o: RefreshOutcome)
    ensures !NeedsRefresh(info, expired) ==> o == RefreshOutcome(Ok(info), None)
    ensures o.result.Err? ==> o.result.error == RefreshFailed && o.saved.None?
    ensures o.saved.Some? ==> o.result == Ok(o.saved.value) && o.saved.value.expiresAt.None?
    ensures o.result.Ok? && o.result.value != info ==> o.saved == Some(o.result.value)
    ensures NeedsRefresh(info, expired) && reply.Refreshed? ==>
      o.saved == Some(RefreshedRecord(info, reply.token, reply.refreshToken))
    ensures NeedsRefresh(info, expired) && reply.RefreshError? ==> o.result == Err(RefreshFailed)
  {
    if NeedsRefresh(info, expired) then
      match reply
      case RefreshError => RefreshOutcome(Err(RefreshFailed), None)
      case Refreshed(token, refreshToken) =>
        var record := RefreshedRecord(info, token, refreshToken);
        RefreshOutcome(Ok(record), Some(record))
    else
      RefreshOutcome(Ok(info), None)
  }

  /**
    The provider's token endpoint, as seen by the manager: it answers each
    request by `answer` and logs the requests it received.  Because `answer`
    is fixed, one endpoint gives the same reply to the same request every
    time; `Lifecycle` supplies a reply per operation instead.
  */
  class TokenEndpoint {
    var requests: seq<RefreshRequest>
    const answer: RefreshRequest -> RefreshReply

    constructor (answer: RefreshRequest -> RefreshReply)
      ensures requests == [] && this.answer == answer
    {
      requests := [];
      this.answer := answer;
    }

    /** One round trip: `credentials.refresh(GoogleRequest())`. */
    method Refresh(request: RefreshRequest) returns (reply: RefreshReply)
      modifies this
      ensures requests == old(requests) + [request]
      ensures reply == answer(request)
    {
      requests := requests + [request];
      reply := answer(request);
    }
  }

  /**
    `refresh_access_token`: one provider round trip exactly when the guard
    holds, none otherwise; the store changes only by saving the refreshed
    record, which is also what is returned.
  */
  method RefreshAccessToken(store: TokenStore, endpoint: TokenEndpoint, info: TokenInfo, expired: bool)
    returns (r: Result<TokenInfo, HttpError>)
    modifies store, endpoint
    ensures endpoint.requests ==
      if NeedsRefresh(info, expired) then old(endpoint.requests) + [RequestFor(info)] else old(endpoint.requests)
    ensures var o := RefreshDecision(info, expired, endpoint.answer(RequestFor(info)));
      && r == o.result
      && match o.saved
         case Some(record) => store.cache == Some(record) && store.file == Holds(record)
         case None => store.cache == old(store.cache) && store.file == old(store.file)
    ensures old(store.Consistent()) ==> store.Consistent()
  {
    if expired && Truthy(info.refreshToken) {
      var reply := endpoint.Refresh(RequestFor(info));
      match reply
      case RefreshError =>
        return Err(RefreshFailed);
      case Refreshed(token, refreshToken) =>
        var record := RefreshedRecord(info, token, refreshToken);
        store.Save(record);
        return Ok(record);
    }
    return Ok(info);
  }

  /**
    The manager's own validity test: false when expired, false without a
    refresh token, true otherwise.  It looks at neither `expires_at` nor the
    clock, so it differs from `TokenManagement.IsTokenValid`.
  */
  predicate IsTokenValid(info: TokenInfo, expired: bool)
    // a credential the manager calls valid is unexpired and can still be refreshed later
    ensures IsTokenValid(info, expired) ==> !expired && info.refreshToken.Some? && info.refreshToken.value != ""
  {
    if expired then false
    else if !Truthy(info.refreshToken) then false
    else true
  }

  /** Both sides of the manager's validity test. */
  lemma ManagerValidIff(info: TokenInfo, expired: bool)
    ensures expired ==> !IsTokenValid(info, expired)
    ensures !Truthy(info.refreshToken) ==> !IsTokenValid(info, expired)
    ensures IsTokenValid(info, expired) <==> !expired && Truthy(info.refreshToken)
  {
  }

  /** A credential the manager calls valid is left alone by a refresh, whatever the provider would say. */
  lemma ValidMeansNoRefresh(info: TokenInfo, expired: bool, reply: RefreshReply)
    requires IsTokenValid(info, expired)
    ensures !NeedsRefresh(info, expired)
    ensures RefreshDecision(info, expired, reply) == RefreshOutcome(Ok(info), None)
  {
  }

  /** A successful refresh keeps the provider's refresh token if non-empty, else the old one. */
  lemma RefreshKeepsRefreshToken(info: TokenInfo, token: string, refreshToken: Option<string>)
    requires Truthy(info.refreshToken)
    ensures var o := RefreshDecision(info, true, Refreshed(token, refreshToken));
      && o.result.Ok?
      && o.result.value.refreshToken == (if Truthy(refreshToken) then refreshToken else info.refreshToken)
      && Truthy(o.result.value.refreshToken)
  {
  }

  /** The saved record is the returned one: new token, copied client fields and scopes, no expiry. */
  lemma RefreshedRecordFields(info: TokenInfo, token: string, refreshToken: Option<string>)
    requires Truthy(info.refreshToken)
    ensures var o := RefreshDecision(info, true, Refreshed(token, refreshToken));
      && o.saved == Some(o.result.value)
      && o.result.value.token == token
      && o.result.value.tokenUri == info.tokenUri
      && o.result.value.clientId == info.clientId
      && o.result.value.clientSecret == info.clientSecret
      && o.result.value.scopes == info.scopes
      && o.result.value.expiresAt.None?
  {
  }

  /** A provider error raises `RefreshFailed` and saves nothing. */
  lemma RefreshFailureSavesNothing(info: TokenInfo)
    requires Truthy(info.refreshToken)
    ensures RefreshDecision(info, true, RefreshError) == RefreshOutcome(Err(RefreshFailed), None)
  {
  }

  /**
    The two validity tests disagree in both directions: a refreshed record is
    valid to the manager and invalid to the store, and a record with a future
    expiry but no refresh token is valid to the store and invalid to the manager.
  */
  lemma ValidityTestsDisagree()
    ensures exists info: TokenInfo, now: int ::
      IsTokenValid(info, false) && !TokenManagement.IsTokenValid(info, now)
    ensures exists info: TokenInfo, now: int ::
      !IsTokenValid(info, false) && TokenManagement.IsTokenValid(info, now)
  {
    var refreshed := TokenInfo("access", Some("refresh"), "uri", "id", "secret", [], None);
    assert IsTokenValid(refreshed, false) && !TokenManagement.IsTokenValid(refreshed, 0);
    var noRefresh := TokenInfo("access", None, "uri", "id", "secret", [], Some(1));
    assert !IsTokenValid(noRefresh, false) && TokenManagement.IsTokenValid(noRefresh, 0);
  }
}
