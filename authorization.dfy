/** The per-user authorization decision of the DeactivateUnauthorizedUsers job:
    which token to use (stored, refreshed or none), the credential record a
    refresh writes, and whether the provider reports a verified, active account.
    HTTP calls are oracles from the request's one varying input (the refresh
    token sent, or the bearer token) to the response. */
module Authorization {
  import opened RubyValues

  /** The provider name under which the OAuth2 associated account is stored. */
  const Provider: string := "oauth2_basic"

  /** An HTTP response as the job reads it: the status code and what
      JSON.parse makes of the body (None when it raises JSON::ParserError). */
  datatype Response = Response(status: int, parsed: Option<Value>)

  /** What the token step leaves behind: the token for the user-info call
      (falsy when none was obtained), the credential record a successful refresh
      wrote, and the refresh token posted to the token endpoint, if any. */
  datatype Selection = Selection(token: Value, rewrite: Option<Value>, refreshedWith: Option<Value>)

  /** The diagnostic the job logs on each deactivating branch. */
  datatype Reason = NotAuthorized | NoLongerAuthorized | NotVerifiedActive

  datatype Verdict = Keep | Deactivate(reason: Reason)

  /** The effect of examining one user: the credential record written by a
      refresh (it persists whatever follows), and the verdict or the exception
      that aborts the run. */
  datatype UserCheck = UserCheck(rewrite: Option<Value>, verdict: Eval<Verdict>)

  /** process_response: the parsed body of a 200 response, nil otherwise or when the body does not parse. */
  function ProcessResponse(response: Response): (r: Value)
    ensures Truthy(r) ==> response.status == 200 && response.parsed == Some(r)
    ensures response.status != 200 || response.parsed.None? ==> r == Nil
    ensures response.status == 200 && response.parsed.Some? ==> r == response.parsed.value
  {
    if response.status != 200 then Nil
    else match response.parsed
      case None => Nil
      case Some(body) => body
  }

  /** The credential record a successful refresh stores (as the jsonb column reads it back). */
  function RefreshedCredentials(accessToken: Value, expiresAt: int, refreshToken: Value): (r: Value)
    ensures r.Hash? && r.fields.Keys == {"token", "expires", "expires_at", "refresh_token"}
    ensures Lookup(r.fields, "token") == accessToken && Lookup(r.fields, "expires") == Bool(true)
    ensures Lookup(r.fields, "expires_at") == Int(expiresAt) && Lookup(r.fields, "refresh_token") == refreshToken
  {
    Hash(map["token" := accessToken, "expires" := Bool(true), "expires_at" := Int(expiresAt), "refresh_token" := refreshToken])
  }

  /** `credentials['token'] && credentials['expires_at'].to_i > Time.now.to_i`. */
  function StoredTokenUnexpired(credentials: Value, token: Value, now: int): (r: Eval<bool>)
    ensures r == Ok(true) ==> Truthy(token)
    ensures credentials.Hash? ==> (r.Raise? <==> Truthy(token) && StoredExpiry(credentials.fields).Raise?)
    ensures credentials.Hash? && r.Ok? ==> (r.value <==> Truthy(token) && StoredExpiry(credentials.fields).value > now)
  {
    if !Truthy(token) then Ok(false)
    else
      var expiresAt :- Index(credentials, "expires_at");
      var seconds :- ToI(expiresAt);
      Ok(seconds > now)
  }

  /** The refresh branch, given the refresh token posted and the processed
      token-endpoint response. The record is written only when the response
      carries a truthy `access_token`; `now + expires_in` raises when
      `expires_in` is not an Integer, before anything is written. */
  function Refresh(refreshToken: Value, now: int, tokenResponse: Value): (r: Eval<Selection>)
    ensures r.Ok? ==> r.value.refreshedWith == Some(refreshToken)
    ensures r.Ok? && !Truthy(r.value.token) ==> r.value == Selection(Nil, None, Some(refreshToken))
    ensures r.Ok? && Truthy(r.value.token) ==>
              && tokenResponse.Hash? && Lookup(tokenResponse.fields, "expires_in").Int?
              && r.value.token == Lookup(tokenResponse.fields, "access_token")
              && r.value.rewrite == Some(RefreshedCredentials(r.value.token,
                                                              now + Lookup(tokenResponse.fields, "expires_in").i,
                                                              Lookup(tokenResponse.fields, "refresh_token")))
    ensures tokenResponse.Hash? ==>
              (r.Raise? <==> Truthy(Lookup(tokenResponse.fields, "access_token"))
                             && !Lookup(tokenResponse.fields, "expires_in").Int?)
  {
    if !Truthy(tokenResponse) then Ok(Selection(Nil, None, Some(refreshToken)))
    else
      var accessToken :- Index(tokenResponse, "access_token");
      if !Truthy(accessToken) then Ok(Selection(Nil, None, Some(refreshToken)))
      else
        var expiresAt :- AddInt(now, Index(tokenResponse, "expires_in").value);
        var newRefreshToken := Index(tokenResponse, "refresh_token").value;
        Ok(Selection(accessToken, Some(RefreshedCredentials(accessToken, expiresAt, newRefreshToken)), Some(refreshToken)))
  }

  /** Token selection: the stored token while unexpired, else a refresh when a
      refresh token is present, else no token. */
  function SelectToken(credentials: Value, now: int, tokenEndpoint: Value -> Response): (r: Eval<Selection>)
    ensures r.Ok? && r.value.rewrite.Some? ==> Truthy(r.value.token) && r.value.refreshedWith.Some?
    ensures r.Ok? && r.value.rewrite.Some? ==>
              r.value.rewrite.value.Hash? && Lookup(r.value.rewrite.value.fields, "token") == r.value.token
    ensures r.Ok? && r.value.refreshedWith.Some? ==> Truthy(r.value.refreshedWith.value)
  {
    var token :- Index(credentials, "token");
    var unexpired :- StoredTokenUnexpired(credentials, token, now);
    if unexpired then Ok(Selection(token, None, None))
    else
      // `credentials['token']` did not raise, so neither does this lookup.
      var refreshToken := Index(credentials, "refresh_token").value;
      if !Truthy(refreshToken) then Ok(Selection(Nil, None, None))
      else Refresh(refreshToken, now, ProcessResponse(tokenEndpoint(refreshToken)))
  }

  /** The response body shows a verified, active account: an object whose
      `account` is an object with a truthy `email_verified` and `status` "active". */
  predicate ShowsVerifiedActive(body: Value)
  {
    && body.Hash?
    && Lookup(body.fields, "account").Hash?
    && Truthy(Lookup(Lookup(body.fields, "account").fields, "email_verified"))
    && Lookup(Lookup(body.fields, "account").fields, "status") == Str("active")
  }

  /** The account-status condition: true exactly when the job keeps the user.
      Only a lookup on a truthy value that is neither an object nor a String raises. */
  function AccountVerified(accountResponse: Value): (r: Eval<bool>)
    ensures r == Ok(true) <==> ShowsVerifiedActive(accountResponse)
    ensures r.Raise? <==>
              || (Truthy(accountResponse) && !accountResponse.Hash? && !accountResponse.Str?)
              || (accountResponse.Hash?
                  && var account := Lookup(accountResponse.fields, "account");
                     Truthy(account) && !account.Hash? && !account.Str?)
  {
    if !Truthy(accountResponse) then Ok(false)
    else
      var account :- Index(accountResponse, "account");
      if !Truthy(account) then Ok(false)
      else
        var emailVerified :- Index(account, "email_verified");
        if !Truthy(emailVerified) then Ok(false)
        else
          assert !Contains("account", "email_verified");
          Ok(Index(account, "status").value == Str("active"))
  }

  /** The verdict on a user holding `token`, from the user-info response. */
  function AccountVerdict(token: Value, userInfo: Value -> Response): (r: Eval<Verdict>)
    ensures var response := userInfo(token);
            r == Ok(Keep) <==> response.status == 200 && response.parsed.Some? && ShowsVerifiedActive(response.parsed.value)
    ensures r.Ok? && r.value != Keep ==> r.value == Deactivate(NotVerifiedActive)
  {
    var verified :- AccountVerified(ProcessResponse(userInfo(token)));
    Ok(if verified then Keep else Deactivate(NotVerifiedActive))
  }

  /** One pass of the loop body for a user, given the credentials column of the
      user's oauth2_basic associated account (None when there is no such account). */
  function CheckUser(credentials: Option<Value>, now: int, tokenEndpoint: Value -> Response,
                     userInfo: Value -> Response): (r: UserCheck)
    ensures credentials.None? || !Truthy(credentials.value) ==> r == UserCheck(None, Ok(Deactivate(NotAuthorized)))
    ensures r.rewrite.Some? ==> credentials.Some?
  {
    if credentials.None? || !Truthy(credentials.value) then UserCheck(None, Ok(Deactivate(NotAuthorized)))
    else match SelectToken(credentials.value, now, tokenEndpoint)
      case Raise(e) => UserCheck(None, Raise(e))
      case Ok(selection) =>
        if !Truthy(selection.token) then UserCheck(selection.rewrite, Ok(Deactivate(NoLongerAuthorized)))
        else UserCheck(selection.rewrite, AccountVerdict(selection.token, userInfo))
  }

  // ---------------------------------------------------------------------
  // Properties of the decision

  /** The stored token's expiry as the job reads it: `credentials['expires_at'].to_i`, a missing one being 0. */
  function StoredExpiry(fields: map<string, Value>): Eval<int>
  {
    ToI(Lookup(fields, "expires_at"))
  }

  /** The stored token cannot be used: it is absent or falsy, or its expiry is not after `now`. */
  predicate StoredTokenUnusable(fields: map<string, Value>, now: int)
  {
    !Truthy(Lookup(fields, "token")) || (StoredExpiry(fields).Ok? && StoredExpiry(fields).value <= now)
  }

  /** A truthy stored token is used as it is, with no refresh request and no
      rewrite, exactly when its expiry (missing counts as 0) is after `now`. */
  lemma StoredTokenUsedIffUnexpired(fields: map<string, Value>, now: int, tokenEndpoint: Value -> Response)
    requires Truthy(Lookup(fields, "token")) && StoredExpiry(fields).Ok?
    ensures SelectToken(Hash(fields), now, tokenEndpoint) == Ok(Selection(Lookup(fields, "token"), None, None))
            <==> StoredExpiry(fields).value > now
  {
  }

  /** A usable stored token makes the outcome independent of the token endpoint: no refresh request is made. */
  lemma UnexpiredTokenIgnoresTokenEndpoint(fields: map<string, Value>, now: int,
                                           endpoint1: Value -> Response, endpoint2: Value -> Response)
    requires Truthy(Lookup(fields, "token")) && StoredExpiry(fields).Ok? && StoredExpiry(fields).value > now
    ensures SelectToken(Hash(fields), now, endpoint1) == SelectToken(Hash(fields), now, endpoint2)
    ensures SelectToken(Hash(fields), now, endpoint1).value.refreshedWith.None?
  {
  }

  /** With the stored token unusable and no refresh token, no token is obtained,
      nothing is posted, and the user is deactivated as no longer authorized. */
  lemma NoRefreshTokenDeactivates(fields: map<string, Value>, now: int, tokenEndpoint: Value -> Response,
                                  userInfo: Value -> Response)
    requires StoredTokenUnusable(fields, now) && !Truthy(Lookup(fields, "refresh_token"))
    ensures SelectToken(Hash(fields), now, tokenEndpoint) == Ok(Selection(Nil, None, None))
    ensures CheckUser(Some(Hash(fields)), now, tokenEndpoint, userInfo) == UserCheck(None, Ok(Deactivate(NoLongerAuthorized)))
  {
  }

  /** A refresh yields a token exactly when the response is a 200 whose body
      parses to an object with a truthy `access_token` and an Integer
      `expires_in`; then the new record holds `now + expires_in` and the
      response's `refresh_token` (nil when the response has none). */
  lemma RefreshSucceedsIff(fields: map<string, Value>, now: int, tokenEndpoint: Value -> Response)
    requires StoredTokenUnusable(fields, now) && Truthy(Lookup(fields, "refresh_token"))
    ensures var response := tokenEndpoint(Lookup(fields, "refresh_token"));
            var r := SelectToken(Hash(fields), now, tokenEndpoint);
            (r.Ok? && Truthy(r.value.token))
            <==>
            (response.status == 200 && response.parsed.Some? && response.parsed.value.Hash?
             && Truthy(Lookup(response.parsed.value.fields, "access_token"))
             && Lookup(response.parsed.value.fields, "expires_in").Int?)
    ensures var response := tokenEndpoint(Lookup(fields, "refresh_token"));
            response.status == 200 && response.parsed.Some? && response.parsed.value.Hash?
            && Truthy(Lookup(response.parsed.value.fields, "access_token"))
            && Lookup(response.parsed.value.fields, "expires_in").Int?
            ==>
            var m := response.parsed.value.fields;
            var accessToken := Lookup(m, "access_token");
            SelectToken(Hash(fields), now, tokenEndpoint)
            == Ok(Selection(accessToken,
                            Some(RefreshedCredentials(accessToken, now + Lookup(m, "expires_in").i, Lookup(m, "refresh_token"))),
                            Some(Lookup(fields, "refresh_token"))))
  {
    var refreshToken := Lookup(fields, "refresh_token");
    var response := tokenEndpoint(refreshToken);
    var tokenResponse := ProcessResponse(response);
    assert SelectToken(Hash(fields), now, tokenEndpoint) == Refresh(refreshToken, now, tokenResponse);
    if tokenResponse.Str? {
      var accessToken := Index(tokenResponse, "access_token");
      if Truthy(accessToken.value) {
        var expiresIn := Index(tokenResponse, "expires_in").value;
        assert expiresIn == Nil || expiresIn == Str("expires_in");
        assert Refresh(refreshToken, now, tokenResponse) == Raise(TypeError);
      }
    }
  }

  /** A refresh that yields no token writes nothing: the stored credentials stay as they were. */
  lemma FailedRefreshWritesNothing(fields: map<string, Value>, now: int, tokenEndpoint: Value -> Response,
                                   userInfo: Value -> Response)
    requires StoredTokenUnusable(fields, now) && Truthy(Lookup(fields, "refresh_token"))
    requires var body := ProcessResponse(tokenEndpoint(Lookup(fields, "refresh_token")));
             || !Truthy(body)
             || (body.Hash? && !Truthy(Lookup(body.fields, "access_token")))
             || (body.Str? && !Truthy(Index(body, "access_token").value))
    ensures SelectToken(Hash(fields), now, tokenEndpoint) == Ok(Selection(Nil, None, Some(Lookup(fields, "refresh_token"))))
    ensures CheckUser(Some(Hash(fields)), now, tokenEndpoint, userInfo) == UserCheck(None, Ok(Deactivate(NoLongerAuthorized)))
  {
  }

  /** A 200 refresh response with a truthy `access_token` but without an
      Integer `expires_in` raises before the record is written. */
  lemma MissingExpiresInRaises(fields: map<string, Value>, now: int, tokenEndpoint: Value -> Response,
                               userInfo: Value -> Response)
    requires StoredTokenUnusable(fields, now) && Truthy(Lookup(fields, "refresh_token"))
    requires var response := tokenEndpoint(Lookup(fields, "refresh_token"));
             response.status == 200 && response.parsed.Some? && response.parsed.value.Hash?
             && Truthy(Lookup(response.parsed.value.fields, "access_token"))
             && !Lookup(response.parsed.value.fields, "expires_in").Int?
    ensures SelectToken(Hash(fields), now, tokenEndpoint) == Raise(TypeError)
    ensures CheckUser(Some(Hash(fields)), now, tokenEndpoint, userInfo) == UserCheck(None, Raise(TypeError))
  {
  }

  /** The job keeps a user exactly when the user-info response is a 200 whose
      body parses to an object whose `account` is an object with a truthy
      `email_verified` and `status` equal to "active". */
  lemma AccountVerifiedIff(response: Response)
    ensures AccountVerified(ProcessResponse(response)) == Ok(true)
            <==>
            (response.status == 200 && response.parsed.Some? && response.parsed.value.Hash?
             && Lookup(response.parsed.value.fields, "account").Hash?
             && Truthy(Lookup(Lookup(response.parsed.value.fields, "account").fields, "email_verified"))
             && Lookup(Lookup(response.parsed.value.fields, "account").fields, "status") == Str("active"))
  {
    var body := ProcessResponse(response);
    if body.Str? {
      var account := Index(body, "account").value;
      assert account == Nil || account == Str("account");
      if account == Str("account") {
        assert !Contains("account", "email_verified");
      }
    } else if body.Hash? {
      var account := Lookup(body.fields, "account");
      if account.Str? && Truthy(Index(account, "email_verified").value) {
        var status := Index(account, "status").value;
        assert status == Nil || status == Str("status");
      }
    }
  }

  /** A response that does not show a verified, active account never keeps the
      user: the verdict is a deactivation, or an exception when the body's
      shape makes a lookup raise. */
  lemma UnverifiedDeactivates(credentials: Value, now: int, tokenEndpoint: Value -> Response,
                              userInfo: Value -> Response)
    requires Truthy(credentials)
    requires SelectToken(credentials, now, tokenEndpoint).Ok?
    requires var token := SelectToken(credentials, now, tokenEndpoint).value.token;
             Truthy(token) && AccountVerified(ProcessResponse(userInfo(token))) != Ok(true)
    ensures CheckUser(Some(credentials), now, tokenEndpoint, userInfo).verdict
            in {Ok(Deactivate(NotVerifiedActive)), Raise(NoMethodError), Raise(TypeError)}
  {
  }

  /** The record written by a successful refresh survives whatever the
      account check decides: it is written before the user-info request. */
  lemma RewriteSurvivesVerdict(credentials: Value, now: int, tokenEndpoint: Value -> Response,
                               userInfo: Value -> Response)
    requires Truthy(credentials)
    requires SelectToken(credentials, now, tokenEndpoint).Ok?
    ensures CheckUser(Some(credentials), now, tokenEndpoint, userInfo).rewrite
            == SelectToken(credentials, now, tokenEndpoint).value.rewrite
  {
  }

  /** Whether a credential record's `expires_at` is still ahead of `now`. */
  predicate UnexpiredAt(record: Value, now: int)
  {
    record.Hash? && StoredExpiry(record.fields).Ok? && StoredExpiry(record.fields).value > now
  }

  /** Re-examining a kept user at the same time, against the same provider,
      keeps the user again without a further refresh, provided a record the
      first pass wrote expires after `now` (a positive `expires_in`). */
  lemma {:induction false} RecheckKeeps(credentials: Value, now: int, tokenEndpoint: Value -> Response,
                                        userInfo: Value -> Response)
    requires CheckUser(Some(credentials), now, tokenEndpoint, userInfo).verdict == Ok(Keep)
    requires var rewrite := CheckUser(Some(credentials), now, tokenEndpoint, userInfo).rewrite;
             rewrite.Some? ==> UnexpiredAt(rewrite.value, now)
    ensures var first := CheckUser(Some(credentials), now, tokenEndpoint, userInfo);
            var after := if first.rewrite.Some? then first.rewrite.value else credentials;
            CheckUser(Some(after), now, tokenEndpoint, userInfo) == UserCheck(None, Ok(Keep))
  {
    var first := CheckUser(Some(credentials), now, tokenEndpoint, userInfo);
    if first.rewrite.Some? {
      var selection := SelectToken(credentials, now, tokenEndpoint).value;
      assert first == UserCheck(selection.rewrite, AccountVerdict(selection.token, userInfo));
      RecheckRefreshed(selection.rewrite.value, selection.token, now, tokenEndpoint, userInfo);
    }
  }

  /** The record a refresh wrote, while unexpired, selects its own token again with no refresh. */
  lemma RecheckRefreshed(record: Value, token: Value, now: int, tokenEndpoint: Value -> Response,
                         userInfo: Value -> Response)
    requires UnexpiredAt(record, now) && Truthy(token) && Lookup(record.fields, "token") == token
    ensures CheckUser(Some(record), now, tokenEndpoint, userInfo) == UserCheck(None, AccountVerdict(token, userInfo))
  {
    StoredTokenUsedIffUnexpired(record.fields, now, tokenEndpoint);
    assert SelectToken(record, now, tokenEndpoint) == Ok(Selection(token, None, None));
  }

  /** A refresh response without `refresh_token` stores a nil refresh token:
      once the new token expires, the user is deactivated as no longer
      authorized without any refresh attempt, whatever the token endpoint answers. */
  lemma {:induction false} RefreshTokenDropped(accessToken: Value, expiresAt: int, later: int,
                                               tokenEndpoint: Value -> Response, userInfo: Value -> Response)
    requires later >= expiresAt
    ensures var record := RefreshedCredentials(accessToken, expiresAt, Nil);
            SelectToken(record, later, tokenEndpoint) == Ok(Selection(Nil, None, None))
            && CheckUser(Some(record), later, tokenEndpoint, userInfo) == UserCheck(None, Ok(Deactivate(NoLongerAuthorized)))
  {
    var record := RefreshedCredentials(accessToken, expiresAt, Nil);
    assert StoredTokenUnusable(record.fields, later);
    NoRefreshTokenDeactivates(record.fields, later, tokenEndpoint, userInfo);
  }
}
