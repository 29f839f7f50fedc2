/**
 * Login page, the `login_required` guard, and Google sign-in and sign-out.
 * The replies of Google's endpoints (code exchange, tokeninfo, userinfo,
 * revoke) are parameters.
 */
module Auth {
  import opened Wrappers
  import opened Models
  import opened Tables
  import opened Http
  import opened Users

  /** `login`: the page remembers where to go afterwards, `?next=` or else the catalog home. */
  function Login(args: map<string, string>): (r: Response)
    ensures r.Render? && r.page.LoginPage?
    ensures "next" in args ==> r.page.next == Literal(args["next"])
    ensures "next" !in args ==> r.page.next == CatalogHome
  {
    Render(LoginPage(if "next" in args then Literal(args["next"]) else CatalogHome))
  }

  /** The session is signed in when it holds a `username`. */
  predicate SignedIn(session: map<string, SessionValue>)
  {
    "username" in session
  }

  /**
   * `login_required` around a handler whose response would be `handler`:
   * without a `username` the handler is skipped and the client is sent to
   * the login page with the requested URL as `next`.
   */
  function LoginRequired(session: map<string, SessionValue>, requestUrl: string, handler: Response): (r: Response)
    ensures !SignedIn(session) ==> r == Redirect(LoginUrl(requestUrl))
    ensures SignedIn(session) ==> r == handler
  {
    if !SignedIn(session) then Redirect(LoginUrl(requestUrl)) else handler
  }

  /** Following the guard's redirect shows a login page that returns to the URL first requested. */
  lemma GuardReturnsToRequestedUrl(session: map<string, SessionValue>, requestUrl: string, handler: Response)
    requires !SignedIn(session)
    ensures var r := LoginRequired(session, requestUrl, handler);
      r.Redirect? && r.to.LoginUrl? && Login(map["next" := r.to.next]) == Render(LoginPage(Literal(requestUrl)))
  {
  }

  /** The credentials the authorization code is exchanged for: the access token and the id token's `sub`. */
  datatype Credentials = Credentials(accessToken: string, sub: string)

  /** Google's tokeninfo reply: `error`, `user_id` and `audience`, each possibly absent. */
  datatype TokenInfo = TokenInfo(error: Option<Json>, userId: Option<string>, audience: Option<string>)

  /** Google's userinfo reply. */
  datatype UserInfo = UserInfo(name: string, picture: string, email: string)

  const UpgradeFailed: string := "Failed to upgrade authorization code."
  const UserIdMismatch: string := "Token's user ID does not match given user ID."
  const ClientIdMismatch: string := "Token's client ID does not match app's client ID."
  const AlreadyConnected: string := "Current user is already connected."
  const NotConnected: string := "Current user not connected."

  /** `result.get('error') is not None`: a present, non-null `error`. */
  predicate TokenError(info: TokenInfo)
  {
    info.error.Some? && info.error.value != JNull
  }

  /** The session already holds credentials for this Google account. */
  predicate ConnectedAs(session: map<string, SessionValue>, sub: string)
  {
    "credentials" in session && "gplus_id" in session && session["gplus_id"] == SStr(sub)
  }

  /**
   * The checks `google_connect` makes before touching the session, in their
   * order: the response of the first that stops the request, or None when
   * the sign-in goes ahead. A missing `user_id` or `audience` in the
   * tokeninfo reply raises, which is answered with the 500 page.
   */
  function ConnectChecks(exchange: Option<Credentials>, info: TokenInfo, clientId: string,
                         session: map<string, SessionValue>): (r: Option<Response>)
    ensures exchange.None? ==> r == Some(JsonResponse(401, JStr(UpgradeFailed)))
    ensures r.None? ==>
      && exchange.Some? && !TokenError(info)
      && info.userId == Some(exchange.value.sub)
      && info.audience == Some(clientId)
      && !ConnectedAs(session, exchange.value.sub)
    ensures r.Some? && r.value.JsonResponse? && r.value.status == 200 ==>
      exchange.Some? && !TokenError(info) && info.userId == Some(exchange.value.sub)
      && info.audience == Some(clientId) && ConnectedAs(session, exchange.value.sub)
    ensures exchange.Some? && !TokenError(info) && info.userId == Some(exchange.value.sub)
            && info.audience == Some(clientId) ==>
      r == if ConnectedAs(session, exchange.value.sub) then Some(JsonResponse(200, JStr(AlreadyConnected))) else None
  {
    if exchange.None? then Some(JsonResponse(401, JStr(UpgradeFailed)))
    else if TokenError(info) then Some(JsonResponse(500, info.error.value))
    else if info.userId.None? then Some(ServerError)
    else if info.userId.value != exchange.value.sub then Some(JsonResponse(401, JStr(UserIdMismatch)))
    else if info.audience.None? then Some(ServerError)
    else if info.audience.value != clientId then Some(JsonResponse(401, JStr(ClientIdMismatch)))
    else if ConnectedAs(session, exchange.value.sub) then Some(JsonResponse(200, JStr(AlreadyConnected)))
    else None
  }

  /** The first failing check decides the response, whatever the later inputs are. */
  lemma {:induction false} FirstFailureWins(exchange: Option<Credentials>, info: TokenInfo, info': TokenInfo,
                                           clientId: string, clientId': string,
                                           session: map<string, SessionValue>, session': map<string, SessionValue>)
    ensures exchange.None? ==> ConnectChecks(exchange, info, clientId, session) == ConnectChecks(exchange, info', clientId', session')
    ensures exchange.Some? && TokenError(info) ==>
      ConnectChecks(exchange, info, clientId, session) == ConnectChecks(exchange, info, clientId', session')
      && ConnectChecks(exchange, info, clientId, session) == Some(JsonResponse(500, info.error.value))
    ensures exchange.Some? && !TokenError(info) && info.userId.Some? && info.userId.value != exchange.value.sub ==>
      ConnectChecks(exchange, info, clientId, session) == Some(JsonResponse(401, JStr(UserIdMismatch)))
    ensures exchange.Some? && !TokenError(info) && info.userId == Some(exchange.value.sub)
            && info.audience.Some? && info.audience.value != clientId ==>
      ConnectChecks(exchange, info, clientId, session) == Some(JsonResponse(401, JStr(ClientIdMismatch)))
  {
  }

  /** The session after the six writes `google_connect` makes before resolving the user. */
  function ProfileWrites(session: map<string, SessionValue>, cred: Credentials, profile: UserInfo): (s: map<string, SessionValue>)
    ensures "credentials" in s && s["credentials"] == SStr(cred.accessToken)
    ensures "gplus_id" in s && s["gplus_id"] == SStr(cred.sub)
    ensures "provider" in s && s["provider"] == SStr("google")
    ensures "username" in s && s["username"] == SStr(profile.name)
    ensures "picture" in s && s["picture"] == SStr(profile.picture)
    ensures "email" in s && s["email"] == SStr(profile.email)
    ensures HasProfile(s)
    ensures s.Keys == session.Keys + {"credentials", "gplus_id", "provider", "username", "picture", "email"}
    ensures forall k :: k in session && k !in {"credentials", "gplus_id", "provider", "username", "picture", "email"} ==>
      k in s && s[k] == session[k]
  {
    session["credentials" := SStr(cred.accessToken)]["gplus_id" := SStr(cred.sub)]
           ["provider" := SStr("google")]["username" := SStr(profile.name)]
           ["picture" := SStr(profile.picture)]["email" := SStr(profile.email)]
  }

  /** The HTML welcome fragment returned on a successful sign-in. */
  function Welcome(profile: UserInfo): string
  {
    "<h1>Welcome, " + profile.name + "!</h1>" + "<p>" + profile.email + "</p>"
    + "<img src=\"" + profile.picture + "\" class=\"img-circle\" width=\"200\">"
  }

  /**
   * `google_connect`. When a check stops the request neither the session nor
   * the database changes. Otherwise the session receives the credentials,
   * Google id, provider and profile one key at a time, then the local user id
   * is resolved (creating the user when needed). If that fails the request
   * ends with the 500 page and the session keeps the profile just written,
   * together with whatever `user_id` it held before.
   */
  method GoogleConnect(db: Database, session: Session, exchange: Option<Credentials>, info: TokenInfo,
                       clientId: string, profile: UserInfo) returns (r: Response)
    requires db.Valid()
    modifies db, session
    ensures db.Valid()
    ensures var early := ConnectChecks(exchange, info, clientId, old(session.entries));
      early.Some? ==> r == early.value && session.entries == old(session.entries) && unchanged(db)
    ensures var early := ConnectChecks(exchange, info, clientId, old(session.entries));
      early.None? ==>
        var written := ProfileWrites(old(session.entries), exchange.value, profile);
        && (r == ServerError || r == Html(200, Welcome(profile)))
        && (r == ServerError ==> session.entries == written)
        && (r.Html? ==>
              && "user_id" in session.entries && session.entries["user_id"].SInt?
              && session.entries == written["user_id" := session.entries["user_id"]]
              && GetUserId(db.users, db.nextUserId, profile.email) == Some(session.entries["user_id"].i))
        && (old(GetUserId(db.users, db.nextUserId, profile.email)).Some? ==>
              r.Html? && session.entries["user_id"] == SInt(old(GetUserId(db.users, db.nextUserId, profile.email)).value)
              && unchanged(db))
        && (r.Html? <==>
              || old(GetUserId(db.users, db.nextUserId, profile.email)).Some?
              || ((forall k :: k in old(db.users) ==> old(db.users)[k].email != profile.email)
                  && UserFits(User(old(db.nextUserId), profile.name, profile.email, Some(profile.picture)))))
        && ((forall k :: k in old(db.users) ==> old(db.users)[k].email != profile.email)
            && UserFits(User(old(db.nextUserId), profile.name, profile.email, Some(profile.picture))) ==>
              session.entries["user_id"] == SInt(old(db.nextUserId))
              && HasUser(db.users, User(old(db.nextUserId), profile.name, profile.email, Some(profile.picture))))
    ensures db.categories == old(db.categories) && db.nextCategoryId == old(db.nextCategoryId)
    ensures db.items == old(db.items) && db.nextItemId == old(db.nextItemId)
    ensures var known := old(GetUserId(db.users, db.nextUserId, profile.email)).Some?;
      var u := User(old(db.nextUserId), profile.name, profile.email, Some(profile.picture));
      ConnectChecks(exchange, info, clientId, old(session.entries)).None? && !known ==>
        && db.nextUserId == old(db.nextUserId) + 1
        && db.users == (if UserFits(u) then old(db.users)[u.id := u] else old(db.users))
    ensures session.entries != old(session.entries) ==>
      exchange.Some? && !TokenError(info) && info.userId == Some(exchange.value.sub) && info.audience == Some(clientId)
  {
    var early := ConnectChecks(exchange, info, clientId, session.entries);
    if early.Some? {
      return early.value;
    }
    var cred := exchange.value;
    session.entries := session.entries["credentials" := SStr(cred.accessToken)];
    session.entries := session.entries["gplus_id" := SStr(cred.sub)];
    session.entries := session.entries["provider" := SStr("google")];
    session.entries := session.entries["username" := SStr(profile.name)];
    session.entries := session.entries["picture" := SStr(profile.picture)];
    session.entries := session.entries["email" := SStr(profile.email)];
    assert session.entries == ProfileWrites(old(session.entries), cred, profile);
    assert session.entries["email"].s == profile.email;
    assert ProfileUser(session.entries, db.nextUserId) == User(db.nextUserId, profile.name, profile.email, Some(profile.picture));
    var resolved := ResolveUserId(db, session);
    if resolved.Err? {
      return ServerError;
    }
    session.entries := session.entries["user_id" := SInt(resolved.value)];
    r := Html(200, Welcome(profile));
  }

  /**
   * `google_disconnect`: without stored credentials nothing changes and the
   * answer is 401. Otherwise the token is revoked: when that request raises
   * (`revokeStatus` None) the 500 page is shown and the session is kept;
   * when it answers, whatever its status, the whole session is cleared and
   * the client goes back to the catalog.
   */
  method GoogleDisconnect(session: Session, revokeStatus: Option<string>) returns (r: Response)
    modifies session
    ensures "credentials" !in old(session.entries) ==>
      r == JsonResponse(401, JStr(NotConnected)) && session.entries == old(session.entries)
    ensures "credentials" in old(session.entries) && revokeStatus.None? ==>
      r == ServerError && session.entries == old(session.entries)
    ensures "credentials" in old(session.entries) && revokeStatus.Some? ==>
      r == Redirect(CatalogHome) && session.entries == map[]
  {
    if "credentials" !in session.entries {
      return JsonResponse(401, JStr(NotConnected));
    }
    if revokeStatus.None? {
      return ServerError;
    }
    session.entries := map[];
    r := Redirect(CatalogHome);
  }
}
