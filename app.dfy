/**
 * The API's request gate (0x02 `app.py`): which authentication class
 * `AUTH_TYPE` selects, and the `before_request` hook that lets a request
 * through, aborts it with 401 or 403, or records its authenticated user.
 */
module App {
  import opened Common
  import AuthV2
  import BasicAuthV2

  /** The classes `AUTH_TYPE` can select. */
  datatype AuthKind = PlainAuth | BasicAuth | SessionAuth | SessionExpAuth | SessionDBAuth

  /** The `AUTH_TYPE` value that selects each class. */
  function AuthTypeName(kind: AuthKind): string {
    match kind
    case PlainAuth => "auth"
    case BasicAuth => "basic_auth"
    case SessionAuth => "session_auth"
    case SessionExpAuth => "session_exp_auth"
    case SessionDBAuth => "session_db_auth"
  }

  /** The module-level choice of `auth`; None when `AUTH_TYPE` is unset or names no class. */
  function SelectAuth(authType: Option<string>): (r: Option<AuthKind>)
    ensures r.Some? ==> authType == Some(AuthTypeName(r.value))
  {
    if authType == Some("basic_auth") then Some(BasicAuth)
    else if authType == Some("auth") then Some(PlainAuth)
    else if authType == Some("session_auth") then Some(SessionAuth)
    else if authType == Some("session_exp_auth") then Some(SessionExpAuth)
    else if authType == Some("session_db_auth") then Some(SessionDBAuth)
    else None
  }

  /** Each class is selected by its own name, and any other value selects none. */
  lemma SelectAuthByName(authType: Option<string>)
    ensures forall kind :: SelectAuth(Some(AuthTypeName(kind))) == Some(kind)
    ensures (forall kind :: authType != Some(AuthTypeName(kind))) ==> SelectAuth(authType).None?
  {
    forall kind ensures SelectAuth(Some(AuthTypeName(kind))) == Some(kind) {
      match kind
      case PlainAuth =>
      case BasicAuth =>
      case SessionAuth =>
      case SessionExpAuth =>
      case SessionDBAuth =>
    }
    if SelectAuth(authType).Some? {
      assert authType == Some(AuthTypeName(SelectAuth(authType).value));
    }
  }

  /** The paths `auth_handle` never checks. */
  const ExcludedPaths: seq<string> :=
    ["/api/v1/status/", "/api/v1/unauthorized/", "/api/v1/forbidden/", "/api/v1/auth_session/login/"]

  /**
   * `auth.current_user(request)`: only `BasicAuth` overrides it; every other
   * class inherits the base method, which always answers None.
   */
  function CurrentUserOf(kind: AuthKind, request: Request, store: BasicAuthV2.UserStore): (r: Option<User>)
    ensures kind != BasicAuth ==> r.None?
  {
    if kind == BasicAuth then BasicAuthV2.CurrentUser(Some(request), store)
    else AuthV2.CurrentUser(Some(request))
  }

  /** Python truthiness of an optional str: present and non-empty. */
  predicate Truthy(s: Option<string>) {
    s.Some? && |s.value| > 0
  }

  /** What `auth_handle` does with a request. */
  datatype Decision =
    | Unchecked                 // no `auth` configured
    | Excluded                  // path exempt from authentication
    | Unauthorized              // abort(401)
    | Forbidden                 // abort(403)
    | Authenticated(user: User) // request.current_user set

  /** The decision of `auth_handle`. */
  function Decide(auth: Option<AuthKind>, request: Request, sessionName: Option<string>, store: BasicAuthV2.UserStore): (d: Decision)
    ensures d.Unauthorized? ==>
      auth.Some? && AuthV2.AuthorizationHeader(Some(request)).None? && AuthV2.SessionCookie(Some(request), sessionName).None?
    ensures d.Authenticated? ==>
      auth.Some? && AuthV2.AuthRequired(Some(request.path), Some(ExcludedPaths)) &&
      Some(d.user) == CurrentUserOf(auth.value, request, store)
  {
    if auth.None? then Unchecked
    else if !AuthV2.AuthRequired(Some(request.path), Some(ExcludedPaths)) then Excluded
    else
      var authHeader := AuthV2.AuthorizationHeader(Some(request));
      var sessionId := AuthV2.SessionCookie(Some(request), sessionName);
      if authHeader.None? && sessionId.None? then Unauthorized
      else
        var user :=
          if Truthy(authHeader) then CurrentUserOf(auth.value, request, store)
          else if Truthy(sessionId) then CurrentUserOf(auth.value, request, store)
          else None;
        if user.None? then Forbidden else Authenticated(user.value)
  }

  /** The listed paths, with or without their trailing "/", pass without any credential being read. */
  lemma ExcludedPathPasses(kind: AuthKind, request: Request, sessionName: Option<string>, store: BasicAuthV2.UserStore, i: nat)
    requires i < |ExcludedPaths|
    requires request.path == ExcludedPaths[i] || request.path + "/" == ExcludedPaths[i]
    ensures Decide(Some(kind), request, sessionName, store) == Excluded
  {
    var entry := ExcludedPaths[i];
    assert !EndsWith(entry, "*");
    assert EndsWith(entry, "/");
    if request.path + "/" == entry {
      assert !EndsWith(request.path, "/") by {
        assert entry[|entry| - 2] != '/';
        assert request.path == entry[..|entry| - 1];
      }
    }
    assert AuthV2.EntryExempts(ExcludedPaths[i], WithTrailingSlash(request.path));
  }

  /** A protected request with neither header nor cookie is refused with 401. */
  lemma NoCredentialIsUnauthorized(kind: AuthKind, request: Request, sessionName: Option<string>, store: BasicAuthV2.UserStore)
    requires AuthV2.AuthRequired(Some(request.path), Some(ExcludedPaths))
    requires "Authorization" !in request.headers
    requires sessionName.None? || sessionName.value !in request.cookies
    ensures Decide(Some(kind), request, sessionName, store) == Unauthorized
  {
  }

  /**
   * An empty Authorization header with no cookie is present but falsy: the
   * answer is 403, not 401.
   */
  lemma EmptyHeaderIsForbidden(kind: AuthKind, request: Request, sessionName: Option<string>, store: BasicAuthV2.UserStore)
    requires AuthV2.AuthRequired(Some(request.path), Some(ExcludedPaths))
    requires "Authorization" in request.headers && request.headers["Authorization"] == ""
    requires sessionName.None? || sessionName.value !in request.cookies
    ensures Decide(Some(kind), request, sessionName, store) == Forbidden
  {
  }

  /** With a credential present, the request is authenticated exactly when `current_user` finds someone. */
  lemma CredentialOutcome(kind: AuthKind, request: Request, sessionName: Option<string>, store: BasicAuthV2.UserStore)
    requires AuthV2.AuthRequired(Some(request.path), Some(ExcludedPaths))
    requires Truthy(AuthV2.AuthorizationHeader(Some(request))) || Truthy(AuthV2.SessionCookie(Some(request), sessionName))
    ensures Decide(Some(kind), request, sessionName, store) ==
      match CurrentUserOf(kind, request, store)
      case Some(u) => Authenticated(u)
      case None => Forbidden
  {
  }

  /**
   * Under `BasicAuth`, a protected request carrying the client's header for
   * `email:password` is authenticated as the user the store accepts, and
   * refused with 403 when it accepts nobody.
   */
  lemma BasicHeaderOutcome(request: Request, sessionName: Option<string>, store: BasicAuthV2.UserStore, email: string, password: string)
    requires AuthV2.AuthRequired(Some(request.path), Some(ExcludedPaths))
    requires ':' !in email
    requires "Authorization" in request.headers && request.headers["Authorization"] == BasicAuthV2.BasicHeader(email, password)
    ensures Decide(Some(BasicAuth), request, sessionName, store) ==
      match BasicAuthV2.UserObjectFromCredentials(PyStr(email), PyStr(password), store)
      case Some(u) => Authenticated(u)
      case None => Forbidden
  {
    BasicAuthV2.CurrentUserOfBasicHeader(request, email, password, store);
    assert |BasicAuthV2.BasicHeader(email, password)| > 0 by {
      assert BasicAuthV2.BasicHeader(email, password)[0] == 'B';
    }
  }

  /**
   * Every class but `BasicAuth` keeps the base `current_user`, so under them
   * no protected request is ever authenticated: the session classes as
   * written cannot log anyone in.
   */
  lemma OnlyBasicAuthenticates(kind: AuthKind, request: Request, sessionName: Option<string>, store: BasicAuthV2.UserStore)
    requires kind != BasicAuth
    ensures !Decide(Some(kind), request, sessionName, store).Authenticated?
  {
  }

  /** The request object Flask hands to the hook; only `current_user` is written. */
  class FlaskRequest {
    const data: Request
    var currentUser: Option<User>

    constructor(data: Request, currentUser: Option<User>)
      ensures this.data == data && this.currentUser == currentUser
    {
      this.data := data;
      this.currentUser := currentUser;
    }
  }

  /** The outcome of the hook as Flask sees it. */
  datatype Response = Continue | Abort(status: nat)

  function ResponseOf(d: Decision): Response {
    match d
    case Unauthorized => Abort(401)
    case Forbidden => Abort(403)
    case _ => Continue
  }

  /**
   * `auth_handle`: with an `auth` configured, resets `current_user`, then
   * either lets the request through, aborts, or stores its user.
   */
  method AuthHandle(auth: Option<AuthKind>, request: FlaskRequest, sessionName: Option<string>, store: BasicAuthV2.UserStore)
    returns (response: Response)
    modifies request
    ensures response == ResponseOf(Decide(auth, request.data, sessionName, store))
    ensures auth.None? ==> request.currentUser == old(request.currentUser)
    ensures auth.Some? ==>
      request.currentUser ==
        (match Decide(auth, request.data, sessionName, store)
         case Authenticated(u) => Some(u)
         case _ => None)
  {
    if auth.None? {
      return Continue;
    }
    request.currentUser := None;
    var required := AuthV2.RequireAuth(Some(request.data.path), Some(ExcludedPaths));
    if !required {
      return Continue;
    }
    var authHeader := AuthV2.AuthorizationHeader(Some(request.data));
    var sessionId := AuthV2.SessionCookie(Some(request.data), sessionName);
    if authHeader.None? && sessionId.None? {
      return Abort(401);
    }
    var user: Option<User> := None;
    if Truthy(authHeader) {
      user := CurrentUserOf(auth.value, request.data, store);
    } else if Truthy(sessionId) {
      user := CurrentUserOf(auth.value, request.data, store);
    }
    if user.None? {
      return Abort(403);
    }
    request.currentUser := user;
    return Continue;
  }
}
