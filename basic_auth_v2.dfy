/**
 * `BasicAuth` of the Session exercise (0x02): the header steps of
 * `BasicAuthV1`, then splitting the credentials at the first ':' and looking
 * the user up.
 */
module BasicAuthV2 {
  import opened Common
  import Base64
  import Utf8
  import AuthV2
  import opened BasicAuthV1

  /** What `User.search({'email': e})` does: raise, or return the matching users in order. */
  datatype SearchOutcome = SearchRaised | SearchFound(users: seq<User>)

  /**
   * The user model's behaviour as this code sees it: the search by e-mail and
   * `is_valid_password`. The file-backed store behind them is not part of this model.
   */
  datatype UserStore = UserStore(searchByEmail: string -> SearchOutcome, isValidPassword: (User, string) -> bool)

  /**
   * `extract_user_credentials`: the text before the first ':' and the text
   * after it, or (None, None) when the value is not a str or has no ':'.
   */
  function ExtractUserCredentials(decoded: PyValue): (r: (Option<string>, Option<string>))
    ensures r.0.Some? <==> r.1.Some?
    ensures r.0.Some? <==> decoded.PyStr? && ':' in decoded.str
    ensures r.0.Some? ==> decoded.str == r.0.value + ":" + r.1.value && ':' !in r.0.value
  {
    match decoded
    case PyStr(s) =>
      (match Find(s, ':')
       case None => (None, None)
       case Some(k) =>
         assert s == s[..k] + ":" + s[k + 1..];
         (Some(s[..k]), Some(s[k + 1..])))
    case _ => (None, None)
  }

  /** Splitting is the inverse of joining with ':' when the e-mail has no ':'; the password may. */
  lemma ExtractJoined(email: string, password: string)
    requires ':' !in email
    ensures ExtractUserCredentials(PyStr(email + ":" + password)) == (Some(email), Some(password))
  {
    var s := email + ":" + password;
    var k := Find(s, ':').value;
    assert s[|email|] == ':' && s[..|email|] == email;
    assert k == |email| by {
      assert forall i :: 0 <= i < |email| ==> s[i] == email[i];
      assert k <= |email| ==> s[..k] == email[..k];
    }
    assert s[..k] == email && s[k + 1..] == password;
  }

  /** `user_object_from_credentials`: the first user found by e-mail, if the password is valid for it. */
  function UserObjectFromCredentials(userEmail: PyValue, userPwd: PyValue, store: UserStore): (r: Option<User>)
    ensures r.Some? <==>
      userEmail.PyStr? && userPwd.PyStr? &&
      store.searchByEmail(userEmail.str).SearchFound? &&
      |store.searchByEmail(userEmail.str).users| > 0 &&
      store.isValidPassword(store.searchByEmail(userEmail.str).users[0], userPwd.str)
    ensures r.Some? ==> r.value == store.searchByEmail(userEmail.str).users[0]
  {
    if !userEmail.PyStr? || !userPwd.PyStr? then None
    else match store.searchByEmail(userEmail.str)
      case SearchRaised => None
      case SearchFound(users) =>
        if |users| == 0 then None
        else if !store.isValidPassword(users[0], userPwd.str) then None
        else Some(users[0])
  }

  /** `BasicAuth.current_user`: the five steps, each failure giving None. */
  function CurrentUser(request: Option<Request>, store: UserStore): (r: Option<User>)
    ensures r.Some? ==> request.Some? && "Authorization" in request.value.headers
  {
    match AuthV2.AuthorizationHeader(request)
    case None => None
    case Some(header) =>
      match ExtractBase64AuthorizationHeader(PyStr(header))
      case None => None
      case Some(b64) =>
        match DecodeBase64AuthorizationHeader(PyStr(b64))
        case None => None
        case Some(decoded) =>
          var (email, password) := ExtractUserCredentials(PyStr(decoded));
          if email.None? || password.None? then None
          else UserObjectFromCredentials(PyStr(email.value), PyStr(password.value), store)
  }

  /** The header a client builds for `email:password`. */
  function BasicHeader(email: string, password: string): string {
    BasicPrefix + Base64.Encode(Utf8.Encode(email + ":" + password))
  }

  /**
   * A request whose Authorization header is "Basic " followed by any payload
   * that strictly decodes to the UTF-8 of `email:password`, canonical or not,
   * authenticates as the store's verdict on those credentials.
   */
  lemma CurrentUserOfPayload(request: Request, b64: string, email: string, password: string, store: UserStore)
    requires ':' !in email
    requires "Authorization" in request.headers && request.headers["Authorization"] == BasicPrefix + b64
    requires Base64.Decode(b64) == Some(Utf8.Encode(email + ":" + password))
    ensures CurrentUser(Some(request), store) == UserObjectFromCredentials(PyStr(email), PyStr(password), store)
  {
    ExtractPrefixed(b64);
    DecodeCharacterised(b64, email + ":" + password);
    ExtractJoined(email, password);
  }

  /** A request carrying the canonical header authenticates as the store's verdict on those credentials. */
  lemma CurrentUserOfBasicHeader(request: Request, email: string, password: string, store: UserStore)
    requires ':' !in email
    requires "Authorization" in request.headers && request.headers["Authorization"] == BasicHeader(email, password)
    ensures CurrentUser(Some(request), store) == UserObjectFromCredentials(PyStr(email), PyStr(password), store)
  {
    var bytes := Utf8.Encode(email + ":" + password);
    Base64.DecodeEncode(bytes);
    CurrentUserOfPayload(request, Base64.Encode(bytes), email, password, store);
  }

  /**
   * Conversely, whoever authenticates sent a Basic header whose payload
   * decodes to `email:password` for the user returned.
   */
  lemma CurrentUserSound(request: Request, store: UserStore) returns (email: string, password: string)
    requires CurrentUser(Some(request), store).Some?
    ensures "Authorization" in request.headers
    ensures ':' !in email
    ensures request.headers["Authorization"] ==
      BasicPrefix + request.headers["Authorization"][|BasicPrefix|..]
    ensures Base64.Decode(request.headers["Authorization"][|BasicPrefix|..]) == Some(Utf8.Encode(email + ":" + password))
    ensures CurrentUser(Some(request), store) == UserObjectFromCredentials(PyStr(email), PyStr(password), store)
  {
    var header := request.headers["Authorization"];
    var b64 := ExtractBase64AuthorizationHeader(PyStr(header)).value;
    var decoded := DecodeBase64AuthorizationHeader(PyStr(b64)).value;
    var creds := ExtractUserCredentials(PyStr(decoded));
    email, password := creds.0.value, creds.1.value;
    assert header[|BasicPrefix|..] == b64;
  }

  /** A header of just "Basic " decodes to the empty string, which has no ':', so nobody is authenticated. */
  lemma EmptyBasicHeaderRejected(request: Request, store: UserStore)
    requires "Authorization" in request.headers && request.headers["Authorization"] == BasicPrefix
    ensures CurrentUser(Some(request), store).None?
  {
    ExtractPrefixed("");
    assert BasicPrefix + "" == BasicPrefix;
  }
}
