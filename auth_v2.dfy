/** The base `Auth` class of the Session-authentication exercise (0x02). */
module AuthV2 {
  import opened Common

  /**
   * Whether one exclusion entry exempts a path that already ends in "/":
   * `prefix*` by prefix, any other entry by equality once it ends in "/".
   */
  predicate EntryExempts(entry: string, path: string) {
    if EndsWith(entry, "*") then StartsWith(path, entry[..|entry| - 1])
    else path == WithTrailingSlash(entry)
  }

  /** Whether `require_auth` answers True: authentication is needed. */
  predicate AuthRequired(path: Option<string>, excludedPaths: Option<seq<string>>): (r: bool)
    ensures path.None? || excludedPaths.None? || excludedPaths.value == [] ==> r
    ensures path.Some? && excludedPaths.Some? && "*" in excludedPaths.value ==> !r
  {
    path.None? || excludedPaths.None? || |excludedPaths.value| == 0 ||
    forall i :: 0 <= i < |excludedPaths.value| ==> !EntryExempts(excludedPaths.value[i], WithTrailingSlash(path.value))
  }

  /** `Auth.require_auth`: scans the entries in order and stops at the first that exempts the path. */
  method RequireAuth(path: Option<string>, excludedPaths: Option<seq<string>>) returns (r: bool)
    ensures r == AuthRequired(path, excludedPaths)
  {
    if path.None? || excludedPaths.None? || |excludedPaths.value| == 0 {
      return true;
    }
    var p := path.value;
    if !EndsWith(p, "/") {
      p := p + "/";
    }
    var entries := excludedPaths.value;
    for i := 0 to |entries|
      invariant p == WithTrailingSlash(path.value)
      invariant forall j :: 0 <= j < i ==> !EntryExempts(entries[j], p)
    {
      var excluded := entries[i];
      if EndsWith(excluded, "*") {
        var prefix := excluded[..|excluded| - 1];
        if StartsWith(p, prefix) {
          return false;
        }
      } else {
        if !EndsWith(excluded, "/") {
          excluded := excluded + "/";
        }
        if p == excluded {
          return false;
        }
      }
    }
    return true;
  }

  /** A path and the same path with "/" appended get the same answer. */
  lemma TrailingSlashStable(p: string, excludedPaths: Option<seq<string>>)
    requires !EndsWith(p, "/")
    ensures AuthRequired(Some(p), excludedPaths) == AuthRequired(Some(p + "/"), excludedPaths)
  {
    assert EndsWith(p + "/", "/") by { assert (p + "/")[|p|..] == "/"; }
  }

  /** The entry "*" exempts every path. */
  lemma StarExemptsEverything(path: string, excludedPaths: seq<string>, i: nat)
    requires i < |excludedPaths| && excludedPaths[i] == "*"
    ensures !AuthRequired(Some(path), Some(excludedPaths))
  {
    var p := WithTrailingSlash(path);
    assert EndsWith("*", "*") && "*"[..0] == "";
    assert p[..0] == "";
    assert EntryExempts(excludedPaths[i], p);
  }

  /** An entry `prefix*` exempts exactly the paths whose normalised form starts with `prefix`. */
  lemma WildcardEntry(path: string, prefix: string)
    ensures !AuthRequired(Some(path), Some([prefix + "*"])) <==> StartsWith(WithTrailingSlash(path), prefix)
  {
    var e := prefix + "*";
    assert EndsWith(e, "*") by { assert e[|e| - 1..] == "*"; }
    assert e[..|e| - 1] == prefix;
    assert EntryExempts(e, WithTrailingSlash(path)) == StartsWith(WithTrailingSlash(path), prefix);
    assert AuthRequired(Some(path), Some([e])) <==> !EntryExempts([e][0], WithTrailingSlash(path));
  }

  /** A plain entry exempts a path exactly when both agree once each ends in "/". */
  lemma PlainEntry(path: string, entry: string)
    requires !EndsWith(entry, "*")
    ensures !AuthRequired(Some(path), Some([entry])) <==> WithTrailingSlash(path) == WithTrailingSlash(entry)
  {
    assert AuthRequired(Some(path), Some([entry])) <==> !EntryExempts([entry][0], WithTrailingSlash(path));
  }

  /** Only the set of entries matters, not their order or repetition. */
  lemma OrderIrrelevant(path: Option<string>, e1: seq<string>, e2: seq<string>)
    requires |e1| > 0 && |e2| > 0
    requires forall x :: x in e1 <==> x in e2
    ensures AuthRequired(path, Some(e1)) == AuthRequired(path, Some(e2))
  {
    if path.Some? {
      var p := WithTrailingSlash(path.value);
      forall i | 0 <= i < |e1| && EntryExempts(e1[i], p)
        ensures !AuthRequired(path, Some(e2))
      {
        assert e1[i] in e2;
      }
      forall i | 0 <= i < |e2| && EntryExempts(e2[i], p)
        ensures !AuthRequired(path, Some(e1))
      {
        assert e2[i] in e1;
      }
    }
  }

  /** `Auth.authorization_header`: the request's Authorization header, if any. */
  function AuthorizationHeader(request: Option<Request>): (r: Option<string>)
    ensures r.Some? <==> request.Some? && "Authorization" in request.value.headers
    ensures r.Some? ==> r.value == request.value.headers["Authorization"]
  {
    if request.None? || "Authorization" !in request.value.headers then None
    else Some(request.value.headers["Authorization"])
  }

  /** `Auth.session_cookie`: the cookie named by SESSION_NAME, if that is set and the cookie sent. */
  function SessionCookie(request: Option<Request>, sessionName: Option<string>): (r: Option<string>)
    ensures r.Some? <==> request.Some? && sessionName.Some? && sessionName.value in request.value.cookies
    ensures r.Some? ==> r.value == request.value.cookies[sessionName.value]
  {
    if request.None? || sessionName.None? then None
    else if sessionName.value in request.value.cookies then Some(request.value.cookies[sessionName.value])
    else None
  }

  /** `Auth.current_user`: a placeholder that ignores the request. */
  function CurrentUser(request: Option<Request>): (r: Option<User>)
    ensures r.None?
  {
    None
  }
}
