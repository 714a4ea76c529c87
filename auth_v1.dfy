/** The base `Auth` class of the Basic-authentication exercise (0x01). */
module AuthV1 {
  import opened Common

  /**
   * `Auth.require_auth`: true when the path needs authentication. The path
   * gets a trailing "/" before an exact membership test; the entries are
   * taken as they are.
   */
  function RequireAuth(path: Option<string>, excludedPaths: Option<seq<string>>): (r: bool)
    ensures path.None? || excludedPaths.None? || |excludedPaths.value| == 0 ==> r
    ensures path.Some? && excludedPaths.Some? && |excludedPaths.value| > 0 ==>
      (!r <==> exists i :: 0 <= i < |excludedPaths.value| && excludedPaths.value[i] == WithTrailingSlash(path.value))
  {
    if path.None? || excludedPaths.None? || |excludedPaths.value| == 0 then true
    else WithTrailingSlash(path.value) !in excludedPaths.value
  }

  /** A path and the same path with "/" appended get the same answer. */
  lemma TrailingSlashStable(p: string, excludedPaths: Option<seq<string>>)
    requires !EndsWith(p, "/")
    ensures RequireAuth(Some(p), excludedPaths) == RequireAuth(Some(p + "/"), excludedPaths)
  {
    assert EndsWith(p + "/", "/") by { assert (p + "/")[|p|..] == "/"; }
  }

  /** An entry without a trailing "/" never exempts a path: dropping it changes nothing. */
  lemma UnslashedEntryNeverMatches(path: string, entries: seq<string>, entry: string)
    requires !EndsWith(entry, "/")
    ensures RequireAuth(Some(path), Some(entries + [entry])) == (entries == [] || RequireAuth(Some(path), Some(entries)))
  {
    var p := WithTrailingSlash(path);
    assert p != entry;
    assert p in entries + [entry] <==> p in entries;
  }

  /** `Auth.authorization_header`: a placeholder that ignores the request. */
  function AuthorizationHeader(request: Option<Request>): (r: Option<string>)
    ensures r.None?
  {
    None
  }

  /** `Auth.current_user`: a placeholder that ignores the request. */
  function CurrentUser(request: Option<Request>): (r: Option<User>)
    ensures r.None?
  {
    None
  }
}
