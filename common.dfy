/** Values and string helpers shared by every part of the model. */
module Common {

  datatype Option<+T> = None | Some(value: T)

  type Byte = b: int | 0 <= b < 256

  /**
   * A Python argument as the guards `x is None` and `isinstance(x, str)`
   * see it: None, a str, or any other object.
   */
  datatype PyValue = PyNone | PyStr(str: string) | PyOther

  /** The parts of a Flask request that the authentication code reads. */
  datatype Request = Request(path: string, headers: map<string, string>, cookies: map<string, string>)

  /**
   * A row of the API's user model. The model class itself is not part of this
   * model; only its identity and e-mail address matter here.
   */
  datatype User = User(id: string, email: string)

  /** Python's `s.startswith(prefix)`. */
  predicate StartsWith(s: string, prefix: string) {
    |prefix| <= |s| && s[..|prefix|] == prefix
  }

  /** Python's `s.endswith(suffix)`. */
  predicate EndsWith(s: string, suffix: string) {
    |suffix| <= |s| && s[|s| - |suffix|..] == suffix
  }

  /** A path with a trailing "/" appended when it lacks one. */
  function WithTrailingSlash(p: string): (r: string)
    ensures EndsWith(r, "/")
    ensures EndsWith(p, "/") ==> r == p
    ensures !EndsWith(p, "/") ==> r == p + "/"
  {
    if EndsWith(p, "/") then p else p + "/"
  }

  /** Python's `s.find(c)` for a one-character needle: the first index of `c`, or None. */
  function Find(s: string, c: char): (r: Option<nat>)
    ensures r.None? <==> c !in s
    ensures r.Some? ==> r.value < |s| && s[r.value] == c && c !in s[..r.value]
  {
    if |s| == 0 then None
    else if s[0] == c then Some(0)
    else match Find(s[1..], c)
      case None => None
      case Some(k) =>
        assert s[..k + 1] == [s[0]] + s[1..][..k];
        Some(k + 1)
  }

  lemma StartsWithConcat(a: string, b: string)
    ensures StartsWith(a + b, a) && (a + b)[|a|..] == b
  {
    assert (a + b)[..|a|] == a;
  }
}
