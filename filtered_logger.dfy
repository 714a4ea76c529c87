/**
 * PII redaction of log messages (0x00 `filtered_logger.py`): `filter_datum`
 * rewrites every `field=value<sep>` to `field=<redaction><sep>`, one field
 * after the other, and `RedactingFormatter` applies it with "***" and ";".
 * Field names and the separator are taken as plain text (no regular
 * expression metacharacters), as in `PII_FIELDS` and ";".
 */
module FilteredLogger {
  import opened Common

  /**
   * Where the lazy `.*?` stops when followed by `sep`: the least k such that
   * `sep` starts at position k of t, provided no newline comes before it
   * (`.` does not match a newline).
   */
  function ValueEnd(t: string, sep: string): (r: Option<nat>)
    ensures r.Some? ==> r.value + |sep| <= |t| && StartsWith(t[r.value..], sep) && '\n' !in t[..r.value]
    ensures r.Some? ==> forall j {:trigger StartsWith(t[j..], sep)} :: 0 <= j < r.value ==> !StartsWith(t[j..], sep)
    decreases |t|
  {
    if StartsWith(t, sep) then Some(0)
    else if |t| == 0 || t[0] == '\n' then None
    else match ValueEnd(t[1..], sep)
      case None => None
      case Some(k) =>
        ValueEndShift(t, sep, k);
        Some(k + 1)
  }

  /** A separator found at k in the tail of t, after a first character that is neither it nor a newline, is at k + 1 in t. */
  lemma ValueEndShift(t: string, sep: string, k: nat)
    requires |t| > 0 && !StartsWith(t, sep) && t[0] != '\n'
    requires k + |sep| <= |t| - 1 && StartsWith(t[1..][k..], sep) && '\n' !in t[1..][..k]
    requires forall j {:trigger StartsWith(t[1..][j..], sep)} :: 0 <= j < k ==> !StartsWith(t[1..][j..], sep)
    ensures k + 1 + |sep| <= |t| && StartsWith(t[k + 1..], sep) && '\n' !in t[..k + 1]
    ensures forall j {:trigger StartsWith(t[j..], sep)} :: 0 <= j < k + 1 ==> !StartsWith(t[j..], sep)
  {
    assert t[1..][k..] == t[k + 1..];
    assert t[..k + 1] == [t[0]] + t[1..][..k];
    forall j | 1 <= j < k + 1
      ensures !StartsWith(t[j..], sep)
    {
      assert t[1..][j - 1..] == t[j..];
      assert !StartsWith(t[1..][j - 1..], sep);
    }
  }

  /** The length of the match of `field=.*?sep` at the start of s, if it matches there. */
  function MatchAt(s: string, field: string, sep: string): (r: Option<nat>)
    ensures r.Some? ==> |field| + 1 + |sep| <= r.value <= |s|
    ensures r.Some? ==> StartsWith(s, field + "=")
  {
    var key := field + "=";
    if !StartsWith(s, key) then None
    else match ValueEnd(s[|key|..], sep)
      case None => None
      case Some(k) => Some(|key| + k + |sep|)
  }

  /** Whether key begins at some position of s. */
  predicate Mentions(s: string, key: string) {
    exists i {:trigger StartsWith(s[i..], key)} :: 0 <= i <= |s| && StartsWith(s[i..], key)
  }

  /**
   * `re.sub(field=.*?sep, field=<redaction>sep, s)`: scanning from the left,
   * each match is replaced and the scan resumes after it; other characters
   * are copied.
   */
  function RedactField(s: string, field: string, redaction: string, sep: string): (r: string)
    ensures |s| < |field| + 1 + |sep| ==> r == s
    ensures !Mentions(s, field + "=") ==> r == s
    decreases |s|
  {
    if |s| == 0 then ""
    else match MatchAt(s, field, sep)
      case Some(n) =>
        assert s[0..] == s;
        field + "=" + redaction + sep + RedactField(s[n..], field, redaction, sep)
      case None =>
        MentionsTail(s, field + "=");
        [s[0]] + RedactField(s[1..], field, redaction, sep)
  }

  /** An occurrence of key in the tail of s is one in s. */
  lemma MentionsTail(s: string, key: string)
    requires |s| > 0
    ensures Mentions(s[1..], key) ==> Mentions(s, key)
  {
    if Mentions(s[1..], key) {
      var i :| 0 <= i <= |s[1..]| && StartsWith(s[1..][i..], key);
      assert s[1..][i..] == s[i + 1..];
    }
  }

  /** Each field of the list applied in turn to the previous result. */
  function FilterAll(fields: seq<string>, redaction: string, message: string, sep: string): (r: string)
    ensures |message| == 0 ==> r == ""
    decreases |fields|
  {
    if |fields| == 0 then message
    else RedactField(FilterAll(fields[..|fields| - 1], redaction, message, sep), fields[|fields| - 1], redaction, sep)
  }

  /** `filter_datum`: one `re.sub` per field, in list order. */
  method FilterDatum(fields: seq<string>, redaction: string, message: string, separator: string) returns (r: string)
    ensures r == FilterAll(fields, redaction, message, separator)
    ensures |fields| == 0 ==> r == message
  {
    r := message;
    for i := 0 to |fields|
      invariant r == FilterAll(fields[..i], redaction, message, separator)
    {
      assert fields[..i + 1][..i] == fields[..i];
      r := RedactField(r, fields[i], redaction, separator);
    }
    assert fields[..|fields|] == fields;
  }

  /** Filtering with two lists in a row is filtering with their concatenation. */
  lemma {:induction false} FilterAllConcat(f1: seq<string>, f2: seq<string>, redaction: string, message: string, sep: string)
    ensures FilterAll(f1 + f2, redaction, message, sep) == FilterAll(f2, redaction, FilterAll(f1, redaction, message, sep), sep)
    decreases |f2|
  {
    if |f2| == 0 {
      assert f1 + f2 == f1;
    } else {
      var n := |f2|;
      assert (f1 + f2)[..|f1 + f2| - 1] == f1 + f2[..n - 1];
      FilterAllConcat(f1, f2[..n - 1], redaction, message, sep);
    }
  }

  /**
   * `field=value;` at the front, with no ';' or newline inside the value,
   * becomes `field=***;` and the scan goes on with what follows.
   */
  lemma RedactsPair(field: string, value: string, redaction: string, sep: char, rest: string)
    requires sep !in value && '\n' !in value
    ensures RedactField(field + "=" + value + [sep] + rest, field, redaction, [sep]) ==
      field + "=" + redaction + [sep] + RedactField(rest, field, redaction, [sep])
  {
    var key := field + "=";
    var s := key + value + [sep] + rest;
    assert StartsWith(s, key) by { assert s[..|key|] == key; }
    var t := s[|key|..];
    assert t == value + [sep] + rest;
    ValueEndOfPlain(value, sep, rest);
    assert s[|key| + |value| + 1..] == rest;
  }

  /**
   * Conversely, for any separator: if `sep` occurs at position k with no
   * newline before it, the lazy value ends there or earlier.
   */
  lemma {:induction false} ValueEndFinds(t: string, sep: string, k: nat)
    requires k + |sep| <= |t| && t[k..k + |sep|] == sep && '\n' !in t[..k]
    ensures ValueEnd(t, sep).Some? && ValueEnd(t, sep).value <= k
    decreases k
  {
    if k > 0 && !StartsWith(t, sep) {
      assert t[0] == t[..k][0];
      assert t[1..][k - 1..k - 1 + |sep|] == t[k..k + |sep|];
      assert t[1..][..k - 1] == t[1..k];
      assert forall c :: c in t[1..k] ==> c in t[..k];
      ValueEndFinds(t[1..], sep, k - 1);
    }
  }

  lemma {:induction false} ValueEndOfPlain(value: string, sep: char, rest: string)
    requires sep !in value && '\n' !in value
    ensures ValueEnd(value + [sep] + rest, [sep]) == Some(|value|)
    decreases |value|
  {
    var t := value + [sep] + rest;
    if |value| == 0 {
      assert t[..1] == [sep];
    } else {
      assert t[..1] != [sep] by { assert t[0] == value[0]; }
      assert t[1..] == value[1..] + [sep] + rest;
      ValueEndOfPlain(value[1..], sep, rest);
    }
  }

  /** A `field=` whose value runs into a newline before any separator is not a match; the scan moves on one character. */
  lemma UnterminatedKept(field: string, value: string, redaction: string, sep: char, rest: string)
    requires sep !in value && '\n' !in value && sep != '\n'
    ensures RedactField(field + "=" + value + "\n" + rest, field, redaction, [sep]) ==
      [(field + "=")[0]] + RedactField((field + "=" + value + "\n" + rest)[1..], field, redaction, [sep])
  {
    var key := field + "=";
    var s := key + value + "\n" + rest;
    assert s[|key|..] == value + "\n" + rest;
    assert s[0] == key[0];
    ValueEndStopsAtNewline(value, sep, rest);
  }

  lemma {:induction false} ValueEndStopsAtNewline(value: string, sep: char, rest: string)
    requires sep !in value && '\n' !in value && sep != '\n'
    ensures ValueEnd(value + "\n" + rest, [sep]).None?
    decreases |value|
  {
    var t := value + "\n" + rest;
    if |value| == 0 {
      assert t[0] == '\n';
    } else {
      assert t[0] == value[0];
      assert t[1..] == value[1..] + "\n" + rest;
      ValueEndStopsAtNewline(value[1..], sep, rest);
    }
  }

  /** A `field=` with no separator after it at all is not a match either. */
  lemma UnterminatedAtEnd(field: string, value: string, sep: char)
    requires sep !in value
    ensures MatchAt(field + "=" + value, field, [sep]).None?
  {
    var key := field + "=";
    var s := key + value;
    assert s[|key|..] == value;
    ValueEndWithoutSep(value, sep);
  }

  lemma {:induction false} ValueEndWithoutSep(value: string, sep: char)
    requires sep !in value
    ensures ValueEnd(value, [sep]).None?
    decreases |value|
  {
    if |value| > 0 {
      assert value[0] != sep;
      assert value[..1] != [sep];
      ValueEndWithoutSep(value[1..], sep);
    }
  }

  /** A character that cannot begin `field=` is copied, and the scan moves on one character. */
  lemma CopiesChar(c: char, t: string, field: string, redaction: string, sep: string)
    requires c != (field + "=")[0]
    ensures RedactField([c] + t, field, redaction, sep) == [c] + RedactField(t, field, redaction, sep)
  {
    var s := [c] + t;
    assert s[1..] == t;
    assert !StartsWith(s, field + "=") by {
      assert s[0] == c;
    }
  }

  lemma ConsSplit(p: string, x: string)
    requires |p| > 0
    ensures [p[0]] + (p[1..] + x) == p + x
  {
    assert [p[0]] + p[1..] == p;
  }

  /** Text none of whose characters can begin `field=` is copied through verbatim. */
  lemma {:induction false} CopiesPrefix(prefix: string, t: string, field: string, redaction: string, sep: string)
    requires (field + "=")[0] !in prefix
    ensures RedactField(prefix + t, field, redaction, sep) == prefix + RedactField(t, field, redaction, sep)
    decreases |prefix|
  {
    if |prefix| > 0 {
      var r := RedactField(t, field, redaction, sep);
      assert (field + "=")[0] !in prefix[1..] by { assert forall c :: c in prefix[1..] ==> c in prefix; }
      CopiesPrefix(prefix[1..], t, field, redaction, sep);
      CopiesChar(prefix[0], prefix[1..] + t, field, redaction, sep);
      ConsSplit(prefix, t);
      ConsSplit(prefix, r);
    } else {
      assert prefix + t == t;
    }
  }

  /**
   * A `field=value;` pair after plain text is redacted in place: the text
   * before it is kept and the scan goes on after it.
   */
  lemma RedactsPairAfter(before: string, field: string, value: string, redaction: string, sep: char, rest: string)
    requires (field + "=")[0] !in before
    requires sep !in value && '\n' !in value
    ensures RedactField(before + (field + "=" + value + [sep] + rest), field, redaction, [sep]) ==
      before + (field + "=" + redaction + [sep] + RedactField(rest, field, redaction, [sep]))
  {
    RedactsPair(field, value, redaction, sep, rest);
    CopiesPrefix(before, field + "=" + value + [sep] + rest, field, redaction, [sep]);
  }

  /** Field names match as substrings: the field "name" also redacts `username=...;`. */
  lemma SubstringFieldMatches(value: string, rest: string)
    requires ';' !in value && '\n' !in value
    ensures RedactField("user" + ("name" + "=" + value + [';'] + rest), "name", "***", [';']) ==
      "user" + ("name" + "=" + "***" + [';'] + RedactField(rest, "name", "***", [';']))
  {
    RedactsPairAfter("user", "name", value, "***", ';', rest);
  }

  /** A log record; only its message is read and rewritten here. */
  class LogRecord {
    var msg: string

    constructor(msg: string)
      ensures this.msg == msg
    {
      this.msg := msg;
    }
  }

  class RedactingFormatter {
    static const Redaction: string := "***"
    static const Separator: string := ";"
    const fields: seq<string>

    constructor(fields: seq<string>)
      ensures this.fields == fields
    {
      this.fields := fields;
    }

    /**
     * `format`: replaces the record's message by its redaction over the
     * configured fields and returns it (the layout of the line around it is
     * the logging library's).
     */
    method Format(record: LogRecord) returns (line: string)
      modifies record
      ensures record.msg == FilterAll(fields, Redaction, old(record.msg), Separator)
      ensures line == record.msg
    {
      var redacted := FilterDatum(fields, Redaction, record.msg, Separator);
      record.msg := redacted;
      line := redacted;
    }
  }
}
