/**
 * `SessionExpAuth` (0x02): in-memory sessions that expire `session_duration`
 * seconds after creation. Time is whole seconds within the `datetime` range,
 * supplied by the caller; the session id is whatever the parent `create_session` returns.
 */
module SessionExp {
  import opened Common

  /**
   * Characters Python's `int()` strips from both ends of its argument: the
   * C-locale ASCII whitespace (space, and '\t' through '\r') and the
   * non-ASCII characters for which `str.isspace` holds. The ASCII separators
   * U+001C to U+001F are `str.isspace` but are not stripped.
   */
  predicate IsPySpace(c: char) {
    ('\t' <= c <= '\r') || c == ' ' || c == '\U{85}' || c == '\U{a0}' ||
    c == '\U{1680}' || ('\U{2000}' <= c <= '\U{200a}') || c == '\U{2028}' || c == '\U{2029}' ||
    c == '\U{202f}' || c == '\U{205f}' || c == '\U{3000}'
  }

  /** The text without its leading whitespace. */
  function StripLeft(s: string): (r: string)
    ensures |r| == 0 || !IsPySpace(r[0])
  {
    if |s| > 0 && IsPySpace(s[0]) then StripLeft(s[1..]) else s
  }

  /** The text without its trailing whitespace. */
  function StripRight(s: string): (r: string)
    ensures |r| == 0 || !IsPySpace(r[|r| - 1])
  {
    if |s| > 0 && IsPySpace(s[|s| - 1]) then StripRight(s[..|s| - 1]) else s
  }

  predicate IsDigit(c: char) {
    '0' <= c <= '9'
  }

  predicate DigitsOrUnderscores(d: string) {
    forall i :: 0 <= i < |d| ==> IsDigit(d[i]) || d[i] == '_'
  }

  /** A decimal literal as `int()` takes it: digits, single '_' only between two digits. */
  predicate WellFormedDigits(d: string) {
    |d| > 0 && IsDigit(d[0]) && IsDigit(d[|d| - 1]) && DigitsOrUnderscores(d) &&
    forall i :: 0 <= i < |d| - 1 ==> !(d[i] == '_' && d[i + 1] == '_')
  }

  /** The value of a run of digits, underscores skipped. */
  function DigitsValue(d: string): nat
    requires DigitsOrUnderscores(d)
  {
    if |d| == 0 then 0
    else if d[|d| - 1] == '_' then DigitsValue(d[..|d| - 1])
    else DigitsValue(d[..|d| - 1]) * 10 + (d[|d| - 1] as int - '0' as int)
  }

  /** The number of digits in d; underscores do not count. */
  function DigitCount(d: string): nat {
    if |d| == 0 then 0
    else DigitCount(d[..|d| - 1]) + (if IsDigit(d[|d| - 1]) then 1 else 0)
  }

  /**
   * Python's default `sys.int_info.default_max_str_digits`: `int()` raises
   * `ValueError` for decimal text with more digits than this.
   */
  const MaxStrDigits := 4300

  /** The text with leading and trailing whitespace removed. */
  function Strip(s: string): string {
    StripRight(StripLeft(s))
  }

  /** A decimal literal within the digit limit. */
  predicate Readable(d: string) {
    WellFormedDigits(d) && DigitCount(d) <= MaxStrDigits
  }

  /** An optional sign and then a decimal literal, on text already stripped. */
  function ParseSigned(t: string): Option<int> {
    if |t| > 0 && (t[0] == '+' || t[0] == '-') then
      var d := t[1..];
      if Readable(d) then Some(if t[0] == '-' then -(DigitsValue(d) as int) else DigitsValue(d) as int)
      else None
    else if Readable(t) then Some(DigitsValue(t))
    else None
  }

  /** Python's `int(s)` on a str: None where it raises `ValueError`. */
  function ParseInt(s: string): (r: Option<int>)
    ensures Strip(s) == "" ==> r.None?
    ensures r.Some? ==> var t := Strip(s); IsDigit(t[|t| - 1]) && (r.value < 0 ==> t[0] == '-')
  {
    ParseSigned(Strip(s))
  }

  /** Python's `str(n)` for a natural number. */
  function NatToDecimal(n: nat): (r: string)
    ensures |r| > 0 && IsDigit(r[0]) && IsDigit(r[|r| - 1])
    ensures forall i :: 0 <= i < |r| ==> IsDigit(r[i])
  {
    var c := (n % 10 + '0' as int) as char;
    if n < 10 then [c] else NatToDecimal(n / 10) + [c]
  }

  function Abs(n: int): nat {
    if n < 0 then -n else n
  }

  /** Python's `str(n)` for an integer. */
  function IntToDecimal(n: int): string {
    if n < 0 then "-" + NatToDecimal(-n) else NatToDecimal(n)
  }

  /** A run of digits without underscores counts every character. */
  lemma {:induction false} DigitCountOfDigits(d: string)
    requires forall i :: 0 <= i < |d| ==> IsDigit(d[i])
    ensures DigitCount(d) == |d|
  {
    if |d| > 0 {
      DigitCountOfDigits(d[..|d| - 1]);
    }
  }

  lemma {:induction false} DigitsValueOfDecimal(n: nat)
    ensures DigitsValue(NatToDecimal(n)) == n
  {
    var d := NatToDecimal(n);
    if n >= 10 {
      DigitsValueOfDecimal(n / 10);
      assert d[..|d| - 1] == NatToDecimal(n / 10);
    }
  }

  lemma StripDecimal(d: string)
    requires |d| > 0 && !IsPySpace(d[0]) && !IsPySpace(d[|d| - 1])
    ensures Strip(d) == d
    ensures Strip(" " + d + "\n") == d
  {
    var padded := " " + d + "\n";
    var tail := d + "\n";
    assert padded[1..] == tail;
    assert StripLeft(padded) == StripLeft(tail);
    assert tail[0] == d[0];
    assert StripLeft(tail) == tail;
    assert tail[..|tail| - 1] == d;
    assert StripRight(tail) == StripRight(d);
  }

  /** The text of a natural number is a well-formed literal of that value, one digit per character. */
  lemma DecimalDigits(m: nat)
    ensures var d := NatToDecimal(m);
      WellFormedDigits(d) && DigitCount(d) == |d| && DigitsValue(d) == m
  {
    DigitsValueOfDecimal(m);
    DigitCountOfDigits(NatToDecimal(m));
  }

  /** A literal that starts with a digit, with or without a leading '-', is read within the digit limit. */
  lemma ParseSignedOfLiteral(d: string)
    requires |d| > 0 && IsDigit(d[0])
    ensures ParseSigned(d) == if Readable(d) then Some(DigitsValue(d) as int) else None
    ensures ParseSigned("-" + d) == if Readable(d) then Some(-(DigitsValue(d) as int)) else None
  {
    assert ("-" + d)[1..] == d;
  }

  /** `str(n)` starts with a digit or '-' and ends with a digit, so it has no surrounding whitespace. */
  lemma DecimalUnpadded(n: int)
    ensures var s := IntToDecimal(n);
      |s| > 0 && !IsPySpace(s[0]) && !IsPySpace(s[|s| - 1])
  {
    var d := NatToDecimal(Abs(n));
    if n < 0 {
      var s := "-" + d;
      assert s[|s| - 1] == d[|d| - 1];
    }
  }

  /** The sign and digits of `str(n)` parse back to n within the digit limit. */
  lemma ParseSignedOfDecimal(n: int)
    ensures ParseSigned(IntToDecimal(n)) == if |NatToDecimal(Abs(n))| <= MaxStrDigits then Some(n) else None
  {
    var d := NatToDecimal(Abs(n));
    DecimalDigits(Abs(n));
    ParseSignedOfLiteral(d);
    assert Readable(d) == (|d| <= MaxStrDigits);
  }

  /**
   * `int()` reads back what `str()` writes, with or without surrounding
   * whitespace, as long as it has at most `MaxStrDigits` digits; longer
   * text makes it raise.
   */
  lemma ParseIntOfDecimal(n: int)
    ensures ParseInt(IntToDecimal(n)) == if |NatToDecimal(Abs(n))| <= MaxStrDigits then Some(n) else None
    ensures ParseInt(" " + IntToDecimal(n) + "\n") == ParseInt(IntToDecimal(n))
  {
    DecimalUnpadded(n);
    ParseSignedOfDecimal(n);
    StripDecimal(IntToDecimal(n));
  }

  /** `int(getenv("SESSION_DURATION", "0"))`, with 0 when `int()` raises. */
  function DurationFromEnv(sessionDuration: Option<string>): (r: int)
    ensures sessionDuration.None? ==> r == 0
  {
    var text := if sessionDuration.None? then "0" else sessionDuration.value;
    match ParseInt(text)
    case Some(n) => n
    case None => 0
  }

  /** A set variable holding a decimal integer of at most `MaxStrDigits` digits gives that integer, and 0 beyond. */
  lemma DurationOfDecimal(n: int)
    ensures DurationFromEnv(Some(IntToDecimal(n))) == if |NatToDecimal(Abs(n))| <= MaxStrDigits then n else 0
    ensures DurationFromEnv(Some(" " + IntToDecimal(n) + "\n")) == DurationFromEnv(Some(IntToDecimal(n)))
  {
    ParseIntOfDecimal(n);
  }

  /** A run of more than `MaxStrDigits` digits makes `int()` raise, so the duration is 0. */
  lemma DurationPastDigitLimit(d: string)
    requires |d| > MaxStrDigits && forall i :: 0 <= i < |d| ==> IsDigit(d[i])
    ensures DurationFromEnv(Some(d)) == 0
  {
    StripDecimal(d);
    DigitCountOfDigits(d);
  }

  /** Text without surrounding whitespace reaches the digit check unchanged. */
  lemma ParseIntOfUnpadded(s: string)
    requires |s| > 0 && !IsPySpace(s[0]) && !IsPySpace(s[|s| - 1])
    requires s[0] != '+' && s[0] != '-'
    ensures ParseInt(s) == if Readable(s) then Some(DigitsValue(s) as int) else None
  {
    StripDecimal(s);
  }

  /** Empty text, a fraction, a unit suffix or a doubled underscore all fall back to 0. */
  lemma DurationOfMalformed()
    ensures DurationFromEnv(Some("")) == 0
    ensures DurationFromEnv(Some("1.5")) == 0
    ensures DurationFromEnv(Some("60s")) == 0
    ensures DurationFromEnv(Some("1__0")) == 0
  {
    ParseIntOfUnpadded("1.5");
    assert !WellFormedDigits("1.5") by { assert "1.5"[1] == '.'; }
    ParseIntOfUnpadded("60s");
    assert !WellFormedDigits("60s") by { assert "60s"[2] == 's'; }
    ParseIntOfUnpadded("1__0");
    assert !WellFormedDigits("1__0") by { assert "1__0"[1] == '_' && "1__0"[2] == '_'; }
  }

  /** An ASCII file separator (U+001C) is not whitespace to `int()`, which then raises. */
  lemma DurationWithFileSeparator()
    ensures DurationFromEnv(Some("\U{1c}5")) == 0
  {
    ParseIntOfUnpadded("\U{1c}5");
    assert !WellFormedDigits("\U{1c}5") by { assert "\U{1c}5"[0] == '\U{1c}'; }
  }

  /** Single underscores between digits are accepted and ignored. */
  lemma DurationWithUnderscore()
    ensures DurationFromEnv(Some("1_000")) == 1000
  {
    ParseIntOfUnpadded("1_000");
    assert "1_"[..1] == "1";
    assert DigitCount("1_") == 1 && DigitsValue("1_") == 1;
    assert "1_0"[..2] == "1_";
    assert DigitCount("1_0") == 2 && DigitsValue("1_0") == 10;
    assert "1_00"[..3] == "1_0";
    assert DigitCount("1_00") == 3 && DigitsValue("1_00") == 100;
    assert "1_000"[..4] == "1_00";
    assert DigitCount("1_000") == 4 && DigitsValue("1_000") == 1000;
  }

  /**
   * The last whole second `datetime` can hold, 9999-12-31 23:59:59, counted
   * in seconds from 0001-01-01 00:00:00.
   */
  const MaxInstant := 315537897599

  /** An instant `datetime` can represent, in whole seconds from 0001-01-01 00:00:00. */
  type Instant = t: int | 0 <= t <= MaxInstant

  /** The longest `timedelta`: 999999999 days and 86399 seconds. */
  const MaxTimedeltaSeconds := 86399999999999

  /**
   * Whether `created_at + timedelta(seconds=duration)` raises `OverflowError`:
   * the duration does not fit a `timedelta`, or the sum passes `datetime.max`.
   */
  predicate Overflows(createdAt: Instant, duration: int) {
    duration > MaxTimedeltaSeconds || createdAt + duration > MaxInstant
  }

  /** The dictionary stored per session: `{"user_id": ..., "created_at": ...}`. */
  datatype SessionEntry = SessionEntry(userId: Option<string>, createdAt: Option<Instant>)

  /** What `user_id_for_session_id` returns, or the `OverflowError` it lets escape. */
  datatype Lookup = Answer(userId: Option<string>) | OverflowRaised

  /**
   * `user_id_for_session_id`: the stored user id unless the session is
   * unknown or, with a positive duration, lacks a creation time or has
   * outlived it; expired entries stay in the map. Computing the expiry
   * instant can overflow, which nothing catches.
   */
  function UserIdForSessionId(sessions: map<string, SessionEntry>, duration: int, sessionId: Option<string>, now: Instant): (r: Lookup)
    ensures sessionId.None? || sessionId.value !in sessions ==> r == Answer(None)
    ensures sessionId.Some? && sessionId.value in sessions ==>
      var entry := sessions[sessionId.value];
      (duration <= 0 ==> r == Answer(entry.userId)) &&
      (duration > 0 && entry.createdAt.None? ==> r == Answer(None)) &&
      (r.OverflowRaised? <==> duration > 0 && entry.createdAt.Some? && Overflows(entry.createdAt.value, duration))
    ensures r.Answer? && r.userId.Some? ==>
      sessionId.Some? && sessionId.value in sessions && r.userId == sessions[sessionId.value].userId
  {
    if sessionId.None? || sessionId.value !in sessions then Answer(None)
    else
      var entry := sessions[sessionId.value];
      if duration <= 0 then Answer(entry.userId)
      else if entry.createdAt.None? then Answer(None)
      else if Overflows(entry.createdAt.value, duration) then OverflowRaised
      else if now > entry.createdAt.value + duration then Answer(None)
      else Answer(entry.userId)
  }

  /**
   * With a positive duration a session with a creation time is valid up to
   * and including `created_at + duration`, unless that instant overflows.
   */
  lemma ExpiryBoundary(sessions: map<string, SessionEntry>, duration: int, sessionId: string, now: Instant)
    requires duration > 0 && sessionId in sessions && sessions[sessionId].createdAt.Some?
    ensures var created := sessions[sessionId].createdAt.value;
      UserIdForSessionId(sessions, duration, Some(sessionId), now) ==
      if Overflows(created, duration) then OverflowRaised
      else if now <= created + duration then Answer(sessions[sessionId].userId)
      else Answer(None)
  {
  }

  /** A duration longer than the whole `datetime` range makes every lookup of a timed session raise. */
  lemma DurationBeyondRangeRaises(sessions: map<string, SessionEntry>, duration: int, sessionId: string, now: Instant)
    requires duration > MaxInstant && sessionId in sessions && sessions[sessionId].createdAt.Some?
    ensures UserIdForSessionId(sessions, duration, Some(sessionId), now) == OverflowRaised
  {
  }

  /** Once a lookup answers None it answers None at every later instant. */
  lemma ExpiryMonotone(sessions: map<string, SessionEntry>, duration: int, sessionId: Option<string>, t1: Instant, t2: Instant)
    requires t1 <= t2
    requires UserIdForSessionId(sessions, duration, sessionId, t1) == Answer(None)
    ensures UserIdForSessionId(sessions, duration, sessionId, t2) == Answer(None)
  {
  }

  /** The entry `create_session` stores is found again until it expires. */
  lemma LookupAfterCreate(sessions: map<string, SessionEntry>, duration: int, sessionId: string, userId: Option<string>, created: Instant, now: Instant)
    ensures UserIdForSessionId(sessions[sessionId := SessionEntry(userId, Some(created))], duration, Some(sessionId), now) ==
      if duration <= 0 then Answer(userId)
      else if Overflows(created, duration) then OverflowRaised
      else if now <= created + duration then Answer(userId)
      else Answer(None)
  {
  }

  /** Storing one session does not change the answer for any other id. */
  lemma CreateLeavesOthers(sessions: map<string, SessionEntry>, duration: int, sessionId: string, entry: SessionEntry, other: string, now: Instant)
    requires other != sessionId
    ensures UserIdForSessionId(sessions[sessionId := entry], duration, Some(other), now) ==
      UserIdForSessionId(sessions, duration, Some(other), now)
  {
  }

  class SessionExpAuth {
    var sessionDuration: int
    var userIdBySessionId: map<string, SessionEntry>

    /** `__init__`: reads the duration from the environment; no session exists yet. */
    constructor(sessionDurationEnv: Option<string>)
      ensures sessionDuration == DurationFromEnv(sessionDurationEnv)
      ensures userIdBySessionId == map[]
    {
      sessionDuration := DurationFromEnv(sessionDurationEnv);
      userIdBySessionId := map[];
    }

    /**
     * `create_session`: `parentId` is what the parent class returned for
     * `userId`. When it is an id, the entry (userId, now) is stored under it.
     */
    method CreateSession(userId: Option<string>, parentId: Option<string>, now: Instant) returns (sessionId: Option<string>)
      modifies this
      ensures sessionId == parentId
      ensures sessionDuration == old(sessionDuration)
      ensures parentId.None? ==> userIdBySessionId == old(userIdBySessionId)
      ensures parentId.Some? ==>
        userIdBySessionId == old(userIdBySessionId)[parentId.value := SessionEntry(userId, Some(now))]
    {
      sessionId := parentId;
      if sessionId.None? {
        return;
      }
      userIdBySessionId := userIdBySessionId[sessionId.value := SessionEntry(userId, Some(now))];
    }

    /** `user_id_for_session_id` on this object's state; it reads and never writes. */
    function UserIdFor(sessionId: Option<string>, now: Instant): (r: Lookup)
      reads this
      ensures r != Answer(None) ==> sessionId.Some? && sessionId.value in userIdBySessionId
    {
      UserIdForSessionId(userIdBySessionId, sessionDuration, sessionId, now)
    }
  }
}
