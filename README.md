# alx-backend-user-data in Dafny

A model of the authentication and personal-data core of the
`alx-backend-user-data` exercises, with proofs about it:

- **0x00 personal data.** `filter_datum` redacts `field=value;` pairs in log
  messages. `RedactingFormatter` applies it with `"***"` and `";"`
  (module `FilteredLogger`). Each `re.sub` is modelled as the left-to-right
  scan the regular expression engine performs for the pattern
  `field=.*?sep`. The loop over the fields is a method proved equal to that
  specification.
- **0x01 Basic authentication.** The base `Auth` class uses an exact
  membership test for excluded paths, and its other two methods are stubs
  (`AuthV1`). `BasicAuth` extracts the Base64 part of an
  `Authorization: Basic …` header and decodes it (`BasicAuthV1`). The
  decoding uses a strict Base64 codec (`Base64`, section 4 of RFC 4648, as
  `b64decode(…, validate=True)` applies it) and strict UTF-8 (`Utf8`,
  section 3 of RFC 3629). Both round trips are proved for UTF-8. For Base64
  only decoding an encoding is the identity: decoding ignores the unused low
  bits of the last character, so "QR==" decodes like "QQ==". The
  0x02 `BasicAuth` repeats the first two methods verbatim, so the same
  functions model both copies.
- **0x02 Session authentication.**
  - `Auth` (`AuthV2`) has wildcard exclusions. `require_auth` is a method
    with the source's early-return loop, proved against a specification
    predicate.
  - `BasicAuth` (`BasicAuthV2`) has the full credential pipeline. The user
    model's search and password check are a parameter (`UserStore`).
  - `SessionExpAuth` (`SessionExp`) is a class with the duration and the
    in-memory session map. It includes Python's `int()` on the
    `SESSION_DURATION` text.
  - `SessionDBAuth` (`SessionDB`) holds its `SessionExpAuth` state as a
    component and keeps the persisted `UserSession` records as a sequence.
  - The `before_request` gate of `app.py` (`App`) decides between passing,
    401, 403 and setting `request.current_user`.
- **0x03 user authentication service.** The `users` table of `db.py` is a
  class holding its rows in insertion order, with `add_user` and
  `find_user_by` (`UserDB`). `Auth.register_user` of `auth.py` is modelled
  in `UserAuth`.

The environment (`AUTH_TYPE`, `SESSION_NAME`, `SESSION_DURATION`) and the
clock are parameters. The clock counts whole seconds within the range of
`datetime`. The id that
the parent `create_session` would issue is also a parameter
(`parentId: Option<string>`), and so is the password hash. Python values
that may be None, a str or another object are `Common.PyValue`. Raised
exceptions are `None`, or result constructors such as `NoResultFound`.

`SessionAuth` (`0x02-Session_authentication/api/v1/auth/session_auth.py`) is
an empty subclass of `Auth`. As a result, every class except `BasicAuth`
keeps the base `current_user`, which always answers None. The gate therefore
never authenticates a request under the session classes, as
`App.OnlyBasicAuthenticates` states. The parent `create_session` and the
`user_id_by_session_id` map are never defined in the source. The model takes
the map as starting empty and the parent's answer as a parameter.

## Model

| member | source | states |
|---|---|---|
| Common.WithTrailingSlash | 0x01-Basic_authentication/api/v1/auth/auth.py:19-20 | the result ends in "/", equals the path when it already did, and is the path plus "/" otherwise |
| Common.Find | 0x02-Session_authentication/api/v1/auth/basic_auth.py:56-59 | `str.find` for one character: None exactly when it is absent, else the index of its first occurrence |
| Base64.Decode | 0x01-Basic_authentication/api/v1/auth/basic_auth.py:37-38 | strict decoding succeeds only on inputs whose length is a multiple of 4 |
| Base64.DecodeEncode | 0x01-Basic_authentication/api/v1/auth/basic_auth.py:37-38 | decoding the canonical encoding of any byte string gives it back |
| Base64.ForeignCharRejected | 0x01-Basic_authentication/api/v1/auth/basic_auth.py:37-38 | any character outside the alphabet other than '=' makes strict decoding fail |
| Base64.InnerPaddingRejected | 0x01-Basic_authentication/api/v1/auth/basic_auth.py:37-38 | '=' followed by a non-'=' character makes strict decoding fail |
| Base64.DecodedLength | 0x01-Basic_authentication/api/v1/auth/basic_auth.py:37-38 | a decoded input yields three bytes per group of four, less one per '=' |
| Base64.DecodeOneByteGroup | 0x01-Basic_authentication/api/v1/auth/basic_auth.py:37-38 | two alphabet characters and "==" decode to the single byte made of the first sextet and the top two bits of the second |
| Base64.ReencodeOneByteGroup | 0x01-Basic_authentication/api/v1/auth/basic_auth.py:37-38 | encoding the decoding of a one-byte group gives the input back if and only if the unused low four bits of its second character are zero |
| Utf8.Decode | 0x01-Basic_authentication/api/v1/auth/basic_auth.py:39 | a decoded string has at most one character per byte and at least one per four bytes |
| Utf8.DecodeEncode | 0x01-Basic_authentication/api/v1/auth/basic_auth.py:39 | decoding the UTF-8 encoding of any string gives the string back |
| Utf8.EncodeDecode | 0x01-Basic_authentication/api/v1/auth/basic_auth.py:39 | strict decoding accepts only canonical encodings: a decoded string re-encodes to exactly the input bytes |
| AuthV1.RequireAuth | 0x01-Basic_authentication/api/v1/auth/auth.py:13-26 | True for a None path, or for a None or empty list; otherwise False exactly when the slash-terminated path is an entry of the list |
| AuthV1.TrailingSlashStable | 0x01-Basic_authentication/api/v1/auth/auth.py:19-20 | a path with or without its trailing "/" gets the same answer |
| AuthV1.UnslashedEntryNeverMatches | 0x01-Basic_authentication/api/v1/auth/auth.py:23-24 | an entry lacking a trailing "/" never exempts any path (entries are not normalised) |
| AuthV1.AuthorizationHeader | 0x01-Basic_authentication/api/v1/auth/auth.py:28-30 | always None |
| AuthV1.CurrentUser | 0x01-Basic_authentication/api/v1/auth/auth.py:32-34 | always None |
| BasicAuthV1.ExtractBase64AuthorizationHeader | 0x01-Basic_authentication/api/v1/auth/basic_auth.py:12-24 | a value exactly when the argument is a str starting with "Basic " (None for None or a non-str); the header is then "Basic " followed by the value |
| BasicAuthV1.ExtractPrefixed | 0x01-Basic_authentication/api/v1/auth/basic_auth.py:21-24 | extraction undoes prefixing with "Basic ", including for the empty suffix |
| BasicAuthV1.LowerCaseSchemeRejected | 0x01-Basic_authentication/api/v1/auth/basic_auth.py:21-22 | the scheme is case-sensitive: "basic …" gives None |
| BasicAuthV1.DecodeBase64AuthorizationHeader | 0x01-Basic_authentication/api/v1/auth/basic_auth.py:26-41 | a result only for a str whose strict Base64 decoding is the UTF-8 encoding of the result; every failure is None |
| BasicAuthV1.DecodeCharacterised | 0x01-Basic_authentication/api/v1/auth/basic_auth.py:36-41 | the decode step yields s if and only if the header's Base64 bytes are the UTF-8 encoding of s |
| BasicAuthV1.DecodeRoundTrip | 0x01-Basic_authentication/api/v1/auth/basic_auth.py:36-39 | the Base64 encoding of a string's UTF-8 bytes decodes to that string |
| BasicAuthV1.ForeignCharDecodesToNone | 0x01-Basic_authentication/api/v1/auth/basic_auth.py:36-41 | a non-alphabet character yields None instead of raising |
| BasicAuthV1.ShortPaddingDecodesToNone | 0x01-Basic_authentication/api/v1/auth/basic_auth.py:36-41 | a length that is not a multiple of 4 yields None |
| AuthV2.AuthRequired | 0x02-Session_authentication/api/v1/auth/auth.py:15-38 | authentication is required for a None path or a None or empty list, and never when the list holds "*" |
| AuthV2.RequireAuth | 0x02-Session_authentication/api/v1/auth/auth.py:15-38 | the early-return scan answers exactly `AuthRequired`: True for None or empty inputs, otherwise False iff some entry exempts the slash-terminated path |
| AuthV2.TrailingSlashStable | 0x02-Session_authentication/api/v1/auth/auth.py:21-22 | a path with or without its trailing "/" gets the same answer |
| AuthV2.StarExemptsEverything | 0x02-Session_authentication/api/v1/auth/auth.py:26-30 | an entry "*" exempts every path |
| AuthV2.WildcardEntry | 0x02-Session_authentication/api/v1/auth/auth.py:26-30 | `prefix*` exempts a path iff the slash-terminated path starts with the prefix |
| AuthV2.PlainEntry | 0x02-Session_authentication/api/v1/auth/auth.py:31-36 | a plain entry exempts a path iff both are equal once each ends in "/" |
| AuthV2.OrderIrrelevant | 0x02-Session_authentication/api/v1/auth/auth.py:25-38 | two non-empty lists with the same entries give the same answer, whatever the order or repetition |
| AuthV2.AuthorizationHeader | 0x02-Session_authentication/api/v1/auth/auth.py:40-45 | None for no request or no Authorization header, otherwise that header's value |
| AuthV2.SessionCookie | 0x02-Session_authentication/api/v1/auth/auth.py:51-59 | None for no request, no SESSION_NAME or no such cookie, otherwise the cookie's value |
| AuthV2.CurrentUser | 0x02-Session_authentication/api/v1/auth/auth.py:47-49 | always None |
| BasicAuthV2.ExtractUserCredentials | 0x02-Session_authentication/api/v1/auth/basic_auth.py:46-64 | both parts or neither; both exactly for a str containing ':'; then the str is email + ":" + password and the email has no ':' |
| BasicAuthV2.ExtractJoined | 0x02-Session_authentication/api/v1/auth/basic_auth.py:59-64 | for an email without ':', splitting email + ":" + password gives back both parts, the password keeping any ':' |
| BasicAuthV2.UserObjectFromCredentials | 0x02-Session_authentication/api/v1/auth/basic_auth.py:66-85 | a user iff both are str, the search does not raise, finds someone and the first found accepts the password; that user is the result |
| BasicAuthV2.CurrentUser | 0x02-Session_authentication/api/v1/auth/basic_auth.py:87-111 | a user only for a request carrying an Authorization header |
| BasicAuthV2.CurrentUserOfPayload | 0x02-Session_authentication/api/v1/auth/basic_auth.py:87-111 | a request whose header is "Basic " plus any payload strictly decoding to the UTF-8 of `email:password`, canonical or not, gets exactly the credentials lookup for that pair |
| BasicAuthV2.CurrentUserOfBasicHeader | 0x02-Session_authentication/api/v1/auth/basic_auth.py:87-111 | a request with the client's header for `email:password` gets exactly the credentials lookup for that pair |
| BasicAuthV2.CurrentUserSound | 0x02-Session_authentication/api/v1/auth/basic_auth.py:87-111 | whoever is authenticated sent "Basic " plus a Base64 payload decoding to some `email:password`, and is the lookup result for that pair |
| BasicAuthV2.EmptyBasicHeaderRejected | 0x02-Session_authentication/api/v1/auth/basic_auth.py:94-107 | the header "Basic " alone decodes to "", which has no ':', so nobody is authenticated |
| SessionExp.ParseInt | 0x02-Session_authentication/api/v1/auth/session_exp_auth.py:17 | `int()` raises on blank text; a value read comes from text ending in a digit, and a negative one from text starting with '-' |
| SessionExp.DurationFromEnv | 0x02-Session_authentication/api/v1/auth/session_exp_auth.py:16-19 | an unset SESSION_DURATION gives 0 |
| SessionExp.DurationOfDecimal | 0x02-Session_authentication/api/v1/auth/session_exp_auth.py:16-19 | a decimal integer of at most 4300 digits, with or without surrounding whitespace, is read back exactly; a longer one gives 0 |
| SessionExp.DurationPastDigitLimit | 0x02-Session_authentication/api/v1/auth/session_exp_auth.py:16-19 | a run of more than 4300 digits makes `int()` raise, so the duration is 0 |
| SessionExp.DurationOfMalformed | 0x02-Session_authentication/api/v1/auth/session_exp_auth.py:16-19 | "", "1.5", "60s" and "1__0" make `int()` raise and give 0 |
| SessionExp.DurationWithFileSeparator | 0x02-Session_authentication/api/v1/auth/session_exp_auth.py:16-19 | a leading U+001C is not whitespace to `int()`, which raises, so the duration is 0 |
| SessionExp.DurationWithUnderscore | 0x02-Session_authentication/api/v1/auth/session_exp_auth.py:17 | "1_000" is read as 1000, as `int()` reads it |
| SessionExp.ParseIntOfDecimal | 0x02-Session_authentication/api/v1/auth/session_exp_auth.py:17 | `int(str(n)) == n` when `str(n)` has at most 4300 digits, also with surrounding whitespace; `int()` raises beyond |
| SessionExp.UserIdForSessionId | 0x02-Session_authentication/api/v1/auth/session_exp_auth.py:33-53 | None for no id or an unknown id; with a non-positive duration the stored user id whatever its age; with a positive one None when created_at is missing, and OverflowError exactly when created_at + duration passes `datetime.max` or the duration exceeds `timedelta`'s range; any user id returned is the stored one |
| SessionExp.ExpiryBoundary | 0x02-Session_authentication/api/v1/auth/session_exp_auth.py:45-53 | with a positive duration and a creation time: OverflowError when the expiry instant overflows, else valid up to and including created_at + duration and None after |
| SessionExp.DurationBeyondRangeRaises | 0x02-Session_authentication/api/v1/auth/session_exp_auth.py:49-50 | a duration longer than the whole `datetime` range makes every lookup of a session with a creation time raise OverflowError |
| SessionExp.ExpiryMonotone | 0x02-Session_authentication/api/v1/auth/session_exp_auth.py:49-51 | once a lookup answers None, it answers None at every later instant |
| SessionExp.LookupAfterCreate | 0x02-Session_authentication/api/v1/auth/session_exp_auth.py:27-53 | the entry stored by create_session is found again until it expires, or raises OverflowError when its expiry instant overflows |
| SessionExp.CreateLeavesOthers | 0x02-Session_authentication/api/v1/auth/session_exp_auth.py:27-30 | storing a session does not change the answer for any other id |
| SessionExp.SessionExpAuth.constructor | 0x02-Session_authentication/api/v1/auth/session_exp_auth.py:13-19 | the duration is the parsed SESSION_DURATION; no session exists yet |
| SessionExp.SessionExpAuth.CreateSession | 0x02-Session_authentication/api/v1/auth/session_exp_auth.py:21-31 | returns the parent's answer; when it is an id, stores (user, now) under it and changes nothing else |
| SessionExp.SessionExpAuth.UserIdFor | 0x02-Session_authentication/api/v1/auth/session_exp_auth.py:33-53 | reads the object's state only; anything but None comes from a stored id |
| SessionDB.FirstMatch | 0x02-Session_authentication/api/v1/auth/session_db_auth.py:30-34 | None iff no record has the id, otherwise the index of the first that has it |
| SessionDB.FirstMatchAppend | 0x02-Session_authentication/api/v1/auth/session_db_auth.py:20-22 | appending a record keeps an earlier first match, and otherwise makes the new record the first match for its id |
| SessionDB.UserIdForSessionId | 0x02-Session_authentication/api/v1/auth/session_db_auth.py:24-45 | None for no id or no record; otherwise, on the first record with the id: its user id for a non-positive duration, None when it has no created_at, OverflowError exactly when created_at + duration overflows; any user id returned is that record's |
| SessionDB.AgreesWithInMemory | 0x02-Session_authentication/api/v1/auth/session_db_auth.py:35-45 | the persisted check (`created_at + duration < now`) and the in-memory one (`now > created_at + duration`) agree on the same entry |
| SessionDB.LookupAfterCreate | 0x02-Session_authentication/api/v1/auth/session_db_auth.py:14-22 | a record persisted for a new id is found again until it expires, or raises OverflowError when its expiry instant overflows |
| SessionDB.RemoveAt | 0x02-Session_authentication/api/v1/auth/session_db_auth.py:61-62 | removing one record keeps every other record in order |
| SessionDB.LookupAfterDestroy | 0x02-Session_authentication/api/v1/auth/session_db_auth.py:61-63 | after its only record is removed a session is no longer found |
| SessionDB.SessionDBAuth.constructor | 0x02-Session_authentication/api/v1/auth/session_exp_auth.py:13-19 | the inherited duration is parsed from SESSION_DURATION; the persisted records are those stored |
| SessionDB.SessionDBAuth.CreateSession | 0x02-Session_authentication/api/v1/auth/session_db_auth.py:14-22 | returns the parent's answer; when it is an id, the in-memory entry is stored and exactly one record (user, id) is appended |
| SessionDB.SessionDBAuth.DestroySession | 0x02-Session_authentication/api/v1/auth/session_db_auth.py:47-63 | True iff there is a request, a session cookie and a record with that id; then exactly the first such record is removed, otherwise nothing changes |
| SessionDB.SessionDBAuth.UserIdFor | 0x02-Session_authentication/api/v1/auth/session_db_auth.py:24-45 | reads the persisted records only; anything but None needs a record with the id |
| App.SelectAuth | 0x02-Session_authentication/api/v1/app.py:18-34 | a class is chosen only when AUTH_TYPE is exactly that class's name |
| App.SelectAuthByName | 0x02-Session_authentication/api/v1/app.py:18-34 | each class is chosen by its own name and any other value chooses none |
| App.CurrentUserOf | 0x02-Session_authentication/api/v1/auth/session_auth.py:8-10 | every class but BasicAuth answers None for the current user |
| App.Decide | 0x02-Session_authentication/api/v1/app.py:37-97 | 401 only when auth is set and neither header nor cookie is present; a user only on a protected path and only the one current_user returns |
| App.ExcludedPathPasses | 0x02-Session_authentication/api/v1/app.py:43-48 | each listed path, with or without its trailing "/", passes without any credential being read |
| App.NoCredentialIsUnauthorized | 0x02-Session_authentication/api/v1/app.py:82-83 | a protected request with neither header nor cookie gets 401 |
| App.EmptyHeaderIsForbidden | 0x02-Session_authentication/api/v1/app.py:82-94 | an empty header with no cookie gets 403, not 401 (`is None` against truthiness) |
| App.CredentialOutcome | 0x02-Session_authentication/api/v1/app.py:86-97 | with a non-empty credential the request is authenticated as current_user's answer, or gets 403 when that is None |
| App.BasicHeaderOutcome | 0x02-Session_authentication/api/v1/app.py:86-97 | under BasicAuth the client's header for `email:password` authenticates as the store's verdict on the pair, else 403 |
| App.OnlyBasicAuthenticates | 0x02-Session_authentication/api/v1/auth/session_auth.py:8-10 | under any class but BasicAuth no request is ever authenticated |
| App.AuthHandle | 0x02-Session_authentication/api/v1/app.py:37-97 | the hook's response is the decision's (continue, 401, 403); current_user is reset and set to the user only on success, and untouched when no auth is configured |
| FilteredLogger.ValueEnd | 0x00-personal_data/filtered_logger.py:24 | the lazy `.*?` stops at the first separator not preceded by a newline |
| FilteredLogger.ValueEndFinds | 0x00-personal_data/filtered_logger.py:24 | for any separator string: if it occurs at k with no newline before it, the lazy value ends at k or earlier |
| FilteredLogger.MatchAt | 0x00-personal_data/filtered_logger.py:24 | a match starts with `field=` and spans at least `field=` and the separator |
| FilteredLogger.RedactField | 0x00-personal_data/filtered_logger.py:24 | one `re.sub` scan; a message shorter than any match, or one in which `field=` never begins, is returned unchanged |
| FilteredLogger.FilterAll | 0x00-personal_data/filtered_logger.py:22-27 | the substitutions of the fields one after the other; an empty message stays empty |
| FilteredLogger.FilterDatum | 0x00-personal_data/filtered_logger.py:17-28 | the loop's result is the fields applied in list order; an empty list leaves the message unchanged |
| FilteredLogger.FilterAllConcat | 0x00-personal_data/filtered_logger.py:22-27 | filtering with two lists in a row is filtering with their concatenation |
| FilteredLogger.RedactsPair | 0x00-personal_data/filtered_logger.py:23-27 | `field=value;` becomes `field=***;` and the scan resumes after it, so later pairs survive |
| FilteredLogger.CopiesPrefix | 0x00-personal_data/filtered_logger.py:23-27 | text that cannot begin `field=` is copied verbatim |
| FilteredLogger.RedactsPairAfter | 0x00-personal_data/filtered_logger.py:23-27 | a pair after plain text is redacted in place and the text before it kept |
| FilteredLogger.UnterminatedKept | 0x00-personal_data/filtered_logger.py:24 | a `field=` whose value reaches a newline before any separator is not replaced |
| FilteredLogger.UnterminatedAtEnd | 0x00-personal_data/filtered_logger.py:24 | a `field=` with no separator after it does not match |
| FilteredLogger.SubstringFieldMatches | 0x00-personal_data/filtered_logger.py:24 | field "name" also redacts `username=…;` |
| FilteredLogger.RedactingFormatter.constructor | 0x00-personal_data/filtered_logger.py:58-60 | the formatter keeps the configured fields |
| FilteredLogger.RedactingFormatter.Format | 0x00-personal_data/filtered_logger.py:62-68 | the record's message becomes its redaction with "***" and ";" over the configured fields |
| UserDB.ColumnValue | 0x03-user_authentication_service/user.py:14-18 | the `email` column of a row is its e-mail |
| UserDB.EmailFilterMatches | 0x03-user_authentication_service/db.py:66-68 | a filter on e-mail alone matches exactly the rows with that e-mail |
| UserDB.NullNeverMatches | 0x03-user_authentication_service/db.py:66-68 | a None filter value matches no row, as NULL never compares equal in SQL |
| UserDB.IdsDistinct | 0x03-user_authentication_service/user.py:14 | increasing autoincrement ids are pairwise distinct |
| UserDB.FindUserByAsWritten | 0x03-user_authentication_service/db.py:42-64 | as written, every call raises NameError |
| UserDB.AsWrittenMissesStoredUser | 0x03-user_authentication_service/db.py:42-64 | as written, a stored user is not found even by its own e-mail |
| UserDB.DB.constructor | 0x03-user_authentication_service/db.py:16-22 | a new table is empty |
| UserDB.DB.AddUser | 0x03-user_authentication_service/db.py:33-40 | appends exactly one row with the given e-mail and hash, NULL session and token, and an id no existing row has; returns it |
| UserDB.DB.FindUserBy | 0x03-user_authentication_service/db.py:42-71 | InvalidRequestError iff a keyword is not a column; otherwise the first row matching all filters, or NoResultFound iff none does; the table is unchanged |
| UserAuth.AppendNewEmailKeepsUnique | 0x03-user_authentication_service/auth.py:19-23 | appending a row with a new e-mail keeps e-mails unique |
| UserAuth.Auth.constructor | 0x03-user_authentication_service/auth.py:13-14 | a new service starts with an empty table |
| UserAuth.Auth.RegisterUser | 0x03-user_authentication_service/auth.py:16-25 | with a new e-mail, exactly one row with that e-mail and `hash(password)` is added, returned and found by a later lookup; with a taken e-mail, ValueError "User <email> already exists" and the table unchanged; unique e-mails stay unique |

## Findings

| source | as written | input that shows it | evidently intended | confidence | as-written member | corrected member |
|---|---|---|---|---|---|---|
| 0x03-user_authentication_service/db.py:42-64 | `find_user_by` declares only `email`, but its loop iterates `kwargs`, a name that is never defined, so every call raises NameError | `find_user_by(email="a@b.c")` on any table, including one holding that user | `find_user_by(**kwargs)`: InvalidRequestError for a non-column keyword, else the first row matching all keywords, else NoResultFound | high, not executed | UserDB.FindUserByAsWritten | UserDB.DB.FindUserBy |

The same function also uses `InvalidRequestError`, `NoResultFound` and
`tuple_` without importing them. The corrected `UserDB.DB.FindUserBy` is the
one `UserAuth.Auth.RegisterUser` calls.

## Left out

- AuthV2.AuthorizationHeader: Flask's header lookup ignores case (`authorization` finds `Authorization`); the model's header map is matched exactly.
- Base64.Decode: Python releases before 3.11 also accept surplus '=' after a complete group (for example "QUJD="). The model follows the strict 3.11 behaviour.
- SessionExp.DurationFromEnv: `int()` also accepts non-ASCII decimal digits (for example Arabic-Indic digits). The model accepts ASCII digits only.
- SessionExp.ParseInt: the limit of 4300 digits is Python's default. Changing it through `PYTHONINTMAXSTRDIGITS` or `sys.set_int_max_str_digits` is not modelled.
- The password hash (`_hash_password`, bcrypt with a random salt) is an uninterpreted function parameter. Its bytes and the str column are not told apart.
- `User.search` and `is_valid_password` belong to `models.base`, which is not part of this model. They are `BasicAuthV2.UserStore`.
- `UserSession.save`, `remove` and `load_from_file` belong to `models.base` too. The persisted file is the `records` sequence, and a reload yields it unchanged.
- The creation time `models.base` gives a new `UserSession` is taken to be the `now` of `create_session`.
- `datetime.now()` (in-memory sessions) and `datetime.utcnow()` (persisted sessions) are one clock of whole seconds, bounded by the `datetime` range. Microseconds and time zones are not modelled.
- SessionExp.UserIdForSessionId: an empty stored dictionary (`not session_dict`) cannot arise from `create_session` and is not represented.
- A `created_at` that is missing or not a `datetime` is `None`. This matches the in-memory lookup (`0x02-Session_authentication/api/v1/auth/session_exp_auth.py:45-47`). The persisted lookup (`0x02-Session_authentication/api/v1/auth/session_db_auth.py:38-41`) only tests `hasattr`, so a `created_at` that is present but None or not a `datetime` would raise TypeError there. `models.base` always stores a `datetime`, so that path cannot arise and is not modelled.
- FilteredLogger.RedactField: field names and the separator are plain text. Regular expression metacharacters in them, and backslash escapes in the replacement, are not modelled.
- FilteredLogger.RedactingFormatter.Format: the line layout of `logging.Formatter.format` (FORMAT, time, level) is not modelled. The record's message is its `msg`, without `%` arguments.
- `PII_FIELDS`, `get_db`, `get_logger` and `main` of `filtered_logger.py` (MySQL and logging I/O) are not modelled. `RedactingFormatter` takes its fields as a parameter.
- UserDB.DB.FindUserBy: an empty filter list is taken to match every row. The SQL that SQLAlchemy renders for an empty tuple is not part of this model.
- UserDB.DB.FindUserBy: values compare by exact equality, without SQLite type affinity.
- UserDB.DB.FindUserBy: only the five columns count as valid keywords. `hasattr` would also accept other class attributes, and the query would then fail differently.
- UserDB.DB.FindUserBy: `.first()` is taken in insertion order.
- The engine, the memoised session and the `a.db` file are SQLAlchemy plumbing and are not modelled.
- Column length limits (`String(250)`) are not modelled.
- UserAuth.Auth.RegisterUser: the return annotation `-> User` at `0x03-user_authentication_service/auth.py:16` names a class that file never imports, and there is no `from __future__ import annotations`. On Python 3.11 to 3.13 the annotation is evaluated when the class is defined, so importing `auth.py` raises `NameError` and `register_user` can never be called. The model describes the method the code evidently intends.
- The Flask layer is not modelled: error handlers, CORS, `app.run`, and `abort` as an exception. The gate's outcome is a returned `App.Response`.
- `0x03-user_authentication_service/app.py` and `main.py` are HTTP front ends and are not part of this model.
- Session-id generation is not part of this model, because the parent `create_session` is absent from the source. The parent's answer is a parameter.
