# alx-backend-user-data, modelled in Dafny

This project models the logic of four small Python services and proves properties of that model.

- **Log redaction** (`0x00-personal_data`). `filter_datum` masks the value of each listed field in a `;`-separated log line. The mask applies only where the `field=value` has a separator on both sides. Per field, it performs a `re.sub` followed by `str.format`.
- **HTTP Basic authentication** (`0x01-Basic_authentication`), in two versions:
  - `api/v1` splits the decoded credentials at the first colon, as section 2 of RFC 7617 requires. It then looks up the first user whose password validates.
  - `SimpleAPI` splits at every colon.

  The base authenticator decides which paths need authentication using a plain prefix policy.
- **The session base authenticator** (`0x02-Session_authentication`) uses an exact-or-wildcard policy for excluded paths.
- **The user authentication service** (`0x03-user_authentication_service`) has three parts:
  - the `users` record;
  - the `DB` class, a table with `add_user`, `find_user_by` and `update_user`;
  - the `Auth` class, which handles registration, login checks, sessions and reset tokens over that table.

Code that works on values is modelled as functions. `filter_datum`'s loop is a method, proved equal to a left fold. `DB` and `Auth` are classes. `DB.users` holds the table as a sequence in insertion order, and its methods update it in place.

Modules, one per file:

- `Wrappers`: `Option` and `Result`.
- `Text`: the Python string operations used (`startswith`, `split(c, 1)`, `split(c)`, `rstrip`).
- `SimpleApiAuth`, `SessionApiAuth`, `BasicAuth` and `SimpleApiBasicAuth`: the authentication modules.
- `PersonalData`: log redaction.
- `UserModel`, `UserDb` and `UserAuthService`: the user service.

Inputs outside the model are parameters:

- The base64 and UTF-8 decoders are a `Codec` of two partial functions.
- `User.search` and `is_valid_password` are a `Directory`.
- bcrypt is a `Crypto` of two functions. The model assumes one fact about it, `Sound`: a password checks against its own hash.
- Every salt and uuid the source draws is an argument.

Where a Python function can raise, the model returns `None` or a `Failure`.

## Model

| member | source | states |
|---|---|---|
| Text.SplitOnce | 0x01-Basic_authentication/api/v1/auth/basic_auth.py:68 | `s.split(c, 1)`: no result exactly when `c` is absent; otherwise a `c`-free head and a tail that rebuild `s` around the first `c` |
| Text.SplitOnceUnique | 0x01-Basic_authentication/api/v1/auth/basic_auth.py:68 | any split `a + c + b` with `c`-free `a` is the one `split(c, 1)` returns |
| Text.Split | 0x01-Basic_authentication/SimpleAPI/api/v1/auth/basic_auth.py:62 | `s.split(c)`: one part more than `c` occurs, no part holds `c`, and joining with `c` gives `s` back |
| Text.SplitJoin | 0x01-Basic_authentication/SimpleAPI/api/v1/auth/basic_auth.py:62 | splitting the join of `c`-free parts returns exactly those parts |
| Text.RStrip | 0x02-Session_authentication/api/v1/auth/auth.py:21 | `rstrip(c)`: the longest prefix that does not end in `c`, with only `c` removed after it |
| SimpleApiAuth.NormalizePath | 0x01-Basic_authentication/SimpleAPI/api/v1/auth/auth.py:21 | the path with its trailing slashes replaced by exactly one slash |
| SimpleApiAuth.NormalizeIgnoresTrailingSlash | 0x01-Basic_authentication/SimpleAPI/api/v1/auth/auth.py:21 | adding a trailing slash does not change the normalised path |
| SimpleApiAuth.NormalizeIdempotent | 0x01-Basic_authentication/SimpleAPI/api/v1/auth/auth.py:21 | normalising twice is the same as normalising once |
| SimpleApiAuth.AnyPrefix | 0x01-Basic_authentication/SimpleAPI/api/v1/auth/auth.py:24-28 | the early-return loop is true iff some entry is a prefix of the path |
| SimpleApiAuth.RequireAuth | 0x01-Basic_authentication/SimpleAPI/api/v1/auth/auth.py:14-28 | true for a missing path or a missing or empty list; false iff some entry is a prefix of the normalised path |
| SimpleApiAuth.RequireAuthIgnoresTrailingSlash | 0x01-Basic_authentication/SimpleAPI/api/v1/auth/auth.py:21 | `p` and `p + "/"` need authentication alike |
| SimpleApiAuth.RequireAuthMonotone | 0x01-Basic_authentication/SimpleAPI/api/v1/auth/auth.py:24-28 | a path exempted by a list stays exempted by any list that holds its entries |
| SimpleApiAuth.AuthorizationHeader | 0x01-Basic_authentication/SimpleAPI/api/v1/auth/auth.py:30-38 | the `Authorization` value iff there is a request and that header is present and non-empty (the code is identical in `0x02-Session_authentication/api/v1/auth/auth.py:36-44`) |
| SimpleApiAuth.CurrentUser | 0x01-Basic_authentication/SimpleAPI/api/v1/auth/auth.py:40-44 | the base class never identifies anybody |
| SessionApiAuth.Exempts | 0x02-Session_authentication/api/v1/auth/auth.py:24-30 | one entry exempts a path only when, read as a prefix (`pre*` as `pre`), it is a prefix of the path |
| SessionApiAuth.AnyExempts | 0x02-Session_authentication/api/v1/auth/auth.py:24-32 | the early-return loop is true iff some entry exempts the path: `pre*` by prefix `pre`, any other entry by equality |
| SessionApiAuth.RequireAuth | 0x02-Session_authentication/api/v1/auth/auth.py:14-34 | true for a missing path or a missing or empty list; false iff some entry exempts the normalised path |
| SessionApiAuth.RequireAuthIgnoresTrailingSlash | 0x02-Session_authentication/api/v1/auth/auth.py:21 | `p` and `p + "/"` need authentication alike |
| SessionApiAuth.RequireAuthOrderIndependent | 0x02-Session_authentication/api/v1/auth/auth.py:24-34 | two lists with the same entries give the same answer, whatever their order or repetitions |
| SessionApiAuth.NonWildcardEntryNeedsSlash | 0x02-Session_authentication/api/v1/auth/auth.py:21-30 | an entry without `*` that does not end in `/` never exempts any path |
| SessionApiAuth.ExactPolicyStricterThanPrefix | 0x02-Session_authentication/api/v1/auth/auth.py:24-32 | every path the exact-or-wildcard policy exempts is also exempted by the SimpleAPI prefix policy `path.startswith(entry)`, with `pre*` read as the prefix `pre` |
| SessionApiAuth.PrefixPolicyIsLooser | 0x02-Session_authentication/api/v1/auth/auth.py:29-32 | the converse fails: `/api/v1/status/x` is exempted by prefix but not by equality |
| SessionApiAuth.StatusRouteExempted | 0x02-Session_authentication/api/v1/auth/auth.py:18-34 | `/api/v1/status` and `/api/v1/status/` are exempted by `/api/v1/status/`; `/api/v1/other` is not |
| BasicAuth.ExtractBase64AuthorizationHeader | 0x01-Basic_authentication/api/v1/auth/basic_auth.py:32-38 | a result iff the argument is a string that starts with `Basic ` (case-sensitive); then `"Basic " + result` is the header (the code is identical in the SimpleAPI `basic_auth.py:27-33`) |
| BasicAuth.ExtractAfterScheme | 0x01-Basic_authentication/api/v1/auth/basic_auth.py:35-38 | `"Basic " + s` yields `s` for every `s`, including the empty string |
| BasicAuth.SchemeIsCaseSensitive | 0x01-Basic_authentication/api/v1/auth/basic_auth.py:35-36 | `basic ` and `BASIC ` are rejected, although section 2.1 of RFC 7235 makes the scheme case-insensitive |
| BasicAuth.DecodeBase64AuthorizationHeader | 0x01-Basic_authentication/api/v1/auth/basic_auth.py:45-55 | no result for a non-string; a result iff both decoders succeed, and then it is the UTF-8 decoding of the Base64-decoded bytes (the code is identical in the SimpleAPI `basic_auth.py:40-50`) |
| BasicAuth.ExtractUserCredentials | 0x01-Basic_authentication/api/v1/auth/basic_auth.py:62-68 | `(None, None)` unless the argument is a string holding `:`; otherwise a colon-free email `e` and a password `p` with `e + ":" + p` equal to the input |
| BasicAuth.CredentialsRoundTrip | 0x01-Basic_authentication/api/v1/auth/basic_auth.py:67-68 | a colon-free email and any password, colons included, come back unchanged |
| BasicAuth.Search | 0x01-Basic_authentication/api/v1/auth/basic_auth.py:80 | `User.search({'email': email})` keeps every stored user with that email and nothing else, and is no longer than the table; the order it keeps enters through `FirstValidOfSearch` |
| BasicAuth.FirstValid | 0x01-Basic_authentication/api/v1/auth/basic_auth.py:85-88 | the loop returns only a candidate whose password validates |
| BasicAuth.FirstAccepted | 0x01-Basic_authentication/api/v1/auth/basic_auth.py:80-88 | reference definition: no result iff no user has the email and password; otherwise the first such user in search order |
| BasicAuth.FirstValidOfSearch | 0x01-Basic_authentication/api/v1/auth/basic_auth.py:80-88 | searching by email and then taking the first valid password equals the reference definition |
| BasicAuth.UserObjectFromCredentials | 0x01-Basic_authentication/api/v1/auth/basic_auth.py:75-88 | no result iff an argument is not a string or no user accepts those credentials; otherwise the first accepting user in search order |
| BasicAuth.CurrentUser | 0x01-Basic_authentication/api/v1/auth/basic_auth.py:94-115 | no result without an `Authorization` header or when it does not start with `Basic `; otherwise the text after `Basic ` is decoded, and with no decoding or no colon in it there is no result, else the result is `user_object_from_credentials` of the text before the first colon and the text after it; a result is always a stored user |
| BasicAuth.CurrentUserRoundTrip | 0x01-Basic_authentication/api/v1/auth/basic_auth.py:100-115 | `Basic ` plus an encoding of `email:password` with a colon-free email identifies exactly the user those credentials identify |
| SimpleApiBasicAuth.ExtractUserCredentials | 0x01-Basic_authentication/SimpleAPI/api/v1/auth/basic_auth.py:57-62 | `(None, None)` unless the argument is a string holding `:`; otherwise one colon-free part per colon plus one, which re-join to the input |
| SimpleApiBasicAuth.AgreesWithFirstColonSplit | 0x01-Basic_authentication/SimpleAPI/api/v1/auth/basic_auth.py:62 | the first part is the api/v1 email, and the api/v1 password is the remaining parts re-joined with colons |
| SimpleApiBasicAuth.OneColonSameAsFirstColonSplit | 0x01-Basic_authentication/SimpleAPI/api/v1/auth/basic_auth.py:62 | with exactly one colon both versions give the same pair |
| SimpleApiBasicAuth.ManyColonsNotAPair | 0x01-Basic_authentication/SimpleAPI/api/v1/auth/basic_auth.py:62 | a password holding a colon gives more than two parts here, but the intended pair in api/v1 |
| PersonalData.FormatterSettingsFit | 0x00-personal_data/filtered_logger.py:10-19 | `PII_FIELDS`, `***` and `;` satisfy every side condition of the lemmas below |
| PersonalData.MatchAt | 0x00-personal_data/filtered_logger.py:46-50 | a match of `(?<=sep)field=[^sep]+(?=sep)` needs a separator before it; it covers `field=` and at least one non-separator, and stops at the next separator |
| PersonalData.MatchCount | 0x00-personal_data/filtered_logger.py:46-50 | a text with a match holds at least the field, `=`, one character of value and the separator after it (the number of matches, one per redactable segment, is `SubBySegments`) |
| PersonalData.Format | 0x00-personal_data/filtered_logger.py:50-51 | `str.format` returns brace-free text unchanged |
| PersonalData.Step | 0x00-personal_data/filtered_logger.py:46-51 | one loop iteration leaves a brace-free message in which the field does not match unchanged (what it does otherwise is `StepIsRedaction`) |
| PersonalData.Filter | 0x00-personal_data/filtered_logger.py:45-53 | the loop leaves a brace-free message in which no field matches unchanged (its full effect is `FilterBySegments`) |
| PersonalData.FilterDatum | 0x00-personal_data/filtered_logger.py:33-53 | the loop returns the left fold of one substitute-and-format step per field, or the error of the first step that raises |
| PersonalData.FilterNoFields | 0x00-personal_data/filtered_logger.py:45-53 | with no fields the message is returned unchanged |
| PersonalData.FormatBraceFreeText | 0x00-personal_data/filtered_logger.py:50-51 | `.format` passes brace-free text through unchanged |
| PersonalData.FormatHoles | 0x00-personal_data/filtered_logger.py:50-51 | the first `{}={}` takes both arguments; a second one finds none left and raises |
| PersonalData.Sub | 0x00-personal_data/filtered_logger.py:46-50 | `re.sub` of the pattern: a text in which the pattern does not match is returned unchanged (its segment-by-segment meaning is `SubBySegments`) |
| PersonalData.StepIsRedaction | 0x00-personal_data/filtered_logger.py:46-51 | on a brace-free line, one step substitutes `field=redaction` when there is at most one match, and raises on two or more |
| PersonalData.RewriteSegments | 0x00-personal_data/filtered_logger.py:46-50 | per segment: a segment with separators on both sides that reads `field=` plus a value becomes the replacement; every other segment is kept |
| PersonalData.SubBySegments | 0x00-personal_data/filtered_logger.py:46-50 | `re.sub` on a joined line equals rewriting its segments and joining again; the match count equals the number of rewritten segments |
| PersonalData.MatchAtSegment | 0x00-personal_data/filtered_logger.py:46-50 | at the start of a separator-free segment the pattern matches iff a separator precedes it and the segment is `field=value` with a non-empty value, and the match ends at the separator after it |
| PersonalData.StepBySegments | 0x00-personal_data/filtered_logger.py:46-51 | a step raises iff two segments are redactable; otherwise the segments of its result are the rewritten segments |
| PersonalData.RedactSegmentsPointwise | 0x00-personal_data/filtered_logger.py:45-51 | the loop treats each middle segment on its own and keeps the first and last segments |
| PersonalData.FilterBySegments | 0x00-personal_data/filtered_logger.py:45-53 | on a brace-free line, `filter_datum` raises iff some field meets two redactable segments; otherwise it returns the rewritten segments joined again |
| PersonalData.FilterRedactsSegments | 0x00-personal_data/filtered_logger.py:45-53 | the output keeps the number of segments; the text before the first separator and after the last is never redacted; each middle segment is redacted field by field, which `RedactsListedField` and `KeepsUnlistedSegment` spell out per segment |
| PersonalData.RedactsListedField | 0x00-personal_data/filtered_logger.py:45-51 | with `=`-free fields and a non-empty redaction, a middle segment `f=value` with `f` among the fields becomes `f=redaction` |
| PersonalData.KeepsUnlistedSegment | 0x00-personal_data/filtered_logger.py:45-51 | a middle segment that is not `f=value`, with a non-empty value, for any listed field `f` is kept as it is |
| PersonalData.FilterWithoutMatches | 0x00-personal_data/filtered_logger.py:45-53 | a line in which no field occurs as `field=value` between separators comes back unchanged |
| PersonalData.RedactSegmentIdempotent | 0x00-personal_data/filtered_logger.py:45-51 | redacting an already redacted segment changes nothing |
| PersonalData.RedactedCountBound | 0x00-personal_data/filtered_logger.py:45-51 | after a run that does not raise, each field names at most one segment of the output |
| PersonalData.FilterIdempotent | 0x00-personal_data/filtered_logger.py:45-53 | filtering an already filtered line returns the same line |
| UserModel.ColumnNamed | 0x03-user_authentication_service/user.py:23-27 | the attribute names `id`, `email`, `hashed_password`, `session_id` and `reset_token`, and no others, denote columns |
| UserModel.ColumnNamesRoundTrip | 0x03-user_authentication_service/user.py:23-27 | every column is found again under its own name |
| UserModel.Get | 0x03-user_authentication_service/user.py:23-27 | `id` is an integer, `email` and `hashed_password` are never null, and the other two columns may be null |
| UserModel.Set | 0x03-user_authentication_service/user.py:23-27 | `setattr` gives the column its new value and leaves every other column unchanged |
| UserModel.SetOwnValue | 0x03-user_authentication_service/user.py:23-27 | assigning a column its current value changes nothing |
| UserModel.NewUser | 0x03-user_authentication_service/user.py:23-27 | a new record has the given id, email and hash, with `session_id` and `reset_token` unset |
| UserDb.FirstMatch | 0x03-user_authentication_service/db.py:56 | the first record in table order that meets every criterion, and none exactly when no record does |
| UserDb.Find | 0x03-user_authentication_service/db.py:48-61 | `InvalidRequestError` iff a criterion names no column; `NoResultFound` iff no record matches; otherwise the first matching record |
| UserDb.NextId | 0x03-user_authentication_service/user.py:23 | the integer primary key of a new row is 1 in an empty table and otherwise one past the largest id |
| UserDb.FirstMatchById | 0x03-user_authentication_service/db.py:71-72 | with distinct ids, the lookup by id finds the one record that holds the id |
| UserDb.Assign | 0x03-user_authentication_service/db.py:76-80 | the `setattr` loop: each named column holds its keyword's value, and every column no keyword names keeps its value |
| UserDb.AssignSnoc | 0x03-user_authentication_service/db.py:76-80 | one more keyword is one more `setattr` on the record built so far |
| UserDb.AssignAppend | 0x03-user_authentication_service/db.py:76-80 | the assignments for the keywords plus one more are those for the keywords followed by one more `setattr` |
| UserDb.UpdateStopsAt | 0x03-user_authentication_service/db.py:71-82 | once the record is found, the update stops at the first unknown keyword: `ValueError` there, success at the end of the keywords, with the assignments before it applied either way |
| UserDb.UpdateUnknownId | 0x03-user_authentication_service/db.py:71-74 | `update_user` with an id no record holds raises `ValueError` and changes nothing |
| UserDb.UpdateSucceeds | 0x03-user_authentication_service/db.py:71-82 | `update_user` succeeds iff some record holds the id and every keyword names a column |
| UserDb.Update | 0x03-user_authentication_service/db.py:63-82 | `update_user` raises only `ValueError` (the lookup's `NoResultFound` becomes one) and keeps the table's length; which record changes, and how, is stated by the `Update…` lemmas |
| UserDb.UpdateFrame | 0x03-user_authentication_service/db.py:71-80 | only the first record holding the id can change, and the table keeps its length |
| UserDb.UpdateAssigns | 0x03-user_authentication_service/db.py:76-80 | in that record, the columns assigned before the first unknown keyword hold their new values (these persist even when the call then fails), and all other columns keep theirs |
| UserDb.UpdateKeepsIdsDistinct | 0x03-user_authentication_service/db.py:76-80 | an update that does not assign `id` keeps the ids distinct |
| UserDb.EmailNotUnique | 0x03-user_authentication_service/user.py:24 | no constraint keeps emails apart: `update_user` can give a record another record's email |
| UserDb.DB.constructor | 0x03-user_authentication_service/db.py:18-24 | a new `DB` has an empty table |
| UserDb.DB.AddUser | 0x03-user_authentication_service/db.py:35-46 | appends exactly one record with the given email and hash, a fresh id and no session or reset token; returns it and keeps the ids distinct |
| UserDb.DB.FindUserBy | 0x03-user_authentication_service/db.py:48-61 | the lookup gives `Find` over the current table and changes nothing |
| UserDb.DB.UpdateUser | 0x03-user_authentication_service/db.py:63-82 | the lookup and the `setattr` loop leave the result and the table that `Update` describes |
| UserAuthService.FindByEmail | 0x03-user_authentication_service/auth.py:40-44 | the lookup by email succeeds iff some record has the email and then finds the first one; otherwise it raises `NoResultFound` |
| UserAuthService.LoginValid | 0x03-user_authentication_service/auth.py:48-60 | false when no record has the email; otherwise whether the password checks against the first such record's hash |
| UserAuthService.SessionUser | 0x03-user_authentication_service/auth.py:75-84 | `None` for no session id or one that no record holds; otherwise a stored record holding it |
| UserAuthService.StartSession | 0x03-user_authentication_service/auth.py:62-73 | unknown email: no token and no change; otherwise the token is returned and set as the session of the first record with the email, and nothing else changes |
| UserAuthService.SessionRoundTrip | 0x03-user_authentication_service/auth.py:62-84 | after a session is started with a token no record held, looking the token up gives the record with that email |
| UserAuthService.EndSessionAsWritten | 0x03-user_authentication_service/auth.py:86-94 | as written, `destroy_session` always raises: `NoResultFound` for an unknown id, otherwise `TypeError` |
| UserAuthService.EndSession | 0x03-user_authentication_service/auth.py:86-94 | corrected version: an unknown id fails and changes nothing |
| UserAuthService.EndSessionLogsOut | 0x03-user_authentication_service/auth.py:86-94 | corrected version: the record's session is cleared, nothing else changes, and its old token leads to nobody |
| UserAuthService.UpdateResetToken | 0x03-user_authentication_service/auth.py:107 | `update_user(user.id, reset_token=token)` succeeds, sets only that record's reset token, and keeps the ids distinct |
| UserAuthService.Auth.constructor | 0x03-user_authentication_service/auth.py:32-35 | a new service owns a fresh, empty table |
| UserAuthService.Auth.RegisterUser | 0x03-user_authentication_service/auth.py:37-46 | a taken email gives the `ValueError` the model calls `UserExists`, with no change; otherwise one new record holds the password's hash, and with a sound `Crypto` that email and password then log in |
| UserAuthService.Auth.ValidLogin | 0x03-user_authentication_service/auth.py:48-60 | returns `LoginValid` over the current table |
| UserAuthService.Auth.CreateSession | 0x03-user_authentication_service/auth.py:62-73 | leaves the result and the table that `StartSession` describes |
| UserAuthService.Auth.GetUserFromSessionId | 0x03-user_authentication_service/auth.py:75-84 | returns `SessionUser` over the current table |
| UserAuthService.Auth.GetResetPasswordToken | 0x03-user_authentication_service/auth.py:96-108 | unknown email: the `NoResultFound` of the lookup (`NotFound`), with no change; otherwise the token is returned and stored as the reset token of the first record with the email, and nothing else changes |
| UserAuthService.Auth.DestroySessionAsWritten | 0x03-user_authentication_service/auth.py:86-94 | returns the error `EndSessionAsWritten` describes |
| UserAuthService.Auth.DestroySession | 0x03-user_authentication_service/auth.py:86-94 | leaves the result and the table that `EndSession` describes, and keeps the ids distinct |

## Left out

- The parent `Auth` class of `api/v1/auth/basic_auth.py` (`0x01-Basic_authentication/api/v1/auth/auth.py`) is not part of this model. Its `authorization_header` is taken to be the SimpleAPI one.
- The `current_user` of `0x02-Session_authentication/api/v1/auth/auth.py:46-50` is the same constant `None` as the SimpleAPI one. It is modelled by `SimpleApiAuth.CurrentUser`.
- `session_cookie` and the `SESSION_NAME` environment lookup are left out. They read cookies and the environment.
- The Flask applications, views and `main.py` are left out. They are request routing and HTTP I/O.
- `SimpleApiAuth.AuthorizationHeader`: Flask's header lookup ignores case. The model looks the key up exactly.
- The internals of `base64.b64decode` and `bytes.decode('utf-8')` are not modelled; `Codec` stands for them. The `models.user.User` of the Basic API is not part of this model either; `Directory` stands for its `search` and `is_valid_password`.
- `PersonalData.Format` models only `{}`, `{{` and `}}`. It reports every other brace as an error, including forms Python accepts, such as `{0}`.
- `PersonalData.FilterDatum` requires a separator that `re.escape` leaves alone and that is not special inside `[^...]`. Other separators change the meaning of the pattern, and that is not modelled.
- `PersonalData.FilterBySegments`: this lemma and the segment-level lemmas after it assume three things:
  - a brace-free line;
  - brace-free fields and redaction that do not contain the separator;
  - a separator other than `=`.

  For other input, only `Filter` itself describes the result. Idempotence additionally needs `=`-free fields and a non-empty redaction.
- `RedactingFormatter.format`, `get_logger`, `get_db` and `main` are left out. They are the logging framework, a MySQL connection and environment variables.
- The SQLAlchemy engine, session memoisation, the SQLite file and `commit` are left out. The table is a sequence and `commit` changes nothing in it. Errors the database raises at flush time are not modelled: an `IntegrityError` on a duplicate id, or a `NULL` in a non-nullable column.
- The `String(250)` length limit is not modelled; SQLite does not enforce it.
- `UserDb.DB.UpdateUser` requires that each value given for a column is one the column can hold. A wrong-typed value would only reach the database at the next flush.
- `UserDb.Update`: attributes of a `User` object that are not columns also pass `hasattr` in the source (`metadata`, for example), and `setattr` then sets them. The model treats every name that is not a column as unknown and raises `ValueError`.
- `UserDb.Find` models SQL equality as equality of Python values. SQLite's type-affinity comparisons, such as `id="1"`, are not modelled. `.first()` without `ORDER BY` is taken to be insertion order.
- `UserDb.UpdateKeepsIdsDistinct` covers only updates that do not assign `id`.
- bcrypt and `uuid.uuid4` are parameters. The model assumes only `Sound`, and the freshness of a uuid is a precondition where it matters.
- `UserAuthService.LoginValid`: `valid_login` also catches errors raised inside `bcrypt.checkpw` (for example, a malformed stored hash). The model's check is total.
- The model has no concurrency, because the source has none.

## Findings

| source | as written | input that shows it | evidently intended | confidence | as-written member | corrected member |
|---|---|---|---|---|---|---|
| 0x03-user_authentication_service/auth.py:86-94 | `destroy_session` overwrites `user_id` with `None`. It then calls `update_user(None, {'session_id': None})`, which passes the dict as a second positional argument, but `update_user` takes only the id positionally (`db.py:63`). | any id that some record holds: the call raises `TypeError`, and the session stays | `update_user(user_id, session_id=None)`, which clears that record's session so that its token leads to nobody | not executed | UserAuthService.EndSessionAsWritten | UserAuthService.EndSession |
