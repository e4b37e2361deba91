# User API: validators, credential generators and the cleanup selection

This project models three self-contained parts of an invitation-gated user
registration backend, and proves properties of them in Dafny.

- **Input validators** (`is_phone_number`, `is_email`). Each is a `fullmatch`
  of one regular expression. Here each expression is written out as a
  predicate that splits the input into the expression's parts
  (module `Validators`, file `validators.dfy`). For the phone number, the
  repeated group `(^[+0-9]{1,3})*` is also modelled iteration by iteration,
  with its `^` anchor. The lemmas prove that the anchor lets the group match at
  most once, and give a closed form of the accepted language. For the e-mail
  address, both `\b` anchors are part of the predicate. The lemmas derive the
  `L@D.T` decomposition, exactly one `@`, the allowed first and last
  characters, and that the split is unique.
- **Credential generators** (`generate_invite_code`, `generate_token`;
  module `Credentials`). The random source is a parameter. `oracle(i)` is the
  index into `ABCDEFGHIJKLMNOPQRSTUVWXYZ0123456789` that the `i`-th
  `random.choice` returns. The lemmas cover three facts. The code has length 6
  and the token 16, both over `[A-Z0-9]`. The map from draws to strings is
  one-to-one. Every such string can be produced.
- **Selection rule of the cleanup sweep** (`data_cleanup.py`; modules
  `Records` and `Cleanup`). Sessions are selected when
  `created_at < now - SESSION_LIFE`, with a lifetime of 7 days. Users are
  selected when `invited_at < now - INVITE_LIFE`, with a lifetime of 2 days.
  Timestamps are whole microseconds, the resolution of Python's `datetime`
  and `timedelta`; a timestamp column may be NULL, and such a row is never
  selected. One cycle's selection is a filter over the
  rows of each table. Each query calls `datetime.now()` separately, so the
  model gives the session query and the user query their own timestamps. The
  lemmas prove four things: the comparison is strict, selection is monotone
  in time, selection is exactly the filter of the input, and the user query
  ignores `activated` and `invite_code`.

The script's docstring (data_cleanup.py:7) says it cleans up expired sessions
and user invites. The code's user filter selects activated users too, whose
invitation was redeemed long ago. And the code deletes nothing: the selected
records are handed to a lazy `map` that is never consumed. The two corrected cycles are
modelled separately; see "## Findings".

## Model

| member | source | states |
|---|---|---|
| `Validators.AnchorAllowsOneIteration` | src/utils.py:10 | the group `(^[+0-9]{1,3})` under `*` matches at most once, because each iteration must start at offset 0 |
| `Validators.PhoneNumberIsRegexMatch` | src/utils.py:23-29 | `IsPhoneNumber` (an optional lead of 1–3 characters of `[+0-9]`, then 10 or 11 digits) accepts exactly the strings the regex matches with its star unrolled into anchored iterations |
| `Validators.PhoneNumberClosedForm` | src/utils.py:10 | a string is a phone number iff it has 10–14 characters, its first `min(n-10,3)` characters are in `[+0-9]` and the rest are digits |
| `Validators.PhoneNumberShape` | src/utils.py:10 | every phone number has length 10–14, only `[+0-9]` characters, ends in at least 10 digits, and has `+` only in the first three positions |
| `Validators.BareDigitsArePhoneNumber` | src/utils.py:10 | a bare run of 10 or 11 digits is accepted |
| `Validators.ForeignCharRejected` | src/utils.py:27-29 | a string with any character outside `[+0-9]` (a letter, a space, a dash) is rejected |
| `Validators.PhoneNumberExamples` | src/utils.py:23-29 | sample accepts: bare 10 digits, and `+91` before 10 or 11 digits |
| `Validators.PhoneNumberCounterexamples` | src/utils.py:23-29 | sample rejects: four `+` before 10 digits, 9 digits, a dash among digits |
| `Validators.EmailFromParts` | src/utils.py:11-12 | any local part over `[A-Za-z0-9._%+-]`, domain over `[A-Za-z0-9.-]` and top-level part of at least 2 characters over letters and the bar character, with a word character first and last, joined as `L@D.T`, is accepted |
| `Validators.EmailDecompose` | src/utils.py:32-38 | every accepted address is `L@D.T` with those three parts; its first character is in `[A-Za-z0-9_]`, its last is an ASCII letter, and it has at least 6 characters |
| `Validators.EmailHasOneAt` | src/utils.py:11-12 | every accepted address contains exactly one `@` |
| `Validators.EmailSplitUnique` | src/utils.py:11-12 | the split is unique: no other position holds an `@`, and no `.` follows the separating dot |
| `Validators.EmailExamples` | src/utils.py:32-38 | sample accepts (`a@x.com`, `_@x.co`) and rejects (a leading dot, a one-letter top-level part) |
| `Validators.BarAcceptedInTld` | src/utils.py:12 | as written, `a@x.` followed by a bar and `m` is accepted, and the intended acceptor rejects it |
| `Validators.IntendedEmailHasLetterTld` | src/utils.py:12 | the intended acceptor (no bar character anywhere) is exactly the as-written one with the top-level class `[A-Za-z]`, in both directions |
| `Credentials.AlphabetIsCredentialChars` | src/utils.py:45 | the alphabet has 36 characters, all in `[A-Z0-9]`, and no character occurs twice |
| `Credentials.Draw` | src/utils.py:45-46 | joining `n` draws gives a string of length `n` whose `i`-th character is the alphabet at the `i`-th drawn index |
| `Credentials.GenerateInviteCode` | src/utils.py:41-46 | the invite code has exactly 6 characters, each in `[A-Z0-9]` |
| `Credentials.GenerateToken` | src/utils.py:49-54 | the token has exactly 16 characters, each in `[A-Z0-9]` |
| `Credentials.DrawIsInjective` | src/utils.py:45-46 | two runs of draws spell the same string iff they drew the same indices, so uniform draws make every string equally likely |
| `Credentials.EveryInviteCodeReachable` | src/utils.py:41-46 | every 6-character string over `[A-Z0-9]` is the invite code of some draws |
| `Credentials.EveryTokenReachable` | src/utils.py:49-54 | every 16-character string over `[A-Z0-9]` is the token of some draws |
| `Cleanup.Filter` | data_cleanup.py:16-19 | the result of the filter holds exactly the rows that meet the condition, each as often as in the input, and is no longer than the input |
| `Cleanup.SelectSessions` | data_cleanup.py:16-17 | a session is selected iff it is in the table and `created_at < now - 7 days`, with its multiplicity |
| `Cleanup.SelectUsers` | data_cleanup.py:18-19 | a user is selected iff it is in the table and `invited_at < now - 2 days`, with its multiplicity |
| `Cleanup.SweepSelection` | data_cleanup.py:13-19 | one cycle selects those sessions at the first clock reading and those users at the second, and nothing else |
| `Cleanup.ExpiryIsStrict` | data_cleanup.py:10-11 | a record with a timestamp whose age equals its lifetime exactly is not selected; one microsecond older, it is |
| `Cleanup.NullTimestampNeverSelected` | data_cleanup.py:16-19 | a row whose `invited_at` or `created_at` (nullable columns, src/models.py:20 and src/models.py:38) is NULL is never selected, since SQL's `<` on NULL is not true |
| `Cleanup.FilterNarrows` | data_cleanup.py:16-19 | filtering by a stronger condition after a weaker one equals filtering by the stronger one (in the model's table order) |
| `Cleanup.SelectionIsMonotone` | data_cleanup.py:16-19 | what is selected at `now` is what the later selection yields when it is filtered again at `now`, and it is a sub-multiset of the later selection |
| `Cleanup.SelectionIgnoresActivation` | data_cleanup.py:18-19 | activating every user (setting `activated`, clearing `invite_code`) selects the same users (in the model's table order, which the source never relies on) |
| `Cleanup.SweepAsWritten` | data_cleanup.py:16-19 | as written, every record the cycle selects is still in the tables after it |
| `Cleanup.ExpiredSessionSurvivesSweep` | data_cleanup.py:16-17 | a session created 8 days before the cycle is selected and yet still present after it |
| `Cleanup.ActivatedUserIsSelected` | data_cleanup.py:18-19 | an activated user invited 3 days ago is selected, and the intended query does not select it |
| `Cleanup.SelectPendingInvites` | data_cleanup.py:18-19 | the intended user query selects exactly the users that are not activated and whose invitation has expired, a subset of what the written query selects |
| `Cleanup.SweepIntended` | data_cleanup.py:16-19 | the intended cycle keeps exactly the users that are not pending-and-expired, and exactly the sessions that have not expired and whose owner is not removed (the table's delete cascade) |
| `Cleanup.IntendedSweepRemovesSelection` | data_cleanup.py:16-19 | after the intended cycle no expired session and no expired pending user is left, every activated user is kept, and no surviving session's owner has been removed |

## Left out

- `hash_password` and `check_password` are not modelled. They call the argon2 library and read the `SALT` environment variable, exiting when it is unset.
- The randomness of `random.choice` is not modelled. The draws are a parameter, and only length, alphabet and injectivity are proved.
- The sweep's `while True` loop, its `print` calls, `sleep(600)` and the I/O of the database queries and deletes are not modelled. The model covers one cycle's selection and its effect on the tables.
- A query without `ORDER BY` returns its rows in no defined order. The model fixes table order, so the sequence equalities of `Cleanup.FilterNarrows` and `Cleanup.SelectionIgnoresActivation` are facts about that order; the multiset and membership contracts do not depend on it.
- `Cleanup.SweepIntended` uses the `ondelete='CASCADE'` rule of `sessions.user`. That rule is enforced by the database, not by code in the repository.
- `Session`, `User` and `db` are imported by `data_cleanup.py` but are not defined in the files shown. The record types take their columns from the `users` and `sessions` tables of `src/models.py`.
- Only the columns the selection uses are modelled. `invited_at` and `created_at` may be NULL, as in the schema; `activated` is modelled as a plain boolean, although the schema lets it be NULL too (its default is false). The schema's uniqueness and nullability rules belong to the database.
- `app.py`, `src/engine.py` and `rebuild_tables.py` are not modelled. They read the environment, set up connections and rebuild tables.
- The invite, redeem, login, logout and edit handlers are not part of this model, and neither are their inline expiry checks.
- Time zones and clock adjustments are not modelled. Timestamps are microseconds on one clock, as naive `datetime` values compare.
- The model does not reproduce the `$` anchor's match before a final newline. Under `fullmatch` the match must reach the end of the string anyway, so the language is unchanged.

## Findings

| source | as written | input that shows it | evidently intended | confidence | as-written member | corrected member |
|---|---|---|---|---|---|---|
| src/utils.py:12 | the top-level class admits a literal bar besides the letters | `a@x.` followed by a bar and `m` is accepted | top-level class `[A-Za-z]` | high, not executed | `Validators.BarAcceptedInTld` | `Validators.IntendedEmailHasLetterTld` |
| data_cleanup.py:16-19 | `map(db.delete, ...)` is a lazy iterator that is never consumed, and nothing is committed, so nothing is deleted | a session created 8 days before the cycle is still present after it | delete every selected record | high, not executed | `Cleanup.ExpiredSessionSurvivesSweep` | `Cleanup.IntendedSweepRemovesSelection` |
| data_cleanup.py:18-19 | the user filter does not test `activated` | an activated user invited 3 days ago is selected | select only users whose invitation is still pending | high, not executed | `Cleanup.ActivatedUserIsSelected` | `Cleanup.SelectPendingInvites` |
