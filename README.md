# Identity registry: lifecycle, validation, editing and identity numbers

This project models the rule-bearing core of a small identity registry for a
university. The registry stores people (students, PhD candidates, faculty,
staff) in a `People` table and keeps an `Audit` table of every change made
through the edit form. Four parts of the web application carry rules, and the
model covers each of them:

- **Status lifecycle** (`lifecycle.dfy`). An identity moves through Pending,
  Active, Suspended, Inactive and Archived along a fixed transition table.
  Moving from Inactive to Archived needs five years (1825 whole days) since
  the status last changed. A missing or unreadable timestamp lets the move
  through.
- **Creation validator** (`validation.dfy`). A proposed identity is checked
  against eight rules, in a fixed order, and every violation adds its message.
  The rules are: required fields; the same person already registered with the
  same type; name length; type-specific fields; email shape; email already
  taken; digits-only phone; date of birth.
  - Each rule is a function, and `Violations` is their concatenation.
  - `ValidateUserData` is the imperative validator, built rule by rule.
    It is proved to return exactly the messages of `Violations`.
  - The lemmas state, rule by rule, when each message appears.
- **Editing an identity** (`store.dfy`). The `Store` class holds the People
  table as a map from identity number to row and the Audit table as a
  sequence. `Edit` processes the POST of the edit form:
  1. An archived record is refused.
  2. A non-empty submitted status that differs from the stored one must pass
     the lifecycle check.
  3. Each of the twelve editable columns whose submitted text differs from
     the stored text is written. A status write also stamps
     `status_changed_at`.
  4. One audit entry per change is appended, all with one timestamp.

  `Decide`, `Diff`, `Apply` and `AuditRows` are the specification functions
  that the methods are proved against.
- **Identity numbers** (`idformat.dfy`). A new identity number is a type
  prefix (STU, PHD, FAC, STF, or TMP for anything else), then the year, then
  the per-type count plus one, zero-padded to at least five digits.
  `ParseId` reads a number back; it is the partner of `GenerateId` in the
  round-trip lemma.

Supporting modules:
- `text.dfy`: Python's `str.isspace` and `str.strip`, ASCII lower-casing and ASCII digits.
- `records.dfy`: a row is a map from column name to optional text, with SQL NULL as `None`.
- `wrappers.dfy`: the `Option` type.

Modelling conventions:
- **Time.** It is an integer count of microseconds, the resolution of the
  stored timestamps. Whole days are the floor of the difference divided by
  86 400 000 000.
- **Clock.** The application reads the clock several times during one
  request. In the model each reading is a separate parameter:
  - `now` for the lifecycle and date-of-birth checks;
  - `statusStamp` for the text written to `status_changed_at`;
  - `auditStamp` for the audit entries.
- **Parsers.** ISO timestamps and `%Y-%m-%d` dates are read by parameters
  `parseIso` and `parseDate`. Each returns an `Option`, and `None` stands for
  a parse error.
- **Text values.** Form and data values keep Python's conventions:
  - an absent field is `None`, and `str(None)` is the text `"None"`;
  - a NULL stored value reads as `""` when an edit compares it.
- **Edit comparison.** An edit compares the submitted and stored values as
  untrimmed text: `str(new) != str(old)` (app.py line 451).
- **When the lifecycle check runs.** An edit consults the lifecycle check only
  when the submitted status is non-empty and differs from the stored one
  (app.py line 436). A form without a status, or with an empty one, writes
  that value without the check (`Store.MissingStatusSkipsLifecycle`).

## Model

| member | source | states |
|---|---|---|
| Lifecycle.ParseStatus | identity-main/identity_system/app.py:66-72 | reading a stored status text gives the status whose name it is, and only that; any other text names no status |
| Lifecycle.TableMatchesRelation | identity-main/identity_system/app.py:66-72 | the transition table has an edge from one text to another exactly when both name statuses and the typed lifecycle relation allows the move (Pending to Active; Active to Suspended or Inactive; Suspended to Active or Inactive; Inactive to Archived; nothing from Archived) |
| Lifecycle.IsValidTransition | identity-main/identity_system/app.py:74-93 | keeping the same status is always allowed, even for an unknown status; an allowed change of status is always an edge of the table |
| Lifecycle.TransitionCharacterized | identity-main/identity_system/app.py:74-93 | a change of status is allowed exactly when both texts name statuses, the relation has the edge, and, leaving Inactive, the five-year gate does not block |
| Lifecycle.ArchivedIsFinal | identity-main/identity_system/app.py:71-81 | from Archived the only allowed target is Archived itself |
| Lifecycle.PendingOnlyToActive | identity-main/identity_system/app.py:67-81 | from Pending the only allowed targets are Pending and Active |
| Lifecycle.ArchiveGate | identity-main/identity_system/app.py:83-93 | Inactive to Archived is refused exactly when the timestamp is present and non-empty, parses, and fewer than 1825 whole days have passed; a missing or unparsable timestamp allows it |
| Lifecycle.GateInRawTime | identity-main/identity_system/app.py:86-89 | counting whole days loses nothing: the gate blocks exactly when less than 1825 days of elapsed time separate the timestamp from now |
| Text.Strip | identity-main/identity_system/app.py:197 | the stripped text is no longer than the input, neither starts nor ends with whitespace, and is empty exactly when the input is all whitespace |
| Text.TrimLeftDrops | identity-main/identity_system/app.py:197 | stripping the left keeps a suffix of the input and removes only whitespace |
| Text.TrimRightDrops | identity-main/identity_system/app.py:197 | stripping the right keeps a prefix of the input and removes only whitespace |
| Text.StripDrops | identity-main/identity_system/app.py:197 | the stripped text is a slice of the input with only whitespace before and after it |
| Text.StripIdempotent | identity-main/identity_system/app.py:213 | stripping twice is stripping once |
| Text.AsciiLower | identity-main/identity_system/app.py:206 | lower-casing keeps the length and maps every character through ASCII lower-casing |
| Validation.LabelIsSpacedKey | identity-main/identity_system/app.py:195-198 | the name a required field has in its message is its key with each `_` replaced by a space |
| Validation.SpacedChars | identity-main/identity_system/app.py:198 | replacing `_` by a space keeps the length and changes no other character |
| Validation.MessageInjective | identity-main/identity_system/app.py:198-272 | distinct violations have distinct messages |
| Validation.MessageInverse | identity-main/identity_system/app.py:198-272 | each message can be read back to its violation from its length and last character |
| Validation.MessageReported | identity-main/identity_system/app.py:192-276 | a message is in the error list exactly when its violation was found |
| Validation.MissingRequiredReports | identity-main/identity_system/app.py:194-198 | the required-field rule reports exactly the fields it checks that are absent, empty or only whitespace, and reports nothing else |
| Validation.ViolationsByRule | identity-main/identity_system/app.py:190-276 | a violation is reported exactly when one of the rules reports it: no rule stops the others |
| Validation.RequiredFieldReported | identity-main/identity_system/app.py:194-198 | each of first name, last name, email, date of birth and type produces its own "cannot be empty" error exactly when it is absent, empty or whitespace |
| Validation.DuplicateReported | identity-main/identity_system/app.py:200-210 | the duplicate-person error appears exactly when first name, last name, date of birth and type are all given and an existing row has the same names ignoring ASCII case (the submitted names stripped), the same date of birth and the same type |
| Validation.NameLengthReported | identity-main/identity_system/app.py:212-219 | a first or last name that is one character long after stripping is reported; an empty one is not |
| Validation.TypeFieldsReported | identity-main/identity_system/app.py:221-234 | a Student without a national ID, a Faculty member without a rank or primary department, and a Staff member without a department or job title each get one error per missing field; other types get none |
| Validation.TypeFieldReported | identity-main/identity_system/app.py:221-234 | each type-specific violation is reported exactly when its type needs the field and the field is blank |
| Validation.EmailReported | identity-main/identity_system/app.py:236-250 | a non-empty stripped email of the wrong shape is reported, and so is one that an existing identity has in any ASCII letter case; an empty email adds neither |
| Validation.EmailShapeIsPattern | identity-main/identity_system/app.py:237-239 | the direct shape (one `@` with something before it, no whitespace, a `.` after the `@` that is neither first nor last there) accepts exactly the strings the regular expression's three runs joined by `@` and `.` describe |
| Validation.ShapeSplits | identity-main/identity_system/app.py:237-239 | a string of the direct shape splits into three non-empty runs at its `@` and a later `.` |
| Validation.PatternHasShape | identity-main/identity_system/app.py:237-239 | three non-empty runs without whitespace or `@`, joined by `@` and `.`, have the direct shape |
| Validation.PhoneReported | identity-main/identity_system/app.py:252-255 | a non-empty stripped phone with a character other than a digit is reported; an empty one is not |
| Validation.UnderSixteenInDays | identity-main/identity_system/app.py:266-269 | the age test "days divided by 365.25 is under 16" holds exactly when days < 5844 |
| Validation.DobReported | identity-main/identity_system/app.py:257-274 | an unparsable date of birth is reported alone; a parsed one is reported when after now, and for a Student when fewer than 5844 whole days old |
| Validation.CheckRequired | identity-main/identity_system/app.py:194-198 | the loop appends exactly the messages of the blank required fields, in order |
| Validation.CheckDuplicate | identity-main/identity_system/app.py:200-210 | returns the messages of `DuplicateCheck`, the rule `Validation.DuplicateReported` characterises: one duplicate-person message exactly when a stored row matches the stripped first name, last name, date of birth and type |
| Validation.CheckNameLength | identity-main/identity_system/app.py:212-219 | returns the messages of `NameLengthCheck`, the rule `Validation.NameLengthReported` and `Validation.NameLengthContents` characterise: one message per one-character stripped name, first name before last name |
| Validation.CheckTypeFields | identity-main/identity_system/app.py:221-234 | returns the messages of `TypeFieldCheck`, the rule `Validation.TypeFieldReported` and `Validation.TypeFieldContents` characterise: one message per blank field the submitted type needs, in source order |
| Validation.CheckEmail | identity-main/identity_system/app.py:236-250 | returns the messages of `EmailChecks`, the rules `Validation.EmailReported` and `Validation.EmailContents` characterise: a wrong shape and an address already stored, each reported once, only for a non-empty stripped email |
| Validation.CheckPhone | identity-main/identity_system/app.py:252-255 | returns the messages of `PhoneCheck`, the rule `Validation.PhoneReported` and `Validation.PhoneContents` characterise: one message exactly when the non-empty stripped phone has a non-digit |
| Validation.CheckDob | identity-main/identity_system/app.py:257-274 | returns the messages of `DobChecks`, the rules `Validation.DobReported` and `Validation.DobContents` characterise: an unparsable date is reported alone; a parsed one is reported when after now, and for a Student when under sixteen |
| Validation.ValidateUserData | identity-main/identity_system/app.py:190-276 | the returned errors are the messages of every violation of every rule, in rule order; with `MessageReported` and the rule lemmas, an error is present exactly when its rule fails |
| IdFormat.Prefix | identity-main/identity_system/app.py:177 | the prefix is three letters, and is TMP exactly when the type is not Student, PhD, Faculty or Staff |
| IdFormat.Digits | identity-main/identity_system/app.py:178 | the decimal text of a number is non-empty, made of digits, and has no leading zero unless the number is 0 |
| IdFormat.ZeroPad5 | identity-main/identity_system/app.py:178 | zero-padding gives at least five digits and never shortens the number's digits |
| IdFormat.GenerateId | identity-main/identity_system/app.py:170-178 | an identity number starts with its type prefix, and the rest is made of digits |
| IdFormat.ValueOfDigits | identity-main/identity_system/app.py:178 | the decimal text of a number reads back as that number |
| IdFormat.ZeroPad5Value | identity-main/identity_system/app.py:178 | the zero-padded text reads back as the number |
| IdFormat.FourDigitYear | identity-main/identity_system/app.py:171 | a year from 1000 to 9999 is written with four digits |
| IdFormat.ParseGenerateId | identity-main/identity_system/app.py:170-178 | for a four-digit year, reading an identity number back gives its prefix, its year and its sequence number count + 1 |
| IdFormat.GenerateIdInjective | identity-main/identity_system/app.py:174-178 | within one type and year, distinct counts give distinct identity numbers |
| IdFormat.PrefixSeparatesTypes | identity-main/identity_system/app.py:170-178 | identity numbers generated for two different known types (Student, PhD, Faculty, Staff) never coincide, whatever their years and counts |
| Store.Store.Edit | identity-main/identity_system/app.py:422-465 | an unknown identity is not found; otherwise the outcome is `Decide`'s; an accepted edit writes the staged changes into that row only and appends their audit entries after the existing ones; a refused edit leaves both tables unchanged; every row keeps every column |
| Store.Store.StageChanges | identity-main/identity_system/app.py:448-457 | the first loop stages exactly the differing columns in order and leaves the row as those changes written, the other rows and the audit untouched; every row keeps every column |
| Store.Store.StageColumn | identity-main/identity_system/app.py:449-457 | one column is staged and written exactly when its submitted text differs from the stored text; every row keeps every column |
| Store.Store.Write | identity-main/identity_system/app.py:453-457 | one UPDATE sets the column in that row only, and also stamps `status_changed_at` when the column is the status; every row keeps every column |
| Store.Store.AppendAudit | identity-main/identity_system/app.py:458-462 | the second loop appends one entry per change, in order, and leaves the People table untouched, so every row keeps every column |
| Store.ApplyKeepsColumns | identity-main/identity_system/app.py:453-457 | writing changes never removes a column |
| Store.DiffAppend | identity-main/identity_system/app.py:448-452 | the changes staged for two column lists in a row are those of the first followed by those of the second: staging keeps column order |
| Store.DiffMembership | identity-main/identity_system/app.py:448-452 | a change is staged exactly for a listed column whose text differs, carrying the stored text and the submitted value |
| Store.DiffDistinct | identity-main/identity_system/app.py:448-452 | over distinct columns, no column is staged twice |
| Store.EditedColumn | identity-main/identity_system/app.py:448-457 | after writing, a staged column holds the submitted value; `status_changed_at` holds the stamp when the status was staged; every other column is as stored |
| Store.AuditRowsRecordChanges | identity-main/identity_system/app.py:458-462 | the audit entries are one per change, in order, each naming the identity, the shared timestamp, the column, the stored text and the submitted value |
| Store.EditableColumns | identity-main/identity_system/app.py:429-430 | the editable columns are distinct table columns, include `status` and exclude `status_changed_at` |
| Store.DecidedChanges | identity-main/identity_system/app.py:448-452 | the changes of an accepted edit are those staged over the editable columns |
| Store.ArchivedNeverEdited | identity-main/identity_system/app.py:424-426 | an archived record is refused whatever is submitted |
| Store.RefusedExactlyByLifecycle | identity-main/identity_system/app.py:432-446 | a record that is not archived is refused exactly when a non-empty, different status is submitted and the lifecycle check fails (a NULL stored status fails it); the refusal gives the elapsed days for Inactive to Archived, which are then below 1825, and names the two statuses otherwise |
| Store.AcceptedEditWrites | identity-main/identity_system/app.py:448-457 | an accepted edit writes exactly the editable columns whose text differs; it stamps `status_changed_at` exactly when the status differs; every other column keeps its value |
| Store.AcceptedEditAudit | identity-main/identity_system/app.py:458-462 | an accepted edit has an audit entry for each differing editable column and for no other, with the identity, one shared timestamp, the stored text and the submitted value; no column has two entries |
| Store.AuditOfDiff | identity-main/identity_system/app.py:448-462 | the same as `AcceptedEditAudit`, over any list of distinct columns |
| Store.MissingStatusSkipsLifecycle | identity-main/identity_system/app.py:432-436 | a form with no status, or an empty one, skips the lifecycle check, and the edit writes that value into `status` of any record that is not archived |
| Store.ActiveCannotBeArchived | identity-main/identity_system/app.py:436-446 | an Active record asked to become Archived is refused with "not allowed" |
| Store.ArchiveAfterFiveYears | identity-main/identity_system/app.py:436-457 | an Inactive record whose status changed at least 1825 days ago is archived, and `status_changed_at` is refreshed |

## Left out

- The web layer is not modelled: the routes, the form parsing, template rendering and redirects. Refusals are values (`Rejection`), not rendered messages.
  - The Inactive-to-Archived refusal carries the whole days elapsed, not the `years_ago:.1f` float of its message.
  - That figure uses the same `now` as the gate. The application reads the clock again for it.
- SQLite is replaced by the `Store` class:
  - connections, schema creation and migration, commit and close;
  - the two `COUNT(*)` lookups of the validator, which become predicates over a sequence of existing rows.

  One edit is one atomic step: a failure between the per-column UPDATEs is not modelled.
- Column types are not modelled. Rows hold text, and integer columns such as `diploma_year` are compared as the text SQLite returns for them.
- Confirmation emails over SMTP and the environment configuration are not modelled; they are network I/O.
- `datetime.now()`, `datetime.fromisoformat` and `datetime.strptime` are parameters, not models:
  - the clock readings are separate parameters;
  - the parsers are functions returning `Option`;
  - a timestamp the gate cannot compare with now (for example one with a time zone) is a parse failure.
- `generate_id` reads the year from the clock and the count from the table. Both are inputs here. The race between counting and inserting is concurrency and is not modelled.
- `Text.AsciiLower`: only ASCII letters are lower-cased. Python's `str.lower` on the submitted names and email folds other letters too; SQLite's `lower()` and `NOCASE` fold ASCII only.
  - The application compares Python's fully lower-cased submitted text with SQLite's ASCII-only fold of the stored text. The model folds both sides to ASCII.
  - So a submitted "Émile" never matches a stored "Émile" in the application, but `SamePerson` matches them.
  - Conversely, a stored "émile" matches a submitted "Émile" in the application but not in the model.
- `Text.AllDigits`: only ASCII digits count. Python's `str.isdigit` also accepts other Unicode digits.
- The regular-expression engine is replaced by the shape predicate. `$` accepting a trailing newline does not arise, because the email is stripped before matching.
- `IdFormat.ParseId`: reads identity numbers only for four-digit years; other years are outside the round-trip lemma.
