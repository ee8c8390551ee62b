# Coaching-class records: a Dafny model

This project models the record-management rules of the coaching class's
Flask backend (`backend/app.py`). It covers:

- admission-number allocation;
- the credentials derived from a student's name;
- admin and student login;
- the `token_required` guard and the admin and student role gates;
- the attendance and test-result upserts;
- class selection and the class filters;
- the single-result PDF cache;
- the group results table and the stamping of its path;
- the WhatsApp share step with its percent-encoded link.

The model is in eleven modules:

- `Text`: decimal formatting and `int()` parsing, `split(sep)[1]`.
- `Dates`: `strptime`/`strftime` with `%Y-%m-%d`.
- `Records`: the tables' row types; a row's id is its position plus one.
- `Attendance` and `Results`: the upsert loops and their specifications.
- `Admission`: the admission-number scheme.
- `Credentials`: the username and password scheme, and the logins.
- `Auth`: token dispatch and the role gates.
- `Report`: the group results table and the cache rule.
- `Share`: UTF-8, `urllib.parse.quote`, and the share link.
- `Handlers`: a `Store` class whose fields are the tables plus the set of files on disk. Its methods are the handlers. Each handler returns the HTTP status it answers with, and changes the store only when that status is a success.

How the model represents the source:

- A nullable text column is a `string`, with `""` for NULL. Every handler tests those columns with `not x`.
- The JWT decoder is a function parameter. It returns the token's claims, or `None` for a token it rejects.
- The PDF renderer is a `Build` parameter. It either fails or leaves a file at the path it names.
- A Python exception that no handler catches ends as status 500. Nothing is committed in that case.

Some behaviours of the code as written are proved about the model:

- In class "1", the counter is read back as 0, because splitting `PCC100001` on "1" gives "0000". The second student of that class is offered `PCC100001` again, and adding them fails with 500 (`Admission.ClassOneRepeats`).
- Student login never reads the stored password (`Credentials.StoredPasswordIgnored`).
- Re-submitting marks keeps the cached PDF path. The PDF then shows the old marks (`Results.UpsertAllView`).
- Any logged-in student may fetch any result's PDF (`Handlers.Store.GetTestResultPdf`).

## Model

| member | source | states |
|---|---|---|
| Text.FindFrom | backend/app.py:259 | the first occurrence of the separator at or after a position, and `None` only when there is none |
| Text.SplitSecond | backend/app.py:259 | `split(sep)[1]` fails exactly when the separator does not occur; otherwise the piece it returns starts right after the first occurrence, holds no separator, and runs up to the next occurrence or the end of the text |
| Text.NatDigits | backend/app.py:265 | the decimal digits of a number, with no leading zero |
| Text.IntToString | backend/app.py:944 | `str(n)` is never empty and starts with "-" exactly for a negative number |
| Text.IntToStringRoundTrip | backend/app.py:944 | `int(str(n)) == n` for every integer |
| Text.FormatPadded | backend/app.py:265 | `format(n, "05d")` is at least as wide as asked and never empty, starts with "-" exactly for a negative number, and is digits after its first character |
| Text.DigitsRoundTrip | backend/app.py:265 | the digits written for `n` denote `n` |
| Text.PaddedShape | backend/app.py:265 | `format(n, "05d")` of a non-negative `n` is all digits, at least five of them, and denotes `n` |
| Text.ParseDigits | backend/app.py:259 | `int()` of a string of decimal digits is the number they denote, leading zeros included |
| Text.ParsePadded | backend/app.py:259-265 | `int()` reads back every zero-padded number the format writes, negative ones included |
| Text.ParseNegative | backend/app.py:259 | `int()` reads a minus sign followed by digits as the negated value of the digits |
| Text.ParseInt | backend/app.py:259 | `int()` succeeds only on text that is not blank once white space is stripped |
| Dates.ParseDate | backend/app.py:354-357 | `strptime` with `%Y-%m-%d` yields only dates that exist in the calendar |
| Dates.FormatDate | backend/app.py:724 | `strftime("%Y-%m-%d")` writes at least the ten characters of `YYYY-MM-DD` |
| Dates.ParseFormatDate | backend/app.py:496 | a date written with `%Y-%m-%d` parses back to itself |
| Records.Positions | backend/app.py:712 | `filter_by(..).all()` as row positions: each is a matching row, they increase, so no row comes twice, and every matching row is among them |
| Records.Select | backend/app.py:767 | the matching rows themselves: the `k`-th is the row at the `k`-th matching position, and a record is selected exactly when it is in the table and matches |
| Records.Listing | backend/app.py:715-727 | the listing loop yields one entry per queried row, in query order, each carrying the row's id and its record |
| Records.Get | backend/app.py:142-145 | `Model.query.get(id)` finds a row exactly when the id is between 1 and the table's length, and that row is the one at position `id - 1` |
| Admission.LastOfClass | backend/app.py:255 | the newest student of the class: in that class, with no student of that class after it; `None` only when the class is empty |
| Admission.AdmissionNumber | backend/app.py:265 | the number starts with "PCC" and the class level and is at least eight characters longer than the class level; for a non-negative counter the rest is digits |
| Admission.CounterOf | backend/app.py:259 | a number in which the class level does not occur has no counter: the `IndexError` of `split(..)[1]` |
| Admission.NextNumber | backend/app.py:255-262 | a class with no students gets counter 1; otherwise a counter exists exactly when the newest same-class student's number yields one, and it is that counter plus one |
| Admission.OccurrencesInNumber | backend/app.py:259 | a class level that has a character outside "PCC" and the digits occurs in its number exactly once, right after "PCC" |
| Admission.SplitNumber | backend/app.py:259-265 | splitting a generated number on its class level gives back the zero-padded counter |
| Admission.CounterOfNumber | backend/app.py:259 | splitting on the class level and parsing the second piece recovers the counter of every number generated for a class level with a marker |
| Admission.FirstOfClass | backend/app.py:261-265 | a class with no students starts at counter 1, number `PCC<class>00001` |
| Admission.NextAfterLast | backend/app.py:255-265 | the next counter is the newest same-class student's counter plus one |
| Admission.NextFromCounter | backend/app.py:255-260 | for every table, when the newest same-class student's number yields counter `v`, the next counter is `v + 1` |
| Admission.AppendSameClass | backend/app.py:255-294 | after a student with counter `n` is added, the class's next counter is `n + 1` |
| Admission.AppendOtherClass | backend/app.py:255-294 | adding a student leaves every other class's next counter unchanged |
| Admission.ClassOneRepeats | backend/app.py:255-265 | as written, class "1" hands out `PCC100001` again after its first student |
| Credentials.Username | backend/app.py:268 | the username has the name's length, and each character is the name's character lower-cased, with a space turned into `_` |
| Credentials.Password | backend/app.py:269 | the password starts with the username and ends in "123" |
| Credentials.UsernameShape | backend/app.py:268 | a derived username has no upper-case letter and no space, and deriving it again changes nothing |
| Credentials.SameUsername | backend/app.py:268 | "Anu Das" and "anu_das" derive the same username |
| Credentials.UsernameIsNoAdmissionNumber | backend/app.py:185-189 | a derived username never equals an admission number |
| Credentials.FindAdmin | backend/app.py:166 | the first admin with the given username, and `None` only when there is none |
| Credentials.AdminLogin | backend/app.py:161-176 | a token names an admin whose username and stored password are the ones given; every refusal is 401 |
| Credentials.AdminLoginIff | backend/app.py:161-176 | admin login issues a token exactly when the username is found and its stored password matches; the token names that admin; every other case is 401 |
| Credentials.FindByUsername | backend/app.py:185 | the first student with the given username, and `None` only when there is none |
| Credentials.FindByAdmissionNumber | backend/app.py:189 | the first student with the given admission number, and `None` only when there is none |
| Credentials.FindStudent | backend/app.py:185-189 | the student found has the login name as username or as admission number; the admission number is used only when no student has that username; `None` only when neither matches |
| Credentials.StudentLogin | backend/app.py:179-200 | both fields are given when a token is issued, and the token names a student whose username or admission number is the login name; every refusal is 400 or 401 (the password condition is stated by `Credentials.StudentLoginIff`) |
| Credentials.StudentLoginIff | backend/app.py:182-200 | student login is 400 exactly when a field is missing or empty; it issues a token exactly when the login name finds a student, by username and then by admission number, and the password is that student's username plus "123"; the token names that student |
| Credentials.LoginWithUsername | backend/app.py:268-269 | the username and password `add_student` hands out log that student in |
| Credentials.LoginWithAdmissionNumber | backend/app.py:185-195 | the admission number, with the same password, logs the student in too |
| Credentials.WrongPassword | backend/app.py:192-195 | any other password is refused with 401 |
| Credentials.StoredPasswordIgnored | backend/app.py:191-194 | changing a student's stored password changes no login outcome |
| Auth.Authenticate | backend/app.py:132-153 | an authorized admin or student exists in its table |
| Auth.Resolve | backend/app.py:141-149 | a resolved admin or student exists in its table; an unresolved claim is 401 |
| Auth.AuthenticateCases | backend/app.py:132-153 | no header is 401; a header without a space is 500; an empty token, a rejected token, a missing subject or an unknown subject is 401; otherwise an admin claim wins over a student claim |
| Auth.ResolveSound | backend/app.py:141-149 | a claim resolves to an admin exactly when it has an admin id that exists, and to a student exactly when it has no admin id and has a student id that exists |
| Auth.SplitBearer | backend/app.py:134 | the token is recovered from `Bearer <token>` |
| Auth.AdminLoginThenAuthenticate | backend/app.py:169-172 | a token issued by admin login authenticates as that admin |
| Auth.StudentLoginThenAuthenticate | backend/app.py:197-200 | a token issued by student login authenticates as that student |
| Auth.GatesExclusive | backend/app.py:213-214 | the admin gate lets only admins through and the student gate only students; each refuses the other role with 403 and passes the guard's 401 or 500 on |
| Auth.AdminGate | backend/app.py:213-214 | the admin gate lets exactly admins through; it refuses with 403 or with the guard's status |
| Auth.StudentGate | backend/app.py:598-599 | the student gate lets exactly students through; it refuses with 403 or with the guard's status |
| Attendance.Lookup | backend/app.py:364-367 | the first record for (student, date), and `None` only when there is none |
| Attendance.PresentOf | backend/app.py:361 | a mark counts as present exactly when `present` is given and true; a missing `present` is absent |
| Attendance.Upsert | backend/app.py:364-377 | one iteration adds at most one record, keeps every record's key, and a new record carries the entry's student, the date and its flag |
| Attendance.UpsertAll | backend/app.py:359-377 | the loop adds at most one record per entry and removes none |
| Attendance.ApplyMarks | backend/app.py:359-377 | the handler's loop computes the in-order upsert of every entry |
| Attendance.UpsertView | backend/app.py:369-377 | one upsert sets the flag of its own (student, date) and no other |
| Attendance.UpsertAllView | backend/app.py:359-377 | after the loop, each student in the list has the flag of their last entry, false when that entry has no `present`; other keys keep their flags |
| Attendance.UpsertAllKeepsUnique | backend/app.py:359-377 | the loop never creates a second record for a (student, date) |
| Attendance.UniqueCount | backend/app.py:364-377 | with unique keys, a known (student, date) has exactly one record |
| Attendance.UpsertAllFrame | backend/app.py:359-377 | records keep their position and key; a record whose key the request does not name is unchanged; new records carry the request's date |
| Attendance.PresentThenAbsent | backend/app.py:359-377 | marking a student present and then absent leaves them absent |
| Results.Lookup | backend/app.py:534-537 | the first result for (test, student), and `None` only when there is none |
| Results.Upsert | backend/app.py:534-547 | one iteration adds at most one result, keeps every result's key, and a new result carries the test, the entry's student and marks, no PDF path and no shared flag |
| Results.UpsertAll | backend/app.py:529-547 | the loop adds at most one result per entry and removes none |
| Results.ApplyEntries | backend/app.py:529-547 | the handler's loop computes the in-order upsert of every entry |
| Results.UpsertView | backend/app.py:539-547 | one upsert overwrites the marks of its own (test, student) and keeps that result's PDF path and shared flag |
| Results.UpsertAllView | backend/app.py:529-547 | after the loop, each student in the list has the marks of their last entry, with the old PDF path and shared flag; other keys are unchanged |
| Results.UpsertAllKeepsUnique | backend/app.py:529-547 | re-submitting never creates a second result for a (test, student) |
| Results.UpsertAllFrame | backend/app.py:529-547 | results of other tests keep their position and content; new results belong to the test |
| Results.OfTest | backend/app.py:767 | the test's results in id order, each once: the `k`-th is the row at the `k`-th position of a result of the test (`Records.Positions`), and a result is listed exactly when it belongs to the test |
| Results.FirstOfTest | backend/app.py:932 | the first result of the test, and `None` only when it has none |
| Results.StampKeepsKeys | backend/app.py:864-865 | stamping keeps every result's key, so it keeps keys unique |
| Results.StampKeepsRecords | backend/app.py:864-865 | the result a lookup finds after stamping is the one it found before, with the new path when it belongs to the test; marks, shared flags and other tests' results are untouched |
| Results.Stamp | backend/app.py:864-865 | stamping keeps the table's length; every result of the test gets the path; only the path changes, and results of other tests are untouched |
| Results.StampPaths | backend/app.py:864-865 | the loop sets the PDF path of exactly the test's results and leaves every other result as it was |
| Results.MarkSharedProperties | backend/app.py:937-939 | sharing sets the flag on every result of the test, changes nothing else and nothing of other tests, and is idempotent |
| Results.MarkShared | backend/app.py:937-939 | sharing keeps the table's length; every result of the test is flagged; only the flag changes, and results of other tests are untouched |
| Results.ShareAll | backend/app.py:937-939 | the loop sets the shared flag of exactly the test's results and leaves every other result as it was |
| Report.PhoneCell | backend/app.py:823 | the phone cell is the phone when one is stored, and `N/A` when it is absent |
| Report.Percentage | backend/app.py:819 | the percentage times the maximum is a hundred times the marks |
| Report.Rows | backend/app.py:816-826 | no more data rows than results, and every row has as many cells as the header |
| Report.Row | backend/app.py:819-826 | a row has one cell per header column: the name, the admission number, the phone or `N/A`, the marks, and a percentage that times the maximum is a hundred times the marks |
| Report.Known | backend/app.py:816-818 | every result it keeps has an existing student, and it keeps no more results than it is given |
| Report.KnownMembers | backend/app.py:816-818 | it keeps exactly the results whose student exists |
| Report.RowsAreKnownResults | backend/app.py:814-826 | the data rows are one per result whose student exists, in order, each showing that student and those marks |
| Report.AllKnown | backend/app.py:816-826 | with every student present, there is one row per result |
| Report.BuildTable | backend/app.py:814-826 | the loop fails exactly when a row meets a zero maximum; otherwise the table is the header followed by the rows |
| Report.NeedsRebuild | backend/app.py:606 | no rebuild is needed only when a path is stored and its file exists |
| Report.ResultPdf | backend/app.py:606-652 | a stored file is served only when it exists and is the stored path; a rebuilt file is the build's, made only when a rebuild was needed; every failure is 500 |
| Report.CacheRule | backend/app.py:606-652 | a rebuild happens exactly when the path is empty or its file is gone; a stored file is served as it is; a rebuild needs the test, the student, a non-zero maximum and a successful build, and any other case is 500 |
| Report.SecondRequestCached | backend/app.py:606-652 | once a file is built and stored, the next request serves it without building |
| Report.StampMakesShareable | backend/app.py:864-865 | after stamping, the share step's check on the first result passes |
| Share.Utf8 | backend/app.py:945 | one to four bytes, one of them exactly for ASCII |
| Share.Encode | backend/app.py:945 | the UTF-8 encoding of a text has between one and four bytes per character |
| Share.Utf8Shape | backend/app.py:945 | the encoding is a well-formed sequence, of minimal length, that carries the character's value |
| Share.DecodeEncode | backend/app.py:945 | decoding the UTF-8 encoding gives the text back |
| Share.UnquoteQuoteBytes | backend/app.py:945 | unquoting undoes quoting, byte for byte |
| Share.Quote | backend/app.py:945 | quoted text holds only unreserved characters, "/" and "%" |
| Share.Unquote | backend/app.py:945 | text made only of characters `quote` keeps unquotes to itself |
| Share.UnquoteSafeBytes | backend/app.py:945 | text made only of characters `quote` keeps unquotes to its own UTF-8 encoding |
| Share.QuoteRoundTrip | backend/app.py:945 | `unquote(quote(text)) == text` for every text |
| Share.QuoteAlphabet | backend/app.py:945 | quoted text holds only unreserved characters, "/" and "%" |
| Share.QuoteSafeText | backend/app.py:945 | text made only of safe characters is left unchanged |
| Share.Sentence | backend/app.py:944 | the sentence starts with "Test results for " followed by the test's name and ends with " are ready! Max marks: " followed by the maximum as `str` writes it (which `Text.IntToStringRoundTrip` reads back) |
| Share.EncodeAppend | backend/app.py:945 | UTF-8 encoding distributes over concatenation |
| Share.QuoteBytesAppend | backend/app.py:945 | byte quoting distributes over concatenation |
| Share.QuoteAppend | backend/app.py:945 | `quote` distributes over concatenation |
| Share.SpaceEncoded | backend/app.py:944-945 | every space becomes `%20`, and the text on either side of it is quoted as it would be on its own |
| Share.ShareLink | backend/app.py:944-946 | the link is `https://wa.me/?text=` followed by text that unquotes to the test's sentence and holds no character that would end the query value |
| Handlers.Store.Init | backend/app.py:969-973 | the store starts with the one predefined admin and no class selected |
| Handlers.Store.AddStudent | backend/app.py:237-301 | the gate's status; 400 without a name or class; 500 when the counter cannot be read; 500 when the number or the username is taken; in each of these nothing changes. Otherwise it appends the student with the next number and the derived credentials, and both login names work |
| Handlers.Store.Admit | backend/app.py:265-294 | the commit fails with 500 and nothing changes exactly when the number or the username is already taken; otherwise the student is appended with the derived credentials, the tables stay consistent, and the student can log in with the username and with the admission number |
| Handlers.AppendKeepsValid | backend/app.py:84-86 | appending a student whose number and username are fresh, whose username is lower-case and whose password is derived from it keeps both columns unique |
| Handlers.Store.NewStudent | backend/app.py:270-282 | the new student carries the generated number, the class, the name, the derived username and password, and the date; an absent email, phone or school is stored as empty |
| Handlers.AppendedLogsIn | backend/app.py:268-269 | an appended student logs in with the derived password under the username and under the admission number |
| Handlers.AppendedUsernameLogsIn | backend/app.py:268-269 | a student appended to a table that keeps the invariant logs in with the username and the derived password |
| Handlers.AppendedNumberLogsIn | backend/app.py:185-195 | a student appended with a generated admission number logs in with that number and the same password |
| Handlers.NumberLogsIn | backend/app.py:185-195 | in a table that keeps the invariant, a student whose admission number was generated logs in with it and their stored password |
| Handlers.Store.MarkAttendance | backend/app.py:346-381 | the gate's status; 500 for a missing date; 400 for a malformed date; 500 for a missing list; in each of these nothing changes; otherwise attendance becomes the in-order upsert and nothing else changes |
| Handlers.Store.AddTest | backend/app.py:484-514 | the gate's status; 500 for a missing date; 400 for a malformed date; 500 for a missing name, subject, class or maximum; in each of these nothing changes; otherwise the test is appended and its id returned |
| Handlers.Store.AddTestResults | backend/app.py:518-551 | the gate's status; 404 for an unknown test; 500 for a missing list; in each of these nothing changes; otherwise results become the in-order upsert and nothing else changes |
| Handlers.Store.GetTestResultPdf | backend/app.py:597-669 | for students only: 404 for an unknown result; otherwise the cache rule decides, and a rebuilt file is stored on that result alone and exists on disk |
| Handlers.Store.SelectClass | backend/app.py:673-688 | the gate's status; 400 without a class, with no change; otherwise only the calling admin's selected class changes |
| Handlers.Store.SelectedClass | backend/app.py:707 | the class read is the one stored on the calling admin's row, which exists |
| Handlers.Store.ClassStudents | backend/app.py:704-728 | the gate's status; 400 when no class is selected; otherwise one entry per student of the selected class, in id order, each carrying the student's id and record |
| Handlers.Store.ClassTests | backend/app.py:732-753 | the gate's status; 400 when no class is selected; otherwise one entry per test of the selected class, in id order, each carrying the test's id and record |
| Handlers.Store.GenerateTestResultsPdf | backend/app.py:757-879 | the gate's status; 404 for an unknown test or one with no results; 500 when a row meets a zero maximum or the build fails; in each of these nothing changes; otherwise the header and one row per known result, and every result of the test, and no other, names the new file |
| Handlers.Store.Publish | backend/app.py:860-867 | the new file is on disk, every result of the test and no other names it, the tables stay consistent, and nothing else changes |
| Handlers.Store.ShareResultsWhatsapp | backend/app.py:922-960 | the gate's status; 404 for an unknown test; 400 when the test has no result or its first result names no existing file; in each of these nothing changes; otherwise only that test's results are marked shared, and the share link is returned |

## Left out

- HTTP plumbing (routing, CORS, JSON response bodies, `send_file`) is not modelled. Each handler returns its status and the values its response carries; a listing entry is the row's id with its record, not the JSON field selection.
- Handlers.Store.ClassStudents: an entry does not carry `has_admission_form`, because the admission-form path is not modelled.
- A request body that is not JSON is not modelled. `student_login` tests `not data` first and answers 400; the other handlers call `data.get` on it unguarded, which raises and ends in 500.
- The admission-form upload in `add_student` (`secure_filename`, `file.save`, `admission_form_path`) is not modelled. It is file I/O and changes no rule.
- SQLAlchemy sessions and commits are replaced by in-memory sequences. Column lengths (`String(50)` and so on) are not enforced, as SQLite does not enforce them.
- JWT signing, HS256 and `exp` checking are a decoder parameter. The claims a login puts in the token are modelled. The token text and its expiry time are not.
- The reportlab layout (styles, paragraphs, the table style, the WhatsApp group paragraph) is not modelled. A build is a `Build` outcome.
- The single-result PDF's content is not modelled. Only its cache decision is.
- Report.BuildTable: cells hold exact reals where the source prints the float `str(marks)` and `f"{percentage:.2f}%"`. Floating-point rounding and rendering are not modelled.
- Report.Percentage: the percentage is exact. Python computes it in binary floating point.
- File names, timestamps (`datetime.now()`), `os.makedirs` and `os.path.abspath` are not modelled. A new path is an argument.
- The date `add_student` stores is the `today` argument.
- Handlers.Store.GenerateTestResultsPdf: the file-exists check after a successful build always passes in the model, because a `Built` outcome puts its file on disk.
- `send_file` finding the file gone between the check and the send (404) is not modelled. It needs a concurrent deletion.
- Concurrent requests and the check-then-insert race of the upserts are not modelled. The model is sequential.
- Results.Entry: a missing `student_id` or `marks_obtained` violates a not-null column, giving 500 at commit. The model's entries always carry both.
- Attendance.Mark: a missing `student_id` gives a not-null violation, and an explicit `null` for `present` stores NULL. The model's marks always carry a student id, and `present` is a flag or absent.
- Handlers.Store.AddTest: `max_marks` is taken as an integer. A JSON value of another type is not modelled.
- Credentials.Username: lower-cases ASCII letters only. Python's `str.lower` also maps other Unicode letters.
- Text.ParseInt: accepts ASCII digits only. Python's `int()` also accepts other Unicode decimal digits. Its own contract says only that a parsed text is not blank; what it parses is stated by `Text.ParseDigits`, `Text.ParseNegative` and `Text.ParsePadded`.
- Dates.ParseDate: accepts ASCII digits only, as `Text.ParseInt` does.
- Dates.FormatDate: writes the year with four digits. `strftime` output for years below 1000 depends on the platform. Its own contract gives only the length; `Dates.ParseFormatDate` states that the text parses back.
- Share.Unquote: returns `None` where Python would insert replacement characters. It is only used as the inverse of `quote` and on safe text.
- The endpoints outside the record rules are not modelled: the notes endpoints, `get_students`, `get_student_attendance`, `get_student_tests`, `get_current_class`, the admission-form download, and `download_test_results_pdf`. They read records and serve files.
- The branch of `create_tables_and_admin` that repairs an existing admin's `selected_class` is not modelled.
- The maintenance scripts and the reportlab smoke test are not part of this model.
