# School attendance: a verified model of the server logic

The application records how many boys and girls attended each section
(`1A`, `1B`, `2`, `3`, `4`, `5`) of a school on a date. Teachers and
central-office users log in. Teachers submit counts, one section at a time
or all sections at once. The central office reads the stored records back and
sees them summarised by section, by date and by gender, and can export them
as CSV.

This project models that logic in Dafny and proves properties of it:

- `wrappers.dfy`: `Option` and `Reply`. A `Reply` is an HTTP reply: data
  with status 200, or an error status with its message.
- `strings.dfy`: JavaScript truthiness of an optional request field. Also
  ordinal string order, decimal printing, a decimal `parseInt`, and
  `join`/`split` on one character.
- `store.dfy`: the `attendance_records` table, a map keyed by
  `(school_id, section, date)`, with insert-or-update on that key.
- `attendance_route.dfy`: `POST /api/attendance`, the single-record path.
- `bulk_route.dfy`: `POST /api/attendance/bulk`, the batch path.
- `attendance_query.dfy`: `GET /api/attendance-data`, the filtered report
  query in date-descending order.
- `auth.dfy`: `loginTeacher` and `loginCentralOffice`. The bcrypt comparison
  is a parameter `verify(password, hash)`. Each login function is given only
  its own table and returns no table, so it consults only that table and
  changes none.
- `login_route.dfy`: `POST /api/login`, which checks fields, dispatches on
  role and maps results to status codes.
- `dashboard.dfy`: the central-office dashboard's group-and-sum reductions,
  its summary cards and the text of its CSV export.

Request bodies are modelled with `Option<string>` fields. `None` is an
absent (`undefined`) field, and a field is truthy when it is present and not
`""`. The database is a value passed in and returned, so "the table is
unchanged" is an equality of maps. Dates are taken to be canonical
`YYYY-MM-DD` text.
For such text, ordinal string order is the calendar order the database
compares by.

Some behaviour of the code is easy to miss:

- The single-record path does not reject negative counts.
- A count that `parseInt` cannot read is not a validation error.
- The report query orders by date only, with no tie-break among equal dates.
- The date trend is ordered by its display label, not by the underlying date.
- Usernames match exactly, with no case folding.

## Model

| member | source | states |
|---|---|---|
| Strings.ParsePrinted | app/api/attendance/bulk/route.ts:20-21 | `parseInt` reads back every integer printed in decimal, negative ones included |
| Strings.SplitJoin | app/central-office/dashboard/page.tsx:189-192 | splitting a `join` on the same character gives back the parts, if no part contains that character |
| Strings.NotAtMost | app/api/attendance-data/route.ts:20 | the ordinal order used for dates and sections is total: `a` is not at most `b` exactly when `b` is strictly below `a` |
| Store.Upsert | app/api/attendance/route.ts:27-38 | after the upsert the key holds the new row, no other key changes, the key set grows by at most that key, and every row stays filed under its own key |
| Store.UpsertAll | app/api/attendance/bulk/route.ts:25-30 | a batch upsert adds exactly the batch's keys, leaves every key outside the batch unchanged and keeps one row per key |
| Store.UpsertAllStoresEveryRow | app/api/attendance/bulk/route.ts:25-30 | when the batch's keys are pairwise distinct, every row of the batch is stored under its key |
| AttendanceRoute.StoredTeacher | app/api/attendance/route.ts:35 | a falsy `teacher_id` is stored as null and a truthy one is stored as given |
| AttendanceRoute.Post | app/api/attendance/route.ts:10-48 | missing fields give 400 "Missing required fields"; after that check, a section outside the six gives 400 "Invalid section"; a count `parseInt` cannot read gives 500; every failure leaves the table unchanged; success happens iff all checks pass, and then the key holds the submitted values and no other key changes |
| AttendanceRoute.LastSubmissionWins | app/api/attendance/route.ts:27-38 | of two accepted submissions for one key, the second determines the table, as if the first had not happened |
| AttendanceRoute.SubmissionIdempotent | app/api/attendance/route.ts:27-38 | repeating a submission gives the same reply and the same table |
| AttendanceRoute.AnyCountAccepted | app/api/attendance/route.ts:10-34 | any integer count, negative ones included, is accepted and stored as that integer |
| AttendanceRoute.PostKeepsSectionsValid | app/api/attendance/route.ts:18-24 | the single-record path never stores a section outside the six |
| BulkRoute.CoerceKeepsPrinted | app/api/attendance/bulk/route.ts:20-21 | `parseInt(x) \|\| 0` keeps every integer written in decimal, negative ones included |
| BulkRoute.CoerceUnparsable | app/api/attendance/bulk/route.ts:20-21 | an absent count, and text with no digit after its optional sign (`""`, `"-"`, `"+x"`, `"abc"`), are NaN to `parseInt` and become 0 |
| Strings.ParseIntNaN | app/api/attendance/bulk/route.ts:20-21 | `parseInt` gives NaN exactly when no digit follows the optional sign |
| BulkRoute.Prepare | app/api/attendance/bulk/route.ts:15-22 | one row per item, in order; school, date and teacher come from the envelope, and section and coerced counts from the item |
| BulkRoute.Post | app/api/attendance/bulk/route.ts:10-37 | a bad envelope gives 400 and leaves the table unchanged; success happens iff the envelope is valid and no two items share a section; the reported count is the number of items; every prepared row is stored under its key and every other key is unchanged |
| BulkRoute.EmptyBatch | app/api/attendance/bulk/route.ts:10-37 | an empty `records` array is accepted, reports count 0 and leaves the table unchanged |
| BulkRoute.BulkAcceptsUnknownSection | app/api/attendance/bulk/route.ts:15-22 | a batch item with section `9` is stored, although the single-record path rejects that section |
| BulkRoute.BulkBreaksSectionsValid | app/api/attendance/bulk/route.ts:15-30 | the batch path as written can take a table whose sections are all valid to one that holds an invalid section |
| BulkRoute.PostChecked | app/api/attendance/bulk/route.ts:10-37 | the batch path with the section check added: a bad envelope gives 400 as before; an invalid section gives 400 "Invalid section"; a valid envelope whose sections are all among the six gets exactly the reply and table of the batch path as written |
| BulkRoute.PostCheckedKeepsSectionsValid | app/api/attendance/bulk/route.ts:15-30 | the checked batch path never stores a section outside the six |
| AttendanceQuery.InsertionPoint | app/api/attendance-data/route.ts:20 | the insertion position comes after every strictly later date and before the first date that is not later |
| AttendanceQuery.Insert | app/api/attendance-data/route.ts:20 | inserting keeps the list newest-first, adds exactly the new record, and keeps a list without duplicates free of them |
| AttendanceQuery.Query | app/api/attendance-data/route.ts:11-43 | every returned record is a stored row, joined with its school's name, that satisfies each given bound and the school filter; every stored row that satisfies them is returned, so with no filter the whole table is returned; no record is returned twice; dates never increase along the result; the reply is always a success, an empty list when nothing matches |
| Auth.SingleFindsOnlyMatch | lib/auth.ts:17-25 | the lookup by username yields a row iff exactly one row has that username, and then it yields that row |
| Auth.LoginTeacher | lib/auth.ts:16-41 | every failure carries "Invalid username or password"; a success is a teacher identity for the requested username |
| Auth.LoginCentralOffice | lib/auth.ts:45-68 | every failure carries "Invalid username or password"; a success is a central-office identity for the requested username |
| Auth.TeacherLoginSpec | lib/auth.ts:17-41 | teacher login succeeds iff exactly one row has the username and its hash verifies the password; the identity then copies that row's id, username, school and full name, and holds no hash |
| Auth.CentralOfficeLoginSpec | lib/auth.ts:46-68 | central-office login succeeds iff exactly one row has the username and its hash verifies the password; the identity then holds only that row's id and username |
| Auth.TeacherNonEnumeration | lib/auth.ts:23-30 | for a teacher, an unknown username and a known one with a wrong password give the identical failure |
| Auth.CentralOfficeNonEnumeration | lib/auth.ts:52-59 | for a central-office user, an unknown username and a known one with a wrong password give the identical failure |
| LoginRoute.FromLogin | app/api/login/route.ts:28-39 | a login failure becomes 401 carrying its message; a success replies with exactly the login's identity |
| LoginRoute.Post | app/api/login/route.ts:9-39 | missing fields give 400 "Missing required fields"; after that check, a role other than `teacher`/`central_office` gives 400 "Invalid role"; the only other failure is 401 with the generic message; a success has the requested role and username |
| LoginRoute.TeacherDispatch | app/api/login/route.ts:17-18 | the role `teacher` replies with what the teacher login returns |
| LoginRoute.CentralOfficeDispatch | app/api/login/route.ts:19-20 | the role `central_office` replies with what the central-office login returns |
| LoginRoute.RejectionIgnoresTables | app/api/login/route.ts:9-26 | missing fields and unknown roles are answered without consulting the credential tables or the hash check |
| LoginRoute.LoginNonEnumeration | app/api/login/route.ts:28-33 | an unknown teacher username and a wrong password give the identical 401 reply |
| Dashboard.SumPermutation | app/central-office/dashboard/page.tsx:162-165 | a count summed over the records does not depend on their order |
| Dashboard.GroupTotals | app/central-office/dashboard/page.tsx:118-127 | the grouping loop, run on keys that get an own entry, creates one entry per key present and none for absent keys; each entry holds the boys and girls summed over that key's records, and its total is their sum |
| Dashboard.SortedKeys | app/central-office/dashboard/page.tsx:129-134 | the keys of the own entries come out strictly ascending, and they are exactly the keys present in the records given |
| Dashboard.AscendingUnique | app/central-office/dashboard/page.tsx:134 | two strictly ascending lists with the same elements are equal, so the sorted summary is determined by its set of sections |
| Dashboard.SectionSummary | app/central-office/dashboard/page.tsx:117-135 | the summary a string-keyed `Map` would give: one entry per section present, in ascending order, each with its section's summed boys and girls and `total == boys + girls` |
| Dashboard.SectionData | app/central-office/dashboard/page.tsx:117-135 | one entry per section present that is not an inherited object member, in ascending section order, none for other sections; each entry holds its section's summed boys and girls and `total == boys + girls` |
| Dashboard.SectionDataPermutation | app/central-office/dashboard/page.tsx:117-135 | reordering the records leaves the section summary unchanged |
| Dashboard.DateTrend | app/central-office/dashboard/page.tsx:138-153 | one entry per raw date present; each entry holds that date's summed boys and girls, and its total is their sum |
| Dashboard.DateTrendPermutation | app/central-office/dashboard/page.tsx:137-156 | reordering the records leaves the date totals unchanged |
| Dashboard.GenderData | app/central-office/dashboard/page.tsx:158-171 | the two running totals are the sums of all boys and all girls |
| Dashboard.Reduce | app/central-office/dashboard/page.tsx:294 | `reduce` from an initial value adds that value to the sum of the counts |
| Dashboard.CardTotal | app/central-office/dashboard/page.tsx:294-300 | the "Total Boys"/"Total Girls" cards show the sums of all boys and all girls |
| Dashboard.SectionTotalsAgree | app/central-office/dashboard/page.tsx:120-134 | with a `Map`, the section entries' boys (resp. girls) add up to the overall sum, which is also what the card shows |
| Dashboard.SectionDataTotals | app/central-office/dashboard/page.tsx:117-135 | as written, the section entries add up to the records whose section is not an inherited object member, and to the card total when no section is one |
| Dashboard.PrototypeSectionDropped | app/central-office/dashboard/page.tsx:118-129 | one record with section `toString`, 5 boys and 6 girls gives an empty section summary while the cards show 5 and 6 |
| Dashboard.TotalsPermutation | app/central-office/dashboard/page.tsx:294-300 | the card totals do not depend on record order |
| Dashboard.EmptyInput | app/central-office/dashboard/page.tsx:117-171 | no records give an empty section summary, no date entries and zero totals |
| Dashboard.RowLines | app/central-office/dashboard/page.tsx:180-191 | one CSV line per record, in input order |
| Dashboard.SchoolLabel | app/central-office/dashboard/page.tsx:182 | a record without a joined school, or whose school name is empty, is labelled Unknown; otherwise the label is the school's name |
| Dashboard.CsvLineRoundTrip | app/central-office/dashboard/page.tsx:180-191 | a record's line holds no newline; if its text columns hold no separator, splitting the line at commas gives back its six fields, and the last field reads back as boys + girls |
| Dashboard.CsvRoundTrip | app/central-office/dashboard/page.tsx:173-192 | no records means no export; otherwise splitting the text at newlines and then commas gives back the header and one six-field row per record, in input order, provided the text columns hold no separator |

## Left out

- Supabase, `NextRequest`/`NextResponse`, JSON parsing and the `try`/`catch` 500 replies are left out. The table is a map passed in and returned. Storage faults are left out, except two refusals. The batch path's upsert refuses a batch that touches one key twice, as `ON CONFLICT DO UPDATE` does. The single path's refusal of a null count is the assumption below.
- AttendanceRoute.Post: the table schema is not in the code, so the model assumes the count columns are NOT NULL. A count that `parseInt` cannot read then gives 500 "Failed to save attendance" and leaves the table unchanged. If the columns accepted null, the source would store null and reply 200, and the success-iff clause would not hold.
- AttendanceQuery.Query: the select is sent without `.range()` or `.limit()`, and the hosted API caps the rows one request returns (1000 by default). The model assumes the cap is never reached. Past it, the reply would be a prefix of the result and the dashboard's figures would under-count, so completeness holds only below the cap.
- AttendanceRoute.Post, BulkRoute.Post and AttendanceQuery.Query: date text is assumed to be canonical `YYYY-MM-DD`. It is stored and compared as raw text. A date-typed column would normalise other text, such as `2024-3-1`, or reject it with a 500. That is not modelled, so in the model `2024-3-1` and `2024-03-01` are different keys, and an `endDate` of `2024-9-30` lets `2024-10-01` through.
- bcrypt hashing and comparison (lib/auth.ts:5-13, scripts/hash-password.js) are left out. The comparison is the parameter `verify`.
- `parseInt` is modelled as a decimal parser: an optional sign and then the longest run of digits. Leading whitespace, `0x` prefixes and the way a JavaScript number is first turned into text (`1e21`) are not modelled.
- Counts and totals are unbounded integers. JavaScript floating-point arithmetic is not modelled.
- A request field that arrives as a non-string JSON value is modelled only through its text. For example, `0` is truthy here but falsy in JavaScript.
- A batch item whose `section` is missing is left out: the model takes the section as text.
- The batch path writes `teacher_id` as given, so an empty string is stored as `""`. The column-list subtlety of a multi-row PostgREST upsert when `teacher_id` is omitted is not modelled. There, the stored value on update may be kept instead of nulled.
- The generated `id` column of a stored row is left out.
- Dashboard.SectionData: writing onto the inherited member (`Object.prototype.boys` becomes `NaN` for `__proto__`) is not modelled. It does not change the summary. `localeCompare` is modelled as ordinal order. The two agree on `1A, 1B, 2, 3, 4, 5` and on other sections made only of ASCII upper-case letters and digits. They disagree on mixed letter case, on punctuation (ordinal puts `AB` before `A_`, collation puts `A_` first) and on non-ASCII letters (ordinal puts `F1` before `É1`, collation puts `É1` first).
- Dashboard.DateTrend: this is a map from raw date to totals. Given canonical date text, no date names an `Object.prototype` member, so the object-as-map effect modelled for sections does not arise here. The `toLocaleDateString` label and the sort that re-parses that label are left out, because they depend on engine, locale and time zone.
- Strings are sequences of Unicode scalar values, so ordering differs from JavaScript's UTF-16 order only for characters outside the Basic Multilingual Plane.
- React state and effects, the localStorage role gate, routing, chart rendering, the CSV download step, app/teacher/dashboard/page.tsx (a form repeating the server's checks) and app/api/schools/route.ts (an ordered select) are left out.
- Concurrency of upserts is left out. Resolving the key atomically is the database's `ON CONFLICT`.

## Findings

| source | as written | input that shows it | evidently intended | confidence | as-written member | corrected member |
|---|---|---|---|---|---|---|
| app/api/attendance/bulk/route.ts:15-22 | batch rows take `row.section` without checking it against the six sections | `{records: [{section: "9", boys_present: "3", girls_present: "4"}], school_id: "S1", date: "2024-03-01"}` stores a row for section `9` | the same membership check as the single-record path (app/api/attendance/route.ts:18-24), so the table holds only the six sections | medium, not executed | BulkRoute.BulkBreaksSectionsValid | BulkRoute.PostCheckedKeepsSectionsValid |
| app/central-office/dashboard/page.tsx:118-129 | `sectionMap` is a plain object, so a section named after an `Object.prototype` member finds the truthy inherited member, gets no entry, and is left out by `Object.entries` | one record `{section: "toString", boys_present: 5, girls_present: 6}`, which the batch path can store, gives an empty section summary while the cards show 5 boys and 6 girls | a string-keyed map with one entry per section, whose entries add up to the cards | low, not executed | Dashboard.PrototypeSectionDropped | Dashboard.SectionTotalsAgree |
