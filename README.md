# RHYDLE beta waitlist — a Dafny model

The waitlist is a Google Apps Script bound to a spreadsheet. The active sheet is
its database: row 1 is a header and every later row is one signup, seven text
cells wide (timestamp, email, projects, page, date added, welcome-sent flag,
beta-sent flag). The column indexes are fixed in the script's configuration.

- **doPost** receives one signup from the landing page's form. It writes the
  header into an empty sheet, then parses the JSON body. It checks the email
  column for the address: a registered address is answered `duplicate` and
  nothing else happens. A new address gets a row appended with both flags
  "No", and the welcome message is sent straight away. Any exception (a
  malformed body, a mail service failure) is answered `error`; the row stays
  in that case.
- **sendWelcomeEmail** and **sendBetaAPKEmail** skip an absent or empty
  address. Otherwise they call the mail service. Only once that call returns do
  they set the row's flag cell to "Yes". A mail failure is passed on.
- **sendBetaEmailsToAll** reads every data row once. It walks the rows top to
  bottom and sends the download message to each row whose beta flag is not
  "Yes" and whose address is not empty. Nothing catches a failed send, so the
  first failure ends the sweep.
- **setupSpreadsheet** writes the header row into an empty sheet and leaves
  any other sheet alone.

The model has five modules:

- `Sheets`: the sheet as a class over a sequence of rows.
- `Mail`: the mail service as a class whose failing calls are fixed in
  advance by a set of call numbers.
- `Notifications`: the two senders, and the exceptions that reach the script.
- `Signup`: doPost, as an imperative method proved against the pure
  specification `Intake`, plus setupSpreadsheet.
- `BetaSweep`: the bulk send. Its loop is proved against the pure
  specifications `Targets`, `Mark`, `BetaMessages` and `Delivered`.

## Model

| member | source | states |
|---|---|---|
| Sheets.Cell | COPY-THIS-TO-GOOGLE-APPS-SCRIPT.js:60 | A range read below the last row yields the empty string. |
| Sheets.Sheet.LastRow | COPY-THIS-TO-GOOGLE-APPS-SCRIPT.js:82 | 0 exactly for an empty sheet. The row read at the last row number is the row appended last, which is how doPost finds the new row's number. Every position below it reads empty. |
| Sheets.Sheet.AppendRow | COPY-THIS-TO-GOOGLE-APPS-SCRIPT.js:71-79 | The row is added below the last row and every earlier row is unchanged. |
| Sheets.Sheet.SetValue | COPY-THIS-TO-GOOGLE-APPS-SCRIPT.js:123 | Exactly the one addressed cell is overwritten; the row count stays the same. |
| Mail.Mailer.Send | COPY-THIS-TO-GOOGLE-APPS-SCRIPT.js:114-120 | One more call is counted. The message is delivered exactly when this call is not one that throws; otherwise nothing is delivered. |
| Notifications.Present | COPY-THIS-TO-GOOGLE-APPS-SCRIPT.js:104 | An address is truthy unless it is absent (`undefined`) or empty. Its meaning is pinned by the senders' contracts, which use it as their skip condition, and by `Signup.EmailCell`. |
| Notifications.SendWelcomeEmail | COPY-THIS-TO-GOOGLE-APPS-SCRIPT.js:101-133 | An absent or empty address returns without touching the mail service or the sheet. Otherwise there is exactly one call. The welcome flag becomes "Yes" only when that call returned and there is a row to mark. A failure is passed on, leaving the sheet unchanged. |
| Notifications.SendBetaAPKEmail | COPY-THIS-TO-GOOGLE-APPS-SCRIPT.js:138-170 | The same as sendWelcomeEmail, with the download message and the beta flag column. |
| Signup.WithHeader | COPY-THIS-TO-GOOGLE-APPS-SCRIPT.js:38-47 | An empty sheet becomes exactly the one header row, so data rows start at row 2. A non-empty sheet is returned unchanged. |
| Signup.EmailColumn | COPY-THIS-TO-GOOGLE-APPS-SCRIPT.js:60 | The duplicate check reads max(lastRow - 1, 1) cells. Cell k is the address of data row k. On a header-only sheet the one cell read is the empty placeholder below the header. |
| Signup.EmailExists | COPY-THIS-TO-GOOGLE-APPS-SCRIPT.js:61 | True exactly when some cell read is strictly equal to the address; an absent address equals no cell. |
| Signup.Registered | COPY-THIS-TO-GOOGLE-APPS-SCRIPT.js:60-61 | The duplicate check: some cell of the email column equals the address. Its meaning in terms of the data rows is stated by `Signup.RegisteredIff`. |
| Signup.EmailCell | COPY-THIS-TO-GOOGLE-APPS-SCRIPT.js:73 | The written address cell is blank exactly when the senders would skip the address, and otherwise holds the address. |
| Signup.NewRow | COPY-THIS-TO-GOOGLE-APPS-SCRIPT.js:71-79 | The fields go in the configured column order, with the server time as date added and both flags "No". The address cell is non-empty exactly when the address is present. |
| Signup.RegisteredIff | COPY-THIS-TO-GOOGLE-APPS-SCRIPT.js:60-61 | With data rows present, the duplicate check reports an address exactly when some data row holds it. On a header-only sheet it reports only the empty address. Both directions are proved. |
| Signup.Intake | COPY-THIS-TO-GOOGLE-APPS-SCRIPT.js:33-96 | Every outcome of doPost. A malformed body gives error and no row. A registered address gives duplicate with no row and no message. A new address gives exactly one appended row with both flags "No", except that the welcome flag is "Yes" when the message went out. The answer is success, or error when the send threw. Earlier rows are never changed. |
| Signup.IntakeKeepsEmailsUnique | COPY-THIS-TO-GOOGLE-APPS-SCRIPT.js:59-79 | If the sheet holds no repeated non-empty address, it still holds none after any submission. |
| Signup.ResubmissionIsDuplicate | COPY-THIS-TO-GOOGLE-APPS-SCRIPT.js:59-68 | Submitting the same address again is answered duplicate and changes nothing, whatever the first submission's outcome. |
| Signup.DistinctSignupsAllSucceed | COPY-THIS-TO-GOOGLE-APPS-SCRIPT.js:70-88 | Submissions of distinct new addresses are all answered success when their mail goes through. The sheet gains one welcomed row per submission, in submission order. |
| Signup.SetupSpreadsheet | COPY-THIS-TO-GOOGLE-APPS-SCRIPT.js:353-371 | The sheet afterwards is the sheet with the header ensured: the header is appended to an empty sheet and any other sheet is left alone. |
| Signup.SetupThenPost | COPY-THIS-TO-GOOGLE-APPS-SCRIPT.js:353-371 | Ensuring the header twice is the same as once. A submission after setupSpreadsheet has the same effect as one on the unprepared sheet. |
| Signup.DoPost | COPY-THIS-TO-GOOGLE-APPS-SCRIPT.js:33-96 | The answer and the new sheet are those of `Intake`, taken on the old sheet. The mail service is called once per message attempted, and the outbox gains those messages exactly when the call goes through. |
| BetaSweep.Eligible | COPY-THIS-TO-GOOGLE-APPS-SCRIPT.js:317 | The sweep's row condition: beta flag other than "Yes" and a non-empty address. `BetaSweep.TargetsFromExactly` proves that the sweep targets exactly such rows. |
| BetaSweep.SignupAwaitsSweep | COPY-THIS-TO-GOOGLE-APPS-SCRIPT.js:71-79 | A row appended by doPost is a target of the next sweep exactly when its address is present, whether or not its welcome message went out. |
| BetaSweep.TargetsFrom | COPY-THIS-TO-GOOGLE-APPS-SCRIPT.js:313-317 | The data rows from `i` on that the sweep sends to, in the order it sends. `BetaSweep.TargetsFromOrdered` and `BetaSweep.TargetsFromExactly` state its meaning. |
| BetaSweep.Targets | COPY-THIS-TO-GOOGLE-APPS-SCRIPT.js:313-317 | All rows the sweep sends to, in sending order. `BetaSweep.SentThenTargets` splits it at any row. |
| BetaSweep.Mark | COPY-THIS-TO-GOOGLE-APPS-SCRIPT.js:159-161 | The data after the listed rows' beta flags are set, one after another; the row count is unchanged. `BetaSweep.MarkedRow` states each row's value. |
| BetaSweep.BetaMessages | COPY-THIS-TO-GOOGLE-APPS-SCRIPT.js:151-157 | The download messages to the listed rows' addresses, in list order. `BetaSweep.SweptMessagesAreBetaMessages` ties it to what the loop delivers. |
| BetaSweep.TargetsFromOrdered | COPY-THIS-TO-GOOGLE-APPS-SCRIPT.js:313-317 | The rows the sweep sends to are existing data rows, visited in strictly increasing row order. |
| BetaSweep.TargetsFromExactly | COPY-THIS-TO-GOOGLE-APPS-SCRIPT.js:317 | The sweep sends to a row exactly when its beta flag is not "Yes" and its address is not empty. |
| BetaSweep.MarkedRow | COPY-THIS-TO-GOOGLE-APPS-SCRIPT.js:159-161 | After marking, a row is the old row with its beta flag set to "Yes" if it was marked, and the old row otherwise. |
| BetaSweep.MarkSetsOnlyBetaFlags | COPY-THIS-TO-GOOGLE-APPS-SCRIPT.js:159-161 | Marking changes no cell but the beta flag, and sets that flag to "Yes" on marked rows only. |
| BetaSweep.Delivered | COPY-THIS-TO-GOOGLE-APPS-SCRIPT.js:317-319 | The count of calls that go through before the first one that throws. It is at most the number of calls; every counted call goes through; and if it falls short, the next call throws. |
| BetaSweep.AllGoThroughIff | COPY-THIS-TO-GOOGLE-APPS-SCRIPT.js:318-319 | `AllGoThrough` holds exactly when no call in the range throws. |
| BetaSweep.SendBetaEmailsToAll | COPY-THIS-TO-GOOGLE-APPS-SCRIPT.js:301-325 | With fewer than two sheet rows, nothing changes. Otherwise let n be the number of sends that go through. Exactly the first n rows the sweep targets get their beta flag set, in row order, and only their messages are delivered. There are n + 1 calls when a send threw and n otherwise. The sweep completes with count n, or aborts with the mail failure. |
| BetaSweep.Walk | COPY-THIS-TO-GOOGLE-APPS-SCRIPT.js:313-322 | The loop ends after the last row or at the first eligible row whose send throws. Up to that row, every eligible row has been sent to and marked in order. Every counted send went through. |
| BetaSweep.SendRow | COPY-THIS-TO-GOOGLE-APPS-SCRIPT.js:317-320 | One eligible row costs one call. On success the sheet and outbox advance past that row; a throw leaves both as they were. |
| BetaSweep.SentThenTargets | COPY-THIS-TO-GOOGLE-APPS-SCRIPT.js:313-317 | The rows targeted above any row, followed by those targeted from it on, are all the targets in order. |
| BetaSweep.SentExactly | COPY-THIS-TO-GOOGLE-APPS-SCRIPT.js:317 | The rows sent to above row `i` are exactly the eligible rows above `i`. |
| BetaSweep.SweptIsMarked | COPY-THIS-TO-GOOGLE-APPS-SCRIPT.js:313-321 | The sheet after passing the rows above `i` is the data with exactly the rows sent to marked. |
| BetaSweep.SweptMessagesAreBetaMessages | COPY-THIS-TO-GOOGLE-APPS-SCRIPT.js:313-321 | The messages delivered after passing the rows above `i` are the download messages of the rows sent to, in order. |
| BetaSweep.StoppedAt | COPY-THIS-TO-GOOGLE-APPS-SCRIPT.js:317-318 | When the send to an eligible row throws after all earlier sends went through, the delivered count is the number of rows sent to. That count is less than the number of targets, and those rows are a prefix of the targets. |
| BetaSweep.FinishedAll | COPY-THIS-TO-GOOGLE-APPS-SCRIPT.js:313-324 | When every send went through, the delivered count is the number of targets and every target was sent to. |
| BetaSweep.DeliveredUpTo | COPY-THIS-TO-GOOGLE-APPS-SCRIPT.js:317-319 | If the first n calls go through and call n throws (or there are only n calls), the delivered count is n. |
| BetaSweep.Without | COPY-THIS-TO-GOOGLE-APPS-SCRIPT.js:317 | An index is kept exactly when it was present and is not listed to be dropped. |
| BetaSweep.TargetsAfterMark | COPY-THIS-TO-GOOGLE-APPS-SCRIPT.js:315-317 | After marking some rows, the sweep targets the same rows as before minus the marked ones, in the same order. |
| BetaSweep.SweepResumes | COPY-THIS-TO-GOOGLE-APPS-SCRIPT.js:313-321 | A sweep run again after the first n targets were marked sends exactly to the remaining targets, in the same order. So a sweep cut short by a failure resumes where it stopped, and nobody gets the message twice. |
| BetaSweep.SweepIsIdempotent | COPY-THIS-TO-GOOGLE-APPS-SCRIPT.js:313-321 | After a sweep that completes, a second sweep sends nothing. |

## Left out

- The message subjects and HTML bodies (lines 111-112, 148-149, 175-296) are left out. A message is its recipient, its kind (welcome or download), the reply-to address and the sender name.
- Logging (`Logger.log`) and the "Sent: <date>" notes written beside each flag cell (lines 124, 161) are left out. They change no value the script reads.
- The header formatting (bold, colours) and the column auto-resize in doPost and setupSpreadsheet (lines 49-53, 373-380) are left out, because they are presentation only.
- JSON parsing is reduced to two cases: an object, or `Malformed`. `Malformed` covers a body the parser rejects, a request without a body, and a body that parses to `null` and then fails at the duplicate check (line 61). All of these have the same effect: error, header kept, no row. Fields other than the email are taken as text; a missing one is taken as "".
- The answer keeps only its `status` and, for an error, which exception caused it. The human-readable `message` texts (lines 66, 87) and the `error.toString()` text (line 93) are left out.
- Cell values are strings throughout. The platform's conversion of numbers and dates in cells, and of non-string email fields, is not modelled.
- `new Date()` is a parameter `now` of doPost, since it is the server's clock.
- The mail service's quota and failures are an oracle: a set of call numbers that throw.
- `Utilities.sleep(1000)` between sends (line 320) is left out, because it only delays.
- formatDate (lines 330-334) is left out: it is a date-display helper that no modelled operation calls.
- setupScheduledTrigger (lines 336-348) is left out, because it only registers the sweep with the platform's scheduler.
- testWelcomeEmail and testBetaEmail are left out as entry points. The way they call the senders, without a sheet and row, is modelled through a null sheet or row number 0.
- Concurrent executions of doPost are not modelled: two simultaneous submissions of one address could both pass the duplicate check. The model runs each request alone.
- BetaSweep.SendBetaEmailsToAll: in the source the sweep returns nothing and only logs the count. The model returns the count, or the failure that escaped, so that the contract can state them.
- BetaSweep.BetaMessages skips listed indexes that are not data rows. The sweep never lists such an index (TargetsFromOrdered).
