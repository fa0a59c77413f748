/**
 * Signup intake (doPost) and the header set-up (setupSpreadsheet). A
 * submission writes the header into an empty sheet, checks the email column
 * for the address, appends a seven-cell row for a new address and sends the
 * welcome message at once, answering success, duplicate or error.
 */
module Signup {
  import opened Sheets
  import opened Mail
  import opened Notifications

  /** A form submission whose JSON body parsed; an absent email field is `None`. */
  datatype Payload = Payload(timestamp: string, email: Option<string>, projects: string, page: string)

  /** The body of a POST request: a JSON object, or text the JSON parser rejects. */
  datatype Request = Parsed(payload: Payload) | Malformed

  /** The JSON answer returned to the form. */
  datatype Response = Success | Duplicate | Error(cause: Failure)

  /** What one submission does: its answer, the sheet afterwards and the messages it tried to send. */
  datatype Effect = Effect(response: Response, rows: seq<Row>, attempted: seq<Message>)

  function Max(a: int, b: int): int
  {
    if a < b then b else a
  }

  /** The sheet once the header is in place: a header row is added only to an empty sheet. */
  function WithHeader(rows: seq<Row>): (r: seq<Row>)
    ensures rows == [] ==> r == [HEADER]
    ensures rows != [] ==> r == rows
  {
    if |rows| == 0 then [HEADER] else rows
  }

  /**
   * The cells the duplicate check reads: the email column from sheet row 2
   * for max(lastRow - 1, 1) rows. On a sheet holding only the header this is
   * one placeholder cell below the data, which reads as "".
   */
  function EmailColumn(rows: seq<Row>): (column: seq<string>)
    ensures |column| == if |rows| <= 1 then 1 else |rows| - 1
    ensures forall k :: 0 <= k < |column| ==> column[k] == if k + 1 < |rows| then rows[k + 1][EMAIL] else ""
  {
    seq(Max(|rows| - 1, 1), k requires 0 <= k => Cell(rows, k + 2, EMAIL + 1))
  }

  /** Whether some cell of `column` is strictly equal to `email`; `None` equals no cell. */
  function EmailExists(column: seq<string>, email: Option<string>): (found: bool)
    ensures found <==> exists k :: 0 <= k < |column| && email == Some(column[k])
  {
    if column == [] then false
    else email == Some(column[0]) || EmailExists(column[1..], email)
  }

  /** Whether the duplicate check on `rows` reports `email` as already registered. */
  predicate Registered(rows: seq<Row>, email: Option<string>)
  {
    EmailExists(EmailColumn(rows), email)
  }

  /** The cell written for the email field: `undefined` is written as a blank cell. */
  function EmailCell(email: Option<string>): (cell: string)
    ensures cell == "" <==> !Present(email)
    ensures Present(email) ==> cell == email.value
  {
    if email.Some? then email.value else ""
  }

  /** The row appended for a new signup, both flags "No"; `now` is the server's clock. */
  function NewRow(p: Payload, now: string): (r: Row)
    ensures r[TIMESTAMP] == p.timestamp && r[PROJECTS] == p.projects && r[PAGE] == p.page && r[DATE_ADDED] == now
    ensures r[WELCOME_SENT] == NO && r[BETA_SENT] == NO
    // The address cell is blank exactly when the welcome sender will skip the row.
    ensures r[EMAIL] == EmailCell(p.email) && (r[EMAIL] != "" <==> Present(p.email))
  {
    [p.timestamp, EmailCell(p.email), p.projects, p.page, now, NO, NO]
  }

  /**
   * The effect of doPost on a sheet holding `rows`, at server time `now`,
   * when the welcome message, if one is sent, goes through exactly when
   * `mailOk` holds.
   */
  function Intake(rows: seq<Row>, req: Request, now: string, mailOk: bool): (e: Effect)
    // The header is row 1; existing rows are kept; at most one row is appended.
    ensures |WithHeader(rows)| <= |e.rows| <= |WithHeader(rows)| + 1
    ensures e.rows[..|WithHeader(rows)|] == WithHeader(rows)
    ensures e.rows[0] == if rows == [] then HEADER else rows[0]
    // A malformed body is an error and adds no row.
    ensures req.Malformed? ==> e == Effect(Error(ParseFailure), WithHeader(rows), [])
    // A registered address is a duplicate: no row, no message.
    ensures req.Parsed? && Registered(WithHeader(rows), req.payload.email) ==>
              e == Effect(Duplicate, WithHeader(rows), [])
    // A new address gets one row whose welcome flag is "Yes" only if the message went out.
    ensures req.Parsed? && !Registered(WithHeader(rows), req.payload.email) ==>
              var p := req.payload;
              var sent := Present(p.email) && mailOk;
              && |e.rows| == |WithHeader(rows)| + 1
              && e.rows[|e.rows| - 1] == NewRow(p, now)[WELCOME_SENT := if sent then YES else NO]
              && e.attempted == (if Present(p.email) then [MessageTo(p.email.value, Welcome)] else [])
              && e.response == (if Present(p.email) && !mailOk then Error(MailFailure) else Success)
  {
    var sheet := WithHeader(rows);
    match req
    case Malformed => Effect(Error(ParseFailure), sheet, [])
    case Parsed(p) =>
      if Registered(sheet, p.email) then Effect(Duplicate, sheet, [])
      else
        var added := sheet + [NewRow(p, now)];
        if !Present(p.email) then Effect(Success, added, [])
        else
          var welcome := [MessageTo(p.email.value, Welcome)];
          if mailOk then Effect(Success, SetCell(added, |added|, WELCOME_SENT + 1, YES), welcome)
          else Effect(Error(MailFailure), added, welcome)
  }

  /**
   * What the duplicate check decides: on a sheet with data rows, an address
   * is registered exactly when some data row holds it; on a sheet with only
   * the header row, only the empty address is, because it equals the
   * placeholder cell read below the header.
   */
  lemma {:induction false} RegisteredIff(rows: seq<Row>, email: Option<string>)
    requires |rows| >= 1
    ensures Registered(rows, email) <==>
              email.Some? &&
              ((exists i :: 1 <= i < |rows| && rows[i][EMAIL] == email.value) || (|rows| == 1 && email.value == ""))
  {
    var column := EmailColumn(rows);
    if |rows| == 1 {
      assert column == [""];
    } else {
      assert |column| == |rows| - 1;
      if email.Some? {
        forall i | 1 <= i < |rows|
          ensures column[i - 1] == rows[i][EMAIL]
        {
        }
        if exists i :: 1 <= i < |rows| && rows[i][EMAIL] == email.value {
          var i :| 1 <= i < |rows| && rows[i][EMAIL] == email.value;
          assert email == Some(column[i - 1]);
        }
        if Registered(rows, email) {
          var k :| 0 <= k < |column| && email == Some(column[k]);
          assert rows[k + 1][EMAIL] == email.value;
        }
      }
    }
  }

  /** Data rows never share a non-empty address. */
  ghost predicate UniqueEmails(rows: seq<Row>)
  {
    forall i, j :: 1 <= i < j < |rows| && rows[i][EMAIL] != "" ==> rows[i][EMAIL] != rows[j][EMAIL]
  }

  /** A submission keeps the addresses in the sheet unique. */
  lemma {:induction false} IntakeKeepsEmailsUnique(rows: seq<Row>, req: Request, now: string, mailOk: bool)
    requires UniqueEmails(rows)
    ensures UniqueEmails(Intake(rows, req, now, mailOk).rows)
  {
    var sheet := WithHeader(rows);
    var e := Intake(rows, req, now, mailOk);
    assert UniqueEmails(sheet);
    if req.Parsed? && !Registered(sheet, req.payload.email) {
      var email := req.payload.email;
      var n := |sheet|;
      assert e.rows[..n] == sheet;
      assert e.rows[n][EMAIL] == EmailCell(email);
      RegisteredIff(sheet, email);
      forall i, j | 1 <= i < j < |e.rows| && e.rows[i][EMAIL] != ""
        ensures e.rows[i][EMAIL] != e.rows[j][EMAIL]
      {
        assert e.rows[i] == sheet[i];
        if j < n {
          assert e.rows[j] == sheet[j];
        } else if email.Some? {
          assert e.rows[i][EMAIL] != email.value;
        }
      }
    }
  }

  /**
   * Submitting an address a second time is answered `duplicate` and changes
   * nothing, whatever became of the first submission (new row, duplicate, or
   * row kept after a failed welcome message).
   */
  lemma {:induction false} ResubmissionIsDuplicate(rows: seq<Row>, p: Payload, q: Payload, now: string, now': string, mailOk: bool, mailOk': bool)
    requires p.email.Some? && q.email == p.email
    ensures var first := Intake(rows, Parsed(p), now, mailOk);
            Intake(first.rows, Parsed(q), now', mailOk') == Effect(Duplicate, first.rows, [])
  {
    var sheet := WithHeader(rows);
    var first := Intake(rows, Parsed(p), now, mailOk);
    assert WithHeader(first.rows) == first.rows;
    if !Registered(sheet, p.email) {
      var n := |sheet|;
      assert first.rows[n][EMAIL] == p.email.value;
      RegisteredIff(first.rows, p.email);
    }
  }

  /** The answers and final sheet of successive submissions, every welcome message going through. */
  function SubmitAll(rows: seq<Row>, ps: seq<Payload>, nows: seq<string>): (seq<Response>, seq<Row>)
    requires |nows| == |ps|
    decreases |ps|
  {
    if ps == [] then ([], rows)
    else
      var e := Intake(rows, Parsed(ps[0]), nows[0], true);
      var rest := SubmitAll(e.rows, ps[1..], nows[1..]);
      ([e.response] + rest.0, rest.1)
  }

  /** The row a successful first submission of `p` leaves behind. */
  function Welcomed(p: Payload, now: string): Row
  {
    NewRow(p, now)[WELCOME_SENT := YES]
  }

  /** The rows successful first submissions of `ps` leave behind, in order. */
  function WelcomedRows(ps: seq<Payload>, nows: seq<string>): seq<Row>
    requires |nows| == |ps|
    decreases |ps|
  {
    if ps == [] then [] else [Welcomed(ps[0], nows[0])] + WelcomedRows(ps[1..], nows[1..])
  }

  /** Appending a row for one address leaves every other unregistered address unregistered. */
  lemma AppendKeepsOthersNew(sheet: seq<Row>, r: Row, email: Option<string>)
    requires |sheet| >= 1 && Present(email) && r[EMAIL] != email.value
    requires !Registered(sheet, email)
    ensures !Registered(sheet + [r], email)
  {
    RegisteredIff(sheet, email);
    RegisteredIff(sheet + [r], email);
  }

  /** Concatenation of row lists regroups freely. */
  lemma AppendAssociates(a: seq<Row>, b: seq<Row>, c: seq<Row>)
    ensures a + b + c == a + (b + c)
  {
  }

  /** The first of several submissions, for a new address whose welcome message goes through. */
  lemma SubmitFirst(rows: seq<Row>, ps: seq<Payload>, nows: seq<string>)
    requires |nows| == |ps| && ps != []
    requires Present(ps[0].email) && !Registered(WithHeader(rows), ps[0].email)
    ensures var rest := SubmitAll(WithHeader(rows) + [Welcomed(ps[0], nows[0])], ps[1..], nows[1..]);
            SubmitAll(rows, ps, nows) == ([Success] + rest.0, rest.1)
  {
    var e := Intake(rows, Parsed(ps[0]), nows[0], true);
    assert e.rows == WithHeader(rows) + [Welcomed(ps[0], nows[0])];
    assert e.response == Success;
  }

  /**
   * Submissions with distinct new addresses all succeed, and the sheet gains
   * one welcomed row per submission, in the order of the submissions.
   */
  lemma {:induction false} DistinctSignupsAllSucceed(rows: seq<Row>, ps: seq<Payload>, nows: seq<string>)
    requires |nows| == |ps|
    requires forall k :: 0 <= k < |ps| ==> Present(ps[k].email)
    requires forall k, l :: 0 <= k < l < |ps| ==> ps[k].email != ps[l].email
    requires forall k :: 0 <= k < |ps| ==> !Registered(WithHeader(rows), ps[k].email)
    ensures |SubmitAll(rows, ps, nows).0| == |ps|
    ensures forall k :: 0 <= k < |ps| ==> SubmitAll(rows, ps, nows).0[k] == Success
    ensures ps != [] ==> SubmitAll(rows, ps, nows).1 == WithHeader(rows) + WelcomedRows(ps, nows)
    decreases |ps|
  {
    if ps != [] {
      var sheet := WithHeader(rows);
      var first := Welcomed(ps[0], nows[0]);
      var next := sheet + [first];
      forall k | 0 <= k < |ps| - 1
        ensures !Registered(WithHeader(next), ps[1..][k].email)
      {
        assert ps[0].email != ps[k + 1].email;
        AppendKeepsOthersNew(sheet, first, ps[k + 1].email);
      }
      DistinctSignupsAllSucceed(next, ps[1..], nows[1..]);
      SubmitFirst(rows, ps, nows);
      var all := SubmitAll(rows, ps, nows);
      var rest := SubmitAll(next, ps[1..], nows[1..]);
      assert all == ([Success] + rest.0, rest.1);
      forall k | 0 <= k < |ps|
        ensures all.0[k] == Success
      {
        if k > 0 {
          assert all.0[k] == rest.0[k - 1];
        }
      }
      var later := WelcomedRows(ps[1..], nows[1..]);
      assert WelcomedRows(ps, nows) == [first] + later;
      AppendAssociates(sheet, [first], later);
    }
  }

  /** setupSpreadsheet: writes the header row into an empty sheet and leaves any other sheet alone. */
  method SetupSpreadsheet(sheet: Sheet)
    modifies sheet
    ensures sheet.rows == WithHeader(old(sheet.rows))
  {
    if sheet.LastRow() > 0 {
      return;
    }
    sheet.AppendRow(HEADER);
  }

  /**
   * Running setupSpreadsheet first changes nothing about a submission: both
   * put the same header row into an empty sheet, and a second set-up is a
   * no-op.
   */
  lemma SetupThenPost(rows: seq<Row>, req: Request, now: string, mailOk: bool)
    ensures WithHeader(WithHeader(rows)) == WithHeader(rows)
    ensures Intake(WithHeader(rows), req, now, mailOk) == Intake(rows, req, now, mailOk)
  {
  }

  /**
   * doPost: handles one submission against the active sheet, sending the
   * welcome message through `mailer`; `now` is the server's clock.
   */
  method DoPost(sheet: Sheet, mailer: Mailer, req: Request, now: string) returns (response: Response)
    modifies sheet, mailer
    ensures var e := Intake(old(sheet.rows), req, now, old(mailer.attempts) !in mailer.failing);
            && response == e.response
            && sheet.rows == e.rows
            && mailer.attempts == old(mailer.attempts) + |e.attempted|
            && mailer.outbox == old(mailer.outbox) + (if old(mailer.attempts) !in mailer.failing then e.attempted else [])
  {
    if sheet.LastRow() == 0 {
      sheet.AppendRow(HEADER);
    }
    ghost var withHeader := sheet.rows;
    assert withHeader == WithHeader(old(sheet.rows));
    match req
    case Malformed =>
      return Error(ParseFailure);
    case Parsed(data) =>
      var column := EmailColumn(sheet.rows);
      if EmailExists(column, data.email) {
        return Duplicate;
      }
      sheet.AppendRow(NewRow(data, now));
      var rowNumber := sheet.LastRow();
      assert rowNumber == |withHeader| + 1;
      var sent := SendWelcomeEmail(data.email, sheet, rowNumber, mailer);
      if sent.Threw? {
        return Error(sent.error);
      }
      return Success;
  }
}
