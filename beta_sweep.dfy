/**
 * The bulk beta send (sendBetaEmailsToAll): one read of every data row, then
 * a walk down the rows in order that sends the download message to each row
 * whose beta flag is not "Yes" and whose address is not empty. Nothing
 * catches a failed send, so the first failure ends the walk.
 */
module BetaSweep {
  import opened Sheets
  import opened Mail
  import opened Notifications
  import opened Signup

  /** Whether the sweep sends to a row: beta flag other than "Yes", non-empty address. */
  predicate Eligible(r: Row)
  {
    r[BETA_SENT] != YES && r[EMAIL] != ""
  }

  /**
   * A row doPost appends awaits the download message exactly when its
   * address is present, whatever became of its welcome message: its beta
   * flag starts at "No" and its address cell is blank only for an absent or
   * empty address.
   */
  lemma SignupAwaitsSweep(p: Payload, now: string, welcomed: bool)
    ensures Eligible(NewRow(p, now)[WELCOME_SENT := if welcomed then YES else NO]) <==> Present(p.email)
  {
  }

  predicate Increasing(s: seq<nat>)
  {
    forall a, b :: 0 <= a < b < |s| ==> s[a] < s[b]
  }

  /** The indexes, from `i` on, of the data rows the sweep sends to, in increasing order. */
  function TargetsFrom(data: seq<Row>, i: nat): seq<nat>
    requires i <= |data|
    decreases |data| - i
  {
    if i == |data| then []
    else
      var rest := TargetsFrom(data, i + 1);
      if Eligible(data[i]) then
        [i] + rest
      else rest
  }

  /**
   * The sweep visits rows top to bottom: the indexes it sends to from `i` on
   * are data rows at or below `i`, in strictly increasing order.
   */
  lemma {:induction false} TargetsFromOrdered(data: seq<Row>, i: nat)
    requires i <= |data|
    ensures forall j :: 0 <= j < |TargetsFrom(data, i)| ==> i <= TargetsFrom(data, i)[j] < |data|
    ensures Increasing(TargetsFrom(data, i))
    decreases |data| - i
  {
    if i < |data| {
      TargetsFromOrdered(data, i + 1);
      var rest := TargetsFrom(data, i + 1);
      if Eligible(data[i]) {
        assert forall j :: 1 <= j < |rest| + 1 ==> ([i] + rest)[j] == rest[j - 1];
      }
    }
  }

  /** The sweep sends to a row from `i` on exactly when the row is eligible. */
  lemma {:induction false} TargetsFromExactly(data: seq<Row>, i: nat)
    requires i <= |data|
    ensures forall k :: i <= k < |data| ==> (k in TargetsFrom(data, i) <==> Eligible(data[k]))
    decreases |data| - i
  {
    if i < |data| {
      TargetsFromExactly(data, i + 1);
      TargetsFromOrdered(data, i + 1);
    }
  }

  /** The indexes of all data rows the sweep sends to, in the order it sends. */
  function Targets(data: seq<Row>): seq<nat>
  {
    TargetsFrom(data, 0)
  }

  /** The data rows after the rows listed in `done`, in that order, have had their beta flag set. */
  function Mark(data: seq<Row>, done: seq<nat>): (r: seq<Row>)
    ensures |r| == |data|
  {
    if done == [] then data
    else
      var m := Mark(data, done[..|done| - 1]);
      var k := done[|done| - 1];
      if k < |data| then m[k := m[k][BETA_SENT := YES]] else m
  }

  /** Row `k` after marking: its beta flag set exactly when `k` is listed. */
  lemma {:induction false} MarkedRow(data: seq<Row>, done: seq<nat>, k: nat)
    requires k < |data|
    ensures Mark(data, done)[k] == if k in done then data[k][BETA_SENT := YES] else data[k]
  {
    if done != [] {
      var prefix, last := done[..|done| - 1], done[|done| - 1];
      MarkedRow(data, prefix, k);
      assert done == prefix + [last];
      assert k in done <==> k in prefix || k == last;
    }
  }

  /**
   * Marking changes nothing but beta flags, and sets those to "Yes" on the
   * listed rows only: flags move from "No" to "Yes" and never back.
   */
  lemma MarkSetsOnlyBetaFlags(data: seq<Row>, done: seq<nat>)
    ensures forall k :: 0 <= k < |data| ==>
              Mark(data, done)[k][BETA_SENT] == if k in done then YES else data[k][BETA_SENT]
    ensures forall k, c :: 0 <= k < |data| && 0 <= c < WIDTH && c != BETA_SENT ==>
              Mark(data, done)[k][c] == data[k][c]
  {
    forall k | 0 <= k < |data|
      ensures Mark(data, done)[k] == if k in done then data[k][BETA_SENT := YES] else data[k]
    {
      MarkedRow(data, done, k);
    }
  }

  /** The download messages for the rows listed in `done` (those that exist), in that order. */
  function BetaMessages(data: seq<Row>, done: seq<nat>): seq<Message>
  {
    if done == [] then []
    else
      var k := done[|done| - 1];
      BetaMessages(data, done[..|done| - 1]) + if k < |data| then [MessageTo(data[k][EMAIL], BetaApk)] else []
  }

  /**
   * How many of `k` calls, starting with call number `start`, go through
   * before the first one that throws (`k` when none throws).
   */
  function Delivered(failing: set<nat>, start: nat, k: nat): (n: nat)
    ensures n <= k
    ensures forall a :: start <= a < start + n ==> a !in failing
    ensures n < k ==> start + n in failing
    decreases k
  {
    if k == 0 || start in failing then 0 else 1 + Delivered(failing, start + 1, k - 1)
  }

  /** Whether the `n` calls numbered from `start` on all go through. */
  predicate AllGoThrough(failing: set<nat>, start: nat, n: nat)
  {
    n == 0 || (AllGoThrough(failing, start, n - 1) && start + n - 1 !in failing)
  }

  /** `AllGoThrough` says that no call in the range throws. */
  lemma {:induction false} AllGoThroughIff(failing: set<nat>, start: nat, n: nat)
    ensures AllGoThrough(failing, start, n) <==> forall a :: start <= a < start + n ==> a !in failing
  {
    if n > 0 {
      AllGoThroughIff(failing, start, n - 1);
    }
  }

  /** How a sweep ended. */
  datatype SweepResult =
    | NoUsers                  // fewer than two sheet rows: nothing to read
    | Completed(sentCount: nat) // every eligible row was sent to
    | Aborted(error: Failure)   // a send threw and ended the sweep

  /**
   * sendBetaEmailsToAll. The sweep reads rows 2 to the last row once; the
   * data index `i` is sheet row `i + 2`. With `n` the number of sends that go
   * through before the first failure, exactly the first `n` eligible rows get
   * their beta flag set, in row order, and the rest of the sheet is as before.
   */
  method SendBetaEmailsToAll(sheet: Sheet, mailer: Mailer) returns (result: SweepResult)
    modifies sheet, mailer
    ensures |old(sheet.rows)| < 2 ==>
              && result == NoUsers
              && sheet.rows == old(sheet.rows)
              && mailer.attempts == old(mailer.attempts)
              && mailer.outbox == old(mailer.outbox)
    ensures |old(sheet.rows)| >= 2 ==>
              var data := old(sheet.rows)[1..];
              var t := Targets(data);
              var n := Delivered(mailer.failing, old(mailer.attempts), |t|);
              && sheet.rows == old(sheet.rows)[..1] + Mark(data, t[..n])
              && mailer.outbox == old(mailer.outbox) + BetaMessages(data, t[..n])
              && mailer.attempts == old(mailer.attempts) + (if n < |t| then n + 1 else n)
              && result == if n < |t| then Aborted(MailFailure) else Completed(n)
  {
    var lastRow := sheet.LastRow();
    if lastRow < 2 {
      return NoUsers;
    }
    var data := sheet.rows[1..];
    var sentCount, stop, ended := Walk(sheet, mailer, data);
    SweptIsMarked(data, stop);
    SweptMessagesAreBetaMessages(data, stop);
    if ended.Threw? {
      StoppedAt(data, stop, mailer.failing, old(mailer.attempts));
      return Aborted(ended.error);
    }
    FinishedAll(data, mailer.failing, old(mailer.attempts));
    return Completed(sentCount);
  }

  /**
   * The loop of sendBetaEmailsToAll over the data rows, data index `i` being
   * sheet row `i + 2`. It ends after the last row, or at row `stop` when the
   * send there throws; either way exactly the eligible rows above `stop` have
   * been sent to and marked, in row order.
   */
  method Walk(sheet: Sheet, mailer: Mailer, data: seq<Row>) returns (sentCount: nat, stop: nat, ended: Outcome)
    requires |sheet.rows| >= 1 && sheet.rows[1..] == data
    modifies sheet, mailer
    ensures stop <= |data| && sentCount == |Sent(data, stop)|
    ensures ended.Returned? ==> stop == |data|
    ensures ended.Threw? ==>
              && stop < |data| && Eligible(data[stop]) && ended.error == MailFailure
              && old(mailer.attempts) + sentCount in mailer.failing
    ensures AllGoThrough(mailer.failing, old(mailer.attempts), sentCount)
    ensures mailer.attempts == old(mailer.attempts) + sentCount + (if ended.Threw? then 1 else 0)
    ensures sheet.rows == old(sheet.rows)[..1] + Swept(data, stop)
    ensures mailer.outbox == old(mailer.outbox) + SweptMessages(data, stop)
  {
    sentCount := 0;
    ghost var header := sheet.rows[..1];
    ghost var start := mailer.attempts;
    assert Swept(data, 0) == data;
    for i := 0 to |data|
      invariant sentCount == |Sent(data, i)|
      invariant mailer.attempts == start + sentCount
      invariant AllGoThrough(mailer.failing, start, sentCount)
      invariant sheet.rows == header + Swept(data, i)
      invariant mailer.outbox == old(mailer.outbox) + SweptMessages(data, i)
    {
      if Eligible(data[i]) {
        var sent := SendRow(sheet, mailer, data, i, header, old(mailer.outbox));
        if sent.Threw? {
          return sentCount, i, sent;
        }
        sentCount := sentCount + 1;
      } else {
        SweptSkip(data, i);
      }
    }
    return sentCount, |data|, Returned;
  }

  /**
   * The body of the loop for an eligible row `i`: the download message to
   * its address and, once that has gone through, its beta flag set. The send
   * is one more call to the mail service; when it goes through, sheet and
   * outbox move from the state for the rows above `i` to the state for the
   * rows above `i + 1`, and a throw leaves both as they were.
   */
  method SendRow(sheet: Sheet, mailer: Mailer, data: seq<Row>, i: nat, ghost header: seq<Row>, ghost outbox: seq<Message>)
    returns (sent: Outcome)
    requires |header| == 1 && i < |data| && Eligible(data[i])
    requires sheet.rows == header + Swept(data, i)
    requires mailer.outbox == outbox + SweptMessages(data, i)
    modifies sheet, mailer
    ensures mailer.attempts == old(mailer.attempts) + 1
    ensures sent.Returned? <==> old(mailer.attempts) !in mailer.failing
    ensures sent.Threw? ==>
              && sent.error == MailFailure
              && sheet.rows == old(sheet.rows) && mailer.outbox == old(mailer.outbox)
    ensures sent.Returned? ==>
              && sheet.rows == header + Swept(data, i + 1)
              && mailer.outbox == outbox + SweptMessages(data, i + 1)
  {
    var email := data[i][EMAIL];
    assert Present(Some(email));
    ghost var rowsBefore, outboxBefore := sheet.rows, mailer.outbox;
    sent := SendBetaAPKEmail(Some(email), sheet, i + 2, mailer);
    if sent.Returned? {
      assert sheet.rows == SetCell(rowsBefore, i + 2, BETA_SENT + 1, YES);
      assert mailer.outbox == outboxBefore + [MessageTo(email, BetaApk)];
      SweptStep(header, data, i);
      assert outbox + SweptMessages(data, i + 1) == outbox + SweptMessages(data, i) + [MessageTo(email, BetaApk)];
    }
  }

  /** The indexes below `i` of the data rows the sweep sends to, in increasing order. */
  function Sent(data: seq<Row>, i: nat): seq<nat>
    requires i <= |data|
  {
    if i == 0 then []
    else Sent(data, i - 1) + (if Eligible(data[i - 1]) then [i - 1] else [])
  }

  /** The rows the sweep sends to split at any row `i`. */
  lemma {:induction false} SentThenTargets(data: seq<Row>, i: nat)
    requires i <= |data|
    ensures Targets(data) == Sent(data, i) + TargetsFrom(data, i)
  {
    if i > 0 {
      SentThenTargets(data, i - 1);
      var before, after := Sent(data, i - 1), TargetsFrom(data, i);
      if Eligible(data[i - 1]) {
        assert Sent(data, i) == before + [i - 1];
        assert TargetsFrom(data, i - 1) == [i - 1] + after;
        assert before + ([i - 1] + after) == (before + [i - 1]) + after;
      } else {
        assert Sent(data, i) == before;
      }
    }
  }

  /**
   * The data rows once the sweep has passed the rows above `i`: the beta
   * flag set on each eligible one among them.
   */
  function Swept(data: seq<Row>, i: nat): (r: seq<Row>)
    ensures |r| == |data|
  {
    seq(|data|, k requires 0 <= k < |data| => if k < i && Eligible(data[k]) then data[k][BETA_SENT := YES] else data[k])
  }

  /** Exactly the eligible rows above `i` are the rows the sweep has sent to. */
  lemma {:induction false} SentExactly(data: seq<Row>, i: nat)
    requires i <= |data|
    ensures forall k :: 0 <= k < |data| ==> (k in Sent(data, i) <==> k < i && Eligible(data[k]))
  {
    if i > 0 {
      SentExactly(data, i - 1);
      assert forall k :: k in Sent(data, i) <==> k in Sent(data, i - 1) || (k == i - 1 && Eligible(data[i - 1]));
    }
  }

  /** The messages the sweep has sent once it has passed the rows above `i`. */
  function SweptMessages(data: seq<Row>, i: nat): seq<Message>
    requires i <= |data|
  {
    if i == 0 then []
    else SweptMessages(data, i - 1) + (if Eligible(data[i - 1]) then [MessageTo(data[i - 1][EMAIL], BetaApk)] else [])
  }

  /** Passing the rows above `i` sends the download messages of exactly the rows sent to. */
  lemma {:induction false} SweptMessagesAreBetaMessages(data: seq<Row>, i: nat)
    requires i <= |data|
    ensures SweptMessages(data, i) == BetaMessages(data, Sent(data, i))
  {
    if i > 0 {
      SweptMessagesAreBetaMessages(data, i - 1);
      if Eligible(data[i - 1]) {
        MessagesStep([], data, Sent(data, i - 1), i - 1);
      } else {
        assert Sent(data, i) == Sent(data, i - 1);
      }
    }
  }

  /** Passing the rows above `i` marks exactly the rows sent to. */
  lemma SweptIsMarked(data: seq<Row>, i: nat)
    requires i <= |data|
    ensures Swept(data, i) == Mark(data, Sent(data, i))
  {
    SentExactly(data, i);
    forall k | 0 <= k < |data|
      ensures Swept(data, i)[k] == Mark(data, Sent(data, i))[k]
    {
      MarkedRow(data, Sent(data, i), k);
    }
  }

  /** Setting the beta flag of sheet row `i + 2` takes the sweep past the eligible row `i`. */
  lemma SweptStep(header: seq<Row>, data: seq<Row>, i: nat)
    requires |header| == 1 && i < |data| && Eligible(data[i])
    ensures SetCell(header + Swept(data, i), i + 2, BETA_SENT + 1, YES) == header + Swept(data, i + 1)
  {
    var m := Swept(data, i);
    var row := data[i][BETA_SENT := YES];
    assert Swept(data, i + 1) == m[i := row];
    assert (header + m)[i + 1] == m[i];
    UpdateBelowHeader(header, m, i, row);
  }

  /** Passing a row that is not eligible changes nothing. */
  lemma SweptSkip(data: seq<Row>, i: nat)
    requires i < |data| && !Eligible(data[i])
    ensures Swept(data, i + 1) == Swept(data, i)
  {
    assert forall k :: 0 <= k < |data| ==> Swept(data, i + 1)[k] == Swept(data, i)[k];
  }

  /** Updating the element after a one-element header updates the rest. */
  lemma UpdateBelowHeader<T>(header: seq<T>, m: seq<T>, i: nat, x: T)
    requires |header| == 1 && i < |m|
    ensures (header + m)[i + 1 := x] == header + m[i := x]
  {
  }

  /** The message to row `i` follows those already sent. */
  lemma MessagesStep(sent: seq<Message>, data: seq<Row>, done: seq<nat>, i: nat)
    requires i < |data|
    ensures sent + BetaMessages(data, done) + [MessageTo(data[i][EMAIL], BetaApk)] == sent + BetaMessages(data, done + [i])
  {
    assert (done + [i])[..|done|] == done;
    assert BetaMessages(data, done + [i]) == BetaMessages(data, done) + [MessageTo(data[i][EMAIL], BetaApk)];
  }

  /** Where a sweep whose send to row `i` threw stands against its specification. */
  lemma StoppedAt(data: seq<Row>, i: nat, failing: set<nat>, start: nat)
    requires i < |data| && Eligible(data[i])
    requires AllGoThrough(failing, start, |Sent(data, i)|)
    requires start + |Sent(data, i)| in failing
    ensures var t := Targets(data); var done := Sent(data, i);
            Delivered(failing, start, |t|) == |done| < |t| && t[..|done|] == done
  {
    var t := Targets(data);
    var done := Sent(data, i);
    SentThenTargets(data, i);
    var rest := TargetsFrom(data, i + 1);
    assert TargetsFrom(data, i) == [i] + rest;
    assert t == done + ([i] + rest);
    assert t[..|done|] == done;
    DeliveredUpTo(failing, start, |done|, |t|);
  }

  /** Where a sweep that reached the last row stands against its specification. */
  lemma FinishedAll(data: seq<Row>, failing: set<nat>, start: nat)
    requires AllGoThrough(failing, start, |Sent(data, |data|)|)
    ensures var t := Targets(data); var done := Sent(data, |data|);
            Delivered(failing, start, |t|) == |done| == |t| && t[..|done|] == done
  {
    SentThenTargets(data, |data|);
    assert TargetsFrom(data, |data|) == [];
    var t := Targets(data);
    assert t[..|t|] == t;
    DeliveredUpTo(failing, start, |t|, |t|);
  }

  /** `Delivered` counts exactly the calls that go through before the first failure. */
  lemma DeliveredUpTo(failing: set<nat>, start: nat, n: nat, k: nat)
    requires n <= k
    requires AllGoThrough(failing, start, n)
    requires n < k ==> start + n in failing
    ensures Delivered(failing, start, k) == n
  {
    AllGoThroughIff(failing, start, n);
  }

  /** `xs` without the elements listed in `drop`, order kept. */
  function Without(xs: seq<nat>, drop: seq<nat>): (r: seq<nat>)
    ensures forall x :: x in r <==> x in xs && x !in drop
  {
    if xs == [] then []
    else if xs[0] in drop then Without(xs[1..], drop)
    else [xs[0]] + Without(xs[1..], drop)
  }

  /** Marking rows makes the sweep skip exactly those rows from then on. */
  lemma {:induction false} TargetsAfterMark(data: seq<Row>, done: seq<nat>, i: nat)
    requires i <= |data|
    ensures TargetsFrom(Mark(data, done), i) == Without(TargetsFrom(data, i), done)
    decreases |data| - i
  {
    if i < |data| {
      TargetsAfterMark(data, done, i + 1);
      MarkedRow(data, done, i);
      var marked := Mark(data, done);
      assert Eligible(marked[i]) <==> Eligible(data[i]) && i !in done;
      var tail := TargetsFrom(data, i + 1);
      if Eligible(data[i]) {
        assert TargetsFrom(data, i) == [i] + tail;
        assert ([i] + tail)[0] == i && ([i] + tail)[1..] == tail;
      }
    }
  }

  /** Dropping the elements that occupy the first `n` positions of `xs` leaves its suffix. */
  lemma {:induction false} WithoutPrefix(xs: seq<nat>, drop: seq<nat>, n: nat)
    requires n <= |xs|
    requires forall j :: 0 <= j < |xs| ==> (xs[j] in drop <==> j < n)
    ensures Without(xs, drop) == xs[n..]
  {
    if xs != [] {
      if n > 0 {
        WithoutPrefix(xs[1..], drop, n - 1);
      } else {
        WithoutPrefix(xs[1..], drop, 0);
      }
    }
  }

  /**
   * Running the sweep again after `n` rows were marked sends to the
   * remaining eligible rows only, in the same order: a sweep that stopped on
   * a failure resumes where it stopped.
   */
  lemma SweepResumes(data: seq<Row>, n: nat)
    requires n <= |Targets(data)|
    ensures Targets(Mark(data, Targets(data)[..n])) == Targets(data)[n..]
  {
    var t := Targets(data);
    TargetsFromOrdered(data, 0);
    TargetsAfterMark(data, t[..n], 0);
    forall j | 0 <= j < |t|
      ensures t[j] in t[..n] <==> j < n
    {
      if t[j] in t[..n] {
        var m :| 0 <= m < n && t[..n][m] == t[j];
        assert m == j;
      }
    }
    WithoutPrefix(t, t[..n], n);
  }

  /** After a sweep that completes, a second sweep sends nothing. */
  lemma SweepIsIdempotent(data: seq<Row>)
    ensures Targets(Mark(data, Targets(data))) == []
  {
    var t := Targets(data);
    SweepResumes(data, |t|);
    assert t[..|t|] == t;
  }
}
