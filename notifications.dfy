/**
 * The two senders, sendWelcomeEmail and sendBetaAPKEmail. Each skips an
 * absent or empty address without a word, otherwise calls the mail service,
 * and only once that call has returned marks the given row's flag cell
 * "Yes". A failure of the mail service is passed on to the caller.
 */
module Notifications {
  import opened Sheets
  import opened Mail

  datatype Option<T> = None | Some(value: T)

  /** What an exception thrown inside the script stands for. */
  datatype Failure =
    | ParseFailure  // the request body is not a JSON object
    | MailFailure   // the mail service threw

  /** How a call returned: normally, or by an exception. */
  datatype Outcome = Returned | Threw(error: Failure)

  /**
   * Whether an email argument is truthy: a JSON field that is absent is
   * `undefined`, and both it and the empty string are falsy.
   */
  predicate Present(email: Option<string>)
  {
    email.Some? && email.value != ""
  }

  /** sendWelcomeEmail: the welcome message, marking the welcome flag. */
  method SendWelcomeEmail(email: Option<string>, sheet: Sheet?, rowNumber: nat, mailer: Mailer)
    returns (o: Outcome)
    requires sheet != null && rowNumber != 0 ==> rowNumber <= |sheet.rows|
    modifies mailer, sheet
    ensures !Present(email) ==> o == Returned && unchanged(mailer)
    ensures Present(email) ==>
              && mailer.attempts == old(mailer.attempts) + 1
              && (o.Returned? <==> old(mailer.attempts) !in mailer.failing)
              && (o.Threw? ==> o.error == MailFailure)
              && mailer.outbox == if o.Returned? then old(mailer.outbox) + [MessageTo(email.value, Welcome)] else old(mailer.outbox)
    ensures sheet != null ==>
              sheet.rows == if Present(email) && o.Returned? && rowNumber != 0
                            then SetCell(old(sheet.rows), rowNumber, WELCOME_SENT + 1, YES)
                            else old(sheet.rows)
  {
    if !Present(email) {
      return Returned;
    }
    var ok := mailer.Send(MessageTo(email.value, Welcome));
    if !ok {
      return Threw(MailFailure);
    }
    if sheet != null && rowNumber != 0 {
      sheet.SetValue(rowNumber, WELCOME_SENT + 1, YES);
    }
    return Returned;
  }

  /** sendBetaAPKEmail: the download message, marking the beta flag. */
  method SendBetaAPKEmail(email: Option<string>, sheet: Sheet?, rowNumber: nat, mailer: Mailer)
    returns (o: Outcome)
    requires sheet != null && rowNumber != 0 ==> rowNumber <= |sheet.rows|
    modifies mailer, sheet
    ensures !Present(email) ==> o == Returned && unchanged(mailer)
    ensures Present(email) ==>
              && mailer.attempts == old(mailer.attempts) + 1
              && (o.Returned? <==> old(mailer.attempts) !in mailer.failing)
              && (o.Threw? ==> o.error == MailFailure)
              && mailer.outbox == if o.Returned? then old(mailer.outbox) + [MessageTo(email.value, BetaApk)] else old(mailer.outbox)
    ensures sheet != null ==>
              sheet.rows == if Present(email) && o.Returned? && rowNumber != 0
                            then SetCell(old(sheet.rows), rowNumber, BETA_SENT + 1, YES)
                            else old(sheet.rows)
  {
    if !Present(email) {
      return Returned;
    }
    var ok := mailer.Send(MessageTo(email.value, BetaApk));
    if !ok {
      return Threw(MailFailure);
    }
    if sheet != null && rowNumber != 0 {
      sheet.SetValue(rowNumber, BETA_SENT + 1, YES);
    }
    return Returned;
  }
}
