/**
 * The mail service the script sends through, seen from the script: every
 * call either delivers one message or throws. Whether a call throws is not
 * under the script's control (quota, bad address, service outage), so the
 * mailer is an oracle fixed in advance: the set of call numbers that throw.
 * Any run makes finitely many calls, so a finite set describes every pattern
 * of failures a run can meet.
 */
module Mail {

  /** Reply-to address every message carries. */
  const REPLY_TO := "frank.builds08@gmail.com"
  /** Display name every message is sent under. */
  const SENDER_NAME := "RHYDLE Team"

  /** The two messages the script sends; subject and body are fixed per kind. */
  datatype Template = Welcome | BetaApk

  /** One call to the mail service: recipient, template, reply-to and sender name. */
  datatype Message = Message(to: string, template: Template, replyTo: string, name: string)

  /** The message of kind `template` addressed to `to`. */
  function MessageTo(to: string, template: Template): Message
  {
    Message(to, template, REPLY_TO, SENDER_NAME)
  }

  class Mailer {
    /** The oracle: the numbers of the calls that throw. */
    const failing: set<nat>
    /** The number of calls made so far. */
    var attempts: nat
    /** Every message delivered so far, in order. */
    var outbox: seq<Message>

    constructor (failing: set<nat>)
      ensures this.failing == failing && attempts == 0 && outbox == []
    {
      this.failing := failing;
      attempts := 0;
      outbox := [];
    }

    /** One call to the mail service; `ok` is false when the call throws. */
    method Send(m: Message) returns (ok: bool)
      modifies this
      ensures ok == (old(attempts) !in failing)
      ensures attempts == old(attempts) + 1
      ensures outbox == if ok then old(outbox) + [m] else old(outbox)
    {
      ok := attempts !in failing;
      attempts := attempts + 1;
      if ok {
        outbox := outbox + [m];
      }
    }
  }
}
