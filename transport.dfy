/**
 * The conversation a handler replies into.  Every `reply_text` call of a
 * handler appends one message to `sent`; delivery itself (the Telegram API,
 * its size limit and its failures) is outside the model.
 */
module Transport {
  class Chat {
    /** The messages replied so far, oldest first. */
    var sent: seq<string>

    constructor()
      ensures sent == []
    {
      sent := [];
    }

    /** `update.message.reply_text(text)`. */
    method Reply(text: string)
      modifies this
      ensures sent == old(sent) + [text]
    {
      sent := sent + [text];
    }
  }
}
