/**
 * The module-level bot: free handler functions that find the allow-list and the
 * analysis client in the application's shared data.  Here they are passed in.
 * Each handler replies into a `Chat`; which replies it sends is stated first as
 * a function of the user, the allow-list and the analysis outcome, then the
 * handler is proved to send exactly those.
 */
module BotV2 {
  import opened Wrappers
  import Strings
  import Numerals
  import AccessGuard
  import Chunker
  import Transport
  import Analysis
  import Notices

  /** Telegram's limit on the length of one message. */
  const MaxMessageLength: nat := 4096

  /** What follows the acknowledgement of a transcript: the analysis, or the apology
      when the call raised or the response had no content. */
  function TextReplies(userId: int, allowedUserIds: set<int>, outcome: Analysis.Outcome): seq<string>
  {
    if !AccessGuard.IsUserAllowed(userId, allowedUserIds) then [Notices.Denial(userId)]
    else
      [Notices.TextAck] + match outcome
        case Content(analysis) => Chunker.Replies(analysis, MaxMessageLength)
        case _ => [Notices.TextApology]
  }

  /** The replies to a photo.  `outcome` is `None` when fetching the photo raised
      before the model was asked; an empty analysis counts as none (`if analysis:`). */
  function PhotoReplies(userId: int, allowedUserIds: set<int>, outcome: Option<Analysis.Outcome>): seq<string>
  {
    if !AccessGuard.IsUserAllowed(userId, allowedUserIds) then [Notices.Denial(userId)]
    else
      [Notices.PhotoAck] + match outcome
        case Some(Content(analysis)) =>
          if analysis != "" then Chunker.Replies(analysis, MaxMessageLength) else [Notices.PhotoApology]
        case _ => [Notices.PhotoApology]
  }

  /** The reply to `/start` or `/help`: the command's text, or the denial. */
  function CommandReplies(userId: int, allowedUserIds: set<int>, text: string): seq<string>
  {
    if AccessGuard.IsUserAllowed(userId, allowedUserIds) then [text] else [Notices.Denial(userId)]
  }

  // ---------------------------------------------------------------------------
  // The handlers.

  /** `_send_long_message` at the bot's limit. */
  method SendLongMessage(chat: Transport.Chat, text: string)
    modifies chat
    ensures chat.sent == old(chat.sent) + Chunker.Replies(text, MaxMessageLength)
  {
    Chunker.SendLongMessage(chat, text, MaxMessageLength);
  }

  method StartCommand(chat: Transport.Chat, allowedUserIds: set<int>, userId: int)
    modifies chat
    ensures chat.sent == old(chat.sent) + CommandReplies(userId, allowedUserIds, Notices.Welcome)
  {
    if !AccessGuard.IsUserAllowed(userId, allowedUserIds) {
      chat.Reply(Notices.Denial(userId));
      return;
    }
    chat.Reply(Notices.Welcome);
  }

  method HelpCommand(chat: Transport.Chat, allowedUserIds: set<int>, userId: int)
    modifies chat
    ensures chat.sent == old(chat.sent) + CommandReplies(userId, allowedUserIds, Notices.HelpText)
  {
    if !AccessGuard.IsUserAllowed(userId, allowedUserIds) {
      chat.Reply(Notices.Denial(userId));
      return;
    }
    chat.Reply(Notices.HelpText);
  }

  /** `handle_text`: a message without text is ignored before the user is checked; the
      model is asked only on behalf of an allowed user. */
  method HandleText(chat: Transport.Chat, client: Analysis.AnalysisClient, allowedUserIds: set<int>,
                    userId: int, text: Option<string>)
    modifies chat, client
    ensures text.None? ==> chat.sent == old(chat.sent)
    ensures text.Some? ==>
              chat.sent == old(chat.sent) + TextReplies(userId, allowedUserIds, client.answer(Analysis.TextRequest(text.value)))
    ensures client.requests == old(client.requests) +
              if text.Some? && AccessGuard.IsUserAllowed(userId, allowedUserIds) then [Analysis.TextRequest(text.value)] else []
  {
    if text.None? {
      return;
    }
    var userText := text.value;
    if !AccessGuard.IsUserAllowed(userId, allowedUserIds) {
      chat.Reply(Notices.Denial(userId));
      return;
    }
    ghost var before := chat.sent;
    chat.Reply(Notices.TextAck);
    var analysis := client.Analyze(Analysis.TextRequest(userText));
    if analysis.Content? {
      SendLongMessage(chat, analysis.text);
      Strings.AppendAssoc(before, [Notices.TextAck], Chunker.Replies(analysis.text, MaxMessageLength));
    } else {
      chat.Reply(Notices.TextApology);
      Strings.AppendAssoc(before, [Notices.TextAck], [Notices.TextApology]);
    }
  }

  /** `handle_photo`: `image` is the largest size of the photo as downloaded, `None`
      when fetching it raised. */
  method HandlePhoto(chat: Transport.Chat, client: Analysis.AnalysisClient, allowedUserIds: set<int>,
                     userId: int, image: Option<seq<bv8>>)
    modifies chat, client
    ensures chat.sent == old(chat.sent) +
              PhotoReplies(userId, allowedUserIds, if image.Some? then Some(client.answer(Analysis.ImageRequest(image.value))) else None)
    ensures client.requests == old(client.requests) +
              if image.Some? && AccessGuard.IsUserAllowed(userId, allowedUserIds) then [Analysis.ImageRequest(image.value)] else []
  {
    if !AccessGuard.IsUserAllowed(userId, allowedUserIds) {
      chat.Reply(Notices.Denial(userId));
      return;
    }
    ghost var before := chat.sent;
    chat.Reply(Notices.PhotoAck);
    if image.None? {
      chat.Reply(Notices.PhotoApology);
      Strings.AppendAssoc(before, [Notices.PhotoAck], [Notices.PhotoApology]);
      return;
    }
    var analysis := client.Analyze(Analysis.ImageRequest(image.value));
    if analysis.Content? && analysis.text != "" {
      SendLongMessage(chat, analysis.text);
      Strings.AppendAssoc(before, [Notices.PhotoAck], Chunker.Replies(analysis.text, MaxMessageLength));
    } else {
      chat.Reply(Notices.PhotoApology);
      Strings.AppendAssoc(before, [Notices.PhotoAck], [Notices.PhotoApology]);
    }
  }

  // ---------------------------------------------------------------------------
  // What the replies promise.

  /** A user not on the allow-list gets exactly one reply, the denial, which ends in
      their id; what the model would have answered plays no part. */
  lemma UnauthorizedDenied(userId: int, allowedUserIds: set<int>, outcome: Analysis.Outcome, photo: Option<Analysis.Outcome>)
    requires !AccessGuard.IsUserAllowed(userId, allowedUserIds)
    ensures TextReplies(userId, allowedUserIds, outcome) == [Notices.Denial(userId)]
    ensures PhotoReplies(userId, allowedUserIds, photo) == [Notices.Denial(userId)]
    ensures CommandReplies(userId, allowedUserIds, Notices.Welcome) == [Notices.Denial(userId)]
    ensures CommandReplies(userId, allowedUserIds, Notices.HelpText) == [Notices.Denial(userId)]
    ensures var d := Notices.Denial(userId);
            d[..|Notices.DenialPrefix|] == Notices.DenialPrefix
            && Numerals.ParseInt(d[|Notices.DenialPrefix|..]) == Some(userId)
  {
    Notices.DenialNamesUser(userId);
  }

  /** An allowed user is acknowledged first; then comes either the analysis, as
      `send_long_message` sends it, or the one apology. */
  lemma AuthorizedTextReplies(userId: int, allowedUserIds: set<int>, outcome: Analysis.Outcome)
    requires AccessGuard.IsUserAllowed(userId, allowedUserIds)
    ensures var r := TextReplies(userId, allowedUserIds, outcome);
            && |r| >= 1 && r[0] == Notices.TextAck
            && (outcome.Content? ==> r[1..] == Chunker.Replies(outcome.text, MaxMessageLength))
            && (!outcome.Content? ==> r[1..] == [Notices.TextApology])
  {
    var r := TextReplies(userId, allowedUserIds, outcome);
    var rest := if outcome.Content? then Chunker.Replies(outcome.text, MaxMessageLength) else [Notices.TextApology];
    assert r == [Notices.TextAck] + rest;
    assert r[1..] == rest;
  }

  /** The same for a photo; an empty analysis is answered with the apology too. */
  lemma AuthorizedPhotoReplies(userId: int, allowedUserIds: set<int>, outcome: Option<Analysis.Outcome>)
    requires AccessGuard.IsUserAllowed(userId, allowedUserIds)
    ensures var r := PhotoReplies(userId, allowedUserIds, outcome);
            && |r| >= 1 && r[0] == Notices.PhotoAck
            && (outcome.Some? && outcome.value.Content? && outcome.value.text != "" ==>
                  r[1..] == Chunker.Replies(outcome.value.text, MaxMessageLength))
            && (!(outcome.Some? && outcome.value.Content? && outcome.value.text != "") ==>
                  r[1..] == [Notices.PhotoApology])
  {
    var r := PhotoReplies(userId, allowedUserIds, outcome);
    var delivered := outcome.Some? && outcome.value.Content? && outcome.value.text != "";
    var rest := if delivered then Chunker.Replies(outcome.value.text, MaxMessageLength) else [Notices.PhotoApology];
    assert r == [Notices.PhotoAck] + rest;
    assert r[1..] == rest;
  }

  /** The apology does not depend on the error: two exceptions with different
      messages, and a response without content, get the same replies. */
  lemma ApologyHidesError(userId: int, allowedUserIds: set<int>, e1: string, e2: string)
    ensures TextReplies(userId, allowedUserIds, Analysis.Raised(e1)) == TextReplies(userId, allowedUserIds, Analysis.Raised(e2))
    ensures TextReplies(userId, allowedUserIds, Analysis.Raised(e1)) == TextReplies(userId, allowedUserIds, Analysis.NoContent)
    ensures PhotoReplies(userId, allowedUserIds, Some(Analysis.Raised(e1))) == PhotoReplies(userId, allowedUserIds, Some(Analysis.Raised(e2)))
    ensures PhotoReplies(userId, allowedUserIds, Some(Analysis.Raised(e1))) == PhotoReplies(userId, allowedUserIds, None)
    ensures PhotoReplies(userId, allowedUserIds, Some(Analysis.Content(""))) == PhotoReplies(userId, allowedUserIds, None)
  {
  }

  /** A long analysis reaches an allowed user as numbered messages that read back as
      parts of at most 4096 characters, in order, holding every character of the
      analysis other than its newlines. */
  lemma LongAnalysisDelivered(userId: int, allowedUserIds: set<int>, analysis: string)
    requires AccessGuard.IsUserAllowed(userId, allowedUserIds)
    requires |analysis| > MaxMessageLength && |Chunker.LongParts(analysis, MaxMessageLength)| > 1
    ensures var r := TextReplies(userId, allowedUserIds, Analysis.Content(analysis));
            var parts := Chunker.LongParts(analysis, MaxMessageLength);
            && |r| == |parts| + 1 && r[0] == Notices.TextAck
            && (forall k :: 1 <= k < |r| ==>
                  Chunker.ParseNumbered(r[k]) == Some(Chunker.Numbering(k, |parts|, parts[k - 1]))
                  && 0 < |parts[k - 1]| <= MaxMessageLength)
            && Strings.Erase(Strings.Concat(parts), '\n') == Strings.Erase(analysis, '\n')
  {
    var parts := Chunker.LongParts(analysis, MaxMessageLength);
    var r := TextReplies(userId, allowedUserIds, Analysis.Content(analysis));
    var numbered := Chunker.Numbered(parts);
    AuthorizedTextReplies(userId, allowedUserIds, Analysis.Content(analysis));
    assert Chunker.Replies(analysis, MaxMessageLength) == numbered;
    assert r[1..] == numbered;
    Chunker.NumberedDecodes(parts);
    Chunker.PartsWithinLimit(analysis, MaxMessageLength);
    Chunker.PartsKeepText(analysis, MaxMessageLength);
    forall k | 1 <= k < |r|
      ensures Chunker.ParseNumbered(r[k]) == Some(Chunker.Numbering(k, |parts|, parts[k - 1]))
    {
      assert r[k] == r[1..][k - 1];
    }
  }
}
