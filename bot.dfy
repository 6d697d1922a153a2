/**
 * The class-based bot: a `PodcastHelperBot` holds the allow-list it was started
 * with and its analysis client.  Neither is reassigned after start-up, so both are
 * `const` here.  Its handlers differ from the module-level bot's in two ways: a
 * message is never checked for missing text, and a photo analysis is sent
 * whenever the model produced content, even empty content.
 */
module Bot {
  import opened Wrappers
  import Strings
  import Numerals
  import AccessGuard
  import AllowList
  import Chunker
  import Transport
  import Analysis
  import Notices

  class PodcastHelperBot {
    /** Telegram's limit on the length of one message. */
    static const MaxMessageLength: nat := 4096

    const allowedUserIds: set<int>
    const client: Analysis.AnalysisClient

    constructor(allowedUserIds: set<int>, client: Analysis.AnalysisClient)
      ensures this.allowedUserIds == allowedUserIds && this.client == client
    {
      this.allowedUserIds := allowedUserIds;
      this.client := client;
    }

    /** `is_user_allowed`: everyone when the allow-list is empty. */
    predicate IsUserAllowed(userId: int)
    {
      AccessGuard.IsUserAllowed(userId, allowedUserIds)
    }

    /** The replies to a transcript.  A response without content reaches
        `send_long_message` as `None`, whose `len` raises: the apology follows. */
    function TextReplies(userId: int, outcome: Analysis.Outcome): seq<string>
    {
      if !IsUserAllowed(userId) then [Notices.Denial(userId)]
      else
        [Notices.TextAck] + match outcome
          case Content(analysis) => Chunker.Replies(analysis, MaxMessageLength)
          case _ => [Notices.TextApology]
    }

    /** The replies to a photo; `outcome` is `None` when fetching the photo raised. */
    function PhotoReplies(userId: int, outcome: Option<Analysis.Outcome>): seq<string>
    {
      if !IsUserAllowed(userId) then [Notices.Denial(userId)]
      else
        [Notices.PhotoAck] + match outcome
          case Some(Content(analysis)) => Chunker.Replies(analysis, MaxMessageLength)
          case _ => [Notices.PhotoApology]
    }

    /** The reply to `/start` or `/help`. */
    function CommandReplies(userId: int, text: string): seq<string>
    {
      if IsUserAllowed(userId) then [text] else [Notices.Denial(userId)]
    }

    /** `send_long_message` at the class's limit. */
    method SendLongMessage(chat: Transport.Chat, text: string)
      modifies chat
      ensures chat.sent == old(chat.sent) + Chunker.Replies(text, MaxMessageLength)
    {
      Chunker.SendLongMessage(chat, text, MaxMessageLength);
    }

    method StartCommand(chat: Transport.Chat, userId: int)
      modifies chat
      ensures chat.sent == old(chat.sent) + CommandReplies(userId, Notices.Welcome)
    {
      if !IsUserAllowed(userId) {
        chat.Reply(Notices.Denial(userId));
        return;
      }
      chat.Reply(Notices.Welcome);
    }

    method HelpCommand(chat: Transport.Chat, userId: int)
      modifies chat
      ensures chat.sent == old(chat.sent) + CommandReplies(userId, Notices.HelpText)
    {
      if !IsUserAllowed(userId) {
        chat.Reply(Notices.Denial(userId));
        return;
      }
      chat.Reply(Notices.HelpText);
    }

    /** `handle_text`: the model is asked only on behalf of an allowed user. */
    method HandleText(chat: Transport.Chat, userId: int, text: string)
      modifies chat, client
      ensures chat.sent == old(chat.sent) + TextReplies(userId, client.answer(Analysis.TextRequest(text)))
      ensures client.requests == old(client.requests) + if IsUserAllowed(userId) then [Analysis.TextRequest(text)] else []
    {
      if !IsUserAllowed(userId) {
        chat.Reply(Notices.Denial(userId));
        return;
      }
      ghost var before := chat.sent;
      chat.Reply(Notices.TextAck);
      var analysis := client.Analyze(Analysis.TextRequest(text));
      if analysis.Content? {
        SendLongMessage(chat, analysis.text);
        Strings.AppendAssoc(before, [Notices.TextAck], Chunker.Replies(analysis.text, MaxMessageLength));
      } else {
        chat.Reply(Notices.TextApology);
        Strings.AppendAssoc(before, [Notices.TextAck], [Notices.TextApology]);
      }
    }

    /** `handle_photo`: `image` is the largest size of the photo as downloaded, `None`
        when fetching it raised. */
    method HandlePhoto(chat: Transport.Chat, userId: int, image: Option<seq<bv8>>)
      modifies chat, client
      ensures chat.sent == old(chat.sent) +
                PhotoReplies(userId, if image.Some? then Some(client.answer(Analysis.ImageRequest(image.value))) else None)
      ensures client.requests == old(client.requests) +
                if image.Some? && IsUserAllowed(userId) then [Analysis.ImageRequest(image.value)] else []
    {
      if !IsUserAllowed(userId) {
        chat.Reply(Notices.Denial(userId));
        return;
      }
      ghost var before := chat.sent;
      chat.Reply(Notices.PhotoAck);
      if image.None? {
        chat.Reply(Notices.PhotoApology);
        Strings.AppendAssoc(before, [Notices.PhotoAck], [Notices.PhotoApology]);
        return;
      }
      var analysis := client.Analyze(Analysis.ImageRequest(image.value));
      if analysis.Content? {
        SendLongMessage(chat, analysis.text);
        Strings.AppendAssoc(before, [Notices.PhotoAck], Chunker.Replies(analysis.text, MaxMessageLength));
      } else {
        chat.Reply(Notices.PhotoApology);
        Strings.AppendAssoc(before, [Notices.PhotoAck], [Notices.PhotoApology]);
      }
    }

    /** A user not on the allow-list gets exactly one reply, the denial, which ends in
        their id; what the model would have answered plays no part. */
    lemma UnauthorizedDenied(userId: int, outcome: Analysis.Outcome, photo: Option<Analysis.Outcome>)
      requires !IsUserAllowed(userId)
      ensures TextReplies(userId, outcome) == [Notices.Denial(userId)]
      ensures PhotoReplies(userId, photo) == [Notices.Denial(userId)]
      ensures CommandReplies(userId, Notices.Welcome) == [Notices.Denial(userId)]
      ensures CommandReplies(userId, Notices.HelpText) == [Notices.Denial(userId)]
      ensures var d := Notices.Denial(userId);
              d[..|Notices.DenialPrefix|] == Notices.DenialPrefix
              && Numerals.ParseInt(d[|Notices.DenialPrefix|..]) == Some(userId)
    {
      Notices.DenialNamesUser(userId);
    }

    /** An allowed user is acknowledged first; then comes either the analysis, as
        `send_long_message` sends it, or the one apology. */
    lemma AuthorizedTextReplies(userId: int, outcome: Analysis.Outcome)
      requires IsUserAllowed(userId)
      ensures var r := TextReplies(userId, outcome);
              && |r| >= 1 && r[0] == Notices.TextAck
              && (outcome.Content? ==> r[1..] == Chunker.Replies(outcome.text, MaxMessageLength))
              && (!outcome.Content? ==> r[1..] == [Notices.TextApology])
    {
      var r := TextReplies(userId, outcome);
      var rest := if outcome.Content? then Chunker.Replies(outcome.text, MaxMessageLength) else [Notices.TextApology];
      assert r == [Notices.TextAck] + rest;
      assert r[1..] == rest;
    }

    /** The apology does not depend on the error, and a response without content gets
        it too; empty content, unlike in the module-level bot, is sent as it is. */
    lemma PhotoApologyHidesError(userId: int, e1: string, e2: string)
      requires IsUserAllowed(userId)
      ensures PhotoReplies(userId, Some(Analysis.Raised(e1))) == PhotoReplies(userId, Some(Analysis.Raised(e2)))
      ensures PhotoReplies(userId, Some(Analysis.Raised(e1))) == [Notices.PhotoAck, Notices.PhotoApology]
      ensures PhotoReplies(userId, Some(Analysis.NoContent)) == [Notices.PhotoAck, Notices.PhotoApology]
      ensures PhotoReplies(userId, None) == [Notices.PhotoAck, Notices.PhotoApology]
      ensures PhotoReplies(userId, Some(Analysis.Content(""))) == [Notices.PhotoAck, ""]
    {
    }
  }

  /** `PodcastHelperBot()`: start-up fails on a missing token or a bad allow-list entry;
      otherwise the bot holds the parsed allow-list. */
  method NewBot(token: Option<string>, allowedIds: Option<string>, client: Analysis.AnalysisClient)
    returns (r: Result<PodcastHelperBot, AllowList.InitError>)
    ensures var loaded := AllowList.LoadAllowedUserIds(token, allowedIds);
            && (r.Success? <==> loaded.Success?)
            && (r.Failure? ==> r.error == loaded.error)
            && (r.Success? ==> fresh(r.value) && r.value.allowedUserIds == loaded.value && r.value.client == client)
  {
    match AllowList.LoadAllowedUserIds(token, allowedIds)
    case Failure(e) =>
      r := Failure(e);
    case Success(ids) =>
      var bot := new PodcastHelperBot(ids, client);
      r := Success(bot);
  }
}
