/**
 * The two bots side by side.  Started with the same allow-list and asked about
 * the same outcome, they reply alike, except to a photo whose analysis came back
 * empty: the module-level bot apologises, the class-based bot sends the empty text.
 */
module Versions {
  import opened Wrappers
  import Analysis
  import Notices
  import BotV2
  import Bot

  lemma SameTextReplies(bot: Bot.PodcastHelperBot, userId: int, outcome: Analysis.Outcome)
    ensures bot.TextReplies(userId, outcome) == BotV2.TextReplies(userId, bot.allowedUserIds, outcome)
  {
  }

  lemma PhotoRepliesDifferOnlyWhenEmpty(bot: Bot.PodcastHelperBot, userId: int, outcome: Option<Analysis.Outcome>)
    ensures outcome != Some(Analysis.Content("")) ==>
              bot.PhotoReplies(userId, outcome) == BotV2.PhotoReplies(userId, bot.allowedUserIds, outcome)
    ensures outcome == Some(Analysis.Content("")) && bot.IsUserAllowed(userId) ==>
              && bot.PhotoReplies(userId, outcome) == [Notices.PhotoAck, ""]
              && BotV2.PhotoReplies(userId, bot.allowedUserIds, outcome) == [Notices.PhotoAck, Notices.PhotoApology]
  {
  }
}
