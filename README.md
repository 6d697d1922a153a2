# podcast-helper in Dafny

A model of the Telegram bot of podcast-helper, which analyses podcast transcripts
sent as text or as a photo. The repository has two versions of the bot:
`pkg/bot_v2.py`, with module-level handler functions, and `pkg/bot.py`, with a
`PodcastHelperBot` class. Both versions rely on the same four pieces of logic, and
the model covers all four:

- **The message chunker** (`send_long_message`). A reply longer than Telegram's
  limit of 4096 characters is split at newlines. The lines are packed greedily
  into parts, and a line over the limit is cut into 4096-character slices. When
  there are several parts, each is sent behind an `[i/n]` header. The algorithm
  is written once, in `Chunker`, for any positive limit. Both bots use it with
  4096. The packing loop is an imperative method (`Chunker.SplitParts`), proved
  equal to the specification function `Chunker.LongParts`. That function is then
  proved to keep every part within the limit, to keep the text's lines in order,
  and to lose no character other than a newline.
- **The access guard.** An empty allow-list admits everyone. Otherwise only the
  listed user ids are admitted.
- **The allow-list parser.** `ALLOWED_USER_IDS` is split on commas. Each entry is
  stripped and blank entries are skipped. Every other entry is read with `int()`,
  and one that `int()` refuses makes start-up fail. A missing or empty bot token
  fails start-up before the list is read.
- **The reply sequence of the handlers.** Each of `handle_text`, `handle_photo`,
  `/start` and `/help` replies into a `Transport.Chat`, a class whose `sent` field
  lists the messages replied so far. The analysis is an oracle: an
  `Analysis.AnalysisClient` answers each request with a fixed outcome. The
  outcome is an exception, a response without content, or the content text. The
  client records every request it receives. Each handler is proved to send
  exactly the replies a specification function gives, and to ask the model only
  on behalf of an allowed user.

The class-based bot keeps its allow-list and its client in `const` fields. This
reflects the source: no method reassigns `allowed_user_ids` after `__init__`.

Three behaviours of the chunker are modelled on purpose, because the source has them:

- An empty line that arrives while the current part is empty is dropped.
- A text over the limit that consists only of newlines is sent as no message at all.
- The header is not counted against the limit. Parts are at most 4096 characters,
  but a numbered message can be longer (`Chunker.HeaderOverflow`: 4103 characters).

Lengths are Python's `len`, so a string is a sequence of code points.

## Model

| member | source | states |
|---|---|---|
| `AccessGuard.IsUserAllowed` | pkg/bot_v2.py:18-22 | `_is_user_allowed`: an empty set admits everyone, otherwise membership decides (properties in `EmptyAllowsAll`, `ListedOnly`, `Monotone`) |
| `Bot.PodcastHelperBot.IsUserAllowed` | pkg/bot.py:48-53 | `is_user_allowed` on the bot's own allow-list, the same guard |
| `Chunker.HardSplit` | pkg/bot_v2.py:48-51 | the `range(0, len(line), max)` slices of an over-long line (properties in `HardSplitConcat`, `HardSplitSlices`, `HardSplitCount`) |
| `Chunker.Flush` | pkg/bot_v2.py:55-56 | the finished parts, plus the current part when it is non-empty |
| `Chunker.PackLine` | pkg/bot_v2.py:39-53 | one turn of the loop: join when the line fits (the newline is counted even for an empty part), otherwise flush, then slice a long line or start a part with it |
| `Chunker.PackLines` | pkg/bot_v2.py:38-53 | the loop over the lines, in order |
| `Chunker.LongParts` | pkg/bot_v2.py:34-56 | the parts of a text over the limit (properties in `PartsWithinLimit`, `PartsKeepLines`, `PartsKeepText`) |
| `Chunker.Header` | pkg/bot_v2.py:60 | the `[i/n]` header and the blank line after it (read back by `HeaderRoundTrip`) |
| `Chunker.Numbered` | pkg/bot_v2.py:58-63 | several parts each get their header, one part goes out bare (read back by `NumberedDecodes`) |
| `Chunker.Replies` | pkg/bot_v2.py:30-63 | every message sent: the text when it fits, otherwise the numbered parts |
| `AllowList.ParseEntries` | pkg/bot_v2.py:244-246 | the comprehension over the entries, where the first entry `int()` refuses is the error (properties in `ParseEntriesSucceeds`, `ParseEntriesMembers`, `ParseEntriesFailure`) |
| `AllowList.ParseAllowedUserIds` | pkg/bot_v2.py:241-246 | an empty value gives the empty set, otherwise the entries split on commas are parsed |
| `Strings.Split` | pkg/bot_v2.py:37 | `str.split` on one separator, never empty (properties in `JoinSplit`, `SplitPiecesLackSeparator`) |
| `Strings.Strip` | pkg/bot_v2.py:245 | `str.strip()` with Python's whitespace set (properties in `StripSpec`) |
| `Numerals.ParseInt` | pkg/bot_v2.py:245 | `int()` on a stripped entry: an optional sign, then digits with single underscores between them (round trip in `ParseIntRoundTrip`) |
| `Numerals.IntToString` | pkg/bot_v2.py:147 | `str` of an int, as the f-string prints a user id (injective by `IntToStringInjective`) |
| `Notices.Denial` | pkg/bot_v2.py:145-148 | the refusal text followed by the user's id (properties in `DenialNamesUser`, `DenialInjective`) |
| `BotV2.TextReplies` | pkg/bot_v2.py:143-162 | the replies to a transcript: the denial, or the acknowledgement followed by the analysis or the apology |
| `BotV2.PhotoReplies` | pkg/bot_v2.py:179-206 | the replies to a photo: the denial, or the acknowledgement followed by a non-empty analysis or the apology |
| `BotV2.CommandReplies` | pkg/bot_v2.py:65-121 | the reply to `/start` or `/help`: the command's text or the denial |
| `Bot.PodcastHelperBot.TextReplies` | pkg/bot.py:147-164 | the same for the class-based bot, where a missing result also gets the apology |
| `Bot.PodcastHelperBot.PhotoReplies` | pkg/bot.py:171-198 | the same for the class-based bot, where any content, even empty, is sent |
| `Bot.PodcastHelperBot.CommandReplies` | pkg/bot.py:100-139 | the reply to `/start` or `/help` of the class-based bot |
| `Chunker.SplitParts` | pkg/bot_v2.py:34-56 | the greedy packing loop, with its inner slicing loop, returns exactly `LongParts(text, max)` |
| `Chunker.SendLongMessage` | pkg/bot_v2.py:25-63 | appends `Replies(text, max)` to the chat: the text itself when it fits, otherwise the parts, numbered when there are several |
| `BotV2.SendLongMessage` | pkg/bot_v2.py:14-63 | `_send_long_message` at the limit 4096 appends `Replies(text, 4096)` |
| `Bot.PodcastHelperBot.SendLongMessage` | pkg/bot.py:55-98 | `send_long_message` at the class's limit 4096 appends `Replies(text, 4096)` |
| `Chunker.PartsWithinLimit` | pkg/bot_v2.py:39-56 | every part of a long text is non-empty and at most `max` characters long |
| `Chunker.PackLinePacked` | pkg/bot_v2.py:39-53 | one turn of the loop keeps both the finished parts and the current part within the limit |
| `Chunker.PackLinesPacked` | pkg/bot_v2.py:38-53 | the whole loop keeps that invariant |
| `Chunker.PartsKeepLines` | pkg/bot_v2.py:37-56 | cut at their newlines, the parts are the text's non-empty lines in order, with each line over the limit replaced by its slices |
| `Chunker.PackLineCarried` | pkg/bot_v2.py:39-53 | one turn of the loop appends the line's non-empty pieces to the lines the state holds |
| `Chunker.PackLinesCarried` | pkg/bot_v2.py:38-53 | the whole loop appends the pieces of every line, in order |
| `Chunker.FlushCarried` | pkg/bot_v2.py:55-56 | the final flush loses no line |
| `Chunker.PartsKeepText` | pkg/bot_v2.py:37-56 | with newlines removed, the concatenated parts equal the text with newlines removed |
| `Chunker.HardSplitConcat` | pkg/bot_v2.py:49-50 | the slices of an over-long line, joined, are the line |
| `Chunker.HardSplitSlices` | pkg/bot_v2.py:49-50 | every slice is non-empty and at most `max` long, and all but the last are exactly `max` |
| `Chunker.HardSplitCount` | pkg/bot_v2.py:49-50 | a non-empty line gives `ceil(len / max)` slices, and an empty line gives none |
| `Chunker.OneLongLine` | pkg/bot_v2.py:48-51 | a text that is one line over the limit is sent as that line's slices |
| `Chunker.TenThousandCharacters` | pkg/bot_v2.py:48-63 | a 10000-character line goes out as `[1/3]`, `[2/3]`, `[3/3]` with 4096, 4096 and 1808 characters of text |
| `Chunker.LinesShareAPart` | pkg/bot_v2.py:37-56 | in a text over the limit, two lines that fit together, newline included, form one part, and a third line that does not fit with them opens the next part |
| `Chunker.LinesSplitAcrossParts` | pkg/bot_v2.py:44-53 | two lines that do not fit together form two parts, and neither is cut |
| `Chunker.PackBlankLines` | pkg/bot_v2.py:39-43 | empty lines that reach an empty current part leave the state unchanged, whatever parts are already finished: at the start of the text, or after a long line was cut (line 51) |
| `Chunker.OnlyNewlinesSendNothing` | pkg/bot_v2.py:30-63 | a text over the limit made only of newlines produces no reply |
| `Chunker.LeadingNewlineDropped` | pkg/bot_v2.py:37-43 | a newline at the start of the text changes nothing in the parts |
| `Chunker.HeaderRoundTrip` | pkg/bot_v2.py:60 | `[i/n]` followed by a blank line parses back to `i`, `n` and the part |
| `Chunker.NumberedDecodes` | pkg/bot_v2.py:58-63 | with several parts, the k-th message reads back as part k of n, in send order |
| `Chunker.HeaderOverflow` | pkg/bot_v2.py:58-61 | a 4097-character line gives a first message of 4103 characters, because the header is not budgeted |
| `AccessGuard.EmptyAllowsAll` | pkg/bot_v2.py:18-22 | an empty allow-list admits every user |
| `AccessGuard.ListedOnly` | pkg/bot_v2.py:18-22 | a non-empty allow-list admits a user exactly when the user is listed |
| `AccessGuard.Monotone` | pkg/bot.py:48-53 | growing a non-empty allow-list never locks out an admitted user |
| `AllowList.LoadAllowedUserIds` | pkg/bot_v2.py:237-246 | a missing or empty token fails start-up before the list is read |
| `AllowList.LoadedIds` | pkg/bot.py:31-35 | with a token, start-up succeeds exactly when every entry is blank or an integer; the set then holds exactly the ids named, and the error otherwise names a refused entry |
| `AllowList.ParseEntriesSucceeds` | pkg/bot_v2.py:244-246 | the set comprehension succeeds exactly when every stripped, non-blank entry is an integer |
| `AllowList.ParseEntriesMembers` | pkg/bot_v2.py:244-246 | a successful comprehension holds `u` exactly when some entry names `u` |
| `AllowList.ParseEntriesFailure` | pkg/bot_v2.py:244-246 | a failed comprehension reports a stripped, non-blank entry that `int()` refuses |
| `AllowList.ParseEntriesBlank` | pkg/bot_v2.py:245 | a blank entry is skipped |
| `AllowList.ParseEntriesNumber` | pkg/bot_v2.py:245 | an integer entry adds its value to the ids of the rest |
| `AllowList.ParseEntriesRefused` | pkg/bot_v2.py:245 | an entry `int()` refuses is the error, whatever follows it |
| `AllowList.EmptyConfigAllowsAll` | pkg/bot_v2.py:241-243 | an unset or empty `ALLOWED_USER_IDS` gives the empty set, which admits everyone |
| `AllowList.StrippedAndSkipped` | pkg/bot_v2.py:243-246 | `"A, B,,C"` for integers A, B, C reads as {A, B, C}, for instance `"1, 2,,3"` as {1, 2, 3} |
| `AllowList.NonIntegerFails` | pkg/bot_v2.py:243-246 | `"A,abc"` makes start-up fail, and the error names `abc` |
| `Strings.JoinSplit` | pkg/bot_v2.py:37 | joining the pieces of `split` with the separator gives back the string |
| `Strings.SplitPiecesLackSeparator` | pkg/bot_v2.py:37 | no piece of a split holds the separator |
| `Strings.StripSpec` | pkg/bot_v2.py:245 | `strip()` returns a slice `s[a..b]` with only whitespace before and after it. The slice neither starts nor ends with whitespace, and it is empty exactly for an all-whitespace entry |
| `Numerals.ParseIntRoundTrip` | pkg/bot_v2.py:245 | `int()` reads back every integer as Python prints it |
| `Numerals.IntToStringInjective` | pkg/bot_v2.py:147 | different ids print differently |
| `Notices.DenialNamesUser` | pkg/bot_v2.py:145-148 | the denial is the fixed text followed by the user's id, which reads back as that id |
| `Notices.DenialInjective` | pkg/bot.py:107-110 | different users get different denials |
| `Analysis.AnalysisClient.Analyze` | pkg/bot_v2.py:154 | a call records its request and returns the oracle's outcome for it |
| `Transport.Chat.Reply` | pkg/bot_v2.py:31 | a reply appends exactly one message to the chat |
| `BotV2.HandleText` | pkg/bot_v2.py:124-162 | a message without text gets no reply; otherwise the replies are `TextReplies` of the oracle's outcome, and the model is asked exactly when the user is allowed |
| `BotV2.HandlePhoto` | pkg/bot_v2.py:165-206 | the replies are `PhotoReplies` of the outcome, or of "fetch failed"; the model is asked only for an allowed user whose photo was fetched |
| `BotV2.StartCommand` | pkg/bot_v2.py:65-94 | an allowed user gets the welcome text, anyone else the denial |
| `BotV2.HelpCommand` | pkg/bot_v2.py:97-121 | an allowed user gets the help text, anyone else the denial |
| `BotV2.UnauthorizedDenied` | pkg/bot_v2.py:143-149 | a user who is not allowed gets exactly one reply, the denial naming their id, whatever the analysis would have been |
| `BotV2.AuthorizedTextReplies` | pkg/bot_v2.py:151-162 | an allowed user gets the acknowledgement first, then either the analysis as `send_long_message` sends it or the one apology |
| `BotV2.AuthorizedPhotoReplies` | pkg/bot_v2.py:187-206 | the same for a photo, where an empty analysis also gets the apology |
| `BotV2.ApologyHidesError` | pkg/bot_v2.py:156-162 | the replies do not depend on the exception's message; a missing result, an exception, a failed photo fetch and an empty photo analysis are answered alike |
| `BotV2.LongAnalysisDelivered` | pkg/bot_v2.py:151-159 | a long analysis reaches an allowed user as numbered messages that read back as parts within 4096 characters, in order, with every non-newline character kept |
| `Bot.PodcastHelperBot.constructor` | pkg/bot.py:26-35 | the bot holds the allow-list and the client it was given |
| `Bot.NewBot` | pkg/bot.py:26-39 | start-up fails exactly when loading the allow-list fails, with the same error; otherwise a new bot holds the parsed allow-list |
| `Bot.PodcastHelperBot.HandleText` | pkg/bot.py:141-164 | the replies are `TextReplies` of the oracle's outcome, and the model is asked exactly when the user is allowed |
| `Bot.PodcastHelperBot.HandlePhoto` | pkg/bot.py:166-198 | the replies are `PhotoReplies` of the outcome, or of "fetch failed"; the model is asked only for an allowed user whose photo was fetched |
| `Bot.PodcastHelperBot.StartCommand` | pkg/bot.py:100-120 | an allowed user gets the welcome text, anyone else the denial |
| `Bot.PodcastHelperBot.HelpCommand` | pkg/bot.py:122-139 | an allowed user gets the help text, anyone else the denial |
| `Bot.PodcastHelperBot.UnauthorizedDenied` | pkg/bot.py:144-153 | a user who is not allowed gets exactly one reply, the denial naming their id |
| `Bot.PodcastHelperBot.AuthorizedTextReplies` | pkg/bot.py:155-164 | an allowed user gets the acknowledgement, then the analysis or the one apology; a missing result also gets the apology, because `len(None)` raises |
| `Bot.PodcastHelperBot.PhotoApologyHidesError` | pkg/bot.py:179-198 | exceptions, missing results and failed fetches all get the same apology, but an empty analysis is sent as an empty message |
| `Versions.SameTextReplies` | pkg/bot.py:141-164 | both bots reply alike to a transcript, for every user, allow-list and outcome |
| `Versions.PhotoRepliesDifferOnlyWhenEmpty` | pkg/bot_v2.py:197-201 | both bots reply alike to a photo, except when the analysis is empty: the module-level bot apologises and the class-based bot sends the empty text |

## Left out

- Telegram plumbing is not modelled: `Application.builder`, handler registration,
  `run_polling` and `post_init`. Neither is the global `error_handler`
  (`pkg/bot_v2.py:209-221`), which only answers exceptions that escape a handler.
- Fetching a photo (`photo[-1]`, `get_file`, `download_to_memory`) is not
  modelled. The handlers receive its result as `Option<seq<bv8>>`, where `None`
  means one of these steps raised.
- Updates without a user or without a message are not modelled. The model
  assumes both are present. In every case the handler exits before any reply
  goes out:
  - In `pkg/bot_v2.py`, a missing user raises `ValueError` (lines 69-70, 99-100,
    129-130, 170-171). A missing message makes the handler return (lines 72-73,
    102-103, 132-133, 173-174), and `_send_long_message` returns too (lines 27-28).
  - In `pkg/bot.py` there are no such checks. A missing user or message raises
    `AttributeError` at the first use of `update.effective_user` or
    `update.message`. In `handle_text` that is line 144. In the other handlers it
    is the first `reply_text`.
- Delivery failures are not modelled: `Chat.Reply` always succeeds. In the
  source, a `reply_text` that raises inside the `try` block is answered with the
  apology. This includes Telegram refusing an empty message or one over its limit.
- The analysis back ends are outside the model. `pkg/ai.py`, `pkg/openai.py` and
  `pkg/xai.py` (prompts, model names, `temperature`, base64 encoding of the
  image) become the `Analysis.AnalysisClient` oracle. `main.py` (environment
  loading and process start) is not part of this model. The `OPENAI_API_KEY`
  check in the client constructors is left out with them.
- async/await is not modelled: each handler runs to completion before the next
  one starts.
- Logging is not modelled.
- Telegram counts message length in UTF-16 code units. The model uses Python's
  `len`, which counts code points.
- `Numerals.ParseInt` models `int()` for ASCII digits only, with an optional sign
  and single underscores between digits. Python's `int()` also accepts other
  Unicode decimal digits. Entries have already been stripped by then. The model
  also puts no limit on the length of a numeral. CPython 3.11 and later, and
  3.10.7 and later, raise `ValueError` on a decimal string of more than 4300
  digits (the default of `sys.set_int_max_str_digits`). Such an
  `ALLOWED_USER_IDS` entry loads in the model, but makes start-up fail in the
  source.
- `Chunker.PartsKeepLines`: joining the parts with newlines does not give the
  text back once blank lines have been dropped, so the lemma compares the
  non-empty lines on both sides instead.
