# ytdlbot request handling, modelled in Dafny

The bot (`ytdl.py`) receives Telegram messages and answers with videos. This
project models the three pieces of it that hold real logic and proves what
they promise.

- **Admitting a download** (`download_handler`). It checks, in this order:
  1. the chat's remaining quota;
  2. the group-chat filter: outside a private chat, the text must start with
     `/ytdl` in any letter case;
  3. the removal of every `/ytdl` and the whitespace after it, which is
     `re.sub(r'/ytdl\s*', '', text)`;
  4. the `^https?://` test on the lower-cased result.

  `Request.Classify` gives the decision as a value:
  - quota exceeded;
  - fault: a message without text, where the handler raises;
  - ignore;
  - not a link;
  - proceed with a URL.
- **The job** for an admitted link. The status message "Processing" is sent,
  then a temporary directory is created and the downloader runs. On success:
  - the status becomes "Download complete. Sending now...";
  - the video goes out with one `audio` button;
  - the status becomes "Download success!✅".

  On failure, the status is edited once to show the link and the first 4000
  characters of the diagnostic. The directory is removed afterwards.
  `Bot.Chat.DownloadHandler` and `Bot.Chat.RunJob` do this step by step on a
  `Chat` object. The object holds:
  - the actions sent into the chat;
  - the texts the status message has shown;
  - the state of the temporary directory.

  `Job.JobTrace`, `Job.StatusHistory` and `Job.DirAfter` specify them.
- **String derivations**:
  - The audio file name in `answer` (`Audio.AudioName`). It replaces every
    `mp4` in the name, not only the extension.
  - The `/vip` command (`Vip.ParseVip`, `Bot.Chat.VipHandler`). It asks either
    for the VIP information or for a payment token to verify.

Python's string operations are written out in module `Text`:
- `str.isspace` and `\s` become `IsSpace`.
- `strip` becomes `Strip`.
- `str.replace` becomes `ReplaceAll`: left to right, without overlapping.
- `str(int)` becomes `Decimal`.
- `lower` becomes `Lower`. It lowers ASCII letters only. For the two prefix
  tests that use it, this gives the same answer as Python's full Unicode
  lower-casing. Only U+0130 and U+212A lower to ASCII letters (`i`, `k`), and
  neither letter occurs in `/ytdl`, `http://` or `https://`.

Two behaviours of the code are easy to miss. The model keeps both:
- **No cleanup when the downloader raises.** `download_handler` has no
  `try`/`finally`. If `ytdl_download` raises, `temp_dir.cleanup()` is never
  reached. `DownloadResult.Raised` models this case: no edit is sent and the
  directory stays `Live` (`Job.DirAfter`, `Bot.Chat.RunJob`).
- **Only the command is removed.** `re.sub` deletes `/ytdl` and the
  whitespace after it, nothing else. Whitespace in front of a bare link makes
  it a non-link (`Request.LeadingSpaceIsNotALink`), and trailing whitespace
  stays in the URL.

## Model

| member | source | states |
|---|---|---|
| Text.IsSpace | ytdl.py:100 | Space, tab, line feed and carriage return are whitespace; no letter, digit or `/` is. |
| Text.LowerChar | ytdl.py:96 | An ASCII capital becomes its own small letter (code point plus 32); every other character is kept. |
| Text.Lower | ytdl.py:103 | The ASCII-only lower-casing keeps the length and lowers each character on its own. |
| Text.StartsWith | ytdl.py:96 | A text that starts with a non-empty prefix is non-empty and shares its first character. |
| Text.StartsWithPointwise | ytdl.py:96 | `startswith` holds exactly when the text agrees with the prefix at every position of the prefix. |
| Text.LeadingSpace | ytdl.py:74 | The number of leading whitespace characters: all of them are whitespace and the next one is not. |
| Text.TrailingSpace | ytdl.py:74 | The same count at the end of the text. |
| Text.TrimStart | ytdl.py:100 | Dropping the leading whitespace never lengthens the text and leaves it empty or starting with a non-whitespace character. |
| Text.Strip | ytdl.py:74 | `strip()` never lengthens the text; what it leaves is empty or neither starts nor ends with whitespace. |
| Text.StripSlice | ytdl.py:74 | `strip()` gives one contiguous slice of the text, starting after the leading whitespace. |
| Text.StripCutsOnlySpace | ytdl.py:74 | `strip()` cuts off nothing but whitespace, on either side. |
| Text.StripUnchanged | ytdl.py:74 | A text without whitespace at its ends is its own `strip()`. |
| Text.StripIdempotent | ytdl.py:80 | Stripping twice is stripping once. |
| Text.StripAround | ytdl.py:74 | Whitespace, then a text without whitespace at its ends, then whitespace: `strip()` gives exactly that text. |
| Text.StripAllSpace | ytdl.py:80 | A text of whitespace only strips to the empty text. |
| Text.ReplaceAll | ytdl.py:148 | `replace` keeps the length when the replacement is as long as the pattern, and never grows the text when it is shorter; its contents are given by ReplaceAllFirst and ReplaceAllAbsent. |
| Text.ReplaceAllFirst | ytdl.py:148 | The first occurrence, found left to right, becomes the replacement; the characters before it are kept and the scan resumes behind it. |
| Text.ReplaceAllAbsent | ytdl.py:148 | Where the pattern does not occur, `replace` changes nothing. |
| Text.ReplaceAllPresent | ytdl.py:80 | Where the pattern occurs and the replacement is shorter, the text gets strictly shorter. |
| Text.Digits | ytdl.py:94 | `str(n)` of a natural number: at least one digit, digits only, no leading zero. |
| Text.DigitsRoundTrip | ytdl.py:94 | Reading back the digits of `n` gives `n`. |
| Text.Decimal | ytdl.py:94 | `str(n)` of any integer: non-empty, and it starts with `-` exactly for negative numbers. |
| Text.DigitsInjective | ytdl.py:94 | Different natural numbers have different digits. |
| Text.DecimalInjective | ytdl.py:94 | Different integers have different decimal texts. |
| Request.StripCommand | ytdl.py:100 | The `re.sub` removal never makes the text longer. |
| Request.StripCommandAbsent | ytdl.py:100 | Text without `/ytdl` goes through the removal unchanged. |
| Request.StripCommandPresent | ytdl.py:100 | Text that contains `/ytdl` loses at least five characters. |
| Request.StripCommandUnchangedIff | ytdl.py:100 | The removal leaves the text unchanged exactly when `/ytdl` does not occur in it. |
| Request.StripCommandPrefix | ytdl.py:100 | A leading `/ytdl` and all the whitespace after it disappear; the rest is processed on its own. |
| Request.StripCommandFirst | ytdl.py:100 | A text that does not start with `/ytdl` keeps its first character. |
| Request.StripCommandKeeps | ytdl.py:100 | Outside a `/ytdl`, a character is kept and the scan moves on to the next one. |
| Request.KeptSlashIsNotALink | ytdl.py:100-103 | A leading `/` that does not begin `/ytdl` survives the removal, so the result is not a link. |
| Request.IsLink | ytdl.py:103 | A link is at least seven characters long and starts with `h` or `H`. |
| Request.LeadingSpaceIsNotALink | ytdl.py:103 | A space in front of a link makes it a non-link: leading whitespace is not stripped. |
| Request.IsLinkIgnoresCase | ytdl.py:103 | The link test gives the same answer for a text and its lower-cased form. |
| Request.QuotaText | ytdl.py:94 | The quota reply starts with "Quota exceed, try again in ". |
| Request.QuotaTextInjective | ytdl.py:94 | With the same reset time, two quota replies are equal only for the same `ttl`. |
| Request.Classify | ytdl.py:89-105 | The decision is the quota reply exactly when `used <= 0`, carrying the chat's `ttl`; a fault needs a message without text; a private chat is never ignored; a job is only for a link no longer than the text. |
| Request.QuotaGateFirst | ytdl.py:89-95 | The decision is the quota reply with the chat's `ttl` exactly when `used <= 0`, whatever the chat and the text. |
| Request.CommandPassesFilter | ytdl.py:96 | A text that starts with `/ytdl` passes the case-insensitive group filter. |
| Request.GroupFilter | ytdl.py:96-98 | Outside a private chat, with quota left, a message is ignored exactly when its lower-cased text does not start with `/ytdl`. |
| Request.PrivateNeverIgnored | ytdl.py:96-98 | In a private chat no message is ignored. |
| Request.GroupChatterExample | ytdl.py:96-98 | "hello" in a group, with quota left, is ignored. |
| Request.ProceedExactly | ytdl.py:100-105 | Past the filter, a job starts for `url` exactly when `url` is the text with `/ytdl` removed and is a link; otherwise the reply is "send me a link". |
| Request.CommandThenLink | ytdl.py:96-105 | `/ytdl`, whitespace, then a link without `/ytdl`: in any chat the job is for exactly that link. |
| Request.CommandThenNonLink | ytdl.py:96-105 | `/ytdl`, whitespace, then a non-link without `/ytdl`: in any chat the reply is "send me a link". |
| Request.BareLinkInPrivate | ytdl.py:96-105 | In a private chat a bare link without `/ytdl` is taken as it is. |
| Request.UpperCaseCommand | ytdl.py:96-105 | `/YTDL` passes the case-insensitive filter but is not removed by the case-sensitive `re.sub`, so the answer is always "send me a link". |
| Job.Truncate | ytdl.py:135 | `error[0:4000]`: a prefix of the error, at most 4000 characters, the whole error when it is short enough, exactly 4000 characters otherwise. |
| Job.TruncateKeepsHead | ytdl.py:135 | Two long errors that agree on their first 4000 characters are shown alike. |
| Job.FailureText | ytdl.py:136 | The failure text is the link, the failure mark, the shown diagnostic and the closing fence, in that order; its length is bounded by the link's length plus a constant. |
| Job.FailureTextInjective | ytdl.py:135-136 | For one link, two failure texts are equal exactly when the shown diagnostics are. |
| Job.StatusHistory | ytdl.py:107 | The status message's first text is "Processing". |
| Job.JobTrace | ytdl.py:107 | What a job sends begins with the "Processing" reply. |
| Job.DirAfter | ytdl.py:109-138 | After a job the directory is removed exactly when the downloader did not raise. |
| Job.StatusFollowsEdits | ytdl.py:107-136 | The status message shows "Processing" and then the text of every edit the job sends, in order, and nothing else. |
| Job.SuccessDelivers | ytdl.py:114-132 | On success exactly one video is sent, its only button is `audio`/`audio`, and the status goes "Processing", "Download complete. Sending now...", "Download success!✅". |
| Job.FailureReports | ytdl.py:133-136 | On failure no video and no button is sent, the status is edited once to the failure text, and the diagnostic shown is a prefix of the error of at most 4000 characters. |
| Audio.AudioName | ytdl.py:148 | The audio name has the video name's length and contains no `mp4`. |
| Audio.NoVideoTagLeft | ytdl.py:148 | After the replacement no `mp4` is left anywhere in the name. |
| Audio.AudioNameIdempotent | ytdl.py:148 | Deriving the audio name twice is deriving it once. |
| Audio.ExtensionSwapped | ytdl.py:148 | A name with no `mp4` apart from its `.mp4` extension gets `.m4a` and is otherwise unchanged. |
| Audio.ReplacedAtFront | ytdl.py:148 | An `mp4` at the front of the name is replaced too: this is not an extension swap. |
| Vip.ParseVip | ytdl.py:74-80 | The request is the bare command exactly when the stripped text is `/vip`; a token has no whitespace at its ends and is no longer than the text. |
| Vip.BareCommand | ytdl.py:74-77 | `/vip` with only whitespace around it is the bare command. |
| Vip.RemoveLeadingVip | ytdl.py:80 | Removing `/vip` from `/vip`, whitespace and a text without `/vip` leaves the whitespace and that text. |
| Vip.CommandThenToken | ytdl.py:74-81 | `/vip`, whitespace, then a token without whitespace at its ends and without `/vip`: the verifier gets exactly that token. |
| Vip.DoubleCommandEmptyToken | ytdl.py:76-81 | `/vip`, whitespace, `/vip` is not the bare command, and the verifier gets the empty token. |
| Bot.Chat.ReplyText | ytdl.py:104 | A quoted reply is appended to what was sent; the status message and the directory are untouched. |
| Bot.Chat.OpenStatus | ytdl.py:107 | The kept reply is appended to what was sent and starts a new status history. |
| Bot.Chat.EditStatus | ytdl.py:128 | An edit is appended to what was sent and to the status history. |
| Bot.Chat.DownloadHandler | ytdl.py:86-105 | The handler sends exactly what its decision calls for. For a started job the status history and the directory are the job's; otherwise both are unchanged: no job, no directory. |
| Bot.Chat.RunJob | ytdl.py:107-138 | The job sends its trace. The status message shows the job's history. The directory ends removed, or stays live when the downloader raised. |
| Bot.Chat.VipHandler | ytdl.py:71-82 | A message without text (a captioned command) sends nothing. Otherwise the handler sends the information for the bare command, or else the payment reply edited to the verifier's answer for the parsed token; that reply's history is those two texts. |
| Bot.Respond | ytdl.py:86-138 | At most four actions; nothing is sent exactly for group chatter or a message without text; the one reply to the user's message comes first and no other action is a reply. |
| Bot.VipTrace | ytdl.py:76-82 | Something is always sent; it opens with a plain message exactly for the bare command; a token request ends with the edit to the verifier's answer; no video is sent. |
| Bot.QuotaReplyIff | ytdl.py:89-95 | With no quota left, the quota reply is the only thing sent. With quota left, no reply starting "Quota exceed" is ever sent. |
| Bot.JobRepliesOnce | ytdl.py:107-136 | A job sends exactly one reply, "Processing", and sends it first. |
| Bot.JobStartsIff | ytdl.py:103-107 | The first thing sent is "Processing" exactly when a job starts. |
| Bot.OneVideoAtMost | ytdl.py:114-136 | At most one video is sent. It is sent exactly when a job's download succeeded, and then the only button is `audio`. |
| Bot.StatusMatchesTrace | ytdl.py:107-136 | For a started job, the status history is "Processing" followed by the text of every edit the handler sends. |
| Bot.VipAnswers | ytdl.py:76-82 | The bare command gets the information message and nothing else. Any other `/vip` text gets the payment reply, edited once to the verifier's answer. No video is sent. |

## Left out

- Transport: `send_chat_action` calls, `disable_web_page_preview`,
  `supports_streaming` and the upload progress arguments are not modelled.
  Sending a message, a reply, an edit or a video is an entry in an abstract
  trace, and none of them fails.
- `ytdl_download`, `upload_hook` and `convert_flac`: downloader.py is not part
  of this model. The downloader is the parameter `download` of
  `DownloadHandler` and `RunJob`. The progress edits it and `upload_hook` make
  to the status message are not in the status history.
- The quota ledger: `return_remaining_quota`, `remaining_quota_caption` and
  `verify_payment` live in files that are not part of this model.
  - `used` and `ttl` are inputs.
  - The caption is the parameter `caption`.
  - The verifier is the parameter `verify`, with its answer taken as given.
  - Nothing in the model decrements the quota; the handler itself does not
    either.
- `time.strftime`/`time.localtime`: the reset time is the parameter
  `refreshTime`, because it depends on the clock and the locale. Logging is
  not modelled.
- The static handlers `start`, `help`, `about`, `terms` and `ping`, and
  `app.run()`: they only send texts defined elsewhere.
- Command routing by `filters.command`: `VipHandler` is called for a `/vip`
  command message. Such a message may be media whose caption holds the
  command; its text is then absent, which `VipHandler` models.
- `answer` beyond the audio name: the callback answer, the media download, the
  conversion and the audio upload are I/O in a temporary file.
- The `workers=100` thread pool: each handler call is modelled as one
  sequential run on one chat.
- `tempfile` internals: the directory is a three-state flag (`NoDir`, `Live`,
  `Removed`) for the latest job of the chat. A directory that stays `Live` is
  not modelled as reclaimed later by the garbage collector.
- The regular-expression engine: only the two patterns the handler uses are
  written out, as `StripCommand` and `IsLink`.
- Request.StripCommand: the removal is stated by its lemmas (unchanged exactly
  when `/ytdl` is absent; a leading command and its whitespace disappear; other
  characters are kept). No lemma states that every character of the result
  comes from the text in order.
