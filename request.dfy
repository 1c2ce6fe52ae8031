/** The admission decision that `download_handler` takes for an inbound
    message before any job starts: the quota gate, the group-chat filter, the
    removal of the `/ytdl` command and the link test, in that order. */
module Request {
  import opened Text

  /** The value of `message.chat.type`. */
  datatype ChatKind = Private | Bot | Group | Supergroup | Channel

  /** What the handler does with a message. */
  datatype Decision =
    | QuotaExceeded(ttl: int)   // the quota reply, and nothing else
    | Fault                     // a message without text: the handler raises, nothing is sent
    | Ignore                    // group chatter: no reply, no job
    | NotALink                  // the "send me a link" reply
    | Proceed(url: string)      // a download job for `url`

  datatype Option<T> = None | Some(value: T)

  const Command := "/ytdl"
  const NotALinkText := "I think you should send me a link."
  const QuotaPrefix := "Quota exceed, try again in "

  /** `re.sub(r'/ytdl\s*', '', text)`: scanning left to right, every
      case-sensitive `/ytdl` is deleted together with all the whitespace
      that follows it; every other character is kept. */
  function StripCommand(s: string): (r: string)
    ensures |r| <= |s|
    decreases |s|
  {
    if |s| == 0 then []
    else if StartsWith(s, Command) then
      var rest := TrimStart(s[|Command|..]);
      assert s == s[..|s| - |rest|] + rest;
      StripCommand(rest)
    else
      assert s == [s[0]] + s[1..];
      [s[0]] + StripCommand(s[1..])
  }

  /** `re.findall(r"^https?://", url.lower())` is non-empty. */
  predicate IsLink(url: string)
    ensures IsLink(url) ==> |url| >= 7 && (url[0] == 'h' || url[0] == 'H')
  {
    StartsWith(Lower(url), "http://") || StartsWith(Lower(url), "https://")
  }

  /** The decision of `download_handler` for a chat whose quota lookup gave
      `used` and `ttl`, and a message whose text is `text` (`None` when the
      message carries no text). */
  function Classify(used: int, ttl: int, chat: ChatKind, text: Option<string>): (d: Decision)
    ensures d.QuotaExceeded? <==> used <= 0
    ensures d.QuotaExceeded? ==> d.ttl == ttl
    ensures d == Fault ==> text.None?
    ensures chat == Private ==> d != Ignore
    ensures d.Proceed? ==> text.Some? && IsLink(d.url) && |d.url| <= |text.value|
  {
    if used <= 0 then QuotaExceeded(ttl)
    else if text.None? then Fault
    else if chat != Private && !StartsWith(Lower(text.value), Command) then Ignore
    else
      var url := StripCommand(text.value);
      if IsLink(url) then Proceed(url) else NotALink
  }

  /** The quota reply; `refreshTime` is the clock-formatted reset time. */
  function QuotaText(ttl: int, refreshTime: string): (r: string)
    ensures StartsWith(r, QuotaPrefix)
  {
    QuotaPrefix + Decimal(ttl) + (" seconds(" + refreshTime + ")")
  }

  /** The quota reply names the chat's `ttl`: two replies with the same reset
      time are equal only for the same `ttl`. */
  lemma QuotaTextInjective(t1: int, t2: int, refreshTime: string)
    requires QuotaText(t1, refreshTime) == QuotaText(t2, refreshTime)
    ensures t1 == t2
  {
    SameFrame(QuotaPrefix, Decimal(t1), Decimal(t2), " seconds(" + refreshTime + ")");
    DecimalInjective(t1, t2);
  }

  // ---------------------------------------------------------------------
  // The `/ytdl` removal

  /** Text without `/ytdl` in it goes through unchanged. */
  lemma {:induction false} StripCommandAbsent(s: string)
    requires !Contains(s, Command)
    ensures StripCommand(s) == s
    decreases |s|
  {
    if |s| > 0 {
      StripCommandAbsent(s[1..]);
      assert [s[0]] + s[1..] == s;
    }
  }

  /** Text with `/ytdl` in it loses at least those five characters. */
  lemma {:induction false} StripCommandPresent(s: string)
    requires Contains(s, Command)
    ensures |StripCommand(s)| <= |s| - |Command|
    decreases |s|
  {
    if !StartsWith(s, Command) {
      StripCommandPresent(s[1..]);
    }
  }

  /** So the removal leaves the text unchanged exactly when `/ytdl` does not
      occur in it. */
  lemma StripCommandUnchangedIff(s: string)
    ensures StripCommand(s) == s <==> !Contains(s, Command)
  {
    if Contains(s, Command) {
      StripCommandPresent(s);
    } else {
      StripCommandAbsent(s);
    }
  }

  /** The command and the whitespace after it disappear from the front of
      the text; the rest is processed on its own. */
  lemma StripCommandPrefix(w: string, u: string)
    requires AllSpace(w)
    requires u == [] || !IsSpace(u[0])
    ensures StripCommand(Command + w + u) == StripCommand(u)
  {
    var s := Command + w + u;
    assert s[..|Command|] == Command;
    assert s[|Command|..] == w + u;
    LeadingSpaceOf(w, u);
    assert (w + u)[|w|..] == u;
  }

  /** The removal is case-sensitive and leaves a text that does not start
      with `/ytdl` starting with the same character. */
  lemma StripCommandFirst(s: string)
    requires |s| > 0 && !StartsWith(s, Command)
    ensures |StripCommand(s)| > 0 && StripCommand(s)[0] == s[0]
  {
  }

  /** Outside a `/ytdl`, a character is kept and the scan moves on. */
  lemma StripCommandKeeps(c: char, s: string)
    requires !StartsWith([c] + s, Command)
    ensures StripCommand([c] + s) == [c] + StripCommand(s)
  {
    assert ([c] + s)[1..] == s;
  }

  // ---------------------------------------------------------------------
  // The link test

  /** Leading whitespace is not stripped: a space in front of a link makes
      it a non-link. */
  lemma LeadingSpaceIsNotALink(url: string)
    ensures !IsLink(" " + url)
  {
    assert Lower(" " + url)[0] == ' ';
  }

  /** The test ignores letter case. */
  lemma IsLinkIgnoresCase(url: string)
    ensures IsLink(Lower(url)) == IsLink(url)
  {
    assert Lower(Lower(url)) == Lower(url);
  }

  // ---------------------------------------------------------------------
  // Classification

  /** The quota gate comes first: with no quota left the only outcome is the
      quota reply with the chat's `ttl`, whatever the chat and the text. With
      quota left, the quota reply never happens. */
  lemma QuotaGateFirst(used: int, ttl: int, chat: ChatKind, text: Option<string>)
    ensures Classify(used, ttl, chat, text) == QuotaExceeded(ttl) <==> used <= 0
  {
  }

  /** In a chat that is not private, a text whose lower-cased form does not
      start with `/ytdl` is ignored; a text that does is never ignored. */
  lemma GroupFilter(used: int, ttl: int, chat: ChatKind, text: string)
    requires used > 0 && chat != Private
    ensures Classify(used, ttl, chat, Some(text)) == Ignore
            <==> !StartsWith(Lower(text), Command)
  {
  }

  /** In a private chat nothing is ignored. */
  lemma PrivateNeverIgnored(used: int, ttl: int, text: Option<string>)
    ensures Classify(used, ttl, Private, text) != Ignore
  {
  }

  /** A job starts exactly when the text with every `/ytdl` removed is a
      link, and the job is for that text. */
  lemma ProceedExactly(used: int, ttl: int, chat: ChatKind, text: string, url: string)
    requires used > 0
    requires chat == Private || StartsWith(Lower(text), Command)
    ensures Classify(used, ttl, chat, Some(text)) == Proceed(url)
            <==> url == StripCommand(text) && IsLink(url)
    ensures Classify(used, ttl, chat, Some(text)) == NotALink
            <==> !IsLink(StripCommand(text))
  {
  }

  /** `/ytdl`, any whitespace, then a link that does not itself contain
      `/ytdl`: in any chat, the job is for exactly that link. */
  lemma CommandThenLink(used: int, ttl: int, chat: ChatKind, w: string, url: string)
    requires used > 0
    requires AllSpace(w)
    requires IsLink(url) && !Contains(url, Command)
    ensures Classify(used, ttl, chat, Some(Command + w + url)) == Proceed(url)
  {
    CommandPassesFilter(w + url);
    assert Command + w + url == Command + (w + url);
    StripCommandPrefix(w, url);
    StripCommandAbsent(url);
  }

  /** `/ytdl`, any whitespace, then a text that is not a link and does not
      contain `/ytdl`: in any chat, the "send me a link" reply. */
  lemma CommandThenNonLink(used: int, ttl: int, chat: ChatKind, w: string, u: string)
    requires used > 0
    requires AllSpace(w)
    requires u == [] || !IsSpace(u[0])
    requires !IsLink(u) && !Contains(u, Command)
    ensures Classify(used, ttl, chat, Some(Command + w + u)) == NotALink
  {
    CommandPassesFilter(w + u);
    assert Command + w + u == Command + (w + u);
    StripCommandPrefix(w, u);
    StripCommandAbsent(u);
  }

  /** A text that starts with `/ytdl` passes the group filter. */
  lemma CommandPassesFilter(rest: string)
    ensures StartsWith(Lower(Command + rest), Command)
  {
    var text := Command + rest;
    assert text[..|Command|] == Command;
    assert Lower(text)[..|Command|] == Command;
  }

  /** In a private chat a bare link is taken as it is. */
  lemma BareLinkInPrivate(used: int, ttl: int, url: string)
    requires used > 0
    requires IsLink(url) && !Contains(url, Command)
    ensures Classify(used, ttl, Private, Some(url)) == Proceed(url)
  {
    StripCommandAbsent(url);
  }

  /** An upper-case `/YTDL` passes the group filter but is not removed, so
      the text that follows it is never taken as a link. */
  lemma UpperCaseCommand(used: int, ttl: int, chat: ChatKind, rest: string)
    requires used > 0
    ensures Classify(used, ttl, chat, Some("/YTDL" + rest)) == NotALink
  {
    var text := "/YTDL" + rest;
    assert text[..5] == "/YTDL";
    assert Lower(text)[..5] == Command;
    MismatchAt(text, Command, 1);
    KeptSlashIsNotALink(text);
  }

  /** A text that starts with a `/` that is not part of `/ytdl` still starts
      with it after the removal, so it is not a link. */
  lemma KeptSlashIsNotALink(s: string)
    requires |s| > 0 && s[0] == '/' && !StartsWith(s, Command)
    ensures !IsLink(StripCommand(s))
  {
    StripCommandFirst(s);
    assert Lower(StripCommand(s))[0] == '/';
  }

  /** Example: group chatter is ignored. */
  lemma GroupChatterExample(ttl: int)
    ensures Classify(1, ttl, Group, Some("hello")) == Ignore
  {
    assert Lower("hello")[0] == 'h';
  }
}
