/** One chat as the bot's message handlers see it: what the bot has sent into
    it, the texts its latest status message has shown, and the temporary
    directory of its latest download job. `DownloadHandler` and `VipHandler`
    follow `download_handler` and `vip_handler` step by step; the functions
    `Respond` and `VipTrace` say what each sends, and the lemmas say what
    those traces promise. */
module Bot {
  import opened Text
  import opened Actions
  import opened Request
  import opened Job
  import opened Vip

  /** What the download handler sends for a decision. The downloader is a
      parameter: `download(url)` is what `ytdl_download` answers for `url`.
      `caption` is the remaining-quota caption and `refreshTime` the
      clock-formatted moment the quota resets. */
  function Respond(d: Decision, download: string -> DownloadResult, caption: string,
                   refreshTime: string): (trace: seq<Action>)
    ensures |trace| <= 4
    ensures trace == [] <==> d == Ignore || d == Fault
    ensures forall i :: 0 <= i < |trace| ==> (trace[i].Reply? <==> i == 0)
  {
    match d
    case QuotaExceeded(ttl) => [Reply(QuotaText(ttl, refreshTime))]
    case Fault => []
    case Ignore => []
    case NotALink => [Reply(NotALinkText)]
    case Proceed(url) => JobTrace(url, download(url), caption)
  }

  /** What the `/vip` handler sends: the VIP information for the bare
      command; otherwise the payment reply, then an edit of that reply with
      the verifier's answer for the token. */
  function VipTrace(request: VipRequest, chatId: int, verify: (int, string) -> string,
                    vipInfo: string, vipPay: string): (trace: seq<Action>)
    ensures |trace| > 0 && (trace[0].SendMessage? <==> request.ShowInfo?)
    ensures request.Verify? ==> trace[|trace| - 1] == Edit(verify(chatId, request.token))
    ensures forall i :: 0 <= i < |trace| ==> !trace[i].SendVideo?
  {
    match request
    case ShowInfo => [SendMessage(vipInfo)]
    case Verify(token) => [Reply(vipPay), Edit(verify(chatId, token))]
  }

  class Chat {
    const id: int
    /** Everything sent into the chat, oldest first. */
    var sent: seq<Action>
    /** The texts of the latest status message, from its creation on. */
    var status: seq<string>
    /** The temporary directory of the latest download job. */
    var dir: DirState

    constructor (id: int)
      ensures this.id == id && sent == [] && status == [] && dir == NoDir
    {
      this.id := id;
      sent := [];
      status := [];
      dir := NoDir;
    }

    /** `message.reply_text(text, quote=True)` for a reply that is not kept. */
    method ReplyText(text: string)
      modifies this
      ensures sent == old(sent) + [Reply(text)]
      ensures status == old(status) && dir == old(dir)
    {
      sent := sent + [Reply(text)];
    }

    /** A reply that the handler keeps and edits later: a new status
        message. */
    method OpenStatus(text: string)
      modifies this
      ensures sent == old(sent) + [Reply(text)]
      ensures status == [text] && dir == old(dir)
    {
      sent := sent + [Reply(text)];
      status := [text];
    }

    /** `edit_text` on the status message. */
    method EditStatus(text: string)
      modifies this
      ensures sent == old(sent) + [Edit(text)]
      ensures status == old(status) + [text] && dir == old(dir)
    {
      sent := sent + [Edit(text)];
      status := status + [text];
    }

    /** `download_handler`: the quota gate, the group filter, the command
        removal and the link test, then the job for an admitted link. */
    method DownloadHandler(used: int, ttl: int, kind: ChatKind, text: Option<string>,
                           download: string -> DownloadResult, caption: string,
                           refreshTime: string)
      modifies this
      ensures sent == old(sent) + Respond(Classify(used, ttl, kind, text), download, caption, refreshTime)
      ensures Classify(used, ttl, kind, text).Proceed? ==>
        var url := Classify(used, ttl, kind, text).url;
        status == StatusHistory(url, download(url)) && dir == DirAfter(download(url))
      ensures !Classify(used, ttl, kind, text).Proceed? ==>
        status == old(status) && dir == old(dir)
    {
      if used <= 0 {
        assert Classify(used, ttl, kind, text) == QuotaExceeded(ttl);
        ReplyText(QuotaText(ttl, refreshTime));
        return;
      }
      if text.None? {
        // `message.text` is `None`: the handler raises before sending anything.
        return;
      }
      var message := text.value;
      if kind != Private && !StartsWith(Lower(message), Command) {
        return;
      }
      var url := StripCommand(message);
      if !IsLink(url) {
        assert Classify(used, ttl, kind, text) == NotALink;
        ReplyText(NotALinkText);
        return;
      }
      assert Classify(used, ttl, kind, text) == Proceed(url);
      RunJob(url, download, caption);
    }

    /** The job for an admitted link: the "Processing" status message, the
        temporary directory, the download, then the video with its audio
        button or the truncated error, and the removal of the directory.
        When the downloader raises, nothing after it happens. */
    method RunJob(url: string, download: string -> DownloadResult, caption: string)
      modifies this
      ensures sent == old(sent) + JobTrace(url, download(url), caption)
      ensures status == StatusHistory(url, download(url))
      ensures dir == DirAfter(download(url))
    {
      OpenStatus(Processing);
      dir := Live;
      var result := download(url);
      match result {
        case Raised =>
          return;
        case Success(path) =>
          EditStatus(SendingNow);
          sent := sent + [SendVideo(path, caption, AudioKeyboard)];
          EditStatus(Done);
        case Failure(error) =>
          var shown := Truncate(error);
          EditStatus(url + FailedMark + shown + CodeEnd);
      }
      dir := Removed;
    }

    /** `vip_handler`: the stripped text is compared with `/vip`; otherwise
        the payment reply is sent, the token is what is left once every
        `/vip` is removed and the rest stripped, and the reply is edited to
        the verifier's answer. A command in a media caption reaches the
        handler with no text, and the handler raises before sending
        anything. */
    method VipHandler(text: Option<string>, verify: (int, string) -> string,
                      vipInfo: string, vipPay: string)
      modifies this
      ensures text.None? ==> sent == old(sent) && status == old(status)
      ensures text.Some? ==>
        sent == old(sent) + VipTrace(ParseVip(text.value), id, verify, vipInfo, vipPay)
      ensures text.Some? && ParseVip(text.value).Verify? ==>
        status == [vipPay, verify(id, ParseVip(text.value).token)]
      ensures text.Some? && ParseVip(text.value).ShowInfo? ==> status == old(status)
      ensures dir == old(dir)
    {
      if text.None? {
        // `message.text` is `None`: `strip()` raises.
        return;
      }
      var t := Strip(text.value);
      if t == VipCommand {
        sent := sent + [SendMessage(vipInfo)];
      } else {
        OpenStatus(vipPay);
        var unique := Strip(ReplaceAll(t, VipCommand, ""));
        var answer := verify(id, unique);
        EditStatus(answer);
      }
    }
  }

  // ---------------------------------------------------------------------
  // What the download handler's traces promise

  /** The quota reply is sent exactly when no quota is left, and then it is
      the only thing sent, whatever the chat and the message. */
  lemma QuotaReplyIff(used: int, ttl: int, kind: ChatKind, text: Option<string>,
                      download: string -> DownloadResult, caption: string, refreshTime: string)
    ensures var trace := Respond(Classify(used, ttl, kind, text), download, caption, refreshTime);
      (used <= 0 ==> trace == [Reply(QuotaText(ttl, refreshTime))])
      && (used > 0 ==> forall i :: 0 <= i < |trace| ==>
            !(trace[i].Reply? && StartsWith(trace[i].text, QuotaPrefix)))
  {
    var d := Classify(used, ttl, kind, text);
    var trace := Respond(d, download, caption, refreshTime);
    if used > 0 {
      MismatchAt(Processing, QuotaPrefix, 0);
      MismatchAt(NotALinkText, QuotaPrefix, 0);
      if d.Proceed? {
        JobRepliesOnce(d.url, download(d.url), caption);
      }
    }
  }

  /** A job sends exactly one reply, the status message, and it comes
      first. */
  lemma JobRepliesOnce(url: string, result: DownloadResult, caption: string)
    ensures var trace := JobTrace(url, result, caption);
      forall i :: 0 <= i < |trace| ==> (trace[i].Reply? <==> i == 0) && (i == 0 ==> trace[i] == Reply(Processing))
  {
  }

  /** A job is started, visible as the "Processing" reply, exactly when the
      decision is to proceed. */
  lemma JobStartsIff(used: int, ttl: int, kind: ChatKind, text: Option<string>,
                     download: string -> DownloadResult, caption: string, refreshTime: string)
    ensures var d := Classify(used, ttl, kind, text);
      var trace := Respond(d, download, caption, refreshTime);
      (|trace| > 0 && trace[0] == Reply(Processing)) <==> d.Proceed?
  {
    var d := Classify(used, ttl, kind, text);
    if d.QuotaExceeded? {
      MismatchAt(QuotaText(d.ttl, refreshTime), Processing, 0);
    } else if d == NotALink {
      MismatchAt(NotALinkText, Processing, 0);
    }
  }

  /** At most one video is sent; it is sent exactly when a job's download
      succeeded, and it carries the audio button and nothing else. */
  lemma OneVideoAtMost(used: int, ttl: int, kind: ChatKind, text: Option<string>,
                       download: string -> DownloadResult, caption: string, refreshTime: string)
    ensures var d := Classify(used, ttl, kind, text);
      var trace := Respond(d, download, caption, refreshTime);
      var delivered := d.Proceed? && download(d.url).Success?;
      (Videos(trace) == 1 <==> delivered) && Videos(trace) <= 1
      && Buttons(trace) == (if delivered then [AudioButton] else [])
  {
    var d := Classify(used, ttl, kind, text);
    var trace := Respond(d, download, caption, refreshTime);
    if d.Proceed? {
      match download(d.url) {
        case Success(path) =>
          SuccessDelivers(d.url, path, caption);
        case Failure(error) =>
          FailureReports(d.url, error, caption);
        case Raised =>
      }
    }
  }

  /** The status message of a job shows its creation text and then the text
      of every edit the job sends, and nothing else. */
  lemma StatusMatchesTrace(used: int, ttl: int, kind: ChatKind, text: Option<string>,
                           download: string -> DownloadResult, caption: string, refreshTime: string)
    requires Classify(used, ttl, kind, text).Proceed?
    ensures var url := Classify(used, ttl, kind, text).url;
      StatusHistory(url, download(url))
        == [Processing] + Edits(Respond(Classify(used, ttl, kind, text), download, caption, refreshTime))
  {
    var url := Classify(used, ttl, kind, text).url;
    StatusFollowsEdits(url, download(url), caption);
  }

  // ---------------------------------------------------------------------
  // What the `/vip` handler's traces promise

  /** The bare command gets the VIP information and nothing else; any other
      `/vip` text gets the payment reply, edited once to the verifier's
      answer for the token. */
  lemma VipAnswers(text: string, chatId: int, verify: (int, string) -> string,
                   vipInfo: string, vipPay: string)
    ensures var trace := VipTrace(ParseVip(text), chatId, verify, vipInfo, vipPay);
      (Strip(text) == VipCommand <==> trace == [SendMessage(vipInfo)])
      && (Strip(text) != VipCommand ==>
            trace[0] == Reply(vipPay) && Edits(trace) == [verify(chatId, ParseVip(text).token)])
      && Videos(trace) == 0
  {
    var trace := VipTrace(ParseVip(text), chatId, verify, vipInfo, vipPay);
    if Strip(text) != VipCommand {
      EditsAppend([Reply(vipPay)], [Edit(verify(chatId, ParseVip(text).token))]);
      VideosAppend([Reply(vipPay)], [Edit(verify(chatId, ParseVip(text).token))]);
    }
  }
}
