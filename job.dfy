/** The download job that `download_handler` runs for an admitted link: the
    status message, the delivery of the video with its audio button or the
    truncated error, and the temporary directory. The downloader itself is
    outside the model; its answer is an input. */
module Job {
  import opened Text
  import opened Actions

  /** What `ytdl_download` gives back: a produced file, a failure with its
      diagnostic text, or no answer at all because it raised. */
  datatype DownloadResult = Success(path: string) | Failure(error: string) | Raised

  /** The temporary directory of the latest job. */
  datatype DirState = NoDir | Live | Removed

  const Processing := "Processing"
  const SendingNow := "Download complete. Sending now..."
  const Done := "Download success!\U{2705}"
  const FailedMark := " download failed\U{274C}\U{FF1A}\n```"
  const CodeEnd := "```"

  /** The one button offered under a delivered video. */
  const AudioButton := Button("audio", "audio")
  const AudioKeyboard := [[AudioButton]]

  /** The longest diagnostic that is shown. */
  const MaxErrorLength := 4000

  /** `error[0:4000]`: the diagnostic as it is shown. */
  function Truncate(error: string): (r: string)
    ensures |r| <= MaxErrorLength
    ensures |r| <= |error| && r == error[..|r|]
    ensures |error| <= MaxErrorLength ==> r == error
    ensures |error| >= MaxErrorLength ==> |r| == MaxErrorLength
  {
    if |error| <= MaxErrorLength then error else error[..MaxErrorLength]
  }

  /** The status text after a failed download: the link, the failure mark,
      the shown diagnostic and the closing code fence, in that order. Its
      length is bounded by the link's length plus a constant. */
  function FailureText(url: string, error: string): (t: string)
    ensures var k := |url| + |FailedMark|;
      k + |Truncate(error)| + |CodeEnd| == |t|
      && t[..|url|] == url
      && t[|url|..k] == FailedMark
      && t[k..k + |Truncate(error)|] == Truncate(error)
      && t[|t| - |CodeEnd|..] == CodeEnd
    ensures |t| <= |url| + |FailedMark| + MaxErrorLength + |CodeEnd|
  {
    url + FailedMark + Truncate(error) + CodeEnd
  }

  /** The shown diagnostic can be read back from the failure text, so two
      failures for the same link read alike exactly when their diagnostics
      agree on the first 4000 characters. */
  lemma FailureTextInjective(url: string, e1: string, e2: string)
    ensures FailureText(url, e1) == FailureText(url, e2) <==> Truncate(e1) == Truncate(e2)
  {
    if FailureText(url, e1) == FailureText(url, e2) {
      var k := |url| + |FailedMark|;
      assert |Truncate(e1)| == |Truncate(e2)|;
      assert Truncate(e1) == FailureText(url, e1)[k..k + |Truncate(e1)|];
    }
  }

  /** A diagnostic longer than 4000 characters is cut to its first 4000;
      what follows them never shows. */
  lemma TruncateKeepsHead(e1: string, e2: string)
    requires |e1| >= MaxErrorLength && |e2| >= MaxErrorLength
    requires e1[..MaxErrorLength] == e2[..MaxErrorLength]
    ensures Truncate(e1) == Truncate(e2) == e1[..MaxErrorLength]
  {
  }

  /** The texts the status message shows, from its creation on. */
  function StatusHistory(url: string, result: DownloadResult): (h: seq<string>)
    ensures |h| > 0 && h[0] == Processing
  {
    [Processing] +
    match result
    case Success(_) => [SendingNow, Done]
    case Failure(error) => [FailureText(url, error)]
    case Raised => []
  }

  /** What the job sends, in order: the status message, then on success the
      "sending" edit, the video with its keyboard and the success edit, on
      failure one edit with the error. */
  function JobTrace(url: string, result: DownloadResult, caption: string): (trace: seq<Action>)
    ensures |trace| > 0 && trace[0] == Reply(Processing)
  {
    [Reply(Processing)] +
    match result
    case Success(path) => [Edit(SendingNow), SendVideo(path, caption, AudioKeyboard), Edit(Done)]
    case Failure(error) => [Edit(FailureText(url, error))]
    case Raised => []
  }

  /** The temporary directory once the job is over: removed when the
      downloader answered, left in place when it raised. */
  function DirAfter(result: DownloadResult): (d: DirState)
    ensures d == Removed <==> !result.Raised?
  {
    if result.Raised? then Live else Removed
  }

  /** The status message shows the text it was created with, then the text
      of each edit of the job, in order. */
  lemma StatusFollowsEdits(url: string, result: DownloadResult, caption: string)
    ensures StatusHistory(url, result) == [Processing] + Edits(JobTrace(url, result, caption))
  {
    var rest := JobTrace(url, result, caption)[1..];
    assert JobTrace(url, result, caption) == [Reply(Processing)] + rest;
    EditsAppend([Reply(Processing)], rest);
    match result {
      case Success(path) =>
        EditsAppend([Edit(SendingNow)], [SendVideo(path, caption, AudioKeyboard), Edit(Done)]);
        EditsAppend([SendVideo(path, caption, AudioKeyboard)], [Edit(Done)]);
      case Failure(error) =>
      case Raised =>
    }
  }

  /** On success exactly one video is sent, and the only button it carries
      is the audio button; the status goes "sending" then "success". */
  lemma SuccessDelivers(url: string, path: string, caption: string)
    ensures var trace := JobTrace(url, Success(path), caption);
      Videos(trace) == 1 && Buttons(trace) == [AudioButton]
      && StatusHistory(url, Success(path)) == [Processing, SendingNow, Done]
  {
    var trace := JobTrace(url, Success(path), caption);
    var video := SendVideo(path, caption, AudioKeyboard);
    assert trace == [Reply(Processing), Edit(SendingNow)] + ([video] + [Edit(Done)]);
    VideosAppend([Reply(Processing), Edit(SendingNow)], [video] + [Edit(Done)]);
    VideosAppend([video], [Edit(Done)]);
    ButtonsAppend([Reply(Processing), Edit(SendingNow)], [video] + [Edit(Done)]);
    ButtonsAppend([video], [Edit(Done)]);
    assert Flatten(AudioKeyboard) == [AudioButton];
  }

  /** On failure no video and no button is sent, the status is edited once,
      and the diagnostic it shows is a prefix of the error of at most 4000
      characters. */
  lemma FailureReports(url: string, error: string, caption: string)
    ensures var trace := JobTrace(url, Failure(error), caption);
      Videos(trace) == 0 && Buttons(trace) == []
      && Edits(trace) == [FailureText(url, error)]
      && |Truncate(error)| <= MaxErrorLength && StartsWith(error, Truncate(error))
  {
    var trace := JobTrace(url, Failure(error), caption);
    NoVideosNoButtons(trace);
  }
}
