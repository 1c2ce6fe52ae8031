/** The file name under which the audio button's handler (`answer`) sends the
    converted audio: the video's file name with `mp4` replaced by `m4a`. */
module Audio {
  import opened Text

  const VideoTag := "mp4"
  const AudioTag := "m4a"

  /** `mp4_name.replace("mp4", "m4a")`: every `mp4`, wherever it stands in
      the name, becomes `m4a`. The name keeps its length and no `mp4` is left
      in it. */
  function AudioName(name: string): (r: string)
    ensures |r| == |name|
    ensures !Contains(r, VideoTag)
  {
    NoVideoTagLeft(name);
    ReplaceAll(name, VideoTag, AudioTag)
  }

  /** The first character after the replacement: `m` where an `mp4` starts,
      the name's own first character otherwise, in which case the rest is
      the replacement of the rest. */
  lemma ReplacedHead(s: string)
    requires |s| > 0
    ensures var r := ReplaceAll(s, VideoTag, AudioTag);
      |r| == |s| && r[0] == (if StartsWith(s, VideoTag) then 'm' else s[0])
    ensures !StartsWith(s, VideoTag) ==>
      ReplaceAll(s, VideoTag, AudioTag)[1..] == ReplaceAll(s[1..], VideoTag, AudioTag)
  {
  }

  /** `m4a` in front of a text without `mp4` does not create one. */
  lemma NoVideoTagAfterAudioTag(x: string)
    requires !Contains(x, VideoTag)
    ensures !Contains(AudioTag + x, VideoTag)
  {
    var s := AudioTag + x;
    MismatchAt(s, VideoTag, 1);
    ContainsStep(s, VideoTag);
    assert s[1..] == ['4', 'a'] + x;
    MismatchAt(s[1..], VideoTag, 0);
    ContainsStep(s[1..], VideoTag);
    assert s[1..][1..] == ['a'] + x;
    MismatchAt(s[1..][1..], VideoTag, 0);
    ContainsStep(s[1..][1..], VideoTag);
    assert s[1..][1..][1..] == x;
  }

  /** After the replacement no `mp4` is left: the replacement text has no
      `p`, and a kept `m` is never followed by a kept `p` and a kept `4`,
      since those three would have been replaced. */
  lemma {:induction false} NoVideoTagLeft(s: string)
    ensures !Contains(ReplaceAll(s, VideoTag, AudioTag), VideoTag)
    decreases |s|
  {
    var r := ReplaceAll(s, VideoTag, AudioTag);
    if |s| == 0 {
    } else if StartsWith(s, VideoTag) {
      NoVideoTagLeft(s[3..]);
      NoVideoTagAfterAudioTag(ReplaceAll(s[3..], VideoTag, AudioTag));
    } else {
      var t := s[1..];
      NoVideoTagLeft(t);
      ReplacedHead(s);
      assert r == [s[0]] + ReplaceAll(t, VideoTag, AudioTag);
      KeptHeadStartsNoTag(s);
      ContainsStep(r, VideoTag);
    }
  }

  /** Where the name does not start with `mp4`, neither does its
      replacement. */
  lemma KeptHeadStartsNoTag(s: string)
    requires |s| > 0 && !StartsWith(s, VideoTag)
    ensures !StartsWith(ReplaceAll(s, VideoTag, AudioTag), VideoTag)
  {
    var r := ReplaceAll(s, VideoTag, AudioTag);
    ReplacedHead(s);
    if s[0] != 'm' {
      MismatchAt(r, VideoTag, 0);
    } else if |s| >= 3 {
      KeptM(s);
      if r[1] != 'p' {
        MismatchAt(r, VideoTag, 1);
      } else {
        MismatchAt(r, VideoTag, 2);
      }
    }
  }

  /** A kept `m` is not followed by `p4` in the replacement. */
  lemma KeptM(s: string)
    requires |s| >= 3 && s[0] == 'm' && !StartsWith(s, VideoTag)
    ensures var r := ReplaceAll(s, VideoTag, AudioTag);
      r[1] != 'p' || r[2] != '4'
  {
    var t := s[1..];
    ReplacedHead(s);
    ReplacedHead(t);
    if t[0] == 'p' {
      assert s[2] != '4' by {
        assert s[..3] == [s[0], s[1], s[2]];
      }
      ReplacedHead(t[1..]);
    }
  }

  /** The replacement is idempotent. */
  lemma AudioNameIdempotent(name: string)
    ensures AudioName(AudioName(name)) == AudioName(name)
  {
    ReplaceAllAbsent(AudioName(name), VideoTag, AudioTag);
  }

  /** A name that holds no `mp4` other than its `.mp4` extension gets the
      extension `.m4a` and is otherwise unchanged. */
  lemma {:induction false} ExtensionSwapped(base: string)
    requires !Contains(base, VideoTag)
    ensures AudioName(base + ".mp4") == base + ".m4a"
    decreases |base|
  {
    var s := base + ".mp4";
    if base == [] {
      assert s == ['.'] + VideoTag;
      MismatchAt(s, VideoTag, 0);
      assert s[1..] == VideoTag && VideoTag[3..] == [];
      assert ReplaceAll(VideoTag, VideoTag, AudioTag) == AudioTag;
      assert ['.'] + AudioTag == base + ".m4a";
    } else {
      if |base| >= 3 {
        assert s[..3] == base[..3];
      } else {
        assert s[|base|] == '.';
        MismatchAt(s, VideoTag, |base|);
      }
      ContainsStep(base, VideoTag);
      ExtensionSwapped(base[1..]);
      assert s[1..] == base[1..] + ".mp4";
      assert [base[0]] + (base[1..] + ".m4a") == base + ".m4a";
    }
  }

  /** The replacement is not limited to the extension: an `mp4` at the front
      of the name is replaced as well. */
  lemma ReplacedAtFront(rest: string)
    ensures AudioName(VideoTag + rest) == AudioTag + AudioName(rest)
  {
    assert (VideoTag + rest)[..3] == VideoTag;
    assert (VideoTag + rest)[3..] == rest;
  }
}
