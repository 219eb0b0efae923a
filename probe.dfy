/**
 * The post-processing of ffmpeg.probe: the stream-count check, the duration,
 * the sort by stream index and the classification into video and audio
 * stream summaries. The ffprobe run and its JSON decoding are replaced by an
 * already-decoded ProbeOutput.
 */
module Probe {
  import opened Wrappers
  import opened Decimal

  /** One entry of ffprobe's "streams" list, with the fields probe reads. */
  datatype Stream = Stream(
    index: int,
    codecType: string,
    codecName: string,
    channels: int,
    frameRate: string,                 // r_frame_rate, "<num>/<den>"
    tags: Option<map<string, string>>) // None when the stream has no "tags"

  /**
   * ffprobe's decoded output. The duration is float(format.duration) in
   * microseconds, None when that field is missing or float() refuses it.
   */
  datatype ProbeOutput = ProbeOutput(streams: seq<Stream>, formatName: string, duration: Option<int>)

  /** A frame rate as the two integers truediv divides. */
  datatype Fraction = Fraction(num: int, den: int)

  datatype VideoStream = VideoStream(codec: string, fps: Fraction)
  datatype AudioStream = AudioStream(codec: string, channels: int, language: string)
  datatype Container = Container(format: string, durationUs: int)
  datatype MediaInfo = MediaInfo(container: Container, video: seq<VideoStream>, audio: seq<AudioStream>)

  datatype ProbeError =
    | TooManyStreams               // the assertion on len(streams)
    | BadDuration                  // KeyError or ValueError from float(duration)
    | BadFrameRate(text: string)   // ValueError, TypeError or ZeroDivisionError computing fps
    | UnsupportedStream(codecType: string) // NotImplementedError

  const MaxStreams: nat := 2

  // ---------------------------------------------------------------------
  // The frame rate

  /** Position of the first '/' of s, or |s| when there is none. */
  function FirstSlash(s: string): (k: nat)
    ensures k <= |s|
  {
    if s == [] || s[0] == '/' then 0 else 1 + FirstSlash(s[1..])
  }

  /** The first slash is a slash, and nothing before it is. */
  lemma {:induction false} FirstSlashShape(s: string)
    ensures var k := FirstSlash(s);
      && (k < |s| ==> s[k] == '/')
      && forall j :: 0 <= j < k ==> s[j] != '/'
    decreases |s|
  {
    if s != [] && s[0] != '/' {
      FirstSlashShape(s[1..]);
      assert forall j :: 1 <= j < |s| ==> s[j] == s[1..][j - 1];
    }
  }

  /** The first slash of a + "/" + b, when a has none, is the one after a. */
  lemma FirstSlashAfter(a: string, b: string)
    requires '/' !in a
    ensures FirstSlash(a + "/" + b) == |a|
  {
    var t := a + "/" + b;
    FirstSlashShape(t);
    assert t[|a|] == '/';
    assert forall j :: 0 <= j < |a| ==> t[j] == a[j];
  }

  /**
   * truediv(*(int(i) for i in text.split('/'))): exactly two parts, both
   * integers, and a non-zero denominator.
   */
  function ParseFrameRate(text: string): Option<Fraction> {
    var k := FirstSlash(text);
    if k == |text| || '/' in text[k + 1..] then None
    else
      match (ParseInt(text[..k]), ParseInt(text[k + 1..]))
      case (Some(n), Some(d)) => if d == 0 then None else Some(Fraction(n, d))
      case _ => None
  }

  lemma NumberTextHasNoSlash(s: string)
    requires NumberText(s)
    ensures '/' !in s
  {
  }

  /** r_frame_rate as ffprobe prints it reads back as the same fraction. */
  lemma FrameRateRoundTrip(num: int, den: int)
    requires den != 0
    ensures ParseFrameRate(IntToString(num) + "/" + IntToString(den)) == Some(Fraction(num, den))
  {
    var a, b := IntToString(num), IntToString(den);
    var t := a + "/" + b;
    NumberTextHasNoSlash(a);
    NumberTextHasNoSlash(b);
    FirstSlashAfter(a, b);
    assert t[..|a|] == a && t[|a| + 1..] == b;
    IntRoundTrip(num);
    IntRoundTrip(den);
  }

  /** A zero denominator is refused (Python's ZeroDivisionError). */
  lemma ZeroDenominatorRefused(num: int)
    ensures ParseFrameRate(IntToString(num) + "/0") == None
  {
    var a := IntToString(num);
    var t := a + "/0";
    assert t == a + "/" + "0";
    NumberTextHasNoSlash(a);
    FirstSlashAfter(a, "0");
    assert t[..|a|] == a && t[|a| + 1..] == "0";
    assert '/' !in "0";
    assert ParseNat("0") == Some(0);
  }

  // ---------------------------------------------------------------------
  // sorted(streams, key=index)

  predicate SortedByIndex(ss: seq<Stream>) {
    forall i, j :: 0 <= i < j < |ss| ==> ss[i].index <= ss[j].index
  }

  /** Inserts x after every element whose index is not larger, as a stable sort does. */
  function Insert(ss: seq<Stream>, x: Stream): seq<Stream>
  {
    if ss == [] || ss[|ss| - 1].index <= x.index then ss + [x]
    else Insert(ss[..|ss| - 1], x) + [ss[|ss| - 1]]
  }

  function SortByIndex(ss: seq<Stream>): seq<Stream>
  {
    if ss == [] then [] else Insert(SortByIndex(ss[..|ss| - 1]), ss[|ss| - 1])
  }

  lemma {:induction false} InsertPermutes(ss: seq<Stream>, x: Stream)
    ensures multiset(Insert(ss, x)) == multiset(ss) + multiset{x}
    decreases |ss|
  {
    if !(ss == [] || ss[|ss| - 1].index <= x.index) {
      InsertPermutes(ss[..|ss| - 1], x);
      assert ss == ss[..|ss| - 1] + [ss[|ss| - 1]];
    }
  }

  lemma {:induction false} InsertSorted(ss: seq<Stream>, x: Stream)
    requires SortedByIndex(ss)
    ensures SortedByIndex(Insert(ss, x))
    decreases |ss|
  {
    if !(ss == [] || ss[|ss| - 1].index <= x.index) {
      var init, last := ss[..|ss| - 1], ss[|ss| - 1];
      assert SortedByIndex(init);
      InsertSorted(init, x);
      InsertPermutes(init, x);
      var r := Insert(init, x);
      forall i | 0 <= i < |r| ensures r[i].index <= last.index {
        assert r[i] in multiset(r);
        if r[i] != x {
          assert r[i] in multiset(init);
          var j :| 0 <= j < |init| && init[j] == r[i];
        }
      }
    }
  }

  lemma {:induction false} SortByIndexSorted(ss: seq<Stream>)
    ensures SortedByIndex(SortByIndex(ss))
    decreases |ss|
  {
    if ss != [] {
      SortByIndexSorted(ss[..|ss| - 1]);
      InsertSorted(SortByIndex(ss[..|ss| - 1]), ss[|ss| - 1]);
    }
  }

  lemma {:induction false} SortByIndexPermutes(ss: seq<Stream>)
    ensures multiset(SortByIndex(ss)) == multiset(ss)
    decreases |ss|
  {
    if ss != [] {
      SortByIndexPermutes(ss[..|ss| - 1]);
      InsertPermutes(SortByIndex(ss[..|ss| - 1]), ss[|ss| - 1]);
      assert ss == ss[..|ss| - 1] + [ss[|ss| - 1]];
    }
  }

  /** The sorted streams are ordered by index and are a permutation of the input. */
  lemma SortByIndexCorrect(ss: seq<Stream>)
    ensures SortedByIndex(SortByIndex(ss))
    ensures multiset(SortByIndex(ss)) == multiset(ss)
    ensures |SortByIndex(ss)| == |ss|
  {
    SortByIndexSorted(ss);
    SortByIndexPermutes(ss);
    assert |multiset(SortByIndex(ss))| == |multiset(ss)|;
  }

  /** The streams whose index is v, in list order. */
  function WithIndex(ss: seq<Stream>, v: int): seq<Stream> {
    if ss == [] then []
    else
      var last := ss[|ss| - 1];
      WithIndex(ss[..|ss| - 1], v) + (if last.index == v then [last] else [])
  }

  lemma WithIndexAppend(ss: seq<Stream>, x: Stream, v: int)
    ensures WithIndex(ss + [x], v) == WithIndex(ss, v) + (if x.index == v then [x] else [])
  {
    assert (ss + [x])[..|ss|] == ss;
  }

  /** Inserting x adds it after the streams of its own index and leaves the other indices' streams as they were. */
  lemma {:induction false} InsertKeepsOrder(ss: seq<Stream>, x: Stream, v: int)
    ensures WithIndex(Insert(ss, x), v) == WithIndex(ss, v) + (if x.index == v then [x] else [])
    decreases |ss|
  {
    if ss == [] || ss[|ss| - 1].index <= x.index {
      WithIndexAppend(ss, x, v);
    } else {
      var init, last := ss[..|ss| - 1], ss[|ss| - 1];
      InsertKeepsOrder(init, x, v);
      WithIndexAppend(Insert(init, x), last, v);
      assert WithIndex(ss, v) == WithIndex(init, v) + (if last.index == v then [last] else []);
      if x.index == v {
        assert last.index != v;
      }
    }
  }

  /** The sort is stable: the streams sharing an index keep their input order. */
  lemma {:induction false} SortByIndexStable(ss: seq<Stream>, v: int)
    ensures WithIndex(SortByIndex(ss), v) == WithIndex(ss, v)
    decreases |ss|
  {
    if ss != [] {
      var init, last := ss[..|ss| - 1], ss[|ss| - 1];
      SortByIndexStable(init, v);
      InsertKeepsOrder(SortByIndex(init), last, v);
    }
  }

  /** Streams already in index order stay where they are. */
  lemma {:induction false} SortByIndexKeepsSorted(ss: seq<Stream>)
    requires SortedByIndex(ss)
    ensures SortByIndex(ss) == ss
    decreases |ss|
  {
    if ss != [] {
      assert SortedByIndex(ss[..|ss| - 1]);
      SortByIndexKeepsSorted(ss[..|ss| - 1]);
      assert ss == ss[..|ss| - 1] + [ss[|ss| - 1]];
    }
  }

  // ---------------------------------------------------------------------
  // Classification

  predicate IsVideo(s: Stream) {
    s.codecType == "video"
  }

  predicate IsAudio(s: Stream) {
    s.codecType == "audio"
  }

  /** What stops the loop at this stream, if anything. */
  function Problem(s: Stream): Option<ProbeError> {
    if IsVideo(s) then
      if ParseFrameRate(s.frameRate).None? then Some(BadFrameRate(s.frameRate)) else None
    else if IsAudio(s) then None
    else Some(UnsupportedStream(s.codecType))
  }

  /** The first stream's problem, in list order. */
  function FirstProblem(ss: seq<Stream>): Option<ProbeError> {
    if ss == [] then None
    else if Problem(ss[0]).Some? then Problem(ss[0])
    else FirstProblem(ss[1..])
  }

  /** stream.get('tags', {}).get('language', '') */
  function Language(s: Stream): string {
    if s.tags.Some? && "language" in s.tags.value then s.tags.value["language"] else ""
  }

  function VideoOf(s: Stream): VideoStream
    requires IsVideo(s) && ParseFrameRate(s.frameRate).Some?
  {
    VideoStream(s.codecName, ParseFrameRate(s.frameRate).value)
  }

  function AudioOf(s: Stream): AudioStream {
    AudioStream(s.codecName, s.channels, Language(s))
  }

  /** The video summaries of the streams that have a usable frame rate, in order. */
  function Videos(ss: seq<Stream>): seq<VideoStream> {
    if ss == [] then []
    else
      var last := ss[|ss| - 1];
      Videos(ss[..|ss| - 1]) + (if IsVideo(last) && ParseFrameRate(last.frameRate).Some? then [VideoOf(last)] else [])
  }

  /** The audio summaries, in order. */
  function Audios(ss: seq<Stream>): seq<AudioStream> {
    if ss == [] then []
    else
      var last := ss[|ss| - 1];
      Audios(ss[..|ss| - 1]) + (if IsAudio(last) then [AudioOf(last)] else [])
  }

  lemma {:induction false} FirstProblemNone(ss: seq<Stream>)
    ensures FirstProblem(ss).None? <==> forall i :: 0 <= i < |ss| ==> Problem(ss[i]).None?
    decreases |ss|
  {
    if ss != [] {
      FirstProblemNone(ss[1..]);
      assert forall i :: 1 <= i < |ss| ==> ss[i] == ss[1..][i - 1];
    }
  }

  /** Past a prefix without problems, the first problem is the first one of the rest. */
  lemma {:induction false} FirstProblemAfter(ss: seq<Stream>, i: nat)
    requires i <= |ss|
    requires forall j :: 0 <= j < i ==> Problem(ss[j]).None?
    ensures FirstProblem(ss) == FirstProblem(ss[i..])
    decreases i
  {
    if i > 0 {
      assert ss[1..][i - 1..] == ss[i..];
      FirstProblemAfter(ss[1..], i - 1);
    }
  }

  /**
   * The loop over the sorted streams: video streams append to one list,
   * audio streams to the other, and the first stream that is neither, or
   * whose frame rate cannot be computed, ends it with that error.
   */
  method Classify(ss: seq<Stream>) returns (r: Result<(seq<VideoStream>, seq<AudioStream>), ProbeError>)
    ensures r.Ok? <==> FirstProblem(ss).None?
    ensures r.Err? ==> FirstProblem(ss) == Some(r.error)
    ensures r.Ok? ==> r.value == (Videos(ss), Audios(ss))
  {
    var video: seq<VideoStream> := [];
    var audio: seq<AudioStream> := [];
    var i := 0;
    while i < |ss|
      invariant ClassifiedUpTo(ss, i, video, audio)
    {
      var s := ss[i];
      if IsVideo(s) {
        var fps := ParseFrameRate(s.frameRate);
        if fps.None? {
          FirstProblemAfter(ss, i);
          return Err(BadFrameRate(s.frameRate));
        }
        VideoStep(ss, i, video, audio, fps.value);
        video := video + [VideoStream(s.codecName, fps.value)];
      } else if IsAudio(s) {
        AudioStep(ss, i, video, audio);
        audio := audio + [AudioStream(s.codecName, s.channels, Language(s))];
      } else {
        FirstProblemAfter(ss, i);
        return Err(UnsupportedStream(s.codecType));
      }
      i := i + 1;
    }
    assert ss[..i] == ss;
    FirstProblemNone(ss);
    return Ok((video, audio));
  }

  lemma VideoIsNotAudio()
    ensures "video" != "audio"
  {
    assert "video"[0] != "audio"[0];
  }

  /** The loop's state after the first i streams: no problem so far, and the lists of those streams. */
  predicate ClassifiedUpTo(ss: seq<Stream>, i: nat, video: seq<VideoStream>, audio: seq<AudioStream>) {
    && i <= |ss|
    && (forall j :: 0 <= j < i ==> Problem(ss[j]).None?)
    && video == Videos(ss[..i]) && audio == Audios(ss[..i])
  }

  /** A video stream with a usable frame rate extends the video list and only that one. */
  lemma VideoStep(ss: seq<Stream>, i: nat, video: seq<VideoStream>, audio: seq<AudioStream>, fps: Fraction)
    requires ClassifiedUpTo(ss, i, video, audio)
    requires i < |ss| && IsVideo(ss[i]) && ParseFrameRate(ss[i].frameRate) == Some(fps)
    ensures ClassifiedUpTo(ss, i + 1, video + [VideoStream(ss[i].codecName, fps)], audio)
  {
    VideoIsNotAudio();
    assert ss[..i + 1][..i] == ss[..i];
  }

  /** An audio stream extends the audio list and only that one. */
  lemma AudioStep(ss: seq<Stream>, i: nat, video: seq<VideoStream>, audio: seq<AudioStream>)
    requires ClassifiedUpTo(ss, i, video, audio)
    requires i < |ss| && !IsVideo(ss[i]) && IsAudio(ss[i])
    ensures ClassifiedUpTo(ss, i + 1, video, audio + [AudioStream(ss[i].codecName, ss[i].channels, Language(ss[i]))])
  {
    assert ss[..i + 1][..i] == ss[..i];
  }

  /** Without problems every stream lands in exactly one of the two lists. */
  lemma {:induction false} EveryStreamClassified(ss: seq<Stream>)
    requires forall i :: 0 <= i < |ss| ==> Problem(ss[i]).None?
    ensures |Videos(ss)| + |Audios(ss)| == |ss|
    ensures |Videos(ss)| == |Filter(ss, true)| && |Audios(ss)| == |Filter(ss, false)|
    decreases |ss|
  {
    if ss != [] {
      EveryStreamClassified(ss[..|ss| - 1]);
    }
  }

  /** The video streams (true) or the audio streams (false), in order. */
  function Filter(ss: seq<Stream>, video: bool): seq<Stream> {
    if ss == [] then []
    else
      var last := ss[|ss| - 1];
      Filter(ss[..|ss| - 1], video) + (if (if video then IsVideo(last) else IsAudio(last)) then [last] else [])
  }

  /**
   * The audio list is the audio streams in order, each with its codec, its
   * channel count and its language tag, or "" when the stream has no tags
   * or no language among them.
   */
  lemma {:induction false} AudiosAreAudioStreams(ss: seq<Stream>)
    ensures |Audios(ss)| == |Filter(ss, false)|
    ensures forall i :: 0 <= i < |Audios(ss)| ==>
      var s := Filter(ss, false)[i];
      && Audios(ss)[i].codec == s.codecName
      && Audios(ss)[i].channels == s.channels
      && Audios(ss)[i].language == (if s.tags.Some? && "language" in s.tags.value then s.tags.value["language"] else "")
    decreases |ss|
  {
    if ss != [] {
      AudiosAreAudioStreams(ss[..|ss| - 1]);
    }
  }

  /** The video list, stream by stream, carries the codec and the frame rate as a fraction. */
  lemma {:induction false} VideosAreVideoStreams(ss: seq<Stream>)
    requires forall i :: 0 <= i < |ss| ==> Problem(ss[i]).None?
    ensures |Videos(ss)| == |Filter(ss, true)|
    ensures forall i :: 0 <= i < |Videos(ss)| ==>
      var s := Filter(ss, true)[i];
      && Videos(ss)[i].codec == s.codecName
      && ParseFrameRate(s.frameRate) == Some(Videos(ss)[i].fps)
      && Videos(ss)[i].fps.den != 0
    decreases |ss|
  {
    if ss != [] {
      VideosAreVideoStreams(ss[..|ss| - 1]);
    }
  }

  /** Filtering keeps the index order of a sorted list. */
  lemma {:induction false} FilterSorted(ss: seq<Stream>, video: bool)
    requires SortedByIndex(ss)
    ensures SortedByIndex(Filter(ss, video))
    decreases |ss|
  {
    if ss != [] {
      var init, last := ss[..|ss| - 1], ss[|ss| - 1];
      assert SortedByIndex(init);
      FilterSorted(init, video);
      FilterKeeps(init, video);
      var f := Filter(init, video);
      forall i | 0 <= i < |f| ensures f[i].index <= last.index {
        var j :| 0 <= j < |init| && init[j] == f[i];
      }
    }
  }

  /** Filtering only keeps streams of the list. */
  lemma {:induction false} FilterKeeps(ss: seq<Stream>, video: bool)
    ensures forall i :: 0 <= i < |Filter(ss, video)| ==> Filter(ss, video)[i] in ss
    decreases |ss|
  {
    if ss != [] {
      var init := ss[..|ss| - 1];
      FilterKeeps(init, video);
      assert forall x :: x in init ==> x in ss;
    }
  }

  // ---------------------------------------------------------------------
  // probe

  /** The stream summaries and the container of a successful probe. */
  function ProbeResult(out: ProbeOutput): MediaInfo
    requires out.duration.Some?
  {
    var sorted := SortByIndex(out.streams);
    MediaInfo(Container(out.formatName, out.duration.value), Videos(sorted), Audios(sorted))
  }

  /**
   * ffmpeg.probe after ffprobe has run: more than two streams is an error,
   * then a missing or unreadable duration, then the first unsupported stream
   * in index order; otherwise the two lists, in index order.
   */
  method ProbeStreams(out: ProbeOutput) returns (r: Result<MediaInfo, ProbeError>)
    ensures |out.streams| > MaxStreams ==> r == Err(TooManyStreams)
    ensures |out.streams| <= MaxStreams && out.duration.None? ==> r == Err(BadDuration)
    ensures |out.streams| <= MaxStreams && out.duration.Some? ==>
      && (r.Ok? <==> forall i :: 0 <= i < |out.streams| ==> Problem(out.streams[i]).None?)
      && (r.Err? ==> FirstProblem(SortByIndex(out.streams)) == Some(r.error))
      && (r.Ok? ==> r.value == ProbeResult(out))
  {
    if |out.streams| > MaxStreams {
      return Err(TooManyStreams);
    }
    if out.duration.None? {
      return Err(BadDuration);
    }
    var sorted := SortByIndex(out.streams);
    var c := Classify(sorted);
    SortByIndexCorrect(out.streams);
    FirstProblemNone(sorted);
    AllPermuted(out.streams, sorted);
    if c.Err? {
      return Err(c.error);
    }
    var (video, audio) := c.value;
    return Ok(MediaInfo(Container(out.formatName, out.duration.value), video, audio));
  }

  /** A property of every stream holds of every stream of a permutation. */
  lemma AllPermuted(a: seq<Stream>, b: seq<Stream>)
    requires multiset(a) == multiset(b)
    ensures (forall i :: 0 <= i < |a| ==> Problem(a[i]).None?) <==> (forall i :: 0 <= i < |b| ==> Problem(b[i]).None?)
  {
    forall i | 0 <= i < |b| ensures b[i] in multiset(a) { assert b[i] in multiset(b); }
    forall i | 0 <= i < |a| ensures a[i] in multiset(b) { assert a[i] in multiset(a); }
  }

  /**
   * On success each list is in ascending stream index, every stream of the
   * input is in exactly one of them, and the container is the format name
   * with the duration.
   */
  lemma ProbeResultOrdered(out: ProbeOutput)
    requires out.duration.Some?
    requires forall i :: 0 <= i < |out.streams| ==> Problem(out.streams[i]).None?
    ensures var m := ProbeResult(out); var sorted := SortByIndex(out.streams);
      && m.container == Container(out.formatName, out.duration.value)
      && |m.video| + |m.audio| == |out.streams|
      && |m.video| == |Filter(sorted, true)| && SortedByIndex(Filter(sorted, true))
      && |m.audio| == |Filter(sorted, false)| && SortedByIndex(Filter(sorted, false))
  {
    var sorted := SortByIndex(out.streams);
    SortByIndexCorrect(out.streams);
    AllPermuted(out.streams, sorted);
    EveryStreamClassified(sorted);
    FilterSorted(sorted, true);
    FilterSorted(sorted, false);
  }
}
