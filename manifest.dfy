/**
 * The HLS VOD playlist that ffmpeg.generate_manifest renders for a media
 * duration and a segment length (HTTP Live Streaming, RFC 8216).
 *
 * Durations and offsets are whole microseconds, which is exactly the
 * precision "{:0.6f}" prints; the segment length is a whole number of
 * seconds, as the callers pass it (an int, 10 by default).
 */
module Manifest {
  import opened Wrappers
  import opened Decimal
  import opened Text

  /** ZeroDivisionError of duration / segment_length. */
  datatype ManifestError = ZeroSegmentLength

  /** What one playlist entry's URI carries. Times are microseconds. */
  datatype Segment = Segment(index: nat, offset: int, length: int)

  const EndList: string := "#EXT-X-ENDLIST"
  const Discontinuity: string := "#EXT-X-DISCONTINUITY"
  const TargetDurationTag: string := "#EXT-X-TARGETDURATION:"
  const ExtInfTag: string := "#EXTINF:"

  /** math.ceil(a / b). */
  function CeilDiv(a: int, b: int): (q: int)
    requires b != 0
    ensures b > 0 ==> (q - 1) * b < a <= q * b
    ensures b < 0 ==> q * b <= a < (q - 1) * b
    decreases if b < 0 then 1 else 0
  {
    if b < 0 then
      var q := CeilDiv(-a, -b);
      NegateProducts(q, b);
      q
    else
      var q := if a % b == 0 then a / b else a / b + 1;
      CeilDivBounds(a, b, q);
      q
  }

  lemma NegateProducts(q: int, b: int)
    ensures (q - 1) * (-b) == -((q - 1) * b) && q * (-b) == -(q * b)
  {
  }

  lemma CeilDivBounds(a: int, b: int, q: int)
    requires b > 0
    requires q == if a % b == 0 then a / b else a / b + 1
    ensures (q - 1) * b < a <= q * b
  {
    var f, r := a / b, a % b;
    assert a == f * b + r && 0 <= r < b;
    if r == 0 {
      assert q * b == a;
      assert (q - 1) * b == q * b - b;
    } else {
      assert (q - 1) * b == f * b;
      assert q * b == f * b + b;
    }
  }

  /**
   * len(range(0, math.ceil(duration / segment_length))): the number of
   * playlist entries, with the duration in microseconds.
   */
  function SegmentCount(durationUs: int, segmentSeconds: int): (n: nat)
    requires segmentSeconds != 0
    ensures segmentSeconds > 0 ==> (n == 0 <==> durationUs <= 0)
    ensures segmentSeconds < 0 ==> (n == 0 <==> durationUs >= 0)
    ensures segmentSeconds > 0 && durationUs > 0 ==>
      (n - 1) * (segmentSeconds * MicrosPerSecond) < durationUs <= n * (segmentSeconds * MicrosPerSecond)
  {
    var q := CeilDiv(durationUs, segmentSeconds * MicrosPerSecond);
    if q < 0 then 0 else q
  }

  /** The offset the source writes into the URI of entry i of n (first, last, other). */
  function Offset(durationUs: int, segmentSeconds: int, n: nat, i: nat): int {
    if i == 0 then 0
    else if i == n - 1 then durationUs - segmentSeconds * MicrosPerSecond * i
    else segmentSeconds * MicrosPerSecond * i
  }

  /** The entries exactly as the source declares them: every one is segment_length long. */
  function WrittenSegments(durationUs: int, segmentSeconds: int): (segs: seq<Segment>)
    requires segmentSeconds != 0
    ensures |segs| == SegmentCount(durationUs, segmentSeconds)
    ensures Indexed(segs)
  {
    var n := SegmentCount(durationUs, segmentSeconds);
    seq(n, i requires 0 <= i < n =>
      Segment(i, Offset(durationUs, segmentSeconds, n, i), segmentSeconds * MicrosPerSecond))
  }

  /** Entry i sits at position i and carries index i. */
  predicate Indexed(segs: seq<Segment>) {
    forall i :: 0 <= i < |segs| ==> segs[i].index == i
  }

  /** The six header lines that do not depend on the segment length. */
  const FixedHeader: seq<string> := [
    "#EXTM3U",
    "#EXT-X-VERSION:3",
    "#EXT-X-DISCONTINUITY-SEQUENCE:0",
    "#EXT-X-MEDIA-SEQUENCE:0",
    "#EXT-X-PLAYLIST-TYPE:VOD",
    "#EXT-X-ALLOW-CACHE:YES" ]

  /** The target duration: segment_length + 1 seconds. */
  function TargetDurationLine(segmentSeconds: int): string {
    TargetDurationTag + IntToString(segmentSeconds + 1)
  }

  function HeaderLines(segmentSeconds: int): seq<string> {
    FixedHeader + [TargetDurationLine(segmentSeconds)]
  }

  function ExtInfLine(lengthUs: int): string {
    ExtInfTag + Fixed6(lengthUs) + ","
  }

  function SegmentUri(s: Segment): string {
    "hls-segment.ts?index=" + NatToString(s.index)
      + "&offset=" + Fixed6(s.offset) + "&length=" + Fixed6(s.length)
  }

  /** One element of the source's list: an optional discontinuity, the EXTINF line and the URI. */
  function EntryText(s: Segment): string {
    (if s.index != 0 then Discontinuity + [Newline] else "")
      + (ExtInfLine(s.length) + [Newline] + SegmentUri(s))
  }

  /** The list comprehension: one element per entry, in order. */
  function EntryTexts(segs: seq<Segment>): seq<string> {
    if segs == [] then [] else EntryTexts(segs[..|segs| - 1]) + [EntryText(segs[|segs| - 1])]
  }

  /** '\n'.join of the header, one element per entry, and the end tag. */
  function Render(segmentSeconds: int, segs: seq<Segment>): string {
    Join(HeaderLines(segmentSeconds) + EntryTexts(segs) + [EndList])
  }

  /** ffmpeg.generate_manifest(duration, segment_length). */
  function GenerateManifest(durationUs: int, segmentSeconds: int): (r: Result<string, ManifestError>)
    ensures r.Err? <==> segmentSeconds == 0
  {
    if segmentSeconds == 0 then Err(ZeroSegmentLength)
    else Ok(Render(segmentSeconds, WrittenSegments(durationUs, segmentSeconds)))
  }

  // ---------------------------------------------------------------------
  // The playlist as lines

  /** One line of the playlist: a fixed tag, an EXTINF declaration or a segment URI. */
  datatype Line = Tag(text: string) | ExtInf(lengthUs: int) | Uri(seg: Segment)

  function LineText(l: Line): string {
    match l
    case Tag(t) => t
    case ExtInf(d) => ExtInfLine(d)
    case Uri(s) => SegmentUri(s)
  }

  function Texts(ls: seq<Line>): (texts: seq<string>)
    ensures |texts| == |ls|
  {
    seq(|ls|, j requires 0 <= j < |ls| => LineText(ls[j]))
  }

  lemma TextAt(ls: seq<Line>, j: nat)
    requires j < |ls|
    ensures Texts(ls)[j] == LineText(ls[j])
  {
  }

  function HeaderItems(segmentSeconds: int): seq<Line> {
    var h := HeaderLines(segmentSeconds);
    seq(|h|, j requires 0 <= j < |h| => Tag(h[j]))
  }

  function EntryLines(s: Segment): seq<Line> {
    (if s.index != 0 then [Tag(Discontinuity)] else []) + [ExtInf(s.length), Uri(s)]
  }

  function BodyLines(segs: seq<Segment>): seq<Line> {
    if segs == [] then [] else BodyLines(segs[..|segs| - 1]) + EntryLines(segs[|segs| - 1])
  }

  function PlaylistItems(segmentSeconds: int, segs: seq<Segment>): seq<Line> {
    HeaderItems(segmentSeconds) + BodyLines(segs) + [Tag(EndList)]
  }

  /** Line j of the body: EXTINF, URI, discontinuity, in turn. */
  function BodyLineAt(segs: seq<Segment>, j: nat): Line
    requires j / 3 < |segs|
  {
    var s := segs[j / 3];
    if j % 3 == 0 then ExtInf(s.length)
    else if j % 3 == 1 then Uri(s)
    else Tag(Discontinuity)
  }

  /** Position of entry i's EXTINF line in the playlist (seven header lines come first). */
  function ExtInfPos(i: nat): nat {
    3 * i + 7
  }

  predicate IsExtInf(line: string) {
    |line| >= |ExtInfTag| && line[..|ExtInfTag|] == ExtInfTag
  }

  function CountExtInf(lines: seq<string>): nat {
    if lines == [] then 0
    else CountExtInf(lines[..|lines| - 1]) + (if IsExtInf(lines[|lines| - 1]) then 1 else 0)
  }

  /** The number an "#EXT-X-TARGETDURATION:" line declares, in seconds. */
  function TargetDurationOf(line: string): Option<int> {
    if |line| >= |TargetDurationTag| && line[..|TargetDurationTag|] == TargetDurationTag
    then ParseInt(line[|TargetDurationTag|..])
    else None
  }

  /** The duration an "#EXTINF:<d>," line declares, in microseconds. */
  function ExtInfDurationOf(line: string): Option<int> {
    if IsExtInf(line) && |line| > |ExtInfTag| && line[|line| - 1] == ','
    then ParseFixed6(line[|ExtInfTag|..|line| - 1])
    else None
  }

  lemma TextsAppend(a: seq<Line>, b: seq<Line>)
    ensures Texts(a + b) == Texts(a) + Texts(b)
  {
  }

  lemma EntryTextIsJoin(s: Segment)
    ensures EntryText(s) == Join(Texts(EntryLines(s)))
  {
    var a, b := ExtInfLine(s.length), SegmentUri(s);
    EntryLineTexts(s);
    if s.index != 0 {
      JoinTriple(Discontinuity, a, b);
    } else {
      JoinPair(a, b);
      assert EntryText(s) == "" + (a + [Newline] + b);
    }
  }

  lemma EntryLineTexts(s: Segment)
    ensures Texts(EntryLines(s)) ==
      (if s.index != 0 then [Discontinuity] else []) + [ExtInfLine(s.length), SegmentUri(s)]
  {
    var ls := EntryLines(s);
    var ts := (if s.index != 0 then [Discontinuity] else []) + [ExtInfLine(s.length), SegmentUri(s)];
    assert |Texts(ls)| == |ts|;
    forall j | 0 <= j < |ts| ensures Texts(ls)[j] == ts[j] {
      TextAt(ls, j);
    }
  }

  lemma {:induction false} RenderedBody(h: seq<string>, segs: seq<Segment>)
    requires |h| >= 1
    ensures Join(h + EntryTexts(segs)) == Join(h + Texts(BodyLines(segs)))
    decreases |segs|
  {
    if segs == [] {
      assert h + EntryTexts(segs) == h == h + Texts(BodyLines(segs));
    } else {
      var init, last := segs[..|segs| - 1], segs[|segs| - 1];
      RenderedBody(h, init);
      JoinAfter(h, EntryTexts(init), [EntryText(last)]);
      EntryTextIsJoin(last);
      TextsAppend(BodyLines(init), EntryLines(last));
      JoinAfter(h, Texts(BodyLines(init)), Texts(EntryLines(last)));
    }
  }

  lemma HeaderTexts(segmentSeconds: int)
    ensures Texts(HeaderItems(segmentSeconds)) == HeaderLines(segmentSeconds)
  {
  }

  lemma TextsOfPlaylist(hi: seq<Line>, b: seq<Line>, e: Line)
    ensures Texts(hi + b + [e]) == Texts(hi) + Texts(b) + [LineText(e)]
  {
    TextsAppend(hi, b);
    TextsAppend(hi + b, [e]);
  }

  lemma JoinWithEnd(h: seq<string>, x: seq<string>, y: seq<string>, e: string)
    requires |h| >= 1 && Join(h + x) == Join(h + y)
    ensures Join(h + x + [e]) == Join(h + y + [e])
  {
    JoinAppend(h + x, [e]);
    JoinAppend(h + y, [e]);
  }

  /** The rendered text is the playlist lines joined with newlines. */
  lemma RenderIsJoinOfLines(segmentSeconds: int, segs: seq<Segment>)
    ensures Render(segmentSeconds, segs) == Join(Texts(PlaylistItems(segmentSeconds, segs)))
  {
    var h := HeaderLines(segmentSeconds);
    RenderedBody(h, segs);
    JoinWithEnd(h, EntryTexts(segs), Texts(BodyLines(segs)), EndList);
    HeaderTexts(segmentSeconds);
    TextsOfPlaylist(HeaderItems(segmentSeconds), BodyLines(segs), Tag(EndList));
  }

  lemma NumberTextIsOneLine(s: string)
    requires NumberText(s)
    ensures OneLine(s)
  {
  }

  lemma OneLineConcat(a: string, b: string)
    requires OneLine(a) && OneLine(b)
    ensures OneLine(a + b)
  {
  }

  lemma ExtInfLineIsLine(d: int)
    ensures OneLine(ExtInfLine(d))
  {
    NumberTextIsOneLine(Fixed6(d));
    OneLineConcat(ExtInfTag, Fixed6(d));
    OneLineConcat(ExtInfTag + Fixed6(d), ",");
  }

  lemma UriIsLine(s: Segment)
    ensures OneLine(SegmentUri(s))
  {
    NumberTextIsOneLine(Fixed6(s.length));
    NumberTextIsOneLine(Fixed6(s.offset));
    NumberTextIsOneLine(NatToString(s.index));
    var a, b, c := NatToString(s.index), Fixed6(s.offset), Fixed6(s.length);
    OneLineConcat("hls-segment.ts?index=", a);
    OneLineConcat("hls-segment.ts?index=" + a, "&offset=");
    OneLineConcat("hls-segment.ts?index=" + a + "&offset=", b);
    OneLineConcat("hls-segment.ts?index=" + a + "&offset=" + b, "&length=");
    OneLineConcat("hls-segment.ts?index=" + a + "&offset=" + b + "&length=", c);
  }

  lemma DiscontinuityIsLine()
    ensures OneLine(Discontinuity)
  {
  }

  lemma EntryLinesAreLines(s: Segment)
    ensures AllLines(Texts(EntryLines(s)))
  {
    ExtInfLineIsLine(s.length);
    UriIsLine(s);
    DiscontinuityIsLine();
  }

  lemma {:induction false} BodyLinesAreLines(segs: seq<Segment>)
    ensures AllLines(Texts(BodyLines(segs)))
    decreases |segs|
  {
    if segs != [] {
      BodyLinesAreLines(segs[..|segs| - 1]);
      EntryLinesAreLines(segs[|segs| - 1]);
      TextsAppend(BodyLines(segs[..|segs| - 1]), EntryLines(segs[|segs| - 1]));
      AllLinesConcat(Texts(BodyLines(segs[..|segs| - 1])), Texts(EntryLines(segs[|segs| - 1])));
    }
  }

  lemma HeaderLinesAreLines(segmentSeconds: int)
    ensures AllLines(HeaderLines(segmentSeconds))
  {
    var t := TargetDurationLine(segmentSeconds);
    FixedHeaderAreLines();
    NumberTextIsOneLine(IntToString(segmentSeconds + 1));
    OneLineConcat(TargetDurationTag, IntToString(segmentSeconds + 1));
    AllLinesConcat(FixedHeader, [t]);
  }

  lemma FixedHeaderAreLines()
    ensures AllLines(FixedHeader)
  {
  }

  lemma EndListIsLine()
    ensures AllLines(Texts([Tag(EndList)]))
  {
  }

  lemma PlaylistLinesAreLines(segmentSeconds: int, segs: seq<Segment>)
    ensures AllLines(Texts(PlaylistItems(segmentSeconds, segs)))
  {
    var h, b := HeaderItems(segmentSeconds), BodyLines(segs);
    HeaderLinesAreLines(segmentSeconds);
    HeaderTexts(segmentSeconds);
    BodyLinesAreLines(segs);
    TextsAppend(h, b);
    AllLinesConcat(Texts(h), Texts(b));
    EndListIsLine();
    TextsAppend(h + b, [Tag(EndList)]);
    AllLinesConcat(Texts(h + b), Texts([Tag(EndList)]));
  }

  /** Splitting the rendered playlist at newlines gives back exactly its lines. */
  lemma SplitRender(segmentSeconds: int, segs: seq<Segment>)
    ensures Split(Render(segmentSeconds, segs)) == Texts(PlaylistItems(segmentSeconds, segs))
  {
    RenderIsJoinOfLines(segmentSeconds, segs);
    PlaylistLinesAreLines(segmentSeconds, segs);
    SplitJoin(Texts(PlaylistItems(segmentSeconds, segs)));
  }

  lemma DivMod3(k: nat)
    ensures (3 * k) / 3 == k && (3 * k) % 3 == 0
    ensures (3 * k + 1) / 3 == k && (3 * k + 1) % 3 == 1
    ensures k >= 1 ==> (3 * k - 1) / 3 == k - 1 && (3 * k - 1) % 3 == 2
  {
  }

  /** The lines of the last entry k, read through BodyLineAt. */
  lemma LastEntryLines(segs: seq<Segment>, k: nat)
    requires k == |segs| - 1 && segs[k].index == k
    ensures k == 0 ==> EntryLines(segs[k]) == [BodyLineAt(segs, 0), BodyLineAt(segs, 1)]
    ensures k > 0 ==> EntryLines(segs[k]) == [BodyLineAt(segs, 3 * k - 1), BodyLineAt(segs, 3 * k), BodyLineAt(segs, 3 * k + 1)]
  {
    DivMod3(k);
  }

  lemma BodyLineAtPrefix(segs: seq<Segment>, j: nat)
    requires |segs| >= 1 && j / 3 < |segs| - 1
    ensures BodyLineAt(segs[..|segs| - 1], j) == BodyLineAt(segs, j)
  {
    assert segs[..|segs| - 1][j / 3] == segs[j / 3];
  }

  /** Two lines for the first entry, three for each further one. */
  lemma {:induction false} BodyLength(segs: seq<Segment>)
    requires Indexed(segs)
    ensures |BodyLines(segs)| == if segs == [] then 0 else 3 * |segs| - 1
    decreases |segs|
  {
    if segs != [] {
      var init := segs[..|segs| - 1];
      assert Indexed(init) by {
        forall i | 0 <= i < |init| ensures init[i].index == i { assert init[i] == segs[i]; }
      }
      BodyLength(init);
    }
  }

  /** Entry after entry, the body is EXTINF, URI, then the next entry's discontinuity. */
  lemma {:induction false} BodyLayout(segs: seq<Segment>)
    requires Indexed(segs)
    ensures |BodyLines(segs)| == if segs == [] then 0 else 3 * |segs| - 1
    ensures forall j :: 0 <= j < |BodyLines(segs)| ==> j / 3 < |segs| && BodyLines(segs)[j] == BodyLineAt(segs, j)
    decreases |segs|
  {
    if segs != [] {
      var init, last := segs[..|segs| - 1], segs[|segs| - 1];
      assert Indexed(init) by {
        forall i | 0 <= i < |init| ensures init[i].index == i { assert init[i] == segs[i]; }
      }
      BodyLayout(init);
      LastEntryLines(segs, |segs| - 1);
      var b, e := BodyLines(init), EntryLines(last);
      assert BodyLines(segs) == b + e;
      forall j | 0 <= j < |b + e|
        ensures j / 3 < |segs| && (b + e)[j] == BodyLineAt(segs, j)
      {
        if j < |b| {
          BodyLineAtPrefix(segs, j);
        } else {
          assert (b + e)[j] == e[j - |b|];
        }
      }
    }
  }

  lemma CountExtInfAppend(a: seq<string>, b: seq<string>)
    ensures CountExtInf(a + b) == CountExtInf(a) + CountExtInf(b)
    decreases |b|
  {
    if b != [] {
      assert (a + b)[..|a + b| - 1] == a + b[..|b| - 1];
      assert (a + b)[|a + b| - 1] == b[|b| - 1];
      CountExtInfAppend(a, b[..|b| - 1]);
    } else {
      assert a + b == a;
    }
  }

  lemma {:induction false} CountExtInfNone(lines: seq<string>)
    requires forall j :: 0 <= j < |lines| ==> !IsExtInf(lines[j])
    ensures CountExtInf(lines) == 0
    decreases |lines|
  {
    if lines != [] {
      CountExtInfNone(lines[..|lines| - 1]);
    }
  }

  lemma CountExtInfOne(x: string)
    requires IsExtInf(x)
    ensures CountExtInf([x]) == 1
  {
    assert [x][..0] == [];
  }

  lemma UriIsNotExtInf(s: Segment)
    ensures !IsExtInf(SegmentUri(s))
  {
    assert SegmentUri(s)[0] == 'h';
  }

  lemma DiscontinuityIsNotExtInf()
    ensures !IsExtInf(Discontinuity)
  {
    assert Discontinuity[4] != ExtInfTag[4];
  }

  lemma EndListIsNotExtInf()
    ensures !IsExtInf(EndList)
  {
    assert EndList[4] != ExtInfTag[4];
  }

  lemma ExtInfLineIsExtInf(d: int)
    ensures IsExtInf(ExtInfLine(d))
  {
    assert ExtInfLine(d)[..|ExtInfTag|] == ExtInfTag;
  }

  lemma CountExtInfEntry(s: Segment)
    ensures CountExtInf(Texts(EntryLines(s))) == 1
  {
    var a, b := ExtInfLine(s.length), SegmentUri(s);
    ExtInfLineIsExtInf(s.length);
    UriIsNotExtInf(s);
    DiscontinuityIsNotExtInf();
    CountExtInfOne(a);
    CountExtInfNone([b]);
    CountExtInfAppend([a], [b]);
    if s.index != 0 {
      assert Texts(EntryLines(s)) == [Discontinuity] + ([a] + [b]);
      CountExtInfNone([Discontinuity]);
      CountExtInfAppend([Discontinuity], [a] + [b]);
    } else {
      assert Texts(EntryLines(s)) == [a] + [b];
    }
  }

  lemma {:induction false} CountExtInfBody(segs: seq<Segment>)
    ensures CountExtInf(Texts(BodyLines(segs))) == |segs|
    decreases |segs|
  {
    if segs != [] {
      var init, last := segs[..|segs| - 1], segs[|segs| - 1];
      CountExtInfBody(init);
      CountExtInfEntry(last);
      TextsAppend(BodyLines(init), EntryLines(last));
      CountExtInfAppend(Texts(BodyLines(init)), Texts(EntryLines(last)));
    }
  }

  lemma CountExtInfHeader(segmentSeconds: int)
    ensures CountExtInf(HeaderLines(segmentSeconds)) == 0
  {
    var t := TargetDurationLine(segmentSeconds);
    FixedHeaderHasNoExtInf();
    NotExtInfByFifth(t);
    CountExtInfNone([t]);
    CountExtInfAppend(FixedHeader, [t]);
  }

  lemma FixedHeaderHasNoExtInf()
    ensures CountExtInf(FixedHeader) == 0
  {
    forall j | 0 <= j < |FixedHeader| ensures !IsExtInf(FixedHeader[j]) {
      NotExtInfByFifth(FixedHeader[j]);
    }
    CountExtInfNone(FixedHeader);
  }

  /** A line whose fifth character is not the I of "#EXTINF:" is no EXTINF line. */
  lemma NotExtInfByFifth(x: string)
    requires |x| > 4 && x[4] != 'I'
    ensures !IsExtInf(x)
  {
    assert ExtInfTag[4] == 'I';
    assert |x| >= |ExtInfTag| ==> x[..|ExtInfTag|][4] == x[4];
  }

  lemma TargetLineIsNotDiscontinuity(segmentSeconds: int)
    ensures HeaderLines(segmentSeconds)[6] != Discontinuity
  {
    assert HeaderLines(segmentSeconds)[6] == TargetDurationLine(segmentSeconds);
    assert TargetDurationLine(segmentSeconds)[7] != Discontinuity[7];
  }

  lemma ExtInfText(d: int)
    ensures LineText(ExtInf(d)) == ExtInfLine(d)
  {
  }

  lemma UriText(s: Segment)
    ensures LineText(Uri(s)) == SegmentUri(s)
  {
  }

  lemma TagText(t: string)
    ensures LineText(Tag(t)) == t
  {
  }

  /** Entry i's lines within the body. */
  lemma BodyEntry(segs: seq<Segment>, i: nat)
    requires Indexed(segs) && i < |segs|
    ensures var b := BodyLines(segs);
      && |b| == 3 * |segs| - 1
      && b[3 * i] == ExtInf(segs[i].length)
      && b[3 * i + 1] == Uri(segs[i])
      && (i > 0 ==> b[3 * i - 1] == Tag(Discontinuity))
  {
    BodyLayout(segs);
    BodyLineAtEntry(segs, i);
  }

  lemma ElementAfterHeader(h: seq<string>, t: seq<string>, e: string, k: nat)
    requires |h| == 7 && k < |t|
    ensures |h + t + [e]| == |t| + 8 && (h + t + [e])[k + 7] == t[k]
  {
  }

  /** Among header h, the body lines of segs and e, entry i's EXTINF line sits at ExtInfPos(i). */
  lemma ExtInfAt(h: seq<string>, segs: seq<Segment>, e: string, i: nat)
    requires |h| == 7 && Indexed(segs) && i < |segs|
    ensures var lines := h + Texts(BodyLines(segs)) + [e];
      |lines| == 3 * |segs| + 7 && lines[ExtInfPos(i)] == ExtInfLine(segs[i].length)
  {
    var t := Texts(BodyLines(segs));
    BodyEntry(segs, i);
    ExtInfText(segs[i].length);
    TextAt(BodyLines(segs), 3 * i);
    ElementAfterHeader(h, t, e, 3 * i);
  }

  /** ... and its URI line right after it. */
  lemma UriAt(h: seq<string>, segs: seq<Segment>, e: string, i: nat)
    requires |h| == 7 && Indexed(segs) && i < |segs|
    ensures var lines := h + Texts(BodyLines(segs)) + [e];
      |lines| == 3 * |segs| + 7 && lines[ExtInfPos(i) + 1] == SegmentUri(segs[i])
  {
    var b := BodyLines(segs);
    BodyEntry(segs, i);
    var k := 3 * i + 1;
    assert Texts(b)[k] == SegmentUri(segs[i]) by {
      TextAt(b, k);
      UriText(segs[i]);
    }
    ElementAfterHeader(h, Texts(b), e, k);
  }

  /** ... and a discontinuity line right before it exactly when i is not 0. */
  lemma DiscontinuityAt(h: seq<string>, segs: seq<Segment>, e: string, i: nat)
    requires |h| == 7 && h[6] != Discontinuity && Indexed(segs) && i < |segs|
    ensures var lines := h + Texts(BodyLines(segs)) + [e];
      |lines| == 3 * |segs| + 7 && (lines[ExtInfPos(i) - 1] == Discontinuity <==> i != 0)
  {
    var t := Texts(BodyLines(segs));
    BodyEntry(segs, i);
    if i != 0 {
      TagText(Discontinuity);
      TextAt(BodyLines(segs), 3 * i - 1);
      ElementAfterHeader(h, t, e, 3 * i - 1);
    } else {
      assert (h + t + [e])[6] == h[6];
    }
  }

  /** The frame of header h, the body lines of segs, and the closing line e. */
  lemma LinesFrame(h: seq<string>, segs: seq<Segment>, e: string)
    requires |h| == 7 && CountExtInf(h) == 0 && !IsExtInf(e)
    requires Indexed(segs)
    ensures var lines := h + Texts(BodyLines(segs)) + [e];
      && |lines| == (if segs == [] then 8 else 3 * |segs| + 7)
      && lines[..7] == h
      && LastLine(lines) == e
      && CountExtInf(lines) == |segs|
  {
    var t := Texts(BodyLines(segs));
    var lines := h + t + [e];
    BodyLength(segs);
    assert lines[..7] == h;
    CountExtInfBody(segs);
    CountExtInfAround(h, t, e);
  }

  lemma CountExtInfAround(h: seq<string>, t: seq<string>, e: string)
    requires CountExtInf(h) == 0 && !IsExtInf(e)
    ensures CountExtInf(h + t + [e]) == CountExtInf(t)
  {
    CountExtInfAppend(h, t);
    CountExtInfNone([e]);
    CountExtInfAppend(h + t, [e]);
  }

  /** The entries among header h, the body lines of segs, and the closing line e. */
  lemma LinesEntries(h: seq<string>, segs: seq<Segment>, e: string)
    requires |h| == 7 && h[6] != Discontinuity && Indexed(segs)
    ensures var lines := h + Texts(BodyLines(segs)) + [e];
      && |lines| == (if segs == [] then 8 else 3 * |segs| + 7)
      && (forall i :: 0 <= i < |segs| ==>
            && lines[ExtInfPos(i)] == ExtInfLine(segs[i].length)
            && lines[ExtInfPos(i) + 1] == SegmentUri(segs[i])
            && (lines[ExtInfPos(i) - 1] == Discontinuity <==> i != 0))
  {
    var lines := h + Texts(BodyLines(segs)) + [e];
    BodyLength(segs);
    forall i | 0 <= i < |segs|
      ensures && lines[ExtInfPos(i)] == ExtInfLine(segs[i].length)
              && lines[ExtInfPos(i) + 1] == SegmentUri(segs[i])
              && (lines[ExtInfPos(i) - 1] == Discontinuity <==> i != 0)
    {
      ExtInfAt(h, segs, e, i);
      UriAt(h, segs, e, i);
      DiscontinuityAt(h, segs, e, i);
    }
  }

  /**
   * The layout of any rendered playlist whose entries carry their own
   * position as index: the seven header lines, then for every entry its
   * EXTINF and URI lines (with a discontinuity line before them exactly
   * when the index is not 0), one EXTINF line per entry, and the end tag last.
   */
  lemma PlaylistLayout(segmentSeconds: int, segs: seq<Segment>)
    requires Indexed(segs)
    ensures var lines := Split(Render(segmentSeconds, segs));
      && |lines| == (if segs == [] then 8 else 3 * |segs| + 7)
      && lines[..7] == HeaderLines(segmentSeconds)
      && LastLine(lines) == EndList
      && CountExtInf(lines) == |segs|
      && (forall i :: 0 <= i < |segs| ==>
            && lines[ExtInfPos(i)] == ExtInfLine(segs[i].length)
            && lines[ExtInfPos(i) + 1] == SegmentUri(segs[i])
            && (lines[ExtInfPos(i) - 1] == Discontinuity <==> i != 0))
  {
    PlaylistFrame(segmentSeconds, segs);
    PlaylistEntries(segmentSeconds, segs);
  }

  /** The entries alone of any rendered playlist whose entries carry their own position as index. */
  lemma PlaylistEntries(segmentSeconds: int, segs: seq<Segment>)
    requires Indexed(segs)
    ensures var lines := Split(Render(segmentSeconds, segs));
      && |lines| == (if segs == [] then 8 else 3 * |segs| + 7)
      && (forall i :: 0 <= i < |segs| ==>
            && lines[ExtInfPos(i)] == ExtInfLine(segs[i].length)
            && lines[ExtInfPos(i) + 1] == SegmentUri(segs[i])
            && (lines[ExtInfPos(i) - 1] == Discontinuity <==> i != 0))
  {
    SplitRender(segmentSeconds, segs);
    HeaderTexts(segmentSeconds);
    TextsOfPlaylist(HeaderItems(segmentSeconds), BodyLines(segs), Tag(EndList));
    TargetLineIsNotDiscontinuity(segmentSeconds);
    LinesEntries(HeaderLines(segmentSeconds), segs, EndList);
  }

  /** The frame alone of any rendered playlist whose entries carry their own position as index. */
  lemma PlaylistFrame(segmentSeconds: int, segs: seq<Segment>)
    requires Indexed(segs)
    ensures var lines := Split(Render(segmentSeconds, segs));
      && |lines| == (if segs == [] then 8 else 3 * |segs| + 7)
      && lines[..7] == HeaderLines(segmentSeconds)
      && LastLine(lines) == EndList
      && CountExtInf(lines) == |segs|
  {
    SplitRender(segmentSeconds, segs);
    HeaderTexts(segmentSeconds);
    TextsOfPlaylist(HeaderItems(segmentSeconds), BodyLines(segs), Tag(EndList));
    CountExtInfHeader(segmentSeconds);
    EndListIsNotExtInf();
    LinesFrame(HeaderLines(segmentSeconds), segs, EndList);
  }

  lemma BodyLineAtEntry(segs: seq<Segment>, k: nat)
    requires k < |segs|
    ensures BodyLineAt(segs, 3 * k) == ExtInf(segs[k].length)
    ensures BodyLineAt(segs, 3 * k + 1) == Uri(segs[k])
    ensures k >= 1 ==> BodyLineAt(segs, 3 * k - 1) == Tag(Discontinuity)
  {
    DivMod3(k);
  }

  /**
   * generate_manifest as written, its frame: the seven header lines, three
   * lines for each of the ceil(duration / segment_length) entries (eight lines
   * in all when there is none), one EXTINF line per entry, the end tag last.
   */
  lemma ManifestFrame(durationUs: int, segmentSeconds: int)
    requires segmentSeconds != 0
    ensures var n := SegmentCount(durationUs, segmentSeconds);
      var lines := Split(GenerateManifest(durationUs, segmentSeconds).value);
      && |lines| == (if n == 0 then 8 else 3 * n + 7)
      && lines[..7] == HeaderLines(segmentSeconds)
      && LastLine(lines) == EndList
      && CountExtInf(lines) == n
  {
    var segs := WrittenSegments(durationUs, segmentSeconds);
    PlaylistFrame(segmentSeconds, segs);
  }

  /**
   * generate_manifest as written, its entries: in index order, each
   * declaring segment_length (the last one too), the URI of entry i carrying
   * index i, Offset(i) and segment_length, a discontinuity line before every
   * entry but the first.
   */
  lemma ManifestEntries(durationUs: int, segmentSeconds: int)
    requires segmentSeconds != 0
    ensures var n := SegmentCount(durationUs, segmentSeconds);
      var lines := Split(GenerateManifest(durationUs, segmentSeconds).value);
      && |lines| == (if n == 0 then 8 else 3 * n + 7)
      && (forall i :: 0 <= i < n ==>
            && lines[ExtInfPos(i)] == ExtInfLine(segmentSeconds * MicrosPerSecond)
            && lines[ExtInfPos(i) + 1] == SegmentUri(Segment(i, Offset(durationUs, segmentSeconds, n, i), segmentSeconds * MicrosPerSecond))
            && (lines[ExtInfPos(i) - 1] == Discontinuity <==> i != 0))
  {
    var segs := WrittenSegments(durationUs, segmentSeconds);
    PlaylistEntries(segmentSeconds, segs);
    forall i | 0 <= i < |segs| {
      WrittenSegmentAt(durationUs, segmentSeconds, i);
    }
  }

  lemma WrittenSegmentAt(durationUs: int, segmentSeconds: int, i: nat)
    requires segmentSeconds != 0 && i < SegmentCount(durationUs, segmentSeconds)
    ensures WrittenSegments(durationUs, segmentSeconds)[i] ==
      Segment(i, Offset(durationUs, segmentSeconds, SegmentCount(durationUs, segmentSeconds), i), segmentSeconds * MicrosPerSecond)
  {
  }

  /**
   * The target duration the header declares reads back as segment_length + 1
   * seconds, and every EXTINF reads back as segment_length seconds: so no
   * declared entry exceeds the target duration (section 4.3.3.1 of RFC 8216).
   */
  lemma TargetDurationCoversEntries(durationUs: int, segmentSeconds: int)
    requires segmentSeconds != 0
    ensures var n := SegmentCount(durationUs, segmentSeconds);
      var lines := Split(GenerateManifest(durationUs, segmentSeconds).value);
      && |lines| > 6
      && TargetDurationOf(lines[6]) == Some(segmentSeconds + 1)
      && forall i :: 0 <= i < n ==>
           && ExtInfPos(i) < |lines|
           && ExtInfDurationOf(lines[ExtInfPos(i)]) == Some(segmentSeconds * MicrosPerSecond)
           && segmentSeconds * MicrosPerSecond < (segmentSeconds + 1) * MicrosPerSecond
  {
    ManifestFrame(durationUs, segmentSeconds);
    ManifestEntries(durationUs, segmentSeconds);
    var lines := Split(GenerateManifest(durationUs, segmentSeconds).value);
    assert lines[6] == lines[..7][6];
    TargetLineReadsBack(segmentSeconds);
    ExtInfReadsBack(segmentSeconds * MicrosPerSecond);
  }

  /** The header's target-duration line reads back as segment_length + 1. */
  lemma TargetLineReadsBack(segmentSeconds: int)
    ensures TargetDurationOf(HeaderLines(segmentSeconds)[6]) == Some(segmentSeconds + 1)
  {
    var t := TargetDurationTag + IntToString(segmentSeconds + 1);
    assert HeaderLines(segmentSeconds)[6] == t;
    assert t[..|TargetDurationTag|] == TargetDurationTag && t[|TargetDurationTag|..] == IntToString(segmentSeconds + 1);
    IntRoundTrip(segmentSeconds + 1);
  }

  /** An EXTINF line reads back as the duration it was rendered from. */
  lemma ExtInfReadsBack(lengthUs: int)
    ensures ExtInfDurationOf(ExtInfLine(lengthUs)) == Some(lengthUs)
  {
    var x := ExtInfLine(lengthUs);
    assert x[..|ExtInfTag|] == ExtInfTag;
    assert x[|ExtInfTag|..|x| - 1] == Fixed6(lengthUs);
    Fixed6RoundTrip(lengthUs);
  }

  /** Entries other than the first and the last sit at segment_length * i. */
  lemma InteriorOffsets(durationUs: int, segmentSeconds: int, i: nat)
    requires segmentSeconds != 0
    requires 0 < i < SegmentCount(durationUs, segmentSeconds) - 1
    ensures WrittenSegments(durationUs, segmentSeconds)[i].offset == segmentSeconds * MicrosPerSecond * i
  {
  }

  /**
   * The last of several entries gets duration - segment_length * i, which is
   * the remainder of the duration, a value in (0, segment_length]. With three
   * or more entries it is therefore no later than the entry before it: the
   * offsets are neither contiguous nor increasing.
   */
  lemma LastOffsetIsRemainder(durationUs: int, segmentSeconds: int)
    requires segmentSeconds > 0
    requires SegmentCount(durationUs, segmentSeconds) >= 2
    ensures var segs := WrittenSegments(durationUs, segmentSeconds); var n := |segs|;
      && 0 < segs[n - 1].offset <= segmentSeconds * MicrosPerSecond
      && (n >= 3 ==> segs[n - 1].offset <= segs[n - 2].offset)
  {
    var n := SegmentCount(durationUs, segmentSeconds);
    var l := segmentSeconds * MicrosPerSecond;
    assert (n - 1) * l < durationUs <= n * l;
    assert durationUs - l * (n - 1) <= l by {
      assert n * l == (n - 1) * l + l;
    }
    if n >= 3 {
      assert l * (n - 2) >= l by {
        assert l * (n - 2) == l * (n - 3) + l;
        assert l * (n - 3) >= 0;
      }
    }
  }

  // ---------------------------------------------------------------------
  // The contiguous plan the playlist is meant to describe

  /**
   * Entry i starts at segment_length * i and lasts segment_length, except the
   * last, which lasts what remains of the duration.
   */
  function Plan(durationUs: int, segmentSeconds: int): (segs: seq<Segment>)
    requires segmentSeconds > 0
    ensures |segs| == SegmentCount(durationUs, segmentSeconds)
    ensures Indexed(segs)
  {
    var n := SegmentCount(durationUs, segmentSeconds);
    var l := segmentSeconds * MicrosPerSecond;
    seq(n, i requires 0 <= i < n => Segment(i, l * i, if i == n - 1 then durationUs - l * i else l))
  }

  function TotalLength(segs: seq<Segment>): int {
    if segs == [] then 0 else TotalLength(segs[..|segs| - 1]) + segs[|segs| - 1].length
  }

  function End(s: Segment): int {
    s.offset + s.length
  }

  lemma {:induction false} PlanPrefixLength(durationUs: int, segmentSeconds: int, k: nat)
    requires segmentSeconds > 0
    requires k < SegmentCount(durationUs, segmentSeconds)
    ensures TotalLength(Plan(durationUs, segmentSeconds)[..k]) == segmentSeconds * MicrosPerSecond * k
  {
    var segs := Plan(durationUs, segmentSeconds);
    if k > 0 {
      PlanPrefixLength(durationUs, segmentSeconds, k - 1);
      assert segs[..k][..k - 1] == segs[..k - 1];
    }
  }

  /**
   * The plan starts at 0, every entry starts where the previous one ends,
   * every length lies in (0, segment_length], and the lengths add up to the
   * duration (to nothing when the duration is not positive).
   */
  lemma PlanContiguous(durationUs: int, segmentSeconds: int)
    requires segmentSeconds > 0
    ensures var segs := Plan(durationUs, segmentSeconds);
      && (segs != [] ==> segs[0].offset == 0)
      && (forall i :: 0 < i < |segs| ==> segs[i].offset == End(segs[i - 1]))
      && (forall i :: 0 <= i < |segs| ==> 0 < segs[i].length <= segmentSeconds * MicrosPerSecond)
      && TotalLength(segs) == (if durationUs > 0 then durationUs else 0)
      && (segs != [] ==> End(segs[|segs| - 1]) == durationUs)
  {
    var segs := Plan(durationUs, segmentSeconds);
    var n := |segs|;
    var l := segmentSeconds * MicrosPerSecond;
    if n > 0 {
      assert (n - 1) * l < durationUs <= n * l;
      assert durationUs - l * (n - 1) <= l by {
        assert n * l == (n - 1) * l + l;
      }
      PlanPrefixLength(durationUs, segmentSeconds, n - 1);
      assert segs[..n - 1] == segs[..|segs| - 1];
      forall i | 0 < i < n ensures segs[i].offset == End(segs[i - 1]) {
        assert l * i == l * (i - 1) + l;
      }
    }
  }

  /**
   * Read back from any rendered playlist: one EXTINF line per entry, each
   * declaring its own entry's length, the entry's URI right after it, and
   * the end tag last.
   */
  lemma DeclaredEntries(segmentSeconds: int, segs: seq<Segment>)
    requires Indexed(segs)
    ensures var lines := Split(Render(segmentSeconds, segs));
      && CountExtInf(lines) == |segs|
      && LastLine(lines) == EndList
      && forall i :: 0 <= i < |segs| ==>
           && ExtInfPos(i) + 1 < |lines|
           && ExtInfDurationOf(lines[ExtInfPos(i)]) == Some(segs[i].length)
           && lines[ExtInfPos(i) + 1] == SegmentUri(segs[i])
  {
    var lines := Split(Render(segmentSeconds, segs));
    PlaylistLayout(segmentSeconds, segs);
    forall i | 0 <= i < |segs|
      ensures ExtInfDurationOf(lines[ExtInfPos(i)]) == Some(segs[i].length)
    {
      ExtInfReadsBack(segs[i].length);
    }
  }

  /** The playlist rendered from the contiguous plan: each EXTINF is its entry's own length. */
  function PlannedManifest(durationUs: int, segmentSeconds: int): string
    requires segmentSeconds > 0
  {
    Render(segmentSeconds, Plan(durationUs, segmentSeconds))
  }

  /**
   * In the playlist rendered from the plan, entry i declares, and asks the
   * segment producer for, exactly the span Plan[i], and those spans tile
   * [0, duration).
   */
  lemma PlannedManifestLayout(durationUs: int, segmentSeconds: int)
    requires segmentSeconds > 0
    ensures var segs := Plan(durationUs, segmentSeconds);
      var lines := Split(PlannedManifest(durationUs, segmentSeconds));
      && CountExtInf(lines) == |segs|
      && LastLine(lines) == EndList
      && forall i :: 0 <= i < |segs| ==>
           && ExtInfPos(i) + 1 < |lines|
           && ExtInfDurationOf(lines[ExtInfPos(i)]) == Some(segs[i].length)
           && lines[ExtInfPos(i) + 1] == SegmentUri(segs[i])
           && (i > 0 ==> segs[i].offset == End(segs[i - 1]))
  {
    var segs := Plan(durationUs, segmentSeconds);
    DeclaredEntries(segmentSeconds, segs);
    PlanContiguous(durationUs, segmentSeconds);
  }

  /**
   * The code as written agrees with the plan on every entry but the last of
   * several, whose URI offset is the plan's length for it, and it declares
   * segment_length for every entry.
   */
  lemma WrittenVersusPlanned(durationUs: int, segmentSeconds: int)
    requires segmentSeconds > 0
    ensures var w := WrittenSegments(durationUs, segmentSeconds);
      var p := Plan(durationUs, segmentSeconds);
      && |w| == |p|
      && (forall i :: 0 <= i < |w| && (i == 0 || i < |w| - 1) ==> w[i].offset == p[i].offset)
      && (|w| >= 2 ==> w[|w| - 1].offset == p[|p| - 1].length)
      && (forall i :: 0 <= i < |w| ==> w[i].length == segmentSeconds * MicrosPerSecond)
  {
  }

  /** 25 s in 10 s entries: the third entry is requested at 5 s instead of 20 s, and declared 10 s long instead of 5 s. */
  lemma WrittenLastOffsetCounterexample()
    ensures SegmentCount(25 * MicrosPerSecond, 10) == 3
    ensures WrittenSegments(25 * MicrosPerSecond, 10)[2] == Segment(2, 5 * MicrosPerSecond, 10 * MicrosPerSecond)
    ensures Plan(25 * MicrosPerSecond, 10)[2] == Segment(2, 20 * MicrosPerSecond, 5 * MicrosPerSecond)
  {
    assert CeilDiv(25 * MicrosPerSecond, 10 * MicrosPerSecond) == 3;
  }
}
