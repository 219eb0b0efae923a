/** Python's '\n'.join(lines) and str.split('\n'), and the fact that one undoes the other. */
module Text {

  const Newline: char := '\n'

  predicate OneLine(s: string) {
    Newline !in s
  }

  predicate AllLines(lines: seq<string>) {
    forall i :: 0 <= i < |lines| ==> OneLine(lines[i])
  }

  lemma AllLinesConcat(a: seq<string>, b: seq<string>)
    requires AllLines(a) && AllLines(b)
    ensures AllLines(a + b)
  {
    forall i | 0 <= i < |a + b| ensures OneLine((a + b)[i]) {
      if i < |a| { assert (a + b)[i] == a[i]; } else { assert (a + b)[i] == b[i - |a|]; }
    }
  }

  /** '\n'.join(lines) */
  function Join(lines: seq<string>): string {
    if |lines| == 0 then ""
    else if |lines| == 1 then lines[0]
    else lines[0] + [Newline] + Join(lines[1..])
  }

  /** The last of one or more lines. */
  function LastLine(lines: seq<string>): string
    requires |lines| > 0
  {
    lines[|lines| - 1]
  }

  lemma JoinPair(a: string, b: string)
    ensures Join([a, b]) == a + [Newline] + b
  {
    assert [a, b][1..] == [b];
  }

  lemma JoinTriple(x: string, a: string, b: string)
    ensures Join([x, a, b]) == x + [Newline] + (a + [Newline] + b)
  {
    assert [x, a, b][1..] == [a, b];
    JoinPair(a, b);
  }

  /** Position of the first newline of s, or |s| when there is none. */
  function FirstNewline(s: string): (k: nat)
    ensures k <= |s|
  {
    if s == [] || s[0] == Newline then 0 else 1 + FirstNewline(s[1..])
  }

  /** The first newline is a newline, and nothing before it is. */
  lemma {:induction false} FirstNewlineShape(s: string)
    ensures var k := FirstNewline(s);
      && (k < |s| ==> s[k] == Newline)
      && forall j :: 0 <= j < k ==> s[j] != Newline
    decreases |s|
  {
    if s != [] && s[0] != Newline {
      FirstNewlineShape(s[1..]);
      assert forall j :: 1 <= j < |s| ==> s[j] == s[1..][j - 1];
    }
  }

  /** s.split('\n'): always at least one piece. */
  function Split(s: string): (pieces: seq<string>)
    ensures |pieces| >= 1
    decreases |s|
  {
    var k := FirstNewline(s);
    if k == |s| then [s] else [s[..k]] + Split(s[k + 1..])
  }

  /** No piece of a split holds a newline. */
  lemma {:induction false} SplitLines(s: string)
    ensures AllLines(Split(s))
    decreases |s|
  {
    var k := FirstNewline(s);
    FirstNewlineShape(s);
    if k < |s| {
      SplitLines(s[k + 1..]);
      var rest := Split(s[k + 1..]);
      assert OneLine(s[..k]) by {
        assert forall j :: 0 <= j < k ==> s[..k][j] == s[j];
      }
      assert Split(s) == [s[..k]] + rest;
      AllLinesConcat([s[..k]], rest);
    } else {
      assert OneLine(s);
    }
  }

  lemma {:induction false} JoinAppend(a: seq<string>, b: seq<string>)
    requires |a| >= 1 && |b| >= 1
    ensures Join(a + b) == Join(a) + [Newline] + Join(b)
    decreases |a|
  {
    if |a| == 1 {
      assert (a + b)[1..] == b;
    } else {
      assert (a + b)[1..] == a[1..] + b;
      JoinAppend(a[1..], b);
    }
  }

  /** Joining h, then a and b, is joining h and a, then b. */
  lemma JoinAfter(h: seq<string>, a: seq<string>, b: seq<string>)
    requires |h| >= 1 && |b| >= 1
    ensures Join(h + (a + b)) == Join(h + a) + [Newline] + Join(b)
  {
    assert h + (a + b) == (h + a) + b;
    JoinAppend(h + a, b);
  }

  lemma FirstNewlineAfterLine(a: string, b: string)
    requires OneLine(a)
    ensures FirstNewline(a + [Newline] + b) == |a|
  {
    var s := a + [Newline] + b;
    FirstNewlineShape(s);
    assert s[|a|] == Newline;
    assert forall j :: 0 <= j < |a| ==> s[j] == a[j];
  }

  /** Splitting the joined text gives back the lines, as long as none of them holds a newline. */
  lemma {:induction false} SplitJoin(lines: seq<string>)
    requires |lines| >= 1
    requires AllLines(lines)
    ensures Split(Join(lines)) == lines
    decreases |lines|
  {
    if |lines| == 1 {
      FirstNewlineShape(lines[0]);
      assert FirstNewline(lines[0]) == |lines[0]|;
    } else {
      var a, rest := lines[0], Join(lines[1..]);
      var s := a + [Newline] + rest;
      FirstNewlineAfterLine(a, rest);
      assert s[..|a|] == a;
      assert s[|a| + 1..] == rest;
      SplitJoin(lines[1..]);
      assert lines == [a] + lines[1..];
    }
  }
}
