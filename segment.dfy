/**
 * The control logic of ffmpeg.get_segment: the loop that polls the ffmpeg
 * process and reads its non-blocking stdout, the cancellation path taken
 * when the consumer closes the generator, and the exit-status check of the
 * finally block.
 *
 * The process and the consumer are replaced by a Script: the answers that
 * poll(), stdout.read(), the consumer and wait() give, each in the order they
 * are asked. A script that runs out of answers leaves the run Incomplete.
 */
module Segments {
  import opened Wrappers

  type byte = x: int | 0 <= x < 256

  /** stdout.read(): None when no data is ready, Some([]) at end of data. */
  type ReadAnswer = Option<seq<byte>>

  datatype Script = Script(
    polls: seq<Option<int>>,  // poll(): None while running, Some(returncode) once exited
    output: seq<ReadAnswer>,  // stdout.read()
    resumes: seq<bool>,       // after each yield: true to ask for more, false to close the generator
    waits: seq<Option<int>>,  // wait(timeout): Some(returncode), or None when it times out
    stderr: string)           // what stderr.read().decode() returns

  /** What the generator does to the process, in order. */
  datatype Action = Interrupt | WaitUpTo(seconds: nat) | Kill

  /** Why the read loop stopped. */
  datatype Stop = Exited | EndOfData | Closed | OutOfScript

  datatype Outcome =
    | Finished                         // the generator ends normally
    | Cancelled                        // closed by the consumer, the process stopped
    | Failed(code: int, stderr: string) // CalledProcessError
    | WaitTimedOut                     // TimeoutExpired from the final wait
    | Incomplete                       // the script ran out of answers

  datatype SegmentRun = SegmentRun(
    chunks: seq<seq<byte>>,   // what was yielded, in order
    stop: Stop,
    actions: seq<Action>,
    killed: bool,             // been_killed
    status: Option<int>,      // the final wait's return code
    outcome: Outcome,
    pollCount: nat, readCount: nat, resumeCount: nat, waitCount: nat) // answers consumed

  const GraceSeconds: nat := 4
  const ReapSeconds: nat := 1

  /** The non-empty reads, in order: what the loop yields. */
  function Data(answers: seq<ReadAnswer>): seq<seq<byte>> {
    if answers == [] then []
    else
      var last := answers[|answers| - 1];
      Data(answers[..|answers| - 1]) + (if last.Some? && last.value != [] then [last.value] else [])
  }

  lemma DataAppend(answers: seq<ReadAnswer>, r: ReadAnswer)
    ensures Data(answers + [r]) == Data(answers) + (if r.Some? && r.value != [] then [r.value] else [])
  {
    assert (answers + [r])[..|answers|] == answers;
  }

  /** How the read loop ended: the chunks it yielded, the exit code poll() gave, the answers consumed. */
  datatype LoopEnd = LoopEnd(
    chunks: seq<seq<byte>>, stop: Stop, code: Option<int>,
    pollCount: nat, readCount: nat, resumeCount: nat)

  /**
   * What a LoopEnd says about the script it was read from: every read comes
   * after a poll that found the process running, the yielded chunks are the
   * non-empty reads in read order, and the stop reason is the answer that
   * ended the loop. Moreover the first Rounds(e) rounds went on, and the
   * next one ended the loop with e (ExplainsDeterministic: at most one
   * LoopEnd explains a script).
   */
  predicate Explains(script: Script, e: LoopEnd) {
    && e.pollCount <= |script.polls| && e.readCount <= |script.output| && e.resumeCount <= |script.resumes|
    && e.readCount <= e.pollCount <= e.readCount + 1
    && (forall k :: 0 <= k < e.readCount ==> script.polls[k].None?)
    && e.chunks == Data(script.output[..e.readCount])
    && e.resumeCount <= |e.chunks| <= e.resumeCount + 1
    && (e.stop != OutOfScript ==> e.resumeCount == |e.chunks|)
    && (forall k :: 0 <= k < e.readCount - 1 ==> script.output[k] != Some([]))
    && (forall k :: 0 <= k < e.resumeCount - 1 ==> script.resumes[k])
    && (e.stop == Exited <==> e.pollCount == e.readCount + 1 && script.polls[e.pollCount - 1].Some?)
    && (e.stop == Exited ==> e.code == script.polls[e.pollCount - 1])
    && (e.stop != Exited ==> e.code.None?)
    && (e.stop == EndOfData <==> e.readCount >= 1 && script.output[e.readCount - 1] == Some([]))
    && (e.stop == Closed <==> e.resumeCount >= 1 && !script.resumes[e.resumeCount - 1])
    && (e.stop == OutOfScript ==>
          e.pollCount == |script.polls| || e.readCount == |script.output| || e.resumeCount == |script.resumes|)
    && Stopped(script, e)
  }

  /** The loop went on for Rounds(e) rounds, and the next round ended it with e. */
  predicate Stopped(script: Script, e: LoopEnd) {
    0 <= Rounds(e) && WentOn(script, Rounds(e)) && EndsAt(script, Rounds(e), e)
  }

  /** The rounds before the one that ended the loop: one fewer than the reads when the last read ended it. */
  function Rounds(e: LoopEnd): int {
    if e.stop == EndOfData || e.stop == Closed || (e.stop == OutOfScript && e.pollCount == e.readCount && |e.chunks| == e.resumeCount + 1)
    then e.readCount - 1
    else e.readCount
  }

  /** The first r rounds of the loop went on: polled None, read something other than the end, asked for more after each yield. */
  predicate WentOn(script: Script, r: nat) {
    r <= |script.output| && Consumed(script, r, |Data(script.output[..r])|, Data(script.output[..r]))
  }

  /** Round r, entered after r rounds that went on, ends the loop with e. */
  predicate EndsAt(script: Script, r: nat, e: LoopEnd)
    requires WentOn(script, r)
  {
    var chunks := Data(script.output[..r]);
    var y := |chunks|;
    if r == |script.polls| then e == LoopEnd(chunks, OutOfScript, None, r, r, y)
    else if script.polls[r].Some? then e == LoopEnd(chunks, Exited, script.polls[r], r + 1, r, y)
    else if r == |script.output| then e == LoopEnd(chunks, OutOfScript, None, r + 1, r, y)
    else if script.output[r] == Some([]) then e == LoopEnd(chunks, EndOfData, None, r + 1, r + 1, y)
    else if script.output[r].None? then false
    else if y == |script.resumes| then e == LoopEnd(chunks + [script.output[r].value], OutOfScript, None, r + 1, r + 1, y)
    else !script.resumes[y] && e == LoopEnd(chunks + [script.output[r].value], Closed, None, r + 1, r + 1, y + 1)
  }

  /** The state at the top of the loop after r rounds, y of which yielded. */
  predicate Consumed(script: Script, r: nat, y: nat, chunks: seq<seq<byte>>) {
    && r <= |script.polls| && r <= |script.output| && y <= |script.resumes|
    && (forall k :: 0 <= k < r ==> script.polls[k].None?)
    && chunks == Data(script.output[..r]) && y == |chunks|
    && (forall k :: 0 <= k < r ==> script.output[k] != Some([]))
    && (forall k :: 0 <= k < y ==> script.resumes[k])
  }

  lemma PollsExhausted(script: Script, r: nat, y: nat, chunks: seq<seq<byte>>)
    requires Consumed(script, r, y, chunks) && r == |script.polls|
    ensures Explains(script, LoopEnd(chunks, OutOfScript, None, r, r, y))
  {
  }

  lemma ProcessExited(script: Script, r: nat, y: nat, chunks: seq<seq<byte>>)
    requires Consumed(script, r, y, chunks) && r < |script.polls| && script.polls[r].Some?
    ensures Explains(script, LoopEnd(chunks, Exited, script.polls[r], r + 1, r, y))
  {
  }

  lemma ReadsExhausted(script: Script, r: nat, y: nat, chunks: seq<seq<byte>>)
    requires Consumed(script, r, y, chunks) && r < |script.polls| && script.polls[r].None?
    requires r == |script.output|
    ensures Explains(script, LoopEnd(chunks, OutOfScript, None, r + 1, r, y))
  {
  }

  /** One more read, appended to the reads already made. */
  lemma ReadOne(script: Script, r: nat)
    requires r < |script.output|
    ensures Data(script.output[..r + 1]) == Data(script.output[..r]) + Data([script.output[r]])
  {
    assert script.output[..r + 1] == script.output[..r] + [script.output[r]];
    DataAppend(script.output[..r], script.output[r]);
  }

  lemma DataEnded(script: Script, r: nat, y: nat, chunks: seq<seq<byte>>)
    requires Consumed(script, r, y, chunks) && r < |script.polls| && script.polls[r].None?
    requires r < |script.output| && script.output[r] == Some([])
    ensures Explains(script, LoopEnd(chunks, EndOfData, None, r + 1, r + 1, y))
  {
    ReadOne(script, r);
  }

  lemma ResumesExhausted(script: Script, r: nat, y: nat, chunks: seq<seq<byte>>)
    requires Consumed(script, r, y, chunks) && r < |script.polls| && script.polls[r].None?
    requires r < |script.output| && script.output[r].Some? && script.output[r].value != []
    requires y == |script.resumes|
    ensures Explains(script, LoopEnd(chunks + [script.output[r].value], OutOfScript, None, r + 1, r + 1, y))
  {
    ReadOne(script, r);
  }

  lemma ConsumerClosed(script: Script, r: nat, y: nat, chunks: seq<seq<byte>>)
    requires Consumed(script, r, y, chunks) && r < |script.polls| && script.polls[r].None?
    requires r < |script.output| && script.output[r].Some? && script.output[r].value != []
    requires y < |script.resumes| && !script.resumes[y]
    ensures Explains(script, LoopEnd(chunks + [script.output[r].value], Closed, None, r + 1, r + 1, y + 1))
  {
    ReadOne(script, r);
  }

  lemma NothingRead(script: Script, r: nat, y: nat, chunks: seq<seq<byte>>)
    requires Consumed(script, r, y, chunks) && r < |script.polls| && script.polls[r].None?
    requires r < |script.output| && script.output[r].None?
    ensures Consumed(script, r + 1, y, chunks)
  {
    ReadOne(script, r);
  }

  lemma AskedForMore(script: Script, r: nat, y: nat, chunks: seq<seq<byte>>)
    requires Consumed(script, r, y, chunks) && r < |script.polls| && script.polls[r].None?
    requires r < |script.output| && script.output[r].Some? && script.output[r].value != []
    requires y < |script.resumes| && script.resumes[y]
    ensures Consumed(script, r + 1, y + 1, chunks + [script.output[r].value])
  {
    ReadOne(script, r);
  }

  /** More reads never yield fewer chunks. */
  lemma {:induction false} DataPrefixGrows(answers: seq<ReadAnswer>, j: nat, k: nat)
    requires j <= k <= |answers|
    ensures |Data(answers[..j])| <= |Data(answers[..k])|
    decreases k - j
  {
    if j < k {
      DataPrefixGrows(answers, j, k - 1);
      assert answers[..k] == answers[..k - 1] + [answers[k - 1]];
      DataAppend(answers[..k - 1], answers[k - 1]);
    }
  }

  /** A round that later rounds followed did not end the loop. */
  lemma GoesOnPast(script: Script, r: nat, s: nat, e: LoopEnd)
    requires WentOn(script, r) && WentOn(script, s) && r < s
    ensures !EndsAt(script, r, e)
  {
    assert script.polls[r].None? && script.output[r] != Some([]);
    if script.output[r].Some? && script.output[r].value != [] {
      ReadOne(script, r);
      DataPrefixGrows(script.output, r + 1, s);
      assert script.resumes[|Data(script.output[..r])|];
    }
  }

  /** A script is explained by one LoopEnd at most: the run it describes is determined. */
  lemma ExplainsDeterministic(script: Script, e1: LoopEnd, e2: LoopEnd)
    requires Explains(script, e1) && Explains(script, e2)
    ensures e1 == e2
  {
    StoppedDeterministic(script, e1, e2);
  }

  /** Only one round can be the one that ends the loop, and it ends it one way. */
  lemma StoppedDeterministic(script: Script, e1: LoopEnd, e2: LoopEnd)
    requires Stopped(script, e1) && Stopped(script, e2)
    ensures e1 == e2
  {
    var r1, r2 := Rounds(e1), Rounds(e2);
    if r1 < r2 {
      GoesOnPast(script, r1, r2, e1);
      assert false;
    } else if r2 < r1 {
      GoesOnPast(script, r2, r1, e2);
      assert false;
    }
  }

  /**
   * while ffmpeg.poll() is None: a read with no data yields nothing, an
   * empty read ends the loop, any other read is yielded, and the consumer
   * either asks for more or closes the generator.
   */
  method ReadLoop(script: Script) returns (e: LoopEnd)
    ensures Explains(script, e)
  {
    var r, y := 0, 0;
    var chunks: seq<seq<byte>> := [];
    while true
      invariant Consumed(script, r, y, chunks)
      decreases |script.polls| - r
    {
      if r == |script.polls| {
        PollsExhausted(script, r, y, chunks);
        return LoopEnd(chunks, OutOfScript, None, r, r, y);
      }
      var answer := script.polls[r];
      if answer.Some? {
        ProcessExited(script, r, y, chunks);
        return LoopEnd(chunks, Exited, answer, r + 1, r, y);
      }
      if r == |script.output| {
        ReadsExhausted(script, r, y, chunks);
        return LoopEnd(chunks, OutOfScript, None, r + 1, r, y);
      }
      var data := script.output[r];
      if data == Some([]) {
        DataEnded(script, r, y, chunks);
        return LoopEnd(chunks, EndOfData, None, r + 1, r + 1, y);
      }
      if data.None? {
        NothingRead(script, r, y, chunks);
        r := r + 1;
      } else {
        if y == |script.resumes| {
          ResumesExhausted(script, r, y, chunks);
          return LoopEnd(chunks + [data.value], OutOfScript, None, r + 1, r + 1, y);
        }
        var more := script.resumes[y];
        if !more {
          ConsumerClosed(script, r, y, chunks);
          return LoopEnd(chunks + [data.value], Closed, None, r + 1, r + 1, y + 1);
        }
        AskedForMore(script, r, y, chunks);
        r, y, chunks := r + 1, y + 1, chunks + [data.value];
      }
    }
  }

  /** What the except and finally blocks do. */
  datatype Ending = Ending(actions: seq<Action>, killed: bool, status: Option<int>, outcome: Outcome, waitCount: nat)

  /**
   * What the except and finally blocks leave behind, given the waits the
   * script answers, the reason the loop stopped and the exit code poll()
   * already gave.
   */
  predicate Reaped(waits: seq<Option<int>>, stderr: string, stop: Stop, code: Option<int>, c: Ending) {
    && c.waitCount <= |waits|
    && (stop == Closed ==> |c.actions| >= 2 && c.actions[0] == Interrupt && c.actions[1] == WaitUpTo(GraceSeconds))
    && (c.killed <==> stop == Closed && c.waitCount >= 1)
    && (c.killed ==> (Kill in c.actions <==> waits[0].None?))
    && (!c.killed ==> Kill !in c.actions)
    && (stop != Closed ==> Interrupt !in c.actions && Kill !in c.actions)
    && (stop != Closed ==> c.actions == [WaitUpTo(ReapSeconds)])
    && (c.outcome == WaitTimedOut ==> c.status.None?)
    && (c.outcome != Incomplete ==> c.actions[|c.actions| - 1] == WaitUpTo(ReapSeconds))
    && (c.outcome.Failed? <==> c.status.Some? && c.status.value != 0 && !c.killed)
    && (c.outcome.Failed? ==> c.outcome == Failed(c.status.value, stderr))
    && (c.outcome == Cancelled <==> c.killed && c.status.Some?)
    && (c.outcome == Finished <==> c.status == Some(0) && !c.killed)
    && (c.outcome == Incomplete <==> c.waitCount == |waits| && c.status.None? && c.outcome != WaitTimedOut)
    // an exit code already collected by poll() or by the 4 s wait is the final status
    && (code.Some? && c.outcome != Incomplete ==> c.status == code)
    && (stop == Closed && c.killed && waits[0].Some? ==> c.status == waits[0])
    // otherwise the final status is the answer to the last wait made, and a timeout is that answer being None
    && (code.None? && c.outcome != Incomplete && c.outcome != WaitTimedOut ==>
          c.waitCount >= 1 && c.status == waits[c.waitCount - 1])
    && (c.outcome == WaitTimedOut ==> code.None? && c.waitCount >= 1 && waits[c.waitCount - 1].None?)
    // which waits are made, stop reason by stop reason
    && (stop == Exited ==> c.outcome != Incomplete && c.waitCount == 0)
    && (stop == EndOfData ==> (c.outcome == Incomplete <==> waits == []))
    && (stop == EndOfData && waits != [] ==> c.waitCount == 1 && c.status == waits[0])
    && (stop == Closed && waits == [] ==> c.outcome == Incomplete)
    && (stop == Closed && |waits| >= 1 && waits[0].Some? ==> c.waitCount == 1 && c.status == waits[0])
    && (stop == Closed && |waits| == 1 && waits[0].None? ==> c.outcome == Incomplete)
    && (stop == Closed && |waits| >= 2 && waits[0].None? ==> c.waitCount == 2 && c.status == waits[1])
    && (stop == Closed && |waits| >= 2 && waits[0].None? && waits[1].None? ==> c.outcome == WaitTimedOut)
    // the whole action list: SIGINT, the 4 s wait and a kill if it timed out on a close, then the 1 s wait
    && (c.outcome != Incomplete ==>
          c.actions == (if stop == Closed then [Interrupt, WaitUpTo(GraceSeconds)] + (if waits[0].None? then [Kill] else []) else [])
                       + [WaitUpTo(ReapSeconds)])
    && (c.outcome == Incomplete && stop == Closed ==>
          c.actions == [Interrupt, WaitUpTo(GraceSeconds)] + (if waits == [] then [] else [Kill, WaitUpTo(ReapSeconds)]))
  }

  /** The clean-up is determined by the waits, the stop reason and the exit code. */
  lemma ReapedDeterministic(waits: seq<Option<int>>, stderr: string, stop: Stop, code: Option<int>, c1: Ending, c2: Ending)
    requires stop != OutOfScript
    requires stop == Exited <==> code.Some?
    requires Reaped(waits, stderr, stop, code, c1) && Reaped(waits, stderr, stop, code, c2)
    ensures c1 == c2
  {
  }

  /**
   * The except GeneratorExit block (SIGINT, a 4 s wait, a kill if that wait
   * timed out, been_killed) when the consumer closed the generator, then the
   * finally block: a 1 s wait, answered at once when the exit code is
   * already known, and the error for a non-zero status of a process that
   * was not killed.
   */
  method Cleanup(waits: seq<Option<int>>, stderr: string, stop: Stop, code: Option<int>) returns (c: Ending)
    requires stop != OutOfScript
    requires stop == Exited <==> code.Some?
    ensures Reaped(waits, stderr, stop, code, c)
  {
    var actions: seq<Action> := [];
    var killed := false;
    var w := 0;
    var known := code;
    if stop == Closed {
      actions := [Interrupt, WaitUpTo(GraceSeconds)];
      if w == |waits| {
        return Ending(actions, killed, None, Incomplete, w);
      }
      var waited := waits[w];
      w := w + 1;
      if waited.None? {
        actions := actions + [Kill];
      } else {
        known := waited;
      }
      killed := true;
    }
    actions := actions + [WaitUpTo(ReapSeconds)];
    var status := known;
    if status.None? {
      if w == |waits| {
        return Ending(actions, killed, None, Incomplete, w);
      }
      status := waits[w];
      w := w + 1;
      if status.None? {
        return Ending(actions, killed, None, WaitTimedOut, w);
      }
    }
    var outcome;
    if status.value != 0 && !killed {
      outcome := Failed(status.value, stderr);
    } else if killed {
      outcome := Cancelled;
    } else {
      outcome := Finished;
    }
    return Ending(actions, killed, status, outcome, w);
  }

  /** The exit code poll() gave when the read loop ended because the process exited. */
  function ExitCode(script: Script, run: SegmentRun): Option<int> {
    if run.stop == Exited && 1 <= run.pollCount <= |script.polls| then script.polls[run.pollCount - 1] else None
  }

  /**
   * What get_segment does against a script: the read loop's answers explain
   * the yields and the stop, and the clean-up after it reaps as Cleanup does
   * for the script's waits and the exit code poll() gave. A script that ran
   * out during the loop leaves nothing done after it.
   */
  predicate Runs(script: Script, run: SegmentRun) {
    && run.readCount <= |script.output| && run.readCount <= run.pollCount <= |script.polls|
    && run.chunks == Data(script.output[..run.readCount])
    && (forall k :: 0 <= k < run.readCount ==> script.polls[k].None?)
    && (run.stop == Exited ==> run.pollCount == run.readCount + 1 && script.polls[run.pollCount - 1].Some?)
    && (run.stop == OutOfScript ==>
          run.outcome == Incomplete && run.actions == [] && !run.killed && run.status.None? && run.waitCount == 0)
    && Explains(script, LoopEnd(run.chunks, run.stop, ExitCode(script, run), run.pollCount, run.readCount, run.resumeCount))
    && (run.stop != OutOfScript ==>
          Reaped(script.waits, script.stderr, run.stop, ExitCode(script, run),
                 Ending(run.actions, run.killed, run.status, run.outcome, run.waitCount)))
  }

  /** A script determines the whole run: its yields, its actions on the process and its outcome. */
  lemma RunsDeterministic(script: Script, run1: SegmentRun, run2: SegmentRun)
    requires Runs(script, run1) && Runs(script, run2)
    ensures run1 == run2
  {
    ExplainsDeterministic(script,
      LoopEnd(run1.chunks, run1.stop, ExitCode(script, run1), run1.pollCount, run1.readCount, run1.resumeCount),
      LoopEnd(run2.chunks, run2.stop, ExitCode(script, run2), run2.pollCount, run2.readCount, run2.resumeCount));
    if run1.stop != OutOfScript {
      ReapedDeterministic(script.waits, script.stderr, run1.stop, ExitCode(script, run1),
        Ending(run1.actions, run1.killed, run1.status, run1.outcome, run1.waitCount),
        Ending(run2.actions, run2.killed, run2.status, run2.outcome, run2.waitCount));
    }
  }

  /** A loop that ran out of script is the whole run. */
  lemma RanOut(script: Script, e: LoopEnd)
    requires Explains(script, e) && e.stop == OutOfScript
    ensures Runs(script, SegmentRun(e.chunks, e.stop, [], false, None, Incomplete, e.pollCount, e.readCount, e.resumeCount, 0))
  {
    var run := SegmentRun(e.chunks, e.stop, [], false, None, Incomplete, e.pollCount, e.readCount, e.resumeCount, 0);
    assert LoopEnd(run.chunks, run.stop, ExitCode(script, run), run.pollCount, run.readCount, run.resumeCount) == e;
  }

  /** A loop that stopped, followed by the clean-up, is the whole run. */
  lemma CleanedUp(script: Script, e: LoopEnd, c: Ending)
    requires Explains(script, e) && e.stop != OutOfScript
    requires Reaped(script.waits, script.stderr, e.stop, e.code, c)
    ensures Runs(script, SegmentRun(e.chunks, e.stop, c.actions, c.killed, c.status, c.outcome,
                                    e.pollCount, e.readCount, e.resumeCount, c.waitCount))
  {
    var run := SegmentRun(e.chunks, e.stop, c.actions, c.killed, c.status, c.outcome,
                          e.pollCount, e.readCount, e.resumeCount, c.waitCount);
    assert ExitCode(script, run) == e.code;
    assert LoopEnd(run.chunks, run.stop, ExitCode(script, run), run.pollCount, run.readCount, run.resumeCount) == e;
    assert Ending(run.actions, run.killed, run.status, run.outcome, run.waitCount) == c;
  }

  /** get_segment against a script: the read loop, then the clean-up unless the script ran out first. */
  method GetSegment(script: Script) returns (run: SegmentRun)
    ensures Runs(script, run)
  {
    var e := ReadLoop(script);
    if e.stop == OutOfScript {
      RanOut(script, e);
      return SegmentRun(e.chunks, e.stop, [], false, None, Incomplete, e.pollCount, e.readCount, e.resumeCount, 0);
    }
    var c := Cleanup(script.waits, script.stderr, e.stop, e.code);
    CleanedUp(script, e, c);
    return SegmentRun(e.chunks, e.stop, c.actions, c.killed, c.status, c.outcome,
                      e.pollCount, e.readCount, e.resumeCount, c.waitCount);
  }

  /** A process that has already exited when first polled: nothing is read, and its failure is reported. */
  lemma ExitedBeforeReading(run: SegmentRun)
    requires Runs(Script([Some(3)], [], [], [], "boom"), run)
    ensures run.stop == Exited && run.chunks == [] && run.actions == [WaitUpTo(ReapSeconds)]
    ensures run.outcome == Failed(3, "boom")
  {
  }

  /** An idle read, then the end of data: the final wait's non-zero status is reported. */
  lemma EndedAfterIdleRead(run: SegmentRun)
    requires Runs(Script([None, None], [None, Some([])], [], [Some(1)], "boom"), run)
    ensures run.stop == EndOfData && run.readCount == 2 && run.chunks == []
    ensures run.outcome == Failed(1, "boom")
  {
  }

  /** A close whose 4 s wait and final 1 s wait both time out: killed, then TimeoutExpired. */
  lemma ClosedThenTimedOut(run: SegmentRun)
    requires Runs(Script([None], [Some([1])], [false], [None, None], ""), run)
    ensures run.stop == Closed && run.chunks == [[1]] && run.killed
    ensures run.actions == [Interrupt, WaitUpTo(GraceSeconds), Kill, WaitUpTo(ReapSeconds)]
    ensures run.outcome == WaitTimedOut
  {
  }
}
