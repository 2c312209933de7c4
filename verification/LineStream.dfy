/** `linestream__next`: lines out of a byte source, whatever sizes its reads return. */
module LineStream {
  import opened Bytes
  import opened ByteSource
  import opened ReadBuffer

  const READ_BUFFERING_SIZE: nat := 4 * 1024 * 1024

  // ---- Lines of a text ----

  predicate NoNewline(s: seq<byte>) {
    LF !in s
  }

  /** Bytes before the first newline. */
  function FirstLine(t: seq<byte>): (l: seq<byte>)
    ensures |l| <= |t|
  {
    if t == [] || t[0] == LF then [] else [t[0]] + FirstLine(t[1..])
  }

  lemma {:induction false} FirstLineStops(t: seq<byte>)
    ensures var l := FirstLine(t); NoNewline(l) && l <= t && (|l| < |t| ==> t[|l|] == LF)
  {
    if t != [] && t[0] != LF {
      FirstLineStops(t[1..]);
    }
  }

  /** What follows the first line and its newline. */
  function AfterLine(t: seq<byte>): seq<byte> {
    if |FirstLine(t)| < |t| then t[|FirstLine(t)| + 1..] else []
  }

  function Lines(t: seq<byte>): seq<seq<byte>>
    decreases |t|
  {
    if t == [] then [] else [FirstLine(t)] + Lines(AfterLine(t))
  }

  /** Each line with its newline. */
  function Terminated(ls: seq<seq<byte>>): seq<byte> {
    if ls == [] then [] else ls[0] + [LF] + Terminated(ls[1..])
  }

  lemma TailBehind(l: seq<byte>, after: seq<byte>)
    ensures after != [] ==> (l + after)[|l| + 1..] == after[1..]
  {
  }

  lemma {:induction false} FirstLineIs(l: seq<byte>, after: seq<byte>)
    requires NoNewline(l) && (after == [] || after[0] == LF)
    ensures FirstLine(l + after) == l
    ensures AfterLine(l + after) == if after == [] then [] else after[1..]
  {
    var t := l + after;
    if l != [] {
      FirstLineIs(l[1..], after);
      assert t[1..] == l[1..] + after;
    }
    assert FirstLine(t) == l;
    TailBehind(l, after);
  }

  /** The text with a final newline, if it lacks one. */
  function Completed(t: seq<byte>): seq<byte> {
    if t == [] || t[|t| - 1] == LF then t else t + [LF]
  }

  lemma CompletedByLine(t: seq<byte>)
    requires t != []
    ensures Completed(t) == FirstLine(t) + [LF] + Completed(AfterLine(t))
  {
    var l := FirstLine(t);
    FirstLineStops(t);
    if |l| < |t| {
      CompletedWithLine(l, AfterLine(t));
      SplitAtLine(t);
    } else {
      assert l == t[..|t|] == t;
      assert t[|t| - 1] in l;
      assert l + [LF] + [] == l + [LF];
    }
  }

  lemma SplitAtLine(t: seq<byte>)
    requires |FirstLine(t)| < |t|
    ensures t == FirstLine(t) + [LF] + AfterLine(t)
  {
    FirstLineStops(t);
  }

  lemma CompletedWithLine(l: seq<byte>, rest: seq<byte>)
    ensures Completed(l + [LF] + rest) == l + [LF] + Completed(rest)
  {
    if rest == [] {
      assert l + [LF] + rest == l + [LF];
    } else {
      Assoc(l + [LF], rest, [LF]);
    }
  }

  /** The lines hold no newline and make up the text again, but for a missing final newline. */
  lemma {:induction false} LinesMakeTheText(t: seq<byte>)
    ensures forall l :: l in Lines(t) ==> 10 !in l
    ensures Terminated(Lines(t)) == if t == [] || t[|t| - 1] == 10 then t else t + [10]
    decreases |t|
  {
    if t != [] {
      FirstLineStops(t);
      LinesMakeTheText(AfterLine(t));
      CompletedByLine(t);
      assert Lines(t)[1..] == Lines(AfterLine(t));
    }
  }

  /** Any newline-free lines are the lines of their terminated text. */
  lemma {:induction false} LinesOfTerminated(ls: seq<seq<byte>>)
    requires forall l :: l in ls ==> 10 !in l
    ensures Lines(Terminated(ls)) == ls
  {
    if ls != [] {
      var rest := Terminated(ls[1..]);
      FirstLineIs(ls[0], [LF] + rest);
      Assoc(ls[0], [LF], rest);
      LinesOfTerminated(ls[1..]);
    }
  }

  function LongestLine(t: seq<byte>): (n: nat)
    decreases |t|
  {
    if t == [] then 0
    else
      var more := LongestLine(AfterLine(t));
      if |FirstLine(t)| > more then |FirstLine(t)| else more
  }

  /** Some line is that long, and none is longer. */
  lemma {:induction false} LongestLineIs(t: seq<byte>)
    ensures forall l :: l in Lines(t) ==> |l| <= LongestLine(t)
    ensures t != [] ==> exists l :: l in Lines(t) && |l| == LongestLine(t)
    decreases |t|
  {
    if t != [] {
      var rest := AfterLine(t);
      LongestLineIs(rest);
      assert Lines(t)[0] == FirstLine(t) && Lines(t)[1..] == Lines(rest);
      if |FirstLine(t)| <= LongestLine(rest) && rest != [] {
        var l :| l in Lines(rest) && |l| == LongestLine(rest);
        assert l in Lines(t);
      }
    }
  }

  // ---- One call, abstractly ----

  datatype Result = Line(text: seq<byte>) | Eof | ReadFailed | AllocFailed

  /**
  Bytes not yet returned, the buffer's capacity, how many input bytes have been returned, the input
  positions `memchr` has examined so far, in order, and the failures of `read` and `malloc` so far.
  */
  datatype State = State(pending: seq<byte>, capacity: nat, taken: nat, examined: seq<int>,
                         readFailures: nat, mallocFailures: nat)

  function Max(a: nat, b: nat): nat {
    if a < b then b else a
  }

  /** The positions a, a + 1, .., b - 1. */
  function Range(a: int, b: int): (r: seq<int>)
    ensures |r| == if a <= b then b - a else 0
    decreases b - a
  {
    if b <= a then [] else Range(a, b - 1) + [b - 1]
  }

  lemma {:induction false} RangeJoins(a: int, b: int, c: int)
    requires a <= b <= c
    ensures Range(a, b) + Range(b, c) == Range(a, c)
    decreases c - b
  {
    if b < c {
      RangeJoins(a, b, c - 1);
      Assoc(Range(a, b), Range(b, c - 1), [c - 1]);
    } else {
      assert Range(a, b) + [] == Range(a, b);
    }
  }

  lemma {:induction false} RangeAt(a: int, b: int, i: nat)
    requires i < b - a
    ensures Range(a, b)[i] == a + i
    decreases b - a
  {
    if i < b - 1 - a {
      RangeAt(a, b - 1, i);
    }
  }

  /** The buffer that a line of this length may need has a size in `size_t`. */
  predicate Fits(lineLength: nat) {
    lineLength + 4194304 <= 0x8000_0000_0000_0000
  }

  /** A failed call returns nothing; it may have examined part of the first line, once. */
  ghost predicate NothingTaken(s: State, s': State) {
    var m := |s'.examined| - |s.examined|;
    && s'.pending == s.pending && s'.taken == s.taken
    && 0 <= m <= |FirstLine(s.pending)|
    && s'.examined == s.examined + Range(s.taken, s.taken + m)
  }

  /** What a call of `linestream__next` does to the state. */
  ghost predicate Step(s: State, r: Result, s': State) {
    && s.capacity <= s'.capacity <= Max(s.capacity, 2 * (|FirstLine(s.pending)| + READ_BUFFERING_SIZE))
    && match r
       case Line(text) =>
         && s.pending != [] && text == FirstLine(s.pending)
         && s'.pending == AfterLine(s.pending)
         && s'.taken == s.taken + |s.pending| - |s'.pending|
         && s'.examined == s.examined + Range(s.taken, s'.taken)
         && s'.readFailures == s.readFailures && s'.mallocFailures == s.mallocFailures
       case Eof =>
         s.pending == [] && s' == s.(capacity := s'.capacity)
       case ReadFailed =>
         && NothingTaken(s, s')
         && s'.readFailures == s.readFailures + 1 && s'.mallocFailures == s.mallocFailures
       case AllocFailed =>
         && NothingTaken(s, s')
         && s'.readFailures == s.readFailures
         && (|| s'.mallocFailures == s.mallocFailures + 1
             || (s'.mallocFailures == s.mallocFailures && !Fits(|FirstLine(s.pending)|)))
  }

  // ---- Whole runs ----

  /** A run: states[i] to states[i + 1] with results[i]. */
  ghost predicate IsRun(states: seq<State>, results: seq<Result>) {
    && |states| == |results| + 1
    && forall i :: 0 <= i < |results| ==> Step(states[i], results[i], states[i + 1])
  }

  lemma RunExtends(states: seq<State>, results: seq<Result>, r: Result, s: State)
    requires IsRun(states, results) && Step(states[|results|], r, s)
    ensures IsRun(states + [s], results + [r])
  {
  }

  /** The lines a run returned. */
  function Returned(results: seq<Result>): seq<seq<byte>> {
    if results == [] then []
    else (if results[0].Line? then [results[0].text] else []) + Returned(results[1..])
  }

  predicate Failed(r: Result) {
    r.ReadFailed? || r.AllocFailed?
  }

  lemma RunTail(states: seq<State>, results: seq<Result>)
    requires IsRun(states, results) && results != []
    ensures IsRun(states[1..], results[1..])
  {
    forall i | 0 <= i < |results[1..]| ensures Step(states[1..][i], results[1..][i], states[1..][i + 1]) {
      assert Step(states[i + 1], results[i + 1], states[i + 2]);
    }
  }

  /**
  Conservation: in every run the lines returned so far and the lines still to come are the lines of
  the input, however the reads were cut and wherever they failed.
  */
  lemma {:induction false} RunReturnsTheLines(states: seq<State>, results: seq<Result>)
    requires IsRun(states, results)
    ensures Returned(results) + Lines(states[|results|].pending) == Lines(states[0].pending)
    ensures |states[|results|].pending| <= |states[0].pending|
    decreases |results|
  {
    if results != [] {
      RunTail(states, results);
      RunReturnsTheLines(states[1..], results[1..]);
      assert Step(states[0], results[0], states[1]);
      var last := Lines(states[|results|].pending);
      if results[0].Line? {
        Assoc([results[0].text], Returned(results[1..]), last);
      } else {
        assert [] + Returned(results[1..]) == Returned(results[1..]);
      }
    }
  }

  /** At end of file all lines have been returned, and nothing but end of file or failures follows. */
  lemma {:induction false} EofIsForEver(states: seq<State>, results: seq<Result>, k: nat)
    requires IsRun(states, results) && k < |results| && results[k] == Eof
    ensures Returned(results[..k]) == Lines(states[0].pending)
    ensures forall i :: k <= i < |results| ==> results[i] == Eof || Failed(results[i])
  {
    assert IsRun(states[..k + 1], results[..k]) by {
      assert forall i :: 0 <= i < k ==> Step(states[i], results[i], states[i + 1]);
    }
    RunReturnsTheLines(states[..k + 1], results[..k]);
    assert Step(states[k], results[k], states[k + 1]);
    assert Returned(results[..k]) + [] == Returned(results[..k]);
    StaysEmpty(states, results, k + 1, |results|);
  }

  lemma {:induction false} StaysEmpty(states: seq<State>, results: seq<Result>, k: nat, n: nat)
    requires IsRun(states, results) && k <= n <= |results| && states[k].pending == []
    ensures forall i :: k <= i < n ==> results[i] == Eof || Failed(results[i])
    ensures states[n].pending == []
  {
    if k < n {
      StaysEmpty(states, results, k, n - 1);
      assert Step(states[n - 1], results[n - 1], states[n]);
    }
  }

  /** Failures only add up. */
  lemma {:induction false} FailuresGrow(states: seq<State>, results: seq<Result>)
    requires IsRun(states, results)
    ensures states[0].readFailures <= states[|results|].readFailures
    ensures states[0].mallocFailures <= states[|results|].mallocFailures
    decreases |results|
  {
    if results != [] {
      RunTail(states, results);
      FailuresGrow(states[1..], results[1..]);
      assert Step(states[0], results[0], states[1]);
    }
  }

  /** No `read` and no `malloc` has failed during the run, and every line fits a buffer. */
  ghost predicate Untroubled(states: seq<State>, results: seq<Result>)
    requires IsRun(states, results)
  {
    && states[|results|].readFailures == states[0].readFailures
    && states[|results|].mallocFailures == states[0].mallocFailures
    && Fits(LongestLine(states[0].pending))
  }

  lemma UntroubledTail(states: seq<State>, results: seq<Result>)
    requires IsRun(states, results) && results != [] && Untroubled(states, results)
    ensures !Failed(results[0])
    ensures IsRun(states[1..], results[1..]) && Untroubled(states[1..], results[1..])
  {
    RunTail(states, results);
    FailuresGrow(states[1..], results[1..]);
    assert Step(states[0], results[0], states[1]);
  }

  /**
  Progress: when nothing fails, the calls return the lines of the input one by one, in order, and
  end of file for ever after.
  */
  lemma {:induction false} LinesThenEof(states: seq<State>, results: seq<Result>)
    requires IsRun(states, results) && Untroubled(states, results)
    ensures var ls := Lines(states[0].pending);
            forall i :: 0 <= i < |results| ==> results[i] == if i < |ls| then Line(ls[i]) else Eof
    decreases |results|
  {
    if results != [] {
      UntroubledTail(states, results);
      LinesThenEof(states[1..], results[1..]);
      assert Step(states[0], results[0], states[1]);
      assert forall i :: 0 < i < |results| ==> results[i] == results[1..][i - 1];
    }
  }

  /**
  When nothing fails, `memchr` has examined each byte returned so far exactly once, in order, and no
  byte that has not been returned.
  */
  lemma {:induction false} EachByteExaminedOnce(states: seq<State>, results: seq<Result>)
    requires IsRun(states, results) && Untroubled(states, results)
    ensures var first, last := states[0], states[|results|];
            && first.taken <= last.taken
            && last.examined == first.examined + Range(first.taken, last.taken)
            && last.taken + |last.pending| == first.taken + |first.pending|
    decreases |results|
  {
    var first, last := states[0], states[|results|];
    if results != [] {
      UntroubledTail(states, results);
      EachByteExaminedOnce(states[1..], results[1..]);
      var second := states[1];
      assert Step(first, results[0], second);
      if results[0].Line? {
        RangeJoins(first.taken, second.taken, last.taken);
        Assoc(first.examined, Range(first.taken, second.taken), Range(second.taken, last.taken));
      }
    } else {
      assert first.examined + [] == first.examined;
    }
  }

  /** On a fresh stream: the i-th examination is that of byte i, and there are as many as bytes returned. */
  lemma ExaminedInOrder(states: seq<State>, results: seq<Result>)
    requires IsRun(states, results) && Untroubled(states, results)
    requires states[0].taken == 0 && states[0].examined == []
    ensures var last := states[|results|];
            && |last.examined| == last.taken
            && forall i :: 0 <= i < last.taken ==> last.examined[i] == i
  {
    EachByteExaminedOnce(states, results);
    var n := states[|results|].taken;
    assert [] + Range(0, n) == Range(0, n);
    forall i | 0 <= i < n ensures Range(0, n)[i] == i {
      RangeAt(0, n, i);
    }
  }

  /** At every point the buffer is bounded by its initial size and twice the longest line plus one read. */
  lemma {:induction false} CapacityIsBounded(states: seq<State>, results: seq<Result>)
    requires IsRun(states, results)
    ensures states[|results|].capacity
         <= Max(states[0].capacity, 2 * (LongestLine(states[0].pending) + 4194304))
    decreases |results|
  {
    if results != [] {
      RunTail(states, results);
      CapacityIsBounded(states[1..], results[1..]);
      assert Step(states[0], results[0], states[1]);
    }
  }

  // ---- Collecting the lines ----

  /** Between start and now the lines have been taken, and nothing has failed. */
  ghost predicate Collecting(start: State, lines: seq<seq<byte>>, now: State) {
    && lines + Lines(now.pending) == Lines(start.pending)
    && LongestLine(now.pending) <= LongestLine(start.pending)
    && now.readFailures == start.readFailures && now.mallocFailures == start.mallocFailures
  }

  lemma LineCollected(start: State, lines: seq<seq<byte>>, s: State, text: seq<byte>, s': State)
    requires Collecting(start, lines, s) && Step(s, Line(text), s')
    ensures Collecting(start, lines + [text], s') && |s'.pending| < |s.pending|
  {
    Assoc(lines, [text], Lines(s'.pending));
  }

  lemma CollectingEnds(start: State, lines: seq<seq<byte>>, s: State, r: Result, s': State)
    requires Collecting(start, lines, s) && Step(s, r, s') && !r.Line?
    ensures lines + Lines(s'.pending) == Lines(start.pending)
    ensures r == Eof ==> lines == Lines(start.pending)
    ensures r == ReadFailed <==> s'.readFailures != start.readFailures
    ensures r == AllocFailed ==> s'.mallocFailures != start.mallocFailures || !Fits(LongestLine(start.pending))
  {
    assert lines + [] == lines;
  }

  // ---- Inside one call ----

  /** The state of a call: the first `scanned` bytes of the view hold no newline, and the rest is as it was. */
  ghost predicate Scanning(s: State, view: seq<byte>, unread: seq<byte>, scanned: int, capacity: nat) {
    && 0 <= scanned <= |view| && NoNewline(view[..scanned])
    && view + unread == s.pending
    && s.capacity <= capacity <= Max(s.capacity, 2 * (|FirstLine(s.pending)| + READ_BUFFERING_SIZE))
  }

  /** A newline-free prefix is no longer than the first line. */
  lemma {:induction false} WithinFirstLine(view: seq<byte>, unread: seq<byte>)
    requires NoNewline(view)
    ensures |view| <= |FirstLine(view + unread)|
  {
    if view != [] {
      WithinFirstLine(view[1..], unread);
      assert (view + unread)[1..] == view[1..] + unread;
    }
  }

  /** The state after n bytes have been taken and, like them, examined. */
  ghost function Took(s: State, pending: seq<byte>, capacity: nat, n: nat): State {
    s.(pending := pending, capacity := capacity, taken := s.taken + n,
       examined := s.examined + Range(s.taken, s.taken + n))
  }

  lemma CutAtNewline(view: seq<byte>, unread: seq<byte>, k: nat)
    requires k < |view| && view[k] == LF
    ensures view + unread == view[..k] + ([LF] + (view[k + 1..] + unread))
  {
    assert view == view[..k] + ([LF] + view[k + 1..]);
    Assoc([LF], view[k + 1..], unread);
    Assoc(view[..k], [LF] + view[k + 1..], unread);
  }

  lemma FirstLineCut(view: seq<byte>, unread: seq<byte>, k: nat)
    requires k < |view| && NoNewline(view[..k]) && view[k] == LF
    ensures FirstLine(view + unread) == view[..k]
    ensures AfterLine(view + unread) == view[k + 1..] + unread
  {
    var line, rest := view[..k], view[k + 1..] + unread;
    CutAtNewline(view, unread, k);
    var after := [LF] + rest;
    assert after[0] == LF;
    Tail([LF], rest);
    FirstLineIs(line, after);
  }

  lemma LineFound(s: State, view: seq<byte>, unread: seq<byte>, scanned: nat, capacity: nat, k: nat)
    requires Scanning(s, view, unread, scanned, capacity)
    requires k < |view| && NoNewline(view[..k]) && view[k] == LF
    ensures Step(s, Line(view[..k]), Took(s, view[k + 1..] + unread, capacity, k + 1))
  {
    FirstLineCut(view, unread, k);
  }

  lemma LastLineFound(s: State, view: seq<byte>, scanned: nat, capacity: nat)
    requires Scanning(s, view, [], scanned, capacity) && scanned == |view| > 0
    ensures Step(s, Line(view), Took(s, [], capacity, |view|))
  {
    assert view[..scanned] == view && view + [] == view;
    FirstLineIs(view, []);
  }

  /** A failure once the whole view is examined. */
  lemma FailureFound(s: State, r: Result, s': State, viewLength: nat)
    requires Failed(r) && viewLength <= |FirstLine(s.pending)|
    requires s.capacity <= s'.capacity <= Max(s.capacity, 2 * (|FirstLine(s.pending)| + READ_BUFFERING_SIZE))
    requires s'.pending == s.pending && s'.taken == s.taken
    requires s'.examined == s.examined + Range(s.taken, s.taken + viewLength)
    requires r.ReadFailed? ==>
      s'.readFailures == s.readFailures + 1 && s'.mallocFailures == s.mallocFailures
    requires r.AllocFailed? ==>
      && s'.readFailures == s.readFailures
      && (|| s'.mallocFailures == s.mallocFailures + 1
          || (s'.mallocFailures == s.mallocFailures && !Fits(viewLength)))
    ensures Step(s, r, s')
  {
  }

  /** Once the whole view is examined it lies within the first line. */
  lemma AllScanned(s: State, view: seq<byte>, unread: seq<byte>, scanned: nat, capacity: nat)
    requires Scanning(s, view, unread, scanned, capacity) && scanned == |view|
    ensures |view| <= |FirstLine(s.pending)|
  {
    assert view[..scanned] == view;
    WithinFirstLine(view, unread);
  }

  // ---- The stream object ----

  /** A line is a view into the buffer, or an error. */
  datatype NextResult = View(data: array<byte>, cursor: nat, size: nat) | Error(code: Result)

  class Stream {
    const source: Source
    const rb: Buffer
    ghost var taken: nat
    ghost var examined: seq<int>

    ghost predicate Valid()
      reads this, rb
    {
      rb.Valid()
    }

    /** What has not been returned yet is the buffered bytes, then the unread ones. */
    ghost function Abstract(): State
      requires Valid()
      reads this, rb, rb.data, source
    {
      State(rb.View() + source.remaining, rb.capacity, taken, examined, source.failures, rb.mallocFailures)
    }

    /** The outcome r is what one step from s to the current state allows; a line is read off the buffer. */
    ghost predicate Answers(s: State, r: NextResult)
      requires Valid()
      reads this, rb, rb.data, source
    {
      match r
      case View(data, cursor, size) =>
        data == rb.data && cursor + size <= data.Length && Step(s, Line(data[cursor..cursor + size]), Abstract())
      case Error(code) =>
        !code.Line? && Step(s, code, Abstract())
    }

    /** A call in progress: nothing taken or failed yet, and `scanned` bytes of the view examined, once each. */
    ghost predicate InCall(s: State, scanned: int)
      requires Valid()
      reads this, rb, rb.data, source
    {
      && Scanning(s, rb.View(), source.remaining, scanned, rb.capacity)
      && taken == s.taken && examined == s.examined + Range(s.taken, s.taken + scanned)
      && source.failures == s.readFailures && rb.mallocFailures == s.mallocFailures
    }

    /** `linestream__create`. */
    constructor (source: Source, pageSize: nat)
      requires pageSize <= SIZE_MAX
      ensures Valid() && fresh(rb) && fresh(rb.data) && this.source == source
      ensures Abstract() == State(source.remaining, pageSize, 0, [], source.failures, 0)
    {
      this.source := source;
      var buffer := new Buffer(pageSize);
      rb := buffer;
      taken, examined := 0, [];
      new;
      assert [] + source.remaining == source.remaining;
    }

    /** The room a read needs; a grown buffer is bounded by twice the unread bytes and one read. */
    method MakeRoom() returns (ok: bool)
      requires Valid()
      modifies rb, rb.data
      ensures Valid() && (rb.data == old(rb.data) || fresh(rb.data))
      ensures rb.View() == old(rb.View())
      ensures ok ==> READ_BUFFERING_SIZE <= rb.WriteLimit()
      ensures ok ==> rb.mallocFailures == old(rb.mallocFailures)
      ensures !ok && rb.mallocFailures != old(rb.mallocFailures) ==> rb.mallocFailures == old(rb.mallocFailures) + 1
      ensures !ok && rb.mallocFailures == old(rb.mallocFailures) ==> !Fits(rb.length)
      ensures old(rb.capacity) <= rb.capacity
           <= Max(old(rb.capacity), 2 * (old(rb.length) + READ_BUFFERING_SIZE))
    {
      LargestPow2(rb.length + READ_BUFFERING_SIZE);
      var ar := rb.Assure(READ_BUFFERING_SIZE);
      ok := ar == Ok;
    }

    /** Read into the free space behind the unread bytes and commit what arrives. */
    method ReadBehind() returns (n: int)
      requires Valid() && rb.WriteLimit() > 0
      modifies rb`length, rb.data, source
      ensures Valid()
      ensures rb.View() + source.remaining == old(rb.View() + source.remaining)
      ensures old(rb.View()) <= rb.View()
      ensures n > 0 ==> |source.remaining| < |old(source.remaining)|
      ensures n <= 0 ==> rb.View() == old(rb.View()) && source.remaining == old(source.remaining)
      ensures n == 0 ==> source.remaining == []
      ensures source.failures == old(source.failures) + if n < 0 then 1 else 0
    {
      ghost var view, remaining := rb.View(), source.remaining;
      n := source.Read(rb.data, rb.offset + rb.length, rb.WriteLimit());
      assert rb.View() == view;
      if n > 0 {
        ghost var chunk := rb.data[rb.offset + rb.length..rb.offset + rb.length + n];
        forall k | 0 <= k < |remaining| ensures remaining[k] == (chunk + source.remaining)[k] {
          assert k < n ==> chunk[k] == rb.data[rb.offset + rb.length + k];
        }
        assert remaining == chunk + source.remaining;
        var cr := rb.CommitWrite(n);
        assert rb.View() == view + chunk;
        Assoc(view, chunk, source.remaining);
      }
    }

    /** Make room and read: some bytes, the end of the file, or a failure of `read` or `malloc`. */
    method Refill() returns (n: int, r: Result)
      requires Valid()
      modifies rb, rb.data, source
      ensures Valid() && (rb.data == old(rb.data) || fresh(rb.data))
      ensures rb.View() + source.remaining == old(rb.View() + source.remaining)
      ensures old(rb.View()) <= rb.View()
      ensures n > 0 ==> |source.remaining| < |old(source.remaining)|
      ensures n <= 0 ==> rb.View() == old(rb.View()) && source.remaining == old(source.remaining)
      ensures n == 0 ==> source.remaining == []
      ensures n >= 0 ==> source.failures == old(source.failures) && rb.mallocFailures == old(rb.mallocFailures)
      ensures n < 0 ==> Failed(r)
      ensures n < 0 && r.ReadFailed? ==>
        source.failures == old(source.failures) + 1 && rb.mallocFailures == old(rb.mallocFailures)
      ensures n < 0 && r.AllocFailed? ==>
        && source.failures == old(source.failures)
        && (|| rb.mallocFailures == old(rb.mallocFailures) + 1
            || (rb.mallocFailures == old(rb.mallocFailures) && !Fits(old(rb.length))))
      ensures old(rb.capacity) <= rb.capacity
           <= Max(old(rb.capacity), 2 * (old(rb.length) + READ_BUFFERING_SIZE))
    {
      var ok := MakeRoom();
      if !ok {
        return -1, AllocFailed;
      }
      n := ReadBehind();
      r := if n < 0 then ReadFailed else Eof;
    }

    /**
    `memchr` for a newline in data[from..from + n]: its index, or from + n. The stream records the input
    position of each byte it examines: every byte up to the newline, once, and none behind it.
    */
    method MemChrNewline(from: nat, n: nat) returns (k: nat)
      requires rb.offset <= from && from + n <= rb.data.Length
      modifies `examined
      ensures from <= k <= from + n && NoNewline(rb.data[from..k])
      ensures k < from + n ==> rb.data[k] == LF
      ensures var base := taken + (from - rb.offset);
              examined == old(examined) + Range(base, base + (k - from) + if k < from + n then 1 else 0)
    {
      ghost var base, was := taken + (from - rb.offset), examined;
      k := from;
      assert was + [] == was;
      while k < from + n
        invariant from <= k <= from + n && NoNewline(rb.data[from..k])
        invariant examined == was + Range(base, base + (k - from))
      {
        Assoc(was, Range(base, base + (k - from)), [base + (k - from)]);
        examined := examined + [taken + (k - rb.offset)];
        if rb.data[k] == LF {
          return;
        }
        k := k + 1;
      }
    }

    /** The `memchr` over the bytes of the view that no earlier round has examined, and over no others. */
    method FindNewline(scanned: nat) returns (lineLen: nat)
      requires Valid() && scanned <= rb.length && NoNewline(rb.View()[..scanned])
      modifies `examined
      ensures lineLen <= rb.length && NoNewline(rb.View()[..lineLen])
      ensures lineLen < rb.length ==> rb.View()[lineLen] == LF && scanned <= lineLen
      ensures examined
           == old(examined) + Range(taken + scanned, taken + lineLen + if lineLen < rb.length then 1 else 0)
    {
      var nl := MemChrNewline(rb.offset + scanned, rb.length - scanned);
      lineLen := nl - rb.offset;
      ghost var view := rb.View();
      forall i | 0 <= i < lineLen ensures view[i] != LF {
        if i < scanned {
          assert view[i] in view[..scanned];
        } else {
          assert view[i] == rb.data[rb.offset + scanned..nl][i - scanned];
        }
      }
    }

    /** Return the first lineLen bytes as a view, saved before the first n bytes are consumed. */
    method TakeLine(lineLen: nat, n: nat) returns (r: NextResult)
      requires Valid() && lineLen <= n <= rb.length
      modifies `taken, rb`length, rb`offset
      ensures Valid() && rb.View() == old(rb.View())[n..] && taken == old(taken) + n
      ensures r.View? && r.data == rb.data && r.cursor + r.size <= r.data.Length
      ensures r.data[r.cursor..r.cursor + r.size] == old(rb.View())[..lineLen]
    {
      var lineStart := rb.offset;
      ghost var line := rb.View()[..lineLen];
      assert forall k :: 0 <= k < lineLen ==> line[k] == rb.data[lineStart + k];
      var _ := rb.Consume(n);
      taken := taken + n;
      r := View(rb.data, lineStart, lineLen);
      assert rb.data[lineStart..lineStart + lineLen] == line;
    }

    /** A line found: the call ends with it, once the bytes it takes have been examined. */
    method Yield(lineLen: nat, n: nat, ghost s: State) returns (r: NextResult)
      requires Valid() && lineLen <= n <= rb.length
      requires Step(s, Line(rb.View()[..lineLen]), Took(s, rb.View()[n..] + source.remaining, rb.capacity, n))
      requires taken == s.taken && examined == s.examined + Range(s.taken, s.taken + n)
      requires source.failures == s.readFailures && rb.mallocFailures == s.mallocFailures
      modifies `taken, rb`length, rb`offset
      ensures Valid() && Answers(s, r)
    {
      ghost var s' := Took(s, rb.View()[n..] + source.remaining, rb.capacity, n);
      r := TakeLine(lineLen, n);
      assert Abstract() == s';
    }

    /** The newline is at lineLen: return the bytes before it. */
    method ReturnLine(lineLen: nat, ghost s: State) returns (r: NextResult)
      requires Valid() && lineLen < rb.length
      requires Scanning(s, rb.View(), source.remaining, 0, rb.capacity) && taken == s.taken
      requires examined == s.examined + Range(s.taken, s.taken + lineLen + 1)
      requires source.failures == s.readFailures && rb.mallocFailures == s.mallocFailures
      requires NoNewline(rb.View()[..lineLen]) && rb.View()[lineLen] == LF
      modifies `taken, rb`length, rb`offset
      ensures Valid() && Answers(s, r)
    {
      ghost var view := rb.View();
      LineFound(s, view, source.remaining, 0, rb.capacity, lineLen);
      r := Yield(lineLen, lineLen + 1, s);
    }

    /** The newline-free rest as the last line. */
    method TakeRest(ghost s: State) returns (r: NextResult)
      requires Valid() && source.remaining == [] && InCall(s, rb.length) && rb.length > 0
      modifies `taken, rb`length, rb`offset
      ensures Valid() && Answers(s, r)
    {
      ghost var view := rb.View();
      LastLineFound(s, view, rb.length, rb.capacity);
      assert view[..|view|] == view && view[|view|..] == [];
      r := Yield(rb.length, rb.length, s);
    }

    /** At end of file the newline-free rest is the last line, unless there is none. */
    method ReturnRest(ghost s: State) returns (r: NextResult)
      requires Valid() && source.remaining == [] && InCall(s, rb.length)
      modifies `taken, rb`length, rb`offset
      ensures Valid() && Answers(s, r)
    {
      if rb.length > 0 {
        r := TakeRest(s);
        return;
      }
      assert s.pending == [] && s.examined + [] == s.examined;
      return Error(Eof);
    }

    /** The whole view is examined: read more, or end the call on an error or the end of the file. */
    method ReadOn(scanned: nat, ghost s: State) returns (more: bool, r: NextResult)
      requires Valid() && scanned == rb.length && InCall(s, scanned)
      modifies `taken, rb, rb.data, source
      ensures Valid() && (rb.data == old(rb.data) || fresh(rb.data))
      ensures more ==> |source.remaining| < |old(source.remaining)| && InCall(s, scanned)
      ensures !more ==> Answers(s, r)
    {
      ghost var view := rb.View();
      AllScanned(s, view, source.remaining, scanned, rb.capacity);
      var n, error := Refill();
      if n < 0 {
        FailureFound(s, error, Abstract(), scanned);
        return false, Error(error);
      }
      if n == 0 {
        more := false;
        r := ReturnRest(s);
        return;
      }
      assert rb.View()[..scanned] == view[..scanned];
      return true, Error(Eof);
    }

    /** One round of scanning: the line that now ends in the view, or the whole view examined. */
    method ScanRound(scanned: nat, ghost s: State) returns (lineLen: nat)
      requires Valid() && scanned < rb.length && InCall(s, scanned)
      modifies `examined
      ensures lineLen <= rb.length && NoNewline(rb.View()[..lineLen])
      ensures lineLen < rb.length ==>
        rb.View()[lineLen] == LF && examined == s.examined + Range(s.taken, s.taken + lineLen + 1)
      ensures lineLen == rb.length ==> InCall(s, rb.length)
    {
      lineLen := FindNewline(scanned);
      Rejoin(s, scanned, lineLen + if lineLen < rb.length then 1 else 0);
    }

    /** `linestream__next`. */
    method Next() returns (r: NextResult)
      requires Valid()
      modifies this, rb, rb.data, source
      ensures Valid() && (rb.data == old(rb.data) || fresh(rb.data))
      ensures Answers(old(Abstract()), r)
    {
      ghost var s := Abstract();
      var scanned := 0;
      assert s.examined + [] == s.examined;
      while true
        invariant Valid() && (rb.data == old(rb.data) || fresh(rb.data))
        invariant InCall(s, scanned)
        decreases |source.remaining|
      {
        if rb.length > scanned {
          var lineLen := ScanRound(scanned, s);
          if lineLen < rb.length {
            r := ReturnLine(lineLen, s);
            return;
          }
          scanned := rb.length;
        }
        var more;
        more, r := ReadOn(scanned, s);
        if !more {
          return;
        }
      }
    }

    /** The outcome of a call as a value: the bytes of the line, or the error. */
    function ResultOf(r: NextResult): Result
      requires r.View? ==> r.cursor + r.size <= r.data.Length
      reads if r.View? then {r.data} else {}
    {
      if r.View? then Line(r.data[r.cursor..r.cursor + r.size]) else r.code
    }

    /** One call and its outcome, read off the buffer. */
    method Call() returns (r: Result)
      requires Valid()
      modifies this, rb, rb.data, source
      ensures Valid() && (rb.data == old(rb.data) || fresh(rb.data))
      ensures Step(old(Abstract()), r, Abstract())
    {
      var v := Next();
      r := ResultOf(v);
    }

    /** Any number of calls on one stream are a run. */
    method Calls(n: nat) returns (results: seq<Result>, ghost states: seq<State>)
      requires Valid()
      modifies this, rb, rb.data, source
      ensures Valid() && (rb.data == old(rb.data) || fresh(rb.data))
      ensures |results| == n && IsRun(states, results)
      ensures states[0] == old(Abstract()) && states[n] == Abstract()
    {
      results, states := [], [Abstract()];
      for i := 0 to n
        invariant Valid() && (rb.data == old(rb.data) || fresh(rb.data))
        invariant |results| == i && IsRun(states, results)
        invariant states[0] == old(Abstract()) && states[i] == Abstract()
      {
        var r := Call();
        RunExtends(states, results, r, Abstract());
        results, states := results + [r], states + [Abstract()];
      }
    }

    /**
    The loop every caller writes: take lines until a call fails. At end of file these are the lines of
    the input; a failure leaves the lines not yet taken pending, and happens only when a read or an
    allocation failed, or a line is too long for any buffer.
    */
    method CollectLines() returns (lines: seq<seq<byte>>, code: Result)
      requires Valid()
      modifies this, rb, rb.data, source
      ensures Valid() && (rb.data == old(rb.data) || fresh(rb.data))
      ensures lines + Lines(Abstract().pending) == Lines(old(Abstract().pending))
      ensures code == Eof || Failed(code)
      ensures code == Eof ==> lines == Lines(old(Abstract().pending))
      ensures code == ReadFailed <==> source.failures != old(source.failures)
      ensures code == AllocFailed ==>
        rb.mallocFailures != old(rb.mallocFailures) || !Fits(LongestLine(old(Abstract().pending)))
    {
      ghost var s := Abstract();
      lines := [];
      assert lines + Lines(s.pending) == Lines(s.pending);
      while true
        invariant Valid() && (rb.data == old(rb.data) || fresh(rb.data))
        invariant Collecting(s, lines, Abstract())
        decreases |Abstract().pending|
      {
        ghost var now := Abstract();
        var r := Call();
        if !r.Line? {
          CollectingEnds(s, lines, now, r, Abstract());
          return lines, r;
        }
        LineCollected(s, lines, now, r.text, Abstract());
        lines := lines + [r.text];
      }
    }
  }

  /** A round of examinations continues the one before. */
  lemma Rejoin(s: State, a: nat, b: nat)
    requires a <= b
    ensures s.examined + Range(s.taken, s.taken + a) + Range(s.taken + a, s.taken + b)
         == s.examined + Range(s.taken, s.taken + b)
  {
    RangeJoins(s.taken, s.taken + a, s.taken + b);
    Assoc(s.examined, Range(s.taken, s.taken + a), Range(s.taken + a, s.taken + b));
  }
}