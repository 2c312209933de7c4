/** `sdssplitargs`: the three-mode scanner over a NUL-terminated line, refining the function `ScanLine`. */
module SdsTokenizer {
  import opened Bytes
  import opened SdsString
  import opened SdsQuoting
  import opened SdsGrammar

  /** The rest of the line at the cursor. */
  ghost function At(line: CString, p: int): seq<byte>
    requires 0 <= p < |line|
  {
    Text(line)[p..]
  }

  /** The bytes at the cursor are the first bytes of the rest, and moving the cursor drops them. */
  lemma Look(line: CString, p: nat, k: nat)
    requires p + k < |line|
    ensures |At(line, p)| == |line| - 1 - p
    ensures forall i :: 0 <= i < |At(line, p)| ==> At(line, p)[i] == line[p + i]
    ensures At(line, p)[k..] == At(line, p + k)
  {
    SliceOfSlice(Text(line), p, |Text(line)|, k, |Text(line)| - p);
    assert Text(line)[p..|Text(line)|] == At(line, p);
  }

  /** Scanning on from the cursor, unless the token is done. */
  ghost function Onward(m: Mode, done: bool, t: seq<byte>): Scan {
    if done then Token([], t) else ScanIn(m, t)
  }

  /** Append the byte a round yields, if any, to the token being built. */
  method Append(current: Sds, out: seq<byte>)
    requires current.Valid() && Sizeable(current.used + |out|)
    modifies current, current.buf
    ensures current.Valid() && (current.buf == old(current.buf) || fresh(current.buf))
    ensures current.Contents() == old(current.Contents()) + out
  {
    if out != [] {
      current.CatLen(out);
    }
  }

  /** `if (*p) p++`. */
  function Advance(line: CString, p: nat): (q: nat)
    requires p < |line|
    ensures p <= q < |line| && (line[p] != NUL ==> q == p + 1)
  {
    if line[p] != NUL then p + 1 else p
  }

  lemma HexEscapeAt(line: CString, p: nat)
    requires p + 4 < |line| && line[p] == BACKSLASH && line[p + 1] == LOWER_X
    requires IsHex(line[p + 2]) && IsHex(line[p + 3])
    ensures ScanDouble(At(line, p))
         == Prepend([HexValue(line[p + 2]) * 16 + HexValue(line[p + 3])], ScanDouble(At(line, p + 4)))
  {
    Look(line, p, 4);
  }

  lemma EscapeAt(line: CString, p: nat)
    requires p + 2 < |line| && line[p] == BACKSLASH && !StartsHexEscape(At(line, p))
    ensures ScanDouble(At(line, p)) == Prepend([Unescaped(line[p + 1])], ScanDouble(At(line, p + 2)))
  {
    Look(line, p, 2);
  }

  /** The byte, the number of line bytes it takes, or the end of the segment, inside double quotes. */
  method DoubleStep(line: CString, p: nat) returns (bad: bool, done: bool, out: seq<byte>, q: nat)
    requires p < |line|
    ensures bad ==> ScanDouble(At(line, p)) == Unbalanced
    ensures !bad ==>
      && p < q < |line| && |out| <= 1
      && ScanDouble(At(line, p)) == Prepend(out, Onward(InDouble, done, At(line, q)))
  {
    bad, done, out, q := false, false, [], p;
    if line[q] == BACKSLASH && line[q + 1] == LOWER_X && IsHex(line[q + 2]) && IsHex(line[q + 3]) {
      out := [HexValue(line[q + 2]) * 16 + HexValue(line[q + 3])];
      HexEscapeAt(line, q);
      q := q + 3;
    } else if line[q] == BACKSLASH && line[q + 1] != NUL {
      Look(line, p, 0);
      EscapeAt(line, q);
      q := q + 1;
      out := [Unescaped(line[q])];
    } else if line[q] == DQUOTE {
      Look(line, p, 1);
      if line[q + 1] != NUL && !IsSpace(line[q + 1]) {
        bad := true;
        return;
      }
      done := true;
    } else if line[q] == NUL {
      Look(line, p, 0);
      bad := true;
      return;
    } else {
      Look(line, p, 1);
      out := [line[q]];
    }
    q := Advance(line, q);
  }

  /** The same inside single quotes. */
  method SingleStep(line: CString, p: nat) returns (bad: bool, done: bool, out: seq<byte>, q: nat)
    requires p < |line|
    ensures bad ==> ScanSingle(At(line, p)) == Unbalanced
    ensures !bad ==>
      && p < q < |line| && |out| <= 1
      && ScanSingle(At(line, p)) == Prepend(out, Onward(InSingle, done, At(line, q)))
  {
    bad, done, out, q := false, false, [], p;
    if line[q] == BACKSLASH && line[q + 1] == SQUOTE {
      q := q + 1;
      out := [SQUOTE];
    } else if line[q] == SQUOTE {
      if line[q + 1] != NUL && !IsSpace(line[q + 1]) {
        bad := true;
        return;
      }
      done := true;
    } else if line[q] == NUL {
      bad := true;
      return;
    } else {
      out := [line[q]];
    }
    q := Advance(line, q);
    Look(line, p, q - p);
  }

  /** The same outside quotes, where a quote only changes the mode. */
  method PlainStep(line: CString, p: nat) returns (mode: Mode, done: bool, out: seq<byte>, q: nat)
    requires p < |line|
    ensures p <= q < |line| && |out| <= q - p && |out| <= 1
    ensures (line[p] != NUL ==> p < q) && (line[p] == NUL ==> done)
    ensures ScanPlain(At(line, p)) == Prepend(out, Onward(mode, done, At(line, q)))
  {
    mode, done, out := InPlain, false, [];
    if EndsPlain(line[p]) || line[p] == NUL {
      done := true;
    } else if line[p] == DQUOTE {
      mode := InDouble;
    } else if line[p] == SQUOTE {
      mode := InSingle;
    } else {
      out := [line[p]];
    }
    q := Advance(line, p);
    Look(line, p, q - p);
  }

  /** One round of the token loop, in whichever mode. */
  method Step(m: Mode, line: CString, p: nat) returns (bad: bool, mode: Mode, done: bool, out: seq<byte>, q: nat)
    requires p < |line|
    ensures bad ==> ScanIn(m, At(line, p)) == Unbalanced
    ensures !bad ==>
      && p <= q < |line| && |out| <= q - p && |out| <= 1
      && (line[p] != NUL ==> p < q) && (p == q ==> done)
      && ScanIn(m, At(line, p)) == Prepend(out, Onward(mode, done, At(line, q)))
  {
    bad, mode := false, m;
    match m {
      case InDouble => bad, done, out, q := DoubleStep(line, p);
      case InSingle => bad, done, out, q := SingleStep(line, p);
      case InPlain => mode, done, out, q := PlainStep(line, p);
    }
  }

  /** The token starting at p, in a fresh string; None is the jump to `err`. */
  method NextToken(line: CString, start: nat) returns (token: Option<Sds>, p: nat)
    requires start < |line| && line[start] != NUL && Sizeable(|line|)
    ensures token.None? <==> ScanPlain(At(line, start)) == Unbalanced
    ensures token.Some? ==>
      && start < p < |line| && fresh(token.value) && token.value.Valid()
      && ScanPlain(At(line, start)) == Token(token.value.Contents(), At(line, p))
  {
    var current := new Sds([]);
    var mode, done := InPlain, false;
    p := start;
    ghost var r := ScanPlain(At(line, start));
    assert r.Token? ==> [] + r.value == r.value;
    while !done
      invariant start <= p < |line| && (p == start ==> !done)
      invariant fresh(current) && fresh(current.buf) && current.Valid() && current.used <= p - start
      invariant ScanPlain(At(line, start)) == Prepend(current.Contents(), Onward(mode, done, At(line, p)))
      decreases !done, |line| - p
    {
      var bad, out, q;
      bad, mode, done, out, q := Step(mode, line, p);
      if bad {
        return None, p;
      }
      PrependTwice(current.Contents(), out, Onward(mode, done, At(line, q)));
      Append(current, out);
      p := q;
    }
    token := Some(current);
  }

  /** The blanks between tokens. */
  method SkipBlanks(line: CString, start: nat) returns (p: nat)
    requires start < |line|
    ensures start <= p < |line| && At(line, p) == SkipSpace(At(line, start))
  {
    p := start;
    while line[p] != NUL && IsSpace(line[p])
      invariant start <= p < |line| && SkipSpace(At(line, p)) == SkipSpace(At(line, start))
      decreases |line| - p
    {
      p := p + 1;
    }
  }

  /** What the tokens found so far and the rest of the line amount to. */
  ghost function Followed(vector: seq<seq<byte>>, rest: Option<seq<seq<byte>>>): Option<seq<seq<byte>>> {
    if rest.None? then None else Some(vector + rest.value)
  }

  /** One token more, taken from a line whose leading blanks are skipped. */
  lemma FollowedNext(vector: seq<seq<byte>>, t: seq<byte>, v: seq<byte>, rest: seq<byte>)
    requires SkipSpace(t) != [] && ScanPlain(SkipSpace(t)) == Token(v, rest)
    ensures Followed(vector, ScanLine(t)) == Followed(vector + [v], ScanLine(rest))
  {
    if ScanLine(rest).Some? {
      Assoc(vector, [v], ScanLine(rest).value);
    }
  }

  /** `sdssplitargs`; None stands for the NULL result. */
  method SplitArgs(line: CString) returns (argv: Option<seq<seq<byte>>>)
    requires Sizeable(|line|)
    ensures argv == ScanLine(Text(line))
    ensures argv.Some? <==> exists lead, l :: Derives(lead, l, Text(line))
    ensures forall lead, l :: Derives(lead, l, Text(line)) ==> argv == Some(Values(l))
  {
    AcceptsExactlyTheGrammar(Text(line));
    var vector: seq<seq<byte>>, p := [], 0;
    ghost var whole := ScanLine(Text(line));
    assert At(line, 0) == Text(line);
    assert whole.Some? ==> [] + whole.value == whole.value;
    while true
      invariant 0 <= p < |line|
      invariant whole == Followed(vector, ScanLine(At(line, p)))
      decreases |line| - p
    {
      ghost var t := At(line, p);
      p := SkipBlanks(line, p);
      if line[p] == NUL {
        assert vector + [] == vector;
        return Some(vector);
      }
      var token, q := NextToken(line, p);
      if token.None? {
        return None;
      }
      var current := token.value;
      var v := current.buf[..current.used];
      FollowedNext(vector, t, v, At(line, q));
      vector := vector + [v];
      p := q;
    }
  }
}
