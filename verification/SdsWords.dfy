/** How `sdssplitargs` cuts a line without quotes, against splitting at white space. */
module SdsWords {
  import opened Bytes
  import opened SdsSplit
  import opened SdsQuoting
  import opened SdsGrammar

  predicate QuoteFree(t: seq<byte>) {
    forall i :: 0 <= i < |t| ==> t[i] != 34 && t[i] != 39
  }

  /** Vertical tab and form feed: white space between tokens that does not end one. */
  predicate IsSoftSpace(c: byte) {
    c == 11 || c == 12
  }

  /** The text behind its leading white space. */
  function Unindented(t: seq<byte>): (u: seq<byte>)
    ensures |u| <= |t|
  {
    if t != [] && IsBlank(t[0]) then Unindented(t[1..]) else t
  }

  lemma {:induction false} UnindentedIsSkipped(t: seq<byte>)
    ensures Unindented(t) == SkipSpace(t)
  {
    if t != [] && IsBlank(t[0]) {
      UnindentedIsSkipped(t[1..]);
    }
  }

  /** The bytes before the first white space. */
  function WordOf(t: seq<byte>): (w: seq<byte>)
    ensures |w| <= |t|
  {
    if t == [] || IsBlank(t[0]) then [] else [t[0]] + WordOf(t[1..])
  }

  /** What follows that word and the white-space byte behind it. */
  function PastWord(t: seq<byte>): seq<byte> {
    if t == [] then [] else if IsBlank(t[0]) then t[1..] else PastWord(t[1..])
  }

  lemma {:induction false} PastWordIsShorter(t: seq<byte>)
    ensures |PastWord(t)| <= |t| && (t != [] ==> |PastWord(t)| < |t|)
  {
    if t != [] && !IsBlank(t[0]) {
      PastWordIsShorter(t[1..]);
    }
  }

  /** The maximal runs of bytes that are no white space. */
  function Words(t: seq<byte>): seq<seq<byte>>
    decreases |t|
  {
    var u := Unindented(t);
    if u == [] then []
    else
      PastWordIsShorter(u);
      [WordOf(u)] + Words(PastWord(u))
  }

  /** No vertical tab or form feed directly follows a byte that is no white space. */
  ghost predicate NoSoftEnd(t: seq<byte>) {
    forall i :: 0 < i < |t| && IsSoftSpace(t[i]) ==> IsBlank(t[i - 1])
  }

  predicate StartsSoft(t: seq<byte>) {
    t != [] && IsSoftSpace(t[0])
  }

  lemma NoSoftEndTail(t: seq<byte>)
    requires t != []
    ensures NoSoftEnd(t) <==> NoSoftEnd(t[1..]) && (StartsSoft(t[1..]) ==> IsBlank(t[0]))
  {
    var u := t[1..];
    if NoSoftEnd(t) {
      forall i | 0 < i < |u| && IsSoftSpace(u[i]) ensures IsBlank(u[i - 1]) {
        assert u[i] == t[i + 1] && u[i - 1] == t[i];
      }
    }
    if NoSoftEnd(u) && (StartsSoft(u) ==> IsBlank(t[0])) {
      forall i | 0 < i < |t| && IsSoftSpace(t[i]) ensures IsBlank(t[i - 1]) {
        assert t[i] == u[i - 1];
        assert i > 1 ==> t[i - 1] == u[i - 2];
      }
    }
  }

  lemma {:induction false} SkipSpaceKeeps(t: seq<byte>)
    requires QuoteFree(t)
    ensures QuoteFree(SkipSpace(t)) && (NoSoftEnd(SkipSpace(t)) <==> NoSoftEnd(t))
  {
    if t != [] && IsBlank(t[0]) {
      NoSoftEndTail(t);
      SkipSpaceKeeps(t[1..]);
    }
  }

  /** The scanner's token is the word, unless a soft space follows it; then the token runs on. */
  lemma {:induction false} TokenOrWord(t: seq<byte>)
    requires QuoteFree(t) && !StartsSoft(t)
    ensures ScanPlain(t).Token? && QuoteFree(PastWord(t))
    ensures NoSoftEnd(t) ==> ScanPlain(t) == Token(WordOf(t), PastWord(t)) && NoSoftEnd(PastWord(t))
    ensures ScanPlain(t).value == WordOf(t) ==>
      ScanPlain(t).rest == PastWord(t) && (NoSoftEnd(PastWord(t)) ==> NoSoftEnd(t))
  {
    if t != [] {
      NoSoftEndTail(t);
      if !IsBlank(t[0]) {
        if StartsSoft(t[1..]) {
          RunsOn(t[1..]);
        } else {
          TokenOrWord(t[1..]);
          assert ScanPlain(t).value[1..] == ScanPlain(t[1..]).value && WordOf(t)[1..] == WordOf(t[1..]);
        }
      }
    }
  }

  /** Inside a token a soft space is a plain byte. */
  lemma {:induction false} RunsOn(t: seq<byte>)
    requires QuoteFree(t) && StartsSoft(t)
    ensures ScanPlain(t).Token? && ScanPlain(t).value != [] && WordOf(t) == [] && QuoteFree(PastWord(t))
  {
    PlainIsToken(t[1..]);
  }

  lemma {:induction false} PlainIsToken(t: seq<byte>)
    requires QuoteFree(t)
    ensures ScanPlain(t).Token?
  {
    if t != [] && !EndsPlain(t[0]) {
      PlainIsToken(t[1..]);
    }
  }

  /**
  On lines without quotes the tokens are the white-space separated words exactly when no vertical tab
  or form feed directly follows a byte that is no white space.
  */
  lemma {:induction false} TokensAreWordsIff(t: seq<byte>)
    requires QuoteFree(t)
    ensures ScanLine(t) == Some(Words(t)) <==> NoSoftEnd(t)
    decreases |t|
  {
    var u := SkipSpace(t);
    UnindentedIsSkipped(t);
    SkipSpaceKeeps(t);
    if u != [] {
      TokenOrWord(u);
      PastWordIsShorter(u);
      TokensAreWordsIff(PastWord(u));
      var r := ScanPlain(u);
      if ScanLine(r.rest).Some? {
        SameList(r.value, ScanLine(r.rest).value, WordOf(u), Words(PastWord(u)));
      }
    }
  }

  lemma SameList(v: seq<byte>, vs: seq<seq<byte>>, w: seq<byte>, ws: seq<seq<byte>>)
    ensures [v] + vs == [w] + ws <==> v == w && vs == ws
  {
    assert ([v] + vs)[0] == v && ([w] + ws)[0] == w;
    assert ([v] + vs)[1..] == vs && ([w] + ws)[1..] == ws;
  }

  /** "a", vertical tab, "b" is one token but two words. */
  lemma SoftSpaceStays()
    ensures ScanLine([97, 11, 98]) == Some([[97, 11, 98]])
    ensures Words([97, 11, 98]) == [[97], [98]]
  {
    var t: seq<byte> := [97, 11, 98];
    assert t[1..] == [11, 98] && t[1..][1..] == [98] && t[1..][1..][1..] == [];
    assert ScanPlain([98]) == Token([98], []);
    assert ScanPlain([11, 98]) == Token([11, 98], []);
    assert ScanPlain(t) == Token(t, []);
    assert SkipSpace(t) == t && Unindented(t) == t && Unindented([98]) == [98];
    EmptyLine();
    var more: seq<seq<byte>> := [];
    assert ScanLine(t) == Some([t] + more) && [t] + more == [t];
    assert WordOf(t) == [97] && PastWord(t) == [98];
    assert WordOf([98]) == [98] && PastWord([98]) == [];
    assert Words([98]) == [[98]] + Words([]);
  }

  lemma EmptyLine()
    ensures ScanLine([]) == Some([]) && Words([]) == []
  {
    assert SkipSpace([]) == [] && Unindented([]) == [];
  }

  // ---- Lines of plain words ----

  /** A word without white space and quotes. */
  predicate PlainWord(w: seq<byte>) {
    w != [] && forall i :: 0 <= i < |w| ==> !IsBlank(w[i]) && w[i] != 34 && w[i] != 39
  }

  /** The token of a plain word stops where a space, tab or line end follows. */
  lemma {:induction false} PlainWordStops(w: seq<byte>, t: seq<byte>)
    requires forall i :: 0 <= i < |w| ==> !IsBlank(w[i]) && w[i] != 34 && w[i] != 39
    requires t == [] || t[0] in {32, 9, 10, 13}
    ensures ScanPlain(w + t) == Token(w, if t == [] then [] else t[1..])
  {
    if w == [] {
      assert w + t == t;
    } else {
      PlainWordStops(w[1..], t);
      assert (w + t)[1..] == w[1..] + t;
    }
  }

  /** Before any other white space it runs on. */
  lemma {:induction false} PlainWordRunsOn(w: seq<byte>, t: seq<byte>)
    requires forall i :: 0 <= i < |w| ==> !IsBlank(w[i]) && w[i] != 34 && w[i] != 39
    requires t != [] && t[0] in {11, 12}
    ensures var r := ScanPlain(w + t); r.Token? ==> |r.value| > |w|
  {
    if w == [] {
      assert w + t == t;
    } else {
      PlainWordRunsOn(w[1..], t);
      assert (w + t)[1..] == w[1..] + t;
    }
  }

  lemma ScanBehindBlank(lead: seq<byte>, t: seq<byte>)
    requires Blank(lead)
    ensures ScanLine(lead + t) == ScanLine(t)
  {
    SkipBlank(lead, t);
  }

  lemma ScanFirstWord(w: seq<byte>, t: seq<byte>)
    requires PlainWord(w) && (t == [] || t[0] in {32, 9, 10, 13})
    ensures var more := ScanLine(if t == [] then [] else t[1..]);
            ScanLine(w + t) == if more.None? then None else Some([w] + more.value)
  {
    PlainWordStops(w, t);
  }

  lemma SingleWord(w: seq<byte>)
    requires PlainWord(w)
    ensures ScanLine(w) == Some([w])
  {
    EmptyLine();
    ScanFirstWord(w, []);
    var none: seq<seq<byte>> := [];
    assert w + [] == w && [w] + none == [w];
  }

  lemma FirstTokenIsLonger(w: seq<byte>, t: seq<byte>, ws: seq<seq<byte>>)
    requires PlainWord(w) && t != [] && t[0] in {11, 12}
    ensures ScanLine(w + t) != Some([w] + ws)
  {
    PlainWordRunsOn(w, t);
    assert SkipSpace(w + t) == w + t;
    var r := ScanPlain(w + t);
    if r.Token? && ScanLine(r.rest).Some? {
      SameList(r.value, ScanLine(r.rest).value, w, ws);
    }
  }

  /**
  Plain words with the same white space between any two of them are the tokens of the line, exactly
  when that white space starts with a space, a tab or a line end.
  */
  lemma {:induction false} JoinedWords(ws: seq<seq<byte>>, gap: seq<byte>)
    requires forall i :: 0 <= i < |ws| ==> PlainWord(ws[i])
    requires gap != [] && forall i :: 0 <= i < |gap| ==> gap[i] == 32 || 9 <= gap[i] <= 13
    ensures ScanLine(Join(ws, gap)) == Some(ws) <==> |ws| < 2 || gap[0] in {32, 9, 10, 13}
  {
    if |ws| == 0 {
      EmptyLine();
    } else if |ws| == 1 {
      SingleWord(ws[0]);
      assert ws == [ws[0]];
    } else {
      var rest := Join(ws[1..], gap);
      Assoc(ws[0], gap, rest);
      assert ws == [ws[0]] + ws[1..];
      if gap[0] in {11, 12} {
        FirstTokenIsLonger(ws[0], gap + rest, ws[1..]);
      } else {
        JoinedWords(ws[1..], gap);
        assert (gap + rest)[1..] == gap[1..] + rest;
        ScanBehindBlank(gap[1..], rest);
        ScanFirstWord(ws[0], gap + rest);
      }
    }
  }
}
