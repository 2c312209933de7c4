/**
The argument-line grammar as syntax trees: blank-separated words, each a plain run followed by at
most one quoted segment. The scanner accepts exactly the texts of well-formed trees, and quoted
forms printed by `sdscatrepr` are such texts.
*/
module SdsGrammar {
  import opened Bytes
  import opened SdsSplit
  import opened SdsQuoting

  // ---- Tables of the grammar, by byte codes ----

  /** Space, \t, \n, \v, \f, \r. */
  predicate IsBlank(c: byte) {
    c == 32 || 9 <= c <= 13
  }

  /** Space, \t, \n, \r. */
  predicate IsWordEnd(c: byte) {
    c in {32, 9, 10, 13}
  }

  /** 0-9, A-F, a-f. */
  predicate IsHexCode(c: byte) {
    48 <= c <= 57 || 65 <= c <= 70 || 97 <= c <= 102
  }

  function HexCode(c: byte): nat
    requires IsHexCode(c)
  {
    if c <= 57 then c - 48 else if c <= 70 then c - 65 + 10 else c - 97 + 10
  }

  /** What an escaped byte stands for: n, r, t, b and a are control characters, any other byte is itself. */
  function Meaning(c: byte): byte {
    match c
    case 110 => 10
    case 114 => 13
    case 116 => 9
    case 98 => 8
    case 97 => 7
    case _ => c
  }

  /** What stands between double quotes, up to the closing quote. */
  datatype DoubleBody =
    | DoubleEnd
    | Hex(hi: byte, lo: byte, rest: DoubleBody)
    | Escape(c: byte, rest: DoubleBody)
    | Raw(c: byte, rest: DoubleBody)

  /** What stands between single quotes, up to the closing quote. */
  datatype SingleBody =
    | SingleEnd
    | Apostrophe(rest: SingleBody)
    | Lit(c: byte, rest: SingleBody)

  datatype Word =
    | WordEnd
    | Double(d: DoubleBody)
    | Single(s: SingleBody)
    | Plain(c: byte, more: Word)

  /** The words of a line and the blanks after each of them. */
  datatype Line =
    | LineEnd
    | Entry(word: Word, gap: seq<byte>, next: Line)

  // ---- The text of a tree, followed by `after` ----

  function DoubleText(d: DoubleBody, after: seq<byte>): seq<byte> {
    match d
    case DoubleEnd => [DQUOTE] + after
    case Hex(hi, lo, rest) => [BACKSLASH, LOWER_X, hi, lo] + DoubleText(rest, after)
    case Escape(c, rest) => [BACKSLASH, c] + DoubleText(rest, after)
    case Raw(c, rest) => [c] + DoubleText(rest, after)
  }

  function SingleText(s: SingleBody, after: seq<byte>): seq<byte> {
    match s
    case SingleEnd => [SQUOTE] + after
    case Apostrophe(rest) => [BACKSLASH, SQUOTE] + SingleText(rest, after)
    case Lit(c, rest) => [c] + SingleText(rest, after)
  }

  function WordText(w: Word, after: seq<byte>): seq<byte> {
    match w
    case WordEnd => after
    case Double(d) => [DQUOTE] + DoubleText(d, after)
    case Single(s) => [SQUOTE] + SingleText(s, after)
    case Plain(c, more) => [c] + WordText(more, after)
  }

  function LineText(l: Line): seq<byte> {
    match l
    case LineEnd => []
    case Entry(word, gap, next) => WordText(word, gap + LineText(next))
  }

  // ---- What a tree stands for ----

  function DoubleValue(d: DoubleBody): seq<byte>
    requires DoubleOk(d)
  {
    match d
    case DoubleEnd => []
    case Hex(hi, lo, rest) => [HexCode(hi) * 16 + HexCode(lo)] + DoubleValue(rest)
    case Escape(c, rest) => [Meaning(c)] + DoubleValue(rest)
    case Raw(c, rest) => [c] + DoubleValue(rest)
  }

  function SingleValue(s: SingleBody): seq<byte> {
    match s
    case SingleEnd => []
    case Apostrophe(rest) => [SQUOTE] + SingleValue(rest)
    case Lit(c, rest) => [c] + SingleValue(rest)
  }

  function WordValue(w: Word): seq<byte>
    requires WordOk(w)
  {
    match w
    case WordEnd => []
    case Double(d) => DoubleValue(d)
    case Single(s) => SingleValue(s)
    case Plain(c, more) => [c] + WordValue(more)
  }

  function Values(l: Line): seq<seq<byte>>
    requires LineOk(l)
  {
    match l
    case LineEnd => []
    case Entry(word, _, next) => [WordValue(word)] + Values(next)
  }

  // ---- Well-formed trees ----

  predicate IsRawHex(d: DoubleBody) {
    d.Raw? && IsHexCode(d.c)
  }

  /** An escaped x is not followed by two hex digits: that would be a hex escape. */
  predicate DoubleOk(d: DoubleBody) {
    match d
    case DoubleEnd => true
    case Hex(hi, lo, rest) => IsHexCode(hi) && IsHexCode(lo) && DoubleOk(rest)
    case Escape(c, rest) =>
      c != NUL && DoubleOk(rest) && !(c == LOWER_X && IsRawHex(rest) && IsRawHex(rest.rest))
    case Raw(c, rest) => c != NUL && c != BACKSLASH && c != DQUOTE && DoubleOk(rest)
  }

  /** The last byte is no backslash: that would escape the closing quote. */
  predicate SingleOk(s: SingleBody) {
    match s
    case SingleEnd => true
    case Apostrophe(rest) => SingleOk(rest)
    case Lit(c, rest) => c != NUL && c != SQUOTE && !(c == BACKSLASH && rest.SingleEnd?) && SingleOk(rest)
  }

  predicate WordOk(w: Word) {
    match w
    case WordEnd => true
    case Double(d) => DoubleOk(d)
    case Single(s) => SingleOk(s)
    case Plain(c, more) => c != NUL && c != DQUOTE && c != SQUOTE && !IsWordEnd(c) && WordOk(more)
  }

  predicate Unquoted(w: Word) {
    w.WordEnd? || (w.Plain? && Unquoted(w.more))
  }

  /** Vertical tab and form feed may stand inside a plain run but not start one. */
  predicate StartsWord(w: Word) {
    !w.WordEnd? && (w.Plain? ==> !IsBlank(w.c))
  }

  predicate Blank(s: seq<byte>) {
    forall i :: 0 <= i < |s| ==> IsBlank(s[i])
  }

  /** What may follow a word: nothing, or a byte that ends it. */
  predicate Ends(w: Word, after: seq<byte>) {
    after == [] || if Unquoted(w) then IsWordEnd(after[0]) else IsBlank(after[0])
  }

  predicate LineOk(l: Line) {
    match l
    case LineEnd => true
    case Entry(word, gap, next) =>
      && WordOk(word) && StartsWord(word)
      && Blank(gap) && Ends(word, gap) && (gap == [] ==> next.LineEnd?)
      && LineOk(next)
  }

  // ---- Completeness: a well-formed line is scanned to its values ----

  /** The scanner reads by the same tables. */
  lemma TablesAgree(c: byte)
    ensures IsSpace(c) <==> IsBlank(c)
    ensures EndsPlain(c) <==> IsWordEnd(c)
    ensures IsHex(c) <==> IsHexCode(c)
    ensures IsHexCode(c) ==> HexValue(c) == HexCode(c)
    ensures Unescaped(c) == Meaning(c)
  {
  }

  lemma ScanHex(hi: byte, lo: byte, t: seq<byte>)
    requires IsHexCode(hi) && IsHexCode(lo)
    ensures ScanDouble([BACKSLASH, LOWER_X, hi, lo] + t) == Prepend([HexCode(hi) * 16 + HexCode(lo)], ScanDouble(t))
  {
    TablesAgree(hi);
    TablesAgree(lo);
    Tail([BACKSLASH, LOWER_X, hi, lo], t);
  }

  lemma ScanEscape(c: byte, t: seq<byte>)
    requires c == LOWER_X ==> |t| < 2 || !IsHexCode(t[0]) || !IsHexCode(t[1])
    ensures ScanDouble([BACKSLASH, c] + t) == Prepend([Meaning(c)], ScanDouble(t))
  {
    TablesAgree(c);
    Tail([BACKSLASH, c], t);
  }

  lemma ScanRaw(c: byte, t: seq<byte>)
    requires c != BACKSLASH && c != DQUOTE
    ensures ScanDouble([c] + t) == Prepend([c], ScanDouble(t))
  {
    Tail([c], t);
  }

  lemma {:induction false} ScanDoubleOf(d: DoubleBody, after: seq<byte>)
    requires DoubleOk(d)
    ensures ScanDouble(DoubleText(d, after)) == Prepend(DoubleValue(d), Close(after))
  {
    match d
    case DoubleEnd =>
      Tail([DQUOTE], after);
    case Hex(hi, lo, rest) =>
      ScanDoubleOf(rest, after);
      ScanHex(hi, lo, DoubleText(rest, after));
      PrependTwice([HexCode(hi) * 16 + HexCode(lo)], DoubleValue(rest), Close(after));
    case Escape(c, rest) =>
      ScanDoubleOf(rest, after);
      if c == LOWER_X {
        NoHexPair(rest, after);
      }
      ScanEscape(c, DoubleText(rest, after));
      PrependTwice([Meaning(c)], DoubleValue(rest), Close(after));
    case Raw(c, rest) =>
      ScanDoubleOf(rest, after);
      ScanRaw(c, DoubleText(rest, after));
      PrependTwice([c], DoubleValue(rest), Close(after));
  }

  lemma NoHexPair(d: DoubleBody, after: seq<byte>)
    requires !(IsRawHex(d) && IsRawHex(d.rest))
    ensures var t := DoubleText(d, after); |t| < 2 || !IsHexCode(t[0]) || !IsHexCode(t[1])
  {
    if d.Raw? {
      assert DoubleText(d, after)[1] == DoubleText(d.rest, after)[0];
    }
  }

  lemma {:induction false} ScanSingleOf(s: SingleBody, after: seq<byte>)
    requires SingleOk(s)
    ensures ScanSingle(SingleText(s, after)) == Prepend(SingleValue(s), Close(after))
  {
    match s
    case SingleEnd =>
      Tail([SQUOTE], after);
    case Apostrophe(rest) =>
      ScanSingleOf(rest, after);
      Tail([BACKSLASH, SQUOTE], SingleText(rest, after));
      PrependTwice([SQUOTE], SingleValue(rest), Close(after));
    case Lit(c, rest) =>
      ScanSingleOf(rest, after);
      Tail([c], SingleText(rest, after));
      PrependTwice([c], SingleValue(rest), Close(after));
      assert !rest.SingleEnd? ==> SingleText(rest, after)[0] != SQUOTE;
  }

  /** An unquoted word swallows the blank that ends it. */
  function AfterWord(w: Word, after: seq<byte>): seq<byte> {
    if Unquoted(w) && after != [] then after[1..] else after
  }

  lemma {:induction false} ScanWordOf(w: Word, after: seq<byte>)
    requires WordOk(w) && Ends(w, after)
    ensures ScanPlain(WordText(w, after)) == Token(WordValue(w), AfterWord(w, after))
  {
    match w
    case WordEnd =>
    case Double(d) =>
      ScanDoubleOf(d, after);
      Tail([DQUOTE], DoubleText(d, after));
      assert DoubleValue(d) + [] == DoubleValue(d);
    case Single(s) =>
      ScanSingleOf(s, after);
      Tail([SQUOTE], SingleText(s, after));
      assert SingleValue(s) + [] == SingleValue(s);
    case Plain(c, more) =>
      ScanWordOf(more, after);
      Tail([c], WordText(more, after));
  }

  lemma {:induction false} SkipBlank(lead: seq<byte>, t: seq<byte>)
    requires Blank(lead)
    ensures SkipSpace(lead + t) == SkipSpace(t)
  {
    if lead == [] {
      assert lead + t == t;
    } else {
      assert (lead + t)[1..] == lead[1..] + t;
      SkipBlank(lead[1..], t);
    }
  }

  lemma AfterGap(w: Word, gap: seq<byte>, tail: seq<byte>)
    requires gap == [] ==> tail == []
    ensures AfterWord(w, gap + tail) == AfterWord(w, gap) + tail
  {
  }

  lemma ScanLineStep(u: seq<byte>, v: seq<byte>, rest: seq<byte>)
    requires u != [] && !IsSpace(u[0]) && ScanPlain(u) == Token(v, rest) && ScanLine(rest).Some?
    ensures ScanLine(u) == Some([v] + ScanLine(rest).value)
  {
  }

  /** Blanks in front change nothing, and the scanner finds the values of every well-formed line. */
  lemma {:induction false} ScanLineOf(lead: seq<byte>, l: Line)
    requires Blank(lead) && LineOk(l)
    ensures ScanLine(lead + LineText(l)) == Some(Values(l))
    decreases l
  {
    SkipBlank(lead, LineText(l));
    if l.Entry? {
      var after := l.gap + LineText(l.next);
      ScanWordOf(l.word, after);
      var gap := AfterWord(l.word, l.gap);
      AfterGap(l.word, l.gap, LineText(l.next));
      ScanLineOf(gap, l.next);
      ScanLineStep(LineText(l), WordValue(l.word), gap + LineText(l.next));
    }
  }

  // ---- Soundness: a scanned line is the text of a well-formed tree ----

  lemma NulFreeTail(t: seq<byte>, k: nat)
    requires NulFree(t) && k <= |t|
    ensures NulFree(t[k..])
  {
  }

  /** An escape in front of a body; what is no hex escape does not become one. */
  lemma EscapeInFront(t: seq<byte>, rest: DoubleBody, after: seq<byte>)
    requires |t| > 1 && t[0] == BACKSLASH && t[1] != NUL && !StartsHexEscape(t)
    requires DoubleOk(rest) && t[2..] == DoubleText(rest, after)
    ensures DoubleOk(Escape(t[1], rest)) && t == DoubleText(Escape(t[1], rest), after)
    ensures DoubleValue(Escape(t[1], rest)) == [Unescaped(t[1])] + DoubleValue(rest)
  {
    if IsRawHex(rest) && IsRawHex(rest.rest) {
      assert t[2..][0] == rest.c && t[2..][1] == rest.rest.c;
    }
  }

  lemma HexInFront(t: seq<byte>, rest: DoubleBody, after: seq<byte>)
    requires StartsHexEscape(t) && DoubleOk(rest) && t[4..] == DoubleText(rest, after)
    ensures DoubleOk(Hex(t[2], t[3], rest)) && t == DoubleText(Hex(t[2], t[3], rest), after)
    ensures DoubleValue(Hex(t[2], t[3], rest)) == [HexValue(t[2]) * 16 + HexValue(t[3])] + DoubleValue(rest)
  {
  }

  lemma {:induction false} DoubleTreeOf(t: seq<byte>) returns (d: DoubleBody)
    requires NulFree(t) && ScanDouble(t).Token?
    ensures DoubleOk(d) && DoubleValue(d) == ScanDouble(t).value
    ensures t == DoubleText(d, ScanDouble(t).rest) && Close(ScanDouble(t).rest).Token?
    decreases |t|
  {
    if StartsHexEscape(t) {
      var rest := DoubleTreeOf(t[4..]);
      d := Hex(t[2], t[3], rest);
      HexInFront(t, rest, ScanDouble(t).rest);
    } else if t[0] == BACKSLASH && |t| > 1 {
      var rest := DoubleTreeOf(t[2..]);
      d := Escape(t[1], rest);
      EscapeInFront(t, rest, ScanDouble(t).rest);
    } else if t[0] == DQUOTE {
      d := DoubleEnd;
    } else {
      var rest := DoubleTreeOf(t[1..]);
      d := Raw(t[0], rest);
    }
  }

  lemma {:induction false} SingleTreeOf(t: seq<byte>) returns (s: SingleBody)
    requires NulFree(t) && ScanSingle(t).Token?
    ensures SingleOk(s) && SingleValue(s) == ScanSingle(t).value
    ensures t == SingleText(s, ScanSingle(t).rest) && Close(ScanSingle(t).rest).Token?
    decreases |t|
  {
    if t[0] == BACKSLASH && |t| > 1 && t[1] == SQUOTE {
      var rest := SingleTreeOf(t[2..]);
      s := Apostrophe(rest);
    } else if t[0] == SQUOTE {
      s := SingleEnd;
    } else {
      var rest := SingleTreeOf(t[1..]);
      s := Lit(t[0], rest);
    }
  }

  /** A scanned word, and the blank it swallowed if any. */
  lemma {:induction false} WordTreeOf(t: seq<byte>) returns (w: Word, after: seq<byte>)
    requires NulFree(t) && ScanPlain(t).Token?
    ensures WordOk(w) && WordValue(w) == ScanPlain(t).value
    ensures t == WordText(w, after) && Ends(w, after) && AfterWord(w, after) == ScanPlain(t).rest
    decreases |t|
  {
    if t == [] || EndsPlain(t[0]) {
      w, after := WordEnd, t;
    } else if t[0] == DQUOTE {
      var d := DoubleTreeOf(t[1..]);
      w, after := Double(d), ScanPlain(t).rest;
    } else if t[0] == SQUOTE {
      var s := SingleTreeOf(t[1..]);
      w, after := Single(s), ScanPlain(t).rest;
    } else {
      var more;
      more, after := WordTreeOf(t[1..]);
      w := Plain(t[0], more);
    }
  }

  lemma {:induction false} LeadOf(t: seq<byte>) returns (lead: seq<byte>)
    ensures Blank(lead) && t == lead + SkipSpace(t)
  {
    if t != [] && IsSpace(t[0]) {
      var more := LeadOf(t[1..]);
      lead := [t[0]] + more;
    } else {
      lead := [];
    }
  }

  lemma {:induction false} WordTextEnds(w: Word, after: seq<byte>)
    ensures |after| <= |WordText(w, after)| && WordText(w, after)[|WordText(w, after)| - |after|..] == after
    decreases w
  {
    match w
    case WordEnd =>
    case Plain(c, more) => WordTextEnds(more, after);
    case Double(d) => DoubleTextEnds(d, after);
    case Single(s) => SingleTextEnds(s, after);
  }

  lemma {:induction false} DoubleTextEnds(d: DoubleBody, after: seq<byte>)
    ensures var t := DoubleText(d, after); |after| < |t| && t[|t| - |after|..] == after
  {
    if !d.DoubleEnd? {
      DoubleTextEnds(d.rest, after);
    }
  }

  lemma {:induction false} SingleTextEnds(s: SingleBody, after: seq<byte>)
    ensures var t := SingleText(s, after); |after| < |t| && t[|t| - |after|..] == after
  {
    if !s.SingleEnd? {
      SingleTextEnds(s.rest, after);
    }
  }

  /** A word and its blanks, in front of a well-formed line. */
  lemma EntryOf(u: seq<byte>, w: Word, after: seq<byte>, lead: seq<byte>, next: Line) returns (l: Line)
    requires u != [] && !IsSpace(u[0]) && u == WordText(w, after) && WordOk(w) && Ends(w, after)
    requires Blank(lead) && LineOk(next) && AfterWord(w, after) == lead + LineText(next)
    ensures LineOk(l) && l.Entry? && l.word == w && l.next == next && LineText(l) == u
  {
    var gap := if Unquoted(w) && after != [] then [after[0]] + lead else lead;
    l := Entry(w, gap, next);
    assert after == gap + LineText(next);
    assert next.Entry? ==> !IsSpace(LineText(next)[0]);
  }

  /** The first word of a line behind its leading blanks. */
  lemma FirstWordOf(u: seq<byte>) returns (w: Word, after: seq<byte>)
    requires NulFree(u) && u != [] && !IsSpace(u[0]) && ScanLine(u).Some?
    ensures WordOk(w) && u == WordText(w, after) && Ends(w, after)
    ensures ScanPlain(u) == Token(WordValue(w), AfterWord(w, after)) && NulFree(AfterWord(w, after))
  {
    w, after := WordTreeOf(u);
    WordTextEnds(w, after);
    NulFreeTail(u, |u| - |after|);
  }

  /** Every line the scanner accepts is the text of a well-formed tree with those values. */
  lemma {:induction false} LineTreeOf(t: seq<byte>) returns (lead: seq<byte>, l: Line)
    requires NulFree(t) && ScanLine(t).Some?
    ensures Blank(lead) && LineOk(l)
    ensures t == lead + LineText(l) && ScanLine(t) == Some(Values(l))
    decreases |t|
  {
    lead := LeadOf(t);
    var u := SkipSpace(t);
    l := LineEnd;
    if u != [] {
      Tail(lead, u);
      NulFreeTail(t, |lead|);
      var w, after := FirstWordOf(u);
      var lead', next := LineTreeOf(AfterWord(w, after));
      l := EntryOf(u, w, after, lead', next);
    }
  }

  /** t is the text of the tree l behind the blanks lead. */
  predicate Derives(lead: seq<byte>, l: Line, t: seq<byte>) {
    Blank(lead) && LineOk(l) && t == lead + LineText(l)
  }

  /** The scanner accepts exactly the grammar, with the values of any derivation; on everything else it returns NULL. */
  lemma AcceptsExactlyTheGrammar(t: seq<byte>)
    requires NulFree(t)
    ensures ScanLine(t).Some? <==> exists lead, l :: Derives(lead, l, t)
    ensures forall lead, l :: Derives(lead, l, t) ==> ScanLine(t) == Some(Values(l))
  {
    if ScanLine(t).Some? {
      var lead, l := LineTreeOf(t);
      assert Derives(lead, l, t);
    }
    forall lead, l | Derives(lead, l, t) ensures ScanLine(t) == Some(Values(l)) {
      ScanLineOf(lead, l);
    }
  }

  // ---- The printer writes well-formed lines ----

  /** The item a byte is printed as. */
  function ReprItem(c: byte, rest: DoubleBody): DoubleBody {
    if c == BACKSLASH || c == DQUOTE then Escape(c, rest)
    else if c == LF then Escape(LOWER_N, rest)
    else if c == CR then Escape(LOWER_R, rest)
    else if c == TAB then Escape(LOWER_T, rest)
    else if c == BEL then Escape(LOWER_A, rest)
    else if c == BS then Escape(LOWER_B, rest)
    else if IsPrint(c) then Raw(c, rest)
    else Hex(HexDigit(c / 16), HexDigit(c % 16), rest)
  }

  lemma ReprItemText(c: byte, rest: DoubleBody, after: seq<byte>)
    ensures DoubleText(ReprItem(c, rest), after) == Escaped(c) + DoubleText(rest, after)
  {
  }

  lemma ReprItemValue(c: byte, rest: DoubleBody)
    requires DoubleOk(rest)
    ensures DoubleOk(ReprItem(c, rest)) && DoubleValue(ReprItem(c, rest)) == [c] + DoubleValue(rest)
  {
    var item := ReprItem(c, rest);
    match item
    case Escape(e, _) => assert e != LOWER_X && Unescaped(e) == c;
    case Hex(hi, lo, _) => assert HexValue(hi) * 16 + HexValue(lo) == c;
    case _ =>
  }

  function ReprBody(s: seq<byte>): DoubleBody {
    if s == [] then DoubleEnd else ReprItem(s[0], ReprBody(s[1..]))
  }

  lemma {:induction false} ReprBodySpells(s: seq<byte>, after: seq<byte>)
    ensures DoubleOk(ReprBody(s)) && DoubleValue(ReprBody(s)) == s
    ensures DoubleText(ReprBody(s), after) == EscapedAll(s) + [DQUOTE] + after
  {
    if s != [] {
      ReprBodySpells(s[1..], after);
      ReprItemText(s[0], ReprBody(s[1..]), after);
      ReprItemValue(s[0], ReprBody(s[1..]));
      Assoc(Escaped(s[0]), EscapedAll(s[1..]), [DQUOTE]);
      Assoc(Escaped(s[0]), EscapedAll(s[1..]) + [DQUOTE], after);
    }
  }

  lemma ReprWordSpells(s: seq<byte>, after: seq<byte>)
    ensures WordOk(Double(ReprBody(s))) && WordValue(Double(ReprBody(s))) == s
    ensures WordText(Double(ReprBody(s)), after) == Repr(s) + after
  {
    ReprBodySpells(s, after);
    Assoc([DQUOTE], EscapedAll(s), [DQUOTE]);
    Assoc([DQUOTE], EscapedAll(s) + [DQUOTE], after);
  }

  function ReprLine(ss: seq<seq<byte>>): Line {
    if ss == [] then LineEnd
    else Entry(Double(ReprBody(ss[0])), if |ss| == 1 then [] else [SPACE], ReprLine(ss[1..]))
  }

  lemma {:induction false} ReprLineSpells(ss: seq<seq<byte>>)
    ensures LineOk(ReprLine(ss)) && Values(ReprLine(ss)) == ss
    ensures LineText(ReprLine(ss)) == Join(Reprs(ss), [SPACE])
  {
    if ss != [] {
      var l := ReprLine(ss);
      ReprLineSpells(ss[1..]);
      ReprWordSpells(ss[0], l.gap + LineText(l.next));
      assert Reprs(ss)[1..] == Reprs(ss[1..]);
      if |ss| > 1 {
        Assoc(Repr(ss[0]), [SPACE], LineText(l.next));
      }
    }
  }

  predicate Printable(s: seq<byte>) {
    forall i :: 0 <= i < |s| ==> 32 <= s[i] <= 126
  }

  /** The quoted form of any bytes is printable text. */
  lemma {:induction false} ReprIsPrintable(s: seq<byte>)
    ensures Printable(EscapedAll(s)) && Printable(Repr(s))
  {
    if s != [] {
      ReprIsPrintable(s[1..]);
      EscapedIsPrintable(s[0]);
    }
  }

  lemma EscapedIsPrintable(c: byte)
    ensures Printable(Escaped(c))
  {
    var n := Escaped(c);
    assert n != [] && (|n| > 2 ==> IsHex(n[2]) && IsHex(n[3]));
  }

  /** Joined quoted forms are printable too, so the line is a C string. */
  lemma {:induction false} JoinedReprsArePrintable(ss: seq<seq<byte>>)
    ensures Printable(Join(Reprs(ss), [SPACE])) && NulFree(Join(Reprs(ss), [SPACE]))
  {
    if ss != [] {
      ReprIsPrintable(ss[0]);
      JoinedReprsArePrintable(ss[1..]);
      assert Reprs(ss)[1..] == Reprs(ss[1..]);
    }
  }

  /**
  Printing any byte strings with `sdscatrepr`, joining them with single spaces and splitting the
  line with `sdssplitargs` gives the same byte strings back.
  */
  lemma QuotingRoundTrip(ss: seq<seq<byte>>)
    ensures NulFree(Join(Reprs(ss), [SPACE]))
    ensures ScanLine(Join(Reprs(ss), [SPACE])) == Some(ss)
  {
    JoinedReprsArePrintable(ss);
    ReprLineSpells(ss);
    ScanLineOf([], ReprLine(ss));
    assert [] + LineText(ReprLine(ss)) == LineText(ReprLine(ss));
  }
}
