/** The quoting printer `sdscatrepr`, and the scanner of argument lines as a function of the unread text. */
module SdsQuoting {
  import opened Bytes
  import opened SdsString

  // ---- Character tables ----

  predicate IsHex(c: byte) {
    48 <= c <= 57 || 97 <= c <= 102 || 65 <= c <= 70
  }

  function HexValue(c: byte): nat {
    if 48 <= c <= 57 then c - 48
    else if 97 <= c <= 102 then c - 87
    else if 65 <= c <= 70 then c - 55
    else 0
  }

  /** A digit of `%02x`. */
  function HexDigit(n: nat): (c: byte)
    requires n < 16
    ensures IsHex(c) && HexValue(c) == n
  {
    if n < 10 then 48 + n else 87 + n
  }

  /** What a backslash makes of the byte after it. */
  function Unescaped(c: byte): byte {
    if c == LOWER_N then LF
    else if c == LOWER_R then CR
    else if c == LOWER_T then TAB
    else if c == LOWER_B then BS
    else if c == LOWER_A then BEL
    else c
  }

  /** The bytes that end an unquoted token; vertical tab and form feed do not. */
  predicate EndsPlain(c: byte) {
    c == SPACE || c == LF || c == CR || c == TAB
  }

  // ---- The printer ----

  function Escaped(c: byte): seq<byte> {
    if c == BACKSLASH || c == DQUOTE then [BACKSLASH, c]
    else if c == LF then [BACKSLASH, LOWER_N]
    else if c == CR then [BACKSLASH, LOWER_R]
    else if c == TAB then [BACKSLASH, LOWER_T]
    else if c == BEL then [BACKSLASH, LOWER_A]
    else if c == BS then [BACKSLASH, LOWER_B]
    else if IsPrint(c) then [c]
    else [BACKSLASH, LOWER_X, HexDigit(c / 16), HexDigit(c % 16)]
  }

  function EscapedAll(s: seq<byte>): seq<byte> {
    if s == [] then [] else Escaped(s[0]) + EscapedAll(s[1..])
  }

  /** The quoted form of s. */
  function Repr(s: seq<byte>): seq<byte> {
    [DQUOTE] + EscapedAll(s) + [DQUOTE]
  }

  function Reprs(ss: seq<seq<byte>>): (rs: seq<seq<byte>>)
    ensures |rs| == |ss| && forall i :: 0 <= i < |ss| ==> rs[i] == Repr(ss[i])
  {
    seq(|ss|, i requires 0 <= i < |ss| => Repr(ss[i]))
  }

  // ---- What the printer promises, by byte codes ----

  /** A lower-case hex digit for n. */
  predicate IsLowerHex(c: byte, n: nat) {
    (n < 10 && c == 48 + n) || (10 <= n < 16 && c == 97 + (n - 10))
  }

  /**
  Printable bytes stand for themselves but for the quote and the backslash, which get a backslash in
  front; five control characters have letters; any other byte is written \xhh.
  */
  predicate ShownAs(c: byte, e: seq<byte>) {
    if 32 <= c <= 126 then e == if c == 34 || c == 92 then [92, c] else [c]
    else if c == 7 then e == [92, 97]
    else if c == 8 then e == [92, 98]
    else if c == 9 then e == [92, 116]
    else if c == 10 then e == [92, 110]
    else if c == 13 then e == [92, 114]
    else |e| == 4 && e[..2] == [92, 120] && IsLowerHex(e[2], c / 16) && IsLowerHex(e[3], c % 16)
  }

  /** There is one such form, and it is the one printed. */
  lemma EscapedIsShown(c: byte, e: seq<byte>)
    ensures ShownAs(c, e) <==> e == Escaped(c)
  {
    if ShownAs(c, e) && |e| == 4 {
      assert e == e[..2] + [e[2], e[3]];
    }
  }

  /** t is p between quotes, byte by byte. */
  ghost predicate Quotes(p: seq<byte>, t: seq<byte>) {
    exists es: seq<seq<byte>> :: QuotesBy(p, t, es)
  }

  ghost predicate QuotesBy(p: seq<byte>, t: seq<byte>, es: seq<seq<byte>>) {
    |es| == |p| && t == [34] + Concat(es) + [34] && forall i :: 0 <= i < |p| ==> ShownAs(p[i], es[i])
  }

  /** `Repr` is exactly that. */
  lemma ReprQuotes(p: seq<byte>, t: seq<byte>)
    ensures Quotes(p, t) <==> t == Repr(p)
  {
    var es := seq(|p|, i requires 0 <= i < |p| => Escaped(p[i]));
    forall i | 0 <= i < |p| ensures ShownAs(p[i], es[i]) {
      EscapedIsShown(p[i], es[i]);
    }
    ShownIsEscaped(p, es);
    assert QuotesBy(p, Repr(p), es);
    if Quotes(p, t) {
      var fs :| QuotesBy(p, t, fs);
      ShownIsEscaped(p, fs);
    }
  }

  lemma {:induction false} ShownIsEscaped(p: seq<byte>, es: seq<seq<byte>>)
    requires |es| == |p| && forall i :: 0 <= i < |p| ==> ShownAs(p[i], es[i])
    ensures Concat(es) == EscapedAll(p)
  {
    if p != [] {
      EscapedIsShown(p[0], es[0]);
      ShownIsEscaped(p[1..], es[1..]);
    }
  }

  lemma {:induction false} EscapedAppend(s: seq<byte>, t: seq<byte>)
    ensures EscapedAll(s + t) == EscapedAll(s) + EscapedAll(t)
  {
    if s == [] {
      assert s + t == t;
    } else {
      assert (s + t)[1..] == s[1..] + t;
      EscapedAppend(s[1..], t);
      Assoc(Escaped(s[0]), EscapedAll(s[1..]), EscapedAll(t));
    }
  }

  lemma EscapedSnoc(s: seq<byte>, c: byte)
    ensures EscapedAll(s + [c]) == EscapedAll(s) + Escaped(c)
  {
    EscapedAppend(s, [c]);
    var rest: seq<byte> := [c][1..];
    assert rest == [];
  }

  lemma EscapedNext(p: seq<byte>, i: nat)
    requires i < |p|
    ensures EscapedAll(p[..i + 1]) == EscapedAll(p[..i]) + Escaped(p[i])
    ensures |EscapedAll(p[..i + 1])| <= |EscapedAll(p)|
  {
    EscapedSnoc(p[..i], p[i]);
    assert p[..i + 1] == p[..i] + [p[i]];
    EscapedAppend(p[..i + 1], p[i + 1..]);
    assert p == p[..i + 1] + p[i + 1..];
  }

  /** One byte of `sdscatrepr`. */
  method CatEscaped(s: Sds, c: byte)
    requires s.Valid() && Sizeable(s.used + |Escaped(c)|)
    modifies s, s.buf
    ensures s.Valid() && (s.buf == old(s.buf) || fresh(s.buf))
    ensures s.Contents() == old(s.Contents()) + Escaped(c) && ShownAs(c, Escaped(c))
  {
    EscapedIsShown(c, Escaped(c));
    if c == BACKSLASH || c == DQUOTE {
      s.CatLen([BACKSLASH, c]);
    } else if c == LF {
      s.CatLen([BACKSLASH, LOWER_N]);
    } else if c == CR {
      s.CatLen([BACKSLASH, LOWER_R]);
    } else if c == TAB {
      s.CatLen([BACKSLASH, LOWER_T]);
    } else if c == BEL {
      s.CatLen([BACKSLASH, LOWER_A]);
    } else if c == BS {
      s.CatLen([BACKSLASH, LOWER_B]);
    } else if IsPrint(c) {
      s.CatLen([c]);
    } else {
      s.CatLen([BACKSLASH, LOWER_X, HexDigit(c / 16), HexDigit(c % 16)]);
    }
  }

  /** The loop of `sdscatrepr`. */
  method CatEscapedAll(s: Sds, p: seq<byte>)
    requires s.Valid() && Sizeable(s.used + |EscapedAll(p)|)
    modifies s, s.buf
    ensures s.Valid() && (s.buf == old(s.buf) || fresh(s.buf))
    ensures s.Contents() == old(s.Contents()) + EscapedAll(p)
  {
    ghost var initial := s.Contents();
    for i := 0 to |p|
      invariant s.Valid() && (s.buf == old(s.buf) || fresh(s.buf))
      invariant s.Contents() == initial + EscapedAll(p[..i])
    {
      EscapedNext(p, i);
      Assoc(initial, EscapedAll(p[..i]), Escaped(p[i]));
      CatEscaped(s, p[i]);
    }
    assert p[..|p|] == p;
  }

  /** `sdscatrepr`. */
  method CatRepr(s: Sds, p: seq<byte>)
    requires s.Valid() && Sizeable(s.used + |Repr(p)|)
    modifies s, s.buf
    ensures s.Valid() && (s.buf == old(s.buf) || fresh(s.buf))
    ensures s.Contents() == old(s.Contents()) + Repr(p)
    ensures Quotes(p, s.Contents()[old(s.used)..])
  {
    ghost var initial := s.Contents();
    ReprQuotes(p, Repr(p));
    Tail(initial, Repr(p));
    s.CatLen([DQUOTE]);
    CatEscapedAll(s, p);
    s.CatLen([DQUOTE]);
    Assoc(initial, [DQUOTE], EscapedAll(p));
    Assoc(initial, [DQUOTE] + EscapedAll(p), [DQUOTE]);
  }

  // ---- The scanner as a function of the unread text ----

  datatype Mode = InPlain | InDouble | InSingle

  datatype Scan = Unbalanced | Token(value: seq<byte>, rest: seq<byte>)

  function Prepend(v: seq<byte>, r: Scan): Scan {
    if r.Unbalanced? then r else r.(value := v + r.value)
  }

  /** A closing quote must be followed by white space or nothing. */
  function Close(t: seq<byte>): Scan {
    if t != [] && !IsSpace(t[0]) then Unbalanced else Token([], t)
  }

  predicate StartsHexEscape(t: seq<byte>) {
    |t| >= 4 && t[0] == BACKSLASH && t[1] == LOWER_X && IsHex(t[2]) && IsHex(t[3])
  }

  function ScanPlain(t: seq<byte>): (r: Scan)
    ensures r.Token? ==> |r.rest| <= |t| && (t != [] ==> |r.rest| < |t|)
  {
    if t == [] then Token([], [])
    else if EndsPlain(t[0]) then Token([], t[1..])
    else if t[0] == DQUOTE then ScanDouble(t[1..])
    else if t[0] == SQUOTE then ScanSingle(t[1..])
    else Prepend([t[0]], ScanPlain(t[1..]))
  }

  function ScanDouble(t: seq<byte>): (r: Scan)
    ensures r.Token? ==> |r.rest| < |t|
  {
    if t == [] then Unbalanced
    else if StartsHexEscape(t) then Prepend([HexValue(t[2]) * 16 + HexValue(t[3])], ScanDouble(t[4..]))
    else if t[0] == BACKSLASH && |t| > 1 then Prepend([Unescaped(t[1])], ScanDouble(t[2..]))
    else if t[0] == DQUOTE then Close(t[1..])
    else Prepend([t[0]], ScanDouble(t[1..]))
  }

  function ScanSingle(t: seq<byte>): (r: Scan)
    ensures r.Token? ==> |r.rest| < |t|
  {
    if t == [] then Unbalanced
    else if t[0] == BACKSLASH && |t| > 1 && t[1] == SQUOTE then Prepend([SQUOTE], ScanSingle(t[2..]))
    else if t[0] == SQUOTE then Close(t[1..])
    else Prepend([t[0]], ScanSingle(t[1..]))
  }

  function ScanIn(m: Mode, t: seq<byte>): Scan {
    match m
    case InPlain => ScanPlain(t)
    case InDouble => ScanDouble(t)
    case InSingle => ScanSingle(t)
  }

  function SkipSpace(t: seq<byte>): (r: seq<byte>)
    ensures |r| <= |t| && (r != [] ==> !IsSpace(r[0]))
  {
    if t != [] && IsSpace(t[0]) then SkipSpace(t[1..]) else t
  }

  /** The tokens of a line, or None when a quote is unbalanced or closed too early. */
  function ScanLine(t: seq<byte>): Option<seq<seq<byte>>>
    decreases |t|
  {
    var u := SkipSpace(t);
    if u == [] then Some([])
    else
      var r := ScanPlain(u);
      if r.Unbalanced? then None
      else
        var more := ScanLine(r.rest);
        if more.None? then None else Some([r.value] + more.value)
  }

  lemma PrependTwice(a: seq<byte>, b: seq<byte>, r: Scan)
    ensures Prepend(a, Prepend(b, r)) == Prepend(a + b, r)
  {
    if r.Token? {
      Assoc(a, b, r.value);
    }
  }
}
