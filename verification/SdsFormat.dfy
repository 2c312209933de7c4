/** `sdscatfmt`: a format interpreter that appends to a string it grows as it goes. */
module SdsFormat {
  import opened Bytes
  import opened SdsString
  import opened SdsNumbers

  const INT_MAX: int := 0x7fff_ffff
  const INT_MIN: int := -0x8000_0000
  const UINT_MAX: int := 0xffff_ffff

  /** A variadic argument, by the C type it is fetched with. */
  datatype FmtArg =
    | CStr(text: CString)
    | SdsStr(bytes: seq<byte>)
    | Int(i: int)
    | LongLong(ll: int)
    | UInt(u: int)
    | ULongLong(ull: int)

  predicate IsSpecifier(c: byte) {
    c in {LOWER_S, UPPER_S, LOWER_I, UPPER_I, LOWER_U, UPPER_U}
  }

  /** The argument has the type specifier c fetches, and a value of that type. */
  predicate Fits(c: byte, a: FmtArg) {
    match a
    case CStr(_) => c == LOWER_S
    case SdsStr(_) => c == UPPER_S
    case Int(i) => c == LOWER_I && INT_MIN <= i <= INT_MAX
    case LongLong(ll) => c == UPPER_I && LLONG_MIN <= ll <= LLONG_MAX
    case UInt(u) => c == LOWER_U && 0 <= u <= UINT_MAX
    case ULongLong(ull) => c == UPPER_U && 0 <= ull < SIZE_LIMIT
  }

  /** The text an argument contributes. */
  function ArgText(a: FmtArg): seq<byte> {
    match a
    case CStr(text) => Text(text)
    case SdsStr(bytes) => bytes
    case Int(i) => Decimal(i)
    case LongLong(ll) => Decimal(ll)
    case UInt(u) => Decimal(u)
    case ULongLong(ull) => Decimal(ull)
  }

  /** The argument list supplies what the format fetches; more arguments are allowed. */
  predicate Supplied(fmt: seq<byte>, args: seq<FmtArg>) {
    if fmt == [] then true
    else if fmt[0] != PERCENT then Supplied(fmt[1..], args)
    else if |fmt| == 1 then true
    else if IsSpecifier(fmt[1]) then args != [] && Fits(fmt[1], args[0]) && Supplied(fmt[2..], args[1..])
    else Supplied(fmt[2..], args)
  }

  /** What a format denotes. */
  function Denote(fmt: seq<byte>, args: seq<FmtArg>): seq<byte>
    requires Supplied(fmt, args)
  {
    if fmt == [] then []
    else if fmt[0] != PERCENT then [fmt[0]] + Denote(fmt[1..], args)
    else if |fmt| == 1 then []
    else if IsSpecifier(fmt[1]) then ArgText(args[0]) + Denote(fmt[2..], args[1..])
    else [fmt[1]] + Denote(fmt[2..], args)
  }

  // ---- An independent reading: a format is a list of pieces ----

  datatype Piece =
    | Plain(c: byte)              // any byte but '%'
    | Verbatim(c: byte)           // '%' and a byte that is no specifier, '%' itself included
    | Directive(c: byte, arg: FmtArg)

  predicate PieceOk(p: Piece) {
    match p
    case Plain(c) => c != PERCENT && c != NUL
    case Verbatim(c) => !IsSpecifier(c) && c != NUL
    case Directive(c, arg) => IsSpecifier(c) && Fits(c, arg)
  }

  function PieceFormat(p: Piece): seq<byte> {
    match p
    case Plain(c) => [c]
    case Verbatim(c) => [PERCENT, c]
    case Directive(c, _) => [PERCENT, c]
  }

  function PieceArgs(p: Piece): seq<FmtArg> {
    if p.Directive? then [p.arg] else []
  }

  function PieceText(p: Piece): seq<byte> {
    if p.Directive? then ArgText(p.arg) else [p.c]
  }

  function FormatOf(ps: seq<Piece>): seq<byte> {
    if ps == [] then [] else PieceFormat(ps[0]) + FormatOf(ps[1..])
  }

  function ArgsOf(ps: seq<Piece>): seq<FmtArg> {
    if ps == [] then [] else PieceArgs(ps[0]) + ArgsOf(ps[1..])
  }

  function TextOf(ps: seq<Piece>): seq<byte> {
    if ps == [] then [] else PieceText(ps[0]) + TextOf(ps[1..])
  }

  // ---- What a format asks for, by byte codes ----

  /** Each specifier with the type it fetches: s, S, i, I, u, U. */
  predicate Takes(c: byte, a: FmtArg) {
    match a
    case CStr(_) => c == 115
    case SdsStr(_) => c == 83
    case Int(i) => c == 105 && -2147483648 <= i <= 2147483647
    case LongLong(ll) => c == 73 && -9223372036854775808 <= ll <= 9223372036854775807
    case UInt(u) => c == 117 && 0 <= u <= 4294967295
    case ULongLong(ull) => c == 85 && 0 <= ull <= 18446744073709551615
  }

  /** Strings stand for their bytes, a C string up to its terminator, and numbers for their canonical text. */
  ghost predicate Shows(a: FmtArg, t: seq<byte>) {
    match a
    case CStr(text) => text == t + [0]
    case SdsStr(bytes) => t == bytes
    case Int(i) => IsDecimal(t, i)
    case LongLong(ll) => IsDecimal(t, ll)
    case UInt(u) => IsDecimal(t, u)
    case ULongLong(ull) => IsDecimal(t, ull)
  }

  /**
  The format gets what it fetches from args, and t is what it asks for: bytes stand for themselves, a
  directive for its argument, any other byte after '%' for itself, and a final '%' for nothing.
  */
  ghost predicate AsksFor(fmt: seq<byte>, args: seq<FmtArg>, t: seq<byte>) {
    if fmt == [] || fmt == [37] then t == []
    else if fmt[0] != 37 then t != [] && t[0] == fmt[0] && AsksFor(fmt[1..], args, t[1..])
    else if fmt[1] in {115, 83, 105, 73, 117, 85} then
      args != [] && Takes(fmt[1], args[0]) && exists n :: ShowsFirst(args[0], t, n) && AsksFor(fmt[2..], args[1..], t[n..])
    else t != [] && t[0] == fmt[1] && AsksFor(fmt[2..], args, t[1..])
  }

  /** The first n bytes of t show the argument. */
  ghost predicate ShowsFirst(a: FmtArg, t: seq<byte>, n: int) {
    0 <= n <= |t| && Shows(a, t[..n])
  }

  /** An argument has one text, and it is the one used. */
  lemma ShownIsArgText(a: FmtArg, t: seq<byte>)
    ensures Shows(a, t) <==> t == ArgText(a)
  {
    match a
    case CStr(text) => assert text == text[..|text| - 1] + [0];
    case SdsStr(_) =>
    case Int(i) => DecimalIsUnique(t, i);
    case LongLong(ll) => DecimalIsUnique(t, ll);
    case UInt(u) => DecimalIsUnique(t, u);
    case ULongLong(ull) => DecimalIsUnique(t, ull);
  }

  lemma TakesIsFits(c: byte, a: FmtArg)
    ensures Takes(c, a) <==> Fits(c, a)
    ensures c in {115, 83, 105, 73, 117, 85} <==> IsSpecifier(c)
  {
  }

  /** A format asks for exactly what it denotes, when it gets its arguments, and for nothing otherwise. */
  lemma {:induction false} AsksForWhatItDenotes(fmt: seq<byte>, args: seq<FmtArg>, t: seq<byte>)
    ensures AsksFor(fmt, args, t) <==> Prints(fmt, args, t)
    decreases |fmt|, 1
  {
    if fmt == [] || fmt == [37] {
    } else if fmt[0] != 37 {
      ByteInFront(fmt[0], fmt[1..], args, t);
    } else if fmt[1] in {115, 83, 105, 73, 117, 85} {
      if args != [] && Takes(fmt[1], args[0]) {
        DirectiveInFront(fmt, args, t);
      }
    } else {
      ByteInFront(fmt[1], fmt[2..], args, t);
    }
  }

  lemma {:induction false} ByteInFront(c: byte, fmt: seq<byte>, args: seq<FmtArg>, t: seq<byte>)
    ensures t != [] && t[0] == c && AsksFor(fmt, args, t[1..]) <==>
      Supplied(fmt, args) && t == [c] + Denote(fmt, args)
    decreases |fmt|, 2
  {
    if t != [] {
      AsksForWhatItDenotes(fmt, args, t[1..]);
    }
    if t != [] && t[0] == c {
      assert t == [c] + t[1..];
    }
  }

  lemma {:induction false} DirectiveInFront(fmt: seq<byte>, args: seq<FmtArg>, t: seq<byte>)
    requires |fmt| > 1 && args != []
    ensures (exists n :: ShowsFirst(args[0], t, n) && AsksFor(fmt[2..], args[1..], t[n..])) <==>
      Supplied(fmt[2..], args[1..]) && t == ArgText(args[0]) + Denote(fmt[2..], args[1..])
    decreases |fmt|, 0
  {
    var shown := ArgText(args[0]);
    forall n | 0 <= n <= |t| ensures AsksFor(fmt[2..], args[1..], t[n..]) <==> Prints(fmt[2..], args[1..], t[n..]) {
      AsksForWhatItDenotes(fmt[2..], args[1..], t[n..]);
    }
    forall n | ShowsFirst(args[0], t, n) ensures n == |shown| && t == shown + t[n..] {
      ShownIsArgText(args[0], t[..n]);
    }
    if Supplied(fmt[2..], args[1..]) && t == shown + Denote(fmt[2..], args[1..]) {
      ShownIsArgText(args[0], shown);
      assert t[..|shown|] == shown;
      assert ShowsFirst(args[0], t, |shown|);
      Tail(shown, Denote(fmt[2..], args[1..]));
    }
  }

  ghost predicate Prints(fmt: seq<byte>, args: seq<FmtArg>, text: seq<byte>) {
    Supplied(fmt, args) && Denote(fmt, args) == text
  }

  /** Printing the format of any pieces prints the pieces; a trailing '%' and spare arguments add nothing. */
  lemma {:induction false} FormatPrintsItsPieces(ps: seq<Piece>, tail: seq<byte>, spare: seq<FmtArg>)
    requires forall p :: p in ps ==> PieceOk(p)
    requires tail == [] || tail == [PERCENT]
    ensures Prints(FormatOf(ps) + tail, ArgsOf(ps) + spare, TextOf(ps))
    ensures forall p :: p in ps && p.Directive? ==> Takes(p.c, p.arg) && Shows(p.arg, PieceText(p))
  {
    forall p | p in ps && p.Directive? ensures Takes(p.c, p.arg) && Shows(p.arg, PieceText(p)) {
      TakesIsFits(p.c, p.arg);
      ShownIsArgText(p.arg, PieceText(p));
    }
    if ps == [] {
      assert FormatOf(ps) + tail == tail;
    } else {
      FormatPrintsItsPieces(ps[1..], tail, spare);
      PiecePrints(ps[0], FormatOf(ps[1..]) + tail, ArgsOf(ps[1..]) + spare, TextOf(ps[1..]));
      Assoc(PieceFormat(ps[0]), FormatOf(ps[1..]), tail);
      Assoc(PieceArgs(ps[0]), ArgsOf(ps[1..]), spare);
    }
  }

  lemma PiecePrints(p: Piece, fmt: seq<byte>, args: seq<FmtArg>, text: seq<byte>)
    requires PieceOk(p) && Prints(fmt, args, text)
    ensures Prints(PieceFormat(p) + fmt, PieceArgs(p) + args, PieceText(p) + text)
  {
    var all := PieceFormat(p) + fmt;
    assert all[|PieceFormat(p)|..] == fmt;
    assert (PieceArgs(p) + args)[|PieceArgs(p)|..] == args;
    if !p.Directive? {
      assert PieceArgs(p) + args == args;
    }
  }

  /** Every format that gets its arguments is the format of some pieces, up to a trailing '%'. */
  lemma {:induction false} EveryFormatHasPieces(fmt: seq<byte>, args: seq<FmtArg>)
    returns (ps: seq<Piece>, tail: seq<byte>, spare: seq<FmtArg>)
    requires NulFree(fmt) && Supplied(fmt, args)
    ensures forall p :: p in ps ==> PieceOk(p)
    ensures tail == [] || tail == [PERCENT]
    ensures fmt == FormatOf(ps) + tail && args == ArgsOf(ps) + spare
  {
    if fmt == [] || fmt == [PERCENT] {
      ps, tail, spare := [], fmt, args;
    } else {
      var p := FirstPiece(fmt, args);
      var qs;
      qs, tail, spare := EveryFormatHasPieces(fmt[|PieceFormat(p)|..], args[|PieceArgs(p)|..]);
      ps := [p] + qs;
      assert ps[1..] == qs;
      Assoc(PieceFormat(p), FormatOf(qs), tail);
      Assoc(PieceArgs(p), ArgsOf(qs), spare);
    }
  }

  lemma FirstPiece(fmt: seq<byte>, args: seq<FmtArg>) returns (p: Piece)
    requires NulFree(fmt) && Supplied(fmt, args) && fmt != [] && fmt != [PERCENT]
    ensures PieceOk(p) && |PieceFormat(p)| <= |fmt| && |PieceArgs(p)| <= |args|
    ensures fmt == PieceFormat(p) + fmt[|PieceFormat(p)|..]
    ensures args == PieceArgs(p) + args[|PieceArgs(p)|..]
    ensures NulFree(fmt[|PieceFormat(p)|..]) && Supplied(fmt[|PieceFormat(p)|..], args[|PieceArgs(p)|..])
  {
    p := if fmt[0] != PERCENT then Plain(fmt[0])
         else if IsSpecifier(fmt[1]) then Directive(fmt[1], args[0])
         else Verbatim(fmt[1]);
  }

  // ---- The interpreter ----

  /** The conversion of one argument, through a 21-byte local buffer for the numbers. */
  method Convert(a: FmtArg, c: byte) returns (t: seq<byte>)
    requires Fits(c, a)
    ensures t == ArgText(a) && Shows(a, t)
  {
    ShownIsArgText(a, ArgText(a));
    if a.CStr? || a.SdsStr? {
      return if a.CStr? then Text(a.text) else a.bytes;
    }
    var buf := new byte[LLSTR_SIZE];
    var l;
    if a.Int? || a.LongLong? {
      l := Ll2Str(buf, if a.Int? then a.i else a.ll);
    } else {
      l := Ull2Str(buf, if a.UInt? then a.u else a.ull);
    }
    t := buf[..l];
  }

  /** Grow if the text does not fit, copy it to the write position i and advance the length. */
  method Place(s: Sds, i: nat, t: seq<byte>)
    requires s.Shape() && i == s.used && Sizeable(i + |t|)
    modifies s, s.buf
    ensures s.Shape() && s.used == i + |t|
    ensures s.buf == old(s.buf) || fresh(s.buf)
    ensures s.Contents() == old(s.Contents()) + t
  {
    if s.Avail() < |t| {
      s.MakeRoomFor(|t|);
    }
    s.CopyBehind(t);
  }

  /** One byte at the write position, into space already made. */
  method PutByte(s: Sds, i: nat, c: byte)
    requires s.Shape() && i == s.used && s.Avail() > 0 && Sizeable(i + 1)
    modifies s, s.buf
    ensures s.Shape() && s.used == i + 1 && s.buf == old(s.buf)
    ensures s.Contents() == old(s.Contents()) + [c]
  {
    s.buf[i] := c;
    s.SetLen(i + 1);
  }

  /** One round of the denotation, by position. */
  lemma DenoteAt(fmt: seq<byte>, args: seq<FmtArg>, f: nat, k: nat)
    requires f < |fmt| && k <= |args| && Supplied(fmt[f..], args[k..])
    ensures fmt[f] != PERCENT ==>
      && Supplied(fmt[f + 1..], args[k..])
      && Denote(fmt[f..], args[k..]) == [fmt[f]] + Denote(fmt[f + 1..], args[k..])
    ensures fmt[f] == PERCENT && f + 1 == |fmt| ==> Denote(fmt[f..], args[k..]) == []
    ensures fmt[f] == PERCENT && f + 1 < |fmt| && !IsSpecifier(fmt[f + 1]) ==>
      && Supplied(fmt[f + 2..], args[k..])
      && Denote(fmt[f..], args[k..]) == [fmt[f + 1]] + Denote(fmt[f + 2..], args[k..])
    ensures fmt[f] == PERCENT && f + 1 < |fmt| && IsSpecifier(fmt[f + 1]) ==>
      && k < |args| && Fits(fmt[f + 1], args[k]) && Supplied(fmt[f + 2..], args[k + 1..])
      && Denote(fmt[f..], args[k..]) == ArgText(args[k]) + Denote(fmt[f + 2..], args[k + 1..])
  {
    assert fmt[f..][1..] == fmt[f + 1..];
    if f + 1 < |fmt| {
      assert fmt[f..][2..] == fmt[f + 2..];
    }
    if k < |args| {
      assert args[k..][1..] == args[k + 1..];
    }
  }

  /** The state of the interpreter after f format bytes and k arguments: what is left completes the whole. */
  ghost predicate Printing(done: seq<byte>, fmt: seq<byte>, args: seq<FmtArg>, f: int, k: int, whole: seq<byte>) {
    && 0 <= f <= |fmt| && 0 <= k <= |args|
    && Supplied(fmt[f..], args[k..])
    && done + Denote(fmt[f..], args[k..]) == whole
  }

  lemma PrintingStarts(done: seq<byte>, fmt: seq<byte>, args: seq<FmtArg>)
    requires Supplied(fmt, args)
    ensures Printing(done, fmt, args, 0, 0, done + Denote(fmt, args))
  {
    assert fmt[0..] == fmt && args[0..] == args;
  }

  lemma PrintingStep(done: seq<byte>, fmt: seq<byte>, args: seq<FmtArg>, f: nat, k: nat, whole: seq<byte>,
                     t: seq<byte>, f': nat, k': nat)
    requires Printing(done, fmt, args, f, k, whole)
    requires f <= f' <= |fmt| && k <= k' <= |args| && Supplied(fmt[f'..], args[k'..])
    requires Denote(fmt[f..], args[k..]) == t + Denote(fmt[f'..], args[k'..])
    ensures Printing(done + t, fmt, args, f', k', whole)
    ensures |done| + |t| <= |whole|
  {
    assert done + (t + Denote(fmt[f'..], args[k'..])) == (done + t) + Denote(fmt[f'..], args[k'..]);
  }

  /** The `'%'` case: a directive, a verbatim byte, or nothing when the format ends here. */
  method CatDirective(s: Sds, fmt: CString, args: seq<FmtArg>, f: nat, k: nat, ghost whole: seq<byte>)
    returns (f': nat, k': nat)
    requires f < |Text(fmt)| && fmt[f] == PERCENT && s.Shape() && s.Avail() > 0
    requires Sizeable(|whole| + 1) && Printing(s.Contents(), Text(fmt), args, f, k, whole)
    modifies s, s.buf
    ensures s.Shape() && (s.buf == old(s.buf) || fresh(s.buf))
    ensures f < f' && s.used >= old(s.used) && Printing(s.Contents(), Text(fmt), args, f', k', whole)
  {
    ghost var text, done := Text(fmt), s.Contents();
    DenoteAt(text, args, f, k);
    f', k' := f, k;
    var next := fmt[f' + 1];
    if next == NUL {
      PrintingStep(done, text, args, f, k, whole, [], f + 1, k);
      assert done + [] == done;
    } else {
      f' := f' + 1;
      if IsSpecifier(next) {
        var t := Convert(args[k], next);
        PrintingStep(done, text, args, f, k, whole, t, f + 2, k + 1);
        Place(s, s.used, t);
        k' := k' + 1;
      } else {
        PrintingStep(done, text, args, f, k, whole, [next], f + 2, k);
        PutByte(s, s.used, next);
      }
    }
    f' := f' + 1;
  }

  /** Make sure there is room for one more byte. */
  method SpareByte(s: Sds)
    requires s.Shape() && Sizeable(s.used + 1)
    modifies s
    ensures s.Shape() && s.Avail() > 0 && s.Contents() == old(s.Contents())
    ensures s.buf == old(s.buf) || fresh(s.buf)
  {
    if s.Avail() == 0 {
      s.MakeRoomFor(1);
    }
  }

  /** One round of the loop: a byte or a directive. */
  method CatNext(s: Sds, fmt: CString, args: seq<FmtArg>, f: nat, k: nat, ghost whole: seq<byte>)
    returns (f': nat, k': nat)
    requires f < |Text(fmt)| && s.Shape() && Sizeable(|whole| + 1)
    requires Printing(s.Contents(), Text(fmt), args, f, k, whole)
    modifies s, s.buf
    ensures s.Shape() && (s.buf == old(s.buf) || fresh(s.buf))
    ensures f < f' && Printing(s.Contents(), Text(fmt), args, f', k', whole)
  {
    ghost var text, done := Text(fmt), s.Contents();
    assert |done| <= |whole|;
    SpareByte(s);
    if fmt[f] == PERCENT {
      f', k' := CatDirective(s, fmt, args, f, k, whole);
    } else {
      DenoteAt(text, args, f, k);
      PrintingStep(done, text, args, f, k, whole, [fmt[f]], f + 1, k);
      PutByte(s, s.used, fmt[f]);
      f', k' := f + 1, k;
    }
  }

  /** `sdscatfmt`. Inside the loop the length is kept up to date, the terminator is not. */
  method CatFmt(s: Sds, fmt: CString, args: seq<FmtArg>)
    requires s.Valid() && Supplied(Text(fmt), args)
    requires Sizeable(2 * s.used + 2 * |fmt|)
    requires Sizeable(s.used + |Denote(Text(fmt), args)| + 1)
    modifies s, s.buf
    ensures s.Valid() && (s.buf == old(s.buf) || fresh(s.buf))
    ensures s.Contents() == old(s.Contents()) + Denote(Text(fmt), args)
    ensures AsksFor(Text(fmt), args, s.Contents()[old(s.used)..])
  {
    AsksForWhatItDenotes(Text(fmt), args, Denote(Text(fmt), args));
    Tail(s.Contents(), Denote(Text(fmt), args));
    ghost var text := Text(fmt);
    ghost var whole := s.Contents() + Denote(text, args);
    s.MakeRoomFor(s.used + (|fmt| - 1) * 2);
    var f, fetched := 0, 0;
    PrintingStarts(old(s.Contents()), text, args);
    while fmt[f] != NUL
      invariant 0 <= f < |fmt|
      invariant s.Shape() && (s.buf == old(s.buf) || fresh(s.buf))
      invariant Printing(s.Contents(), text, args, f, fetched, whole)
      decreases |fmt| - f
    {
      f, fetched := CatNext(s, fmt, args, f, fetched, whole);
    }
    s.buf[s.used] := NUL;
    assert s.Contents() == whole;
  }
}
