/** The round trip of `SdsGrammar.QuotingRoundTrip` on the objects. */
module SdsRoundTrip {
  import opened Bytes
  import opened SdsString
  import opened SdsSplit
  import opened SdsQuoting
  import opened SdsTokenizer
  import opened SdsGrammar

  /** A piece is no longer than the joined text. */
  lemma {:induction false} PieceFits(ts: seq<seq<byte>>, sep: seq<byte>, i: nat)
    requires i < |ts|
    ensures |ts[i]| <= |Join(ts, sep)|
  {
    if i > 0 {
      PieceFits(ts[1..], sep, i - 1);
    }
  }

  /** The quoted form of one string, printed to a new one. */
  method Quote(p: seq<byte>) returns (quoted: seq<byte>)
    requires Sizeable(|Repr(p)|)
    ensures quoted == Repr(p) && Quotes(p, quoted)
  {
    var q := new Sds([]);
    CatRepr(q, p);
    assert [] + Repr(p) == Repr(p);
    ReprQuotes(p, Repr(p));
    quoted := q.Contents();
  }

  ghost predicate QuotedEach(ss: seq<seq<byte>>, quoted: seq<seq<byte>>) {
    |quoted| == |ss| && forall i :: 0 <= i < |ss| ==> Quotes(ss[i], quoted[i])
  }

  method QuoteEach(ss: seq<seq<byte>>) returns (quoted: seq<seq<byte>>)
    requires Sizeable(|Join(Reprs(ss), [SPACE])|)
    ensures quoted == Reprs(ss) && QuotedEach(ss, quoted)
  {
    quoted := [];
    for i := 0 to |ss|
      invariant |quoted| == i && forall j :: 0 <= j < i ==> quoted[j] == Repr(ss[j]) && Quotes(ss[j], quoted[j])
    {
      PieceFits(Reprs(ss), [SPACE], i);
      var q := Quote(ss[i]);
      quoted := quoted + [q];
    }
  }

  /** Any byte strings printed by `sdscatrepr`, joined with spaces and split by `sdssplitargs`. */
  method QuoteAndSplit(ss: seq<seq<byte>>) returns (line: Sds, back: Option<seq<seq<byte>>>)
    requires Sizeable(|Join(Reprs(ss), [SPACE])| + 1)
    ensures fresh(line) && line.Valid() && line.Contents() == Join(Reprs(ss), [SPACE])
    ensures back == Some(ss)
    ensures exists quoted :: QuotedEach(ss, quoted) && line.Contents() == Join(quoted, [32])
  {
    var quoted := QuoteEach(ss);
    line := JoinSds(quoted, [SPACE]);
    QuotingRoundTrip(ss);
    back := SplitArgs(line.AsCString());
  }
}
