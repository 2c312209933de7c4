/** Fixed-string search: the chunked `read_and_search` and the whole-file `read_and_search_mmap`. */
module FixedGrep {
  import opened Bytes
  import opened ByteSource

  const PATTERN_LIMIT: nat := 1024
  const BYTES_TO_READ: nat := 4 * 1024 * 1024
  const BUF_LEN: nat := BYTES_TO_READ + 1024

  predicate MatchAt(text: seq<byte>, pat: seq<byte>, j: int) {
    0 <= j && j + |pat| <= |text| && text[j..j + |pat|] == pat
  }

  /** The pattern stands in the text at j, byte by byte. */
  ghost predicate Occurs(text: seq<byte>, pat: seq<byte>, j: int) {
    0 <= j && j + |pat| <= |text| && forall k :: 0 <= k < |pat| ==> text[j + k] == pat[k]
  }

  lemma MatchIsOccurrence(text: seq<byte>, pat: seq<byte>, j: int)
    ensures MatchAt(text, pat, j) <==> Occurs(text, pat, j)
  {
    if Occurs(text, pat, j) {
      assert text[j..j + |pat|] == pat;
    }
  }

  /** The matches from position `from` on, taken greedily from the left without overlap. */
  function Greedy(text: seq<byte>, pat: seq<byte>, from: nat): seq<int>
    requires pat != []
    decreases |text| - from
  {
    if from + |pat| > |text| then []
    else if MatchAt(text, pat, from) then [from] + Greedy(text, pat, from + |pat|)
    else Greedy(text, pat, from + 1)
  }

  /** hits are matches at or after `from`, in increasing order and without overlap. */
  ghost predicate Disjoint(text: seq<byte>, pat: seq<byte>, from: int, hits: seq<int>)
    decreases hits
  {
    hits != [] ==>
      && from <= hits[0] && MatchAt(text, pat, hits[0])
      && Disjoint(text, pat, hits[0] + |pat|, hits[1..])
  }

  /** Position q lies inside one of the hits. */
  ghost predicate Covered(pat: seq<byte>, hits: seq<int>, q: int) {
    exists h :: h in hits && h <= q < h + |pat|
  }

  /** Disjoint matches that leave no match uncovered: each match is a hit or starts inside an earlier one. */
  ghost predicate LeftmostCover(text: seq<byte>, pat: seq<byte>, from: int, hits: seq<int>) {
    && Disjoint(text, pat, from, hits)
    && (forall q {:trigger Covered(pat, hits, q)} :: from <= q && MatchAt(text, pat, q) ==> Covered(pat, hits, q))
  }

  lemma {:induction false} HitsAreLater(text: seq<byte>, pat: seq<byte>, from: int, hits: seq<int>)
    requires Disjoint(text, pat, from, hits)
    ensures forall h :: h in hits ==> from <= h
    decreases hits
  {
    if hits != [] {
      HitsAreLater(text, pat, hits[0] + |pat|, hits[1..]);
      assert forall h :: h in hits ==> h == hits[0] || h in hits[1..];
    }
  }

  lemma CoverCons(text: seq<byte>, pat: seq<byte>, from: nat, more: seq<int>)
    requires pat != [] && MatchAt(text, pat, from) && LeftmostCover(text, pat, from + |pat|, more)
    ensures LeftmostCover(text, pat, from, [from] + more)
  {
    var hits := [from] + more;
    assert hits[1..] == more && from in hits;
    forall q | from <= q && MatchAt(text, pat, q) ensures Covered(pat, hits, q) {
      if q >= from + |pat| {
        assert Covered(pat, more, q);
        var h :| h in more && h <= q < h + |pat|;
        assert h in hits;
      }
    }
  }

  lemma CoverUncons(text: seq<byte>, pat: seq<byte>, from: nat, hits: seq<int>) returns (more: seq<int>)
    requires pat != [] && MatchAt(text, pat, from) && LeftmostCover(text, pat, from, hits)
    ensures hits == [from] + more && LeftmostCover(text, pat, from + |pat|, more)
  {
    assert Covered(pat, hits, from);
    HitsAreLater(text, pat, from, hits);
    HitsAreLater(text, pat, hits[0] + |pat|, hits[1..]);
    assert forall h :: h in hits ==> h == hits[0] || h in hits[1..];
    forall q | from + |pat| <= q && MatchAt(text, pat, q) ensures Covered(pat, hits[1..], q) {
      assert Covered(pat, hits, q);
      var h :| h in hits && h <= q < h + |pat|;
      assert h != hits[0];
    }
    more := hits[1..];
  }

  lemma CoverSkips(text: seq<byte>, pat: seq<byte>, from: nat, hits: seq<int>)
    requires !MatchAt(text, pat, from) && LeftmostCover(text, pat, from, hits)
    ensures LeftmostCover(text, pat, from + 1, hits)
  {
  }

  lemma CoverEnds(text: seq<byte>, pat: seq<byte>, from: nat, hits: seq<int>)
    requires from + |pat| > |text| && LeftmostCover(text, pat, from, hits)
    ensures hits == []
  {
  }

  /** Hits that are disjoint occurrences and leave no occurrence uncovered: what a search has to find. */
  ghost predicate FindsAll(text: seq<byte>, pat: seq<byte>, hits: seq<int>) {
    && (forall i :: 0 <= i < |hits| ==> Occurs(text, pat, hits[i]))
    && (forall i, j :: 0 <= i < j < |hits| ==> hits[i] + |pat| <= hits[j])
    && (forall q {:trigger InsideHit(pat, hits, q)} :: Occurs(text, pat, q) ==> InsideHit(pat, hits, q))
  }

  ghost predicate InsideHit(pat: seq<byte>, hits: seq<int>, q: int) {
    exists i :: 0 <= i < |hits| && hits[i] <= q < hits[i] + |pat|
  }

  lemma {:induction false} DisjointByIndex(text: seq<byte>, pat: seq<byte>, from: int, hits: seq<int>)
    requires Disjoint(text, pat, from, hits)
    ensures forall i :: 0 <= i < |hits| ==> from <= hits[i] && MatchAt(text, pat, hits[i])
    ensures forall i, j :: 0 <= i < j < |hits| ==> hits[i] + |pat| <= hits[j]
    decreases hits
  {
    if hits != [] {
      var more := hits[1..];
      DisjointByIndex(text, pat, hits[0] + |pat|, more);
      assert forall i :: 0 < i < |hits| ==> hits[i] == more[i - 1];
    }
  }

  /** The greedy matches, by position. */
  lemma GreedyFindsAll(text: seq<byte>, pat: seq<byte>)
    requires pat != []
    ensures FindsAll(text, pat, Greedy(text, pat, 0))
  {
    var hits := Greedy(text, pat, 0);
    GreedyCovers(text, pat, 0);
    DisjointByIndex(text, pat, 0, hits);
    forall i | 0 <= i < |hits| ensures Occurs(text, pat, hits[i]) {
      MatchIsOccurrence(text, pat, hits[i]);
    }
    forall q | Occurs(text, pat, q) ensures InsideHit(pat, hits, q) {
      MatchIsOccurrence(text, pat, q);
      CoveredInside(pat, hits, q);
    }
  }

  lemma CoveredInside(pat: seq<byte>, hits: seq<int>, q: int)
    requires Covered(pat, hits, q)
    ensures InsideHit(pat, hits, q)
  {
    var h :| h in hits && h <= q < h + |pat|;
    var i :| 0 <= i < |hits| && hits[i] == h;
  }

  lemma {:induction false} GreedyCovers(text: seq<byte>, pat: seq<byte>, from: nat)
    requires pat != []
    ensures LeftmostCover(text, pat, from, Greedy(text, pat, from))
    decreases |text| - from
  {
    if from + |pat| <= |text| {
      if MatchAt(text, pat, from) {
        GreedyCovers(text, pat, from + |pat|);
        CoverCons(text, pat, from, Greedy(text, pat, from + |pat|));
      } else {
        GreedyCovers(text, pat, from + 1);
      }
    }
  }

  /** Only the greedy matches cover in this way. */
  lemma {:induction false} CoverIsGreedy(text: seq<byte>, pat: seq<byte>, from: nat, hits: seq<int>)
    requires pat != [] && LeftmostCover(text, pat, from, hits)
    ensures hits == Greedy(text, pat, from)
    decreases |text| - from
  {
    if from + |pat| > |text| {
      CoverEnds(text, pat, from, hits);
    } else if MatchAt(text, pat, from) {
      var more := CoverUncons(text, pat, from, hits);
      CoverIsGreedy(text, pat, from + |pat|, more);
    } else {
      CoverSkips(text, pat, from, hits);
      CoverIsGreedy(text, pat, from + 1, hits);
    }
  }

  lemma {:induction false} IndexIsDisjoint(text: seq<byte>, pat: seq<byte>, from: int, hits: seq<int>)
    requires forall i :: 0 <= i < |hits| ==> from <= hits[i] && MatchAt(text, pat, hits[i])
    requires forall i, j :: 0 <= i < j < |hits| ==> hits[i] + |pat| <= hits[j]
    ensures Disjoint(text, pat, from, hits)
    decreases hits
  {
    if hits != [] {
      IndexIsDisjoint(text, pat, hits[0] + |pat|, hits[1..]);
    }
  }

  /** By position too, the greedy matches are the only answer. */
  lemma OnlyGreedyFindsAll(text: seq<byte>, pat: seq<byte>, hits: seq<int>)
    requires pat != [] && FindsAll(text, pat, hits)
    ensures hits == Greedy(text, pat, 0)
  {
    forall i | 0 <= i < |hits| ensures MatchAt(text, pat, hits[i]) && 0 <= hits[i] {
      MatchIsOccurrence(text, pat, hits[i]);
    }
    IndexIsDisjoint(text, pat, 0, hits);
    forall q | 0 <= q && MatchAt(text, pat, q) ensures Covered(pat, hits, q) {
      MatchIsOccurrence(text, pat, q);
      assert InsideHit(pat, hits, q);
      var i :| 0 <= i < |hits| && hits[i] <= q < hits[i] + |pat|;
      assert hits[i] in hits;
    }
    CoverIsGreedy(text, pat, 0, hits);
  }

  ghost predicate NoMatchIn(text: seq<byte>, pat: seq<byte>, from: int, to: int) {
    forall j :: from <= j < to ==> !MatchAt(text, pat, j)
  }

  /** Where nothing matches, the search may start later. */
  lemma {:induction false} GreedySkips(text: seq<byte>, pat: seq<byte>, from: int, until: int)
    requires pat != [] && 0 <= from <= until && NoMatchIn(text, pat, from, until)
    ensures Greedy(text, pat, from) == Greedy(text, pat, until)
    decreases until - from
  {
    if from < until && from + |pat| <= |text| {
      GreedySkips(text, pat, from + 1, until);
    }
  }

  /** What is written for n matches: the pattern and a newline for each. */
  function Printed(pat: seq<byte>, n: nat): seq<byte> {
    if n == 0 then [] else Printed(pat, n - 1) + pat + [LF]
  }

  /** The output is the text at each hit, and a newline behind each. */
  ghost predicate Reports(out: seq<byte>, hits: seq<int>, text: seq<byte>, n: nat) {
    && |out| == |hits| * (n + 1)
    && forall i :: 0 <= i < |hits| ==> ReportsAt(out, i * (n + 1), text, hits[i], n)
  }

  ghost predicate ReportsAt(out: seq<byte>, p: int, text: seq<byte>, hit: int, n: nat) {
    && 0 <= hit && hit + n <= |text| && 0 <= p && p + n < |out|
    && out[p..p + n] == text[hit..hit + n] && out[p + n] == 10
  }

  /** What is printed for hits at which the pattern stands is their report. */
  lemma {:induction false} PrintedReports(text: seq<byte>, pat: seq<byte>, hits: seq<int>)
    requires forall i :: 0 <= i < |hits| ==> MatchAt(text, pat, hits[i])
    ensures Reports(Printed(pat, |hits|), hits, text, |pat|)
  {
    if hits != [] {
      var m := |hits| - 1;
      PrintedReports(text, pat, hits[..m]);
      ReportOneMore(text, pat, hits[..m], hits[m], Printed(pat, m));
      assert hits == hits[..m] + [hits[m]];
    }
  }

  lemma ReportOneMore(text: seq<byte>, pat: seq<byte>, hits: seq<int>, hit: int, before: seq<byte>)
    requires Reports(before, hits, text, |pat|) && MatchAt(text, pat, hit)
    ensures Reports(before + pat + [LF], hits + [hit], text, |pat|)
  {
    var n, m := |pat|, |hits|;
    Assoc(before, pat, [LF]);
    LastReport(before, pat, text, hit);
    forall i | 0 <= i < m ensures ReportsAt(before + pat + [LF], i * (n + 1), text, hits[i], n) {
      EarlierReport(before, pat + [LF], i * (n + 1), text, hits[i], n);
    }
  }

  lemma EarlierReport(before: seq<byte>, more: seq<byte>, p: int, text: seq<byte>, hit: int, n: nat)
    requires ReportsAt(before, p, text, hit, n)
    ensures ReportsAt(before + more, p, text, hit, n)
  {
    assert (before + more)[p..p + n] == before[p..p + n];
  }

  lemma LastReport(before: seq<byte>, pat: seq<byte>, text: seq<byte>, hit: int)
    requires MatchAt(text, pat, hit)
    ensures ReportsAt(before + pat + [LF], |before|, text, hit, |pat|)
  {
    var out := before + pat + [LF];
    assert out[|before|..|before| + |pat|] == pat;
  }

  /** A search that prints once for each greedy match has reported every match. */
  lemma SearchReports(text: seq<byte>, pat: seq<byte>, hits: seq<int>, out: seq<byte>)
    requires pat != [] && hits == Greedy(text, pat, 0) && out == Printed(pat, |hits|)
    ensures FindsAll(text, pat, hits) && Reports(out, hits, text, |pat|)
  {
    GreedyFindsAll(text, pat);
    forall i | 0 <= i < |hits| ensures MatchAt(text, pat, hits[i]) {
      MatchIsOccurrence(text, pat, hits[i]);
    }
    PrintedReports(text, pat, hits);
  }

  /** The bytes buf[cursor..end] are the text from base on. */
  ghost predicate Holds(buf: array<byte>, cursor: int, end: int, text: seq<byte>, base: int)
    reads buf
  {
    && 0 <= cursor <= end <= buf.Length
    && 0 <= base && base + (end - cursor) <= |text|
    && forall k :: cursor <= k < end ==> buf[k] == text[base - cursor + k]
  }

  lemma HeldSlice(buf: array<byte>, cursor: nat, end: nat, text: seq<byte>, base: nat, j: nat, n: nat)
    requires Holds(buf, cursor, end, text, base) && j + n <= end - cursor
    ensures buf[cursor + j..cursor + j + n] == text[base + j..base + j + n]
  {
    var b, t := buf[cursor + j..cursor + j + n], text[base + j..base + j + n];
    forall i | 0 <= i < n ensures b[i] == t[i] {
      assert buf[cursor + j + i] == text[base - cursor + (cursor + j + i)];
    }
  }

  /** `memmem` on buf[cursor..end]: the offset of the first match, or the length when there is none. */
  method PatternSearch(pat: seq<byte>, buf: array<byte>, cursor: nat, end: nat,
                       ghost text: seq<byte>, ghost base: nat) returns (found: nat)
    requires cursor < cursor + |pat| <= end && Holds(buf, cursor, end, text, base)
    ensures found == end - cursor || (found + |pat| <= end - cursor && MatchAt(text, pat, base + found))
    ensures found < end - cursor ==> NoMatchIn(text, pat, base, base + found)
    ensures found == end - cursor ==> NoMatchIn(text, pat, base, base + (end - cursor - |pat| + 1))
  {
    found := 0;
    while found + |pat| <= end - cursor
      invariant 0 <= found && found + |pat| <= end - cursor + 1
      invariant NoMatchIn(text, pat, base, base + found)
    {
      HeldSlice(buf, cursor, end, text, base, found, |pat|);
      if buf[cursor + found..cursor + found + |pat|] == pat {
        return;
      }
      found := found + 1;
    }
    found := end - cursor;
  }

  /**
  The matches found so far end by base, and with those still to be found from base on they are all
  the greedy matches.
  */
  ghost predicate Progress(text: seq<byte>, pat: seq<byte>, hits: seq<int>, base: int)
    requires pat != []
  {
    && 0 <= base && hits + Greedy(text, pat, base) == Greedy(text, pat, 0)
    && forall h :: h in hits ==> h + |pat| <= base
  }

  lemma {:induction false} GreedyIsLater(text: seq<byte>, pat: seq<byte>, from: nat)
    requires pat != [] && Greedy(text, pat, from) != []
    ensures Greedy(text, pat, from)[0] >= from
    decreases |text| - from
  {
    if from + |pat| <= |text| && !MatchAt(text, pat, from) {
      GreedyIsLater(text, pat, from + 1);
    }
  }

  lemma MatchInPrefix(text: seq<byte>, pat: seq<byte>, m: nat, j: nat)
    requires j + |pat| <= m <= |text|
    ensures MatchAt(text[..m], pat, j) <==> MatchAt(text, pat, j)
  {
    SliceOfSlice(text, 0, m, j, j + |pat|);
    assert text[0..m] == text[..m];
  }

  /** A match at `from` is the first hit, if the bytes before base are searched. */
  lemma FirstHit(text: seq<byte>, pat: seq<byte>, from: nat, base: nat, hits: seq<int>)
    requires pat != [] && from < base && MatchAt(text, pat, from)
    requires hits + Greedy(text, pat, base) == Greedy(text, pat, from)
    ensures hits != [] && hits == [from] + hits[1..]
    ensures hits[1..] + Greedy(text, pat, base) == Greedy(text, pat, from + |pat|)
    ensures forall h :: h in hits[1..] ==> h in hits
  {
    var all, more := Greedy(text, pat, from), Greedy(text, pat, base);
    assert all == [from] + Greedy(text, pat, from + |pat|);
    assert hits == [] ==> hits + more == more;
    if hits == [] {
      GreedyIsLater(text, pat, base);
      assert false;
    }
    Tail([from], Greedy(text, pat, from + |pat|));
    assert hits[1..] + more == all[1..];
  }

  /** With fewer than |pat| bytes between base and m, the hits are the greedy matches of the first m bytes. */
  lemma {:induction false} HitsOfPrefix(text: seq<byte>, pat: seq<byte>, m: nat, from: nat, base: nat, hits: seq<int>)
    requires pat != [] && from <= base <= m <= |text| && m < base + |pat|
    requires hits + Greedy(text, pat, base) == Greedy(text, pat, from)
    requires forall h :: h in hits ==> h + |pat| <= base
    ensures hits == Greedy(text[..m], pat, from)
    decreases m - from
  {
    var all := Greedy(text, pat, from);
    if hits != [] {
      assert hits[0] == all[0] && hits[0] in hits;
      GreedyIsLater(text, pat, from);
    }
    if from + |pat| <= m {
      MatchInPrefix(text, pat, m, from);
      if MatchAt(text, pat, from) {
        FirstHit(text, pat, from, base, hits);
        HitsOfPrefix(text, pat, m, from + |pat|, base, hits[1..]);
      } else {
        HitsOfPrefix(text, pat, m, from + 1, base, hits);
      }
    }
  }

  lemma ProgressSkips(text: seq<byte>, pat: seq<byte>, hits: seq<int>, base: nat, until: int)
    requires pat != [] && Progress(text, pat, hits, base) && base <= until && NoMatchIn(text, pat, base, until)
    ensures Progress(text, pat, hits, until)
  {
    GreedySkips(text, pat, base, until);
  }

  lemma ProgressHits(text: seq<byte>, pat: seq<byte>, hits: seq<int>, base: nat, found: nat)
    requires pat != [] && Progress(text, pat, hits, base)
    requires NoMatchIn(text, pat, base, base + found) && MatchAt(text, pat, base + found)
    ensures Progress(text, pat, hits + [base + found], base + (found + |pat|))
  {
    var q := base + found;
    GreedySkips(text, pat, base, q);
    Assoc(hits, [q], Greedy(text, pat, q + |pat|));
  }

  lemma GreedyShort(text: seq<byte>, pat: seq<byte>, from: nat)
    requires pat != [] && from + |pat| > |text|
    ensures Greedy(text, pat, from) == []
  {
  }

  /** Too little text is left for another match. */
  lemma SearchEnds(text: seq<byte>, pat: seq<byte>, hits: seq<int>, base: nat)
    requires pat != [] && base + |pat| > |text| && Progress(text, pat, hits, base)
    ensures hits == Greedy(text, pat, 0)
  {
    GreedyShort(text, pat, base);
    assert hits + [] == hits;
  }

  /** No match is left in the rest of the text. */
  lemma SearchMisses(text: seq<byte>, pat: seq<byte>, hits: seq<int>, base: nat, until: int)
    requires pat != [] && Progress(text, pat, hits, base)
    requires base <= until && NoMatchIn(text, pat, base, until) && until + |pat| > |text|
    ensures hits == Greedy(text, pat, 0)
  {
    ProgressSkips(text, pat, hits, base, until);
    SearchEnds(text, pat, hits, until);
  }

  datatype Outcome = Done | PatternTooLong | ReadFailed

  /** The next match of the whole-file search, or none in the rest of the file. */
  method SearchNext(file: array<byte>, pat: seq<byte>, cursor: nat, ghost text: seq<byte>, ghost hits: seq<int>)
    returns (found: nat)
    requires pat != [] && cursor + |pat| <= file.Length && Holds(file, 0, file.Length, text, 0)
    requires |text| == file.Length && Progress(text, pat, hits, cursor)
    ensures found == file.Length - cursor ==> hits == Greedy(text, pat, 0)
    ensures found != file.Length - cursor ==>
      && cursor + found + |pat| <= file.Length
      && Progress(text, pat, hits + [cursor + found], cursor + (found + |pat|))
  {
    found := PatternSearch(pat, file, cursor, file.Length, text, cursor);
    if found == file.Length - cursor {
      SearchMisses(text, pat, hits, cursor, file.Length - |pat| + 1);
    } else {
      ProgressHits(text, pat, hits, cursor, found);
    }
  }

  /** The loop of `read_and_search_mmap`. */
  method SearchMapped(file: array<byte>, pat: seq<byte>, ghost text: seq<byte>)
    returns (out: seq<byte>, ghost hits: seq<int>)
    requires pat != [] && |text| == file.Length && forall k :: 0 <= k < |text| ==> file[k] == text[k]
    ensures hits == Greedy(text, pat, 0) && out == Printed(pat, |Greedy(text, pat, 0)|)
    ensures FindsAll(text, pat, hits) && Reports(out, hits, text, |pat|)
  {
    SearchReports(text, pat, Greedy(text, pat, 0), Printed(pat, |Greedy(text, pat, 0)|));
    out, hits := [], [];
    var cursor, remaining := 0, file.Length;
    assert [] + Greedy(text, pat, 0) == Greedy(text, pat, 0);
    while remaining >= |pat|
      invariant 0 <= cursor && 0 <= remaining && cursor + remaining == file.Length
      invariant Progress(text, pat, hits, cursor) && out == Printed(pat, |hits|)
      decreases remaining
    {
      var found := SearchNext(file, pat, cursor, text, hits);
      if found == remaining {
        return;
      }
      var consumed := found + |pat|;
      out := out + pat + [LF];
      hits := hits + [cursor + found];
      cursor := cursor + consumed;
      remaining := remaining - consumed;
    }
    SearchEnds(text, pat, hits, cursor);
  }

  /** `read_and_search_mmap` over a file mapped at `file`. */
  method ReadAndSearchMmap(file: array<byte>, pat: seq<byte>)
    returns (outcome: Outcome, out: seq<byte>, ghost hits: seq<int>)
    requires pat != []
    ensures outcome == if |pat| >= 1024 then PatternTooLong else Done
    ensures outcome == Done ==> hits == Greedy(file[..], pat, 0) && out == Printed(pat, |Greedy(file[..], pat, 0)|)
    ensures outcome == Done ==> FindsAll(file[..], pat, hits) && Reports(out, hits, file[..], |pat|)
    ensures outcome != Done ==> hits == [] && out == []
  {
    if |pat| > PATTERN_LIMIT - 1 {
      return PatternTooLong, [], [];
    }
    outcome := Done;
    out, hits := SearchMapped(file, pat, file[..]);
  }

  /** The chunk in the buffer and the unread bytes are what is left of the text from base on. */
  ghost predicate Reading(buf: array<byte>, cursor: int, end: int, text: seq<byte>, base: int, unread: seq<byte>)
    reads buf
  {
    Holds(buf, cursor, end, text, base) && unread == text[base + (end - cursor)..]
  }

  /** Dropping the first d bytes of the chunk. */
  lemma ReadingOn(buf: array<byte>, cursor: nat, end: int, text: seq<byte>, base: nat, unread: seq<byte>, d: nat)
    requires Reading(buf, cursor, end, text, base, unread) && cursor + d <= end
    ensures Reading(buf, cursor + d, end, text, base + d, unread)
  {
    forall k | cursor + d <= k < end ensures buf[k] == text[base + d + (k - (cursor + d))] {
      assert buf[k] == text[base + (k - cursor)];
    }
  }

  /** The branch that searches: report a match or drop the bytes that start none. */
  method SearchChunk(pat: seq<byte>, buf: array<byte>, cursor: nat, end: nat, out: seq<byte>,
                     ghost text: seq<byte>, ghost hits: seq<int>, ghost base: nat)
    returns (next: nat, out': seq<byte>, ghost hits': seq<int>, ghost base': nat)
    requires cursor < cursor + |pat| <= end && out == Printed(pat, |hits|)
    requires Holds(buf, cursor, end, text, base) && Progress(text, pat, hits, base)
    ensures cursor < next <= end && out' == Printed(pat, |hits'|)
    ensures base' - base == next - cursor && Progress(text, pat, hits', base')
  {
    var found := PatternSearch(pat, buf, cursor, end, text, base);
    if found < end - cursor {
      ProgressHits(text, pat, hits, base, found);
      next, out' := cursor + found + |pat|, out + pat + [LF];
      hits', base' := hits + [base + found], base + (found + |pat|);
    } else {
      next, out' := end - |pat| + 1, out;
      hits', base' := hits, base + (end - cursor - |pat| + 1);
      ProgressSkips(text, pat, hits, base, base');
    }
  }

  /** The other branch: move the bytes carried over to the front of the buffer and read on behind them. */
  method ReadChunk(source: Source, buf: array<byte>, cursor: nat, len: nat, ghost text: seq<byte>, ghost base: nat)
    returns (n: int)
    requires len + BYTES_TO_READ <= buf.Length
    requires Reading(buf, cursor, cursor + len, text, base, source.remaining)
    modifies source, buf
    ensures -1 <= n <= BYTES_TO_READ && (n == 0 ==> source.remaining == [] && base + len == |text|)
    ensures n <= 0 ==> source.remaining == old(source.remaining)
    ensures n == -1 ==> source.failures == old(source.failures) + 1
    ensures n != -1 ==> source.failures == old(source.failures)
    ensures n > 0 ==> |source.remaining| < |old(source.remaining)|
    ensures n > 0 ==> Reading(buf, 0, len + n, text, base, source.remaining)
  {
    MemMove(buf, 0, buf, cursor, len);
    assert Holds(buf, 0, len, text, base);
    ghost var unread := source.remaining;
    n := source.Read(buf, len, BYTES_TO_READ);
    if n > 0 {
      SliceOfSlice(text, base + len, |text|, n, |unread|);
      assert unread[n..] == unread[n..|unread|] && text[base + len..|text|] == unread;
      forall k | len <= k < len + n ensures buf[k] == text[base + k] {
        assert buf[k] == unread[k - len];
      }
    }
  }

  /** A round that searches leaves the rest of the chunk. */
  method SearchOn(pat: seq<byte>, buf: array<byte>, cursor: nat, end: nat, out: seq<byte>,
                  ghost text: seq<byte>, ghost hits: seq<int>, ghost base: nat, ghost unread: seq<byte>)
    returns (next: nat, out': seq<byte>, ghost hits': seq<int>, ghost base': nat)
    requires cursor < cursor + |pat| <= end && out == Printed(pat, |hits|)
    requires Reading(buf, cursor, end, text, base, unread) && Progress(text, pat, hits, base)
    ensures cursor < next <= end && out' == Printed(pat, |hits'|)
    ensures Reading(buf, next, end, text, base', unread) && Progress(text, pat, hits', base')
  {
    next, out', hits', base' := SearchChunk(pat, buf, cursor, end, out, text, hits, base);
    ReadingOn(buf, cursor, end, text, base, unread, next - cursor);
  }

  /** What the hits are when less than a pattern is left in the chunk. */
  lemma DeliveredHits(buf: array<byte>, cursor: nat, len: nat, text: seq<byte>, pat: seq<byte>, hits: seq<int>,
                      base: nat, unread: seq<byte>)
    requires len < |pat| && Reading(buf, cursor, cursor + len, text, base, unread)
    requires Progress(text, pat, hits, base)
    ensures |unread| <= |text| && hits == Greedy(text[..|text| - |unread|], pat, 0)
  {
    HitsOfPrefix(text, pat, base + len, 0, base, hits);
  }

  /** All matches of the bytes delivered, and nothing else, are found and reported. */
  ghost predicate ReportsDelivered(text: seq<byte>, unread: seq<byte>, pat: seq<byte>, hits: seq<int>, out: seq<byte>) {
    && |unread| <= |text|
    && FindsAll(text[..|text| - |unread|], pat, hits)
    && Reports(out, hits, text[..|text| - |unread|], |pat|)
  }

  lemma DeliveredIsReported(text: seq<byte>, unread: seq<byte>, pat: seq<byte>, hits: seq<int>, out: seq<byte>)
    requires pat != [] && |unread| <= |text| && hits == Greedy(text[..|text| - |unread|], pat, 0)
    requires out == Printed(pat, |hits|)
    ensures ReportsDelivered(text, unread, pat, hits, out)
    ensures unread == [] ==> hits == Greedy(text, pat, 0)
  {
    SearchReports(text[..|text| - |unread|], pat, hits, out);
    assert text[..|text|] == text;
  }

  /** The loop of `read_and_search`: the hits are those of the bytes delivered, all of them or up to a failed read. */
  method SearchRead(source: Source, buf: array<byte>, pat: seq<byte>)
    returns (outcome: Outcome, out: seq<byte>, ghost hits: seq<int>)
    requires pat != [] && |pat| < PATTERN_LIMIT && buf.Length == BUF_LEN
    modifies source, buf
    ensures outcome != PatternTooLong && (outcome == Done ==> source.remaining == [])
    ensures |source.remaining| <= |old(source.remaining)|
    ensures hits == Greedy(old(source.remaining)[..|old(source.remaining)| - |source.remaining|], pat, 0)
    ensures out == Printed(pat, |hits|)
    ensures source.failures == old(source.failures) + if outcome == ReadFailed then 1 else 0
  {
    out, hits := [], [];
    var cursor, len := 0, 0;
    ghost var text, base: nat := source.remaining, 0;
    assert [] + Greedy(text, pat, 0) == Greedy(text, pat, 0);
    while true
      invariant 0 <= cursor && 0 <= len
      invariant Reading(buf, cursor, cursor + len, text, base, source.remaining)
      invariant Progress(text, pat, hits, base) && out == Printed(pat, |hits|)
      invariant source.failures == old(source.failures)
      decreases |source.remaining|, len
    {
      if len >= |pat| {
        var end := cursor + len;
        cursor, out, hits, base := SearchOn(pat, buf, cursor, end, out, text, hits, base, source.remaining);
        len := end - cursor;
      } else {
        DeliveredHits(buf, cursor, len, text, pat, hits, base, source.remaining);
        var n := ReadChunk(source, buf, cursor, len, text, base);
        if n <= 0 {
          return if n == 0 then Done else ReadFailed, out, hits;
        }
        cursor, len := 0, len + n;
      }
    }
  }

  /**
  `read_and_search`: whatever the chunks, it writes what the whole-file search writes. Its buffer
  of BUF_LEN bytes never overflows, because at most |pat| - 1 bytes are carried over a read.
  */
  method ReadAndSearch(source: Source, pat: seq<byte>)
    returns (outcome: Outcome, out: seq<byte>, ghost hits: seq<int>)
    requires pat != []
    modifies source
    ensures outcome == PatternTooLong <==> |pat| >= 1024
    ensures outcome == PatternTooLong ==> hits == [] && source.remaining == old(source.remaining)
    ensures outcome == Done ==> source.remaining == [] && hits == Greedy(old(source.remaining), pat, 0)
    ensures outcome == Done ==> out == Printed(pat, |Greedy(old(source.remaining), pat, 0)|)
    ensures outcome == ReadFailed <==> source.failures != old(source.failures)
    ensures outcome == ReadFailed ==> source.failures == old(source.failures) + 1
    ensures outcome == ReadFailed ==> |source.remaining| <= |old(source.remaining)|
    ensures outcome == ReadFailed ==>
      hits == Greedy(old(source.remaining)[..|old(source.remaining)| - |source.remaining|], pat, 0)
    ensures out == Printed(pat, |hits|)
    ensures outcome != PatternTooLong ==> ReportsDelivered(old(source.remaining), source.remaining, pat, hits, out)
    ensures outcome == PatternTooLong ==> out == []
  {
    out, hits := [], [];
    if |pat| > PATTERN_LIMIT - 1 {
      return PatternTooLong, out, hits;
    }
    var buf := new byte[BUF_LEN](_ => NUL);
    ghost var text := source.remaining;
    outcome, out, hits := SearchRead(source, buf, pat);
    DeliveredIsReported(text, source.remaining, pat, hits, out);
  }
}
