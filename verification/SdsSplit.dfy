/** Splitting on a separator of any length, and joining back. */
module SdsSplit {
  import opened Bytes
  import opened SdsString

  ghost predicate OccursAt(s: seq<byte>, sep: seq<byte>, j: int) {
    0 <= j && j + |sep| <= |s| && s[j..j + |sep|] == sep
  }

  /** The separator stands in s at j, byte by byte. */
  lemma OccursByteByByte(s: seq<byte>, sep: seq<byte>, j: int)
    ensures OccursAt(s, sep, j) <==>
      0 <= j && j + |sep| <= |s| && forall k :: 0 <= k < |sep| ==> s[j + k] == sep[k]
  {
    if 0 <= j && j + |sep| <= |s| && forall k :: 0 <= k < |sep| ==> s[j + k] == sep[k] {
      assert s[j..j + |sep|] == sep;
    }
  }

  function Join(ts: seq<seq<byte>>, sep: seq<byte>): seq<byte> {
    if ts == [] then []
    else if |ts| == 1 then ts[0]
    else ts[0] + sep + Join(ts[1..], sep)
  }

  /** Cutting at the leftmost separator finds exactly t: none starts earlier, not even one overlapping t's end. */
  ghost predicate CutsAfter(t: seq<byte>, sep: seq<byte>) {
    forall j :: 0 <= j < |t| ==> !OccursAt(t + sep, sep, j)
  }

  ghost predicate Absent(t: seq<byte>, sep: seq<byte>) {
    forall j :: !OccursAt(t, sep, j)
  }

  ghost predicate Separated(ts: seq<seq<byte>>, sep: seq<byte>) {
    && ts != []
    && (forall i :: 0 <= i < |ts| - 1 ==> CutsAfter(ts[i], sep))
    && Absent(ts[|ts| - 1], sep)
  }

  /** ts are the leftmost-cut pieces of s. */
  ghost predicate IsSplit(ts: seq<seq<byte>>, s: seq<byte>, sep: seq<byte>) {
    Join(ts, sep) == s && Separated(ts, sep)
  }

  lemma OccurrenceInPrefix(s: seq<byte>, rest: seq<byte>, sep: seq<byte>, j: int)
    requires 0 <= j && j + |sep| <= |s|
    ensures OccursAt(s, sep, j) <==> OccursAt(s + rest, sep, j)
  {
    assert (s + rest)[j..j + |sep|] == s[j..j + |sep|];
  }

  /** In t + sep + rest the first separator starts right after t. */
  lemma FirstCut(t: seq<byte>, rest: seq<byte>, sep: seq<byte>)
    requires CutsAfter(t, sep)
    ensures OccursAt(t + sep + rest, sep, |t|)
    ensures forall j :: 0 <= j < |t| ==> !OccursAt(t + sep + rest, sep, j)
  {
    assert (t + sep + rest)[|t|..|t| + |sep|] == sep;
    forall j | 0 <= j < |t| ensures !OccursAt(t + sep + rest, sep, j) {
      OccurrenceInPrefix(t + sep, rest, sep, j);
    }
  }

  lemma {:induction false} SplitIsUnique(ts: seq<seq<byte>>, us: seq<seq<byte>>, sep: seq<byte>)
    requires Separated(ts, sep) && Separated(us, sep) && Join(ts, sep) == Join(us, sep)
    ensures ts == us
  {
    if |ts| > 1 {
      FirstCut(ts[0], Join(ts[1..], sep), sep);
    }
    if |us| > 1 {
      FirstCut(us[0], Join(us[1..], sep), sep);
    }
    if |ts| > 1 && |us| > 1 {
      var s := Join(ts, sep);
      assert |ts[0]| == |us[0]|;
      assert ts[0] == s[..|ts[0]|] == us[0];
      assert Join(ts[1..], sep) == s[|ts[0]| + |sep|..] == Join(us[1..], sep);
      SplitIsUnique(ts[1..], us[1..], sep);
      assert ts == [ts[0]] + ts[1..];
    }
  }

  /** No token contains the separator. */
  lemma TokensAvoidSeparator(ts: seq<seq<byte>>, sep: seq<byte>)
    requires Separated(ts, sep) && sep != []
    ensures forall t :: t in ts ==> Absent(t, sep)
  {
    forall t, j | t in ts ensures !OccursAt(t, sep, j) {
      if OccursAt(t, sep, j) {
        OccurrenceInPrefix(t, sep, sep, j);
      }
    }
  }

  /** Splitting a join gives the list back exactly when no cut comes early. */
  lemma SplitOfJoin(ts: seq<seq<byte>>, us: seq<seq<byte>>, sep: seq<byte>)
    requires IsSplit(us, Join(ts, sep), sep)
    ensures us == ts <==> Separated(ts, sep)
  {
    if Separated(ts, sep) {
      SplitIsUnique(ts, us, sep);
    }
  }

  // ---- The loops ----

  lemma {:induction false} JoinSnoc(ts: seq<seq<byte>>, t: seq<byte>, rest: seq<byte>, sep: seq<byte>)
    ensures Join(ts + [t + sep + rest], sep) == Join(ts + [t] + [rest], sep)
  {
    if ts == [] {
      assert ([t] + [rest])[1..] == [rest];
    } else {
      JoinSnoc(ts[1..], t, rest, sep);
      assert (ts + [t + sep + rest])[1..] == ts[1..] + [t + sep + rest];
      assert (ts + [t] + [rest])[1..] == ts[1..] + [t] + [rest];
    }
  }

  /** The pieces found so far and the unsplit rest make up s; no separator starts in s[start..j]. */
  ghost predicate Cutting(found: seq<seq<byte>>, s: seq<byte>, sep: seq<byte>, start: int, j: int) {
    && 0 <= start <= j && start <= |s|
    && (forall k :: start <= k < j ==> !OccursAt(s, sep, k))
    && (forall i :: 0 <= i < |found| ==> CutsAfter(found[i], sep))
    && Join(found + [s[start..]], sep) == s
  }

  lemma CutFound(found: seq<seq<byte>>, s: seq<byte>, sep: seq<byte>, start: nat, j: nat)
    requires Cutting(found, s, sep, start, j) && OccursAt(s, sep, j)
    ensures Cutting(found + [s[start..j]], s, sep, j + |sep|, j + |sep|)
  {
    var t := s[start..j];
    assert t + sep == s[start..j + |sep|];
    forall k | 0 <= k < |t| ensures !OccursAt(t + sep, sep, k) {
      SliceOfSlice(s, start, j + |sep|, k, k + |sep|);
      assert !OccursAt(s, sep, start + k);
    }
    JoinSnoc(found, t, s[j + |sep|..], sep);
    assert s[start..] == t + sep + s[j + |sep|..];
  }

  lemma CuttingDone(found: seq<seq<byte>>, s: seq<byte>, sep: seq<byte>, start: nat, j: int)
    requires Cutting(found, s, sep, start, j) && |s| - |sep| < j
    ensures IsSplit(found + [s[start..]], s, sep)
  {
    forall k ensures !OccursAt(s[start..], sep, k) {
      if OccursAt(s[start..], sep, k) {
        SliceOfSlice(s, start, |s|, k, k + |sep|);
        assert OccursAt(s, sep, start + k);
      }
    }
  }

  /** `s_realloc` of the token vector to twice its slots. */
  method DoubleSlots(tokens: array<seq<byte>>) returns (bigger: array<seq<byte>>)
    ensures fresh(bigger) && bigger.Length == 2 * tokens.Length
    ensures bigger[..tokens.Length] == tokens[..]
  {
    bigger := new seq<byte>[2 * tokens.Length];
    forall i | 0 <= i < tokens.Length {
      bigger[i] := tokens[i];
    }
  }

  /** `sdssplitlen`: null for an empty text or an empty separator. */
  method SplitLen(s: seq<byte>, sep: seq<byte>) returns (tokens: array?<seq<byte>>, count: nat)
    ensures tokens == null <==> s == [] || sep == []
    ensures tokens == null ==> count == 0
    ensures tokens != null ==> count <= tokens.Length && IsSplit(tokens[..count], s, sep)
  {
    if |sep| < 1 || |s| <= 0 {
      return null, 0;
    }
    var vector := new seq<byte>[5];
    var elements, start, j := 0, 0, 0;
    assert vector[..0] + [s[0..]] == [s];
    while j < |s| - (|sep| - 1)
      invariant 0 <= elements < vector.Length && fresh(vector)
      invariant Cutting(vector[..elements], s, sep, start, j)
      decreases |s| - j
    {
      ghost var found := vector[..elements];
      if vector.Length < elements + 2 {
        vector := DoubleSlots(vector);
      }
      assert vector[..elements] == found;
      if s[j..j + |sep|] == sep {
        CutFound(found, s, sep, start, j);
        vector[elements] := s[start..j];
        assert vector[..elements + 1] == found + [s[start..j]];
        elements := elements + 1;
        start := j + |sep|;
        j := j + |sep| - 1;
      }
      j := j + 1;
    }
    ghost var found := vector[..elements];
    CuttingDone(found, s, sep, start, j);
    vector[elements] := s[start..];
    assert vector[..elements + 1] == found + [s[start..]];
    return vector, elements + 1;
  }

  /** `sdsjoinsds`. */
  method JoinSds(argv: seq<seq<byte>>, sep: seq<byte>) returns (join: Sds)
    requires Sizeable(|Join(argv, sep)|)
    ensures fresh(join) && fresh(join.buf) && join.Valid()
    ensures join.Contents() == Join(argv, sep) && MovedLittle(join.used, join.moved)
  {
    ghost var whole := Join(argv, sep);
    join := new Sds([]);
    assert argv[0..] == argv;
    for j := 0 to |argv|
      invariant fresh(join) && fresh(join.buf) && join.Valid()
      invariant join.Contents() + Join(argv[j..], sep) == whole
      invariant WellSpent(join.Account())
    {
      ghost var done := join.Contents();
      assert argv[j..][1..] == argv[j + 1..];
      AppendStaysWellSpent(join.Account(), |argv[j]|);
      join.CatLen(argv[j]);
      if j != |argv| - 1 {
        AppendStaysWellSpent(join.Account(), |sep|);
        join.CatLen(sep);
        Assoc(done, argv[j] + sep, Join(argv[j + 1..], sep));
        Assoc(done, argv[j], sep);
      }
    }
    WellSpentIsLittle(join.Account());
  }
}
