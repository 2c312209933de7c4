/** Integers to decimal text: digits are produced backwards and reversed in place. */
module SdsNumbers {
  import opened Bytes

  const LLSTR_SIZE: nat := 21
  const LLONG_MAX: int := 0x7fff_ffff_ffff_ffff
  const LLONG_MIN: int := -0x8000_0000_0000_0000

  predicate IsDigit(c: byte) {
    ZERO <= c < ZERO + 10
  }

  predicate AllDigits(s: seq<byte>) {
    forall i :: 0 <= i < |s| ==> IsDigit(s[i])
  }

  /** The number a run of digits denotes. */
  function ParseNat(s: seq<byte>): nat
    requires AllDigits(s)
  {
    if s == [] then 0 else 10 * ParseNat(s[..|s| - 1]) + (s[|s| - 1] - ZERO)
  }

  /** Some digit, no leading zero except in "0". */
  ghost predicate CanonicalNat(s: seq<byte>) {
    s != [] && AllDigits(s) && (s[0] == ZERO ==> |s| == 1)
  }

  /** Canonical text of an integer: "-" only before a nonzero number. */
  ghost predicate IsDecimal(s: seq<byte>, n: int) {
    if n < 0 then s != [] && s[0] == MINUS && CanonicalNat(s[1..]) && ParseNat(s[1..]) == -n
    else CanonicalNat(s) && ParseNat(s) == n
  }

  /** The canonical text itself. */
  function Digits(v: nat): (s: seq<byte>)
    ensures s != []
  {
    if v < 10 then [ZERO + v] else Digits(v / 10) + [ZERO + v % 10]
  }

  function Decimal(n: int): seq<byte> {
    if n < 0 then [MINUS] + Digits(-n) else Digits(n)
  }

  lemma {:induction false} DigitsAreCanonical(v: nat)
    ensures CanonicalNat(Digits(v)) && ParseNat(Digits(v)) == v
  {
    if v >= 10 {
      DigitsAreCanonical(v / 10);
      assert Digits(v)[..|Digits(v)| - 1] == Digits(v / 10);
    } else {
      assert ParseNat(Digits(v)[..0]) == 0;
    }
  }

  lemma {:induction false} CanonicalIsDigits(s: seq<byte>)
    requires CanonicalNat(s)
    ensures s == Digits(ParseNat(s))
  {
    var q := s[..|s| - 1];
    if |s| > 1 {
      assert q[0] == s[0];
      CanonicalIsDigits(q);
      CanonicalIsPositive(q);
      assert s == q + [s[|s| - 1]];
    } else {
      assert ParseNat(q) == 0;
    }
  }

  lemma {:induction false} CanonicalIsPositive(s: seq<byte>)
    requires s != [] && AllDigits(s) && s[0] != ZERO
    ensures ParseNat(s) > 0
  {
    if |s| > 1 {
      CanonicalIsPositive(s[..|s| - 1]);
    }
  }

  /** Canonical texts are unique, so the text determines the number and the number the text. */
  lemma DecimalIsUnique(s: seq<byte>, n: int)
    ensures IsDecimal(s, n) <==> s == Decimal(n)
  {
    if IsDecimal(s, n) {
      if n < 0 {
        CanonicalIsDigits(s[1..]);
        assert s == [MINUS] + s[1..];
      } else {
        CanonicalIsDigits(s);
      }
    }
    DigitsAreCanonical(if n < 0 then -n else n);
  }

  function Pow10(k: nat): (p: nat)
    ensures p > 0
  {
    if k == 0 then 1 else 10 * Pow10(k - 1)
  }

  /** A number below 10^k has at most k digits. */
  lemma {:induction false} DigitCount(v: nat, k: nat)
    requires k > 0 && v < Pow10(k)
    ensures |Digits(v)| <= k
  {
    if v >= 10 {
      DigitCount(v / 10, k - 1);
    }
  }

  lemma Pow10Of20()
    ensures SIZE_LIMIT < Pow10(20)
  {
    assert Pow10(5) == 100000;
    assert Pow10(10) == 10000000000;
    assert Pow10(15) == 1000000000000000;
    assert Pow10(20) == 100000000000000000000;
  }

  /** 64-bit numbers have at most 20 digits, and magnitudes of signed ones at most 19. */
  lemma DigitsFit(v: nat)
    requires v < SIZE_LIMIT
    ensures |Digits(v)| <= 20
    ensures v <= -LLONG_MIN ==> |Digits(v)| <= 19
  {
    Pow10Of20();
    DigitCount(v, 20);
    if v <= -LLONG_MIN {
      assert Pow10(4) == 10000;
      assert Pow10(9) == 1000000000;
      assert Pow10(14) == 100000000000000;
      assert Pow10(19) == 10000000000000000000;
      DigitCount(v, 19);
    }
  }

  lemma ReversedSnoc(s: seq<byte>, c: byte)
    ensures Reversed(s + [c]) == [c] + Reversed(s)
  {
  }

  lemma ReversedCons(c: byte, s: seq<byte>)
    ensures Reversed([c] + s) == Reversed(s) + [c]
  {
  }

  function Reversed(s: seq<byte>): (r: seq<byte>)
    ensures |r| == |s| && forall k :: 0 <= k < |s| ==> r[k] == s[|s| - 1 - k]
  {
    seq(|s|, k requires 0 <= k < |s| => s[|s| - 1 - k])
  }

  /** The do-while loop: digits of v from the least significant, starting at s[0]. */
  method PutDigitsReversed(s: array<byte>, value: nat) returns (p: nat)
    requires s.Length >= LLSTR_SIZE && value < SIZE_LIMIT
    modifies s
    ensures p == |Digits(value)| <= 20
    ensures s[..p] == Reversed(Digits(value))
    ensures value <= -LLONG_MIN ==> p <= 19
    ensures forall k :: LLSTR_SIZE <= k < s.Length ==> s[k] == old(s[k])
  {
    DigitsFit(value);
    var v := value;
    p := 0;
    var more := true;
    while more
      invariant 0 <= p <= |Digits(value)|
      invariant more ==> Digits(value) == Digits(v) + Reversed(s[..p])
      invariant !more ==> v == 0 && Digits(value) == Reversed(s[..p])
      invariant forall k :: LLSTR_SIZE <= k < s.Length ==> s[k] == old(s[k])
      decreases more, v
    {
      ghost var before := s[..p];
      s[p] := ZERO + v % 10;
      assert s[..p + 1] == before + [ZERO + v % 10];
      ReversedSnoc(before, ZERO + v % 10);
      v := v / 10;
      p := p + 1;
      more := v != 0;
    }
    assert s[..p] == Reversed(Reversed(s[..p]));
  }

  /** The two-pointer reversal of s[..l]. */
  method ReverseInPlace(s: array<byte>, l: nat)
    requires 0 < l <= s.Length
    modifies s
    ensures s[..l] == Reversed(old(s[..l]))
    ensures forall k :: l <= k < s.Length ==> s[k] == old(s[k])
  {
    var a, p := 0, l - 1;
    while a < p
      invariant 0 <= a <= p + 1 && a + p == l - 1
      invariant forall k :: 0 <= k < a || p < k < l ==> s[k] == old(s[l - 1 - k])
      invariant forall k :: a <= k <= p || l <= k < s.Length ==> s[k] == old(s[k])
    {
      s[a], s[p] := s[p], s[a];
      a, p := a + 1, p - 1;
    }
  }

  lemma ReversedTwice(t: seq<byte>)
    ensures Reversed(Reversed(t)) == t
  {
  }

  /** The terminator, and the reversal of what stands before it. */
  method TerminateReversed(s: array<byte>, l: nat, ghost text: seq<byte>)
    requires 0 < l < s.Length && s[..l] == Reversed(text)
    modifies s
    ensures s[..l] == text && s[l] == NUL
    ensures forall k :: l < k < s.Length ==> s[k] == old(s[k])
  {
    s[l] := NUL;
    assert s[..l] == Reversed(text);
    ReverseInPlace(s, l);
    ReversedTwice(text);
  }

  /** The sign, the terminator and the reversal. */
  method FinishSigned(s: array<byte>, p: nat, negative: bool, ghost digits: seq<byte>) returns (l: nat)
    requires 0 < p < LLSTR_SIZE - 1 <= s.Length - 1 && s[..p] == Reversed(digits)
    modifies s
    ensures 0 < l < LLSTR_SIZE && s[l] == NUL
    ensures s[..l] == if negative then [MINUS] + digits else digits
    ensures forall k :: LLSTR_SIZE <= k < s.Length ==> s[k] == old(s[k])
  {
    if !negative {
      TerminateReversed(s, p, digits);
      return p;
    }
    s[p] := MINUS;
    assert s[..p + 1] == Reversed(digits) + [MINUS];
    ReversedCons(MINUS, digits);
    TerminateReversed(s, p + 1, [MINUS] + digits);
    return p + 1;
  }

  /** `sdsull2str`: at most 20 characters and the terminator; nothing beyond them is touched. */
  method Ull2Str(s: array<byte>, v: nat) returns (l: nat)
    requires s.Length >= LLSTR_SIZE && v < SIZE_LIMIT
    modifies s
    ensures l < LLSTR_SIZE && s[l] == NUL
    ensures s[..l] == Decimal(v)
    ensures forall k :: LLSTR_SIZE <= k < s.Length ==> s[k] == old(s[k])
  {
    l := PutDigitsReversed(s, v);
    TerminateReversed(s, l, Digits(v));
  }

  /** `sdsll2str`, including LLONG_MIN, whose negation has no `long long`. */
  method Ll2Str(s: array<byte>, value: int) returns (l: nat)
    requires s.Length >= LLSTR_SIZE && LLONG_MIN <= value <= LLONG_MAX
    modifies s
    ensures l < LLSTR_SIZE && s[l] == NUL
    ensures s[..l] == Decimal(value)
    ensures forall k :: LLSTR_SIZE <= k < s.Length ==> s[k] == old(s[k])
  {
    var v: nat;
    if value < 0 {
      if value != LLONG_MIN {
        v := -value;
      } else {
        v := LLONG_MAX + 1;
      }
    } else {
      v := value;
    }
    var p := PutDigitsReversed(s, v);
    l := FinishSigned(s, p, value < 0, Digits(v));
  }
}
