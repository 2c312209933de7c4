/** Bytes, C strings and the few character classes the modelled code asks about. */
module Bytes {

  type byte = x: int | 0 <= x < 256

  datatype Option<+T> = None | Some(value: T)

  const NUL: byte := 0
  const BEL: byte := 7
  const BS: byte := 8
  const TAB: byte := 9
  const LF: byte := 10
  const CR: byte := 13
  const SPACE: byte := 32
  const DQUOTE: byte := 34
  const PERCENT: byte := 37
  const SQUOTE: byte := 39
  const MINUS: byte := 45
  const ZERO: byte := 48
  const UPPER_I: byte := 73
  const UPPER_S: byte := 83
  const UPPER_U: byte := 85
  const BACKSLASH: byte := 92
  const LOWER_A: byte := 97
  const LOWER_B: byte := 98
  const LOWER_I: byte := 105
  const LOWER_N: byte := 110
  const LOWER_R: byte := 114
  const LOWER_S: byte := 115
  const LOWER_T: byte := 116
  const LOWER_U: byte := 117
  const LOWER_X: byte := 120

  /** `size_t` and `unsigned long long` are 64 bits wide. */
  const SIZE_LIMIT: nat := 0x1_0000_0000_0000_0000

  /** `isspace` in the C locale: space, \t, \n, \v, \f, \r. */
  predicate IsSpace(c: byte) {
    c == SPACE || TAB <= c <= CR
  }

  /** `isprint` in the C locale. */
  predicate IsPrint(c: byte) {
    SPACE <= c <= 126
  }

  /** The constants are the characters they are named after. */
  lemma CharacterCodes()
    ensures NUL == '\0' as int && BEL == 7 && BS == 8 && TAB == '\t' as int && LF == '\n' as int && CR == '\r' as int
    ensures SPACE == ' ' as int && DQUOTE == '\"' as int && PERCENT == '%' as int && SQUOTE == '\'' as int
    ensures MINUS == '-' as int && ZERO == '0' as int && BACKSLASH == '\\' as int
    ensures UPPER_I == 'I' as int && UPPER_S == 'S' as int && UPPER_U == 'U' as int
    ensures LOWER_A == 'a' as int && LOWER_B == 'b' as int && LOWER_I == 'i' as int && LOWER_N == 'n' as int
    ensures LOWER_R == 'r' as int && LOWER_S == 's' as int && LOWER_T == 't' as int && LOWER_U == 'u' as int
    ensures LOWER_X == 'x' as int
  {
  }

  predicate NulFree(s: seq<byte>) {
    forall i :: 0 <= i < |s| ==> s[i] != NUL
  }

  predicate IsCString(s: seq<byte>) {
    |s| > 0 && s[|s| - 1] == NUL && NulFree(s[..|s| - 1])
  }

  /** A NUL-terminated string together with its terminator: an index into it is a legal C read. */
  type CString = s: seq<byte> | IsCString(s) witness [0]

  /** What `strlen` counts. */
  function Text(s: CString): (t: seq<byte>)
    ensures |t| + 1 == |s| && NulFree(t)
    ensures forall p :: 0 <= p < |s| ==> (s[p] == NUL <==> p == |t|)
    ensures forall p :: 0 <= p < |t| ==> s[p] == t[p]
  {
    s[..|s| - 1]
  }

  /** A C string is any bytes other than 0, and a 0 behind them. */
  lemma CStringIsTerminated(t: seq<byte>)
    ensures IsCString(t + [0]) <==> forall i :: 0 <= i < |t| ==> t[i] != 0
    ensures IsCString(t + [0]) ==> Text(t + [0]) == t
  {
    assert (t + [0])[..|t|] == t;
  }

  lemma Assoc<T>(a: seq<T>, b: seq<T>, c: seq<T>)
    ensures a + b + c == a + (b + c)
  {
  }

  lemma Tail<T>(p: seq<T>, t: seq<T>)
    ensures (p + t)[|p|..] == t
  {
  }

  lemma HeadOfSlice<T>(s: seq<T>, k: nat, n: nat)
    requires k < n <= |s|
    ensures s[k..n] == [s[k]] + s[k + 1..n]
  {
    forall i | 0 <= i < n - k ensures s[k..n][i] == ([s[k]] + s[k + 1..n])[i] {
      assert i > 0 ==> s[k + 1..n][i - 1] == s[k + i];
    }
  }

  lemma SliceOfSlice<T>(s: seq<T>, a: nat, b: nat, c: nat, d: nat)
    requires a <= b <= |s| && c <= d <= b - a
    ensures s[a..b][c..d] == s[a + c..a + d]
  {
    forall i | 0 <= i < d - c ensures s[a..b][c..d][i] == s[a + c..a + d][i] {
      assert s[a..b][c..d][i] == s[a..b][c + i];
    }
  }

  lemma MultipleIsLarge(d: int, n: int)
    requires n > 0
    ensures d >= 1 ==> d * n >= n
    ensures d <= -1 ==> d * n <= -n
  {
  }

  /** There is one remainder. */
  lemma ModUnique(y: int, n: int, z: int, x: int)
    requires 0 <= x < n && y == z * n + x
    ensures y % n == x
  {
    var d := z - y / n;
    assert d * n == y % n - x;
    MultipleIsLarge(d, n);
  }

  /** `memmove`: the two regions may overlap. */
  method MemMove(dst: array<byte>, to: nat, src: array<byte>, from: nat, n: nat)
    requires to + n <= dst.Length && from + n <= src.Length
    modifies dst
    ensures forall k :: to <= k < to + n ==> dst[k] == old(src[from + k - to])
    ensures forall k :: 0 <= k < dst.Length && !(to <= k < to + n) ==> dst[k] == old(dst[k])
  {
    forall k | to <= k < to + n {
      dst[k] := src[from + k - to];
    }
  }

  /** `memcpy` from bytes the callee does not own. */
  method MemCopy(dst: array<byte>, to: nat, t: seq<byte>)
    requires to + |t| <= dst.Length
    modifies dst
    ensures forall k :: to <= k < to + |t| ==> dst[k] == t[k - to]
    ensures forall k :: 0 <= k < dst.Length && !(to <= k < to + |t|) ==> dst[k] == old(dst[k])
  {
    forall k | to <= k < to + |t| {
      dst[k] := t[k - to];
    }
  }

  /** `memset`. */
  method MemSet(dst: array<byte>, to: nat, c: byte, n: nat)
    requires to + n <= dst.Length
    modifies dst
    ensures forall k :: to <= k < to + n ==> dst[k] == c
    ensures forall k :: 0 <= k < dst.Length && !(to <= k < to + n) ==> dst[k] == old(dst[k])
  {
    forall k | to <= k < to + n {
      dst[k] := c;
    }
  }
}
