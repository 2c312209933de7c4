/**
The SDS representation: a length-prefixed byte buffer whose header comes in five widths.
An object stands for the pointer that the C functions return and the caller reassigns.
*/
module SdsString {
  import opened Bytes

  datatype Kind = T5 | T8 | T16 | T32 | T64

  const SDS_MAX_PREALLOC: nat := 1024 * 1024

  /** One more than the largest number the header's length field holds. */
  function Limit(k: Kind): nat {
    match k
    case T5 => 32
    case T8 => 256
    case T16 => 0x1_0000
    case T32 => 0x1_0000_0000
    case T64 => SIZE_LIMIT
  }

  /** The width of a header's length field, in bits; type 5 keeps it in the flag byte. */
  function Bits(k: Kind): nat {
    match k
    case T5 => 5
    case T8 => 8
    case T16 => 16
    case T32 => 32
    case T64 => 64
  }

  function TwoTo(n: nat): nat {
    if n == 0 then 1 else 2 * TwoTo(n - 1)
  }

  lemma LimitIsPowerOfTwo(k: Kind)
    ensures Limit(k) == TwoTo(Bits(k))
  {
    assert TwoTo(5) == 0x20;
    assert TwoTo(8) == 0x100;
    assert TwoTo(16) == 0x1_0000;
    assert TwoTo(24) == 0x100_0000;
    assert TwoTo(32) == 0x1_0000_0000;
    assert TwoTo(40) == 0x100_0000_0000;
    assert TwoTo(48) == 0x1_0000_0000_0000;
    assert TwoTo(56) == 0x100_0000_0000_0000;
    assert TwoTo(64) == SIZE_LIMIT;
  }

  /** What is left of n in a header field: the store keeps the low bits. */
  function Stored(k: Kind, n: int): (f: nat)
    ensures f < Limit(k) && (0 <= n < Limit(k) ==> f == n)
  {
    match k
    case T5 => n % 32
    case T8 => n % 256
    case T16 => n % 0x1_0000
    case T32 => n % 0x1_0000_0000
    case T64 => n % SIZE_LIMIT
  }

  /** A stored number differs from the original by a multiple of the limit. */
  lemma StoredIsCongruent(k: Kind, n: nat)
    ensures Stored(k, n - Stored(k, n)) == 0
  {
    var d := n - Stored(k, n);
    match k
    case T5 => ModUnique(d, 32, n / 32, 0);
    case T8 => ModUnique(d, 256, n / 256, 0);
    case T16 => ModUnique(d, 0x1_0000, n / 0x1_0000, 0);
    case T32 => ModUnique(d, 0x1_0000_0000, n / 0x1_0000_0000, 0);
    case T64 => ModUnique(d, SIZE_LIMIT, n / SIZE_LIMIT, 0);
  }

  /**
  The change of length that the assertion of `sdsIncrLen` compares: decrements of the narrower
  headers, and increments of the 32-bit one, are cut to `unsigned int` first.
  */
  function Change(k: Kind, incr: int): int {
    if incr >= 0 then (if k.T32? then incr % 0x1_0000_0000 else incr)
    else if k.T64? then incr
    else -(-incr % 0x1_0000_0000)
  }

  /** Only those are cut, and what is cut off is a multiple of 2^32. */
  lemma ChangeIsCut(k: Kind, incr: int)
    ensures k.T64? || (incr >= 0 && !k.T32?) ==> Change(k, incr) == incr
    ensures !k.T64? && incr < 0 ==>
      -0x1_0000_0000 < Change(k, incr) <= 0 && (Change(k, incr) - incr) % 0x1_0000_0000 == 0
    ensures k.T32? && incr >= 0 ==>
      0 <= Change(k, incr) < 0x1_0000_0000 && (incr - Change(k, incr)) % 0x1_0000_0000 == 0
  {
  }

  /** The narrower headers do not see multiples of 2^32. */
  lemma StoredShift(k: Kind, len: nat, q: int)
    requires !k.T64? && len < Limit(k)
    ensures Stored(k, len + 0x1_0000_0000 * q) == len
  {
    var n := len + 0x1_0000_0000 * q;
    match k
    case T5 => ModUnique(n, 32, 0x800_0000 * q, len);
    case T8 => ModUnique(n, 256, 0x100_0000 * q, len);
    case T16 => ModUnique(n, 0x1_0000, 0x1_0000 * q, len);
    case T32 => ModUnique(n, 0x1_0000_0000, q, len);
  }

  /** The header arithmetic wraps to the length that was compared. */
  lemma StoredChange(k: Kind, len: nat, incr: int)
    requires 0 <= len + Change(k, incr) < Limit(k)
    ensures Stored(k, len + incr) == len + Change(k, incr)
  {
    if incr != Change(k, incr) {
      var q := if incr >= 0 then incr / 0x1_0000_0000 else -(-incr / 0x1_0000_0000);
      assert incr == Change(k, incr) + 0x1_0000_0000 * q;
      StoredShift(k, len + Change(k, incr), q);
    }
  }

  /** `sdsReqType`: the narrowest header whose field holds n. */
  function ReqType(n: nat): (k: Kind)
    requires n < SIZE_LIMIT
    ensures n < Limit(k)
    ensures forall k' :: n < Limit(k') ==> Limit(k) <= Limit(k')
  {
    if n < 32 then T5
    else if n < 256 then T8
    else if n < 0x1_0000 then T16
    else if n < 0x1_0000_0000 then T32
    else T64
  }

  /** The longest header plus the preallocation and the terminator still fit in `size_t`. */
  predicate Sizeable(n: int) {
    0 <= n && n + SDS_MAX_PREALLOC + 18 < SIZE_LIMIT
  }

  lemma HalfTheSizesAreSizeable(n: nat)
    requires n <= 0x8000_0000_0000_0000
    ensures Sizeable(n)
  {
  }

  /** The allocation chosen when `required` content bytes must fit. */
  function Prealloc(required: nat): (n: nat)
    ensures required <= n
  {
    if required < SDS_MAX_PREALLOC then 2 * required else required + SDS_MAX_PREALLOC
  }

  /** Length, allocation, and content bytes moved by every reallocation so far. */
  datatype SpaceAccount = SpaceAccount(len: nat, alloc: nat, moved: nat)

  /** The account after appending n bytes. */
  function Appended(a: SpaceAccount, n: nat): SpaceAccount
    requires a.len <= a.alloc
  {
    if a.alloc - a.len >= n then a.(len := a.len + n)
    else SpaceAccount(a.len + n, Prealloc(a.len + n), a.moved + a.len)
  }

  /** The account after a run of appends. */
  function AppendedAll(a: SpaceAccount, ns: seq<nat>): (r: SpaceAccount)
    requires a.len <= a.alloc
    ensures a.len <= r.len <= r.alloc
    decreases ns
  {
    if ns == [] then a else AppendedAll(Appended(a, ns[0]), ns[1..])
  }

  /** At most twice the content below 1 MiB; quadratic, with slope 1/(2 MiB), once growth is linear. */
  ghost predicate MovedLittle(len: nat, moved: nat) {
    && (len < SDS_MAX_PREALLOC ==> moved <= 2 * len)
    && 2 * SDS_MAX_PREALLOC * moved <= len * (len + 4 * SDS_MAX_PREALLOC)
  }

  /** The length at the last reallocation can be read off the allocation, and it bounds the moves so far. */
  ghost predicate WellSpent(a: SpaceAccount) {
    && a.len <= a.alloc
    && if a.alloc < 2 * SDS_MAX_PREALLOC then a.moved <= a.alloc <= 2 * a.len
       else a.alloc - SDS_MAX_PREALLOC <= a.len && MovedLittle(a.alloc - SDS_MAX_PREALLOC, a.moved)
  }

  lemma WellSpentIsLittle(a: SpaceAccount)
    requires WellSpent(a)
    ensures MovedLittle(a.len, a.moved)
  {
    if a.alloc < 2 * SDS_MAX_PREALLOC {
      assert a.len * (a.len + 4 * SDS_MAX_PREALLOC) >= a.len * (4 * SDS_MAX_PREALLOC);
    } else {
      ProductGrows(a.alloc - SDS_MAX_PREALLOC, a.len);
    }
  }

  lemma ProductGrows(r: nat, len: nat)
    requires r <= len
    ensures r * (r + 4 * SDS_MAX_PREALLOC) + (len - r) * SDS_MAX_PREALLOC <= len * (len + 4 * SDS_MAX_PREALLOC)
    ensures r + SDS_MAX_PREALLOC <= len ==>
      r * (r + 4 * SDS_MAX_PREALLOC) + 2 * SDS_MAX_PREALLOC * (r + SDS_MAX_PREALLOC) <= len * (len + 4 * SDS_MAX_PREALLOC)
  {
    var d, wide := len - r, len + r + 4 * SDS_MAX_PREALLOC;
    assert len * (len + 4 * SDS_MAX_PREALLOC) - r * (r + 4 * SDS_MAX_PREALLOC) == d * wide;
    assert d * wide >= d * SDS_MAX_PREALLOC;
    if SDS_MAX_PREALLOC <= d {
      assert d * wide >= SDS_MAX_PREALLOC * wide;
    }
  }

  lemma AppendStaysWellSpent(a: SpaceAccount, n: nat)
    requires WellSpent(a)
    ensures WellSpent(Appended(a, n))
  {
    var b := Appended(a, n);
    if b.alloc != a.alloc && b.len >= SDS_MAX_PREALLOC {
      if a.alloc < 2 * SDS_MAX_PREALLOC {
        ProductGrows(0, b.len);
        assert b.len * (b.len + 4 * SDS_MAX_PREALLOC) >= b.len * (4 * SDS_MAX_PREALLOC);
      } else {
        ProductGrows(a.alloc - SDS_MAX_PREALLOC, b.len);
      }
    }
  }

  lemma {:induction false} RunStaysWellSpent(a: SpaceAccount, ns: seq<nat>)
    requires WellSpent(a)
    ensures WellSpent(AppendedAll(a, ns))
    decreases ns
  {
    if ns != [] {
      AppendStaysWellSpent(a, ns[0]);
      RunStaysWellSpent(Appended(a, ns[0]), ns[1..]);
    }
  }

  /** The amortised cost of building any string from `sdsempty` by appends of any sizes. */
  lemma AmortisedAppend(ns: seq<nat>)
    ensures var final := AppendedAll(SpaceAccount(0, 0, 0), ns); MovedLittle(final.len, final.moved)
  {
    RunStaysWellSpent(SpaceAccount(0, 0, 0), ns);
    WellSpentIsLittle(AppendedAll(SpaceAccount(0, 0, 0), ns));
  }

  /** Bytes [lo, hi) are what remains of s once cset, terminator included, is trimmed from both ends. */
  ghost predicate TrimmedTo(s: seq<byte>, cset: CString, lo: int, hi: int) {
    && 0 <= lo <= hi <= |s|
    && (forall k :: 0 <= k < lo ==> s[k] in cset)
    && (forall k :: hi <= k < |s| ==> s[k] in cset)
    && (lo < hi ==> s[lo] !in cset && s[hi - 1] !in cset)
  }

  /** `strchr(cset, c)` finds c; the terminator counts as part of the string. */
  predicate Trims(cset: CString, c: byte) {
    c in cset
  }

  function Concat(ts: seq<seq<byte>>): seq<byte> {
    if ts == [] then [] else ts[0] + Concat(ts[1..])
  }

  function Lengths(ts: seq<seq<byte>>): seq<nat> {
    if ts == [] then [] else [|ts[0]|] + Lengths(ts[1..])
  }

  function Zeros(n: nat): (z: seq<byte>)
    ensures |z| == n && forall k :: 0 <= k < n ==> z[k] == NUL
  {
    seq(n, _ => NUL)
  }

  class Sds {
    var kind: Kind
    var used: nat       // the header's len
    var capacity: nat   // the header's alloc; type 5 has no such field
    var buf: array<byte>
    ghost var moved: nat  // content bytes copied so far to a new allocation

    function Alloc(): nat
      reads this
    {
      if kind.T5? then used else capacity
    }

    ghost function Account(): SpaceAccount
      requires Shape()
      reads this
    {
      SpaceAccount(used, Alloc(), moved)
    }

    /** Everything but the terminator: the state in the middle of an append. */
    ghost predicate Shape()
      reads this
    {
      && used <= Alloc() < Limit(kind)
      && Alloc() < buf.Length
      && (kind.T5? || buf.Length == capacity + 1)
      && Sizeable(used)
    }

    ghost predicate Valid()
      reads this, buf
    {
      Shape() && buf[used] == NUL
    }

    function Avail(): nat
      requires Shape()
      reads this
    {
      Alloc() - used
    }

    function Contents(): (s: seq<byte>)
      requires Shape()
      reads this, buf
      ensures |s| == used
    {
      buf[..used]
    }

    /** What the pointer reads as where C code expects a string. */
    function AsCString(): (s: CString)
      requires Valid() && NulFree(Contents())
      reads this, buf
      ensures Text(s) == Contents()
    {
      assert buf[..used + 1][..used] == buf[..used];
      buf[..used + 1]
    }

    /** `sdsnewlen`; an empty string gets an 8-bit header because it is about to grow. */
    constructor (init: seq<byte>)
      requires Sizeable(|init|)
      ensures Valid() && fresh(buf)
      ensures Contents() == init && Avail() == 0 && moved == 0
      ensures kind == if init == [] then T8 else ReqType(|init|)
    {
      var k := ReqType(|init|);
      kind := if k.T5? && |init| == 0 then T8 else k;
      used := |init|;
      capacity := |init|;
      var data := new byte[|init| + 1];
      buf := data;
      moved := 0;
      new;
      MemCopy(data, 0, init);
      data[|init|] := NUL;
    }

    /** `sdssetlen`: a length the header can hold is stored, a longer one is not. */
    method SetLen(n: nat)
      modifies `used
      ensures used == n <==> n < Limit(kind)
      ensures used < Limit(kind) && Stored(kind, n - used) == 0
    {
      StoredIsCongruent(kind, n);
      used := Stored(kind, n);
    }

    /** `sdssetalloc`: the allocation reads back when the header can hold it; type 5 always reads its length. */
    method SetAlloc(n: nat)
      modifies `capacity
      ensures kind.T5? ==> capacity == old(capacity) && Alloc() == used
      ensures !kind.T5? ==> (Alloc() == n <==> n < Limit(kind))
      ensures !kind.T5? ==> Alloc() < Limit(kind) && Stored(kind, n - Alloc()) == 0
    {
      StoredIsCongruent(kind, n);
      if !kind.T5? {
        capacity := Stored(kind, n);
      }
    }

    /** A new allocation of n content bytes with header k; content and terminator are copied. */
    method Reallocate(n: nat, k: Kind)
      requires Shape() && used <= n < Limit(k) && (k.T5? ==> n == used)
      modifies this
      ensures Shape() && used == old(used) && fresh(buf) && buf.Length == n + 1
      ensures forall i :: 0 <= i <= used ==> buf[i] == old(buf[i])
      ensures Alloc() == n && kind == k && moved == old(moved) + used
    {
      var data := new byte[n + 1];
      MemMove(data, 0, buf, 0, used + 1);
      moved := moved + used;
      if kind != k {
        var len := used;
        kind := k;
        SetLen(len);
      }
      SetAlloc(n);
      buf := data;
    }

    /** `sdsMakeRoomFor`: the terminator, if there is one, moves along with the content. */
    method MakeRoomFor(addlen: nat)
      requires Shape() && Sizeable(used + addlen)
      modifies this
      ensures Shape() && used == old(used)
      ensures Contents() == old(Contents()) && buf[used] == old(buf[used])
      ensures Avail() >= addlen
      ensures buf == old(buf) || fresh(buf)
      ensures Alloc() == if old(Avail()) >= addlen then old(Alloc()) else Prealloc(used + addlen)
      ensures old(Avail()) < addlen ==> Alloc() == used + addlen + if used + addlen < 1048576 then used + addlen else 1048576
      ensures moved == if old(Avail()) >= addlen then old(moved) else old(moved) + used
      ensures old(Avail()) >= addlen ==> kind == old(kind) && buf == old(buf) && capacity == old(capacity)
      ensures old(Avail()) < addlen ==> kind == if Alloc() < 32 then T8 else ReqType(Alloc())
    {
      if Avail() >= addlen {
        return;
      }
      var newlen := Prealloc(used + addlen);
      var t := ReqType(newlen);
      if t.T5? {
        t := T8;
      }
      Reallocate(newlen, t);
    }

    /** `sdsRemoveFreeSpace`: a header wider than 8 bits is kept when the content still needs one. */
    method RemoveFreeSpace()
      requires Valid()
      modifies this
      ensures Valid() && Contents() == old(Contents())
      ensures Avail() == 0
      ensures Limit(kind) <= Limit(old(kind))
      ensures kind == if old(Avail()) == 0 || used >= 256 then old(kind) else if used < 32 then T5 else T8
      ensures old(kind) != T5 ==> buf.Length == used + 1
      ensures buf == old(buf) || fresh(buf)
      ensures moved == if old(Avail()) == 0 then old(moved) else old(moved) + used
    {
      if Avail() == 0 {
        return;
      }
      var t := ReqType(used);
      Reallocate(used, if kind == t || !(t.T5? || t.T8?) then kind else t);
    }

    /** `memcpy` behind the content and `sdssetlen`. */
    method CopyBehind(t: seq<byte>)
      requires Shape() && |t| <= Avail() && Sizeable(used + |t|)
      modifies this`used, buf
      ensures Shape() && used == old(used) + |t| && Alloc() == old(Alloc())
      ensures Contents() == old(Contents()) + t
    {
      var curlen := used;
      MemCopy(buf, curlen, t);
      SetLen(curlen + |t|);
      ghost var joined := old(Contents()) + t;
      forall k | 0 <= k < |joined| ensures buf[k] == joined[k] {
      }
    }

    /**
    `sdsIncrLen`, under the conditions it asserts; a type 5 string must also have the byte that the
    terminator is written to, which its assertion does not look at.
    */
    method IncrLen(incr: int)
      requires Shape() && -0x8000_0000_0000_0000 <= incr < 0x8000_0000_0000_0000
      requires incr < 0 ==> -Change(kind, incr) <= used
      requires incr >= 0 && !kind.T5? ==> Change(kind, incr) <= Avail()
      requires incr >= 0 && kind.T5? ==> incr > 0 && used + incr < 32
      requires kind.T5? ==> 0 <= used + incr < buf.Length
      requires Sizeable(used + Change(kind, incr))
      modifies this, buf
      ensures Valid() && buf == old(buf) && kind == old(kind) && moved == old(moved)
      ensures Alloc() == if kind.T5? then used else old(Alloc())
      ensures Contents() == old(buf[..used + Change(kind, incr)])
    {
      StoredChange(kind, used, incr);
      used := Stored(kind, used + incr);
      buf[used] := NUL;
    }

    /** `sdsgrowzero`. */
    method GrowZero(len: nat)
      requires Valid() && Sizeable(len)
      modifies this, buf
      ensures Valid() && (buf == old(buf) || fresh(buf))
      ensures len <= old(used) ==> Contents() == old(Contents())
      ensures len > old(used) ==> Contents() == old(Contents()) + Zeros(len - old(used))
      ensures Account() == if len <= old(used) then old(Account()) else Appended(old(Account()), len - old(used))
    {
      var curlen := used;
      if len <= curlen {
        return;
      }
      MakeRoomFor(len - curlen);
      ghost var content := Contents();
      MemSet(buf, curlen, NUL, len - curlen + 1);
      SetLen(len);
      ghost var grown := content + Zeros(len - curlen);
      forall k | 0 <= k < len ensures buf[k] == grown[k] {
        assert k < curlen ==> content[k] == buf[k];
      }
      assert Contents() == grown;
    }

    /** `sdscatlen`. */
    method CatLen(t: seq<byte>)
      requires Valid() && Sizeable(used + |t|)
      modifies this, buf
      ensures Valid() && (buf == old(buf) || fresh(buf))
      ensures Contents() == old(Contents()) + t
      ensures Account() == Appended(old(Account()), |t|)
    {
      MakeRoomFor(|t|);
      CopyBehind(t);
      buf[used] := NUL;
      assert Contents() == old(Contents()) + t;
    }

    /** Any number of appends. */
    method CatAll(ts: seq<seq<byte>>)
      requires Valid() && Sizeable(used + |Concat(ts)|)
      modifies this, buf
      ensures Valid() && (buf == old(buf) || fresh(buf))
      ensures Contents() == old(Contents()) + Concat(ts)
      ensures Account() == AppendedAll(old(Account()), Lengths(ts))
      ensures WellSpent(old(Account())) ==> MovedLittle(used, moved)
    {
      ghost var whole, account := Contents() + Concat(ts), Account();
      assert ts[0..] == ts;
      for i := 0 to |ts|
        invariant Valid() && (buf == old(buf) || fresh(buf))
        invariant Contents() + Concat(ts[i..]) == whole
        invariant AppendedAll(Account(), Lengths(ts[i..])) == AppendedAll(account, Lengths(ts))
      {
        ghost var done := Contents();
        assert ts[i..][1..] == ts[i + 1..];
        CatLen(ts[i]);
        Assoc(done, ts[i], Concat(ts[i + 1..]));
      }
      if WellSpent(account) {
        RunStaysWellSpent(account, Lengths(ts));
        WellSpentIsLittle(Account());
      }
    }

    /** `sdscpylen`. */
    method CpyLen(t: seq<byte>)
      requires Valid() && Sizeable(|t|)
      modifies this, buf
      ensures Valid() && (buf == old(buf) || fresh(buf))
      ensures Contents() == t
      ensures moved == if old(Alloc()) < |t| then old(moved) + old(used) else old(moved)
    {
      if Alloc() < |t| {
        MakeRoomFor(|t| - used);
      }
      MemCopy(buf, 0, t);
      buf[|t|] := NUL;
      SetLen(|t|);
    }

    /** The two scans of `sdstrim`. */
    method TrimBounds(cset: CString) returns (sp: nat, len: nat)
      requires Valid()
      ensures sp + len <= used && TrimmedTo(Contents(), cset, sp, sp + len)
    {
      var first, end := 0, used - 1;
      var ep := end;
      while first <= end && Trims(cset, buf[first])
        invariant 0 <= first <= end + 1
        invariant forall k :: 0 <= k < first ==> Trims(cset, buf[k])
      {
        first := first + 1;
      }
      while ep > first && Trims(cset, buf[ep])
        invariant first <= ep <= end || ep == end == first - 1
        invariant forall k :: ep < k < used ==> Trims(cset, buf[k])
      {
        ep := ep - 1;
      }
      sp, len := first, ep - first + 1;
    }

    /** The in-place move of `sdstrim`. */
    method KeepMiddle(sp: nat, len: nat)
      requires Valid() && sp + len <= used
      modifies this, buf
      ensures Valid() && buf == old(buf) && used == len && moved == old(moved)
      ensures forall k :: 0 <= k < len ==> buf[k] == old(buf[sp + k])
    {
      if sp != 0 {
        MemMove(buf, 0, buf, sp, len);
      }
      buf[len] := NUL;
      SetLen(len);
    }

    /** `sdstrim`: the kept middle moves to the front of the same buffer. */
    method Trim(cset: CString)
      requires Valid()
      modifies this, buf
      ensures Valid() && buf == old(buf) && moved == old(moved)
      ensures exists lo, hi :: TrimmedTo(old(Contents()), cset, lo, hi) && Contents() == old(Contents())[lo..hi]
    {
      ghost var s := Contents();
      var sp, len := TrimBounds(cset);
      KeepMiddle(sp, len);
      forall k | 0 <= k < len ensures buf[k] == s[sp + k] {
        assert s[sp + k] == old(buf[sp + k]);
      }
      assert Contents() == s[sp..sp + len];
    }
  }

  /** The trimmed middle is unique, so `Sds.Trim` leaves exactly one possible content. */
  lemma TrimIsUnique(s: seq<byte>, cset: CString, lo: int, hi: int, lo': int, hi': int)
    requires TrimmedTo(s, cset, lo, hi) && TrimmedTo(s, cset, lo', hi')
    ensures s[lo..hi] == s[lo'..hi']
  {
    if lo < hi {
      assert lo' <= lo && hi <= hi';
      assert lo <= lo' && hi' <= hi;
    } else if lo' < hi' {
      assert false;
    }
  }
}
