/** A growable byte queue over one allocation: data[offset..offset + length] is unread. */
module ReadBuffer {
  import opened Bytes

  const SIZE_MAX: nat := SIZE_LIMIT - 1

  datatype RbResult = Ok | AllocationFailed | Overflow | OutOfRange

  function Pow2(k: nat): (p: nat)
    ensures p > 0
  {
    if k == 0 then 1 else 2 * Pow2(k - 1)
  }

  /** The least power of two that is at least value. */
  ghost predicate IsLeastPow2(p: nat, value: nat) {
    && (exists k: nat :: p == Pow2(k))
    && value <= p
    && (forall k: nat :: value <= Pow2(k) ==> p <= Pow2(k))
  }

  /** Some power of two in `size_t` is at least value. */
  ghost predicate SomePow2Fits(value: nat) {
    exists k: nat :: value <= Pow2(k) <= SIZE_MAX
  }

  lemma {:induction false} Pow2Monotone(a: nat, b: nat)
    requires a <= b
    ensures Pow2(a) <= Pow2(b)
  {
    if a < b {
      Pow2Monotone(a, b - 1);
    }
  }

  lemma Pow2Of63()
    ensures Pow2(63) == 0x8000_0000_0000_0000 && SIZE_MAX == 2 * Pow2(63) - 1
  {
    assert Pow2(9) == 0x200;
    assert Pow2(18) == 0x4_0000;
    assert Pow2(27) == 0x800_0000;
    assert Pow2(36) == 0x10_0000_0000;
    assert Pow2(45) == 0x2000_0000_0000;
    assert Pow2(54) == 0x40_0000_0000_0000;
  }

  /** The largest power of two in `size_t` is 2^63. */
  lemma LargestPow2(value: nat)
    ensures SomePow2Fits(value) <==> value <= 0x8000_0000_0000_0000
  {
    Pow2Of63();
    if SomePow2Fits(value) {
      var k: nat :| value <= Pow2(k) <= SIZE_MAX;
      if k > 63 {
        Pow2Monotone(64, k);
        assert false;
      }
      Pow2Monotone(k, 63);
    }
  }

  /** `next_power_of_two`: fails exactly when no power of two in `size_t` is large enough. */
  method NextPowerOfTwo(value: nat) returns (ok: bool, result: nat)
    requires value <= SIZE_MAX
    ensures ok <==> value == 0 || SomePow2Fits(value)
    ensures ok ==> result <= SIZE_MAX
    ensures ok && value == 0 ==> result == 0
    ensures ok && value > 0 ==> IsLeastPow2(result, value) && result < 2 * value
  {
    if value == 0 {
      return true, 0;
    }
    assert Pow2(0) == 1;
    var capacity := 1;
    ghost var k: nat := 0;
    while capacity < value
      invariant capacity == Pow2(k) && capacity <= SIZE_MAX
      invariant capacity < 2 * value
      invariant forall j: nat :: value <= Pow2(j) ==> k <= j
      decreases value - capacity
    {
      forall j: nat | value <= Pow2(j) ensures k + 1 <= j {
        if j <= k {
          Pow2Monotone(j, k);
        }
      }
      if capacity > SIZE_MAX / 2 {
        forall j: nat | value <= Pow2(j) ensures Pow2(j) > SIZE_MAX {
          Pow2Monotone(k + 1, j);
        }
        return false, 0;
      }
      capacity := capacity * 2;
      k := k + 1;
    }
    forall j: nat | value <= Pow2(j) ensures capacity <= Pow2(j) {
      Pow2Monotone(k, j);
    }
    return true, capacity;
  }

  class Buffer {
    var data: array<byte>   // an empty array stands for NULL
    var capacity: nat
    var length: nat
    var offset: nat
    ghost var mallocFailures: nat  // calls of malloc that have failed so far

    ghost predicate Valid()
      reads this
    {
      offset + length <= capacity == data.Length <= SIZE_MAX
    }

    /** The unread bytes. */
    function View(): (v: seq<byte>)
      requires Valid()
      reads this, data
      ensures |v| == length
    {
      data[offset..offset + length]
    }

    /** `readbuffer__init`. */
    constructor (initCapacity: nat)
      requires initCapacity <= SIZE_MAX
      ensures Valid() && fresh(data) && View() == [] && capacity == initCapacity && mallocFailures == 0
    {
      mallocFailures := 0;
      data := new byte[initCapacity];
      capacity, length, offset := initCapacity, 0, 0;
    }

    /** `readbuffer__get_write_cursor_limit`. */
    function WriteLimit(): nat
      requires Valid()
      reads this
    {
      capacity - (offset + length)
    }

    /** The unread bytes move to the front. */
    method Compact()
      requires Valid()
      modifies `offset, data
      ensures Valid() && offset == 0 && View() == old(View())
    {
      MemMove(data, 0, data, offset, length);
      offset := 0;
    }

    /** `readbuffer__assure`: keep, compact or grow. `malloc` may fail. */
    method Assure(requested: nat) returns (r: RbResult)
      requires Valid() && requested <= SIZE_MAX
      modifies this, data
      ensures Valid() && View() == old(View()) && length == old(length)
      ensures data == old(data) || fresh(data)
      ensures r == Ok ==> requested <= WriteLimit()
      ensures r != Ok ==> unchanged(`data, `capacity, `offset) && data[..] == old(data[..])
      ensures r == AllocationFailed <==> mallocFailures != old(mallocFailures)
      ensures r == AllocationFailed ==> mallocFailures == old(mallocFailures) + 1
      ensures r == Overflow <==> requested > old(capacity) - length && !SomePow2Fits(length + requested)
      ensures r == AllocationFailed ==> requested > old(capacity) - length
      ensures r != OutOfRange
      ensures r == Ok && requested <= old(WriteLimit()) ==> unchanged(this) && data[..] == old(data[..])
      ensures requested <= old(capacity) - length ==> capacity == old(capacity) && data == old(data)
      ensures r == Ok && requested > old(capacity) - length ==>
        IsLeastPow2(capacity, length + requested) && capacity < 2 * (length + requested)
    {
      var trailing := capacity - (offset + length);
      if requested <= trailing {
        return Ok;
      }
      var available := capacity - length;
      if requested <= available {
        Compact();
        return Ok;
      }
      r := Grow(requested);
    }

    /** The growing branch of `readbuffer__assure`. */
    method Grow(requested: nat) returns (r: RbResult)
      requires Valid() && requested <= SIZE_MAX && requested > capacity - length
      modifies this
      ensures Valid() && View() == old(View()) && length == old(length)
      ensures r == Ok ==> fresh(data) && offset == 0
      ensures r == Ok ==> IsLeastPow2(capacity, length + requested) && capacity < 2 * (length + requested)
      ensures r != Ok ==> unchanged(`data, `capacity, `offset)
      ensures r == AllocationFailed <==> mallocFailures != old(mallocFailures)
      ensures r == AllocationFailed ==> mallocFailures == old(mallocFailures) + 1
      ensures r == Overflow <==> !SomePow2Fits(length + requested)
      ensures r != OutOfRange
    {
      if requested > SIZE_MAX - length {
        return Overflow;
      }
      var ok, newCapacity := NextPowerOfTwo(length + requested);
      if !ok {
        return Overflow;
      }
      if * {
        mallocFailures := mallocFailures + 1;
        return AllocationFailed;
      }
      var newData := new byte[newCapacity];
      MemMove(newData, 0, data, offset, length);
      data, capacity, offset := newData, newCapacity, 0;
      return Ok;
    }

    /** `readbuffer__commit_write`. */
    method CommitWrite(n: nat) returns (r: RbResult)
      requires Valid()
      modifies `length
      ensures Valid()
      ensures r == if n <= old(WriteLimit()) then Ok else OutOfRange
      ensures r == Ok ==> View() == old(View()) + old(data[offset + length..offset + length + n])
      ensures r != Ok ==> length == old(length)
    {
      if n > WriteLimit() {
        return OutOfRange;
      }
      length := length + n;
      return Ok;
    }

    /** `readbuffer__consume`: the consumed bytes stay where they were, so a view taken before is intact. */
    method Consume(n: nat) returns (r: RbResult)
      requires Valid()
      modifies `length, `offset
      ensures Valid()
      ensures r == if n <= old(length) then Ok else OutOfRange
      ensures r == Ok ==> View() == old(View())[n..]
      ensures r == Ok ==> WriteLimit() == if n == old(length) then capacity else old(WriteLimit())
      ensures r != Ok ==> length == old(length) && offset == old(offset)
    {
      if n > length {
        return OutOfRange;
      }
      offset := offset + n;
      length := length - n;
      if length == 0 {
        offset := 0;
      }
      return Ok;
    }
  }
}
