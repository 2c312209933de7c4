/** The file behind a descriptor: `read` delivers it in chunks of a size nobody controls. */
module ByteSource {
  import opened Bytes

  class Source {
    var remaining: seq<byte>
    ghost var failures: nat  // reads that have failed so far

    constructor (bytes: seq<byte>)
      ensures remaining == bytes && failures == 0
    {
      remaining := bytes;
      failures := 0;
    }

    /**
    `read`: -1 is a failure that consumes nothing; otherwise some nonempty prefix of the remaining
    bytes lands at the given place, and 0 means that none remain.
    */
    method Read(buf: array<byte>, at: nat, limit: nat) returns (n: int)
      requires at + limit <= buf.Length && limit > 0
      modifies this, buf
      ensures n == -1 ==> remaining == old(remaining) && failures == old(failures) + 1
      ensures n != -1 ==> failures == old(failures)
      ensures n != -1 ==> 0 <= n <= limit && n <= |old(remaining)| && (n == 0 <==> old(remaining) == [])
      ensures n != -1 ==> remaining == old(remaining)[n..]
      ensures forall k :: at <= k < at + n ==> buf[k] == old(remaining)[k - at]
      ensures forall k :: 0 <= k < buf.Length && !(at <= k < at + n) ==> buf[k] == old(buf[k])
    {
      if * {
        failures := failures + 1;
        return -1;
      }
      if remaining == [] {
        return 0;
      }
      n :| 0 < n <= limit && n <= |remaining|;
      MemCopy(buf, at, remaining[..n]);
      remaining := remaining[n..];
    }
  }
}
