/**
 State helpers of the TCP reactor (src/net/TcpState.h): the fixed ring buffer of one
 forwarding direction, the idle deadline, and the table of endpoint tokens that outlives fds.
 */
module TcpState {
  import opened Common

  const BUFFER_LIMIT: nat := 65536
  const LOW_WATER: nat := 32768

  // Position `i` of a ring of `size` cells, for a position at most one lap ahead.
  function Wrap(i: nat, size: nat): (w: nat)
    requires i < 2 * size
    ensures w < size
  {
    if i < size then i else i - size
  }

  // The `n` bytes that a ring over `bytes` holds from `offset` on, in read order.
  ghost function RingSlice(bytes: seq<Byte>, offset: nat, n: nat): (s: seq<Byte>)
    requires offset < |bytes| && n <= |bytes|
  {
    seq(n, i requires 0 <= i < n => bytes[Wrap(offset + i, |bytes|)])
  }

  // Reading `k` bytes leaves exactly the remaining bytes, wherever the ring wraps.
  lemma RingConsume(bytes: seq<Byte>, offset: nat, n: nat, k: nat)
    requires offset < |bytes| && k <= n <= |bytes|
    ensures RingSlice(bytes, Wrap(offset + k, |bytes|), n - k) == RingSlice(bytes, offset, n)[k..]
  {
    var rest := RingSlice(bytes, Wrap(offset + k, |bytes|), n - k);
    forall i | 0 <= i < n - k ensures rest[i] == RingSlice(bytes, offset, n)[k..][i] {
      assert Wrap(Wrap(offset + k, |bytes|) + i, |bytes|) == Wrap(offset + (k + i), |bytes|);
    }
  }

  // The contiguous span at the read position holds the first queued bytes.
  lemma RingFront(bytes: seq<Byte>, offset: nat, n: nat, k: nat)
    requires offset < |bytes| && k <= n <= |bytes| && offset + k <= |bytes|
    ensures bytes[offset..offset + k] == RingSlice(bytes, offset, n)[..k]
  {
    forall i | 0 <= i < k ensures bytes[offset..offset + k][i] == RingSlice(bytes, offset, n)[i] {
      assert Wrap(offset + i, |bytes|) == offset + i;
    }
  }

  // Bytes written into the contiguous free span directly behind the contents extend them.
  lemma RingAppend(before: seq<Byte>, after: seq<Byte>, offset: nat, n: nat, data: seq<Byte>)
    requires |before| == |after| && offset < |before| && n + |data| <= |before|
    requires offset + n < 2 * |before|
    requires var w := Wrap(offset + n, |before|);
             w + |data| <= |before| && after == before[..w] + data + before[w + |data|..]
    ensures RingSlice(after, offset, n + |data|) == RingSlice(before, offset, n) + data
  {
    var size, w := |before|, Wrap(offset + n, |before|);
    forall i | 0 <= i < n + |data|
      ensures RingSlice(after, offset, n + |data|)[i] == (RingSlice(before, offset, n) + data)[i]
    {
      if i < n {
        assert !(w <= Wrap(offset + i, size) < w + |data|);
      } else {
        assert Wrap(offset + i, size) == w + (i - n);
      }
    }
  }

  /** Fixed-capacity ring queue; size and room are totals, I/O uses contiguous spans only. */
  class TcpPendingBuffer {
    const bytes: array<Byte>
    var readOffset: nat
    var size: nat

    ghost predicate Valid()
      reads this
    {
      bytes.Length == BUFFER_LIMIT && readOffset < BUFFER_LIMIT && size <= BUFFER_LIMIT
    }

    // The queued bytes in the order in which they will be sent.
    ghost function Contents(): (s: seq<Byte>)
      requires Valid()
      reads this, bytes
      ensures |s| == size
    {
      RingSlice(bytes[..], readOffset, size)
    }

    constructor ()
      ensures Valid() && fresh(bytes) && size == 0 && Contents() == []
    {
      bytes := new Byte[BUFFER_LIMIT](_ => 0);
      readOffset, size := 0, 0;
    }

    function Room(): nat
      requires Valid()
      reads this
    {
      BUFFER_LIMIT - size
    }

    function WriteOffset(): (w: nat)
      requires Valid()
      reads this
      ensures w < BUFFER_LIMIT
    {
      (readOffset + size) % BUFFER_LIMIT
    }

    // The contiguous span a send may use. It is empty only when the queue is empty.
    function ReadableBytes(): (n: nat)
      requires Valid()
      reads this
      ensures n <= size && readOffset + n <= BUFFER_LIMIT
      ensures n == 0 <==> size == 0
      ensures n < size ==> readOffset + n == BUFFER_LIMIT
    {
      Min(size, BUFFER_LIMIT - readOffset)
    }

    // The contiguous span a recv may fill. It is empty only when the queue is full.
    function WritableBytes(): (n: nat)
      requires Valid()
      reads this
      ensures size + n <= BUFFER_LIMIT && WriteOffset() + n <= BUFFER_LIMIT
      ensures n == 0 <==> size == BUFFER_LIMIT
      ensures n < Room() ==> WriteOffset() + n == BUFFER_LIMIT
    {
      Min(Room(), BUFFER_LIMIT - WriteOffset())
    }

    // The queue before the kernel wrote into the free span, when `before` was the array.
    ghost function QueuedIn(before: seq<Byte>): seq<Byte>
      requires Valid() && |before| == BUFFER_LIMIT
      reads this
    {
      RingSlice(before, readOffset, size)
    }

    // Accounts for bytes that the kernel wrote at WriteOffset(), the array having been `before`
    // until then; false is the logic_error.
    method CommitWrittenBytes(writtenBytes: nat, ghost before: seq<Byte>) returns (ok: bool)
      requires Valid() && |before| == BUFFER_LIMIT
      requires writtenBytes <= WritableBytes() ==>
                 var w := WriteOffset();
                 bytes[..] == before[..w] + bytes[w..w + writtenBytes] + before[w + writtenBytes..]
      modifies this`size
      ensures Valid()
      ensures ok <==> writtenBytes <= old(WritableBytes())
      ensures size == if ok then old(size) + writtenBytes else old(size)
      ensures ok ==> var w := old(WriteOffset()); Contents() == old(QueuedIn(before)) + bytes[w..w + writtenBytes]
    {
      hide RingSlice;
      if writtenBytes > WritableBytes() {
        return false;
      }
      var w := WriteOffset();
      RingAppend(before, bytes[..], readOffset, size, bytes[w..w + writtenBytes]);
      size := size + writtenBytes;
      ok := true;
    }

    // Drops bytes that were sent; false is the logic_error for more bytes than queued.
    method ConsumeReadableBytes(consumedBytes: nat) returns (ok: bool)
      requires Valid()
      modifies this
      ensures Valid()
      ensures ok <==> consumedBytes <= old(size)
      ensures Contents() == if ok then old(Contents())[consumedBytes..] else old(Contents())
      ensures ok && size == 0 ==> readOffset == 0
    {
      hide RingSlice;
      if consumedBytes > size {
        return false;
      }
      RingConsume(bytes[..], readOffset, size, consumedBytes);
      readOffset := (readOffset + consumedBytes) % BUFFER_LIMIT;
      size := size - consumedBytes;
      if size == 0 {
        readOffset := 0;
      }
      ok := true;
    }
  }

  datatype Target = Target(sessionId: nat, side: nat)

  /** Monotone tokens, decoupled from fds: an event of an old batch cannot hit a new owner. */
  class EndpointTokens {
    var nextToken: nat
    var entries: map<nat, Target>

    // Token 0 is never issued, 1 is the listener and 2 the signalfd.
    ghost predicate Valid()
      reads this
    {
      3 <= nextToken <= U64_MAX && forall t :: t in entries ==> 3 <= t < nextToken
    }

    constructor ()
      ensures Valid() && entries == map[]
    {
      nextToken, entries := 3, map[];
    }

    // None is the overflow_error of an exhausted token space.
    method RegisterEndpoint(sessionId: nat, side: nat) returns (token: nat, ok: bool)
      requires Valid()
      modifies this
      ensures Valid()
      ensures ok <==> old(nextToken) < U64_MAX
      ensures !ok ==> entries == old(entries) && nextToken == old(nextToken)
      ensures ok ==> token == old(nextToken) && token !in old(entries) && nextToken == token + 1
                     && entries == old(entries)[token := Target(sessionId, side)]
    {
      if nextToken == U64_MAX {
        return 0, false;
      }
      token, ok := nextToken, true;
      nextToken := nextToken + 1;
      entries := entries[token := Target(sessionId, side)];
    }

    method UnregisterEndpoint(token: nat)
      requires Valid()
      modifies this`entries
      ensures Valid() && entries == old(entries) - {token}
    {
      entries := entries - {token};
    }
  }
}
