/** The receive stream buffer, seen through its contract only: a bounded FIFO
    of bytes with non-blocking, truncating send and non-blocking receive. The
    contents are the bytes in arrival order, oldest first. */
module RecvBuffer {
  import opened SppTypes

  /** Capacity in bytes (`SPP_RECV_BUFF_SIZE`). */
  const SPP_RECV_BUFF_SIZE: nat := 2048

  /** Room left for further bytes. */
  function Free(buf: seq<byte>): nat {
    if |buf| < SPP_RECV_BUFF_SIZE then SPP_RECV_BUFF_SIZE - |buf| else 0
  }

  /** The occupancy bound the buffer keeps. */
  predicate Bounded(buf: seq<byte>) {
    |buf| <= SPP_RECV_BUFF_SIZE
  }

  datatype Pushed = Pushed(buf: seq<byte>, accepted: nat)

  /** `out` is `buf` followed by the first `n` bytes of `data`. */
  predicate AppendsPrefix(buf: seq<byte>, data: seq<byte>, out: seq<byte>, n: nat) {
    n <= |data| && out == buf + data[..n]
  }

  /** Non-blocking send of `data` (zero wait): as many leading bytes as fit are
      appended after the current contents, the rest is dropped, and the
      number accepted is returned. */
  function Push(buf: seq<byte>, data: seq<byte>): (r: Pushed)
    ensures AppendsPrefix(buf, data, r.buf, r.accepted)
    ensures Bounded(buf) ==> Bounded(r.buf)
    ensures r.accepted < |data| ==> |r.buf| >= SPP_RECV_BUFF_SIZE
    ensures |buf| + |data| <= SPP_RECV_BUFF_SIZE ==> r.accepted == |data|
  {
    var n := if |data| <= Free(buf) then |data| else Free(buf);
    Pushed(buf + data[..n], n)
  }

  datatype Popped = Popped(data: seq<byte>, rest: seq<byte>)

  /** Non-blocking receive of at most `maxLen` bytes (zero wait): the oldest
      bytes are handed out and removed; an empty buffer yields nothing. */
  function Pop(buf: seq<byte>, maxLen: nat): (r: Popped)
    ensures r.data + r.rest == buf
    ensures |r.data| <= maxLen
    ensures |r.data| < maxLen ==> r.rest == []
  {
    var n := if maxLen <= |buf| then maxLen else |buf|;
    Popped(buf[..n], buf[n..])
  }

  /** Pushing bytes that fit and then draining the buffer hands back the old
      contents first and then exactly the pushed bytes, in order. */
  lemma FifoOrder(buf: seq<byte>, data: seq<byte>)
    requires |buf| + |data| <= SPP_RECV_BUFF_SIZE
    ensures var first := Pop(Push(buf, data).buf, |buf|);
            && first.data == buf
            && Pop(first.rest, |data|) == Popped(data, [])
  {
    var pushed := Push(buf, data).buf;
    assert pushed == buf + data;
    var first := Pop(pushed, |buf|);
    assert first.data + first.rest == buf + data;
    assert first.data == pushed[..|buf|];
    assert first.rest == data;
  }

  /** Round trip through an empty buffer: bytes that fit come back unchanged. */
  lemma PushPopRoundTrip(data: seq<byte>)
    requires |data| <= SPP_RECV_BUFF_SIZE
    ensures Pop(Push([], data).buf, |data|) == Popped(data, [])
  {
    FifoOrder([], data);
  }

  /** Two consecutive receives hand out the same bytes as one receive of the
      combined length: draining in pieces loses and reorders nothing. */
  lemma PopTwice(buf: seq<byte>, a: nat, b: nat)
    ensures var p1 := Pop(buf, a);
            var p2 := Pop(p1.rest, b);
            p1.data + p2.data == Pop(buf, a + b).data && p2.rest == Pop(buf, a + b).rest
  {
    var p1 := Pop(buf, a);
    var p2 := Pop(p1.rest, b);
    var p := Pop(buf, a + b);
    if a + b <= |buf| {
      assert p1.rest == buf[a..];
      assert p1.data + p2.data == buf[..a] + buf[a..a + b];
      assert buf[..a] + buf[a..a + b] == buf[..a + b];
    } else {
      assert p.data == buf;
    }
  }

  /** Once the buffer is full every further byte is dropped and the contents
      are untouched; the bytes already stored are never displaced. */
  lemma OverflowKeepsOldContents(buf: seq<byte>, data: seq<byte>)
    requires |buf| == SPP_RECV_BUFF_SIZE
    ensures Push(buf, data) == Pushed(buf, 0)
  {
  }
}
