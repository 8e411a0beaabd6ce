/** Properties of the session controller that relate several steps: the
    invariants every event keeps, the send-target policy over time, the slot
    occupancy count and the receive round trip. */
module SessionProperties {
  import opened SppTypes
  import opened SlotTable
  import opened RecvBuffer
  import opened SppSession

  /** The receive buffer never holds more than its capacity. */
  predicate BufferBounded(s: Session) {
    s.recv.Some? ==> Bounded(s.recv.value)
  }

  /** A send target, when there is one, is the handle of an open connection. */
  predicate TargetTracked(s: Session) {
    s.sendTarget != NO_HANDLE ==> IsOpen(s.slots, s.sendTarget)
  }

  predicate NoCloseAll(events: seq<Event>) {
    forall k :: 0 <= k < |events| ==> !events[k].CloseAllCall?
  }

  lemma InitialIsSound()
    ensures BufferBounded(INITIAL) && TargetTracked(INITIAL)
    ensures InUseCount(INITIAL.slots) == 0
  {
    NoneInUseCountsZero(INITIAL.slots);
  }

  // ---------------------------------------------------------------------------
  // Invariants

  /** Every event, close-all included, keeps the buffer within its capacity. */
  lemma StepKeepsBufferBounded(s: Session, e: Event)
    requires BufferBounded(s)
    ensures BufferBounded(Step(s, e))
  {
    if e.DataEvent? && s.recv.Some? {
      var pushed := Push(s.recv.value, e.data);
      assert Step(s, e).recv == Some(pushed.buf);
    }
  }

  /** Open keeps the send target tied to an open connection. */
  lemma OpenKeepsTargetTracked(s: Session, h: u32, bda: Bda)
    requires TargetTracked(s)
    ensures TargetTracked(OnOpen(s, h, bda))
  {
    var r := OnOpen(s, h, bda);
    ScanFreeFindsLowest(s.slots);
    if !Full(s.slots) {
      var i := ScanFree(s.slots, 0);
      if s.sendTarget == NO_HANDLE {
        assert Holds(r.slots, i, h);
      } else {
        var j :| 0 <= j < |s.slots| && Holds(s.slots, j, s.sendTarget);
        assert j != i;
        assert Holds(r.slots, j, r.sendTarget);
      }
    }
  }

  /** Close keeps the send target tied to an open connection: either the
      target itself closes and is cleared, or its record is not the one freed. */
  lemma CloseKeepsTargetTracked(s: Session, h: u32)
    requires TargetTracked(s)
    ensures TargetTracked(OnClose(s, h))
  {
    var r := OnClose(s, h);
    ScanHandleFindsFirst(s.slots, h);
    if IsOpen(s.slots, h) && r.sendTarget != NO_HANDLE {
      var i := ScanHandle(s.slots, h, 0);
      var j :| 0 <= j < |s.slots| && Holds(s.slots, j, s.sendTarget);
      assert s.slots[i].handle == h != s.sendTarget;
      assert Holds(r.slots, j, r.sendTarget);
    }
  }

  /** Every event except close-all keeps the send target tied to an open
      connection. */
  lemma StepKeepsTargetTracked(s: Session, e: Event)
    requires TargetTracked(s)
    requires !e.CloseAllCall?
    ensures TargetTracked(Step(s, e))
  {
    match e
    case OpenEvent(h, bda) => OpenKeepsTargetTracked(s, h, bda);
    case CloseEvent(h) => CloseKeepsTargetTracked(s, h);
    case _ =>
  }

  /** Along any run without close-all, both invariants hold at every state
      reached. */
  lemma {:induction false} RunKeepsInvariants(s: Session, events: seq<Event>)
    requires BufferBounded(s) && TargetTracked(s)
    requires NoCloseAll(events)
    ensures BufferBounded(Run(s, events)) && TargetTracked(Run(s, events))
    decreases |events|
  {
    if events != [] {
      StepKeepsBufferBounded(s, events[0]);
      StepKeepsTargetTracked(s, events[0]);
      assert NoCloseAll(events[1..]) by {
        forall k | 0 <= k < |events[1..]| ensures !events[1..][k].CloseAllCall? {
          assert events[1..][k] == events[k + 1];
        }
      }
      RunKeepsInvariants(Step(s, events[0]), events[1..]);
    }
  }

  /** The buffer bound holds along every run, close-all included. */
  lemma {:induction false} RunKeepsBufferBounded(s: Session, events: seq<Event>)
    requires BufferBounded(s)
    ensures BufferBounded(Run(s, events))
    decreases |events|
  {
    if events != [] {
      StepKeepsBufferBounded(s, events[0]);
      RunKeepsBufferBounded(Step(s, events[0]), events[1..]);
    }
  }

  /** Close-all frees the target's record but keeps the target, so the target
      then names no open connection; a later close event for it finds no
      record and changes nothing, and writes are still sent to it. */
  lemma CloseAllStrandsTarget(s: Session, data: seq<byte>, status: Status)
    requires s.sendTarget != NO_HANDLE
    ensures var after := CloseAll(s).session;
            && !TargetTracked(after)
            && OnClose(after, s.sendTarget) == after
            && Write(after, data, status).calls == [Send(s.sendTarget, data)]
  {
    var after := CloseAll(s).session;
    assert !IsOpen(after.slots, s.sendTarget) by {
      forall i | 0 <= i < |after.slots| ensures !Holds(after.slots, i, s.sendTarget) {
        assert !after.slots[i].inUse;
      }
    }
  }

  // ---------------------------------------------------------------------------
  // Send-target policy

  /** A set target changes only through a close event for that very handle
      while it is open, and then it becomes none: no other connection's
      close, no open and no teardown moves it. */
  lemma TargetClearedOnlyByOwnClose(s: Session, e: Event)
    requires s.sendTarget != NO_HANDLE
    requires Step(s, e).sendTarget != s.sendTarget
    ensures e == CloseEvent(s.sendTarget)
    ensures IsOpen(s.slots, s.sendTarget)
    ensures Step(s, e).sendTarget == NO_HANDLE
  {
    match e
    case OpenEvent(h, bda) =>
      ScanFreeFindsLowest(s.slots);
    case CloseEvent(h) =>
      ScanHandleFindsFirst(s.slots, h);
    case _ =>
  }

  /** An empty target is filled only by an open event that finds a free
      record, and it is filled with that event's handle (first opened wins). */
  lemma TargetSetOnlyByOpen(s: Session, e: Event)
    requires s.sendTarget == NO_HANDLE
    requires Step(s, e).sendTarget != NO_HANDLE
    ensures e.OpenEvent? && !Full(s.slots)
    ensures Step(s, e).sendTarget == e.handle
  {
    match e
    case OpenEvent(h, bda) =>
      ScanFreeFindsLowest(s.slots);
    case CloseEvent(h) =>
      ScanHandleFindsFirst(s.slots, h);
    case _ =>
  }

  /** A connection with handle 0 takes a record but never becomes the send
      target, since 0 is the "none" value. */
  lemma ZeroHandleNeverTarget(s: Session, bda: Bda)
    ensures OnOpen(s, 0, bda).sendTarget == s.sendTarget
  {
    ScanFreeFindsLowest(s.slots);
  }

  /** While a target is set, further opens never replace it. */
  lemma LaterOpenKeepsTarget(s: Session, h: u32, bda: Bda)
    requires s.sendTarget != NO_HANDLE
    ensures OnOpen(s, h, bda).sendTarget == s.sendTarget
  {
    ScanFreeFindsLowest(s.slots);
  }

  /** The outcome of a write does not depend on the status the stack reports. */
  lemma WriteIgnoresStatus(s: Session, data: seq<byte>, st1: Status, st2: Status)
    ensures Write(s, data, st1) == Write(s, data, st2)
  {
  }

  // ---------------------------------------------------------------------------
  // Occupancy

  /** An open takes exactly one more record unless the table is full, in
      which case the count stays at capacity. */
  lemma OpenCount(s: Session, h: u32, bda: Bda)
    ensures InUseCount(OnOpen(s, h, bda).slots)
         == if Full(s.slots) then InUseCount(s.slots) else InUseCount(s.slots) + 1
  {
    ScanFreeFindsLowest(s.slots);
    if !Full(s.slots) {
      InUseCountUpdate(s.slots, ScanFree(s.slots, 0), Slot(true, bda, h));
    }
  }

  /** A close releases exactly one record when the handle is open, none otherwise. */
  lemma CloseCount(s: Session, h: u32)
    ensures InUseCount(OnClose(s, h).slots)
         == if IsOpen(s.slots, h) then InUseCount(s.slots) - 1 else InUseCount(s.slots)
  {
    ScanHandleFindsFirst(s.slots, h);
    if IsOpen(s.slots, h) {
      var i := ScanHandle(s.slots, h, 0);
      InUseCountUpdate(s.slots, i, s.slots[i].(inUse := false));
    }
  }

  predicate AllOpens(events: seq<Event>) {
    forall k :: 0 <= k < |events| ==> events[k].OpenEvent?
  }

  /** Opens that do not exceed the free capacity all succeed, each taking a
      record of its own. */
  lemma {:induction false} OpensFillTable(s: Session, events: seq<Event>)
    requires AllOpens(events)
    requires InUseCount(s.slots) + |events| <= OPEN_HDR_NUM
    ensures InUseCount(Run(s, events).slots) == InUseCount(s.slots) + |events|
    decreases |events|
  {
    if events != [] {
      var e := events[0];
      FullIffCountIsSize(s.slots);
      OpenCount(s, e.handle, e.bda);
      assert AllOpens(events[1..]) by {
        forall k | 0 <= k < |events[1..]| ensures events[1..][k].OpenEvent? {
          assert events[1..][k] == events[k + 1];
        }
      }
      OpensFillTable(Step(s, e), events[1..]);
    }
  }

  /** With all records in use, an open is rejected and changes neither the
      table nor the send target. */
  lemma OpenAtCapacityRejected(s: Session, h: u32, bda: Bda)
    requires InUseCount(s.slots) == OPEN_HDR_NUM
    ensures OnOpen(s, h, bda) == s
  {
    FullIffCountIsSize(s.slots);
  }

  /** After opens that take the last free records, the next open is rejected. */
  lemma OpenBeyondCapacityRejected(s: Session, events: seq<Event>, h: u32, bda: Bda)
    requires AllOpens(events)
    requires InUseCount(s.slots) + |events| == OPEN_HDR_NUM
    ensures var full := Run(s, events);
            OnOpen(full, h, bda) == full
  {
    OpensFillTable(s, events);
    OpenAtCapacityRejected(Run(s, events), h, bda);
  }

  /** Close-all leaves no record in use and issues as many disconnects as
      there were open records. */
  lemma CloseAllEmptiesTable(s: Session)
    ensures InUseCount(CloseAll(s).session.slots) == 0
    ensures |CloseAll(s).calls| == InUseCount(s.slots)
  {
    NoneInUseCountsZero(CloseAll(s).session.slots);
  }

  // ---------------------------------------------------------------------------
  // Receive path

  /** Bytes received from different connections land in the one shared
      buffer, one after the other, with nothing recording their origin. */
  lemma SharedBufferConcatenates(s: Session, h1: u32, a: seq<byte>, h2: u32, b: seq<byte>)
    requires s.recv.Some?
    requires |s.recv.value| + |a| + |b| <= SPP_RECV_BUFF_SIZE
    ensures OnRead(OnRead(s, h1, a), h2, b).recv == Some(s.recv.value + a + b)
  {
    var buf := s.recv.value;
    assert Push(buf, a).buf == buf + a;
    assert Push(buf + a, b).buf == buf + a + b;
  }

  /** On a buffer within its bound, a read event stores exactly
      min(len, 2048 - |buf|) leading bytes of the data after the old contents. */
  lemma OnReadStoresWhatFits(s: Session, h: u32, data: seq<byte>)
    requires s.recv.Some? && Bounded(s.recv.value)
    ensures var n := if |data| <= Free(s.recv.value) then |data| else Free(s.recv.value);
            OnRead(s, h, data).recv == Some(s.recv.value + data[..n])
  {
    var buf := s.recv.value;
    var r := OnRead(s, h, data);
    var k :| AppendsPrefix(buf, data, r.recv.value, k);
    assert |r.recv.value| == |buf| + k;
  }

  /** Bytes received while they fit are read back by the application after
      what was already buffered, in order, leaving the buffer empty. */
  lemma ReceiveThenReadRoundTrip(s: Session, h: u32, data: seq<byte>)
    requires s.recv.Some?
    requires |s.recv.value| + |data| <= SPP_RECV_BUFF_SIZE
    ensures var r := Read(OnRead(s, h, data), |s.recv.value| + |data|);
            r.data == s.recv.value + data && r.session.recv == Some([])
  {
    var buf := s.recv.value;
    assert Push(buf, data).buf == buf + data;
  }

  /** Init is idempotent once the buffer exists. */
  lemma InitIdempotent(s: Session, first: bool, again: bool)
    requires s.recv.Some? || first
    ensures Init(Init(s, first), again) == Init(s, first)
  {
  }
}
