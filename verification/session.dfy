/** The SPP session controller: the stack's event handlers, the
    application-facing read/write/init calls and bulk teardown, as pure
    transitions over one immutable state record. */
module SppSession {
  import opened SppTypes
  import opened SlotTable
  import opened RecvBuffer

  /** The module-level state of the handler file: the slot table
      (`open_hdr_params`), the default send target (`_spp_send_hdl`, 0 for
      none) and the receive stream buffer (`_spp_recv_buff_hdl`), absent until
      it has been created. */
  datatype Session = Session(slots: Table, sendTarget: u32, recv: Option<seq<byte>>)

  /** Zero-initialised state before any event: no slot in use, no target, no buffer. */
  const INITIAL: Session := Session(EMPTY_TABLE, NO_HANDLE, None)

  // ---------------------------------------------------------------------------
  // Stack event handlers

  /** Open event: take the lowest unused record for the new connection; the
      connection becomes the send target only when there is none yet. With
      every record in use the event is dropped. */
  function OnOpen(s: Session, h: u32, bda: Bda): (r: Session)
    ensures r.recv == s.recv
    ensures Full(s.slots) ==> r == s
    ensures forall i :: LowestFree(s.slots, i) ==>
              && r.slots == s.slots[i := Slot(true, bda, h)]
              && r.sendTarget == (if s.sendTarget == NO_HANDLE then h else s.sendTarget)
  {
    ScanFreeFindsLowest(s.slots);
    var idx := ScanFree(s.slots, 0);
    if idx >= OPEN_HDR_NUM then s
    else
      var slots := s.slots[idx := Slot(true, bda, h)];
      var target := if s.sendTarget == NO_HANDLE then h else s.sendTarget;
      Session(slots, target, s.recv)
  }

  /** Close event: release the first in-use record holding `h`, and clear the
      send target when it is `h`. A handle with no in-use record changes
      nothing at all, the send target included. */
  function OnClose(s: Session, h: u32): (r: Session)
    ensures r.recv == s.recv
    ensures !IsOpen(s.slots, h) ==> r == s
    ensures forall i :: FirstMatch(s.slots, h, i) ==>
              && r.slots == s.slots[i := s.slots[i].(inUse := false)]
              && r.sendTarget == (if s.sendTarget == h then NO_HANDLE else s.sendTarget)
  {
    ScanHandleFindsFirst(s.slots, h);
    var idx := ScanHandle(s.slots, h, 0);
    if idx >= OPEN_HDR_NUM then s
    else
      var slots := s.slots[idx := s.slots[idx].(inUse := false)];
      var target := if s.sendTarget == h then NO_HANDLE else s.sendTarget;
      Session(slots, target, s.recv)
  }

  /** Read event: inbound bytes from any connection go into the one shared
      buffer, truncated to the room left; without a buffer they are dropped. */
  function OnRead(s: Session, h: u32, data: seq<byte>): (r: Session)
    ensures r.slots == s.slots && r.sendTarget == s.sendTarget
    ensures s.recv.None? ==> r == s
    ensures s.recv.Some? ==> r.recv.Some? && exists n :: AppendsPrefix(s.recv.value, data, r.recv.value, n)
    ensures s.recv.Some? && Bounded(s.recv.value) ==> Bounded(r.recv.value)
    ensures s.recv.Some? ==>
              |r.recv.value| == |s.recv.value| + |data| || |r.recv.value| >= SPP_RECV_BUFF_SIZE
  {
    match s.recv
    case None => s
    case Some(buf) =>
      var pushed := Push(buf, data);
      s.(recv := Some(pushed.buf))
  }

  /** Write-complete event: a placeholder hook that leaves the state alone. */
  function OnWriteDone(s: Session, h: u32, congested: bool, len: int): (r: Session)
    ensures r == s
  {
    s
  }

  /** Congestion-change event: a placeholder hook that leaves the state alone. */
  function OnCongestion(s: Session, h: u32, congested: bool): (r: Session)
    ensures r == s
  {
    s
  }

  // ---------------------------------------------------------------------------
  // Application calls

  /** Create the receive buffer unless it already exists. Creation can fail
      (`allocOk` is false), in which case there is still no buffer. */
  function Init(s: Session, allocOk: bool): (r: Session)
    ensures r.slots == s.slots && r.sendTarget == s.sendTarget
    ensures s.recv.Some? ==> r == s
    ensures s.recv.None? ==> (r.recv.Some? <==> allocOk)
    ensures r.recv.Some? && s.recv.None? ==> r.recv.value == []
  {
    if s.recv.Some? then s
    else if allocOk then s.(recv := Some([]))
    else s
  }

  datatype ReadResult = ReadResult(session: Session, data: seq<byte>)

  /** Application read of at most `maxLen` bytes: the oldest buffered bytes
      are returned (their count is the return value) and removed. Without a
      buffer nothing is returned. */
  function Read(s: Session, maxLen: nat): (r: ReadResult)
    ensures |r.data| <= maxLen
    ensures r.session.slots == s.slots && r.session.sendTarget == s.sendTarget
    ensures s.recv.None? ==> r == ReadResult(s, [])
    ensures s.recv.Some? ==> r.session.recv.Some? && r.data + r.session.recv.value == s.recv.value
    ensures s.recv.Some? && |r.data| < maxLen ==> r.session.recv == Some([])
  {
    match s.recv
    case None => ReadResult(s, [])
    case Some(buf) =>
      var popped := Pop(buf, maxLen);
      ReadResult(s.(recv := Some(popped.rest)), popped.data)
  }

  datatype WriteResult = WriteResult(submitted: nat, calls: seq<Call>)

  /** Application write: without a send target nothing is sent and 0 is
      returned; otherwise the whole of `data` goes to the stack in one send
      addressed to the target, and its full length is returned whatever
      status the stack reports. The state is not changed. */
  function Write(s: Session, data: seq<byte>, status: Status): (r: WriteResult)
    ensures s.sendTarget == NO_HANDLE <==> r.calls == []
    ensures s.sendTarget == NO_HANDLE ==> r.submitted == 0
    ensures s.sendTarget != NO_HANDLE ==>
              r.calls == [Send(s.sendTarget, data)] && r.submitted == |data|
  {
    if s.sendTarget == NO_HANDLE then WriteResult(0, [])
    else
      var call := Send(s.sendTarget, data);
      // the status only selects a log message
      WriteResult(|data|, [call])
  }

  datatype CloseAllResult = CloseAllResult(session: Session, calls: seq<Call>)

  /** Bulk teardown: disconnect every in-use connection in table order and
      free its record. The send target and the buffer are left as they are. */
  function CloseAll(s: Session): (r: CloseAllResult)
    ensures forall j :: 0 <= j < OPEN_HDR_NUM ==> r.session.slots[j] == s.slots[j].(inUse := false)
    ensures r.session.sendTarget == s.sendTarget && r.session.recv == s.recv
    ensures r.calls == Disconnects(s.slots)
  {
    var torn := CloseFrom(s.slots, 0);
    assert s.slots[0..] == s.slots;
    CloseAllResult(Session(torn.table, s.sendTarget, s.recv), torn.calls)
  }

  // ---------------------------------------------------------------------------
  // The state machine

  /** Everything that can happen to the session layer, one atomic step each. */
  datatype Event =
    | OpenEvent(handle: u32, bda: Bda)
    | CloseEvent(handle: u32)
    | DataEvent(handle: u32, data: seq<byte>)
    | WriteDoneEvent(handle: u32, congested: bool, len: int)
    | CongestionEvent(handle: u32, congested: bool)
    | InitCall(allocOk: bool)
    | ReadCall(maxLen: nat)
    | WriteCall(data: seq<byte>, status: Status)
    | CloseAllCall

  function Step(s: Session, e: Event): Session {
    match e
    case OpenEvent(h, bda) => OnOpen(s, h, bda)
    case CloseEvent(h) => OnClose(s, h)
    case DataEvent(h, data) => OnRead(s, h, data)
    case WriteDoneEvent(h, c, n) => OnWriteDone(s, h, c, n)
    case CongestionEvent(h, c) => OnCongestion(s, h, c)
    case InitCall(ok) => Init(s, ok)
    case ReadCall(n) => Read(s, n).session
    case WriteCall(_, _) => s
    case CloseAllCall => CloseAll(s).session
  }

  /** The state after a sequence of events. */
  function Run(s: Session, events: seq<Event>): Session
    decreases |events|
  {
    if events == [] then s else Run(Step(s, events[0]), events[1..])
  }
}
