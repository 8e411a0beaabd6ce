/** Concrete event sequences that illustrate the send-target policy and the
    receive buffer's drain behaviour. */
module Scenarios {
  import opened SppTypes
  import opened SlotTable
  import opened RecvBuffer
  import opened SppSession

  const A: Bda := [1, 1, 1, 1, 1, 1]
  const B: Bda := [2, 2, 2, 2, 2, 2]
  const C: Bda := [3, 3, 3, 3, 3, 3]

  /** Open 1 and 2: the target is 1. Close 1: no target, so a write sends
      nothing. Open 3: the target is 3, not the still-open 2, because no
      replacement is chosen on close. */
  lemma FirstOpenedWinsScenario(data: seq<byte>, status: Status)
    ensures var s1 := OnOpen(OnOpen(INITIAL, 1, A), 2, B);
            var s2 := OnClose(s1, 1);
            var s3 := OnOpen(s2, 3, C);
            && s1.sendTarget == 1
            && s2.sendTarget == NO_HANDLE
            && Write(s2, data, status) == WriteResult(0, [])
            && s3.sendTarget == 3
            && s3.slots[0] == Slot(true, C, 3) && s3.slots[1] == Slot(true, B, 2)
  {
    var s0 := OnOpen(INITIAL, 1, A);
    assert LowestFree(INITIAL.slots, 0);
    assert s0.slots[0] == Slot(true, A, 1);
    var s1 := OnOpen(s0, 2, B);
    assert LowestFree(s0.slots, 1);
    assert FirstMatch(s1.slots, 1, 0);
    var s2 := OnClose(s1, 1);
    assert LowestFree(s2.slots, 0);
  }

  /** 100 bytes into an empty buffer, then reads of 50 and of 100 return 50
      bytes each: the first half, then the rest. */
  lemma DrainInPiecesScenario(data: seq<byte>)
    requires |data| == 100
    ensures var s := OnRead(Init(INITIAL, true), 7, data);
            var r1 := Read(s, 50);
            var r2 := Read(r1.session, 100);
            && r1.data == data[..50]
            && r2.data == data[50..]
            && r2.session.recv == Some([])
  {
    var s0 := Init(INITIAL, true);
    assert s0.recv == Some([]);
    assert Push([], data).buf == data;
    var s := OnRead(s0, 7, data);
    assert s.recv == Some(data);
  }
}
