/** The connection slot table (`open_hdr_params`): a fixed array of
    `OPEN_HDR_NUM` records, searched by linear scan and never compacted. */
module SlotTable {
  import opened SppTypes

  /** Number of connection records (`OPEN_HDR_NUM`). */
  const OPEN_HDR_NUM: nat := 8

  /** One record of the table (`struct _open_hdr_params`). A record describes
      an open connection only while `inUse` holds; releasing a record clears
      the flag and leaves the address and handle behind. */
  datatype Slot = Slot(inUse: bool, bda: Bda, handle: u32)

  /** The zero-initialised record the table starts with. */
  const EMPTY_SLOT: Slot := Slot(false, [0, 0, 0, 0, 0, 0], 0)

  /** The table always has exactly `OPEN_HDR_NUM` records. */
  type Table = t: seq<Slot> | |t| == OPEN_HDR_NUM
    witness seq(8, _ => EMPTY_SLOT)

  const EMPTY_TABLE: Table := seq(OPEN_HDR_NUM, _ => EMPTY_SLOT)

  // ---------------------------------------------------------------------------
  // Reference predicates

  /** `i` is the lowest index whose record is unused. */
  predicate LowestFree(t: seq<Slot>, i: int) {
    && 0 <= i < |t|
    && !t[i].inUse
    && forall j :: 0 <= j < i ==> t[j].inUse
  }

  /** Every record is in use: no further connection can be tracked. */
  predicate Full(t: seq<Slot>) {
    forall j :: 0 <= j < |t| ==> t[j].inUse
  }

  /** Record `i` describes an open connection with handle `h`. */
  predicate Holds(t: seq<Slot>, i: int, h: u32) {
    0 <= i < |t| && t[i].inUse && t[i].handle == h
  }

  /** Some in-use record carries handle `h`. */
  predicate IsOpen(t: seq<Slot>, h: u32) {
    exists i :: 0 <= i < |t| && Holds(t, i, h)
  }

  /** `i` is the lowest index of an in-use record with handle `h`. */
  predicate FirstMatch(t: seq<Slot>, h: u32, i: int) {
    && Holds(t, i, h)
    && forall j :: 0 <= j < i ==> !Holds(t, j, h)
  }

  // ---------------------------------------------------------------------------
  // The two linear scans of the handlers

  /** The open handler's search loop: starting at `idx`, the first index of an
      unused record, or `|t|` when every record from `idx` on is in use. */
  function ScanFree(t: seq<Slot>, idx: nat): (r: nat)
    requires idx <= |t|
    ensures idx <= r <= |t|
    ensures r < |t| ==> !t[r].inUse
    ensures forall j :: idx <= j < r ==> t[j].inUse
    decreases |t| - idx
  {
    if idx == |t| then idx
    else if !t[idx].inUse then idx
    else ScanFree(t, idx + 1)
  }

  /** The close handler's search loop: starting at `idx`, the first index of an
      in-use record whose handle is `h`, or `|t|` when there is none. */
  function ScanHandle(t: seq<Slot>, h: u32, idx: nat): (r: nat)
    requires idx <= |t|
    ensures idx <= r <= |t|
    ensures r < |t| ==> Holds(t, r, h)
    ensures forall j :: idx <= j < r ==> !Holds(t, j, h)
    decreases |t| - idx
  {
    if idx == |t| then idx
    else if t[idx].inUse && t[idx].handle == h then idx
    else ScanHandle(t, h, idx + 1)
  }

  /** A full scan answers exactly the reference question: it stops at the
      lowest free record, and runs off the end exactly when the table is full. */
  lemma ScanFreeFindsLowest(t: seq<Slot>)
    ensures ScanFree(t, 0) < |t| <==> !Full(t)
    ensures ScanFree(t, 0) < |t| ==> LowestFree(t, ScanFree(t, 0))
    ensures forall i :: LowestFree(t, i) ==> ScanFree(t, 0) == i
  {
    var r := ScanFree(t, 0);
    forall i | LowestFree(t, i)
      ensures r == i
    {
      assert !t[i].inUse;
    }
  }

  /** A full handle scan stops at the first matching record, and runs off the
      end exactly when no in-use record carries the handle. */
  lemma ScanHandleFindsFirst(t: seq<Slot>, h: u32)
    ensures ScanHandle(t, h, 0) < |t| <==> IsOpen(t, h)
    ensures ScanHandle(t, h, 0) < |t| ==> FirstMatch(t, h, ScanHandle(t, h, 0))
    ensures forall i :: FirstMatch(t, h, i) ==> ScanHandle(t, h, 0) == i
  {
    var r := ScanHandle(t, h, 0);
    if IsOpen(t, h) {
      var i :| 0 <= i < |t| && Holds(t, i, h);
      assert i < r ==> !Holds(t, i, h);
    }
    forall i | FirstMatch(t, h, i)
      ensures r == i
    {
      assert i < r ==> !Holds(t, i, h);
    }
  }

  // ---------------------------------------------------------------------------
  // Occupancy

  /** Number of records in use. */
  function InUseCount(t: seq<Slot>): (n: nat)
    ensures n <= |t|
  {
    if t == [] then 0
    else (if t[0].inUse then 1 else 0) + InUseCount(t[1..])
  }

  /** Overwriting one record changes the count only by that record's flag. */
  lemma {:induction false} InUseCountUpdate(t: seq<Slot>, i: nat, v: Slot)
    requires i < |t|
    ensures InUseCount(t[i := v])
         == InUseCount(t) - (if t[i].inUse then 1 else 0) + (if v.inUse then 1 else 0)
  {
    if i == 0 {
      assert t[i := v][1..] == t[1..];
    } else {
      assert t[i := v][1..] == t[1..][i - 1 := v];
      InUseCountUpdate(t[1..], i - 1, v);
    }
  }

  /** The table is full exactly when the count of in-use records reaches its size. */
  lemma {:induction false} FullIffCountIsSize(t: seq<Slot>)
    ensures Full(t) <==> InUseCount(t) == |t|
  {
    if t != [] {
      FullIffCountIsSize(t[1..]);
      assert Full(t) <==> t[0].inUse && Full(t[1..]) by {
        forall j | 0 <= j < |t[1..]| ensures t[1..][j] == t[j + 1] { }
      }
    }
  }

  /** A table with no record in use has occupancy 0. */
  lemma {:induction false} NoneInUseCountsZero(t: seq<Slot>)
    requires forall j :: 0 <= j < |t| ==> !t[j].inUse
    ensures InUseCount(t) == 0
  {
    if t != [] {
      assert forall j :: 0 <= j < |t[1..]| ==> t[1..][j] == t[j + 1];
      NoneInUseCountsZero(t[1..]);
    }
  }

  // ---------------------------------------------------------------------------
  // Bulk teardown

  /** Reference definition of the teardown traffic: one disconnect per in-use
      record, in table order. */
  function Disconnects(t: seq<Slot>): (calls: seq<Call>)
    ensures |calls| == InUseCount(t)
  {
    if t == [] then []
    else (if t[0].inUse then [Disconnect(t[0].handle)] else []) + Disconnects(t[1..])
  }

  /** Result of tearing the table down: the new table and the stack calls made. */
  datatype Teardown = Teardown(table: seq<Slot>, calls: seq<Call>)

  /** The close-all loop from index `idx` on: for each in-use record, ask the
      stack to disconnect its handle, then mark the record unused. */
  function CloseFrom(t: seq<Slot>, idx: nat): (r: Teardown)
    requires idx <= |t|
    ensures |r.table| == |t|
    ensures forall j :: 0 <= j < idx ==> r.table[j] == t[j]
    ensures forall j :: idx <= j < |t| ==> r.table[j] == t[j].(inUse := false)
    ensures r.calls == Disconnects(t[idx..])
    decreases |t| - idx
  {
    if idx == |t| then Teardown(t, [])
    else if t[idx].inUse then
      var t' := t[idx := t[idx].(inUse := false)];
      assert t'[idx + 1..] == t[idx + 1..];
      assert t[idx..][1..] == t[idx + 1..];
      var rest := CloseFrom(t', idx + 1);
      Teardown(rest.table, [Disconnect(t[idx].handle)] + rest.calls)
    else
      assert t[idx..][1..] == t[idx + 1..];
      CloseFrom(t, idx + 1)
  }

  /** Every disconnect issued by the teardown names a connection that was open. */
  lemma {:induction false} DisconnectsNameOpenHandles(t: seq<Slot>)
    ensures forall c :: c in Disconnects(t) ==> c.Disconnect? && IsOpen(t, c.handle)
  {
    if t != [] {
      DisconnectsNameOpenHandles(t[1..]);
      forall c | c in Disconnects(t)
        ensures c.Disconnect? && IsOpen(t, c.handle)
      {
        if t[0].inUse && c == Disconnect(t[0].handle) {
          assert Holds(t, 0, c.handle);
        } else {
          assert c in Disconnects(t[1..]);
          var i :| 0 <= i < |t[1..]| && Holds(t[1..], i, c.handle);
          assert t[1..][i] == t[i + 1];
          assert Holds(t, i + 1, c.handle);
        }
      }
    }
  }
}
