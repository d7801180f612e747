/** The frame processor of lib/src/frameprocessor.c: units are copied into one buffer at a fixed
    stride, repaired there by the erasure code, and compacted in place. */
module FrameProcessor {
  import opened Bytes
  import opened FrameSpec
  import opened Wrappers

  const PADDING: nat := 64

  /** `i * stride`, the place of unit `i` in the buffer. */
  function Off(i: nat, stride: nat): nat { if i == 0 then 0 else Off(i - 1, stride) + stride }

  lemma {:induction false} OffIsProduct(i: nat, stride: nat)
    ensures Off(i, stride) == i * stride
  {
    if i > 0 {
      OffIsProduct(i - 1, stride);
      assert i * stride == (i - 1) * stride + stride;
    }
  }

  lemma {:induction false} OffMonotone(i: nat, j: nat, stride: nat)
    requires i < j
    ensures Off(i, stride) + stride <= Off(j, stride)
    decreases j
  {
    if i + 1 < j { OffMonotone(i, j - 1, stride); }
  }

  /** The first `n` bytes of unit `i`. */
  function Region(buf: seq<byte>, i: nat, stride: nat, n: nat): Unit
    requires n <= stride && Off(i + 1, stride) <= |buf|
  {
    buf[Off(i, stride)..Off(i, stride) + n]
  }

  /** The buffer holds every unit, padded with zeros, in its place. */
  ghost predicate Lays(buf: seq<byte>, units: seq<Unit>, stride: nat, unitSize: nat)
    requires unitSize <= stride && Off(|units|, stride) <= |buf|
  {
    forall i :: 0 <= i < |units| ==> InBuffer(buf, i, |units|, stride) && Region(buf, i, stride, unitSize) == units[i]
  }

  ghost predicate InBuffer(buf: seq<byte>, i: nat, n: nat, stride: nat)
    requires i < n && Off(n, stride) <= |buf|
    ensures InBuffer(buf, i, n, stride) && Off(i + 1, stride) <= |buf|
  {
    OffMonotone(i, i + 1, stride);
    if i + 1 < n then OffMonotone(i + 1, n, stride); true else true
  }

  /** Where the bytes of unit `i` are. */
  lemma UnitAt(buf: seq<byte>, units: seq<Unit>, i: nat, stride: nat, unitSize: nat)
    requires unitSize <= stride && Off(|units|, stride) <= |buf| && Lays(buf, units, stride, unitSize) && i < |units|
    ensures Off(i, stride) + stride == Off(i + 1, stride) <= Off(|units|, stride) && |units[i]| == unitSize
    ensures buf[Off(i, stride)..Off(i, stride) + unitSize] == units[i]
  {
    assert InBuffer(buf, i, |units|, stride) && Region(buf, i, stride, unitSize) == units[i];
    if i + 1 < |units| { OffMonotone(i + 1, |units|, stride); }
  }

  lemma LaysUpdate(before: seq<byte>, after: seq<byte>, units: seq<Unit>, i: nat, u: Unit, stride: nat, unitSize: nat)
    requires unitSize <= stride && |before| == |after| && Off(|units|, stride) <= |before|
    requires Lays(before, units, stride, unitSize) && i < |units| && |u| == unitSize
    requires InBuffer(after, i, |units|, stride) && Region(after, i, stride, unitSize) == u
    requires forall q :: 0 <= q < |after| && !(Off(i, stride) <= q < Off(i, stride) + stride) ==> after[q] == before[q]
    ensures Lays(after, units[i := u], stride, unitSize)
  {
    forall k | 0 <= k < |units|
      ensures InBuffer(after, k, |units|, stride) && Region(after, k, stride, unitSize) == units[i := u][k]
    {
      assert InBuffer(before, k, |units|, stride);
      if k != i { RegionKept(before, after, k, i, |units|, stride, unitSize); }
    }
  }

  /** A change within one stride leaves every other unit as it was. */
  lemma RegionKept(before: seq<byte>, after: seq<byte>, k: nat, i: nat, n: nat, stride: nat, unitSize: nat)
    requires k < n && i < n && k != i && unitSize <= stride && Off(n, stride) <= |before| == |after|
    requires InBuffer(before, k, n, stride)
    requires forall q :: 0 <= q < |after| && !(Off(i, stride) <= q < Off(i, stride) + stride) ==> after[q] == before[q]
    ensures InBuffer(after, k, n, stride)
    ensures Region(after, k, stride, unitSize) == Region(before, k, stride, unitSize)
  {
    if k < i { OffMonotone(k, i, stride); } else { OffMonotone(i, k, stride); }
    var o := Off(k, stride);
    assert o + stride <= Off(i, stride) || Off(i, stride) + stride <= o;
    assert forall q :: o <= q < o + unitSize ==> after[q] == before[q];
  }

  /** The numbers of filled source and parity slots. */
  ghost predicate CountsAre(u: seq<Option<Unit>>, k: nat, source: nat, fec: nat)
    requires k <= |u|
  {
    source == Filled(u[..k]) && fec == Filled(u[k..])
  }

  /** The slots give the sizes of the units `u`, and the buffer their bytes. */
  ghost predicate StoredIn(u: seq<Option<Unit>>, slots: seq<nat>, buf: seq<byte>, stride: nat, unitSize: nat)
    requires unitSize <= stride && Off(|slots|, stride) <= |buf|
  {
    && |u| == |slots| && Fits(u, unitSize) && SlotsShow(slots, u)
    && Lays(buf, AllPadded(u, unitSize), stride, unitSize)
  }

  /** The packets are those of the units of a frame at the indices in `order`. */
  ghost predicate AreSent(packets: seq<Packet>, code: Code, f: Frame, order: seq<nat>)
    requires WellFormed(f) && ParityOk(code, f)
  {
    && |packets| == |order|
    && forall j :: 0 <= j < |order| ==>
         order[j] < |f.payloads| + f.m && packets[j] == SentPacket(code, f, order[j])
  }

  class FrameProcessor {
    const code: Code
    var frameBuf: array<byte>
    var frameBufSize: nat
    var bufSizePerUnit: nat
    var bufStridePerUnit: nat
    var unitsSourceExpected: nat
    var unitsFecExpected: nat
    var unitsSourceReceived: nat
    var unitsFecReceived: nat
    var unitSlots: array<nat>
    var flushed: bool

    /** The units put into the current frame. */
    ghost var units: seq<Option<Unit>>

    /** The fields are sized consistently, as after construction or any later call. */
    ghost predicate Valid()
      reads this`frameBuf, this`frameBufSize
    {
      frameBuf.Length == frameBufSize + PADDING
    }

    /** The geometry of the frame being collected. */
    ghost predicate Geometry()
      reads this`frameBufSize, this`bufSizePerUnit, this`bufStridePerUnit
      reads this`unitsSourceExpected, this`unitsFecExpected, this`unitSlots
    {
      && unitSlots.Length == unitsSourceExpected + unitsFecExpected && unitsFecExpected >= 1
      && 0 < bufSizePerUnit <= bufStridePerUnit == Stride(bufSizePerUnit)
      && Off(unitSlots.Length, bufStridePerUnit) <= frameBufSize
    }

    /** Slots and buffer hold the units `u`. */
    ghost predicate Stores(u: seq<Option<Unit>>)
      requires Valid() && Geometry()
      reads this`frameBuf, this`frameBufSize, this`bufSizePerUnit, this`bufStridePerUnit
      reads this`unitsSourceExpected, this`unitsFecExpected, this`unitSlots, frameBuf, unitSlots
    {
      StoredIn(u, unitSlots[..], frameBuf[..], bufStridePerUnit, bufSizePerUnit)
    }

    /** The received counters equal the numbers of filled source and parity slots. */
    ghost predicate Counts(u: seq<Option<Unit>>)
      requires |u| >= unitsSourceExpected
      reads this`unitsSourceExpected, this`unitsSourceReceived, this`unitsFecReceived
    {
      CountsAre(u, unitsSourceExpected, unitsSourceReceived, unitsFecReceived)
    }

    /** A frame is being collected: after a successful `AllocFrame`, until it is flushed. */
    ghost predicate Collecting()
      reads this, frameBuf, unitSlots
    {
      Valid() && Geometry() && !flushed && Stores(units) && Counts(units)
    }

    constructor (code: Code)
      ensures Valid() && this.code == code && flushed && unitsSourceExpected == 0
      ensures fresh(frameBuf) && fresh(unitSlots) && SlotsFit()
    {
      this.code := code;
      frameBuf := new byte[PADDING](_ => 0);
      frameBufSize := 0;
      bufSizePerUnit, bufStridePerUnit := 0, 0;
      unitsSourceExpected, unitsFecExpected := 0, 0;
      unitsSourceReceived, unitsFecReceived := 0, 0;
      unitSlots := new nat[0];
      flushed := true;
      units := [];
    }

    /** `alloc_frame`: take the geometry of a frame from the packet that arrives first. */
    method AllocFrame(p: Packet) returns (err: ErrorCode)
      requires Valid()
      modifies this, frameBuf, unitSlots
      ensures Valid()
      ensures (frameBuf == old(frameBuf) || fresh(frameBuf)) && (unitSlots == old(unitSlots) || fresh(unitSlots))
      ensures err == AllocResult(p)
      ensures err == Success ==>
                && Collecting()
                && unitsSourceExpected == p.unitsTotal - p.unitsFec && unitsFecExpected == FecExpected(p)
                && bufSizePerUnit == UnitSize(p)
                && units == seq<Option<Unit>>(unitsSourceExpected + unitsFecExpected, _ => None)
      ensures err == Success ==> SlotsFit()
      ensures err != Success ==> AllocFailed(p, err)
    {
      err := TakeNumbers(p);
      if err == Success { StartEmpty(unitSlots.Length); }
    }

    /** The geometry of the new frame and its slots, all empty, or what a failure leaves of them. */
    method TakeNumbers(p: Packet) returns (err: ErrorCode)
      modifies this`flushed, this`unitsSourceExpected, this`unitsFecExpected, this`bufSizePerUnit,
               this`bufStridePerUnit, this`unitsSourceReceived, this`unitsFecReceived
      modifies this`unitSlots, unitSlots
      ensures unitSlots == old(unitSlots) || fresh(unitSlots)
      ensures err == AllocResult(p) && GeometryTaken(p)
      ensures err == Success || err == Overflow ==>
                && unitSlots.Length == unitsSourceExpected + unitsFecExpected
                && forall i :: 0 <= i < unitSlots.Length ==> unitSlots[i] == 0
      ensures err != Success && err != Overflow ==>
                unitSlots == old(unitSlots) && unitSlots[..] == old(unitSlots[..])
    {
      err := TakeGeometry(p);
      if err == Success { err := TakeSlots(); }
    }

    /** The slots of the new frame, all empty, and the checks on their number. */
    method TakeSlots() returns (err: ErrorCode)
      requires bufStridePerUnit > 0
      modifies this`unitSlots, unitSlots
      ensures unitSlots == old(unitSlots) || fresh(unitSlots)
      ensures
        var required := unitsSourceExpected + unitsFecExpected;
        && err == (if required > UNIT_SLOTS_MAX then InvalidData
                   else if required > SIZE_MAX / bufStridePerUnit then Overflow
                   else Success)
        && if err == InvalidData then unitSlots == old(unitSlots) && unitSlots[..] == old(unitSlots[..])
           else unitSlots.Length == required && forall i :: 0 <= i < required ==> unitSlots[i] == 0
    {
      var required := unitsSourceExpected + unitsFecExpected;
      if required > UNIT_SLOTS_MAX { return InvalidData; }
      SizeSlots(required);
      if unitSlots.Length > SIZE_MAX / bufStridePerUnit { return Overflow; }
      err := Success;
    }

    /** Clear the buffer for a frame whose slots are all empty. */
    method StartEmpty(required: nat)
      requires Valid() && !flushed && 0 < bufSizePerUnit <= bufStridePerUnit == Stride(bufSizePerUnit)
      requires required == unitsSourceExpected + unitsFecExpected == unitSlots.Length && unitsFecExpected >= 1
      requires forall i :: 0 <= i < unitSlots.Length ==> unitSlots[i] == 0
      requires unitsSourceReceived == 0 == unitsFecReceived
      modifies this`frameBuf, this`frameBufSize, this`units, frameBuf
      ensures Collecting() && units == seq<Option<Unit>>(required, _ => None)
      ensures frameBuf == old(frameBuf) || fresh(frameBuf)
    {
      ClearBuffer();
      units := seq<Option<Unit>>(required, _ => None);
      EmptyLays(frameBuf[..], required, bufStridePerUnit, bufSizePerUnit);
      EmptyCounts(required, unitsSourceExpected);
    }

    /** What a failed `AllocFrame` leaves: the buffer as it was, the numbers and sizes of the new frame
        as far as they were taken, and the slots of the frame before unless the last check failed. */
    twostate predicate AllocFailed(p: Packet, err: ErrorCode)
      reads this, frameBuf, unitSlots
    {
      && frameBuf == old(frameBuf) && frameBuf[..] == old(frameBuf[..]) && frameBufSize == old(frameBufSize)
      && units == old(units) && GeometryTaken(p)
      && (err != Overflow ==> unitSlots == old(unitSlots) && unitSlots[..] == old(unitSlots[..]))
      && (err == Overflow ==>
            && unitSlots.Length == unitsSourceExpected + unitsFecExpected
            && forall i :: 0 <= i < unitSlots.Length ==> unitSlots[i] == 0)
    }

    /** The numbers and sizes after the checks on a packet, up to the one that failed. */
    twostate predicate GeometryTaken(p: Packet)
      reads this
    {
      if p.unitsTotal < p.unitsFec then
        && flushed == old(flushed)
        && unitsSourceExpected == old(unitsSourceExpected) && unitsFecExpected == old(unitsFecExpected)
        && bufSizePerUnit == old(bufSizePerUnit) && bufStridePerUnit == old(bufStridePerUnit)
        && unitsSourceReceived == old(unitsSourceReceived) && unitsFecReceived == old(unitsFecReceived)
      else
        && !flushed && unitsSourceExpected == p.unitsTotal - p.unitsFec && unitsFecExpected == FecExpected(p)
        && if HasExtension(p) && |p.data| < 2 then
             && bufSizePerUnit == |p.data| && bufStridePerUnit == old(bufStridePerUnit)
             && unitsSourceReceived == old(unitsSourceReceived) && unitsFecReceived == old(unitsFecReceived)
           else
             && bufSizePerUnit == UnitSize(p) && bufStridePerUnit == Stride(UnitSize(p))
             && unitsSourceReceived == (if UnitSize(p) == 0 then old(unitsSourceReceived) else 0)
             && unitsFecReceived == (if UnitSize(p) == 0 then old(unitsFecReceived) else 0)
    }

    /** The slots there are have room in the buffer, as after construction and any successful alloc. */
    ghost predicate SlotsFit()
      reads this`frameBuf, this`frameBufSize, this`bufSizePerUnit, this`bufStridePerUnit, this`unitSlots
    {
      && Valid() && Off(unitSlots.Length, bufStridePerUnit) <= frameBufSize
      && bufSizePerUnit <= bufStridePerUnit && unitSlots.Length <= UNIT_SLOTS_MAX
    }

    /** If `put_unit` copies this packet, it copies it to a place inside the buffer. */
    ghost predicate StoresInside(p: Packet)
      reads this, unitSlots
    {
      !flushed && p.unitIndex < unitSlots.Length && 0 < |p.data| <= bufSizePerUnit && unitSlots[p.unitIndex] == 0 ==>
        Off(p.unitIndex, bufStridePerUnit) + |p.data| <= frameBuf.Length
    }

    /** Units of this size fit into the buffer, at this stride, for every slot that is empty. */
    ghost predicate EmptySlotsFit(stride: nat, size: nat)
      reads this`frameBuf, this`unitSlots, unitSlots
    {
      forall i: nat :: i < unitSlots.Length && unitSlots[i] == 0 ==> Off(i, stride) + size <= frameBuf.Length
    }

    lemma StoresInsideExact()
      ensures (forall p: Packet :: StoresInside(p))
         <==> flushed || bufSizePerUnit == 0 || EmptySlotsFit(bufStridePerUnit, bufSizePerUnit)
    {
      if !flushed && bufSizePerUnit > 0 && forall p: Packet :: StoresInside(p) {
        forall i: nat | i < unitSlots.Length && unitSlots[i] == 0
          ensures Off(i, bufStridePerUnit) + bufSizePerUnit <= frameBuf.Length
        {
          assert StoresInside(Packet(0, 0, i, false, Zeros(bufSizePerUnit)));
        }
      }
    }

    lemma SlotsFitInside()
      requires SlotsFit()
      ensures EmptySlotsFit(bufStridePerUnit, bufSizePerUnit)
    {
      forall i: nat | i < unitSlots.Length ensures Off(i, bufStridePerUnit) + bufSizePerUnit <= frameBuf.Length {
        OffMonotone(i, unitSlots.Length, bufStridePerUnit);
      }
    }

    /** `flush` looks at no slot behind the last one. */
    ghost predicate FlushInside()
      reads this
    {
      flushed || unitsSourceExpected == 0 ||
      (if unitsSourceReceived < unitsSourceExpected then unitsSourceExpected + unitsFecExpected
       else unitsSourceExpected) <= unitSlots.Length
    }

    /** The receiver ignores the error of a failed alloc and goes on. Whatever is put then stays inside
        the buffer unless the packet was rejected for its number of units; then it does if and only if
        units of the new size fit into the old buffer for every empty slot. A flush stays inside the
        slots then only if the packet announced no source unit, or its sizes overflowed. */
    twostate lemma AfterFailedAlloc(p: Packet, err: ErrorCode)
      requires err == AllocResult(p) && err != Success && AllocFailed(p, err) && old(SlotsFit())
      ensures
        var rejected := p.unitsTotal >= p.unitsFec && err != BufTooSmall;
        && ((forall q: Packet :: StoresInside(q)) <==>
              (rejected ==> EmptySlotsFit(Stride(UnitSize(p)), UnitSize(p))))
        && (rejected ==> (FlushInside() <==> err == Overflow || p.unitsTotal == p.unitsFec))
    {
      StoresInsideExact();
      if p.unitsTotal < p.unitsFec {
        SlotsFitInside();
      } else if HasExtension(p) && |p.data| < 2 {
        OneByteFits();
      }
    }

    /** A single byte fits wherever a unit of the same stride does. */
    twostate lemma OneByteFits()
      requires old(SlotsFit()) && frameBuf == old(frameBuf) && unitSlots == old(unitSlots)
      requires bufStridePerUnit == old(bufStridePerUnit) && bufSizePerUnit <= 1
      ensures EmptySlotsFit(bufStridePerUnit, bufSizePerUnit)
    {
      forall i: nat | i < unitSlots.Length ensures Off(i, bufStridePerUnit) + bufSizePerUnit <= frameBuf.Length {
        OffMonotone(i, unitSlots.Length, bufStridePerUnit);
      }
    }

    /** The checks on the packet, and the numbers and sizes of units it implies. */
    method TakeGeometry(p: Packet) returns (err: ErrorCode)
      modifies this`flushed, this`unitsSourceExpected, this`unitsFecExpected, this`bufSizePerUnit,
               this`bufStridePerUnit, this`unitsSourceReceived, this`unitsFecReceived
      ensures err == if p.unitsTotal < p.unitsFec then InvalidData
                     else if HasExtension(p) && |p.data| < 2 then BufTooSmall
                     else if UnitSize(p) == 0 then BufTooSmall
                     else Success
      ensures GeometryTaken(p)
    {
      if p.unitsTotal < p.unitsFec { return InvalidData; }
      flushed := false;
      unitsSourceExpected := p.unitsTotal - p.unitsFec;
      unitsFecExpected := p.unitsFec;
      if unitsFecExpected < 1 { unitsFecExpected := 1; }
      bufSizePerUnit := |p.data|;
      if p.isVideo && p.unitIndex < unitsSourceExpected {
        if |p.data| < 2 { return BufTooSmall; }
        bufSizePerUnit := bufSizePerUnit + Be16(p.data);
      }
      bufStridePerUnit := (bufSizePerUnit + 15) / 16 * 16;
      if bufSizePerUnit == 0 { return BufTooSmall; }
      unitsSourceReceived := 0;
      unitsFecReceived := 0;
      err := Success;
    }

    /** As many slots as the frame needs, all empty. */
    method SizeSlots(required: nat)
      modifies this`unitSlots, unitSlots
      ensures unitSlots.Length == required && forall i :: 0 <= i < unitSlots.Length ==> unitSlots[i] == 0
      ensures unitSlots == old(unitSlots) || fresh(unitSlots)
    {
      if required != unitSlots.Length {
        unitSlots := new nat[required];
      }
      forall i | 0 <= i < unitSlots.Length { unitSlots[i] := 0; }
    }

    /** Enlarge the buffer if necessary and clear the part the frame needs. */
    method ClearBuffer()
      requires Valid() && bufStridePerUnit > 0
      modifies this`frameBuf, this`frameBufSize, frameBuf
      ensures Valid() && (frameBuf == old(frameBuf) || fresh(frameBuf))
      ensures Off(unitSlots.Length, bufStridePerUnit) <= frameBufSize
      ensures forall q :: 0 <= q < Off(unitSlots.Length, bufStridePerUnit) ==> frameBuf[q] == 0
    {
      OffIsProduct(unitSlots.Length, bufStridePerUnit);
      var bufRequired := unitSlots.Length * bufStridePerUnit;
      if frameBufSize < bufRequired {
        frameBuf := new byte[bufRequired + PADDING](_ => 0);
        frameBufSize := bufRequired;
      }
      forall q | 0 <= q < bufRequired + PADDING { frameBuf[q] := 0; }
    }

    /** `put_unit`: keep a unit, or reject it when it is empty, too large or a duplicate. An index
        equal to the number of slots passes the source's check and is the caller's to avoid. */
    method PutUnit(p: Packet) returns (err: ErrorCode)
      requires Collecting() && p.unitIndex != unitSlots.Length
      modifies this`units, this`unitsSourceReceived, this`unitsFecReceived, frameBuf, unitSlots
      ensures Collecting()
      ensures units == Put(old(units), bufSizePerUnit, p)
      ensures err == if p.unitIndex < |units| && Accepts(old(units), bufSizePerUnit, p) then Success else InvalidData
    {
      if p.unitIndex > unitSlots.Length { return InvalidData; }
      if |p.data| == 0 { return InvalidData; }
      if |p.data| > bufSizePerUnit { return InvalidData; }
      var i := p.unitIndex;
      if unitSlots[i] != 0 { return InvalidData; }
      KeepUnit(i, p.data);
      err := Success;
    }

    method KeepUnit(i: nat, data: seq<byte>)
      requires Collecting() && i < |units| && units[i].None? && 0 < |data| <= bufSizePerUnit
      modifies this`units, this`unitsSourceReceived, this`unitsFecReceived, frameBuf, unitSlots
      ensures Collecting() && units == old(units)[i := Some(data)]
    {
      ghost var next := units[i := Some(data)];
      CountUnit(i, data);
      assert !flushed;
      StoreUnit(i, data);
      assert units == next;
      assert CountsAre(next, unitsSourceExpected, unitsSourceReceived, unitsFecReceived);
    }

    /** Count the unit put into slot `i`. */
    method CountUnit(i: nat, ghost data: seq<byte>)
      requires i < |units| && units[i].None? && unitsSourceExpected <= |units| && Counts(units)
      modifies this`unitsSourceReceived, this`unitsFecReceived
      ensures Counts(units[i := Some(data)])
    {
      if i < unitsSourceExpected {
        unitsSourceReceived := unitsSourceReceived + 1;
      } else {
        unitsFecReceived := unitsFecReceived + 1;
      }
      CountPut(units, i, data, unitsSourceExpected);
    }

    /** Mark the slot and copy the unit to its place in the buffer. */
    method StoreUnit(i: nat, data: seq<byte>)
      requires Valid() && Geometry() && Stores(units)
      requires i < unitSlots.Length && units[i].None? && 0 < |data| <= bufSizePerUnit
      modifies this`units, frameBuf, unitSlots
      ensures units == old(units)[i := Some(data)]
      ensures Valid() && Geometry() && Stores(units)
    {
      ghost var before := frameBuf[..];
      ghost var padded := AllPadded(units, bufSizePerUnit);
      unitSlots[i] := |data|;
      var o := Off(i, bufStridePerUnit);
      assert InBuffer(before, i, |units|, bufStridePerUnit);
      assert Region(before, i, bufStridePerUnit, bufSizePerUnit) == padded[i];
      forall q | 0 <= q < |data| { frameBuf[o + q] := data[q]; }
      ghost var after := frameBuf[..];
      ghost var u := Padded(Some(data), bufSizePerUnit);
      assert InBuffer(after, i, |units|, bufStridePerUnit);
      forall q | 0 <= q < bufSizePerUnit ensures Region(after, i, bufStridePerUnit, bufSizePerUnit)[q] == u[q] {
        if q >= |data| { assert before[o + q] == padded[i][q] == 0; }
      }
      LaysUpdate(before, after, padded, i, u, bufStridePerUnit, bufSizePerUnit);
      assert AllPadded(units[i := Some(data)], bufSizePerUnit) == padded[i := u];
      units := units[i := Some(data)];
    }

    /** The list of empty slots, built as the FEC step does; its assertions on the index hold. */
    method Erasures() returns (erasures: seq<nat>)
      requires |units| == unitSlots.Length == unitsSourceExpected + unitsFecExpected && Counts(units)
      requires SlotsShow(unitSlots[..], units) && Fits(units, bufSizePerUnit)
      ensures erasures == Missing(units, 0)
    {
      CountsSum(units, unitsSourceExpected);
      var erasuresCount := unitsSourceExpected + unitsFecExpected - (unitsSourceReceived + unitsFecReceived);
      erasures := [];
      for i := 0 to unitsSourceExpected + unitsFecExpected
        invariant erasures == Missing(units[..i], 0)
      {
        MissingNext(units, i);
        if unitSlots[i] == 0 {
          assert |erasures| < erasuresCount;
          erasures := erasures + [i];
        }
      }
      assert units[..|units|] == units;
      assert |erasures| == erasuresCount;
    }

    /** `chiaki_fec_decode`: hand the units to the erasure code and write back what it returns. */
    method FecDecode(erasures: seq<nat>) returns (err: ErrorCode)
      requires Collecting() && Corrects(code) && erasures == Missing(units, 0)
      modifies frameBuf
      ensures Valid() && Geometry()
      ensures var r := code.decode(AllPadded(units, bufSizePerUnit), unitsSourceExpected, unitsFecExpected, erasures);
              && err == (if r.Some? then Success else FecError)
              && (r.None? ==> frameBuf[..] == old(frameBuf[..]))
              && (r.Some? ==> |r.value| == |units| && SameSize(r.value, bufSizePerUnit)
                              && Lays(frameBuf[..], r.value, bufStridePerUnit, bufSizePerUnit))
    {
      if bufStridePerUnit < bufSizePerUnit { return InvalidData; }
      var n := unitsSourceExpected + unitsFecExpected;
      var received := ReadUnits(n, AllPadded(units, bufSizePerUnit));
      var r := code.decode(received, unitsSourceExpected, unitsFecExpected, erasures);
      SizesKept(code, received, unitsSourceExpected, unitsFecExpected, erasures);
      if r.None? { return FecError; }
      assert SameSize(r.value, bufSizePerUnit) by {
        assert forall i :: 0 <= i < n ==> |r.value[i]| == |received[i]|;
      }
      WriteUnits(r.value, received);
      err := Success;
    }

    /** Write repaired units over the received ones. */
    method WriteUnits(repaired: seq<Unit>, ghost received: seq<Unit>)
      requires Valid() && Geometry() && |repaired| == |received| == unitSlots.Length
      requires SameSize(repaired, bufSizePerUnit)
      requires Lays(frameBuf[..], received, bufStridePerUnit, bufSizePerUnit)
      modifies frameBuf
      ensures Lays(frameBuf[..], repaired, bufStridePerUnit, bufSizePerUnit)
    {
      ghost var all := received;
      for i := 0 to |repaired|
        invariant |all| == |repaired| && forall j :: 0 <= j < i ==> all[j] == repaired[j]
        invariant Lays(frameBuf[..], all, bufStridePerUnit, bufSizePerUnit)
      {
        WriteUnit(all, i, repaired[i]);
        all := all[i := repaired[i]];
      }
      assert all == repaired;
    }

    /** The first bytes of every unit in the buffer. */
    method ReadUnits(n: nat, ghost all: seq<Unit>) returns (received: seq<Unit>)
      requires bufSizePerUnit <= bufStridePerUnit && n == |all| && Off(n, bufStridePerUnit) <= frameBuf.Length
      requires Lays(frameBuf[..], all, bufStridePerUnit, bufSizePerUnit)
      ensures received == all
    {
      received := [];
      for i := 0 to n
        invariant received == all[..i]
      {
        UnitAt(frameBuf[..], all, i, bufStridePerUnit, bufSizePerUnit);
        var o := Off(i, bufStridePerUnit);
        assert frameBuf[o..o + bufSizePerUnit] == all[i];
        assert all[..i + 1] == all[..i] + [all[i]];
        received := received + [frameBuf[o..o + bufSizePerUnit]];
      }
      assert all[..n] == all;
    }

    method WriteUnit(ghost all: seq<Unit>, i: nat, u: Unit)
      requires Valid() && Geometry() && i < |all| == unitSlots.Length && |u| == bufSizePerUnit
      requires Lays(frameBuf[..], all, bufStridePerUnit, bufSizePerUnit)
      modifies frameBuf
      ensures Lays(frameBuf[..], all[i := u], bufStridePerUnit, bufSizePerUnit)
    {
      ghost var before := frameBuf[..];
      var o := Off(i, bufStridePerUnit);
      assert InBuffer(before, i, |all|, bufStridePerUnit);
      forall q | 0 <= q < |u| { frameBuf[o + q] := u[q]; }
      assert InBuffer(frameBuf[..], i, |all|, bufStridePerUnit);
      assert Region(frameBuf[..], i, bufStridePerUnit, bufSizePerUnit) == u;
      LaysUpdate(before, frameBuf[..], all, i, u, bufStridePerUnit, bufSizePerUnit);
    }

    /** Restore the sizes of the source units from the padding their first two bytes announce. */
    method RestoreSizes(ghost d: seq<Unit>)
      requires Valid() && Geometry() && |units| == unitSlots.Length && Fits(units, bufSizePerUnit)
      requires SlotsShow(unitSlots[..], units)
      requires |d| == unitSlots.Length && SameSize(d, bufSizePerUnit)
      requires Lays(frameBuf[..], d, bufStridePerUnit, bufSizePerUnit)
      modifies unitSlots
      ensures SizesMatch(unitSlots[..], d, Repaired(units, unitsSourceExpected, bufSizePerUnit, d), bufSizePerUnit)
    {
      ghost var parts := Repaired(units, unitsSourceExpected, bufSizePerUnit, d);
      for i := 0 to unitsSourceExpected
        invariant forall j :: 0 <= j < i ==> SizeMatches(unitSlots[j], d[j], parts[j], bufSizePerUnit)
        invariant forall j :: i <= j < unitSlots.Length ==> unitSlots[j] == |Received(units[j])|
      {
        UnitAt(frameBuf[..], d, i, bufStridePerUnit, bufSizePerUnit);
        RestoreSize(i, d[i], units[i]);
      }
    }

    method RestoreSize(i: nat, ghost u: Unit, ghost arrived: Option<Unit>)
      requires i < unitSlots.Length && 0 < bufSizePerUnit == |u| && Off(i, bufStridePerUnit) + 16 <= frameBuf.Length
      requires Off(i, bufStridePerUnit) + bufSizePerUnit <= frameBuf.Length
      requires frameBuf[Off(i, bufStridePerUnit)..Off(i, bufStridePerUnit) + bufSizePerUnit] == u
      requires unitSlots[i] == |Received(arrived)| <= bufSizePerUnit
      modifies unitSlots
      ensures SizeMatches(unitSlots[i], u, Body(Trimmed(u, arrived, bufSizePerUnit)), bufSizePerUnit)
      ensures forall j :: 0 <= j < unitSlots.Length && j != i ==> unitSlots[j] == old(unitSlots[j])
    {
      var o := Off(i, bufStridePerUnit);
      var padding := Be16(frameBuf[o..o + 2]);
      assert bufSizePerUnit >= 2 ==> u[..2] == frameBuf[o..o + 2];
      if padding < bufSizePerUnit {
        unitSlots[i] := bufSizePerUnit - padding;
      }
    }

    /** Compact in place: move the payload of every source unit to the end of what has been
        written. Nothing at or after the next unit is overwritten. */
    method Compact(ghost d: seq<Unit>, ghost parts: seq<Unit>) returns (cur: nat)
      requires Valid() && Geometry() && |d| == unitSlots.Length && SameSize(d, bufSizePerUnit)
      requires Lays(frameBuf[..], d, bufStridePerUnit, bufSizePerUnit)
      requires |parts| == unitsSourceExpected && SizesMatch(unitSlots[..], d, parts, bufSizePerUnit)
      modifies frameBuf
      ensures cur <= frameBuf.Length && frameBuf[..cur] == Concat(parts)
      ensures cur <= Off(unitsSourceExpected, bufStridePerUnit)
      ensures forall q :: Off(unitsSourceExpected, bufStridePerUnit) <= q < frameBuf.Length ==>
        frameBuf[q] == old(frameBuf[q])
    {
      ghost var before := frameBuf[..];
      cur := 0;
      for i := 0 to unitsSourceExpected
        invariant Compacted(cur, i, before, parts)
      {
        cur := MovePart(cur, i, before, d, parts);
      }
      assert parts[..|parts|] == parts;
    }

    /** The payloads of the first `i` units have been written, and nothing from unit `i` on has
        been touched. */
    ghost predicate Compacted(cur: nat, i: nat, before: seq<byte>, parts: seq<Unit>)
      reads this, frameBuf
    {
      && i <= |parts| && cur <= Off(i, bufStridePerUnit) && cur <= frameBuf.Length == |before|
      && frameBuf[..cur] == Concat(parts[..i])
      && forall q :: Off(i, bufStridePerUnit) <= q < |before| ==> frameBuf[q] == before[q]
    }

    /** Move the payload of unit `i`. */
    method MovePart(cur: nat, i: nat, ghost before: seq<byte>, ghost d: seq<Unit>, ghost parts: seq<Unit>)
      returns (end: nat)
      requires bufSizePerUnit <= bufStridePerUnit && i < |parts| <= |d| == unitSlots.Length
      requires Off(|d|, bufStridePerUnit) <= |before| && Lays(before, d, bufStridePerUnit, bufSizePerUnit)
      requires SameSize(d, bufSizePerUnit) && SizeMatches(unitSlots[i], d[i], parts[i], bufSizePerUnit)
      requires Compacted(cur, i, before, parts)
      modifies frameBuf
      ensures Compacted(end, i + 1, before, parts)
    {
      UnitAt(before, d, i, bufStridePerUnit, bufSizePerUnit);
      assert parts[..i + 1][..i] == parts[..i];
      assert Concat(parts[..i + 1]) == Concat(parts[..i]) + parts[i];
      end := cur;
      if unitSlots[i] >= 2 {
        var partSize := unitSlots[i] - 2;
        var o := Off(i, bufStridePerUnit);
        PartBytes(frameBuf[..], before, o, d[i], parts[i], unitSlots[i]);
        assert frameBuf[..][o + 2..o + unitSlots[i]] == frameBuf[o + 2..o + 2 + partSize];
        MoveBytes(cur, o + 2, partSize);
        end := cur + partSize;
      }
    }

    /** `memmove` towards the front. */
    method MoveBytes(dst: nat, src: nat, n: nat)
      requires dst <= src && src + n <= frameBuf.Length
      modifies frameBuf
      ensures frameBuf[..dst + n] == old(frameBuf[..dst]) + old(frameBuf[src..src + n])
      ensures forall q :: dst + n <= q < frameBuf.Length ==> frameBuf[q] == old(frameBuf[q])
    {
      forall q | 0 <= q < n { frameBuf[dst + q] := frameBuf[src + q]; }
    }

    /** `flush`: repair the frame if source units are missing, then compact it. The frame is the
        first `size` bytes of the buffer. */
    method Flush() returns (result: FlushResult, size: nat)
      requires Corrects(code) && Valid() && (flushed || Collecting())
      modifies frameBuf, unitSlots
      ensures old(flushed) ==> result == Failed && size == 0
      ensures !old(flushed) ==>
                && size <= frameBuf.Length
                && (result, frameBuf[..size]) == FrameSpec.Flush(code, units, unitsSourceExpected, bufSizePerUnit)
    {
      if unitsSourceExpected == 0 || flushed { return Failed, 0; }
      ghost var d, parts;
      result, d, parts := RepairParts();
      size := Compact(d, parts);
    }

    /** Repair the frame if source units are missing, up to where the parts are known. */
    method RepairParts() returns (result: FlushResult, ghost d: seq<Unit>, ghost parts: seq<Unit>)
      requires Corrects(code) && Collecting()
      modifies frameBuf, unitSlots
      ensures Valid() && Geometry()
      ensures |d| == |units| && SameSize(d, bufSizePerUnit)
      ensures Lays(frameBuf[..], d, bufStridePerUnit, bufSizePerUnit)
      ensures |parts| == unitsSourceExpected && SizesMatch(unitSlots[..], d, parts, bufSizePerUnit)
      ensures (result, parts) == Parts(code, units, unitsSourceExpected, bufSizePerUnit)
    {
      if unitsSourceReceived < unitsSourceExpected {
        var err;
        err, d, parts := Fec();
        result := if err == Success then FecSuccess else FecFailed;
      } else {
        d, parts := AllPadded(units, bufSizePerUnit), Arrived(units, unitsSourceExpected);
        ArrivedMatches(unitSlots[..], units, unitsSourceExpected, bufSizePerUnit);
        result := FlushSuccess;
      }
    }

    /** `chiaki_frame_processor_fec`: repair the missing units and restore the source unit sizes. */
    method Fec() returns (err: ErrorCode, ghost d: seq<Unit>, ghost parts: seq<Unit>)
      requires Corrects(code) && Collecting()
      modifies frameBuf, unitSlots
      ensures Valid() && Geometry()
      ensures |d| == |units| && SameSize(d, bufSizePerUnit) && Lays(frameBuf[..], d, bufStridePerUnit, bufSizePerUnit)
      ensures |parts| == unitsSourceExpected && SizesMatch(unitSlots[..], d, parts, bufSizePerUnit)
      ensures
              var received := AllPadded(units, bufSizePerUnit);
              match code.decode(received, unitsSourceExpected, unitsFecExpected, Missing(units, 0))
              case None => err == FecError && parts == Arrived(units, unitsSourceExpected)
              case Some(r) =>
                && err == Success && d == r
                && parts == Repaired(units, unitsSourceExpected, bufSizePerUnit, d)
    {
      var erasures := Erasures();
      d := AllPadded(units, bufSizePerUnit);
      ghost var r := code.decode(d, unitsSourceExpected, unitsFecExpected, erasures);
      err := FecDecode(erasures);
      if err == Success {
        d := r.value;
        RestoreSizes(d);
        parts := Repaired(units, unitsSourceExpected, bufSizePerUnit, d);
      } else {
        ArrivedMatches(unitSlots[..], units, unitsSourceExpected, bufSizePerUnit);
        parts := Arrived(units, unitsSourceExpected);
      }
    }

    /** `flush_possible`. */
    method FlushPossible() returns (possible: bool)
      requires Collecting()
      ensures possible <==> Filled(units) >= unitsSourceExpected
    {
      CountsSum(units, unitsSourceExpected);
      possible := unitsSourceReceived + unitsFecReceived >= unitsSourceExpected;
    }

    /** A whole frame as the video receiver handles it: the packet that arrives first sets the
        geometry, every packet is put, and the frame is flushed, whichever units arrived, in any order and
        with repetitions. With at least k different ones the frame is the payloads in index order, and the
        result tells whether they had to be repaired; with fewer a flush is said not to be possible, fails
        and gives the payloads that arrived. */
    method ReceiveFrame(packets: seq<Packet>, ghost f: Frame, ghost order: seq<nat>)
      returns (possible: bool, result: FlushResult, size: nat)
      requires Valid() && Corrects(code) && WellFormed(f) && ParityOk(code, f)
      requires |order| > 0 && AreSent(packets, code, f, order)
      modifies this, frameBuf, unitSlots
      ensures result == FlushSuccess <==> AllSources(f, order)
      ensures result == FecSuccess <==> !AllSources(f, order) && |Indices(order)| >= |f.payloads|
      ensures result == FecFailed <==> |Indices(order)| < |f.payloads|
      ensures possible <==> result != FecFailed
      ensures size <= frameBuf.Length
      ensures |Indices(order)| >= |f.payloads| ==> frameBuf[..size] == Concat(f.payloads)
      ensures |Indices(order)| < |f.payloads| ==> frameBuf[..size] == Concat(PayloadsOf(f, order))
    {
      CollectFrame(packets, f, order);
      FilledCount(code, f, order);
      possible := FlushPossible();
      result, size := FlushSent(f, order);
    }

    method FlushSent(ghost f: Frame, ghost order: seq<nat>) returns (result: FlushResult, size: nat)
      requires Corrects(code) && Collecting() && WellFormed(f) && ParityOk(code, f)
      requires forall j :: 0 <= j < |order| ==> order[j] < |f.payloads| + f.m
      requires units == PutAll(code, f, order) && unitsSourceExpected == |f.payloads| && bufSizePerUnit == f.unitSize
      modifies frameBuf, unitSlots
      ensures result == FlushSuccess <==> AllSources(f, order)
      ensures result == FecSuccess <==> !AllSources(f, order) && |Indices(order)| >= |f.payloads|
      ensures result == FecFailed <==> |Indices(order)| < |f.payloads|
      ensures size <= frameBuf.Length
      ensures |Indices(order)| >= |f.payloads| ==> frameBuf[..size] == Concat(f.payloads)
      ensures |Indices(order)| < |f.payloads| ==> frameBuf[..size] == Concat(PayloadsOf(f, order))
    {
      FlushOutcome(code, f, order);
      ghost var outcome := FrameSpec.Flush(code, units, |f.payloads|, f.unitSize);
      result, size := Flush();
      assert result == outcome.0 && frameBuf[..size] == outcome.1;
    }

    /** The packets of one frame, before it is flushed. */
    method CollectFrame(packets: seq<Packet>, ghost f: Frame, ghost order: seq<nat>)
      requires Valid() && WellFormed(f) && ParityOk(code, f)
      requires |order| > 0 && AreSent(packets, code, f, order)
      modifies this, frameBuf, unitSlots
      ensures Collecting() && units == PutAll(code, f, order)
      ensures unitsSourceExpected == |f.payloads| && bufSizePerUnit == f.unitSize
      ensures (frameBuf == old(frameBuf) || fresh(frameBuf)) && (unitSlots == old(unitSlots) || fresh(unitSlots))
    {
      StartFrame(packets, f, order);
      assert Collecting() && units == PutAll(code, f, []);
      PutPackets(packets, f, order);
    }

    method StartFrame(packets: seq<Packet>, ghost f: Frame, ghost order: seq<nat>)
      requires Valid() && WellFormed(f) && ParityOk(code, f) && |order| > 0
      requires AreSent(packets, code, f, order)
      modifies this, frameBuf, unitSlots
      ensures Collecting() && unitsSourceExpected == |f.payloads|
      ensures unitSlots.Length == |f.payloads| + f.m && bufSizePerUnit == f.unitSize
      ensures units == PutAll(code, f, [])
      ensures (frameBuf == old(frameBuf) || fresh(frameBuf)) && (unitSlots == old(unitSlots) || fresh(unitSlots))
    {
      GeometryAgrees(code, f, order[0]);
      var err := AllocFrame(packets[0]);
    }

    method PutPackets(packets: seq<Packet>, ghost f: Frame, ghost order: seq<nat>)
      requires Collecting() && WellFormed(f) && ParityOk(code, f)
      requires AreSent(packets, code, f, order)
      requires unitSlots.Length == |f.payloads| + f.m && bufSizePerUnit == f.unitSize
      requires units == PutAll(code, f, [])
      modifies this`units, this`unitsSourceReceived, this`unitsFecReceived, frameBuf, unitSlots
      ensures Collecting() && units == PutAll(code, f, order)
    {
      assert order[..0] == [];
      for j := 0 to |packets|
        invariant Collecting() && units == PutAll(code, f, order[..j])
      {
        PutSent(packets, f, order, j);
      }
      assert order[..|packets|] == order;
    }

    /** Put packet `j`, after those before it. */
    method PutSent(packets: seq<Packet>, ghost f: Frame, ghost order: seq<nat>, j: nat)
      requires Collecting() && WellFormed(f) && ParityOk(code, f)
      requires j < |order| && AreSent(packets, code, f, order)
      requires unitSlots.Length == |f.payloads| + f.m && bufSizePerUnit == f.unitSize
      requires units == PutAll(code, f, order[..j])
      modifies this`units, this`unitsSourceReceived, this`unitsFecReceived, frameBuf, unitSlots
      ensures Collecting() && units == PutAll(code, f, order[..j + 1])
    {
      ghost var upTo := order[..j + 1];
      assert upTo[..|upTo| - 1] == order[..j] && upTo[|upTo| - 1] == order[j];
      var err := PutUnit(packets[j]);
    }
  }

  /** `size` is at most the unit size, and the payload of that prefix of `u` is `part`. */
  ghost predicate SizeMatches(size: nat, u: Unit, part: Unit, unitSize: nat) {
    size <= unitSize == |u| && Body(u[..size]) == part
  }

  ghost predicate SizesMatch(slots: seq<nat>, d: seq<Unit>, parts: seq<Unit>, unitSize: nat) {
    |parts| <= |slots| == |d| && forall i :: 0 <= i < |parts| ==> SizeMatches(slots[i], d[i], parts[i], unitSize)
  }

  /** The payload of a unit still lies in the buffer when its turn comes. */
  lemma PartBytes(buf: seq<byte>, before: seq<byte>, o: nat, u: Unit, part: Unit, size: nat)
    requires |buf| == |before| && 2 <= size <= |u| && o + |u| <= |buf|
    requires before[o..o + |u|] == u && part == Body(u[..size])
    requires forall q :: o <= q < |buf| ==> buf[q] == before[q]
    ensures buf[o + 2..o + size] == part
  {
    assert forall q :: 0 <= q < |u| ==> before[o + q] == u[q];
  }

  lemma ArrivedMatches(slots: seq<nat>, units: seq<Option<Unit>>, k: nat, unitSize: nat)
    requires SlotsShow(slots, units) && Fits(units, unitSize) && k <= |units|
    ensures SizesMatch(slots, AllPadded(units, unitSize), Arrived(units, k), unitSize)
  {
    var d := AllPadded(units, unitSize);
    forall i | 0 <= i < k ensures d[i][..slots[i]] == Received(units[i]) {
      assert d[i] == Padded(units[i], unitSize);
    }
  }

  /** The slots hold the sizes of the units, zero for an empty slot. */
  ghost predicate SlotsShow(slots: seq<nat>, units: seq<Option<Unit>>) {
    |slots| == |units| && forall i :: 0 <= i < |slots| ==> slots[i] == |Received(units[i])|
  }

  lemma EmptyLays(buf: seq<byte>, n: nat, stride: nat, unitSize: nat)
    requires unitSize <= stride && Off(n, stride) <= |buf|
    requires forall q :: 0 <= q < Off(n, stride) ==> buf[q] == 0
    ensures Lays(buf, AllPadded(seq<Option<Unit>>(n, _ => None), unitSize), stride, unitSize)
  {
    forall i | 0 <= i < n ensures InBuffer(buf, i, n, stride) && Region(buf, i, stride, unitSize) == Zeros(unitSize) {
      assert InBuffer(buf, i, n, stride);
      OffMonotone(i, n, stride);
    }
  }

  lemma EmptyCounts(n: nat, k: nat)
    requires k <= n
    ensures var units := seq<Option<Unit>>(n, _ => None); Filled(units[..k]) == 0 && Filled(units[k..]) == 0
  {
    var units := seq<Option<Unit>>(n, _ => None);
    assert units[..k] == seq<Option<Unit>>(k, _ => None);
    assert units[k..] == seq<Option<Unit>>(n - k, _ => None);
    FilledNone(k);
    FilledNone(n - k);
  }

  lemma CountPut(units: seq<Option<Unit>>, i: nat, u: Unit, k: nat)
    requires i < |units| && units[i].None? && k <= |units|
    ensures var now := units[i := Some(u)];
            && Filled(now[..k]) == Filled(units[..k]) + (if i < k then 1 else 0)
            && Filled(now[k..]) == Filled(units[k..]) + (if i < k then 0 else 1)
  {
    var now := units[i := Some(u)];
    if i < k {
      assert now[..k] == units[..k][i := Some(u)] && now[k..] == units[k..];
      FilledUpdate(units[..k], i, u);
    } else {
      assert now[..k] == units[..k] && now[k..] == units[k..][i - k := Some(u)];
      FilledUpdate(units[k..], i - k, u);
    }
  }

  lemma CountsSum(units: seq<Option<Unit>>, k: nat)
    requires k <= |units|
    ensures Filled(units[..k]) + Filled(units[k..]) == Filled(units)
    ensures |Missing(units, 0)| == |units| - Filled(units)
  {
    FilledConcat(units[..k], units[k..]);
    assert units == units[..k] + units[k..];
    MissingExact(units, 0);
  }

  lemma MissingNext(units: seq<Option<Unit>>, i: nat)
    requires i < |units|
    ensures Missing(units[..i + 1], 0) == Missing(units[..i], 0) + (if units[i].None? then [i] else [])
    ensures |Missing(units[..i + 1], 0)| <= |Missing(units, 0)|
  {
    assert units[..i + 1] == units[..i] + [units[i]];
    MissingConcat(units[..i], [units[i]], 0);
    var single: seq<Option<Unit>> := [units[i]];
    assert single[1..] == [];
    assert units == units[..i + 1] + units[i + 1..];
    MissingConcat(units[..i + 1], units[i + 1..], 0);
  }
}
