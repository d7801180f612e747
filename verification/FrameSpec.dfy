/** What frame assembly computes (lib/src/frameprocessor.c), on values: units that have arrived,
    erasure correction and the payloads in index order. The erasure code itself (lib/src/fec.c over
    the jerasure library) is a parameter that is assumed to correct up to m erasures and to refuse
    more. */
module FrameSpec {
  import opened Bytes
  import Modular
  import opened Wrappers
  import opened Sequences

  type Unit = seq<byte>

  datatype Packet = Packet(unitsTotal: nat, unitsFec: nat, unitIndex: nat, isVideo: bool, data: seq<byte>)

  datatype ErrorCode = Success | InvalidData | BufTooSmall | Overflow | FecError

  datatype FlushResult = FlushSuccess | FecSuccess | FecFailed | Failed

  const UNIT_SLOTS_MAX: nat := 256
  const SIZE_MAX: nat := 0xffff_ffff_ffff_ffff

  /** A 16-bit big-endian number. */
  function Be16(d: seq<byte>): nat
    requires |d| >= 2
  {
    d[0] as int * 256 + d[1] as int
  }

  function PutBe16(n: nat): (d: seq<byte>)
    requires n < 0x1_0000
    ensures |d| == 2 && Be16(d) == n
  {
    [n / 256, n % 256]
  }

  function Stride(unitSize: nat): nat { (unitSize + 15) / 16 * 16 }

  function FecExpected(p: Packet): nat { if p.unitsFec < 1 then 1 else p.unitsFec }

  /** A source unit of a video frame says in its first two bytes by how much it is shorter than the
      largest unit. */
  predicate HasExtension(p: Packet)
    requires p.unitsTotal >= p.unitsFec
  {
    p.isVideo && p.unitIndex < p.unitsTotal - p.unitsFec
  }

  function UnitSize(p: Packet): nat
    requires p.unitsTotal >= p.unitsFec
    requires HasExtension(p) ==> |p.data| >= 2
  {
    |p.data| + if HasExtension(p) then Be16(p.data) else 0
  }

  /** What `alloc_frame` answers to the first packet of a frame. */
  function AllocResult(p: Packet): ErrorCode {
    if p.unitsTotal < p.unitsFec then InvalidData
    else if HasExtension(p) && |p.data| < 2 then BufTooSmall
    else if UnitSize(p) == 0 then BufTooSmall
    else
      var slots := p.unitsTotal - p.unitsFec + FecExpected(p);
      if slots > UNIT_SLOTS_MAX then InvalidData
      else if slots > SIZE_MAX / Stride(UnitSize(p)) then Overflow
      else Success
  }

  predicate Accepts(units: seq<Option<Unit>>, unitSize: nat, p: Packet)
    requires p.unitIndex < |units|
  {
    0 < |p.data| <= unitSize && units[p.unitIndex].None?
  }

  /** Put: a unit is kept when it is not empty, not too large and its slot is free. */
  function Put(units: seq<Option<Unit>>, unitSize: nat, p: Packet): (r: seq<Option<Unit>>)
    ensures |r| == |units|
  {
    if p.unitIndex < |units| && Accepts(units, unitSize, p) then units[p.unitIndex := Some(p.data)] else units
  }

  function Filled(units: seq<Option<Unit>>): (n: nat)
    ensures n <= |units|
  {
    if units == [] then 0 else Filled(units[1..]) + if units[0].Some? then 1 else 0
  }

  /** The empty slots in ascending order; `from` is the index of the first unit. */
  function Missing(units: seq<Option<Unit>>, from: nat): seq<nat> {
    if units == [] then [] else Empty(units[0], from) + Missing(units[1..], from + 1)
  }

  function Empty(u: Option<Unit>, i: nat): seq<nat> { if u.None? then [i] else [] }

  function Zeros(n: nat): (z: seq<byte>)
    ensures |z| == n
  {
    seq(n, _ => 0)
  }

  /** A unit as the erasure code sees it: padded with zeros to the common size. */
  function Padded(u: Option<Unit>, unitSize: nat): (p: Unit)
    requires u.Some? ==> |u.value| <= unitSize
    ensures |p| == unitSize
  {
    if u.None? then Zeros(unitSize) else u.value + Zeros(unitSize - |u.value|)
  }

  predicate Fits(units: seq<Option<Unit>>, unitSize: nat) {
    forall i :: 0 <= i < |units| && units[i].Some? ==> 0 < |units[i].value| <= unitSize
  }

  function AllPadded(units: seq<Option<Unit>>, unitSize: nat): (r: seq<Unit>)
    requires Fits(units, unitSize)
    ensures |r| == |units|
    ensures forall i :: 0 <= i < |r| ==> r[i] == Padded(units[i], unitSize)
  {
    seq(|units|, i requires 0 <= i < |units| => Padded(units[i], unitSize))
  }

  // ---------------------------------------------------------------- the erasure code

  /** `parity(data, m)` gives the m parity units; `decode(received, k, m, erasures)` the repaired units. */
  datatype Code = Code(parity: (seq<Unit>, nat) -> seq<Unit>,
                       decode: (seq<Unit>, nat, nat, seq<nat>) -> Option<seq<Unit>>)

  ghost predicate SameSize(units: seq<Unit>, unitSize: nat) {
    forall i :: 0 <= i < |units| ==> |units[i]| == unitSize
  }

  predicate Ascending(e: seq<nat>, n: nat) {
    (forall i, j :: 0 <= i < j < |e| ==> e[i] < e[j]) && (forall i :: 0 <= i < |e| ==> e[i] < n)
  }

  ghost predicate KeepsSizes(code: Code, received: seq<Unit>, k: nat, m: nat, erasures: seq<nat>) {
    var r := code.decode(received, k, m, erasures);
    r.Some? ==> |r.value| == |received| && forall i :: 0 <= i < |received| ==> |r.value[i]| == |received[i]|
  }

  ghost predicate CorrectsOne(code: Code, data: seq<Unit>, m: nat, unitSize: nat, received: seq<Unit>,
                              erasures: seq<nat>) {
    var word := data + code.parity(data, m);
    |code.parity(data, m)| == m && SameSize(word, unitSize) && SameSize(received, unitSize)
    && |received| == |word| && Ascending(erasures, |word|) && |erasures| <= m
    && (forall i :: 0 <= i < |word| && i !in erasures ==> received[i] == word[i])
    ==> code.decode(received, |data|, m, erasures) == Some(word)
  }

  /** With more erasures than parity units nothing can be restored, and the code says so. */
  ghost predicate Refuses(code: Code, received: seq<Unit>, k: nat, m: nat, erasures: seq<nat>) {
    |erasures| > m ==> code.decode(received, k, m, erasures).None?
  }

  /** The assumption about the library: the units keep their sizes, any m erasures among
      k + m equal-size units are restored, and more than m are refused. */
  ghost predicate Corrects(code: Code) {
    && (forall received, k, m, erasures :: KeepsSizes(code, received, k, m, erasures))
    && (forall received, k, m, erasures :: Refuses(code, received, k, m, erasures))
    && (forall data, m, unitSize, received, erasures :: CorrectsOne(code, data, m, unitSize, received, erasures))
  }

  // ---------------------------------------------------------------- flush

  /** The payload of a unit: what follows its two-byte header. */
  function Body(u: Unit): Unit { if |u| < 2 then [] else u[2..] }

  function Concat(parts: seq<Unit>): Unit {
    if parts == [] then [] else Concat(parts[..|parts| - 1]) + parts[|parts| - 1]
  }

  /** The part of a received unit that goes into the frame. */
  function Received(u: Option<Unit>): Unit { if u.None? then [] else u.value }

  /** A repaired unit without its padding, whose length stands in its first two bytes; when that
      makes no sense the unit keeps the size it arrived with. (Units of one byte have no payload either
      way.) */
  function Trimmed(repaired: Unit, u: Option<Unit>, unitSize: nat): Unit
    requires |repaired| == unitSize && |Received(u)| <= unitSize
  {
    var padding := if unitSize >= 2 then Be16(repaired) else unitSize;
    if padding >= unitSize then repaired[..|Received(u)|] else repaired[..unitSize - padding]
  }

  function Arrived(units: seq<Option<Unit>>, k: nat): seq<Unit>
    requires k <= |units|
  {
    seq(k, i requires 0 <= i < |units| => Body(Received(units[i])))
  }

  function Repaired(units: seq<Option<Unit>>, k: nat, unitSize: nat, d: seq<Unit>): seq<Unit>
    requires k <= |units| == |d| && Fits(units, unitSize)
    requires forall i :: 0 <= i < |d| ==> |d[i]| == unitSize
  {
    seq(k, i requires 0 <= i < |units| => Body(Trimmed(d[i], units[i], unitSize)))
  }

  /** Flush: the result code and the frame. */
  function Flush(code: Code, units: seq<Option<Unit>>, k: nat, unitSize: nat): (FlushResult, Unit)
    requires Corrects(code) && k <= |units| && Fits(units, unitSize)
  {
    if k == 0 then (Failed, [])
    else
      var (result, parts) := Parts(code, units, k, unitSize);
      (result, Concat(parts))
  }

  /** The payloads a frame is made of. */
  function Parts(code: Code, units: seq<Option<Unit>>, k: nat, unitSize: nat): (FlushResult, seq<Unit>)
    requires Corrects(code) && k <= |units| && Fits(units, unitSize)
  {
    if Filled(units[..k]) == k then (FlushSuccess, Arrived(units, k))
    else
      SizesKept(code, AllPadded(units, unitSize), k, |units| - k, Missing(units, 0));
      match code.decode(AllPadded(units, unitSize), k, |units| - k, Missing(units, 0))
      case None => (FecFailed, Arrived(units, k))
      case Some(d) => (FecSuccess, Repaired(units, k, unitSize, d))
  }

  // ---------------------------------------------------------------- facts about slots

  lemma {:induction false} FilledUpdate(units: seq<Option<Unit>>, i: nat, u: Unit)
    requires i < |units| && units[i].None?
    ensures Filled(units[i := Some(u)]) == Filled(units) + 1
  {
    if i == 0 {
      assert units[0 := Some(u)][1..] == units[1..];
    } else {
      assert units[i := Some(u)][1..] == units[1..][i - 1 := Some(u)];
      FilledUpdate(units[1..], i - 1, u);
    }
  }

  lemma {:induction false} FilledConcat(a: seq<Option<Unit>>, b: seq<Option<Unit>>)
    ensures Filled(a + b) == Filled(a) + Filled(b)
  {
    if a == [] {
      assert a + b == b;
    } else {
      assert (a + b)[1..] == a[1..] + b;
      FilledConcat(a[1..], b);
    }
  }

  lemma {:induction false} FilledAll(units: seq<Option<Unit>>)
    ensures Filled(units) == |units| <==> forall i :: 0 <= i < |units| ==> units[i].Some?
  {
    if units != [] {
      FilledAll(units[1..]);
      assert forall i :: 1 <= i < |units| ==> units[i] == units[1..][i - 1];
    }
  }

  lemma {:induction false} FilledNone(n: nat)
    ensures Filled(seq<Option<Unit>>(n, _ => None)) == 0
  {
    if n > 0 {
      assert seq<Option<Unit>>(n, _ => None)[1..] == seq<Option<Unit>>(n - 1, _ => None);
      FilledNone(n - 1);
    }
  }

  /** The erasure list is the exact ascending list of the empty slots. */
  lemma MissingExact(units: seq<Option<Unit>>, from: nat)
    ensures |Missing(units, from)| == |units| - Filled(units)
    ensures Ascending(Missing(units, from), from + |units|)
    ensures forall x :: x in Missing(units, from) <==> from <= x < from + |units| && units[x - from].None?
  {
    MissingAscends(units, from);
    forall x ensures x in Missing(units, from) <==> from <= x < from + |units| && units[x - from].None? {
      MissingMember(units, from, x);
    }
  }

  lemma {:induction false} MissingMember(units: seq<Option<Unit>>, from: nat, x: int)
    ensures x in Missing(units, from) <==> from <= x < from + |units| && units[x - from].None?
  {
    if units != [] {
      MissingMember(units[1..], from + 1, x);
      assert x in Missing(units, from) <==> x in Empty(units[0], from) || x in Missing(units[1..], from + 1);
      if from < x < from + |units| { assert units[x - from] == units[1..][x - (from + 1)]; }
    }
  }

  lemma {:induction false} MissingAscends(units: seq<Option<Unit>>, from: nat)
    ensures |Missing(units, from)| == |units| - Filled(units)
    ensures Ascending(Missing(units, from), from + |units|)
    ensures forall i :: 0 <= i < |Missing(units, from)| ==> Missing(units, from)[i] >= from
  {
    if units != [] {
      MissingAscends(units[1..], from + 1);
      AscendingCons(Empty(units[0], from), Missing(units[1..], from + 1), from, from + |units|);
    }
  }

  lemma AscendingCons(head: seq<nat>, rest: seq<nat>, from: nat, n: nat)
    requires (head == [] || head == [from]) && from < n && Ascending(rest, n)
    requires forall i :: 0 <= i < |rest| ==> rest[i] >= from + 1
    ensures Ascending(head + rest, n) && forall i :: 0 <= i < |head + rest| ==> (head + rest)[i] >= from
  {
  }

  lemma {:induction false} MissingConcat(a: seq<Option<Unit>>, b: seq<Option<Unit>>, from: nat)
    ensures Missing(a + b, from) == Missing(a, from) + Missing(b, from + |a|)
  {
    if a == [] {
      assert a + b == b;
    } else {
      MissingConcat(a[1..], b, from + 1);
      assert (a + b)[1..] == a[1..] + b && (a + b)[0] == a[0];
      Assoc(Empty(a[0], from), Missing(a[1..], from + 1), Missing(b, from + |a|));
    }
  }

  // ---------------------------------------------------------------- whole frames

  /** A frame as the console sends it: k payloads and m parity units, all padded to one size. */
  datatype Frame = Frame(payloads: seq<Unit>, m: nat, unitSize: nat)

  predicate WellFormed(f: Frame) {
    && |f.payloads| >= 1 && f.m >= 1 && |f.payloads| + f.m <= UNIT_SLOTS_MAX
    && 2 <= f.unitSize <= SIZE_MAX / 512
    && (forall i :: 0 <= i < |f.payloads| ==> |f.payloads[i]| + 2 <= f.unitSize < |f.payloads[i]| + 2 + 0x1_0000)
  }

  function SourceUnit(f: Frame, i: nat): (u: Unit)
    requires WellFormed(f) && i < |f.payloads|
    ensures 2 <= |u| <= f.unitSize
  {
    PutBe16(f.unitSize - 2 - |f.payloads[i]|) + f.payloads[i]
  }

  function SourceData(f: Frame): (r: seq<Unit>)
    requires WellFormed(f)
    ensures |r| == |f.payloads|
    ensures forall i :: 0 <= i < |r| ==> r[i] == Padded(Some(SourceUnit(f, i)), f.unitSize)
  {
    seq(|f.payloads|, i requires 0 <= i < |f.payloads| => Padded(Some(SourceUnit(f, i)), f.unitSize))
  }

  ghost predicate ParityOk(code: Code, f: Frame)
    requires WellFormed(f)
  {
    |code.parity(SourceData(f), f.m)| == f.m && SameSize(code.parity(SourceData(f), f.m), f.unitSize)
  }

  /** The padded source units followed by their parity. */
  ghost function SentWord(code: Code, f: Frame): (w: seq<Unit>)
    requires WellFormed(f) && ParityOk(code, f)
    ensures |w| == |f.payloads| + f.m && forall i :: 0 <= i < |w| ==> |w[i]| == f.unitSize
  {
    SourceData(f) + code.parity(SourceData(f), f.m)
  }

  ghost function SentUnit(code: Code, f: Frame, i: nat): (u: Unit)
    requires WellFormed(f) && ParityOk(code, f) && i < |f.payloads| + f.m
    ensures 0 < |u| <= f.unitSize
  {
    if i < |f.payloads| then SourceUnit(f, i) else code.parity(SourceData(f), f.m)[i - |f.payloads|]
  }

  ghost function SentPacket(code: Code, f: Frame, i: nat): Packet
    requires WellFormed(f) && ParityOk(code, f) && i < |f.payloads| + f.m
  {
    Packet(|f.payloads| + f.m, f.m, i, true, SentUnit(code, f, i))
  }

  /** Whichever unit arrives first gives the same geometry. */
  lemma GeometryAgrees(code: Code, f: Frame, i: nat)
    requires WellFormed(f) && ParityOk(code, f) && i < |f.payloads| + f.m
    ensures var p := SentPacket(code, f, i);
            AllocResult(p) == Success && UnitSize(p) == f.unitSize
            && p.unitsTotal - p.unitsFec == |f.payloads| && FecExpected(p) == f.m
  {
    var p := SentPacket(code, f, i);
    if i < |f.payloads| {
      var h := PutBe16(f.unitSize - 2 - |f.payloads[i]|);
      assert p.data[0] == h[0] && p.data[1] == h[1];
    }
    StrideBound(f.unitSize);
  }

  lemma StrideBound(unitSize: nat)
    requires 1 <= unitSize <= SIZE_MAX / 512
    ensures unitSize <= Stride(unitSize) <= unitSize + 15
    ensures SIZE_MAX / Stride(unitSize) >= 256
  {
    assert Stride(unitSize) * 256 <= SIZE_MAX;
    QuotientAtLeast(SIZE_MAX, Stride(unitSize), 256);
  }

  lemma QuotientAtLeast(n: nat, s: nat, q: nat)
    requires s > 0 && s * q <= n
    ensures n / s >= q
  {
    Modular.MulAtLeast(s, q - n / s);
    assert s * (q - n / s) == s * q - s * (n / s);
  }

  /** The slots after the units with the given indices have been put, in this order, with
      repetitions. */
  ghost function PutAll(code: Code, f: Frame, order: seq<nat>): (r: seq<Option<Unit>>)
    requires WellFormed(f) && ParityOk(code, f)
    requires forall j :: 0 <= j < |order| ==> order[j] < |f.payloads| + f.m
    ensures |r| == |f.payloads| + f.m
  {
    if order == [] then seq<Option<Unit>>(|f.payloads| + f.m, _ => None)
    else Put(PutAll(code, f, order[..|order| - 1]), f.unitSize, SentPacket(code, f, order[|order| - 1]))
  }

  /** The slots hold exactly the sent units whose indices are in `order`. */
  ghost predicate Holds(code: Code, f: Frame, order: seq<nat>, units: seq<Option<Unit>>)
    requires WellFormed(f) && ParityOk(code, f)
  {
    && |units| == |f.payloads| + f.m
    && (forall i :: 0 <= i < |units| ==> units[i] == if i in order then Some(SentUnit(code, f, i)) else None)
  }

  /** Only which units arrived matters, not their order or repetitions. */
  lemma {:induction false} PutAllHolds(code: Code, f: Frame, order: seq<nat>)
    requires WellFormed(f) && ParityOk(code, f)
    requires forall j :: 0 <= j < |order| ==> order[j] < |f.payloads| + f.m
    ensures Holds(code, f, order, PutAll(code, f, order))
  {
    if order != [] {
      var init, n := order[..|order| - 1], order[|order| - 1];
      PutAllHolds(code, f, init);
      assert order == init + [n];
    }
  }

  lemma {:induction false} ConcatEqual(a: seq<Unit>, b: seq<Unit>)
    requires |a| == |b| && forall i :: 0 <= i < |a| ==> a[i] == b[i]
    ensures Concat(a) == Concat(b)
  {
    assert a == b;
  }

  /** Each part follows those before it. */
  lemma {:induction false} ConcatAt(parts: seq<Unit>, i: nat)
    requires i < |parts|
    ensures Concat(parts[..i]) + parts[i] <= Concat(parts)
    ensures i == 0 ==> Concat(parts[..i]) == []
    decreases |parts|
  {
    var init := parts[..|parts| - 1];
    if i < |init| {
      ConcatAt(init, i);
      assert init[..i] == parts[..i] && init[i] == parts[i];
    }
  }

  predicate AllSources(f: Frame, order: seq<nat>) { forall i :: 0 <= i < |f.payloads| ==> i in order }

  /** The indices that arrived, and how many different ones. */
  function Indices(order: seq<nat>): set<nat> { set i | i in order }

  /** The payloads of the source units that arrived, in index order; nothing for the others. */
  function PayloadsOf(f: Frame, order: seq<nat>): (r: seq<Unit>)
    ensures |r| == |f.payloads|
    ensures forall i :: 0 <= i < |r| ==> r[i] == if i in order then f.payloads[i] else []
  {
    seq(|f.payloads|, i requires 0 <= i < |f.payloads| => if i in order then f.payloads[i] else [])
  }

  /** As many slots are filled as different units arrived. */
  lemma FilledCount(code: Code, f: Frame, order: seq<nat>)
    requires WellFormed(f) && ParityOk(code, f)
    requires forall j :: 0 <= j < |order| ==> order[j] < |f.payloads| + f.m
    ensures Filled(PutAll(code, f, order)) == |Indices(order)|
  {
    var units := PutAll(code, f, order);
    PutAllHolds(code, f, order);
    FilledSet(units);
    assert Indices(order) == FilledSlots(units);
  }

  function FilledSlots(units: seq<Option<Unit>>): set<nat> { set i: nat | i < |units| && units[i].Some? }

  lemma {:induction false} FilledSet(units: seq<Option<Unit>>)
    ensures Filled(units) == |FilledSlots(units)|
  {
    if units != [] {
      var n := |units| - 1;
      FilledSet(units[..n]);
      FilledLast(units[..n], units[n]);
      assert units == units[..n] + [units[n]];
      var before := FilledSlots(units[..n]);
      assert FilledSlots(units) == if units[n].Some? then before + {n} else before;
    }
  }

  lemma FilledLast(init: seq<Option<Unit>>, last: Option<Unit>)
    ensures Filled(init + [last]) == Filled(init) + if last.Some? then 1 else 0
  {
    var one: seq<Option<Unit>> := [last];
    assert one[1..] == [];
    FilledConcat(init, one);
  }

  /** What becomes of a frame, whichever of its units arrived, in any order and with repetitions: when
      all source units did, it is complete; when at least k of the k + m units did, it is repaired;
      with fewer it fails, and holds the payloads of the source units that arrived, in index order. */
  lemma FlushOutcome(code: Code, f: Frame, order: seq<nat>)
    requires Corrects(code) && WellFormed(f) && ParityOk(code, f)
    requires forall j :: 0 <= j < |order| ==> order[j] < |f.payloads| + f.m
    ensures Fits(PutAll(code, f, order), f.unitSize)
    ensures
      var (result, frame) := Flush(code, PutAll(code, f, order), |f.payloads|, f.unitSize);
      && (result == FlushSuccess <==> AllSources(f, order))
      && (result == FecSuccess <==> !AllSources(f, order) && |Indices(order)| >= |f.payloads|)
      && (result == FecFailed <==> |Indices(order)| < |f.payloads|)
      && frame == Concat(if |Indices(order)| >= |f.payloads| then f.payloads else PayloadsOf(f, order))
  {
    FilledCount(code, f, order);
    if |Indices(order)| >= |f.payloads| {
      FrameRecovered(code, f, order);
    } else {
      PutAllHolds(code, f, order);
      HeldTorn(code, f, order, PutAll(code, f, order));
    }
  }

  /** Too few units arrived: the code refuses, and the frame is what arrived of it. */
  lemma HeldTorn(code: Code, f: Frame, order: seq<nat>, units: seq<Option<Unit>>)
    requires Corrects(code) && WellFormed(f) && ParityOk(code, f) && Holds(code, f, order, units)
    requires Filled(units) < |f.payloads|
    ensures Fits(units, f.unitSize) && !AllSources(f, order)
    ensures Flush(code, units, |f.payloads|, f.unitSize) == (FecFailed, Concat(PayloadsOf(f, order)))
  {
    var k := |f.payloads|;
    SlotsFit(code, f, order, units);
    SourcesComplete(code, f, order, units);
    FilledParts(units, k);
    MissingExact(units, 0);
    assert Refuses(code, AllPadded(units, f.unitSize), k, f.m, Missing(units, 0));
    BodiesTorn(code, f, order, units);
  }

  lemma BodiesTorn(code: Code, f: Frame, order: seq<nat>, units: seq<Option<Unit>>)
    requires WellFormed(f) && ParityOk(code, f) && Holds(code, f, order, units)
    ensures Concat(Arrived(units, |f.payloads|)) == Concat(PayloadsOf(f, order))
  {
    var a := Arrived(units, |f.payloads|);
    forall i | 0 <= i < |a| ensures a[i] == PayloadsOf(f, order)[i] {
      if i in order { assert SourceUnit(f, i)[2..] == f.payloads[i]; }
    }
    ConcatEqual(a, PayloadsOf(f, order));
  }

  lemma FilledParts(units: seq<Option<Unit>>, k: nat)
    requires k <= |units|
    ensures Filled(units) == Filled(units[..k]) + Filled(units[k..])
  {
    assert units == units[..k] + units[k..];
    FilledConcat(units[..k], units[k..]);
  }

  /** Whatever the slots hold, a flush fails outright just when no source unit is expected, and the frame
      counts as complete just when every source slot is filled; it is then made of their payloads. With
      fewer than k filled slots the repair fails. */
  lemma FlushWhole(code: Code, units: seq<Option<Unit>>, k: nat, unitSize: nat)
    requires Corrects(code) && k <= |units| && Fits(units, unitSize)
    ensures
      var (result, frame) := Flush(code, units, k, unitSize);
      && (result == Failed <==> k == 0) && (k == 0 ==> frame == [])
      && (result == FlushSuccess <==> k > 0 && forall i :: 0 <= i < k ==> units[i].Some?)
      && (result == FlushSuccess ==> frame == Concat(Arrived(units, k)))
      && (Filled(units) < k ==> result == FecFailed)
      && (result == FecFailed ==> frame == Concat(Arrived(units, k)))
  {
    FilledParts(units, k);
    FilledAll(units[..k]);
    assert forall i :: 0 <= i < k ==> units[..k][i] == units[i];
    MissingExact(units, 0);
    assert Refuses(code, AllPadded(units, unitSize), k, |units| - k, Missing(units, 0));
  }

  /** When `alloc_frame` succeeds and how it fails, with the numbers written out: at most 256 slots, one of
      them for parity even if the packet announces none, and a buffer whose size fits 64 bits. */
  lemma AllocExact(p: Packet)
    requires p.unitsTotal >= p.unitsFec
    ensures
      var source := p.unitsTotal - p.unitsFec;
      var slots := source + if p.unitsFec == 0 then 1 else p.unitsFec;
      var video := p.isVideo && p.unitIndex < source;
      var size := |p.data| + if video && |p.data| >= 2 then p.data[0] as int * 256 + p.data[1] as int else 0;
      var tooSmall := size < if video then 2 else 1;
      && slots == source + FecExpected(p)
      && (AllocResult(p) == BufTooSmall <==> tooSmall)
      && (AllocResult(p) == InvalidData <==> !tooSmall && slots > 256)
      && (AllocResult(p) == Overflow <==>
            !tooSmall && slots <= 256 && Stride(size) * slots >= 0x1_0000_0000_0000_0000)
      && (AllocResult(p) == Success <==>
            !tooSmall && slots <= 256 && Stride(size) * slots < 0x1_0000_0000_0000_0000)
  {
    if !(HasExtension(p) && |p.data| < 2) && UnitSize(p) > 0 {
      var slots := p.unitsTotal - p.unitsFec + FecExpected(p);
      StrideRounds(UnitSize(p));
      QuotientExact(SIZE_MAX, Stride(UnitSize(p)), slots);
    }
  }

  /** Units lie at the next multiple of 16. */
  lemma StrideRounds(unitSize: nat)
    ensures Stride(unitSize) % 16 == 0 && unitSize <= Stride(unitSize) < unitSize + 16
  {
  }

  lemma QuotientExact(n: nat, s: nat, q: nat)
    requires s > 0
    ensures q > n / s <==> s * q > n
  {
    if s * q <= n {
      QuotientAtLeast(n, s, q);
    } else {
      Modular.MulAtLeast(s, n / s - q + 1);
      assert s * (n / s - q + 1) == s * (n / s) - s * q + s;
    }
  }

  /** A packet that fits slot `i`. */
  predicate Suits(p: Packet, i: nat, unitSize: nat) { p.unitIndex == i && 0 < |p.data| <= unitSize }

  /** Any packets, put one after the other. */
  function PutEach(units: seq<Option<Unit>>, unitSize: nat, packets: seq<Packet>): (r: seq<Option<Unit>>)
    ensures |r| == |units|
  {
    if packets == [] then units
    else Put(PutEach(units, unitSize, packets[..|packets| - 1]), unitSize, packets[|packets| - 1])
  }

  /** The first of them that fits slot `i`. */
  predicate FirstFor(packets: seq<Packet>, j: nat, i: nat, unitSize: nat) {
    j < |packets| && Suits(packets[j], i, unitSize) && forall h :: 0 <= h < j ==> !Suits(packets[h], i, unitSize)
  }

  /** The first unit that suits an empty slot is the one that stays in it; empty and oversized units and
      later arrivals change nothing. */
  lemma {:induction false} FirstUnitStays(units: seq<Option<Unit>>, unitSize: nat, packets: seq<Packet>, i: nat)
    requires i < |units|
    ensures var now := PutEach(units, unitSize, packets)[i];
            && (units[i].Some? ==> now == units[i])
            && (units[i].None? && now.None? ==> forall j :: 0 <= j < |packets| ==> !Suits(packets[j], i, unitSize))
            && (units[i].None? && now.Some? ==>
                  exists j: nat :: FirstFor(packets, j, i, unitSize) && now.value == packets[j].data)
  {
    if packets != [] {
      var n := |packets| - 1;
      var init := packets[..n];
      FirstUnitStays(units, unitSize, init, i);
      if units[i].None? && PutEach(units, unitSize, init)[i].Some? {
        var j: nat :| FirstFor(init, j, i, unitSize) && PutEach(units, unitSize, init)[i].value == init[j].data;
        assert FirstFor(packets, j, i, unitSize);
      } else if units[i].None? && Suits(packets[n], i, unitSize) {
        assert FirstFor(packets, n, i, unitSize);
      }
    }
  }

  /** A source unit on the wire: two bytes that say, the higher one first, by how much it is shorter than
      the largest unit, and the payload. */
  lemma WireUnit(f: Frame, i: nat)
    requires WellFormed(f) && i < |f.payloads|
    ensures
      var u := SourceUnit(f, i);
      && |u| == |f.payloads[i]| + 2 && u[2..] == f.payloads[i]
      && u[0] as int * 256 + u[1] as int == f.unitSize - |u|
  {
  }

  /** Frame recovery: any k or more of the k + m units, in any order and with repetitions, flush to
      the payloads in index order. The erasure code is used exactly when a source unit is missing. */
  lemma FrameRecovered(code: Code, f: Frame, order: seq<nat>)
    requires Corrects(code) && WellFormed(f) && ParityOk(code, f)
    requires forall j :: 0 <= j < |order| ==> order[j] < |f.payloads| + f.m
    requires Filled(PutAll(code, f, order)) >= |f.payloads|
    ensures Fits(PutAll(code, f, order), f.unitSize)
    ensures var units, k := PutAll(code, f, order), |f.payloads|;
            Flush(code, units, k, f.unitSize)
            == (if AllSources(f, order) then FlushSuccess else FecSuccess, Concat(f.payloads))
  {
    PutAllHolds(code, f, order);
    HeldRecovered(code, f, order, PutAll(code, f, order));
  }

  lemma HeldRecovered(code: Code, f: Frame, order: seq<nat>, units: seq<Option<Unit>>)
    requires Corrects(code) && WellFormed(f) && ParityOk(code, f) && Holds(code, f, order, units)
    requires Filled(units) >= |f.payloads|
    ensures Fits(units, f.unitSize)
    ensures Flush(code, units, |f.payloads|, f.unitSize)
            == (if AllSources(f, order) then FlushSuccess else FecSuccess, Concat(f.payloads))
  {
    SlotsFit(code, f, order, units);
    SourcesComplete(code, f, order, units);
    if AllSources(f, order) {
      HeldComplete(code, f, order, units);
    } else {
      HeldRepaired(code, f, order, units);
    }
  }

  lemma HeldComplete(code: Code, f: Frame, order: seq<nat>, units: seq<Option<Unit>>)
    requires Corrects(code) && WellFormed(f) && ParityOk(code, f) && Holds(code, f, order, units)
    requires AllSources(f, order)
    requires Fits(units, f.unitSize) && Filled(units[..|f.payloads|]) == |f.payloads|
    ensures Flush(code, units, |f.payloads|, f.unitSize) == (FlushSuccess, Concat(f.payloads))
  {
    BodiesArrived(code, f, units);
  }

  lemma HeldRepaired(code: Code, f: Frame, order: seq<nat>, units: seq<Option<Unit>>)
    requires Corrects(code) && WellFormed(f) && ParityOk(code, f) && Holds(code, f, order, units)
    requires Fits(units, f.unitSize) && |f.payloads| <= Filled(units) && Filled(units[..|f.payloads|]) != |f.payloads|
    ensures Flush(code, units, |f.payloads|, f.unitSize) == (FecSuccess, Concat(f.payloads))
  {
    var d, frame := RepairFacts(code, f, order, units);
    FlushRepaired(code, units, |f.payloads|, f.unitSize, d, frame);
  }

  /** What the erasure code restores, and the frame it leads to. */
  lemma RepairFacts(code: Code, f: Frame, order: seq<nat>, units: seq<Option<Unit>>) returns (d: seq<Unit>, frame: Unit)
    requires Corrects(code) && WellFormed(f) && ParityOk(code, f) && Holds(code, f, order, units)
    requires Fits(units, f.unitSize) && |f.payloads| <= Filled(units)
    ensures |d| == |units| && SameSize(d, f.unitSize) && frame == Concat(f.payloads)
    ensures code.decode(AllPadded(units, f.unitSize), |f.payloads|, |units| - |f.payloads|, Missing(units, 0))
         == Some(d)
    ensures Concat(Repaired(units, |f.payloads|, f.unitSize, d)) == frame
  {
    d, frame := SentWord(code, f), Concat(f.payloads);
    RepairWorks(code, f, order, units);
    WordShape(code, f);
    BodiesRepaired(code, f, units);
  }

  lemma FlushRepaired(code: Code, units: seq<Option<Unit>>, k: nat, unitSize: nat, d: seq<Unit>, frame: Unit)
    requires Corrects(code) && 0 < k <= |units| == |d| && Fits(units, unitSize) && SameSize(d, unitSize)
    requires Filled(units[..k]) != k
    requires code.decode(AllPadded(units, unitSize), k, |units| - k, Missing(units, 0)) == Some(d)
    requires Concat(Repaired(units, k, unitSize, d)) == frame
    ensures Flush(code, units, k, unitSize) == (FecSuccess, frame)
  {
  }

  lemma WordShape(code: Code, f: Frame)
    requires WellFormed(f) && ParityOk(code, f)
    ensures |SentWord(code, f)| == |f.payloads| + f.m && SameSize(SentWord(code, f), f.unitSize)
  {
  }

  lemma SizesKept(code: Code, received: seq<Unit>, k: nat, m: nat, erasures: seq<nat>)
    requires Corrects(code)
    ensures KeepsSizes(code, received, k, m, erasures)
  {
  }

  lemma SlotsFit(code: Code, f: Frame, order: seq<nat>, units: seq<Option<Unit>>)
    requires WellFormed(f) && ParityOk(code, f) && Holds(code, f, order, units)
    ensures Fits(units, f.unitSize)
  {
  }

  lemma SourcesComplete(code: Code, f: Frame, order: seq<nat>, units: seq<Option<Unit>>)
    requires WellFormed(f) && ParityOk(code, f) && Holds(code, f, order, units)
    ensures Filled(units[..|f.payloads|]) == |f.payloads| <==> AllSources(f, order)
  {
    var k := |f.payloads|;
    FilledAll(units[..k]);
    assert forall i :: 0 <= i < k ==> units[..k][i] == units[i];
  }

  lemma BodiesArrived(code: Code, f: Frame, units: seq<Option<Unit>>)
    requires WellFormed(f) && ParityOk(code, f) && |units| == |f.payloads| + f.m
    requires forall i :: 0 <= i < |f.payloads| ==> units[i] == Some(SentUnit(code, f, i))
    ensures Concat(Arrived(units, |f.payloads|)) == Concat(f.payloads)
  {
    var a := Arrived(units, |f.payloads|);
    forall i | 0 <= i < |a| ensures a[i] == f.payloads[i] {
      assert SourceUnit(f, i)[2..] == f.payloads[i];
    }
    ConcatEqual(a, f.payloads);
  }

  /** A repaired unit that announces an impossible padding keeps the length it arrived with: a unit that
      arrived is taken as it was, and one that did not contributes nothing. */
  lemma ImpossiblePadding(repaired: Unit, u: Option<Unit>, unitSize: nat)
    requires 2 <= unitSize == |repaired| && |Received(u)| <= unitSize
    requires u.Some? ==> repaired == Padded(u, unitSize)
    requires repaired[0] as int * 256 + repaired[1] as int >= unitSize
    ensures u.Some? ==> Trimmed(repaired, u, unitSize) == u.value
    ensures u.None? ==> Body(Trimmed(repaired, u, unitSize)) == []
  {
  }

  /** The received slots differ from the sent word only in the erasures, of which there are at most m. */
  lemma RepairWorks(code: Code, f: Frame, order: seq<nat>, units: seq<Option<Unit>>)
    requires Corrects(code) && WellFormed(f) && ParityOk(code, f) && Holds(code, f, order, units)
    requires Filled(units) >= |f.payloads| && Fits(units, f.unitSize)
    ensures code.decode(AllPadded(units, f.unitSize), |f.payloads|, f.m, Missing(units, 0))
            == Some(SentWord(code, f))
  {
    MissingExact(units, 0);
    var data, word, received := SourceData(f), SentWord(code, f), AllPadded(units, f.unitSize);
    WordShape(code, f);
    forall i | 0 <= i < |word| && i !in Missing(units, 0) ensures received[i] == word[i] {
      ReceivedAgrees(code, f, order, units, i);
    }
    Corrected(code, data, f.m, f.unitSize, word, received, Missing(units, 0));
  }

  lemma ReceivedAgrees(code: Code, f: Frame, order: seq<nat>, units: seq<Option<Unit>>, i: nat)
    requires WellFormed(f) && ParityOk(code, f) && Holds(code, f, order, units) && Fits(units, f.unitSize)
    requires i < |units| && units[i].Some?
    ensures AllPadded(units, f.unitSize)[i] == SentWord(code, f)[i]
  {
    if i >= |f.payloads| { assert SentUnit(code, f, i) + Zeros(0) == SentUnit(code, f, i); }
  }

  lemma Corrected(code: Code, data: seq<Unit>, m: nat, unitSize: nat, word: seq<Unit>, received: seq<Unit>,
                  erasures: seq<nat>)
    requires Corrects(code) && |code.parity(data, m)| == m && word == data + code.parity(data, m)
    requires SameSize(word, unitSize) && SameSize(received, unitSize) && |received| == |word|
    requires Ascending(erasures, |word|) && |erasures| <= m
    requires forall i :: 0 <= i < |word| && i !in erasures ==> received[i] == word[i]
    ensures code.decode(received, |data|, m, erasures) == Some(word)
  {
    assert CorrectsOne(code, data, m, unitSize, received, erasures);
  }

  lemma BodiesRepaired(code: Code, f: Frame, units: seq<Option<Unit>>)
    requires WellFormed(f) && ParityOk(code, f) && |units| == |f.payloads| + f.m && Fits(units, f.unitSize)
    ensures Concat(Repaired(units, |f.payloads|, f.unitSize, SentWord(code, f))) == Concat(f.payloads)
  {
    var d := SentWord(code, f);
    var r := Repaired(units, |f.payloads|, f.unitSize, d);
    forall i | 0 <= i < |r| ensures r[i] == f.payloads[i] {
      TrimRestores(f, i, units[i]);
      assert d[i] == SourceData(f)[i];
    }
    ConcatEqual(r, f.payloads);
  }

  lemma TrimRestores(f: Frame, i: nat, u: Option<Unit>)
    requires WellFormed(f) && i < |f.payloads| && |Received(u)| <= f.unitSize
    ensures Body(Trimmed(Padded(Some(SourceUnit(f, i)), f.unitSize), u, f.unitSize)) == f.payloads[i]
  {
    var s := SourceUnit(f, i);
    var p := Padded(Some(s), f.unitSize);
    var h := PutBe16(f.unitSize - 2 - |f.payloads[i]|);
    assert p[0] == h[0] && p[1] == h[1];
    assert p[..|s|] == s;
    assert s[2..] == f.payloads[i];
  }
}
