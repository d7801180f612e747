/** The slice header of H.265 as a sequence of bits (lib/src/bitstream.c, lib/src/vl_rbsp.h): what the
    parser reads, what the patch changes, and exactly when the parser reads back what the patch asked
    for. Bits are numbered from the start of the data. A read has no result when it runs past the end
    of the unit, or takes more than sixteen bits in one piece: that may leave the reader with fewer
    than the sixteen bits it needs to tell an emulation prevention octet from data. */
module SliceSpec {
  import opened Wrappers
  import opened Modular

  type Bits = seq<bool>

  /** A value and the position behind it. */
  datatype Read = Read(value: nat, next: nat)

  // ---------------------------------------------------------------- reading

  /** `n` bits as a number, the first one highest. */
  function ValueAt(bits: Bits, pos: nat, n: nat): nat
    requires pos + n <= |bits|
    decreases n, |bits|
  {
    if n == 0 then 0 else 2 * ValueAt(bits, pos, n - 1) + if bits[pos + n - 1] then 1 else 0
  }

  const MAX_READ: nat := 16

  /** `n` bits as an unsigned number. */
  function U(bits: Bits, pos: nat, n: nat): (r: Option<Read>)
    ensures r.Some? ==> r.value.next == pos + n && (n > 0 ==> r.value.next <= |bits|)
  {
    if n == 0 then Some(Read(0, pos))
    else if n > MAX_READ || pos + n > |bits| then None
    else Some(Read(ValueAt(bits, pos, n), pos + n))
  }

  /** The position of the first 1 from `pos` on. */
  function NextOne(bits: Bits, pos: nat): (r: Option<nat>)
    ensures r.Some? ==> pos <= r.value < |bits|
    decreases |bits| - pos
  {
    if pos >= |bits| then None else if bits[pos] then Some(pos) else NextOne(bits, pos + 1)
  }

  /** An unsigned number in exponential Golomb code. */
  function UE(bits: Bits, pos: nat): (r: Option<Read>)
    ensures r.Some? ==> pos < r.value.next <= |bits|
  {
    var one :- NextOne(bits, pos);
    var zeros := one - pos;
    if zeros >= MAX_READ then None
    else
      var rest :- U(bits, one + 1, zeros);
      Some(Read(Pow2(zeros) - 1 + rest.value, rest.next))
  }

  // ---------------------------------------------------------------- the header

  const TRAIL: nat := 1
  const IDR: nat := 20

  function NalType(bits: Bits, start: nat): nat
    requires start + 16 <= |bits|
  {
    ValueAt(bits, start + 1, 6)
  }

  /** The slice type, behind the fields before it. */
  function ReadType(bits: Bits, pos: nat, idr: bool): (r: Option<Read>)
    ensures r.Some? ==> pos <= r.value.next <= |bits|
  {
    var next :- SkipFields(bits, pos, idr);
    UE(bits, next)
  }

  /** The position behind the fields before the slice type. */
  function SkipFields(bits: Bits, pos: nat, idr: bool): (r: Option<nat>)
    ensures r.Some? ==> pos < r.value <= |bits|
  {
    var first :- ReadFirst(bits, pos, idr);
    var pps :- UE(bits, first.next);
    if first.value != 0 then Some(pps.next)
    else
      var address :- UE(bits, pps.next);
      Some(address.next)
  }

  /** Whether this is the first slice of its picture; a second flag follows for some pictures. */
  function ReadFirst(bits: Bits, pos: nat, idr: bool): (r: Option<Read>)
    ensures r.Some? ==> pos < r.value.next <= |bits|
  {
    var first :- U(bits, pos, 1);
    if !idr then Some(first)
    else
      var output :- U(bits, first.next, 1);
      Some(Read(first.value, output.next))
  }

  /** The short-term reference list: of no P slice, none in this header, one that is too long, or one
      with its length and the position of its first entry. */
  datatype RefList = Absent | FromSps | TooLong | Inline(count: nat, next: nat)

  function ReadRefList(bits: Bits, pos: nat, pocBits: nat): (r: Option<RefList>)
    ensures r.Some? && r.value.Inline? ==> pos <= r.value.next <= |bits| && r.value.count <= 16
    ensures r.Some? ==> !r.value.Absent?
  {
    var sps :- ReadSpsFlag(bits, pos, pocBits);
    if sps.value != 0 then Some(FromSps) else ReadCounts(bits, sps.next)
  }

  /** Whether the list is one of the SPS, behind the picture order count. */
  function ReadSpsFlag(bits: Bits, pos: nat, pocBits: nat): (r: Option<Read>)
    ensures r.Some? ==> pos < r.value.next == pos + pocBits + 1 <= |bits|
  {
    var poc :- U(bits, pos, pocBits);
    U(bits, poc.next, 1)
  }

  /** The numbers of entries of an inline list. */
  function ReadCounts(bits: Bits, pos: nat): (r: Option<RefList>)
    ensures r.Some? && r.value.Inline? ==> pos <= r.value.next <= |bits| && r.value.count <= 16
    ensures r.Some? ==> r.value.Inline? || r.value.TooLong?
  {
    var negative :- UE(bits, pos);
    if negative.value > 16 then Some(TooLong)
    else
      var positive :- UE(bits, negative.next);
      Some(Inline(negative.value, positive.next))
  }

  const NO_REFERENCE: nat := 0xff

  /** The position of the flag in the entry at `pos`: the entry's distance comes before it. */
  function Flag(bits: Bits, pos: nat): Option<nat> {
    var delta :- UE(bits, pos);
    if delta.next < |bits| then Some(delta.next) else None
  }

  /** How to find the flag of an entry; `Flag` is the one of this syntax. */
  type Finder = (Bits, nat) -> Option<nat>

  /** The first entry in use, from entry `i` at `pos` on. */
  function FindUsed(flag: Finder, bits: Bits, pos: nat, i: nat, count: nat): Option<nat>
    decreases count - i
  {
    if i >= count then Some(NO_REFERENCE)
    else
      var p :- flag(bits, pos);
      if p >= |bits| then None else if bits[p] then Some(i) else FindUsed(flag, bits, p + 1, i + 1, count)
  }

  datatype SliceType = SliceUnknown | SliceI | SliceP

  /** What the parser reports; `referenceFrame` keeps its old value where the header says nothing. */
  datatype Slice = Slice(sliceType: SliceType, referenceFrame: nat)

  datatype Answer = Rejected | Accepted(slice: Slice)

  function TypeOf(kind: nat): SliceType {
    if kind == 1 then SliceP else if kind == 2 then SliceI else SliceUnknown
  }

  /** `slice_h265` behind the start code. */
  function ParseSlice(bits: Bits, start: nat, pocBits: nat, before: Slice): Option<Answer> {
    if start + 16 > |bits| then None
    else
      var nalType := NalType(bits, start);
      if nalType != TRAIL && nalType != IDR then Some(Rejected)
      else ParsePayload(bits, start + 16, nalType == IDR, pocBits, before)
  }

  function ParsePayload(bits: Bits, pos: nat, idr: bool, pocBits: nat, before: Slice): Option<Answer> {
    var kind :- ReadType(bits, pos, idr);
    if idr then Some(Accepted(Slice(TypeOf(kind.value), before.referenceFrame)))
    else ParseList(bits, kind.next, pocBits, TypeOf(kind.value))
  }

  function ParseList(bits: Bits, pos: nat, pocBits: nat, sliceType: SliceType): Option<Answer> {
    var list :- ReadRefList(bits, pos, pocBits);
    match list
    case TooLong => Some(Rejected)
    case Inline(count, next) =>
      var used :- FindUsed(Flag, bits, next, 0, count);
      Some(Accepted(Slice(sliceType, used)))
    case _ => Some(Accepted(Slice(sliceType, NO_REFERENCE)))
  }

  // ---------------------------------------------------------------- the patch

  /** The patch reports success, reports failure, or needs a read that has no result. */
  datatype Outcome = Done | Refused | NoResult

  /** What the patch answers and what it leaves in memory. */
  datatype Patched = Patched(outcome: Outcome, bits: Bits)

  /** Clear the flags of the entries before `frame` and set its own, from entry `i` on. Flags are found
      in the bits that were read, `seen`, and changed in memory, `skew` bits further on. */
  function PatchFrom(flag: Finder, seen: Bits, memory: Bits, skew: nat,
    pos: nat, i: nat, count: nat, frame: nat): (r: Patched)
    ensures |r.bits| == |memory|
    decreases count - i
  {
    if i >= count then Patched(Refused, memory)
    else
      match flag(seen, pos)
      case None => Patched(NoResult, memory)
      case Some(p) =>
        if p + skew >= |memory| then Patched(NoResult, memory)
        else if i == frame then Patched(Done, memory[p + skew := true])
        else PatchFrom(flag, seen, memory[p + skew := false], skew, p + 1, i + 1, count, frame)
  }

  /** The list the patch works on. */
  function PatchList(bits: Bits, start: nat, pocBits: nat): (r: Option<RefList>)
    ensures r.Some? && r.value.Inline? ==> start + 16 <= r.value.next <= |bits| && r.value.count <= 16
  {
    if start + 16 > |bits| then None
    else if NalType(bits, start) != TRAIL then Some(Absent)
    else PayloadList(bits, start + 16, pocBits)
  }

  function PayloadList(bits: Bits, pos: nat, pocBits: nat): (r: Option<RefList>)
    ensures r.Some? && r.value.Inline? ==> pos <= r.value.next <= |bits| && r.value.count <= 16
  {
    var kind :- ReadType(bits, pos, false);
    if kind.value != 1 then Some(Absent) else ReadRefList(bits, kind.next, pocBits)
  }

  /** `slice_set_reference_frame_h265` behind the start code. */
  function Patch(seen: Bits, memory: Bits, skew: nat, start: nat, pocBits: nat, frame: nat): (r: Patched)
    ensures |r.bits| == |memory|
  {
    if start + 16 > |seen| then Patched(NoResult, memory)
    else if NalType(seen, start) != TRAIL then Patched(Refused, memory)
    else PatchPayload(seen, memory, skew, start + 16, pocBits, frame)
  }

  function PatchPayload(seen: Bits, memory: Bits, skew: nat, pos: nat, pocBits: nat, frame: nat): (r: Patched)
    ensures |r.bits| == |memory|
  {
    PatchBy(PayloadList(seen, pos, pocBits), seen, memory, skew, frame)
  }

  function PatchBy(list: Option<RefList>, seen: Bits, memory: Bits, skew: nat, frame: nat): (r: Patched)
    ensures |r.bits| == |memory|
  {
    match list
    case None => Patched(NoResult, memory)
    case Some(Inline(count, next)) => PatchFrom(Flag, seen, memory, skew, next, 0, count, frame)
    case Some(_) => Patched(Refused, memory)
  }

  // ---------------------------------------------------------------- the unit

  /** The bits at `pos` are those of `pattern`. */
  predicate Holds(bits: Bits, pos: nat, pattern: Bits) {
    pos + |pattern| <= |bits| && bits[pos..pos + |pattern|] == pattern
  }

  /** The number one in four octets and in three, and the number three in three. */
  function StartCode(): Bits { seq(32, i => i == 31) }
  function ShortStartCode(): Bits { seq(24, i => i == 23) }
  function EscapeCode(): Bits { seq(24, i => i >= 22) }

  /** The position behind the first start code, among the first 65 bytes. */
  function FindStart(bits: Bits, k: nat): (r: Option<nat>)
    ensures r.Some? ==> 32 <= r.value <= |bits| && r.value % 8 == 0
    decreases 64 - k, |bits|
  {
    if Holds(bits, 8 * k, StartCode()) then Some(8 * k + 32)
    else if k < 64 then FindStart(bits, k + 1)
    else None
  }

  predicate NextUnit(bits: Bits, pos: nat) {
    Holds(bits, pos, ShortStartCode()) || Holds(bits, pos, StartCode())
  }

  /** Where the unit ends whose payload begins at `pos`: at the next start code, or with the data. */
  function UnitEnd(bits: Bits, pos: nat): (end: nat)
    ensures end <= |bits| && (pos <= |bits| ==> pos <= end)
    decreases |bits| - pos
  {
    if pos + 24 > |bits| then |bits| else if NextUnit(bits, pos) then pos else UnitEnd(bits, pos + 8)
  }

  function Unit(bits: Bits, start: nat): Bits {
    bits[..UnitEnd(bits, start + 16)]
  }

  /** The reader first loads at least four octets of the payload, up to a multiple of four in the address
      space or the end of the data. */
  function FirstLoad(length: nat, address: nat, payload: nat): nat {
    var octet := payload / 8 + 4;
    var loaded := octet + (4 - (address + octet) % 4) % 4;
    if 8 * loaded > length then length else 8 * loaded
  }

  /** It ends at the first multiple of four, in the address space, that is at least four octets into the
      payload, or with the data. */
  lemma FirstLoadExact(length: nat, address: nat, payload: nat)
    ensures
      var load, least := FirstLoad(length, address, payload), payload / 8 + 4;
      load <= length &&
      (load < length ==>
         load % 8 == 0 && (address + load / 8) % 4 == 0 && least <= load / 8 < least + 4)
  {
    var least := payload / 8 + 4;
    var over := (address + least) % 4;
    assert (address + (least + (4 - over) % 4)) % 4 == 0;
  }

  /** The part of the first load that lies behind the end of the unit. The reader drops these bits, but
      does not move its data pointer back. */
  function Skew(bits: Bits, address: nat): nat {
    match FindStart(bits, 0)
    case None => 0
    case Some(start) => SkewFrom(bits, address, start + 16)
  }

  function SkewFrom(bits: Bits, address: nat, payload: nat): (skew: nat)
    ensures UnitEnd(bits, payload) + skew <= |bits|
  {
    var loaded, end := FirstLoad(|bits|, address, payload), UnitEnd(bits, payload);
    if loaded > end then loaded - end else 0
  }

  /** `slice_h265` on a whole NAL unit. */
  function SliceOf(bits: Bits, pocBits: nat, before: Slice): Option<Answer> {
    match FindStart(bits, 0)
    case None => Some(Rejected)
    case Some(start) => ParseSlice(Unit(bits, start), start, pocBits, before)
  }

  /** `slice_set_reference_frame_h265` on a whole NAL unit, with a given skew. */
  function PatchOf(bits: Bits, skew: nat, pocBits: nat, frame: nat): (r: Patched)
    ensures |r.bits| == |bits|
  {
    match FindStart(bits, 0)
    case None => Patched(Refused, bits)
    case Some(start) =>
      Patch(Unit(bits, start), bits, skew, start, pocBits, frame)
  }

  // ---------------------------------------------------------------- reads depend only on what they read

  predicate Agree(a: Bits, b: Bits, from: nat, to: nat) {
    to <= |a| && to <= |b| && forall k :: from <= k < to ==> a[k] == b[k]
  }

  lemma {:induction false} SameValue(a: Bits, p: nat, b: Bits, q: nat, n: nat)
    requires p + n <= |a| && q + n <= |b| && a[p..p + n] == b[q..q + n]
    ensures ValueAt(a, p, n) == ValueAt(b, q, n)
  {
    if n > 0 {
      assert a[p..p + n - 1] == a[p..p + n][..n - 1] && b[q..q + n - 1] == b[q..q + n][..n - 1];
      assert a[p + n - 1] == a[p..p + n][n - 1] && b[q + n - 1] == b[q..q + n][n - 1];
      SameValue(a, p, b, q, n - 1);
    }
  }

  lemma UAgree(a: Bits, b: Bits, pos: nat, n: nat)
    requires U(a, pos, n).Some? && Agree(a, b, pos, pos + n)
    ensures U(b, pos, n) == U(a, pos, n)
  {
    assert a[pos..pos + n] == b[pos..pos + n];
    SameValue(a, pos, b, pos, n);
  }

  lemma {:induction false} NextOneAgree(a: Bits, b: Bits, pos: nat)
    requires NextOne(a, pos).Some? && Agree(a, b, pos, NextOne(a, pos).value + 1)
    ensures NextOne(b, pos) == NextOne(a, pos)
    decreases |a| - pos
  {
    if !a[pos] { NextOneAgree(a, b, pos + 1); }
  }

  lemma UEAgree(a: Bits, b: Bits, pos: nat)
    requires UE(a, pos).Some? && Agree(a, b, pos, UE(a, pos).value.next)
    ensures UE(b, pos) == UE(a, pos)
  {
    var one := NextOne(a, pos).value;
    NextOneAgree(a, b, pos);
    if one > pos { UAgree(a, b, one + 1, one - pos); }
  }

  lemma TypeAgree(a: Bits, b: Bits, pos: nat, idr: bool)
    requires ReadType(a, pos, idr).Some? && Agree(a, b, pos, ReadType(a, pos, idr).value.next)
    ensures ReadType(b, pos, idr) == ReadType(a, pos, idr)
  {
    FieldsAgree(a, b, pos, idr);
    UEAgree(a, b, SkipFields(a, pos, idr).value);
  }

  lemma FieldsAgree(a: Bits, b: Bits, pos: nat, idr: bool)
    requires SkipFields(a, pos, idr).Some? && Agree(a, b, pos, SkipFields(a, pos, idr).value)
    ensures SkipFields(b, pos, idr) == SkipFields(a, pos, idr)
  {
    var first := ReadFirst(a, pos, idr).value;
    var pps := UE(a, first.next).value;
    UAgree(a, b, pos, 1);
    if idr { UAgree(a, b, pos + 1, 1); }
    UEAgree(a, b, first.next);
    if first.value == 0 { UEAgree(a, b, pps.next); }
  }

  /** Where reading of the list ends. */
  function ListNext(bits: Bits, list: Option<RefList>): nat {
    match list
    case Some(Inline(_, next)) => next
    case _ => |bits|
  }

  lemma RefListAgree(a: Bits, b: Bits, pos: nat, pocBits: nat)
    requires ReadRefList(a, pos, pocBits).Some? && Agree(a, b, pos, ListNext(a, ReadRefList(a, pos, pocBits)))
    ensures ReadRefList(b, pos, pocBits) == ReadRefList(a, pos, pocBits)
  {
    var sps := ReadSpsFlag(a, pos, pocBits).value;
    if pocBits > 0 { UAgree(a, b, pos, pocBits); }
    UAgree(a, b, pos + pocBits, 1);
    if sps.value == 0 { CountsAgree(a, b, sps.next); }
  }

  lemma CountsAgree(a: Bits, b: Bits, pos: nat)
    requires ReadCounts(a, pos).Some? && Agree(a, b, pos, ListNext(a, ReadCounts(a, pos)))
    ensures ReadCounts(b, pos) == ReadCounts(a, pos)
  {
    var negative := UE(a, pos).value;
    UEAgree(a, b, pos);
    if negative.value <= 16 { UEAgree(a, b, negative.next); }
  }

  lemma NalTypeAgree(a: Bits, b: Bits, start: nat)
    requires start + 16 <= |a| && Agree(a, b, start, start + 16)
    ensures NalType(b, start) == NalType(a, start)
  {
    assert a[start + 1..start + 7] == b[start + 1..start + 7];
    SameValue(a, start + 1, b, start + 1, 6);
  }

  lemma PatchListAgree(a: Bits, b: Bits, start: nat, pocBits: nat)
    requires PatchList(a, start, pocBits).Some? && PatchList(a, start, pocBits).value.Inline?
    requires Agree(a, b, start, PatchList(a, start, pocBits).value.next)
    ensures PatchList(b, start, pocBits) == PatchList(a, start, pocBits)
  {
    var kind := TypeBeforeList(a, start, pocBits);
    HeadAgree(a, b, start);
    RefListAgree(a, b, kind.next, pocBits);
  }

  /** The slice type read before an inline list. */
  lemma TypeBeforeList(bits: Bits, start: nat, pocBits: nat) returns (kind: Read)
    requires PatchList(bits, start, pocBits).Some? && PatchList(bits, start, pocBits).value.Inline?
    ensures start + 16 <= kind.next <= |bits| && NalType(bits, start) == TRAIL
    ensures ReadType(bits, start + 16, false) == Some(kind) && kind.value == 1
    ensures PatchList(bits, start, pocBits) == ReadRefList(bits, kind.next, pocBits)
  {
    kind := ReadType(bits, start + 16, false).value;
  }

  lemma HeadAgree(a: Bits, b: Bits, start: nat)
    requires start + 16 <= |a| && ReadType(a, start + 16, false).Some?
    requires Agree(a, b, start, ReadType(a, start + 16, false).value.next)
    ensures NalType(b, start) == NalType(a, start)
    ensures ReadType(b, start + 16, false) == ReadType(a, start + 16, false)
  {
    NalTypeAgree(a, b, start);
    TypeAgree(a, b, start + 16, false);
  }

  // ---------------------------------------------------------------- the flags

  /** A flag lies behind the start of its entry, and only the bits between decide where. */
  ghost predicate Local(flag: Finder) {
    && (forall a: Bits, pos: nat :: flag(a, pos).Some? ==> pos < flag(a, pos).value < |a|)
    && forall a: Bits, b: Bits, pos: nat :: SameEntry(flag, a, b, pos) ==> flag(b, pos) == flag(a, pos)
  }

  ghost predicate SameEntry(flag: Finder, a: Bits, b: Bits, pos: nat) {
    var p := flag(a, pos);
    p.Some? && p.value < |b| && Agree(a, b, pos, p.value)
  }

  lemma FlagIsLocal()
    ensures Local(Flag)
  {
    forall a: Bits, b: Bits, pos: nat | SameEntry(Flag, a, b, pos) ensures Flag(b, pos) == Flag(a, pos) {
      UEAgree(a, b, pos);
    }
  }

  /** The position of the flag of entry `j`, counted from entry `i` at `pos`. */
  function FlagAt(flag: Finder, bits: Bits, pos: nat, i: nat, j: nat): Option<nat>
    decreases j - i
  {
    var p :- flag(bits, pos);
    if j <= i then Some(p) else FlagAt(flag, bits, p + 1, i + 1, j)
  }

  lemma {:induction false} FlagAfter(flag: Finder, a: Bits, pos: nat, i: nat, j: nat)
    requires Local(flag) && FlagAt(flag, a, pos, i, j).Some?
    ensures pos < FlagAt(flag, a, pos, i, j).value < |a|
    decreases j - i
  {
    if j > i { FlagAfter(flag, a, flag(a, pos).value + 1, i + 1, j); }
  }

  /** Flags before one that can be reached can be reached. */
  lemma {:induction false} FlagBefore(flag: Finder, bits: Bits, pos: nat, i: nat, j: nat, k: nat)
    requires Local(flag) && i <= j < k && FlagAt(flag, bits, pos, i, k).Some?
    ensures FlagAt(flag, bits, pos, i, j).Some?
    ensures FlagAt(flag, bits, pos, i, j).value < FlagAt(flag, bits, pos, i, k).value
    decreases j - i
  {
    var p := flag(bits, pos).value;
    if i < j { FlagBefore(flag, bits, p + 1, i + 1, j, k); } else { FlagAfter(flag, bits, p + 1, i + 1, k); }
  }

  // ---------------------------------------------------------------- what the patch writes

  /** Bit `k` of memory is written as the flag of entry `j`. */
  ghost predicate WrittenAs(flag: Finder, seen: Bits, skew: nat, pos: nat, i: nat, j: nat, k: nat) {
    var p := FlagAt(flag, seen, pos, i, j);
    p.Some? && p.value + skew == k
  }

  /** Bit `k` of memory is written as the flag of an entry from `i` on and before `to`. */
  ghost predicate Cleared(flag: Finder, seen: Bits, skew: nat, pos: nat, i: nat, to: nat, k: nat) {
    exists j: nat :: i <= j < to && WrittenAs(flag, seen, skew, pos, i, j, k)
  }

  /** Bit `k` as the patch is to leave it. */
  ghost function Wanted(flag: Finder, seen: Bits, memory: Bits, skew: nat,
    pos: nat, i: nat, count: nat, frame: nat, k: nat): bool
    requires k < |memory|
  {
    if frame < count && WrittenAs(flag, seen, skew, pos, i, frame, k) then true
    else if Cleared(flag, seen, skew, pos, i, if frame < count then frame else count, k) then false
    else memory[k]
  }

  /** What the patch leaves in memory, bit for bit, whether it succeeds or not. */
  lemma {:induction false} PatchedBit(flag: Finder, seen: Bits, memory: Bits, skew: nat,
    pos: nat, i: nat, count: nat, frame: nat, k: nat)
    requires Local(flag) && i <= frame && |seen| + skew <= |memory| && k < |memory|
    ensures PatchFrom(flag, seen, memory, skew, pos, i, count, frame).bits[k]
         == Wanted(flag, seen, memory, skew, pos, i, count, frame, k)
    decreases count - i
  {
    if i < count && flag(seen, pos).Some? && i != frame {
      var p := flag(seen, pos).value;
      PatchedBit(flag, seen, memory[p + skew := false], skew, p + 1, i + 1, count, frame, k);
      WantedNext(flag, seen, memory, skew, pos, i, count, frame, k);
    }
  }

  lemma WantedNext(flag: Finder, seen: Bits, memory: Bits, skew: nat,
    pos: nat, i: nat, count: nat, frame: nat, k: nat)
    requires Local(flag) && i < frame && i < count && |seen| + skew <= |memory| && k < |memory|
    requires flag(seen, pos).Some?
    ensures
      var p := flag(seen, pos).value;
      Wanted(flag, seen, memory[p + skew := false], skew, p + 1, i + 1, count, frame, k)
      == Wanted(flag, seen, memory, skew, pos, i, count, frame, k)
  {
    var p := flag(seen, pos).value;
    var to := if frame < count then frame else count;
    ClearedNext(flag, seen, skew, pos, i, to, k);
    if k == p + skew && frame < count && WrittenAs(flag, seen, skew, pos, i, frame, k) {
      FlagAfter(flag, seen, p + 1, i + 1, frame);
    }
  }

  lemma ClearedNext(flag: Finder, seen: Bits, skew: nat, pos: nat, i: nat, to: nat, k: nat)
    requires Local(flag) && i < to && flag(seen, pos).Some?
    ensures
      var p := flag(seen, pos).value;
      Cleared(flag, seen, skew, pos, i, to, k) <==> k == p + skew || Cleared(flag, seen, skew, p + 1, i + 1, to, k)
  {
    var p := flag(seen, pos).value;
    if k == p + skew { assert WrittenAs(flag, seen, skew, pos, i, i, k); }
    if Cleared(flag, seen, skew, p + 1, i + 1, to, k) {
      var j: nat :| i + 1 <= j < to && WrittenAs(flag, seen, skew, p + 1, i + 1, j, k);
      assert WrittenAs(flag, seen, skew, pos, i, j, k);
    }
    if Cleared(flag, seen, skew, pos, i, to, k) && k != p + skew {
      var j: nat :| i <= j < to && WrittenAs(flag, seen, skew, pos, i, j, k);
      assert i < j && WrittenAs(flag, seen, skew, p + 1, i + 1, j, k);
    }
  }

  /** The patch of a list succeeds exactly when the entry exists and its flag can be reached, and
      reports failure exactly when the entry does not exist and every flag can be reached. */
  lemma {:induction false} PatchFromExact(flag: Finder, seen: Bits, memory: Bits, skew: nat,
    pos: nat, i: nat, count: nat, frame: nat)
    requires Local(flag) && i <= frame && |seen| + skew <= |memory|
    ensures
      var outcome := PatchFrom(flag, seen, memory, skew, pos, i, count, frame).outcome;
      && (outcome.Done? <==> frame < count && FlagAt(flag, seen, pos, i, frame).Some?)
      && (outcome.Refused? <==> count <= frame && (i < count ==> FlagAt(flag, seen, pos, i, count - 1).Some?))
    decreases count - i
  {
    if i < count && flag(seen, pos).Some? && i != frame {
      var p := flag(seen, pos).value;
      PatchFromExact(flag, seen, memory[p + skew := false], skew, p + 1, i + 1, count, frame);
    }
  }

  /** Nothing up to the list is touched. */
  lemma {:induction false} PatchFromKeeps(flag: Finder, seen: Bits, memory: Bits, skew: nat,
    pos: nat, i: nat, count: nat, frame: nat)
    requires Local(flag) && i <= frame && |seen| + skew <= |memory| && pos <= |seen|
    ensures Agree(memory, PatchFrom(flag, seen, memory, skew, pos, i, count, frame).bits, 0, pos + skew)
    decreases count - i
  {
    if i < count && flag(seen, pos).Some? && i != frame {
      var p := flag(seen, pos).value;
      PatchFromKeeps(flag, seen, memory[p + skew := false], skew, p + 1, i + 1, count, frame);
    }
  }

  // ---------------------------------------------------------------- reading back a list

  /** The flag of an entry, in bits that agree with the others up to it or to their own end. */
  lemma FlagCut(flag: Finder, seen: Bits, cut: Bits, pos: nat)
    requires Local(flag) && flag(seen, pos).Some?
    requires
      var p := flag(seen, pos).value;
      forall k :: pos <= k < p && k < |cut| ==> k < |seen| && cut[k] == seen[k]
    ensures
      var p := flag(seen, pos).value;
      flag(cut, pos) == if p < |cut| then Some(p) else None
  {
    var p := flag(seen, pos).value;
    if p < |cut| {
      assert SameEntry(flag, seen, cut, pos);
    } else if flag(cut, pos).Some? {
      assert SameEntry(flag, cut, seen, pos);
    }
  }

  /** A patched list, read back from the first `n` bits, yields the chosen entry if its flag is among
      these bits, and has no result otherwise. */
  lemma {:induction false} PatchFromReadsBack(flag: Finder, seen: Bits, memory: Bits,
    pos: nat, i: nat, count: nat, frame: nat, n: nat)
    requires Local(flag) && i <= frame && n <= |seen| && Agree(seen, memory, pos, |seen|)
    requires PatchFrom(flag, seen, memory, 0, pos, i, count, frame).outcome.Done?
    requires FlagAt(flag, seen, pos, i, frame).Some?
    ensures
      var after := PatchFrom(flag, seen, memory, 0, pos, i, count, frame).bits;
      FindUsed(flag, after[..n], pos, i, count)
      == if FlagAt(flag, seen, pos, i, frame).value < n then Some(frame) else None
    decreases count - i
  {
    var after := PatchFrom(flag, seen, memory, 0, pos, i, count, frame).bits;
    var p := flag(seen, pos).value;
    if i < frame {
      PatchFromKeeps(flag, seen, memory[p := false], 0, p + 1, i + 1, count, frame);
      FlagAfter(flag, seen, p + 1, i + 1, frame);
      PatchFromReadsBack(flag, seen, memory[p := false], p + 1, i + 1, count, frame, n);
    }
    FlagCut(flag, seen, after[..n], pos);
  }

  /** A list without the chosen entry has no entry in use when it is read back, if it can be read. */
  lemma {:induction false} PatchFromLoses(flag: Finder, seen: Bits, memory: Bits,
    pos: nat, i: nat, count: nat, frame: nat, n: nat)
    requires Local(flag) && i <= frame && n <= |seen| && Agree(seen, memory, pos, |seen|)
    requires PatchFrom(flag, seen, memory, 0, pos, i, count, frame).outcome.Refused?
    requires i < count ==> FlagAt(flag, seen, pos, i, count - 1).Some?
    ensures
      var after := PatchFrom(flag, seen, memory, 0, pos, i, count, frame).bits;
      FindUsed(flag, after[..n], pos, i, count)
      == if i < count && FlagAt(flag, seen, pos, i, count - 1).value >= n then None else Some(NO_REFERENCE)
    decreases count - i
  {
    if i < count {
      var after := PatchFrom(flag, seen, memory, 0, pos, i, count, frame).bits;
      var p := flag(seen, pos).value;
      PatchFromKeeps(flag, seen, memory[p := false], 0, p + 1, i + 1, count, frame);
      if i + 1 < count { FlagAfter(flag, seen, p + 1, i + 1, count - 1); }
      PatchFromLoses(flag, seen, memory[p := false], p + 1, i + 1, count, frame, n);
      FlagCut(flag, seen, after[..n], pos);
    }
  }

  // ---------------------------------------------------------------- failed patches

  /** No flag that can be reached is set where the patch writes it. */
  ghost predicate AllClear(flag: Finder, seen: Bits, memory: Bits, skew: nat, pos: nat, i: nat, count: nat) {
    forall k: nat :: k < |memory| && Cleared(flag, seen, skew, pos, i, count, k) ==> !memory[k]
  }

  /** A failed patch has left the data alone if and only if no flag that can be reached was set, and
      leaves none set, whether the entry is missing or its flag out of reach. */
  lemma FailedPatchFromExact(flag: Finder, seen: Bits, memory: Bits, skew: nat,
    pos: nat, i: nat, count: nat, frame: nat)
    requires Local(flag) && i <= frame && |seen| + skew <= |memory|
    requires !PatchFrom(flag, seen, memory, skew, pos, i, count, frame).outcome.Done?
    ensures
      var after := PatchFrom(flag, seen, memory, skew, pos, i, count, frame).bits;
      && (after == memory <==> AllClear(flag, seen, memory, skew, pos, i, count))
      && AllClear(flag, seen, after, skew, pos, i, count)
  {
    var after := PatchFrom(flag, seen, memory, skew, pos, i, count, frame).bits;
    PatchFromExact(flag, seen, memory, skew, pos, i, count, frame);
    forall k: nat | k < |memory|
      ensures after[k] == (memory[k] && !Cleared(flag, seen, skew, pos, i, count, k))
    {
      PatchedBit(flag, seen, memory, skew, pos, i, count, frame, k);
      ClearedBefore(flag, seen, skew, pos, i, count, frame, k);
    }
    if AllClear(flag, seen, memory, skew, pos, i, count) {
      forall k: nat | k < |memory| ensures after[k] == memory[k] { }
    }
  }

  /** When the flag of the chosen entry cannot be reached, neither can those behind it. */
  lemma ClearedBefore(flag: Finder, seen: Bits, skew: nat, pos: nat, i: nat, count: nat, frame: nat, k: nat)
    requires Local(flag) && i <= frame && !(frame < count && FlagAt(flag, seen, pos, i, frame).Some?)
    ensures
      Cleared(flag, seen, skew, pos, i, count, k)
      <==> Cleared(flag, seen, skew, pos, i, if frame < count then frame else count, k)
  {
    if frame < count && Cleared(flag, seen, skew, pos, i, count, k) {
      var j: nat :| i <= j < count && WrittenAs(flag, seen, skew, pos, i, j, k);
      if frame < j { FlagBefore(flag, seen, pos, i, frame, j); }
      assert j < frame && WrittenAs(flag, seen, skew, pos, i, j, k);
    }
  }

  // ---------------------------------------------------------------- whole units

  /** The start of a unit, and the list in it that the patch works on. */
  ghost predicate HasList(bits: Bits, pocBits: nat, start: nat, list: RefList) {
    && FindStart(bits, 0) == Some(start) && list.Inline?
    && PatchList(Unit(bits, start), start, pocBits) == Some(list)
  }

  /** A unit without such a list is refused, or cannot be read up to its list. */
  lemma PatchWithoutList(bits: Bits, skew: nat, pocBits: nat, frame: nat)
    requires forall start: nat, list :: !HasList(bits, pocBits, start, list)
    ensures
      var r := PatchOf(bits, skew, pocBits, frame);
      !r.outcome.Done? && r.bits == bits
  {
    if FindStart(bits, 0).Some? {
      var start := FindStart(bits, 0).value;
      var list := PatchList(Unit(bits, start), start, pocBits);
      var known := if list.Some? then list.value else Absent;
      assert HasList(bits, pocBits, start, known) <==> known.Inline?;
    }
  }

  /** The patch of a unit with a list. */
  lemma PatchByList(bits: Bits, skew: nat, pocBits: nat, start: nat, list: RefList, frame: nat)
    requires HasList(bits, pocBits, start, list)
    ensures PatchOf(bits, skew, pocBits, frame)
         == PatchFrom(Flag, Unit(bits, start), bits, skew, list.next, 0, list.count, frame)
  {
  }

  /** Where the flag of an entry is found. */
  ghost function FlagOf(bits: Bits, start: nat, list: RefList, j: nat): Option<nat>
    requires list.Inline?
  {
    FlagAt(Flag, Unit(bits, start), list.next, 0, j)
  }

  /** The patch of a unit with a list succeeds exactly when the chosen entry exists and its flag can be
      reached, and reports failure exactly when it does not exist and all flags can be reached. */
  lemma PatchExact(bits: Bits, skew: nat, pocBits: nat, start: nat, list: RefList, frame: nat)
    requires HasList(bits, pocBits, start, list) && |Unit(bits, start)| + skew <= |bits|
    ensures
      var outcome := PatchOf(bits, skew, pocBits, frame).outcome;
      && (outcome.Done? <==> frame < list.count && FlagOf(bits, start, list, frame).Some?)
      && (outcome.Refused? <==>
            list.count <= frame && (list.count > 0 ==> FlagOf(bits, start, list, list.count - 1).Some?))
  {
    PatchByList(bits, skew, pocBits, start, list, frame);
    EntriesExact(Unit(bits, start), bits, skew, list.next, list.count, frame);
  }

  lemma EntriesExact(seen: Bits, memory: Bits, skew: nat, next: nat, count: nat, frame: nat)
    requires |seen| + skew <= |memory|
    ensures
      var outcome := PatchFrom(Flag, seen, memory, skew, next, 0, count, frame).outcome;
      && (outcome.Done? <==> frame < count && FlagAt(Flag, seen, next, 0, frame).Some?)
      && (outcome.Refused? <==> count <= frame && (count > 0 ==> FlagAt(Flag, seen, next, 0, count - 1).Some?))
  {
    FlagIsLocal();
    PatchFromExact(Flag, seen, memory, skew, next, 0, count, frame);
  }

  /** Bit `k` of a unit as the patch is to leave it. */
  ghost function WantedOf(bits: Bits, skew: nat, start: nat, list: RefList, frame: nat, k: nat): bool
    requires list.Inline? && k < |bits|
  {
    Wanted(Flag, Unit(bits, start), bits, skew, list.next, 0, list.count, frame, k)
  }

  /** What the patch of a unit leaves in memory, bit for bit. */
  lemma PatchedUnit(bits: Bits, skew: nat, pocBits: nat, start: nat, list: RefList, frame: nat)
    requires HasList(bits, pocBits, start, list) && |Unit(bits, start)| + skew <= |bits|
    ensures
      var after := PatchOf(bits, skew, pocBits, frame).bits;
      forall k: nat :: k < |bits| ==> after[k] == WantedOf(bits, skew, start, list, frame, k)
  {
    PatchByList(bits, skew, pocBits, start, list, frame);
    EntriesPatched(bits, skew, start, list, frame);
  }

  lemma EntriesPatched(bits: Bits, skew: nat, start: nat, list: RefList, frame: nat)
    requires list.Inline? && |Unit(bits, start)| + skew <= |bits|
    ensures
      var after := PatchFrom(Flag, Unit(bits, start), bits, skew, list.next, 0, list.count, frame).bits;
      forall k: nat :: k < |bits| ==> after[k] == WantedOf(bits, skew, start, list, frame, k)
  {
    FlagIsLocal();
    forall k: nat | k < |bits|
      ensures PatchFrom(Flag, Unit(bits, start), bits, skew, list.next, 0, list.count, frame).bits[k]
           == WantedOf(bits, skew, start, list, frame, k)
    {
      PatchedBit(Flag, Unit(bits, start), bits, skew, list.next, 0, list.count, frame, k);
    }
  }

  /** The header in front of the list is not touched. */
  lemma FrontKept(seen: Bits, memory: Bits, skew: nat, next: nat, count: nat, frame: nat)
    requires |seen| + skew <= |memory| && next <= |seen|
    ensures Agree(memory, PatchFrom(Flag, seen, memory, skew, next, 0, count, frame).bits, 0, next)
  {
    FlagIsLocal();
    PatchFromKeeps(Flag, seen, memory, skew, next, 0, count, frame);
  }

  lemma {:induction false} StartAgree(a: Bits, b: Bits, k: nat)
    requires FindStart(a, k).Some? && |a| == |b| && Agree(a, b, 0, FindStart(a, k).value)
    ensures FindStart(b, k) == FindStart(a, k)
    decreases 64 - k
  {
    StartAfter(a, k);
    if 8 * k + 32 <= |a| {
      var x, y := a[8 * k..8 * k + 32], b[8 * k..8 * k + 32];
      assert x == y;
    }
    if !Holds(a, 8 * k, StartCode()) { StartAgree(a, b, k + 1); }
  }

  lemma {:induction false} StartAfter(a: Bits, k: nat)
    requires FindStart(a, k).Some?
    ensures FindStart(a, k).value >= 8 * k + 32
    decreases 64 - k
  {
    if !Holds(a, 8 * k, StartCode()) { StartAfter(a, k + 1); }
  }

  /** The unit ends early exactly when a start code begins early. */
  lemma {:induction false} UnitEndExact(bits: Bits, pos: nat, q: nat)
    requires q < |bits|
    ensures UnitEnd(bits, pos) <= q <==> StartsBy(bits, pos, q)
    decreases |bits| - pos
  {
    if pos + 24 <= |bits| {
      if NextUnit(bits, pos) {
        assert StartsAt(bits, pos, 0);
      } else {
        StartsNext(bits, pos, q);
        UnitEndExact(bits, pos + 8, q);
      }
    }
  }

  lemma StartsNext(bits: Bits, pos: nat, q: nat)
    requires !NextUnit(bits, pos)
    ensures StartsBy(bits, pos, q) <==> StartsBy(bits, pos + 8, q)
  {
    if StartsBy(bits, pos + 8, q) {
      var k: nat :| pos + 8 + 8 * k <= q && StartsAt(bits, pos + 8, k);
      assert StartsAt(bits, pos, k + 1);
    }
    if StartsBy(bits, pos, q) {
      var k: nat :| pos + 8 * k <= q && StartsAt(bits, pos, k);
      assert k > 0;
      var next, j := pos + 8, k - 1;
      assert next + 8 * j == pos + 8 * k;
      assert StartsAt(bits, next, j);
    }
  }

  lemma UnitEndNext(bits: Bits, pos: nat)
    requires !NextUnit(bits, pos)
    ensures UnitEnd(bits, pos) == UnitEnd(bits, pos + 8)
  {
  }

  lemma UnitEndHere(bits: Bits, pos: nat)
    requires NextUnit(bits, pos)
    ensures UnitEnd(bits, pos) == pos
  {
  }

  /** The skew of a first load up to octet `loaded` of a unit that ends at octet `k`. */
  lemma SkewIs(bits: Bits, address: nat, payload: nat, loaded: nat, k: nat)
    requires FirstLoad(|bits|, address, payload) == 8 * loaded && UnitEnd(bits, payload) == 8 * k
    ensures SkewFrom(bits, address, payload) == if k < loaded then 8 * (loaded - k) else 0
  {
  }

  lemma NoSkewFrom(bits: Bits, address: nat, payload: nat)
    requires UnitEnd(bits, payload) == |bits|
    ensures SkewFrom(bits, address, payload) == 0
  {
  }

  predicate StartsAt(bits: Bits, pos: nat, k: nat) { NextUnit(bits, pos + 8 * k) }

  /** A start code begins in the payload at `pos`, at bit `q` or before. */
  ghost predicate StartsBy(bits: Bits, pos: nat, q: nat) {
    exists k: nat :: pos + 8 * k <= q && StartsAt(bits, pos, k)
  }

  /** Where nothing changes from the end of the unit on, a start code there still ends it. */
  lemma {:induction false} EndStays(a: Bits, b: Bits, pos: nat)
    requires |a| == |b| && Agree(a, b, UnitEnd(a, pos), |a|)
    ensures UnitEnd(b, pos) <= UnitEnd(a, pos)
    decreases |a| - pos
  {
    if pos + 24 <= |a| {
      if Holds(a, pos, ShortStartCode()) {
        HoldsAgree(a, b, pos, ShortStartCode());
      } else if Holds(a, pos, StartCode()) {
        HoldsAgree(a, b, pos, StartCode());
      } else {
        EndStays(a, b, pos + 8);
      }
    }
  }

  lemma HoldsAgree(a: Bits, b: Bits, pos: nat, pattern: Bits)
    requires |a| == |b| && Agree(a, b, pos, |a|) && Holds(a, pos, pattern)
    ensures Holds(b, pos, pattern)
  {
    var x, y := a[pos..pos + |pattern|], b[pos..pos + |pattern|];
    assert x == y;
  }

  /** Behind the bits that were read nothing changes. */
  lemma {:induction false} BehindKept(flag: Finder, seen: Bits, memory: Bits,
    pos: nat, i: nat, count: nat, frame: nat)
    requires Local(flag) && i <= frame && |seen| <= |memory|
    ensures Agree(memory, PatchFrom(flag, seen, memory, 0, pos, i, count, frame).bits, |seen|, |memory|)
    decreases count - i
  {
    if i < count && flag(seen, pos).Some? && i != frame {
      var p := flag(seen, pos).value;
      BehindKept(flag, seen, memory[p := false], p + 1, i + 1, count, frame);
    }
  }

  /** The new end of a patched unit is not behind the old one. */
  lemma EndKept(flag: Finder, bits: Bits, start: nat, next: nat, count: nat, frame: nat)
    requires Local(flag)
    ensures
      var after := PatchFrom(flag, Unit(bits, start), bits, 0, next, 0, count, frame).bits;
      |Unit(after, start)| <= |Unit(bits, start)|
  {
    var after := PatchFrom(flag, Unit(bits, start), bits, 0, next, 0, count, frame).bits;
    assert Agree(bits, after, |Unit(bits, start)|, |bits|) by {
      BehindKept(flag, Unit(bits, start), bits, next, 0, count, frame);
    }
    EndStays(bits, after, start + 16);
  }

  /** How a header parses that has an inline list, or cannot be read up to its list. */
  lemma ParseByList(bits: Bits, start: nat, pocBits: nat, before: Slice)
    requires PatchList(bits, start, pocBits).Some? ==> PatchList(bits, start, pocBits).value.Inline?
    ensures ParseSlice(bits, start, pocBits, before) == ByList(Flag, bits, PatchList(bits, start, pocBits))
  {
  }

  ghost function ByList(flag: Finder, bits: Bits, list: Option<RefList>): Option<Answer>
    requires list.Some? ==> list.value.Inline?
  {
    var l :- list;
    var used :- FindUsed(flag, bits, l.next, 0, l.count);
    Some(Accepted(Slice(SliceP, used)))
  }

  /** A header that is cut off has the same list, if it is cut off behind the beginning of the list, and
      cannot be read up to it otherwise. */
  lemma ListCut(a: Bits, b: Bits, start: nat, pocBits: nat)
    requires PatchList(a, start, pocBits).Some? && PatchList(a, start, pocBits).value.Inline?
    requires |b| <= |a| && (forall k :: 0 <= k < |b| && k < PatchList(a, start, pocBits).value.next ==> a[k] == b[k])
    ensures PatchList(b, start, pocBits)
         == if PatchList(a, start, pocBits).value.next <= |b| then PatchList(a, start, pocBits) else None
  {
    var next := PatchList(a, start, pocBits).value.next;
    if next <= |b| {
      PatchListAgree(a, b, start, pocBits);
    } else {
      var kind := TypeBeforeList(a, start, pocBits);
      NoListCut(a, b, start, pocBits, kind);
    }
  }

  lemma NoListCut(a: Bits, b: Bits, start: nat, pocBits: nat, kind: Read)
    requires start + 16 <= kind.next <= |a| && NalType(a, start) == TRAIL
    requires ReadType(a, start + 16, false) == Some(kind) && kind.value == 1
    requires ReadRefList(a, kind.next, pocBits).Some? && ReadRefList(a, kind.next, pocBits).value.Inline?
    requires |b| < ReadRefList(a, kind.next, pocBits).value.next && Agree(a, b, 0, |b|)
    ensures PatchList(b, start, pocBits).None?
  {
    var pos := start + 16;
    if pos <= |b| {
      NalTypeAgree(a, b, start);
      RefListCut(a, b, kind.next, pocBits);
      TypeCut(a, b, pos);
      NoPayloadList(b, start, pos, pocBits, kind);
    }
  }

  lemma TypeCut(a: Bits, b: Bits, pos: nat)
    requires ReadType(a, pos, false).Some? && |b| <= |a| && Agree(a, b, 0, |b|)
    ensures ReadType(b, pos, false).Some? ==> ReadType(b, pos, false) == ReadType(a, pos, false)
  {
    if ReadType(b, pos, false).Some? { TypeAgree(b, a, pos, false); }
  }

  lemma NoPayloadList(b: Bits, start: nat, pos: nat, pocBits: nat, kind: Read)
    requires pos == start + 16 <= |b| && NalType(b, start) == TRAIL
    requires ReadType(b, pos, false).Some? ==> ReadType(b, pos, false) == Some(kind)
    requires kind.value == 1 && ReadRefList(b, kind.next, pocBits).None?
    ensures PatchList(b, start, pocBits).None?
  {
  }

  lemma RefListCut(a: Bits, b: Bits, pos: nat, pocBits: nat)
    requires ReadRefList(a, pos, pocBits).Some? && ReadRefList(a, pos, pocBits).value.Inline?
    requires |b| < ReadRefList(a, pos, pocBits).value.next && Agree(a, b, 0, |b|)
    ensures ReadRefList(b, pos, pocBits).None?
  {
    if ReadRefList(b, pos, pocBits).Some? { RefListAgree(b, a, pos, pocBits); }
  }

  /** How a patched unit parses, cut off somewhere: by reading its list from what is left of it. */
  lemma ParseCut(bits: Bits, start: nat, pocBits: nat, list: RefList, frame: nat, before: Slice, n: nat)
    requires n <= |Unit(bits, start)|
    requires FindStart(bits, 0) == Some(start) && list.Inline?
    requires PatchList(Unit(bits, start), start, pocBits) == Some(list)
    ensures
      var after := PatchFrom(Flag, Unit(bits, start), bits, 0, list.next, 0, list.count, frame).bits;
      && FindStart(after, 0) == Some(start)
      && ParseSlice(after[..n], start, pocBits, before)
         == ByList(Flag, after[..n], if list.next <= n then Some(list) else None)
  {
    var seen := Unit(bits, start);
    var after := PatchFrom(Flag, seen, bits, 0, list.next, 0, list.count, frame).bits;
    var cut := after[..n];
    FrontKept(seen, bits, 0, list.next, list.count, frame);
    StartAgree(bits, after, 0);
    assert forall k :: 0 <= k < |cut| && k < list.next ==> seen[k] == cut[k];
    ListCut(seen, cut, start, pocBits);
    ParseByList(cut, start, pocBits, before);
  }

  /** How a unit parses that the patch leaves, cut off somewhere. */
  lemma ParseCutOf(bits: Bits, pocBits: nat, start: nat, list: RefList, frame: nat, before: Slice, n: nat)
    requires HasList(bits, pocBits, start, list) && n <= |Unit(bits, start)|
    ensures
      var after := PatchOf(bits, 0, pocBits, frame).bits;
      && FindStart(after, 0) == Some(start)
      && ParseSlice(after[..n], start, pocBits, before)
         == ByList(Flag, after[..n], if list.next <= n then Some(list) else None)
  {
    PatchByList(bits, 0, pocBits, start, list, frame);
    ParseCut(bits, start, pocBits, list, frame, before, n);
  }

  /** How the whole unit parses: up to its new end. */
  lemma ParsePatchOf(bits: Bits, pocBits: nat, start: nat, list: RefList, frame: nat, before: Slice)
    requires HasList(bits, pocBits, start, list)
    ensures
      var after := PatchOf(bits, 0, pocBits, frame).bits;
      var cut := Unit(after, start);
      SliceOf(after, pocBits, before) == ByList(Flag, cut, if list.next <= |cut| then Some(list) else None)
  {
    var after := PatchOf(bits, 0, pocBits, frame).bits;
    PatchByList(bits, 0, pocBits, start, list, frame);
    assert |Unit(after, start)| <= |Unit(bits, start)| by {
      FlagIsLocal();
      EndKept(Flag, bits, start, list.next, list.count, frame);
    }
    ParseCutOf(bits, pocBits, start, list, frame, before, |Unit(after, start)|);
  }

  /** When the patch reports success, the parser reads the patched unit as a P slice with the chosen
      reference frame if and only if the patch has made no start code that ends the unit before the
      chosen flag; with one, the parser runs past the end of the unit. */
  lemma PatchThenParse(bits: Bits, pocBits: nat, start: nat, list: RefList, frame: nat, before: Slice)
    requires HasList(bits, pocBits, start, list)
    requires PatchOf(bits, 0, pocBits, frame).outcome.Done?
    ensures FlagOf(bits, start, list, frame).Some?
    ensures
      var after := PatchOf(bits, 0, pocBits, frame).bits;
      SliceOf(after, pocBits, before)
      == if UnitEnd(after, start + 16) <= FlagOf(bits, start, list, frame).value then None
         else Some(Accepted(Slice(SliceP, frame)))
  {
    PatchExact(bits, 0, pocBits, start, list, frame);
    PatchByList(bits, 0, pocBits, start, list, frame);
    ReadBackUnit(bits, start, list, frame);
    ParsePatchOf(bits, pocBits, start, list, frame, before);
  }

  lemma ReadBackUnit(bits: Bits, start: nat, list: RefList, frame: nat)
    requires list.Inline? && list.next <= |Unit(bits, start)| && FlagOf(bits, start, list, frame).Some?
    requires PatchFrom(Flag, Unit(bits, start), bits, 0, list.next, 0, list.count, frame).outcome.Done?
    ensures
      var after := PatchFrom(Flag, Unit(bits, start), bits, 0, list.next, 0, list.count, frame).bits;
      var cut := Unit(after, start);
      ByList(Flag, cut, if list.next <= |cut| then Some(list) else None)
      == if |cut| <= FlagOf(bits, start, list, frame).value then None else Some(Accepted(Slice(SliceP, frame)))
  {
    FlagIsLocal();
    ReadBack(Flag, bits, start, list.next, list.count, frame);
  }

  /** The list of a patched unit, read back from the bits before its new end. */
  lemma ReadBack(flag: Finder, bits: Bits, start: nat, next: nat, count: nat, frame: nat)
    requires Local(flag) && next <= |Unit(bits, start)| && FlagAt(flag, Unit(bits, start), next, 0, frame).Some?
    requires PatchFrom(flag, Unit(bits, start), bits, 0, next, 0, count, frame).outcome.Done?
    ensures
      var after := PatchFrom(flag, Unit(bits, start), bits, 0, next, 0, count, frame).bits;
      var cut, p := Unit(after, start), FlagAt(flag, Unit(bits, start), next, 0, frame).value;
      ByList(flag, cut, if next <= |cut| then Some(Inline(count, next)) else None)
      == if |cut| <= p then None else Some(Accepted(Slice(SliceP, frame)))
  {
    var seen := Unit(bits, start);
    var after := PatchFrom(flag, seen, bits, 0, next, 0, count, frame).bits;
    var p, n := FlagAt(flag, seen, next, 0, frame).value, UnitEnd(after, start + 16);
    assert n <= |seen| by { EndKept(flag, bits, start, next, count, frame); }
    assert next < p < |seen| by { FlagAfter(flag, seen, next, 0, frame); }
    ReadBackCut(flag, seen, bits, next, count, frame, n);
  }

  lemma ReadBackCut(flag: Finder, seen: Bits, memory: Bits, next: nat, count: nat, frame: nat, n: nat)
    requires Local(flag) && n <= |seen| <= |memory| && Agree(seen, memory, 0, |seen|)
    requires FlagAt(flag, seen, next, 0, frame).Some? && next < FlagAt(flag, seen, next, 0, frame).value
    requires PatchFrom(flag, seen, memory, 0, next, 0, count, frame).outcome.Done?
    ensures
      var cut := PatchFrom(flag, seen, memory, 0, next, 0, count, frame).bits[..n];
      ByList(flag, cut, if next <= n then Some(Inline(count, next)) else None)
      == if n <= FlagAt(flag, seen, next, 0, frame).value then None else Some(Accepted(Slice(SliceP, frame)))
  {
    PatchFromReadsBack(flag, seen, memory, next, 0, count, frame, n);
  }

  /** After a failed patch of a unit whose flags can all be reached, the parser finds no reference
      frame, unless the patch has made a start code before the last flag. */
  lemma FailedPatchLosesReference(bits: Bits, pocBits: nat, start: nat, list: RefList,
    frame: nat, before: Slice)
    requires HasList(bits, pocBits, start, list)
    requires PatchOf(bits, 0, pocBits, frame).outcome.Refused?
    ensures list.count > 0 ==> FlagOf(bits, start, list, list.count - 1).Some?
    ensures
      var after := PatchOf(bits, 0, pocBits, frame).bits;
      SliceOf(after, pocBits, before)
      == if list.count > 0 && UnitEnd(after, start + 16) <= FlagOf(bits, start, list, list.count - 1).value then None
         else Some(Accepted(Slice(SliceP, NO_REFERENCE)))
  {
    PatchExact(bits, 0, pocBits, start, list, frame);
    PatchByList(bits, 0, pocBits, start, list, frame);
    LostUnit(bits, start, list, frame);
    ParsePatchOf(bits, pocBits, start, list, frame, before);
  }

  lemma LostUnit(bits: Bits, start: nat, list: RefList, frame: nat)
    requires list.Inline? && list.next <= |Unit(bits, start)|
    requires list.count > 0 ==> FlagOf(bits, start, list, list.count - 1).Some?
    requires PatchFrom(Flag, Unit(bits, start), bits, 0, list.next, 0, list.count, frame).outcome.Refused?
    ensures
      var after := PatchFrom(Flag, Unit(bits, start), bits, 0, list.next, 0, list.count, frame).bits;
      var cut := Unit(after, start);
      ByList(Flag, cut, if list.next <= |cut| then Some(list) else None)
      == if list.count > 0 && |cut| <= FlagOf(bits, start, list, list.count - 1).value then None
         else Some(Accepted(Slice(SliceP, NO_REFERENCE)))
  {
    FlagIsLocal();
    Lost(Flag, bits, start, list.next, list.count, frame);
  }

  lemma Lost(flag: Finder, bits: Bits, start: nat, next: nat, count: nat, frame: nat)
    requires Local(flag) && next <= |Unit(bits, start)|
    requires count > 0 ==> FlagAt(flag, Unit(bits, start), next, 0, count - 1).Some?
    requires PatchFrom(flag, Unit(bits, start), bits, 0, next, 0, count, frame).outcome.Refused?
    ensures
      var after := PatchFrom(flag, Unit(bits, start), bits, 0, next, 0, count, frame).bits;
      var cut := Unit(after, start);
      var ended := count > 0 && |cut| <= FlagAt(flag, Unit(bits, start), next, 0, count - 1).value;
      ByList(flag, cut, if next <= |cut| then Some(Inline(count, next)) else None)
      == if ended then None else Some(Accepted(Slice(SliceP, NO_REFERENCE)))
  {
    var seen := Unit(bits, start);
    var after := PatchFrom(flag, seen, bits, 0, next, 0, count, frame).bits;
    EndKept(flag, bits, start, next, count, frame);
    PatchFromLoses(flag, seen, bits, next, 0, count, frame, |Unit(after, start)|);
    if count > 0 { FlagAfter(flag, seen, next, 0, count - 1); }
  }

  /** On a whole unit: a failed patch has left the data alone if and only if no flag that can be reached
      is set where the patch writes it, and leaves none set. */
  lemma FailedPatchOfExact(bits: Bits, skew: nat, pocBits: nat, start: nat, list: RefList, frame: nat)
    requires HasList(bits, pocBits, start, list) && |Unit(bits, start)| + skew <= |bits|
    requires !PatchOf(bits, skew, pocBits, frame).outcome.Done?
    ensures
      var after := PatchOf(bits, skew, pocBits, frame).bits;
      && (after == bits <==> AllClear(Flag, Unit(bits, start), bits, skew, list.next, 0, list.count))
      && AllClear(Flag, Unit(bits, start), after, skew, list.next, 0, list.count)
  {
    FlagIsLocal();
    PatchByList(bits, skew, pocBits, start, list, frame);
    FailedPatchFromExact(Flag, Unit(bits, start), bits, skew, list.next, 0, list.count, frame);
  }

  // ---------------------------------------------------------------- patterns that the patch makes

  /** The patch leaves this pattern at `pos`, as can be told before it is applied. */
  ghost predicate Makes(bits: Bits, skew: nat, start: nat, list: RefList, frame: nat, pos: nat, pattern: Bits)
    requires list.Inline?
  {
    && pos + |pattern| <= |bits|
    && forall x: nat :: x < |pattern| ==> WantedOf(bits, skew, start, list, frame, pos + x) == pattern[x]
  }

  lemma PatternAfter(bits: Bits, skew: nat, pocBits: nat, start: nat, list: RefList, frame: nat,
    pos: nat, pattern: Bits)
    requires HasList(bits, pocBits, start, list) && |Unit(bits, start)| + skew <= |bits|
    ensures Holds(PatchOf(bits, skew, pocBits, frame).bits, pos, pattern)
       <==> Makes(bits, skew, start, list, frame, pos, pattern)
  {
    var after := PatchOf(bits, skew, pocBits, frame).bits;
    PatchedUnit(bits, skew, pocBits, start, list, frame);
    if pos + |pattern| <= |bits| {
      var x := after[pos..pos + |pattern|];
      assert forall i: nat :: i < |pattern| ==> x[i] == WantedOf(bits, skew, start, list, frame, pos + i);
    }
  }

  /** The patch makes a start code at octet `k` of the payload. */
  ghost predicate MakesStart(bits: Bits, skew: nat, start: nat, list: RefList, frame: nat, k: nat)
    requires list.Inline?
  {
    || Makes(bits, skew, start, list, frame, start + 16 + 8 * k, ShortStartCode())
    || Makes(bits, skew, start, list, frame, start + 16 + 8 * k, StartCode())
  }

  /** The patch makes none that begins at bit `q` or before. */
  ghost predicate MakesNone(bits: Bits, skew: nat, start: nat, list: RefList, frame: nat, q: nat)
    requires list.Inline?
  {
    forall k: nat :: start + 16 + 8 * k <= q ==> !MakesStart(bits, skew, start, list, frame, k)
  }

  /** What can be told before a patch that will succeed: the parser reads the chosen frame back if and
      only if nowhere up to its flag the payload becomes a start code, its own flag set and those
      before it cleared. */
  lemma ReadBackForeseen(bits: Bits, pocBits: nat, start: nat, list: RefList, frame: nat, before: Slice)
    requires HasList(bits, pocBits, start, list)
    requires PatchOf(bits, 0, pocBits, frame).outcome.Done?
    ensures FlagOf(bits, start, list, frame).Some?
    ensures SliceOf(PatchOf(bits, 0, pocBits, frame).bits, pocBits, before)
         == Some(Accepted(Slice(SliceP, frame)))
       <==> MakesNone(bits, 0, start, list, frame, FlagOf(bits, start, list, frame).value)
  {
    PatchThenParse(bits, pocBits, start, list, frame, before);
    FlagInside(bits, start, list, frame);
    EndForeseen(bits, 0, pocBits, start, list, frame, FlagOf(bits, start, list, frame).value);
  }

  lemma FlagInside(bits: Bits, start: nat, list: RefList, j: nat)
    requires list.Inline? && FlagOf(bits, start, list, j).Some?
    ensures list.next < FlagOf(bits, start, list, j).value < |Unit(bits, start)|
  {
    FlagIsLocal();
    FlagAfter(Flag, Unit(bits, start), list.next, 0, j);
  }

  /** Where the patched unit ends, as can be told before the patch. */
  lemma EndForeseen(bits: Bits, skew: nat, pocBits: nat, start: nat, list: RefList, frame: nat, q: nat)
    requires HasList(bits, pocBits, start, list) && |Unit(bits, start)| + skew <= |bits| && q < |bits|
    ensures q < UnitEnd(PatchOf(bits, skew, pocBits, frame).bits, start + 16)
       <==> MakesNone(bits, skew, start, list, frame, q)
  {
    var after, pos := PatchOf(bits, skew, pocBits, frame).bits, start + 16;
    forall k: nat ensures StartsAt(after, pos, k) <==> MakesStart(bits, skew, start, list, frame, k) {
      StartForeseen(bits, skew, pocBits, start, list, frame, k);
    }
    assert StartsBy(after, pos, q) <==> !MakesNone(bits, skew, start, list, frame, q);
    UnitEndExact(after, pos, q);
  }

  lemma StartForeseen(bits: Bits, skew: nat, pocBits: nat, start: nat, list: RefList, frame: nat, k: nat)
    requires HasList(bits, pocBits, start, list) && |Unit(bits, start)| + skew <= |bits|
    ensures StartsAt(PatchOf(bits, skew, pocBits, frame).bits, start + 16, k)
       <==> MakesStart(bits, skew, start, list, frame, k)
  {
    PatternAfter(bits, skew, pocBits, start, list, frame, start + 16 + 8 * k, ShortStartCode());
    PatternAfter(bits, skew, pocBits, start, list, frame, start + 16 + 8 * k, StartCode());
  }

  /** Octet `k` of the payload at `pos` begins two zero octets and a three. */
  predicate EscapeAt(bits: Bits, pos: nat, k: nat) { Holds(bits, pos + 8 * k, EscapeCode()) }

  /** No octet that begins before bit `to` would be taken for an emulation prevention octet. */
  ghost predicate Unescaped(bits: Bits, pos: nat, to: nat) {
    forall k: nat :: pos + 8 * k + 16 < to ==> !EscapeAt(bits, pos, k)
  }

  /** The patch makes two zero octets and a three at octet `k` of the payload. */
  ghost predicate MakesEscape(bits: Bits, skew: nat, start: nat, list: RefList, frame: nat, k: nat)
    requires list.Inline?
  {
    Makes(bits, skew, start, list, frame, start + 16 + 8 * k, EscapeCode())
  }

  /** Which octets of the patched unit would be taken for emulation prevention, as can be told before. */
  lemma EscapesForeseen(bits: Bits, skew: nat, pocBits: nat, start: nat, list: RefList, frame: nat, to: nat)
    requires HasList(bits, pocBits, start, list) && |Unit(bits, start)| + skew <= |bits|
    ensures Unescaped(PatchOf(bits, skew, pocBits, frame).bits, start + 16, to) <==>
      forall k: nat :: start + 16 + 8 * k + 16 < to ==> !MakesEscape(bits, skew, start, list, frame, k)
  {
    var after, pos := PatchOf(bits, skew, pocBits, frame).bits, start + 16;
    forall k: nat ensures EscapeAt(after, pos, k) <==> MakesEscape(bits, skew, start, list, frame, k) {
      PatternAfter(bits, skew, pocBits, start, list, frame, pos + 8 * k, EscapeCode());
    }
  }

  // ---------------------------------------------------------------- what is read of a unit

  /** How far ahead of what it reads the reader loads. */
  const AHEAD: nat := 64

  /** The first `reach` bits of a unit are enough to parse it, and hold nothing that the reader would take
      for an emulation prevention octet. */
  ghost predicate ParsesWithin(bits: Bits, pocBits: nat, before: Slice, start: nat, reach: nat) {
    && FindStart(bits, 0) == Some(start) && Plain(bits, start, reach, 0)
    && ParseSlice(bits[..reach], start, pocBits, before).Some?
  }

  /** The first `reach` bits are enough to patch the unit, and nothing that is loaded before them would
      be taken for an emulation prevention octet. */
  ghost predicate PatchesWithin(bits: Bits, skew: nat, pocBits: nat, frame: nat, start: nat, reach: nat) {
    && FindStart(bits, 0) == Some(start) && Plain(bits, start, reach, AHEAD)
    && !Patch(bits[..reach], bits, skew, start, pocBits, frame).outcome.NoResult?
  }

  ghost predicate Plain(bits: Bits, start: nat, reach: nat, ahead: nat) {
    reach <= UnitEnd(bits, start + 16) && Unescaped(bits, start + 16, reach + ahead)
  }

  lemma {:induction false} FindUsedPrefix(flag: Finder, a: Bits, b: Bits, pos: nat, i: nat, count: nat)
    requires Local(flag) && Agree(a, b, 0, |a|) && FindUsed(flag, a, pos, i, count).Some?
    ensures FindUsed(flag, b, pos, i, count) == FindUsed(flag, a, pos, i, count)
    decreases count - i
  {
    if i < count {
      assert SameEntry(flag, a, b, pos);
      var p := flag(a, pos).value;
      if !a[p] { FindUsedPrefix(flag, a, b, p + 1, i + 1, count); }
    }
  }

  lemma PrefixAgree(bits: Bits, m: nat, n: nat)
    requires m <= n <= |bits|
    ensures Agree(bits[..m], bits[..n], 0, m)
  {
  }

  /** Bits behind those that are parsed do not matter. */
  lemma ParsePrefix(a: Bits, b: Bits, start: nat, pocBits: nat, before: Slice)
    requires Agree(a, b, 0, |a|) && ParseSlice(a, start, pocBits, before).Some?
    ensures ParseSlice(b, start, pocBits, before) == ParseSlice(a, start, pocBits, before)
  {
    NalTypeAgree(a, b, start);
    var nalType := NalType(a, start);
    if nalType == TRAIL || nalType == IDR {
      TypeAgree(a, b, start + 16, nalType == IDR);
      var kind := ReadType(a, start + 16, nalType == IDR).value;
      if nalType == TRAIL { ListPrefix(a, b, kind.next, pocBits); }
    }
  }

  lemma ListPrefix(a: Bits, b: Bits, pos: nat, pocBits: nat)
    requires Agree(a, b, 0, |a|) && ReadRefList(a, pos, pocBits).Some?
    ensures ReadRefList(b, pos, pocBits) == ReadRefList(a, pos, pocBits)
    ensures
      var list := ReadRefList(a, pos, pocBits).value;
      list.Inline? && FindUsed(Flag, a, list.next, 0, list.count).Some? ==>
        FindUsed(Flag, b, list.next, 0, list.count) == FindUsed(Flag, a, list.next, 0, list.count)
  {
    RefListAgree(a, b, pos, pocBits);
    var list := ReadRefList(a, pos, pocBits).value;
    if list.Inline? && FindUsed(Flag, a, list.next, 0, list.count).Some? {
      FlagIsLocal();
      FindUsedPrefix(Flag, a, b, list.next, 0, list.count);
    }
  }

  lemma ParsedWithin(bits: Bits, pocBits: nat, before: Slice, start: nat, reach: nat)
    requires ParsesWithin(bits, pocBits, before, start, reach)
    ensures SliceOf(bits, pocBits, before)
         == ParseSlice(bits[..reach], start, pocBits, before)
  {
    PrefixAgree(bits, reach, UnitEnd(bits, start + 16));
    ParsePrefix(bits[..reach], Unit(bits, start), start, pocBits, before);
  }

  lemma {:induction false} PatchFromPrefix(flag: Finder, a: Bits, b: Bits, memory: Bits, skew: nat,
    pos: nat, i: nat, count: nat, frame: nat)
    requires Local(flag) && Agree(a, b, 0, |a|)
    requires !PatchFrom(flag, a, memory, skew, pos, i, count, frame).outcome.NoResult?
    ensures PatchFrom(flag, b, memory, skew, pos, i, count, frame)
         == PatchFrom(flag, a, memory, skew, pos, i, count, frame)
    decreases count - i
  {
    if i < count {
      assert SameEntry(flag, a, b, pos);
      var p := flag(a, pos).value;
      if i != frame { PatchFromPrefix(flag, a, b, memory[p + skew := false], skew, p + 1, i + 1, count, frame); }
    }
  }

  lemma PatchListPrefix(a: Bits, b: Bits, start: nat, pocBits: nat)
    requires Agree(a, b, 0, |a|) && PatchList(a, start, pocBits).Some?
    ensures PatchList(b, start, pocBits) == PatchList(a, start, pocBits)
  {
    NalTypeAgree(a, b, start);
    if NalType(a, start) == TRAIL { PayloadListPrefix(a, b, start + 16, pocBits); }
  }

  lemma PayloadListPrefix(a: Bits, b: Bits, pos: nat, pocBits: nat)
    requires Agree(a, b, 0, |a|) && PayloadList(a, pos, pocBits).Some?
    ensures PayloadList(b, pos, pocBits) == PayloadList(a, pos, pocBits)
  {
    TypeAgree(a, b, pos, false);
    var kind := ReadType(a, pos, false).value;
    if kind.value == 1 { RefListAgree(a, b, kind.next, pocBits); }
  }

  /** Bits behind those that the patch reads do not matter either. */
  lemma PatchedWithin(bits: Bits, skew: nat, pocBits: nat, frame: nat, start: nat, reach: nat)
    requires PatchesWithin(bits, skew, pocBits, frame, start, reach)
    ensures PatchOf(bits, skew, pocBits, frame)
         == Patch(bits[..reach], bits, skew, start, pocBits, frame)
  {
    PatchUnitPrefix(bits, reach, skew, start, pocBits, frame);
  }

  lemma PatchUnitPrefix(bits: Bits, reach: nat, skew: nat, start: nat, pocBits: nat, frame: nat)
    requires reach <= UnitEnd(bits, start + 16)
    requires !Patch(bits[..reach], bits, skew, start, pocBits, frame).outcome.NoResult?
    ensures Patch(Unit(bits, start), bits, skew, start, pocBits, frame)
         == Patch(bits[..reach], bits, skew, start, pocBits, frame)
  {
    PrefixAgree(bits, reach, UnitEnd(bits, start + 16));
    PatchPrefix(bits[..reach], Unit(bits, start), bits, skew, start, pocBits, frame);
  }

  lemma PatchPrefix(a: Bits, b: Bits, memory: Bits, skew: nat, start: nat, pocBits: nat, frame: nat)
    requires Agree(a, b, 0, |a|) && !Patch(a, memory, skew, start, pocBits, frame).outcome.NoResult?
    ensures Patch(b, memory, skew, start, pocBits, frame) == Patch(a, memory, skew, start, pocBits, frame)
  {
    PatchListPrefix(a, b, start, pocBits);
    var list := PatchList(a, start, pocBits).value;
    if list.Inline? { EntriesWithin(a, b, memory, skew, list.next, list.count, frame); }
  }

  lemma EntriesWithin(a: Bits, b: Bits, memory: Bits, skew: nat, next: nat, count: nat, frame: nat)
    requires Agree(a, b, 0, |a|) && !PatchFrom(Flag, a, memory, skew, next, 0, count, frame).outcome.NoResult?
    ensures PatchFrom(Flag, b, memory, skew, next, 0, count, frame)
         == PatchFrom(Flag, a, memory, skew, next, 0, count, frame)
  {
    FlagIsLocal();
    PatchFromPrefix(Flag, a, b, memory, skew, next, 0, count, frame);
  }

  /** The first bits that were enough to patch a unit are enough to read the chosen frame back. */
  lemma ReadsBackWithin(bits: Bits, pocBits: nat, frame: nat, start: nat, reach: nat, before: Slice)
    requires reach <= |bits| && Patch(bits[..reach], bits, 0, start, pocBits, frame).outcome.Done?
    ensures
      var after := Patch(bits[..reach], bits, 0, start, pocBits, frame).bits;
      ParseSlice(after[..reach], start, pocBits, before) == Some(Accepted(Slice(SliceP, frame)))
  {
    var seen := bits[..reach];
    var list := PatchList(seen, start, pocBits).value;
    var after := PatchFrom(Flag, seen, bits, 0, list.next, 0, list.count, frame).bits;
    FrontKept(seen, bits, 0, list.next, list.count, frame);
    PatchListAgree(seen, after[..reach], start, pocBits);
    ParseByList(after[..reach], start, pocBits, before);
    EntriesReadBack(seen, bits, list.next, list.count, frame);
  }

  lemma EntriesReadBack(seen: Bits, memory: Bits, next: nat, count: nat, frame: nat)
    requires |seen| <= |memory| && Agree(seen, memory, 0, |seen|)
    requires PatchFrom(Flag, seen, memory, 0, next, 0, count, frame).outcome.Done?
    ensures FindUsed(Flag, PatchFrom(Flag, seen, memory, 0, next, 0, count, frame).bits[..|seen|], next, 0, count)
         == Some(frame)
  {
    FlagIsLocal();
    PatchFromExact(Flag, seen, memory, 0, next, 0, count, frame);
    FlagAfter(Flag, seen, next, 0, frame);
    PatchFromReadsBack(Flag, seen, memory, next, 0, count, frame, |seen|);
  }

  /** The patch will succeed, and among the first `reach` bits it makes neither a start code nor an octet
      that would be taken for emulation prevention. */
  ghost predicate SafeToPatch(bits: Bits, pocBits: nat, frame: nat, start: nat, list: RefList, reach: nat) {
    && HasList(bits, pocBits, start, list) && reach > 0
    && PatchesWithin(bits, 0, pocBits, frame, start, reach)
    && PatchOf(bits, 0, pocBits, frame).outcome.Done?
    && MakesNone(bits, 0, start, list, frame, reach - 1)
    && forall k: nat :: start + 16 + 8 * k + 16 < reach ==> !MakesEscape(bits, 0, start, list, frame, k)
  }

  /** Then the parser reads the chosen frame back. */
  lemma SafePatchReadsBack(bits: Bits, pocBits: nat, frame: nat, start: nat, list: RefList, reach: nat, before: Slice)
    requires SafeToPatch(bits, pocBits, frame, start, list, reach)
    ensures
      var after := PatchOf(bits, 0, pocBits, frame).bits;
      && ParsesWithin(after, pocBits, before, start, reach)
      && SliceOf(after, pocBits, before) == Some(Accepted(Slice(SliceP, frame)))
  {
    var after := PatchOf(bits, 0, pocBits, frame).bits;
    PatchedWithin(bits, 0, pocBits, frame, start, reach);
    EndForeseen(bits, 0, pocBits, start, list, frame, reach - 1);
    EscapesForeseen(bits, 0, pocBits, start, list, frame, reach);
    ReadsBackWithin(bits, pocBits, frame, start, reach, before);
    ParseCutOf(bits, pocBits, start, list, frame, before, 0);
    ParsedWithin(after, pocBits, before, start, reach);
  }

  // ---------------------------------------------------------------- units that the patch damages

  // Each unit is given by the positions of its ones.

  /** A P slice with two entries in use: 00 00 00 01 02 01 d2 9c 01 00 40 01 80 07 ff ff ff ff. */
  function TwoEntryUnit(): Bits {
    seq(144, k => k in
      {31, 38, 47, 48, 49, 51, 54, 56, 59, 60, 61, 71, 81, 95, 96, 109, 110, 111, 112, 113, 114, 115, 116,
      117, 118, 119, 120, 121, 122, 123, 124, 125, 126, 127, 128, 129, 130, 131, 132, 133, 134, 135,
      136, 137, 138, 139, 140, 141, 142, 143})
  }

  /** A shorter one, in front of another unit: 00 00 00 01 02 01 d2 9f c0 00 00 00 01 26 01. */
  function ShortUnit(): Bits {
    seq(120, k => k in
      {31, 38, 47, 48, 49, 51, 54, 56, 59, 60, 61, 62, 63, 64, 65, 103, 106, 109, 110, 119})
  }

  /** A P slice with one entry in use: 00 00 00 01 02 01 d0 17. */
  function OneEntryUnit(): Bits {
    seq(64, k => k in
      {31, 38, 47, 48, 49, 51, 59, 61, 62, 63})
  }

  /** Where the flag of an entry lies whose distance begins with this many zeros. */
  lemma FlagBehind(bits: Bits, pos: nat, zeros: nat)
    requires zeros < MAX_READ && pos + 2 * zeros + 1 < |bits|
    requires bits[pos + zeros] && forall k :: pos <= k < pos + zeros ==> !bits[k]
    ensures Flag(bits, pos) == Some(pos + 2 * zeros + 1)
  {
    NextOneIs(bits, pos, pos + zeros);
  }

  lemma {:induction false} NextOneIs(bits: Bits, pos: nat, one: nat)
    requires pos <= one < |bits| && bits[one] && forall k :: pos <= k < one ==> !bits[k]
    ensures NextOne(bits, pos) == Some(one)
    decreases one - pos
  {
    if pos < one { NextOneIs(bits, pos + 1, one); }
  }

  /** The code of the number zero, and those of one and two. */
  lemma UEZero(bits: Bits, pos: nat)
    requires pos < |bits| && bits[pos]
    ensures UE(bits, pos) == Some(Read(0, pos + 1))
  {
    assert Pow2(0) == 1;
  }

  lemma UEOneOrTwo(bits: Bits, pos: nat)
    requires pos + 3 <= |bits| && !bits[pos] && bits[pos + 1]
    ensures UE(bits, pos) == Some(Read(if bits[pos + 2] then 2 else 1, pos + 3))
  {
    NextOneIs(bits, pos, pos + 1);
    assert ValueAt(bits, pos + 2, 0) == 0;
    assert U(bits, pos + 2, 1) == Some(Read(if bits[pos + 2] then 1 else 0, pos + 3));
    assert Pow2(0) == 1;
  }

  lemma UBit(bits: Bits, pos: nat)
    requires pos < |bits|
    ensures U(bits, pos, 1) == Some(Read(if bits[pos] then 1 else 0, pos + 1))
  {
    assert ValueAt(bits, pos, 0) == 0;
  }

  /** These units begin alike: 00 00 00 01 02 01, and a P slice up to its list. */
  ghost predicate PSliceHead(bits: Bits) {
    && |bits| >= 62 && (forall k :: 0 <= k < 31 ==> !bits[k]) && bits[31]
    && bits[33..39] == [false, false, false, false, false, true]
    && bits[48..53] == [true, true, false, true, false]
    && !bits[57] && !bits[58] && bits[59] && bits[61]
  }

  lemma PSliceList(bits: Bits)
    requires PSliceHead(bits)
    ensures PatchList(bits, 32, 4) == Some(Inline(if bits[60] then 2 else 1, 62))
  {
    assert NalType(bits, 32) == 1 by {
      var six := [false, false, false, false, false, true];
      SameValue(bits, 33, six, 0, 6);
      assert ValueAt(six, 0, 3) == 0;
    }
    assert ReadType(bits, 48, false) == Some(Read(1, 53)) by {
      var five := bits[48..53];
      assert five[0] && five[1] && !five[2] && five[3] && !five[4];
      UBit(bits, 48);
      UEZero(bits, 49);
      UEOneOrTwo(bits, 50);
    }
    UBit(bits, 57);
    UEOneOrTwo(bits, 58);
    UEZero(bits, 61);
  }

  lemma PSliceStart(bits: Bits)
    requires PSliceHead(bits)
    ensures FindStart(bits, 0) == Some(32)
  {
    assert Holds(bits, 0, StartCode());
  }

  /** No unit ends where one of the next 23 bits is set. */
  lemma NoNextUnit(bits: Bits, pos: nat, i: nat)
    requires i < 23 && pos + i < |bits| && bits[pos + i]
    ensures !NextUnit(bits, pos)
  {
  }

  /** The bits of the unit with two entries that matter here. */
  ghost predicate TwoEntryBits(bits: Bits) {
    && |bits| == 144 && PSliceHead(bits) && bits[60]
    && (forall k :: 62 <= k < 71 ==> !bits[k]) && (forall k :: 82 <= k < 95 ==> !bits[k])
    && (forall k :: 72 <= k < 81 ==> !bits[k])
    && bits[48] && bits[56] && bits[71] && bits[81] && bits[95] && bits[96] && bits[109] && bits[112] && bits[120]
  }

  lemma TwoEntryUnitBits()
    ensures TwoEntryBits(TwoEntryUnit())
  {
  }

  lemma TwoEntryWhole(bits: Bits)
    requires TwoEntryBits(bits)
    ensures UnitEnd(bits, 48) == |bits|
  {
    NoNextUnit(bits, 48, 0);
    NoNextUnit(bits, 56, 0);
    NoNextUnit(bits, 64, 7);
    NoNextUnit(bits, 72, 9);
    NoNextUnit(bits, 80, 1);
    NoNextUnit(bits, 88, 7);
    NoNextUnit(bits, 96, 0);
    NoNextUnit(bits, 104, 5);
    NoNextUnit(bits, 112, 0);
    NoNextUnit(bits, 120, 0);
    assert UnitEnd(bits, 48) == UnitEnd(bits, 56) == UnitEnd(bits, 64) == UnitEnd(bits, 72) == UnitEnd(bits, 80);
    assert UnitEnd(bits, 80) == UnitEnd(bits, 88) == UnitEnd(bits, 96) == UnitEnd(bits, 104) == UnitEnd(bits, 112);
    assert UnitEnd(bits, 112) == UnitEnd(bits, 120) == UnitEnd(bits, 128);
  }

  lemma TwoEntryList(bits: Bits)
    requires TwoEntryBits(bits)
    ensures FindStart(bits, 0) == Some(32) && Unit(bits, 32) == bits
    ensures PatchList(bits, 32, 4) == Some(Inline(2, 62))
    ensures Flag(bits, 62) == Some(81) && Flag(bits, 82) == Some(109)
  {
    PSliceStart(bits);
    TwoEntryWhole(bits);
    PSliceList(bits);
    FlagBehind(bits, 62, 9);
    FlagBehind(bits, 82, 13);
  }

  lemma TwoEntryParsed(bits: Bits, before: Slice)
    requires TwoEntryBits(bits)
    ensures SliceOf(bits, 4, before) == Some(Accepted(Slice(SliceP, 0)))
  {
    TwoEntryList(bits);
    ParseByList(bits, 32, 4, before);
  }

  lemma TwoEntryPatched(bits: Bits)
    requires TwoEntryBits(bits)
    ensures PatchOf(bits, 0, 4, 1) == Patched(Done, bits[81 := false])
    ensures HasList(bits, 4, 32, Inline(2, 62)) && FlagOf(bits, 32, Inline(2, 62), 1) == Some(109)
  {
    TwoEntryList(bits);
    TwoEntries(bits, bits, 0, 62, 81, 109);
    assert bits[81 := false][109 := true] == bits[81 := false];
    PatchByList(bits, 0, 4, 32, Inline(2, 62), 1);
  }

  /** The second of two entries, patched. */
  lemma TwoEntries(seen: Bits, memory: Bits, skew: nat, pos: nat, p: nat, q: nat)
    requires Flag(seen, pos) == Some(p) && Flag(seen, p + 1) == Some(q) && p + skew < |memory| && q + skew < |memory|
    ensures PatchFrom(Flag, seen, memory, skew, pos, 0, 2, 1)
         == Patched(Done, memory[p + skew := false][q + skew := true])
    ensures FlagAt(Flag, seen, pos, 0, 1) == Some(q)
  {
    var cleared := memory[p + skew := false];
    assert PatchFrom(Flag, seen, cleared, skew, p + 1, 1, 2, 1) == Patched(Done, cleared[q + skew := true]);
  }

  lemma EndsEarly(after: Bits)
    requires |after| == 144 && after[48] && after[56] && after[71] && after[95]
    requires forall k :: 72 <= k < 95 ==> !after[k]
    ensures UnitEnd(after, 48) == 72
  {
    NoNextUnit(after, 48, 0);
    NoNextUnit(after, 56, 0);
    NoNextUnit(after, 64, 7);
    assert after[72..96] == ShortStartCode();
    assert UnitEnd(after, 48) == UnitEnd(after, 56) == UnitEnd(after, 64) == UnitEnd(after, 72);
  }

  /** Asking this unit for its second reference frame makes the octets 01 00 40 01 into 01 00 00 01. The
      unit then ends within the distance of the second entry, and the parser runs past its end. */
  lemma PatchMakesStart(address: nat, before: Slice)
    ensures
      var bits := TwoEntryUnit();
      var after := bits[81 := false];
      && SliceOf(bits, 4, before) == Some(Accepted(Slice(SliceP, 0)))
      && PatchOf(bits, Skew(bits, address), 4, 1) == Patched(Done, after)
      && UnitEnd(after, 48) == 72
      && SliceOf(after, 4, before) == None
  {
    var bits := TwoEntryUnit();
    TwoEntryUnitBits();
    TwoEntryDamaged(bits, before);
    NoSkew(bits, address);
  }

  /** A unit that ends with the data is loaded as far as it goes. */
  lemma NoSkew(bits: Bits, address: nat)
    requires FindStart(bits, 0) == Some(32) && UnitEnd(bits, 48) == |bits|
    ensures Skew(bits, address) == 0
  {
    NoSkewFrom(bits, address, 48);
  }

  lemma TwoEntryDamaged(bits: Bits, before: Slice)
    requires TwoEntryBits(bits)
    ensures FindStart(bits, 0) == Some(32) && UnitEnd(bits, 48) == |bits|
    ensures
      var after := bits[81 := false];
      && SliceOf(bits, 4, before) == Some(Accepted(Slice(SliceP, 0)))
      && PatchOf(bits, 0, 4, 1) == Patched(Done, after)
      && UnitEnd(after, 48) == 72
      && SliceOf(after, 4, before) == None
  {
    var after := bits[81 := false];
    TwoEntryParsed(bits, before);
    TwoEntryPatched(bits);
    EndsEarly(after);
    PSliceStart(bits);
    TwoEntryWhole(bits);
    PatchThenParse(bits, 4, 32, Inline(2, 62), 1, before);
  }

  // ---------------------------------------------------------------- a short unit

  /** The bits of the short unit that matter here, up to its end and behind it. */
  ghost predicate ShortBits(bits: Bits) {
    && |bits| == 120 && PSliceHead(bits) && bits[60] && bits[48] && bits[56]
    && bits[62] && bits[63] && bits[64] && bits[65]
  }

  ghost predicate ShortTail(bits: Bits) {
    |bits| == 120 && bits[103] && forall k :: 66 <= k < 103 ==> !bits[k]
  }

  lemma ShortUnitBits()
    ensures ShortBits(ShortUnit()) && ShortTail(ShortUnit())
  {
  }

  /** Placed at a multiple of four, this unit ends three octets before what the reader first loads. The
      patch then writes three octets behind the flags. It reports success and damages the next start code,
      but the parser still finds the first frame. */
  lemma PatchMissesShortUnit(address: nat, before: Slice)
    requires address % 4 == 0
    ensures
      var bits := ShortUnit();
      var after := bits[89 := true];
      && PatchOf(bits, Skew(bits, address), 4, 1) == Patched(Done, after)
      && UnitEnd(bits, 48) == 72 && UnitEnd(after, 48) == |after|
      && SliceOf(after, 4, before) == Some(Accepted(Slice(SliceP, 0)))
  {
    var bits := ShortUnit();
    ShortUnitBits();
    ShortEnds(bits);
    ShortPatched(bits);
    PSliceStart(bits);
    ShortSkew(bits, address);
    ShortParsed(bits[89 := true], before);
  }

  lemma ShortPatched(bits: Bits)
    requires ShortBits(bits) && ShortTail(bits)
    ensures PatchOf(bits, 24, 4, 1) == Patched(Done, bits[89 := true])
  {
    ShortEnds(bits);
    ShortList(bits);
    TwoEntries(Unit(bits, 32), bits, 24, 62, 63, 65);
    assert bits[87 := false] == bits;
    PatchByList(bits, 24, 4, 32, Inline(2, 62), 1);
  }

  lemma ShortSkew(bits: Bits, address: nat)
    requires address % 4 == 0 && |bits| == 120 && UnitEnd(bits, 48) == 72 && FindStart(bits, 0) == Some(32)
    ensures Skew(bits, address) == 24
  {
    assert (address + 10) % 4 == 2;
  }

  lemma ShortParsed(after: Bits, before: Slice)
    requires ShortBits(after) && after[89] && after[103]
    ensures UnitEnd(after, 48) == |after| && SliceOf(after, 4, before) == Some(Accepted(Slice(SliceP, 0)))
  {
    ShortWhole(after);
    ShortList(after);
    ParseByList(Unit(after, 32), 32, 4, before);
  }

  /** The list of the short unit and its two flags, whether it ends where it should or goes on. */
  lemma ShortList(bits: Bits)
    requires ShortBits(bits) && UnitEnd(bits, 48) >= 72
    ensures FindStart(bits, 0) == Some(32)
    ensures PatchList(Unit(bits, 32), 32, 4) == Some(Inline(2, 62))
    ensures Flag(Unit(bits, 32), 62) == Some(63) && Flag(Unit(bits, 32), 64) == Some(65) && Unit(bits, 32)[63]
  {
    var unit := Unit(bits, 32);
    PSliceStart(bits);
    assert PSliceHead(unit) by {
      assert unit[33..39] == bits[33..39] && unit[48..53] == bits[48..53];
    }
    PSliceList(unit);
    FlagBehind(unit, 62, 0);
    FlagBehind(unit, 64, 0);
  }

  lemma ShortEnds(bits: Bits)
    requires ShortBits(bits) && ShortTail(bits)
    ensures UnitEnd(bits, 48) == 72
  {
    NoNextUnit(bits, 48, 0);
    NoNextUnit(bits, 56, 0);
    NoNextUnit(bits, 64, 0);
    assert bits[72..104] == StartCode();
    assert UnitEnd(bits, 48) == UnitEnd(bits, 56) == UnitEnd(bits, 64) == UnitEnd(bits, 72);
  }

  lemma ShortWhole(bits: Bits)
    requires ShortBits(bits) && bits[89] && bits[103]
    ensures UnitEnd(bits, 48) == |bits|
  {
    NoNextUnit(bits, 48, 0);
    NoNextUnit(bits, 56, 0);
    NoNextUnit(bits, 64, 0);
    NoNextUnit(bits, 72, 17);
    NoNextUnit(bits, 80, 9);
    NoNextUnit(bits, 88, 1);
    NoNextUnit(bits, 96, 7);
    assert UnitEnd(bits, 48) == UnitEnd(bits, 56) == UnitEnd(bits, 64) == UnitEnd(bits, 72) == UnitEnd(bits, 80);
    assert UnitEnd(bits, 80) == UnitEnd(bits, 88) == UnitEnd(bits, 96) == UnitEnd(bits, 104);
  }

  // ---------------------------------------------------------------- a failed patch

  /** Asking this unit for its second reference frame fails and clears the flag of the first. */
  lemma FailedPatchExample(address: nat)
    ensures
      var bits := OneEntryUnit();
      bits[63] && PatchOf(bits, Skew(bits, address), 4, 1) == Patched(Refused, bits[63 := false])
  {
    OneEntryPatched(OneEntryUnit());
    NoSkew(OneEntryUnit(), address);
  }

  lemma OneEntryPatched(bits: Bits)
    requires |bits| == 64 && PSliceHead(bits) && !bits[60] && bits[62]
    ensures FindStart(bits, 0) == Some(32) && UnitEnd(bits, 48) == |bits|
    ensures PatchOf(bits, 0, 4, 1) == Patched(Refused, bits[63 := false])
  {
    assert bits[48] by { assert bits[48..53][0]; }
    NoNextUnit(bits, 48, 0);
    assert UnitEnd(bits, 48) == |bits|;
    assert Unit(bits, 32) == bits;
    PSliceStart(bits);
    PSliceList(bits);
    FlagBehind(bits, 62, 0);
    var cleared := bits[63 := false];
    assert PatchFrom(Flag, bits, cleared, 0, 64, 1, 1, 1) == Patched(Refused, cleared);
    PatchByList(bits, 0, 4, 32, Inline(1, 62), 1);
  }

  /** Asking it for its first reference frame is safe, and succeeds wherever the unit lies. */
  lemma SafePatchExample(address: nat)
    ensures SafeToPatch(OneEntryUnit(), 4, 0, 32, Inline(1, 62), 64) && Skew(OneEntryUnit(), address) == 0
  {
    OneEntrySafe(OneEntryUnit());
    OneEntryPatched(OneEntryUnit());
    NoSkew(OneEntryUnit(), address);
  }

  lemma OneEntrySafe(bits: Bits)
    requires |bits| == 64 && PSliceHead(bits) && !bits[60] && bits[62]
    ensures SafeToPatch(bits, 4, 0, 32, Inline(1, 62), 64)
  {
    var list := Inline(1, 62);
    OneEntryPatched(bits);
    assert Unit(bits, 32) == bits[..64] == bits;
    PSliceList(bits);
    FlagBehind(bits, 62, 0);
    assert HasList(bits, 4, 32, list);
    PatchByList(bits, 0, 4, 32, list, 0);
    assert Patch(bits[..64], bits, 0, 32, 4, 0) == PatchOf(bits, 0, 4, 0);
    assert MakesNone(bits, 0, 32, list, 0, 63);
    assert Unescaped(bits, 48, 64 + AHEAD);
  }
}
