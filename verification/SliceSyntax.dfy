/** The slice header of H.265 as it is written (section 7.3.6.1 of the standard, as far as
    lib/src/bitstream.c reads it): the code of the fields, and that the parser and the patch read exactly
    the fields that were written. */
module SliceSyntax {
  import opened Wrappers
  import opened Modular
  import opened SliceSpec

  // ---------------------------------------------------------------- numbers

  /** A number in `n` binary digits, the highest first. */
  function Binary(v: nat, n: nat): (b: Bits)
    ensures |b| == n
  {
    if n == 0 then [] else Binary(v / 2, n - 1) + [v % 2 == 1]
  }

  function Log2(v: nat): (k: nat)
    requires v >= 1
    ensures Pow2(k) <= v < 2 * Pow2(k)
  {
    if v == 1 then 0 else Log2(v / 2) + 1
  }

  lemma {:induction false} Log2Unique(v: nat, k: nat)
    requires v >= 1 && Pow2(k) <= v < 2 * Pow2(k)
    ensures Log2(v) == k
  {
    if v > 1 { Log2Unique(v / 2, k - 1); }
  }

  /** The exponential Golomb code (section 9.2 of H.265): as many zeros as v + 1 has binary digits behind
      its first, and then these digits. */
  function Golomb(v: nat): (b: Bits)
    ensures |b| == 2 * Log2(v + 1) + 1
  {
    var k := Log2(v + 1);
    Zeros(k) + ([true] + Binary(v + 1 - Pow2(k), k))
  }

  function Zeros(k: nat): (b: Bits)
    ensures |b| == k
  {
    seq(k, _ => false)
  }

  lemma HoldsConcat(bits: Bits, pos: nat, a: Bits, b: Bits)
    ensures Holds(bits, pos, a + b) <==> Holds(bits, pos, a) && Holds(bits, pos + |a|, b)
  {
    var n, m := pos + |a|, pos + |a| + |b|;
    if m <= |bits| {
      assert bits[pos..m] == bits[pos..n] + bits[n..m];
      assert (a + b)[..|a|] == a && (a + b)[|a|..] == b;
      assert bits[pos..m][..|a|] == bits[pos..n] && bits[pos..m][|a|..] == bits[n..m];
    }
  }

  lemma HoldsOne(bits: Bits, pos: nat, b: bool)
    ensures Holds(bits, pos, [b]) <==> pos < |bits| && bits[pos] == b
  {
  }

  lemma {:induction false} ValueBound(bits: Bits, pos: nat, n: nat)
    requires pos + n <= |bits|
    ensures ValueAt(bits, pos, n) < Pow2(n)
  {
    if n > 0 { ValueBound(bits, pos, n - 1); }
  }

  /** The digits of a number are read as that number, and no others are. */
  lemma {:induction false} BinaryExact(bits: Bits, pos: nat, v: nat, n: nat)
    requires pos + n <= |bits| && v < Pow2(n)
    ensures Holds(bits, pos, Binary(v, n)) <==> ValueAt(bits, pos, n) == v
  {
    if n > 0 {
      BinaryExact(bits, pos, v / 2, n - 1);
      HoldsConcat(bits, pos, Binary(v / 2, n - 1), [v % 2 == 1]);
      HoldsOne(bits, pos + n - 1, v % 2 == 1);
    }
  }

  /** What a reader can take in one piece is a number below 2^16 - 1. */
  predicate Small(v: nat) { v < 0xffff }

  lemma SmallLog(v: nat)
    requires v + 1 >= 1
    ensures Small(v) <==> Log2(v + 1) < 16
  {
    Pow2Bounds();
    PowMonotone(Log2(v + 1), 15);
    PowMonotone(16, Log2(v + 1));
  }

  lemma Pow2Bounds()
    ensures Pow2(15) == 0x8000 && Pow2(16) == 0x10000
  {
    assert Pow2(4) == 16 && Pow2(8) == 256 && Pow2(12) == 4096;
  }

  lemma {:induction false} PowMonotone(a: nat, b: nat)
    ensures a <= b ==> Pow2(a) <= Pow2(b)
  {
    if a < b { PowMonotone(a, b - 1); }
  }

  /** The code of a number is read as that number. */
  lemma GolombReads(bits: Bits, pos: nat, v: nat)
    requires Small(v) && Holds(bits, pos, Golomb(v))
    ensures UE(bits, pos) == Some(Read(v, pos + |Golomb(v)|))
  {
    var k := Log2(v + 1);
    SmallLog(v);
    GolombParts(bits, pos, v, k);
    NextOneIs(bits, pos, pos + k);
    BinaryExact(bits, pos + k + 1, v + 1 - Pow2(k), k);
  }

  lemma GolombParts(bits: Bits, pos: nat, v: nat, k: nat)
    requires k == Log2(v + 1)
    ensures Holds(bits, pos, Golomb(v)) <==>
      && pos + 2 * k + 1 <= |bits| && (forall i :: pos <= i < pos + k ==> !bits[i]) && bits[pos + k]
      && Holds(bits, pos + k + 1, Binary(v + 1 - Pow2(k), k))
  {
    DigitsBehind(bits, pos, k, Binary(v + 1 - Pow2(k), k));
  }

  lemma DigitsBehind(bits: Bits, pos: nat, k: nat, digits: Bits)
    requires |digits| == k
    ensures Holds(bits, pos, Zeros(k) + ([true] + digits)) <==>
      && pos + 2 * k + 1 <= |bits| && (forall i :: pos <= i < pos + k ==> !bits[i]) && bits[pos + k]
      && Holds(bits, pos + k + 1, digits)
  {
    HoldsConcat(bits, pos, Zeros(k), [true] + digits);
    HoldsConcat(bits, pos + k, [true], digits);
    HoldsOne(bits, pos + k, true);
    HoldsZeros(bits, pos, k);
  }

  lemma HoldsZeros(bits: Bits, pos: nat, k: nat)
    ensures Holds(bits, pos, Zeros(k)) <==> pos + k <= |bits| && forall i :: pos <= i < pos + k ==> !bits[i]
  {
    if pos + k <= |bits| {
      var piece := bits[pos..pos + k];
      assert forall i :: 0 <= i < k ==> piece[i] == bits[pos + i];
      if forall i :: pos <= i < pos + k ==> !bits[i] { assert piece == Zeros(k); }
      if piece == Zeros(k) {
        forall i | pos <= i < pos + k ensures !bits[i] { assert !piece[i - pos]; }
      }
    }
  }

  /** A number that was read stands there in its code. */
  lemma GolombOnly(bits: Bits, pos: nat)
    requires UE(bits, pos).Some?
    ensures var r := UE(bits, pos).value;
            Small(r.value) && Holds(bits, pos, Golomb(r.value)) && r.next == pos + |Golomb(r.value)|
  {
    var k, x := ReadParts(bits, pos);
    CodeOfParts(bits, pos, k, x);
  }

  /** What has been read of a number: zeros, a one, and as many digits. */
  lemma ReadParts(bits: Bits, pos: nat) returns (k: nat, x: nat)
    requires UE(bits, pos).Some?
    ensures k < 16 && pos + 2 * k + 1 <= |bits| && bits[pos + k]
    ensures forall i :: pos <= i < pos + k ==> !bits[i]
    ensures x == ValueAt(bits, pos + k + 1, k) < Pow2(k)
    ensures UE(bits, pos) == Some(Read(Pow2(k) - 1 + x, pos + 2 * k + 1))
  {
    var one := NextOne(bits, pos).value;
    NextOneFirst(bits, pos);
    k := one - pos;
    x := ValueAt(bits, one + 1, k);
    ValueBound(bits, one + 1, k);
  }

  lemma CodeOfParts(bits: Bits, pos: nat, k: nat, x: nat)
    requires k < 16 && pos + 2 * k + 1 <= |bits| && bits[pos + k]
    requires forall i :: pos <= i < pos + k ==> !bits[i]
    requires x == ValueAt(bits, pos + k + 1, k) < Pow2(k)
    ensures var v := Pow2(k) - 1 + x; Small(v) && Holds(bits, pos, Golomb(v)) && |Golomb(v)| == 2 * k + 1
  {
    var v := Pow2(k) - 1 + x;
    Log2Unique(v + 1, k);
    SmallLog(v);
    BinaryExact(bits, pos + k + 1, x, k);
    GolombParts(bits, pos, v, k);
  }

  lemma {:induction false} NextOneFirst(bits: Bits, pos: nat)
    requires NextOne(bits, pos).Some?
    ensures var one := NextOne(bits, pos).value; bits[one] && forall i :: pos <= i < one ==> !bits[i]
    decreases |bits| - pos
  {
    if !bits[pos] { NextOneFirst(bits, pos + 1); }
  }

  /** How numbers are coded; `Golomb` is the code of this syntax. */
  type Coding = nat -> Bits

  ghost predicate ReadAs(g: Coding, bits: Bits, pos: nat, v: nat, next: nat) {
    Small(v) && Holds(bits, pos, g(v)) && next == pos + |g(v)| ==> UE(bits, pos) == Some(Read(v, next))
  }

  ghost predicate WrittenAs(g: Coding, bits: Bits, pos: nat) {
    var r := UE(bits, pos);
    r.Some? ==> Small(r.value.value) && Holds(bits, pos, g(r.value.value)) && r.value.next == pos + |g(r.value.value)|
  }

  /** A number is read exactly where its code stands. */
  ghost predicate Lawful(g: Coding) {
    && (forall bits: Bits, pos: nat, v: nat, next: nat :: ReadAs(g, bits, pos, v, next))
    && (forall bits: Bits, pos: nat :: WrittenAs(g, bits, pos))
  }

  lemma GolombLawful()
    ensures Lawful(Golomb)
  {
    forall bits: Bits, pos: nat, v: nat, next: nat ensures ReadAs(Golomb, bits, pos, v, next) {
      if Small(v) && Holds(bits, pos, Golomb(v)) { GolombReads(bits, pos, v); }
    }
    forall bits: Bits, pos: nat ensures WrittenAs(Golomb, bits, pos) {
      if UE(bits, pos).Some? { GolombOnly(bits, pos); }
    }
  }

  // ---------------------------------------------------------------- up to the slice type

  /** The fields up to the slice type. A slice that is the first of its picture has no address; only an
      IDR picture has the second flag. */
  datatype Head = Head(idr: bool, first: bool, noOutput: bool, pps: nat, address: nat, kind: nat)

  predicate HeadOk(h: Head) { Small(h.pps) && Small(h.address) && Small(h.kind) }

  function FlagsCode(h: Head): Bits { if h.idr then [h.first, h.noOutput] else [h.first] }

  function AddressCode(g: Coding, h: Head): Bits { if h.first then [] else g(h.address) }

  function HeadCode(g: Coding, h: Head): Bits {
    FlagsCode(h) + (g(h.pps) + (AddressCode(g, h) + g(h.kind)))
  }

  /** The fields stand one behind the other, at `p`, `q` and `r`, up to `end`. */
  ghost predicate HeadStands(g: Coding, bits: Bits, pos: nat, h: Head, p: nat, q: nat, r: nat, end: nat) {
    && p == pos + |FlagsCode(h)| && q == p + |g(h.pps)| && r == q + |AddressCode(g, h)| && end == r + |g(h.kind)|
    && Holds(bits, pos, FlagsCode(h)) && Holds(bits, p, g(h.pps)) && Holds(bits, q, AddressCode(g, h))
    && Holds(bits, r, g(h.kind))
  }

  lemma HeadParts(g: Coding, bits: Bits, pos: nat, h: Head, p: nat, q: nat, r: nat, end: nat)
    requires p == pos + |FlagsCode(h)| && q == p + |g(h.pps)| && r == q + |AddressCode(g, h)|
    requires end == r + |g(h.kind)|
    ensures Holds(bits, pos, HeadCode(g, h)) <==> HeadStands(g, bits, pos, h, p, q, r, end)
    ensures end == pos + |HeadCode(g, h)|
  {
    FourParts(bits, pos, FlagsCode(h), g(h.pps), AddressCode(g, h), g(h.kind), p, q, r);
  }

  lemma FourParts(bits: Bits, pos: nat, a: Bits, b: Bits, c: Bits, d: Bits, p: nat, q: nat, r: nat)
    requires p == pos + |a| && q == p + |b| && r == q + |c|
    ensures Holds(bits, pos, a + (b + (c + d))) <==>
      Holds(bits, pos, a) && Holds(bits, p, b) && Holds(bits, q, c) && Holds(bits, r, d)
  {
    HoldsConcat(bits, pos, a, b + (c + d));
    HoldsConcat(bits, p, b, c + d);
    HoldsConcat(bits, q, c, d);
  }

  /** The fields have been read one behind the other. */
  ghost predicate HeadRead(bits: Bits, pos: nat, h: Head, p: nat, q: nat, r: nat, end: nat) {
    && pos < p == pos + (if h.idr then 2 else 1) <= |bits|
    && bits[pos] == h.first && (h.idr ==> bits[pos + 1] == h.noOutput)
    && UE(bits, p) == Some(Read(h.pps, q))
    && (if h.first then r == q else UE(bits, q) == Some(Read(h.address, r)))
    && UE(bits, r) == Some(Read(h.kind, end))
  }

  lemma FlagsExact(bits: Bits, pos: nat, h: Head)
    ensures Holds(bits, pos, FlagsCode(h)) <==>
      && pos + |FlagsCode(h)| <= |bits| && bits[pos] == h.first && (h.idr ==> bits[pos + 1] == h.noOutput)
  {
    if h.idr {
      assert [h.first, h.noOutput] == [h.first] + [h.noOutput];
      HoldsConcat(bits, pos, [h.first], [h.noOutput]);
      HoldsOne(bits, pos + 1, h.noOutput);
    }
    HoldsOne(bits, pos, h.first);
  }

  lemma HeadIsRead(g: Coding, bits: Bits, pos: nat, h: Head, p: nat, q: nat, r: nat, end: nat)
    requires Lawful(g) && HeadOk(h) && HeadStands(g, bits, pos, h, p, q, r, end)
    ensures HeadRead(bits, pos, h, p, q, r, end)
  {
    FlagsExact(bits, pos, h);
    assert ReadAs(g, bits, p, h.pps, q);
    assert h.first || ReadAs(g, bits, q, h.address, r);
    assert ReadAs(g, bits, r, h.kind, end);
  }

  lemma HeadWasWritten(g: Coding, bits: Bits, pos: nat, h: Head, p: nat, q: nat, r: nat, end: nat)
    requires Lawful(g) && HeadRead(bits, pos, h, p, q, r, end) && (h.first ==> h.address == 0)
    ensures HeadOk(h) && HeadStands(g, bits, pos, h, p, q, r, end)
  {
    FlagsExact(bits, pos, h);
    assert WrittenAs(g, bits, p);
    assert h.first || WrittenAs(g, bits, q);
    assert WrittenAs(g, bits, r);
    assert h.first ==> q <= |bits| && bits[q..q] == [];
  }

  /** Reading the fields is reading the slice type behind them. */
  lemma ReadTypeIs(bits: Bits, pos: nat, h: Head, p: nat, q: nat, r: nat, end: nat)
    requires HeadRead(bits, pos, h, p, q, r, end)
    ensures ReadType(bits, pos, h.idr) == Some(Read(h.kind, end))
  {
    UBit(bits, pos);
    if h.idr { UBit(bits, pos + 1); }
    assert ReadFirst(bits, pos, h.idr) == Some(Read(if h.first then 1 else 0, p));
    assert SkipFields(bits, pos, h.idr) == Some(r);
  }

  lemma HeadFields(bits: Bits, pos: nat, idr: bool) returns (h: Head, p: nat, q: nat, r: nat, end: nat)
    requires ReadType(bits, pos, idr).Some?
    ensures h.idr == idr && (h.first ==> h.address == 0) && HeadRead(bits, pos, h, p, q, r, end)
  {
    UBit(bits, pos);
    if idr { UBit(bits, pos + 1); }
    p := pos + if idr then 2 else 1;
    var first, noOutput, address := bits[pos], idr && bits[pos + 1], 0;
    assert ReadFirst(bits, pos, idr) == Some(Read(if first then 1 else 0, p));
    var pps := UE(bits, p).value;
    q, r := pps.next, SkipFields(bits, pos, idr).value;
    if !first { address := UE(bits, q).value.value; }
    var kind := UE(bits, r).value;
    h, end := Head(idr, first, noOutput, pps.value, address, kind.value), kind.next;
  }

  lemma HeadReads(g: Coding, bits: Bits, pos: nat, h: Head, end: nat)
    requires Lawful(g) && HeadOk(h) && Holds(bits, pos, HeadCode(g, h)) && end == pos + |HeadCode(g, h)|
    ensures ReadType(bits, pos, h.idr) == Some(Read(h.kind, end))
  {
    var p := pos + |FlagsCode(h)|;
    var q := p + |g(h.pps)|;
    var r := q + |AddressCode(g, h)|;
    HeadParts(g, bits, pos, h, p, q, r, end);
    HeadIsRead(g, bits, pos, h, p, q, r, end);
    ReadTypeIs(bits, pos, h, p, q, r, end);
  }

  lemma HeadOnly(g: Coding, bits: Bits, pos: nat, idr: bool) returns (h: Head, end: nat)
    requires Lawful(g) && ReadType(bits, pos, idr).Some?
    ensures h.idr == idr && HeadOk(h) && Holds(bits, pos, HeadCode(g, h)) && end == pos + |HeadCode(g, h)|
    ensures ReadType(bits, pos, idr) == Some(Read(h.kind, end))
  {
    var p, q, r;
    h, p, q, r, end := HeadFields(bits, pos, idr);
    HeadWasWritten(g, bits, pos, h, p, q, r, end);
    HeadParts(g, bits, pos, h, p, q, r, end);
    ReadTypeIs(bits, pos, h, p, q, r, end);
  }

  // ---------------------------------------------------------------- the list

  /** The list: one of the SPS, one with too many entries, or one with its own numbers of entries. */
  datatype Counts = OfSps | TooMany(count: nat) | Own(count: nat, positive: nat)

  predicate CountsOk(c: Counts) {
    match c
    case OfSps => true
    case TooMany(count) => count > 16 && Small(count)
    case Own(count, positive) => count <= 16 && Small(positive)
  }

  function CountsCode(g: Coding, c: Counts): Bits {
    match c
    case OfSps => [true]
    case TooMany(count) => [false] + g(count)
    case Own(count, positive) => [false] + (g(count) + g(positive))
  }

  function ListOf(c: Counts, next: nat): RefList {
    match c
    case OfSps => FromSps
    case TooMany(_) => TooLong
    case Own(count, _) => Inline(count, next)
  }

  /** The numbers have been read, from `p` up to `next`. */
  ghost predicate CountsRead(bits: Bits, p: nat, c: Counts, next: nat) {
    && p < |bits| && bits[p] == c.OfSps?
    && (c.OfSps? ==> next == p + 1)
    && (c.TooMany? ==> UE(bits, p + 1) == Some(Read(c.count, next)))
    && (c.Own? ==> UE(bits, p + 1).Some? && UE(bits, p + 1).value.value == c.count
                   && UE(bits, UE(bits, p + 1).value.next) == Some(Read(c.positive, next)))
  }

  lemma CountsAreRead(g: Coding, bits: Bits, p: nat, c: Counts, next: nat)
    requires Lawful(g) && CountsOk(c) && Holds(bits, p, CountsCode(g, c)) && next == p + |CountsCode(g, c)|
    ensures CountsRead(bits, p, c, next)
  {
    HoldsOne(bits, p, c.OfSps?);
    match c
    case OfSps =>
    case TooMany(count) =>
      HoldsConcat(bits, p, [false], g(count));
      assert ReadAs(g, bits, p + 1, count, next);
    case Own(count, positive) =>
      var q := p + 1 + |g(count)|;
      HoldsConcat(bits, p, [false], g(count) + g(positive));
      HoldsConcat(bits, p + 1, g(count), g(positive));
      assert ReadAs(g, bits, p + 1, count, q);
      assert ReadAs(g, bits, q, positive, next);
  }

  lemma CountsWereWritten(g: Coding, bits: Bits, p: nat, c: Counts, next: nat)
    requires Lawful(g) && CountsRead(bits, p, c, next) && (c.TooMany? <==> !c.OfSps? && c.count > 16)
    ensures CountsOk(c) && Holds(bits, p, CountsCode(g, c)) && next == p + |CountsCode(g, c)|
  {
    HoldsOne(bits, p, c.OfSps?);
    match c
    case OfSps =>
    case TooMany(count) =>
      assert WrittenAs(g, bits, p + 1);
      HoldsConcat(bits, p, [false], g(count));
    case Own(count, positive) =>
      var q := UE(bits, p + 1).value.next;
      assert WrittenAs(g, bits, p + 1);
      assert WrittenAs(g, bits, q);
      OwnStands(bits, p, g(count), g(positive));
  }

  lemma OwnStands(bits: Bits, p: nat, a: Bits, b: Bits)
    requires Holds(bits, p, [false]) && Holds(bits, p + 1, a) && Holds(bits, p + 1 + |a|, b)
    ensures Holds(bits, p, [false] + (a + b))
  {
    HoldsConcat(bits, p, [false], a + b);
    HoldsConcat(bits, p + 1, a, b);
  }

  lemma ReadCountsIs(bits: Bits, p: nat, c: Counts, next: nat)
    requires CountsRead(bits, p, c, next) && (c.TooMany? <==> !c.OfSps? && c.count > 16)
    ensures !c.OfSps? ==> ReadCounts(bits, p + 1) == Some(ListOf(c, next))
  {
  }

  lemma CountsFields(bits: Bits, p: nat) returns (c: Counts, next: nat)
    requires p < |bits| && (!bits[p] ==> ReadCounts(bits, p + 1).Some?)
    ensures CountsRead(bits, p, c, next) && (c.TooMany? <==> !c.OfSps? && c.count > 16)
  {
    if bits[p] {
      c, next := OfSps, p + 1;
    } else {
      var n := UE(bits, p + 1).value;
      if n.value > 16 {
        c, next := TooMany(n.value), n.next;
      } else {
        var m := UE(bits, n.next).value;
        c, next := Own(n.value, m.value), m.next;
      }
    }
  }

  /** The list behind a picture order count. */
  lemma RefListIs(bits: Bits, pos: nat, pocBits: nat, p: nat)
    requires p == pos + pocBits
    ensures ReadRefList(bits, pos, pocBits)
         == if pocBits > 16 || p >= |bits| then None
            else if bits[p] then Some(FromSps)
            else ReadCounts(bits, p + 1)
  {
    if p < |bits| { UBit(bits, p); }
  }

  lemma CountsReads(g: Coding, bits: Bits, pos: nat, poc: Bits, c: Counts, next: nat)
    requires Lawful(g) && |poc| <= 16 && CountsOk(c) && Holds(bits, pos, poc + CountsCode(g, c))
    requires next == pos + |poc| + |CountsCode(g, c)|
    ensures ReadRefList(bits, pos, |poc|) == Some(ListOf(c, next))
  {
    var p := pos + |poc|;
    HoldsConcat(bits, pos, poc, CountsCode(g, c));
    CountsAreRead(g, bits, p, c, next);
    ReadCountsIs(bits, p, c, next);
    RefListIs(bits, pos, |poc|, p);
  }

  lemma CountsOnly(g: Coding, bits: Bits, pos: nat, pocBits: nat) returns (poc: Bits, c: Counts, next: nat)
    requires Lawful(g) && ReadRefList(bits, pos, pocBits).Some?
    ensures |poc| == pocBits <= 16 && CountsOk(c) && Holds(bits, pos, poc + CountsCode(g, c))
    ensures next == pos + |poc| + |CountsCode(g, c)|
    ensures ReadRefList(bits, pos, pocBits) == Some(ListOf(c, next))
  {
    var p := pos + pocBits;
    RefListIs(bits, pos, pocBits, p);
    poc := bits[pos..p];
    c, next := CountsFields(bits, p);
    CountsWereWritten(g, bits, p, c, next);
    ReadCountsIs(bits, p, c, next);
    HoldsConcat(bits, pos, poc, CountsCode(g, c));
  }

  // ---------------------------------------------------------------- the entries

  datatype Entry = Entry(delta: nat, used: bool)

  function EntryCode(g: Coding, e: Entry): Bits { g(e.delta) + [e.used] }

  function EntriesCode(g: Coding, es: seq<Entry>): Bits {
    if es == [] then [] else EntryCode(g, es[0]) + EntriesCode(g, es[1..])
  }

  predicate NoneUsed(es: seq<Entry>) { forall j :: 0 <= j < |es| ==> !es[j].used }

  predicate AllSmall(es: seq<Entry>) { forall j :: 0 <= j < |es| ==> Small(es[j].delta) }

  /** All entries of the list, or so many of them that one is in use. */
  predicate EntriesOk(es: seq<Entry>, count: nat) {
    |es| <= count && AllSmall(es) && (NoneUsed(es) ==> |es| == count)
  }

  /** Entry `j` is in use and none before it is. */
  predicate FirstUsed(es: seq<Entry>, j: nat) {
    j < |es| && es[j].used && forall h :: 0 <= h < j ==> !es[h].used
  }

  /** The number of the first entry in use, when the first one has number `i`. */
  function Used(es: seq<Entry>, i: nat): nat {
    if es == [] then NO_REFERENCE else if es[0].used then i else Used(es[1..], i + 1)
  }

  lemma {:induction false} UsedExact(es: seq<Entry>, i: nat)
    requires i + |es| <= 16
    ensures Used(es, i) >= i && (NoneUsed(es) ==> Used(es, i) == 255)
    ensures forall j: nat :: j < |es| ==> (Used(es, i) == i + j <==> FirstUsed(es, j))
  {
    if es != [] {
      var rest := es[1..];
      UsedExact(rest, i + 1);
      if !es[0].used { NextEntries(es); }
      forall j: nat | j < |es| ensures Used(es, i) == i + j <==> FirstUsed(es, j) {
        if j > 0 { assert Used(rest, i + 1) == i + 1 + (j - 1) <==> FirstUsed(rest, j - 1); }
      }
    }
  }

  lemma NextEntries(es: seq<Entry>)
    requires es != [] && !es[0].used
    ensures NoneUsed(es) <==> NoneUsed(es[1..])
    ensures AllSmall(es) ==> AllSmall(es[1..])
    ensures forall j: nat :: 0 < j < |es| ==> (FirstUsed(es, j) <==> FirstUsed(es[1..], j - 1))
  {
    var rest := es[1..];
    assert forall j :: 0 <= j < |rest| ==> rest[j] == es[j + 1];
    assert forall j :: 1 <= j < |es| ==> es[j] == rest[j - 1];
    forall j: nat | 0 < j < |es| ensures FirstUsed(es, j) <==> FirstUsed(rest, j - 1) {
      if FirstUsed(rest, j - 1) {
        forall h | 0 <= h < j ensures !es[h].used { if h > 0 { assert !rest[h - 1].used; } }
      }
    }
  }

  ghost predicate EntryReadAs(flag: Finder, g: Coding, bits: Bits, pos: nat, e: Entry, next: nat) {
    Small(e.delta) && Holds(bits, pos, EntryCode(g, e)) && next == pos + |EntryCode(g, e)| ==>
      next <= |bits| && bits[next - 1] == e.used && flag(bits, pos) == Some(next - 1)
  }

  ghost predicate EntryWritten(flag: Finder, g: Coding, bits: Bits, pos: nat) {
    flag(bits, pos).Some? ==> exists e :: EntryStands(g, bits, pos, e, flag(bits, pos).value)
  }

  /** The code of an entry stands here, with its flag at `p`. */
  ghost predicate EntryStands(g: Coding, bits: Bits, pos: nat, e: Entry, p: nat) {
    && p < |bits| && e.used == bits[p] && Small(e.delta)
    && Holds(bits, pos, EntryCode(g, e)) && p + 1 == pos + |EntryCode(g, e)|
  }

  /** A flag is found exactly behind the code of its entry's distance. */
  ghost predicate FlagLawful(flag: Finder, g: Coding) {
    && (forall bits: Bits, pos: nat, e: Entry, next: nat :: EntryReadAs(flag, g, bits, pos, e, next))
    && (forall bits: Bits, pos: nat :: EntryWritten(flag, g, bits, pos))
  }

  lemma FlagIsLawful(g: Coding)
    requires Lawful(g)
    ensures FlagLawful(Flag, g)
  {
    forall bits: Bits, pos: nat, e: Entry, next: nat ensures EntryReadAs(Flag, g, bits, pos, e, next) {
      EntryReads(g, bits, pos, e, next);
    }
    forall bits: Bits, pos: nat ensures EntryWritten(Flag, g, bits, pos) {
      if Flag(bits, pos).Some? { var e := EntryOnly(g, bits, pos, Flag(bits, pos).value); }
    }
  }

  lemma EntryReads(g: Coding, bits: Bits, pos: nat, e: Entry, next: nat)
    requires Lawful(g)
    ensures EntryReadAs(Flag, g, bits, pos, e, next)
  {
    var p := pos + |g(e.delta)|;
    HoldsConcat(bits, pos, g(e.delta), [e.used]);
    assert ReadAs(g, bits, pos, e.delta, p);
    HoldsOne(bits, p, e.used);
  }

  lemma EntryOnly(g: Coding, bits: Bits, pos: nat, p: nat) returns (e: Entry)
    requires Lawful(g) && Flag(bits, pos) == Some(p)
    ensures EntryStands(g, bits, pos, e, p)
  {
    assert WrittenAs(g, bits, pos);
    e := Entry(UE(bits, pos).value.value, bits[p]);
    HoldsOne(bits, p, e.used);
    HoldsConcat(bits, pos, g(e.delta), [e.used]);
  }

  /** The entries are read up to the first one in use. */
  lemma {:induction false} EntriesRead(flag: Finder, g: Coding, bits: Bits, pos: nat,
    es: seq<Entry>, i: nat, count: nat)
    requires FlagLawful(flag, g) && i <= count && EntriesOk(es, count - i) && Holds(bits, pos, EntriesCode(g, es))
    ensures FindUsed(flag, bits, pos, i, count) == Some(Used(es, i))
    decreases |es|
  {
    if es != [] {
      var next := pos + |EntryCode(g, es[0])|;
      HoldsConcat(bits, pos, EntryCode(g, es[0]), EntriesCode(g, es[1..]));
      assert EntryReadAs(flag, g, bits, pos, es[0], next);
      if !es[0].used {
        NextEntries(es);
        EntriesRead(flag, g, bits, next, es[1..], i + 1, count);
      }
    }
  }

  /** What was read is the code of entries. */
  lemma {:induction false} EntriesOnly(flag: Finder, g: Coding, bits: Bits, pos: nat, i: nat, count: nat)
    returns (es: seq<Entry>)
    requires FlagLawful(flag, g) && i <= count && pos <= |bits| && FindUsed(flag, bits, pos, i, count).Some?
    ensures EntriesOk(es, count - i) && Holds(bits, pos, EntriesCode(g, es))
    decreases count - i
  {
    if i == count {
      es := [];
    } else {
      var p := flag(bits, pos).value;
      assert EntryWritten(flag, g, bits, pos);
      var e :| EntryStands(g, bits, pos, e, p);
      var rest: seq<Entry> := [];
      if !e.used { rest := EntriesOnly(flag, g, bits, p + 1, i + 1, count); }
      es := [e] + rest;
      EntriesCons(g, bits, pos, e, rest, p + 1, count - i);
    }
  }

  lemma EntriesCons(g: Coding, bits: Bits, pos: nat, e: Entry, rest: seq<Entry>, next: nat, count: nat)
    requires Small(e.delta) && Holds(bits, pos, EntryCode(g, e)) && next == pos + |EntryCode(g, e)|
    requires count > 0
    requires if e.used then rest == [] else EntriesOk(rest, count - 1) && Holds(bits, next, EntriesCode(g, rest))
    ensures EntriesOk([e] + rest, count) && Holds(bits, pos, EntriesCode(g, [e] + rest))
  {
    var es := [e] + rest;
    assert es[1..] == rest;
    if e.used { assert es[0].used; } else { NextEntries(es); }
    assert forall j :: 0 < j < |es| ==> es[j] == rest[j - 1];
    HoldsConcat(bits, pos, EntryCode(g, e), EntriesCode(g, rest));
  }

  // ---------------------------------------------------------------- whole headers

  datatype Fields = Fields(head: Head, poc: Bits, counts: Counts, entries: seq<Entry>)

  /** The picture order count, the list and its entries; an IDR picture has none of them. */
  function ListCode(g: Coding, f: Fields): Bits {
    f.poc + CountsCode(g, f.counts) + OwnEntries(g, f.counts, f.entries)
  }

  /** The entries, if there are any. */
  function OwnEntries(g: Coding, c: Counts, es: seq<Entry>): Bits { if c.Own? then EntriesCode(g, es) else [] }

  function Code(g: Coding, f: Fields): Bits {
    HeadCode(g, f.head) + if f.head.idr then [] else ListCode(g, f)
  }

  predicate ListOk(f: Fields, pocBits: nat) {
    |f.poc| == pocBits <= 16 && CountsOk(f.counts) && (f.counts.Own? ==> EntriesOk(f.entries, f.counts.count))
  }

  predicate FieldsOk(f: Fields, pocBits: nat) { HeadOk(f.head) && (!f.head.idr ==> ListOk(f, pocBits)) }

  /** The types of NAL unit that are read: 20 for an IDR picture, and 1. */
  function TypeCode(idr: bool): Bits {
    if idr then [false, true, false, true, false, false] else [false, false, false, false, false, true]
  }

  /** A unit with these fields, from its header at `start` on. */
  ghost predicate Written(unit: Bits, start: nat, pocBits: nat, f: Fields) {
    && start + 16 <= |unit| && Holds(unit, start + 1, TypeCode(f.head.idr))
    && FieldsOk(f, pocBits) && Holds(unit, start + 16, Code(Golomb, f))
  }

  /** What the parser is to answer to these fields: too many entries are rejected; the slice type is P for
      the number 1 and I for 2; the reference frame is the first entry in use, 255 if there is none or
      the list is one of the SPS, and keeps its value for an IDR picture. */
  ghost predicate Reports(f: Fields, before: Slice, answer: Answer) {
    && (answer.Rejected? <==> !f.head.idr && f.counts.TooMany?)
    && (answer.Accepted? ==>
          var (kind, frame) := (answer.slice.sliceType, answer.slice.referenceFrame);
          && (kind == SliceP <==> f.head.kind == 1) && (kind == SliceI <==> f.head.kind == 2)
          && (f.head.idr ==> frame == before.referenceFrame)
          && (!f.head.idr && f.counts.OfSps? ==> frame == 255)
          && (!f.head.idr && f.counts.Own? ==>
                && (NoneUsed(f.entries) ==> frame == 255)
                && forall j: nat :: j < |f.entries| ==> (frame == j <==> FirstUsed(f.entries, j))))
  }

  lemma TypeExact(bits: Bits, start: nat)
    requires start + 16 <= |bits|
    ensures NalType(bits, start) == 1 <==> Holds(bits, start + 1, TypeCode(false))
    ensures NalType(bits, start) == 20 <==> Holds(bits, start + 1, TypeCode(true))
  {
    assert Pow2(6) == 64;
    SixDigits();
    BinaryExact(bits, start + 1, 1, 6);
    BinaryExact(bits, start + 1, 20, 6);
  }

  lemma SixDigits()
    ensures Binary(1, 6) == TypeCode(false) && Binary(20, 6) == TypeCode(true)
  {
    assert Binary(0, 3) == [false, false, false];
    assert Binary(2, 3) == [false, true, false];
    assert Binary(20, 6) == Binary(2, 3) + [true] + [false] + [false];
  }

  /** The answer to these fields, computed. */
  function AnswerTo(f: Fields, before: Slice): Answer {
    var kind := TypeOf(f.head.kind);
    if f.head.idr then Accepted(Slice(kind, before.referenceFrame)) else ListAnswer(f.counts, f.entries, kind)
  }

  function ListAnswer(c: Counts, es: seq<Entry>, kind: SliceType): Answer {
    match c
    case OfSps => Accepted(Slice(kind, NO_REFERENCE))
    case TooMany(_) => Rejected
    case Own(_, _) => Accepted(Slice(kind, Used(es, 0)))
  }

  lemma AnswerReports(f: Fields, pocBits: nat, before: Slice)
    requires FieldsOk(f, pocBits)
    ensures Reports(f, before, AnswerTo(f, before))
  {
    if !f.head.idr && f.counts.Own? { UsedExact(f.entries, 0); }
  }

  /** What the parser makes of a list that has been read. */
  lemma ParseListIs(bits: Bits, pos: nat, pocBits: nat, kind: SliceType, c: Counts, next: nat)
    requires ReadRefList(bits, pos, pocBits) == Some(ListOf(c, next))
    ensures c.OfSps? ==> ParseList(bits, pos, pocBits, kind) == Some(Accepted(Slice(kind, NO_REFERENCE)))
    ensures c.TooMany? ==> ParseList(bits, pos, pocBits, kind) == Some(Rejected)
    ensures c.Own? ==>
              var used := FindUsed(Flag, bits, next, 0, c.count);
              ParseList(bits, pos, pocBits, kind)
              == if used.None? then None else Some(Accepted(Slice(kind, used.value)))
  {
  }

  /** The list of a slice and its entries are read as they were written. */
  lemma ListReads(g: Coding, bits: Bits, pos: nat, pocBits: nat, kind: SliceType, f: Fields, list: Bits)
    requires Lawful(g) && ListOk(f, pocBits) && list == ListCode(g, f) && Holds(bits, pos, list)
    ensures ParseList(bits, pos, pocBits, kind) == Some(ListAnswer(f.counts, f.entries, kind))
  {
    var c, counts := f.counts, f.poc + CountsCode(g, f.counts);
    var next := pos + |counts|;
    HoldsConcat(bits, pos, counts, OwnEntries(g, c, f.entries));
    CountsReads(g, bits, pos, f.poc, c, next);
    if c.Own? {
      FlagIsLawful(g);
      EntriesRead(Flag, g, bits, next, f.entries, 0, c.count);
    }
    ParseListIs(bits, pos, pocBits, kind, c, next);
  }

  /** What the parser makes of a header whose fields up to the slice type have been read. */
  lemma ParsePayloadIs(bits: Bits, pos: nat, pocBits: nat, before: Slice, idr: bool, kind: nat, next: nat)
    requires ReadType(bits, pos, idr) == Some(Read(kind, next))
    ensures ParsePayload(bits, pos, idr, pocBits, before)
         == if idr then Some(Accepted(Slice(TypeOf(kind), before.referenceFrame)))
            else ParseList(bits, next, pocBits, TypeOf(kind))
  {
  }

  lemma PayloadReads(g: Coding, bits: Bits, pos: nat, pocBits: nat, before: Slice, f: Fields)
    requires Lawful(g) && FieldsOk(f, pocBits) && Holds(bits, pos, Code(g, f))
    ensures ParsePayload(bits, pos, f.head.idr, pocBits, before) == Some(AnswerTo(f, before))
  {
    var idr, kind, head, list := f.head.idr, f.head.kind, HeadCode(g, f.head), ListCode(g, f);
    var next := pos + |head|;
    HoldsConcat(bits, pos, head, if idr then [] else list);
    HeadReads(g, bits, pos, f.head, next);
    ParsePayloadIs(bits, pos, pocBits, before, idr, kind, next);
    if !idr { ListReads(g, bits, next, pocBits, TypeOf(kind), f, list); }
  }

  /** Where the payload of a unit of these types is parsed. */
  lemma SliceOfIs(bits: Bits, unit: Bits, start: nat, pos: nat, pocBits: nat, before: Slice, idr: bool)
    requires FindStart(bits, 0) == Some(start) && unit == Unit(bits, start) && pos == start + 16 <= |unit|
    requires Holds(unit, start + 1, TypeCode(idr))
    ensures SliceOf(bits, pocBits, before) == ParsePayload(unit, pos, idr, pocBits, before)
  {
    var nalType := NalType(unit, start);
    assert nalType == if idr then 20 else 1 by { TypeExact(unit, start); }
    ParseSliceIs(unit, start, pos, pocBits, before, nalType);
  }

  lemma ParseSliceIs(unit: Bits, start: nat, pos: nat, pocBits: nat, before: Slice, nalType: nat)
    requires pos == start + 16 <= |unit| && nalType == NalType(unit, start)
    ensures ParseSlice(unit, start, pocBits, before)
         == if nalType == 1 || nalType == 20 then ParsePayload(unit, pos, nalType == 20, pocBits, before)
            else Some(Rejected)
  {
  }

  /** What the parser answers to a unit with given fields. */
  lemma WrittenIsRead(bits: Bits, start: nat, pocBits: nat, before: Slice, f: Fields) returns (answer: Answer)
    requires FindStart(bits, 0) == Some(start) && Written(Unit(bits, start), start, pocBits, f)
    ensures SliceOf(bits, pocBits, before) == Some(answer) && Reports(f, before, answer)
  {
    var unit, pos := Unit(bits, start), start + 16;
    answer := AnswerTo(f, before);
    AnswerReports(f, pocBits, before);
    SliceOfIs(bits, unit, start, pos, pocBits, before, f.head.idr);
    GolombLawful();
    PayloadReads(Golomb, unit, pos, pocBits, before, f);
  }

  lemma ListOnly(g: Coding, bits: Bits, pos: nat, pocBits: nat, kind: SliceType, head: Head)
    returns (f: Fields, list: Bits)
    requires Lawful(g) && ParseList(bits, pos, pocBits, kind).Some?
    ensures f.head == head && ListOk(f, pocBits) && list == ListCode(g, f) && Holds(bits, pos, list)
  {
    ListRead(bits, pos, pocBits, kind);
    var poc, c, next := CountsOnly(g, bits, pos, pocBits);
    EntriesFound(bits, pos, pocBits, kind, c, next);
    var es := OwnEntriesOnly(g, bits, pos, pocBits, c, next);
    f := Fields(head, poc, c, es);
    list := ListStands(g, bits, pos, f, next);
  }

  lemma ListStands(g: Coding, bits: Bits, pos: nat, f: Fields, next: nat) returns (list: Bits)
    requires Holds(bits, pos, f.poc + CountsCode(g, f.counts))
    requires next == pos + |f.poc| + |CountsCode(g, f.counts)|
    requires f.counts.Own? ==> Holds(bits, next, EntriesCode(g, f.entries))
    ensures list == ListCode(g, f) && Holds(bits, pos, list)
  {
    list := ListCode(g, f);
    HoldsConcat(bits, pos, f.poc + CountsCode(g, f.counts), OwnEntries(g, f.counts, f.entries));
  }

  lemma EntriesFound(bits: Bits, pos: nat, pocBits: nat, kind: SliceType, c: Counts, next: nat)
    requires ParseList(bits, pos, pocBits, kind).Some? && ReadRefList(bits, pos, pocBits) == Some(ListOf(c, next))
    ensures c.Own? ==> FindUsed(Flag, bits, next, 0, c.count).Some?
  {
    ParseListIs(bits, pos, pocBits, kind, c, next);
  }

  lemma ListRead(bits: Bits, pos: nat, pocBits: nat, kind: SliceType)
    requires ParseList(bits, pos, pocBits, kind).Some?
    ensures ReadRefList(bits, pos, pocBits).Some?
  {
  }

  lemma OwnEntriesOnly(g: Coding, bits: Bits, pos: nat, pocBits: nat, c: Counts, next: nat) returns (es: seq<Entry>)
    requires Lawful(g) && ReadRefList(bits, pos, pocBits) == Some(ListOf(c, next))
    requires c.Own? ==> FindUsed(Flag, bits, next, 0, c.count).Some?
    ensures c.Own? ==> EntriesOk(es, c.count) && Holds(bits, next, EntriesCode(g, es))
  {
    es := [];
    if c.Own? {
      FlagIsLawful(g);
      ListInside(bits, pos, pocBits, c, next);
      es := EntriesOnly(Flag, g, bits, next, 0, c.count);
    }
  }

  lemma ListInside(bits: Bits, pos: nat, pocBits: nat, c: Counts, next: nat)
    requires ReadRefList(bits, pos, pocBits) == Some(ListOf(c, next)) && c.Own?
    ensures next <= |bits|
  {
  }

  lemma PayloadOnly(g: Coding, bits: Bits, pos: nat, idr: bool, pocBits: nat, before: Slice) returns (f: Fields)
    requires Lawful(g) && ParsePayload(bits, pos, idr, pocBits, before).Some?
    ensures f.head.idr == idr && FieldsOk(f, pocBits) && Holds(bits, pos, Code(g, f))
  {
    TypeRead(bits, pos, idr, pocBits, before);
    var h, next := HeadOnly(g, bits, pos, idr);
    ParsePayloadIs(bits, pos, pocBits, before, idr, h.kind, next);
    f := Fields(h, [], OfSps, []);
    var list: Bits := [];
    if !idr { f, list := ListOnly(g, bits, next, pocBits, TypeOf(h.kind), h); }
    var head := HeadCode(g, h);
    HoldsConcat(bits, pos, head, list);
    assert idr ==> head + list == Code(g, f);
  }

  lemma TypeRead(bits: Bits, pos: nat, idr: bool, pocBits: nat, before: Slice)
    requires ParsePayload(bits, pos, idr, pocBits, before).Some?
    ensures ReadType(bits, pos, idr).Some?
  {
  }

  /** Whatever the parser answers, a unit of these types that it reads to its end has fields that it
      answers to. */
  lemma ReadWasWritten(bits: Bits, start: nat, pocBits: nat, before: Slice) returns (f: Fields)
    requires FindStart(bits, 0) == Some(start) && start + 16 <= |Unit(bits, start)|
    requires OfKnownType(Unit(bits, start), start)
    requires SliceOf(bits, pocBits, before).Some?
    ensures Written(Unit(bits, start), start, pocBits, f)
    ensures Reports(f, before, SliceOf(bits, pocBits, before).value)
  {
    var unit, pos := Unit(bits, start), start + 16;
    var idr := unit[start + 1..start + 7] == TypeCode(true);
    SliceOfIs(bits, unit, start, pos, pocBits, before, idr);
    GolombLawful();
    f := PayloadOnly(Golomb, unit, pos, idr, pocBits, before);
    var answer := WrittenIsRead(bits, start, pocBits, before, f);
  }

  /** A unit of one of the types that are read. */
  predicate OfKnownType(unit: Bits, start: nat) {
    Holds(unit, start + 1, TypeCode(false)) || Holds(unit, start + 1, TypeCode(true))
  }

  /** Data without a start code and units of other types are rejected. */
  lemma OthersRejected(bits: Bits, pocBits: nat, before: Slice)
    ensures FindStart(bits, 0).None? ==> SliceOf(bits, pocBits, before) == Some(Rejected)
    ensures FindStart(bits, 0).Some? ==>
              var start := FindStart(bits, 0).value;
              var unit := Unit(bits, start);
              start + 16 <= |unit| && !OfKnownType(unit, start) ==> SliceOf(bits, pocBits, before) == Some(Rejected)
  {
    if FindStart(bits, 0).Some? {
      var start := FindStart(bits, 0).value;
      if start + 16 <= |Unit(bits, start)| { TypeExact(Unit(bits, start), start); }
    }
  }

  /** The start code is the first one that begins at one of the first 65 octets. */
  lemma {:induction false} StartExact(bits: Bits, k: nat, j: nat)
    requires k <= 64
    ensures FindStart(bits, k) == Some(8 * j + 32) <==>
      k <= j <= 64 && Holds(bits, 8 * j, StartCode()) && forall i :: k <= i < j ==> !StartsHere(bits, i)
    decreases 64 - k
  {
    if StartsHere(bits, k) {
      assert k < j ==> exists i :: k <= i < j && StartsHere(bits, i);
    } else if k < 64 {
      StartExact(bits, k + 1, j);
    }
  }

  predicate StartsHere(bits: Bits, octet: nat) { Holds(bits, 8 * octet, StartCode()) }

  lemma {:induction false} BinaryZero(n: nat)
    ensures Binary(0, n) == Zeros(n)
  {
    if n > 0 { BinaryZero(n - 1); }
  }

  /** A number of one bit or two, in `n` digits. */
  lemma BinaryLow(n: nat)
    requires n >= 2
    ensures Binary(1, n) == Zeros(n - 1) + [true] && Binary(3, n) == Zeros(n - 2) + [true, true]
  {
    BinaryZero(n - 1);
    BinaryZero(n - 2);
    assert Binary(3, n) == Zeros(n - 2) + [true] + [true];
  }

  lemma {:induction false} PowGrows(n: nat)
    ensures Pow2(n) >= n + 1
  {
    if n > 0 { PowGrows(n - 1); }
  }

  lemma LowNumber(bits: Bits, pos: nat, n: nat, v: nat, code: Bits)
    requires n >= 2 && (v == 1 || v == 3)
    requires code == if v == 1 then Zeros(n - 1) + [true] else Zeros(n - 2) + [true, true]
    ensures Holds(bits, pos, code) <==> pos + n <= |bits| && ValueAt(bits, pos, n) == v
  {
    PowGrows(n);
    assert v < Pow2(n) by { assert n == 2 ==> Pow2(n) == 2 * (2 * Pow2(0)); }
    BinaryLow(n);
    if pos + n <= |bits| { BinaryExact(bits, pos, v, n); }
  }

  /** The patterns as numbers: a start code is the number one in four octets or in three, and emulation
      prevention the number three in three. */
  lemma PatternNumbers(bits: Bits, pos: nat)
    ensures Holds(bits, pos, StartCode()) <==> pos + 32 <= |bits| && ValueAt(bits, pos, 32) == 1
    ensures Holds(bits, pos, ShortStartCode()) <==> pos + 24 <= |bits| && ValueAt(bits, pos, 24) == 1
    ensures Holds(bits, pos, EscapeCode()) <==> pos + 24 <= |bits| && ValueAt(bits, pos, 24) == 3
    ensures NextUnit(bits, pos) <==>
      || (pos + 24 <= |bits| && ValueAt(bits, pos, 24) == 1)
      || (pos + 32 <= |bits| && ValueAt(bits, pos, 32) == 1)
  {
    LowNumber(bits, pos, 32, 1, StartCode());
    LowNumber(bits, pos, 24, 1, ShortStartCode());
    LowNumber(bits, pos, 24, 3, EscapeCode());
  }

  // ---------------------------------------------------------------- what the patch works on

  /** A P slice of type 1 with a list of its own, whose entries begin at `next`. */
  ghost predicate OwnList(g: Coding, unit: Bits, start: nat, pocBits: nat, h: Head, poc: Bits, c: Counts, next: nat) {
    && start + 16 <= |unit| && Holds(unit, start + 1, TypeCode(false)) && !h.idr && h.kind == 1
    && HeadOk(h) && |poc| == pocBits <= 16 && c.Own? && CountsOk(c)
    && Holds(unit, start + 16, HeadCode(g, h) + (poc + CountsCode(g, c)))
    && next == start + 16 + |HeadCode(g, h)| + |poc| + |CountsCode(g, c)|
  }

  /** The patch works on a list exactly when the header says that it is a P slice with a list of its own. */
  lemma PatchListExact(unit: Bits, start: nat, pocBits: nat, count: nat, next: nat)
    ensures PatchList(unit, start, pocBits) == Some(Inline(count, next)) <==>
      exists h, poc, c :: OwnList(Golomb, unit, start, pocBits, h, poc, c, next) && c.count == count
  {
    GolombLawful();
    if start + 16 <= |unit| { TypeExact(unit, start); }
    forall h, poc, c | OwnList(Golomb, unit, start, pocBits, h, poc, c, next) && c.count == count
      ensures PatchList(unit, start, pocBits) == Some(Inline(count, next))
    {
      OwnListRead(Golomb, unit, start + 16, pocBits, h, poc, c, next);
    }
    if PatchList(unit, start, pocBits) == Some(Inline(count, next)) {
      var h, poc, c := OwnListWritten(Golomb, unit, start + 16, pocBits, count, next);
      assert OwnList(Golomb, unit, start, pocBits, h, poc, c, next);
    }
  }

  lemma OwnListRead(g: Coding, unit: Bits, pos: nat, pocBits: nat, h: Head, poc: Bits, c: Counts, next: nat)
    requires Lawful(g) && HeadOk(h) && !h.idr && h.kind == 1 && |poc| == pocBits <= 16 && c.Own? && CountsOk(c)
    requires Holds(unit, pos, HeadCode(g, h) + (poc + CountsCode(g, c)))
    requires next == pos + |HeadCode(g, h)| + |poc| + |CountsCode(g, c)|
    ensures PayloadList(unit, pos, pocBits) == Some(Inline(c.count, next))
  {
    var head, counts := HeadCode(g, h), poc + CountsCode(g, c);
    var p := pos + |head|;
    HoldsConcat(unit, pos, head, counts);
    HeadReads(g, unit, pos, h, p);
    CountsReads(g, unit, p, poc, c, next);
    PSliceIs(unit, pos, pocBits, p);
  }

  lemma PSliceIs(unit: Bits, pos: nat, pocBits: nat, p: nat)
    requires ReadType(unit, pos, false) == Some(Read(1, p))
    ensures PayloadList(unit, pos, pocBits) == ReadRefList(unit, p, pocBits)
  {
  }

  lemma OwnListWritten(g: Coding, unit: Bits, pos: nat, pocBits: nat, count: nat, next: nat)
    returns (h: Head, poc: Bits, c: Counts)
    requires Lawful(g) && PayloadList(unit, pos, pocBits) == Some(Inline(count, next))
    ensures HeadOk(h) && !h.idr && h.kind == 1 && |poc| == pocBits <= 16 && c.Own? && CountsOk(c) && c.count == count
    ensures Holds(unit, pos, HeadCode(g, h) + (poc + CountsCode(g, c)))
    ensures next == pos + |HeadCode(g, h)| + |poc| + |CountsCode(g, c)|
  {
    var kind := PSliceRead(unit, pos, pocBits, count, next);
    h, poc, c := OwnListParts(g, unit, pos, pocBits, kind, count, next);
  }

  lemma OwnListParts(g: Coding, unit: Bits, pos: nat, pocBits: nat, kind: Read, count: nat, next: nat)
    returns (h: Head, poc: Bits, c: Counts)
    requires Lawful(g) && ReadType(unit, pos, false) == Some(kind) && kind.value == 1
    requires ReadRefList(unit, kind.next, pocBits) == Some(Inline(count, next))
    ensures HeadOk(h) && !h.idr && h.kind == 1 && |poc| == pocBits <= 16 && c.Own? && CountsOk(c) && c.count == count
    ensures Holds(unit, pos, HeadCode(g, h) + (poc + CountsCode(g, c)))
    ensures next == pos + |HeadCode(g, h)| + |poc| + |CountsCode(g, c)|
  {
    var p, end;
    h, p := HeadOnly(g, unit, pos, false);
    poc, c, end := CountsOnly(g, unit, p, pocBits);
    Joined(unit, pos, HeadCode(g, h), poc + CountsCode(g, c), p);
  }

  lemma Joined(bits: Bits, pos: nat, a: Bits, b: Bits, p: nat)
    requires Holds(bits, pos, a) && p == pos + |a| && Holds(bits, p, b)
    ensures Holds(bits, pos, a + b)
  {
    HoldsConcat(bits, pos, a, b);
  }

  lemma PSliceRead(unit: Bits, pos: nat, pocBits: nat, count: nat, next: nat) returns (kind: Read)
    requires PayloadList(unit, pos, pocBits) == Some(Inline(count, next))
    ensures ReadType(unit, pos, false) == Some(kind) && kind.value == 1
    ensures ReadRefList(unit, kind.next, pocBits) == Some(Inline(count, next))
  {
    kind := ReadType(unit, pos, false).value;
  }

  /** The patch reports failure and changes nothing when there is no start code, for other types of NAL unit,
      and for a slice that is no P slice. */
  lemma PatchRefuses(bits: Bits, skew: nat, pocBits: nat, frame: nat)
    ensures FindStart(bits, 0).None? ==> PatchOf(bits, skew, pocBits, frame) == Patched(Refused, bits)
    ensures forall start: nat | FindStart(bits, 0) == Some(start) && start + 16 <= |Unit(bits, start)| ::
              !Holds(Unit(bits, start), start + 1, TypeCode(false)) ==>
                PatchOf(bits, skew, pocBits, frame) == Patched(Refused, bits)
  {
    if FindStart(bits, 0).Some? {
      var start := FindStart(bits, 0).value;
      if start + 16 <= |Unit(bits, start)| { TypeExact(Unit(bits, start), start); }
    }
  }

  /** The header stands at `pos`: not of a P slice, or with a list that is one of the SPS or too long. */
  ghost predicate OtherSlice(g: Coding, unit: Bits, pos: nat, pocBits: nat, h: Head, poc: Bits, c: Counts) {
    && HeadOk(h) && !h.idr && Holds(unit, pos, HeadCode(g, h))
    && (h.kind == 1 ==>
          && |poc| == pocBits <= 16 && CountsOk(c) && !c.Own?
          && Holds(unit, pos + |HeadCode(g, h)|, poc + CountsCode(g, c)))
  }

  /** And so it does for a slice of type 1 that is no P slice, or whose list is one of the SPS or too long. */
  lemma PatchRefusesSlice(bits: Bits, skew: nat, pocBits: nat, frame: nat, unit: Bits, start: nat, pos: nat,
                          h: Head, poc: Bits, c: Counts)
    requires FindStart(bits, 0) == Some(start) && unit == Unit(bits, start) && pos == start + 16 <= |unit|
    requires Holds(unit, start + 1, TypeCode(false)) && OtherSlice(Golomb, unit, pos, pocBits, h, poc, c)
    ensures PatchOf(bits, skew, pocBits, frame) == Patched(Refused, bits)
  {
    assert NalType(unit, start) == 1 by { TypeExact(unit, start); }
    var list := PayloadList(unit, pos, pocBits);
    assert list.Some? && !list.value.Inline? by {
      GolombLawful();
      NoOwnList(Golomb, unit, pos, pocBits, h, poc, c);
    }
    RefusedBy(bits, skew, pocBits, frame, unit, start, pos, list.value);
  }

  lemma RefusedBy(bits: Bits, skew: nat, pocBits: nat, frame: nat, unit: Bits, start: nat, pos: nat, list: RefList)
    requires FindStart(bits, 0) == Some(start) && unit == Unit(bits, start) && pos == start + 16 <= |unit|
    requires NalType(unit, start) == 1 && PayloadList(unit, pos, pocBits) == Some(list) && !list.Inline?
    ensures PatchOf(bits, skew, pocBits, frame) == Patched(Refused, bits)
  {
    assert PatchPayload(unit, bits, skew, pos, pocBits, frame) == Patched(Refused, bits);
  }

  lemma NoOwnList(g: Coding, unit: Bits, pos: nat, pocBits: nat, h: Head, poc: Bits, c: Counts)
    requires Lawful(g) && OtherSlice(g, unit, pos, pocBits, h, poc, c)
    ensures PayloadList(unit, pos, pocBits).Some? && !PayloadList(unit, pos, pocBits).value.Inline?
  {
    var p := pos + |HeadCode(g, h)|;
    HeadReads(g, unit, pos, h, p);
    if h.kind == 1 {
      CountsReads(g, unit, p, poc, c, p + |poc| + |CountsCode(g, c)|);
      PSliceIs(unit, pos, pocBits, p);
    }
  }

  /** The flag of an entry is the last bit of its code. */
  lemma {:induction false} FlagPlace(flag: Finder, g: Coding, bits: Bits, pos: nat, es: seq<Entry>, i: nat, j: nat)
    requires FlagLawful(flag, g) && AllSmall(es) && Holds(bits, pos, EntriesCode(g, es)) && i <= j < i + |es|
    ensures FlagAt(flag, bits, pos, i, j) == Some(pos + |EntriesCode(g, es[..j - i + 1])| - 1)
    decreases |es|
  {
    var next := pos + |EntryCode(g, es[0])|;
    HoldsConcat(bits, pos, EntryCode(g, es[0]), EntriesCode(g, es[1..]));
    assert EntryReadAs(flag, g, bits, pos, es[0], next);
    var front := es[..j - i + 1];
    if i == j {
      assert front[1..] == [];
    } else {
      assert AllSmall(es[1..]);
      FlagPlace(flag, g, bits, next, es[1..], i + 1, j);
      assert front[1..] == es[1..][..j - i];
    }
  }

  // ---------------------------------------------------------------- an example

  /** A P slice whose list is one of the SPS: 00 00 00 01 02 01 d0 c0. */
  function SpsUnit(): Bits {
    seq(64, k => k in {31, 38, 47, 48, 49, 51, 56, 57})
  }

  lemma SpsListExample(before: Slice)
    ensures SliceOf(SpsUnit(), 4, before) == Some(Accepted(Slice(SliceP, 255)))
  {
    SpsUnitRead(SpsUnit(), before);
  }

  lemma SpsUnitRead(bits: Bits, before: Slice)
    requires |bits| == 64 && (forall k :: 0 <= k < 31 ==> !bits[k]) && bits[31]
    requires bits[33..39] == [false, false, false, false, false, true]
    requires bits[48..58] == [true, true, false, true, false, false, false, false, true, true]
    ensures SliceOf(bits, 4, before) == Some(Accepted(Slice(SliceP, 255)))
  {
    assert Holds(bits, 0, StartCode());
    assert bits[48] by { assert bits[48..58][0]; }
    NoNextUnit(bits, 48, 0);
    assert UnitEnd(bits, 48) == |bits|;
    assert Unit(bits, 32) == bits;
    var f := Fields(Head(false, true, false, 0, 0, 1), [false, false, false, true], OfSps, []);
    assert Golomb(0) == [true] && Golomb(1) == [false, true, false];
    assert Code(Golomb, f) == [true, true, false, true, false, false, false, false, true, true];
    assert Written(bits, 32, 4, f);
    var answer := WrittenIsRead(bits, 32, 4, before, f);
  }
}
