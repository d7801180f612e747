/** The 16-byte block counter of lib/src/gkcrypt.c: `counter_add` adds a 64-bit number to a
    little-endian 128-bit number, byte by byte with a carry held in 64 bits. */
module Counter {
  import opened Bytes
  import opened Modular

  type Block = s: seq<byte> | |s| == 16 witness seq(16, _ => 0)

  const TWO64: nat := 0x1_0000_0000_0000_0000
  const TWO128: nat := 0x1_0000_0000_0000_0000_0000_0000_0000_0000

  /** The number a little-endian byte string stands for. */
  function Value(s: seq<byte>): nat {
    if s == [] then 0 else s[0] + 256 * Value(s[1..])
  }

  function Pow256(n: nat): (p: nat)
    ensures p > 0
  {
    if n == 0 then 1 else 256 * Pow256(n - 1)
  }

  /** The bytes the carry loop leaves: each sum wraps at 64 bits. */
  function AddCarry(base: seq<byte>, v: nat): (r: seq<byte>)
    requires v < TWO64
    ensures |r| == |base|
  {
    if base == [] then []
    else
      var r := (base[0] + v) % TWO64;
      [r % 256] + AddCarry(base[1..], r / 256)
  }

  lemma {:induction false} AddNothing(base: seq<byte>)
    ensures AddCarry(base, 0) == base
  {
    if base != [] { AddNothing(base[1..]); }
  }

  lemma ScaleMod(r: nat, x: nat, p: nat)
    requires r < 256 && p > 0
    ensures (r + 256 * x) % (256 * p) == r + 256 * (x % p)
  {
    var q := x / p;
    assert x == p * q + x % p;
    assert r + 256 * x == (256 * p) * q + (r + 256 * (x % p)) by { assert (256 * p) * q == 256 * (p * q); }
    DivModUnique(r + 256 * x, 256 * p, q, r + 256 * (x % p));
  }

  lemma {:induction false} AddCarryValue(base: seq<byte>, v: nat)
    requires base != [] && base[0] + v < TWO64
    ensures Value(AddCarry(base, v)) == (Value(base) + v) % Pow256(|base|)
    decreases |base|, 0
  {
    var s, rest := base[0] + v, base[1..];
    FirstByte(base, v);
    CarryValue(rest, s / 256);
    CarrySum(s, Value(rest), Pow256(|rest|));
  }

  /** The first byte of a sum that fits 64 bits, and what is left to add to the others. */
  lemma FirstByte(base: seq<byte>, v: nat)
    requires base != [] && base[0] + v < TWO64
    ensures var s := base[0] + v; Value(AddCarry(base, v)) == s % 256 + 256 * Value(AddCarry(base[1..], s / 256))
  {
    var s := base[0] + v;
    DivModUnique(s, TWO64, 0, s);
    ValueCons(s % 256, AddCarry(base[1..], s / 256));
  }

  lemma ValueCons(b: byte, rest: seq<byte>)
    ensures Value([b] + rest) == b + 256 * Value(rest)
  {
    assert ([b] + rest)[1..] == rest;
  }

  lemma CarrySum(s: nat, rest: nat, p: nat)
    requires p > 0
    ensures s % 256 + 256 * ((rest + s / 256) % p) == (s + 256 * rest) % (256 * p)
  {
    ScaleMod(s % 256, rest + s / 256, p);
    assert s % 256 + 256 * (rest + s / 256) == s + 256 * rest;
  }

  lemma CarryValue(rest: seq<byte>, carry: nat)
    requires carry <= TWO64 / 256
    ensures Value(AddCarry(rest, carry)) == (Value(rest) + carry) % Pow256(|rest|)
    decreases |rest|, 1
  {
    if rest == [] {
      DivModUnique(carry, 1, carry, 0);
    } else {
      AddCarryValue(rest, carry);
    }
  }

  lemma {:induction false} ValueBound(s: seq<byte>)
    ensures Value(s) < Pow256(|s|)
  {
    if s != [] { ValueBound(s[1..]); }
  }

  lemma Pow256Of16()
    ensures Pow256(16) == TWO128
  {
    assert Pow256(4) == 0x1_0000_0000;
    assert Pow256(8) == TWO64;
    assert Pow256(12) == 0x1_0000_0000 * TWO64;
  }

  /** What `counter_add` adds: `v`, or `v - 2^64` when the first sum no longer fits 64 bits. */
  function Added(base: Block, v: nat): int { if base[0] + v < TWO64 then v else v - TWO64 }

  lemma CounterValue(base: Block, v: nat)
    requires v < TWO64
    ensures Value(AddCarry(base, v)) == (Value(base) + Added(base, v)) % TWO128
  {
    Pow256Of16();
    if base[0] + v < TWO64 {
      AddCarryValue(base, v);
    } else {
      var r := base[0] + v - TWO64;
      DivModUnique(base[0] + v, TWO64, 1, r);
      AddNothing(base[1..]);
      assert AddCarry(base, v)[1..] == base[1..];
      ValueBound(AddCarry(base, v));
      DivModUnique(Value(base) + v - TWO64, TWO128, 0, Value(AddCarry(base, v)));
    }
  }

  /** `counter_add` is addition modulo 2^128 exactly when the lowest byte plus the number fits
      64 bits. */
  lemma CounterAddIsAddition(base: Block, v: nat)
    requires v < TWO64
    ensures Value(AddCarry(base, v)) == (Value(base) + v) % TWO128 <==> base[0] + v < TWO64
  {
    CounterValue(base, v);
    if base[0] + v >= TWO64 {
      ModDiffer(Value(base) + v - TWO64, Value(base) + v, TWO128);
    }
  }

  /** Different 64-bit numbers give different blocks, also where the sum wraps. */
  lemma CountersDiffer(base: Block, v: nat, w: nat)
    requires v < w < TWO64
    ensures AddCarry(base, v) != AddCarry(base, w)
  {
    CounterValue(base, v);
    CounterValue(base, w);
    var a, b := Value(base) + Added(base, v), Value(base) + Added(base, w);
    if a < b { ModDiffer(a, b, TWO128); } else { ModDiffer(b, a, TWO128); }
  }

  /** The lowest byte comes first. */
  lemma LowestFirst(v: nat)
    requires v < 0x1_0000
    ensures AddCarry(seq<byte>(16, _ => 0), v) == [v % 256, v / 256] + seq<byte>(14, _ => 0)
  {
    var zeros := seq<byte>(16, _ => 0);
    var one := zeros[1..];
    assert one[1..] == seq<byte>(14, _ => 0);
    DivModUnique(v, TWO64, 0, v);
    DivModUnique(v / 256, TWO64, 0, v / 256);
    AddNothing(one[1..]);
    assert AddCarry(zeros, v) == [v % 256] + AddCarry(one, v / 256);
    assert AddCarry(one, v / 256) == [v / 256] + one[1..];
  }

  /** A number has one representation in bytes. */
  lemma {:induction false} ValueInjective(a: seq<byte>, b: seq<byte>)
    requires |a| == |b| && Value(a) == Value(b)
    ensures a == b
  {
    if a != [] {
      DivModUnique(Value(a), 256, Value(a[1..]), a[0]);
      DivModUnique(Value(b), 256, Value(b[1..]), b[0]);
      ValueInjective(a[1..], b[1..]);
      assert a == [a[0]] + a[1..] && b == [b[0]] + b[1..];
    }
  }

  /** `counter_add`: the loop stops early when no carry is left and copies the remaining bytes. */
  method CounterAdd(out: array<byte>, off: nat, base: Block, v: nat)
    requires off + 16 <= out.Length && v < TWO64
    modifies out
    ensures out[off..off + 16] == AddCarry(base, v)
    ensures forall p :: 0 <= p < out.Length && !(off <= p < off + 16) ==> out[p] == old(out[p])
  {
    var i := 0;
    var carry: nat := v;
    ghost var sum := AddCarry(base, v);
    assert base[0..] == base && sum[0..] == sum;
    while i == 0 || (i < 16 && carry != 0)
      invariant 0 <= i <= 16 && carry < TWO64
      invariant AddCarry(base[i..], carry) == sum[i..]
      invariant forall p :: 0 <= p < i ==> out[off + p] == sum[p]
      invariant forall p :: 0 <= p < out.Length && !(off <= p < off + i) ==> out[p] == old(out[p])
      decreases 16 - i
    {
      CarryStep(base, i, carry, sum);
      var r := (base[i] + carry) % TWO64;
      out[off + i] := r % 256;
      carry := r / 256;
      i := i + 1;
    }
    if carry == 0 { AddNothing(base[i..]); }
    CopyRest(out, off, base, i);
    assert forall p :: i <= p < 16 ==> sum[p] == sum[i..][p - i];
    ghost var result := out[off..off + 16];
    assert forall p :: 0 <= p < 16 ==> result[p] == out[off + p] == sum[p];
  }

  lemma CarryStep(base: seq<byte>, i: nat, carry: nat, sum: seq<byte>)
    requires i < |base| == |sum| && carry < TWO64 && AddCarry(base[i..], carry) == sum[i..]
    ensures var r := (base[i] + carry) % TWO64;
            sum[i] == r % 256 && AddCarry(base[i + 1..], r / 256) == sum[i + 1..]
  {
    assert base[i..][1..] == base[i + 1..];
    assert sum[i..][1..] == sum[i + 1..] && sum[i..][0] == sum[i];
    var r := (base[i] + carry) % TWO64;
    assert ([r % 256] + AddCarry(base[i + 1..], r / 256))[1..] == AddCarry(base[i + 1..], r / 256);
  }

  method CopyRest(out: array<byte>, off: nat, base: Block, i: nat)
    requires off + 16 <= out.Length && i <= 16
    modifies out
    ensures forall p :: i <= p < 16 ==> out[off + p] == base[p]
    ensures forall p :: 0 <= p < out.Length && !(off + i <= p < off + 16) ==> out[p] == old(out[p])
  {
    for j := i to 16
      invariant forall p :: i <= p < j ==> out[off + p] == base[p]
      invariant forall p :: 0 <= p < out.Length && !(off + i <= p < off + j) ==> out[p] == old(out[p])
    {
      out[off + j] := base[j];
    }
  }
}
