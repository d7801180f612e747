/** The CTR key stream of lib/src/gkcrypt.c. AES with the session key is a parameter: any function
    from blocks to blocks. */
module KeyStream {
  import opened Bytes
  import opened Modular
  import opened Counter

  datatype Keys = Keys(aes: Block -> Block, iv: Block)

  /** The block number as `gen_key_stream` hands it to `counter_add`: kept in an `int` (taken as
      two's complement on overflow) and converted to 64 bits with its sign. */
  function CounterArg(block: nat): (v: nat)
    ensures v < TWO64
  {
    var t := block % 0x1_0000_0000;
    if t < 0x8000_0000 then t else TWO64 - 0x1_0000_0000 + t
  }

  function CounterBlock(k: Keys, block: nat): Block { AddCarry(k.iv, CounterArg(block)) }

  /** The key-stream byte at a position, generated directly. */
  function Direct(k: Keys, pos: nat): byte { k.aes(CounterBlock(k, pos / 16))[pos % 16] }

  /** The byte the counter pass leaves at a position, before encryption. */
  function Raw(k: Keys, pos: nat): byte { CounterBlock(k, pos / 16)[pos % 16] }

  function Stream(k: Keys, pos: nat, n: nat): (s: seq<byte>)
    ensures |s| == n && forall i :: 0 <= i < n ==> s[i] == Direct(k, pos + i)
  {
    seq<byte>(n, i requires 0 <= i => Direct(k, pos + i))
  }

  /** The counter block of a position is the initial vector plus the block number, as counter mode
      asks, exactly for the first 2^35 bytes of the stream. */
  lemma CounterModeRange(k: Keys, pos: nat)
    requires pos < TWO64
    ensures Value(CounterBlock(k, pos / 16)) == (Value(k.iv) + pos / 16) % TWO128 <==> pos < 0x8_0000_0000
  {
    var b := pos / 16;
    var v := CounterArg(b);
    CounterValue(k.iv, v);
    var x, y := Value(k.iv) + Added(k.iv, v), Value(k.iv) + b;
    if b >= 0x8000_0000 {
      if x < y { ModDiffer(x, y, TWO128); } else { ModDiffer(y, x, TWO128); }
    }
  }

  /** No two positions in different blocks of that range share a counter block. */
  lemma CounterModeDistinct(k: Keys, p: nat, q: nat)
    requires p / 16 != q / 16 && p < 0x8_0000_0000 && q < 0x8_0000_0000
    ensures CounterBlock(k, p / 16) != CounterBlock(k, q / 16)
  {
    var a, b := CounterArg(p / 16), CounterArg(q / 16);
    if a < b { CountersDiffer(k.iv, a, b); } else { CountersDiffer(k.iv, b, a); }
  }

  /** What decryption at a position does to a buffer. */
  function Crypt(k: Keys, pos: nat, data: seq<byte>): (r: seq<byte>)
    ensures |r| == |data|
    ensures forall i :: 0 <= i < |data| ==> r[i] == Xor(data[i], Direct(k, pos + i))
  {
    seq<byte>(|data|, i requires 0 <= i < |data| => Xor(data[i], Direct(k, pos + i)))
  }

  /** Within that range decryption is counter mode: byte `i` is xored with byte (pos + i) % 16 of the
      cipher's image of the one block that stands for the initial vector plus (pos + i) / 16. */
  lemma CounterMode(k: Keys, pos: nat, data: seq<byte>, i: nat, b: Block)
    requires i < |data| && pos + i < 0x8_0000_0000
    requires Value(b) == (Value(k.iv) + (pos + i) / 16) % TWO128
    ensures Crypt(k, pos, data)[i] == Xor(data[i], k.aes(b)[(pos + i) % 16])
  {
    CounterModeRange(k, pos + i);
    ValueInjective(CounterBlock(k, (pos + i) / 16), b);
  }

  /** Decrypting twice at one position gives the data back: encryption and decryption are one. */
  lemma CryptInvolution(k: Keys, pos: nat, data: seq<byte>)
    ensures Crypt(k, pos, Crypt(k, pos, data)) == data
  {
    forall i | 0 <= i < |data| ensures Crypt(k, pos, Crypt(k, pos, data))[i] == data[i] {
      XorUndo(data[i], Direct(k, pos + i));
    }
  }

  /** Data may be cut anywhere, block boundary or not: the pieces decrypt to the whole. */
  lemma CryptSplit(k: Keys, pos: nat, a: seq<byte>, b: seq<byte>)
    ensures Crypt(k, pos, a + b) == Crypt(k, pos, a) + Crypt(k, pos + |a|, b)
  {
    forall i | 0 <= i < |a + b| ensures Crypt(k, pos, a + b)[i] == (Crypt(k, pos, a) + Crypt(k, pos + |a|, b))[i] {
      if i >= |a| { assert pos + |a| + (i - |a|) == pos + i; }
    }
  }

  /** A chunk under construction at `off`: the first `enc` blocks are key stream, those up to `ctr`
      are still counters. */
  ghost predicate Partial(k: Keys, buf: seq<byte>, off: nat, pos: nat, enc: nat, ctr: nat)
    requires enc <= ctr && off + 16 * ctr <= |buf|
  {
    && (forall q :: off <= q < off + 16 * enc ==> buf[q] == Direct(k, pos + (q - off)))
    && (forall q :: off + 16 * enc <= q < off + 16 * ctr ==> buf[q] == Raw(k, pos + (q - off)))
  }

  /** Position `r` of block `i` after a block-aligned position. */
  lemma BlockPosition(pos: nat, i: nat, r: nat)
    requires pos % 16 == 0 && r < 16
    ensures (pos + (16 * i + r)) / 16 == pos / 16 + i && (pos + (16 * i + r)) % 16 == r
  {
  }

  /** Write the counter of one more block. */
  method StoreCounter(k: Keys, buf: array<byte>, off: nat, ghost pos: nat, block: nat, i: nat)
    requires off + 16 * (i + 1) <= buf.Length && pos % 16 == 0 && block == pos / 16 + i
    requires Partial(k, buf[..], off, pos, 0, i)
    modifies buf
    ensures Partial(k, buf[..], off, pos, 0, i + 1)
    ensures forall p :: 0 <= p < buf.Length && !(off + 16 * i <= p < off + 16 * (i + 1)) ==> buf[p] == old(buf[p])
  {
    ghost var before := buf[..];
    var o := off + 16 * i;
    CounterAdd(buf, o, k.iv, CounterArg(block));
    RawBlock(k, buf[o..o + 16], pos, i);
    PartialRaw(k, before, buf[..], off, pos, i);
  }

  lemma RawBlock(k: Keys, b: seq<byte>, pos: nat, i: nat)
    requires pos % 16 == 0 && b == CounterBlock(k, pos / 16 + i)
    ensures forall r :: 0 <= r < 16 ==> b[r] == Raw(k, pos + (16 * i + r))
  {
    forall r | 0 <= r < 16 ensures b[r] == Raw(k, pos + (16 * i + r)) { BlockPosition(pos, i, r); }
  }

  lemma PartialRaw(k: Keys, before: seq<byte>, after: seq<byte>, off: nat, pos: nat, i: nat)
    requires |before| == |after| && off + 16 * (i + 1) <= |after|
    requires Partial(k, before, off, pos, 0, i)
    requires forall r {:trigger after[off + 16 * i..off + 16 * i + 16][r]} :: 0 <= r < 16 ==>
      after[off + 16 * i..off + 16 * i + 16][r] == Raw(k, pos + (16 * i + r))
    requires forall p :: 0 <= p < |after| && !(off + 16 * i <= p < off + 16 * (i + 1)) ==> after[p] == before[p]
    ensures Partial(k, after, off, pos, 0, i + 1)
  {
    var o := off + 16 * i;
    forall q | off <= q < off + 16 * (i + 1) ensures after[q] == Raw(k, pos + (q - off)) {
      if q >= o {
        var r := q - o;
        assert after[o..o + 16][r] == after[q];
        assert 16 * i + r == q - off;
      }
    }
  }

  /** Encrypt one more block in place. */
  method EncryptBlock(k: Keys, buf: array<byte>, off: nat, ghost pos: nat, i: nat, ghost n: nat)
    requires i < n && off + 16 * n <= buf.Length && pos % 16 == 0
    requires Partial(k, buf[..], off, pos, i, n)
    modifies buf
    ensures Partial(k, buf[..], off, pos, i + 1, n)
    ensures forall p :: 0 <= p < buf.Length && !(off + 16 * i <= p < off + 16 * (i + 1)) ==> buf[p] == old(buf[p])
  {
    ghost var before := buf[..];
    var o := off + 16 * i;
    var b := buf[o..o + 16];
    CounterIn(k, before, off, pos, i, n);
    var e := k.aes(b);
    forall r | 0 <= r < 16 { buf[o + r] := e[r]; }
    PartialDirect(k, before, buf[..], off, pos, i, n, e);
  }

  lemma CounterIn(k: Keys, buf: seq<byte>, off: nat, pos: nat, i: nat, n: nat)
    requires i < n && off + 16 * n <= |buf| && pos % 16 == 0 && Partial(k, buf, off, pos, i, n)
    ensures buf[off + 16 * i..off + 16 * i + 16] == CounterBlock(k, pos / 16 + i)
  {
    var o, c := off + 16 * i, CounterBlock(k, pos / 16 + i);
    forall r | 0 <= r < 16 ensures buf[o..o + 16][r] == c[r] {
      assert buf[o + r] == Raw(k, pos + (o + r - off));
      BlockPosition(pos, i, r);
      assert o + r - off == 16 * i + r;
    }
  }

  lemma PartialDirect(k: Keys, before: seq<byte>, after: seq<byte>, off: nat, pos: nat, i: nat, n: nat, e: Block)
    requires |before| == |after| && i < n && off + 16 * n <= |after| && pos % 16 == 0
    requires Partial(k, before, off, pos, i, n)
    requires e == k.aes(CounterBlock(k, pos / 16 + i))
    requires forall r :: 0 <= r < 16 ==> after[off + 16 * i + r] == e[r]
    requires forall p :: 0 <= p < |after| && !(off + 16 * i <= p < off + 16 * (i + 1)) ==> after[p] == before[p]
    ensures Partial(k, after, off, pos, i + 1, n)
  {
    var o := off + 16 * i;
    forall q | off <= q < off + 16 * (i + 1) ensures after[q] == Direct(k, pos + (q - off)) {
      if q >= o {
        var r := q - o;
        BlockPosition(pos, i, r);
        assert after[o + r] == e[r];
        assert 16 * i + r == q - off;
      }
    }
  }

  /** `chiaki_gkcrypt_gen_key_stream`: write the counters of all blocks, then encrypt in place. */
  method GenKeyStream(k: Keys, keyPos: nat, n: nat) returns (out: seq<byte>)
    requires keyPos % 16 == 0 && n % 16 == 0
    ensures out == Stream(k, keyPos, n)
  {
    var buf := new byte[n](_ => 0);
    var i := 0;
    while i < n / 16
      invariant 0 <= i <= n / 16 && Partial(k, buf[..], 0, keyPos, 0, i)
    {
      StoreCounter(k, buf, 0, keyPos, keyPos / 16 + i, i);
      i := i + 1;
    }
    var j := 0;
    while j < n / 16
      invariant 0 <= j <= n / 16 && Partial(k, buf[..], 0, keyPos, j, n / 16)
    {
      EncryptBlock(k, buf, 0, keyPos, j, n / 16);
      j := j + 1;
    }
    out := buf[..];
    assert forall q :: 0 <= q < n ==> out[q] == Direct(k, keyPos + (q - 0));
  }
}
