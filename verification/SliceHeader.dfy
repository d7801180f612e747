/** Reading and patching a slice header in memory (lib/src/bitstream.c, lib/src/vl_rbsp.h): a reader
    that keeps up to 64 bits ahead of a byte pointer, stops at the next start code and takes emulation
    prevention octets out, and a patch that finds the flag to change in the eight bytes before that
    pointer. Memory is a sequence of octets, highest bit first, which is what loads and stores in
    network byte order make of it. */
module SliceHeader {
  import opened SliceSpec
  import opened Wrappers
  import opened Modular

  type octet = b: Bits | |b| == 8 witness seq(8, _ => false)

  function MemoryBits(s: seq<octet>): (r: Bits)
    ensures |r| == 8 * |s|
  {
    if s == [] then [] else s[0] + MemoryBits(s[1..])
  }

  lemma {:induction false} MemoryAt(s: seq<octet>, j: nat, i: nat)
    requires j < |s| && i < 8
    ensures MemoryBits(s)[8 * j + i] == s[j][i]
  {
    if j > 0 {
      MemoryAt(s[1..], j - 1, i);
      assert MemoryBits(s)[8 * j + i] == MemoryBits(s[1..])[8 * (j - 1) + i];
    }
  }

  /** Bit `i` of octet `j` is bit `8 j + i`. */
  ghost predicate Shows(s: seq<octet>, from: nat, bits: Bits) {
    |bits| == 8 * |s| && forall j, i :: from <= j < |s| && 0 <= i < 8 ==> s[j][i] == bits[8 * j + i]
  }

  lemma MemoryShows(s: seq<octet>)
    ensures Shows(s, 0, MemoryBits(s))
  {
    forall j, i | 0 <= j < |s| && 0 <= i < 8 ensures s[j][i] == MemoryBits(s)[8 * j + i] {
      MemoryAt(s, j, i);
    }
  }

  // ---------------------------------------------------------------- what a buffer holds

  /** The first `n` bits of the buffer are those of the data from the cursor on. */
  ghost predicate Sees(bits: Bits, cursor: nat, buffer: Bits, n: int) {
    0 <= n <= |buffer| && cursor + n <= |bits| && forall i :: 0 <= i < n ==> buffer[i] == bits[cursor + i]
  }

  /** The number three in `n` bits. */
  function Three(n: nat): Bits { seq(n, i => i + 2 >= n) }

  /** The octet that ends at bit `i` is a three, behind zeros only as far back as two octets before it. */
  predicate LooksEscaped(buffer: Bits, i: nat) {
    var from := if i >= 24 then i - 24 else 0;
    8 <= i <= |buffer| && buffer[from..i] == Three(i - from)
  }

  // ---------------------------------------------------------------- the reader

  class Reader {
    const data: array<octet>
    const address: nat
    var end: nat
    var bytesLeft: nat
    var dataPos: nat
    var buffer: Bits
    var invalidBits: int
    var escaped: nat

    /** The bits of the data when reading began, how many of them matter, and how many bits behind
        those it may load. */
    ghost const bits: Bits
    ghost const reach: nat
    ghost const ahead: nat

    /** The number of bits taken, the octet at which the payload begins, and how many octets were loaded
        behind the unit. */
    ghost var cursor: nat
    ghost var payload: nat
    ghost var skew: nat

    ghost predicate Valid()
      reads this
    {
      && dataPos <= end <= data.Length && |bits| == 8 * data.Length && reach <= |bits|
      && |buffer| == 32 - invalidBits < 64 && cursor + |buffer| <= 8 * dataPos && escaped <= 64
    }

    /** The buffer holds at least 32 bits, or all that are left. */
    ghost predicate Full()
      reads this
    {
      invalidBits <= 0 || dataPos == end
    }

    /** The buffer holds the data from the cursor up to the data pointer. */
    ghost predicate Exact()
      reads this, data
    {
      && cursor + |buffer| + 8 * skew == 8 * dataPos && Sees(bits, cursor, buffer, |buffer|)
      && Shows(data[..], dataPos, bits)
    }

    // -------------------------------------------------------------- before the payload

    /** Only words have been loaded, from a word boundary on, except at the end of the data. */
    ghost predicate Aligned()
      reads this
    {
      (address + dataPos) % 4 == 0 || (dataPos == end && 8 * (dataPos - (address + dataPos) % 4) < cursor + 32)
    }

    ghost predicate Fresh()
      reads this, data
    {
      && Valid() && Exact() && Aligned() && skew == 0 && end == data.Length == bytesLeft
      && bits == MemoryBits(data[..])
    }

    // -------------------------------------------------------------- in the payload

    /** The cursor is in the part of the payload that matters, which holds nothing to be taken out. */
    ghost predicate Plainly()
      reads this
    {
      8 * payload <= cursor <= reach && (ahead == 0 || ahead == AHEAD) && Unescaped(bits, 8 * payload, reach + ahead)
    }

    /** Everything loaded is in the buffer, at least `n` bits if there are so many. */
    ghost predicate Loaded(n: nat)
      reads this, data
    {
      && Exact() && (skew > 0 ==> dataPos == end) && reach + 8 * skew <= 8 * end
      && (escaped == 16 || (dataPos == end && escaped <= 16)) && (|buffer| >= n || dataPos == end)
    }

    /** An octet has been taken out, but only behind all that matters. */
    ghost predicate Covered()
      reads this
    {
      Held() && escaped <= 16 + cursor + |buffer| - reach
    }

    /** All that matters is in the buffer. */
    ghost predicate Held()
      reads this
    {
      ahead == 0 && reach <= cursor + |buffer| && Sees(bits, cursor, buffer, reach - cursor)
    }

    /** The reader is where it should be, and has `n` bits if there are so many. */
    ghost predicate Ready(n: nat)
      reads this, data
    {
      Valid() && Plainly() && (Loaded(n) || Covered())
    }

    ghost predicate Good()
      reads this, data
    {
      Ready(16)
    }

    /** The bits that matter. */
    ghost function Seen(): Bits
      requires reach <= |bits|
    {
      bits[..reach]
    }

    constructor (data: array<octet>, address: nat, ghost reach: nat, ghost ahead: nat)
      requires reach <= 8 * data.Length
      ensures Fresh() && Full() && cursor == 0 && this.data == data && this.address == address
      ensures this.reach == reach && this.ahead == ahead
    {
      this.data := data;
      this.address := address;
      end, bytesLeft, escaped := data.Length, data.Length, 0;
      dataPos, buffer, invalidBits := 0, [], 32;
      bits, this.reach, this.ahead := MemoryBits(data[..]), reach, ahead;
      cursor, payload, skew := 0, 0, 0;
      new;
      MemoryShows(data[..]);
      AlignData();
      FillBits();
    }

    /** Move one octet to the buffer. */
    method LoadOctet()
      requires Valid() && dataPos < end && |buffer| < 56
      modifies this`buffer, this`dataPos, this`invalidBits
      ensures Valid() && dataPos == old(dataPos) + 1 && |buffer| == old(|buffer|) + 8
      ensures old(Exact()) && skew == 0 ==> Exact()
      ensures old(buffer) <= buffer
    {
      assert Exact() ==> forall i :: 0 <= i < 8 ==> data[..][dataPos][i] == bits[8 * dataPos + i];
      buffer := buffer + data[dataPos];
      dataPos := dataPos + 1;
      invalidBits := invalidBits - 8;
    }

    /** Move four octets, read as one number, to the buffer. */
    method LoadWord()
      requires Valid() && dataPos + 4 <= end && |buffer| < 32
      modifies this`buffer, this`dataPos, this`invalidBits
      ensures Valid() && dataPos == old(dataPos) + 4 && |buffer| == old(|buffer|) + 32
      ensures old(Exact()) && skew == 0 ==> Exact()
      ensures old(buffer) <= buffer
    {
      var word := MemoryBits(data[dataPos..dataPos + 4]);
      if Exact() { PartBits(data[..], bits, dataPos, dataPos + 4); }
      buffer := buffer + word;
      dataPos := dataPos + 4;
      invalidBits := invalidBits - 32;
    }

    /** Single octets up to the next multiple of four in the address space. */
    method AlignData()
      requires Valid() && Exact() && cursor == 0 && dataPos == 0 && skew == 0
      modifies this`buffer, this`dataPos, this`invalidBits
      ensures Valid() && Exact() && Aligned() && |buffer| <= 24
    {
      while dataPos != end && (address + dataPos) % 4 != 0
        invariant Valid() && Exact() && dataPos <= 3
        invariant dataPos > 0 ==> address % 4 != 0 && dataPos <= 4 - address % 4
        decreases end - dataPos
      {
        AlignStep(address, dataPos);
        LoadOctet();
      }
    }

    /** `vl_vlc_fillbits`: make at least 32 bits available. */
    method FillBits()
      requires Valid()
      modifies this`buffer, this`dataPos, this`invalidBits
      ensures Valid() && Full() && dataPos >= old(dataPos) && old(buffer) <= buffer
      ensures old(dataPos) == end ==> buffer == old(buffer)
      ensures old(Exact()) && (skew > 0 ==> old(dataPos) == end) ==> Exact()
      ensures old(Fresh()) ==> Fresh()
    {
      while invalidBits > 0
        invariant Valid() && dataPos >= old(dataPos) && old(buffer) <= buffer
        invariant old(dataPos) == end ==> buffer == old(buffer)
        invariant old(Exact()) && (skew > 0 ==> old(dataPos) == end) ==> Exact()
        invariant old(Fresh()) ==> Fresh()
        decreases end - dataPos
      {
        if end - dataPos == 0 { return; }
        LoadSome();
      }
    }

    /** A word, or the last octets. */
    method LoadSome()
      requires Valid() && dataPos < end && |buffer| < 32
      modifies this`buffer, this`dataPos, this`invalidBits
      ensures Valid() && dataPos > old(dataPos) && old(buffer) <= buffer
      ensures old(Exact()) && skew == 0 ==> Exact()
      ensures old(Fresh()) ==> Fresh()
    {
      if end - dataPos >= 4 { LoadWord(); } else { LoadRest(); }
    }

    /** The last octets, fewer than four. */
    method LoadRest()
      requires Valid() && 0 < end - dataPos < 4 && |buffer| < 32
      modifies this`buffer, this`dataPos, this`invalidBits
      ensures Valid() && dataPos == end && old(buffer) <= buffer
      ensures old(Exact()) && skew == 0 ==> Exact()
      ensures old(Fresh()) ==> Fresh()
    {
      ghost var from := dataPos;
      while dataPos < end
        invariant Valid() && old(buffer) <= buffer && from <= dataPos
        invariant |buffer| == |old(buffer)| + 8 * (dataPos - from)
        invariant old(Exact()) && skew == 0 ==> Exact()
        decreases end - dataPos
      {
        LoadOctet();
      }
      if old(Fresh()) { RestAligned(address, from, end); }
    }

    /** `vl_vlc_bits_left`. */
    method BitsLeft() returns (n: nat)
      requires Valid()
      ensures n == (end - dataPos + bytesLeft) * 8 + |buffer|
    {
      n := (end - dataPos + bytesLeft) * 8 + |buffer|;
    }

    /** Take the first `n` bits out of the buffer. */
    method Get(n: nat) returns (value: nat)
      requires Valid() && n <= |buffer|
      modifies this`buffer, this`invalidBits, this`cursor
      ensures Valid() && cursor == old(cursor) + n && buffer == old(buffer)[n..]
      ensures value == ValueAt(old(buffer), 0, n)
      ensures old(Exact()) ==> Exact() && value == ValueAt(bits, old(cursor), n)
      ensures old(Fresh()) ==> Fresh()
    {
      value := ValueAt(buffer, 0, n);
      if Exact() {
        assert buffer[0..0 + n] == bits[cursor..cursor + n];
        SameValue(buffer, 0, bits, cursor, n);
      }
      buffer := buffer[n..];
      invalidBits := invalidBits + n;
      cursor := cursor + n;
    }

    // -------------------------------------------------------------- start code

    /** Whether the next 32 bits are the number one; behind the end of the data they are zero. */
    method AtStartCode() returns (yes: bool)
      requires Fresh() && Full()
      ensures yes <==> Holds(bits, cursor, StartCode())
    {
      var next := if |buffer| >= 32 then buffer[..32] else buffer + seq(32 - |buffer|, _ => false);
      yes := next == StartCode();
      assert next[31] == StartCode()[31] ==> |buffer| >= 32;
      assert |buffer| >= 32 ==> next == bits[cursor..cursor + 32];
    }

    method SkipStartCode() returns (found: bool)
      requires Fresh() && cursor == 0
      modifies this`buffer, this`dataPos, this`invalidBits, this`cursor
      ensures Fresh() && Full()
      ensures match FindStart(bits, 0)
        case None => !found
        case Some(start) => found && cursor == start
    {
      FillBits();
      var i := FindStartCode();
      found := AtStartCode();
      if !found {
        NoStart(bits, i);
        return;
      }
      var code := Get(32);
      FillBits();
    }

    /** Skip octets until a start code, at most 64 of them; stop early when too few are left. */
    method FindStartCode() returns (i: nat)
      requires Fresh() && Full() && cursor == 0
      modifies this`buffer, this`dataPos, this`invalidBits, this`cursor
      ensures Fresh() && Full() && i <= 64 && cursor == 8 * i && FindStart(bits, 0) == FindStart(bits, i)
      ensures Holds(bits, 8 * i, StartCode()) || i == 64 || 8 * i + 32 > |bits|
    {
      i := 0;
      while i < 64
        invariant Fresh() && Full() && i <= 64 && cursor == 8 * i && FindStart(bits, 0) == FindStart(bits, i)
      {
        var skipped := SkipOctet(i);
        if !skipped { return; }
        i := i + 1;
      }
    }

    /** Skip octet `i`, unless a start code begins there or too little is left for one. */
    method SkipOctet(ghost i: nat) returns (skipped: bool)
      requires Fresh() && Full() && i < 64 && cursor == 8 * i
      modifies this`buffer, this`dataPos, this`invalidBits, this`cursor
      ensures Fresh() && Full()
      ensures skipped ==> cursor == 8 * (i + 1) && FindStart(bits, i) == FindStart(bits, i + 1)
      ensures !skipped ==> cursor == 8 * i && (Holds(bits, 8 * i, StartCode()) || 8 * i + 32 > |bits|)
    {
      var left := BitsLeft();
      if left < 32 { return false; }
      var at := AtStartCode();
      if at || |buffer| < 8 { return false; }
      var octet := Get(8);
      FillBits();
      skipped := true;
    }

    // -------------------------------------------------------------- the payload

    /** `vl_rbsp_init`: cut the data off at the next start code, and take out what looks like emulation
        prevention in the octets that are buffered. */
    method RbspInit(ghost start: nat, ghost known: bool)
      requires Fresh() && start % 8 == 0 && cursor == start + 16 && (|buffer| >= 16 || dataPos == end)
      requires known ==> cursor <= reach && (ahead == 0 || ahead == AHEAD) && Plain(bits, start, reach, ahead)
      modifies this`buffer, this`dataPos, this`invalidBits, this`end, this`bytesLeft, this`escaped
      modifies this`payload, this`skew
      ensures Valid()
      ensures 8 * skew == SkewFrom(bits, address, cursor)
      ensures cursor == 8 * payload
      ensures known ==> Good()
    {
      payload := cursor / 8;
      var k := FindEnd();
      assert known ==> reach <= 8 * k && Unescaped(bits, 8 * payload, reach + ahead);
      Limit(k);
      InitialEscapes();
    }

    /** The octet at which the next start code begins, or the end of the data. */
    method FindEnd() returns (k: nat)
      requires Fresh() && cursor == 8 * payload
      ensures 8 * k == UnitEnd(bits, cursor) && cursor <= 8 * k
    {
      k := (8 * dataPos - |buffer|) / 8;
      assert k == payload;
      ghost var unitEnd := UnitEnd(bits, cursor);
      while k < data.Length
        invariant cursor <= 8 * k <= |bits| && unitEnd == UnitEnd(bits, 8 * k)
      {
        var ends := StartsNextUnit(k);
        if ends {
          UnitEndHere(bits, 8 * k);
          return;
        }
        UnitEndNext(bits, 8 * k);
        k := k + 1;
      }
    }

    /** Whether a start code begins at octet `k`. */
    method StartsNextUnit(k: nat) returns (yes: bool)
      requires k < data.Length && bits == MemoryBits(data[..])
      ensures yes <==> NextUnit(bits, 8 * k)
    {
      yes := false;
      if k + 3 <= data.Length {
        SliceBits(data[..], k, k + 3);
        yes := MemoryBits(data[k..k + 3]) == ShortStartCode();
      }
      if !yes && k + 4 <= data.Length {
        SliceBits(data[..], k, k + 4);
        yes := MemoryBits(data[k..k + 4]) == StartCode();
      }
    }

    /** `vl_vlc_limit`, when a start code was found: nothing from octet `k` on is to be read. */
    method Limit(k: nat)
      requires Fresh() && cursor % 8 == 0 && cursor <= 8 * k == UnitEnd(bits, cursor)
      requires |buffer| >= 16 || dataPos == end
      modifies this`buffer, this`dataPos, this`invalidBits, this`end, this`bytesLeft, this`skew
      ensures Valid() && Exact() && (skew > 0 ==> dataPos == end) && k + skew == end
      ensures |buffer| >= 16 || dataPos == end
      ensures 8 * skew == SkewFrom(bits, address, cursor)
    {
      if k == data.Length {
        NoSkewFrom(bits, address, cursor);
        return;
      }
      FillBits();
      FirstLoadIs(address, cursor, dataPos, end, |buffer|);
      SkewIs(bits, address, cursor, dataPos, k);
      CutOff(k);
    }

    /** The same for a full buffer. */
    method CutOff(k: nat)
      requires Fresh() && Full() && cursor <= 8 * k && k < data.Length && (|buffer| >= 16 || dataPos == end)
      modifies this`buffer, this`invalidBits, this`end, this`bytesLeft, this`skew
      ensures Valid() && Exact() && (skew > 0 ==> dataPos == end) && k + skew == end
      ensures |buffer| >= 16 || dataPos == end
      ensures skew == if k < dataPos then dataPos - k else 0
    {
      var bitsLeft := 8 * k - (8 * dataPos - |buffer|);
      if bitsLeft < |buffer| {
        skew := dataPos - k;
        buffer := buffer[..bitsLeft];
        invalidBits := 32 - bitsLeft;
        end := dataPos;
      } else {
        end := dataPos + (bitsLeft - |buffer|) / 8;
      }
      bytesLeft := 0;
    }

    /** The header of the NAL unit, and the beginning of its payload if it has one of these types. */
    method EnterPayload(types: set<nat>, ghost pos: nat, ghost expected: nat, ghost known: bool)
      returns (nalType: Option<nat>)
      requires Fresh() && Full() && cursor % 8 == 0 && pos == cursor + 16
      requires known ==>
        && pos <= reach && (ahead == 0 || ahead == AHEAD) && Plain(bits, cursor, reach, ahead)
        && expected == SkewFrom(bits, address, pos)
      modifies this
      ensures Valid() && (nalType.Some? ==> nalType.value in types && cursor == pos)
      ensures known ==>
        var found := NalType(Seen(), old(cursor));
        && nalType == (if found in types then Some(found) else None)
        && (nalType.Some? ==> Good() && 8 * skew == expected)
    {
      ghost var start := cursor;
      if known { NalTypeAgree(Seen(), bits, start); }
      nalType := ReadNalType();
      if nalType.None? || nalType.value !in types { return None; }
      RbspInit(start, known);
    }

    // -------------------------------------------------------------- emulation prevention

    /** The octet that ends at bit `i` of the buffer, octet `n` of the payload, is next to be looked at. */
    ghost predicate Checking(i: nat, n: nat)
      reads this, data
    {
      || (Exact() && (i > |buffer| || (24 <= i && cursor + i == 8 * payload + 8 * n)))
      || (Held() && reach - cursor + 8 <= i)
    }

    /** Take out the octet that ends at bit `i`, if it is a three behind two zero octets. Bits that are
        no longer in the buffer count as zeros. */
    method CheckOctet(i: nat, ghost n: nat) returns (removed: bool)
      requires Valid()
      modifies this`buffer, this`invalidBits
      ensures Valid() && (removed <==> LooksEscaped(old(buffer), i))
      ensures buffer == if removed then old(buffer)[..i - 8] + old(buffer)[i..] else old(buffer)
      ensures Plainly() && old(Checking(i, n)) && removed ==> Held() && reach <= cursor + i - 8
    {
      removed := LooksEscaped(buffer, i);
      if removed {
        if Plainly() && Checking(i, n) && !(Held() && reach - cursor + 8 <= i) {
          EscapeBehind(bits, payload, cursor, buffer, i, n, reach, ahead);
        }
        buffer := buffer[..i - 8] + buffer[i..];
        invalidBits := invalidBits + 8;
      }
    }

    /** The octets that are buffered when the payload begins. */
    method InitialEscapes()
      requires Valid() && Exact() && (skew > 0 ==> dataPos == end) && (|buffer| >= 16 || dataPos == end)
      requires cursor == 8 * payload
      modifies this`buffer, this`invalidBits, this`escaped
      ensures Valid()
      ensures Plainly() && reach + 8 * skew <= 8 * end ==> Good()
    {
      var valid := |buffer|;
      var i := 24;
      ghost var n: nat := 3;
      while i <= valid
        invariant Valid() && |buffer| <= valid && i == 8 * n
        invariant Plainly() ==> Checking(i, n)
        invariant Exact() ==> |buffer| >= 16 || dataPos == end
      {
        var removed := CheckOctet(i, n);
        if removed { i, n := i + 8, n + 1; }
        i, n := i + 8, n + 1;
      }
      escaped := if |buffer| >= 16 then 16 else if |buffer| >= 8 then 8 else 0;
    }

    /** `vl_rbsp_fillbits`: make at least 16 more bits available. */
    method RbspFillBits()
      requires Valid()
      modifies this`buffer, this`dataPos, this`invalidBits, this`escaped
      ensures Valid()
      ensures old(Good()) ==> Ready(32)
    {
      if |buffer| >= 32 { return; }
      var i;
      ghost var octet;
      i, octet := LoadMore();
      var left := BitsLeft();
      if left < 24 { return; }
      CheckLoaded(i, octet);
    }

    /** Load more bits, and tell where the octets end that are to be looked at. */
    method LoadMore() returns (i: nat, ghost octet: nat)
      requires Valid() && |buffer| < 32
      modifies this`buffer, this`dataPos, this`invalidBits
      ensures Valid()
      ensures old(Good()) ==> Ready(32) && Loading(i, octet)
    {
      i := (|buffer| + 24 - escaped) % 0x1_0000_0000;
      octet := if dataPos >= payload + skew then dataPos + 1 - payload - skew else 0;
      FillBits();
    }

    /** The octets that have been loaded, from the one that ends at bit `i` on. */
    method CheckLoaded(first: nat, ghost octet: nat)
      requires Valid()
      modifies this`buffer, this`invalidBits, this`escaped
      ensures Valid()
      ensures old(Plainly() && Loading(first, octet)) ==> Ready(32)
    {
      escaped := 16;
      var i: nat := first;
      ghost var n: nat := octet;
      while i <= |buffer|
        invariant Valid()
        invariant old(Plainly() && Loading(first, octet)) ==> Loading(i, n) && (escaped == 16 || Covered())
        decreases |buffer| + 8 - i
      {
        i, n := CheckNext(i, n);
      }
    }

    /** The octet that ends at bit `i`, and what is next. */
    method CheckNext(i: nat, ghost n: nat) returns (next: nat, ghost m: nat)
      requires Valid() && i <= |buffer|
      modifies this`buffer, this`invalidBits, this`escaped
      ensures Valid() && next == (if |buffer| < |old(buffer)| then i + 16 else i + 8) && |buffer| <= |old(buffer)|
      ensures Plainly() && old(Loading(i, n) && (escaped == 16 || Covered())) ==>
                Loading(next, m) && (escaped == 16 || Covered())
    {
      var held := |buffer|;
      var removed := CheckOctet(i, n);
      next, m := i + 8, n + 1;
      if removed {
        escaped := held - i;
        next, m := next + 8, m + 1;
      }
    }

    /** All that was loaded is in the buffer or all that matters is. */
    ghost predicate Loading(i: nat, n: nat)
      reads this, data
    {
      || (Exact() && (skew > 0 ==> dataPos == end) && reach + 8 * skew <= 8 * end && (|buffer| >= 32 || dataPos == end)
          && (i > |buffer| || (24 <= i && cursor + i == 8 * payload + 8 * n)))
      || (Held() && reach - cursor + 8 <= i)
    }

    // -------------------------------------------------------------- fields

    /** Taking up to 16 bits that matter from a buffer that was just filled. */
    method Take(n: nat) returns (value: nat)
      requires Valid() && n <= |buffer|
      modifies this`buffer, this`invalidBits, this`cursor
      ensures Valid() && cursor == old(cursor) + n && buffer == old(buffer)[n..]
      ensures value == ValueAt(old(buffer), 0, n)
      ensures old(Ready(32)) && n <= 16 && old(cursor) + n <= reach ==>
                Good() && value == ValueAt(Seen(), old(cursor), n)
    {
      if Ready(32) && n <= 16 && cursor + n <= reach {
        assert buffer[0..0 + n] == Seen()[cursor..cursor + n];
        SameValue(buffer, 0, Seen(), cursor, n);
      }
      value := Get(n);
    }

    /** `vl_rbsp_u`. */
    method ReadU(n: nat) returns (r: Option<nat>)
      requires Valid()
      modifies this`buffer, this`dataPos, this`invalidBits, this`escaped, this`cursor
      ensures Valid() && cursor == if r.Some? then old(cursor) + n else old(cursor)
      ensures n == 0 ==> r == Some(0) && buffer == old(buffer)
      ensures old(Good()) && U(Seen(), old(cursor), n).Some? ==>
                Good() && r == Some(U(Seen(), old(cursor), n).value.value)
    {
      if n == 0 { return Some(0); }
      RbspFillBits();
      if n > 16 { RbspFillBits(); }
      if n > |buffer| { return None; }
      var value := Take(n);
      return Some(value);
    }

    /** Count zeros up to a one. */
    method CountZeros() returns (zeros: Option<nat>)
      requires Valid()
      modifies this`buffer, this`invalidBits, this`cursor
      ensures Valid()
      ensures match NextOne(old(buffer), 0)
        case None => zeros.None?
        case Some(one) =>
          zeros == Some(one) && cursor == old(cursor) + one + 1 && buffer == old(buffer)[one + 1..]
    {
      ghost var b := buffer;
      var n := 0;
      while |buffer| > 0
        invariant Valid() && n <= |b| && buffer == b[n..] && cursor == old(cursor) + n
        invariant NextOne(b, 0) == NextOne(b, n)
        decreases |buffer|
      {
        OneBit(buffer, 0);
        assert buffer[0] == b[n];
        var bit := Get(1);
        if bit == 1 { return Some(n); }
        n := n + 1;
      }
      return None;
    }

    /** `vl_rbsp_ue`. */
    method ReadUE() returns (r: Option<nat>)
      requires Valid()
      modifies this`buffer, this`dataPos, this`invalidBits, this`escaped, this`cursor
      ensures Valid() && (r.Some? ==> cursor > old(cursor) && (r.value > 0 ==> cursor >= old(cursor) + 3))
      ensures old(Good()) && UE(Seen(), old(cursor)).Some? ==>
                var read := UE(Seen(), old(cursor)).value;
                Good() && r == Some(read.value) && cursor == read.next
    {
      var zeros := ReadZeros();
      if zeros.None? || zeros.value >= 32 { return None; }
      var rest := ReadU(zeros.value);
      if rest.None? { return None; }
      if zeros.value == 0 { assert Pow2(0) == 1; }
      return Some(Pow2(zeros.value) - 1 + rest.value);
    }

    /** The zeros in front of a code, and the one behind them. */
    method ReadZeros() returns (zeros: Option<nat>)
      requires Valid()
      modifies this`buffer, this`dataPos, this`invalidBits, this`escaped, this`cursor
      ensures Valid() && (zeros.Some? ==> cursor == old(cursor) + zeros.value + 1)
      ensures old(Good()) && NextOne(Seen(), old(cursor)).Some? ==>
                var one := NextOne(Seen(), old(cursor)).value;
                one - old(cursor) < MAX_READ ==> Good() && zeros == Some(one - old(cursor))
    {
      RbspFillBits();
      ghost var one := NextOne(Seen(), cursor);
      ghost var known := Ready(32) && one.Some? && one.value - cursor < MAX_READ;
      if known { BufferOne(Seen(), cursor, buffer, 0); }
      label filled:
      zeros := CountZeros();
      if known { StillGood@filled(zeros.value + 1); }
    }

    /** What is left of a full buffer when up to 16 bits that matter have been taken. */
    twostate lemma StillGood(n: nat)
      requires old(Ready(32)) && n <= 16 && n <= |old(buffer)| && Valid()
      requires buffer == old(buffer)[n..] && cursor == old(cursor) + n <= reach
      requires dataPos == old(dataPos) && end == old(end) && escaped == old(escaped) && skew == old(skew)
      requires payload == old(payload) && unchanged(data)
      ensures Good()
    {
    }

    method ReadNalType() returns (r: Option<nat>)
      requires Fresh() && Full()
      modifies this`buffer, this`invalidBits, this`cursor
      ensures Fresh()
      ensures if old(cursor) + 16 > |bits| then r.None?
        else
          && r == Some(NalType(bits, old(cursor))) && cursor == old(cursor) + 16
          && (|buffer| >= 16 || dataPos == end)
    {
      if |buffer| < 16 { return None; }
      var forbidden := Get(1);
      var nalType := Get(6);
      var layer := Get(6);
      var temporal := Get(3);
      return Some(nalType);
    }

    method ReadSliceType(idr: bool) returns (r: Option<nat>)
      requires Valid()
      modifies this`buffer, this`dataPos, this`invalidBits, this`escaped, this`cursor
      ensures Valid() && (r.Some? && r.value > 0 ==> cursor >= old(cursor) + 5)
      ensures old(Good()) && ReadType(Seen(), old(cursor), idr).Some? ==>
                var read := ReadType(Seen(), old(cursor), idr).value;
                Good() && r == Some(read.value) && cursor == read.next
    {
      var known := SkipToType(idr);
      if !known { return None; }
      r := ReadUE();
    }

    /** The fields before the slice type. */
    method SkipToType(idr: bool) returns (known: bool)
      requires Valid()
      modifies this`buffer, this`dataPos, this`invalidBits, this`escaped, this`cursor
      ensures Valid() && (known ==> cursor >= old(cursor) + 2)
      ensures old(Good()) && SkipFields(Seen(), old(cursor), idr).Some? ==>
                known && Good() && cursor == SkipFields(Seen(), old(cursor), idr).value
    {
      var first := ReadFirstFlag(idr);
      if first.None? { return false; }
      var pps := ReadUE();
      if pps.None? { return false; }
      if first.value == 0 {
        var address := ReadUE();
        if address.None? { return false; }
      }
      return true;
    }

    method ReadFirstFlag(idr: bool) returns (first: Option<nat>)
      requires Valid()
      modifies this`buffer, this`dataPos, this`invalidBits, this`escaped, this`cursor
      ensures Valid() && (first.Some? ==> cursor > old(cursor))
      ensures old(Good()) && ReadFirst(Seen(), old(cursor), idr).Some? ==>
                var read := ReadFirst(Seen(), old(cursor), idr).value;
                Good() && first == Some(read.value) && cursor == read.next
    {
      first := ReadU(1);
      if first.None? { return None; }
      if idr {
        var output := ReadU(1);
        if output.None? { return None; }
      }
    }

    method ReadListFlag(pocBits: nat) returns (fromSps: Option<nat>)
      requires Valid()
      modifies this`buffer, this`dataPos, this`invalidBits, this`escaped, this`cursor
      ensures Valid() && (fromSps.Some? ==> cursor == old(cursor) + pocBits + 1)
      ensures old(Good()) && ReadSpsFlag(Seen(), old(cursor), pocBits).Some? ==>
                var read := ReadSpsFlag(Seen(), old(cursor), pocBits).value;
                Good() && fromSps == Some(read.value) && cursor == read.next
    {
      var poc := ReadU(pocBits);
      if poc.None? { return None; }
      fromSps := ReadU(1);
    }

    /** The beginning of the list. */
    method ReadList(pocBits: nat) returns (r: Option<ListHead>)
      requires Valid()
      modifies this`buffer, this`dataPos, this`invalidBits, this`escaped, this`cursor
      ensures Valid()
      ensures r.Some? && r.value.Entries? && r.value.count > 0 ==> cursor >= old(cursor) + pocBits + 5
      ensures old(Good()) && ReadRefList(Seen(), old(cursor), pocBits).Some? ==>
                var list := ReadRefList(Seen(), old(cursor), pocBits).value;
                r == Some(HeadOf(list)) && (list.Inline? ==> Good() && cursor == list.next)
    {
      var fromSps := ReadListFlag(pocBits);
      if fromSps.None? { return None; }
      if fromSps.value != 0 { return Some(NoEntries); }
      r := ReadEntryCounts();
    }

    method ReadEntryCounts() returns (r: Option<ListHead>)
      requires Valid()
      modifies this`buffer, this`dataPos, this`invalidBits, this`escaped, this`cursor
      ensures Valid()
      ensures r.Some? && r.value.Entries? && r.value.count > 0 ==> cursor >= old(cursor) + 4
      ensures old(Good()) && ReadCounts(Seen(), old(cursor)).Some? ==>
                var list := ReadCounts(Seen(), old(cursor)).value;
                r == Some(HeadOf(list)) && (list.Inline? ==> Good() && cursor == list.next)
    {
      var negative := ReadUE();
      if negative.None? { return None; }
      if negative.value > 16 { return Some(TooMany); }
      var positive := ReadUE();
      if positive.None? { return None; }
      return Some(Entries(negative.value));
    }

    /** One entry: its distance, and whether it is in use. */
    method ReadEntry() returns (r: Option<bool>)
      requires Valid()
      modifies this`buffer, this`dataPos, this`invalidBits, this`escaped, this`cursor
      ensures Valid()
      ensures old(Good()) && Flag(Seen(), old(cursor)).Some? ==>
                var p := Flag(Seen(), old(cursor)).value;
                Good() && r == Some(Seen()[p]) && cursor == p + 1
    {
      var delta := ReadUE();
      if delta.None? { return None; }
      if Good() && cursor < |Seen()| { OneBit(Seen(), cursor); }
      var used := ReadU(1);
      if used.None? { return None; }
      return Some(used.value != 0);
    }

    /** The first entry in use. */
    method FindReference(count: nat) returns (r: Option<nat>)
      requires Valid()
      modifies this`buffer, this`dataPos, this`invalidBits, this`escaped, this`cursor
      ensures Valid()
      ensures old(Good()) && FindUsed(Flag, Seen(), old(cursor), 0, count).Some? ==>
                r == FindUsed(Flag, Seen(), old(cursor), 0, count)
    {
      ghost var known := FindUsed(Flag, Seen(), cursor, 0, count);
      var i := 0;
      while i < count
        invariant Valid() && i <= count
        invariant old(Good()) && known.Some? ==> Good() && FindUsed(Flag, Seen(), cursor, i, count) == known
      {
        var used := ReadEntry();
        if used.None? { return None; }
        if used.value { return Some(i); }
        i := i + 1;
      }
      return Some(NO_REFERENCE);
    }

    // -------------------------------------------------------------- the patch

    /** Change the next bit to read, in memory: it is looked for in the two words before the data pointer. */
    method WriteFlag(value: bool)
      requires Valid() && buffer != [] && dataPos >= 8
      modifies data
      ensures Valid()
      ensures MemoryBits(data[..]) == old(MemoryBits(data[..]))[8 * dataPos - |buffer| := value]
      ensures old(Good()) ==> Good()
    {
      ghost var before := data[..];
      var p := dataPos - 8;
      var window := MemoryBits(data[p..p + 4]) + MemoryBits(data[p + 4..dataPos]);
      TwoWords(before, p);
      var shift := 64 - 1 - (64 - (32 - invalidBits));
      var at := 63 - shift;
      var changed := window[at := value];
      ghost var written := StoreWindow(p, changed);
      assert before == before[..p] + before[p..p + 8] + before[p + 8..];
      WindowBits(before[..p], before[p..p + 8], before[p + 8..], at, value, written);
    }

    /** Write 64 bits to the eight octets from `p` on. */
    method StoreWindow(p: nat, window: Bits) returns (ghost written: seq<octet>)
      requires p + 8 <= data.Length && |window| == 64
      modifies data
      ensures |written| == 8 && forall k :: 0 <= k < 8 ==> written[k] == window[8 * k..8 * k + 8]
      ensures data[..] == old(data[..p]) + written + old(data[p + 8..])
    {
      forall k | 0 <= k < 8 { data[p + k] := window[8 * k..8 * k + 8]; }
      written := data[p..p + 8];
      assert forall k :: 0 <= k < 8 ==> written[k] == data[p + k];
    }

    /** Clear the flags of the entries before `frame` and set its own; `r` is what the model says, if that
        is known. */
    method PatchFlags(count: nat, frame: nat, ghost r: Patched, ghost known: bool) returns (done: bool)
      requires Valid() && (count > 0 ==> cursor >= 62)
      requires known ==> Expects(r, 0, count, frame)
      modifies this`buffer, this`dataPos, this`invalidBits, this`escaped, this`cursor, data
      ensures known ==> done == r.outcome.Done? && MemoryBits(data[..]) == r.bits
    {
      var i := 0;
      while i < count
        invariant Valid() && i <= count && i <= frame && (count > 0 ==> cursor >= 62)
        invariant known ==> Expects(r, i, count, frame)
      {
        var reached := PatchTurn(i, count, frame, r, known);
        if !reached { return false; }
        if i == frame { return true; }
        i := i + 1;
      }
      return false;
    }

    /** The model goes on with entry `i` from here, and ends in `r`. */
    ghost predicate Expects(r: Patched, i: nat, count: nat, frame: nat)
      reads this, data
    {
      && Good() && ahead == AHEAD && !r.outcome.NoResult?
      && r == PatchFrom(Flag, Seen(), MemoryBits(data[..]), 8 * skew, cursor, i, count, frame)
    }

    /** One turn of the loop. */
    method PatchTurn(i: nat, count: nat, frame: nat, ghost r: Patched, ghost known: bool) returns (reached: bool)
      requires Valid() && cursor >= 62 && i < count && i <= frame && (known ==> Expects(r, i, count, frame))
      modifies this`buffer, this`dataPos, this`invalidBits, this`escaped, this`cursor, data
      ensures Valid() && (reached ==> cursor >= 62) && (known ==> reached)
      ensures known ==> if i == frame then r.outcome.Done? && MemoryBits(data[..]) == r.bits
                        else Expects(r, i + 1, count, frame)
    {
      reached := PatchEntry(i == frame);
    }

    /** Change the flag of one entry, and go on to the next entry if it is cleared. */
    method PatchEntry(value: bool) returns (reached: bool)
      requires Valid() && cursor >= 62
      modifies this`buffer, this`dataPos, this`invalidBits, this`escaped, this`cursor, data
      ensures Valid() && (reached ==> cursor >= 62)
      ensures old(Good()) && ahead == AHEAD && Flag(Seen(), old(cursor)).Some? ==>
                var p := Flag(Seen(), old(cursor)).value;
                && reached && MemoryBits(data[..]) == old(MemoryBits(data[..]))[p + 8 * skew := value]
                && (!value ==> Good() && cursor == p + 1)
    {
      var delta := ReadUE();
      if delta.None? || |buffer| == 0 { return false; }
      WriteFlag(value);
      if !value { var used := ReadU(1); }
      reached := true;
    }
  }

  /** What is known when the entries of the list come. */
  datatype ListHead = NoEntries | TooMany | Entries(count: nat)

  function HeadOf(list: RefList): ListHead {
    match list
    case Inline(count, _) => Entries(count)
    case TooLong => TooMany
    case _ => NoEntries
  }

  // ---------------------------------------------------------------- whole units

  /** The parser of slice headers: the answer is that of the model wherever some first bits of the unit
      are enough for one. */
  method ParseSliceHeader(data: array<octet>, address: nat, log2MaxPocMinus4: nat, before: Slice,
    ghost start: nat, ghost reach: nat) returns (ok: bool, slice: Slice)
    requires reach <= 8 * data.Length
    ensures FindStart(MemoryBits(data[..]), 0).None? ==> !ok
    ensures
      var bits := MemoryBits(data[..]);
      ParsesWithin(bits, log2MaxPocMinus4 + 4, before, start, reach) ==>
        Says(SliceOf(bits, log2MaxPocMinus4 + 4, before), ok, slice)
  {
    slice := before;
    ghost var bits := MemoryBits(data[..]);
    var pocBits := log2MaxPocMinus4 + 4;
    ghost var answer := SliceOf(bits, pocBits, before);
    ghost var known := ParsesWithin(bits, pocBits, before, start, reach);
    if known { ParsedWithin(bits, pocBits, before, start, reach); }
    var reader := new Reader(data, address, reach, 0);
    var found := reader.SkipStartCode();
    if !found { return false, slice; }
    ok, slice := ParseBehindStart(reader, pocBits, before, answer, known);
  }

  ghost predicate Says(answer: Option<Answer>, ok: bool, slice: Slice) {
    answer == Some(if ok then Accepted(slice) else Rejected)
  }

  /** The same from behind the start code, where `answer` is that of the model if that is known. */
  method ParseBehindStart(reader: Reader, pocBits: nat, before: Slice, ghost answer: Option<Answer>, ghost known: bool)
    returns (ok: bool, slice: Slice)
    requires reader.Fresh() && reader.Full() && reader.cursor % 8 == 0 && reader.ahead == 0
    requires known ==>
      && Plain(reader.bits, reader.cursor, reader.reach, 0)
      && answer.Some? && answer == ParseSlice(reader.Seen(), reader.cursor, pocBits, before)
    modifies reader
    ensures known ==> Says(answer, ok, slice)
  {
    slice := before;
    ghost var seen, start := reader.Seen(), reader.cursor;
    ghost var pos := start + 16;
    ghost var skew := SkewFrom(reader.bits, reader.address, pos);
    if known { ParseInPayload(seen, start, pos, pocBits, before, answer); }
    var nalType := reader.EnterPayload({TRAIL, IDR}, pos, skew, known);
    if nalType.None? { return false, slice; }
    var idr := nalType.value == IDR;
    ok, slice := ParseFields(reader, idr, pocBits, before, seen, pos, answer, known);
  }

  lemma ParseInPayload(seen: Bits, start: nat, pos: nat, pocBits: nat, before: Slice, answer: Option<Answer>)
    requires pos == start + 16 && answer.Some? && answer == ParseSlice(seen, start, pocBits, before)
    ensures pos <= |seen|
    ensures
      var nalType := NalType(seen, start);
      answer == if nalType != TRAIL && nalType != IDR then Some(Rejected)
                else ParsePayload(seen, pos, nalType == IDR, pocBits, before)
  {
  }

  /** The same from the payload on. */
  method ParseFields(reader: Reader, idr: bool, pocBits: nat, before: Slice,
    ghost seen: Bits, ghost pos: nat, ghost answer: Option<Answer>, ghost known: bool)
    returns (ok: bool, slice: Slice)
    requires reader.Valid() && reader.ahead == 0 && seen == reader.Seen()
    requires known ==> reader.Good() && pos == reader.cursor
    requires known ==> answer.Some? && answer == ParsePayload(seen, pos, idr, pocBits, before)
    modifies reader
    ensures known ==> Says(answer, ok, slice)
  {
    slice := before;
    var kind := reader.ReadSliceType(idr);
    if kind.None? { return false, slice; }
    slice := slice.(sliceType := TypeOf(kind.value));
    if idr { return true, slice; }
    slice := slice.(referenceFrame := NO_REFERENCE);
    var used := ParseEntries(reader, pocBits, slice.sliceType);
    if used.None? { return false, slice; }
    return true, slice.(referenceFrame := used.value);
  }

  method ParseEntries(reader: Reader, pocBits: nat, ghost sliceType: SliceType) returns (used: Option<nat>)
    requires reader.Valid() && reader.ahead == 0
    modifies reader
    ensures
      var known := ParseList(reader.Seen(), old(reader.cursor), pocBits, sliceType);
      old(reader.Good()) && known.Some? ==>
        known.value == if used.Some? then Accepted(Slice(sliceType, used.value)) else Rejected
  {
    var list := reader.ReadList(pocBits);
    if list.None? || list.value.TooMany? { return None; }
    if list.value.NoEntries? { return Some(NO_REFERENCE); }
    used := reader.FindReference(list.value.count);
  }

  /** The patch of slice headers: it answers and leaves in memory what the model says wherever some first
      bits of the unit are enough for that. */
  method SetReferenceFrame(data: array<octet>, address: nat, log2MaxPocMinus4: nat, frame: nat,
    ghost start: nat, ghost reach: nat, ghost skew: nat) returns (done: bool)
    requires reach <= 8 * data.Length && skew == SkewFrom(MemoryBits(data[..]), address, start + 16)
    modifies data
    ensures FindStart(old(MemoryBits(data[..])), 0).None? ==>
              !done && MemoryBits(data[..]) == old(MemoryBits(data[..]))
    ensures
      var bits := old(MemoryBits(data[..]));
      var r := PatchOf(bits, skew, log2MaxPocMinus4 + 4, frame);
      PatchesWithin(bits, skew, log2MaxPocMinus4 + 4, frame, start, reach) ==>
        done == r.outcome.Done? && !r.outcome.NoResult? && MemoryBits(data[..]) == r.bits
  {
    ghost var bits := MemoryBits(data[..]);
    var pocBits := log2MaxPocMinus4 + 4;
    ghost var pos := start + 16;
    ghost var r := PatchOf(bits, skew, pocBits, frame);
    ghost var known := PatchesWithin(bits, skew, pocBits, frame, start, reach);
    if known { PatchedWithin(bits, skew, pocBits, frame, start, reach); }
    var reader := new Reader(data, address, reach, AHEAD);
    var found := reader.SkipStartCode();
    if !found { return false; }
    done := PatchBehindStart(reader, pocBits, frame, if known then pos else reader.cursor + 16, skew, r, known);
  }

  /** The same from behind the start code, where `r` is what the model says if that is known. */
  method PatchBehindStart(reader: Reader, pocBits: nat, frame: nat,
    ghost pos: nat, ghost skew: nat, ghost r: Patched, ghost known: bool) returns (done: bool)
    requires reader.Fresh() && reader.Full() && reader.cursor % 8 == 0 && reader.cursor >= 32 && pocBits >= 4
    requires reader.ahead == AHEAD && pos == reader.cursor + 16
    requires known ==> skew == SkewFrom(reader.bits, reader.address, pos)
    requires known ==> Plain(reader.bits, reader.cursor, reader.reach, AHEAD)
    requires known ==>
      !r.outcome.NoResult? && r == Patch(reader.Seen(), reader.bits, skew, reader.cursor, pocBits, frame)
    modifies reader, reader.data
    ensures known ==> done == r.outcome.Done? && MemoryBits(reader.data[..]) == r.bits
  {
    ghost var seen, bits, start := reader.Seen(), reader.bits, reader.cursor;
    if known { PatchInPayload(seen, bits, skew, start, pos, pocBits, frame, r); }
    var nalType := reader.EnterPayload({TRAIL}, pos, skew, known);
    assert MemoryBits(reader.data[..]) == bits;
    if nalType.None? { return false; }
    assert known ==> 8 * reader.skew == skew;
    done := PatchFields(reader, pocBits, frame, seen, bits, skew, pos, known);
  }

  lemma PatchInPayload(seen: Bits, memory: Bits, skew: nat, start: nat, pos: nat, pocBits: nat, frame: nat, r: Patched)
    requires pos == start + 16 && r == Patch(seen, memory, skew, start, pocBits, frame) && !r.outcome.NoResult?
    ensures start + 16 <= |seen|
    ensures NalType(seen, start) != TRAIL ==> r.outcome.Refused? && r.bits == memory
    ensures NalType(seen, start) == TRAIL ==> r == PatchPayload(seen, memory, skew, pos, pocBits, frame)
  {
  }

  /** The same from the payload on. */
  method PatchFields(reader: Reader, pocBits: nat, frame: nat,
    ghost seen: Bits, ghost memory: Bits, ghost skew: nat, ghost pos: nat, ghost known: bool)
    returns (done: bool)
    requires reader.Valid() && reader.cursor >= 48 && pocBits >= 4 && reader.ahead == AHEAD
    requires seen == reader.Seen() && memory == MemoryBits(reader.data[..])
    requires known ==> reader.Good() && skew == 8 * reader.skew && pos == reader.cursor
    modifies reader, reader.data
    ensures
      var r := PatchPayload(seen, memory, skew, pos, pocBits, frame);
      known && !r.outcome.NoResult? ==> done == r.outcome.Done? && MemoryBits(reader.data[..]) == r.bits
  {
    ghost var r := PatchPayload(seen, memory, skew, pos, pocBits, frame);
    var kind := reader.ReadSliceType(false);
    if kind.None? || kind.value != 1 { return false; }
    var list := reader.ReadList(pocBits);
    if list.None? || !list.value.Entries? { return false; }
    done := reader.PatchFlags(list.value.count, frame, r, known && !r.outcome.NoResult?);
  }

  /** A header is patched and parsed again. */
  method PatchAndParse(data: array<octet>, address: nat, log2MaxPocMinus4: nat, frame: nat, before: Slice,
    ghost start: nat, ghost list: RefList, ghost reach: nat) returns (done: bool, ok: bool, slice: Slice)
    requires reach <= 8 * data.Length
    requires SkewFrom(MemoryBits(data[..]), address, start + 16) == 0
    requires SafeToPatch(MemoryBits(data[..]), log2MaxPocMinus4 + 4, frame, start, list, reach)
    modifies data
    ensures done && ok && slice == Slice(SliceP, frame)
  {
    ghost var bits := MemoryBits(data[..]);
    SafePatchReadsBack(bits, log2MaxPocMinus4 + 4, frame, start, list, reach, before);
    done := SetReferenceFrame(data, address, log2MaxPocMinus4, frame, start, reach, 0);
    ok, slice := ParseSliceHeader(data, address, log2MaxPocMinus4, before, start, reach);
  }

  // ---------------------------------------------------------------- supporting facts

  /** The bits of some octets lie where those octets lie. */
  lemma PartBits(s: seq<octet>, bits: Bits, from: nat, to: nat)
    requires from <= to <= |s| && Shows(s, from, bits)
    ensures forall x :: 0 <= x < 8 * (to - from) ==> MemoryBits(s[from..to])[x] == bits[8 * from + x]
  {
    var part := s[from..to];
    forall x | 0 <= x < 8 * |part| ensures MemoryBits(part)[x] == bits[8 * from + x] {
      MemoryAt(part, x / 8, x % 8);
      assert part[x / 8] == s[from + x / 8];
      assert s[from + x / 8][x % 8] == bits[8 * (from + x / 8) + x % 8];
    }
  }

  lemma SliceBits(s: seq<octet>, from: nat, to: nat)
    requires from <= to <= |s|
    ensures MemoryBits(s[from..to]) == MemoryBits(s)[8 * from..8 * to]
  {
    MemoryShows(s);
    PartBits(s, MemoryBits(s), from, to);
  }

  /** What looks like emulation prevention lies behind all that matters. */
  lemma EscapeBehind(bits: Bits, payload: nat, cursor: nat, buffer: Bits, i: nat, n: nat, reach: nat, ahead: nat)
    requires Sees(bits, cursor, buffer, |buffer|) && 24 <= i <= |buffer| < 64 && cursor + i == 8 * payload + 8 * n
    requires 8 * payload <= cursor <= reach && Unescaped(bits, 8 * payload, reach + ahead)
    requires (ahead == 0 || ahead == AHEAD) && buffer[i - 24..i] == Three(24)
    ensures ahead == 0 && reach <= cursor + i - 8
  {
    assert bits[cursor + i - 24..cursor + i] == buffer[i - 24..i];
    assert Three(24) == EscapeCode();
    assert 8 * payload + 8 * (n - 3) == cursor + i - 24;
    assert EscapeAt(bits, 8 * payload, n - 3);
  }

  /** How far the buffer reaches when it is full for the first time in the payload. */
  lemma FirstLoadIs(address: nat, cursor: nat, dataPos: nat, end: nat, held: nat)
    requires cursor % 8 == 0 && cursor + held == 8 * dataPos && dataPos <= end && held < 64
    requires held >= 32 || dataPos == end
    requires (address + dataPos) % 4 == 0 || (dataPos == end && 8 * (dataPos - (address + dataPos) % 4) < cursor + 32)
    ensures FirstLoad(8 * end, address, cursor) == 8 * dataPos
  {
    var octet := cursor / 8 + 4;
    var loaded := octet + (4 - (address + octet) % 4) % 4;
    assert octet <= loaded < octet + 4 && (address + loaded) % 4 == 0;
    if (address + dataPos) % 4 == 0 && held >= 32 {
      assert octet <= dataPos < octet + 4;
    }
  }

  lemma RestAligned(address: nat, from: nat, end: nat)
    requires from <= end < from + 4 && (address + from) % 4 == 0
    ensures (address + end) % 4 == end - from
  {
  }

  lemma AlignStep(address: nat, k: nat)
    requires (address + k) % 4 != 0 && (k > 0 ==> address % 4 != 0 && k <= 4 - address % 4)
    ensures address % 4 != 0 && k + 1 <= 4 - address % 4 <= 3
  {
  }

  lemma OneBit(bits: Bits, p: nat)
    requires p < |bits|
    ensures ValueAt(bits, p, 1) == if bits[p] then 1 else 0
  {
    assert ValueAt(bits, p, 0) == 0;
  }

  /** The next one lies in the buffer where it lies in the data. */
  lemma {:induction false} BufferOne(seen: Bits, cursor: nat, buffer: Bits, k: nat)
    requires NextOne(seen, cursor + k).Some?
    requires
      var one := NextOne(seen, cursor + k).value;
      one - cursor < |buffer| && forall i :: k <= i <= one - cursor ==> buffer[i] == seen[cursor + i]
    ensures NextOne(buffer, k) == Some(NextOne(seen, cursor + k).value - cursor)
    decreases |buffer| - k
  {
    if !seen[cursor + k] { BufferOne(seen, cursor, buffer, k + 1); }
  }

  lemma {:induction false} NoStart(bits: Bits, k: nat)
    ensures 8 * k + 32 > |bits| ==> FindStart(bits, k).None?
    decreases 64 - k
  {
    if k < 64 { NoStart(bits, k + 1); }
  }

  lemma {:induction false} MemoryAppend(s: seq<octet>, t: seq<octet>)
    ensures MemoryBits(s + t) == MemoryBits(s) + MemoryBits(t)
  {
    if s == [] {
      assert s + t == t;
    } else {
      assert (s + t)[1..] == s[1..] + t;
      MemoryAppend(s[1..], t);
    }
  }

  lemma TwoWords(s: seq<octet>, p: nat)
    requires p + 8 <= |s|
    ensures MemoryBits(s[p..p + 8]) == MemoryBits(s[p..p + 4]) + MemoryBits(s[p + 4..p + 8])
  {
    MemoryAppend(s[p..p + 4], s[p + 4..p + 8]);
    assert s[p..p + 8] == s[p..p + 4] + s[p + 4..p + 8];
  }

  /** Octets cut from some bits hold those bits. */
  lemma {:induction false} CutBits(part: seq<octet>, bits: Bits)
    requires |bits| == 8 * |part| && forall k :: 0 <= k < |part| ==> part[k] == bits[8 * k..8 * k + 8]
    ensures MemoryBits(part) == bits
    decreases |part|
  {
    if part != [] {
      var rest, tail := part[1..], bits[8..];
      forall k | 0 <= k < |rest| ensures rest[k] == tail[8 * k..8 * k + 8] {
        var x := part[k + 1];
        assert x == bits[8 * (k + 1)..8 * (k + 1) + 8];
        assert forall i :: 0 <= i < 8 ==> x[i] == tail[8 * k + i];
      }
      CutBits(rest, tail);
      assert bits == bits[0..8] + tail;
    }
  }

  /** Eight octets behind `front`, changed in one bit and written back. */
  lemma WindowBits(front: seq<octet>, part: seq<octet>, back: seq<octet>, at: nat, value: bool, written: seq<octet>)
    requires |part| == |written| && at < 8 * |part|
    requires forall k :: 0 <= k < |written| ==> written[k] == MemoryBits(part)[at := value][8 * k..8 * k + 8]
    ensures MemoryBits(front + written + back) == MemoryBits(front + part + back)[8 * |front| + at := value]
  {
    CutBits(written, MemoryBits(part)[at := value]);
    MemoryAppend(front, part);
    MemoryAppend(front + part, back);
    MemoryAppend(front, written);
    MemoryAppend(front + written, back);
    UpdateMiddle(MemoryBits(front), MemoryBits(part), MemoryBits(back), at, value);
  }

  lemma UpdateMiddle(a: Bits, b: Bits, c: Bits, k: nat, value: bool)
    requires k < |b|
    ensures a + b[k := value] + c == (a + b + c)[|a| + k := value]
  {
  }
}
