/** Controller history events (lib/src/feedback.c): their wire format, a parser for it, and the ring
    buffer that keeps the most recent ones. */
module History {
  import opened Bytes
  import opened Modular
  import opened Wrappers

  /** A button (by the bit number of its identifier; 16 and 17 are L2 and R2) or a touch. */
  datatype Change =
    | ButtonChange(button: Button, state: byte)
    | TouchChange(down: bool, id: nat, x: nat, y: nat)

  type Button = b: nat | b < 18
  type Event = seq<byte>

  // ---------------------------------------------------------------- wire format

  /** The second byte of a button event. */
  function ButtonCode(button: Button, pressed: bool): byte
  {
    match button
    case 0 => 0x88
    case 1 => 0x89
    case 2 => 0x8a
    case 3 => 0x8b
    case 4 => 0x82
    case 5 => 0x83
    case 6 => 0x80
    case 7 => 0x81
    case 8 => 0x84
    case 9 => 0x85
    case 10 => if pressed then 0xaf else 0x8f
    case 11 => if pressed then 0xb0 else 0x90
    case 12 => if pressed then 0xac else 0x8c
    case 13 => if pressed then 0xad else 0x8d
    case 14 => if pressed then 0xb1 else 0x91
    case 15 => if pressed then 0xae else 0x8e
    case 16 => 0x86
    case _ => 0x87
  }

  /** Some buttons use a third byte for the state, some do not. */
  predicate HasStateByte(button: Button) { button < 10 || 16 <= button < 18 }

  /** `set_button`: no event for an unknown button. */
  function EncodeButton(button: nat, state: byte): Option<Event> {
    if button >= 18 then None
    else if HasStateByte(button) then Some([0x80, ButtonCode(button, state != 0), state])
    else Some([0x80, ButtonCode(button, state != 0)])
  }

  /** The octets of every button event, by bit number: cross, moon, box, pyramid, left, right, up, down, L1,
      R1, then L3, R3, options, share, touchpad and PS, which have no state byte, and L2 and R2. */
  lemma ButtonOctets(state: byte)
    ensures EncodeButton(0, state) == Some([0x80, 0x88, state]) && EncodeButton(1, state) == Some([0x80, 0x89, state])
    ensures EncodeButton(2, state) == Some([0x80, 0x8a, state]) && EncodeButton(3, state) == Some([0x80, 0x8b, state])
    ensures EncodeButton(4, state) == Some([0x80, 0x82, state]) && EncodeButton(5, state) == Some([0x80, 0x83, state])
    ensures EncodeButton(6, state) == Some([0x80, 0x80, state]) && EncodeButton(7, state) == Some([0x80, 0x81, state])
    ensures EncodeButton(8, state) == Some([0x80, 0x84, state]) && EncodeButton(9, state) == Some([0x80, 0x85, state])
    ensures EncodeButton(10, state) == Some([0x80, if state == 0 then 0x8f else 0xaf])
    ensures EncodeButton(11, state) == Some([0x80, if state == 0 then 0x90 else 0xb0])
    ensures EncodeButton(12, state) == Some([0x80, if state == 0 then 0x8c else 0xac])
    ensures EncodeButton(13, state) == Some([0x80, if state == 0 then 0x8d else 0xad])
    ensures EncodeButton(14, state) == Some([0x80, if state == 0 then 0x91 else 0xb1])
    ensures EncodeButton(15, state) == Some([0x80, if state == 0 then 0x8e else 0xae])
    ensures EncodeButton(16, state) == Some([0x80, 0x86, state]) && EncodeButton(17, state) == Some([0x80, 0x87, state])
    ensures forall button: nat :: EncodeButton(button, state).None? <==> button >= 18
  {
  }

  /** `set_touchpad`: 12 bits for each coordinate; larger ones spill and are cut. */
  function EncodeTouch(down: bool, id: nat, x: nat, y: nat): Event {
    [if down then 0xd0 else 0xc0, id % 128, x / 16 % 256, MiddleByte(x, y), y % 256]
  }

  /** The low nibble of `x` beside the high bits of `y`. */
  function MiddleByte(x: nat, y: nat): byte { Or(x % 16 * 16, y / 256 % 256) }

  function OrBits(a: nat, b: nat): nat
    decreases a + b
  {
    if a == 0 && b == 0 then 0 else (if a % 2 == 1 || b % 2 == 1 then 1 else 0) + 2 * OrBits(a / 2, b / 2)
  }

  function Or(a: byte, b: byte): byte {
    OrBound(a, b, 8);
    OrBits(a, b)
  }

  lemma {:induction false} OrBound(a: nat, b: nat, bits: nat)
    requires a < Pow2(bits) && b < Pow2(bits)
    ensures OrBits(a, b) < Pow2(bits)
  {
    if bits > 0 { OrBound(a / 2, b / 2, bits - 1); }
  }

  lemma {:induction false} OrZero(a: nat)
    ensures OrBits(a, 0) == a
  {
    if a > 0 { OrZero(a / 2); }
  }

  /** Joining two nibbles is addition. */
  lemma OrNibbles(hi: nat, lo: nat)
    requires hi < 16 && lo < 16
    ensures Or(hi * 16, lo) == hi * 16 + lo
  {
    assert Pow2(4) == 16;
    OrLow(hi, lo, 4);
  }

  lemma {:induction false} OrLow(hi: nat, lo: nat, k: nat)
    requires lo < Pow2(k)
    ensures OrBits(hi * Pow2(k), lo) == hi * Pow2(k) + lo
  {
    if k == 0 {
      OrZero(hi);
    } else {
      var t := Pow2(k - 1);
      assert hi * Pow2(k) == 2 * (hi * t);
      assert (2 * (hi * t)) / 2 == hi * t && (2 * (hi * t)) % 2 == 0;
      OrLow(hi, lo / 2, k - 1);
    }
  }

  function Encode(c: Change): (e: Event)
    ensures 2 <= |e| <= 5
  {
    match c
    case ButtonChange(button, state) => EncodeButton(button, state).value
    case TouchChange(down, id, x, y) => EncodeTouch(down, id, x, y)
  }

  /** The button a three-byte event code stands for. */
  function LongButton(code: byte): Button {
    match code
    case 0x80 => 6
    case 0x81 => 7
    case 0x82 => 4
    case 0x83 => 5
    case 0x84 => 8
    case 0x85 => 9
    case 0x86 => 16
    case 0x87 => 17
    case 0x88 => 0
    case 0x89 => 1
    case 0x8a => 2
    case _ => 3
  }

  /** The button a two-byte event code stands for, the press bit removed. */
  function ShortButton(code: byte): Button {
    match code
    case 0x8c => 12
    case 0x8d => 13
    case 0x8e => 15
    case 0x8f => 10
    case 0x90 => 11
    case _ => 14
  }

  /** Read one event from the front: what it says and how long it is, inferred from its leading bytes. */
  function ParseOne(s: seq<byte>): (r: Option<(Change, nat)>)
    ensures r.Some? ==> 2 <= r.value.1 <= |s|
  {
    if |s| >= 2 && s[0] == 0x80 then
      if 0x80 <= s[1] <= 0x8b then
        if |s| >= 3 then Some((ButtonChange(LongButton(s[1]), s[2]), 3)) else None
      else if 0x8c <= s[1] <= 0x91 then Some((ButtonChange(ShortButton(s[1]), 0), 2))
      else if 0xac <= s[1] <= 0xb1 then Some((ButtonChange(ShortButton(s[1] - 0x20), 0xff), 2))
      else None
    else if |s| >= 5 && (s[0] == 0xd0 || s[0] == 0xc0) then
      var x, y := s[2] as int * 16 + s[3] as int / 16, s[3] as int % 16 * 256 + s[4] as int;
      Some((TouchChange(s[0] == 0xd0, s[1] as int, x, y), 5))
    else None
  }

  function Parse(s: seq<byte>): Option<seq<Change>>
    decreases |s|
  {
    if s == [] then Some([])
    else
      match ParseOne(s)
      case None => None
      case Some((c, n)) =>
        match Parse(s[n..])
        case None => None
        case Some(rest) => Some([c] + rest)
  }

  /** What survives the wire: buttons without a state byte keep only whether they are pressed. */
  function Seen(c: Change): Change
  {
    match c
    case ButtonChange(b, state) => if HasStateByte(b) then c else ButtonChange(b, if state != 0 then 0xff else 0)
    case TouchChange(down, id, x, y) =>
      var e := EncodeTouch(down, id, x, y);
      TouchChange(down, e[1] as int, e[2] as int * 16 + e[3] as int / 16, e[3] as int % 16 * 256 + e[4] as int)
  }

  /** A touch comes back as it was sent exactly when its coordinates fit 12 bits and its id 7 bits. */
  lemma TouchExact(down: bool, id: nat, x: nat, y: nat)
    ensures Seen(TouchChange(down, id, x, y)) == TouchChange(down, id, x, y) <==> id < 128 && x < 4096 && y < 4096
  {
    TouchBytes(x, y, MiddleByte(x, y));
    if x < 4096 && y < 4096 { MiddleByteExact(x, y); }
  }

  /** The octets of a touch event whose coordinates fit: two for the kind and the id, and 24 bits for both
      coordinates, the horizontal one first. */
  lemma TouchOctets(down: bool, id: nat, x: nat, y: nat)
    requires id < 128 && x < 4096 && y < 4096
    ensures
      var e := EncodeTouch(down, id, x, y);
      && |e| == 5 && e[0] == (if down then 0xd0 else 0xc0) && e[1] == id
      && e[2] as int * 0x1_0000 + e[3] as int * 0x100 + e[4] as int == x * 0x1000 + y
  {
    var mid := MiddleByte(x, y);
    assert mid == x % 16 * 16 + y / 256 by { MiddleByteExact(x, y); }
    NibblesJoined(x, y);
  }

  lemma NibblesJoined(x: nat, y: nat)
    requires x < 4096
    ensures x / 16 % 256 * 0x1_0000 + (x % 16 * 16 + y / 256) * 0x100 + y % 256 == x * 0x1000 + y
  {
  }

  lemma MiddleByteExact(x: nat, y: nat)
    requires y < 4096
    ensures MiddleByte(x, y) == x % 16 * 16 + y / 256
  {
    assert y / 256 < 16 && y / 256 % 256 == y / 256;
    OrNibbles(x % 16, y / 256);
  }

  lemma TouchBytes(x: nat, y: nat, mid: byte)
    ensures x / 16 % 256 * 16 + mid as int / 16 < 4096 && mid as int % 16 * 256 + y % 256 < 4096
    ensures x < 4096 && y < 4096 && mid == x % 16 * 16 + y / 256 ==> x / 16 % 256 * 16 + mid as int / 16 == x
    ensures x < 4096 && y < 4096 && mid == x % 16 * 16 + y / 256 ==> mid as int % 16 * 256 + y % 256 == y
  {
  }

  lemma ParseOneEncode(c: Change, rest: seq<byte>)
    ensures ParseOne(Encode(c) + rest) == Some((Seen(c), |Encode(c)|))
  {
    var e := Encode(c);
    assert forall i :: 0 <= i < |e| ==> (e + rest)[i] == e[i];
  }

  function Join(events: seq<Event>): seq<byte> {
    if events == [] then [] else Join(events[..|events| - 1]) + events[|events| - 1]
  }

  lemma {:induction false} JoinCons(e: Event, events: seq<Event>)
    ensures Join([e] + events) == e + Join(events)
    decreases |events|
  {
    if events == [] {
      assert ([e] + events)[..0] == [];
    } else {
      var init := events[..|events| - 1];
      assert ([e] + events)[..|events|] == [e] + init;
      JoinCons(e, init);
    }
  }

  function Map<A, B>(f: A -> B, s: seq<A>): (r: seq<B>)
    ensures |r| == |s|
  {
    if s == [] then [] else [f(s[0])] + Map(f, s[1..])
  }

  lemma {:induction false} MapAt<A, B>(f: A -> B, s: seq<A>, i: nat)
    requires i < |s|
    ensures Map(f, s)[i] == f(s[i])
  {
    if i > 0 { MapAt(f, s[1..], i - 1); }
  }

  lemma {:induction false} MapAppend<A, B>(f: A -> B, s: seq<A>, t: seq<A>)
    ensures Map(f, s + t) == Map(f, s) + Map(f, t)
  {
    if s == [] {
      assert s + t == t;
    } else {
      assert (s + t)[1..] == s[1..] + t;
      MapAppend(f, s[1..], t);
    }
  }

  /** The concatenated events are uniquely decodable: the parser inverts the formatter. */
  lemma {:induction false} ParseEncode(changes: seq<Change>)
    ensures Parse(Join(Map(Encode, changes))) == Some(Map(Seen, changes))
    decreases |changes|
  {
    if changes != [] {
      var c, rest := changes[0], changes[1..];
      var tail := Join(Map(Encode, rest));
      JoinCons(Encode(c), Map(Encode, rest));
      ParseOneEncode(c, tail);
      ParseEncode(rest);
      ParseFront(c, Encode(c), tail);
    }
  }

  lemma ParseFront(c: Change, e: Event, tail: seq<byte>)
    requires ParseOne(e + tail) == Some((Seen(c), |e|)) && Parse(tail).Some?
    ensures Parse(e + tail) == Some([Seen(c)] + Parse(tail).value)
  {
    assert (e + tail)[|e|..] == tail;
  }

  // ---------------------------------------------------------------- ring buffer

  /** At most the first `n` elements. */
  function Take<T>(s: seq<T>, n: nat): seq<T> { if |s| <= n then s else s[..n] }

  class HistoryBuffer {
    const events: array<Event>
    const size: nat
    var begin: nat
    var len: nat

    /** The events held, newest first. */
    ghost var contents: seq<Event>

    ghost predicate Valid()
      reads this, events
    {
      && 0 < size == events.Length && begin < size && len == |contents| <= size
      && forall i :: 0 <= i < len ==> events[Slot(begin, i, size)] == contents[i]
    }

    constructor (size: nat)
      requires size > 0
      ensures Valid() && contents == [] && this.size == size && fresh(events)
    {
      this.size := size;
      events := new Event[size](_ => []);
      begin, len := 0, 0;
      contents := [];
    }

    /** Push an event to the front; when the buffer is full the oldest one falls off. */
    method Push(e: Event)
      requires Valid()
      modifies this, events
      ensures Valid() && contents == Take([e] + old(contents), size)
    {
      begin := PreviousSlot();
      len := len + 1;
      if len >= size { len := size; }
      events[begin] := e;
      ghost var before := contents;
      contents := Take([e] + contents, size);
      forall i | 0 <= i < len ensures events[Slot(begin, i, size)] == contents[i] {
        if i > 0 { assert Slot(begin, i, size) == Slot(old(begin), i - 1, size); }
      }
    }

    method PreviousSlot() returns (b: nat)
      requires Valid()
      ensures b == if begin == 0 then size - 1 else begin - 1
    {
      b := (begin + size - 1) % size;
      SlotIsMod(begin, size - 1, size);
    }

    method EventAt(i: nat) returns (e: Event)
      requires Valid() && i < len
      ensures e == contents[i]
    {
      SlotIsMod(begin, i, size);
      e := events[(begin + i) % size];
    }

    /** Write the events, newest first. Fails, having written some of them, when they do not fit. */
    method Format(buf: array<byte>) returns (ok: bool, written: nat)
      requires Valid()
      modifies buf
      ensures ok <==> |Join(contents)| <= buf.Length
      ensures ok ==> written == |Join(contents)| && buf[..written] == Join(contents)
    {
      written := 0;
      for i := 0 to len
        invariant Valid()
        invariant written == |Join(contents[..i])| <= buf.Length && buf[..written] == Join(contents[..i])
      {
        var e := EventAt(i);
        assert contents[..i + 1][..i] == contents[..i];
        if written + |e| > buf.Length {
          JoinGrows(contents, i + 1);
          return false, written;
        }
        forall k | 0 <= k < |e| { buf[written + k] := e[k]; }
        written := written + |e|;
      }
      assert contents[..len] == contents;
      ok := true;
    }
  }

  lemma {:induction false} JoinGrows(events: seq<Event>, i: nat)
    requires i <= |events|
    ensures |Join(events[..i])| <= |Join(events)|
    decreases |events|
  {
    if i < |events| {
      assert events[..|events| - 1][..i] == events[..i];
      JoinGrows(events[..|events| - 1], i);
    } else {
      assert events[..i] == events;
    }
  }
}
