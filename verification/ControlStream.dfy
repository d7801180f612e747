/** Framing and encryption of the control channel over TCP (lib/src/ctrl.c): messages become a byte
    stream, and the receiver cuts the stream back into messages whatever pieces it arrives in. The
    two sides count encrypted messages separately and never exchange the counters. */
module ControlStream {
  import opened Bytes
  import Modular
  import opened Sequences
  import opened Wrappers

  const BUFFER: nat := 512

  type uint32 = x: int | 0 <= x < 0x1_0000_0000

  datatype Message = Message(kind: uint16, payload: seq<byte>)

  // ---------------------------------------------------------------- cipher

  /** The cipher library: what it does for a message with a given counter. Decryption may fail. */
  datatype Cipher = Cipher(enc: (nat, seq<byte>) -> seq<byte>, dec: (nat, seq<byte>) -> Option<seq<byte>>)

  ghost predicate Inverse(c: Cipher) {
    forall n: nat, x: seq<byte> :: |c.enc(n, x)| == |x| && c.dec(n, c.enc(n, x)) == Some(x)
  }

  /** The ciphers keep the length of a message. */
  ghost predicate KeepsLength(c: Cipher) {
    forall n: nat, x: seq<byte> :: c.dec(n, x).Some? ==> |c.dec(n, x).value| == |x|
  }

  /** The counters are 64-bit. Empty payloads are not encrypted and use no counter value. */
  function Next(counter: nat, payload: seq<byte>): nat {
    if payload == [] then counter else (counter + 1) % 0x1_0000_0000_0000_0000
  }

  function Encrypted(c: Cipher, counter: nat, payload: seq<byte>): seq<byte> {
    if payload == [] then [] else c.enc(counter, payload)
  }

  /** What the receiver hands on of one message: nothing when it cannot be decrypted. */
  function Handed(c: Cipher, counter: nat, m: Message): seq<Message> {
    if m.payload == [] then [m]
    else
      match c.dec(counter, m.payload)
      case None => []
      case Some(plain) => [Message(m.kind, plain)]
  }

  // ---------------------------------------------------------------- the stream

  function BigEndian32(n: nat): (r: seq<byte>)
    ensures |r| == 4
  {
    [n / 0x100_0000 % 256, n / 0x1_0000 % 256, n / 0x100 % 256, n % 256]
  }

  function Header(size: nat, kind: uint16): (r: seq<byte>)
    ensures |r| == 8
  {
    BigEndian32(size) + [kind / 256 as int, kind % 256 as int, 0, 0]
  }

  function SizeIn(s: seq<byte>): (r: uint32)
    requires |s| >= 8
  {
    s[0] as int * 0x100_0000 + s[1] as int * 0x1_0000 + s[2] as int * 0x100 + s[3] as int
  }

  function KindIn(s: seq<byte>): uint16
    requires |s| >= 8
  {
    s[4] as int * 256 + s[5] as int
  }

  lemma HeaderReads(size: nat, kind: uint16, rest: seq<byte>)
    requires size < 0x1_0000_0000
    ensures SizeIn(Header(size, kind) + rest) == size && KindIn(Header(size, kind) + rest) == kind
  {
    BytesOfSize(size);
    var h := Header(size, kind);
    assert forall i :: 0 <= i < 8 ==> (h + rest)[i] == h[i];
  }

  /** The octets of a header: the length in four, the kind in two, both with the highest first, and two
      zeros. */
  lemma HeaderOctets(size: nat, kind: uint16)
    requires size < 0x1_0000_0000
    ensures
      var h := Header(size, kind);
      && h[0] as int * 0x100_0000 + h[1] as int * 0x1_0000 + h[2] as int * 0x100 + h[3] as int == size
      && h[4] as int * 0x100 + h[5] as int == kind as int && h[6] == 0 && h[7] == 0
  {
    BytesOfSize(size);
  }

  lemma BytesOfSize(n: nat)
    requires n < 0x1_0000_0000
    ensures n / 0x100_0000 % 256 * 0x100_0000 + n / 0x1_0000 % 256 * 0x1_0000 + n / 0x100 % 256 * 0x100 + n % 256 == n
  {
    assert n / 0x1_0000 == n / 0x100 / 256 && n / 0x100_0000 == n / 0x1_0000 / 256;
  }

  /** The bytes that sending the messages puts on the stream. */
  function SendAll(c: Cipher, counter: nat, messages: seq<Message>): seq<byte>
    decreases |messages|
  {
    if messages == [] then []
    else
      var m := messages[0];
      Header(|m.payload|, m.kind) + Encrypted(c, counter, m.payload)
          + SendAll(c, Next(counter, m.payload), messages[1..])
  }

  function CounterAfter(counter: nat, messages: seq<Message>): nat
    decreases |messages|
  {
    if messages == [] then counter else CounterAfter(Next(counter, messages[0].payload), messages[1..])
  }

  /** How the receiver is left: with an incomplete message, with one too long for its buffer, or with
      one so long that the sum of its length and the header's wraps around in 32 bits. */
  datatype Status = Waiting | Overflow | Wrapped

  datatype Parsed = Parsed(frames: seq<Message>, rest: seq<byte>, status: Status)

  /** The messages at the front of a stream, still encrypted, and what follows them. */
  function Parse(s: seq<byte>): Parsed
    decreases |s|
  {
    if |s| < 8 then Parsed([], s, Waiting)
    else
      var size := SizeIn(s);
      if 8 + size >= 0x1_0000_0000 then Parsed([], s, Wrapped)
      else if 8 + size > BUFFER then Parsed([], s, Overflow)
      else if |s| < 8 + size then Parsed([], s, Waiting)
      else Prepend(Message(KindIn(s), s[8..8 + size]), Parse(s[8 + size..]))
  }

  function Prepend(m: Message, p: Parsed): Parsed { p.(frames := [m] + p.frames) }

  function PrependAll(frames: seq<Message>, p: Parsed): Parsed { p.(frames := frames + p.frames) }

  /** The messages that the receiver hands on, decrypted with its own counter. */
  function Deliver(c: Cipher, counter: nat, frames: seq<Message>): seq<Message>
    decreases |frames|
  {
    if frames == [] then []
    else
      Handed(c, counter, frames[0]) + Deliver(c, Next(counter, frames[0].payload), frames[1..])
  }

  // ---------------------------------------------------------------- facts about parsing

  /** Parsing can stop in the middle and go on when more has arrived. */
  lemma {:induction false} ParseAppend(s: seq<byte>, t: seq<byte>)
    requires Parse(s).status == Waiting
    ensures Parse(s + t) == PrependAll(Parse(s).frames, Parse(Parse(s).rest + t))
    decreases |s|
  {
    if |s| >= 8 && |s| >= 8 + SizeIn(s) {
      var n := 8 + SizeIn(s);
      var tail := Parse(s[n..]);
      ParseStep(s, t, n);
      ParseAppend(s[n..], t);
      PrependMore(Message(KindIn(s), s[8..n]), tail.frames, Parse(tail.rest + t));
    } else {
      assert Parse(s) == Parsed([], s, Waiting);
      PrependNone(Parse(s + t));
    }
  }

  lemma PrependNone(p: Parsed)
    ensures PrependAll([], p) == p
  {
    assert [] + p.frames == p.frames;
  }

  lemma PrependMore(m: Message, frames: seq<Message>, p: Parsed)
    ensures Prepend(m, PrependAll(frames, p)) == PrependAll([m] + frames, p)
  {
    assert [m] + (frames + p.frames) == [m] + frames + p.frames;
  }

  lemma PrependNext(frames: seq<Message>, m: Message, p: Parsed)
    ensures PrependAll(frames, Prepend(m, p)) == PrependAll(frames + [m], p)
  {
    assert frames + ([m] + p.frames) == frames + [m] + p.frames;
  }

  /** More bytes behind a complete message do not change it. */
  lemma ParseStep(s: seq<byte>, t: seq<byte>, n: nat)
    requires |s| >= 8 && n == 8 + SizeIn(s) <= BUFFER && n <= |s|
    ensures Parse(s) == Prepend(Message(KindIn(s), s[8..n]), Parse(s[n..]))
    ensures Parse(s + t) == Prepend(Message(KindIn(s), s[8..n]), Parse(s[n..] + t))
  {
    ParseHead(s, t, n);
    assert (s + t)[n..] == s[n..] + t;
  }

  lemma ParseHead(s: seq<byte>, t: seq<byte>, n: nat)
    requires 8 <= n <= |s|
    ensures SizeIn(s + t) == SizeIn(s) && KindIn(s + t) == KindIn(s) && (s + t)[8..n] == s[8..n]
  {
    assert forall i :: 0 <= i < 8 ==> (s + t)[i] == s[i];
  }

  /** What has been delivered stays delivered, and errors stay errors. */
  lemma {:induction false} ParseMonotone(s: seq<byte>, t: seq<byte>)
    ensures Parse(s).frames <= Parse(s + t).frames
    ensures Parse(s).status != Waiting ==>
      Parse(s + t).frames == Parse(s).frames && Parse(s + t).status == Parse(s).status
    decreases |s|
  {
    if Parse(s).status == Waiting {
      ParseAppend(s, t);
    } else if 8 + SizeIn(s) <= BUFFER {
      ParseStep(s, t, 8 + SizeIn(s));
      ParseMonotone(s[8 + SizeIn(s)..], t);
    } else {
      ParseHead(s, t, 8);
    }
  }

  lemma ParseStops(frames: seq<Message>, s: seq<byte>)
    requires |s| >= 8 ==> |s| < 8 + SizeIn(s)
    ensures PrependAll(frames, Parse(s)) == Parsed(frames, s, Parse(s).status)
    ensures Parse(s).status ==
      if |s| < 8 then Waiting
      else if 8 + SizeIn(s) >= 0x1_0000_0000 then Wrapped
      else if 8 + SizeIn(s) > BUFFER then Overflow
      else Waiting
  {
    assert frames + [] == frames;
  }

  /** Whole messages that fit the buffer, and nothing behind them. */
  predicate Complete(s: seq<byte>) { Parse(s).status == Waiting && Parse(s).rest == [] }

  /** Parsing splits a stream into whole messages that fit and the rest at which it stops. */
  lemma {:induction false} ParseSplit(s: seq<byte>) returns (k: nat)
    ensures k <= |s| && SplitsAt(s, k)
    decreases |s|
  {
    if |s| >= 8 && 8 + SizeIn(s) <= BUFFER && 8 + SizeIn(s) <= |s| {
      var n := 8 + SizeIn(s);
      var m := ParseSplit(s[n..]);
      SplitNext(s, n, m);
      k := n + m;
    } else {
      k := 0;
      SplitNone(s);
    }
  }

  ghost predicate SplitsAt(s: seq<byte>, k: nat)
    requires k <= |s|
  {
    Complete(s[..k]) && Parse(s[k..]) == Parsed([], s[k..], Parse(s).status)
  }

  lemma SplitNone(s: seq<byte>)
    requires !(|s| >= 8 && 8 + SizeIn(s) <= BUFFER && 8 + SizeIn(s) <= |s|)
    ensures SplitsAt(s, 0)
  {
    assert s[..0] == [] && s[0..] == s;
  }

  lemma SplitNext(s: seq<byte>, n: nat, m: nat)
    requires |s| >= 8 && n == 8 + SizeIn(s) <= BUFFER && n + m <= |s| && SplitsAt(s[n..], m)
    ensures SplitsAt(s, n + m)
  {
    WholeFirst(s, n, m);
    assert Parse(s).status == Parse(s[n..]).status by { ParseStep(s, [], n); }
    assert s[n..][m..] == s[n + m..];
  }

  lemma WholeFirst(s: seq<byte>, n: nat, m: nat)
    requires |s| >= 8 && n == 8 + SizeIn(s) <= BUFFER && n + m <= |s| && Complete(s[n..][..m])
    ensures Complete(s[..n + m])
  {
    var first, rest := s[..n], s[n..][..m];
    ParseHead(first, s[n..], 8);
    assert first + s[n..] == s;
    ParseStep(first, rest, n);
    assert first[n..] == [] && [] + rest == rest;
    assert s[..n + m] == first + rest;
  }

  /** The stream is whole messages that fit, followed by a header that declares `size`. */
  ghost predicate DeclaresBehind(s: seq<byte>, before: seq<byte>, rest: seq<byte>, size: nat) {
    s == before + rest && Complete(before) && |rest| >= 8 && SizeIn(rest) == size
  }

  /** The receiver stops with a wrapped sum if and only if, behind messages that fit, a header declares
      a length of at least 2^32 - 8; and with an overflow if and only if the length there is smaller
      than that and too large for the buffer. */
  lemma StatusExact(s: seq<byte>)
    ensures Parse(s).status == Wrapped <==>
      exists before, rest, size: nat :: DeclaresBehind(s, before, rest, size) && 8 + size >= 0x1_0000_0000
    ensures Parse(s).status == Overflow <==>
      exists before, rest, size: nat :: DeclaresBehind(s, before, rest, size) && 512 < 8 + size < 0x1_0000_0000
  {
    var k := ParseSplit(s);
    assert s == s[..k] + s[k..];
    if |s[k..]| >= 8 { assert DeclaresBehind(s, s[..k], s[k..], SizeIn(s[k..])); }
    forall before, rest, size: nat | DeclaresBehind(s, before, rest, size) && 8 + size > BUFFER
      ensures Parse(s).status == if 8 + size >= 0x1_0000_0000 then Wrapped else Overflow
    {
      ParseAppend(before, rest);
      assert [] + rest == rest;
    }
  }

  /** Such a header: it declares 2^32 - 8, and the sum with its own length is 0 in 32 bits. */
  lemma WrappedExample()
    ensures Parse([0xff, 0xff, 0xff, 0xf8, 0, 0, 0, 0]).status == Wrapped
  {
    assert SizeIn([0xff, 0xff, 0xff, 0xf8, 0, 0, 0, 0]) == 0xffff_fff8;
  }

  lemma {:induction false} RestWaits(s: seq<byte>)
    ensures var p := Parse(s); p.status == Waiting ==> Parse(p.rest) == Parsed([], p.rest, Waiting) && |p.rest| < BUFFER
    decreases |s|
  {
    if |s| >= 8 && 8 + SizeIn(s) <= BUFFER && |s| >= 8 + SizeIn(s) { RestWaits(s[8 + SizeIn(s)..]); }
  }

  lemma {:induction false} DeliverAppend(c: Cipher, counter: nat, frames: seq<Message>, m: Message)
    ensures Deliver(c, counter, frames + [m])
         == Deliver(c, counter, frames) + Handed(c, CounterAfter(counter, frames), m)
    ensures CounterAfter(counter, frames + [m]) == Next(CounterAfter(counter, frames), m.payload)
    decreases |frames|
  {
    CounterNext(counter, frames, m);
    if frames == [] {
      assert frames + [m] == [m] && [m][1..] == [];
    } else {
      assert (frames + [m])[1..] == frames[1..] + [m];
      DeliverAppend(c, Next(counter, frames[0].payload), frames[1..], m);
    }
  }

  lemma {:induction false} CounterNext(counter: nat, frames: seq<Message>, m: Message)
    ensures CounterAfter(counter, frames + [m]) == Next(CounterAfter(counter, frames), m.payload)
    decreases |frames|
  {
    if frames == [] {
      assert frames + [m] == [m] && [m][1..] == [];
    } else {
      assert (frames + [m])[1..] == frames[1..] + [m];
      CounterNext(Next(counter, frames[0].payload), frames[1..], m);
    }
  }

  // ---------------------------------------------------------------- round trip

  /** The receiver's buffer holds 512 bytes, eight of them for the header. */
  ghost predicate Fit(messages: seq<Message>) {
    forall i :: 0 <= i < |messages| ==> |messages[i].payload| <= 504
  }

  /** The frames that go over the wire. */
  function Frames(c: Cipher, counter: nat, messages: seq<Message>): seq<Message>
    decreases |messages|
  {
    if messages == [] then []
    else
      var m := messages[0];
      [Message(m.kind, Encrypted(c, counter, m.payload))] + Frames(c, Next(counter, m.payload), messages[1..])
  }

  lemma {:induction false} ParseSent(c: Cipher, counter: nat, messages: seq<Message>)
    requires Inverse(c) && Fit(messages)
    ensures Parse(SendAll(c, counter, messages)) == Parsed(Frames(c, counter, messages), [], Waiting)
    decreases |messages|
  {
    if messages != [] {
      var m := messages[0];
      var body, rest := Encrypted(c, counter, m.payload), SendAll(c, Next(counter, m.payload), messages[1..]);
      assert Fit(messages[1..]) by {
        assert forall i :: 0 <= i < |messages| - 1 ==> messages[1..][i] == messages[i + 1];
      }
      ParseSent(c, Next(counter, m.payload), messages[1..]);
      assert 8 + |m.payload| <= BUFFER && |body| == |m.payload|;
      ParseFirst(m.kind, body, rest);
    }
  }

  lemma ParseFirst(kind: uint16, body: seq<byte>, rest: seq<byte>)
    requires 8 + |body| <= BUFFER
    ensures Parse(Header(|body|, kind) + body + rest) == Prepend(Message(kind, body), Parse(rest))
  {
    var s := Header(|body|, kind) + body + rest;
    assert s == Header(|body|, kind) + (body + rest);
    HeaderReads(|body|, kind, body + rest);
    assert s[8..8 + |body|] == body && s[8 + |body|..] == rest;
  }

  /** Counters in lockstep: the receiver decrypts every message with the counter it was encrypted with. */
  lemma {:induction false} DeliverFrames(c: Cipher, counter: nat, messages: seq<Message>)
    requires Inverse(c)
    ensures Deliver(c, counter, Frames(c, counter, messages)) == messages
    ensures CounterAfter(counter, Frames(c, counter, messages)) == CounterAfter(counter, messages)
    decreases |messages|
  {
    if messages != [] {
      var m := messages[0];
      var body := Encrypted(c, counter, m.payload);
      assert |body| == |m.payload| && Handed(c, counter, Message(m.kind, body)) == [m];
      assert Next(counter, body) == Next(counter, m.payload);
      DeliverFrames(c, Next(counter, m.payload), messages[1..]);
      assert Frames(c, counter, messages)[1..] == Frames(c, Next(counter, m.payload), messages[1..]);
    }
  }

  /** A message that arrives damaged harms no other: the counter moves on even when it cannot be
      decrypted, so all before and behind it are delivered as they were sent. */
  lemma DamageStaysLocal(c: Cipher, counter: nat, before: seq<Message>,
    m: Message, damaged: Message, after: seq<Message>)
    requires Inverse(c) && (damaged.payload == [] <==> m.payload == [])
    ensures
      var at := CounterAfter(counter, before);
      var arrived := Frames(c, counter, before) + ([damaged] + Frames(c, Next(at, m.payload), after));
      && Deliver(c, counter, arrived) == before + (Handed(c, at, damaged) + after)
      && CounterAfter(counter, arrived) == CounterAfter(counter, before + ([m] + after))
  {
    var at, sent := CounterAfter(counter, before), Frames(c, counter, before);
    var next := Next(at, m.payload);
    var behind := Frames(c, next, after);
    DeliverConcat(c, counter, sent, [damaged] + behind);
    DeliverFrames(c, counter, before);
    DeliverFrames(c, next, after);
    assert ([damaged] + behind)[1..] == behind;
    DeliverConcat(c, counter, before, [m] + after);
    assert ([m] + after)[1..] == after;
  }

  /** At every moment, whatever part of the stream has arrived, the receiver has delivered a prefix
      of the sent messages and waits for more; when all has arrived it has delivered all of them. */
  lemma DeliveredPrefix(c: Cipher, counter: nat, messages: seq<Message>, arrived: seq<byte>, missing: seq<byte>)
    requires Inverse(c) && Fit(messages) && arrived + missing == SendAll(c, counter, messages)
    ensures Parse(arrived).status == Waiting
    ensures Deliver(c, counter, Parse(arrived).frames) <= messages
    ensures missing == [] ==> Deliver(c, counter, Parse(arrived).frames) == messages
    ensures missing == [] ==> CounterAfter(counter, Parse(arrived).frames) == CounterAfter(counter, messages)
  {
    ParseSent(c, counter, messages);
    ParseMonotone(arrived, missing);
    DeliverFrames(c, counter, messages);
    DeliverPrefix(c, counter, Parse(arrived).frames, Frames(c, counter, messages));
    if missing == [] { assert arrived + missing == arrived; }
  }

  lemma {:induction false} DeliverPrefix(c: Cipher, counter: nat, a: seq<Message>, b: seq<Message>)
    requires a <= b
    ensures Deliver(c, counter, a) <= Deliver(c, counter, b)
    decreases |a|
  {
    if a != [] { DeliverPrefix(c, Next(counter, a[0].payload), a[1..], b[1..]); }
  }

  lemma {:induction false} SendSplit(c: Cipher, counter: nat, a: seq<Message>, b: seq<Message>)
    ensures SendAll(c, counter, a + b) == SendAll(c, counter, a) + SendAll(c, CounterAfter(counter, a), b)
    decreases |a|
  {
    if a == [] {
      assert a + b == b;
    } else {
      var m := a[0];
      assert (a + b)[0] == m && (a + b)[1..] == a[1..] + b;
      SendSplit(c, Next(counter, m.payload), a[1..], b);
    }
  }

  lemma OversizedFirst(c: Cipher, counter: nat, m: Message, after: seq<Message>)
    requires Inverse(c) && BUFFER < 8 + |m.payload| < 0x1_0000_0000
    ensures var s := SendAll(c, counter, [m] + after); Parse(s) == Parsed([], s, Overflow)
  {
    var body, tail := Encrypted(c, counter, m.payload), SendAll(c, Next(counter, m.payload), ([m] + after)[1..]);
    assert SendAll(c, counter, [m] + after) == Header(|m.payload|, m.kind) + (body + tail);
    HeaderReads(|m.payload|, m.kind, body + tail);
  }

  /** A message longer than the buffer ends the channel: all before it are delivered, nothing after. */
  lemma OversizedStops(c: Cipher, counter: nat, before: seq<Message>, m: Message, after: seq<Message>)
    requires Inverse(c) && Fit(before) && 504 < |m.payload| < 0xffff_fff8
    ensures var p := Parse(SendAll(c, counter, before + ([m] + after)));
      p.status == Overflow && Deliver(c, counter, p.frames) == before
  {
    var sent, rest := SendAll(c, counter, before), SendAll(c, CounterAfter(counter, before), [m] + after);
    SendSplit(c, counter, before, [m] + after);
    ParseSent(c, counter, before);
    ParseAppend(sent, rest);
    DeliverFrames(c, counter, before);
    OversizedFirst(c, CounterAfter(counter, before), m, after);
    assert [] + rest == rest;
    assert Frames(c, counter, before) + [] == Frames(c, counter, before);
  }

  // ---------------------------------------------------------------- counters

  /** How many of the messages have a payload. */
  function Payloads(messages: seq<Message>): nat {
    if messages == [] then 0
    else Payloads(messages[..|messages| - 1]) + if |messages[|messages| - 1].payload| > 0 then 1 else 0
  }

  /** The 64-bit counter `n` messages with a payload later. */
  function Later(counter: nat, n: nat): nat { (counter + n) % 0x1_0000_0000_0000_0000 }

  /** Only messages with a payload use a counter value. */
  lemma {:induction false} CounterCounts(counter: nat, messages: seq<Message>)
    requires counter < 0x1_0000_0000_0000_0000
    ensures CounterAfter(counter, messages) == Later(counter, Payloads(messages))
    decreases |messages|
  {
    if messages != [] {
      var n := |messages| - 1;
      var init, last := messages[..n], messages[n];
      CounterCounts(counter, init);
      CounterNext(counter, init, last);
      assert messages == init + [last];
      Modular.ModAdd(counter + Payloads(init), 1, 0x1_0000_0000_0000_0000);
      Modular.ModAdd(counter + Payloads(init), 0, 0x1_0000_0000_0000_0000);
    } else {
      Modular.DivModUnique(counter, 0x1_0000_0000_0000_0000, 0, counter);
    }
  }

  /** Message `j` on the wire: its header, and its payload encrypted with the start value plus the number of
      messages with a payload before it; without a payload the header alone. */
  lemma SentAt(c: Cipher, counter: nat, messages: seq<Message>, j: nat)
    requires counter < 0x1_0000_0000_0000_0000 && j < |messages|
    ensures
      var m, sent := messages[j], SendAll(c, counter, messages[..j]);
      SendAll(c, counter, messages[..j + 1])
      == if |m.payload| > 0
         then sent + Header(|m.payload|, m.kind) + c.enc(Later(counter, Payloads(messages[..j])), m.payload)
         else sent + Header(0, m.kind)
  {
    var init, m := messages[..j], messages[j];
    assert messages[..j + 1] == init + [m];
    CounterCounts(counter, init);
    SendSplit(c, counter, init, [m]);
    SendOne(c, CounterAfter(counter, init), m);
  }

  lemma SendOne(c: Cipher, counter: nat, m: Message)
    ensures SendAll(c, counter, [m]) == Header(|m.payload|, m.kind) + Encrypted(c, counter, m.payload)
  {
    assert [m][1..] == [];
  }

  /** What the receiver hands on of frame `j`: itself if it has no payload, and otherwise what it decrypts to
      with the start value plus the number of frames with a payload before it, if it does. */
  lemma ReceivedAt(c: Cipher, counter: nat, frames: seq<Message>, j: nat)
    requires counter < 0x1_0000_0000_0000_0000 && j < |frames|
    ensures
      var m, before := frames[j], Deliver(c, counter, frames[..j]);
      var plain := c.dec(Later(counter, Payloads(frames[..j])), m.payload);
      Deliver(c, counter, frames[..j + 1])
      == if |m.payload| == 0 then before + [m]
         else if plain.Some? then before + [Message(m.kind, plain.value)]
         else before
  {
    var init, m := frames[..j], frames[j];
    assert frames[..j + 1] == init + [m];
    CounterCounts(counter, init);
    DeliverAppend(c, counter, init, m);
  }

  // ---------------------------------------------------------------- the two endpoints

  class Sender {
    const cipher: Cipher
    var cryptCounterLocal: nat

    /** Everything handed to the socket. */
    var wire: seq<byte>

    constructor (cipher: Cipher, counter: nat)
      ensures this.cipher == cipher && cryptCounterLocal == counter && wire == []
    {
      this.cipher := cipher;
      cryptCounterLocal := counter;
      wire := [];
    }

    method Send(kind: uint16, payload: seq<byte>)
      modifies this
      ensures wire == old(wire) + SendAll(cipher, old(cryptCounterLocal), [Message(kind, payload)])
      ensures cryptCounterLocal == CounterAfter(old(cryptCounterLocal), [Message(kind, payload)])
      ensures |payload| > 0 ==>
                && wire == old(wire) + Header(|payload|, kind) + cipher.enc(old(cryptCounterLocal), payload)
                && cryptCounterLocal == Later(old(cryptCounterLocal), 1)
      ensures |payload| == 0 ==> wire == old(wire) + Header(0, kind) && cryptCounterLocal == old(cryptCounterLocal)
    {
      ghost var counter := cryptCounterLocal;
      var enc: seq<byte> := [];
      if |payload| > 0 {
        enc := cipher.enc(cryptCounterLocal, payload);
        cryptCounterLocal := (cryptCounterLocal + 1) % 0x1_0000_0000_0000_0000;
      }
      wire := wire + Header(|payload|, kind);
      wire := wire + enc;
      assert SendAll(cipher, counter, [Message(kind, payload)]) == Header(|payload|, kind) + enc;
    }
  }

  class Receiver {
    const cipher: Cipher
    const recvBuf: array<byte>
    var recvBufSize: nat
    var cryptCounterRemote: nat

    /** Every message handed to its handler. */
    var delivered: seq<Message>

    ghost predicate Valid()
      reads this
    {
      recvBuf.Length == BUFFER && recvBufSize <= BUFFER && KeepsLength(cipher)
    }

    ghost function Held(): seq<byte>
      reads this, recvBuf
      requires Valid()
    {
      recvBuf[..recvBufSize]
    }

    constructor (cipher: Cipher, counter: nat)
      requires KeepsLength(cipher)
      ensures Valid() && Held() == [] && delivered == [] && cryptCounterRemote == counter && this.cipher == cipher
      ensures fresh(recvBuf)
    {
      this.cipher := cipher;
      recvBuf := new byte[BUFFER](_ => 0);
      recvBufSize := 0;
      cryptCounterRemote := counter;
      delivered := [];
    }

    /** Decrypt a payload where it lies in the buffer and hand it on. */
    method MessageReceived(kind: uint16, size: nat)
      requires Valid() && 8 + size <= recvBufSize
      modifies this`cryptCounterRemote, this`delivered, recvBuf
      ensures delivered
           == old(delivered) + Handed(cipher, old(cryptCounterRemote), Message(kind, old(recvBuf[8..8 + size])))
      ensures cryptCounterRemote == Next(old(cryptCounterRemote), old(recvBuf[8..8 + size]))
      ensures cryptCounterRemote == if size > 0 then Later(old(cryptCounterRemote), 1) else old(cryptCounterRemote)
      ensures forall i :: 8 + size <= i < recvBuf.Length ==> recvBuf[i] == old(recvBuf[i])
    {
      if size > 0 {
        var plain := cipher.dec(cryptCounterRemote, recvBuf[8..8 + size]);
        cryptCounterRemote := (cryptCounterRemote + 1) % 0x1_0000_0000_0000_0000;
        if plain.None? { return; }
        forall i | 0 <= i < size { recvBuf[8 + i] := plain.value[i]; }
        assert recvBuf[8..8 + size] == plain.value;
      }
      delivered := delivered + [Message(kind, recvBuf[8..8 + size])];
    }

    /** Drop the first `n` bytes. */
    method Discard(n: nat)
      requires Valid() && n <= recvBufSize
      modifies this`recvBufSize, recvBuf
      ensures Valid() && Held() == old(Held())[n..]
    {
      ghost var held := Held();
      recvBufSize := recvBufSize - n;
      if recvBufSize > 0 {
        forall i | 0 <= i < recvBufSize { recvBuf[i] := recvBuf[n + i]; }
      }
      assert forall i :: 0 <= i < recvBufSize ==> recvBuf[i] == held[n + i];
    }

    /** Take the first message out of the buffer. */
    method TakeFirst(size: nat)
      requires Valid() && 8 + size <= recvBufSize && size == SizeIn(Held())
      modifies this, recvBuf
      ensures Valid() && Held() == old(Held())[8 + size..]
      ensures delivered == old(delivered)
          + Handed(cipher, old(cryptCounterRemote), Message(KindIn(old(Held())), old(Held())[8..8 + size]))
      ensures cryptCounterRemote == Next(old(cryptCounterRemote), old(Held())[8..8 + size])
    {
      ghost var held := Held();
      assert held[8..8 + size] == recvBuf[8..8 + size];
      MessageReceived(recvBuf[4] as int * 256 + recvBuf[5] as int, size);
      assert Held()[8 + size..] == held[8 + size..];
      Discard(8 + size);
    }

    /** Deliver every complete message in the buffer. */
    method Drain() returns (status: Status)
      requires Valid()
      modifies this, recvBuf
      ensures Valid()
      ensures var p := Parse(old(Held()));
        && status == p.status && Held() == p.rest
        && delivered == old(delivered) + Deliver(cipher, old(cryptCounterRemote), p.frames)
        && cryptCounterRemote == CounterAfter(old(cryptCounterRemote), p.frames)
    {
      ghost var start, before, counter := Held(), delivered, cryptCounterRemote;
      ghost var frames: seq<Message> := [];
      while recvBufSize >= 8
        invariant Valid()
        invariant Parse(start) == PrependAll(frames, Parse(Held()))
        invariant delivered == before + Deliver(cipher, counter, frames)
        invariant cryptCounterRemote == CounterAfter(counter, frames)
        decreases recvBufSize
      {
        var size := ReadSize();
        var need := WholeSize(size);
        if recvBufSize < need {
          ParseStops(frames, Held());
          return if need > BUFFER then Overflow else Waiting;
        }
        if need < 8 {
          ParseStops(frames, Held());
          return Wrapped;
        }
        frames := TakeFrame(size, before, counter, frames);
      }
      ParseStops(frames, Held());
      return Waiting;
    }

    /** Take one more message, after those in `frames`. */
    method TakeFrame(size: nat, ghost before: seq<Message>, ghost counter: nat, ghost frames: seq<Message>)
      returns (ghost more: seq<Message>)
      requires Valid() && 8 + size <= recvBufSize && size == SizeIn(Held())
      requires delivered == before + Deliver(cipher, counter, frames)
      requires cryptCounterRemote == CounterAfter(counter, frames)
      modifies this, recvBuf
      ensures Valid() && recvBufSize < old(recvBufSize)
      ensures PrependAll(frames, Parse(old(Held()))) == PrependAll(more, Parse(Held()))
      ensures delivered == before + Deliver(cipher, counter, more) && cryptCounterRemote == CounterAfter(counter, more)
    {
      ghost var first := Message(KindIn(Held()), Held()[8..8 + size]);
      DeliverAppend(cipher, counter, frames, first);
      ParseStep(Held(), [], 8 + size);
      PrependNext(frames, first, Parse(Held()[8 + size..]));
      TakeFirst(size);
      more := frames + [first];
    }

    method ReadSize() returns (size: uint32)
      requires Valid() && recvBufSize >= 8
      ensures size == SizeIn(Held())
    {
      size := recvBuf[0] as int * 0x100_0000 + recvBuf[1] as int * 0x1_0000 + recvBuf[2] as int * 0x100
              + recvBuf[3] as int;
    }

    /** The socket fills some of the free part of the buffer. */
    method Recv(chunk: seq<byte>)
      requires Valid() && 0 < |chunk| <= recvBuf.Length - recvBufSize
      modifies this`recvBufSize, recvBuf
      ensures Valid() && Held() == old(Held()) + chunk
    {
      forall i | 0 <= i < |chunk| { recvBuf[recvBufSize + i] := chunk[i]; }
      recvBufSize := recvBufSize + |chunk|;
    }

    /** Drain with the messages in `frames` already delivered. */
    method DrainAfter(ghost got: seq<byte>, ghost counter: nat, ghost frames: seq<Message>)
      returns (status: Status, ghost more: seq<Message>)
      requires Valid() && Parse(got) == PrependAll(frames, Parse(Held()))
      requires delivered == Deliver(cipher, counter, frames) && cryptCounterRemote == CounterAfter(counter, frames)
      modifies this, recvBuf
      ensures Valid() && Parse(got) == Parsed(more, Held(), status)
      ensures delivered == Deliver(cipher, counter, more) && cryptCounterRemote == CounterAfter(counter, more)
      ensures status == Waiting ==> recvBufSize < BUFFER
    {
      more := frames + Parse(Held()).frames;
      DeliverConcat(cipher, counter, frames, Parse(Held()).frames);
      RestWaits(Held());
      status := Drain();
    }

    /** The loop of the control thread over a stream of which every call of recv returns some of what
        is left: `sizes` says how much, within what is there and what there is room for. */
    method Run(stream: seq<byte>, sizes: seq<nat>) returns (status: Status, ghost arrived: nat)
      requires Valid() && Held() == [] && delivered == []
      modifies this, recvBuf
      ensures Valid() && arrived <= |stream|
      ensures var p := Parse(stream[..arrived]);
        && status == p.status && delivered == Deliver(cipher, old(cryptCounterRemote), p.frames)
        && cryptCounterRemote == CounterAfter(old(cryptCounterRemote), p.frames)
      ensures status == Waiting && |sizes| >= |stream| ==> arrived == |stream|
    {
      ghost var counter := cryptCounterRemote;
      ghost var frames: seq<Message>, got: seq<byte> := [], [];
      var left, i := stream, 0;
      while true
        invariant Valid() && got + left == stream && i <= |sizes| && i <= |got|
        invariant Parse(got) == PrependAll(frames, Parse(Held()))
        invariant delivered == Deliver(cipher, counter, frames) && cryptCounterRemote == CounterAfter(counter, frames)
        decreases |sizes| - i
      {
        status, frames := DrainAfter(got, counter, frames);
        if status != Waiting || i == |sizes| || |left| == 0 {
          FirstPart(got, left);
          return status, |got|;
        }
        var n := Amount(sizes[i], recvBuf.Length - recvBufSize, |left|);
        ParseMore(got, left[..n], frames);
        Recv(left[..n]);
        Split(got, left, n);
        got, left, i := got + left[..n], left[n..], i + 1;
      }
    }
  }

  lemma Split(a: seq<byte>, b: seq<byte>, n: nat)
    requires n <= |b|
    ensures a + b == a + b[..n] + b[n..]
  {
    assert b == b[..n] + b[n..];
  }

  lemma FirstPart(a: seq<byte>, b: seq<byte>)
    ensures (a + b)[..|a|] == a && (b == [] ==> |a| == |a + b|)
  {
  }

  lemma ParseMore(s: seq<byte>, t: seq<byte>, frames: seq<Message>)
    requires Parse(s).status == Waiting && Parse(s).frames == frames
    ensures Parse(s + t) == PrependAll(frames, Parse(Parse(s).rest + t))
  {
    ParseAppend(s, t);
  }

  /** Header and payload, added in 32 bits. */
  method WholeSize(size: uint32) returns (need: nat)
    ensures need == if 8 + size >= 0x1_0000_0000 then 8 + size - 0x1_0000_0000 else 8 + size
  {
    need := (8 + size as int) % 0x1_0000_0000;
  }

  method Amount(wanted: nat, room: nat, left: nat) returns (n: nat)
    requires room > 0 && left > 0
    ensures 0 < n <= room && n <= left
    ensures 0 < wanted <= room && wanted <= left ==> n == wanted
  {
    n := if wanted == 0 then 1 else wanted;
    if n > room { n := room; }
    if n > left { n := left; }
  }

  lemma {:induction false} DeliverConcat(c: Cipher, counter: nat, a: seq<Message>, b: seq<Message>)
    ensures Deliver(c, counter, a + b) == Deliver(c, counter, a) + Deliver(c, CounterAfter(counter, a), b)
    ensures CounterAfter(counter, a + b) == CounterAfter(CounterAfter(counter, a), b)
    decreases |a|
  {
    if a == [] {
      assert a + b == b;
    } else {
      assert (a + b)[1..] == a[1..] + b;
      DeliverConcat(c, Next(counter, a[0].payload), a[1..], b);
    }
  }

  /** Both ends together: whatever the socket does to the pieces, the messages come out as they went
      in, and the counters of the two sides end equal. */
  method Exchange(cipher: Cipher, counter: nat, messages: seq<Message>, sizes: seq<nat>)
    returns (delivered: seq<Message>, local: nat, remote: nat)
    requires Inverse(cipher) && KeepsLength(cipher) && Fit(messages) && counter < 0x1_0000_0000_0000_0000
    ensures delivered <= messages
    ensures local == Later(counter, Payloads(messages))
    ensures |sizes| >= |SendAll(cipher, counter, messages)| ==> delivered == messages && local == remote
  {
    CounterCounts(counter, messages);
    var sender := SendMessages(cipher, counter, messages);
    var receiver := new Receiver(cipher, counter);
    var status, arrived := receiver.Run(sender.wire, sizes);
    assert sender.wire[..arrived] + sender.wire[arrived..] == sender.wire;
    DeliveredPrefix(cipher, counter, messages, sender.wire[..arrived], sender.wire[arrived..]);
    return receiver.delivered, sender.cryptCounterLocal, receiver.cryptCounterRemote;
  }

  method SendMessages(cipher: Cipher, counter: nat, messages: seq<Message>) returns (sender: Sender)
    ensures fresh(sender) && sender.wire == SendAll(cipher, counter, messages)
    ensures sender.cryptCounterLocal == CounterAfter(counter, messages)
  {
    sender := new Sender(cipher, counter);
    for i := 0 to |messages|
      invariant fresh(sender) && sender.cipher == cipher
      invariant sender.wire + SendAll(cipher, sender.cryptCounterLocal, messages[i..])
           == SendAll(cipher, counter, messages)
      invariant CounterAfter(sender.cryptCounterLocal, messages[i..]) == CounterAfter(counter, messages)
    {
      SendFirst(cipher, sender.cryptCounterLocal, messages, i);
      Assoc(sender.wire, SendAll(cipher, sender.cryptCounterLocal, [messages[i]]),
        SendAll(cipher, CounterAfter(sender.cryptCounterLocal, [messages[i]]), messages[i + 1..]));
      sender.Send(messages[i].kind, messages[i].payload);
    }
    assert messages[|messages|..] == [];
  }

  lemma SendFirst(c: Cipher, counter: nat, messages: seq<Message>, i: nat)
    requires i < |messages|
    ensures SendAll(c, counter, messages[i..])
         == SendAll(c, counter, [messages[i]]) + SendAll(c, CounterAfter(counter, [messages[i]]), messages[i + 1..])
    ensures CounterAfter(counter, messages[i..])
         == CounterAfter(CounterAfter(counter, [messages[i]]), messages[i + 1..])
  {
    assert messages[i..][0] == messages[i] && messages[i..][1..] == messages[i + 1..];
    assert [messages[i]][1..] == [];
  }
}
