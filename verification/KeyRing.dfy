/** The key-stream cache of lib/src/gkcrypt.c: a background thread fills a ring of key stream and
    gives up the mutex while it writes the next chunk; readers copy from the ring or generate the
    bytes themselves. Every method here is one atomic step of the thread or of a reader. */
module KeyRing {
  import opened Bytes
  import opened Counter
  import opened KeyStream
  import opened Modular

  const CHUNK: nat := 0x1000

  // ---------------------------------------------------------------- the control state

  /** The fields the mutex guards. */
  datatype Control = Control(min: nat, start: nat, populated: nat, last: nat)

  predicate ShouldGenerate(c: Control) { c.last > c.min + c.populated / 2 }

  /** The condition the thread waits for, apart from being told to stop. */
  predicate HasWork(c: Control, size: nat) { c.populated < size || ShouldGenerate(c) }

  /** What the thread decides when it wakes: skip ahead, drop the oldest chunk, or go on filling. */
  function Decide(c: Control, size: nat): Control
    requires size > 0
  {
    if c.last > c.min + c.populated then
      Control(c.last / CHUNK * CHUNK, 0, 0, c.last)
    else if c.populated == size && size >= CHUNK then
      Control(c.min + CHUNK, Slot(c.start, CHUNK, size), c.populated - CHUNK, c.last)
    else c
  }

  function Publish(c: Control): Control { c.(populated := c.populated + CHUNK) }

  function Request(c: Control, end: nat): Control { if end > c.last then c.(last := end) else c }

  ghost predicate ControlOk(c: Control, size: nat) {
    && size >= CHUNK && size % CHUNK == 0
    && c.min % CHUNK == 0 && c.start % CHUNK == 0 && c.populated % CHUNK == 0
    && c.start < size && c.populated <= size
    && c.min <= c.last + CHUNK
    && (size >= 2 * CHUNK ==> c.min <= c.last)
  }

  lemma DecideOk(c: Control, size: nat)
    requires ControlOk(c, size) && HasWork(c, size)
    ensures var d := Decide(c, size);
            && ControlOk(d, size)
            && d.populated + CHUNK <= size
            && d.min >= c.min
            && d.min + d.populated >= c.min + c.populated
  {
    RoundDown(c.last);
  }

  /** One turn of the thread, from the state in which it wakes to the one in which it has published its
      chunk, whatever is requested in between. When the last request lay beyond the cached range, one turn
      brings it into the range, which is then just its chunk. In any other turn the range grows by a chunk
      at its end, and one chunk is given up, the oldest, only if the ring was full. */
  lemma TurnExact(c: Control, size: nat, end: nat)
    requires ControlOk(c, size) && HasWork(c, size)
    ensures
      var d := Publish(Request(Decide(c, size), end));
      if c.last > c.min + c.populated then
        && d.min <= c.last < d.min + d.populated
        && d.populated == 4096 && d.min % 4096 == 0 && d.min >= c.min + c.populated
      else
        && d.min + d.populated == c.min + c.populated + 4096
        && d.min == if c.populated == size then c.min + 4096 else c.min
  {
    RoundDown(c.last);
    if c.last > c.min + c.populated { ChunkBelow(c.last, c.min + c.populated); }
  }

  /** The chunk of `x` begins at or behind every chunk boundary up to `x`. */
  lemma ChunkBelow(x: nat, bound: nat)
    requires bound <= x && bound % CHUNK == 0
    ensures x / CHUNK * CHUNK >= bound
  {
  }

  lemma RoundDown(x: nat)
    ensures var r := x / CHUNK * CHUNK; r <= x < r + CHUNK && r % CHUNK == 0
  {
  }

  lemma PublishOk(c: Control, size: nat)
    requires ControlOk(c, size) && c.populated + CHUNK <= size
    ensures ControlOk(Publish(c), size)
  {
  }

  lemma RequestOk(c: Control, size: nat, end: nat)
    requires ControlOk(c, size)
    ensures ControlOk(Request(c, end), size)
  {
  }

  /** How far the thread still has to go before it can sleep. */
  function ToGo(c: Control, size: nat): int { c.last + CHUNK + size - (c.min + c.populated) }

  /** Run the thread until it has no work left while nobody asks for key stream. That this is a
      terminating function is part of the result: the end of the ring moves forward by at least a
      chunk each time and is bounded. */
  ghost function Settle(c: Control, size: nat): (r: Control)
    requires ControlOk(c, size)
    ensures ControlOk(r, size) && !HasWork(r, size)
    ensures r.last == c.last && r.min >= c.min
    decreases ToGo(c, size)
  {
    if HasWork(c, size) then
      DecideOk(c, size);
      Settle(Publish(Decide(c, size)), size)
    else c
  }

  /** The thread sleeps only when the ring is full and the last request is no further than half a
      ring ahead; with at least two chunks it is never behind the ring. */
  lemma SleepsFull(c: Control, size: nat)
    requires ControlOk(c, size) && !HasWork(c, size)
    ensures c.populated == size && c.last <= c.min + size / 2
    ensures size >= 2 * CHUNK ==> c.min <= c.last
  {
  }

  /** With a single chunk the ring can run past the last request. */
  lemma OneChunkOvertakes()
    ensures var c := Settle(Control(0, 0, CHUNK, 0x900), CHUNK);
            c.min > c.last
  {
    var c := Control(0, 0, CHUNK, 0x900);
    assert Decide(c, CHUNK) == Control(CHUNK, 0, 0, 0x900);
    assert Publish(Decide(c, CHUNK)) == Control(CHUNK, 0, CHUNK, 0x900);
    assert Settle(Control(CHUNK, 0, CHUNK, 0x900), CHUNK) == Control(CHUNK, 0, CHUNK, 0x900);
  }

  /** A request can give a sleeping thread work only by asking for more than half a ring ahead,
      and that is when the reader signals. */
  lemma RequestSignals(c: Control, size: nat, end: nat)
    requires ControlOk(c, size) && !HasWork(c, size)
    ensures HasWork(Request(c, end), size) <==> ShouldGenerate(Request(c, end))
    ensures HasWork(Request(c, end), size) <==> end > c.min + size / 2
  {
  }

  // ---------------------------------------------------------------- the ring

  /** Every populated position holds the direct key-stream byte. */
  ghost predicate Holds(k: Keys, buf: seq<byte>, c: Control)
    requires c.start < |buf| && c.populated <= |buf|
  {
    forall i :: 0 <= i < c.populated ==> buf[Slot(c.start, i, |buf|)] == Direct(k, c.min + i)
  }

  /** What a copy of one or two pieces of the ring holds. */
  lemma CopiedBytes(k: Keys, buf: seq<byte>, c: Control, keyPos: nat, n: nat, out: seq<byte>)
    requires c.start < |buf| && c.populated <= |buf| && Holds(k, buf, c)
    requires c.min <= keyPos && keyPos + n < c.min + c.populated
    requires
      var off := Slot(c.start, keyPos - c.min, |buf|);
      out == if off + n > |buf| then buf[off..] + buf[..off + n - |buf|] else buf[off..off + n]
    ensures out == Stream(k, keyPos, n)
  {
    forall i | 0 <= i < n ensures out[i] == Direct(k, keyPos + i) {
      var j := keyPos - c.min + i;
      assert buf[Slot(c.start, j, |buf|)] == Direct(k, c.min + j);
    }
  }

  /** The thread sleeps or has woken (with the mutex), writes a chunk without the mutex, or is gone. */
  datatype Phase =
    | Waiting
    | Counting(off: nat, pos: nat, blocks: nat)
    | Encrypting(off: nat, pos: nat, blocks: nat)
    | Exited

  /** The chunk being written lies in one piece, right after the populated part, and meets none of
      the slots that readers may copy from. */
  ghost predicate ChunkFree(c: Control, size: nat, off: nat, pos: nat) {
    && c.populated + CHUNK <= size
    && off == Slot(c.start, c.populated, size) && off + CHUNK <= size
    && pos == c.min + c.populated && pos % 16 == 0
    && (forall i :: 0 <= i < c.populated ==> !(off <= Slot(c.start, i, size) < off + CHUNK))
  }

  lemma NextChunkFree(c: Control, size: nat)
    requires ControlOk(c, size) && c.populated + CHUNK <= size
    ensures ChunkFree(c, size, Slot(c.start, c.populated, size), c.min + c.populated)
  {
    WholeChunks(c.start, c.populated, size);
    BlockAligned(c.min, c.populated);
  }

  lemma WholeChunks(start: nat, populated: nat, size: nat)
    requires start % CHUNK == 0 && populated % CHUNK == 0 && size % CHUNK == 0
    requires start < size && populated + CHUNK <= size
    ensures Slot(start, populated, size) + CHUNK <= size
  {
    var a, b, n := start / CHUNK, populated / CHUNK, size / CHUNK;
    assert start == CHUNK * a && populated == CHUNK * b && size == CHUNK * n;
  }

  lemma BlockAligned(a: nat, b: nat)
    requires a % CHUNK == 0 && b % CHUNK == 0
    ensures (a + b) % 16 == 0
  {
    var i, j := a / CHUNK, b / CHUNK;
    assert a + b == 16 * (256 * (i + j));
  }

  lemma DecideHolds(k: Keys, buf: seq<byte>, c: Control)
    requires ControlOk(c, |buf|) && HasWork(c, |buf|) && Holds(k, buf, c)
    ensures var d := Decide(c, |buf|); ControlOk(d, |buf|) && Holds(k, buf, d)
  {
    DecideOk(c, |buf|);
    var size, d := |buf|, Decide(c, |buf|);
    if c.last <= c.min + c.populated && c.populated == size {
      forall i | 0 <= i < d.populated ensures buf[Slot(d.start, i, size)] == Direct(k, d.min + i) {
        assert Slot(d.start, i, size) == Slot(c.start, i + CHUNK, size);
        assert d.min + i == c.min + (i + CHUNK);
      }
    }
  }

  lemma PublishHolds(k: Keys, buf: seq<byte>, c: Control, off: nat, pos: nat)
    requires c.start < |buf| && c.populated + CHUNK <= |buf| && Holds(k, buf, c) && ChunkFree(c, |buf|, off, pos)
    requires Partial(k, buf, off, pos, 256, 256)
    ensures Holds(k, buf, Publish(c))
  {
    var size, d := |buf|, Publish(c);
    forall i | 0 <= i < d.populated ensures buf[Slot(d.start, i, size)] == Direct(k, d.min + i) {
      if i >= c.populated {
        var p := i - c.populated;
        assert buf[off + p] == Direct(k, pos + (off + p - off));
        assert Slot(c.start, i, size) == off + p;
      }
    }
  }

  /** Writing into the chunk leaves the readable part alone. */
  lemma WriteKeepsHolds(k: Keys, before: seq<byte>, after: seq<byte>, c: Control, off: nat, pos: nat)
    requires |before| == |after| && ControlOk(c, |before|) && Holds(k, before, c) && ChunkFree(c, |before|, off, pos)
    requires forall p :: 0 <= p < |after| && !(off <= p < off + CHUNK) ==> after[p] == before[p]
    ensures Holds(k, after, c)
  {
  }

  datatype Step = Read(pos: nat, n: nat) | Wake | Work | Fail | Done | Stop

  class GKCrypt {
    const keys: Keys
    const size: nat
    const keyBuf: array<byte>
    var min: nat
    var start: nat
    var populated: nat
    var last: nat
    var threadStop: bool
    var phase: Phase

    function Ctl(): Control
      reads this
    {
      Control(min, start, populated, last)
    }

    ghost predicate PhaseOk()
      requires keyBuf.Length == size
      reads this, keyBuf
    {
      match phase
      case Waiting => true
      case Exited => true
      case Counting(off, pos, blocks) =>
        blocks <= 256 && ChunkFree(Ctl(), size, off, pos) && Partial(keys, keyBuf[..], off, pos, 0, blocks)
      case Encrypting(off, pos, blocks) =>
        blocks <= 256 && ChunkFree(Ctl(), size, off, pos) && Partial(keys, keyBuf[..], off, pos, blocks, 256)
    }

    /** The invariant of the cache. */
    ghost predicate Valid()
      reads this, keyBuf
    {
      && keyBuf.Length == size
      && (size == 0 || (ControlOk(Ctl(), size) && Holds(keys, keyBuf[..], Ctl()) && PhaseOk()))
    }

    constructor (keys: Keys, chunks: nat)
      ensures Valid() && fresh(keyBuf)
      ensures this.keys == keys && size == chunks * CHUNK && Ctl() == Control(0, 0, 0, 0)
      ensures phase == Waiting && !threadStop
    {
      this.keys := keys;
      size := chunks * CHUNK;
      keyBuf := new byte[chunks * CHUNK](_ => 0);
      min, start, populated, last := 0, 0, 0, 0;
      threadStop := false;
      phase := Waiting;
    }

    /** `chiaki_gkcrypt_get_key_stream`: the direct key stream on a hit, on a hit that wraps and on
        a miss alike. `signal` says whether the reader wakes the thread. */
    method GetKeyStream(keyPos: nat, n: nat) returns (out: seq<byte>, signal: bool)
      requires Valid() && keyPos % 16 == 0 && n % 16 == 0
      modifies this`last
      ensures Valid()
      ensures out == Stream(keys, keyPos, n)
      ensures size > 0 ==> Ctl() == Request(old(Ctl()), keyPos + n) && signal == ShouldGenerate(Ctl())
      ensures size == 0 ==> Ctl() == old(Ctl()) && !signal
    {
      if size == 0 {
        out := GenKeyStream(keys, keyPos, n);
        return out, false;
      }
      RequestOk(Ctl(), size, keyPos + n);
      if keyPos + n > last {
        last := keyPos + n;
      }
      assert Ctl() == Request(old(Ctl()), keyPos + n);
      signal := last > min + populated / 2;
      if keyPos < min || keyPos + n >= min + populated {
        out := GenKeyStream(keys, keyPos, n);
      } else {
        out := CopyFromRing(keyPos, n);
      }
    }

    /** `(start + k) % size`. */
    method RingOffset(k: nat) returns (o: nat)
      requires start < size && k <= size
      ensures o == Slot(start, k, size)
    {
      o := (k + start) % size;
      SlotIsMod(start, k, size);
    }

    /** Copy populated positions out of the ring, in two pieces if they wrap. */
    method CopyFromRing(keyPos: nat, n: nat) returns (out: seq<byte>)
      requires Valid() && size > 0 && min <= keyPos && keyPos + n < min + populated
      ensures out == Stream(keys, keyPos, n)
    {
      var offsetInBuf := RingOffset(keyPos - min);
      var end := offsetInBuf + n;
      if end > size {
        var excess := end - size;
        out := keyBuf[offsetInBuf..offsetInBuf + (n - excess)] + keyBuf[..excess];
      } else {
        out := keyBuf[offsetInBuf..offsetInBuf + n];
      }
      CopiedBytes(keys, keyBuf[..], Ctl(), keyPos, n, out);
    }

    /** `chiaki_gkcrypt_decrypt`: xor the buffer in place with the key stream at its position. */
    method Decrypt(keyPos: nat, buf: array<byte>) returns (signal: bool)
      requires Valid() && buf != keyBuf
      modifies this`last, buf
      ensures Valid()
      ensures buf[..] == Crypt(keys, keyPos, old(buf[..]))
    {
      var paddingPre := keyPos % 16;
      var fullSize := (paddingPre + buf.Length + 15) / 16 * 16;
      var keyStream;
      keyStream, signal := GetKeyStream(keyPos - paddingPre, fullSize);
      for i := 0 to buf.Length
        invariant Valid()
        invariant forall j :: 0 <= j < i ==> buf[j] == Xor(old(buf[j]), Direct(keys, keyPos + j))
        invariant forall j :: i <= j < buf.Length ==> buf[j] == old(buf[j])
      {
        assert keyStream[paddingPre + i] == Direct(keys, keyPos - paddingPre + (paddingPre + i));
        buf[i] := Xor(buf[i], keyStream[paddingPre + i]);
      }
    }

    /** The thread holds the mutex and looks for work: it sleeps on, exits, or decides which chunk
        comes next, gives up the mutex and starts to write it. */
    method WakeUp()
      requires Valid() && size > 0 && phase == Waiting
      modifies this
      ensures Valid() && threadStop == old(threadStop)
      ensures threadStop ==> phase == Exited && Ctl() == old(Ctl())
      ensures !threadStop && !HasWork(old(Ctl()), size) ==> phase == Waiting && Ctl() == old(Ctl())
      ensures !threadStop && HasWork(old(Ctl()), size) ==>
                Ctl() == Decide(old(Ctl()), size)
                && phase == Counting(Slot(start, populated, size), min + populated, 0)
    {
      if threadStop {
        phase := Exited;
        return;
      }
      if !(populated < size || last > min + populated / 2) { return; }
      DecideHolds(keys, keyBuf[..], Ctl());
      DecideOk(Ctl(), size);
      ChooseChunk();
      BeginChunk();
    }

    /** Begin to write the chunk behind the populated part. */
    method BeginChunk()
      requires keyBuf.Length == size && ControlOk(Ctl(), size) && Holds(keys, keyBuf[..], Ctl())
      requires populated + CHUNK <= size
      modifies this`phase
      ensures Valid() && phase == Counting(Slot(start, populated, size), min + populated, 0)
    {
      NextChunkFree(Ctl(), size);
      var bufOffset := RingOffset(populated);
      phase := Counting(bufOffset, min + populated, 0);
    }

    /** Skip ahead when the last request is beyond the ring, or drop the oldest chunk of a full one. */
    method ChooseChunk()
      requires CHUNK <= size && start < size && populated <= size
      modifies this`min, this`start, this`populated
      ensures Ctl() == Decide(old(Ctl()), size)
    {
      if last > min + populated {
        min := last / CHUNK * CHUNK;
        start := 0;
        populated := 0;
      } else if populated == size {
        start := RingOffset(CHUNK);
        min := min + CHUNK;
        populated := populated - CHUNK;
      }
    }

    /** The thread writes one more block of its chunk, without the mutex. */
    method WriteBlock()
      requires Valid() && size > 0 && (phase.Counting? || (phase.Encrypting? && phase.blocks < 256))
      modifies this`phase, keyBuf
      ensures Valid()
      ensures phase == match old(phase)
                       case Counting(off, pos, b) =>
                         if b < 256 then Counting(off, pos, b + 1) else Encrypting(off, pos, 0)
                       case Encrypting(off, pos, b) => Encrypting(off, pos, b + 1)
                       case _ => old(phase)
    {
      ghost var before := keyBuf[..];
      match phase
      case Counting(off, pos, blocks) =>
        if blocks < 256 {
          StoreCounter(keys, keyBuf, off, pos, pos / 16 + blocks, blocks);
          WriteKeepsHolds(keys, before, keyBuf[..], Ctl(), off, pos);
          phase := Counting(off, pos, blocks + 1);
        } else {
          phase := Encrypting(off, pos, 0);
        }
      case Encrypting(off, pos, blocks) =>
        EncryptBlock(keys, keyBuf, off, pos, blocks, 256);
        WriteKeepsHolds(keys, before, keyBuf[..], Ctl(), off, pos);
        phase := Encrypting(off, pos, blocks + 1);
    }

    /** Key-stream generation failed: the thread takes the mutex and exits without publishing. */
    method GenerateFailed()
      requires Valid() && size > 0 && (phase.Counting? || phase.Encrypting?)
      modifies this`phase
      ensures Valid() && phase == Exited
    {
      phase := Exited;
    }

    /** The chunk is written: the thread takes the mutex back and publishes it. */
    method PublishChunk()
      requires Valid() && size > 0 && phase.Encrypting? && phase.blocks == 256
      modifies this`phase, this`populated
      ensures Valid() && phase == Waiting && Ctl() == Publish(old(Ctl()))
    {
      PublishHolds(keys, keyBuf[..], Ctl(), phase.off, phase.pos);
      PublishOk(Ctl(), size);
      populated := populated + CHUNK;
      phase := Waiting;
    }

    /** A whole turn with nobody else at work, told on the fields alone: asleep the thread changes nothing;
        a request beyond the cached range is in the range afterwards; otherwise the range grows by a chunk
        and loses its oldest one only if the ring was full. */
    method Turn()
      requires Valid() && size > 0 && phase == Waiting && !threadStop
      modifies this, keyBuf
      ensures Valid() && phase == Waiting && !threadStop && last == old(last)
      ensures
        var asleep := old(populated) == size && old(last) <= old(min) + size / 2;
        if asleep then min == old(min) && populated == old(populated)
        else if last > old(min) + old(populated) then
          min <= last < min + populated && populated == 4096 && min % 4096 == 0 && min >= old(min) + old(populated)
        else
          && min + populated == old(min) + old(populated) + 4096
          && min == if old(populated) == size then old(min) + 4096 else old(min)
    {
      if HasWork(Ctl(), size) { TurnExact(Ctl(), size, 0); }
      WakeUp();
      if phase != Waiting {
        WriteChunk();
        PublishChunk();
      }
    }

    /** Write the chunk to its end. */
    method WriteChunk()
      requires Valid() && size > 0 && phase.Counting? && phase.blocks == 0
      modifies this`phase, keyBuf
      ensures Valid() && phase.Encrypting? && phase.blocks == 256
    {
      while phase != Encrypting(phase.off, phase.pos, 256)
        invariant Valid()
        invariant phase.Counting? || phase.Encrypting?
        invariant phase.blocks <= 256
        decreases phase.Counting?, 256 - phase.blocks
      {
        WriteBlock();
      }
    }

    /** `chiaki_gkcrypt_fini` tells the thread to stop. */
    method RequestStop()
      requires Valid()
      modifies this`threadStop
      ensures Valid() && threadStop
    {
      threadStop := true;
    }

    /** Run any schedule of steps, skipping those that are not enabled. Whatever the interleaving,
        every read returns the direct key stream, and the oldest cached position never goes back. */
    method Run(schedule: seq<Step>) returns (answers: seq<seq<byte>>)
      requires Valid() && size > 0
      requires forall i :: 0 <= i < |schedule| && schedule[i].Read? ==>
        schedule[i].pos % 16 == 0 && schedule[i].n % 16 == 0
      modifies this, keyBuf
      ensures Valid() && min >= old(min)
      ensures answers == DirectAnswers(keys, schedule)
    {
      answers := [];
      for i := 0 to |schedule|
        invariant Valid() && min >= old(min)
        invariant answers == DirectAnswers(keys, schedule[..i])
      {
        assert schedule[..i + 1][..i] == schedule[..i];
        match schedule[i]
        case Read(pos, n) =>
          var out, signal := GetKeyStream(pos, n);
          answers := answers + [out];
        case Wake =>
          if phase == Waiting {
            if HasWork(Ctl(), size) { DecideOk(Ctl(), size); }
            WakeUp();
          }
        case Work =>
          if phase.Counting? || (phase.Encrypting? && phase.blocks < 256) { WriteBlock(); }
        case Fail =>
          if phase.Counting? || phase.Encrypting? { GenerateFailed(); }
        case Done =>
          if phase.Encrypting? && phase.blocks == 256 { PublishChunk(); }
        case Stop => RequestStop();
      }
      assert schedule[..|schedule|] == schedule;
    }
  }

  /** What the reads of a schedule return when each generates its key stream directly. */
  function DirectAnswers(keys: Keys, schedule: seq<Step>): seq<seq<byte>> {
    if schedule == [] then []
    else
      var s := schedule[|schedule| - 1];
      DirectAnswers(keys, schedule[..|schedule| - 1]) + if s.Read? then [Stream(keys, s.pos, s.n)] else []
  }
}
