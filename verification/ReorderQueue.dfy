/** The reorder queue of lib/src/reorderqueue.c: a ring of 2^size_exp slots indexed by the low bits
    of wrapping sequence numbers. `set` flags outside the window are stale and are cleared only when
    the window grows over their slot again. */
module ReorderQueue {
  import opened Modular
  import opened SeqNum
  import opened ReorderSpec
  import opened Wrappers

  datatype Entry<T> = Entry(user: T, isSet: bool)

  /** `seq_num_16_add` adds two promoted integers and never cuts the sum back to 16 bits;
      `seq_num_32_add` wraps. */
  function Add(w: Width, a: nat, b: nat): nat {
    var sum := w.Wrap(a) + w.Wrap(b);
    if w.W16? then sum else w.Wrap(sum)
  }

  /** The function pointers a queue is initialised with. `wrap` gives the number that the low bits
      of an unbounded number stand for. */
  datatype Arith = Arith(lt: (nat, nat) -> bool, gt: (nat, nat) -> bool, add: (nat, nat) -> nat,
                         wrap: int -> nat, half: nat)

  function ArithOf(w: Width): Arith {
    Arith((a: nat, b: nat) => Lt(w, a, b), (a: nat, b: nat) => Gt(w, a, b), (a: nat, b: nat) => Add(w, a, b),
          x => w.Wrap(x), w.Half())
  }

  /** What the queue needs to know about the stored numbers `a`, `b` that stand for `x`, `y`. */
  ghost predicate OrdersLike(ar: Arith, a: nat, b: nat, x: int, y: int) {
    ar.wrap(a) == ar.wrap(x) && ar.wrap(b) == ar.wrap(y) && x - y < ar.half && y - x < ar.half ==>
      && (ar.lt(a, b) <==> x < y)
      && (ar.gt(a, b) <==> x > y)
      && (ar.wrap(a) == ar.wrap(b) <==> x == y)
  }

  ghost predicate AddsLike(ar: Arith, a: nat, b: nat, x: int) {
    ar.wrap(a) == ar.wrap(x) && b < ar.half ==> ar.wrap(ar.add(a, b)) == ar.wrap(x + b)
  }

  ghost predicate SlotsLike(ar: Arith, size: nat, a: nat, n: nat)
    requires size > 0
  {
    ar.wrap(a) == ar.wrap(n) ==> Pos(a, size) == Pos(n, size)
  }

  /** A stored number is canonical when it is its own low bits. */
  predicate Canonical(ar: Arith, a: nat) { ar.wrap(a) == a }

  ghost predicate WrapsOnce(ar: Arith, x: int) { Canonical(ar, ar.wrap(x)) }

  /** Adding looks only at the low bits. */
  ghost predicate AddCuts(ar: Arith, a: nat, b: nat) { ar.add(a, b) == ar.add(ar.wrap(a), b) }

  /** How the start of the window is stored: as its low bits, or, when it was moved there by one, as
      the low bits of the number before it plus one. */
  function Stored(ar: Arith, begin: int, moved: bool): nat {
    if moved then ar.add(ar.wrap(begin - 1), 1) else ar.wrap(begin)
  }

  ghost predicate SumCanonical(ar: Arith, a: nat, b: nat) { Canonical(ar, ar.add(a, b)) }

  /** Every sum is its own low bits: true of 32-bit numbers, not of 16-bit ones. */
  ghost predicate SumsCanonical(ar: Arith) { forall a, b :: SumCanonical(ar, a, b) }

  lemma SumsCanonical32()
    ensures SumsCanonical(ArithOf(W32))
  {
    forall a: nat, b: nat ensures SumCanonical(ArithOf(W32), a, b) {
      var ar := ArithOf(W32);
      assert ar.add(a, b) == W32.Wrap(W32.Wrap(a) + W32.Wrap(b));
      WrapTwice(W32, W32.Wrap(a) + W32.Wrap(b));
    }
  }

  ghost predicate Lawful(ar: Arith, size: nat) {
    && 0 < size <= ar.half / 2
    && (forall a, b, x, y :: OrdersLike(ar, a, b, x, y))
    && (forall a, b, x :: AddsLike(ar, a, b, x))
    && (forall a, n :: SlotsLike(ar, size, a, n))
    && (forall a, b :: AddCuts(ar, a, b))
    && (forall x :: WrapsOnce(ar, x))
  }

  /** Both number types meet these laws for every ring of at most a quarter of the range. */
  lemma ArithLawful(w: Width, e: nat)
    requires e <= MaxExp(w)
    ensures Lawful(ArithOf(w), Pow2(e))
  {
    var ar := ArithOf(w);
    SizeDivides(w, e);
    forall a: nat, b: nat, x: int, y: int ensures OrdersLike(ar, a, b, x, y) {
      if w.Wrap(a) == w.Wrap(x) && w.Wrap(b) == w.Wrap(y) && x - y < w.Half() && y - x < w.Half() {
        SerialOrder(w, a, b, x, y);
      }
    }
    forall a: nat, b: nat, x: int ensures AddsLike(ar, a, b, x) {
      if w.Wrap(a) == w.Wrap(x) && b < w.Half() { AddCongruent(w, a, b, x); }
    }
    forall a: nat, n: nat ensures SlotsLike(ar, Pow2(e), a, n) {
      if w.Wrap(a) == w.Wrap(n) { SameSlot(w, e, a, n); }
    }
    forall a: nat, b: nat ensures AddCuts(ar, a, b) {
      WrapTwice(w, a);
    }
    forall x: int ensures WrapsOnce(ar, x) {
      assert ar.wrap(x) == w.Wrap(x);
      WrapSmall(w, w.Wrap(x));
    }
  }

  lemma AddCongruent(w: Width, a: nat, b: nat, x: int)
    requires w.Wrap(a) == w.Wrap(x) && b < w.Half()
    ensures w.Wrap(Add(w, a, b)) == w.Wrap(x + b)
  {
    var m := w.Mod();
    assert w.Wrap(a) == a % m && w.Wrap(x) == x % m && w.Wrap(x + b) == (x + b) % m;
    WrapSmall(w, b);
    ModAdd(x, b, m);
    WrapTwice(w, x % m + b);
  }

  lemma WrapTwice(w: Width, a: nat)
    ensures w.Wrap(w.Wrap(a)) == w.Wrap(a)
  {
  }

  /** The pushes that a queue misreads: the number is the first of a non-empty window whose begin
      is not stored as its low bits, or it is the number right after the window and the end of the
      window is not computed as its low bits. */
  predicate Misread(ar: Arith, begin: nat, count: nat, offset: int) {
    || (offset == 0 && count > 0 && !Canonical(ar, begin))
    || (offset == count && !Canonical(ar, ar.add(begin, count)))
  }

  /** When a second element with the first number of the window takes the place of the first element:
      when that number is misread and the assertions that would stop the program are compiled out. */
  function RuleOf(ar: Arith, asserts: bool): Rule {
    (begin: int, moved: bool) => !asserts && !Canonical(ar, Stored(ar, begin, moved))
  }

  /** For 16-bit numbers: just when the start was moved by one to 0 modulo 2^16. */
  lemma RuleAtWrap(start: nat, moved: bool, asserts: bool)
    ensures RuleOf(ArithOf(W16), asserts)(start, moved) <==> !asserts && moved && start % 0x10000 == 0
  {
    StoredAtWrap(start, moved);
  }

  /** A 16-bit queue whose stored begin is `Stored` misreads numbers just at the wrap. When its start
      is 0 modulo 2^16 and was moved there, this is the start itself while something waits behind it;
      otherwise it is the number right after the window when the window ends at 2^16 or beyond. */
  lemma MisreadAtWrap(start: nat, moved: bool, count: nat, n: int)
    requires count <= W16.Half() / 2
    ensures Misread(ArithOf(W16), Stored(ArithOf(W16), start, moved), count, n - start) <==>
      if moved && start % 0x10000 == 0 then n == start && count > 0
      else n == start + count && start % 0x10000 + count >= 0x10000
  {
    StoredAtWrap(start, moved);
    WrapSmall(W16, count);
  }

  lemma StoredAtWrap(start: nat, moved: bool)
    ensures Stored(ArithOf(W16), start, moved)
         == if moved && start % 0x10000 == 0 then 0x10000 else start % 0x10000
  {
    var before := W16.Wrap(start - 1);
    assert before == if start % 0x10000 == 0 then 0xffff else start % 0x10000 - 1;
    WrapSmall(W16, before);
  }

  function MaxExp(w: Width): nat { if w.W16? then 14 else 30 }

  lemma SizeDivides(w: Width, e: nat)
    requires e <= MaxExp(w)
    ensures w.Mod() % Pow2(e) == 0 && Pow2(e) <= w.Half() / 2
  {
    var m, k := Pow2(e), Pow2(MaxExp(w) - e);
    Pow2Values();
    Pow2Split(e, MaxExp(w) - e);
    MulAtLeast(m, k);
    ModOfMultiple(m, 4 * k);
    Halves(m, k);
  }

  lemma Halves(m: int, k: int)
    ensures m * (4 * k) == 4 * (m * k)
  {
  }

  lemma Pow2Values()
    ensures Pow2(14) == 0x4000 && Pow2(30) == 0x4000_0000
  {
    assert Pow2(4) == 16 && Pow2(8) == 256 && Pow2(12) == 4096;
    assert Pow2(14) == 0x4000 && Pow2(18) == 0x4_0000 && Pow2(22) == 0x40_0000;
    assert Pow2(26) == 0x400_0000;
  }

  lemma {:induction false} Pow2Split(a: nat, b: nat)
    ensures Pow2(a + b) == Pow2(a) * Pow2(b)
  {
    if a > 0 {
      Pow2Split(a - 1, b);
      Double(Pow2(a - 1), Pow2(b));
      assert a + b - 1 == a - 1 + b;
    }
  }

  lemma Double(x: int, y: int)
    ensures (2 * x) * y == 2 * (x * y)
  {
  }

  /** Masking with size - 1 gives the same slot for a number and for its wrapped form. */
  lemma SameSlot(w: Width, sizeExp: nat, a: nat, n: nat)
    requires sizeExp <= MaxExp(w) && w.Wrap(a) == w.Wrap(n)
    ensures Pos(a, Pow2(sizeExp)) == Pos(n, Pow2(sizeExp))
  {
    SizeDivides(w, sizeExp);
    ModOfCongruent(a, n, Pow2(sizeExp), w.Mod());
    PosIsMod(a, Pow2(sizeExp));
    PosIsMod(n, Pow2(sizeExp));
  }

  /** The ring shows `window` when the slot of number `begin + i` agrees with `window[i]`. */
  ghost predicate Shows<T>(ring: seq<Entry<T>>, begin: nat, window: seq<Option<T>>)
    requires |ring| > 0
  {
    forall i :: 0 <= i < |window| ==> Agrees(ring[Pos(begin + i, |ring|)], window[i])
  }

  ghost predicate Agrees<T>(e: Entry<T>, o: Option<T>) {
    e.isSet == o.Some? && (o.Some? ==> e.user == o.value)
  }

  lemma ShowsUpdate<T>(ring: seq<Entry<T>>, begin: nat, window: seq<Option<T>>, i: nat, e: Entry<T>, o: Option<T>)
    requires |ring| > 0 && Shows(ring, begin, window) && i < |window| <= |ring| && Agrees(e, o)
    ensures Shows(ring[Pos(begin + i, |ring|) := e], begin, window[i := o])
  {
    forall k {:trigger window[k]} | 0 <= k < |window|
      ensures Agrees(ring[Pos(begin + i, |ring|) := e][Pos(begin + k, |ring|)], window[i := o][k])
    {
      if k < i {
        PosDiffer(begin + k, begin + i, |ring|);
      } else if i < k {
        PosDiffer(begin + i, begin + k, |ring|);
      }
    }
  }

  lemma ShowsGrow<T>(ring: seq<Entry<T>>, begin: nat, window: seq<Option<T>>, e: Entry<T>)
    requires |ring| > 0 && Shows(ring, begin, window) && |window| < |ring| && !e.isSet
    ensures Shows(ring[Pos(begin + |window|, |ring|) := e], begin, window + [None])
  {
    forall k | 0 <= k < |window| + 1
      ensures Agrees(ring[Pos(begin + |window|, |ring|) := e][Pos(begin + k, |ring|)], (window + [None])[k])
    {
      if k < |window| { PosDiffer(begin + k, begin + |window|, |ring|); }
    }
  }

  lemma ShowsTail<T>(ring: seq<Entry<T>>, begin: nat, window: seq<Option<T>>)
    requires |ring| > 0 && Shows(ring, begin, window) && window != []
    ensures Shows(ring, begin + 1, window[1..])
  {
    forall i | 0 <= i < |window[1..]| ensures Agrees(ring[Pos(begin + 1 + i, |ring|)], window[1..][i]) {
      assert Agrees(ring[Pos(begin + (i + 1), |ring|)], window[i + 1]);
    }
  }

  class Queue<T(0)> {
    const ar: Arith
    const size: nat
    /** Whether assertions are compiled in. */
    const asserts: bool
    const queue: array<Entry<T>>
    var begin: nat
    var count: nat
    var strategy: Strategy
    var dropCb: bool

    /** The window of unbounded numbers that the ring holds. */
    ghost var q: State<T>
    /** Whether the start of the window has last been moved by one number at a time. */
    ghost var moved: bool
    /** Every call of the drop callback, with the unbounded number. */
    ghost var drops: seq<Item<T>>

    ghost predicate Valid()
      reads this, queue
    {
      && queue.Length == size && Lawful(ar, size)
      && q.begin >= 0 && ar.wrap(begin) == ar.wrap(q.begin)
      && begin == Stored(ar, q.begin, moved)
      && count == |q.window| <= size
      && Shows(queue[..], q.begin, q.window)
    }

    constructor (width: Width, sizeExp: nat, seqNumStart: nat, asserts: bool)
      requires sizeExp <= MaxExp(width) && seqNumStart < width.Mod()
      ensures Valid() && fresh(queue)
      ensures ar == ArithOf(width) && size == Pow2(sizeExp) && strategy == DropEnd && !dropCb
      ensures this.asserts == asserts
      ensures begin == seqNumStart && q == State(seqNumStart, []) && !moved && drops == []
    {
      ArithLawful(width, sizeExp);
      ar := ArithOf(width);
      size := Pow2(sizeExp);
      this.asserts := asserts;
      queue := new Entry<T>[Pow2(sizeExp)];
      begin := seqNumStart;
      count := 0;
      strategy := DropEnd;
      dropCb := false;
      q := State(seqNumStart, []);
      moved := false;
      drops := [];
      WrapSmall(width, seqNumStart);
    }

    method SetDropStrategy(s: Strategy)
      modifies this`strategy
      ensures strategy == s
    {
      strategy := s;
    }

    method SetDropCb()
      modifies this`dropCb
      ensures dropCb
    {
      dropCb := true;
    }

    /** The low bits of the number, its position in a ring of a power-of-two size. */
    function Idx(seqNum: nat): nat
      requires size > 0
    {
      Pos(seqNum, size)
    }

    /** The user's drop callback; the number it receives is the wrapped form of `n`. */
    method DropCallback(seqNum: nat, user: T, ghost n: int)
      requires ar.wrap(seqNum) == ar.wrap(n)
      modifies this`drops
      ensures drops == old(drops) + [Item(n, user)]
    {
      drops := drops + [Item(n, user)];
    }

    method Report(seqNum: nat, user: T, ghost n: int)
      requires ar.wrap(seqNum) == ar.wrap(n)
      modifies this`drops
      ensures drops == if dropCb then old(drops) + [Item(n, user)] else old(drops)
    {
      if dropCb { DropCallback(seqNum, user, n); }
    }

    /** A second element with the first number of the window would take the place of the first. */
    ghost predicate Overwriting(n: int)
      reads this
    {
      CanPull(q) && n == q.begin && RuleOf(ar, asserts)(q.begin, moved)
    }

    /** Push the number `n`, given as its low bits `seqNum`. The number lies less than half the
        range from the start of the window. `ok` is false when the assertion that the number is at
        or after the window's end is compiled in and fails: exactly for the misread 16-bit numbers.
        Without it the push does what it should, unless it overwrites the first element. */
    method Push(seqNum: nat, user: T, ghost n: int) returns (ok: bool)
      requires Valid()
      requires seqNum == ar.wrap(n)
      requires n - q.begin < ar.half && q.begin - n < ar.half
      modifies this`begin, this`count, this`q, this`moved, this`drops, queue
      ensures Valid()
      ensures ok <==> !(asserts && Misread(ar, old(begin), old(count), n - old(q.begin)))
      ensures SumsCanonical(ar) ==> ok
      ensures !ok ==> q == old(q) && moved == old(moved) && drops == old(drops)
      ensures ok && old(Overwriting(n)) ==> q == Overwrite(old(q), user) && moved == old(moved) && drops == old(drops)
      ensures ok && !old(Overwriting(n)) ==> Pushed(old(q), old(moved), old(drops), n, user)
      ensures !dropCb ==> drops == old(drops)
    {
      ghost var off := n - q.begin;
      if SumsCanonical(ar) { CanonicalSums(); }
      var end := ar.add(begin, count);
      EndCongruent();
      CompareBegin(seqNum, n);
      if off >= 0 {
        CompareEnd(seqNum, n, end);
        Slots(seqNum, n);
      }

      if Ge(seqNum, begin) && ar.lt(seqNum, end) {
        var entry := queue[Idx(seqNum)];
        assert Agrees(queue[..][Pos(q.begin + off, size)], q.window[off]);
        if entry.isSet {
          Report(seqNum, user, n);
          return true;
        }
        Fill(seqNum, user, n);
        return true;
      }
      if ar.lt(seqNum, begin) {
        Report(seqNum, user, n);
        return true;
      }
      if asserts && !Ge(seqNum, end) {
        return false;
      }
      PushAhead(seqNum, user, n, end);
      ok := true;
    }

    /** The model's push of number `n` from the state `q0` has been done. */
    ghost predicate Pushed(q0: State<T>, moved0: bool, drops0: seq<Item<T>>, n: int, user: T)
      requires size > 0 && |q0.window| <= size
      reads this
    {
      && moved == MovedByPush(q0, size, strategy, n, moved0)
      && q == ReorderSpec.Push(q0, size, strategy, n, user).0
      && drops == if dropCb then drops0 + ReorderSpec.Push(q0, size, strategy, n, user).1 else drops0
    }

    /** Push a number that was not found inside the window: make room for it or reject it. It lies at
        or after the end of the window, or is the misread first number. */
    method PushAhead(seqNum: nat, user: T, ghost n: int, end: nat)
      requires Valid() && seqNum == ar.wrap(n) == ar.wrap(seqNum) && end == ar.add(begin, count)
      requires (q.End() <= n || n == q.begin) && n - q.begin < ar.half
      modifies this`begin, this`count, this`q, this`moved, this`drops, queue
      ensures Valid()
      ensures n < old(q.End()) ==>
                && q == old(q).(window := old(q).window[0 := Some(user)]) && moved == old(moved)
                && drops == old(drops)
      ensures n >= old(q.End()) ==> Pushed(old(q), old(moved), old(drops), n, user)
    {
      EndCongruent();
      var newEnd := ar.add(seqNum, 1);
      Adds(seqNum, 1, n);
      var totalEnd := ar.add(end, size - count);
      TotalEnd(end, newEnd, n);
      if ar.lt(totalEnd, newEnd) {
        if strategy == DropEnd {
          Report(seqNum, user, n);
          return;
        }
        DropFirst(seqNum, n, end, newEnd);
      }
      Append(seqNum, user, n, newEnd);
    }

    /** Extend the window to a number, if it lies behind its end, and store the element there. */
    method Append(seqNum: nat, user: T, ghost n: int, newEnd: nat)
      requires Valid() && ar.wrap(seqNum) == ar.wrap(n) && ar.wrap(newEnd) == ar.wrap(n + 1)
      requires q.begin <= n && n + 1 <= q.begin + size
      modifies this`count, this`q, queue
      ensures Valid()
      ensures q == if old(q.End()) <= n then Extend(old(q), n, user)
                   else old(q).(window := old(q).window[n - old(q.begin) := Some(user)])
    {
      MoveEnd(n, newEnd);
      Fill(seqNum, user, n);
    }

    /** Store an element in the slot of a number inside the window. */
    method Fill(seqNum: nat, user: T, ghost n: int)
      requires Valid() && ar.wrap(seqNum) == ar.wrap(n) && q.begin <= n < q.End()
      modifies this`q, queue
      ensures Valid()
      ensures q == old(q).(window := old(q).window[n - old(q).begin := Some(user)])
    {
      Slots(seqNum, n);
      assert q.begin + (n - q.begin) == n;
      ShowsUpdate(queue[..], q.begin, q.window, n - q.begin, Entry(user, true), Some(user));
      queue[Idx(seqNum)] := Entry(user, true);
      q := q.(window := q.window[n - q.begin := Some(user)]);
    }

    /** The first `k` slots of `q0` have been given up, and the elements in them reported. */
    ghost predicate GaveUp(q0: State<T>, k: nat, drops0: seq<Item<T>>)
      requires k <= |q0.window|
      reads this
    {
      && q == State(q0.begin + k, q0.window[k..])
      && drops == if dropCb then drops0 + Held(q0.begin, q0.window[..k]) else drops0
    }

    /** Give up the first slot of the window, reporting the element it holds. */
    method DropOne(ghost q0: State<T>, ghost k: nat, ghost drops0: seq<Item<T>>)
      requires Valid() && count > 0 && k < |q0.window| && GaveUp(q0, k, drops0)
      modifies this`begin, this`count, this`q, this`moved, this`drops
      ensures Valid() && GaveUp(q0, k + 1, drops0) && moved
      ensures count == old(count) - 1
    {
      var entry := queue[Idx(begin)];
      Slots(begin, q.begin);
      assert Agrees(queue[..][Pos(q.begin + 0, size)], q.window[0]);
      HeldNext(q0.begin, q0.window, k);
      if entry.isSet && dropCb {
        DropCallback(begin, entry.user, q.begin);
      }
      MoveBegin();
      assert q0.window[k..][1..] == q0.window[k + 1..];
    }

    /** Move the start of the window by one. */
    method MoveBegin()
      requires Valid() && count > 0
      modifies this`begin, this`count, this`q, this`moved
      ensures Valid() && moved && q == State(old(q).begin + 1, old(q).window[1..])
    {
      Adds(begin, 1, q.begin);
      Cuts(begin, 1);
      begin, moved := ar.add(begin, 1), true;
      count := count - 1;
      ShowsTail(queue[..], q.begin, q.window);
      q := State(q.begin + 1, q.window[1..]);
    }

    /** Drop from the front until the new number fits or nothing is left. */
    method DropFirst(seqNum: nat, ghost n: int, end: nat, newEnd: nat)
      requires Valid()
      requires seqNum == ar.wrap(n)
      requires q.begin + size < n + 1 && n - q.begin < ar.half
      requires ar.wrap(end) == ar.wrap(q.End())
      requires ar.wrap(newEnd) == ar.wrap(n + 1)
      modifies this`begin, this`count, this`q, this`moved, this`drops
      ensures Valid()
      ensures q == MakeRoom(old(q), size, n) && moved == (Overrun(old(q), size, n) != |old(q).window|)
      ensures drops
           == if dropCb then old(drops) + Held(old(q.begin), old(q.window)[..Overrun(old(q), size, n)]) else old(drops)
    {
      ghost var q0, drops0 := q, drops;
      ghost var k := DropOverrun(n, end, newEnd);
      assert GaveUp(q0, k, drops0) && k == Overrun(q0, size, n);
      if count == 0 {
        assert WrapsOnce(ar, n);
        begin, moved := seqNum, false;
        q := State(n, []);
      }
    }

    /** The loop: drop while something is left and the new number does not fit. */
    method DropOverrun(ghost n: int, end: nat, newEnd: nat) returns (ghost k: nat)
      requires Valid() && q.begin + size < n + 1 && n - q.begin < ar.half
      requires ar.wrap(end) == ar.wrap(q.End()) && ar.wrap(newEnd) == ar.wrap(n + 1)
      modifies this`begin, this`count, this`q, this`moved, this`drops
      ensures Valid() && k == Overrun(old(q), size, n) && GaveUp(old(q), k, old(drops)) && (k > 0 ==> moved)
    {
      ghost var q0 := q;
      k := 0;
      var totalEnd := ar.add(end, size - count);
      TotalEnd(end, newEnd, n);
      while count > 0 && ar.lt(totalEnd, newEnd)
        invariant Valid()
        invariant k <= |q0.window| && GaveUp(q0, k, old(drops)) && (k > 0 ==> moved)
        invariant k <= n + 1 - size - q0.begin
        invariant ar.lt(totalEnd, newEnd) <==> q0.begin + k + size < n + 1
        decreases count
      {
        DropOne(q0, k, old(drops));
        k := k + 1;
        totalEnd := ar.add(end, size - count);
        TotalEnd(end, newEnd, n);
      }
    }

    /** Grow the window by one slot and clear it. */
    method EnterSlot(end: nat)
      requires Valid() && count < size && ar.wrap(end) == ar.wrap(q.End())
      modifies this`count, this`q, queue
      ensures Valid() && q == State(old(q.begin), old(q.window) + [None])
    {
      Slots(end, q.End());
      ShowsGrow(queue[..], q.begin, q.window, queue[Idx(end)].(isSet := false));
      count := count + 1;
      queue[Idx(end)] := queue[Idx(end)].(isSet := false);
      q := State(q.begin, q.window + [None]);
    }

    /** Grow the window to end after number `n`, if it does not yet, clearing every slot it enters. */
    method MoveEnd(ghost n: int, newEnd: nat)
      requires Valid()
      requires q.begin <= n && n + 1 <= q.begin + size
      requires ar.wrap(newEnd) == ar.wrap(n + 1)
      modifies this`count, this`q, queue
      ensures Valid()
      ensures q == if old(q.End()) <= n then State(old(q.begin), old(q.window) + Gap(n + 1 - old(q.End()))) else old(q)
    {
      ghost var w := q.window;
      var end := ar.add(begin, count);
      EndCongruent();
      Orders(end, newEnd, q.End(), n + 1);
      while ar.lt(end, newEnd)
        invariant Valid()
        invariant |w| <= count && q == State(old(q.begin), w + Gap(count - |w|))
        invariant q.End() <= n + 1 || q == old(q)
        invariant ar.wrap(end) == ar.wrap(q.End())
        invariant ar.lt(end, newEnd) <==> q.End() < n + 1
        decreases n + 1 - q.End()
      {
        EnterSlot(end);
        assert w + Gap(count - |w|) == w + Gap(count - 1 - |w|) + [None];
        end := ar.add(begin, count);
        EndCongruent();
        Orders(end, newEnd, q.End(), n + 1);
      }
    }

    /** Deliver the next number if it has arrived. */
    method Pull() returns (pulled: bool, seqNum: nat, user: T)
      requires Valid()
      modifies this`begin, this`count, this`q, this`moved
      ensures Valid()
      ensures pulled <==> CanPull(old(q))
      ensures moved == (old(moved) || pulled)
      ensures pulled ==>
                && q == ReorderSpec.Pull(old(q)).0
                && user == ReorderSpec.Pull(old(q)).1.user
                && ar.wrap(seqNum) == ar.wrap(ReorderSpec.Pull(old(q)).1.num)
                && seqNum == old(begin)
      ensures !pulled ==> q == old(q)
    {
      seqNum, user := 0, *;
      if count == 0 { return false, seqNum, user; }
      Slots(begin, q.begin);
      assert Agrees(queue[..][Pos(q.begin + 0, size)], q.window[0]);
      var entry := queue[Idx(begin)];
      if !entry.isSet { return false, seqNum, user; }
      seqNum, user := begin, entry.user;
      MoveBegin();
      pulled := true;
    }

    /** Deliver everything that is ready, as the receiver does after each push. */
    method PullAll() returns (out: seq<(nat, T)>)
      requires Valid()
      modifies this`begin, this`count, this`q, this`moved
      ensures Valid()
      ensures q == Dry(old(q)).0 && moved == (old(moved) || Dry(old(q)).1 != [])
      ensures Delivers(out, Dry(old(q)).1)
    {
      out := [];
      ghost var done: seq<Item<T>> := [];
      var more, seqNum, user := true, 0, *;
      while more
        invariant Valid()
        invariant Delivers(out, done)
        invariant Dry(old(q)).0 == Dry(q).0 && Dry(old(q)).1 == done + Dry(q).1
        invariant !more ==> !CanPull(q)
        invariant moved == (old(moved) || done != [])
        decreases if more then |q.window| + 1 else 0
      {
        ghost var before := q;
        more, seqNum, user := Pull();
        if more {
          DryNext(before, done);
          out, done := out + [(seqNum, user)], done + [ReorderSpec.Pull(before).1];
        }
      }
      assert done + [] == done;
    }

    /** The delivered pairs carry the low bits and the elements of `items`. */
    ghost predicate Delivers(out: seq<(nat, T)>, items: seq<Item<T>>) {
      |out| == |items|
      && forall i :: 0 <= i < |out| ==> ar.wrap(out[i].0) == ar.wrap(items[i].num) && out[i].1 == items[i].user
    }

    /** Look at the element `index` places after the start of the window. */
    method Peek(index: nat) returns (peeked: bool, seqNum: nat, user: T)
      requires Valid()
      ensures peeked <==> DropFires(q, index)
      ensures peeked ==> user == q.window[index].value && ar.wrap(seqNum) == ar.wrap(q.begin + index)
    {
      seqNum, user := 0, *;
      if index >= count { return false, seqNum, user; }
      var s := ar.add(begin, index);
      Adds(begin, index, q.begin);
      Slots(s, q.begin + index);
      assert Agrees(queue[..][Pos(q.begin + index, size)], q.window[index]);
      var entry := queue[Idx(s)];
      if !entry.isSet { return false, seqNum, user; }
      return true, s, entry.user;
    }

    /** Drop the element at `index`: it is reported and its slot stays set. The loop that trims the
        window runs only while the slot is clear, so it never runs and the queue is as before. */
    method Drop(index: nat)
      requires Valid()
      modifies this`count, this`drops
      ensures Valid() && count == old(count)
      ensures drops == if dropCb && DropFires(q, index)
                       then old(drops) + [Item(q.begin + index, q.window[index].value)] else old(drops)
    {
      if index >= count { return; }
      var s := ar.add(begin, index);
      Adds(begin, index, q.begin);
      Slots(s, q.begin + index);
      assert Agrees(queue[..][Pos(q.begin + index, size)], q.window[index]);
      var entry := queue[Idx(s)];
      if !entry.isSet { return; }
      Report(s, entry.user, q.begin + index);
    }

    /** Report everything still held, lowest number first. */
    method Fini()
      requires Valid()
      modifies this`drops
      ensures drops == if dropCb then old(drops) + Held(q.begin, q.window) else old(drops)
    {
      if dropCb {
        var i := 0;
        while i < count
          invariant i <= count
          invariant drops == old(drops) + Held(q.begin, q.window[..i])
        {
          var s := ar.add(begin, i);
          Adds(begin, i, q.begin);
          Slots(s, q.begin + i);
          assert Agrees(queue[..][Pos(q.begin + i, size)], q.window[i]);
          var entry := queue[Idx(s)];
          HeldNext(q.begin, q.window, i);
          if entry.isSet {
            DropCallback(s, entry.user, q.begin + i);
          }
          i := i + 1;
        }
        assert q.window[..count] == q.window;
      }
    }

    /** Equality is on the stored 64-bit values, the order on the low bits. */
    predicate Ge(a: nat, b: nat) { a == b || ar.gt(a, b) }

    lemma Orders(a: nat, b: nat, x: int, y: int)
      requires Lawful(ar, size)
      ensures OrdersLike(ar, a, b, x, y)
    {
    }

    lemma Adds(a: nat, b: nat, x: int)
      requires Lawful(ar, size)
      ensures AddsLike(ar, a, b, x)
    {
    }

    lemma Cuts(a: nat, b: nat)
      requires Lawful(ar, size)
      ensures AddCuts(ar, a, b)
    {
    }

    /** Where sums are canonical, so are both ends of the window. */
    lemma CanonicalSums()
      requires Valid() && SumsCanonical(ar)
      ensures Canonical(ar, begin) && Canonical(ar, ar.add(begin, count))
    {
      assert SumCanonical(ar, ar.wrap(q.begin - 1), 1) && SumCanonical(ar, begin, count);
      assert WrapsOnce(ar, q.begin);
    }

    lemma Slots(a: nat, n: nat)
      requires Lawful(ar, size)
      ensures SlotsLike(ar, size, a, n)
    {
    }

    lemma EndCongruent()
      requires Valid()
      ensures ar.wrap(ar.add(begin, count)) == ar.wrap(q.End())
    {
      Adds(begin, count, q.begin);
    }

    /** Whether number `n` needs more room than the ring has left. */
    lemma TotalEnd(end: nat, newEnd: nat, n: int)
      requires Valid() && ar.wrap(end) == ar.wrap(q.End()) && ar.wrap(newEnd) == ar.wrap(n + 1)
      requires n - q.begin < ar.half && q.begin + size < n + 1 + ar.half
      ensures ar.lt(ar.add(end, size - count), newEnd) <==> q.begin + size < n + 1
    {
      Adds(end, size - count, q.End());
      Orders(ar.add(end, size - count), newEnd, q.begin + size, n + 1);
    }

    /** How a pushed number compares with the start of the window. */
    lemma CompareBegin(seqNum: nat, n: int)
      requires Valid() && seqNum == ar.wrap(n)
      requires n - q.begin < ar.half && q.begin - n < ar.half
      ensures ar.wrap(seqNum) == seqNum
      ensures ar.lt(seqNum, begin) <==> n < q.begin
      ensures Ge(seqNum, begin) <==> n > q.begin || (n == q.begin && Canonical(ar, begin))
    {
      assert WrapsOnce(ar, n);
      Orders(seqNum, begin, n, q.begin);
    }

    /** How a pushed number at or after the start compares with the end of the window. */
    lemma CompareEnd(seqNum: nat, n: int, end: nat)
      requires Valid() && seqNum == ar.wrap(n)
      requires 0 <= n - q.begin < ar.half && end == ar.add(begin, count)
      ensures ar.lt(seqNum, end) <==> n < q.End()
      ensures Ge(seqNum, end) <==> n > q.End() || (n == q.End() && Canonical(ar, end))
    {
      assert WrapsOnce(ar, n);
      EndCongruent();
      Orders(seqNum, end, n, q.End());
    }
  }
}
