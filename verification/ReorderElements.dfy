/** Which element stands for a number: what each push does to every number of the window and to what
    is reported, and that over a whole run a number belongs to the first element accepted for it. */
module ReorderElements {
  import opened Wrappers
  import opened ReorderSpec

  /** The element that waits for its turn as number `n`. */
  function At<T>(q: State<T>, n: int): Option<T> {
    if q.begin <= n < q.End() then q.window[n - q.begin] else None
  }

  /** What is held is what waits at some number. */
  lemma HeldAt<T>(q: State<T>, x: Item<T>)
    ensures x in Held(q.begin, q.window) <==> At(q, x.num) == Some(x.user)
  {
    HeldMember(q.begin, q.window, x);
  }

  lemma {:induction false} HeldMember<T>(begin: int, w: seq<Option<T>>, x: Item<T>)
    ensures x in Held(begin, w) <==> begin <= x.num < begin + |w| && w[x.num - begin] == Some(x.user)
    decreases |w|
  {
    if w != [] {
      HeldMember(begin + 1, w[1..], x);
      assert x in Held(begin, w) <==> x in ItemAt(begin, w[0]) || x in Held(begin + 1, w[1..]);
      if begin < x.num < begin + |w| { assert w[1..][x.num - (begin + 1)] == w[x.num - begin]; }
    }
  }

  // ---------------------------------------------------------------- one push

  /** A push is accepted when its number has not been passed and is not waiting yet, and fits into the
      queue unless the front may be dropped for it. */
  predicate Accepts<T>(q: State<T>, size: nat, strategy: Strategy, n: int) {
    n >= q.begin && At(q, n).None? && (n < q.begin + size || strategy == DropBegin)
  }

  /** The start of the queue after a push: only an accepted number that does not fit moves it, just as
      far as it must, or to that number when nothing would be left. */
  function BeginAfter<T>(q: State<T>, size: nat, strategy: Strategy, n: int): int {
    if n < q.begin + size || strategy == DropEnd then q.begin
    else if n + 1 - size < q.End() then n + 1 - size
    else n
  }

  /** What a push does to each number `m`: an accepted element takes its place, numbers before the new
      start are given up, and every other number keeps the element it had. */
  lemma PushAt<T>(q: State<T>, size: nat, strategy: Strategy, n: int, u: T, m: int)
    requires size > 0 && |q.window| <= size
    ensures
      var p := Push(q, size, strategy, n, u).0;
      && p.begin == BeginAfter(q, size, strategy, n)
      && p.End() == (if Accepts(q, size, strategy, n) && n >= q.End() then n + 1 else q.End())
      && At(p, m) == if m < p.begin then None
                     else if Accepts(q, size, strategy, n) && m == n then Some(u)
                     else At(q, m)
  {
  }

  /** What a push reports: the pushed element itself if it is not accepted, even when its number is
      waiting; otherwise the elements before the new start, and nothing else, lowest number first. */
  lemma PushReports<T>(q: State<T>, size: nat, strategy: Strategy, n: int, u: T)
    requires size > 0 && |q.window| <= size
    ensures
      var d := Push(q, size, strategy, n, u).1;
      && (!Accepts(q, size, strategy, n) ==> d == [Item(n, u)])
      && (Accepts(q, size, strategy, n) ==>
            && (forall x :: x in d <==> x.num < BeginAfter(q, size, strategy, n) && At(q, x.num) == Some(x.user))
            && (forall i, j :: 0 <= i < j < |d| ==> d[i].num < d[j].num))
  {
    if Accepts(q, size, strategy, n) && n >= q.begin + size {
      var k := Overrun(q, size, n);
      assert Push(q, size, strategy, n, u).1 == Held(q.begin, q.window[..k]);
      forall x: Item<T>
        ensures x in Held(q.begin, q.window[..k]) <==>
                x.num < BeginAfter(q, size, strategy, n) && At(q, x.num) == Some(x.user)
      {
        HeldMember(q.begin, q.window[..k], x);
        if q.begin <= x.num < q.begin + k { assert q.window[..k][x.num - q.begin] == q.window[x.num - q.begin]; }
      }
      HeldAscends(q.begin, q.window[..k]);
    }
  }

  lemma {:induction false} HeldAscends<T>(begin: int, w: seq<Option<T>>)
    ensures Ascends(begin, Held(begin, w))
    decreases |w|
  {
    if w != [] {
      HeldAscends(begin + 1, w[1..]);
      AscendsNext(begin, ItemAt(begin, w[0]), Held(begin + 1, w[1..]));
    }
  }

  ghost predicate Ascends<T>(from: int, d: seq<Item<T>>) {
    (forall i :: 0 <= i < |d| ==> d[i].num >= from) && forall i, j :: 0 <= i < j < |d| ==> d[i].num < d[j].num
  }

  lemma AscendsNext<T>(from: int, head: seq<Item<T>>, rest: seq<Item<T>>)
    requires |head| <= 1 && (forall x :: x in head ==> x.num == from) && Ascends(from + 1, rest)
    ensures Ascends(from, head + rest)
  {
  }

  // ---------------------------------------------------------------- whole runs

  /** Operation `i` of a run pushes `x`, and the push is accepted. */
  ghost predicate AcceptedAt<T>(size: nat, rule: Rule, begin: int, ops: seq<Op<T>>, i: nat, x: Item<T>)
    requires size > 0
  {
    && i < |ops| && ops[i] == OpPush(x.num, x.user)
    && Accepts(RunAll(size, rule, begin, ops[..i]).q, size, RunAll(size, rule, begin, ops[..i]).strategy, x.num)
  }

  /** What one operation does to number `m`: it passes it, accepts an element for it, or leaves it. */
  lemma StepAt<T>(size: nat, rule: Rule, r: Run<T>, op: Op<T>, m: int)
    requires size > 0 && |r.q.window| <= size
    requires !(op.OpPush? && Overwrites(rule, r, op.n))
    ensures
      var p := Step(size, rule, r, op);
      && p.q.begin >= r.q.begin
      && At(p.q, m) == if m < p.q.begin then None
                       else if op.OpPush? && op.n == m && Accepts(r.q, size, r.strategy, m) then Some(op.u)
                       else At(r.q, m)
  {
    if op.OpPush? { PushAt(r.q, size, r.strategy, op.n, op.u, m); }
  }

  /** A pull delivers the element that waits at the start of the window, if there is one, and moves the
      start by one; nothing else is ever delivered. */
  lemma PullExact<T>(size: nat, rule: Rule, r: Run<T>, op: Op<T>)
    requires size > 0 && |r.q.window| <= size
    ensures
      var p, first := Step(size, rule, r, op), At(r.q, r.q.begin);
      if op.OpPull? && first.Some? then
        && p.pulled == r.pulled + [Item(r.q.begin, first.value)] && p.q.begin == r.q.begin + 1
        && p.q.End() == r.q.End() && p.dropped == r.dropped
      else p.pulled == r.pulled
  {
  }

  /** A drop reports the element that waits at a number of the window, if there is one, and leaves the queue
      as it is. */
  lemma DropExact<T>(size: nat, rule: Rule, r: Run<T>, op: Op<T>)
    requires size > 0 && |r.q.window| <= size && op.OpDrop?
    ensures
      var p, n := Step(size, rule, r, op), r.q.begin + op.index;
      && p.q == r.q
      && p.reported == r.reported + if At(r.q, n).Some? then [Item(n, At(r.q, n).value)] else []
  {
  }

  /** The strategy last set; a new queue drops what does not fit. */
  function LastStrategy<T>(ops: seq<Op<T>>): Strategy {
    if ops == [] then DropEnd
    else if ops[|ops| - 1].OpStrategy? then ops[|ops| - 1].s
    else LastStrategy(ops[..|ops| - 1])
  }

  lemma {:induction false} StrategyIs<T>(size: nat, rule: Rule, begin: int, ops: seq<Op<T>>)
    requires size > 0
    ensures RunAll(size, rule, begin, ops).strategy == LastStrategy(ops)
  {
    if ops != [] { StrategyIs(size, rule, begin, ops[..|ops| - 1]); }
  }

  /** Nothing is overwritten in a run that loses nothing, or in the beginning of it. */
  lemma NothingLost<T>(size: nat, rule: Rule, r: Run<T>, op: Op<T>)
    requires size > 0 && |r.q.window| <= size && Step(size, rule, r, op).lost == []
    ensures r.lost == [] && !(op.OpPush? && Overwrites(rule, r, op.n))
  {
  }

  /** The run without its last operation. */
  lemma Before<T>(size: nat, rule: Rule, begin: int, ops: seq<Op<T>>) returns (init: seq<Op<T>>, op: Op<T>, r: Run<T>)
    requires size > 0 && ops != []
    ensures init == ops[..|ops| - 1] && op == ops[|ops| - 1] && r == RunAll(size, rule, begin, init)
    ensures |r.q.window| <= size && RunAll(size, rule, begin, ops) == Step(size, rule, r, op)
    ensures forall i :: 0 <= i <= |init| ==> init[..i] == ops[..i]
  {
    init, op := ops[..|ops| - 1], ops[|ops| - 1];
    r := RunAll(size, rule, begin, init);
  }

  /** An accepted element waits at its number until the start has passed it. */
  lemma {:induction false} AcceptedStays<T>(size: nat, rule: Rule, begin: int, ops: seq<Op<T>>, i: nat, x: Item<T>)
    requires size > 0 && AcceptedAt(size, rule, begin, ops, i, x) && RunAll(size, rule, begin, ops).lost == []
    ensures var q := RunAll(size, rule, begin, ops).q; x.num < q.begin || At(q, x.num) == Some(x.user)
    decreases |ops|
  {
    var init, op, r := Before(size, rule, begin, ops);
    NothingLost(size, rule, r, op);
    StepAt(size, rule, r, op, x.num);
    if i < |init| {
      assert init[..i] == ops[..i];
      AcceptedStays(size, rule, begin, init, i, x);
    }
  }

  lemma {:induction false} PrefixLosesNothing<T>(size: nat, rule: Rule, begin: int, ops: seq<Op<T>>, n: nat)
    requires size > 0 && n <= |ops| && RunAll(size, rule, begin, ops).lost == []
    ensures RunAll(size, rule, begin, ops[..n]).lost == []
    decreases |ops|
  {
    if n == |ops| {
      assert ops[..n] == ops;
    } else {
      var init, op, r := Before(size, rule, begin, ops);
      NothingLost(size, rule, r, op);
      assert init[..n] == ops[..n];
      PrefixLosesNothing(size, rule, begin, init, n);
    }
  }

  /** In a run that loses nothing, a number is accepted at most once. */
  lemma AcceptedOnce<T>(size: nat, rule: Rule, begin: int, ops: seq<Op<T>>, i: nat, x: Item<T>, j: nat, y: Item<T>)
    requires size > 0 && RunAll(size, rule, begin, ops).lost == [] && x.num == y.num
    requires AcceptedAt(size, rule, begin, ops, i, x) && AcceptedAt(size, rule, begin, ops, j, y)
    ensures i == j && x == y
  {
    if i < j {
      AcceptedEarlier(size, rule, begin, ops, i, x, j, y);
    } else if j < i {
      AcceptedEarlier(size, rule, begin, ops, j, y, i, x);
    }
  }

  lemma AcceptedEarlier<T>(size: nat, rule: Rule, begin: int, ops: seq<Op<T>>, i: nat, x: Item<T>, j: nat, y: Item<T>)
    requires size > 0 && RunAll(size, rule, begin, ops).lost == [] && x.num == y.num && i < j
    requires AcceptedAt(size, rule, begin, ops, i, x)
    ensures !AcceptedAt(size, rule, begin, ops, j, y)
  {
    if j < |ops| {
      PrefixLosesNothing(size, rule, begin, ops, j);
      assert ops[..j][..i] == ops[..i];
      AcceptedStays(size, rule, begin, ops[..j], i, x);
    }
  }

  /** Whatever waits or has been delivered is an element that was accepted for its number. */
  lemma {:induction false} CameFromPush<T>(size: nat, rule: Rule, begin: int, ops: seq<Op<T>>, x: Item<T>)
    returns (i: nat)
    requires size > 0 && RunAll(size, rule, begin, ops).lost == []
    requires var r := RunAll(size, rule, begin, ops); At(r.q, x.num) == Some(x.user) || x in r.pulled
    ensures AcceptedAt(size, rule, begin, ops, i, x)
    decreases |ops|
  {
    var init, op, r := Before(size, rule, begin, ops);
    NothingLost(size, rule, r, op);
    StepAt(size, rule, r, op, x.num);
    if At(r.q, x.num) == Some(x.user) || x in r.pulled {
      i := CameFromPush(size, rule, begin, init, x);
      assert init[..i] == ops[..i];
    } else {
      i := |init|;
      assert ops[..i] == init;
    }
  }

  /** Retransmissions: in a run that loses nothing, the element delivered for a number, or still waiting
      for its turn, is the first one accepted with that number, the only one ever accepted. */
  lemma FirstAccepted<T>(size: nat, rule: Rule, begin: int, ops: seq<Op<T>>, x: Item<T>)
    requires size > 0 && RunAll(size, rule, begin, ops).lost == []
    requires var r := RunAll(size, rule, begin, ops); x in Held(r.q.begin, r.q.window) || x in r.pulled
    ensures exists i: nat :: AcceptedAt(size, rule, begin, ops, i, x)
    ensures forall j: nat, y :: AcceptedAt(size, rule, begin, ops, j, y) && y.num == x.num ==> y == x
  {
    HeldAt(RunAll(size, rule, begin, ops).q, x);
    var i := CameFromPush(size, rule, begin, ops, x);
    forall j: nat, y | AcceptedAt(size, rule, begin, ops, j, y) && y.num == x.num ensures y == x {
      AcceptedOnce(size, rule, begin, ops, i, x, j, y);
    }
  }
}
