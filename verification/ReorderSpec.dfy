/** What the reorder queue means, over unbounded sequence numbers: a window of optional elements
    that starts at the next number to deliver. The theorems about whole runs are proved here;
    `ReorderQueue` shows that the wrapping ring of lib/src/reorderqueue.c computes these functions. */
module ReorderSpec {
  import opened Wrappers

  datatype Strategy = DropBegin | DropEnd

  datatype Item<T> = Item(num: int, user: T)

  /** `window[i]` is the element of number `begin + i`, if it has arrived. */
  datatype State<T> = State(begin: int, window: seq<Option<T>>) {
    function End(): int { begin + |window| }
  }

  /** The elements of a window that starts at number `begin`, lowest number first. */
  function Held<T>(begin: int, window: seq<Option<T>>): seq<Item<T>>
    decreases |window|
  {
    if window == [] then [] else ItemAt(begin, window[0]) + Held(begin + 1, window[1..])
  }

  function ItemAt<T>(num: int, o: Option<T>): seq<Item<T>> { if o.Some? then [Item(num, o.value)] else [] }

  function Gap<T>(k: nat): seq<Option<T>> { seq(k, _ => None) }

  /** How many slots the "drop begin" strategy gives up so that `n` fits. */
  function Overrun<T>(q: State<T>, size: nat, n: int): (k: nat)
    requires n + 1 > q.begin + size
    ensures k <= |q.window|
  {
    var need := n + 1 - size - q.begin;
    if need <= |q.window| then need else |q.window|
  }

  /** The queue after dropping from the front to make room for `n`; once empty it moves to `n`. */
  function MakeRoom<T>(q: State<T>, size: nat, n: int): State<T>
    requires n + 1 > q.begin + size
  {
    var k := Overrun(q, size, n);
    if k == |q.window| then State(n, []) else State(q.begin + k, q.window[k..])
  }

  function Extend<T>(q: State<T>, n: int, u: T): State<T>
    requires q.End() <= n
  {
    State(q.begin, q.window + Gap(n - q.End()) + [Some(u)])
  }

  /** Push: the new state and the elements handed to the drop callback. */
  function Push<T>(q: State<T>, size: nat, strategy: Strategy, n: int, u: T): (State<T>, seq<Item<T>>)
    requires size > 0 && |q.window| <= size
  {
    if n < q.begin then (q, [Item(n, u)])
    else if n < q.End() then
      if q.window[n - q.begin].Some? then (q, [Item(n, u)])
      else (q.(window := q.window[n - q.begin := Some(u)]), [])
    else if n + 1 <= q.begin + size then (Extend(q, n, u), [])
    else if strategy == DropEnd then (q, [Item(n, u)])
    else (Extend(MakeRoom(q, size, n), n, u), Held(q.begin, q.window[..Overrun(q, size, n)]))
  }

  /** Whether the start of the window has last been moved by one number at a time, given whether it
      had been before the push; a push that empties the queue sets it to the pushed number instead. */
  predicate MovedByPush<T>(q: State<T>, size: nat, strategy: Strategy, n: int, moved: bool) {
    if n >= q.End() && n + 1 > q.begin + size && strategy == DropBegin then Overrun(q, size, n) != |q.window|
    else moved
  }

  predicate CanPull<T>(q: State<T>) { |q.window| > 0 && q.window[0].Some? }

  function Pull<T>(q: State<T>): (State<T>, Item<T>)
    requires CanPull(q)
  {
    (State(q.begin + 1, q.window[1..]), Item(q.begin, q.window[0].value))
  }

  /** Drop: it reports the element and keeps it, since the slot stays marked as set. */
  predicate DropFires<T>(q: State<T>, index: nat) { index < |q.window| && q.window[index].Some? }

  // ---------------------------------------------------------------- conservation over whole runs

  datatype Op<T> = OpPush(n: int, u: T) | OpPull | OpDrop(index: nat) | OpStrategy(s: Strategy)

  /** A run: the state reached, and everything pushed, pulled and given up on the way. What was given
      up was reported to the drop callback or was lost; `kept` lists the elements that `Drop` reported
      although they stayed in the queue; `moved` says whether the start has last been moved by one
      number at a time. */
  datatype Run<T> = Run(q: State<T>, strategy: Strategy, moved: bool, pushed: seq<Item<T>>, pulled: seq<Item<T>>,
                        dropped: seq<Item<T>>, reported: seq<Item<T>>, lost: seq<Item<T>>, kept: seq<Item<T>>)

  function Init<T>(begin: int): Run<T> { Run(State(begin, []), DropEnd, false, [], [], [], [], [], []) }

  /** Whether the number at the start of the window is misread, given the start and whether it has
      been moved: then a second element with that number takes the place of the first. */
  type Rule = (int, bool) -> bool

  const Never: Rule := (begin: int, moved: bool) => false

  predicate Overwrites<T>(rule: Rule, r: Run<T>, n: int) {
    CanPull(r.q) && n == r.q.begin && rule(r.q.begin, r.moved)
  }

  function Overwrite<T>(q: State<T>, u: T): State<T>
    requires CanPull(q)
  {
    q.(window := q.window[0 := Some(u)])
  }

  function Step<T>(size: nat, rule: Rule, r: Run<T>, op: Op<T>): Run<T>
    requires size > 0 && |r.q.window| <= size
  {
    match op
    case OpPush(n, u) => StepPush(size, rule, r, n, u)
    case OpPull =>
      if CanPull(r.q) then
        var (q, x) := Pull(r.q);
        r.(q := q, moved := true, pulled := r.pulled + [x])
      else r
    case OpDrop(index) =>
      if DropFires(r.q, index) then
        var x := Item(r.q.begin + index, r.q.window[index].value);
        r.(dropped := r.dropped + [x], reported := r.reported + [x], kept := r.kept + [x])
      else r
    case OpStrategy(s) => r.(strategy := s)
  }

  function StepPush<T>(size: nat, rule: Rule, r: Run<T>, n: int, u: T): Run<T>
    requires size > 0 && |r.q.window| <= size
  {
    if Overwrites(rule, r, n) then
      var x := Pull(r.q).1;
      r.(q := Overwrite(r.q, u), pushed := r.pushed + [Item(n, u)], dropped := r.dropped + [x], lost := r.lost + [x])
    else
      var (q, d) := Push(r.q, size, r.strategy, n, u);
      var moved := MovedByPush(r.q, size, r.strategy, n, r.moved);
      r.(q := q, moved := moved, pushed := r.pushed + [Item(n, u)],
         dropped := r.dropped + d, reported := r.reported + d)
  }

  ghost function RunAll<T>(size: nat, rule: Rule, begin: int, ops: seq<Op<T>>): (r: Run<T>)
    requires size > 0
    ensures |r.q.window| <= size
  {
    if ops == [] then Init(begin)
    else
      var r := RunAll(size, rule, begin, ops[..|ops| - 1]);
      StepFits(size, rule, r, ops[|ops| - 1]);
      Step(size, rule, r, ops[|ops| - 1])
  }

  lemma StepFits<T>(size: nat, rule: Rule, r: Run<T>, op: Op<T>)
    requires size > 0 && |r.q.window| <= size
    ensures |Step(size, rule, r, op).q.window| <= size
  {
  }

  /** Nothing appears or disappears: what was given up was reported or lost. */
  ghost predicate Balanced<T>(r: Run<T>) {
    && multiset(r.pushed) + multiset(r.kept)
       == multiset(r.pulled) + multiset(r.dropped) + multiset(Held(r.q.begin, r.q.window))
    && multiset(r.dropped) == multiset(r.reported) + multiset(r.lost)
  }

  /** Delivery is in strictly increasing order of the unbounded numbers. */
  ghost predicate Increasing<T>(r: Run<T>) {
    && (forall i, j :: 0 <= i < j < |r.pulled| ==> r.pulled[i].num < r.pulled[j].num)
    && (forall i :: 0 <= i < |r.pulled| ==> r.pulled[i].num < r.q.begin)
  }

  lemma {:induction false} HeldConcat<T>(begin: int, a: seq<Option<T>>, b: seq<Option<T>>)
    ensures Held(begin, a + b) == Held(begin, a) + Held(begin + |a|, b)
    decreases |a|
  {
    if a == [] {
      assert a + b == b;
    } else {
      HeldConcat(begin + 1, a[1..], b);
      calc {
        Held(begin, a + b);
        { assert (a + b)[1..] == a[1..] + b && (a + b)[0] == a[0]; }
        ItemAt(begin, a[0]) + (Held(begin + 1, a[1..]) + Held(begin + |a|, b));
        ItemAt(begin, a[0]) + Held(begin + 1, a[1..]) + Held(begin + |a|, b);
      }
    }
  }

  lemma {:induction false} HeldGap<T>(begin: int, k: nat)
    ensures Held<T>(begin, Gap(k)) == []
    decreases k
  {
    if k > 0 {
      assert Gap<T>(k)[1..] == Gap(k - 1);
      HeldGap<T>(begin + 1, k - 1);
    }
  }

  /** The window split around slot `i`. */
  lemma HeldSplit<T>(begin: int, w: seq<Option<T>>, i: nat)
    requires i < |w|
    ensures Held(begin, w) == Held(begin, w[..i]) + ItemAt(begin + i, w[i]) + Held(begin + i + 1, w[i + 1..])
  {
    HeldNext(begin, w, i);
    HeldConcat(begin, w[..i + 1], w[i + 1..]);
    assert w == w[..i + 1] + w[i + 1..];
  }

  lemma HeldFill<T>(begin: int, w: seq<Option<T>>, i: nat, u: T)
    requires i < |w| && w[i].None?
    ensures multiset(Held(begin, w[i := Some(u)])) == multiset(Held(begin, w)) + multiset{Item(begin + i, u)}
  {
    var v := w[i := Some(u)];
    HeldSplit(begin, w, i);
    HeldSplit(begin, v, i);
    assert v[..i] == w[..i] && v[i + 1..] == w[i + 1..];
    MultisetInsert(Held(begin, w[..i]), Item(begin + i, u), Held(begin + i + 1, w[i + 1..]));
  }

  lemma MultisetInsert<X>(a: seq<X>, x: X, b: seq<X>)
    ensures multiset(a + [x] + b) == multiset(a + [] + b) + multiset{x}
  {
  }

  lemma HeldSingle<T>(begin: int, o: Option<T>)
    ensures Held(begin, [o]) == ItemAt(begin, o)
  {
    assert [o][1..] == [];
  }

  lemma HeldNext<T>(begin: int, w: seq<Option<T>>, k: nat)
    requires k < |w|
    ensures Held(begin, w[..k + 1]) == Held(begin, w[..k]) + ItemAt(begin + k, w[k])
  {
    assert w[..k + 1] == w[..k] + [w[k]];
    HeldConcat(begin, w[..k], [w[k]]);
    HeldSingle(begin + k, w[k]);
  }

  lemma HeldExtend<T>(q: State<T>, n: int, u: T)
    requires q.End() <= n
    ensures var e := Extend(q, n, u); Held(e.begin, e.window) == Held(q.begin, q.window) + [Item(n, u)]
  {
    var g := Gap<T>(n - q.End());
    var longer := q.window + g;
    HeldConcat(q.begin, longer, [Some(u)]);
    assert Held(q.begin, longer) == Held(q.begin, q.window) by {
      HeldConcat(q.begin, q.window, g);
      HeldGap<T>(q.End(), n - q.End());
    }
    HeldSingle(n, Some(u));
  }

  /** From `q` to `p`, one element came in and the elements `d` went out. */
  ghost predicate Trades<T>(q: State<T>, p: State<T>, d: seq<Item<T>>, x: Item<T>) {
    multiset(Held(p.begin, p.window)) + multiset(d) == multiset(Held(q.begin, q.window)) + multiset{x}
  }

  /** One push keeps the balance of elements. */
  lemma PushBalance<T>(q: State<T>, size: nat, strategy: Strategy, n: int, u: T)
    requires size > 0 && |q.window| <= size
    ensures Trades(q, Push(q, size, strategy, n, u).0, Push(q, size, strategy, n, u).1, Item(n, u))
  {
    var (p, d) := Push(q, size, strategy, n, u);
    if p == q && d == [Item(n, u)] {
      RejectTrades(q, Item(n, u));
    } else if n < q.End() {
      assert p == q.(window := q.window[n - q.begin := Some(u)]) && d == [];
      FillTrades(q, n - q.begin, u);
    } else if n + 1 <= q.begin + size {
      assert p == Extend(q, n, u) && d == [];
      ExtendTrades(q, n, u);
    } else {
      DropTrades(q, size, n, u);
    }
  }

  lemma RejectTrades<T>(q: State<T>, x: Item<T>)
    ensures Trades(q, q, [x], x)
  {
  }

  lemma FillTrades<T>(q: State<T>, i: nat, u: T)
    requires i < |q.window| && q.window[i].None?
    ensures Trades(q, q.(window := q.window[i := Some(u)]), [], Item(q.begin + i, u))
  {
    HeldFill(q.begin, q.window, i, u);
  }

  lemma ExtendTrades<T>(q: State<T>, n: int, u: T)
    requires q.End() <= n
    ensures Trades(q, Extend(q, n, u), [], Item(n, u))
  {
    HeldExtend(q, n, u);
    AppendCounts(Held(q.begin, q.window), [Item(n, u)]);
  }

  lemma DropTrades<T>(q: State<T>, size: nat, n: int, u: T)
    requires n >= q.End() && n + 1 > q.begin + size
    ensures Trades(q, Extend(MakeRoom(q, size, n), n, u), Held(q.begin, q.window[..Overrun(q, size, n)]), Item(n, u))
  {
    var k, m := Overrun(q, size, n), MakeRoom(q, size, n);
    var front, rest := Held(q.begin, q.window[..k]), Held(q.begin + k, q.window[k..]);
    assert q.window == q.window[..k] + q.window[k..];
    HeldConcat(q.begin, q.window[..k], q.window[k..]);
    assert rest == Held(m.begin, m.window);
    AppendCounts(front, rest);
    var p := Extend(m, n, u);
    ExtendTrades(m, n, u);
    FrontCounts(multiset(front), multiset(rest), multiset(Held(p.begin, p.window)), multiset{Item(n, u)});
  }

  lemma FrontCounts<X>(front: multiset<X>, rest: multiset<X>, held': multiset<X>, x: multiset<X>)
    requires held' + multiset([]) == rest + x
    ensures held' + front == (front + rest) + x
  {
    assert held' == rest + x;
  }

  /** An element that takes the place of the first one. */
  lemma OverwriteTrades<T>(q: State<T>, u: T)
    requires CanPull(q)
    ensures Trades(q, Overwrite(q, u), [Pull(q).1], Item(q.begin, u))
  {
    var p := Overwrite(q, u);
    var rest := Held(q.begin + 1, q.window[1..]);
    assert p.window[1..] == q.window[1..];
    AppendCounts([Pull(q).1], rest);
    AppendCounts([Item(q.begin, u)], rest);
  }

  /** What a push takes in and gives up, whether or not it overwrites. */
  lemma PushTrades<T>(size: nat, rule: Rule, r: Run<T>, n: int, u: T) returns (p: State<T>, d: seq<Item<T>>)
    requires size > 0 && |r.q.window| <= size
    ensures p == StepPush(size, rule, r, n, u).q && StepPush(size, rule, r, n, u).dropped == r.dropped + d
    ensures Trades(r.q, p, d, Item(n, u))
    ensures
      var s := StepPush(size, rule, r, n, u);
      && s.pushed == r.pushed + [Item(n, u)] && s.pulled == r.pulled && s.kept == r.kept
      && (s.reported, s.lost) == if Overwrites(rule, r, n) then (r.reported, r.lost + d) else (r.reported + d, r.lost)
  {
    p := StepPush(size, rule, r, n, u).q;
    if Overwrites(rule, r, n) {
      d := [Pull(r.q).1];
      OverwriteTrades(r.q, u);
    } else {
      d := Push(r.q, size, r.strategy, n, u).1;
      PushBalance(r.q, size, r.strategy, n, u);
    }
  }

  lemma PushStep<T>(size: nat, rule: Rule, r: Run<T>, n: int, u: T)
    requires size > 0 && |r.q.window| <= size && Balanced(r)
    ensures Balanced(StepPush(size, rule, r, n, u))
  {
    var p, d := PushTrades(size, rule, r, n, u);
    AppendCounts(r.pushed, [Item(n, u)]);
    AppendCounts(r.dropped, d);
    AppendCounts(r.reported, d);
    AppendCounts(r.lost, d);
    TradeCounts(multiset(r.pushed), multiset(r.kept), multiset(r.pulled), multiset(r.dropped),
                multiset(Held(r.q.begin, r.q.window)), multiset(Held(p.begin, p.window)),
                multiset(d), multiset{Item(n, u)});
  }

  lemma PullStep<T>(size: nat, rule: Rule, r: Run<T>)
    requires size > 0 && |r.q.window| <= size && Balanced(r) && CanPull(r.q)
    ensures Balanced(Step(size, rule, r, OpPull))
  {
    var x := Pull(r.q).1;
    var rest := Held(r.q.begin + 1, r.q.window[1..]);
    assert Held(r.q.begin, r.q.window) == [x] + rest;
    AppendCounts([x], rest);
    AppendCounts(r.pulled, [x]);
  }

  lemma DropStep<T>(size: nat, rule: Rule, r: Run<T>, index: nat)
    requires size > 0 && |r.q.window| <= size && Balanced(r) && DropFires(r.q, index)
    ensures Balanced(Step(size, rule, r, OpDrop(index)))
  {
    var x := Item(r.q.begin + index, r.q.window[index].value);
    assert Step(size, rule, r, OpDrop(index))
        == r.(dropped := r.dropped + [x], reported := r.reported + [x], kept := r.kept + [x]);
    KeepBalances(r, x);
  }

  lemma KeepBalances<T>(r: Run<T>, x: Item<T>)
    requires Balanced(r)
    ensures Balanced(r.(dropped := r.dropped + [x], reported := r.reported + [x], kept := r.kept + [x]))
  {
    AppendCounts(r.reported, [x]);
    AppendCounts(r.dropped, [x]);
    AppendCounts(r.kept, [x]);
    KeepCounts(multiset(r.pushed), multiset(r.kept), multiset(r.pulled), multiset(r.dropped),
               multiset(Held(r.q.begin, r.q.window)), multiset{x});
  }

  lemma KeepCounts<X>(pushed: multiset<X>, kept: multiset<X>, pulled: multiset<X>, dropped: multiset<X>,
                      held: multiset<X>, x: multiset<X>)
    requires pushed + kept == pulled + dropped + held
    ensures pushed + (kept + x) == pulled + (dropped + x) + held
  {
    assert pushed + (kept + x) == (pushed + kept) + x;
  }

  lemma StepBalance<T>(size: nat, rule: Rule, r: Run<T>, op: Op<T>)
    requires size > 0 && |r.q.window| <= size && Balanced(r)
    ensures Balanced(Step(size, rule, r, op))
  {
    match op
    case OpPush(n, u) => PushStep(size, rule, r, n, u);
    case OpPull => if CanPull(r.q) { PullStep(size, rule, r); }
    case OpDrop(index) => if DropFires(r.q, index) { DropStep(size, rule, r, index); }
    case OpStrategy(s) =>
  }

  lemma StepIncreasing<T>(size: nat, rule: Rule, r: Run<T>, op: Op<T>)
    requires size > 0 && |r.q.window| <= size && Increasing(r)
    ensures Increasing(Step(size, rule, r, op))
  {
  }

  lemma TradeCounts<X>(pushed: multiset<X>, kept: multiset<X>, pulled: multiset<X>, dropped: multiset<X>,
                       held: multiset<X>, held': multiset<X>, d: multiset<X>, x: multiset<X>)
    requires pushed + kept == pulled + dropped + held && held' + d == held + x
    ensures pushed + x + kept == pulled + (dropped + d) + held'
  {
    calc {
      pushed + x + kept;
      (pushed + kept) + x;
      pulled + dropped + (held + x);
      pulled + dropped + (held' + d);
      pulled + (dropped + d) + held';
    }
  }

  lemma AppendCounts<X>(a: seq<X>, b: seq<X>)
    ensures multiset(a + b) == multiset(a) + multiset(b)
  {
  }

  /** Over any run of pushes (either strategy, changed at will), pulls and drops, the elements
      pushed are exactly those pulled, reported, lost or still held, except that each `Drop`
      that fires reports an element the queue keeps. Pulled numbers strictly increase. */
  lemma {:induction false} Conservation<T>(size: nat, rule: Rule, begin: int, ops: seq<Op<T>>)
    requires size > 0
    ensures Balanced(RunAll(size, rule, begin, ops)) && Increasing(RunAll(size, rule, begin, ops))
  {
    if ops != [] {
      var r := RunAll(size, rule, begin, ops[..|ops| - 1]);
      Conservation(size, rule, begin, ops[..|ops| - 1]);
      StepBalance(size, rule, r, ops[|ops| - 1]);
      StepIncreasing(size, rule, r, ops[|ops| - 1]);
    }
  }

  /** Operation `i` of the run is a `Drop` that finds an element. */
  ghost predicate DropsAt<T>(size: nat, rule: Rule, begin: int, ops: seq<Op<T>>, i: nat)
    requires size > 0 && i < |ops|
  {
    ops[i].OpDrop? && DropFires(RunAll(size, rule, begin, ops[..i]).q, ops[i].index)
  }

  /** Operation `i` of the run is a push that overwrites an element. */
  ghost predicate OverwritesAt<T>(size: nat, rule: Rule, begin: int, ops: seq<Op<T>>, i: nat)
    requires size > 0 && i < |ops|
  {
    ops[i].OpPush? && Overwrites(rule, RunAll(size, rule, begin, ops[..i]), ops[i].n)
  }

  /** No `Drop` of the run finds an element. */
  ghost predicate NoDropFires<T>(size: nat, rule: Rule, begin: int, ops: seq<Op<T>>)
    requires size > 0
  {
    forall i :: 0 <= i < |ops| ==> !DropsAt(size, rule, begin, ops, i)
  }

  /** No push of the run overwrites an element. */
  ghost predicate NoneOverwritten<T>(size: nat, rule: Rule, begin: int, ops: seq<Op<T>>)
    requires size > 0
  {
    forall i :: 0 <= i < |ops| ==> !OverwritesAt(size, rule, begin, ops, i)
  }

  lemma NoDropFiresNext<T>(size: nat, rule: Rule, begin: int, ops: seq<Op<T>>, n: nat)
    requires size > 0 && n + 1 == |ops|
    ensures NoDropFires(size, rule, begin, ops)
       <==> NoDropFires(size, rule, begin, ops[..n]) && !DropsAt(size, rule, begin, ops, n)
  {
    var init := ops[..n];
    forall i | 0 <= i < n ensures DropsAt(size, rule, begin, ops, i) <==> DropsAt(size, rule, begin, init, i) {
      assert init[..i] == ops[..i];
    }
    if NoDropFires(size, rule, begin, ops) {
      forall i | 0 <= i < n ensures !DropsAt(size, rule, begin, init, i) {
        assert !DropsAt(size, rule, begin, ops, i);
      }
    }
    if NoDropFires(size, rule, begin, init) && !DropsAt(size, rule, begin, ops, n) {
      forall i | 0 <= i <= n ensures !DropsAt(size, rule, begin, ops, i) {
        if i < n { assert !DropsAt(size, rule, begin, init, i); }
      }
    }
  }

  lemma NoneOverwrittenNext<T>(size: nat, rule: Rule, begin: int, ops: seq<Op<T>>, n: nat)
    requires size > 0 && n + 1 == |ops|
    ensures NoneOverwritten(size, rule, begin, ops)
       <==> NoneOverwritten(size, rule, begin, ops[..n]) && !OverwritesAt(size, rule, begin, ops, n)
  {
    var init := ops[..n];
    forall i | 0 <= i < n
      ensures OverwritesAt(size, rule, begin, ops, i) <==> OverwritesAt(size, rule, begin, init, i)
    {
      assert init[..i] == ops[..i];
    }
    if NoneOverwritten(size, rule, begin, ops) {
      forall i | 0 <= i < n ensures !OverwritesAt(size, rule, begin, init, i) {
        assert !OverwritesAt(size, rule, begin, ops, i);
      }
    }
    if NoneOverwritten(size, rule, begin, init) && !OverwritesAt(size, rule, begin, ops, n) {
      forall i | 0 <= i <= n ensures !OverwritesAt(size, rule, begin, ops, i) {
        if i < n { assert !OverwritesAt(size, rule, begin, init, i); }
      }
    }
  }

  lemma {:induction false} KeptExactly<T>(size: nat, rule: Rule, begin: int, ops: seq<Op<T>>)
    requires size > 0
    ensures RunAll(size, rule, begin, ops).kept == [] <==> NoDropFires(size, rule, begin, ops)
  {
    if ops != [] {
      KeptExactly(size, rule, begin, ops[..|ops| - 1]);
      NoDropFiresNext(size, rule, begin, ops, |ops| - 1);
    }
  }

  lemma LostNext<T>(size: nat, rule: Rule, r: Run<T>, op: Op<T>)
    requires size > 0 && |r.q.window| <= size
    ensures Step(size, rule, r, op).lost == [] <==> r.lost == [] && !(op.OpPush? && Overwrites(rule, r, op.n))
  {
  }

  lemma {:induction false} LostExactly<T>(size: nat, rule: Rule, begin: int, ops: seq<Op<T>>)
    requires size > 0
    ensures RunAll(size, rule, begin, ops).lost == [] <==> NoneOverwritten(size, rule, begin, ops)
  {
    if ops != [] {
      var n := |ops| - 1;
      LostExactly(size, rule, begin, ops[..n]);
      NoneOverwrittenNext(size, rule, begin, ops, n);
      LostNext(size, rule, RunAll(size, rule, begin, ops[..n]), ops[n]);
    }
  }

  /** Every element pushed was pulled or reported exactly once, when what is held is reported too. */
  ghost predicate Conserved<T>(r: Run<T>) {
    multiset(r.pushed) == multiset(r.pulled) + multiset(r.reported + Held(r.q.begin, r.q.window))
  }

  /** After the final teardown reports what is still held, pulled plus reported equals pushed if and
      only if no `Drop` of the run found an element, provided that no push overwrote one; and provided
      that no `Drop` found an element, if and only if no push overwrote one. */
  lemma ConservationAtTeardown<T>(size: nat, rule: Rule, begin: int, ops: seq<Op<T>>)
    requires size > 0
    ensures
      var r, drops, overwrites := RunAll(size, rule, begin, ops),
        !NoDropFires(size, rule, begin, ops), !NoneOverwritten(size, rule, begin, ops);
      && (!overwrites ==> (Conserved(r) <==> !drops))
      && (!drops ==> (Conserved(r) <==> !overwrites))
  {
    Conservation(size, rule, begin, ops);
    KeptExactly(size, rule, begin, ops);
    LostExactly(size, rule, begin, ops);
    var r := RunAll(size, rule, begin, ops);
    ConservedExactly(r);
    if r.kept != [] { assert r.kept[0] in multiset(r.kept); }
    if r.lost != [] { assert r.lost[0] in multiset(r.lost); }
  }

  lemma ConservedExactly<T>(r: Run<T>)
    requires Balanced(r)
    ensures Conserved(r) <==> multiset(r.kept) == multiset(r.lost)
  {
    AppendCounts(r.reported, Held(r.q.begin, r.q.window));
    CancelCounts(multiset(r.pushed), multiset(r.kept),
      multiset(r.pulled) + (multiset(r.reported) + multiset(Held(r.q.begin, r.q.window))), multiset(r.lost));
  }

  lemma CancelCounts<X>(a: multiset<X>, k: multiset<X>, b: multiset<X>, l: multiset<X>)
    requires a + k == b + l
    ensures a == b <==> k == l
  {
    forall x ensures a[x] + k[x] == b[x] + l[x] {
      assert (a + k)[x] == a[x] + k[x] && (b + l)[x] == b[x] + l[x];
    }
  }

  /** A concrete run in which `Drop` makes one pushed element leave the queue twice. */
  lemma DropReportsThenDelivers()
    ensures var r := RunAll(4, Never, 42, [OpPush(42, 7), OpDrop(0), OpPull]);
            r.pushed == [Item(42, 7)] && r.reported == [Item(42, 7)] && r.pulled == [Item(42, 7)]
  {
    var ops := [OpPush(42, 7), OpDrop(0), OpPull];
    assert ops[..2][..1][..0] == [];
    assert ops[..2][..1] == [OpPush(42, 7)];
    assert ops[..2] == [OpPush(42, 7), OpDrop(0)];
    var r0 := Init<int>(42);
    var r1 := Step(4, Never, r0, ops[0]);
    assert RunAll(4, Never, 42, ops[..2][..1]) == r1;
    assert r1.q.window == [Some(7)];
    var r2 := Step(4, Never, r1, ops[1]);
    assert RunAll(4, Never, 42, ops[..2]) == r2;
  }

  // ---------------------------------------------------------------- in-order delivery

  function Dry<T>(q: State<T>): (State<T>, seq<Item<T>>)
    decreases |q.window|
  {
    if CanPull(q) then
      var (p, x) := Pull(q);
      var (last, out) := Dry(p);
      (last, [x] + out)
    else (q, [])
  }

  lemma DryNext<T>(q: State<T>, done: seq<Item<T>>)
    requires CanPull(q)
    ensures Dry(Pull(q).0).0 == Dry(q).0
    ensures done + [Pull(q).1] + Dry(Pull(q).0).1 == done + Dry(q).1
  {
  }

  /** Push each number of `nums` (with the element `user` gives it) and pull the queue dry after
      every push: the final state, the deliveries and the drops. */
  ghost function Deliver<T>(size: nat, strategy: Strategy, begin: int, nums: seq<int>, user: int -> T)
    : (r: (State<T>, seq<Item<T>>, seq<Item<T>>))
    requires size > 0
    ensures |r.0.window| <= size
  {
    if nums == [] then (State(begin, []), [], [])
    else
      var n := nums[|nums| - 1];
      var (q, out, drops) := Deliver(size, strategy, begin, nums[..|nums| - 1], user);
      var (p, d) := Push(q, size, strategy, n, user(n));
      DryShrinks(p);
      var (last, o) := Dry(p);
      (last, out + o, drops + d)
  }

  lemma {:induction false} DryShrinks<T>(q: State<T>)
    ensures |Dry(q).0.window| <= |q.window|
    decreases |q.window|
  {
    if CanPull(q) { DryShrinks(Pull(q).0); }
  }

  /** Each number is new, not before the start, and comes only when everything at least a whole
      queue length behind it has come. */
  ghost predicate Admissible(size: nat, begin: int, nums: seq<int>) {
    forall j :: 0 <= j < |nums| ==>
      && nums[j] >= begin
      && nums[j] !in nums[..j]
      && (forall x :: begin <= x <= nums[j] - size ==> x in nums[..j])
  }

  function InOrder<T>(from: int, to: int, user: int -> T): seq<Item<T>>
    requires from <= to
  {
    seq(to - from, i requires 0 <= i => Item(from + i, user(from + i)))
  }

  function Seen(nums: seq<int>): set<int> { set x | x in nums }

  /** The queue holds exactly the numbers seen at or after its start, and nothing before its start
      is missing. */
  ghost predicate Tracks<T>(q: State<T>, begin: int, seen: set<int>, user: int -> T) {
    && begin <= q.begin
    && (forall x :: begin <= x < q.begin ==> x in seen)
    && (forall x :: x in seen ==> begin <= x < q.End())
    && (forall i :: 0 <= i < |q.window| ==>
          q.window[i] == if q.begin + i in seen then Some(user(q.begin + i)) else None)
  }

  /** The last slot of the window is taken. */
  predicate Trimmed<T>(q: State<T>) { q.window == [] || q.window[|q.window| - 1].Some? }

  lemma {:induction false} DryTracks<T>(q: State<T>, begin: int, seen: set<int>, user: int -> T)
    requires Tracks(q, begin, seen, user)
    ensures var (last, out) := Dry(q);
            && Tracks(last, begin, seen, user)
            && last.begin !in seen
            && last.begin >= q.begin
            && out == InOrder(q.begin, last.begin, user)
    decreases |q.window|
  {
    assert q.begin in seen && |q.window| > 0 ==> q.window[0] == Some(user(q.begin + 0));
    if CanPull(q) {
      var (p, x) := Pull(q);
      assert p.End() == q.End();
      DryTracks(p, begin, seen, user);
      var last := Dry(p).0;
      assert InOrder(q.begin, last.begin, user) == [x] + InOrder(p.begin, last.begin, user);
    }
  }

  lemma PushTracks<T>(q: State<T>, size: nat, strategy: Strategy, begin: int, seen: set<int>, n: int, user: int -> T)
    requires size > 0 && |q.window| <= size
    requires Tracks(q, begin, seen, user) && q.begin !in seen
    requires n >= begin && n !in seen
    requires forall x :: begin <= x <= n - size ==> x in seen
    ensures var (p, d) := Push(q, size, strategy, n, user(n));
            Tracks(p, begin, seen + {n}, user) && p.begin == q.begin && d == []
  {
    assert n >= q.begin && n + 1 <= q.begin + size;
    var p := Push(q, size, strategy, n, user(n)).0;
    if n < q.End() {
      assert q.window[n - q.begin].None?;
    } else {
      forall i | 0 <= i < |p.window|
        ensures p.window[i] == if p.begin + i in seen + {n} then Some(user(p.begin + i)) else None
      {
        if |q.window| <= i < n - q.begin { assert q.begin + i !in seen; }
      }
    }
  }

  /** One number more: the push is kept and the deliveries go on up to the next missing number. */
  lemma DeliverStep<T>(q: State<T>, size: nat, strategy: Strategy, begin: int, seen: set<int>, n: int, user: int -> T)
    requires size > 0 && |q.window| <= size
    requires Tracks(q, begin, seen, user) && q.begin !in seen && Trimmed(q)
    requires n >= begin && n !in seen
    requires forall x :: begin <= x <= n - size ==> x in seen
    ensures var (p, d) := Push(q, size, strategy, n, user(n));
            var (last, out) := Dry(p);
            && d == []
            && Tracks(last, begin, seen + {n}, user) && last.begin !in seen + {n}
            && InOrder(begin, q.begin, user) + out == InOrder(begin, last.begin, user)
            && Trimmed(last)
  {
    PushTracks(q, size, strategy, begin, seen, n, user);
    var p := Push(q, size, strategy, n, user(n)).0;
    DryTracks(p, begin, seen + {n}, user);
    DryTrimmed(p);
  }

  lemma AdmissiblePrefix(size: nat, begin: int, nums: seq<int>)
    requires nums != [] && Admissible(size, begin, nums)
    ensures var init, n := nums[..|nums| - 1], nums[|nums| - 1];
            && Admissible(size, begin, init)
            && n >= begin && n !in Seen(init) && Seen(nums) == Seen(init) + {n}
            && (forall x :: begin <= x <= n - size ==> x in Seen(init))
  {
    var init, n := nums[..|nums| - 1], nums[|nums| - 1];
    assert Admissible(size, begin, init) by {
      forall j | 0 <= j < |init| ensures init[j] == nums[j] && init[..j] == nums[..j] {}
    }
    assert n !in Seen(init) && forall x :: begin <= x <= n - size ==> x in Seen(init) by {
      assert nums[..|nums| - 1] == init;
    }
    assert Seen(nums) == Seen(init) + {n} by {
      assert nums == init + [n];
      assert forall x :: x in nums <==> x in init || x == n;
    }
  }

  /** What an admissible run has done: nothing is dropped, and the unbroken sequence from the start
      up to the first missing number has been delivered. */
  ghost predicate InOrderSoFar<T>(begin: int, nums: seq<int>, user: int -> T,
                                  q: State<T>, out: seq<Item<T>>, drops: seq<Item<T>>) {
    && Tracks(q, begin, Seen(nums), user)
    && q.begin !in Seen(nums)
    && out == InOrder(begin, q.begin, user)
    && drops == []
    && Trimmed(q)
  }

  /** While numbers arrive in an admissible order, nothing is dropped and what has been delivered
      is the unbroken sequence from the start up to the first number that is missing. */
  lemma {:induction false} DeliverPrefix<T>(size: nat, strategy: Strategy, begin: int, nums: seq<int>, user: int -> T)
    requires size > 0 && Admissible(size, begin, nums)
    ensures var (q, out, drops) := Deliver(size, strategy, begin, nums, user);
            InOrderSoFar(begin, nums, user, q, out, drops)
  {
    if nums != [] {
      var init, n := nums[..|nums| - 1], nums[|nums| - 1];
      AdmissiblePrefix(size, begin, nums);
      DeliverPrefix(size, strategy, begin, init, user);
      var q := Deliver(size, strategy, begin, init, user).0;
      DeliverStep(q, size, strategy, begin, Seen(init), n, user);
    }
  }

  /** In-order delivery: when the numbers `begin .. begin + count` are each pushed once in an
      admissible order, and the queue is pulled dry after each push, exactly that sequence comes
      out in order, nothing is dropped and nothing stays behind. */
  lemma InOrderDelivery<T>(size: nat, strategy: Strategy, begin: int, nums: seq<int>, user: int -> T)
    requires size > 0 && Admissible(size, begin, nums)
    requires forall x :: x in nums <==> begin <= x < begin + |nums|
    ensures var (q, out, drops) := Deliver(size, strategy, begin, nums, user);
            out == InOrder(begin, begin + |nums|, user) && drops == [] && q == State(begin + |nums|, [])
  {
    DeliverPrefix(size, strategy, begin, nums, user);
    var q := Deliver(size, strategy, begin, nums, user).0;
    assert forall x :: x in Seen(nums) <==> x in nums;
    assert q.begin > begin + |nums| ==> begin + |nums| in nums;
    assert q.begin == begin + |nums|;
    var k := |q.window| - 1;
    assert k >= 0 ==> q.begin + k in Seen(nums);
  }

  lemma {:induction false} DryTrimmed<T>(q: State<T>)
    requires Trimmed(q)
    ensures Trimmed(Dry(q).0)
    decreases |q.window|
  {
    if CanPull(q) { DryTrimmed(Pull(q).0); }
  }
}
