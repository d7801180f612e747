/** Whole runs of the ring of lib/src/reorderqueue.c: the theorems about the window model, carried
    over to the queue with its wrapping numbers and stale flags. */
module ReorderRuns {
  import opened ReorderSpec
  import opened ReorderQueue
  import opened Modular
  import opened SeqNum
  import opened Wrappers

  /** Every pushed number lies less than half the range from the start of the window at that time. */
  ghost predicate Legal<T>(size: nat, rule: Rule, half: nat, begin: int, ops: seq<Op<T>>)
    requires size > 0
  {
    ops == [] ||
      var n := |ops| - 1;
      Legal(size, rule, half, begin, ops[..n]) && LegalOp(half, RunAll(size, rule, begin, ops[..n]).q.begin, ops[n])
  }

  predicate LegalOp<T>(half: nat, begin: int, op: Op<T>) {
    op.OpPush? ==> op.n - begin < half && begin - op.n < half
  }

  /** The queue misreads this operation: a push that fails its assertion. `MisreadAtWrap` says
      which those are for 16-bit numbers; 32-bit numbers have none. */
  ghost predicate MisreadOp<T>(ar: Arith, r: Run<T>, op: Op<T>) {
    op.OpPush? && Misread(ar, Stored(ar, r.q.begin, r.moved), |r.q.window|, op.n - r.q.begin)
  }

  /** No push of the run is misread. */
  ghost predicate ReadsAll<T>(ar: Arith, size: nat, rule: Rule, begin: int, ops: seq<Op<T>>)
    requires size > 0
  {
    ops == [] ||
      var n := |ops| - 1;
      ReadsAll(ar, size, rule, begin, ops[..n]) && !MisreadOp(ar, RunAll(size, rule, begin, ops[..n]), ops[n])
  }

  ghost function RuleFor<T(0)>(queue: Queue<T>): Rule { RuleOf(queue.ar, queue.asserts) }

  /** The queue has done what the model does in the run `r`. */
  ghost predicate Follows<T(0)>(queue: Queue<T>, r: Run<T>, out: seq<(nat, T)>)
    reads queue, queue.queue
  {
    && queue.Valid() && queue.dropCb && queue.strategy == r.strategy && queue.moved == r.moved
    && queue.q == r.q && queue.drops == r.reported && queue.Delivers(out, r.pulled)
  }

  /** One operation on the queue is one step of the model, unless a push is misread and the assertion
      that says so is compiled in. */
  method RunOne<T(0)>(queue: Queue<T>, op: Op<T>, out: seq<(nat, T)>, ghost r: Run<T>)
    returns (ok: bool, more: seq<(nat, T)>)
    requires Follows(queue, r, out) && LegalOp(queue.ar.half, r.q.begin, op)
    modifies queue, queue.queue
    ensures queue.Valid() && (SumsCanonical(queue.ar) ==> ok)
    ensures ok <==> !(queue.asserts && MisreadOp(queue.ar, r, op))
    ensures ok ==> Follows(queue, Step(queue.size, RuleFor(queue), r, op), more)
  {
    ok, more := true, out;
    match op
    case OpPush(n, u) =>
      assert queue.ar.wrap(queue.ar.wrap(n)) == queue.ar.wrap(n) by { assert WrapsOnce(queue.ar, n); }
      ok := queue.Push(queue.ar.wrap(n), u, n);
    case OpPull =>
      var pulled, seqNum, user := queue.Pull();
      if pulled { more := out + [(seqNum, user)]; }
    case OpDrop(index) =>
      queue.Drop(index);
    case OpStrategy(s) =>
      queue.SetDropStrategy(s);
  }

  /** Any run of a new queue and its final teardown. The run goes through, with assertions compiled in
      exactly when no push is misread, as none is on a 32-bit queue, and always without them. What is
      pulled are the elements of strictly increasing numbers. Every element pushed is pulled or handed
      to the drop callback exactly once, if and only if no explicit drop found an element and, without
      assertions, no push overwrote one. */
  method RunAndTearDown<T(0)>(queue: Queue<T>, ops: seq<Op<T>>) returns (ok: bool, out: seq<(nat, T)>, ghost r: Run<T>)
    requires Follows(queue, Init(queue.q.begin), [])
    requires Legal(queue.size, RuleFor(queue), queue.ar.half, queue.q.begin, ops)
    modifies queue, queue.queue
    ensures SumsCanonical(queue.ar) ==> ok
    ensures ok <==> (queue.asserts ==> ReadsAll(queue.ar, queue.size, RuleFor(queue), old(queue.q.begin), ops))
    ensures r == RunAll(queue.size, RuleFor(queue), old(queue.q.begin), ops)
    ensures ok ==> queue.Delivers(out, r.pulled) && Increasing(r)
    ensures ok ==> ConservedUnless(queue, r, old(queue.q.begin), ops)
  {
    ghost var begin, size := queue.q.begin, queue.size;
    r := RunAll(size, RuleFor(queue), begin, ops);
    ok, out := RunOps(queue, ops, begin);
    if ok { TearDown(queue, ops, out, begin); }
  }

  /** Of two ways in which elements are not conserved, each one decides when the other does not occur. */
  ghost predicate ConservedUnless<T(0)>(queue: Queue<T>, r: Run<T>, begin: int, ops: seq<Op<T>>)
    requires queue.size > 0
    reads queue
  {
    var drops := !NoDropFires(queue.size, RuleFor(queue), begin, ops);
    var overwrites := !NoneOverwritten(queue.size, RuleFor(queue), begin, ops);
    var conserved := multiset(r.pushed) == multiset(r.pulled) + multiset(queue.drops);
    (!overwrites ==> (conserved <==> !drops)) && (!drops ==> (conserved <==> !overwrites))
  }

  /** With assertions compiled in, no push overwrites an element; without, one does just when a 16-bit
      number comes a second time, its first element waits at the start, and the start was moved there
      by one and is 0 modulo 2^16. */
  lemma OverwritesExactly<T>(asserts: bool, r: Run<T>, n: int)
    requires r.q.begin >= 0
    ensures Overwrites(RuleOf(ArithOf(W16), asserts), r, n) <==>
      !asserts && CanPull(r.q) && n == r.q.begin && r.moved && n % 0x10000 == 0
    ensures !Overwrites(RuleOf(ArithOf(W32), asserts), r, n)
  {
    RuleAtWrap(r.q.begin, r.moved, asserts);
    SumsCanonical32();
    var ar := ArithOf(W32);
    assert SumCanonical(ar, ar.wrap(r.q.begin - 1), 1);
    WrapTwice32(r.q.begin);
  }

  lemma WrapTwice32(x: nat)
    ensures Canonical(ArithOf(W32), ArithOf(W32).wrap(x))
  {
    WrapTwice(W32, x);
  }

  method RunOps<T(0)>(queue: Queue<T>, ops: seq<Op<T>>, ghost begin: int) returns (ok: bool, out: seq<(nat, T)>)
    requires queue.size > 0 && Follows(queue, RunAll(queue.size, RuleFor(queue), begin, []), [])
    requires Legal(queue.size, RuleFor(queue), queue.ar.half, begin, ops)
    modifies queue, queue.queue
    ensures SumsCanonical(queue.ar) ==> ok
    ensures ok <==> (queue.asserts ==> ReadsAll(queue.ar, queue.size, RuleFor(queue), begin, ops))
    ensures ok ==> Follows(queue, RunAll(queue.size, RuleFor(queue), begin, ops), out)
    decreases |ops|
  {
    if ops == [] { return true, []; }
    var n := |ops| - 1;
    ok, out := RunOps(queue, ops[..n], begin);
    if ok { ok, out := RunOne(queue, ops[n], out, RunAll(queue.size, RuleFor(queue), begin, ops[..n])); }
  }

  /** The end of a run: what is still held goes to the drop callback. */
  method TearDown<T(0)>(queue: Queue<T>, ghost ops: seq<Op<T>>, ghost out: seq<(nat, T)>, ghost begin: int)
    requires queue.size > 0 && Follows(queue, RunAll(queue.size, RuleFor(queue), begin, ops), out)
    modifies queue`drops
    ensures
      var r := RunAll(queue.size, RuleFor(queue), begin, ops);
      Increasing(r) && ConservedUnless(queue, r, begin, ops)
  {
    Conservation(queue.size, RuleFor(queue), begin, ops);
    ConservationAtTeardown(queue.size, RuleFor(queue), begin, ops);
    queue.Fini();
  }

  // ---------------------------------------------------------------- in-order delivery

  lemma AdmissibleTake(size: nat, begin: int, nums: seq<int>, i: nat)
    requires i <= |nums| && Admissible(size, begin, nums)
    ensures Admissible(size, begin, nums[..i])
  {
    forall j | 0 <= j < i ensures nums[..i][j] == nums[j] && nums[..i][..j] == nums[..j] {}
  }

  lemma DeliverNext<T>(size: nat, strategy: Strategy, begin: int, nums: seq<int>, user: int -> T, i: nat)
    requires size > 0 && i < |nums|
    ensures
      var (q, out, drops) := Deliver(size, strategy, begin, nums[..i], user);
      var (p, d) := Push(q, size, strategy, nums[i], user(nums[i]));
      |q.window| <= size && Deliver(size, strategy, begin, nums[..i + 1], user) == (Dry(p).0, out + Dry(p).1, drops + d)
  {
    assert nums[..i + 1][..i] == nums[..i];
  }

  /** In an admissible run the next number lies within a queue length of the start of the window. */
  lemma NextInReach<T>(q: State<T>, size: nat, begin: int, nums: seq<int>, i: nat, user: int -> T)
    requires i < |nums| && Admissible(size, begin, nums)
    requires Tracks(q, begin, Seen(nums[..i]), user) && q.begin !in Seen(nums[..i])
    ensures q.begin <= nums[i] < q.begin + size
  {
    var n, init := nums[i], nums[..i];
    var seen := Seen(init);
    assert n !in init;
    assert begin <= n < q.begin ==> n in seen;
    assert q.begin <= n - size ==> q.begin in init;
  }

  /** What the next push and the pulls after it do. */
  lemma NextPush<T>(size: nat, strategy: Strategy, begin: int, nums: seq<int>, user: int -> T, i: nat)
    requires size > 0 && i < |nums| && Admissible(size, begin, nums)
    ensures
      var (q, out, drops) := Deliver(size, strategy, begin, nums[..i], user);
      && q.begin <= nums[i] < q.begin + size
      && Push(q, size, strategy, nums[i], user(nums[i])).1 == []
      && var (last, more) := Dry(Push(q, size, strategy, nums[i], user(nums[i])).0);
      && Deliver(size, strategy, begin, nums[..i + 1], user).0 == last
      && Deliver(size, strategy, begin, nums[..i + 1], user).1 == out + more
  {
    AdmissibleTake(size, begin, nums, i);
    AdmissibleTake(size, begin, nums, i + 1);
    DeliverPrefix(size, strategy, begin, nums[..i], user);
    DeliverPrefix(size, strategy, begin, nums[..i + 1], user);
    NextInReach(Deliver(size, strategy, begin, nums[..i], user).0, size, begin, nums, i, user);
    DeliverNext(size, strategy, begin, nums, user, i);
  }

  /** What has been delivered in the end. */
  lemma AllDelivered<T>(size: nat, strategy: Strategy, begin: int, nums: seq<int>, user: int -> T)
    requires size > 0 && Admissible(size, begin, nums)
    ensures
      var (q, out, drops) := Deliver(size, strategy, begin, nums, user);
      && q.begin >= begin && q.begin !in nums && out == InOrder(begin, q.begin, user)
      && ((forall x :: x in nums <==> begin <= x < begin + |nums|) ==> q.begin == begin + |nums|)
  {
    DeliverPrefix(size, strategy, begin, nums, user);
    assert Deliver(size, strategy, begin, nums, user).0.begin !in Seen(nums);
    if forall x :: x in nums <==> begin <= x < begin + |nums| {
      InOrderDelivery(size, strategy, begin, nums, user);
    }
  }

  /** The numbers before `i` leave the queue with the first missing number `b` as its start, and a
      window that ends behind the largest one, or at `b` when that is larger. */
  lemma StateByOrder<T>(size: nat, strategy: Strategy, begin: int, nums: seq<int>, user: int -> T, b: int, e: int)
    requires size > 0 && Admissible(size, begin, nums)
    requires b >= begin && b !in nums && forall x :: begin <= x < b ==> x in nums
    requires e >= b && (e == b || e - 1 in nums) && forall x :: x in nums ==> x < e
    ensures var q := Deliver(size, strategy, begin, nums, user).0; q.begin == b && q.End() == e
  {
    DeliverPrefix(size, strategy, begin, nums, user);
    var q, seen := Deliver(size, strategy, begin, nums, user).0, Seen(nums);
    assert forall x :: x in seen <==> x in nums;
    FirstMissing(q, begin, seen, user, b);
    LastSeen(q, begin, seen, user, e);
  }

  lemma FirstMissing<T>(q: State<T>, begin: int, seen: set<int>, user: int -> T, b: int)
    requires Tracks(q, begin, seen, user) && q.begin !in seen
    requires b >= begin && b !in seen && forall x :: begin <= x < b ==> x in seen
    ensures q.begin == b
  {
    assert b < q.begin ==> b in seen;
  }

  lemma LastSeen<T>(q: State<T>, begin: int, seen: set<int>, user: int -> T, e: int)
    requires Tracks(q, begin, seen, user) && Trimmed(q)
    requires e >= q.begin && (e == q.begin || e - 1 in seen) && forall x :: x in seen ==> x < e
    ensures q.End() == e
  {
    var k := |q.window| - 1;
    if k >= 0 {
      assert q.window[k].Some?;
      assert q.begin + k in seen;
    }
  }

  /** Push `i` is misread, given whether the start was moved before the run. The start has been moved
      as soon as anything has been delivered. */
  ghost predicate MisreadPush<T>(ar: Arith, size: nat, strategy: Strategy, begin: int, moved: bool,
                                 nums: seq<int>, user: int -> T, i: nat)
    requires size > 0 && i < |nums|
  {
    var q := Deliver(size, strategy, begin, nums[..i], user).0;
    Misread(ar, Stored(ar, q.begin, moved || q.begin > begin), |q.window|, nums[i] - q.begin)
  }

  /** In terms of the order alone, for 16-bit numbers: with `b` the first missing number and `e` the
      end of the window, push `i` is misread in just two cases at the wrap. */
  lemma MisreadByOrder<T>(size: nat, strategy: Strategy, begin: nat, moved: bool, nums: seq<int>,
                          user: int -> T, i: nat, b: int, e: int)
    requires 0 < size <= 0x4000 && i < |nums| && Admissible(size, begin, nums)
    requires b >= begin && b !in nums[..i] && forall x :: begin <= x < b ==> x in nums[..i]
    requires e >= b && (e == b || e - 1 in nums[..i]) && forall x :: x in nums[..i] ==> x < e
    ensures MisreadPush(ArithOf(W16), size, strategy, begin, moved, nums, user, i) <==>
      if (moved || b > begin) && b % 0x10000 == 0 then nums[i] == b && e > b
      else nums[i] == e && b % 0x10000 + (e - b) >= 0x10000
  {
    AdmissibleTake(size, begin, nums, i);
    StateByOrder(size, strategy, begin, nums[..i], user, b, e);
    MisreadAtWrap(b, moved || b > begin, e - b, nums[i]);
  }

  /** Numbers that arrive in order are never misread, wherever the start is and however it is stored. */
  lemma InOrderNeverMisread<T>(size: nat, strategy: Strategy, begin: nat, moved: bool, nums: seq<int>,
                               user: int -> T, i: nat)
    requires 0 < size <= 0x4000 && i < |nums| && forall j :: 0 <= j < |nums| ==> nums[j] == begin + j
    ensures Admissible(size, begin, nums)
    ensures !MisreadPush(ArithOf(W16), size, strategy, begin, moved, nums, user, i)
  {
    InOrderAdmissible(size, begin, nums);
    InOrderMembers(begin, nums, i);
    MisreadByOrder(size, strategy, begin, moved, nums, user, i, begin + i, begin + i);
  }

  lemma InOrderAdmissible(size: nat, begin: int, nums: seq<int>)
    requires size > 0 && forall j :: 0 <= j < |nums| ==> nums[j] == begin + j
    ensures Admissible(size, begin, nums)
  {
    forall j | 0 <= j < |nums|
      ensures nums[j] >= begin && nums[j] !in nums[..j]
      ensures forall x :: begin <= x <= nums[j] - size ==> x in nums[..j]
    {
      InOrderMembers(begin, nums, j);
    }
  }

  lemma InOrderMembers(begin: int, nums: seq<int>, i: nat)
    requires i <= |nums| && forall j :: 0 <= j < |nums| ==> nums[j] == begin + j
    ensures forall x :: x in nums[..i] <==> begin <= x < begin + i
  {
    var before := nums[..i];
    forall x | begin <= x < begin + i ensures x in before {
      assert before[x - begin] == x;
    }
  }

  /** Push numbers in an admissible order and pull the queue dry after each: the ring delivers the
      unbroken sequence so far and reports no drop; and when the numbers are all those from the start
      on, exactly that sequence, across any number of wraps. The run goes through exactly when no push
      is misread or assertions are compiled out; no push is misread on a 32-bit queue. */
  method DeliverAll<T(0)>(queue: Queue<T>, nums: seq<int>, user: int -> T) returns (ok: bool, out: seq<(nat, T)>)
    requires queue.Valid() && queue.q.window == [] && Admissible(queue.size, queue.q.begin, nums)
    modifies queue, queue.queue
    ensures queue.Valid() && (SumsCanonical(queue.ar) ==> ok)
    ensures ok <==> (queue.asserts ==> forall i :: 0 <= i < |nums| ==>
      !MisreadPush(queue.ar, queue.size, queue.strategy, old(queue.q.begin), old(queue.moved), nums, user, i))
    ensures ok ==> queue.drops == old(queue.drops) && queue.q.begin >= old(queue.q.begin)
    ensures ok ==> queue.Delivers(out, InOrder(old(queue.q.begin), queue.q.begin, user)) && queue.q.begin !in nums
    ensures ok && (forall x :: x in nums <==> old(queue.q.begin) <= x < old(queue.q.begin) + |nums|) ==>
      queue.q.begin == old(queue.q.begin) + |nums|
  {
    ghost var begin, size, strategy, moved := queue.q.begin, queue.size, queue.strategy, queue.moved;
    out := [];
    for i := 0 to |nums|
      invariant queue.drops == old(queue.drops)
      invariant HasDelivered(queue, strategy, begin, moved, nums[..i], user, out)
      invariant queue.asserts ==>
        forall j :: 0 <= j < i ==> !MisreadPush(queue.ar, size, strategy, begin, moved, nums, user, j)
    {
      ok, out := DeliverOne(queue, strategy, begin, moved, nums, user, i, out);
      if !ok { return; }
    }
    assert nums[..|nums|] == nums;
    AllDelivered(size, strategy, begin, nums, user);
    ok := true;
  }

  ghost predicate HasDelivered<T(0)>(queue: Queue<T>, strategy: Strategy, begin: int, moved: bool,
                                     nums: seq<int>, user: int -> T, out: seq<(nat, T)>)
    reads queue, queue.queue
  {
    && queue.Valid() && queue.strategy == strategy
    && queue.q == Deliver(queue.size, strategy, begin, nums, user).0
    && queue.moved == (moved || queue.q.begin > begin)
    && queue.Delivers(out, Deliver(queue.size, strategy, begin, nums, user).1)
  }

  method DeliverOne<T(0)>(queue: Queue<T>, ghost strategy: Strategy, ghost begin: int, ghost moved: bool,
                          nums: seq<int>, user: int -> T, i: nat, out: seq<(nat, T)>)
    returns (ok: bool, more: seq<(nat, T)>)
    requires i < |nums| && HasDelivered(queue, strategy, begin, moved, nums[..i], user, out)
    requires Admissible(queue.size, begin, nums)
    modifies queue, queue.queue
    ensures queue.Valid() && queue.strategy == strategy && (SumsCanonical(queue.ar) ==> ok)
    ensures ok <==> !(queue.asserts && MisreadPush(queue.ar, queue.size, strategy, begin, moved, nums, user, i))
    ensures ok ==> HasDelivered(queue, strategy, begin, moved, nums[..i + 1], user, more)
    ensures ok ==> queue.drops == old(queue.drops)
  {
    NextPush(queue.size, strategy, begin, nums, user, i);
    PulledMoves(queue.size, strategy, begin, nums, user, i);
    ghost var before := Deliver(queue.size, strategy, begin, nums[..i], user).1;
    ghost var p := Push(queue.q, queue.size, strategy, nums[i], user(nums[i])).0;
    ok, more := PushAndPull(queue, nums[i], user(nums[i]));
    if ok { DeliversMore(queue, out, before, more, Dry(p).1); }
    more := out + more;
  }

  lemma DeliversMore<T(0)>(queue: Queue<T>, out: seq<(nat, T)>, items: seq<Item<T>>,
                           more: seq<(nat, T)>, rest: seq<Item<T>>)
    requires queue.Delivers(out, items) && queue.Delivers(more, rest)
    ensures queue.Delivers(out + more, items + rest)
  {
  }

  /** The start moves exactly when something is delivered. */
  lemma PulledMoves<T>(size: nat, strategy: Strategy, begin: int, nums: seq<int>, user: int -> T, i: nat)
    requires size > 0 && i < |nums| && Admissible(size, begin, nums)
    ensures
      var q := Deliver(size, strategy, begin, nums[..i], user).0;
      var (last, more) := Dry(Push(q, size, strategy, nums[i], user(nums[i])).0);
      && q.begin >= begin && last.begin >= q.begin && (last.begin > q.begin <==> more != [])
      && !MovedByPush(q, size, strategy, nums[i], false) && MovedByPush(q, size, strategy, nums[i], true)
  {
    NextPush(size, strategy, begin, nums, user, i);
    AdmissibleTake(size, begin, nums, i);
    AllDelivered(size, strategy, begin, nums[..i], user);
    var q := Deliver(size, strategy, begin, nums[..i], user).0;
    var p := Push(q, size, strategy, nums[i], user(nums[i])).0;
    assert p.begin == q.begin;
    DryMoves(p);
  }

  lemma {:induction false} DryMoves<T>(q: State<T>)
    ensures Dry(q).0.begin == q.begin + |Dry(q).1|
    decreases |q.window|
  {
    if CanPull(q) { DryMoves(Pull(q).0); }
  }

  /** The queue has kept one more number and delivered everything that was then ready. */
  ghost predicate KeptAndPulled<T(0)>(q: State<T>, size: nat, strategy: Strategy, n: int, u: T, moved: bool,
                                      queue: Queue<T>, out: seq<(nat, T)>)
    requires size > 0 && |q.window| <= size
    reads queue
  {
    var p := Push(q, size, strategy, n, u).0;
    && queue.q == Dry(p).0 && queue.Delivers(out, Dry(p).1)
    && queue.moved == (MovedByPush(q, size, strategy, n, moved) || Dry(p).1 != [])
  }

  /** Push one number that is kept, and pull everything that is then ready. */
  method PushAndPull<T(0)>(queue: Queue<T>, n: int, u: T) returns (ok: bool, out: seq<(nat, T)>)
    requires queue.Valid() && queue.q.begin <= n < queue.q.begin + queue.size
    requires Push(queue.q, queue.size, queue.strategy, n, u).1 == []
    modifies queue, queue.queue
    ensures queue.Valid() && queue.strategy == old(queue.strategy) && (SumsCanonical(queue.ar) ==> ok)
    ensures
      var start := old(queue.q.begin);
      var stored := Stored(queue.ar, start, old(queue.moved));
      ok <==> !(queue.asserts && Misread(queue.ar, stored, |old(queue.q.window)|, n - start))
    ensures ok ==> KeptAndPulled(old(queue.q), queue.size, queue.strategy, n, u, old(queue.moved), queue, out)
    ensures ok ==> queue.drops == old(queue.drops)
  {
    assert queue.ar.wrap(queue.ar.wrap(n)) == queue.ar.wrap(n) by { assert WrapsOnce(queue.ar, n); }
    out := [];
    ok := queue.Push(queue.ar.wrap(n), u, n);
    if ok { out := queue.PullAll(); }
  }

  /** A 16-bit queue that starts at 0xfffe receives 0xffff and then 0 while 0xfffe is missing: the
      second push fails its assertion. */
  method MisreadRun() returns (ok: bool)
    ensures !ok
  {
    var queue := new Queue<int>(W16, 2, 0xfffe, true);
    MisreadAtWrap(0xfffe, false, 0, 0xffff);
    MisreadAtWrap(0xfffe, false, 2, 0x10000);
    assert Pow2(2) == 4;
    ok := queue.Push(0xffff, 1, 0xffff);
    assert |queue.q.window| == 2;
    ok := queue.Push(0, 2, 0x10000);
  }

  /** A 16-bit queue without assertions delivers 0xffff and then receives 0 twice: the second element
      takes the place of the first, which is never pulled and never reported. */
  method OverwriteRun() returns (user: int, ghost reported: nat)
    ensures user == 3 && reported == 0
  {
    var queue := AtWrap();
    RuleAtWrap(0x10000, true, false);
    var ok := queue.Push(0, 2, 0x10000);
    assert queue.q.window == [Some(2)];
    ok := queue.Push(0, 3, 0x10000);
    var pulled, seqNum;
    pulled, seqNum, user := queue.Pull();
    reported := |queue.drops|;
  }

  /** A 16-bit queue whose start has just been moved to 0x10000. */
  method AtWrap() returns (queue: Queue<int>)
    ensures fresh(queue) && fresh(queue.queue) && queue.Valid() && queue.dropCb && !queue.asserts
    ensures queue.ar == ArithOf(W16) && queue.size == 4 && queue.strategy == DropEnd && queue.moved
    ensures queue.q == State(0x10000, []) && queue.drops == []
  {
    queue := new Queue<int>(W16, 2, 0xffff, false);
    queue.SetDropCb();
    assert Pow2(2) == 4;
    var ok := queue.Push(0xffff, 1, 0xffff);
    var pulled, seqNum, user := queue.Pull();
  }
}
