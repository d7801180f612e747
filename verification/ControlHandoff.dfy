/** The hand-off of work to the control thread (lib/src/ctrl.c, lib/src/stoppipe.c). Other threads
    leave messages, a PIN or a request to stop under a mutex and signal a pipe; the control thread
    waits on the pipe and the socket together. Every step below is atomic, and theorems are about
    all interleavings of the steps of any number of senders with those of the control thread. */
module ControlHandoff {
  import opened Wrappers

  type Pin = seq<char>

  datatype Item<+M> = Sent(message: M) | SentPin(pin: Pin)

  /** Where the control thread is. It holds the mutex while Busy or Draining; while it starts and
      connects, others may already leave work for it. */
  datatype Place =
    | Connecting
    | Busy
    | Selecting
    | Woken(canceled: bool)
    | Draining(updated: bool)
    | Ended

  /** `inFlight` counts senders that have queued their message but not yet signalled the pipe.
      `out` is what the thread has sent, `enqueued` all messages ever queued, in order. */
  datatype State<+M> = State(
    queue: seq<M>, pin: Option<Pin>, shouldStop: bool, pipe: nat, inFlight: nat, place: Place,
    out: seq<Item<M>>, enqueued: seq<M>)

  datatype Action<+M> =
    | Append(message: M)
    | Signal
    | SetPin(pin: Pin)
    | Stop
    | Connected
    | Unlock
    | WakeCanceled
    | WakeReadable
    | Lock
    | SendOne
    | Finish
    | Fail

  function Init<M>(): State<M> { State([], None, false, 0, 0, Connecting, [], []) }

  predicate MutexFree(s: State) { s.place.Connecting? || s.place.Selecting? || s.place.Woken? || s.place.Ended? }

  /** One atomic step, if it is possible now. */
  function Step<M>(s: State<M>, a: Action<M>): Option<State<M>> {
    match a
    case Append(m) =>
      if MutexFree(s) then Some(s.(queue := s.queue + [m], enqueued := s.enqueued + [m], inFlight := s.inFlight + 1))
        else None
    case Signal => if s.inFlight > 0 then Some(s.(inFlight := s.inFlight - 1, pipe := s.pipe + 1)) else None
    case SetPin(pin) => if MutexFree(s) then Some(s.(pin := Some(pin), pipe := s.pipe + 1)) else None
    case Stop => if MutexFree(s) then Some(s.(shouldStop := true, pipe := s.pipe + 1)) else None
    case Connected => if s.place.Connecting? then Some(s.(place := Busy)) else None
    case Unlock => if s.place.Busy? then Some(s.(place := Selecting)) else None
    case WakeCanceled => if s.place.Selecting? && s.pipe > 0 then Some(s.(place := Woken(true))) else None
    case WakeReadable => if s.place.Selecting? && s.pipe == 0 then Some(s.(place := Woken(false))) else None
    case Lock => if s.place.Woken? then Some(s.(place := if s.place.canceled then Draining(false) else Busy)) else None
    case SendOne =>
      if s.place.Draining? && s.queue != [] then
        Some(s.(out := s.out + [Sent(s.queue[0])], queue := s.queue[1..], place := Draining(true)))
      else None
    case Finish =>
      if s.place.Draining? && s.queue == [] then
        if s.pin.Some? then Some(s.(out := s.out + [SentPin(s.pin.value)], pin := None, pipe := 0, place := Busy))
        else if s.shouldStop then Some(s.(place := Ended))
        else if s.place.updated then Some(s.(pipe := 0, place := Busy))
        else Some(s.(place := Busy))
      else None
    case Fail => if s.place.Busy? || s.place.Connecting? then Some(s.(place := Ended)) else None
  }

  function Run<M>(s: State<M>, actions: seq<Action<M>>): Option<State<M>>
    decreases |actions|
  {
    if actions == [] then Some(s)
    else
      match Step(s, actions[0])
      case None => None
      case Some(next) => Run(next, actions[1..])
  }

  ghost predicate Reachable<M(!new)>(s: State<M>) { exists actions :: Run(Init(), actions) == Some(s) }

  function Messages<M>(out: seq<Item<M>>): seq<M> {
    if out == [] then []
    else
      var last := out[|out| - 1];
      Messages(out[..|out| - 1]) + if last.Sent? then [last.message] else []
  }

  // ---------------------------------------------------------------- no lost wake-up, order

  /** Whatever waits for the thread is announced: by the pipe, or by a sender about to signal it. */
  predicate Announced(s: State) {
    && (s.queue != [] ==> s.pipe > 0 || s.inFlight > 0)
    && (s.pin.Some? ==> s.pipe > 0)
    && ((s.place.Draining? || (s.place.Woken? && s.place.canceled)) ==> s.pipe > 0)
  }

  /** Messages are sent once each, in the order in which they were queued. */
  predicate InOrder<M(==)>(s: State<M>) { Messages(s.out) + s.queue == s.enqueued }

  lemma AnnouncedStep<M>(s: State<M>, a: Action<M>)
    requires Announced(s) && Step(s, a).Some?
    ensures Announced(Step(s, a).value)
  {
  }

  lemma InOrderStep<M>(s: State<M>, a: Action<M>)
    requires InOrder(s) && Step(s, a).Some?
    ensures InOrder(Step(s, a).value)
  {
    var next := Step(s, a).value;
    match a
    case Append(m) => assert Messages(s.out) + (s.queue + [m]) == Messages(s.out) + s.queue + [m];
    case SendOne =>
      assert next.out[..|s.out|] == s.out;
      assert Messages(s.out) + [s.queue[0]] + s.queue[1..] == Messages(s.out) + s.queue;
    case Finish =>
      if s.pin.Some? { assert next.out[..|s.out|] == s.out; }
    case _ =>
  }

  lemma {:induction false} RunKeeps<M>(s: State<M>, actions: seq<Action<M>>)
    requires Announced(s) && InOrder(s) && Run(s, actions).Some?
    ensures Announced(Run(s, actions).value) && InOrder(Run(s, actions).value)
    decreases |actions|
  {
    if actions != [] {
      AnnouncedStep(s, actions[0]);
      InOrderStep(s, actions[0]);
      RunKeeps(Step(s, actions[0]).value, actions[1..]);
    }
  }

  /** No lost wake-up, in any interleaving; and what was sent followed by what is queued is what was queued. */
  lemma NoLostWakeUp<M(!new)>(s: State<M>)
    requires Reachable(s)
    ensures s.place.Selecting? && (s.queue != [] || s.pin.Some?) ==> s.pipe > 0 || s.inFlight > 0
    ensures s.pin.Some? ==> s.pipe > 0
    ensures Messages(s.out) + s.queue == s.enqueued
  {
    var actions :| Run(Init<M>(), actions) == Some(s);
    RunKeeps(Init<M>(), actions);
  }

  /** The PIN entered last, unless a turn has ended since. */
  function LastPin<M>(actions: seq<Action<M>>): Option<Pin> {
    if actions == [] then None
    else
      match actions[|actions| - 1]
      case SetPin(pin) => Some(pin)
      case Finish => None
      case _ => LastPin(actions[..|actions| - 1])
  }

  /** Of several PINs entered before a turn only the last one is kept. */
  lemma {:induction false} PinIsLast<M>(actions: seq<Action<M>>)
    requires Run(Init(), actions).Some?
    ensures Run(Init(), actions).value.pin == LastPin(actions)
  {
    if actions != [] {
      var n := |actions| - 1;
      var init, last := actions[..n], actions[n];
      assert actions == init + [last];
      RunAppend(Init(), init, [last]);
      PinIsLast(init);
      var s := Run(Init(), init).value;
      assert Run(s, [last]) == Step(s, last) by { assert [last][1..] == []; }
    }
  }

  // ---------------------------------------------------------------- progress

  function SendAll<M>(n: nat): seq<Action<M>> { if n == 0 then [] else [SendOne] + SendAll(n - 1) }

  function Sents<M>(queue: seq<M>): (r: seq<Item<M>>)
    ensures |r| == |queue|
  {
    if queue == [] then [] else [Sent(queue[0])] + Sents(queue[1..])
  }

  lemma {:induction false} RunAppend<M>(s: State<M>, a: seq<Action<M>>, b: seq<Action<M>>)
    ensures Run(s, a + b) == match Run(s, a) case None => None case Some(mid) => Run(mid, b)
    decreases |a|
  {
    if a == [] {
      assert a + b == b;
    } else {
      assert (a + b)[1..] == a[1..] + b;
      if Step(s, a[0]).Some? { RunAppend(Step(s, a[0]).value, a[1..], b); }
    }
  }

  lemma {:induction false} DrainQueue<M>(s: State<M>)
    requires s.place.Draining?
    ensures Run(s, SendAll(|s.queue|))
         == Some(s.(out := s.out + Sents(s.queue), queue := [], place := Draining(s.place.updated || s.queue != [])))
    decreases |s.queue|
  {
    if s.queue == [] {
      assert s.out + [] == s.out;
    } else {
      var next := Step(s, SendOne).value;
      DrainQueue(next);
      assert s.out + [Sent(s.queue[0])] + Sents(s.queue[1..]) == s.out + ([Sent(s.queue[0])] + Sents(s.queue[1..]));
      assert SendAll<M>(|s.queue|)[1..] == SendAll(|next.queue|);
    }
  }

  /** One turn of the thread, once it has been woken by the pipe. */
  function Turn<M>(queued: nat): seq<Action<M>> { [WakeCanceled, Lock] + SendAll(queued) + [Finish] }

  /** What a turn does: everything queued goes out in order, then the PIN. */
  lemma TurnWorks<M>(s: State<M>)
    requires s.place.Selecting? && s.pipe > 0
    ensures Run(s, Turn(|s.queue|)).Some?
    ensures var t := Run(s, Turn(|s.queue|)).value;
      && t.queue == [] && t.pin == None && t.enqueued == s.enqueued
      && t.out == s.out + Sents(s.queue) + (if s.pin.Some? then [SentPin(s.pin.value)] else [])
      && (t.place.Ended? <==> s.shouldStop && s.pin.None?)
  {
    var awake := s.(place := Draining(false));
    var front: seq<Action<M>> := [WakeCanceled, Lock];
    var lock: seq<Action<M>> := [Lock];
    assert front[1..] == lock && lock[1..] == [];
    assert Run(s, front) == Some(awake) by {
      assert Run(s.(place := Woken(true)), lock) == Run(awake, []);
    }
    RunAppend(s, front, SendAll(|s.queue|));
    RunAppend(s, front + SendAll(|s.queue|), [Finish]);
    DrainQueue(awake);
    var last: seq<Action<M>> := [Finish];
    assert last[1..] == [];
  }

  // ---------------------------------------------------------------- stopping

  /** A request to stop that the thread has not obeyed is announced. */
  predicate StopAnnounced(s: State) { s.shouldStop && !s.place.Ended? ==> s.pipe > 0 }

  /** The one step that swallows a request to stop: sending the PIN clears the pipe before the thread looks. */
  predicate Swallows<M(==)>(s: State<M>, a: Action<M>) { a == Finish && s.shouldStop && s.pin.Some? }

  /** Exactly this step loses the announcement, and it loses it always. */
  lemma StopExact<M>(s: State<M>, a: Action<M>)
    requires Announced(s) && StopAnnounced(s) && Step(s, a).Some?
    ensures StopAnnounced(Step(s, a).value) <==> !Swallows(s, a)
  {
  }

  predicate Swallowed<M(==)>(s: State<M>, actions: seq<Action<M>>)
    decreases |actions|
  {
    actions != [] &&
      (Swallows(s, actions[0])
       || (Step(s, actions[0]).Some? && Swallowed(Step(s, actions[0]).value, actions[1..])))
  }

  predicate SetsPin<M(==)>(actions: seq<Action<M>>) { exists i :: 0 <= i < |actions| && actions[i].SetPin? }

  lemma {:induction false} StopStaysAnnounced<M>(s: State<M>, actions: seq<Action<M>>)
    requires Announced(s) && StopAnnounced(s) && Run(s, actions).Some? && !Swallowed(s, actions)
    ensures StopAnnounced(Run(s, actions).value)
    decreases |actions|
  {
    if actions != [] {
      StopExact(s, actions[0]);
      AnnouncedStep(s, actions[0]);
      StopStaysAnnounced(Step(s, actions[0]).value, actions[1..]);
    }
  }

  lemma {:induction false} NoPinNothingSwallowed<M>(s: State<M>, actions: seq<Action<M>>)
    requires s.pin.None? && Run(s, actions).Some? && !SetsPin(actions)
    ensures !Swallowed(s, actions) && Run(s, actions).value.pin.None?
    decreases |actions|
  {
    if actions != [] {
      assert !actions[0].SetPin?;
      assert forall i :: 0 <= i < |actions| - 1 ==> actions[1..][i] == actions[i + 1];
      NoPinNothingSwallowed(Step(s, actions[0]).value, actions[1..]);
    }
  }

  /** A stop requested while no PIN is pending, and none is entered later, is obeyed: in every
      interleaving it stays announced, and the next turn of the thread ends it. */
  lemma StopWorks<M(!new)>(s: State<M>, actions: seq<Action<M>>)
    requires Reachable(s) && s.pin.None? && Step(s, Stop).Some? && !SetsPin(actions)
    requires Run(Step(s, Stop).value, actions).Some?
    ensures var t := Run(Step(s, Stop).value, actions).value;
      && (t.place.Ended? || t.pipe > 0)
      && (t.place.Selecting? ==> Run(t, Turn(|t.queue|)).Some? && Run(t, Turn(|t.queue|)).value.place.Ended?)
  {
    var before :| Run(Init<M>(), before) == Some(s);
    RunKeeps(Init<M>(), before);
    var stopped := Step(s, Stop).value;
    NoPinNothingSwallowed(stopped, actions);
    StopStaysAnnounced(stopped, actions);
    StopPersists(stopped, actions);
    var t := Run(stopped, actions).value;
    if t.place.Selecting? { TurnWorks(t); }
  }

  lemma {:induction false} StopPersists<M>(s: State<M>, actions: seq<Action<M>>)
    requires s.shouldStop && Run(s, actions).Some?
    ensures Run(s, actions).value.shouldStop
    decreases |actions|
  {
    if actions != [] { StopPersists(Step(s, actions[0]).value, actions[1..]); }
  }

  /** With a PIN pending the request is lost: the thread waits, and nothing will wake it. */
  lemma StopLost<M>(pin: Pin)
    ensures var actions: seq<Action<M>> := [Unlock, SetPin(pin), Stop, WakeCanceled, Lock, Finish, Unlock];
      Run(Init(), [Connected] + actions) == Some(State([], None, true, 0, 0, Selecting, [SentPin(pin)], []))
  {
    var actions: seq<Action<M>> := [Unlock, SetPin(pin), Stop, WakeCanceled, Lock, Finish, Unlock];
    var s0 := Connect(actions);
    var s1 := s0.(place := Selecting);
    var s2 := s1.(pin := Some(pin), pipe := 1);
    var s3 := s2.(shouldStop := true, pipe := 2);
    var s4 := s3.(place := Woken(true));
    var s5 := s4.(place := Draining(false));
    var s6 := s5.(out := [SentPin(pin)], pin := None, pipe := 0, place := Busy);
    assert s5.out + [SentPin(pin)] == s6.out;
    Unroll7(s0, Unlock, SetPin(pin), Stop, WakeCanceled, Lock, Finish, Unlock);
  }

  /** A run that begins with the connection. */
  lemma Connect<M>(rest: seq<Action<M>>) returns (s: State<M>)
    ensures s == Init<M>().(place := Busy) && Run(Init(), [Connected] + rest) == Run(s, rest)
  {
    s := Init<M>().(place := Busy);
    var all: seq<Action<M>> := [Connected] + rest;
    assert all[0] == Connected && all[1..] == rest;
  }

  function Then<M>(s: Option<State<M>>, a: Action<M>): Option<State<M>> {
    match s
    case None => None
    case Some(s) => Step(s, a)
  }

  lemma Unroll7<M>(s: State<M>, a: Action<M>, b: Action<M>, c: Action<M>, d: Action<M>, e: Action<M>,
                   f: Action<M>, g: Action<M>)
    ensures Run(s, [a, b, c, d, e, f, g]) == Then(Then(Then(Then(Then(Then(Step(s, a), b), c), d), e), f), g)
  {
    assert [a, b, c, d, e, f] + [g] == [a, b, c, d, e, f, g] && [a, b, c, d, e] + [f] == [a, b, c, d, e, f];
    assert [a, b, c, d] + [e] == [a, b, c, d, e];
    RunLast(s, [a, b, c, d, e, f], g);
    RunLast(s, [a, b, c, d, e], f);
    RunLast(s, [a, b, c, d], e);
    Unroll4(s, a, b, c, d);
  }

  lemma Unroll4<M>(s: State<M>, a: Action<M>, b: Action<M>, c: Action<M>, d: Action<M>)
    ensures Run(s, [a, b, c, d]) == Then(Then(Then(Step(s, a), b), c), d)
  {
    assert [a, b, c] + [d] == [a, b, c, d] && [a, b] + [c] == [a, b, c] && [a] + [b] == [a, b];
    RunLast(s, [a, b, c], d);
    RunLast(s, [a, b], c);
    RunLast(s, [a], b);
    RunLast(s, [], a);
    assert [] + [a] == [a];
  }

  lemma RunLast<M>(s: State<M>, actions: seq<Action<M>>, a: Action<M>)
    ensures Run(s, actions + [a]) == Then(Run(s, actions), a)
  {
    RunAppend(s, actions, [a]);
    RunOne(a);
  }

  lemma RunOne<M>(a: Action<M>)
    ensures forall s: State<M> :: Run(s, [a]) == Step(s, a)
  {
    var none: seq<Action<M>> := [];
    assert [a][1..] == none;
  }

  // ---------------------------------------------------------------- late signals

  /** Nothing is left to do, and no reset of the pipe is due. */
  predicate Idle(s: State) {
    s.queue == [] && s.pin.None? && !s.shouldStop && !s.place.Ended? && !(s.place.Draining? && s.place.updated)
  }

  /** The pipe calls for a thread that has nothing to do. */
  predicate Spinning(s: State) { Idle(s) && s.pipe > 0 }

  predicate ByThread<M(==)>(a: Action<M>) { !a.Append? && !a.Signal? && !a.SetPin? && !a.Stop? }

  /** The thread gets into this state by a signal that comes after its message has been taken, and in no other way. */
  lemma SpinningExact<M>(s: State<M>, a: Action<M>)
    requires Announced(s) && !Spinning(s) && Step(s, a).Some?
    ensures Spinning(Step(s, a).value) <==> a == Signal && Idle(s)
  {
  }

  /** Once there, the thread by itself keeps waking up for nothing and never gets to read its socket. */
  lemma {:induction false} SpinsForever<M>(s: State<M>, actions: seq<Action<M>>)
    requires Spinning(s) && !(s.place.Woken? && !s.place.canceled)
    requires Run(s, actions).Some? && forall i :: 0 <= i < |actions| ==> ByThread(actions[i]) && actions[i] != Fail
    ensures Spinning(Run(s, actions).value) && Run(s, actions).value.out == s.out
    ensures forall i :: 0 <= i < |actions| ==> actions[i] != WakeReadable
    decreases |actions|
  {
    if actions != [] {
      assert ByThread(actions[0]) && actions[0] != Fail;
      assert forall i :: 0 <= i < |actions| - 1 ==> actions[1..][i] == actions[i + 1];
      SpinsForever(Step(s, actions[0]).value, actions[1..]);
      forall i | 0 <= i < |actions| ensures actions[i] != WakeReadable {
        if i > 0 { assert actions[i] == actions[1..][i - 1]; }
      }
    }
  }

  /** Two senders suffice: the thread takes both messages at the first signal, and the second signal comes late. */
  lemma LateSignal<M>(a: M, b: M)
    ensures
      var first: seq<Action<M>> := [Unlock, Append(a), Append(b), Signal, WakeCanceled, Lock, SendOne];
      var second: seq<Action<M>> := [SendOne, Finish, Unlock, Signal];
      Run(Init(), [Connected] + (first + second))
           == Some(State([], None, false, 1, 0, Selecting, [Sent(a), Sent(b)], [a, b]))
  {
    var first: seq<Action<M>> := [Unlock, Append(a), Append(b), Signal, WakeCanceled, Lock, SendOne];
    var second: seq<Action<M>> := [SendOne, Finish, Unlock, Signal];
    var mid := State([b], None, false, 1, 1, Draining(true), [Sent(a)], [a, b]);
    var connected := Connect(first + second);
    RunAppend(connected, first, second);
    FirstTaken(connected, a, b);
    Unroll4(mid, SendOne, Finish, Unlock, Signal);
    assert [b][1..] == [] && [Sent(a)] + [Sent(b)] == [Sent(a), Sent(b)];
  }

  lemma FirstTaken<M>(s: State<M>, a: M, b: M)
    requires s == Init<M>().(place := Busy)
    ensures Run(s, [Unlock, Append(a), Append(b), Signal, WakeCanceled, Lock, SendOne])
         == Some(State([b], None, false, 1, 1, Draining(true), [Sent(a)], [a, b]))
  {
    Unroll7(s, Unlock, Append(a), Append(b), Signal, WakeCanceled, Lock, SendOne);
    var none: seq<M>, nothing: seq<Item<M>> := [], [];
    assert none + [a] == [a] && [a] + [b] == [a, b] && [a, b][1..] == [b];
    assert nothing + [Sent(a)] == [Sent(a)];
  }

  // ---------------------------------------------------------------- the object

  class Ctrl<M(==)> {
    var msgQueue: seq<M>
    var loginPin: Option<Pin>
    var shouldStop: bool
    var notifPipe: nat
    var out: seq<Item<M>>
    ghost var inFlight: nat
    ghost var place: Place
    ghost var enqueued: seq<M>

    ghost function Abstract(): State<M>
      reads this
    {
      State(msgQueue, loginPin, shouldStop, notifPipe, inFlight, place, out, enqueued)
    }

    constructor ()
      ensures Abstract() == Init()
    {
      msgQueue, loginPin, shouldStop, notifPipe, out := [], None, false, 0, [];
      inFlight, place, enqueued := 0, Connecting, [];
    }

    /** The part of `send_message` under the mutex. */
    method QueueMessage(m: M)
      requires MutexFree(Abstract())
      modifies this
      ensures Step(old(Abstract()), Append(m)) == Some(Abstract())
    {
      msgQueue := msgQueue + [m];
      inFlight := inFlight + 1;
      enqueued := enqueued + [m];
    }

    /** The end of `send_message`, after the mutex has been released. */
    method SignalPipe()
      requires inFlight > 0
      modifies this
      ensures Step(old(Abstract()), Signal) == Some(Abstract())
    {
      notifPipe := notifPipe + 1;
      inFlight := inFlight - 1;
    }

    method SetLoginPin(pin: Pin)
      requires MutexFree(Abstract())
      modifies this
      ensures Step(old(Abstract()), SetPin(pin)) == Some(Abstract())
    {
      loginPin := Some(pin);
      notifPipe := notifPipe + 1;
    }

    method RequestStop()
      requires MutexFree(Abstract())
      modifies this
      ensures Step(old(Abstract()), Stop) == Some(Abstract())
    {
      shouldStop := true;
      notifPipe := notifPipe + 1;
    }

    /** What the thread does after a wake-up by the pipe, up to its next wait. */
    method HandleNotification() returns (running: bool)
      requires place.Draining? && !place.updated
      modifies this
      ensures Run(old(Abstract()), SendAll(|old(msgQueue)|) + [Finish]) == Some(Abstract())
      ensures running <==> !place.Ended?
    {
      ghost var start := Abstract();
      DrainQueue(start);
      RunAppend(start, SendAll(|start.queue|), [Finish]);
      var updated := SendQueue();
      ghost var finish: seq<Action<M>> := [Finish];
      assert finish[1..] == [];
      if loginPin.Some? {
        out := out + [SentPin(loginPin.value)];
        loginPin := None;
        notifPipe := 0;
        place := Busy;
        return true;
      }
      if shouldStop {
        place := Ended;
        return false;
      }
      if updated { notifPipe := 0; }
      place := Busy;
      return true;
    }

    method SendQueue() returns (updated: bool)
      requires place.Draining? && !place.updated
      modifies this
      ensures Abstract() == old(Abstract()).(queue := [], out := old(out) + Sents(old(msgQueue)),
                                             place := Draining(old(msgQueue) != []))
      ensures updated == (old(msgQueue) != [])
    {
      updated := false;
      assert out + [] == out;
      while msgQueue != []
        invariant Abstract() == old(Abstract()).(queue := msgQueue, out := out, place := Draining(updated))
        invariant out + Sents(msgQueue) == old(out) + Sents(old(msgQueue))
        invariant updated <==> |msgQueue| < |old(msgQueue)|
        invariant |msgQueue| <= |old(msgQueue)|
      {
        assert out + ([Sent(msgQueue[0])] + Sents(msgQueue[1..])) == out + [Sent(msgQueue[0])] + Sents(msgQueue[1..]);
        out := out + [Sent(msgQueue[0])];
        msgQueue := msgQueue[1..];
        updated := true;
        place := Draining(true);
      }
      assert out + [] == out;
    }
  }
}
