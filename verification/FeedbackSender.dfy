/** The feedback sender (lib/src/feedbacksender.c): every difference between the last reported
    controller state and the current one becomes an event, and every event one packet that repeats
    the 16 newest events. A receiver can rebuild the whole log of events from the packets that
    reach it as long as it never misses 16 in a row. */
module FeedbackSender {
  import opened Bytes
  import opened History
  import opened Controller
  import opened Wrappers

  const HISTORY_SIZE: nat := 16

  datatype Packet = Packet(seqNum: nat, payload: seq<byte>)

  // ---------------------------------------------------------------- packets of a log of events

  /** The newest elements of a log, newest first, at most `n`. */
  function Newest<T>(log: seq<T>, n: nat): (r: seq<T>)
    ensures |r| == if |log| < n then |log| else n
    ensures forall i :: 0 <= i < |r| ==> r[i] == log[|log| - 1 - i]
  {
    var k := if |log| < n then |log| else n;
    seq(k, i requires 0 <= i < k => log[|log| - 1 - i])
  }

  /** The packet sent when the last event of the log has just been added. */
  function PacketFor(wire: seq<Event>): Packet
    requires |wire| > 0
  {
    Packet((|wire| - 1) % 0x10000, Join(Newest(wire, HISTORY_SIZE)))
  }

  /** All packets sent while the log grew, one for each event. */
  function Packets(wire: seq<Event>): (r: seq<Packet>)
    ensures |r| == |wire|
  {
    if wire == [] then [] else Packets(wire[..|wire| - 1]) + [PacketFor(wire)]
  }

  lemma {:induction false} PacketAt(wire: seq<Event>, n: nat)
    requires n < |wire|
    ensures Packets(wire)[n] == PacketFor(wire[..n + 1]) && Packets(wire)[n].seqNum == n % 0x10000
    decreases |wire|
  {
    if n + 1 == |wire| {
      assert wire[..n + 1] == wire;
    } else {
      assert wire[..|wire| - 1][..n + 1] == wire[..n + 1];
      PacketAt(wire[..|wire| - 1], n);
    }
  }

  lemma NewestAfter<T>(log: seq<T>, c: T, n: nat)
    ensures Newest(log + [c], n) == Take([c] + Newest(log, n), n)
  {
    var longer := log + [c];
    var a, b := Newest(longer, n), Take([c] + Newest(log, n), n);
    assert |a| == |b|;
    forall i | 0 <= i < |a| ensures a[i] == b[i] {
      assert a[i] == longer[|longer| - 1 - i];
    }
  }

  predicate Short(wire: seq<Event>) { forall i :: 0 <= i < |wire| ==> |wire[i]| <= 5 }

  lemma {:induction false} JoinBound(events: seq<Event>)
    requires Short(events)
    ensures |Join(events)| <= 5 * |events|
    decreases |events|
  {
    if events != [] { JoinBound(events[..|events| - 1]); }
  }

  // ---------------------------------------------------------------- the sender

  lemma Regroup<T>(log: seq<T>, a: seq<T>, b: seq<T>, c: seq<T>, d: seq<T>, e: seq<T>)
    ensures log + a + b + c + d + e == log + (a + b + c + d + e)
  {
  }

  lemma ButtonEventsNext(log: seq<Change>, prev: seq<bool>, now: seq<bool>, i: nat)
    requires i < |prev| == |now| && i < BUTTONS
    ensures log + ButtonEvents(prev[..i + 1], now[..i + 1])
         == log + ButtonEvents(prev[..i], now[..i]) + OneButton(i, prev[i], now[i])
  {
    assert prev[..i + 1][..i] == prev[..i] && now[..i + 1][..i] == now[..i];
  }

  class Sender {
    var prev: ControllerState
    var now: ControllerState
    var changed: bool
    var shouldStop: bool
    var historySeqNum: nat
    const history: HistoryBuffer

    /** Every event so far, its encoding, and every history packet handed to the network. */
    ghost var log: seq<Change>
    ghost var wire: seq<Event>
    ghost var sent: seq<Packet>

    ghost predicate Valid()
      reads this, history, history.events
    {
      && history.Valid() && history.size == HISTORY_SIZE
      && history.contents == Newest(wire, HISTORY_SIZE) && Short(wire) && wire == Map(Encode, log)
      && historySeqNum == |wire| % 0x10000 && sent == Packets(wire)
    }

    /** A state that has not been marked as changed has been reported. */
    ghost predicate Ready()
      reads this, history, history.events
    {
      Valid() && (!changed ==> prev == now)
    }

    constructor ()
      ensures Ready() && log == [] && now == prev == Idle && !shouldStop
      ensures fresh(history) && fresh(history.events)
    {
      prev, now := Idle, Idle;
      changed, shouldStop := false, false;
      historySeqNum := 0;
      history := new HistoryBuffer(HISTORY_SIZE);
      log, wire, sent := [], [], [];
    }

    method SetControllerState(state: ControllerState)
      requires Ready()
      modifies this`now, this`changed
      ensures Ready()
      ensures now == if SameState(old(now), state) then old(now) else state
      ensures changed == (old(changed) || !SameState(old(now), state))
      ensures now.buttons == state.buttons && now.l2 == state.l2 && now.r2 == state.r2
      ensures now.sticks == state.sticks && now.motion == state.motion
      ensures forall i :: 0 <= i < 2 ==>
        var (a, b) := (now.touches[i], state.touches[i]);
        a.id == b.id && (b.id >= 0 ==> a.x == b.x && a.y == b.y)
      ensures now != old(now) ==> changed
    {
      if !SameState(now, state) {
        now := state;
        changed := true;
      }
    }

    /** Format the ring and hand it to the network. The buffer always suffices. */
    method SendHistoryPacket()
      requires history.Valid() && history.contents == Newest(wire, HISTORY_SIZE) && Short(wire) && wire != []
      requires historySeqNum == (|wire| - 1) % 0x10000
      modifies this`historySeqNum, this`sent
      ensures historySeqNum == |wire| % 0x10000 && sent == old(sent) + [PacketFor(wire)]
    {
      var buf := new byte[0x300](_ => 0);
      JoinBound(history.contents);
      var ok, size := history.Format(buf);
      sent := sent + [Packet(historySeqNum, buf[..size])];
      historySeqNum := (historySeqNum + 1) % 0x10000;
    }

    method Emit(c: Change, e: Event)
      requires Valid() && e == Encode(c)
      modifies this`historySeqNum, this`log, this`wire, this`sent, history, history.events
      ensures Valid() && log == old(log) + [c]
    {
      NewestAfter(wire, e, HISTORY_SIZE);
      history.Push(e);
      MapAppend(Encode, log, [c]);
      log, wire := log + [c], wire + [e];
      assert wire[..|wire| - 1] == old(wire);
      SendHistoryPacket();
    }

    method EmitButton(button: Button, state: byte)
      requires Valid()
      modifies this`historySeqNum, this`log, this`wire, this`sent, history, history.events
      ensures Valid() && log == old(log) + [ButtonChange(button, state)]
    {
      var e := EncodeButton(button, state);
      if e.Some? { Emit(ButtonChange(button, state), e.value); }
    }

    method SendButton(i: nat)
      requires Valid() && i < BUTTONS
      modifies this`historySeqNum, this`log, this`wire, this`sent, history, history.events
      ensures Valid() && log == old(log) + OneButton(i, prev.buttons[i], now.buttons[i])
    {
      var before, after := prev.buttons[i], now.buttons[i];
      if before != after { EmitButton(i, if after then 0xff else 0); }
    }

    method SendButtons()
      requires Valid()
      modifies this`historySeqNum, this`log, this`wire, this`sent, history, history.events
      ensures Valid() && log == old(log) + ButtonEvents(prev.buttons[..BUTTONS], now.buttons[..BUTTONS])
    {
      for i := 0 to BUTTONS
        invariant Valid() && log == old(log) + ButtonEvents(prev.buttons[..i], now.buttons[..i])
      {
        ButtonEventsNext(old(log), prev.buttons, now.buttons, i);
        SendButton(i);
      }
    }

    method SendTouch(i: nat)
      requires Valid() && i < 2
      modifies this`historySeqNum, this`log, this`wire, this`sent, history, history.events
      ensures Valid() && log == old(log) + TouchEvents(prev.touches[i], now.touches[i])
    {
      var before, after := prev.touches[i], now.touches[i];
      if before.id != after.id && before.id >= 0 {
        Emit(TouchChange(false, before.id, before.x, before.y), EncodeTouch(false, before.id, before.x, before.y));
      } else if after.id >= 0 && (before.id != after.id || before.x != after.x || before.y != after.y) {
        Emit(TouchChange(true, after.id, after.x, after.y), EncodeTouch(true, after.id, after.x, after.y));
      }
    }

    method SendTriggers()
      requires Valid()
      modifies this`historySeqNum, this`log, this`wire, this`sent, history, history.events
      ensures Valid() && log == old(log) + TriggerEvents(L2, prev.l2, now.l2) + TriggerEvents(R2, prev.r2, now.r2)
    {
      if prev.l2 != now.l2 { EmitButton(L2, now.l2); }
      if prev.r2 != now.r2 { EmitButton(R2, now.r2); }
    }

    method SendTouches()
      requires Valid()
      modifies this`historySeqNum, this`log, this`wire, this`sent, history, history.events
      ensures Valid()
      ensures log
           == old(log) + TouchEvents(prev.touches[0], now.touches[0]) + TouchEvents(prev.touches[1], now.touches[1])
    {
      for i := 0 to 2
        invariant Valid()
        invariant i == 0 ==> log == old(log)
        invariant i == 1 ==> log == old(log) + TouchEvents(prev.touches[0], now.touches[0])
        invariant i == 2 ==>
          log == old(log) + TouchEvents(prev.touches[0], now.touches[0]) + TouchEvents(prev.touches[1], now.touches[1])
      {
        SendTouch(i);
      }
    }

    method SendHistory()
      requires Valid()
      modifies this`historySeqNum, this`log, this`wire, this`sent, history, history.events
      ensures Valid() && log == old(log) + EventsBetween(prev, now)
    {
      Regroup(log, ButtonEvents(prev.buttons[..BUTTONS], now.buttons[..BUTTONS]),
        TriggerEvents(L2, prev.l2, now.l2), TriggerEvents(R2, prev.r2, now.r2),
        TouchEvents(prev.touches[0], now.touches[0]), TouchEvents(prev.touches[1], now.touches[1]));
      SendButtons();
      SendTriggers();
      SendTouches();
    }

    /** One turn of the sender thread after it wakes up, be it by a change or by the timeout. */
    method Iterate() returns (running: bool)
      requires Ready()
      modifies this`prev, this`changed, this`historySeqNum, this`log, this`wire, this`sent, history, history.events
      ensures Ready() && running == !shouldStop
      ensures running ==> prev == now && !changed && log == old(log) + EventsBetween(old(prev), now)
      ensures !running ==> prev == old(prev) && log == old(log)
    {
      if shouldStop { return false; }
      if changed {
        changed := false;
        SendHistoryIfChanged();
      } else {
        SameHistoryNoEvents(prev, now);
      }
      prev := now;
      return true;
    }

    method SendHistoryIfChanged()
      requires Valid()
      modifies this`historySeqNum, this`log, this`wire, this`sent, history, history.events
      ensures Valid() && log == old(log) + EventsBetween(prev, now)
    {
      if SameHistory(now, prev) {
        SameHistoryNoEvents(prev, now);
      } else {
        SendHistory();
      }
    }
  }

  // ---------------------------------------------------------------- whole runs

  /** What happens to a sender: the program sets a state, or the thread wakes up, by a change or by
      the timeout, and takes a turn. */
  datatype Action = Set(state: ControllerState) | Turn

  /** The state that has been set; one that compares equal to the one before changes nothing. */
  function Current(schedule: seq<Action>): ControllerState {
    if schedule == [] then Idle
    else
      var before, last := Current(schedule[..|schedule| - 1]), schedule[|schedule| - 1];
      if last.Set? && !SameState(before, last.state) then last.state else before
  }

  /** The states the thread looked at, turn by turn. */
  function Looked(schedule: seq<Action>): (r: seq<ControllerState>)
    ensures r != [] && r[0] == Idle
  {
    if schedule == [] then [Idle]
    else
      var n := |schedule| - 1;
      Looked(schedule[..n]) + if schedule[n].Turn? then [Current(schedule[..n])] else []
  }

  lemma LookedNext(schedule: seq<Action>, a: Action)
    ensures Looked(schedule + [a]) == Looked(schedule) + if a.Turn? then [Current(schedule)] else []
    ensures Current(schedule + [a])
         == if a.Set? && !SameState(Current(schedule), a.state) then a.state else Current(schedule)
  {
    assert (schedule + [a])[..|schedule|] == schedule;
  }

  /** The sender has the state `now`, and its log is that of the states looked at. */
  ghost predicate Reporting(sender: Sender, now: ControllerState, looked: seq<ControllerState>)
    reads sender, sender.history, sender.history.events
  {
    && looked != [] && sender.Ready() && !sender.shouldStop
    && sender.now == now && sender.prev == looked[|looked| - 1] && sender.log == EventsAlong(looked)
  }

  /** The sender after a schedule. */
  ghost predicate Served(sender: Sender, schedule: seq<Action>)
    reads sender, sender.history, sender.history.events
  {
    Reporting(sender, Current(schedule), Looked(schedule))
  }

  method ServeTurn(sender: Sender, ghost looked: seq<ControllerState>)
    requires Reporting(sender, sender.now, looked)
    modifies sender, sender.history, sender.history.events
    ensures Reporting(sender, old(sender.now), looked + [old(sender.now)])
  {
    EventsAlongNext(looked, sender.now);
    var running := sender.Iterate();
  }

  method ServeOne(sender: Sender, ghost schedule: seq<Action>, a: Action)
    requires Served(sender, schedule)
    modifies sender, sender.history, sender.history.events
    ensures Served(sender, schedule + [a])
  {
    LookedNext(schedule, a);
    ghost var looked := Looked(schedule);
    match a
    case Set(state) =>
      sender.SetControllerState(state);
      assert looked + [] == looked;
    case Turn =>
      ServeTurn(sender, looked);
  }

  lemma EventsAlongNext(states: seq<ControllerState>, s: ControllerState)
    requires |states| > 0
    ensures EventsAlong(states + [s]) == EventsAlong(states) + EventsBetween(states[|states| - 1], s)
  {
    var longer := states + [s];
    assert longer[..|longer| - 1] == states && longer[|longer| - 2] == states[|states| - 1];
  }

  // ---------------------------------------------------------------- a receiver

  function Reversed(s: seq<Change>): (r: seq<Change>)
    ensures |r| == |s| && forall i :: 0 <= i < |s| ==> r[i] == s[|s| - 1 - i]
  {
    seq(|s|, i requires 0 <= i < |s| => s[|s| - 1 - i])
  }

  /** Add what a packet tells beyond the events already known, judged by its sequence number alone. */
  function Receive(known: seq<Change>, p: Packet): seq<Change> {
    var missing := (p.seqNum + 1 - |known|) % 0x10000;
    match Parse(p.payload)
    case None => known
    case Some(events) => if missing <= |events| then known + Reversed(events[..missing]) else known
  }

  lemma MapNewest<A, B>(f: A -> B, log: seq<A>, n: nat)
    ensures Newest(Map(f, log), n) == Map(f, Newest(log, n))
  {
    var a, b := Newest(Map(f, log), n), Map(f, Newest(log, n));
    forall i | 0 <= i < |a| ensures a[i] == b[i] {
      MapAt(f, Newest(log, n), i);
      MapAt(f, log, |log| - 1 - i);
    }
  }

  lemma MapPrefix<A, B>(f: A -> B, log: seq<A>, n: nat)
    requires n <= |log|
    ensures Map(f, log)[..n] == Map(f, log[..n])
  {
    MapAppend(f, log[..n], log[n..]);
    assert log[..n] + log[n..] == log;
  }

  /** A packet's payload reads back as the newest events. */
  lemma PayloadParses(log: seq<Change>)
    requires |log| > 0
    ensures Parse(PacketFor(Map(Encode, log)).payload) == Some(Newest(Map(Seen, log), 16))
  {
    MapNewest(Encode, log, 16);
    MapNewest(Seen, log, 16);
    ParseEncode(Newest(log, 16));
  }

  /** What a receiver does with the events of packet `n`: at most 16 ahead of the `k` events it
      knows, and less than one turn of the sequence number behind, it then knows `max(k, n + 1)`. */
  lemma ReceiveStep(seen: seq<Change>, k: nat, n: nat, p: Packet)
    requires k <= |seen| && n < |seen| && p.seqNum == n % 0x10000
    requires Parse(p.payload) == Some(Newest(seen[..n + 1], 16))
    requires n < k + 16 && k < n + 1 + 0x10000 - 16
    ensures Receive(seen[..k], p) == seen[..if n < k then k else n + 1]
  {
    MissingCount(k, n);
    if k <= n + 1 { NewsExact(seen, k, n); }
  }

  lemma ReceivePacket(log: seq<Change>, k: nat, n: nat)
    requires k <= |log| && n < |log|
    requires n < k + 16 && k < n + 1 + 0x10000 - 16
    ensures Receive(Map(Seen, log)[..k], Packets(Map(Encode, log))[n]) == Map(Seen, log)[..if n < k then k else n + 1]
  {
    PacketAt(Map(Encode, log), n);
    MapPrefix(Encode, log, n + 1);
    MapPrefix(Seen, log, n + 1);
    PayloadParses(log[..n + 1]);
    ReceiveStep(Map(Seen, log), k, n, Packets(Map(Encode, log))[n]);
  }

  lemma NewsExact(seen: seq<Change>, k: nat, n: nat)
    requires k <= n + 1 <= |seen| && n < k + 16
    ensures seen[..k] + Reversed(Newest(seen[..n + 1], 16)[..n + 1 - k]) == seen[..n + 1]
  {
    var events := Newest(seen[..n + 1], 16);
    assert forall i :: 0 <= i < |events| ==> events[i] == seen[n - i];
  }

  lemma MissingCount(k: nat, n: nat)
    requires n < k + 16 && k < n + 1 + 0x10000 - 16
    ensures (n % 0x10000 + 1 - k) % 0x10000 == if k <= n + 1 then n + 1 - k else n + 1 - k + 0x10000
  {
    var d := n + 1 - k;
    assert n % 0x10000 + 1 - k == d - 0x10000 * (n / 0x10000);
  }

  /** One more than the largest packet number among those that have arrived. */
  function Reach(order: seq<nat>): nat {
    if order == [] then 0 else
      var r, n := Reach(order[..|order| - 1]), order[|order| - 1];
      if n < r then r else n + 1
  }

  /** Packets `order[0]`, `order[1]`, … arrive: each at most 16 ahead of all before it, and less than
      one turn of the sequence number behind. Lost, repeated and reordered packets are allowed. */
  predicate Arrivable(order: seq<nat>, sent: nat) {
    order == [] ||
      var reach, n := Reach(order[..|order| - 1]), order[|order| - 1];
      && Arrivable(order[..|order| - 1], sent)
      && n < sent && n < reach + 16 && reach < n + 1 + 0x10000 - 16
  }

  /** What a receiver knows after the packets with these numbers have arrived. */
  function ReceiveAll(packets: seq<Packet>, order: seq<nat>): seq<Change>
    requires Arrivable(order, |packets|)
  {
    if order == [] then [] else Receive(ReceiveAll(packets, order[..|order| - 1]), packets[order[|order| - 1]])
  }

  /** The receiver knows exactly the events up to the newest packet it got. */
  lemma {:induction false} Recovery(log: seq<Change>, order: seq<nat>)
    requires Arrivable(order, |log|)
    ensures Reach(order) <= |log|
    ensures ReceiveAll(Packets(Map(Encode, log)), order) == Map(Seen, log)[..Reach(order)]
    decreases |order|
  {
    if order != [] {
      Recovery(log, order[..|order| - 1]);
      ReceivePacket(log, Reach(order[..|order| - 1]), order[|order| - 1]);
    }
  }

  // ---------------------------------------------------------------- losses without reordering

  /** The numbers of the packets that were not lost, in order. */
  function Survivors(lost: seq<bool>): seq<nat> {
    if lost == [] then [] else
      var rest := Survivors(lost[..|lost| - 1]);
      if lost[|lost| - 1] then rest else rest + [|lost| - 1]
  }

  /** Among any 16 packets in a row at least one arrives. */
  predicate SparseLoss(lost: seq<bool>) {
    forall k: nat :: k + 16 <= |lost| ==> SomeArrives(lost, k)
  }

  predicate SomeArrives(lost: seq<bool>, k: nat)
    requires k + 16 <= |lost|
  {
    exists j :: k <= j < k + 16 && !lost[j]
  }

  /** All packets from number `k` on are lost. */
  predicate LostFrom(lost: seq<bool>, k: nat) { forall j :: k <= j < |lost| ==> lost[j] }

  lemma {:induction false} ReachOfSurvivors(lost: seq<bool>)
    ensures var r := Reach(Survivors(lost)); r <= |lost| && (r > 0 ==> !lost[r - 1]) && LostFrom(lost, r)
    decreases |lost|
  {
    if lost != [] {
      ReachOfSurvivors(lost[..|lost| - 1]);
      ReachAppend(Survivors(lost[..|lost| - 1]), |lost| - 1);
    }
  }

  lemma ReachAppend(order: seq<nat>, n: nat)
    ensures Reach(order + [n]) == var r := Reach(order); if n < r then r else n + 1
  {
    assert (order + [n])[..|order + [n]| - 1] == order;
  }

  lemma {:induction false} ArrivableMore(order: seq<nat>, sent: nat, more: nat)
    requires Arrivable(order, sent) && sent <= more
    ensures Arrivable(order, more)
    decreases |order|
  {
    if order != [] { ArrivableMore(order[..|order| - 1], sent, more); }
  }

  /** Nothing but losses from `r` on cannot last for 16 packets. */
  lemma NeverFarBehind(lost: seq<bool>, r: nat)
    requires SparseLoss(lost) && LostFrom(lost, r)
    ensures |lost| < r + 16
  {
    assert r + 16 <= |lost| ==> SomeArrives(lost, r);
  }

  lemma SparsePrefix(lost: seq<bool>, n: nat)
    requires SparseLoss(lost) && n <= |lost|
    ensures SparseLoss(lost[..n])
  {
    forall k: nat | k + 16 <= n ensures SomeArrives(lost[..n], k) {
      assert SomeArrives(lost, k);
      var j :| k <= j < k + 16 && !lost[j];
      assert !lost[..n][j];
    }
  }

  lemma ArrivableNext(order: seq<nat>, n: nat)
    requires Arrivable(order, n) && Reach(order) <= n < Reach(order) + 16
    ensures Arrivable(order + [n], n + 1)
  {
    ArrivableMore(order, n, n + 1);
    assert (order + [n])[..|order|] == order;
  }

  lemma {:induction false} SurvivorsArrivable(lost: seq<bool>)
    requires SparseLoss(lost)
    ensures Arrivable(Survivors(lost), |lost|)
    decreases |lost|
  {
    if lost != [] {
      var n := |lost| - 1;
      SparsePrefix(lost, n);
      SurvivorsArrivable(lost[..n]);
      ReachOfSurvivors(lost[..n]);
      NeverFarBehind(lost[..n], Reach(Survivors(lost[..n])));
      if lost[n] {
        ArrivableMore(Survivors(lost[..n]), n, n + 1);
      } else {
        ArrivableNext(Survivors(lost[..n]), n);
      }
    }
  }

  /** A receiver that sees at least one of every 16 consecutive packets recovers the log of events up
      to the last packet it saw, so it is never 16 behind, and it has all of it when the last packet arrives. */
  lemma LossRecovery(log: seq<Change>, lost: seq<bool>)
    requires |lost| == |log| && SparseLoss(lost)
    ensures Arrivable(Survivors(lost), |log|)
    ensures
      var k := Reach(Survivors(lost));
      && k <= |log| < k + 16
      && ReceiveAll(Packets(Map(Encode, log)), Survivors(lost)) == Map(Seen, log)[..k]
      && (log != [] && !lost[|log| - 1] ==> k == |log|)
  {
    SurvivorsArrivable(lost);
    Recovery(log, Survivors(lost));
    ReachOfSurvivors(lost);
    NeverFarBehind(lost, Reach(Survivors(lost)));
  }

  // ---------------------------------------------------------------- end to end

  predicate AllOnPad(states: seq<ControllerState>) {
    forall k :: 0 <= k < |states| ==> OnPad(states[k].touches[0]) && OnPad(states[k].touches[1])
  }

  lemma {:induction false} EventsAlongSurvive(states: seq<ControllerState>)
    requires |states| > 0 && AllOnPad(states)
    ensures Map(Seen, EventsAlong(states)) == EventsAlong(states)
    decreases |states|
  {
    if |states| > 1 {
      var init, prev, now := states[..|states| - 1], states[|states| - 2], states[|states| - 1];
      EventsAlongSurvive(init);
      EventsSurviveWire(prev, now);
      MapAppend(Seen, EventsAlong(init), EventsBetween(prev, now));
    }
  }

  /** From controller to console: whatever states the thread looked at, and whichever packets are
      lost as long as one in 16 arrives and the last one does, what the receiver rebuilds from the
      packets and replays shows the buttons and triggers of the last state, and its touches too
      when every step was reported completely. */
  lemma EndToEnd(states: seq<ControllerState>, lost: seq<bool>)
    requires |states| > 0 && AllOnPad(states)
    requires |lost| == |EventsAlong(states)| && SparseLoss(lost) && (lost != [] ==> !lost[|lost| - 1])
    ensures Arrivable(Survivors(lost), |EventsAlong(states)|)
    ensures
      var v := Replay(Shown(states[0]), ReceiveAll(Packets(Map(Encode, EventsAlong(states))), Survivors(lost)));
      var last := Shown(states[|states| - 1]);
      && v == last.(touches := v.touches)
      && (AllReported(states) ==> v == last)
  {
    var log := EventsAlong(states);
    LossRecovery(log, lost);
    EventsAlongSurvive(states);
    assert log[..|log|] == log;
    ReplayRun(states);
  }

  /** At least one packet of every 16 arrives, and the last one. */
  predicate Arriving(lost: seq<bool>, sent: nat) {
    |lost| == sent && SparseLoss(lost) && (lost != [] ==> !lost[|lost| - 1])
  }

  /** What a receiver makes of the packets that arrive agrees with the last of the states looked at. */
  ghost predicate ShowsLast(sent: seq<Packet>, lost: seq<bool>, looked: seq<ControllerState>)
    requires looked != []
  {
    && Arrivable(Survivors(lost), |sent|)
    && var v, last := Replay(Shown(looked[0]), ReceiveAll(sent, Survivors(lost))), Shown(looked[|looked| - 1]);
       v == last.(touches := v.touches) && (AllReported(looked) ==> v == last)
  }

  /** A sender driven through any schedule of states and turns: one packet for each event between the
      states the thread looked at; and whichever packets are lost, as long as one in 16 arrives and the
      last one does, the console sees the state the thread looked at last. */
  method Serve(schedule: seq<Action>) returns (sender: Sender)
    ensures fresh(sender) && Served(sender, schedule)
    ensures sender.sent == Packets(Map(Encode, sender.log))
    ensures AllOnPad(Looked(schedule)) ==>
      forall lost :: Arriving(lost, |sender.sent|) ==> ShowsLast(sender.sent, lost, Looked(schedule))
  {
    sender := new Sender();
    for i := 0 to |schedule|
      invariant fresh(sender) && fresh(sender.history) && fresh(sender.history.events)
      invariant Served(sender, schedule[..i])
    {
      assert schedule[..i] + [schedule[i]] == schedule[..i + 1];
      ServeOne(sender, schedule[..i], schedule[i]);
    }
    assert schedule[..|schedule|] == schedule;
    if AllOnPad(Looked(schedule)) { AllArrivalsShow(Looked(schedule), sender.sent); }
  }

  lemma AllArrivalsShow(looked: seq<ControllerState>, sent: seq<Packet>)
    requires looked != [] && AllOnPad(looked) && sent == Packets(Map(Encode, EventsAlong(looked)))
    requires |sent| == |EventsAlong(looked)|
    ensures forall lost :: Arriving(lost, |sent|) ==> ShowsLast(sent, lost, looked)
  {
    forall lost | Arriving(lost, |sent|) ensures ShowsLast(sent, lost, looked) {
      EndToEnd(looked, lost);
    }
  }
}
