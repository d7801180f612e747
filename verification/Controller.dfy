/** The controller state (lib/src/controller.c), the history events that separate two states
    (lib/src/feedbacksender.c), and what a receiver that replays them knows. */
module Controller {
  import opened Bytes
  import opened History
  import opened Sequences
  import opened Wrappers

  const BUTTONS: nat := 16
  const L2: Button := 16
  const R2: Button := 17

  type int8 = x: int | -128 <= x < 128

  /** A touch slot; it is free when its id is negative. */
  datatype Touch = Touch(x: uint16, y: uint16, id: int8) {
    predicate Live() { id >= 0 }
  }

  type Touches = s: seq<Touch> | |s| == 2 witness [Touch(0, 0, -1), Touch(0, 0, -1)]

  /** A 32-bit mask of buttons, lowest bit first. */
  type Mask = s: seq<bool> | |s| == 32 witness seq(32, _ => false)

  /** `sticks` and `motion` stand for the analogue values that history events never mention. */
  datatype ControllerState = ControllerState(buttons: Mask, l2: byte, r2: byte, touches: Touches,
                                             sticks: seq<int>, motion: int)

  function NoButtons(): Mask { seq(32, _ => false) }

  const Idle := ControllerState(NoButtons(), 0, 0, [Touch(0, 0, -1), Touch(0, 0, -1)], [0, 0, 0, 0], 0)

  predicate SameTouch(a: Touch, b: Touch) {
    a.id == b.id && (a.Live() ==> a.x == b.x && a.y == b.y)
  }

  predicate SameHistory(a: ControllerState, b: ControllerState) {
    && a.buttons == b.buttons && a.l2 == b.l2 && a.r2 == b.r2
    && forall i :: 0 <= i < 2 ==> SameTouch(a.touches[i], b.touches[i])
  }

  predicate SameState(a: ControllerState, b: ControllerState) {
    SameHistory(a, b) && a.sticks == b.sticks && a.motion == b.motion
  }

  // ---------------------------------------------------------------- events between two states

  function ButtonEvents(prev: seq<bool>, now: seq<bool>): seq<Change>
    requires |prev| == |now| <= BUTTONS
  {
    if prev == [] then []
    else
      var i := |prev| - 1;
      ButtonEvents(prev[..i], now[..i]) + OneButton(i, prev[i], now[i])
  }

  function OneButton(i: Button, before: bool, after: bool): seq<Change> {
    if before != after then [ButtonChange(i, if after then 0xff else 0)] else []
  }

  function TriggerEvents(button: Button, prev: byte, now: byte): seq<Change> {
    if prev != now then [ButtonChange(button, now)] else []
  }

  function TouchEvents(prev: Touch, now: Touch): seq<Change> {
    if prev.id != now.id && prev.Live() then [TouchChange(false, prev.id, prev.x, prev.y)]
    else if now.Live() && prev != now then [TouchChange(true, now.id, now.x, now.y)]
    else []
  }

  function EventsBetween(prev: ControllerState, now: ControllerState): seq<Change>
  {
    ButtonEvents(prev.buttons[..BUTTONS], now.buttons[..BUTTONS])
    + TriggerEvents(L2, prev.l2, now.l2) + TriggerEvents(R2, prev.r2, now.r2)
    + TouchEvents(prev.touches[0], now.touches[0]) + TouchEvents(prev.touches[1], now.touches[1])
  }

  /** The sender's shortcut is sound: states that agree on history have no events between them. */
  lemma SameHistoryNoEvents(prev: ControllerState, now: ControllerState)
    requires SameHistory(prev, now)
    ensures EventsBetween(prev, now) == []
  {
    NoButtonEvents(prev.buttons[..BUTTONS]);
    assert SameTouch(prev.touches[0], now.touches[0]) && SameTouch(prev.touches[1], now.touches[1]);
  }

  lemma {:induction false} NoButtonEvents(mask: seq<bool>)
    requires |mask| <= BUTTONS
    ensures ButtonEvents(mask, mask) == []
  {
    if mask != [] { NoButtonEvents(mask[..|mask| - 1]); }
  }

  /** What is to be reported of the step between two states: every one of the 16 buttons that changed, with
      255 or 0; each trigger that changed, with its value; and of each touch slot that it gives up its
      touch, or else where its touch is now if that is new. */
  predicate Warranted(prev: ControllerState, now: ControllerState, c: Change) {
    match c
    case ButtonChange(b, state) =>
      if b < 16 then prev.buttons[b] != now.buttons[b] && state == if now.buttons[b] then 255 else 0
      else if b == 16 then prev.l2 != now.l2 && state == now.l2
      else prev.r2 != now.r2 && state == now.r2
    case TouchChange(_, _, _, _) =>
      TouchWarranted(prev.touches[0], now.touches[0], c) || TouchWarranted(prev.touches[1], now.touches[1], c)
  }

  predicate TouchWarranted(prev: Touch, now: Touch, c: Change)
    requires c.TouchChange?
  {
    if c.down then Placed(prev, now) && c.id == now.id && c.x == now.x && c.y == now.y
    else Ended(prev, now) && c.id == prev.id && c.x == prev.x && c.y == prev.y
  }

  /** Exactly that is reported, buttons and triggers once each and in order, and then at most two touches. */
  lemma EventsExact(prev: ControllerState, now: ControllerState)
    ensures forall c :: c in EventsBetween(prev, now) <==> Warranted(prev, now, c)
    ensures InTurn(EventsBetween(prev, now))
  {
    var before, after := prev.buttons[..BUTTONS], now.buttons[..BUTTONS];
    ButtonsInTurn(before, after);
    forall c ensures c in EventsBetween(prev, now) <==> Warranted(prev, now, c) {
      ButtonEventsExact(before, after, c);
    }
    var buttons := ButtonEvents(before, after);
    var l2, r2 := TriggerEvents(L2, prev.l2, now.l2), TriggerEvents(R2, prev.r2, now.r2);
    KeysNext(buttons, l2, 16);
    KeysNext(buttons + l2, r2, 17);
    var a, b := TouchEvents(prev.touches[0], now.touches[0]), TouchEvents(prev.touches[1], now.touches[1]);
    Assoc(buttons + l2 + r2, a, b);
    assert EventsBetween(prev, now) == buttons + l2 + r2 + (a + b);
    assert KeysThenTouches(EventsBetween(prev, now), |buttons + l2 + r2|);
  }

  /** Buttons in ascending order, followed by at most two touches. */
  ghost predicate InTurn(events: seq<Change>) { exists n: nat :: KeysThenTouches(events, n) }

  predicate KeysThenTouches(events: seq<Change>, n: nat) {
    n <= |events| <= n + 2 && Keys(events[..n], 18) && forall k :: n <= k < |events| ==> events[k].TouchChange?
  }

  predicate Keys(events: seq<Change>, limit: nat) {
    && (forall k :: 0 <= k < |events| ==> events[k].ButtonChange? && events[k].button < limit)
    && forall j, k :: 0 <= j < k < |events| ==> events[j].button < events[k].button
  }

  lemma KeysNext(events: seq<Change>, more: seq<Change>, button: Button)
    requires Keys(events, button) && |more| <= 1
    requires forall c :: c in more ==> c.ButtonChange? && c.button == button
    ensures Keys(events + more, button + 1)
  {
  }

  lemma {:induction false} ButtonsInTurn(prev: seq<bool>, now: seq<bool>)
    requires |prev| == |now| <= BUTTONS
    ensures Keys(ButtonEvents(prev, now), |prev|)
  {
    if prev != [] {
      var i := |prev| - 1;
      ButtonsInTurn(prev[..i], now[..i]);
      KeysNext(ButtonEvents(prev[..i], now[..i]), OneButton(i, prev[i], now[i]), i);
    }
  }

  lemma {:induction false} ButtonEventsExact(prev: seq<bool>, now: seq<bool>, c: Change)
    requires |prev| == |now| <= BUTTONS
    ensures c in ButtonEvents(prev, now) <==>
      c.ButtonChange? && c.button < |prev| && prev[c.button] != now[c.button]
      && c.state == if now[c.button] then 255 else 0
  {
    if prev != [] {
      var i := |prev| - 1;
      ButtonEventsExact(prev[..i], now[..i], c);
      assert c in ButtonEvents(prev, now) <==>
        c in ButtonEvents(prev[..i], now[..i]) || c in OneButton(i, prev[i], now[i]);
    }
  }

  /** Every event the sender emits survives the wire when touches stay on a 12-bit pad. */
  lemma EventsSurviveWire(prev: ControllerState, now: ControllerState)
    requires forall i :: 0 <= i < 2 ==> OnPad(prev.touches[i]) && OnPad(now.touches[i])
    ensures Map(Seen, EventsBetween(prev, now)) == EventsBetween(prev, now)
  {
    var events := EventsBetween(prev, now);
    ButtonEventsFull(prev.buttons[..BUTTONS], now.buttons[..BUTTONS]);
    forall k | 0 <= k < |events| ensures Map(Seen, events)[k] == events[k] {
      MapAt(Seen, events, k);
      SeenExactly(events[k]);
    }
  }

  predicate FitsWire(c: Change) {
    match c
    case ButtonChange(b, v) => v == 0 || v == 0xff || HasStateByte(b)
    case TouchChange(down, id, x, y) => id < 128 && x < 4096 && y < 4096
  }

  lemma SeenExactly(c: Change)
    requires FitsWire(c)
    ensures Seen(c) == c
  {
    if c.TouchChange? { TouchExact(c.down, c.id, c.x, c.y); }
  }

  predicate OnPad(t: Touch) { t.x < 4096 && t.y < 4096 }

  lemma {:induction false} ButtonEventsFull(prev: seq<bool>, now: seq<bool>)
    requires |prev| == |now| <= BUTTONS
    ensures forall c :: c in ButtonEvents(prev, now) ==> FitsWire(c)
  {
    if prev != [] { ButtonEventsFull(prev[..|prev| - 1], now[..|prev| - 1]); }
  }

  // ---------------------------------------------------------------- replay

  /** What a receiver knows: for each button whether it is down, the triggers, and the touches by id. */
  datatype View = View(pressed: seq<bool>, l2: byte, r2: byte, touches: map<nat, (nat, nat)>)

  function Apply(v: View, c: Change): View {
    match c
    case ButtonChange(b, state) =>
      if b == L2 then v.(l2 := state)
      else if b == R2 then v.(r2 := state)
      else if b < |v.pressed| then v.(pressed := v.pressed[b := state != 0]) else v
    case TouchChange(down, id, x, y) =>
      v.(touches := if down then v.touches[id := (x, y)] else v.touches - {id})
  }

  function Replay(v: View, changes: seq<Change>): View {
    if changes == [] then v else Apply(Replay(v, changes[..|changes| - 1]), changes[|changes| - 1])
  }

  lemma {:induction false} ReplayAppend(v: View, a: seq<Change>, b: seq<Change>)
    ensures Replay(v, a + b) == Replay(Replay(v, a), b)
    decreases |b|
  {
    if b == [] {
      assert a + b == a;
    } else {
      assert (a + b)[..|a + b| - 1] == a + b[..|b| - 1];
      ReplayAppend(v, a, b[..|b| - 1]);
    }
  }

  function Touching(t: Touches): map<nat, (nat, nat)> {
    (if t[1].Live() then map[t[1].id as nat := (t[1].x as nat, t[1].y as nat)] else map[])
    + (if t[0].Live() then map[t[0].id as nat := (t[0].x as nat, t[0].y as nat)] else map[])
  }

  /** What the receiver should see of a state. */
  function Shown(s: ControllerState): View { View(s.buttons[..BUTTONS], s.l2, s.r2, Touching(s.touches)) }

  /** A slot gives up its touch, which is all that is reported of it then. */
  predicate Ended(prev: Touch, now: Touch) { prev.Live() && prev.id != now.id }

  /** A slot reports a new touch or a new place of its touch. */
  predicate Placed(prev: Touch, now: Touch) { !Ended(prev, now) && now.Live() && prev != now }

  /** Both slots hold the same touch, as they may when two controllers are merged. */
  predicate Twice(t: Touches) { t[0].Live() && t[0].id == t[1].id }

  /** The steps at which touches are reported completely. A slot must not switch from one live touch to
      another, and neither slot may end a touch that the other one holds afterwards, unless the second
      slot, which comes last, places it again. A touch that both slots hold must be where the first slot
      has it whenever the second slot alone reports it. */
  predicate Reported(prev: Touches, now: Touches) {
    if Twice(now) && !Ended(prev[1], now[1]) then
      Placed(prev[1], now[1]) || Ended(prev[0], now[0]) ==> now[0].x == now[1].x && now[0].y == now[1].y
    else
      && (now[0].Live() ==>
            !Ended(prev[0], now[0]) && !(Ended(prev[1], now[1]) && prev[1].id == now[0].id))
      && (now[1].Live() && !Twice(now) ==>
            && !Ended(prev[1], now[1])
            && (Placed(prev[1], now[1]) || !(Ended(prev[0], now[0]) && prev[0].id == now[1].id)))
  }

  /** Button events carry exactly the change of the pressed set. */
  lemma {:induction false} ReplayButtons(v: View, prev: seq<bool>, now: seq<bool>)
    requires |prev| == |now| <= BUTTONS && prev <= v.pressed
    ensures Replay(v, ButtonEvents(prev, now)) == v.(pressed := now + v.pressed[|now|..])
  {
    if prev == [] {
      assert now + v.pressed[0..] == v.pressed;
    } else {
      var i := |prev| - 1;
      var w := v.(pressed := now[..i] + v.pressed[i..]);
      ReplayButtons(v, prev[..i], now[..i]);
      ReplayAppend(v, ButtonEvents(prev[..i], now[..i]), OneButton(i, prev[i], now[i]));
      ReplayOneButton(w, i, prev[i], now[i]);
      PressedNext(v.pressed, now, i);
    }
  }

  lemma PressedNext(p: seq<bool>, now: seq<bool>, i: nat)
    requires |now| == i + 1 <= |p|
    ensures (now[..i] + p[i..])[i := now[i]] == now + p[|now|..]
  {
  }

  lemma ReplayOneButton(w: View, i: Button, before: bool, after: bool)
    requires i < BUTTONS && i < |w.pressed| && w.pressed[i] == before
    ensures Replay(w, OneButton(i, before, after)) == w.(pressed := w.pressed[i := after])
  {
    ReplayOne(w, OneButton(i, before, after));
    assert w.pressed[i := before] == w.pressed;
  }

  lemma ReplayOne(v: View, changes: seq<Change>)
    requires |changes| <= 1
    ensures Replay(v, changes) == if changes == [] then v else Apply(v, changes[0])
  {
    if changes != [] { assert changes[..0] == []; }
  }

  function AfterTouch(t: map<nat, (nat, nat)>, prev: Touch, now: Touch): map<nat, (nat, nat)> {
    if prev.id != now.id && prev.Live() then t - {prev.id as nat}
    else if now.Live() && prev != now then t[now.id as nat := (now.x as nat, now.y as nat)]
    else t
  }

  lemma ReplayTouch(v: View, prev: Touch, now: Touch)
    ensures Replay(v, TouchEvents(prev, now)) == v.(touches := AfterTouch(v.touches, prev, now))
  {
    ReplayOne(v, TouchEvents(prev, now));
  }

  /** One step of the sender, seen by a receiver whose buttons and triggers were up to date: they
      become those of the new state, and `AfterTouches` says what becomes of the touches. */
  lemma ReplayStep(prev: ControllerState, now: ControllerState, v: View)
    requires v.pressed == prev.buttons[..BUTTONS] && v.l2 == prev.l2 && v.r2 == prev.r2
    ensures Replay(v, EventsBetween(prev, now))
         == View(now.buttons[..BUTTONS], now.l2, now.r2, AfterTouches(v.touches, prev.touches, now.touches))
  {
    var before, after := prev.buttons[..BUTTONS], now.buttons[..BUTTONS];
    ReplayInTurn(v, ButtonEvents(before, after), TriggerEvents(L2, prev.l2, now.l2), TriggerEvents(R2, prev.r2, now.r2),
      TouchEvents(prev.touches[0], now.touches[0]), TouchEvents(prev.touches[1], now.touches[1]));
    ReplayKeys(v, before, after, now.l2, now.r2);
    ReplayTouches(View(after, now.l2, now.r2, v.touches), prev.touches, now.touches);
  }

  lemma ReplayKeys(v: View, prev: seq<bool>, now: seq<bool>, l2: byte, r2: byte)
    requires v.pressed == prev && |prev| == |now| <= BUTTONS
    ensures Replay(Replay(Replay(v, ButtonEvents(prev, now)), TriggerEvents(L2, v.l2, l2)), TriggerEvents(R2, v.r2, r2))
         == View(now, l2, r2, v.touches)
  {
    ReplayButtons(v, prev, now);
    assert now + v.pressed[|now|..] == now;
    ReplayTriggers(v.(pressed := now), l2, r2);
  }

  lemma ReplayTouches(v: View, prev: Touches, now: Touches)
    ensures Replay(Replay(v, TouchEvents(prev[0], now[0])), TouchEvents(prev[1], now[1]))
         == v.(touches := AfterTouches(v.touches, prev, now))
  {
    ReplayTouch(v, prev[0], now[0]);
    ReplayTouch(v.(touches := AfterTouch(v.touches, prev[0], now[0])), prev[1], now[1]);
  }

  lemma ReplayInTurn(v: View, a: seq<Change>, b: seq<Change>, c: seq<Change>, d: seq<Change>, e: seq<Change>)
    ensures Replay(v, a + b + c + d + e) == Replay(Replay(Replay(Replay(Replay(v, a), b), c), d), e)
  {
    ReplayAppend(v, a + b + c + d, e);
    ReplayAppend(v, a + b + c, d);
    ReplayAppend(v, a + b, c);
    ReplayAppend(v, a, b);
  }

  lemma ReplayTriggers(v: View, l2: byte, r2: byte)
    ensures Replay(Replay(v, TriggerEvents(L2, v.l2, l2)), TriggerEvents(R2, v.r2, r2)) == v.(l2 := l2, r2 := r2)
  {
    ReplayOne(v, TriggerEvents(L2, v.l2, l2));
    ReplayOne(v.(l2 := l2), TriggerEvents(R2, v.r2, r2));
  }

  function AfterTouches(t: map<nat, (nat, nat)>, prev: Touches, now: Touches): map<nat, (nat, nat)> {
    AfterTouch(AfterTouch(t, prev[0], now[0]), prev[1], now[1])
  }

  /** The touches are right after a step if and only if the step is one the code reports completely. */
  lemma TouchStepExact(prev: Touches, now: Touches)
    ensures AfterTouches(Touching(prev), prev, now) == Touching(now) <==> Reported(prev, now)
  {
    var t, goal := AfterTouches(Touching(prev), prev, now), Touching(now);
    TouchesWithin(prev, now);
    TouchRight(prev, now, 0);
    TouchRight(prev, now, 1);
    if Reported(prev, now) {
      assert forall id :: id in t <==> id in goal;
      assert forall id :: id in t ==> t[id] == goal[id];
    }
  }

  /** Nothing is left in the view that the new state does not hold. */
  lemma TouchesWithin(prev: Touches, now: Touches)
    ensures AfterTouches(Touching(prev), prev, now).Keys <= Touching(now).Keys
  {
  }

  /** The touch of a slot is seen where it should be. */
  predicate SeenRight(t: map<nat, (nat, nat)>, now: Touches, i: nat)
    requires i < 2
  {
    now[i].Live() ==> now[i].id as nat in t && t[now[i].id as nat] == Touching(now)[now[i].id as nat]
  }

  lemma TouchRight(prev: Touches, now: Touches, i: nat)
    requires i < 2
    ensures Reported(prev, now) ==> SeenRight(AfterTouches(Touching(prev), prev, now), now, i)
    ensures !Reported(prev, now) ==>
              var t := AfterTouches(Touching(prev), prev, now); !SeenRight(t, now, 0) || !SeenRight(t, now, 1)
  {
  }

  /** When neither state holds a touch twice, the condition is simpler: no slot switches from one live
      touch to another, and the first one does not take over the touch that the second one gives up. */
  lemma ReportedOnce(prev: Touches, now: Touches)
    requires !Twice(prev) && !Twice(now)
    ensures Reported(prev, now) <==>
      && (forall i :: 0 <= i < 2 && prev[i].Live() && now[i].Live() ==> prev[i].id == now[i].id)
      && !(now[0].Live() && !prev[0].Live() && prev[1].id == now[0].id)
  {
  }

  /** The touches of two controllers, slot by slot, the first controller's where it has one. */
  function Merged(a: Touches, b: Touches): Touches {
    [MergedSlot(a[0], b[0]), MergedSlot(a[1], b[1])]
  }

  function MergedSlot(a: Touch, b: Touch): Touch {
    if a.Live() then a else if b.Live() then b else Touch(0, 0, -1)
  }

  /** Each of two controllers may use the same id, so that a merged state holds it twice. When the first
      one lifts its finger, the receiver loses the touch of the second one, which is still there. */
  lemma MergedLosesTouch()
    ensures
      var a, b := [Touch(10, 10, 1), Touch(0, 0, -1)], [Touch(0, 0, -1), Touch(20, 20, 1)];
      var prev, now := Merged(a, b), Merged(Idle.touches, b);
      var s, t := Idle.(touches := prev), Idle.(touches := now);
      && Twice(prev) && !Reported(prev, now)
      && Replay(Shown(s), EventsBetween(s, t)).touches == map[]
      && Touching(now) == map[1 := (20, 20)]
  {
    var prev: Touches, now: Touches :=
      [Touch(10, 10, 1), Touch(20, 20, 1)], [Touch(0, 0, -1), Touch(20, 20, 1)];
    ReplayStep(Idle.(touches := prev), Idle.(touches := now), Shown(Idle.(touches := prev)));
    assert Touching(prev) == map[1 := (10, 10)] && Touching(now) == map[1 := (20, 20)];
  }

  /** A switch between two live touches loses the new one until it moves. */
  lemma DirectSwitchLosesTouch()
    ensures
      var prev := Idle.(touches := [Touch(10, 10, 1), Touch(0, 0, -1)]);
      var now := Idle.(touches := [Touch(20, 20, 2), Touch(0, 0, -1)]);
      Replay(Shown(prev), EventsBetween(prev, now)).touches == map[] && Shown(now).touches == map[2 := (20, 20)]
  {
    var a, b := [Touch(10, 10, 1), Touch(0, 0, -1)], [Touch(20, 20, 2), Touch(0, 0, -1)];
    ReplayStep(Idle.(touches := a), Idle.(touches := b), Shown(Idle.(touches := a)));
    assert Touching(a) == map[1 := (10, 10)] && Touching(b) == map[2 := (20, 20)];
  }

  /** The events of a run through the given states. */
  function EventsAlong(states: seq<ControllerState>): seq<Change>
    requires |states| > 0
  {
    if |states| == 1 then []
    else EventsAlong(states[..|states| - 1]) + EventsBetween(states[|states| - 2], states[|states| - 1])
  }

  predicate AllReported(states: seq<ControllerState>) {
    forall k :: 0 < k < |states| ==> Reported(states[k - 1].touches, states[k].touches)
  }

  /** Over any run, replaying every event from the first state yields the buttons and triggers of
      the last one; and its touches too when every step is reported completely. */
  lemma {:induction false} ReplayRun(states: seq<ControllerState>)
    requires |states| > 0
    ensures
      var v := Replay(Shown(states[0]), EventsAlong(states));
      var last := Shown(states[|states| - 1]);
      && v == last.(touches := v.touches)
      && (AllReported(states) ==> v == last)
    decreases |states|
  {
    if |states| > 1 {
      var init := states[..|states| - 1];
      var prev, now := states[|states| - 2], states[|states| - 1];
      var v := Replay(Shown(states[0]), EventsAlong(init));
      ReplayRun(init);
      ReplayAppend(Shown(states[0]), EventsAlong(init), EventsBetween(prev, now));
      ReplayStep(prev, now, v);
      if AllReported(states) {
        assert AllReported(init);
        TouchStepExact(prev.touches, now.touches);
      }
    }
  }

  /** What a receiver that starts with the first state knows after the first `k` of the states. */
  function ViewAfter(states: seq<ControllerState>, k: nat): View
    requires 0 < k <= |states|
  {
    Replay(Shown(states[0]), EventsAlong(states[..k]))
  }

  /** The receiver is right about everything after each of the states. */
  ghost predicate AlwaysRight(states: seq<ControllerState>) {
    forall k: nat :: 0 < k <= |states| ==> ViewAfter(states, k) == Shown(states[k - 1])
  }

  /** One step more: a receiver that was right stays right if and only if the step is reported. */
  lemma ViewNext(states: seq<ControllerState>, k: nat)
    requires 0 < k < |states| && ViewAfter(states, k) == Shown(states[k - 1])
    ensures ViewAfter(states, k + 1) == Shown(states[k]) <==> Reported(states[k - 1].touches, states[k].touches)
  {
    var longer, prev, now := states[..k + 1], states[k - 1], states[k];
    assert longer[..k] == states[..k] && longer[k - 1] == prev && longer[k] == now;
    ReplayAppend(Shown(states[0]), EventsAlong(states[..k]), EventsBetween(prev, now));
    ReplayStep(prev, now, Shown(prev));
    TouchStepExact(prev.touches, now.touches);
  }

  /** Over any run, the receiver is right about buttons, triggers and touches after every state if
      and only if every step of the run is reported completely. */
  lemma ReplayRunExact(states: seq<ControllerState>)
    requires |states| > 0
    ensures AlwaysRight(states) <==> AllReported(states)
  {
    if AlwaysRight(states) {
      forall k | 0 < k < |states| ensures Reported(states[k - 1].touches, states[k].touches) {
        assert ViewAfter(states, k) == Shown(states[k - 1]);
        assert ViewAfter(states, k + 1) == Shown(states[k + 1 - 1]);
        ViewNext(states, k);
      }
    }
    if AllReported(states) {
      forall k: nat | 0 < k <= |states| ensures ViewAfter(states, k) == Shown(states[k - 1]) {
        RightUpTo(states, k);
      }
    }
  }

  lemma {:induction false} RightUpTo(states: seq<ControllerState>, k: nat)
    requires 0 < k <= |states| && AllReported(states)
    ensures ViewAfter(states, k) == Shown(states[k - 1])
    decreases k
  {
    if k > 1 {
      RightUpTo(states, k - 1);
      assert Reported(states[k - 1 - 1].touches, states[k - 1].touches);
      ViewNext(states, k - 1);
    }
  }
}
