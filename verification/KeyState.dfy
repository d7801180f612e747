/** Key positions (lib/src/gkcrypt.c): the wire carries the low 32 bits, the state remembers the
    last committed 64-bit position and unwraps against it. */
module KeyState {
  import opened SeqNum

  const TWO32: nat := 0x1_0000_0000
  const TWO64: nat := 0x1_0000_0000_0000_0000

  /** The high word that goes with `low` after a position with these two words. */
  function HighFor(high: nat, prevLow: nat, low: nat): nat
    requires high < TWO32
  {
    if Gt(W32, low, prevLow) && low < prevLow then if high + 1 < TWO32 then high + 1 else 0
    else if Lt(W32, low, prevLow) && low > prevLow && high > 0 then high - 1
    else high
  }

  /** The position `chiaki_key_state_request_pos` computes. */
  function Unwrap(prev: nat, low: nat): nat
    requires low < TWO32 && prev < TWO64
  {
    HighFor(prev / TWO32, prev % TWO32, low) * TWO32 + low
  }

  class KeyState {
    var prev: nat

    constructor ()
      ensures prev == 0
    {
      prev := 0;
    }

    method RequestPos(low: nat, commit: bool) returns (res: nat)
      requires low < TWO32 && prev < TWO64
      modifies this
      ensures res == Unwrap(old(prev), low) < TWO64
      ensures prev == if commit then res else old(prev)
    {
      var prevLow, high := prev % TWO32, prev / TWO32;
      if Gt(W32, low, prevLow) && low < prevLow {
        high := (high + 1) % TWO32;
      } else if Lt(W32, low, prevLow) && low > prevLow && high > 0 {
        high := high - 1;
      }
      res := high * TWO32 + low;
      if commit { prev := res; }
    }

    method Commit(p: nat)
      modifies this
      ensures prev == p
    {
      prev := p;
    }

    /** Any mix of requests, committing or not, and commits: while every requested position lies less
        than 2^31 from the last committed one, each request returns the true position for its low 32
        bits, forwards and backwards, across wraps and down to high word 0. */
    method Run(steps: seq<Step>) returns (out: seq<nat>)
      requires prev < TWO64 && InReach(prev, steps)
      modifies this
      ensures out == Requested(steps)
      ensures prev == Committed(old(prev), steps) < TWO64
    {
      out := [];
      for i := 0 to |steps|
        invariant prev < TWO64 && InReach(prev, steps[i..])
        invariant out + Requested(steps[i..]) == Requested(steps)
        invariant Committed(prev, steps[i..]) == Committed(old(prev), steps)
      {
        ghost var rest := steps[i..];
        assert rest[0] == steps[i] && rest[1..] == steps[i + 1..];
        match steps[i]
        case Request(pos, commit) =>
          UnwrapNear(prev, pos);
          var p := RequestPos(pos % TWO32, commit);
          assert out + ([pos] + Requested(rest[1..])) == out + [pos] + Requested(rest[1..]);
          out := out + [p];
        case CommitTo(pos) =>
          Commit(pos);
      }
    }
  }

  // ---------------------------------------------------------------- runs

  /** A request for the position with the low bits of `pos`, or a commit of a whole position. */
  datatype Step = Request(pos: nat, commit: bool) | CommitTo(pos: nat)

  /** The last position committed. */
  function Committed(prev: nat, steps: seq<Step>): nat
    decreases |steps|
  {
    if steps == [] then prev else Committed(CommittedBy(prev, steps[0]), steps[1..])
  }

  function CommittedBy(prev: nat, s: Step): nat {
    match s
    case Request(pos, commit) => if commit then pos else prev
    case CommitTo(pos) => pos
  }

  /** The positions behind the requests. */
  function Requested(steps: seq<Step>): seq<nat> {
    if steps == [] then [] else (if steps[0].Request? then [steps[0].pos] else []) + Requested(steps[1..])
  }

  /** Every requested position lies less than 2^31 from the one committed last. */
  predicate InReach(prev: nat, steps: seq<Step>)
    decreases |steps|
  {
    steps != [] ==>
      && steps[0].pos < TWO64
      && (steps[0].Request? ==> Near(prev, steps[0].pos))
      && InReach(CommittedBy(prev, steps[0]), steps[1..])
  }

  predicate Near(a: nat, b: nat) { a - b < 0x8000_0000 && b - a < 0x8000_0000 }

  /** Exactly which positions come back: those less than 2^31 from the last one, and a few more
      that share its high word, or lie on the other side of the end of the 64-bit range. */
  lemma UnwrapExact(prev: nat, pos: nat)
    requires prev < TWO64 && pos < TWO64
    ensures Unwrap(prev, pos % TWO32) == pos
       <==> || Near(prev, pos)
            || (prev / TWO32 == pos / TWO32
                && (pos - prev == 0x8000_0000 || prev - pos == 0x8000_0000
                    || (prev < TWO32 && pos - prev > 0x8000_0000)))
            || Near(prev, pos + TWO64)
  {
    var h, a, k, b := prev / TWO32, prev % TWO32, pos / TWO32, pos % TWO32;
    assert prev == h * TWO32 + a && pos == k * TWO32 + b;
    assert Unwrap(prev, b) == pos <==> HighFor(h, a, b) == k;
    WordsExact(h, a, k, b);
  }

  /** The same in terms of the two words of each position. */
  lemma WordsExact(h: nat, a: nat, k: nat, b: nat)
    requires h < TWO32 && a < TWO32 && k < TWO32 && b < TWO32
    ensures
      var prev, pos := h * TWO32 + a, k * TWO32 + b;
      HighFor(h, a, b) == k <==>
        || Near(prev, pos)
        || (h == k && (pos - prev == 0x8000_0000 || prev - pos == 0x8000_0000
                       || (h == 0 && pos - prev > 0x8000_0000)))
        || Near(prev, pos + TWO64)
  {
    assert Gt(W32, b, a) && b < a <==> a - b > 0x8000_0000;
    assert Lt(W32, b, a) && b > a <==> b - a > 0x8000_0000;
  }

  lemma UnwrapNear(prev: nat, pos: nat)
    requires prev < TWO64 && pos < TWO64 && Near(prev, pos)
    ensures Unwrap(prev, pos % TWO32) == pos
  {
    UnwrapExact(prev, pos);
  }
}
