/** Wrapping sequence numbers (lib/include/chiaki/seqnum.h): the comparison of section 3.2 of
    RFC 1982 for 16- and 32-bit numbers, and its meaning in terms of unbounded numbers. */
module SeqNum {
  import opened Modular

  datatype Width = W16 | W32 {
    function Mod(): nat { if W16? then 0x10000 else 0x1_0000_0000 }
    function Half(): nat { if W16? then 0x8000 else 0x8000_0000 }

    /** The cast to the unsigned type of this width. */
    function Wrap(x: int): (r: nat)
      ensures r < Mod()
    {
      match this
      case W16 => x % 0x10000
      case W32 => x % 0x1_0000_0000
    }
  }

  /** `a < b` in serial arithmetic. The arguments are cut to the width first, as the casts do. */
  predicate Lt(w: Width, a: nat, b: nat) {
    var a, b := w.Wrap(a), w.Wrap(b);
    a != b && ((a < b && b - a < w.Half()) || (a > b && a - b > w.Half()))
  }

  predicate Gt(w: Width, a: nat, b: nat) {
    var a, b := w.Wrap(a), w.Wrap(b);
    a != b && ((a < b && b - a > w.Half()) || (a > b && a - b < w.Half()))
  }

  /** Serial comparison looks only at the distance of the numbers modulo 2^bits. */
  lemma SerialDistance(w: Width, a: nat, b: nat, x: int, y: int)
    requires w.Wrap(a) == w.Wrap(x) && w.Wrap(b) == w.Wrap(y)
    ensures Lt(w, a, b) <==> 0 < w.Wrap(y - x) < w.Half()
    ensures Gt(w, a, b) <==> 0 < w.Wrap(x - y) < w.Half()
  {
    WrapDifference(w, x, y);
    WrapDifference(w, y, x);
  }

  lemma WrapDifference(w: Width, x: int, y: int)
    ensures w.Wrap(y - x) == if w.Wrap(y) >= w.Wrap(x) then w.Wrap(y) - w.Wrap(x) else w.Wrap(y) - w.Wrap(x) + w.Mod()
  {
    var m := w.Mod();
    assert w.Wrap(x) == x % m && w.Wrap(y) == y % m && w.Wrap(y - x) == (y - x) % m;
    ModDifference(x, y, m);
  }

  /** Numbers less than half the range apart compare as the unbounded numbers behind them,
      however many wraps lie between. */
  lemma SerialOrder(w: Width, a: nat, b: nat, x: int, y: int)
    requires w.Wrap(a) == w.Wrap(x) && w.Wrap(b) == w.Wrap(y)
    requires x - y < w.Half() && y - x < w.Half()
    ensures Lt(w, a, b) <==> x < y
    ensures Gt(w, a, b) <==> x > y
    ensures w.Wrap(a) == w.Wrap(b) <==> x == y
  {
    SerialDistance(w, a, b, x, y);
    WrapSmall(w, x - y);
    WrapSmall(w, y - x);
    WrapDifference(w, x, y);
  }

  lemma WrapSmall(w: Width, d: int)
    requires d < w.Mod() && -d < w.Mod()
    ensures w.Wrap(d) == if d >= 0 then d else d + w.Mod()
  {
  }
}
