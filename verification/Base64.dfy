/** Base64 text (lib/src/base64.c), as in section 4 of RFC 4648: a bounds-checked encoder and a
    tolerant decoder, each proved against a specification, and the proof that they undo each other. */
module Base64 {
  import opened Bytes
  import opened Modular
  import opened Sequences

  type sextet = x: int | 0 <= x < 64

  /** `n` characters from `first` on. */
  function Run(first: char, n: nat): (r: string)
    requires first as int + n <= 128
    ensures |r| == n && forall i :: 0 <= i < n ==> r[i] == (first as int + i) as char
  {
    seq(n, i requires 0 <= i < n => (first as int + i) as char)
  }

  /** The character of a digit. */
  function Letter(v: sextet): char { (Run('A', 26) + Run('a', 26) + Run('0', 10) + "+/")[v] }

  /** The alphabet of RFC 4648, section 4, by ASCII codes: A-Z, a-z, 0-9, + and /. */
  lemma Alphabet(v: sextet)
    ensures Letter(v) as int == if v < 26 then 65 + v
                                else if v < 52 then 97 + (v - 26)
                                else if v < 62 then 48 + (v - 52)
                                else if v == 62 then 43
                                else 47
  {
  }

  datatype Error = BufTooSmall | InvalidData
  datatype Result = Ok(bytes: seq<byte>) | Err(error: Error)

  /** What the decoder makes of one character. */
  datatype Class = Digit(value: sextet) | Whitespace | Equals | Invalid

  function Classify(c: char): Class {
    if 'A' <= c <= 'Z' then Digit(c as int - 'A' as int)
    else if 'a' <= c <= 'z' then Digit(c as int - 'a' as int + 26)
    else if '0' <= c <= '9' then Digit(c as int - '0' as int + 52)
    else if c == '+' then Digit(62)
    else if c == '/' then Digit(63)
    else if c == '\n' then Whitespace
    else if c == '=' then Equals
    else Invalid
  }

  // ---------------------------------------------------------------- encoding

  /** The four digits of a 24-bit number. */
  function Quad(n: nat): (r: seq<sextet>)
    ensures |r| == 4
  {
    [n / 0x40000 % 64, n / 0x1000 % 64, n / 64 % 64, n % 64]
  }

  function Number(x: seq<byte>): nat
    requires 0 < |x| <= 3
  {
    x[0] as int * 0x10000 + (if |x| > 1 then x[1] as int * 0x100 else 0) + if |x| > 2 then x[2] as int else 0
  }

  /** The digits of a byte string: each three bytes give four, a rest of one or two gives one more than it has bytes. */
  function Digits(x: seq<byte>): seq<sextet> {
    if x == [] then []
    else if |x| < 3 then Quad(Number(x))[..|x| + 1]
    else Quad(Number(x[..3])) + Digits(x[3..])
  }

  function Chars(d: seq<sextet>): (r: string)
    ensures |r| == |d|
  {
    if d == [] then [] else [Letter(d[0])] + Chars(d[1..])
  }

  lemma {:induction false} CharsAppend(d: seq<sextet>, e: seq<sextet>)
    ensures Chars(d + e) == Chars(d) + Chars(e)
  {
    if d == [] {
      assert d + e == e;
    } else {
      assert (d + e)[1..] == d[1..] + e;
      CharsAppend(d[1..], e);
    }
  }

  function Padding(n: nat): string {
    if n % 3 == 0 then "" else if n % 3 == 1 then "==" else "="
  }

  function EncodeText(x: seq<byte>): string { Chars(Digits(x)) + Padding(|x|) }

  function TextLength(n: nat): nat { 4 * ((n + 2) / 3) }

  lemma {:induction false} DigitsLength(x: seq<byte>)
    ensures |Digits(x)| == |x| / 3 * 4 + if |x| % 3 == 0 then 0 else |x| % 3 + 1
    ensures |EncodeText(x)| == TextLength(|x|)
    decreases |x|
  {
    if |x| >= 3 { DigitsLength(x[3..]); }
  }

  /** A group of bytes as one number, the first byte highest, in four digits of six bits, the highest
      first; one or two bytes are filled up with zero bits to two or three digits. */
  lemma GroupDigits(x: seq<byte>)
    requires 0 < |x| <= 3
    ensures
      var d := Digits(x);
      && |d| == |x| + 1
      && (|x| == 3 ==>
            d[0] as int * 0x40000 + d[1] as int * 0x1000 + d[2] as int * 64 + d[3] as int
            == x[0] as int * 0x10000 + x[1] as int * 0x100 + x[2] as int)
      && (|x| == 2 ==> d[0] as int * 0x1000 + d[1] as int * 64 + d[2] as int
                       == (x[0] as int * 0x100 + x[1] as int) * 4)
      && (|x| == 1 ==> d[0] as int * 64 + d[1] as int == x[0] as int * 16)
  {
    DigitsOfGroup(x);
    QuadUndo(Number(x));
  }

  /** Test texts of section 10 of RFC 4648: "f", "fo" and "foo". */
  lemma TestTexts()
    ensures EncodeText([102]) == "Zg==" && EncodeText([102, 111]) == "Zm8=" && EncodeText([102, 111, 111]) == "Zm9v"
  {
    TestText([102], "Zg==", 25, 32, 0, 0);
    TestText([102, 111], "Zm8=", 25, 38, 60, 0);
    TestText([102, 111, 111], "Zm9v", 25, 38, 61, 47);
  }

  lemma TestText(x: seq<byte>, text: string, a: sextet, b: sextet, c: sextet, d: sextet)
    requires 0 < |x| <= 3 && [a, b, c, d] == Quad(Number(x)) && |text| == 4
    requires text[0] == Letter(a) && text[1] == Letter(b)
    requires text[2] == (if |x| > 1 then Letter(c) else '=') && text[3] == if |x| > 2 then Letter(d) else '='
    ensures EncodeText(x) == text
  {
    var quad := [a, b, c, d];
    DigitsOfGroup(x);
    CharsOf(quad, |x| + 1);
    assert |Padding(|x|)| == 3 - |x|;
  }

  /** One checked write of the encoder. */
  method Put(out: array<char>, k: nat, c: char) returns (ok: bool)
    requires k <= out.Length
    modifies out
    ensures ok <==> k < out.Length
    ensures ok ==> out[..k + 1] == old(out[..k]) + [c]
    ensures forall j :: k < j < out.Length ==> out[j] == old(out[j])
  {
    if k >= out.Length { return false; }
    out[k] := c;
    return true;
  }

  /** Write the digits of one group of up to three bytes. */
  method PutGroup(x: seq<byte>, out: array<char>, k: nat) returns (ok: bool)
    requires 0 < |x| <= 3 && k <= out.Length
    modifies out
    ensures ok <==> k + |x| + 1 <= out.Length
    ensures |Digits(x)| == |x| + 1 && (ok ==> out[..k + |x| + 1] == old(out[..k]) + Chars(Digits(x)))
    ensures forall j :: k + |x| < j < out.Length ==> out[j] == old(out[j])
  {
    var n := x[0] as int * 0x10000;
    if 1 < |x| { n := n + x[1] as int * 0x100; }
    if 2 < |x| { n := n + x[2]; }
    var n0, n1, n2, n3 := n / 0x40000 % 64, n / 0x1000 % 64, n / 64 % 64, n % 64;
    ghost var quad := [n0, n1, n2, n3];
    assert quad == Quad(Number(x));
    DigitsOfGroup(x);
    ok := PutDigits(quad, |x| + 1, n0, n1, n2, n3, out, k);
  }

  lemma DigitsOfGroup(x: seq<byte>)
    requires 0 < |x| <= 3
    ensures Digits(x) == Quad(Number(x))[..|x| + 1]
  {
    if |x| == 3 { assert x[..3] == x && x[3..] == []; }
  }

  method PutDigits(ghost quad: seq<sextet>, m: nat, n0: sextet, n1: sextet, n2: sextet, n3: sextet,
                   out: array<char>, k: nat)
    returns (ok: bool)
    requires quad == [n0, n1, n2, n3] && 2 <= m <= 4 && k <= out.Length
    modifies out
    ensures ok <==> k + m <= out.Length
    ensures ok ==> out[..k + m] == old(out[..k]) + Chars(quad[..m])
    ensures forall j :: k + m <= j < out.Length ==> out[j] == old(out[j])
  {
    CharsOf(quad, m);
    ok := Put(out, k, Letter(n0));
    if !ok { return; }
    ok := Put(out, k + 1, Letter(n1));
    if !ok { return; }
    if 2 < m {
      ok := Put(out, k + 2, Letter(n2));
      if !ok { return; }
    }
    if 3 < m {
      ok := Put(out, k + 3, Letter(n3));
      if !ok { return; }
    }
  }

  lemma CharsOf(d: seq<sextet>, m: nat)
    requires m <= |d|
    ensures forall i :: 0 <= i < m ==> Chars(d[..m])[i] == Letter(d[i])
  {
    if m > 0 {
      CharsOf(d, m - 1);
      CharsAppend(d[..m - 1], [d[m - 1]]);
      assert d[..m] == d[..m - 1] + [d[m - 1]];
    }
  }

  /** Pad an encoding of `n` bytes. */
  method PutPadding(n: nat, out: array<char>, k: nat) returns (ok: bool, end: nat)
    requires k <= out.Length
    modifies out
    ensures ok <==> k + |Padding(n)| <= out.Length
    ensures ok ==> end == k + |Padding(n)| && out[..end] == old(out[..k]) + Padding(n)
    ensures forall j :: k + |Padding(n)| <= j < out.Length ==> out[j] == old(out[j])
  {
    var pad := n % 3;
    end := k;
    ok := true;
    if pad > 0 {
      while pad < 3
        invariant n % 3 <= pad <= 3 && end == k + pad - n % 3 <= out.Length
        invariant out[..end] == old(out[..k]) + Padding(n)[..pad - n % 3]
        invariant forall j :: end <= j < out.Length ==> out[j] == old(out[j])
      {
        ok := Put(out, end, '=');
        if !ok { return; }
        end := end + 1;
        pad := pad + 1;
      }
    }
  }

  /** Succeeds exactly when the text and its terminator fit. */
  method Encode(x: seq<byte>, out: array<char>) returns (ok: bool)
    modifies out
    ensures ok <==> TextLength(|x|) < out.Length
    ensures ok ==> out[..TextLength(|x|)] == EncodeText(x) && out[TextLength(|x|)] == '\0'
    ensures ok ==> forall j :: TextLength(|x|) < j < out.Length ==> out[j] == old(out[j])
  {
    DigitsLength(x);
    var k: nat;
    ok, k := PutGroups(x, out);
    if !ok { return; }
    ok, k := PutPadding(|x|, out, k);
    if !ok { return; }
    ghost var text := out[..k];
    assert text == EncodeText(x) && k == TextLength(|x|);
    ok := Put(out, k, '\0');
    if ok { assert out[..k] == out[..k + 1][..k] == text && out[k] == out[..k + 1][k]; }
  }

  method PutGroups(x: seq<byte>, out: array<char>) returns (ok: bool, k: nat)
    modifies out
    ensures ok <==> |Digits(x)| <= out.Length
    ensures ok ==> k == |Digits(x)| && out[..k] == Chars(Digits(x))
    ensures ok ==> forall j :: k <= j < out.Length ==> out[j] == old(out[j])
  {
    var i: nat := 0;
    ghost var rest := x;
    k := 0;
    ok := true;
    while i < |x|
      invariant if i < |x| then rest == x[i..] else rest == []
      invariant k + |Digits(rest)| == |Digits(x)| && k <= out.Length
      invariant out[..k] + Chars(Digits(rest)) == Chars(Digits(x))
      invariant forall j :: k <= j < out.Length ==> out[j] == old(out[j])
      decreases |x| - i
    {
      var end := if i + 3 < |x| then i + 3 else |x|;
      GroupFirst(x, i, end);
      ghost var before := out[..k];
      ok := PutGroup(x[i..end], out, k);
      if !ok { return; }
      Assoc(before, Chars(Digits(x[i..end])), Chars(Digits(x[end..])));
      rest := x[end..];
      k := k + end - i + 1;
      i := i + 3;
    }
  }

  lemma GroupFirst(x: seq<byte>, i: nat, end: nat)
    requires i < |x| && end == if i + 3 < |x| then i + 3 else |x|
    ensures Digits(x[i..]) == Digits(x[i..end]) + Digits(x[end..])
    ensures Chars(Digits(x[i..])) == Chars(Digits(x[i..end])) + Chars(Digits(x[end..]))
  {
    var rest, group := x[i..], x[i..end];
    CharsAppend(Digits(group), Digits(x[end..]));
    if |rest| >= 3 {
      assert rest[..3] == group && rest[3..] == x[end..];
      assert group[..3] == group && group[3..] == [];
    } else {
      assert rest == group;
    }
  }

  // ---------------------------------------------------------------- decoding

  /** The digits before the first padding or invalid character, and whether an invalid one ended them. */
  function Scan(text: string): (seq<sextet>, bool) {
    if text == [] then ([], false)
    else
      match Classify(text[0])
      case Whitespace => Scan(text[1..])
      case Invalid => ([], true)
      case Equals => ([], false)
      case Digit(v) => var (d, bad) := Scan(text[1..]); ([v] + d, bad)
  }

  /** Three bytes for each four digits. */
  function Triple(d: seq<sextet>): (r: seq<byte>)
    requires |d| == 4
    ensures |r| == 3
  {
    var n := Join4(d);
    [n / 0x10000 % 256, n / 0x100 % 256, n % 256]
  }

  function Join4(d: seq<sextet>): nat
    requires |d| == 4
  {
    ((d[0] as int * 64 + d[1] as int) * 64 + d[2] as int) * 64 + d[3] as int
  }

  /** The bytes of all digits; up to six bits that do not fill a byte are lost. */
  function Pack(d: seq<sextet>): seq<byte> {
    if |d| >= 4 then Triple(d[..4]) + Pack(d[4..]) else Tail(d)
  }

  function Tail(d: seq<sextet>): seq<byte>
    requires |d| < 4
  {
    if |d| == 3 then
      var n := (d[0] as int * 64 + d[1] as int) * 64 + d[2] as int;
      [n / 1024 % 256, n / 4 % 256]
    else if |d| == 2 then [(d[0] as int * 64 + d[1] as int) / 16 % 256]
    else []
  }

  function DecodeText(text: string, size: nat): Result {
    Outcome(Scan(text).0, Scan(text).1, size)
  }

  lemma {:induction false} PackLength(d: seq<sextet>)
    ensures |Pack(d)| == |d| / 4 * 3 + if |d| % 4 == 0 then 0 else |d| % 4 - 1
    decreases |d|
  {
    if |d| >= 4 { PackLength(d[4..]); }
  }

  lemma {:induction false} PackAppend(d: seq<sextet>, e: seq<sextet>, groups: nat)
    requires |d| == 4 * groups
    ensures Pack(d + e) == Pack(d) + Pack(e)
    decreases groups
  {
    if groups == 0 {
      assert d + e == e;
    } else {
      PackAppend(d[4..], e, groups - 1);
      PackAppendFirst(d[..4], d[4..], e);
      assert d[..4] + d[4..] == d;
    }
  }

  lemma PackAppendFirst(q: seq<sextet>, rest: seq<sextet>, e: seq<sextet>)
    requires |q| == 4 && Pack(rest + e) == Pack(rest) + Pack(e)
    ensures Pack(q + rest + e) == Pack(q + rest) + Pack(e)
  {
    assert q + rest + e == q + (rest + e);
    PackCons(q, rest + e);
    PackCons(q, rest);
    Assoc(Triple(q), Pack(rest), Pack(e));
  }

  lemma PackCons(q: seq<sextet>, d: seq<sextet>)
    requires |q| == 4
    ensures Pack(q + d) == Triple(q) + Pack(d)
  {
    assert (q + d)[..4] == q && (q + d)[4..] == d;
  }

  function Outcome(d: seq<sextet>, bad: bool, size: nat): Result {
    if |d| / 4 * 3 > size then Err(BufTooSmall)
    else if bad then Err(InvalidData)
    else if |Pack(d)| > size then Err(BufTooSmall)
    else Ok(Pack(d))
  }

  method Decode(text: string, out: array<byte>) returns (result: Result, size: nat)
    modifies out
    ensures result == DecodeText(text, out.Length)
    ensures result.Ok? ==> size == |result.bytes| && out[..size] == result.bytes
  {
    var i, iter, buf: nat, len: nat := 0, 0, 0, 0;
    ghost var all, bad := Scan(text).0, Scan(text).1;
    ghost var groups: nat, done: seq<sextet>, group: seq<sextet> := 0, [], [];
    var open := true;
    size := 0;
    while i < |text|
      invariant i <= |text|
      invariant |done| == 4 * groups && iter == |group| < 4 && buf == Buffered(group)
      invariant len == 3 * groups <= out.Length && out[..len] == Pack(done)
      invariant open ==> all == done + group + Scan(text[i..]).0 && bad == Scan(text[i..]).1
      invariant !open ==> i == |text| && all == done + group && !bad
    {
      var c := Classify(text[i]);
      ScanOne(text, i);
      i := i + 1;
      match c
      case Whitespace =>
      case Invalid =>
        InvalidOutcome(done, group, groups, out.Length);
        return Err(InvalidData), size;
      case Equals =>
        open := false;
        i := |text|;
      case Digit(v) =>
        Shift(done, group, v, Scan(text[i..]).0);
        buf := NextDigit(buf, v, group);
        group := group + [v];
        iter := iter + 1;
        if iter == 4 {
          var stored := StoreTriple(out, len, buf, done, group, groups);
          if !stored {
            FullOutcome(all, bad, groups, out.Length);
            return Err(BufTooSmall), size;
          }
          len := len + 3;
          done, group, groups := done + group, [], groups + 1;
          buf, iter := 0, 0;
        }
    }
    assert Scan(text[|text|..]) == ([], false);
    assert all == done + group && !bad;
    result, size := StoreLast(out, len, buf, iter, done, group, groups);
  }

  /** The end of the text: what the last digits hold is stored. */
  method StoreLast(out: array<byte>, len: nat, buf: nat, iter: nat,
    ghost done: seq<sextet>, ghost group: seq<sextet>, ghost groups: nat) returns (result: Result, size: nat)
    requires |done| == 4 * groups && len == 3 * groups <= out.Length && out[..len] == Pack(done)
    requires iter == |group| < 4 && buf == Buffered(group)
    modifies out
    ensures result == Outcome(done + group, false, out.Length)
    ensures result.Ok? ==> size == |result.bytes| && out[..size] == result.bytes
  {
    FinalOutcome(done, group, groups, out.Length);
    var stored;
    stored, size := StoreTail(out, len, buf, iter, group);
    result := if stored then Ok(out[..size]) else Err(BufTooSmall);
  }

  method NextDigit(buf: nat, v: sextet, ghost group: seq<sextet>) returns (next: nat)
    requires buf == Buffered(group)
    ensures next == Buffered(group + [v])
  {
    next := buf * 64 + v;
    assert (group + [v])[..|group|] == group;
  }

  lemma ScanOne(text: string, i: nat)
    requires i < |text|
    ensures
      var (d, bad) := Scan(text[i + 1..]);
      Scan(text[i..]) == match Classify(text[i])
        case Whitespace => (d, bad)
        case Invalid => ([], true)
        case Equals => ([], false)
        case Digit(v) => ([v] + d, bad)
  {
    assert text[i..][0] == text[i] && text[i..][1..] == text[i + 1..];
  }

  lemma InvalidOutcome(done: seq<sextet>, group: seq<sextet>, groups: nat, size: nat)
    requires |done| == 4 * groups && |group| < 4 && 3 * groups <= size
    ensures Outcome(done + group + [], true, size) == Err(InvalidData)
  {
  }

  lemma FullOutcome(all: seq<sextet>, bad: bool, groups: nat, size: nat)
    requires |all| >= 4 * groups + 4 && 3 * groups + 3 > size
    ensures Outcome(all, bad, size) == Err(BufTooSmall)
  {
  }

  lemma FinalOutcome(done: seq<sextet>, group: seq<sextet>, groups: nat, size: nat)
    requires |done| == 4 * groups && |group| < 4 && 3 * groups <= size
    ensures Outcome(done + group, false, size)
         == if |Pack(done) + Tail(group)| > size then Err(BufTooSmall) else Ok(Pack(done) + Tail(group))
  {
    PackAppend(done, group, groups);
  }

  method StoreTriple(out: array<byte>, len: nat, buf: nat, ghost done: seq<sextet>, ghost group: seq<sextet>,
    ghost groups: nat) returns (stored: bool)
    requires |done| == 4 * groups && len <= out.Length && out[..len] == Pack(done)
    requires |group| == 4 && buf == Buffered(group)
    modifies out
    ensures stored <==> len + 3 <= out.Length
    ensures stored ==> out[..len + 3] == Pack(done + group)
  {
    if len + 3 > out.Length { return false; }
    BufferedIs(group);
    PackGroup(done, group, groups);
    out[len], out[len + 1], out[len + 2] := buf / 0x10000 % 256, buf / 0x100 % 256, buf % 256;
    assert out[..len + 3] == out[..len] + Triple(group);
    return true;
  }

  /** Store what the last one to three digits hold; a single digit holds no byte. */
  method StoreTail(out: array<byte>, len: nat, buf: nat, iter: nat, ghost group: seq<sextet>)
    returns (stored: bool, end: nat)
    requires len <= out.Length && iter == |group| < 4 && buf == Buffered(group)
    modifies out
    ensures end == len + |Tail(group)| && (stored <==> end <= out.Length)
    ensures stored ==> out[..end] == old(out[..len]) + Tail(group)
  {
    end := len;
    BufferedIs(group);
    if iter == 3 {
      end := end + 2;
      if end > out.Length { return false, end; }
      out[len], out[len + 1] := buf / 1024 % 256, buf / 4 % 256;
    } else if iter == 2 {
      end := end + 1;
      if end > out.Length { return false, end; }
      out[len] := buf / 16 % 256;
    }
    return true, end;
  }

  lemma Shift(done: seq<sextet>, group: seq<sextet>, v: sextet, rest: seq<sextet>)
    ensures done + group + ([v] + rest) == done + (group + [v]) + rest
  {
  }

  function Buffered(d: seq<sextet>): nat {
    if d == [] then 0 else Buffered(d[..|d| - 1]) * 64 + d[|d| - 1] as int
  }

  lemma BufferedIs(d: seq<sextet>)
    ensures |d| == 2 ==> Buffered(d) == d[0] as int * 64 + d[1] as int
    ensures |d| == 3 ==> Buffered(d) == (d[0] as int * 64 + d[1] as int) * 64 + d[2] as int
    ensures |d| == 4 ==> Buffered(d) == Join4(d)
  {
    if 2 <= |d| <= 4 {
      assert Buffered(d[..1]) == d[0];
      assert d[..2][..1] == d[..1];
      if |d| > 2 { assert d[..3][..2] == d[..2]; }
      if |d| > 3 { assert d[..4][..3] == d[..3]; }
      assert d[..|d|] == d;
    }
  }

  lemma PackGroup(done: seq<sextet>, group: seq<sextet>, groups: nat)
    requires |done| == 4 * groups && |group| == 4
    ensures Pack(done + group) == Pack(done) + Triple(group)
  {
    PackAppend(done, group, groups);
    PackCons(group, []);
    assert group + [] == group;
  }

  // ---------------------------------------------------------------- round trip

  lemma ClassifyLetter(v: sextet)
    ensures Classify(Letter(v)) == Digit(v)
  {
  }

  lemma QuadUndo(n: nat)
    requires n < 0x1000000
    ensures Join4(Quad(n)) == n
  {
    var a := n / 64;
    var b := a / 64;
    DivModUnique(n, 0x1000, b, a % 64 * 64 + n % 64);
    DivModUnique(n, 0x40000, b / 64, b % 64 * 0x1000 + a % 64 * 64 + n % 64);
  }

  /** The digits carry the bytes. */
  lemma {:induction false} PackDigits(x: seq<byte>)
    ensures Pack(Digits(x)) == x
    decreases |x|
  {
    if |x| >= 3 {
      var q, rest := Quad(Number(x[..3])), Digits(x[3..]);
      assert (q + rest)[..4] == q && (q + rest)[4..] == rest;
      TripleUndo(x[..3]);
      PackDigits(x[3..]);
      assert x == x[..3] + x[3..];
    } else if x != [] {
      TailUndo(x);
    }
  }

  lemma TripleUndo(x: seq<byte>)
    requires |x| == 3
    ensures Triple(Quad(Number(x))) == x
  {
    QuadUndo(Number(x));
    NumberBytes(x[0] as int, x[1] as int, x[2] as int);
  }

  lemma NumberBytes(a: nat, b: nat, c: nat)
    requires a < 256 && b < 256 && c < 256
    ensures var n := a * 0x10000 + b * 0x100 + c; n / 0x10000 % 256 == a && n / 0x100 % 256 == b && n % 256 == c
  {
    var n := a * 0x10000 + b * 0x100 + c;
    assert n / 0x10000 == a;
    assert n / 0x100 == a * 256 + b;
  }

  lemma TailUndo(x: seq<byte>)
    requires 0 < |x| < 3
    ensures Tail(Quad(Number(x))[..|x| + 1]) == x
  {
    if |x| == 1 { OneByte(x[0] as int); } else { TwoBytes(x[0] as int, x[1] as int); }
  }

  lemma OneByte(a: nat)
    requires a < 256
    ensures var n := a * 0x10000; (n / 0x40000 % 64 * 64 + n / 0x1000 % 64) / 16 % 256 == a
  {
    OneByteDigits(a / 4, a % 4);
    assert a / 4 * 64 + a % 4 * 16 == a * 16;
  }

  lemma OneByteDigits(p: nat, q: nat)
    requires p < 64 && q < 4
    ensures var n := (p * 4 + q) * 0x10000; n / 0x40000 % 64 == p && n / 0x1000 % 64 == q * 16
  {
    var n, high := (p * 4 + q) * 0x10000, p * 64 + q * 16;
    DivModUnique(n, 0x40000, p, q * 0x10000);
    DivModUnique(n, 0x1000, high, 0);
    DivModUnique(high, 64, p, q * 16);
  }

  lemma TwoBytes(a: nat, b: nat)
    requires a < 256 && b < 256
    ensures
      var n := a * 0x10000 + b * 0x100;
      var m := (n / 0x40000 % 64 * 64 + n / 0x1000 % 64) * 64 + n / 64 % 64;
      m / 1024 % 256 == a && m / 4 % 256 == b
  {
    TwoByteDigits(a / 4, a % 4, b / 16, b % 16);
    SixteenBits(a, b);
  }

  lemma SixteenBits(a: nat, b: nat)
    requires a < 256 && b < 256
    ensures (a * 1024 + b * 4) / 1024 % 256 == a && (a * 1024 + b * 4) / 4 % 256 == b
  {
  }

  lemma TwoByteDigits(p: nat, q: nat, r: nat, s: nat)
    requires p < 64 && q < 4 && r < 16 && s < 16
    ensures var n := (p * 4 + q) * 0x10000 + (r * 16 + s) * 0x100;
      n / 0x40000 % 64 == p && n / 0x1000 % 64 == q * 16 + r && n / 64 % 64 == s * 4
  {
    var n, high := (p * 4 + q) * 0x10000 + (r * 16 + s) * 0x100, p * 64 + q * 16 + r;
    DivModUnique(n, 0x40000, p, q * 0x10000 + r * 0x1000 + s * 0x100);
    DivModUnique(n, 0x1000, high, s * 0x100);
    DivModUnique(high, 64, p, q * 16 + r);
    DivModUnique(n, 64, high * 64 + s * 4, 0);
    DivModUnique(high * 64 + s * 4, 64, high, s * 4);
  }

  /** Scanning sees through line breaks, and reads the digits of encoded text back. */
  lemma {:induction false} ScanText(text: string, d: seq<sextet>, padding: string)
    requires Stripped(text) == Chars(d) + padding && padding in ["", "=", "=="]
    ensures Scan(text) == (d, false)
    decreases |text|
  {
    if text != [] {
      var c, rest := text[0], text[1..];
      if c == '\n' {
        ScanText(rest, d, padding);
      } else if d != [] {
        ClassifyLetter(d[0]);
        assert c == Stripped(text)[0] == Letter(d[0]);
        assert Stripped(rest) == Stripped(text)[1..] == Chars(d[1..]) + padding;
        ScanText(rest, d[1..], padding);
        assert [d[0]] + d[1..] == d;
      } else {
        assert c == Stripped(text)[0] == padding[0];
      }
    }
  }

  /** The text without its line breaks. */
  function Stripped(text: string): string {
    if text == [] then [] else (if text[0] == '\n' then [] else [text[0]]) + Stripped(text[1..])
  }

  /** Encoded text, with line breaks anywhere in it, decodes to the bytes whenever they fit. */
  lemma RoundTrip(x: seq<byte>, text: string, size: nat)
    requires Stripped(text) == EncodeText(x)
    ensures DecodeText(text, size) == if |x| <= size then Ok(x) else Err(BufTooSmall)
  {
    ScanText(text, Digits(x), Padding(|x|));
    PackDigits(x);
    PackLength(Digits(x));
  }

  // ---------------------------------------------------------------- any text

  predicate InAlphabet(c: char) { 'A' <= c <= 'Z' || 'a' <= c <= 'z' || '0' <= c <= '9' || c == '+' || c == '/' }

  /** Where decoding stops: at the first character that is neither in the alphabet nor a line break. */
  function Stop(text: string): (k: nat)
    ensures k <= |text|
  {
    if text == [] || !(InAlphabet(text[0]) || text[0] == '\n') then 0 else 1 + Stop(text[1..])
  }

  function Count(text: string): nat {
    if text == [] then 0 else Count(text[1..]) + if InAlphabet(text[0]) then 1 else 0
  }

  lemma {:induction false} ScanExact(text: string)
    ensures |Scan(text).0| == Count(text[..Stop(text)])
    ensures Scan(text).1 <==> Stop(text) < |text| && text[Stop(text)] != '='
  {
    if text != [] && (InAlphabet(text[0]) || text[0] == '\n') {
      ScanExact(text[1..]);
      assert text[..Stop(text)][1..] == text[1..][..Stop(text[1..])];
    }
  }

  /** What decoding answers to any text: with n digits before the place where it stops, whole groups must
      fit; then a character other than the padding is an error; then the n * 6 / 8 bytes must fit. */
  lemma DecodeExact(text: string, size: nat)
    ensures
      var k, r := Stop(text), DecodeText(text, size);
      var n, bad := Count(text[..k]), k < |text| && text[k] != '=';
      && (r == Err(BufTooSmall) <==> n / 4 * 3 > size || (!bad && n * 6 / 8 > size))
      && (r == Err(InvalidData) <==> n / 4 * 3 <= size && bad)
      && (r.Ok? ==> |r.bytes| == n * 6 / 8)
  {
    ScanExact(text);
    PackLength(Scan(text).0);
  }
}
