/** The CRC-16 of the DEC 9401 chip (calc_crc in rl0102.cpp).

    A 16-bit integer is the sequence of its bits, bit 0 first: exclusive or works
    position by position, and a right shift drops the first bit. */
module RlCrc {
  import opened Words

  type Bits16 = s: seq<bool> | |s| == 16
    witness [false, false, false, false, false, false, false, false,
     false, false, false, false, false, false, false, false]

  const ZERO: Bits16 :=
    [false, false, false, false, false, false, false, false,
     false, false, false, false, false, false, false, false]

  function ToBits(w: Word): Bits16 { seq(16, i requires 0 <= i => Bit(w, i)) }

  function Value(bits: seq<bool>): (v: int)
    ensures 0 <= v < Pow2(|bits|)
  {
    if bits == [] then 0 else (if bits[0] then 1 else 0) + 2 * Value(bits[1..])
  }

  function ToWord(bits: Bits16): Word {
    Pow2Values();
    Value(bits)
  }

  lemma HalveFirst(x: int, p: int)
    requires p > 0
    ensures x / (2 * p) == (x / 2) / p
  {
    var h := x / 2;
    var q := h / p;
    assert h == p * q + h % p;
    assert x == (2 * p) * q + (2 * (h % p) + x % 2);
    QuotientIs(x, 2 * p, q, 2 * (h % p) + x % 2);
  }

  lemma {:induction false} BitOfValue(bits: seq<bool>, i: nat)
    requires i < |bits|
    ensures Bit(Value(bits), i) == bits[i]
    decreases i
  {
    var v, w := Value(bits), Value(bits[1..]);
    assert v == (if bits[0] then 1 else 0) + 2 * w;
    if i == 0 {
      assert Pow2(0) == 1;
    } else {
      BitOfValue(bits[1..], i - 1);
      HalveFirst(v, Pow2(i - 1));
      assert v / 2 == w;
    }
  }

  /** A word keeps the bits it is made of. */
  lemma BitsOfWord(bits: Bits16)
    ensures ToBits(ToWord(bits)) == bits
  {
    forall i | 0 <= i < 16 ensures ToBits(ToWord(bits))[i] == bits[i] {
      BitOfValue(bits, i);
    }
  }

  function Xor(a: Bits16, b: Bits16): Bits16 {
    seq(16, i requires 0 <= i < 16 => a[i] != b[i])
  }

  function ShiftRight(a: Bits16): Bits16 { a[1..] + [false] }

  /** 0120001, the reversed generator polynomial. */
  const POLYNOMIAL: Bits16 :=
    [true, false, false, false, false, false, false, false,
     false, false, false, false, false, true, false, true]

  function Feedback(crc: Bits16): Bits16 {
    if crc[0] then Xor(ShiftRight(crc), POLYNOMIAL) else ShiftRight(crc)
  }

  /** The CRC register after a stream of data bits. */
  function CrcBits(crc: Bits16, bits: seq<bool>): Bits16
    decreases |bits|
  {
    if bits == [] then crc
    else CrcBits(Feedback(crc[0 := crc[0] != bits[0]]), bits[1..])
  }

  /** The bits of a record in the order in which they pass the head. */
  function Stream(data: seq<Bits16>): seq<bool> {
    if data == [] then [] else data[0] + Stream(data[1..])
  }

  function Crc(data: seq<Bits16>): Bits16 { CrcBits(ZERO, Stream(data)) }

  /** calc_crc */
  method CalcCrc(data: array<Bits16>) returns (crc: Bits16)
    ensures crc == Crc(data[..])
  {
    crc := ZERO;
    for i := 0 to data.Length
      invariant CrcBits(crc, Stream(data[i..])) == Crc(data[..])
    {
      assert data[i..][1..] == data[i + 1..];
      CrcBitsConcat(crc, data[i], Stream(data[i + 1..]));
      crc := CrcOfWord(crc, data[i]);
    }
  }

  /** The inner loop of calc_crc. */
  method CrcOfWord(crc0: Bits16, w: Bits16) returns (crc: Bits16)
    ensures crc == CrcBits(crc0, w)
  {
    crc := crc0;
    var d := w;
    for j := 0 to 16
      invariant d[..16 - j] == w[j..]
      invariant CrcBits(crc, w[j..]) == CrcBits(crc0, w)
    {
      assert d[0] == d[..16 - j][0] == w[j..][0];
      assert w[j..][1..] == w[j + 1..];
      crc := crc[0 := crc[0] != d[0]];
      crc := if crc[0] then Xor(ShiftRight(crc), POLYNOMIAL) else ShiftRight(crc);
      assert d[..16 - j][1..] == ShiftRight(d)[..16 - (j + 1)];
      d := ShiftRight(d);
    }
  }

  // ---- the code is linear -------------------------------------------------

  function Feedbacks(crc: Bits16, n: nat): Bits16
    decreases n
  {
    if n == 0 then crc else Feedbacks(Feedback(crc), n - 1)
  }

  lemma FeedbackInjective(a: Bits16, b: Bits16)
    ensures Feedback(a) == Feedback(b) ==> a == b
    ensures Feedback(ZERO) == ZERO
  {
    if Feedback(a) == Feedback(b) {
      assert Feedback(a)[15] == a[0] && Feedback(b)[15] == b[0];
      forall j | 1 <= j < 16 ensures a[j] == b[j] {
        assert Feedback(a)[j - 1] == (a[j] != (a[0] && POLYNOMIAL[j - 1]));
        assert Feedback(b)[j - 1] == (b[j] != (b[0] && POLYNOMIAL[j - 1]));
      }
    }
  }

  lemma {:induction false} FeedbacksInjective(a: Bits16, b: Bits16, n: nat)
    ensures Feedbacks(a, n) == Feedbacks(b, n) ==> a == b
    ensures Feedbacks(ZERO, n) == ZERO
    decreases n
  {
    if n > 0 {
      FeedbackInjective(a, b);
      FeedbacksInjective(Feedback(a), Feedback(b), n - 1);
    }
  }

  lemma {:induction false} CrcBitsInjective(a: Bits16, b: Bits16, bits: seq<bool>)
    ensures CrcBits(a, bits) == CrcBits(b, bits) ==> a == b
    decreases |bits|
  {
    if bits != [] {
      var a', b' := a[0 := a[0] != bits[0]], b[0 := b[0] != bits[0]];
      FeedbackInjective(a', b');
      CrcBitsInjective(Feedback(a'), Feedback(b'), bits[1..]);
      if a' == b' {
        assert a'[0] == b'[0];
        assert forall i | 1 <= i < 16 :: a[i] == a'[i] && b[i] == b'[i];
      }
    }
  }

  lemma {:induction false} CrcBitsConcat(crc: Bits16, a: seq<bool>, b: seq<bool>)
    ensures CrcBits(crc, a + b) == CrcBits(CrcBits(crc, a), b)
    decreases |a|
  {
    if a == [] {
      assert a + b == b;
    } else {
      assert (a + b)[1..] == a[1..] + b;
      CrcBitsConcat(Feedback(crc[0 := crc[0] != a[0]]), a[1..], b);
    }
  }

  function Pad(bits: seq<bool>): Bits16
    requires |bits| <= 16
  {
    bits + seq(16 - |bits|, _ => false)
  }

  /** Up to 16 data bits enter by exclusive or, then as many feedback steps follow. */
  lemma {:induction false} BitsAreLinear(crc: Bits16, bits: seq<bool>)
    requires |bits| <= 16
    ensures CrcBits(crc, bits) == Feedbacks(Xor(crc, Pad(bits)), |bits|)
    decreases |bits|
  {
    if bits == [] {
      assert Xor(crc, Pad(bits)) == crc;
    } else {
      var c := Feedback(crc[0 := crc[0] != bits[0]]);
      BitsAreLinear(c, bits[1..]);
      FeedbackOfXor(crc, bits);
    }
  }

  lemma FeedbackOfXor(crc: Bits16, bits: seq<bool>)
    requires 0 < |bits| <= 16
    ensures Xor(Feedback(crc[0 := crc[0] != bits[0]]), Pad(bits[1..])) == Feedback(Xor(crc, Pad(bits)))
  {
    var c, x := crc[0 := crc[0] != bits[0]], Xor(crc, Pad(bits));
    assert c[0] == x[0];
    forall i | 0 <= i < 16 ensures Xor(Feedback(c), Pad(bits[1..]))[i] == Feedback(x)[i] {
      if i < 15 {
        assert ShiftRight(c)[i] == crc[i + 1];
        assert ShiftRight(x)[i] == (crc[i + 1] != Pad(bits)[i + 1]);
        assert Pad(bits)[i + 1] == Pad(bits[1..])[i];
      }
    }
  }

  lemma XorInjective(c: Bits16, a: Bits16, b: Bits16)
    ensures Xor(c, a) == Xor(c, b) ==> a == b
    ensures Xor(c, a) == ZERO <==> c == a
  {
    assert forall i | 0 <= i < 16 :: Xor(c, a)[i] == (c[i] != a[i]) && Xor(c, b)[i] == (c[i] != b[i]);
  }

  lemma {:induction false} StreamConcat(a: seq<Bits16>, b: seq<Bits16>)
    ensures Stream(a + b) == Stream(a) + Stream(b)
    decreases |a|
  {
    if a == [] {
      assert a + b == b;
    } else {
      assert (a + b)[1..] == a[1..] + b;
      StreamConcat(a[1..], b);
    }
  }

  // ---- what the code detects ----------------------------------------------

  /** A record followed by the word x checks to zero exactly when x is its CRC. */
  lemma SelfCheck(data: seq<Bits16>, x: Bits16)
    ensures Crc(data + [x]) == ZERO <==> x == Crc(data)
  {
    StreamConcat(data, [x]);
    assert Stream([x]) == x;
    var c := Crc(data);
    CrcBitsConcat(ZERO, Stream(data), x);
    BitsAreLinear(c, x);
    assert Pad(x) == x;
    FeedbacksInjective(Xor(c, x), ZERO, 16);
    XorInjective(c, x, c);
  }

  lemma WindowInjective(c: Bits16, u: seq<bool>, v: seq<bool>)
    requires |u| == |v| <= 16
    ensures CrcBits(c, u) == CrcBits(c, v) ==> u == v
  {
    BitsAreLinear(c, u);
    BitsAreLinear(c, v);
    FeedbacksInjective(Xor(c, Pad(u)), Xor(c, Pad(v)), |u|);
    XorInjective(c, Pad(u), Pad(v));
    assert u == Pad(u)[..|u|] && v == Pad(v)[..|v|];
  }

  /** Two streams that differ only inside 16 consecutive bits, wherever those
      lie, have different CRCs. */
  lemma BurstDetected(head: seq<bool>, u: seq<bool>, v: seq<bool>, tail: seq<bool>)
    requires |u| == |v| <= 16 && u != v
    ensures CrcBits(ZERO, head + u + tail) != CrcBits(ZERO, head + v + tail)
  {
    var c := CrcBits(ZERO, head);
    CrcBitsConcat(ZERO, head, u);
    CrcBitsConcat(ZERO, head, v);
    CrcBitsConcat(ZERO, head + u, tail);
    CrcBitsConcat(ZERO, head + v, tail);
    WindowInjective(c, u, v);
    CrcBitsInjective(CrcBits(c, u), CrcBits(c, v), tail);
  }

  /** Changing one word of a record, whatever the change, changes its CRC. */
  lemma OneWordDetected(head: seq<Bits16>, x: Bits16, y: Bits16, tail: seq<Bits16>)
    requires x != y
    ensures Crc(head + [x] + tail) != Crc(head + [y] + tail)
  {
    StreamConcat(head + [x], tail);
    StreamConcat(head + [y], tail);
    StreamConcat(head, [x]);
    StreamConcat(head, [y]);
    assert Stream([x]) == x && Stream([y]) == y;
    BurstDetected(Stream(head), x, y, Stream(tail));
  }

  // ---- which code it is ---------------------------------------------------

  /** x^16 + x^15 + x^2 + 1, the highest power first. */
  const GENERATOR: seq<bool> :=
    [true, true, false, false, false, false, false, false, false, false,
     false, false, false, false, true, false, true]

  /** Of the polynomials of degree 16 only the generator of CRC-16 leaves the register
      clear. */
  lemma GeneratorPasses(bits: seq<bool>)
    requires |bits| == 17 && bits[0]
    ensures CrcBits(ZERO, bits) == ZERO <==> bits == GENERATOR
  {
    hide Feedback, Xor, CrcBits;
    FirstFeedback();
    FirstBit(ZERO, bits);
    OwnRegister(POLYNOMIAL, bits[1..]);
    SameFromFirst(bits);
  }

  lemma FirstFeedback()
    ensures Feedback(ZERO[0 := true]) == POLYNOMIAL
  {
    var s := ShiftRight(ZERO[0 := true]);
    forall i | 0 <= i < 16 ensures s[i] == false {
    }
  }

  lemma FirstBit(crc: Bits16, bits: seq<bool>)
    requires bits != []
    ensures CrcBits(crc, bits) == CrcBits(Feedback(crc[0 := crc[0] != bits[0]]), bits[1..])
  {
  }

  /** Sixteen bits clear the register exactly when they are its own. */
  lemma OwnRegister(c: Bits16, x: Bits16)
    ensures CrcBits(c, x) == ZERO <==> x == c
  {
    BitsAreLinear(c, x);
    assert Pad(x) == x;
    FeedbacksInjective(Xor(c, x), ZERO, 16);
    XorInjective(c, x, c);
  }

  lemma SameFromFirst(bits: seq<bool>)
    requires |bits| == 17 && bits[0]
    ensures bits[1..] == POLYNOMIAL <==> bits == GENERATOR
  {
    assert GENERATOR[1..] == POLYNOMIAL;
    assert bits == [true] + bits[1..] && GENERATOR == [true] + GENERATOR[1..];
  }
}
