/** The KE11-A extended arithmetic element (ke11.cpp): divide, multiply,
    normalise and the two shifts on the register pair AC:MQ. */
module Ke11 {
  import opened Words

  datatype Access = DatoWord | DatoByteLow | DatoByteHigh

  function One(b: bool): int { if b then 1 else 0 }

  predicate SignWord(w: Word) { w >= 0x8000 }

  /** get_sign_word of an exclusive or: bit 15 of x ^ y. */
  predicate SignsDiffer(x: int, y: int) { Bit(x, 15) != Bit(y, 15) }

  predicate Fits16(x: int) { -0x8000 <= x < 0x8000 }
  predicate Fits32(x: int) { -0x8000_0000 <= x < 0x8000_0000 }

  /** The signed operand meant by a write of `flipflops`: a low-byte write of a
      negative byte is sign-extended from that byte, any other from the word. */
  function Operand(flipflops: Word, access: Access): int {
    if access == DatoByteLow && Bit(flipflops, 7) then flipflops % 0x100 - 0x100
    else Signed16(flipflops)
  }

  /** A word written is the signed operand; so is a negative byte written to the low half,
      whatever is in the upper one, and a byte that is not negative below a clear one. */
  lemma OperandIsMeant(d: int, upper: Byte)
    ensures Fits16(d) ==> Operand(Low16(d), DatoWord) == d
    ensures -0x80 <= d < 0 ==> Operand(0x100 * upper + d + 0x100, DatoByteLow) == d
    ensures 0 <= d < 0x80 ==> Operand(d, DatoByteLow) == d && Operand(d, DatoWord) == d
    ensures 0 <= d < 0x80 ==> Operand(0x100 * upper + d, DatoByteHigh) == Signed16(0x100 * upper + d)
  {
    if -0x80 <= d < 0 {
      SignBits(0x100 * upper + d + 0x100);
    }
    if 0 <= d < 0x80 {
      SignBits(d);
    }
  }

  lemma SignBits(w: Word)
    ensures Bit(w, 15) <==> w >= 0x8000
    ensures Bit(w, 14) <==> w % 0x8000 >= 0x4000
    ensures Bit(w, 7) <==> w % 0x100 >= 0x80
  {
    Pow2Values();
    assert Pow2(15) == 2 * Pow2(14);
  }

  /** The sign extension `div |= 0177400` makes the low byte the operand. */
  lemma ExtendByte(w: Word)
    requires Bit(w, 7)
    ensures Or(w, 0xff00) == 0xff00 + w % 0x100
  {
    Pow2Values();
    OrSplit(w / 0x100, w % 0x100, 0xff, 0, 8);
    OrAllOnes(w / 0x100, 8);
    OrZero(w % 0x100);
  }

  /** The sign extension `x |= ~077777` of a word to an int. */
  lemma ExtendWord(w: Word)
    requires w >= 0x8000
    ensures Or(w, -0x8000) == w - 0x1_0000
  {
    Pow2Values();
    OrSplit(1, w - 0x8000, -1, 0, 15);
    OrZero(w - 0x8000);
    OrMinusOne(1);
  }

  /** `(_ac << 16) | _mq` followed by `t32 | ~017777777777` is the signed pair. */
  lemma ExtendPair(ac: Word, mq: Word)
    ensures Or(Wrap32(ac * 0x1_0000), mq) == Signed32(ac, mq)
    ensures SignWord(ac) ==> Or(Signed32(ac, mq), -0x8000_0000) == Signed32(ac, mq)
  {
    Pow2Values();
    assert Wrap32(ac * 0x1_0000) == Signed16(ac) * 0x1_0000;
    OrDisjoint(Signed16(ac), mq, 16, 0x1_0000);
    if SignWord(ac) {
      OrSignExtended(Signed32(ac, mq), 31);
    }
  }

  // ---- the steps of the arithmetic ----------------------------------------

  /** `(_ac << 16) | _mq` with its sign extended. */
  method Load32(ac: Word, mq: Word) returns (t: Long)
    ensures t == Signed32(ac, mq)
  {
    ExtendPair(ac, mq);
    t := Or(Wrap32(ac * 0x1_0000), mq);
    if SignWord(ac) {
      t := Or(t, -0x8000_0000);
    }
  }

  /** Sign extension of a 16-bit operand as DIV and MUL do it. */
  method ExtendOperand(flipflops: Word, access: Access) returns (operand: int)
    ensures operand == Operand(flipflops, access)
    ensures Fits16(operand)
  {
    operand := flipflops;
    SignBits(flipflops);
    if access == DatoByteLow && Bit(flipflops, 7) {
      ExtendByte(flipflops);
      operand := Or(operand, 0xff00);
    }
    if SignWord(operand) {
      ExtendWord(operand);
      operand := Or(operand, -0x8000);
    }
  }

  /** `(_ac << 1) | (_mq >> 15)` and `(_mq << 1) | low`, each masked to a word. */
  method ShiftPair(ac: Word, mq: Word, low: int) returns (ac': Word, mq': Word)
    requires 0 <= low <= 1
    ensures ac' == Low16(ac * 2 + mq / 0x8000) && mq' == Low16(mq * 2 + low)
  {
    OrLow(ac, mq / 0x8000);
    OrLow(mq, low);
    ac' := Low16(Or(ac * 2, mq / 0x8000));
    mq' := Low16(Or(mq * 2, low));
  }

  lemma OrLow(hi: int, lo: int)
    requires 0 <= lo <= 1
    ensures Or(hi * 2, lo) == hi * 2 + lo
  {
    assert Pow2(1) == 2;
    OrDisjoint(hi, lo, 1, 2);
  }

  lemma ShiftedPair(ac: Word, mq: Word, low: int)
    requires 0 <= low <= 1
    ensures var ac', mq' := Low16(ac * 2 + mq / 0x8000), Low16(mq * 2 + low);
            && Unsigned32(0x1_0000 * ac' + mq') == Unsigned32(2 * (0x1_0000 * ac + mq) + low)
            && (-0x4000_0000 <= Signed32(ac, mq) < 0x4000_0000 ==>
                  Signed32(ac', mq') == 2 * Signed32(ac, mq) + low)
  {
    var m := if mq >= 0x8000 then 1 else 0;
    var carry := if ac >= 0x8000 then 1 else 0;
    assert mq / 0x8000 == m && Low16(mq * 2 + low) == 2 * mq + low - 0x1_0000 * m;
    assert Low16(ac * 2 + m) == ac * 2 + m - 0x1_0000 * carry;
  }

  /** AC<15> and AC<14> agree exactly for the values whose double still fits. */
  lemma TopBits(ac: Word, mq: Word)
    ensures !SignsDiffer(ac, ac * 2) <==> -0x4000_0000 <= Signed32(ac, mq) < 0x4000_0000
  {
    Pow2Values();
    assert Pow2(15) == 0x8000;
  }

  lemma SignOfOperand(d: int)
    requires Fits16(d)
    ensures Bit(d, 15) <==> d < 0
  {
    Pow2Values();
  }

  lemma QuotientTooBig(t: Long, d: int)
    requires Fits16(d) && Abs(t) / 0x1_0000 >= Abs(d)
    ensures d == 0 || !Fits16(TruncDiv(t, d))
  {
    if d != 0 {
      TruncDivMeaning(t, d);
      var a, b := Abs(t), Abs(d);
      if a / b < 0x1_0000 {
        assert a == b * (a / b) + a % b;
        MulMonotone(a / b, 0xffff, b);
        assert false;
      }
    }
  }

  /** The division proper is never reached with a zero divisor or with the
      dividend -2^31, whose absolute value int32_t does not have. */
  lemma QuotientBelow(t: Long, d: int)
    requires Fits16(d) && Abs(t) / 0x1_0000 < Abs(d)
    ensures d != 0 && t != -0x8000_0000
    ensures Abs(TruncDiv(t, d)) < 0x1_0000
    ensures Abs(TruncRem(t, d)) < 0x8000
  {
    TruncDivMeaning(t, d);
    var a, b := Abs(t), Abs(d);
    QuotientBounds(a, b, 0, 0x1_0000);
  }

  lemma ProductFits(a: int, b: int)
    requires Fits16(a) && Fits16(b)
    ensures Fits32(a * b)
  {
    if b >= 0 {
      MulMonotone(a, 0x8000 - 1, b);
      MulMonotone(-0x8000, a, b);
    } else {
      MulMonotone(a, 0x8000 - 1, -b);
      MulMonotone(-0x8000, a, -b);
      assert a * b == -(a * -b);
    }
  }

  /** A shift by n places splits a 32-bit value at bit `total - n`. */
  lemma Split(t: int, n: nat, total: nat) returns (s: int, r: int)
    requires n <= total
    ensures s == t / Pow2(total - n)
    ensures t * Pow2(n) == Pow2(total) * s + r
    ensures 0 <= r < Pow2(total)
  {
    Pow2Add(total - n, n);
    var q, p := Pow2(total - n), Pow2(n);
    s, r := SplitBy(t, q, p);
  }

  lemma SplitBy(t: int, q: int, p: int) returns (s: int, r: int)
    requires q > 0 && p > 0
    ensures s == t / q
    ensures t * p == (q * p) * s + r
    ensures 0 <= r < q * p
  {
    s := t / q;
    var m := t % q;
    r := m * p;
    assert t == q * s + m;
    assert t * p == (q * s + m) * p == (q * s) * p + m * p;
    assert (q * s) * p == (q * p) * s;
    MulMonotone(m + 1, q, p);
    MulMonotone(0, m, p);
    assert (m + 1) * p == m * p + p;
  }

  /** The bits shifted out: or-ing in the shifted sign changes nothing. */
  lemma SignOut(t: Long, n: nat, total: nat)
    requires 1 <= n <= 31 && 31 <= total <= 32
    ensures Or(t / Pow2(total - n), -One(t < 0) * Pow2(n)) == t / Pow2(total - n)
    ensures t / Pow2(total - n) < 0 <==> t < 0
  {
    Pow2Values();
    Pow2Add(total - n, n);
    SignOutBy(t, n, Pow2(total - n), Pow2(n));
  }

  lemma SignOutBy(t: Long, n: nat, q: int, p: int)
    requires p == Pow2(n) && q > 0 && q * p >= 0x8000_0000
    ensures Or(t / q, -One(t < 0) * p) == t / q
    ensures t / q < 0 <==> t < 0
  {
    if t < 0 {
      NegateProduct(q, p);
      QuotientBounds(t, q, -p, 0);
      OrSignExtended(t / q, n);
    } else {
      QuotientBounds(t, q, 0, p);
      OrZero(t / q);
    }
  }

  /** LSH with a count in 1..31. */
  method LogicalLeft(t: Long, n: nat) returns (shifted: Long, v: bool, c: bool)
    requires 1 <= n <= 31
    ensures shifted == Wrap32(t * Pow2(n))
    ensures v <==> !Fits32(t * Pow2(n))
    ensures c <==> Bit(t, 32 - n)
  {
    var sign := One(t < 0);
    var sout := Or(t / Pow2(32 - n), -sign * Pow2(n));
    shifted := Wrap32(Unsigned32(t) * Pow2(n));
    v := sout != if shifted < 0 then -1 else 0;
    c := sout % 2 == 1;
    SignOut(t, n, 32);
    Pow2Values();
    ghost var s, r := Split(t, n, 32);
    WrapShift(r, s);
    assert 0x1_0000_0000 * s + r == r + 0x1_0000_0000 * s;
    UnsignedProduct(t, Pow2(n));
  }

  lemma UnsignedProduct(t: Long, p: int)
    ensures Wrap32(Unsigned32(t) * p) == Wrap32(t * p)
  {
    if t < 0 {
      assert Unsigned32(t) == t + 0x1_0000_0000;
      assert (t + 0x1_0000_0000) * p == t * p + 0x1_0000_0000 * p;
      WrapShift(t * p, p);
    }
  }

  lemma UnsignedQuotient(t: Long, n: nat)
    requires 1 <= n <= 32
    ensures 0 <= Unsigned32(t) / Pow2(n) < Pow2(32 - n) <= 0x8000_0000
    ensures t >= 0 ==> Unsigned32(t) == t
    ensures t < 0 ==> Unsigned32(t) == t + 0x1_0000_0000
  {
    Pow2Values();
    Pow2Add(n, 32 - n);
    Pow2Add(1, n - 1);
    QuotientBounds(Unsigned32(t), Pow2(n), 0, Pow2(32 - n));
    Pow2Add(32 - n, n - 1);
    MulMonotone(1, Pow2(n - 1), Pow2(32 - n));
  }

  /** LSH with a count in 32..63, that is n places to the right. */
  method LogicalRight(t: Long, n: nat) returns (shifted: Long)
    requires 1 <= n <= 32
    ensures shifted >= 0 && shifted == Unsigned32(t) / Pow2(n)
  {
    UnsignedQuotient(t, n);
    Pow2Values();
    shifted := if n != 32 then Unsigned32(t) / Pow2(n) else 0;
  }

  /** ASH with a count in 1..31. */
  method ArithmeticLeft(t: Long, n: nat) returns (shifted: Long, v: bool, c: bool)
    requires 1 <= n <= 31
    ensures v <==> !Fits32(t * Pow2(n))
    ensures !v ==> shifted == t * Pow2(n)
    ensures shifted < 0 <==> t < 0
    ensures shifted % 0x8000_0000 == (t * Pow2(n)) % 0x8000_0000
    ensures c <==> Bit(t, 31 - n)
  {
    hide Or, Wrap32;
    var sign := One(t < 0);
    ghost var s, r := ArithmeticParts(t, n);
    var sout := Or(t / Pow2(31 - n), -sign * Pow2(n));
    shifted := Wrap32(Or(sign * 0x8000_0000, (t * Pow2(n)) % 0x8000_0000));
    v := sout != if shifted < 0 then -1 else 0;
    c := sout % 2 == 1;
  }

  lemma ArithmeticParts(t: Long, n: nat) returns (s: int, r: int)
    requires 1 <= n <= 31
    ensures s == t / Pow2(31 - n) == Or(t / Pow2(31 - n), -One(t < 0) * Pow2(n))
    ensures t * Pow2(n) == 0x8000_0000 * s + r && 0 <= r < 0x8000_0000
    ensures (t * Pow2(n)) % 0x8000_0000 == r
    ensures s < 0 <==> t < 0
    ensures var shifted := r - One(t < 0) * 0x8000_0000;
            && Wrap32(Or(One(t < 0) * 0x8000_0000, (t * Pow2(n)) % 0x8000_0000)) == shifted
            && shifted % 0x8000_0000 == r
  {
    SignOut(t, n, 31);
    Pow2Values();
    s, r := Split(t, n, 31);
    QuotientIs(t * Pow2(n), 0x8000_0000, s, r);
    KeepSign(t < 0, r);
  }

  /** Bit 31 from the old value, bits 30 to 0 from the shifted one. */
  lemma KeepSign(negative: bool, r: int)
    requires 0 <= r < 0x8000_0000
    ensures var shifted := r - One(negative) * 0x8000_0000;
            Wrap32(Or(One(negative) * 0x8000_0000, r)) == shifted && shifted % 0x8000_0000 == r
  {
    Pow2Values();
    WrapHigh(r);
    if negative {
      OrDisjoint(1, r, 31, 0x8000_0000);
    } else {
      OrZero(r);
    }
  }

  lemma WrapHigh(r: int)
    requires 0 <= r < 0x8000_0000
    ensures Wrap32(0x8000_0000 + r) == r - 0x8000_0000 && Wrap32(r) == r
    ensures (r - 0x8000_0000) % 0x8000_0000 == r && r % 0x8000_0000 == r
  {
  }

  /** ASH with a count in 32..63, that is n places to the right. */
  method ArithmeticRight(t: Long, n: nat) returns (shifted: Long)
    requires 1 <= n <= 32
    ensures shifted == t / Pow2(n)
  {
    var sign := One(t < 0);
    FillSign(t, n);
    shifted := if n != 32 then Wrap32(Or(Unsigned32(t) / Pow2(n), -sign * Pow2(32 - n)))
               else -sign;
  }

  lemma FillSign(t: Long, n: nat)
    requires 1 <= n <= 32
    ensures Or(Unsigned32(t) / Pow2(n), -One(t < 0) * Pow2(32 - n)) == t / Pow2(n)
    ensures n == 32 ==> t / Pow2(n) == -One(t < 0)
    ensures -0x8000_0000 <= t / Pow2(n) < 0x8000_0000
  {
    UnsignedQuotient(t, n);
    Pow2Values();
    Pow2Add(n, 32 - n);
    if t < 0 {
      FillWithOnes(t, n, Pow2(n), Pow2(32 - n));
    } else {
      OrZero(Unsigned32(t) / Pow2(n));
    }
  }

  lemma FillWithOnes(t: int, n: nat, p: int, m: int)
    requires n <= 32 && m == Pow2(32 - n) && p > 0 && p * m == 0x1_0000_0000
    requires -0x8000_0000 <= t < 0
    requires 0 <= (t + 0x1_0000_0000) / p < m
    ensures Or((t + 0x1_0000_0000) / p, -m) == t / p
    ensures -m <= t / p < 0
  {
    FloorOfNegative(t, p, m);
    OrDisjoint(-1, (t + 0x1_0000_0000) / p, 32 - n, m);
  }

  lemma FloorOfNegative(t: int, p: int, m: int)
    requires p > 0
    ensures (t + p * m) / p - m == t / p
  {
    var x := t + p * m;
    assert x == p * (x / p) + x % p;
    assert p * (x / p - m) == p * (x / p) - p * m;
    QuotientIs(t, p, x / p - m, x % p);
  }

  lemma DynamicBits(ac: Word, mq: Word)
    ensures Signed32(ac, mq) == 0 <==> ac == 0 && mq == 0
    ensures Fits16(Signed32(ac, mq)) <==> (ac == 0 && !SignWord(mq)) || (ac == 0xffff && SignWord(mq))
  {
  }

  // ---- the element --------------------------------------------------------

  class Ke11 {
    var ac: Word
    var mq: Word
    var sc: Byte
    // the status register SR, bit 0 first
    var c: bool
    var sxt: bool
    var z: bool
    var mqz: bool
    var acz: bool
    var acm1: bool
    var n: bool
    var nxv: bool
    // what a DATI of the registers returns
    var acRegister: Word
    var mqRegister: Word
    var scRegister: Byte

    /** Overflow: the hardware stores N xor V. */
    predicate Overflow()
      reads this
    {
      n != nxv
    }

    /** What update_AC, update_MQ and update_SCSR leave behind: the readable
        registers show the fields and the dynamic status bits describe AC:MQ. */
    ghost predicate Shown()
      reads this
    {
      && acRegister == ac
      && mqRegister == mq
      && scRegister == sc
      && (mqz <==> mq == 0)
      && (acz <==> ac == 0)
      && (acm1 <==> ac == 0xffff)
      && (z <==> Signed32(ac, mq) == 0)
      && (sxt <==> Fits16(Signed32(ac, mq)))
    }

    function Value(): Long
      reads this
    {
      Signed32(ac, mq)
    }

    method UpdateRegisters()
      modifies this
      ensures Shown()
      ensures ac == old(ac) && mq == old(mq) && sc == old(sc)
      ensures c == old(c) && n == old(n) && nxv == old(nxv)
    {
      DynamicBits(ac, mq);
      sxt, z, acz, acm1 := false, false, false, false;
      mqz := mq == 0;
      if ac == 0 {
        acz, sxt, z := true, !SignWord(mq), mq == 0;
      }
      if ac == 0xffff {
        acm1, sxt := true, SignWord(mq);
      }
      acRegister, mqRegister, scRegister := ac, mq, sc;
    }

    /** `_sr = 0` as far as it is not recomputed at the end. */
    method ClearStatus()
      modifies this`c, this`n, this`nxv
      ensures !c && !n && !nxv
    {
      c, n, nxv := false, false, false;
    }

    /** A negative result sets N and complements the stored N xor V. */
    method SignAndUpdate(negative: bool)
      requires !n
      modifies this
      ensures Shown()
      ensures ac == old(ac) && mq == old(mq) && sc == old(sc) && c == old(c)
      ensures n == negative && Overflow() == old(nxv)
    {
      if negative {
        n, nxv := !n, !nxv;
      }
      UpdateRegisters();
    }

    method Store32(t: Long)
      modifies this`ac, this`mq
      ensures Value() == t
    {
      ac := Low16(t / 0x1_0000);
      mq := Low16(t);
    }

    /** DIV.  Overflow is reported exactly when no 16-bit quotient exists. */
    method Div(flipflops: Word, access: Access)
      modifies this
      ensures Shown()
      ensures var d := Operand(flipflops, access);
              Overflow() <==> d == 0 || !Fits16(TruncDiv(old(Value()), d))
      ensures var d := Operand(flipflops, access);
              !Overflow() ==>
                && old(Value()) == Signed16(mq) * d + Signed16(ac)
                && Abs(Signed16(ac)) < Abs(d)
                && (ac != 0 ==> (Signed16(ac) < 0 <==> old(Value()) < 0))
      ensures n <==> Signed16(mq) < 0
      ensures var d := Operand(flipflops, access);
              if Abs(old(Value())) / 0x1_0000 < Abs(d) then
                && sc == 0 && !c
                && mq == Low16(TruncDiv(old(Value()), d))
                && Signed16(ac) == TruncRem(old(Value()), d)
              else
                && sc == 15
                && (c <==> (ac >= 0x8000) == (d < 0))
                && StepOfDivision(old(ac), old(mq), d, ac, mq)
    {
      var div := ExtendOperand(flipflops, access);
      ClearStatus();
      var t := Load32(ac, mq);
      var absd := Abs(t);
      var absr := Abs(div);
      if absd / 0x1_0000 >= absr {
        QuotientTooBig(t, div);
        var match_;
        ac, mq, match_ := FailingStep(ac, mq, div);
        if match_ {
          c := true;
        }
        sc := 15;
        nxv := true;
      } else {
        sc := 0;
        var overflow;
        ac, mq, overflow := Quotient(t, div);
        if overflow {
          nxv := true;
        }
      }
      SignAndUpdate(SignWord(mq));
    }

    /** MUL.  AC:MQ is the exact product of two signed words. */
    method Mul(flipflops: Word, access: Access)
      modifies this
      ensures Shown()
      ensures Value() == Signed16(old(mq)) * Operand(flipflops, access)
      ensures sc == 0 && !c && !Overflow()
      ensures n <==> Value() < 0
    {
      ac := 0;
      sc := 0;
      var mul := ExtendOperand(flipflops, access);
      var t := ExtendOperand(mq, DatoWord);
      ProductFits(t, mul);
      t := t * mul;
      Store32(t);
      ClearStatus();
      n, nxv := SignWord(ac), SignWord(ac);
      UpdateRegisters();
    }

    /** NOR.  Shifts left while the two top bits agree; no significant bit is lost. */
    method Nor()
      modifies this
      ensures Shown()
      ensures Value() == old(Value()) * Pow2(sc)
      ensures sc <= 31
      ensures sc == 31 <==> old(Value()) == 0
      ensures old(Value()) != 0 ==> Normalised(ac, mq)
      ensures sc > 0 ==> -0x4000_0000 <= old(Value()) * Pow2(sc - 1) < 0x4000_0000
      ensures !c && !Overflow() && (n <==> Value() < 0)
    {
      ac, mq, sc := ShiftUntilNormalised(ac, mq);
      ClearStatus();
      n, nxv := SignWord(ac), SignWord(ac);
      UpdateRegisters();
    }

    /** LSH.  Logical shift of AC:MQ by a signed six-bit count. */
    method Lsh(flipflops: Word)
      modifies this
      ensures Shown()
      ensures sc == 0 && (n <==> Value() < 0)
      ensures var v, count := old(Value()), flipflops % 64;
              if count == 0 then
                Value() == v && !c && !Overflow()
              else if count < 32 then
                && Value() == Wrap32(v * Pow2(count))
                && (Overflow() <==> !Fits32(v * Pow2(count)))
                && (c <==> Bit(v, 32 - count))
              else
                && Value() >= 0 && Value() == Unsigned32(v) / Pow2(64 - count)
                && !Overflow()
                && (c <==> Bit(v, 63 - count))
    {
      sc := 0;
      ClearStatus();
      var lsh := flipflops % 64;
      if lsh != 0 {
        var t := Load32(ac, mq);
        if lsh < 32 {
          t, nxv, c := LogicalLeft(t, lsh);
        } else {
          c := Bit(t, 63 - lsh);
          t := LogicalRight(t, 64 - lsh);
        }
        Store32(t);
      }
      SignAndUpdate(SignWord(ac));
    }

    /** ASH.  Arithmetic shift of AC:MQ by a signed six-bit count; the sign bit
        stays, and without overflow a left shift is exact. */
    method Ash(flipflops: Word)
      modifies this
      ensures Shown()
      ensures sc == 0 && (n <==> Value() < 0)
      ensures var v, count := old(Value()), flipflops % 64;
              if count == 0 then
                Value() == v && !c && !Overflow()
              else if count < 32 then
                && (Overflow() <==> !Fits32(v * Pow2(count)))
                && (!Overflow() ==> Value() == v * Pow2(count))
                && (Value() < 0 <==> v < 0)
                && Value() % 0x8000_0000 == (v * Pow2(count)) % 0x8000_0000
                && (c <==> Bit(v, 31 - count))
              else
                && Value() == v / Pow2(64 - count)
                && !Overflow()
                && (c <==> Bit(v, 63 - count))
    {
      sc := 0;
      ClearStatus();
      hide Pow2, Bit, Or;
      var ash := flipflops % 64;
      if ash != 0 {
        var t := Load32(ac, mq);
        if ash < 32 {
          t, nxv, c := ArithmeticLeft(t, ash);
        } else {
          c := Bit(t, 63 - ash);
          t := ArithmeticRight(t, 64 - ash);
        }
        Store32(t);
      }
      SignAndUpdate(SignWord(ac));
    }
  }

  /** AC:MQ after one step of a non-restoring division: the pair doubled, the
      divisor subtracted from (signs equal) or added to its upper word, and the
      quotient bit shifted in. */
  ghost predicate StepOfDivision(ac: Word, mq: Word, d: int, ac': Word, mq': Word) {
    var equal := (ac >= 0x8000) == (d < 0);
    Unsigned32(0x1_0000 * ac' + mq')
    == Unsigned32(2 * (0x1_0000 * ac + mq) + if equal then 1 - 0x1_0000 * d else 0x1_0000 * d)
  }

  ghost predicate Normalised(ac: Word, mq: Word) {
    var v := Signed32(ac, mq);
    v >= 0x4000_0000 || v < -0x4000_0000 || (ac == 0xc000 && mq == 0)
  }

  /** The failing branch of DIV. */
  method FailingStep(ac: Word, mq: Word, div: int) returns (ac': Word, mq': Word, equal: bool)
    requires Fits16(div)
    ensures StepOfDivision(ac, mq, div, ac', mq')
    ensures equal <==> (ac' >= 0x8000) == (div < 0)
  {
    SignBits(ac);
    SignOfOperand(div);
    var sign := if SignsDiffer(ac, div) then 0 else 1;
    StepMeaning(ac, mq, div);
    ac', mq' := ShiftPair(ac, mq, sign);
    ac' := Low16(if sign == 1 then ac' - div else ac' + div);
    SignBits(ac');
    equal := !SignsDiffer(ac', div);
  }

  lemma StepMeaning(ac: Word, mq: Word, div: int)
    ensures var equal := (ac >= 0x8000) == (div < 0);
            var ac', mq' := Low16(ac * 2 + mq / 0x8000), Low16(mq * 2 + One(equal));
            StepOfDivision(ac, mq, div, Low16(if equal then ac' - div else ac' + div), mq')
  {
    var equal := (ac >= 0x8000) == (div < 0);
    ShiftedPair(ac, mq, One(equal));
    AddToUpper(Low16(ac * 2 + mq / 0x8000), Low16(mq * 2 + One(equal)),
               if equal then -div else div, 2 * (0x1_0000 * ac + mq) + One(equal));
  }

  lemma AddToUpper(ac: Word, mq: Word, d: int, x: int)
    requires Unsigned32(0x1_0000 * ac + mq) == Unsigned32(x)
    ensures Unsigned32(0x1_0000 * Low16(ac + d) + mq) == Unsigned32(x + 0x1_0000 * d)
  {
    var q := (ac + d) / 0x1_0000;
    var j := SameUnsigned(0x1_0000 * ac + mq, x);
    assert 0x1_0000 * Low16(ac + d) + mq == x + 0x1_0000 * d + 0x1_0000_0000 * (j - q);
    WrapShift(x + 0x1_0000 * d, j - q);
  }

  /** The succeeding branch of DIV. */
  method Quotient(t: Long, div: int) returns (ac: Word, mq: Word, overflow: bool)
    requires Fits16(div) && Abs(t) / 0x1_0000 < Abs(div)
    ensures div != 0 && mq == Low16(TruncDiv(t, div)) && Signed16(ac) == TruncRem(t, div)
    ensures overflow <==> !Fits16(TruncDiv(t, div))
    ensures !overflow ==> t == Signed16(mq) * div + Signed16(ac)
    ensures Abs(Signed16(ac)) < Abs(div)
    ensures ac != 0 ==> (Signed16(ac) < 0 <==> t < 0)
  {
    QuotientBelow(t, div);
    var quo := TruncDiv(t, div);
    var rem := TruncRem(t, div);
    QuotientAndRest(t, div, quo, rem);
    mq := Low16(quo);
    ac := Low16(rem);
    overflow := quo > 32767 || quo < -32768;
    assert Signed16(ac) == rem;
    assert !overflow ==> Signed16(mq) == quo;
  }

  lemma QuotientAndRest(t: int, d: int, quo: int, rem: int)
    requires d != 0 && quo == TruncDiv(t, d) && rem == TruncRem(t, d)
    ensures t == quo * d + rem && Abs(rem) < Abs(d)
    ensures rem != 0 ==> (rem < 0 <==> t < 0)
  {
    TruncDivMeaning(t, d);
  }

  /** The loop of NOR: at most 31 shifts. */
  method ShiftUntilNormalised(ac0: Word, mq0: Word) returns (ac: Word, mq: Word, sc: Byte)
    ensures Signed32(ac, mq) == Signed32(ac0, mq0) * Pow2(sc)
    ensures sc <= 31
    ensures sc == 31 <==> Signed32(ac0, mq0) == 0
    ensures Signed32(ac0, mq0) != 0 ==> Normalised(ac, mq)
    ensures sc > 0 ==> -0x4000_0000 <= Signed32(ac0, mq0) * Pow2(sc - 1) < 0x4000_0000
  {
    hide Pow2, Bit;
    ac, mq, sc := ac0, mq0, 0;
    ghost var v := Signed32(ac0, mq0);
    DoublePower(v, 0);
    while sc < 31
      invariant sc <= 31
      invariant Signed32(ac, mq) == v * Pow2(sc)
      invariant sc > 0 ==> -0x4000_0000 < v * Pow2(sc - 1) < 0x4000_0000
      decreases 31 - sc
    {
      TopBits(ac, mq);
      if (ac == 0xc000 && mq == 0) || SignsDiffer(ac, ac * 2) {
        break;
      }
      ShiftedPair(ac, mq, 0);
      ac, mq := ShiftPair(ac, mq, 0);
      DoublePower(v, sc);
      sc := sc + 1;
    }
    NormalisedCount(v, sc);
  }

  lemma DoublePower(v: int, n: nat)
    ensures v * Pow2(n + 1) == 2 * (v * Pow2(n))
    ensures v * Pow2(0) == v
  {
  }

  /** A non-zero value is normalised after fewer than 31 shifts. */
  lemma NormalisedCount(v: Long, n: nat)
    requires n <= 31
    requires n > 0 ==> -0x4000_0000 < v * Pow2(n - 1) < 0x4000_0000
    ensures n == 31 ==> v == 0
    ensures v == 0 ==> v * Pow2(n) == 0
  {
    Pow2Values();
    if n == 31 {
      assert Pow2(30) == 0x4000_0000;
    }
  }
}
