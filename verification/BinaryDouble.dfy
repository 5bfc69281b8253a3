// `ldexp` and `frexp` on the bit pattern of a double (binary64, section 3.4 of IEEE 754-2008).
module BinaryDouble {
  import opened Bits

  const WORD := 64
  const FRACTION := 52
  const EXPONENT := 11
  const EXPONENT_MAX := 0x7ff
  const BIAS := 1023
  const HALF_EXPONENT := 1022

  predicate Pattern(u: nat) {
    u < Pow2(WORD)
  }

  // ----- the fields of a pattern -----

  function SignOf(u: nat): nat {
    Shr(u, FRACTION + EXPONENT)
  }

  function ExponentOf(u: nat): nat {
    And(Shr(u, FRACTION), EXPONENT_MAX)
  }

  function FractionOf(u: nat): nat {
    And(u, Ones(FRACTION))
  }

  predicate Normal(u: nat) {
    ExponentOf(u) != 0 && ExponentOf(u) != EXPONENT_MAX
  }

  predicate Special(u: nat) {
    !Normal(u)
  }

  lemma EleventhPower()
    ensures Pow2(EXPONENT) == EXPONENT_MAX + 1 && Ones(EXPONENT) == EXPONENT_MAX
  {
  }

  lemma SignBits(u: nat, i: nat)
    ensures Bit(SignOf(u), i) == Bit(u, i + 63)
  {
    BitShr(u, 63, i);
  }

  lemma ExponentBits(u: nat, i: nat)
    ensures Bit(ExponentOf(u), i) == (i < EXPONENT && Bit(u, i + FRACTION))
  {
    EleventhPower();
    BitAnd(Shr(u, FRACTION), EXPONENT_MAX, i);
    BitShr(u, FRACTION, i);
    BitOnes(EXPONENT, i);
  }

  lemma FractionBits(u: nat, i: nat)
    ensures Bit(FractionOf(u), i) == (i < FRACTION && Bit(u, i))
  {
    BitAnd(u, Ones(FRACTION), i);
    BitOnes(FRACTION, i);
  }

  lemma FieldBounds(u: nat)
    requires Pattern(u)
    ensures SignOf(u) < 2 && ExponentOf(u) <= EXPONENT_MAX && FractionOf(u) < Pow2(FRACTION)
  {
    EleventhPower();
    hide Shl;
    forall i: nat
      ensures i >= 1 ==> !Bit(SignOf(u), i)
      ensures i >= EXPONENT ==> !Bit(ExponentOf(u), i)
      ensures i >= FRACTION ==> !Bit(FractionOf(u), i)
    {
      SignBits(u, i);
      if i >= 1 {
        HighBits(u, WORD, i + 63);
      }
      ExponentBits(u, i);
      FractionBits(u, i);
    }
    LowBits(SignOf(u), 1);
    LowBits(ExponentOf(u), EXPONENT);
    LowBits(FractionOf(u), FRACTION);
    TwoToOne();
  }

  lemma TwoToOne()
    ensures Pow2(1) == 2
  {
  }

  /** The three fields make up the whole pattern. */
  lemma SameFields(u: nat, v: nat)
    requires SignOf(u) == SignOf(v) && ExponentOf(u) == ExponentOf(v) && FractionOf(u) == FractionOf(v)
    ensures u == v
  {
    hide SignOf, ExponentOf, FractionOf;
    forall i: nat
      ensures Bit(u, i) == Bit(v, i)
    {
      if i < FRACTION {
        FractionBits(u, i);
        FractionBits(v, i);
      } else if i < FRACTION + EXPONENT {
        ExponentBits(u, i - FRACTION);
        ExponentBits(v, i - FRACTION);
      } else {
        SignBits(u, i - 63);
        SignBits(v, i - 63);
      }
    }
    SameBits(u, v);
  }

  // ----- the operations -----

  /** The operator `~` on a 64-bit word. */
  function Not(u: nat): nat
    requires Pattern(u)
  {
    Xor(u, Ones(WORD))
  }

  const SIGN_MASK: nat := Shl(1, 63)
  const EXPONENT_MASK: nat := Shl(EXPONENT_MAX, FRACTION)

  lemma MaskIsPattern()
    ensures Pattern(EXPONENT_MASK)
  {
    hide Shl;
    forall i: nat | WORD <= i
      ensures !Bit(EXPONENT_MASK, i)
    {
      ExponentMaskBits(i);
    }
    LowBits(EXPONENT_MASK, WORD);
  }

  lemma ExponentMaskBits(i: nat)
    ensures Bit(EXPONENT_MASK, i) == (FRACTION <= i < FRACTION + EXPONENT)
  {
    EleventhPower();
    hide Shl;
    BitShl(EXPONENT_MAX, FRACTION, i);
    if i >= FRACTION {
      BitOnes(EXPONENT, i - FRACTION);
    }
  }

  lemma SignMaskBits(i: nat)
    ensures Bit(SIGN_MASK, i) == (i == 63)
  {
    hide Shl;
    BitShl(1, 63, i);
    if i >= 63 {
      OneBits(i - 63);
    }
  }

  lemma OneBits(i: nat)
    ensures Bit(1, i) == (i == 0)
  {
    if i > 0 {
      BitZero(i - 1);
    }
  }

  /** The pattern with another exponent field. */
  function WithExponent(u: nat, e: nat): nat {
    MaskIsPattern();
    Or(And(u, Not(EXPONENT_MASK)), Shl(e, FRACTION))
  }

  function Infinity(u: nat): nat {
    Or(And(u, SIGN_MASK), Shl(EXPONENT_MAX, FRACTION))
  }

  function Zero(u: nat): nat {
    And(u, SIGN_MASK)
  }

  /** The exponent plus `n` is computed in a 32-bit int. */
  predicate NoOverflow(n: int) {
    -0x8000_0000 <= n && n + (EXPONENT_MAX - 1) <= 0x7fff_ffff
  }

  function LdExp(u: nat, n: int): nat
    requires Pattern(u) && NoOverflow(n)
  {
    var e := ExponentOf(u);
    if e == 0 || e == EXPONENT_MAX then u
    else if e + n >= EXPONENT_MAX then Infinity(u)
    else if e + n <= 0 then Zero(u)
    else WithExponent(u, e + n)
  }

  /** The fraction pattern, and the exponent stored through the pointer. */
  function FrExp(u: nat): (nat, int)
    requires Pattern(u)
  {
    var e := ExponentOf(u);
    if e == 0 || e == EXPONENT_MAX then (u, 0) else (WithExponent(u, HALF_EXPONENT), e - HALF_EXPONENT)
  }

  lemma WithExponentBits(u: nat, e: nat, i: nat)
    requires Pattern(u) && e <= EXPONENT_MAX
    ensures Bit(WithExponent(u, e), i) ==
            if FRACTION <= i < FRACTION + EXPONENT then Bit(e, i - FRACTION) else Bit(u, i)
  {
    MaskIsPattern();
    EleventhPower();
    hide Shl;
    BitOr(And(u, Not(EXPONENT_MASK)), Shl(e, FRACTION), i);
    BitAnd(u, Not(EXPONENT_MASK), i);
    BitXor(EXPONENT_MASK, Ones(WORD), i);
    BitOnes(WORD, i);
    ExponentMaskBits(i);
    BitShl(e, FRACTION, i);
    if i >= FRACTION + EXPONENT {
      HighBits(e, EXPONENT, i - FRACTION);
    }
    if i >= WORD {
      HighBits(u, WORD, i);
    }
  }

  /** Replacing the exponent field keeps the sign and the fraction. */
  lemma WithExponentFields(u: nat, e: nat)
    requires Pattern(u) && e <= EXPONENT_MAX
    ensures var w := WithExponent(u, e);
            Pattern(w) && SignOf(w) == SignOf(u) && ExponentOf(w) == e && FractionOf(w) == FractionOf(u)
  {
    EleventhPower();
    hide WithExponent, SignOf, ExponentOf, FractionOf, Shl;
    var w := WithExponent(u, e);
    forall i: nat
      ensures Bit(SignOf(w), i) == Bit(SignOf(u), i)
      ensures Bit(ExponentOf(w), i) == Bit(e, i)
      ensures Bit(FractionOf(w), i) == Bit(FractionOf(u), i)
      ensures i >= WORD ==> !Bit(w, i)
    {
      SignBits(w, i);
      SignBits(u, i);
      WithExponentBits(u, e, i + 63);
      ExponentBits(w, i);
      WithExponentBits(u, e, i + FRACTION);
      if i >= EXPONENT {
        HighBits(e, EXPONENT, i);
      }
      FractionBits(w, i);
      FractionBits(u, i);
      WithExponentBits(u, e, i);
      if i >= WORD {
        HighBits(u, WORD, i);
      }
    }
    SameBits(SignOf(w), SignOf(u));
    SameBits(ExponentOf(w), e);
    SameBits(FractionOf(w), FractionOf(u));
    LowBits(w, WORD);
  }

  lemma ZeroBits(u: nat, i: nat)
    ensures Bit(Zero(u), i) == (i == 63 && Bit(u, i))
    ensures Bit(Infinity(u), i) == ((i == 63 && Bit(u, i)) || FRACTION <= i < FRACTION + EXPONENT)
  {
    hide Shl;
    BitAnd(u, SIGN_MASK, i);
    SignMaskBits(i);
    BitOr(And(u, SIGN_MASK), EXPONENT_MASK, i);
    ExponentMaskBits(i);
  }

  /** Overflow gives the infinity and underflow the zero of the same sign. */
  lemma SaturatedFields(u: nat)
    requires Pattern(u)
    ensures Pattern(Infinity(u)) && SignOf(Infinity(u)) == SignOf(u)
    ensures ExponentOf(Infinity(u)) == EXPONENT_MAX && FractionOf(Infinity(u)) == 0
    ensures Pattern(Zero(u)) && SignOf(Zero(u)) == SignOf(u)
    ensures ExponentOf(Zero(u)) == 0 && FractionOf(Zero(u)) == 0
  {
    EleventhPower();
    hide Zero, Infinity, SignOf, ExponentOf, FractionOf, Shl;
    var z, w := Zero(u), Infinity(u);
    forall i: nat
      ensures Bit(SignOf(z), i) == Bit(SignOf(u), i) && Bit(SignOf(w), i) == Bit(SignOf(u), i)
      ensures Bit(ExponentOf(z), i) == Bit(0, i) && Bit(ExponentOf(w), i) == Bit(EXPONENT_MAX, i)
      ensures Bit(FractionOf(z), i) == Bit(0, i) && Bit(FractionOf(w), i) == Bit(0, i)
      ensures i >= WORD ==> !Bit(z, i) && !Bit(w, i)
    {
      BitZero(i);
      BitOnes(EXPONENT, i);
      SignBits(z, i);
      SignBits(w, i);
      SignBits(u, i);
      ZeroBits(u, i + 63);
      if i > 0 {
        HighBits(u, WORD, i + 63);
      }
      ExponentBits(z, i);
      ExponentBits(w, i);
      ZeroBits(u, i + FRACTION);
      FractionBits(z, i);
      FractionBits(w, i);
      ZeroBits(u, i);
    }
    SameBits(SignOf(z), SignOf(u));
    SameBits(SignOf(w), SignOf(u));
    SameBits(ExponentOf(z), 0);
    SameBits(ExponentOf(w), EXPONENT_MAX);
    SameBits(FractionOf(z), 0);
    SameBits(FractionOf(w), 0);
    LowBits(z, WORD);
    LowBits(w, WORD);
  }

  /** What `ldexp` does to each field of a normal number. */
  lemma LdExpFields(u: nat, n: int)
    requires Pattern(u) && NoOverflow(n)
    ensures var r := LdExp(u, n);
            && Pattern(r)
            && (Special(u) ==> r == u)
            && (Normal(u) ==>
                  var e := ExponentOf(u) + n;
                  && SignOf(r) == SignOf(u)
                  && ExponentOf(r) == (if e >= EXPONENT_MAX then EXPONENT_MAX else if e <= 0 then 0 else e)
                  && FractionOf(r) == (if 0 < e < EXPONENT_MAX then FractionOf(u) else 0))
  {
    hide WithExponent, Infinity, Zero, SignOf, ExponentOf, FractionOf, Shl;
    FieldBounds(u);
    if Normal(u) {
      SaturatedFields(u);
      var e := ExponentOf(u) + n;
      if 0 < e < EXPONENT_MAX {
        WithExponentFields(u, e);
      }
    }
  }

  /** Taking a number apart and putting it together again gives the identical pattern, whatever it encodes. */
  lemma LdExpFrExp(u: nat)
    requires Pattern(u)
    ensures var (m, e) := FrExp(u);
            Pattern(m) && NoOverflow(e) && LdExp(m, e) == u && (Special(u) ==> m == u && e == 0)
  {
    hide WithExponent, Infinity, Zero, SignOf, ExponentOf, FractionOf, Shl;
    FieldBounds(u);
    if Normal(u) {
      var (m, e) := FrExp(u);
      WithExponentFields(u, HALF_EXPONENT);
      LdExpFields(m, e);
      SameFields(LdExp(m, e), u);
    }
  }

  /**
   * Two steps are one step with the sum exactly when the first step does not leave the normal range,
   * or the sum leaves it on the same side.
   */
  lemma LdExpTwice(u: nat, a: int, b: int)
    requires Pattern(u) && NoOverflow(a) && NoOverflow(b) && NoOverflow(a + b)
    ensures Pattern(LdExp(u, a))
    ensures var e := ExponentOf(u) + a;
            LdExp(LdExp(u, a), b) == LdExp(u, a + b) <==>
              || Special(u) || 0 < e < EXPONENT_MAX
              || (e >= EXPONENT_MAX && e + b >= EXPONENT_MAX) || (e <= 0 && e + b <= 0)
  {
    hide LdExp, SignOf, ExponentOf, FractionOf, Shl;
    LdExpFields(u, a);
    LdExpFields(u, a + b);
    var m := LdExp(u, a);
    LdExpFields(m, b);
    if Normal(u) {
      var r, s := LdExp(m, b), LdExp(u, a + b);
      if SignOf(r) == SignOf(s) && ExponentOf(r) == ExponentOf(s) && FractionOf(r) == FractionOf(s) {
        SameFields(r, s);
      }
    }
  }

  // ----- the number a pattern encodes -----

  function PowReal(n: int): (r: real)
    ensures r > 0.0
    decreases if n < 0 then -n else n
  {
    if n == 0 then 1.0 else if n > 0 then 2.0 * PowReal(n - 1) else PowReal(n + 1) / 2.0
  }

  lemma PowRealNext(a: int)
    ensures PowReal(a + 1) == 2.0 * PowReal(a)
  {
  }

  lemma PowRealZero()
    ensures PowReal(0) == 1.0 && PowReal(-1) == 0.5
  {
  }

  lemma Doubled(x: real, y: real)
    ensures 2.0 * (x * y) == x * (2.0 * y)
  {
  }

  lemma {:induction false} PowRealAdd(a: int, b: int)
    ensures PowReal(a + b) == PowReal(a) * PowReal(b)
    decreases if b < 0 then -b else b
  {
    hide PowReal;
    PowRealZero();
    if b > 0 {
      PowRealAdd(a, b - 1);
      PowRealNext(a + (b - 1));
      PowRealNext(b - 1);
      Doubled(PowReal(a), PowReal(b - 1));
    } else if b < 0 {
      PowRealAdd(a, b + 1);
      PowRealNext(a + b);
      PowRealNext(b);
      Doubled(PowReal(a), PowReal(b));
    }
  }

  lemma ProperRatio(f: nat, p: nat)
    requires f < p
    ensures 0.0 <= f as real / p as real < 1.0
  {
  }

  /** The significand: one and the fraction, from 1 up to but not including 2. */
  function Significand(u: nat): (r: real)
    requires Pattern(u)
    ensures 1.0 <= r < 2.0
  {
    hide Shl, FractionOf;
    FieldBounds(u);
    ProperRatio(FractionOf(u), Pow2(FRACTION));
    1.0 + FractionOf(u) as real / Pow2(FRACTION) as real
  }

  /** The value of a normal number. */
  function ValueOf(u: nat): real
    requires Pattern(u) && Normal(u)
  {
    (if SignOf(u) == 0 then 1.0 else -1.0) * (Significand(u) * PowReal(ExponentOf(u) - BIAS))
  }

  /** The fields of a pattern and the value of a normal number, as the standard lays them out. */
  lemma Binary64(u: nat)
    requires Pattern(u)
    ensures u < Pow2(64) && Pow2(11) == 2048
    ensures SignOf(u) == u / Pow2(63) && ExponentOf(u) == u / Pow2(52) % 2048 && FractionOf(u) == u % Pow2(52)
    ensures Normal(u) <==> 0 < u / Pow2(52) % 2048 < 2047
    ensures Normal(u) ==>
              ValueOf(u) == (if u / Pow2(63) == 0 then 1.0 else -1.0) *
                            ((1.0 + (u % Pow2(52)) as real / Pow2(52) as real) * PowReal(u / Pow2(52) % 2048 - 1023))
  {
    EleventhPower();
    hide Shl, And, Shr, PowReal;
    ShrQuotient(u, 63);
    ShrQuotient(u, 52);
    AndRemainder(Shr(u, 52), 11);
    AndRemainder(u, 52);
    if Normal(u) {
      assert Significand(u) == 1.0 + FractionOf(u) as real / Pow2(52) as real;
    }
  }

  /** When the result is normal, `ldexp` multiplies by the power of two. */
  lemma LdExpScales(u: nat, n: int)
    requires Pattern(u) && Normal(u) && NoOverflow(n)
    ensures Pattern(LdExp(u, n)) && (Normal(LdExp(u, n)) <==> 0 < ExponentOf(u) + n < EXPONENT_MAX)
    ensures Normal(LdExp(u, n)) ==> ValueOf(LdExp(u, n)) == ValueOf(u) * PowReal(n)
  {
    hide LdExp, SignOf, ExponentOf, FractionOf, Shl, PowReal;
    LdExpFields(u, n);
    if 0 < ExponentOf(u) + n < EXPONENT_MAX {
      PowRealAdd(ExponentOf(u) - BIAS, n);
      var p, q, s := PowReal(ExponentOf(u) - BIAS), PowReal(n), Significand(u);
      assert s * (p * q) == (s * p) * q;
      assert ExponentOf(LdExp(u, n)) - BIAS == ExponentOf(u) - BIAS + n;
      assert Significand(LdExp(u, n)) == s;
    }
  }

  /** `frexp` splits a normal number into a fraction of magnitude at least 1/2 and below 1, and a power of two. */
  lemma FrExpSplits(u: nat)
    requires Pattern(u) && Normal(u)
    ensures var (m, e) := FrExp(u);
            && Pattern(m) && Normal(m)
            && (0.5 <= ValueOf(m) < 1.0 || -1.0 < ValueOf(m) <= -0.5)
            && ValueOf(u) == ValueOf(m) * PowReal(e)
  {
    hide WithExponent, LdExp, SignOf, ExponentOf, FractionOf, Significand, Shl, PowReal;
    FieldBounds(u);
    WithExponentFields(u, HALF_EXPONENT);
    LdExpFrExp(u);
    var (m, e) := FrExp(u);
    LdExpScales(m, e);
    PowRealZero();
  }
}
