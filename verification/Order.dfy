/**
 The order of x modulo the generator: x to the n is 1 exactly when 32767 divides n. The generator is x + 1 times
 x^15 + x + 1; every power of x is 1 modulo x + 1, so the work is done modulo the trinomial, on fifteen bits.
 */
module Order {
  import opened Gf2

  datatype Reg = Reg(a0: bool, a1: bool, a2: bool, a3: bool, a4: bool, a5: bool, a6: bool, a7: bool,
                     a8: bool, a9: bool, a10: bool, a11: bool, a12: bool, a13: bool, a14: bool)

  /** Multiplication by x modulo x^15 + x + 1. */
  function Turn(r: Reg): Reg {
    Reg(r.a14, r.a0 != r.a14, r.a1, r.a2, r.a3, r.a4, r.a5, r.a6, r.a7, r.a8, r.a9, r.a10, r.a11, r.a12, r.a13)
  }

  function TurnN(n: nat, r: Reg): Reg {
    if n == 0 then r else TurnN(n - 1, Turn(r))
  }

  /** The square modulo x^15 + x + 1. */
  function Square(r: Reg): Reg {
    Reg(r.a0, r.a8, r.a1 != r.a8, r.a9, r.a2 != r.a9, r.a10, r.a3 != r.a10, r.a11,
        r.a4 != r.a11, r.a12, r.a5 != r.a12, r.a13, r.a6 != r.a13, r.a14, r.a7 != r.a14)
  }

  /** A polynomial of degree at most 15, reduced. */
  function Reduced(p: Poly): Reg {
    Reg((0 in p) != (15 in p), (1 in p) != (15 in p), 2 in p, 3 in p, 4 in p, 5 in p, 6 in p, 7 in p, 8 in p,
        9 in p, 10 in p, 11 in p, 12 in p, 13 in p, 14 in p)
  }

  const ONE: Reg := Reduced({0})

  function Power(n: nat): Reg {
    TurnN(n, ONE)
  }

  // ---------- From sixteen bits to fifteen ----------

  lemma StepBit(p: Poly, e: nat)
    requires Below16(p) && e < 16
    ensures e in Step(p) <==> ((e > 0 && e - 1 in p) != (15 in p && (e == 0 || e == 2 || e == 15)))
  {
  }

  lemma ReducedStep(p: Poly)
    requires Below16(p)
    ensures Reduced(Step(p)) == Turn(Reduced(p))
  {
    hide Step, Below16;
    StepBit(p, 0); StepBit(p, 1); StepBit(p, 2); StepBit(p, 3); StepBit(p, 4); StepBit(p, 5); StepBit(p, 6); StepBit(p, 7);
    StepBit(p, 8); StepBit(p, 9); StepBit(p, 10); StepBit(p, 11); StepBit(p, 12); StepBit(p, 13); StepBit(p, 14); StepBit(p, 15);
  }

  lemma {:induction false} ReducedStepN(n: nat, p: Poly)
    requires Below16(p)
    ensures Reduced(StepN(n, p)) == TurnN(n, Reduced(p))
  {
    hide Step, Turn, Reduced;
    if n > 0 {
      ReducedStep(p);
      ReducedStepN(n - 1, Step(p));
    }
  }

  lemma TwoOnes(p: Poly)
    requires Below16(p) && Reduced(p) == ONE
    ensures p == {0} || p == {1, 15}
  {
    assert 0 in p <==> 15 !in p;
    assert 1 in p <==> 15 in p;
    forall e: nat | 2 <= e < 15
      ensures e !in p
    {
    }
  }

  /** Of the two polynomials that reduce to 1 only 1 itself has an odd number of terms. */
  lemma OddOne(p: Poly)
    requires Below16(p) && Odd(|p|) && Reduced(p) == ONE
    ensures p == {0}
  {
    hide Reduced;
    TwoOnes(p);
    assert |{1, 15}| == 2;
  }

  lemma StepsToOne(n: nat)
    ensures StepN(n, {0}) == {0} <==> Power(n) == ONE
  {
    hide StepN, Reduced, TurnN;
    ReducedStepN(n, {0});
    StepNParity(n, {0});
    if Power(n) == ONE {
      OddOne(StepN(n, {0}));
    }
  }

  // ---------- Powers by squaring ----------

  lemma SquareTurns(r: Reg)
    ensures Square(Turn(r)) == Turn(Turn(Square(r)))
  {
  }

  lemma {:induction false} TurnLast(n: nat, r: Reg)
    ensures TurnN(n + 1, r) == Turn(TurnN(n, r))
  {
    hide Turn;
    if n > 0 {
      TurnLast(n - 1, Turn(r));
    }
  }

  lemma {:induction false} SquareDoubles(n: nat)
    ensures Power(2 * n) == Square(Power(n))
  {
    hide Turn, Square, Reduced, TurnN;
    if n == 0 {
      PowerZero();
    } else {
      SquareDoubles(n - 1);
      TurnLast(n - 1, ONE);
      TurnLast(2 * n - 2, ONE);
      TurnLast(2 * n - 1, ONE);
      SquareTurns(Power(n - 1));
    }
  }

  lemma PowerZero()
    ensures Power(0) == ONE && Square(ONE) == ONE
  {
  }

  lemma Doubled(n: nat)
    ensures Power(2 * n) == Square(Power(n)) && Power(2 * n + 1) == Turn(Square(Power(n)))
  {
    hide Square, Turn, Reduced, TurnN;
    SquareDoubles(n);
    TurnLast(2 * n, ONE);
  }

  lemma {:induction false} SmallPower(n: nat)
    requires n < 15
    ensures Power(n) == Reduced({n})
  {
    hide TurnN;
    if n == 0 {
      PowerZero();
    } else {
      SmallPower(n - 1);
      TurnLast(n - 1, ONE);
    }
  }

  lemma Power217()
    ensures Power(217) != ONE
  {
    hide TurnN, Power;
    SmallPower(13);
    Doubled(13);
    Doubled(27);
    Doubled(54);
    Doubled(108);
  }

  lemma Power1057()
    ensures Power(1057) != ONE
  {
    hide TurnN, Power;
    SmallPower(8);
    Doubled(8);
    Doubled(16);
    Doubled(33);
    Doubled(66);
    Doubled(132);
    Doubled(264);
    Doubled(528);
  }

  lemma Power4681()
    ensures Power(4681) != ONE
  {
    hide TurnN, Power;
    SmallPower(9);
    Doubled(9);
    Doubled(18);
    Doubled(36);
    Doubled(73);
    Doubled(146);
    Doubled(292);
    Doubled(585);
    Doubled(1170);
    Doubled(2340);
  }

  const ZERO: Reg := Reduced({})

  lemma Squares8()
    requires Power(8) == ZERO.(a8 := true)
    ensures Power(64) == ZERO.(a4 := true, a8 := true)
  {
    hide Power, TurnN;
    SquareDoubles(8);
    SquareDoubles(16);
    SquareDoubles(32);
  }

  lemma Squares64()
    requires Power(64) == ZERO.(a4 := true, a8 := true)
    ensures Power(512) == ZERO.(a2 := true, a8 := true)
  {
    hide Power, TurnN;
    SquareDoubles(64);
    SquareDoubles(128);
    SquareDoubles(256);
  }

  lemma Squares512()
    requires Power(512) == ZERO.(a2 := true, a8 := true)
    ensures Power(4096) == ZERO.(a1 := true, a2 := true, a4 := true, a8 := true)
  {
    hide Power, TurnN;
    SquareDoubles(512);
    SquareDoubles(1024);
    SquareDoubles(2048);
  }

  lemma Squares4096()
    requires Power(4096) == ZERO.(a1 := true, a2 := true, a4 := true, a8 := true)
    ensures Power(32768) == ZERO.(a1 := true)
  {
    hide Power, TurnN;
    SquareDoubles(4096);
    SquareDoubles(8192);
    SquareDoubles(16384);
  }

  lemma Power32768()
    ensures Power(32768) == ZERO.(a1 := true)
  {
    hide Power;
    SmallPower(8);
    Squares8();
    Squares64();
    Squares512();
    Squares4096();
  }

  lemma TurnInjective(r: Reg, s: Reg)
    requires Turn(r) == Turn(s)
    ensures r == s
  {
  }

  lemma OneTurned()
    ensures Turn(ONE) == ZERO.(a1 := true)
  {
  }

  lemma Power32767()
    ensures Power(32767) == ONE
  {
    hide TurnN, Turn, Reduced;
    Power32768();
    TurnLast(32767, ONE);
    PowerZero();
    OneTurned();
    TurnInjective(Power(32767), ONE);
  }

  // ---------- Which powers are 1 ----------

  lemma {:induction false} TurnNInjective(n: nat, r: Reg, s: Reg)
    requires TurnN(n, r) == TurnN(n, s)
    ensures r == s
  {
    hide Turn;
    if n > 0 {
      TurnNInjective(n - 1, Turn(r), Turn(s));
      TurnInjective(r, s);
    }
  }

  lemma {:induction false} TurnNAdds(m: nat, n: nat, r: Reg)
    ensures TurnN(m + n, r) == TurnN(n, TurnN(m, r))
    decreases m
  {
    hide Turn;
    if m > 0 {
      TurnNAdds(m - 1, n, Turn(r));
    }
  }

  lemma PeriodShift(m: nat, n: nat)
    requires Power(m) == ONE
    ensures Power(m + n) == ONE <==> Power(n) == ONE
  {
    TurnNAdds(m, n, ONE);
  }

  lemma {:induction false} PeriodMultiple(m: nat, k: nat)
    requires Power(m) == ONE
    ensures Power(m * k) == ONE
    decreases k
  {
    hide TurnN;
    if k == 0 {
      PowerZero();
    } else {
      PeriodMultiple(m, k - 1);
      PeriodShift(m, m * (k - 1));
      assert m * k == m + m * (k - 1);
    }
  }

  lemma PeriodRemainder(a: nat, b: nat)
    requires b > 0 && Power(a) == ONE && Power(b) == ONE
    ensures Power(a % b) == ONE
  {
    hide TurnN, Power;
    PeriodMultiple(b, a / b);
    PeriodShift(b * (a / b), a % b);
    assert b * (a / b) + a % b == a;
  }

  lemma Combination(g: nat, j: nat, q: nat, i: nat)
    ensures g * j * q + g * i == g * (j * q + i)
  {
  }

  /** Euclid's algorithm: of two exponents whose powers are 1, some common divisor is another. */
  lemma {:induction false} CommonPeriod(a: nat, b: nat) returns (g: nat, i: nat, j: nat)
    requires b > 0 && Power(a) == ONE && Power(b) == ONE
    ensures a == g * i && b == g * j && Power(g) == ONE
    decreases b
  {
    hide TurnN, Power;
    var q, r := a / b, a % b;
    assert a == b * q + r;
    if r == 0 {
      g, i, j := b, q, 1;
    } else {
      PeriodRemainder(a, b);
      var k;
      g, j, k := CommonPeriod(b, r);
      Combination(g, j, q, k);
      i := j * q + k;
    }
  }

  // ---------- The divisors of 32767 = 7 * 31 * 151 ----------

  lemma SmallDivisor(g: nat, k: nat)
    requires 2 <= g <= 181 && g * k == 32767
    ensures g == 7 || g == 31 || g == 151
  {
  }

  lemma BothLarge(g: nat, k: nat)
    requires g > 181 && k > 181
    ensures g * k > 32767
  {
  }

  /** A proper divisor of 32767 divides the product of two of its three prime factors. */
  lemma ProperDivisors(g: nat, k: nat)
    requires g < 32767 && g * k == 32767
    ensures g in {1, 7, 31, 151, 217, 1057, 4681}
  {
    if 2 <= g <= 181 {
      SmallDivisor(g, k);
    } else if g > 181 {
      if k > 181 {
        BothLarge(g, k);
      } else {
        SmallDivisor(k, g);
      }
    }
  }

  lemma NoProperPeriod(g: nat)
    requires g in {1, 7, 31, 151, 217, 1057, 4681}
    ensures Power(g) != ONE
  {
    hide Power;
    Power217();
    Power1057();
    Power4681();
    if Power(g) == ONE {
      if g == 1 || g == 7 || g == 31 {
        PeriodMultiple(g, 217 / g);
      } else if g == 151 {
        PeriodMultiple(g, 7);
      }
    }
  }

  /** x to the n is 1 modulo the generator exactly when 32767 divides n. */
  lemma OrderExactly(n: nat)
    ensures StepN(n, {0}) == {0} <==> n % 32767 == 0
  {
    hide Power, StepN;
    StepsToOne(n);
    Power32767();
    if Power(n) == ONE {
      var g, i, j := CommonPeriod(n, 32767);
      AtMost(g, j);
      if g < 32767 {
        ProperDivisors(g, j);
        NoProperPeriod(g);
      }
    }
    if n % 32767 == 0 {
      PeriodMultiple(32767, n / 32767);
    }
  }

  lemma AtMost(g: nat, j: nat)
    requires g * j == 32767
    ensures g <= 32767
  {
  }
}
