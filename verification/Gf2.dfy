/**
 Polynomials over the two-element field, as the finite set of exponents whose coefficient is one.
 Addition is symmetric difference; the register of a CRC-16 is a polynomial of degree below 16.
 */
module Gf2 {

  type Poly = set<nat>

  function Add(p: Poly, q: Poly): (r: Poly)
    ensures forall e: nat :: e in r <==> ((e in p) != (e in q))
  {
    (p - q) + (q - p)
  }

  /** Multiplication by x to the n. */
  function Up(p: Poly, n: nat): (r: Poly)
    ensures forall e: nat :: e in r <==> (e >= n && e - n in p)
  {
    set e | e in p :: e + n
  }

  /** The constant polynomial 0 or 1, times x to the n. */
  function Term(b: bool, n: nat): Poly {
    if b then {n} else {}
  }

  /** x^16 + x^15 + x^2 + 1 */
  const GENERATOR: Poly := {16, 15, 2, 0}

  ghost predicate Below16(p: Poly) {
    forall e :: e in p ==> e < 16
  }

  /** The polynomial whose coefficients are `bits`, the first bit being the highest power. */
  function Message(bits: seq<bool>): Poly {
    if bits == [] then {}
    else Add(Up(Message(bits[..|bits| - 1]), 1), Term(bits[|bits| - 1], 0))
  }

  /** The product of the generator with the polynomial of coefficients `q`, highest power first. */
  function Multiple(q: seq<bool>): Poly {
    if q == [] then {}
    else Add(Up(Multiple(q[..|q| - 1]), 1), if q[|q| - 1] then GENERATOR else {})
  }

  // ---------- The shift register ----------

  /** Multiplication by x in the ring modulo the generator. */
  function Step(p: Poly): (r: Poly)
    requires Below16(p)
    ensures Below16(r)
  {
    if 15 in p then Add(Up(p, 1), GENERATOR) else Up(p, 1)
  }

  function StepN(n: nat, p: Poly): (r: Poly)
    requires Below16(p)
    ensures Below16(r)
  {
    if n == 0 then p else StepN(n - 1, Step(p))
  }

  /** Bits enter one at a time at power 15 and are shifted in. */
  function Feed(p: Poly, bits: seq<bool>): (r: Poly)
    requires Below16(p)
    ensures Below16(r)
    decreases |bits|
  {
    if bits == [] then p else Feed(Step(Add(p, Term(bits[0], 15))), bits[1..])
  }

  lemma {:induction false} FeedSplit(p: Poly, a: seq<bool>, b: seq<bool>)
    requires Below16(p)
    ensures Feed(p, a + b) == Feed(Feed(p, a), b)
    decreases |a|
  {
    if a == [] {
      assert a + b == b;
    } else {
      assert (a + b)[1..] == a[1..] + b;
      FeedSplit(Step(Add(p, Term(a[0], 15))), a[1..], b);
    }
  }

  lemma StepLinear(p: Poly, q: Poly)
    requires Below16(p) && Below16(q)
    ensures Below16(Add(p, q)) && Step(Add(p, q)) == Add(Step(p), Step(q))
  {
  }

  lemma StepInjective(p: Poly, q: Poly)
    requires Below16(p) && Below16(q) && Step(p) == Step(q)
    ensures p == q
  {
    assert 0 in Step(p) <==> 15 in p;
    assert 0 in Step(q) <==> 15 in q;
    forall e: nat
      ensures e in p <==> e in q
    {
      assert e + 1 in Step(p) <==> ((e in p) != (15 in p && e + 1 in GENERATOR));
      assert e + 1 in Step(q) <==> ((e in q) != (15 in q && e + 1 in GENERATOR));
    }
  }

  lemma {:induction false} StepNInjective(n: nat, p: Poly, q: Poly)
    requires Below16(p) && Below16(q) && StepN(n, p) == StepN(n, q)
    ensures p == q
  {
    if n > 0 {
      StepNInjective(n - 1, Step(p), Step(q));
      StepInjective(p, q);
    }
  }

  lemma {:induction false} StepNLinear(n: nat, p: Poly, q: Poly)
    requires Below16(p) && Below16(q)
    ensures Below16(Add(p, q)) && StepN(n, Add(p, q)) == Add(StepN(n, p), StepN(n, q))
  {
    assert Below16(Add(p, q));
    if n > 0 {
      var p', q' := Step(p), Step(q);
      assert Step(Add(p, q)) == Add(p', q') by { StepLinear(p, q); }
      StepNLinear(n - 1, p', q');
    }
  }

  lemma {:induction false} StepNPlain(n: nat, p: Poly)
    requires forall e :: e in p ==> e + n < 16
    ensures Below16(p) && StepN(n, p) == Up(p, n)
  {
    if n > 0 {
      assert 15 !in p;
      StepNPlain(n - 1, Up(p, 1));
    }
  }

  /** Two different registers stay different under the same further input. */
  lemma {:induction false} FeedInjective(p: Poly, q: Poly, bits: seq<bool>)
    requires Below16(p) && Below16(q) && Feed(p, bits) == Feed(q, bits)
    ensures p == q
    decreases |bits|
  {
    if bits != [] {
      var t := Term(bits[0], 15);
      FeedInjective(Step(Add(p, t)), Step(Add(q, t)), bits[1..]);
      StepInjective(Add(p, t), Add(q, t));
      assert forall e: nat :: e in p <==> ((e in Add(p, t)) != (e in t));
      assert forall e: nat :: e in q <==> ((e in Add(q, t)) != (e in t));
    }
  }

  /** Up to sixteen bits side by side in the register, the first at power 15. */
  function Pack(bits: seq<bool>): (r: Poly)
    requires |bits| <= 16
    ensures forall i :: 0 <= i < |bits| ==> (15 - i in r <==> bits[i])
    ensures forall e :: e in r ==> 15 - |bits| < e <= 15
  {
    set i: nat | i < |bits| && bits[i] :: 15 - i
  }

  lemma PackSplit(bits: seq<bool>)
    requires 0 < |bits| <= 16
    ensures var rest := Add(Pack(bits), Term(bits[0], 15));
            Below16(rest) && Step(rest) == Pack(bits[1..])
  {
  }

  /** Feeding up to sixteen bits one by one is adding them side by side and stepping as often. */
  lemma {:induction false} FeedPacked(p: Poly, bits: seq<bool>)
    requires Below16(p) && |bits| <= 16
    ensures Feed(p, bits) == StepN(|bits|, Add(p, Pack(bits)))
    decreases |bits|
  {
    if bits == [] {
      assert Add(p, Pack(bits)) == p;
    } else {
      var first := Add(p, Term(bits[0], 15));
      assert Step(Add(p, Pack(bits))) == Add(Step(first), Pack(bits[1..])) by {
        var rest := Add(Pack(bits), Term(bits[0], 15));
        assert Add(p, Pack(bits)) == Add(first, rest);
        PackSplit(bits);
        StepLinear(first, rest);
      }
      FeedPacked(Step(first), bits[1..]);
    }
  }

  lemma PackInjective(a: seq<bool>, b: seq<bool>)
    requires |a| == |b| <= 16 && Pack(a) == Pack(b)
    ensures a == b
  {
  }

  /** From one register, two different inputs of the same length up to sixteen bits lead apart. */
  lemma WindowSeparates(p: Poly, a: seq<bool>, b: seq<bool>)
    requires Below16(p) && |a| == |b| <= 16 && a != b
    ensures Feed(p, a) != Feed(p, b)
  {
    if Feed(p, a) == Feed(p, b) {
      FeedPacked(p, a);
      FeedPacked(p, b);
      StepNInjective(|a|, Add(p, Pack(a)), Add(p, Pack(b)));
      assert forall e: nat :: e in Pack(a) <==> ((e in Add(p, Pack(a))) != (e in p));
      assert forall e: nat :: e in Pack(b) <==> ((e in Add(p, Pack(b))) != (e in p));
      PackInjective(a, b);
    }
  }

  // ---------- The register is the remainder ----------

  lemma UpAdd(p: Poly, q: Poly, n: nat)
    ensures Up(Add(p, q), n) == Add(Up(p, n), Up(q, n))
  {
  }

  lemma UpUp(p: Poly, m: nat, n: nat)
    ensures Up(Up(p, m), n) == Up(p, m + n)
  {
  }

  lemma FeedLast(bits: seq<bool>)
    requires bits != []
    ensures Feed({}, bits) == Step(Add(Feed({}, bits[..|bits| - 1]), Term(bits[|bits| - 1], 15)))
  {
    var init, last := bits[..|bits| - 1], bits[|bits| - 1..];
    assert bits == init + last && last[1..] == [];
    FeedSplit({}, init, last);
  }

  /** Long division: the quotient has one coefficient per message bit and the register is the rest. */
  lemma {:induction false} RegisterDivides(bits: seq<bool>) returns (q: seq<bool>)
    ensures |q| == |bits|
    ensures Up(Message(bits), 16) == Add(Multiple(q), Feed({}, bits))
  {
    if bits == [] {
      q := [];
    } else {
      var init, b := bits[..|bits| - 1], bits[|bits| - 1];
      var q0 := RegisterDivides(init);
      var r := Feed({}, init);
      q := q0 + [(15 in r) != b];
      assert q[..|q| - 1] == q0;
      FeedLast(bits);
      DivisionStep(Message(init), Multiple(q0), r, b);
    }
  }

  /** One more message bit in the dividend, one more quotient bit, one more register step. */
  lemma DivisionStep(m: Poly, q: Poly, r: Poly, b: bool)
    requires Below16(r) && Up(m, 16) == Add(q, r)
    ensures Up(Add(Up(m, 1), Term(b, 0)), 16)
         == Add(Add(Up(q, 1), if (15 in r) != b then GENERATOR else {}), Step(Add(r, Term(b, 15))))
  {
    var x := Up(Add(Up(m, 1), Term(b, 0)), 16);
    assert x == Add(Up(Up(m, 16), 1), Term(b, 16)) by {
      UpAdd(Up(m, 1), Term(b, 0), 16);
      UpUp(m, 1, 16);
      UpUp(m, 16, 1);
      assert Up(Term(b, 0), 16) == Term(b, 16);
    }
    UpAdd(q, r, 1);
    StepDivides(r, b);
    AddCancels(Up(q, 1), Up(r, 1), Term(b, 16), if (15 in r) != b then GENERATOR else {});
  }

  /** One register step, as shifting the remainder up and taking off the generator when power 16 appears. */
  lemma StepDivides(r: Poly, b: bool)
    requires Below16(r)
    ensures Step(Add(r, Term(b, 15)))
         == Add(Add(Up(r, 1), Term(b, 16)), if (15 in r) != b then GENERATOR else {})
  {
  }

  lemma AddCancels(m: Poly, r: Poly, b: Poly, g: Poly)
    ensures Add(Add(m, r), b) == Add(Add(m, g), Add(Add(r, b), g))
  {
  }

  /** A multiple of the generator that is not zero has degree 16 or more. */
  lemma {:induction false} MultipleIsBig(q: seq<bool>)
    requires Below16(Multiple(q))
    ensures true !in q && Multiple(q) == {}
  {
    if q != [] {
      var q0 := q[..|q| - 1];
      var m := Multiple(q0);
      assert q == q0 + [q[|q| - 1]];
      forall e | e in m
        ensures e < 16
      {
        assert e + 1 in Up(m, 1);
        assert e + 1 in Multiple(q) || e + 1 in GENERATOR;
      }
      MultipleIsBig(q0);
      assert 16 in GENERATOR;
      assert q[|q| - 1] ==> 16 in Multiple(q);
    }
  }

  function Xor(a: seq<bool>, b: seq<bool>): (r: seq<bool>)
    requires |a| == |b|
    ensures |r| == |a|
  {
    seq(|a|, i requires 0 <= i < |a| => a[i] != b[i])
  }

  lemma {:induction false} MultipleAdds(a: seq<bool>, b: seq<bool>)
    requires |a| == |b|
    ensures Multiple(Xor(a, b)) == Add(Multiple(a), Multiple(b))
  {
    if a != [] {
      var n := |a| - 1;
      assert Xor(a, b)[..n] == Xor(a[..n], b[..n]);
      MultipleAdds(a[..n], b[..n]);
      AddMixes(Multiple(a[..n]), Multiple(b[..n]), a[n], b[n]);
    }
  }

  lemma AddMixes(p: Poly, q: Poly, a: bool, b: bool)
    ensures Add(Up(Add(p, q), 1), if a != b then GENERATOR else {})
         == Add(Add(Up(p, 1), if a then GENERATOR else {}), Add(Up(q, 1), if b then GENERATOR else {}))
  {
  }

  function Zeros(n: nat): (r: seq<bool>)
    ensures |r| == n
  {
    seq(n, i => false)
  }

  lemma {:induction false} MultipleZeros(n: nat)
    ensures Multiple(Zeros(n)) == {}
  {
    if n > 0 {
      assert Zeros(n)[..n - 1] == Zeros(n - 1);
      MultipleZeros(n - 1);
    }
  }

  lemma {:induction false} MultiplePadded(n: nat, q: seq<bool>)
    ensures Multiple(Zeros(n) + q) == Multiple(q)
  {
    if q == [] {
      MultipleZeros(n);
      assert Zeros(n) + q == Zeros(n);
    } else {
      var init, last := q[..|q| - 1], q[|q| - 1];
      var padded := Zeros(n) + q;
      assert padded[..|padded| - 1] == Zeros(n) + init && padded[|padded| - 1] == last;
      MultiplePadded(n, init);
    }
  }

  /** Multiples of the generator are closed under addition. */
  lemma MultiplesAdd(a: seq<bool>, b: seq<bool>) returns (q: seq<bool>)
    ensures Multiple(q) == Add(Multiple(a), Multiple(b))
  {
    var a', b' := Zeros(|b|) + a, Zeros(|a|) + b;
    MultiplePadded(|b|, a);
    MultiplePadded(|a|, b);
    MultipleAdds(a', b');
    q := Xor(a', b');
  }

  /** Remainders of degree below 16 are unique, whatever the quotients. */
  lemma RemainderUnique(a: seq<bool>, r: Poly, b: seq<bool>, s: Poly)
    requires Below16(r) && Below16(s)
    requires Add(Multiple(a), r) == Add(Multiple(b), s)
    ensures r == s
  {
    var q := MultiplesAdd(a, b);
    forall e: nat
      ensures e in Multiple(q) <==> ((e in r) != (e in s))
    {
      assert e in Add(Multiple(a), r) <==> e in Add(Multiple(b), s);
    }
    MultipleIsBig(q);
  }

  // ---------- Parity ----------

  lemma {:induction false} UpSize(p: Poly, n: nat)
    ensures |Up(p, n)| == |p|
  {
    if p == {} {
      assert Up(p, n) == {};
    } else {
      var e :| e in p;
      assert Up(p, n) == Up(p - {e}, n) + {e + n};
      UpSize(p - {e}, n);
    }
  }

  predicate Odd(n: nat) {
    n % 2 == 1
  }

  lemma Sizes(a: Poly, b: Poly)
    requires a * b == {}
    ensures |a + b| == |a| + |b|
  {
  }

  lemma AddSize(p: Poly, q: Poly)
    ensures Odd(|Add(p, q)|) == (Odd(|p|) != Odd(|q|))
  {
    var both, inP, inQ := p * q, p - q, q - p;
    assert p == inP + both && q == inQ + both;
    Sizes(inP, both);
    Sizes(inQ, both);
    Sizes(inP, inQ);
  }

  lemma StepParity(p: Poly)
    requires Below16(p)
    ensures Odd(|Step(p)|) == Odd(|p|)
  {
    UpSize(p, 1);
    if 15 in p {
      AddSize(Up(p, 1), GENERATOR);
      assert |GENERATOR| == 4;
    }
  }

  predicate OddOnes(bits: seq<bool>) {
    bits != [] && (bits[0] != OddOnes(bits[1..]))
  }

  lemma FeedBitParity(p: Poly, b: bool)
    requires Below16(p)
    ensures Odd(|Step(Add(p, Term(b, 15)))|) == (Odd(|p|) != b)
  {
    assert Odd(|Add(p, Term(b, 15))|) == (Odd(|p|) != b) by {
      AddSize(p, Term(b, 15));
      assert |Term(b, 15)| == if b then 1 else 0;
    }
    StepParity(Add(p, Term(b, 15)));
  }

  /** Each step keeps the parity of the number of ones, because the generator has four terms. */
  lemma {:induction false} FeedParity(p: Poly, bits: seq<bool>)
    requires Below16(p)
    ensures Odd(|Feed(p, bits)|) == (Odd(|p|) != OddOnes(bits))
    decreases |bits|
  {
    if bits != [] {
      FeedBitParity(p, bits[0]);
      FeedParity(Step(Add(p, Term(bits[0], 15))), bits[1..]);
    }
  }

  lemma {:induction false} StepNParity(n: nat, p: Poly)
    requires Below16(p)
    ensures Odd(|StepN(n, p)|) == Odd(|p|)
  {
    hide Step, Odd;
    if n > 0 {
      StepParity(p);
      StepNParity(n - 1, Step(p));
    }
  }

  lemma PackParity(bits: seq<bool>)
    requires |bits| <= 16
    ensures Odd(|Pack(bits)|) == OddOnes(bits)
  {
    FeedParity({}, bits);
    FeedPacked({}, bits);
    assert Add({}, Pack(bits)) == Pack(bits);
    StepNParity(|bits|, Pack(bits));
  }

  lemma {:induction false} OddOnesAppend(a: seq<bool>, b: seq<bool>)
    ensures OddOnes(a + b) == (OddOnes(a) != OddOnes(b))
    decreases |a|
  {
    if a == [] {
      assert a + b == b;
    } else {
      assert (a + b)[1..] == a[1..] + b;
      OddOnesAppend(a[1..], b);
    }
  }
}
