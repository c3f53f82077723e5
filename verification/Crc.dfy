/** CRC-16/ARC as the repository computes it: reflected polynomial 0xA001, initial value 0. */
module Crc {
  import opened Bytes
  import opened Gf2
  import Order

  predicate BitAt(n: nat, k: nat) {
    if k == 0 then n % 2 == 1 else BitAt(n / 2, k - 1)
  }

  /** Python's `^` on non-negative integers. */
  function Xor(a: nat, b: nat): nat {
    if a == 0 && b == 0 then 0
    else (if a % 2 == b % 2 then 0 else 1) + 2 * Xor(a / 2, b / 2)
  }

  function Pow2(n: nat): (p: nat)
    ensures p > 0
  {
    if n == 0 then 1 else 2 * Pow2(n - 1)
  }

  lemma {:induction false} XorBelow(a: nat, b: nat, n: nat)
    requires a < Pow2(n) && b < Pow2(n)
    ensures Xor(a, b) < Pow2(n)
  {
    if n > 0 && !(a == 0 && b == 0) {
      XorBelow(a / 2, b / 2, n - 1);
    }
  }

  lemma Pow2Widths()
    ensures Pow2(8) == 0x100 && Pow2(16) == 0x1_0000
  {
  }

  function Xor16(a: u16, b: u16): (r: u16)
    ensures r == Xor(a, b)
  {
    assert Xor(a, b) < Pow2(16) == 0x1_0000 by {
      Pow2Widths();
      XorBelow(a, b, 16);
    }
    Xor(a, b)
  }

  /** One round of the inner loop: shift right, fold the polynomial in when a one falls out. */
  function Shift(c: u16): u16 {
    if c % 2 == 1 then Xor16(c / 2, 0xA001) else c / 2
  }

  function ShiftN(n: nat, c: u16): u16 {
    if n == 0 then c else ShiftN(n - 1, Shift(c))
  }

  /** The register after a further message, starting from `c`. */
  function Update(c: u16, data: bytes): u16
    decreases |data|
  {
    if data == [] then c
    else ShiftN(8, Xor16(Update(c, data[..|data| - 1]), data[|data| - 1]))
  }

  function Checksum(data: bytes): u16 {
    Update(0, data)
  }

  lemma {:induction false} ShiftNLast(n: nat, c: u16)
    ensures ShiftN(n + 1, c) == Shift(ShiftN(n, c))
  {
    if n > 0 {
      ShiftNLast(n - 1, Shift(c));
    }
  }

  method Crc16(data: bytes) returns (crc: u16)
    ensures crc == Checksum(data)
  {
    crc := 0;
    for i := 0 to |data|
      invariant crc == Update(0, data[..i])
    {
      crc := Xor16(crc, data[i]);
      ghost var mixed := crc;
      for j := 0 to 8
        invariant crc == ShiftN(j, mixed)
      {
        ShiftNLast(j, mixed);
        crc := if crc % 2 == 1 then Xor16(crc / 2, 0xA001) else crc / 2;
      }
      assert data[..i + 1][..i] == data[..i];
    }
    assert data[..|data|] == data;
  }

  // ---------- Registers as polynomials: bit k of the register is the coefficient of x^(15 - k) ----------

  predicate Coefficient(c: u16, e: nat) {
    e < 16 && BitAt(c, 15 - e)
  }

  function PolyOf(c: u16): (p: Poly)
    ensures Below16(p)
    ensures forall e: nat :: e in p <==> Coefficient(c, e)
  {
    set e: nat | e < 16 && Coefficient(c, e)
  }

  lemma {:induction false} BitOfZero(k: nat)
    ensures !BitAt(0, k)
  {
    if k > 0 {
      BitOfZero(k - 1);
    }
  }

  lemma {:induction false} BitOfXor(a: nat, b: nat, k: nat)
    ensures BitAt(Xor(a, b), k) == (BitAt(a, k) != BitAt(b, k))
    decreases k
  {
    if a == 0 && b == 0 {
      BitOfZero(k);
    } else if k > 0 {
      BitOfXor(a / 2, b / 2, k - 1);
    }
  }

  lemma {:induction false} BitsDetermine(a: nat, b: nat, n: nat)
    requires a < Pow2(n) && b < Pow2(n)
    requires forall k: nat :: k < n ==> BitAt(a, k) == BitAt(b, k)
    ensures a == b
  {
    if n > 0 {
      assert BitAt(a, 0) == BitAt(b, 0);
      forall k: nat | k < n - 1
        ensures BitAt(a / 2, k) == BitAt(b / 2, k)
      {
        assert BitAt(a, k + 1) == BitAt(b, k + 1);
      }
      BitsDetermine(a / 2, b / 2, n - 1);
    }
  }

  /** A register is its polynomial. */
  lemma PolyOfInjective(a: u16, b: u16)
    requires PolyOf(a) == PolyOf(b)
    ensures a == b
  {
    forall k: nat | k < 16
      ensures BitAt(a, k) == BitAt(b, k)
    {
      assert 15 - k in PolyOf(a) <==> 15 - k in PolyOf(b);
      assert Coefficient(a, 15 - k) <==> Coefficient(b, 15 - k);
    }
    Pow2Widths();
    BitsDetermine(a, b, 16);
  }

  lemma PolyOfXor(a: u16, b: u16)
    ensures PolyOf(Xor16(a, b)) == Add(PolyOf(a), PolyOf(b))
  {
    forall e: nat | e < 16
      ensures Coefficient(Xor16(a, b), e) <==> (Coefficient(a, e) != Coefficient(b, e))
    {
      BitOfXor(a, b, 15 - e);
    }
  }

  lemma PolyOfHalf(c: u16)
    ensures PolyOf(c / 2) == Up(PolyOf(c), 1) - {16}
  {
    Pow2Widths();
    assert !BitAt(c / 2, 15) by { BitAbove(c / 2, 15); }
    forall e: nat
      ensures e in PolyOf(c / 2) <==> e in Up(PolyOf(c), 1) - {16}
    {
      if 1 <= e < 16 {
        assert Coefficient(c / 2, e) <==> Coefficient(c, e - 1);
      }
    }
  }

  lemma {:induction false} BitAbove(a: nat, n: nat)
    requires a < Pow2(n)
    ensures !BitAt(a, n)
  {
    if n > 0 {
      BitAbove(a / 2, n - 1);
    }
  }

  lemma BitOfQuarter(c: nat, k: nat)
    ensures BitAt(c / 4, k) == BitAt(c, k + 2)
  {
    assert BitAt(c, k + 2) == BitAt(c / 2, k + 1) == BitAt(c / 2 / 2, k);
  }

  lemma BitOfByteDown(c: nat, k: nat)
    ensures BitAt(c / 0x100, k) == BitAt(c, k + 8)
  {
    hide BitAt;
    var c4 := c / 4;
    var c16 := c4 / 4;
    var c64 := c16 / 4;
    BitOfQuarter(c, k + 6);
    BitOfQuarter(c4, k + 4);
    BitOfQuarter(c16, k + 2);
    BitOfQuarter(c64, k);
    assert c64 / 4 == c / 0x100;
  }

  lemma BitOfConstant(k: nat)
    requires k < 16
    ensures BitAt(0xA001, k) <==> k == 0 || k == 13 || k == 15
  {
    if k >= 8 {
      BitOfByteDown(0xA001, k - 8);
      assert 0xA001 / 0x100 == 0xA0;
      assert !BitAt(0xA0, 0) && !BitAt(0xA0, 1) && !BitAt(0xA0, 2) && !BitAt(0xA0, 3);
      assert !BitAt(0xA0, 4) && BitAt(0xA0, 5) && !BitAt(0xA0, 6) && BitAt(0xA0, 7);
    } else if k > 0 {
      assert !BitAt(0x5000, 0) && !BitAt(0x5000, 1) && !BitAt(0x5000, 2) && !BitAt(0x5000, 3);
      assert !BitAt(0x5000, 4) && !BitAt(0x5000, 5) && !BitAt(0x5000, 6);
    }
  }

  lemma PolyOfConstant()
    ensures PolyOf(0xA001) == {0, 2, 15}
  {
    forall e: nat | e < 16
      ensures Coefficient(0xA001, e) <==> e in {0, 2, 15}
    {
      BitOfConstant(15 - e);
    }
  }

  /** The shift round is multiplication by x modulo the generator. */
  lemma ShiftIsStep(c: u16)
    ensures PolyOf(Shift(c)) == Step(PolyOf(c))
  {
    PolyOfHalf(c);
    assert 15 in PolyOf(c) <==> Coefficient(c, 15);
    if c % 2 == 1 {
      PolyOfConstant();
      PolyOfXor(c / 2, 0xA001);
    }
  }

  lemma {:induction false} ShiftNIsStepN(n: nat, c: u16)
    ensures PolyOf(ShiftN(n, c)) == StepN(n, PolyOf(c))
  {
    if n > 0 {
      ShiftIsStep(c);
      ShiftNIsStepN(n - 1, Shift(c));
    }
  }

  // ---------- The message as a bit stream, least significant bit of each octet first ----------

  function OctetBits(b: byte): (r: seq<bool>)
    ensures |r| == 8
  {
    seq(8, k requires 0 <= k < 8 => BitAt(b, k))
  }

  function Bits(data: bytes): (r: seq<bool>)
    ensures |r| == 8 * |data|
  {
    if data == [] then [] else Bits(data[..|data| - 1]) + OctetBits(data[|data| - 1])
  }

  lemma {:induction false} HighBitsClear(a: nat, n: nat, k: nat)
    requires a < Pow2(n) && n <= k
    ensures !BitAt(a, k)
  {
    if n == 0 {
      BitOfZero(k);
    } else {
      HighBitsClear(a / 2, n - 1, k - 1);
    }
  }

  lemma PackOctet(b: byte)
    ensures Pack(OctetBits(b)) == PolyOf(b)
  {
    Pow2Widths();
    forall e: nat | e < 16
      ensures e in Pack(OctetBits(b)) <==> Coefficient(b, e)
    {
      if e <= 7 {
        HighBitsClear(b, 8, 15 - e);
      } else {
        assert e == 15 - (15 - e);
        assert e in Pack(OctetBits(b)) <==> OctetBits(b)[15 - e];
      }
    }
  }

  /** Eight rounds after folding in an octet feed its eight bits, low bit first. */
  lemma OctetFeeds(c: u16, b: byte)
    ensures PolyOf(ShiftN(8, Xor16(c, b))) == Feed(PolyOf(c), OctetBits(b))
  {
    ShiftNIsStepN(8, Xor16(c, b));
    PolyOfXor(c, b);
    PackOctet(b);
    FeedPacked(PolyOf(c), OctetBits(b));
  }

  /** The octet loop is the bit-serial division register over the message's bit stream. */
  lemma {:induction false} UpdateIsFeed(c: u16, data: bytes)
    ensures PolyOf(Update(c, data)) == Feed(PolyOf(c), Bits(data))
    decreases |data|
  {
    if data != [] {
      var init, last := data[..|data| - 1], data[|data| - 1];
      UpdateIsFeed(c, init);
      OctetFeeds(Update(c, init), last);
      FeedSplit(PolyOf(c), Bits(init), OctetBits(last));
    }
  }

  lemma ChecksumIsRegister(data: bytes)
    ensures PolyOf(Checksum(data)) == Feed({}, Bits(data))
  {
    assert PolyOf(0) == {} by {
      forall e: nat
        ensures !Coefficient(0, e)
      {
        if e < 16 {
          BitOfZero(15 - e);
        }
      }
    }
    UpdateIsFeed(0, data);
  }

  // ---------- The checksum is the remainder of the message times x^16 ----------

  lemma ChecksumIsRemainder(data: bytes) returns (q: seq<bool>)
    ensures Up(Message(Bits(data)), 16) == Add(Multiple(q), PolyOf(Checksum(data)))
  {
    q := RegisterDivides(Bits(data));
    ChecksumIsRegister(data);
  }

  /** ... and no other polynomial of degree below 16 is one, for any quotient. */
  lemma OnlyRemainder(data: bytes, q: seq<bool>, r: Poly)
    requires Below16(r) && Up(Message(Bits(data)), 16) == Add(Multiple(q), r)
    ensures r == PolyOf(Checksum(data))
  {
    var own := ChecksumIsRemainder(data);
    RemainderUnique(q, r, own, PolyOf(Checksum(data)));
  }

  /** A change goes unnoticed exactly when the generator divides x^16 times the difference. */
  lemma CollideExactly(x: bytes, y: bytes)
    ensures Checksum(x) == Checksum(y)
       <==> exists q :: Up(Add(Message(Bits(x)), Message(Bits(y))), 16) == Multiple(q)
  {
    var mx, my := Message(Bits(x)), Message(Bits(y));
    var qx := ChecksumIsRemainder(x);
    var qy := ChecksumIsRemainder(y);
    var rx, ry := PolyOf(Checksum(x)), PolyOf(Checksum(y));
    UpAdd(mx, my, 16);
    if Checksum(x) == Checksum(y) {
      var q := MultiplesAdd(qx, qy);
      SameRest(Up(mx, 16), Up(my, 16), Multiple(qx), Multiple(qy), rx);
      assert Up(Add(mx, my), 16) == Multiple(q);
    } else if q :| Up(Add(mx, my), 16) == Multiple(q) {
      var q' := MultiplesAdd(q, qy);
      SameDifference(Up(mx, 16), Up(my, 16), Multiple(q), Multiple(qy), ry);
      OnlyRemainder(x, q', ry);
      PolyOfInjective(Checksum(x), Checksum(y));
    }
  }

  lemma SameRest(x: Poly, y: Poly, p: Poly, q: Poly, r: Poly)
    requires x == Add(p, r) && y == Add(q, r)
    ensures Add(x, y) == Add(p, q)
  {
  }

  lemma SameDifference(x: Poly, y: Poly, d: Poly, q: Poly, r: Poly)
    requires Add(x, y) == d && y == Add(q, r)
    ensures x == Add(Add(d, q), r)
  {
  }

  // ---------- Error detection ----------

  /** `x` and `y` agree on every bit outside the 16-bit window that starts at bit `i`. */
  ghost predicate DifferOnlyInWindow(x: seq<bool>, y: seq<bool>, i: nat) {
    |x| == |y| && forall k :: 0 <= k < |x| && !(i <= k < i + 16) ==> x[k] == y[k]
  }

  lemma WindowDetected(p: Poly, x: seq<bool>, y: seq<bool>, i: nat)
    requires Below16(p) && DifferOnlyInWindow(x, y, i) && x != y
    ensures Feed(p, x) != Feed(p, y)
  {
    var lo := if i < |x| then i else |x|;
    var hi := if i + 16 < |x| then i + 16 else |x|;
    var before, wx, wy, after := x[..lo], x[lo..hi], y[lo..hi], x[hi..];
    assert x == before + (wx + after);
    assert y == before + (wy + after);
    FeedSplit(p, before, wx + after);
    FeedSplit(p, before, wy + after);
    var c := Feed(p, before);
    FeedSplit(c, wx, after);
    FeedSplit(c, wy, after);
    assert wx != wy;
    WindowSeparates(c, wx, wy);
    if Feed(p, x) == Feed(p, y) {
      FeedInjective(Feed(c, wx), Feed(c, wy), after);
    }
  }

  lemma {:induction false} BitsInjective(x: bytes, y: bytes)
    requires Bits(x) == Bits(y)
    ensures x == y
    decreases |x|
  {
    if x != [] {
      var n := |x| - 1;
      assert Bits(x)[..8 * n] == Bits(x[..n]) && Bits(y)[..8 * n] == Bits(y[..n]);
      BitsInjective(x[..n], y[..n]);
      assert OctetBits(x[n]) == Bits(x)[8 * n..] == Bits(y)[8 * n..] == OctetBits(y[n]);
      PackOctet(x[n]);
      PackOctet(y[n]);
      PolyOfInjective(x[n], y[n]);
    }
  }

  /** Any change confined to 16 consecutive bits of the stream changes the checksum. */
  lemma BurstDetected(x: bytes, y: bytes, i: nat)
    requires x != y && DifferOnlyInWindow(Bits(x), Bits(y), i)
    ensures Checksum(x) != Checksum(y)
  {
    if Bits(x) == Bits(y) {
      BitsInjective(x, y);
    }
    ChecksumIsRegister(x);
    ChecksumIsRegister(y);
    WindowDetected({}, Bits(x), Bits(y), i);
  }

  lemma {:induction false} BitsAt(data: bytes, i: nat)
    requires i < |data|
    ensures Bits(data)[8 * i..8 * i + 8] == OctetBits(data[i])
    decreases |data|
  {
    hide OctetBits;
    var n := |data| - 1;
    var front, last := Bits(data[..n]), OctetBits(data[n]);
    assert Bits(data) == front + last && |front| == 8 * n;
    if i < n {
      BitsAt(data[..n], i);
      assert (front + last)[8 * i..8 * i + 8] == front[8 * i..8 * i + 8];
    } else {
      assert (front + last)[8 * n..8 * n + 8] == last;
    }
  }

  /** In particular any change within two neighbouring octets. */
  lemma NeighboursDetected(x: bytes, y: bytes, i: nat)
    requires |x| == |y| && x != y
    requires forall k :: 0 <= k < |x| && k != i && k != i + 1 ==> x[k] == y[k]
    ensures Checksum(x) != Checksum(y)
  {
    forall k | 0 <= k < |Bits(x)| && !(8 * i <= k < 8 * i + 16)
      ensures Bits(x)[k] == Bits(y)[k]
    {
      var o := k / 8;
      BitsAt(x, o);
      BitsAt(y, o);
      assert Bits(x)[k] == Bits(x)[8 * o..8 * o + 8][k - 8 * o];
      assert Bits(y)[k] == Bits(y)[8 * o..8 * o + 8][k - 8 * o];
    }
    BurstDetected(x, y, 8 * i);
  }

  /** The checksum has an odd number of ones exactly when the message has. */
  lemma ChecksumParity(data: bytes)
    ensures Odd(|PolyOf(Checksum(data))|) == OddOnes(Bits(data))
  {
    ChecksumIsRegister(data);
    FeedParity({}, Bits(data));
  }

  lemma {:induction false} OddOnesXor(a: seq<bool>, b: seq<bool>)
    requires |a| == |b|
    ensures OddOnes(Gf2.Xor(a, b)) == (OddOnes(a) != OddOnes(b))
  {
    if a != [] {
      assert Gf2.Xor(a, b)[1..] == Gf2.Xor(a[1..], b[1..]);
      OddOnesXor(a[1..], b[1..]);
    }
  }

  /** An odd number of flipped bits is detected in messages of any length. */
  lemma OddFlipsDetected(x: bytes, y: bytes)
    requires |x| == |y| && OddOnes(Gf2.Xor(Bits(x), Bits(y)))
    ensures Checksum(x) != Checksum(y)
  {
    ChecksumParity(x);
    ChecksumParity(y);
    OddOnesXor(Bits(x), Bits(y));
  }

  // ---------- Two flipped bits ----------

  /** Two runs of the register over the same bits keep their difference, multiplied by x once per bit. */
  lemma {:induction false} SameBits(p: Poly, q: Poly, bits: seq<bool>)
    requires Below16(p) && Below16(q)
    ensures Below16(Add(p, q)) && Add(Feed(p, bits), Feed(q, bits)) == StepN(|bits|, Add(p, q))
    decreases |bits|
  {
    hide Step;
    assert Below16(Add(p, q));
    if bits != [] {
      var t := Term(bits[0], 15);
      assert Add(Add(p, t), Add(q, t)) == Add(p, q);
      StepLinear(Add(p, t), Add(q, t));
      SameBits(Step(Add(p, t)), Step(Add(q, t)), bits[1..]);
    }
  }

  /** ... and over different bits it grows by x^16. */
  lemma OtherBit(p: Poly, q: Poly, b: bool)
    requires Below16(p) && Below16(q)
    ensures Below16(Add(p, q)) && Add(Feed(p, [b]), Feed(q, [!b])) == Add(Step(Add(p, q)), Step({15}))
  {
    hide Step;
    var t, u, d := Add(p, Term(b, 15)), Add(q, Term(!b, 15)), Add(p, q);
    assert Below16(d) && Below16({15});
    assert Add(t, u) == Add(d, {15});
    StepLinear(t, u);
    StepLinear(d, {15});
    OneBit(p, b);
    OneBit(q, !b);
  }

  lemma OneBit(p: Poly, b: bool)
    requires Below16(p)
    ensures Feed(p, [b]) == Step(Add(p, Term(b, 15)))
  {
    assert [b][1..] == [];
  }

  lemma {:induction false} StepNTwice(m: nat, n: nat, p: Poly)
    requires Below16(p)
    ensures StepN(m + n, p) == StepN(n, StepN(m, p))
    decreases m
  {
    hide Step;
    if m > 0 {
      StepNTwice(m - 1, n, Step(p));
    }
  }

  /** The difference of two bits at distance `d` cancels exactly when x^d is 1. */
  lemma CancelsExactly(d: nat)
    requires d > 0
    ensures Below16({15}) && Add(Step(StepN(d - 1, Step({15}))), Step({15})) == {} <==> StepN(d, {0}) == {0}
  {
    hide Step, StepN;
    var g := Step({15});
    StepNOnce({15});
    StepNLastOf(d - 1, g);
    FifteenSteps();
    StepNTwice(15, 1, {0});
    assert g == StepN(16, {0});
    StepNTwice(16, d, {0});
    StepNTwice(d, 16, {0});
    if StepN(d, g) == g {
      StepNInjective(16, StepN(d, {0}), {0});
    }
    AddIsEmpty(StepN(d, g), g);
  }

  lemma AddIsEmpty(p: Poly, q: Poly)
    ensures Add(p, q) == {} <==> p == q
  {
    if Add(p, q) == {} {
      forall e: nat
        ensures e in p <==> e in q
      {
        assert e in Add(p, q) <==> ((e in p) != (e in q));
      }
    }
  }

  lemma StepNOnce(p: Poly)
    requires Below16(p)
    ensures StepN(1, p) == Step(p)
  {
    assert StepN(0, Step(p)) == Step(p);
  }

  lemma StepNLastOf(n: nat, p: Poly)
    requires Below16(p)
    ensures StepN(n + 1, p) == Step(StepN(n, p))
  {
    StepNTwice(n, 1, p);
    StepNOnce(StepN(n, p));
  }

  lemma FifteenSteps()
    ensures Below16({0}) && StepN(15, {0}) == {15}
  {
    hide Step, StepN;
    StepNPlain(15, {0});
    assert Up({0}, 15) == {15};
  }

  /** `x` and `y` differ in the bits `i` and `j` and in no others. */
  ghost predicate DifferInTwo(x: seq<bool>, y: seq<bool>, i: nat, j: nat) {
    i < j < |x| == |y| && forall k :: 0 <= k < |x| ==> (x[k] != y[k] <==> k == i || k == j)
  }

  lemma TwoSplit(x: seq<bool>, i: nat, j: nat)
    requires i < j < |x|
    ensures x == x[..i] + ([x[i]] + (x[i + 1..j] + ([x[j]] + x[j + 1..])))
  {
  }

  lemma FeedTwo(x: seq<bool>, i: nat, j: nat)
    requires i < j < |x|
    ensures Below16({})
    ensures Feed({}, x) == Feed(Feed(Feed(Feed(Feed({}, x[..i]), [x[i]]), x[i + 1..j]), [x[j]]), x[j + 1..])
  {
    hide Feed;
    var a, b, c, d, e := x[..i], [x[i]], x[i + 1..j], [x[j]], x[j + 1..];
    TwoSplit(x, i, j);
    FeedSplit({}, a, b + (c + (d + e)));
    FeedSplit(Feed({}, a), b, c + (d + e));
    FeedSplit(Feed(Feed({}, a), b), c, d + e);
    FeedSplit(Feed(Feed(Feed({}, a), b), c), d, e);
  }

  lemma TwoParts(x: seq<bool>, y: seq<bool>, i: nat, j: nat)
    requires DifferInTwo(x, y, i, j)
    ensures y[..i] == x[..i] && y[i] == !x[i] && y[i + 1..j] == x[i + 1..j] && y[j] == !x[j] && y[j + 1..] == x[j + 1..]
  {
  }

  lemma TwoBitsExactly(x: seq<bool>, y: seq<bool>, i: nat, j: nat)
    requires DifferInTwo(x, y, i, j)
    ensures Below16({}) && Feed({}, x) == Feed({}, y) <==> (j - i) % 32767 == 0
  {
    hide Feed, Step, StepN, DifferInTwo;
    TwoParts(x, y, i, j);
    assert i < j < |x| == |y| by { TwoLengths(x, y, i, j); }
    FeedTwo(x, i, j);
    FeedTwo(y, i, j);
    var p := Feed({}, x[..i]);
    var p1, q1 := Feed(p, [x[i]]), Feed(p, [y[i]]);
    OtherBit(p, p, x[i]);
    NoDifference(p);
    var c, z := x[i + 1..j], x[j + 1..];
    var p2, q2 := Feed(p1, c), Feed(q1, c);
    SameBits(p1, q1, c);
    OtherBit(p2, q2, x[j]);
    var p3, q3 := Feed(p2, [x[j]]), Feed(q2, [y[j]]);
    AddIsEmpty(p3, q3);
    CancelsExactly(j - i);
    Order.OrderExactly(j - i);
    if Feed(p3, z) == Feed(q3, z) {
      FeedInjective(p3, q3, z);
    }
  }

  lemma TwoLengths(x: seq<bool>, y: seq<bool>, i: nat, j: nat)
    requires DifferInTwo(x, y, i, j)
    ensures i < j < |x| == |y|
  {
  }

  lemma NoDifference(p: Poly)
    requires Below16(p)
    ensures Add(p, p) == {} && Below16({}) && Below16({15}) && Step({}) == {} && Add({}, Step({15})) == Step({15})
  {
  }

  /** Two flipped bits, in messages of any length, go unnoticed if and only if 32767 divides their distance. */
  lemma TwoFlipsExactly(x: bytes, y: bytes, i: nat, j: nat)
    requires DifferInTwo(Bits(x), Bits(y), i, j)
    ensures Checksum(x) == Checksum(y) <==> (j - i) % 32767 == 0
  {
    hide Checksum, DifferInTwo, PolyOf;
    ChecksumIsRegister(x);
    ChecksumIsRegister(y);
    TwoBitsExactly(Bits(x), Bits(y), i, j);
    if PolyOf(Checksum(x)) == PolyOf(Checksum(y)) {
      PolyOfInjective(Checksum(x), Checksum(y));
    }
  }

  // ---------- The 256-entry table form ----------

  function Table(i: byte): u16 {
    ShiftN(8, i)
  }

  function TableUpdate(c: u16, data: bytes): u16
    decreases |data|
  {
    if data == [] then c
    else
      var c' := TableUpdate(c, data[..|data| - 1]);
      Xor16(c' / 0x100, Table(Xor16(c', data[|data| - 1]) % 0x100))
  }

  lemma HighPartShiftsOut(hi: u16)
    requires hi % 0x100 == 0
    ensures ShiftN(8, hi) == hi / 0x100
  {
    Pow2Widths();
    forall e | e in PolyOf(hi)
      ensures e + 8 < 16
    {
      assert Coefficient(hi, e);
      if e >= 8 {
        LowBitsClear(hi / 0x100, 8, 15 - e);
      }
    }
    ShiftNIsStepN(8, hi);
    StepNPlain(8, PolyOf(hi));
    forall e: nat
      ensures e in PolyOf(hi / 0x100) <==> e in Up(PolyOf(hi), 8)
    {
      if e < 8 {
        HighBitsClear(hi / 0x100, 8, 15 - e);
      } else if e < 16 {
        BitOfByteDown(hi, 15 - e);
        assert Coefficient(hi / 0x100, e) <==> Coefficient(hi, e - 8);
      }
    }
    PolyOfInjective(ShiftN(8, hi), hi / 0x100);
  }

  lemma {:induction false} XorZero(a: nat)
    ensures Xor(a, 0) == a
  {
    if a > 0 {
      XorZero(a / 2);
    }
  }

  lemma {:induction false} LowBitsClear(q: nat, n: nat, k: nat)
    requires k < n
    ensures !BitAt(Pow2(n) * q, k)
    decreases k
  {
    assert Pow2(n) * q == 2 * (Pow2(n - 1) * q);
    if k > 0 {
      LowBitsClear(q, n - 1, k - 1);
    }
  }

  /** Exclusive-or puts a high part and a low part together. */
  lemma {:induction false} XorJoins(q: nat, n: nat, lo: nat)
    requires lo < Pow2(n)
    ensures Xor(Pow2(n) * q, lo) == Pow2(n) * q + lo
    decreases n
  {
    if n == 0 {
      XorZero(q);
    } else {
      assert Pow2(n) * q == 2 * (Pow2(n - 1) * q);
      XorJoins(q, n - 1, lo / 2);
    }
  }

  lemma XorKeepsHigh(c: u16, b: byte)
    ensures Xor16(c, b) / 0x100 == c / 0x100
  {
    var v := Xor16(c, b);
    Pow2Widths();
    forall k: nat | k < 8
      ensures BitAt(v / 0x100, k) == BitAt(c / 0x100, k)
    {
      BitOfByteDown(v, k);
      BitOfByteDown(c, k);
      BitOfXor(c, b, k + 8);
      HighBitsClear(b, 8, k + 8);
    }
    BitsDetermine(v / 0x100, c / 0x100, 8);
  }

  lemma ShiftNLinear(n: nat, a: u16, b: u16)
    ensures ShiftN(n, Xor16(a, b)) == Xor16(ShiftN(n, a), ShiftN(n, b))
  {
    var x, y := ShiftN(n, a), ShiftN(n, b);
    assert PolyOf(ShiftN(n, Xor16(a, b))) == Add(PolyOf(x), PolyOf(y)) by {
      ShiftNIsStepN(n, a);
      ShiftNIsStepN(n, b);
      ShiftNIsStepN(n, Xor16(a, b));
      PolyOfXor(a, b);
      StepNLinear(n, PolyOf(a), PolyOf(b));
    }
    PolyOfXor(x, y);
    PolyOfInjective(ShiftN(n, Xor16(a, b)), Xor16(x, y));
  }

  lemma HighAndLow(v: u16)
    ensures Xor16(v - v % 0x100, v % 0x100) == v
  {
    Pow2Widths();
    XorJoins(v / 0x100, 8, v % 0x100);
  }

  lemma TableOctet(c: u16, b: byte)
    ensures ShiftN(8, Xor16(c, b)) == Xor16(c / 0x100, Table(Xor16(c, b) % 0x100))
  {
    var v := Xor16(c, b);
    var hi: u16 := v - v % 0x100;
    assert hi / 0x100 == c / 0x100 by { XorKeepsHigh(c, b); }
    assert ShiftN(8, hi) == hi / 0x100 by { HighPartShiftsOut(hi); }
    assert ShiftN(8, v) == Xor16(ShiftN(8, hi), ShiftN(8, v % 0x100)) by {
      HighAndLow(v);
      ShiftNLinear(8, hi, v % 0x100);
    }
  }

  /** The bit-serial loop and the lookup-table loop compute the same register from any start. */
  lemma {:induction false} TableForm(c: u16, data: bytes)
    ensures TableUpdate(c, data) == Update(c, data)
    decreases |data|
  {
    if data != [] {
      TableForm(c, data[..|data| - 1]);
      TableOctet(Update(c, data[..|data| - 1]), data[|data| - 1]);
    }
  }

  // ---------- Changes that reach the transmitted checksum ----------

  function Xor8(a: byte, b: byte): (r: byte)
    ensures r == Xor16(a, b)
  {
    assert Xor(a, b) < Pow2(8) == 0x100 by {
      Pow2Widths();
      XorBelow(a, b, 8);
    }
    Xor(a, b)
  }

  /** Which bits of two octet strings differ. */
  function XorEach(x: bytes, y: bytes): (r: bytes)
    requires |x| == |y|
    ensures |r| == |x| && forall i :: 0 <= i < |r| ==> r[i] == Xor8(x[i], y[i])
  {
    seq(|x|, i requires 0 <= i < |x| => Xor8(x[i], y[i]))
  }

  lemma XorSwap(a: u16, b: u16, x: u16, y: u16)
    ensures Xor16(Xor16(a, b), Xor16(x, y)) == Xor16(Xor16(a, x), Xor16(b, y))
  {
    hide Xor16, PolyOf;
    var l, r := Xor16(Xor16(a, b), Xor16(x, y)), Xor16(Xor16(a, x), Xor16(b, y));
    assert PolyOf(l) == Add(Add(PolyOf(a), PolyOf(b)), Add(PolyOf(x), PolyOf(y))) by {
      PolyOfXor(a, b);
      PolyOfXor(x, y);
      PolyOfXor(Xor16(a, b), Xor16(x, y));
    }
    assert PolyOf(r) == Add(Add(PolyOf(a), PolyOf(x)), Add(PolyOf(b), PolyOf(y))) by {
      PolyOfXor(a, x);
      PolyOfXor(b, y);
      PolyOfXor(Xor16(a, x), Xor16(b, y));
    }
    assert PolyOf(l) == PolyOf(r);
    PolyOfInjective(l, r);
  }

  lemma XorCancels(a: u16, b: u16, c: u16)
    requires Xor16(a, b) == Xor16(a, c)
    ensures b == c
  {
    hide Xor16, PolyOf;
    PolyOfXor(a, b);
    PolyOfXor(a, c);
    forall e: nat
      ensures e in PolyOf(b) <==> e in PolyOf(c)
    {
      assert e in Add(PolyOf(a), PolyOf(b)) <==> e in Add(PolyOf(a), PolyOf(c));
    }
    assert PolyOf(b) == PolyOf(c);
    PolyOfInjective(b, c);
  }

  lemma {:induction false} UpdateLinear(a: u16, b: u16, x: bytes, y: bytes)
    requires |x| == |y|
    ensures Update(Xor16(a, b), XorEach(x, y)) == Xor16(Update(a, x), Update(b, y))
    decreases |x|
  {
    hide Xor16, Xor8, ShiftN;
    if x != [] {
      var n := |x| - 1;
      assert XorEach(x, y)[..n] == XorEach(x[..n], y[..n]);
      UpdateLinear(a, b, x[..n], y[..n]);
      var c, d := Update(a, x[..n]), Update(b, y[..n]);
      XorSwap(c, d, x[n], y[n]);
      ShiftNLinear(8, Xor16(c, x[n]), Xor16(d, y[n]));
    }
  }

  /** The checksum of a difference is the difference of the checksums. */
  lemma ChecksumLinear(x: bytes, y: bytes)
    requires |x| == |y|
    ensures Checksum(XorEach(x, y)) == Xor16(Checksum(x), Checksum(y))
  {
    hide XorEach, Update;
    assert Xor16(0, 0) == 0;
    UpdateLinear(0, 0, x, y);
  }

  /** With `x` and its checksum turned into `y` and `w`, the mismatch goes unnoticed exactly for these differences. */
  lemma PassesExactly(x: bytes, y: bytes, w: u16)
    requires |x| == |y|
    ensures Checksum(y) == w <==> Checksum(XorEach(x, y)) == Xor16(Checksum(x), w)
  {
    hide XorEach, Checksum, Xor16;
    ChecksumLinear(x, y);
    if Xor16(Checksum(x), Checksum(y)) == Xor16(Checksum(x), w) {
      XorCancels(Checksum(x), Checksum(y), w);
    }
  }

  lemma BitsOfWord(data: bytes, w: u16)
    ensures Bits(data + Be16(w)) == Bits(data) + Bits(Be16(w))
    ensures Bits(Be16(w)) == OctetBits(w / 0x100) + OctetBits(w % 0x100)
  {
    hide OctetBits;
    var hi: byte, lo: byte := w / 0x100, w % 0x100;
    var all := data + Be16(w);
    assert all[..|all| - 1] == data + [hi] && (data + [hi])[..|data|] == data;
    assert Bits(all) == Bits(data) + OctetBits(hi) + OctetBits(lo);
    assert Be16(w)[..1] == [hi] && [hi][..0] == [];
    assert Bits(Be16(w)) == [] + OctetBits(hi) + OctetBits(lo);
  }

  lemma OctetParity(b: byte)
    ensures OddOnes(OctetBits(b)) == Odd(|PolyOf(b)|)
  {
    hide OctetBits, PolyOf, Pack;
    PackOctet(b);
    PackParity(OctetBits(b));
  }

  lemma HighOctetParity(high: u16)
    requires high % 0x100 == 0
    ensures Odd(|PolyOf(high)|) == Odd(|PolyOf(high / 0x100)|)
  {
    hide PolyOf, ShiftN, Odd, StepN;
    HighPartShiftsOut(high);
    ShiftNIsStepN(8, high);
    StepNParity(8, PolyOf(high));
  }

  lemma WordParity(w: u16)
    ensures OddOnes(Bits(Be16(w))) == Odd(|PolyOf(w)|)
  {
    hide Bits, OctetBits, PolyOf, Xor16, Odd, OddOnes;
    var hi: byte, lo: byte := w / 0x100, w % 0x100;
    var high: u16 := w - w % 0x100;
    BitsOfWord([], w);
    OddOnesAppend(OctetBits(hi), OctetBits(lo));
    OctetParity(hi);
    OctetParity(lo);
    HighOctetParity(high);
    assert high / 0x100 == hi;
    HighAndLow(w);
    PolyOfXor(high, lo);
    AddSize(PolyOf(high), PolyOf(lo));
  }

  /** A message followed by its checksum has an even number of ones. */
  lemma WholeIsEven(data: bytes)
    ensures !OddOnes(Bits(data + Be16(Checksum(data))))
  {
    hide Bits, Checksum, PolyOf;
    BitsOfWord(data, Checksum(data));
    OddOnesAppend(Bits(data), Bits(Be16(Checksum(data))));
    WordParity(Checksum(data));
    ChecksumParity(data);
  }

  /** An odd number of flips anywhere in a message and its checksum is detected. */
  lemma OddFlipsAnywhere(x: bytes, y: bytes, w: u16)
    requires |x| == |y| && OddOnes(Gf2.Xor(Bits(x + Be16(Checksum(x))), Bits(y + Be16(w))))
    ensures Checksum(y) != w
  {
    hide Bits, Checksum, OddOnes;
    OddOnesXor(Bits(x + Be16(Checksum(x))), Bits(y + Be16(w)));
    WholeIsEven(x);
    WholeIsEven(y);
  }

  /** So is a burst of at most 16 bits that stays within the message or within the checksum. */
  lemma BurstOnOneSide(x: bytes, y: bytes, w: u16, i: nat)
    requires |x| == |y| && (x, Checksum(x)) != (y, w)
    requires DifferOnlyInWindow(Bits(x + Be16(Checksum(x))), Bits(y + Be16(w)), i)
    requires i + 16 <= 8 * |x| || 8 * |x| <= i
    ensures Checksum(y) != w
  {
    hide Checksum, Be16;
    var n, c := 8 * |x|, Checksum(x);
    BitsOfWord(x, c);
    BitsOfWord(y, w);
    var a, b := Bits(x) + Bits(Be16(c)), Bits(y) + Bits(Be16(w));
    assert a[..n] == Bits(x) && a[n..] == Bits(Be16(c)) && b[..n] == Bits(y) && b[n..] == Bits(Be16(w));
    if 8 * |x| <= i {
      assert Bits(x) == Bits(y);
      BitsInjective(x, y);
    } else {
      assert a[n..] == b[n..];
      BitsInjective(Be16(c), Be16(w));
      SameOctets(c, w);
      assert x != y;
      assert DifferOnlyInWindow(Bits(x), Bits(y), i) by {
        forall k | 0 <= k < n && !(i <= k < i + 16)
          ensures Bits(x)[k] == Bits(y)[k]
        {
          assert a[k] == b[k];
        }
      }
      BurstDetected(x, y, i);
    }
  }

  lemma SameOctets(v: u16, w: u16)
    requires Be16(v) == Be16(w)
    ensures v == w
  {
  }

  lemma TwoChecksums()
    ensures Checksum([0, 0]) == 0 && Checksum([0, 0xC0]) == 0x5000
  {
    hide ShiftN, Xor16;
    ZeroShifts(8);
    assert [0, 0][..1] == [0] && [0, 0xC0][..1] == [0] && [0][..0] == [];
    assert Xor16(0, 0) == 0 && Xor16(0, 0xC0) == 0xC0 by { ZeroXor(0xC0); }
    assert Update(0, [0]) == 0;
    EightShifts();
  }

  lemma ShiftEven(n: nat, half: nat)
    requires n > 0 && 2 * half < 0x1_0000
    ensures ShiftN(n, 2 * half) == ShiftN(n - 1, half)
  {
    hide Xor16;
  }

  lemma EightShifts()
    ensures ShiftN(8, 0xC0) == 0x5000
  {
    hide Shift, ShiftN, Xor16, Xor;
    ShiftEven(8, 0x60);
    ShiftEven(7, 0x30);
    ShiftEven(6, 0x18);
    ShiftEven(5, 0xC);
    ShiftEven(4, 6);
    ShiftEven(3, 3);
    ShiftThree();
    ShiftEven(1, 0x5000);
    NoShift(0x5000);
  }

  lemma ShiftThree()
    ensures ShiftN(2, 3) == ShiftN(1, 0xA000)
  {
    hide Xor16;
    assert Xor16(1, 0xA001) == 0xA000 by { ZeroXor(0x5000); }
  }

  lemma NoShift(c: u16)
    ensures ShiftN(0, c) == c
  {
  }

  /** A burst across the border can cancel: the checksum's high octet comes first, against the order of the register. */
  lemma BurstAcrossTheBorder()
    ensures Checksum([0, 0]) == 0 && Checksum([0, 0xC0]) == 0x5000
    ensures DifferOnlyInWindow(Bits([0, 0] + Be16(0)), Bits([0, 0xC0] + Be16(0x5000)), 14)
  {
    hide Checksum, Bits, BitAt;
    TwoChecksums();
    var a, b := [0, 0] + Be16(0), [0, 0xC0] + Be16(0x5000);
    assert a == [0, 0, 0, 0] && b == [0, 0xC0, 0x50, 0];
    forall k | 0 <= k < 32 && !(14 <= k < 30)
      ensures Bits(a)[k] == Bits(b)[k]
    {
      BitAtOctet(a, k);
      BitAtOctet(b, k);
      if 8 <= k < 14 {
        assert 0xC0 == Pow2(6) * 3;
        LowBitsClear(3, 6, k - 8);
        BitOfZero(k - 8);
      }
    }
  }

  lemma {:induction false} ZeroShifts(n: nat)
    ensures ShiftN(n, 0) == 0
  {
    if n > 0 {
      ZeroShifts(n - 1);
    }
  }

  lemma {:induction false} ZeroXor(a: nat)
    ensures Xor(0, a) == a
  {
    if a > 0 {
      ZeroXor(a / 2);
    }
  }

  lemma BitAtOctet(data: bytes, k: nat)
    requires k < 8 * |data|
    ensures Bits(data)[k] == BitAt(data[k / 8], k % 8)
  {
    BitsAt(data, k / 8);
    assert Bits(data)[k] == Bits(data)[8 * (k / 8)..8 * (k / 8) + 8][k % 8];
  }
}
