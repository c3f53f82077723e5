/** Words that commute: the classical theorem behind unambiguous concatenation of identifiers. */
module Words {

  function Power<T>(w: seq<T>, n: nat): seq<T> {
    if n == 0 then [] else w + Power(w, n - 1)
  }

  lemma {:induction false} PowerAdd<T>(w: seq<T>, m: nat, n: nat)
    ensures Power(w, m) + Power(w, n) == Power(w, m + n)
  {
    if m == 0 {
      assert Power(w, 0) + Power(w, n) == Power(w, n);
    } else {
      PowerAdd(w, m - 1, n);
      assert (w + Power(w, m - 1)) + Power(w, n) == w + (Power(w, m - 1) + Power(w, n));
    }
  }

  lemma PowersCommute<T>(w: seq<T>, m: nat, n: nat)
    ensures Power(w, m) + Power(w, n) == Power(w, n) + Power(w, m)
  {
    PowerAdd(w, m, n);
    PowerAdd(w, n, m);
  }

  /** Two words commute only as powers of one word. */
  lemma {:induction false} CommutingArePowers<T>(s: seq<T>, t: seq<T>) returns (w: seq<T>, m: nat, n: nat)
    requires s + t == t + s
    ensures s == Power(w, m) && t == Power(w, n)
    decreases |s| + |t|
  {
    if s == [] {
      w, m, n := t, 0, 1;
      assert Power(t, 1) == t + [] == t;
    } else if t == [] {
      w, m, n := s, 1, 0;
      assert Power(s, 1) == s + [] == s;
    } else if |s| <= |t| {
      var u := CancelFront(s, t);
      var k;
      w, m, k := CommutingArePowers(s, u);
      n := m + k;
      PowerAdd(w, m, k);
    } else {
      var u := CancelFront(t, s);
      var k;
      w, n, k := CommutingArePowers(t, u);
      m := n + k;
      PowerAdd(w, n, k);
    }
  }

  lemma CancelFront<T>(s: seq<T>, t: seq<T>) returns (u: seq<T>)
    requires s + t == t + s && 0 < |s| <= |t|
    ensures t == s + u && s + u == u + s
  {
    u := t[|s|..];
    assert t[..|s|] == (t + s)[..|s|] == (s + t)[..|s|] == s;
    assert t == s + u;
    assert (s + t)[|s|..] == t;
    assert (t + s)[|s|..] == u + s;
  }

  lemma SameLengthCommute<T>(s: seq<T>, t: seq<T>)
    requires |s| == |t| && s + t == t + s
    ensures s == t
  {
    assert s == (s + t)[..|s|] == (t + s)[..|s|] == t;
  }
}
