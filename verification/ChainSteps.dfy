/**
 How far the skip list shortens the way back.  A walk clears one bit of the difference to the target after the other,
 and each costs at most a few steps more than there are bits below it, so the number of steps is quadratic in the
 number of bits of the height.
 */
module ChainSteps {
  import opened Numbers
  import opened Chain

  // ---------------------------------------------------------------- bits

  function Ones(n: nat): nat { if n == 0 then 0 else Ones(n / 2) + n % 2 }

  lemma {:induction false} AndSame(n: nat)
    ensures And(n, n) == n
  {
    if n > 0 { AndSame(n / 2); }
  }

  /** Clearing the lowest one, bit by bit. */
  lemma InvertBits(n: nat)
    ensures InvertLowestOne(2 * n) == 2 * InvertLowestOne(n)
    ensures InvertLowestOne(2 * n + 1) == 2 * n
  {
    if n > 0 {
      assert (2 * n - 1) / 2 == n - 1 && (2 * n - 1) % 2 == 1;
    }
    AndSame(n);
    assert (2 * n + 1) / 2 == n && (2 * n) / 2 == n;
  }

  lemma {:induction false} InvertOnes(n: nat)
    requires n > 0
    ensures Ones(InvertLowestOne(n)) == Ones(n) - 1 && (n % 2 == 0 ==> InvertLowestOne(n) % 2 == 0)
  {
    InvertBits(n / 2);
    if n % 2 == 0 {
      assert n == 2 * (n / 2);
      InvertOnes(n / 2);
    } else {
      assert n == 2 * (n / 2) + 1;
    }
  }

  lemma {:induction false} OnesBound(n: nat, k: nat)
    requires n < Pow(2, k)
    ensures Ones(n) <= k && (n % 2 == 0 && k > 0 ==> Ones(n) <= k - 1)
  {
    if n > 0 && k > 0 { OnesBound(n / 2, k - 1); }
  }

  lemma {:induction false} OnesPositive(n: nat)
    ensures Ones(n) == 0 <==> n == 0
  {
    if n > 0 { OnesPositive(n / 2); }
  }

  /** Bits below the lowest one of `q * 2^k` are cleared first. */
  lemma {:induction false} InvertLow(q: nat, k: nat, x: nat)
    requires 0 < x < Pow(2, k)
    ensures InvertLowestOne(q * Pow(2, k) + x) == q * Pow(2, k) + InvertLowestOne(x)
  {
    hide InvertLowestOne;
    if k > 0 {
      var p := Pow(2, k - 1);
      MulAssoc(q, 2, p);
      assert q * Pow(2, k) == 2 * (q * p);
      var n := q * p + x / 2;
      InvertBits(n);
      InvertBits(x / 2);
      if x % 2 == 0 {
        assert q * Pow(2, k) + x == 2 * n && x == 2 * (x / 2);
        InvertLow(q, k - 1, x / 2);
      } else {
        assert q * Pow(2, k) + x == 2 * n + 1 && x == 2 * (x / 2) + 1;
      }
    }
  }

  lemma {:induction false} InvertHigh(q: nat, k: nat)
    ensures InvertLowestOne((2 * q + 1) * Pow(2, k)) == 2 * q * Pow(2, k)
  {
    hide InvertLowestOne;
    if k == 0 {
      InvertBits(q);
    } else {
      var p := Pow(2, k - 1);
      MulAssoc(2 * q + 1, 2, p);
      MulAssoc(2 * q, 2, p);
      InvertBits((2 * q + 1) * p);
      InvertHigh(q, k - 1);
    }
  }

  // ---------------------------------------------------------------- one round

  lemma OddNext(w: nat, t: nat)
    requires t < w && w % 2 == 1 && w >= 3
    ensures var s := InvertLowestOne(InvertLowestOne(w - 1)) + 1;
            GetSkipHeight(w) == s && NextHeight(w, t) == if s >= t then s else w - 1
  {
  }

  lemma EvenNext(w: nat, t: nat)
    requires t < w && w % 2 == 0 && InvertLowestOne(w) > t
    ensures var s, p := InvertLowestOne(w), GetSkipHeight(w - 1);
            NextHeight(w, t) == if p < s - 2 && p >= t then w - 1 else s
  {
  }

  /** The steps for a difference in k bits. */
  function Bound(k: nat): nat { if k == 0 then 0 else Bound(k - 1) + k + 2 }

  lemma {:induction false} BoundIs(k: nat)
    ensures 2 * Bound(k) == k * (k + 5)
  {
    if k > 0 {
      BoundIs(k - 1);
      Distribute(k - 1, 1, k + 4);
    }
  }

  /** The steps to get rid of the low bits x. */
  function Weight(x: nat): nat {
    if x == 0 then 0
    else if x % 2 == 1 then Ones(x) + 1
    else if Ones(x) == 1 then 2
    else Ones(x) + 3
  }

  lemma WeightBound(x: nat, k: nat)
    requires x < Pow(2, k)
    ensures Weight(x) + 1 <= k + 3
  {
    OnesBound(x, k);
    if x > 0 { OnesPositive(x); }
  }

  // ---------------------------------------------------------------- one bit after the other

  /** The numbers with a one at bit k above the prefix q begin here. */
  function Mid(q: nat, k: nat): nat { (2 * q + 1) * Pow(2, k) }

  function Low(q: nat, k: nat): nat { 2 * q * Pow(2, k) }

  lemma MidLow(q: nat, k: nat)
    ensures Mid(q, k) == Low(q, k) + Pow(2, k) && (k > 0 ==> Mid(q, k) % 2 == 0 && Pow(2, k) >= 2)
  {
    Distribute(2 * q, 1, Pow(2, k));
    if k > 0 { MidEven(2 * q + 1, Pow(2, k - 1), Mid(q, k)); }
  }

  lemma MidEven(a: nat, p: nat, n: nat)
    requires n == a * (2 * p)
    ensures n % 2 == 0
  {
    MulAssoc(a, p, 2);
    DivUnique(n, 2, a * p, 0);
  }

  lemma InvertMid(q: nat, k: nat, x: nat)
    requires x < Pow(2, k)
    ensures InvertLowestOne(Mid(q, k) + x) == if x == 0 then Low(q, k) else Mid(q, k) + InvertLowestOne(x)
  {
    hide InvertLowestOne;
    if x == 0 { InvertHigh(q, k); } else { InvertLow(2 * q + 1, k, x); }
  }

  /** An odd height with at least two more ones in the low bits skips within them. */
  lemma OddWithin(q: nat, k: nat, x: nat, t: nat)
    requires 0 < x < Pow(2, k) && x % 2 == 1 && InvertLowestOne(x - 1) > 0 && t < Mid(q, k)
    ensures var x' := InvertLowestOne(InvertLowestOne(x - 1)) + 1;
            x' < x && x' % 2 == 1 && Ones(x') == Ones(x) - 2 && NextHeight(Mid(q, k) + x, t) == Mid(q, k) + x'
  {
    hide InvertLowestOne, NextHeight, Mid, Low, Pow, Ones;
    MidLow(q, k);
    HasBits(x, k);
    var y := x - 1;
    var z := InvertLowestOne(y);
    InvertOnes(y);
    InvertOnes(z);
    InvertMid(q, k, y);
    InvertMid(q, k, z);
    OddNext(Mid(q, k) + x, t);
    OnesOdd(InvertLowestOne(z));
    OnesOdd(y);
  }

  lemma OnesOdd(y: nat)
    requires y % 2 == 0
    ensures Ones(y + 1) == Ones(y) + 1
  {
    assert (y + 1) / 2 == y / 2;
  }

  /** An odd height with fewer ones skips below the bit, or takes one step. */
  lemma OddBelow(q: nat, k: nat, x: nat, t: nat)
    requires 0 < x < Pow(2, k) && x % 2 == 1 && (x == 1 || InvertLowestOne(x - 1) == 0) && t < Mid(q, k)
    ensures NextHeight(Mid(q, k) + x, t) < Mid(q, k) || NextHeight(Mid(q, k) + x, t) == Mid(q, k) + x - 1
  {
    hide InvertLowestOne, NextHeight, Mid, Low, Pow;
    MidLow(q, k);
    HasBits(x, k);
    InvertMid(q, k, 0);
    InvertMid(q, k, x - 1);
    InvertLess(Low(q, k));
    OddNext(Mid(q, k) + x, t);
  }

  lemma HasBits(x: nat, k: nat)
    requires 0 < x < Pow(2, k)
    ensures k > 0
  {
  }

  lemma InvertLess(n: nat)
    ensures InvertLowestOne(n) <= n
  {
  }

  /** Three zeros at the end: the step before an even height would not skip further. */
  lemma InvertEight(z: nat)
    requires z > 0
    ensures InvertLowestOne(8 * z) <= 8 * (z - 1)
    ensures InvertLowestOne(8 * z - 2) == 8 * (z - 1) + 4 && InvertLowestOne(8 * (z - 1) + 4) == 8 * (z - 1)
  {
    hide InvertLowestOne;
    InvertBits(4 * z);
    InvertBits(2 * z);
    InvertBits(z);
    InvertPositive(z);
    assert 8 * z - 2 == 2 * (2 * (2 * (z - 1) + 1) + 1);
    InvertBits(2 * (2 * (z - 1) + 1) + 1);
    InvertBits(2 * (z - 1) + 1);
    InvertBits(2 * (2 * (z - 1) + 1));
    InvertBits(z - 1);
  }

  lemma InvertPositive(n: nat)
    requires n > 0
    ensures InvertLowestOne(n) <= n - 1
  {
  }

  /** Fewer than three zeros at the end: one less has at most one more one. */
  lemma OnesBefore(x: nat)
    requires x % 2 == 0 && x % 8 != 0
    ensures Ones(x - 1) <= Ones(x) + 1
  {
    hide Ones;
    var z := x / 8;
    Ones8(z, x % 8);
    Ones8(z, x % 8 - 1);
  }

  lemma Ones8(z: nat, r: nat)
    requires r < 8
    ensures Ones(8 * z + r) == Ones(z) + r % 2 + r / 2 % 2 + r / 4
  {
    hide Ones;
    assert 8 * z + r == 2 * (4 * z + r / 2) + r % 2;
    OnesBit(4 * z + r / 2, r % 2);
    assert 4 * z + r / 2 == 2 * (2 * z + r / 4) + r / 2 % 2;
    OnesBit(2 * z + r / 4, r / 2 % 2);
    OnesBit(z, r / 4);
  }

  lemma OnesBit(n: nat, b: nat)
    requires b < 2
    ensures Ones(2 * n + b) == Ones(n) + b
  {
    assert (2 * n + b) / 2 == n && (2 * n + b) % 2 == b;
  }

  /** An even height clears its lowest one, or steps back to skip further. */
  lemma EvenRound(q: nat, k: nat, x: nat, t: nat)
    requires 0 < x < Pow(2, k) && x % 2 == 0 && t < Mid(q, k)
    ensures var w := Mid(q, k) + x; var p := GetSkipHeight(w - 1);
            || NextHeight(w, t) == Mid(q, k) + InvertLowestOne(x)
            || (NextHeight(w, t) == w - 1 && t <= p < Mid(q, k) + InvertLowestOne(x) && Ones(x - 1) <= Ones(x) + 1)
  {
    hide InvertLowestOne, NextHeight, Mid, Low, Pow, Ones;
    MidLow(q, k);
    HasBits(x, k);
    var w := Mid(q, k) + x;
    InvertMid(q, k, x);
    EvenNext(w, t);
    if x % 8 == 0 {
      var z := x / 8;
      InvertEight(z);
      InvertMid(q, k, x - 2);
      InvertMid(q, k, 8 * (z - 1) + 4);
      OddNext(w - 1, t);
    } else {
      OnesBefore(x);
    }
  }

  lemma OneStep(w: nat, t: nat)
    requires t < w
    ensures Steps(w, t) == 1 + Steps(NextHeight(w, t), t)
  {
  }

  /** From a height whose bit k differs from the target's, the low bits go first. */
  lemma {:induction false} Round(q: nat, k: nat, x: nat, t: nat)
    requires x < Pow(2, k) && Low(q, k) <= t < Mid(q, k)
    ensures Steps(Mid(q, k) + x, t) <= Weight(x) + 1 + Bound(k)
    decreases k, 1, x
  {
    hide InvertLowestOne, NextHeight, Mid, Low, Pow, Ones, Bound, Steps, GetSkipHeight;
    var m := Mid(q, k);
    var w := m + x;
    OneStep(w, t);
    var r := NextHeight(w, t);
    if r < m {
      SameHalf(q, k, r, t);
    } else if x % 2 == 1 {
      if x > 1 && InvertLowestOne(x - 1) > 0 {
        OddWithin(q, k, x, t);
        Round(q, k, r - m, t);
      } else {
        OddBelow(q, k, x, t);
        FewOnes(x);
        Round(q, k, x - 1, t);
      }
    } else {
      EvenRound(q, k, x, t);
      InvertOnes(x);
      if r == m + InvertLowestOne(x) {
        OnesPositive(r - m);
        Round(q, k, r - m, t);
      } else if Ones(x) == 1 {
        TwoSteps(q, k, x, t);
        SameHalf(q, k, GetSkipHeight(w - 1), t);
      } else {
        OnesPositive(x);
        Round(q, k, x - 1, t);
      }
    }
  }

  lemma FewOnes(x: nat)
    requires x % 2 == 1 && (x == 1 || InvertLowestOne(x - 1) == 0)
    ensures Weight(x - 1) + 1 <= Weight(x)
  {
    hide InvertLowestOne;
    OnesOdd(x - 1);
    if x > 1 { InvertOnes(x - 1); }
    OnesPositive(0);
  }

  /** A single one in the low bits: back by one, and then below the bit. */
  lemma TwoSteps(q: nat, k: nat, x: nat, t: nat)
    requires 0 < x < Pow(2, k) && x % 2 == 0 && Ones(x) == 1 && t < Mid(q, k)
    requires NextHeight(Mid(q, k) + x, t) == Mid(q, k) + x - 1
    requires t <= GetSkipHeight(Mid(q, k) + x - 1) < Mid(q, k) + InvertLowestOne(x)
    ensures t <= GetSkipHeight(Mid(q, k) + x - 1) < Mid(q, k)
    ensures Steps(Mid(q, k) + x, t) == 2 + Steps(GetSkipHeight(Mid(q, k) + x - 1), t)
  {
    hide InvertLowestOne, NextHeight, Mid, Low, Pow, Ones, Steps;
    MidLow(q, k);
    HasBits(x, k);
    InvertOnes(x);
    OnesPositive(InvertLowestOne(x));
    var w := Mid(q, k) + x;
    OneStep(w, t);
    OneStep(w - 1, t);
    OddNext(w - 1, t);
  }

  /** Below the bit the target is one bit closer. */
  lemma SameHalf(q: nat, k: nat, r: nat, t: nat)
    requires Low(q, k) <= t <= r < Mid(q, k)
    ensures Steps(r, t) <= Bound(k)
    decreases k, 0, 1
  {
    hide Steps, Bound;
    MidLow(q, k);
    DivUnique(r, Pow(2, k), 2 * q, r - Low(q, k));
    DivUnique(t, Pow(2, k), 2 * q, t - Low(q, k));
    Level(r, t, k);
  }

  /** Heights that agree but for their k lowest bits are Bound(k) steps apart at most. */
  lemma {:induction false} Level(w: nat, t: nat, k: nat)
    requires t <= w && w / Pow(2, k) == t / Pow(2, k)
    ensures Steps(w, t) <= Bound(k)
    decreases k, 0, 0
  {
    hide Steps, Bound, Pow, Weight;
    Unfold(w, t, k);
    if k > 0 {
      if w / Pow(2, k - 1) == t / Pow(2, k - 1) {
        Level(w, t, k - 1);
      } else {
        var q, x := Apart(w, t, k - 1);
        WeightBound(x, k - 1);
        Round(q, k - 1, x, t);
      }
    }
  }

  lemma Unfold(w: nat, t: nat, k: nat)
    requires t <= w && w / Pow(2, k) == t / Pow(2, k)
    ensures if k == 0 then Steps(w, t) == 0 else Bound(k) == Bound(k - 1) + k + 2 && Pow(2, k) == 2 * Pow(2, k - 1)
  {
  }

  /** Two heights that differ in bit k and agree above it. */
  lemma Apart(w: nat, t: nat, k: nat) returns (q: nat, x: nat)
    requires t <= w && w / (2 * Pow(2, k)) == t / (2 * Pow(2, k)) && w / Pow(2, k) != t / Pow(2, k)
    ensures x < Pow(2, k) && w == Mid(q, k) + x && Low(q, k) <= t < Mid(q, k)
  {
    hide Pow;
    var p := Pow(2, k);
    Halves(w, t, p);
    q, x := t / p / 2, w % p;
    MidLow(q, k);
  }

  lemma Halves(w: nat, t: nat, p: nat)
    requires p > 0 && t <= w && w / (2 * p) == t / (2 * p)
    ensures w / p == t / p || (w / p == 2 * (t / p / 2) + 1 && t / p == 2 * (t / p / 2))
    ensures w == (w / p) * p + w % p && t == (t / p) * p + t % p
  {
    DivHalf(w, p);
    DivHalf(t, p);
    if w / p < t / p { MulLe(w / p + 1, t / p, p); }
  }

  lemma DivHalf(n: nat, p: nat)
    requires p > 0
    ensures n / p / 2 == n / (2 * p)
  {
    var a, b := n / p, n % p;
    var c, d := a / 2, a % 2;
    assert n == a * p + b && a == 2 * c + d;
    MulAssoc(c, 2, p);
    Distribute(c * 2, d, p);
    DivUnique(n, 2 * p, c, d * p + b) by { if d == 1 { assert d * p == p; } else { assert d * p == 0; } }
  }

  /** From a height below 2^k every ancestor is at most k * (k + 5) / 2 steps away. */
  lemma WalkIsShort(w: nat, t: nat, k: nat)
    requires t <= w < Pow(2, k)
    ensures 2 * Steps(w, t) <= k * (k + 5)
  {
    DivUnique(w, Pow(2, k), 0, w);
    DivUnique(t, Pow(2, k), 0, t);
    Level(w, t, k);
    BoundIs(k);
  }
}
