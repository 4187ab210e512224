/**
 Numbers as little-endian sequences of 32-bit limbs, and what writing, shifting and or-ing limbs does to them.
 */
module Limbs {
  import opened Numbers

  const B: nat := 0x1_0000_0000

  type Limb = x: nat | x < 0x1_0000_0000

  function Val(q: seq<Limb>): nat {
    if q == [] then 0 else q[0] + B * Val(q[1..])
  }

  /** One more limb on top. */
  lemma {:induction false} ValNext(q: seq<Limb>, i: nat)
    requires i < |q|
    ensures Val(q[..i + 1]) == Val(q[..i]) + q[i] * Pow(B, i)
  {
    if i > 0 {
      ValNext(q[1..], i - 1);
      assert q[..i + 1][1..] == q[1..][..i] && q[..i][1..] == q[1..][..i - 1];
      NextStep(Val(q[1..][..i - 1]), q[i], Pow(B, i - 1));
    }
  }

  lemma NextStep(v: nat, d: nat, p: nat)
    ensures B * (v + d * p) == B * v + d * (B * p)
  {
    Distribute(v, d * p, B);
    MulAssoc(B, d, p);
    MulAssoc(d, B, p);
  }

  lemma {:induction false} ValBound(q: seq<Limb>)
    ensures Val(q) < Pow(B, |q|)
  {
    if q != [] {
      ValBound(q[1..]);
      MulMono(B, B, Val(q[1..]) + 1, Pow(B, |q| - 1));
    }
  }

  lemma {:induction false} ValSplit(q: seq<Limb>, k: nat)
    requires k <= |q|
    ensures Val(q) == Val(q[..k]) + Val(q[k..]) * Pow(B, k)
  {
    if k == 0 {
      assert q[0..] == q;
    } else {
      ValSplit(q[1..], k - 1);
      assert q[..k][1..] == q[1..][..k - 1] && q[1..][k - 1..] == q[k..];
      var low, high, p := Val(q[1..][..k - 1]), Val(q[k..]), Pow(B, k - 1);
      assert Val(q) == q[0] + B * (low + high * p);
      NextStep(low, high, p);
    }
  }

  lemma {:induction false} ValUpdate(q: seq<Limb>, i: nat, x: Limb)
    requires i < |q|
    ensures Val(q[i := x]) == Val(q) + (x - q[i]) * Pow(B, i)
  {
    if i > 0 {
      ValUpdate(q[1..], i - 1, x);
      assert q[i := x][1..] == q[1..][i - 1 := x];
      MulAssoc(B, x - q[i], Pow(B, i - 1));
      MulAssoc(x - q[i], B, Pow(B, i - 1));
    } else {
      assert q[0 := x][1..] == q[1..];
    }
  }

  lemma {:induction false} ValZero(q: seq<Limb>)
    requires forall i :: 0 <= i < |q| ==> q[i] == 0
    ensures Val(q) == 0
  {
    if q != [] { ValZero(q[1..]); }
  }

  // ---------------------------------------------------------------- powers of two

  lemma PowB(i: nat)
    ensures Pow(B, i) == Pow(2, 32 * i)
  {
    if i > 0 {
      PowB(i - 1);
      TwoTo32();
      PowAdd(2, 32, 32 * (i - 1));
    }
  }

  lemma TwoTo32()
    ensures Pow(2, 32) == B
  {
    assert Pow(2, 8) == 256;
    PowAdd(2, 8, 8);
    PowAdd(2, 16, 16);
  }

  /** 2^s divides the word size into two parts. */
  lemma WordSplit(s: nat)
    requires s <= 32
    ensures Pow(2, s) * Pow(2, 32 - s) == B && Pow(2, s) > 0 && Pow(2, 32 - s) > 0
  {
    TwoTo32();
    PowAdd(2, s, 32 - s);
  }

  // ---------------------------------------------------------------- bitwise or

  function Or(x: nat, y: nat): nat {
    if x == 0 then y else if y == 0 then x
    else 2 * Or(x / 2, y / 2) + if x % 2 == 1 || y % 2 == 1 then 1 else 0
  }

  /** Bit fields that do not overlap are added. */
  lemma {:induction false} OrDisjoint(h: nat, y: nat, s: nat)
    requires y < Pow(2, s)
    ensures Or(h * Pow(2, s), y) == h * Pow(2, s) + y
  {
    var x := h * Pow(2, s);
    if s > 0 && x > 0 && y > 0 {
      MulAssoc(h, 2, Pow(2, s - 1));
      assert x == 2 * (h * Pow(2, s - 1));
      assert x / 2 == h * Pow(2, s - 1) && x % 2 == 0;
      OrDisjoint(h, y / 2, s - 1);
    }
  }

  lemma {:induction false} OrCommutes(x: nat, y: nat)
    ensures Or(x, y) == Or(y, x)
  {
    if x != 0 && y != 0 { OrCommutes(x / 2, y / 2); }
  }

  // ---------------------------------------------------------------- carrying

  /** The limbs below `i` have been rewritten; together with the carry they amount to `total`. */
  predicate Carried(q: seq<Limb>, p: seq<Limb>, i: nat, carry: nat, total: nat) {
    |p| == |q| && i <= |q| && p[i..] == q[i..] && Val(p[..i]) + carry * Pow(B, i) == total
  }

  lemma CarryStep(q: seq<Limb>, p: seq<Limb>, i: nat, carry: nat, total: nat, t: nat)
    requires Carried(q, p, i, carry, total) && i < |q|
    ensures Carried(q, p[i := (carry + t) % B], i + 1, (carry + t) / B, total + t * Pow(B, i))
  {
    var n, p' := carry + t, p[i := (carry + t) % B];
    ValNext(p', i);
    assert p'[..i] == p[..i];
    assert p'[i + 1..] == p[i..][1..] && q[i + 1..] == q[i..][1..];
    CarryArith(Val(p[..i]), carry, t, Pow(B, i));
  }

  lemma CarryArith(low: nat, carry: nat, t: nat, p: nat)
    ensures low + ((carry + t) % B) * p + ((carry + t) / B) * (B * p) == low + carry * p + t * p
  {
    var n := carry + t;
    MulAssoc(n / B, B, p);
    assert n == (n / B) * B + n % B;
  }

  /** A carry out of the top is what the limbs cannot hold. */
  lemma CarriedOut(q: seq<Limb>, p: seq<Limb>, carry: nat, total: nat)
    requires Carried(q, p, |q|, carry, total)
    ensures Val(p) + carry * Pow(B, |q|) == total && Val(p) < Pow(B, |q|)
  {
    assert p[..|q|] == p;
    ValBound(p);
  }
}
