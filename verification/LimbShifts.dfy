/**
 Shifting limbs: what each round of the loops in <<= and >>= does to the number.
 */
module LimbShifts {
  import opened Numbers
  import opened Limbs

  /** A limb shifted left by s bits: the part that stays and the part that goes over. */
  function Low(x: Limb, s: nat): Limb { (x * Pow(2, s)) % B }

  function High(x: Limb, s: nat): nat
    requires s <= 32
  {
    x / Pow(2, 32 - s)
  }

  lemma Parts(x: Limb, s: nat)
    requires s <= 32
    ensures x * Pow(2, s) == Low(x, s) + High(x, s) * B && High(x, s) < Pow(2, s)
    ensures Low(x, s) == (x % Pow(2, 32 - s)) * Pow(2, s)
  {
    hide Pow;
    var t, u := Pow(2, 32 - s), Pow(2, s);
    WordSplit(s);
    var h, l := x / t, x % t;
    assert x == h * t + l;
    Distribute(h * t, l, u);
    MulAssoc(h, t, u);
    MulMono(l + 1, t, u, u);
    Distribute(l, 1, u);
    DivUnique(x * u, B, h, l * u);
    if h >= u { MulMono(u, h, t, t); }
  }

  // ---------------------------------------------------------------- left

  /** The first i limbs of a have been shifted into p; `over` is what fell off the top. */
  predicate LeftAt(a: seq<Limb>, p: seq<Limb>, k: nat, s: nat, i: nat, over: nat) {
    && |p| == |a| && i <= |a| && s < 32
    && (forall m :: 0 <= m < |p| && m > i + k ==> p[m] == 0) && (i + k < |p| ==> p[i + k] < Pow(2, s))
    && Val(p) + over * Pow(B, |a|) == Val(a[..i]) * (Pow(2, s) * Pow(B, k))
  }

  lemma LeftStart(a: seq<Limb>, p: seq<Limb>, k: nat, s: nat)
    requires |p| == |a| && s < 32 && forall m :: 0 <= m < |p| ==> p[m] == 0
    ensures LeftAt(a, p, k, s, 0, 0)
  {
    ValZero(p);
  }

  /** What one limb contributes to the shifted number. */
  lemma LeftTerm(a: seq<Limb>, k: nat, s: nat, i: nat)
    requires i < |a| && s < 32
    ensures Val(a[..i + 1]) * (Pow(2, s) * Pow(B, k)) ==
            Val(a[..i]) * (Pow(2, s) * Pow(B, k)) + (Low(a[i], s) + High(a[i], s) * B) * Pow(B, i + k)
  {
    hide Pow, Val, Low, High;
    ValNext(a, i);
    Parts(a[i], s);
    Distribute(Val(a[..i]), a[i] * Pow(B, i), Pow(2, s) * Pow(B, k));
    Shuffle(a[i], Pow(B, i), Pow(2, s), Pow(B, k));
    PowAdd(B, i, k);
  }

  lemma LeftBeyond(a: seq<Limb>, p: seq<Limb>, k: nat, s: nat, i: nat, over: nat)
    requires LeftAt(a, p, k, s, i, over) && i < |a| && i + k >= |a|
    ensures LeftAt(a, p, k, s, i + 1, over + (Low(a[i], s) + High(a[i], s) * B) * Pow(B, i + k - |a|))
  {
    hide Pow, Val, Low, High;
    LeftTerm(a, k, s, i);
    var x, w := Low(a[i], s) + High(a[i], s) * B, Pow(B, i + k - |a|);
    PowAdd(B, i + k - |a|, |a|);
    MulAssoc(x, w, Pow(B, |a|));
    Distribute(over, x * w, Pow(B, |a|));
  }

  /** The low part is or-ed onto the high part of the limb before. */
  lemma OrLow(h: nat, x: Limb, s: nat)
    requires s < 32 && h < Pow(2, s)
    ensures Or(h, Low(x, s)) == h + Low(x, s) < B
  {
    hide Pow, Or;
    Parts(x, s);
    var l, t := x % Pow(2, 32 - s), Pow(2, 32 - s);
    WordSplit(s);
    OrDisjoint(l, h, s);
    OrCommutes(h, Low(x, s));
    MulMono(l + 1, t, Pow(2, s), Pow(2, s));
    Distribute(l, 1, Pow(2, s));
  }

  lemma LeftTop(a: seq<Limb>, p: seq<Limb>, k: nat, s: nat, i: nat, over: nat)
    requires LeftAt(a, p, k, s, i, over) && i < |a| && i + k == |a| - 1
    ensures Or(p[i + k], Low(a[i], s)) < B
    ensures LeftAt(a, p[i + k := Or(p[i + k], Low(a[i], s))], k, s, i + 1, over + High(a[i], s))
  {
    hide Pow, Val, Low, High, Or;
    LeftTerm(a, k, s, i);
    OrLow(p[i + k], a[i], s);
    ValUpdate(p, i + k, p[i + k] + Low(a[i], s));
    var w, lo, hi := Pow(B, i + k), Low(a[i], s), High(a[i], s);
    PowNext(B, i + k);
    MulAssoc(hi, B, w);
    Distribute(lo, hi * B, w);
    Distribute(over, hi, Pow(B, |a|));
  }

  lemma LeftMiddle(a: seq<Limb>, p: seq<Limb>, k: nat, s: nat, i: nat, over: nat)
    requires LeftAt(a, p, k, s, i, over) && i + k + 1 < |a|
    ensures Or(p[i + k], Low(a[i], s)) < B && Or(p[i + k + 1], High(a[i], s)) == High(a[i], s) < B
    ensures s == 0 ==> p[i + k + 1] == High(a[i], s)
    ensures LeftAt(a, p[i + k + 1 := High(a[i], s)][i + k := Or(p[i + k], Low(a[i], s))], k, s, i + 1, over)
  {
    hide Pow, Val, Low, High;
    LeftTerm(a, k, s, i);
    OrLow(p[i + k], a[i], s);
    Parts(a[i], s);
    WordSplit(s);
    MulMono(Pow(2, s), Pow(2, s), 1, Pow(2, 32 - s));
    var w, lo, hi := Pow(B, i + k), Low(a[i], s), High(a[i], s);
    ValUpdate(p, i + k + 1, hi);
    ValUpdate(p[i + k + 1 := hi], i + k, p[i + k] + lo);
    PowNext(B, i + k);
    MulAssoc(hi, B, w);
    Distribute(lo, hi * B, w);
    if s == 0 { TwoToZero(); }
  }

  // ---------------------------------------------------------------- right

  /** The first i limbs of a have been shifted down into p; `rem` is what fell off the bottom. */
  predicate RightAt(a: seq<Limb>, p: seq<Limb>, k: nat, s: nat, i: nat, rem: nat) {
    && |p| == |a| && i <= |a| && s < 32
    && (forall m :: 0 <= m < |p| && m >= i - k ==> p[m] == 0) && (i > k ==> p[i - k - 1] < Pow(2, 32 - s))
    && rem < Pow(2, s) * Pow(B, k) && Val(p) * (Pow(2, s) * Pow(B, k)) + rem == Val(a[..i])
  }

  lemma RightStart(a: seq<Limb>, p: seq<Limb>, k: nat, s: nat)
    requires |p| == |a| && s < 32 && forall m :: 0 <= m < |p| ==> p[m] == 0
    ensures RightAt(a, p, k, s, 0, 0)
  {
    ValZero(p);
    MulMono(1, Pow(2, s), 1, Pow(B, k));
  }

  lemma RightBelow(a: seq<Limb>, p: seq<Limb>, k: nat, s: nat, i: nat, rem: nat)
    requires RightAt(a, p, k, s, i, rem) && i < |a| && i < k
    ensures RightAt(a, p, k, s, i + 1, Val(a[..i + 1]))
  {
    hide Pow, Val;
    ValZero(p);
    ValBound(a[..i + 1]);
    PowMonotone(B, i + 1, k);
    MulMono(1, Pow(2, s), Pow(B, k), Pow(B, k));
  }

  lemma RightBottom(a: seq<Limb>, p: seq<Limb>, k: nat, s: nat, rem: nat)
    requires RightAt(a, p, k, s, k, rem) && k < |a|
    ensures Or(p[0], High(a[k], 32 - s)) == High(a[k], 32 - s) < B
    ensures RightAt(a, p[0 := High(a[k], 32 - s)], k, s, k + 1, rem + (a[k] % Pow(2, s)) * Pow(B, k))
  {
    hide Pow, Val;
    var u, w, x := Pow(2, s), Pow(B, k), a[k];
    var hi, lo := x / u, x % u;
    ValZero(p);
    ValNext(a, k);
    ValBound(a[..k]);
    HighFits(x, s);
    ValUpdate(p, 0, hi);
    PowZero(B);
    assert x == hi * u + lo;
    Distribute(hi * u, lo, w);
    MulAssoc(hi, u, w);
    MulMono(lo + 1, u, w, w);
    Distribute(lo, 1, w);
  }

  lemma HighFits(x: Limb, s: nat)
    requires s < 32
    ensures High(x, 32 - s) == x / Pow(2, s) < Pow(2, 32 - s) <= B
  {
    hide Pow, Low;
    Parts(x, 32 - s);
    WordSplit(s);
    MulMono(1, Pow(2, s), Pow(2, 32 - s), Pow(2, 32 - s));
  }

  /** The bits that come down are or-ed in front of the limb that was shifted before. */
  lemma OrDown(h: nat, x: Limb, s: nat)
    requires s < 32 && h < Pow(2, 32 - s)
    ensures Or(h, Low(x, 32 - s)) == h + Low(x, 32 - s) < B && (s == 0 ==> Low(x, 32 - s) == 0)
  {
    hide Pow, Or, Low;
    Parts(x, 32 - s);
    var l, t, u := x % Pow(2, s), Pow(2, 32 - s), Pow(2, s);
    WordSplit(s);
    OrDisjoint(l, h, 32 - s);
    OrCommutes(h, Low(x, 32 - s));
    MulMono(l + 1, u, t, t);
    Distribute(l, 1, t);
    if s == 0 { TwoToZero(); }
  }

  lemma TwoToZero()
    ensures Pow(2, 0) == 1
  {
  }

  lemma RightTerm(x: Limb, k: nat, s: nat, n: nat)
    requires s < 32
    ensures (Low(x, 32 - s) * Pow(B, n) + High(x, 32 - s) * Pow(B, n + 1)) * (Pow(2, s) * Pow(B, k)) ==
      x * Pow(B, n + 1 + k)
  {
    hide Pow, Low, High;
    var lo, hi, t, u, w := Low(x, 32 - s), High(x, 32 - s), Pow(2, 32 - s), Pow(2, s), Pow(B, n);
    Parts(x, 32 - s);
    WordSplit(s);
    PowNext(B, n);
    PowAdd(B, n + 1, k);
    calc {
      (lo * w + hi * (B * w)) * (u * Pow(B, k));
    == { MulAssoc(hi, B, w); Distribute(lo, hi * B, w); }
      ((x * t) * w) * (u * Pow(B, k));
    == { Shuffle(x * t, w, u, Pow(B, k)); }
      ((x * t) * u) * (w * Pow(B, k));
    == { MulAssoc(x, t, u); }
      (x * B) * (w * Pow(B, k));
    == { MulAssoc(x, B, w * Pow(B, k)); MulAssoc(B, w, Pow(B, k)); }
      x * (Pow(B, n + 1) * Pow(B, k));
    }
  }

  lemma RightMiddle(a: seq<Limb>, p: seq<Limb>, k: nat, s: nat, i: nat, rem: nat)
    requires RightAt(a, p, k, s, i, rem) && k < i < |a|
    ensures Or(p[i - k], High(a[i], 32 - s)) == High(a[i], 32 - s) < B
    ensures Or(p[i - k - 1], Low(a[i], 32 - s)) == p[i - k - 1] + Low(a[i], 32 - s) < B
    ensures s == 0 ==> Low(a[i], 32 - s) == 0
    ensures RightAt(a, p[i - k - 1 := p[i - k - 1] + Low(a[i], 32 - s)][i - k := High(a[i], 32 - s)], k, s, i + 1, rem)
  {
    hide Pow, Val, Low, High;
    var n := i - k - 1;
    var lo, hi, c := Low(a[i], 32 - s), High(a[i], 32 - s), Pow(2, s) * Pow(B, k);
    ValNext(a, i);
    HighFits(a[i], s);
    OrDown(p[n], a[i], s);
    RightTerm(a[i], k, s, n);
    ValUpdate(p, n, p[n] + lo);
    ValUpdate(p[n := p[n] + lo], n + 1, hi);
    Distribute(Val(p), lo * Pow(B, n) + hi * Pow(B, n + 1), c);
  }

  /** The number of bits of a shift, in limbs and bits. */
  lemma ShiftPower(shift: nat)
    ensures Pow(2, shift % 32) * Pow(B, shift / 32) == Pow(2, shift)
  {
    hide Pow;
    PowB(shift / 32);
    PowAdd(2, shift % 32, 32 * (shift / 32));
  }

  // ---------------------------------------------------------------- single bits

  lemma BitTop(x: nat, b: nat)
    requires x < Pow(2, b + 1)
    ensures (x / Pow(2, b)) % 2 == 1 <==> x >= Pow(2, b)
  {
    var p := Pow(2, b);
    if x >= p { DivUnique(x, p, 1, x - p); } else { DivUnique(x, p, 0, x); }
  }

  /** The highest bit of the highest limb is the highest bit of the number. */
  lemma HighestBit(q: seq<Limb>, pos: nat, b: nat)
    requires pos < |q| && b < 32 && Pow(2, b) <= q[pos] < Pow(2, b + 1) && forall m :: pos < m < |q| ==> q[m] == 0
    ensures Pow(2, 32 * pos + b) <= Val(q) < Pow(2, 32 * pos + b + 1)
  {
    hide Pow, Val;
    ValSplit(q, pos + 1);
    ValZero(q[pos + 1..]);
    ValNext(q, pos);
    ValBound(q[..pos]);
    var w, x := Pow(B, pos), q[pos];
    PowB(pos);
    PowAdd(2, b, 32 * pos);
    PowAdd(2, b + 1, 32 * pos);
    MulMono(Pow(2, b), x, w, w);
    MulMono(x as int + 1, Pow(2, b + 1), w, w);
    Distribute(x, 1, w);
  }

  lemma CompareAt(p: seq<Limb>, q: seq<Limb>, i: nat)
    requires i < |p| == |q| && p[i] < q[i] && forall m :: i < m < |p| ==> p[m] == q[m]
    ensures Val(p) < Val(q)
  {
    hide Pow, Val;
    assert p[i + 1..] == q[i + 1..];
    ValSplit(p, i + 1);
    ValSplit(q, i + 1);
    ValNext(p, i);
    ValNext(q, i);
    ValBound(p[..i]);
    MulMono(p[i] as int + 1, q[i], Pow(B, i), Pow(B, i));
    Distribute(p[i], 1, Pow(B, i));
  }

  /** A limb of a multiple of 2^(n+1) has no bit up to the one that belongs to 2^n. */
  lemma LimbOfMultiple(q: seq<Limb>, h: nat, w: nat, b: nat) returns (g: nat)
    requires w < |q| && b < 32 && Val(q) == h * Pow(2, 32 * w + b + 1)
    ensures q[w] == g * Pow(2, b + 1) && g < Pow(2, 31 - b)
  {
    hide Pow, Val;
    var u, v, top := Pow(2, b + 1), Pow(2, 31 - b), Val(q[w + 1..]);
    ValSplit(q, w + 1);
    ValNext(q, w);
    ValBound(q[..w]);
    PowB(w);
    PowAdd(2, b + 1, 32 * w);
    PowNext(B, w);
    MulAssoc(h, u, Pow(B, w));
    MulAssoc(top, B, Pow(B, w));
    Distribute(q[w], top * B, Pow(B, w));
    DivUnique(Val(q), Pow(B, w), h * u, 0);
    DivUnique(Val(q), Pow(B, w), q[w] + top * B, Val(q[..w]));
    WordSplit(b + 1);
    MulAssoc(top, v, u);
    var d := h - top * v;
    DistributeMinus(h, top * v, u);
    if d < 0 { MulLe(d, -1, u); }
    if d >= v { MulLe(v, d, u); }
    g := d;
  }

  lemma DistributeMinus(a: int, b: int, c: int)
    ensures (a - b) * c == a * c - b * c
  {
  }

  lemma OrBit(g: nat, b: nat)
    requires b < 32 && g < Pow(2, 31 - b)
    ensures Or(g * Pow(2, b + 1), Pow(2, b)) == g * Pow(2, b + 1) + Pow(2, b) < B
  {
    hide Pow, Or;
    TwoTo(b);
    OrDisjoint(g, Pow(2, b), b + 1);
    WordSplit(b + 1);
    MulMono(g + 1, Pow(2, 31 - b), Pow(2, b + 1), Pow(2, b + 1));
    Distribute(g, 1, Pow(2, b + 1));
  }

  lemma SetBit(q: seq<Limb>, h: nat, n: nat)
    requires n / 32 < |q| && Val(q) == h * Pow(2, n + 1)
    ensures var x := Or(q[n / 32], Pow(2, n % 32)); x < B && Val(q[n / 32 := x]) == Val(q) + Pow(2, n)
  {
    hide Pow, Val, Or;
    var w, b := n / 32, n % 32;
    var g := LimbOfMultiple(q, h, w, b);
    OrBit(g, b);
    ValUpdate(q, w, q[w] + Pow(2, b));
    ShiftPower(n);
  }

  lemma TwoTo(b: nat)
    ensures Pow(2, b + 1) == 2 * Pow(2, b)
  {
  }
}
