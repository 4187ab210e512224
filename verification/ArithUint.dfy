/**
 Unsigned big integers of a fixed number of 32-bit limbs, with the operators working on the limbs in place: each one is
 exact modulo 2^BITS.
 */
module ArithUint {
  import opened Numbers
  import opened Limbs
  import opened LimbShifts

  const MAX64: nat := 0xFFFF_FFFF_FFFF_FFFF

  /** A sum that may have gone round once. */
  function Wrapped(n: int, modulus: nat): int { if n < modulus then n else n - modulus }

  class BaseUint {
    const pn: array<Limb>

    ghost function N(): nat
      reads pn
    {
      Val(pn[..])
    }

    /** 2^BITS */
    ghost function Modulus(): nat { Pow(B, pn.Length) }

    constructor Zero(width: nat)
      ensures fresh(pn) && pn.Length == width && N() == 0
    {
      pn := new Limb[width](i => 0);
      new;
      ValZero(pn[..]);
    }

    constructor Copy(b: BaseUint)
      ensures fresh(pn) && pn.Length == b.pn.Length && pn[..] == b.pn[..]
    {
      pn := new Limb[b.pn.Length](i requires 0 <= i < b.pn.Length reads b.pn => b.pn[i]);
    }

    constructor FromWord(width: nat, w: nat)
      requires width >= 2 && w <= MAX64
      ensures fresh(pn) && pn.Length == width && N() == w
    {
      pn := new Limb[width](i => 0);
      new;
      pn[0] := w % B;
      pn[1] := w / B;
      WordValue(pn[..], w);
    }

    method AddAssign(b: BaseUint)
      requires b.pn.Length == pn.Length
      modifies pn
      ensures N() == Wrapped(old(N()) + old(b.N()), Modulus())
    {
      hide Carried, Val, Pow;
      ghost var q, r := pn[..], b.pn[..];
      var carry: nat := 0;
      CarryStart(q);
      SumStart(q, r);
      for i := 0 to pn.Length
        invariant carry <= 1 && Carried(q, pn[..], i, carry, Val(q[..i]) + Val(r[..i]))
        invariant forall j :: i <= j < pn.Length ==> pn[j] == q[j] && b.pn[j] == r[j]
      {
        ghost var p := pn[..];
        CarryStep(q, p, i, carry, Val(q[..i]) + Val(r[..i]), q[i] as int + r[i]);
        SumNext(q, r, i);
        var n := carry + pn[i] + b.pn[i];
        pn[i] := n % B;
        carry := n / B;
        assert pn[..] == p[i := pn[i]];
      }
      assert q[..pn.Length] == q && r[..pn.Length] == r;
      CarriedOut(q, pn[..], carry, Val(q) + Val(r));
    }

    method Complement() returns (ret: BaseUint)
      ensures fresh(ret) && fresh(ret.pn) && ret.pn.Length == pn.Length && ret.N() == Modulus() - 1 - N()
    {
      ret := new BaseUint.Zero(pn.Length);
      for i := 0 to pn.Length
        invariant forall j :: 0 <= j < i ==> ret.pn[j] == B - 1 - pn[j]
      {
        ret.pn[i] := B - 1 - pn[i];
      }
      ComplementValue(pn[..], ret.pn[..]);
    }

    method Increment()
      requires pn.Length > 0
      modifies pn
      ensures N() == Wrapped(old(N()) + 1, Modulus())
    {
      hide Carried, Val, Pow;
      ghost var q := pn[..];
      IncrementStart(q);
      CarryStep(q, q, 0, 1, 1, q[0]);
      IncrementNext(q, 0);
      var i := 0;
      pn[0] := (pn[0] as int + 1) % B;
      assert pn[..] == q[0 := pn[0]];
      while pn[i] == 0 && i < pn.Length - 1
        invariant 0 <= i < pn.Length && pn[i] == (q[i] as int + 1) % B
        invariant forall j :: i < j < pn.Length ==> pn[j] == q[j]
        invariant Carried(q, pn[..], i + 1, if pn[i] == 0 then 1 else 0, Val(q[..i + 1]) + 1)
      {
        ghost var p := pn[..];
        i := i + 1;
        CarryStep(q, p, i, 1, Val(q[..i]) + 1, q[i]);
        IncrementNext(q, i);
        pn[i] := (pn[i] as int + 1) % B;
        assert pn[..] == p[i := pn[i]];
      }
      if pn[i] == 0 {
        assert q[..pn.Length] == q;
        CarriedOut(q, pn[..], 1, Val(q) + 1);
      } else {
        CarryEnds(q, pn[..], i + 1, Val(q[..i + 1]) + 1);
      }
    }

    method Negate() returns (ret: BaseUint)
      requires pn.Length > 0
      ensures fresh(ret) && fresh(ret.pn) && ret.pn.Length == pn.Length &&
        ret.N() == Wrapped(Modulus() - N(), Modulus())
    {
      ret := Complement();
      ret.Increment();
    }

    method SubAssign(b: BaseUint)
      requires b.pn.Length == pn.Length > 0
      modifies pn
      ensures N() == if old(N()) >= old(b.N()) then old(N()) - old(b.N()) else old(N()) - old(b.N()) + Modulus()
    {
      hide Val, Pow;
      var minus := b.Negate();
      ValBound(pn[..]);
      ValBound(b.pn[..]);
      AddAssign(minus);
    }

    method MulWord(w: Limb)
      modifies pn
      ensures N() == (w * old(N())) % Modulus()
    {
      hide Carried, Val, Pow;
      ghost var q := pn[..];
      var carry: nat := 0;
      CarryStart(q);
      EmptyValue(q);
      assert w * Val(q[..0]) == 0;
      for i := 0 to pn.Length
        invariant carry < B && Carried(q, pn[..], i, carry, w * Val(q[..i]))
        invariant forall j :: i <= j < pn.Length ==> pn[j] == q[j]
      {
        ghost var p := pn[..];
        CarryStep(q, p, i, carry, w * Val(q[..i]), w * q[i]);
        ProductNext(q, w, i);
        ProductFits(w, q[i], carry, 0);
        var n := carry + w * pn[i];
        assert n <= MAX64;
        pn[i] := n % B;
        carry := n / B;
        assert pn[..] == p[i := pn[i]];
      }
      assert q[..pn.Length] == q;
      CarriedOut(q, pn[..], carry, w * Val(q));
      DivUnique(w * Val(q), Modulus(), carry, N());
    }

    /** One row of the schoolbook multiplication: adds w * b, shifted by j limbs; `over` is what falls off the top. */
    method AddRow(w: Limb, j: nat, b: BaseUint) returns (ghost over: nat)
      requires b.pn.Length == pn.Length && j < pn.Length
      requires b.pn == pn ==> forall m :: 0 <= m < pn.Length ==> pn[m] == 0
      modifies pn
      ensures b.pn == pn ==> forall m :: 0 <= m < pn.Length ==> pn[m] == 0
      ensures b.pn[..] == old(b.pn[..])
      ensures N() + over * Modulus() == old(N()) + (w * Pow(B, j)) * b.N()
    {
      hide RowAt, Val, Pow;
      ghost var q, r := pn[..], b.pn[..];
      var carry: nat, i: nat := 0, 0;
      RowStart(q, r, w, j);
      while i + j < pn.Length
        invariant i + j <= pn.Length && RowAt(q, pn[..], r, w, j, i, carry)
        invariant b.pn[..] == r && (b.pn == pn ==> carry == 0 && forall m :: 0 <= m < pn.Length ==> pn[m] == 0)
      {
        ghost var p := pn[..];
        assert b.pn[i] == r[i];
        RowStep(q, p, r, w, j, i, carry);
        var n := carry + pn[i + j] + w * b.pn[i];
        assert n <= MAX64;
        pn[i + j] := n % B;
        carry := n / B;
        assert pn[..] == p[i + j := pn[i + j]];
        i := i + 1;
      }
      over := carry + w * Val(r[i..]);
      RowDone(q, pn[..], r, w, j, i, carry);
    }

    /** The product, unless the factor is this very number: its limbs are cleared before they are read. */
    method MulAssign(b: BaseUint)
      requires b.pn.Length == pn.Length
      modifies pn
      ensures N() == if b.pn == pn then 0 else (old(N()) * old(b.N())) % Modulus()
    {
      hide Val, Pow;
      var a := new BaseUint.Copy(this);
      ghost var q := a.pn[..];
      assert pn[..] == q;
      Clear();
      ghost var r := b.pn[..];
      ghost var over: nat := 0;
      EmptyValue(q);
      for j := 0 to pn.Length
        invariant a.pn[..] == q && b.pn[..] == r
        invariant b.pn == pn ==> forall m :: 0 <= m < pn.Length ==> pn[m] == 0
        invariant N() + over * Modulus() == Val(q[..j]) * Val(r)
      {
        ghost var more := AddRow(a.pn[j], j, b);
        MulNext(q, j, Val(r));
        over := over + more;
      }
      assert q[..pn.Length] == q;
      ValBound(pn[..]);
      DivUnique(Val(q) * Val(r), Modulus(), over, N());
      if b.pn == pn { ValZero(pn[..]); }
    }

    method Clear()
      modifies pn
      ensures N() == 0 && forall m :: 0 <= m < pn.Length ==> pn[m] == 0
    {
      for i := 0 to pn.Length
        invariant forall m :: 0 <= m < i ==> pn[m] == 0
      {
        pn[i] := 0;
      }
      ValZero(pn[..]);
    }

    method ShiftLeft(shift: nat)
      modifies pn
      ensures N() == (old(N()) * Pow(2, shift)) % Modulus()
    {
      hide Val, Pow, LeftAt, Low, High, Or;
      var a := new BaseUint.Copy(this);
      ghost var q := a.pn[..];
      assert pn[..] == q;
      Clear();
      var k, s := shift / 32, shift % 32;
      ghost var over: nat := 0;
      LeftStart(q, pn[..], k, s);
      for i := 0 to pn.Length
        invariant a.pn[..] == q && LeftAt(q, pn[..], k, s, i, over)
      {
        over := ShiftLimbLeft(a, i, k, s, q, over);
      }
      assert q[..pn.Length] == q;
      LeftDone(q, pn[..], k, s, over);
      ShiftPower(shift);
    }

    method ShiftLimbLeft(a: BaseUint, i: nat, k: nat, s: nat, ghost q: seq<Limb>, ghost over: nat)
      returns (ghost over': nat)
      requires a.pn != pn && |q| == pn.Length && a.pn[..] == q && i < pn.Length && s < 32 &&
        LeftAt(q, pn[..], k, s, i, over)
      modifies pn
      ensures LeftAt(q, pn[..], k, s, i + 1, over')
    {
      hide Val, Pow, Low, High, Or, LeftAt;
      ghost var p, p' := pn[..], pn[..];
      if i + k + 1 < pn.Length {
        LeftMiddle(q, p, k, s, i, over);
        ghost var hi: Limb, lo: Limb := High(q[i], s), Or(p[i + k], Low(q[i], s));
        over', p' := over, p[i + k + 1 := hi][i + k := lo];
      } else if i + k < pn.Length {
        LeftTop(q, p, k, s, i, over);
        ghost var lo: Limb := Or(p[i + k], Low(q[i], s));
        over', p' := over + High(q[i], s), p[i + k := lo];
      } else {
        LeftBeyond(q, p, k, s, i, over);
        over' := over + (Low(q[i], s) + High(q[i], s) * B) * Pow(B, i + k - |q|);
      }
      if i + k + 1 < pn.Length && s != 0 {
        pn[i + k + 1] := Or(pn[i + k + 1], High(a.pn[i], s));
      }
      if i + k < pn.Length {
        pn[i + k] := Or(pn[i + k], Low(a.pn[i], s));
      }
      assert pn[..] == p';
    }

    method ShiftRight(shift: nat)
      modifies pn
      ensures N() == old(N()) / Pow(2, shift)
    {
      hide Val, Pow, RightAt, Low, High, Or;
      var a := new BaseUint.Copy(this);
      ghost var q := a.pn[..];
      assert pn[..] == q;
      Clear();
      var k, s := shift / 32, shift % 32;
      ghost var rem: nat := 0;
      RightStart(q, pn[..], k, s);
      for i := 0 to pn.Length
        invariant a.pn[..] == q && RightAt(q, pn[..], k, s, i, rem)
      {
        rem := ShiftLimbRight(a, i, k, s, q, rem);
      }
      assert q[..pn.Length] == q;
      RightDone(q, pn[..], k, s, rem);
      ShiftPower(shift);
    }

    method ShiftLimbRight(a: BaseUint, i: nat, k: nat, s: nat, ghost q: seq<Limb>, ghost rem: nat)
      returns (ghost rem': nat)
      requires a.pn != pn && |q| == pn.Length && a.pn[..] == q && i < pn.Length && s < 32 &&
        RightAt(q, pn[..], k, s, i, rem)
      modifies pn
      ensures RightAt(q, pn[..], k, s, i + 1, rem')
    {
      hide Val, Pow, Low, High, Or, RightAt;
      ghost var p, p' := pn[..], pn[..];
      if i > k {
        RightMiddle(q, p, k, s, i, rem);
        ghost var hi: Limb, lo: Limb := High(q[i], 32 - s), p[i - k - 1] + Low(q[i], 32 - s);
        rem', p' := rem, p[i - k - 1 := lo][i - k := hi];
      } else if i == k {
        RightBottom(q, p, k, s, rem);
        ghost var hi: Limb := High(q[k], 32 - s);
        rem', p' := rem + (q[k] % Pow(2, s)) * Pow(B, k), p[0 := hi];
      } else {
        RightBelow(q, p, k, s, i, rem);
        rem' := Val(q[..i + 1]);
      }
      if i - k - 1 >= 0 && s != 0 {
        pn[i - k - 1] := Or(pn[i - k - 1], Low(a.pn[i], 32 - s));
      }
      if i - k >= 0 {
        pn[i - k] := Or(pn[i - k], High(a.pn[i], 32 - s));
      }
      assert pn[..] == p';
    }

    /** The position of the highest bit plus one, or zero. */
    method Bits() returns (n: nat)
      ensures n <= 32 * pn.Length
      ensures if N() == 0 then n == 0 else n > 0 && Pow(2, n - 1) <= N() < Pow(2, n)
    {
      hide Val, Pow;
      var pos := pn.Length - 1;
      while pos >= 0
        invariant -1 <= pos < pn.Length && forall m :: pos < m < pn.Length ==> pn[m] == 0
      {
        if pn[pos] != 0 {
          var bits := 31;
          TwoTo32();
          while bits > 0
            invariant 0 <= bits < 32 && pn[pos] < Pow(2, bits + 1)
          {
            BitTop(pn[pos], bits);
            if (pn[pos] / Pow(2, bits)) % 2 == 1 {
              HighestBit(pn[..], pos, bits);
              return 32 * pos + bits + 1;
            }
            bits := bits - 1;
          }
          TwoToZero();
          HighestBit(pn[..], pos, 0);
          return 32 * pos + 1;
        }
        pos := pos - 1;
      }
      ValZero(pn[..]);
      return 0;
    }

    method CompareTo(b: BaseUint) returns (c: int)
      requires b.pn.Length == pn.Length
      ensures c == if N() < b.N() then -1 else if N() > b.N() then 1 else 0
    {
      hide Val;
      var i := pn.Length - 1;
      while i >= 0
        invariant -1 <= i < pn.Length && forall m :: i < m < pn.Length ==> pn[m] == b.pn[m]
      {
        if pn[i] < b.pn[i] {
          CompareAt(pn[..], b.pn[..], i);
          return -1;
        }
        if pn[i] > b.pn[i] {
          CompareAt(b.pn[..], pn[..], i);
          return 1;
        }
        i := i - 1;
      }
      assert pn[..] == b.pn[..];
      return 0;
    }

    /** One bit of the quotient. */
    method DivStep(num: BaseUint, div: BaseUint, shift: nat, ghost n: nat, ghost d: nat, ghost h: nat)
      returns (ghost h': nat)
      requires pn != num.pn && num.pn != div.pn && div.pn != pn
      requires num.pn.Length == div.pn.Length == pn.Length && shift < 32 * pn.Length
      requires QuotientAt(n, d, num.N(), N(), h, shift + 1) && div.N() == d * Pow(2, shift)
      modifies pn, num.pn
      ensures QuotientAt(n, d, num.N(), N(), h', shift)
    {
      hide Val, Pow, QuotientAt;
      var c := num.CompareTo(div);
      if c >= 0 {
        QuotientTake(n, d, num.N(), N(), h, shift);
        num.SubAssign(div);
        QuotientBits(n, d, num.N() + div.N(), N(), h, shift + 1);
        SetBit(pn[..], h, shift);
        ghost var p := pn[..];
        pn[shift / 32] := Or(pn[shift / 32], Pow(2, shift % 32));
        assert pn[..] == p[shift / 32 := pn[shift / 32]];
        h' := 2 * h + 1;
      } else {
        QuotientSkip(n, d, num.N(), N(), h, shift);
        h' := 2 * h;
      }
    }

    /** The quotient, rounded down; false stands for the exception on division by zero. */
    method DivAssign(b: BaseUint) returns (ok: bool)
      requires b.pn.Length == pn.Length > 0
      modifies pn
      ensures ok == (old(b.N()) != 0)
      ensures N() == if ok then old(N()) / old(b.N()) else 0
    {
      hide Val, Pow, QuotientAt;
      var div := new BaseUint.Copy(b);
      var num := new BaseUint.Copy(this);
      ghost var n, d := N(), b.N();
      Clear();
      var numBits := num.Bits();
      var divBits := div.Bits();
      if divBits == 0 { return false; }
      if divBits > numBits {
        QuotientZero(n, d, numBits, divBits);
        return true;
      }
      var shift := numBits - divBits;
      Align(n, d, numBits, divBits, pn.Length);
      div.ShiftLeft(shift);
      ghost var h: nat := 0;
      QuotientStart(n, d, shift + 1);
      while shift >= 0
        invariant -1 <= shift < 32 * pn.Length && num.pn.Length == div.pn.Length == pn.Length
        invariant QuotientAt(n, d, num.N(), N(), h, shift + 1)
        invariant shift >= 0 ==> div.N() == d * Pow(2, shift)
      {
        h := DivStep(num, div, shift, n, d, h);
        Halved(d, shift);
        div.ShiftRight(1);
        shift := shift - 1;
      }
      QuotientDone(n, d, num.N(), N(), h);
      return true;
    }
  }

  lemma WordValue(q: seq<Limb>, w: nat)
    requires |q| >= 2 && q[0] == w % B && q[1] == w / B && forall i :: 2 <= i < |q| ==> q[i] == 0
    ensures Val(q) == w
  {
    ValZero(q[1..][1..]);
  }

  lemma CarryStart(q: seq<Limb>)
    ensures Carried(q, q, 0, 0, 0)
  {
  }

  lemma SumStart(q: seq<Limb>, r: seq<Limb>)
    ensures Val(q[..0]) + Val(r[..0]) == 0
  {
  }

  lemma SumNext(q: seq<Limb>, r: seq<Limb>, i: nat)
    requires i < |q| == |r|
    ensures Val(q[..i + 1]) + Val(r[..i + 1]) == Val(q[..i]) + Val(r[..i]) + (q[i] + r[i]) * Pow(B, i)
  {
    ValNext(q, i);
    ValNext(r, i);
  }

  lemma {:induction false} ComplementValue(q: seq<Limb>, r: seq<Limb>)
    requires |r| == |q| && forall i :: 0 <= i < |q| ==> r[i] == B - 1 - q[i]
    ensures Val(r) == Pow(B, |q|) - 1 - Val(q)
  {
    if q != [] { ComplementValue(q[1..], r[1..]); }
  }

  lemma IncrementStart(q: seq<Limb>)
    ensures Carried(q, q, 0, 1, 1)
  {
  }

  lemma IncrementNext(q: seq<Limb>, i: nat)
    requires i < |q|
    ensures Val(q[..i + 1]) == Val(q[..i]) + q[i] * Pow(B, i) && (i == 0 ==> Val(q[..i]) == 0)
  {
    ValNext(q, i);
  }

  /** When the carry dies out the limbs above stay. */
  lemma CarryEnds(q: seq<Limb>, p: seq<Limb>, i: nat, total: nat)
    requires Carried(q, p, i, 0, total)
    ensures Val(p) == Val(q) - Val(q[..i]) + total && Val(p) < Pow(B, |q|)
  {
    ValSplit(p, i);
    ValSplit(q, i);
    ValBound(p);
  }

  lemma EmptyValue(q: seq<Limb>)
    ensures Val(q[..0]) == 0
  {
  }

  lemma ProductNext(q: seq<Limb>, w: nat, i: nat)
    requires i < |q|
    ensures w * Val(q[..i + 1]) == w * Val(q[..i]) + (w * q[i]) * Pow(B, i)
  {
    hide Pow, Val;
    ValNext(q, i);
    MulAssoc(w, q[i], Pow(B, i));
    Distribute(Val(q[..i]), q[i] * Pow(B, i), w);
  }

  /** A product of limbs plus two limbs fits into 64 bits, and leaves a limb to carry. */
  lemma ProductFits(x: Limb, y: Limb, c: Limb, d: Limb)
    ensures c + d + x * y <= MAX64 && (c + d + x * y) / B < B
  {
    MulMono(x, B - 1, y, B - 1);
  }

  // ---------------------------------------------------------------- rows of a product

  /** The first `i` limbs of r have been multiplied by w and added to q at limb j. */
  predicate RowAt(q: seq<Limb>, p: seq<Limb>, r: seq<Limb>, w: nat, j: nat, i: nat, carry: nat) {
    i + j <= |q| == |r| && carry < B && Carried(q, p, i + j, carry, Val(q[..i + j]) + (w * Pow(B, j)) * Val(r[..i]))
  }

  lemma RowStart(q: seq<Limb>, r: seq<Limb>, w: nat, j: nat)
    requires j < |q| == |r|
    ensures RowAt(q, q, r, w, j, 0, 0)
  {
  }

  lemma RowStep(q: seq<Limb>, p: seq<Limb>, r: seq<Limb>, w: Limb, j: nat, i: nat, carry: nat)
    requires RowAt(q, p, r, w, j, i, carry) && i + j < |q|
    ensures |p| == |q| && p[i + j] == q[i + j]
    ensures var n := carry + q[i + j] + w * r[i]; n <= MAX64 && RowAt(q, p[i + j := n % B], r, w, j, i + 1, n / B)
  {
    hide Val, Pow;
    assert p[i + j..][0] == q[i + j..][0];
    CarryStep(q, p, i + j, carry, Val(q[..i + j]) + (w * Pow(B, j)) * Val(r[..i]), q[i + j] + w * r[i]);
    RowNext(q, r, w, i, j);
    ProductFits(w, r[i], carry, q[i + j]);
  }

  lemma RowNext(q: seq<Limb>, r: seq<Limb>, w: nat, i: nat, j: nat)
    requires i + j < |q| == |r|
    ensures Val(q[..i + 1 + j]) + (w * Pow(B, j)) * Val(r[..i + 1]) ==
            Val(q[..i + j]) + (w * Pow(B, j)) * Val(r[..i]) + (q[i + j] + w * r[i]) * Pow(B, i + j)
  {
    hide Pow, Val;
    ValNext(q, i + j);
    ValNext(r, i);
    PowAdd(B, j, i);
    RowArith(w, Pow(B, j), Val(r[..i]), r[i], Pow(B, i), q[i + j]);
  }

  lemma RowArith(w: int, pj: int, v: int, d: int, pi: int, e: int)
    ensures (w * pj) * (v + d * pi) + e * (pj * pi) == (w * pj) * v + (e + w * d) * (pj * pi)
  {
    calc {
      (w * pj) * (v + d * pi) + e * (pj * pi);
    == { Distribute(v, d * pi, w * pj); }
      (w * pj) * v + (w * pj) * (d * pi) + e * (pj * pi);
    == { Shuffle(w, pj, d, pi); }
      (w * pj) * v + (w * d) * (pj * pi) + e * (pj * pi);
    == { Distribute(e, w * d, pj * pi); }
      (w * pj) * v + (e + w * d) * (pj * pi);
    }
  }

  lemma RowDone(q: seq<Limb>, p: seq<Limb>, r: seq<Limb>, w: nat, j: nat, k: nat, carry: nat)
    requires |p| == |q| == |r| == j + k && RowAt(q, p, r, w, j, k, carry)
    ensures Val(p) + (carry + w * Val(r[k..])) * Pow(B, j + k) == Val(q) + (w * Pow(B, j)) * Val(r)
  {
    hide Pow, Val, RowAt;
    RowOut(q, p, r, w, j, k, carry);
    ValSplit(r, k);
    PowAdd(B, j, k);
    RowTop(Val(p), Val(q), w, Pow(B, j), Pow(B, k), Val(r[..k]), Val(r[k..]), carry, Pow(B, j + k), Val(r));
  }

  lemma RowOut(q: seq<Limb>, p: seq<Limb>, r: seq<Limb>, w: nat, j: nat, k: nat, carry: nat)
    requires |p| == |q| == |r| == j + k && RowAt(q, p, r, w, j, k, carry)
    ensures Val(p) + carry * Pow(B, j + k) == Val(q) + (w * Pow(B, j)) * Val(r[..k])
  {
    hide Pow, Val, Carried;
    assert q[..k + j] == q;
    CarriedOut(q, p, carry, Val(q) + (w * Pow(B, j)) * Val(r[..k]));
  }

  lemma RowTop(p: int, q: int, w: int, pj: int, pk: int, low: int, high: int, carry: int, m: int, r: int)
    requires p + carry * m == q + (w * pj) * low && m == pj * pk && r == low + high * pk
    ensures p + (carry + w * high) * m == q + (w * pj) * r
  {
    calc {
      p + (carry + w * high) * m;
    == { Distribute(carry, w * high, m); }
      p + carry * m + (w * high) * (pj * pk);
    == { Shuffle(w, pj, high, pk); }
      q + (w * pj) * low + (w * pj) * (high * pk);
    == { Distribute(low, high * pk, w * pj); }
      q + (w * pj) * r;
    }
  }

  lemma MulNext(q: seq<Limb>, j: nat, v: nat)
    requires j < |q|
    ensures Val(q[..j + 1]) * v == Val(q[..j]) * v + (q[j] * Pow(B, j)) * v
  {
    hide Pow, Val;
    ValNext(q, j);
    Distribute(Val(q[..j]), q[j] * Pow(B, j), v);
  }

  // ---------------------------------------------------------------- shifts

  lemma LeftDone(q: seq<Limb>, p: seq<Limb>, k: nat, s: nat, over: nat)
    requires LeftAt(q, p, k, s, |q|, over)
    ensures Val(p) == (Val(q) * (Pow(2, s) * Pow(B, k))) % Pow(B, |q|)
  {
    hide Val, Pow;
    assert q[..|q|] == q;
    ValBound(p);
    DivUnique(Val(q) * (Pow(2, s) * Pow(B, k)), Pow(B, |q|), over, Val(p));
  }

  lemma RightDone(q: seq<Limb>, p: seq<Limb>, k: nat, s: nat, rem: nat)
    requires RightAt(q, p, k, s, |q|, rem)
    ensures Val(p) == Val(q) / (Pow(2, s) * Pow(B, k))
  {
    hide Val, Pow;
    assert q[..|q|] == q;
    DivUnique(Val(q), Pow(2, s) * Pow(B, k), Val(p), rem);
  }

  // ---------------------------------------------------------------- division

  lemma QuotientZero(n: nat, d: nat, numBits: nat, divBits: nat)
    requires numBits < divBits && (n == 0 || n < Pow(2, numBits)) && Pow(2, divBits - 1) <= d
    ensures n / d == 0
  {
    hide Pow;
    PowMonotone(2, numBits, divBits - 1);
    DivUnique(n, d, 0, n);
  }

  /** Shifted by the difference in bits, the divisor still fits and its double exceeds the dividend. */
  lemma Align(n: nat, d: nat, numBits: nat, divBits: nat, width: nat)
    requires 0 < divBits <= numBits <= 32 * width && n < Pow(2, numBits) && Pow(2, divBits - 1) <= d < Pow(2, divBits)
    ensures n < d * Pow(2, numBits - divBits + 1)
    ensures (d * Pow(2, numBits - divBits)) % Pow(B, width) == d * Pow(2, numBits - divBits)
  {
    hide Pow;
    var shift := numBits - divBits;
    PowAdd(2, divBits - 1, shift + 1);
    MulMono(Pow(2, divBits - 1), d, Pow(2, shift + 1), Pow(2, shift + 1));
    PowAdd(2, divBits, shift);
    MulLess(d, Pow(2, divBits), Pow(2, shift));
    PowMonotone(2, numBits, 32 * width);
    PowB(width);
    DivUnique(d * Pow(2, shift), Pow(B, width), 0, d * Pow(2, shift));
  }

  lemma MulLess(a: nat, b: nat, c: nat)
    requires a < b && c > 0
    ensures a * c < b * c
  {
  }

  lemma Halved(d: nat, shift: nat)
    ensures shift > 0 ==> (d * Pow(2, shift)) / Pow(2, 1) == d * Pow(2, shift - 1)
  {
    if shift > 0 {
      MulAssoc(d, Pow(2, shift - 1), 2);
      DivUnique(d * Pow(2, shift), 2, d * Pow(2, shift - 1), 0);
    }
  }

  /** The quotient so far is a multiple of 2^s and what is left is less than d * 2^s. */
  predicate QuotientAt(n: nat, d: nat, rem: nat, quot: nat, h: nat, s: nat) {
    rem + quot * d == n && rem < d * Pow(2, s) && quot == h * Pow(2, s)
  }

  lemma QuotientStart(n: nat, d: nat, s: nat)
    requires n < d * Pow(2, s)
    ensures QuotientAt(n, d, n, 0, 0, s)
  {
  }

  lemma QuotientBits(n: nat, d: nat, rem: nat, quot: nat, h: nat, s: nat)
    requires QuotientAt(n, d, rem, quot, h, s)
    ensures quot == h * Pow(2, s)
  {
  }

  lemma QuotientTake(n: nat, d: nat, rem: nat, quot: nat, h: nat, s: nat)
    requires QuotientAt(n, d, rem, quot, h, s + 1) && rem >= d * Pow(2, s)
    ensures QuotientAt(n, d, rem - d * Pow(2, s), quot + Pow(2, s), 2 * h + 1, s)
  {
    hide Pow;
    var p := Pow(2, s);
    TwoTo(s);
    MulAssoc(d, 2, p);
    MulAssoc(h, 2, p);
    Distribute(quot, p, d);
    Distribute(2 * h, 1, p);
  }

  lemma QuotientSkip(n: nat, d: nat, rem: nat, quot: nat, h: nat, s: nat)
    requires QuotientAt(n, d, rem, quot, h, s + 1) && rem < d * Pow(2, s)
    ensures QuotientAt(n, d, rem, quot, 2 * h, s)
  {
    hide Pow;
    TwoTo(s);
    MulAssoc(h, 2, Pow(2, s));
  }

  lemma QuotientDone(n: nat, d: nat, rem: nat, quot: nat, h: nat)
    requires QuotientAt(n, d, rem, quot, h, 0) && d > 0
    ensures quot == n / d
  {
    DivUnique(n, d, quot, rem);
  }
}
