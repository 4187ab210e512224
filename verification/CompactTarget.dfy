/**
 Difficulty targets in their compact form, a byte exponent and a 23-bit mantissa, and the work that a target stands for.
 */
module CompactTarget {
  import opened Numbers
  import opened Limbs
  import opened LimbShifts
  import opened ArithUint

  /** 2^256 */
  const LIMIT: nat := 0x1_00000000_00000000_00000000_00000000_00000000_00000000_00000000_00000000

  function Size(n: nat): nat { n / 0x100_0000 }

  function Word(n: nat): nat { n % 0x80_0000 }

  predicate SignBit(n: nat) { (n / 0x80_0000) % 2 == 1 }

  /** The mantissa, cut to the bytes there are. */
  function Mantissa(n: nat): nat {
    if Size(n) <= 3 then Word(n) / Pow(256, 3 - Size(n)) else Word(n)
  }

  /** The number a compact form stands for, apart from its sign. */
  function Exact(n: nat): nat {
    if Size(n) <= 3 then Mantissa(n) else Mantissa(n) * Pow(256, Size(n) - 3)
  }

  function BitLength(v: nat): nat { if v == 0 then 0 else 1 + BitLength(v / 2) }

  function Bytes(v: nat): nat { (BitLength(v) + 7) / 8 }

  /** The three highest bytes. */
  function Top(v: nat, size: nat): nat {
    if size <= 3 then v * Pow(256, 3 - size) else v / Pow(256, size - 3)
  }

  /** One byte more, and a mantissa of two bytes, if the sign bit is taken. */
  function Compact(v: nat): nat {
    var size := Bytes(v);
    var m := Top(v, size);
    if m >= 0x80_0000 then (size + 1) * 0x100_0000 + m / 256 else size * 0x100_0000 + m
  }

  // ---------------------------------------------------------------- lengths

  lemma {:induction false} BitLengthIs(v: nat, n: nat)
    requires if n == 0 then v == 0 else Pow(2, n - 1) <= v < Pow(2, n)
    ensures BitLength(v) == n
  {
    if n > 1 {
      BitLengthIs(v / 2, n - 1);
    }
  }

  lemma {:induction false} BitLengthBounds(v: nat)
    ensures v < Pow(2, BitLength(v)) && (v > 0 ==> Pow(2, BitLength(v) - 1) <= v)
  {
    if v > 0 { BitLengthBounds(v / 2); }
  }

  lemma {:induction false} Pow256(k: nat)
    ensures Pow(256, k) == Pow(2, 8 * k)
  {
    if k > 0 {
      Pow256(k - 1);
      TwoTo8();
      PowAdd(2, 8, 8 * (k - 1));
    }
  }

  lemma TwoTo8()
    ensures Pow(2, 8) == 256
  {
  }

  lemma BytesBounds(v: nat)
    ensures v < Pow(256, Bytes(v)) && (v > 0 ==> Bytes(v) > 0 && Pow(256, Bytes(v) - 1) <= v)
    ensures v == 0 ==> Bytes(v) == 0
  {
    hide Pow;
    BitLengthBounds(v);
    Pow256(Bytes(v));
    PowMonotone(2, BitLength(v), 8 * Bytes(v));
    if v > 0 {
      Pow256(Bytes(v) - 1);
      PowMonotone(2, 8 * (Bytes(v) - 1), BitLength(v) - 1);
    }
  }

  lemma BytesIs(v: nat, s: nat)
    requires s > 0 && Pow(256, s - 1) <= v < Pow(256, s)
    ensures Bytes(v) == s
  {
    hide Pow, Bytes;
    BytesBounds(v);
    var b := Bytes(v);
    if b < s { PowMonotone(256, b, s - 1); }
    if s < b { PowMonotone(256, s, b - 1); }
  }

  lemma Powers()
    ensures Pow(256, 0) == 1 && Pow(256, 1) == 256 && Pow(256, 2) == 0x1_0000 && Pow(256, 3) == 0x100_0000
  {
  }

  lemma LimitIs()
    ensures Pow(B, 8) == LIMIT && Pow(256, 32) == LIMIT
  {
    hide Pow;
    PowB4();
    PowAdd(B, 4, 4);
    PowB(8);
    Pow256(32);
  }

  lemma PowB4()
    ensures Pow(B, 4) == 0x1_00000000_00000000_00000000_00000000
  {
  }

  lemma DivBounds(v: nat, p: nat, a: nat, b: nat)
    requires p > 0 && a * p <= v < b * p
    ensures a <= v / p < b
  {
    var q := v / p;
    assert v == q * p + v % p;
    if q < a { MulLe(q + 1, a, p); }
    if q >= b { MulLe(b, q, p); }
  }

  lemma DivDiv(v: nat, p: nat, q: nat)
    requires p > 0 && q > 0
    ensures p * q > 0 && (v / p) / q == v / (p * q)
  {
    MulMono(1, p, 1, q);
    var x := v / p;
    var y := x / q;
    var r := (x % q) * p + v % p;
    assert v == x * p + v % p && x == y * q + x % q;
    Distribute(y * q, x % q, p);
    MulAssoc(y, q, p);
    MulMono(x % q + 1, q, p, p);
    Distribute(x % q, 1, p);
    DivUnique(v, p * q, y, r);
  }

  // ---------------------------------------------------------------- cutting a number down to its compact form

  lemma TopBounds(v: nat)
    requires v > 0
    ensures 0x1_0000 <= Top(v, Bytes(v)) < 0x100_0000
  {
    hide Pow, Bytes;
    var s := Bytes(v);
    BytesBounds(v);
    Powers();
    if s > 3 {
      PowAdd(256, 2, s - 3);
      PowAdd(256, 3, s - 3);
      DivBounds(v, Pow(256, s - 3), 0x1_0000, 0x100_0000);
    }
  }

  /** The bytes that do not fit into the mantissa. */
  function Cut(v: nat): nat {
    var s := Bytes(v);
    if Top(v, s) < 0x80_0000 then if s <= 3 then 0 else s - 3 else if s <= 2 then 0 else s - 2
  }

  lemma CompactParts(v: nat)
    ensures var s, c := Bytes(v), Compact(v); var m := Top(v, s);
            && Size(c) == (if m < 0x80_0000 then s else s + 1) && Word(c) == (if m < 0x80_0000 then m else m / 256)
            && !SignBit(c)
  {
    hide Pow, Bytes, Top;
    if v > 0 { TopBounds(v); } else { TopOfZero(); }
  }

  lemma TopOfZero()
    ensures Bytes(0) == 0 && Top(0, 0) == 0
  {
  }

  /** What a compact form keeps of a number: everything, or all but the lowest bytes. */
  lemma ExactOfCompact(v: nat)
    ensures Exact(Compact(v)) == (v / Pow(256, Cut(v))) * Pow(256, Cut(v))
  {
    hide Pow, Bytes, Compact;
    var s := Bytes(v);
    Powers();
    CompactParts(v);
    BytesBounds(v);
    if Cut(v) > 0 && Top(v, s) >= 0x80_0000 {
      DivDiv(v, Pow(256, s - 3), 256);
      PowAdd(256, s - 3, 1);
    }
  }

  lemma Rounded(v: nat, p: nat)
    requires p > 0
    ensures (v / p) * p <= v < (v / p) * p + p && ((v / p) * p) / p == v / p
  {
    DivUnique((v / p) * p, p, v / p, 0);
  }

  lemma RoundedBytes(v: nat)
    requires v > 0
    ensures Bytes(Exact(Compact(v))) == Bytes(v)
  {
    hide Pow, Bytes, Compact, Exact, Top;
    var s, e := Bytes(v), Cut(v);
    var p := Pow(256, e);
    ExactOfCompact(v);
    BytesBounds(v);
    Rounded(v, p);
    PowAdd(256, s - 1 - e, e);
    MulMono(Pow(256, s - 1 - e), v / p, p, p) by {
      DivBounds(v, p, Pow(256, s - 1 - e), v + 1) by { MulMono(v + 1, v + 1, 1, p); }
    }
    BytesIs((v / p) * p, s);
  }

  lemma RoundedTop(v: nat)
    requires v > 0 && Cut(v) > 0
    ensures var s := Bytes(v); var m := Top(v, s);
            Top(Exact(Compact(v)), s) == if m < 0x80_0000 then m else (m / 256) * 256
  {
    hide Pow, Bytes, Compact, Exact;
    var s, e := Bytes(v), Cut(v);
    var p := Pow(256, e);
    ExactOfCompact(v);
    Rounded(v, p);
    if Top(v, s) >= 0x80_0000 {
      var u, x := Pow(256, s - 3), v / p;
      Powers();
      PowAdd(256, s - 3, 1);
      DivDiv(v, u, 256);
      MulAssoc(x, 256, u);
      DivUnique(x * p, u, x * 256, 0);
    }
  }

  /** A number that has been through the compact form has the same compact form. */
  lemma CompactTwice(v: nat)
    ensures Compact(Exact(Compact(v))) == Compact(v)
  {
    hide Pow, Bytes, Exact, Top;
    ExactOfCompact(v);
    Powers();
    if v > 0 && Cut(v) > 0 {
      RoundedBytes(v);
      RoundedTop(v);
    }
  }

  // ---------------------------------------------------------------- overflow

  predicate OverflowFlag(n: nat) {
    Mantissa(n) != 0 && (Size(n) > 34 || (Mantissa(n) > 0xff && Size(n) > 33) || (Mantissa(n) > 0xffff && Size(n) > 32))
  }

  /** The flag is set exactly for the numbers that do not fit into 256 bits. */
  lemma OverflowExact(n: nat)
    ensures OverflowFlag(n) <==> Exact(n) >= LIMIT
  {
    hide Pow;
    var s, m := Size(n), Mantissa(n);
    Powers();
    LimitIs();
    if s > 3 {
      if s > 34 && m > 0 {
        PowMonotone(256, 32, s - 3);
        MulMono(1, m, LIMIT, Pow(256, s - 3));
      } else if m > 0 && s > 32 {
        Exceeds(m, s - 3);
      } else if s <= 32 {
        PowMonotone(256, s - 3, 29);
        PowAdd(256, 3, 29);
        MulMono(m, 0x80_0000, Pow(256, s - 3), Pow(256, 29));
      }
    }
  }

  lemma Exceeds(m: nat, k: nat)
    requires k <= 32
    ensures m * Pow(256, k) >= LIMIT <==> m >= Pow(256, 32 - k)
  {
    hide Pow;
    LimitIs();
    PowAdd(256, 32 - k, k);
    if m >= Pow(256, 32 - k) {
      MulMono(Pow(256, 32 - k), m, Pow(256, k), Pow(256, k));
    } else {
      MulLess(m, Pow(256, 32 - k), Pow(256, k));
    }
  }

  // ---------------------------------------------------------------- the operations

  method SetCompact(n: nat) returns (r: BaseUint, negative: bool, overflow: bool)
    requires n < 0x1_0000_0000
    ensures fresh(r) && fresh(r.pn) && r.pn.Length == 8 && r.N() == Exact(n) % LIMIT
    ensures negative == (Mantissa(n) != 0 && SignBit(n)) && overflow == (Exact(n) >= LIMIT)
  {
    hide Pow, Val;
    var nSize, nWord := n / 0x100_0000, n % 0x80_0000;
    LimitIs();
    if nSize <= 3 {
      nWord := nWord / Pow(256, 3 - nSize);
      r := new BaseUint.FromWord(8, nWord);
      DivUnique(nWord, LIMIT, 0, nWord) by { MantissaSmall(n); }
    } else {
      r := new BaseUint.FromWord(8, nWord);
      r.ShiftLeft(8 * (nSize - 3));
      Pow256(nSize - 3);
    }
    negative := nWord != 0 && (n / 0x80_0000) % 2 == 1;
    overflow := nWord != 0 && (nSize > 34 || (nWord > 0xff && nSize > 33) || (nWord > 0xffff && nSize > 32));
    OverflowExact(n);
  }

  lemma MantissaSmall(n: nat)
    ensures Mantissa(n) < 0x80_0000
  {
    hide Pow;
    if Size(n) <= 3 { Shrink(Word(n), Pow(256, 3 - Size(n))); }
  }

  lemma Shrink(v: nat, p: nat)
    requires p > 0
    ensures v / p <= v
  {
    assert v == (v / p) * p + v % p;
    MulMono(v / p, v / p, 1, p);
  }

  /** The low 64 bits. */
  method GetLow64(a: BaseUint) returns (w: nat)
    requires a.pn.Length >= 2
    ensures w == a.N() % 0x1_0000_0000_0000_0000
  {
    w := a.pn[0] + a.pn[1] * B;
    LowWords(a.pn[..]);
  }

  lemma LowWords(q: seq<Limb>)
    requires |q| >= 2
    ensures Val(q) % 0x1_0000_0000_0000_0000 == q[0] + q[1] * B
  {
    var high := Val(q[1..][1..]);
    DivUnique(Val(q), 0x1_0000_0000_0000_0000, high, q[0] + q[1] * B);
  }

  /** The number of bytes and the highest three of them. */
  method TopBytes(a: BaseUint) returns (nSize: nat, nCompact: nat)
    requires a.pn.Length == 8
    ensures nSize == Bytes(a.N()) <= 32 && nCompact == Top(a.N(), nSize)
  {
    hide Pow, Val, Top, BitLength;
    ghost var v := a.N();
    var bits := a.Bits();
    BitLengthIs(v, bits);
    nSize := (bits + 7) / 8;
    if nSize <= 3 {
      var low := GetLow64(a);
      nCompact := low * Pow(256, 3 - nSize);
      LowTop(v, nSize);
    } else {
      var bn := new BaseUint.Copy(a);
      bn.ShiftRight(8 * (nSize - 3));
      nCompact := GetLow64(bn);
      Pow256(nSize - 3);
      HighTop(v, nSize);
    }
  }

  method GetCompact(a: BaseUint, fNegative: bool) returns (n: nat)
    requires a.pn.Length == 8
    ensures n == Compact(a.N()) + if fNegative && Word(Compact(a.N())) != 0 then 0x80_0000 else 0
    ensures SignBit(n) <==> fNegative && Word(n) != 0
  {
    hide Pow, Val, Top, Bytes, BaseUint.N;
    ghost var v := a.N();
    var nSize, nCompact := TopBytes(a);
    TopFits(v);
    if nCompact >= 0x80_0000 {
      nCompact := nCompact / 256;
      nSize := nSize + 1;
    }
    assert nCompact < 0x80_0000 && nSize < 256;
    n := nSize * 0x100_0000 + nCompact;
    CompactParts(v);
    Signed(nSize, nCompact);
    if fNegative && nCompact != 0 { n := n + 0x80_0000; }
  }

  lemma Signed(size: nat, m: nat)
    requires m < 0x80_0000
    ensures var n := size * 0x100_0000 + m;
      !SignBit(n) && Word(n) == m && SignBit(n + 0x80_0000) && Word(n + 0x80_0000) == m
  {
    DivUnique(size * 0x100_0000 + m, 0x80_0000, 2 * size, m);
    DivUnique(size * 0x100_0000 + m + 0x80_0000, 0x80_0000, 2 * size + 1, m);
  }

  lemma TopFits(v: nat)
    ensures Top(v, Bytes(v)) < 0x100_0000
  {
    hide Top, Bytes;
    if v > 0 { TopBounds(v); } else { TopOfZero(); }
  }

  lemma LowTop(v: nat, size: nat)
    requires size == Bytes(v) <= 3
    ensures v % 0x1_0000_0000_0000_0000 == v && v * Pow(256, 3 - size) == Top(v, size)
  {
    hide Pow, Bytes;
    BytesBounds(v);
    Powers();
    PowMonotone(256, size, 3);
  }

  lemma HighTop(v: nat, size: nat)
    requires size == Bytes(v) > 3
    ensures (v / Pow(256, size - 3)) % 0x1_0000_0000_0000_0000 == Top(v, size)
  {
    hide Pow, Bytes;
    TopFits(v);
  }

  // ---------------------------------------------------------------- work

  predicate ValidTarget(nBits: nat) {
    !(Mantissa(nBits) != 0 && SignBit(nBits)) && 0 < Exact(nBits) < LIMIT
  }

  /** A target is valid exactly if the number it stands for, with its sign, is positive and below 2^256. */
  lemma ValidExactly(nBits: nat)
    ensures ValidTarget(nBits) <==> 0 < (if SignBit(nBits) then -1 else 1) * Exact(nBits) < LIMIT
  {
    hide Pow;
    if Mantissa(nBits) == 0 { NothingTimes(if Size(nBits) <= 3 then 0 else Pow(256, Size(nBits) - 3)); }
  }

  lemma NothingTimes(p: nat)
    ensures 0 * p == 0
  {
  }

  /** A larger target stands for no more work. */
  lemma WorkFalls(t: nat, u: nat)
    requires t <= u
    ensures LIMIT / (u + 1) <= LIMIT / (t + 1)
  {
    var w := LIMIT / (u + 1);
    assert w * (u + 1) <= LIMIT;
    MulMono(w, w, t + 1, u + 1);
    DivAtLeast(LIMIT, t + 1, w);
  }

  lemma DivAtLeast(x: nat, d: nat, w: nat)
    requires d > 0 && w * d <= x
    ensures w <= x / d
  {
    if x / d < w {
      MulMono(x / d + 1, w, d, d);
      Distribute(x / d, 1, d);
    }
  }

  /** No target is the largest number there is, so its successor is not zero. */
  lemma NeverAllOnes(nBits: nat)
    ensures Exact(nBits) != LIMIT - 1
  {
    hide Pow;
    MantissaSmall(nBits);
    var s, m := Size(nBits), Mantissa(nBits);
    if s > 3 {
      PowAdd(256, s - 4, 1);
      Powers();
      MulAssoc(m, Pow(256, s - 4), 256);
    }
  }

  /** The work for a block: what 2^256 contains of the target plus one, though 2^256 itself cannot be represented. */
  method GetBlockProof(nBits: nat) returns (work: BaseUint)
    requires nBits < 0x1_0000_0000
    ensures work.pn.Length == 8
    ensures work.N() == if ValidTarget(nBits) then LIMIT / (Exact(nBits) + 1) else 0
  {
    hide Pow, Val, Exact, Mantissa;
    var bnTarget, fNegative, fOverflow := SetCompact(nBits);
    LimitIs();
    DivSmall(Exact(nBits));
    var zero := bnTarget.Bits();
    if fNegative || fOverflow || zero == 0 {
      work := new BaseUint.Zero(8);
      return;
    }
    NeverAllOnes(nBits);
    var one := new BaseUint.FromWord(8, 1);
    work := bnTarget.Complement();
    var divisor := new BaseUint.Copy(bnTarget);
    divisor.AddAssign(one);
    var ok := work.DivAssign(divisor);
    assert ok;
    work.AddAssign(one);
    ProofValue(Exact(nBits), LIMIT);
  }

  lemma DivSmall(t: nat)
    ensures t < LIMIT ==> t % LIMIT == t
  {
  }

  lemma ProofValue(t: nat, m: nat)
    requires 0 < t < m - 1
    ensures (m - 1 - t) / (t + 1) + 1 == m / (t + 1) < m
  {
    var d, n := t + 1, m - 1 - t;
    var q := n / d;
    assert n == q * d + n % d;
    Distribute(q, 1, d);
    DivUnique(m, d, q + 1, n % d);
    MulMono(q + 1, q + 1, 2, d);
  }
}
