/**
 Base58: byte strings as numerals in an alphabet of 58 characters.  Both directions multiply a digit buffer in place;
 its size is estimated with a fixed ratio and must never be too small.  Leading zero bytes become leading '1's.
 */
module Base58 {
  import opened Numbers

  type Byte = b: nat | b < 256

  datatype Option<T> = None | Some(value: T)

  // ---------------------------------------------------------------- numerals

  /** Big-endian digits as a number. */
  function Value(q: seq<nat>, base: nat): nat {
    if q == [] then 0 else q[0] * Pow(base, |q| - 1) + Value(q[1..], base)
  }

  predicate Digital(q: seq<nat>, base: nat) {
    forall i :: 0 <= i < |q| ==> q[i] < base
  }

  /** No leading zero. */
  predicate Normal(q: seq<nat>, base: nat) {
    Digital(q, base) && (q == [] || q[0] != 0)
  }

  function Digits(n: nat, base: nat): seq<nat>
    requires base >= 2
  {
    if n == 0 then [] else Shrinks(n, base); Digits(n / base, base) + [n % base]
  }

  function LeadingZeros(q: seq<nat>): (z: nat)
    ensures z <= |q| && (forall i :: 0 <= i < z ==> q[i] == 0) && (z < |q| ==> q[z] != 0)
  {
    if q == [] || q[0] != 0 then 0 else 1 + LeadingZeros(q[1..])
  }

  function Zeros(n: nat): (q: seq<nat>)
    ensures |q| == n && forall i :: 0 <= i < n ==> q[i] == 0
  {
    seq(n, i => 0)
  }

  /** Another base for the number, and as many leading zeros. */
  function Convert(q: seq<nat>, base: nat, to: nat): seq<nat>
    requires to >= 2
  {
    var z := LeadingZeros(q);
    Zeros(z) + Digits(Value(q[z..], base), to)
  }

  lemma {:induction false} Horner(q: seq<nat>, base: nat, x: nat)
    ensures Value(q + [x], base) == Value(q, base) * base + x
  {
    if q != [] {
      assert (q + [x])[1..] == q[1..] + [x];
      Horner(q[1..], base, x);
      assert Pow(base, |q|) == base * Pow(base, |q| - 1);
      HornerStep(q[0], base, Pow(base, |q| - 1), Value(q[1..], base), x);
    }
  }

  lemma HornerStep(d: nat, base: nat, p: nat, v: nat, x: nat)
    ensures d * (base * p) + (v * base + x) == (d * p + v) * base + x
  {
  }

  lemma {:induction false} ValueBound(q: seq<nat>, base: nat)
    requires Digital(q, base)
    ensures Value(q, base) < Pow(base, |q|)
  {
    if q != [] {
      ValueBound(q[1..], base);
      BoundStep(q[0], base, Pow(base, |q| - 1), Value(q[1..], base));
    }
  }

  lemma BoundStep(d: nat, base: nat, p: nat, v: nat)
    requires d < base && v < p
    ensures d * p + v < base * p
  {
    assert (d + 1) * p <= base * p;
  }

  lemma {:induction false} DigitsOfValue(q: seq<nat>, base: nat)
    requires base >= 2 && Normal(q, base)
    ensures Digits(Value(q, base), base) == q && (q != [] ==> Value(q, base) > 0)
  {
    if q != [] {
      var front, x := q[..|q| - 1], q[|q| - 1];
      assert q == front + [x];
      Horner(front, base, x);
      DigitsOfValue(front, base);
      DivUnique(Value(q, base), base, Value(front, base), x);
      if front != [] { MulMono(1, Value(front, base), 1, base); }
    }
  }

  lemma {:induction false} ValueOfDigits(n: nat, base: nat)
    requires base >= 2
    ensures Value(Digits(n, base), base) == n && Normal(Digits(n, base), base)
    ensures n > 0 ==> Digits(n, base) != []
  {
    if n > 0 {
      Shrinks(n, base);
      ValueOfDigits(n / base, base);
      Horner(Digits(n / base, base), base, n % base);
    }
  }

  lemma Shrinks(n: nat, base: nat)
    requires base >= 2 && n > 0
    ensures n / base < n && n == (n / base) * base + n % base
  {
    if n / base >= n { MulMono(n, n / base, 2, base); }
  }

  lemma ZerosLead(z: nat, q: seq<nat>, base: nat)
    requires Normal(q, base)
    ensures LeadingZeros(Zeros(z) + q) == z && (Zeros(z) + q)[z..] == q
  {
  }

  /** Converting to another base and back gives the same digits, leading zeros included. */
  lemma ConvertBack(q: seq<nat>, base: nat, to: nat)
    requires base >= 2 && to >= 2 && Digital(q, base)
    ensures Digital(Convert(q, base, to), to)
    ensures Convert(Convert(q, base, to), to, base) == q
  {
    var z := LeadingZeros(q);
    var n := Value(q[z..], base);
    ValueOfDigits(n, to);
    ZerosLead(z, Digits(n, to), to);
    DigitsOfValue(q[z..], base);
    assert Zeros(z) + q[z..] == q;
  }

  // ---------------------------------------------------------------- the buffers are large enough

  lemma {:induction false} EncodeRoom(n: nat)
    ensures Pow(256, n) <= Pow(58, n * 138 / 100 + 1)
  {
    hide Pow;
    if n >= 8 {
      EncodeRoom(n - 8);
      EncodeRoomSmall(0);
      PowAdd(256, n - 8, 8);
      RoomStep(58, (n - 8) * 138 / 100 + 1, 11, n * 138 / 100 + 1, Pow(256, n - 8), Pow(256, 8));
    } else {
      EncodeRoomSmall(n);
    }
  }

  lemma RoomStep(base: nat, size: nat, more: nat, size': nat, x: nat, y: nat)
    requires base > 0 && x <= Pow(base, size) && y <= Pow(base, more) && size' >= size + more
    ensures x * y <= Pow(base, size')
  {
    MulMono(x, Pow(base, size), y, Pow(base, more));
    PowAdd(base, size, more);
    PowMonotone(base, size + more, size');
  }

  lemma Power(b: nat, e: nat, p: nat, q: nat)
    requires e > 0 && Pow(b, e - 1) == p && q == b * p
    ensures Pow(b, e) == q
  {
  }

  lemma PowersOf58()
    ensures Pow(58, 0) == 1
    ensures Pow(58, 1) == 58
    ensures Pow(58, 2) == 3364
    ensures Pow(58, 3) == 195112
    ensures Pow(58, 4) == 11316496
    ensures Pow(58, 5) == 656356768
    ensures Pow(58, 6) == 38068692544
    ensures Pow(58, 7) == 2207984167552
    ensures Pow(58, 8) == 128063081718016
    ensures Pow(58, 9) == 7427658739644928
    ensures Pow(58, 10) == 430804206899405824
    ensures Pow(58, 11) == 24986644000165537792
    ensures Pow(58, 12) == 1449225352009601191936
    ensures Pow(58, 13) == 84055070416556869132288
    ensures Pow(58, 14) == 4875194084160298409672704
    ensures Pow(58, 15) == 282761256881297307761016832
  {
    hide Pow;
    PowZero(58);
    Power(58, 1, 1, 58);
    Power(58, 2, 58, 3364);
    Power(58, 3, 3364, 195112);
    Power(58, 4, 195112, 11316496);
    Power(58, 5, 11316496, 656356768);
    Power(58, 6, 656356768, 38068692544);
    Power(58, 7, 38068692544, 2207984167552);
    Power(58, 8, 2207984167552, 128063081718016);
    Power(58, 9, 128063081718016, 7427658739644928);
    Power(58, 10, 7427658739644928, 430804206899405824);
    Power(58, 11, 430804206899405824, 24986644000165537792);
    Power(58, 12, 24986644000165537792, 1449225352009601191936);
    Power(58, 13, 1449225352009601191936, 84055070416556869132288);
    Power(58, 14, 84055070416556869132288, 4875194084160298409672704);
    Power(58, 15, 4875194084160298409672704, 282761256881297307761016832);
  }

  lemma PowersOf256()
    ensures Pow(256, 0) == 1
    ensures Pow(256, 1) == 256
    ensures Pow(256, 2) == 65536
    ensures Pow(256, 3) == 16777216
    ensures Pow(256, 4) == 4294967296
    ensures Pow(256, 5) == 1099511627776
    ensures Pow(256, 6) == 281474976710656
    ensures Pow(256, 7) == 72057594037927936
    ensures Pow(256, 8) == 18446744073709551616
    ensures Pow(256, 9) == 4722366482869645213696
    ensures Pow(256, 10) == 1208925819614629174706176
    ensures Pow(256, 11) == 309485009821345068724781056
    ensures Pow(256, 12) == 79228162514264337593543950336
    ensures Pow(256, 13) == 20282409603651670423947251286016
  {
    hide Pow;
    PowZero(256);
    Power(256, 1, 1, 256);
    Power(256, 2, 256, 65536);
    Power(256, 3, 65536, 16777216);
    Power(256, 4, 16777216, 4294967296);
    Power(256, 5, 4294967296, 1099511627776);
    Power(256, 6, 1099511627776, 281474976710656);
    Power(256, 7, 281474976710656, 72057594037927936);
    Power(256, 8, 72057594037927936, 18446744073709551616);
    Power(256, 9, 18446744073709551616, 4722366482869645213696);
    Power(256, 10, 4722366482869645213696, 1208925819614629174706176);
    Power(256, 11, 1208925819614629174706176, 309485009821345068724781056);
    Power(256, 12, 309485009821345068724781056, 79228162514264337593543950336);
    Power(256, 13, 79228162514264337593543950336, 20282409603651670423947251286016);
  }

  lemma EncodeRoomSmall(n: nat)
    requires n < 8
    ensures Pow(256, n) <= Pow(58, n * 138 / 100 + 1)
    ensures Pow(256, 8) <= Pow(58, 11)
  {
    hide Pow;
    PowersOf58();
    PowersOf256();
  }

  /** 58^n fits into ceil(0.7323 n) bytes, tabulated below 15 digits. */
  function BytesFor(n: nat): nat { (n * 7323 + 9999) / 10000 }

  lemma DecodeRoomSmall(n: nat)
    requires n < 15
    ensures Pow(58, n) <= Pow(256, BytesFor(n))
    ensures Pow(58, 15) <= Pow(256, 11)
  {
    hide Pow;
    PowersOf58();
    PowersOf256();
  }

  lemma LargeStep()
    ensures Pow(58, 71) <= Pow(256, 52)
  {
    hide Pow;
    PowersOf58();
    PowersOf256();
    PowAdd(58, 8, 8);
    PowAdd(58, 16, 16);
    PowAdd(58, 32, 32);
    PowAdd(58, 64, 7);
    PowAdd(256, 13, 13);
    PowAdd(256, 26, 26);
  }

  lemma {:induction false} DecodeRoomMiddle(j: nat, n: nat)
    requires n < 15
    ensures Pow(58, 15 * j + n) <= Pow(256, 11 * j + BytesFor(n))
  {
    hide Pow;
    DecodeRoomSmall(n);
    if j > 0 {
      DecodeRoomMiddle(j - 1, n);
      PowAdd(58, 15 * (j - 1) + n, 15);
      RoomStep(256, 11 * (j - 1) + BytesFor(n), 11, 11 * j + BytesFor(n), Pow(58, 15 * (j - 1) + n), Pow(58, 15));
    }
  }

  lemma BytesSlack(r: nat)
    requires r < 15
    ensures 1000 * BytesFor(r) + 63 <= 733 * r + 1000
  {
    if r == 0 { assert BytesFor(0) == 0; }
    if r == 1 { assert BytesFor(1) == 1; }
    if r == 2 { assert BytesFor(2) == 2; }
    if r == 3 { assert BytesFor(3) == 3; }
    if r == 4 { assert BytesFor(4) == 3; }
    if r == 5 { assert BytesFor(5) == 4; }
    if r == 6 { assert BytesFor(6) == 5; }
    if r == 7 { assert BytesFor(7) == 6; }
    if r == 8 { assert BytesFor(8) == 6; }
    if r == 9 { assert BytesFor(9) == 7; }
    if r == 10 { assert BytesFor(10) == 8; }
    if r == 11 { assert BytesFor(11) == 9; }
    if r == 12 { assert BytesFor(12) == 9; }
    if r == 13 { assert BytesFor(13) == 10; }
    if r == 14 { assert BytesFor(14) == 11; }
  }

  lemma SizeBelow71(j: nat, r: nat)
    requires r < 15 && 15 * j + r < 71
    ensures 11 * j + BytesFor(r) <= (15 * j + r) * 733 / 1000 + 1
  {
    hide BytesFor;
    BytesSlack(r);
    var n := (15 * j + r) * 733;
    assert n == 10995 * j + 733 * r;
    assert n >= 1000 * (11 * j + BytesFor(r) - 1);
    assert n == 1000 * (n / 1000) + n % 1000;
  }

  lemma {:induction false} DecodeRoom(n: nat)
    ensures Pow(58, n) <= Pow(256, n * 733 / 1000 + 1)
  {
    hide Pow;
    if n >= 71 {
      DecodeRoom(n - 71);
      LargeStep();
      PowAdd(58, n - 71, 71);
      RoomStep(256, (n - 71) * 733 / 1000 + 1, 52, n * 733 / 1000 + 1, Pow(58, n - 71), Pow(58, 71));
    } else {
      var j, r := n / 15, n % 15;
      DecodeRoomMiddle(j, r);
      SizeBelow71(j, r);
      PowMonotone(256, 11 * j + BytesFor(r), n * 733 / 1000 + 1);
    }
  }

  // ---------------------------------------------------------------- the digit buffer

  lemma {:induction false} ValueSplit(q: seq<nat>, base: nat, k: nat)
    requires k <= |q| && forall i :: 0 <= i < k ==> q[i] == 0
    ensures Value(q, base) == Value(q[k..], base)
  {
    if k > 0 {
      ValueSplit(q[1..], base, k - 1);
      assert q[1..][k - 1..] == q[k..];
    } else {
      assert q[0..] == q;
    }
  }

  /** Digits that are all zero in front of the last `length`. */
  ghost predicate Buffer(q: seq<nat>, base: nat, length: int) {
    0 <= length <= |q| && Digital(q, base) && forall i :: 0 <= i < |q| - length ==> q[i] == 0
  }

  lemma MulAddStep(base: nat, mul: nat, c0: nat, p: nat, low: nat, low': nat, carry: nat, d: nat, c: nat)
    requires base >= 2 && low' + carry * p == mul * low + c0 && c == carry + mul * d
    ensures (c % base) * p + low' + (c / base) * (base * p) == mul * (d * p + low) + c0
  {
    var x, y := c / base, c % base;
    assert c == x * base + y;
    calc {
      y * p + low' + x * (base * p);
    == { MulAssoc(x, base, p); Distribute(x * base, y, p); }
      c * p + low';
    == { Distribute(carry, mul * d, p); }
      carry * p + (mul * d) * p + low';
    == { MulAssoc(mul, d, p); }
      mul * low + c0 + mul * (d * p);
    == { Distribute(d * p, low, mul); }
      mul * (d * p + low) + c0;
    }
  }

  lemma CarryBound(base: nat, mul: nat, carry: nat, d: nat, c: nat)
    requires base >= 2 && carry < mul && d < base && c == carry + mul * d
    ensures c / base < mul
  {
    Distribute(d, 1, mul);
    MulMono(mul, mul, d + 1, base);
    var x := c / base;
    assert c == x * base + c % base;
    if x >= mul { MulMono(mul, x, base, base); }
  }

  /** The last `i` digits of q have been multiplied; `carry` is still to be added in front of them. */
  predicate Progress(q: seq<nat>, a: seq<nat>, base: nat, mul: nat, ch: nat, i: nat, carry: nat) {
    var n := |q|;
    && |a| == n && i <= n && carry < mul
    && (forall j :: 0 <= j < n - i ==> a[j] == q[j]) && Digital(a, base)
    && Value(a[n - i..], base) + carry * Pow(base, i) == mul * Value(q[n - i..], base) + ch
  }

  lemma ProgressStep(q: seq<nat>, a: seq<nat>, base: nat, mul: nat, ch: nat, i: nat, carry: nat, k: nat, c: nat,
    digit: nat, rest: nat)
    requires k + i + 1 == |q| == |a| && base >= 2 && c == carry + mul * a[k] && digit == c % base && rest == c / base
    requires Progress(q, a, base, mul, ch, i, carry)
    ensures Progress(q, a[k := digit], base, mul, ch, i + 1, rest)
  {
    hide Pow, Value;
    var a' := a[k := digit];
    MulAddStep(base, mul, ch, Pow(base, i), Value(q[k + 1..], base), Value(a[k + 1..], base), carry, q[k], c);
    CarryBound(base, mul, carry, a[k], c);
    ValueTail(a', base, k);
    ValueTail(q, base, k);
    PowNext(base, i);
    assert a'[k + 1..] == a[k + 1..];
  }

  lemma ValueTail(q: seq<nat>, base: nat, k: nat)
    requires k < |q|
    ensures Value(q[k..], base) == q[k] * Pow(base, |q| - 1 - k) + Value(q[k + 1..], base)
  {
    assert q[k..][1..] == q[k + 1..];
  }

  lemma NoCarry(v: nat, carry: nat, p: nat, total: nat)
    requires v + carry * p == total < p
    ensures carry == 0
  {
    if carry > 0 { MulMono(1, carry, p, p); }
  }

  /** With no carry left the tails decide, for there are only zeros in front of them. */
  lemma Settled(q: seq<nat>, a: seq<nat>, base: nat, length: nat, i: nat)
    requires |a| == |q| && i <= |q| && Buffer(q, base, length) && length <= i && Digital(a, base)
    requires forall j :: 0 <= j < |q| - i ==> a[j] == q[j]
    ensures Buffer(a, base, i)
    ensures Value(a, base) == Value(a[|q| - i..], base) && Value(q, base) == Value(q[|q| - i..], base)
  {
    hide Pow, Value;
    ValueSplit(a, base, |q| - i);
    ValueSplit(q, base, |q| - i);
  }

  lemma ProgressDone(q: seq<nat>, a: seq<nat>, base: nat, mul: nat, ch: nat, length: nat, i: nat, carry: nat)
    requires Progress(q, a, base, mul, ch, i, carry) && Buffer(q, base, length) && (carry == 0 || i == |q|) &&
      length <= i
    requires mul * Value(q, base) + ch < Pow(base, |q|)
    ensures carry == 0 && Buffer(a, base, i) && Value(a, base) == mul * Value(q, base) + ch
  {
    hide Pow, Value, Buffer, Digital;
    Settled(q, a, base, length, i);
    if i == |q| {
      NoCarry(Value(a, base), carry, Pow(base, i), mul * Value(q, base) + ch);
    }
  }

  /** Multiplies the buffer and adds, in place; there is no carry out of a buffer that has room for the result. */
  method MulAdd(a: array<nat>, base: nat, mul: nat, ch: nat, length: nat) returns (length': nat)
    requires base >= 2 && ch < mul && Buffer(a[..], base, length)
    requires mul * Value(a[..], base) + ch < Pow(base, a.Length)
    modifies a
    ensures Buffer(a[..], base, length') && Value(a[..], base) == mul * Value(old(a[..]), base) + ch
  {
    hide Pow, Value, Progress;
    ghost var q := a[..];
    var carry: nat, i: nat := ch, 0;
    ProgressStart(q, base, mul, ch);
    while (carry != 0 || i < length) && i != a.Length
      invariant 0 <= i <= a.Length && Progress(q, a[..], base, mul, ch, i, carry)
      decreases a.Length - i
    {
      ghost var before := a[..];
      var k := a.Length - 1 - i;
      ghost var was, sum := carry, carry + mul * a[k];
      carry := carry + mul * a[k];
      a[k] := carry % base;
      carry := carry / base;
      ProgressStep(q, before, base, mul, ch, i, was, k, sum, a[k], carry);
      assert a[..] == before[k := a[k]];
      i := i + 1;
    }
    ProgressDone(q, a[..], base, mul, ch, length, i, carry);
    assert carry == 0;
    return i;
  }

  lemma ProgressStart(q: seq<nat>, base: nat, mul: nat, ch: nat)
    requires ch < mul && Digital(q, base)
    ensures Progress(q, q, base, mul, ch, 0, ch)
  {
  }

  // ---------------------------------------------------------------- characters

  function Run(first: char, n: nat): (r: string)
    requires first as int + n < 256
    ensures |r| == n && forall i :: 0 <= i < n ==> r[i] as int == first as int + i
  {
    seq(n, i requires 0 <= i < n => (first as int + i) as char)
  }

  /** All alphanumeric characters except for '0', 'I', 'O' and 'l'. */
  function Alphabet(): (s: string)
    ensures |s| == 58
  {
    Run('1', 9) + Run('A', 8) + Run('J', 5) + Run('P', 11) + Run('a', 11) + Run('m', 14)
  }

  lemma AlphabetOrder(i: nat, j: nat)
    requires i < j < 58
    ensures '1' == Alphabet()[0] <= Alphabet()[i] < Alphabet()[j]
  {
  }

  lemma InRun(first: char, n: nat, c: char)
    requires first as int + n < 256
    ensures c in Run(first, n) <==> first as int <= c as int < first as int + n
  {
    if first as int <= c as int < first as int + n { assert Run(first, n)[c as int - first as int] == c; }
  }

  predicate Alphanumeric(c: char) { '0' <= c <= '9' || 'A' <= c <= 'Z' || 'a' <= c <= 'z' }

  /** Which characters are digits; AlphabetOrder says in which order. */
  lemma AlphabetExactly(c: char)
    ensures c in Alphabet() <==> Alphanumeric(c) && c != '0' && c != 'I' && c != 'O' && c != 'l'
  {
    InRun('1', 9, c);
    InRun('A', 8, c);
    InRun('J', 5, c);
    InRun('P', 11, c);
    InRun('a', 11, c);
    InRun('m', 14, c);
    hide Run;
  }

  predicate IsSpace(c: char) { c == ' ' || 9 <= c as int <= 13 }

  /** Space, tab, line feed, vertical tab, form feed and carriage return. */
  lemma SpacesExactly(c: char)
    ensures IsSpace(c) <==> c as int in {32, 9, 10, 11, 12, 13}
  {
  }

  /** The first place of the character in the alphabet, or 58. */
  function Index(c: char): (d: nat)
    ensures d <= 58 && (d < 58 ==> Alphabet()[d] == c)
    ensures forall i :: 0 <= i < d ==> Alphabet()[i] != c
  {
    IndexFrom(Alphabet(), c, 0)
  }

  function IndexFrom(s: string, c: char, i: nat): (d: nat)
    requires i <= |s|
    ensures i <= d <= |s| && (d < |s| ==> s[d] == c) && forall j :: i <= j < d ==> s[j] != c
    decreases |s| - i
  {
    if i == |s| || s[i] == c then i else IndexFrom(s, c, i + 1)
  }

  lemma IndexOf(d: nat)
    requires d < 58
    ensures Index(Alphabet()[d]) == d && !IsSpace(Alphabet()[d]) && Alphabet()[d] != '\0'
    ensures Alphabet()[d] == '1' <==> d == 0
  {
    var k := Index(Alphabet()[d]);
    if k < d { AlphabetOrder(k, d); }
    if d > 0 { AlphabetOrder(0, d); } else { AlphabetOrder(0, 1); }
  }

  function Chars(q: seq<nat>): (s: string)
    requires Digital(q, 58)
    ensures |s| == |q| && forall i :: 0 <= i < |q| ==> s[i] == Alphabet()[q[i]]
  {
    if q == [] then [] else Chars(q[..|q| - 1]) + [Alphabet()[q[|q| - 1]]]
  }

  predicate Valid(s: string) {
    forall i :: 0 <= i < |s| ==> Index(s[i]) < 58
  }

  function DigitsOf(s: string): (q: seq<nat>)
    requires Valid(s)
    ensures |q| == |s| && Digital(q, 58) && forall i :: 0 <= i < |s| ==> q[i] == Index(s[i])
  {
    if s == [] then [] else DigitsOf(s[..|s| - 1]) + [Index(s[|s| - 1])]
  }

  function TrimLeft(s: string): string {
    if s != [] && IsSpace(s[0]) then TrimLeft(s[1..]) else s
  }

  function TrimRight(s: string): string {
    if s != [] && IsSpace(s[|s| - 1]) then TrimRight(s[..|s| - 1]) else s
  }

  /** The text without the whitespace around it. */
  function Strip(s: string): string { TrimRight(TrimLeft(s)) }

  lemma {:induction false} TrimRightAt(s: string, k: nat)
    requires k <= |s|
    ensures TrimRight(s) <= s
    ensures k < |s| && !IsSpace(s[k]) ==> k < |TrimRight(s)|
    ensures (forall i :: k <= i < |s| ==> IsSpace(s[i])) ==> |TrimRight(s)| <= k
  {
    if s != [] && IsSpace(s[|s| - 1]) && k < |s| {
      TrimRightAt(s[..|s| - 1], k);
    } else if s != [] && IsSpace(s[|s| - 1]) {
      TrimRightAt(s[..|s| - 1], k - 1);
    }
  }

  lemma {:induction false} TrimRightIs(s: string)
    ensures var t := TrimRight(s);
      && t <= s && (forall i :: |t| <= i < |s| ==> IsSpace(s[i])) && (t != [] ==> !IsSpace(t[|t| - 1]))
  {
    if s != [] && IsSpace(s[|s| - 1]) { TrimRightIs(s[..|s| - 1]); }
  }

  lemma {:induction false} TrimLeftIs(s: string) returns (k: nat)
    ensures k <= |s| && TrimLeft(s) == s[k..] && (forall i :: 0 <= i < k ==> IsSpace(s[i]))
    ensures k < |s| ==> !IsSpace(s[k])
  {
    if s != [] && IsSpace(s[0]) {
      var k' := TrimLeftIs(s[1..]);
      k := k' + 1;
    } else {
      k := 0;
    }
  }

  /** Stripping leaves the part between the first and the last character that is not a space. */
  lemma StripExactly(s: string) returns (i: nat, j: nat)
    ensures i <= j <= |s| && Strip(s) == s[i..j]
    ensures (forall k :: 0 <= k < i ==> IsSpace(s[k])) && forall k :: j <= k < |s| ==> IsSpace(s[k])
    ensures i < j ==> !IsSpace(s[i]) && !IsSpace(s[j - 1])
  {
    hide IsSpace, TrimLeft, TrimRight;
    i := TrimLeftIs(s);
    var t := s[i..];
    TrimRightIs(t);
    j := i + |TrimRight(t)|;
    assert TrimRight(t) == t[..|TrimRight(t)|] == s[i..j];
    forall k | j <= k < |s| ensures IsSpace(s[k]) { assert t[k - i] == s[k]; }
  }

  lemma {:induction false} TrimLeftAt(s: string, k: nat)
    requires k <= |s| && (forall i :: 0 <= i < k ==> IsSpace(s[i])) && (k < |s| ==> !IsSpace(s[k]))
    ensures TrimLeft(s) == s[k..]
  {
    if k > 0 {
      TrimLeftAt(s[1..], k - 1);
      assert s[1..][k - 1..] == s[k..];
    }
  }

  /** The characters before the first NUL: what c_str() points to. */
  function CString(s: string): string {
    if s == [] || s[0] == '\0' then [] else [s[0]] + CString(s[1..])
  }

  lemma {:induction false} CStringIs(s: string, n: nat)
    requires n <= |s| && '\0' !in s[..n] && (n < |s| ==> s[n] == '\0')
    ensures CString(s) == s[..n]
  {
    if n > 0 {
      assert s[..n][0] == s[0] && s[1..][..n - 1] == s[..n][1..];
      CStringIs(s[1..], n - 1);
    }
  }

  /** What decoding an encoded byte string does to it. */
  lemma CharsBack(q: seq<nat>)
    requires Digital(q, 58)
    ensures Valid(Chars(q)) && CString(Chars(q)) == Strip(Chars(q)) == Chars(q) && DigitsOf(Chars(q)) == q
  {
    hide Index, Alphabet, IsSpace, Chars, DigitsOf, CString;
    var s := Chars(q);
    forall i | 0 <= i < |q| ensures Index(s[i]) == q[i] && !IsSpace(s[i]) && s[i] != '\0' { IndexOf(q[i]); }
    TrimLeftAt(s, 0);
    assert s[..|s|] == s;
    CStringIs(s, |s|);
  }

  lemma DigitsBack(s: string)
    requires Valid(s)
    ensures Chars(DigitsOf(s)) == s
  {
  }

  // ---------------------------------------------------------------- both directions

  function Encoded(b: seq<Byte>): string
  {
    ConvertBack(b, 256, 58);
    Chars(Convert(b, 256, 58))
  }

  function Decoded(s: string): Option<seq<Byte>> {
    var text := Strip(CString(s));
    if Valid(text) then
      ConvertBack(DigitsOf(text), 58, 256);
      Some(Convert(DigitsOf(text), 58, 256))
    else None
  }

  /** Decoding the encoding of any byte string gives it back. */
  lemma BytesRoundTrip(b: seq<Byte>)
    ensures Decoded(Encoded(b)) == Some(b)
  {
    ConvertBack(b, 256, 58);
    CharsBack(Convert(b, 256, 58));
  }

  /** Encoding the decoding of any accepted text gives the text up to its first NUL, without the
      whitespace around it. */
  lemma TextRoundTrip(s: string)
    requires Decoded(s).Some?
    ensures Encoded(Decoded(s).value) == Strip(CString(s))
  {
    ConvertBack(DigitsOf(Strip(CString(s))), 58, 256);
    DigitsBack(Strip(CString(s)));
  }

  lemma DigitalNext(q: seq<nat>, base: nat, d: nat)
    requires Digital(q, base) && d < base
    ensures Digital(q + [d], base)
  {
  }

  /** There is room for one more digit of an input of `n` digits. */
  lemma Fits(q: seq<nat>, mul: nat, d: nat, base: nat, n: nat, size: nat)
    requires mul > 0 && base > 0 && Digital(q, mul) && d < mul && |q| < n && Pow(mul, n) <= Pow(base, size)
    ensures mul * Value(q, mul) + d < Pow(base, size) && Value(q + [d], mul) == mul * Value(q, mul) + d
  {
    hide Pow, Value, Digital;
    Horner(q, mul, d);
    DigitalNext(q, mul, d);
    ValueBound(q + [d], mul);
    PowMonotone(mul, |q| + 1, n);
  }

  lemma {:induction false} ZeroValue(q: seq<nat>, base: nat)
    requires forall i :: 0 <= i < |q| ==> q[i] == 0
    ensures Value(q, base) == 0
  {
    if q != [] { ZeroValue(q[1..], base); }
  }

  /** The digits of the number in the buffer start at its first digit that is not zero. */
  method SkipZeros(a: array<nat>, ghost base: nat, length: nat) returns (it: nat)
    requires base >= 2 && Buffer(a[..], base, length)
    ensures it <= a.Length && a[it..] == Digits(Value(a[..], base), base)
  {
    hide Value, Digits;
    it := a.Length - length;
    while it != a.Length && a[it] == 0
      invariant it <= a.Length && forall i :: 0 <= i < it ==> a[i] == 0
    {
      it := it + 1;
    }
    ValueSplit(a[..], base, it);
    assert a[..][it..] == a[it..];
    DigitsOfValue(a[it..], base);
  }

  lemma {:induction false} Counted(q: seq<nat>, z: nat)
    requires z <= |q| && (forall i :: 0 <= i < z ==> q[i] == 0) && (z < |q| ==> q[z] != 0)
    ensures LeadingZeros(q) == z
  {
    if z > 0 { Counted(q[1..], z - 1); }
  }

  method CountZeros(q: seq<nat>) returns (zeroes: nat)
    ensures zeroes == LeadingZeros(q)
  {
    hide LeadingZeros;
    zeroes := 0;
    while zeroes != |q| && q[zeroes] == 0
      invariant zeroes <= |q| && forall i :: 0 <= i < zeroes ==> q[i] == 0
    {
      zeroes := zeroes + 1;
    }
    Counted(q, zeroes);
  }

  method BytesToDigits(bytes: seq<Byte>) returns (digits: seq<nat>)
    ensures digits == Digits(Value(bytes, 256), 58)
  {
    hide Value, Digits, Pow;
    var size := |bytes| * 138 / 100 + 1;
    EncodeRoom(|bytes|);
    var b58 := new nat[size](i => 0);
    var length := 0;
    ZeroValue(b58[..], 58);
    ZeroValue(bytes[..0], 256);
    for p := 0 to |bytes|
      invariant Buffer(b58[..], 58, length)
      invariant Value(b58[..], 58) == Value(bytes[..p], 256)
    {
      assert Digital(bytes[..p], 256);
      Fits(bytes[..p], 256, bytes[p], 58, |bytes|, size);
      assert bytes[..p] + [bytes[p]] == bytes[..p + 1];
      length := MulAdd(b58, 58, 256, bytes[p], length);
    }
    assert bytes[..|bytes|] == bytes;
    var it := SkipZeros(b58, 58, length);
    return b58[it..];
  }

  method Render(zeroes: nat, digits: seq<nat>) returns (str: string)
    requires Digital(digits, 58)
    ensures str == Chars(Zeros(zeroes) + digits)
  {
    hide Alphabet, Chars;
    ghost var q := Zeros(zeroes) + digits;
    str := Repeat('1', zeroes);
    OnesAre(q, zeroes, str);
    for i := 0 to |digits|
      invariant str == Chars(q[..zeroes + i])
    {
      CharsNext(q, zeroes + i);
      str := str + [Alphabet()[digits[i]]];
    }
    assert q[..zeroes + |digits|] == q;
  }

  method EncodeBase58(vch: seq<Byte>) returns (str: string)
    ensures str == Encoded(vch)
  {
    hide Value, Digits, Chars, LeadingZeros;
    var zeroes := CountZeros(vch);
    var digits := BytesToDigits(vch[zeroes..]);
    ValueOfDigits(Value(vch[zeroes..], 256), 58);
    str := Render(zeroes, digits);
  }

  function Repeat(c: char, n: nat): (s: string)
    ensures |s| == n && forall i :: 0 <= i < n ==> s[i] == c
  {
    seq(n, i => c)
  }

  lemma OnesAre(q: seq<nat>, z: nat, s: string)
    requires Digital(q, 58) && z <= |q| && s == Repeat('1', z) && forall i :: 0 <= i < z ==> q[i] == 0
    ensures s == Chars(q[..z])
  {
    IndexOf(0);
  }

  lemma CharsNext(q: seq<nat>, i: nat)
    requires Digital(q, 58) && i < |q|
    ensures Chars(q[..i + 1]) == Chars(q[..i]) + [Alphabet()[q[i]]]
  {
    assert q[..i + 1][..i] == q[..i];
  }

  lemma IndexFacts(c: char)
    ensures IsSpace(c) ==> Index(c) == 58
    ensures Index(c) == 0 <==> c == '1'
  {
    hide Index, Alphabet;
    IndexOf(0);
    if Index(c) < 58 { IndexOf(Index(c)); }
  }

  lemma DigitsOfNext(s: string, c: char)
    requires Valid(s) && Index(c) < 58
    ensures Valid(s + [c]) && DigitsOf(s + [c]) == DigitsOf(s) + [Index(c)]
  {
    hide Index;
    assert (s + [c])[..|s|] == s;
  }

  /** A character that is not a digit, before the last character that is not a space, spoils the text. */
  lemma Spoiled(t: string, i: nat, j: nat)
    requires i <= j < |t| && Index(t[i]) == 58 && !IsSpace(t[j])
    ensures !Valid(TrimRight(t))
  {
    TrimRightAt(t, j);
    assert TrimRight(t)[i] == t[i];
  }

  lemma Clean(t: string, i: nat)
    requires i <= |t| && (forall k :: 0 <= k < i ==> Index(t[k]) < 58) && forall k :: i <= k < |t| ==> IsSpace(t[k])
    ensures TrimRight(t) == t[..i] && Valid(t[..i])
  {
    hide Index;
    TrimRightAt(t, i);
    if i > 0 {
      IndexFacts(t[i - 1]);
      TrimRightAt(t, i - 1);
    }
  }

  lemma DigitsSplit(t: string, z: nat, i: nat)
    requires z <= i <= |t| && Valid(t[..i]) && (forall k :: 0 <= k < z ==> t[k] == '1') && (z < i ==> t[z] != '1')
    ensures LeadingZeros(DigitsOf(t[..i])) == z && Valid(t[z..i]) && DigitsOf(t[..i])[z..] == DigitsOf(t[z..i])
  {
    hide Index, LeadingZeros;
    var q := DigitsOf(t[..i]);
    forall k | 0 <= k < i ensures q[k] == 0 <==> t[k] == '1' { IndexFacts(t[k]); }
    Counted(q, z);
    forall k | 0 <= k < i - z ensures Index(t[z..i][k]) < 58 { assert t[z..i][k] == t[..i][z + k]; }
  }

  /** Reads digits up to the first space; None if there is something else. */
  method DigitsToBytes(t: string, z: nat) returns (i: nat, r: Option<seq<nat>>)
    requires z <= |t|
    ensures z <= i <= |t| && forall k :: z <= k < i ==> Index(t[k]) < 58
    ensures r.Some? ==> (i == |t| || IsSpace(t[i])) && Valid(t[z..i])
    ensures r.Some? ==> r.value == Digits(Value(DigitsOf(t[z..i]), 58), 256)
    ensures r.None? ==> i < |t| && !IsSpace(t[i]) && Index(t[i]) == 58
  {
    hide Value, Digits, Pow, Index, IsSpace, DigitsOf;
    var size := (|t| - z) * 733 / 1000 + 1;
    DecodeRoom(|t| - z);
    var b256 := new nat[size](i => 0);
    var length := 0;
    i := z;
    ZeroValue(b256[..], 256);
    assert t[z..z] == [];
    ZeroValue(DigitsOf(t[z..z]), 58);
    while i < |t| && !IsSpace(t[i])
      invariant z <= i <= |t| && (forall k :: z <= k < i ==> Index(t[k]) < 58)
      invariant Buffer(b256[..], 256, length) && Valid(t[z..i]) && Value(b256[..], 256) == Value(DigitsOf(t[z..i]), 58)
    {
      var ch := Index(t[i]);
      if ch == 58 { return i, None; }
      DigitsOfNext(t[z..i], t[i]);
      assert t[z..i] + [t[i]] == t[z..i + 1];
      Fits(DigitsOf(t[z..i]), 58, ch, 256, |t| - z, size);
      length := MulAdd(b256, 256, 58, ch, length);
      i := i + 1;
    }
    var it := SkipZeros(b256, 256, length);
    r := Some(b256[it..]);
  }

  /** str.c_str() */
  method Terminated(str: string) returns (psz: string)
    ensures psz == CString(str)
  {
    var n := 0;
    while n < |str| && str[n] != '\0'
      invariant 0 <= n <= |str| && '\0' !in str[..n]
    {
      n := n + 1;
    }
    CStringIs(str, n);
    return str[..n];
  }

  method DecodeBase58(str: string) returns (r: Option<seq<Byte>>)
    ensures r == Decoded(str)
  {
    hide Value, Digits, Index, IsSpace, DigitsOf, TrimLeft, TrimRight, LeadingZeros, CString;
    var psz := Terminated(str);
    var p := 0;
    while p < |psz| && IsSpace(psz[p])
      invariant 0 <= p <= |psz| && forall i :: 0 <= i < p ==> IsSpace(psz[i])
    {
      p := p + 1;
    }
    TrimLeftAt(psz, p);
    var t := psz[p..];
    var z := 0;
    while z < |t| && t[z] == '1'
      invariant 0 <= z <= |t| && forall i :: 0 <= i < z ==> t[i] == '1'
    {
      z := z + 1;
    }
    var i, bytes := DigitsToBytes(t, z);
    if bytes.None? {
      Spoiled(t, i, i);
      return None;
    }
    var j := i;
    while j < |t| && IsSpace(t[j])
      invariant i <= j <= |t| && forall k :: i <= k < j ==> IsSpace(t[k])
    {
      j := j + 1;
    }
    if j != |t| {
      IndexFacts(t[i]);
      Spoiled(t, i, j);
      return None;
    }
    forall k | 0 <= k < z ensures Index(t[k]) < 58 { IndexFacts('1'); }
    Clean(t, i);
    DigitsSplit(t, z, i);
    ConvertBack(DigitsOf(t[..i]), 58, 256);
    r := Some(Zeros(z) + bytes.value);
  }
}
