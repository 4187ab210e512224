/**
 The rolling Bloom filter.  Every position has a generation number from 0 (unset) to 3, stored as one bit in each of two
 64-bit words; when a generation is full the number of the oldest one is wiped and used again.  At any time the filter
 is a plain Bloom filter over the latest keys, at least two generations of them.
 */
module RollingBloom {
  import opened Numbers

  type Key = seq<nat>

  // ---------------------------------------------------------------- words

  /** A 64-bit word as its bits, the lowest first. */
  type Word = w: seq<bool> | |w| == 64 witness seq(64, i => false)

  function And(x: Word, y: Word): Word { seq(64, i requires 0 <= i < 64 => x[i] && y[i]) }

  function Or(x: Word, y: Word): Word { seq(64, i requires 0 <= i < 64 => x[i] || y[i]) }

  function Xor(x: Word, y: Word): Word { seq(64, i requires 0 <= i < 64 => x[i] != y[i]) }

  function Not(x: Word): Word { seq(64, i requires 0 <= i < 64 => !x[i]) }

  /** -(uint64_t)x for a single bit x: all ones or all zeros. */
  function Mask(x: bool): Word { seq(64, i => x) }

  /** (uint64_t)x << b for a single bit x. */
  function Shifted(x: bool, b: nat): Word { seq(64, i => x && i == b) }

  /** A word with one bit replaced. */
  function WithBit(w: Word, b: nat, x: bool): Word {
    Or(And(w, Not(Shifted(true, b))), Shifted(x, b))
  }

  lemma BitWith(w: Word, a: nat, x: bool, b: nat)
    requires a < 64 && b < 64
    ensures WithBit(w, a, x)[b] <==> if a == b then x else w[b]
  {
  }

  // ---------------------------------------------------------------- generation numbers

  datatype Pos = Pos(pair: nat, bit: nat)

  predicate InData(data: seq<Word>, p: Pos) {
    2 * p.pair + 1 < |data| && p.bit < 64
  }

  function Gen(data: seq<Word>, p: Pos): nat
    requires InData(data, p)
  {
    Number(data[2 * p.pair][p.bit], data[2 * p.pair + 1][p.bit])
  }

  predicate Odd(g: nat) { g % 2 == 1 }

  predicate High(g: nat) { g / 2 == 1 }

  /** One of the two words of a pair after the wipe of a generation. */
  function Wipe(x: Word, p1: Word, p2: Word, odd: bool, high: bool): Word {
    And(x, Or(Xor(p1, Mask(odd)), Xor(p2, Mask(high))))
  }

  lemma BitWipe(x: Word, p1: Word, p2: Word, odd: bool, high: bool, b: nat)
    requires b < 64
    ensures Wipe(x, p1, p2, odd, high)[b] <==> x[b] && (p1[b] != odd || p2[b] != high)
  {
  }

  function Number(odd: bool, high: bool): nat { (if odd then 1 else 0) + if high then 2 else 0 }

  /** The mask keeps exactly the positions of other generations. */
  lemma Wiped(p1: Word, p2: Word, g: nat, b: nat)
    requires 1 <= g <= 3 && b < 64
    ensures var was := Number(p1[b], p2[b]);
            Number(Wipe(p1, p1, p2, Odd(g), High(g))[b], Wipe(p2, p1, p2, Odd(g), High(g))[b]) ==
              if was == g then 0 else was
  {
    hide Wipe;
    BitWipe(p1, p1, p2, Odd(g), High(g), b);
    BitWipe(p2, p1, p2, Odd(g), High(g), b);
  }

  function SetGen(d: seq<Word>, p: Pos, g: nat): seq<Word>
    requires InData(d, p)
  {
    var d1 := d[2 * p.pair := WithBit(d[2 * p.pair], p.bit, Odd(g))];
    d1[2 * p.pair + 1 := WithBit(d1[2 * p.pair + 1], p.bit, High(g))]
  }

  /** Writing a generation number at a position touches no other position. */
  lemma Marked(data: seq<Word>, p: Pos, g: nat, r: Pos)
    requires InData(data, p) && InData(data, r) && 1 <= g <= 3
    ensures Gen(SetGen(data, p, g), r) == if r == p then g else Gen(data, r)
  {
    hide WithBit;
    BitWith(data[2 * p.pair], p.bit, Odd(g), r.bit);
    BitWith(data[2 * p.pair + 1], p.bit, High(g), r.bit);
  }

  // ---------------------------------------------------------------- the keys that are remembered

  /** `hash(n, tweak, key)` is a 32-bit hash; `size` is the number of words, two for every 64 positions. */
  datatype Config = Config(hash: (nat, nat, Key) -> nat, tweak: nat, nHashFuncs: nat, size: nat, perGeneration: nat)

  predicate Config?(cfg: Config) {
    cfg.size >= 2 && cfg.size % 2 == 0 && cfg.perGeneration >= 1
  }

  function Position(cfg: Config, n: nat, key: Key): (p: Pos)
    requires Config?(cfg)
    ensures 2 * p.pair + 1 < cfg.size && p.bit < 64
  {
    var h := cfg.hash(n, cfg.tweak, key);
    Pos(h / 64 % cfg.size / 2, h % 64)
  }

  /** A hash names a bit by its lowest six bits and a word by the rest, modulo the number of words, of which the lowest
      bit does not matter. */
  lemma PositionExactly(cfg: Config, n: nat, key: Key)
    requires Config?(cfg)
    ensures var h, p := cfg.hash(n, cfg.tweak, key), Position(cfg, n, key);
      exists words, times :: h == 64 * words + p.bit && words == times * cfg.size + 2 * p.pair + words % cfg.size % 2
  {
    var h := cfg.hash(n, cfg.tweak, key);
    var words := h / 64;
    assert words == words / cfg.size * cfg.size + words % cfg.size;
  }

  predicate Touches(cfg: Config, key: Key, p: Pos, n: nat)
    requires Config?(cfg)
  {
    exists m :: 0 <= m < n && Position(cfg, m, key) == p
  }

  /** The last key that uses the position, or -1. */
  function Last(cfg: Config, keys: seq<Key>, p: Pos): (i: int)
    requires Config?(cfg)
    ensures -1 <= i < |keys| && (i >= 0 ==> Touches(cfg, keys[i], p, cfg.nHashFuncs))
    ensures forall j :: i < j < |keys| ==> !Touches(cfg, keys[j], p, cfg.nHashFuncs)
  {
    if keys == [] then -1
    else if Touches(cfg, keys[|keys| - 1], p, cfg.nHashFuncs) then |keys| - 1
    else Last(cfg, keys[..|keys| - 1], p)
  }

  /** The generation of the i-th key, counted from 0. */
  function Epoch(cfg: Config, i: nat): nat
    requires Config?(cfg)
  {
    i / cfg.perGeneration
  }

  function Label(epoch: nat): nat { epoch % 3 + 1 }

  /** The number at a position in generation `now`: that of the last key that uses it, if it is not too old. */
  function GenOf(cfg: Config, keys: seq<Key>, p: Pos, now: nat): nat
    requires Config?(cfg)
  {
    var i := Last(cfg, keys, p);
    if i < 0 || Epoch(cfg, i) + 2 < now then 0 else Label(Epoch(cfg, i))
  }

  lemma EpochNext(cfg: Config, i: nat)
    requires Config?(cfg)
    ensures Epoch(cfg, i + 1) == Epoch(cfg, i) + if (i + 1) % cfg.perGeneration == 0 then 1 else 0
    ensures (i + 1) % cfg.perGeneration == if (i + 1) % cfg.perGeneration == 0 then 0 else i % cfg.perGeneration + 1
    ensures (i + 1) % cfg.perGeneration == 0 <==> i % cfg.perGeneration + 1 == cfg.perGeneration
  {
    var g, q, r := cfg.perGeneration, i / cfg.perGeneration, i % cfg.perGeneration;
    assert i == q * g + r;
    if r + 1 == g {
      Distribute(q, 1, g);
      DivUnique(i + 1, g, q + 1, 0);
    } else {
      DivUnique(i + 1, g, q, r + 1);
    }
  }

  lemma {:induction false} EpochMonotone(cfg: Config, i: nat, j: nat)
    requires Config?(cfg) && i <= j
    ensures Epoch(cfg, i) <= Epoch(cfg, j)
  {
    if i < j {
      EpochMonotone(cfg, i, j - 1);
      EpochNext(cfg, j - 1);
    }
  }

  /** Wiping the label of the new generation leaves exactly what that generation may still remember. */
  lemma WipeAges(cfg: Config, keys: seq<Key>, p: Pos, now: nat)
    requires Config?(cfg) && (keys == [] || Epoch(cfg, |keys| - 1) <= now)
    ensures GenOf(cfg, keys, p, now + 1) ==
      if GenOf(cfg, keys, p, now) == Label(now + 1) then 0 else GenOf(cfg, keys, p, now)
  {
    var i := Last(cfg, keys, p);
    if i >= 0 { EpochMonotone(cfg, i, |keys| - 1); }
  }

  /** A new key leaves its label on its positions. */
  lemma KeyMarks(cfg: Config, keys: seq<Key>, key: Key, p: Pos, now: nat)
    requires Config?(cfg) && now == Epoch(cfg, |keys|)
    ensures GenOf(cfg, keys + [key], p, now) ==
      if Touches(cfg, key, p, cfg.nHashFuncs) then Label(now) else GenOf(cfg, keys, p, now)
  {
    assert (keys + [key])[..|keys|] == keys;
  }

  // ---------------------------------------------------------------- the filter

  /** Every position holds the number that the keys call for in generation `now`. */
  ghost predicate Represents(cfg: Config, data: seq<Word>, keys: seq<Key>, now: nat)
    requires Config?(cfg)
  {
    |data| == cfg.size && forall p :: InData(data, p) ==> Gen(data, p) == GenOf(cfg, keys, p, now)
  }

  /** The generation that is being filled after some insertions. */
  function Current(cfg: Config, inserted: nat): nat
    requires Config?(cfg)
  {
    if inserted == 0 then 0 else Epoch(cfg, inserted - 1)
  }

  class RollingBloomFilter {
    const nHashFuncs: nat
    const nEntriesPerGeneration: nat
    const data: array<Word>
    const hash: (nat, nat, Key) -> nat
    var nEntriesThisGeneration: nat
    var nGeneration: nat
    var nTweak: nat
    ghost var keys: seq<Key>   // everything inserted since the last reset

    function Cfg(): Config
      reads this
    {
      Config(hash, nTweak, nHashFuncs, data.Length, nEntriesPerGeneration)
    }

    ghost predicate Valid()
      reads this, data
    {
      if data.Length == 0 then keys == [] && nEntriesThisGeneration == 0 && nGeneration == 1
      else
        && Config?(Cfg())
        && nGeneration == Label(Current(Cfg(), |keys|))
        && nEntriesThisGeneration == (if keys == [] then 0 else (|keys| - 1) % nEntriesPerGeneration + 1)
        && Represents(Cfg(), data[..], keys, Current(Cfg(), |keys|))
    }

    /** The sizes come out of floating-point formulas, which give no bits for no elements; the tweak is random. */
    constructor (nElements: nat, nHashFuncs: nat, nFilterBits: nat, hash: (nat, nat, Key) -> nat, tweak: nat)
      requires nElements == 0 ==> nFilterBits == 0
      ensures Valid() && keys == [] && fresh(data) && 2 * nEntriesPerGeneration >= nElements
      ensures data.Length == 0 <==> nFilterBits == 0
      ensures nGeneration == 1 && nEntriesThisGeneration == 0
    {
      this.nHashFuncs, this.hash := nHashFuncs, hash;
      nEntriesPerGeneration := (nElements + 1) / 2;
      data := new Word[(nFilterBits + 63) / 64 * 2](i => Mask(false));
      nEntriesThisGeneration, nGeneration, nTweak, keys := 0, 1, tweak, [];
      new;
      if data.Length > 0 { AllZero(Cfg(), data[..]); }
    }

    method Reset(tweak: nat)
      requires Valid()
      modifies this, data
      ensures Valid() && keys == [] && nGeneration == 1 && nEntriesThisGeneration == 0 && nTweak == tweak
    {
      hide Represents;
      nTweak, nEntriesThisGeneration, nGeneration, keys := tweak, 0, 1, [];
      for i := 0 to data.Length
        modifies data
        invariant forall j :: 0 <= j < i ==> data[j] == Mask(false)
      {
        data[i] := Mask(false);
      }
      if data.Length > 0 { AllZero(Cfg(), data[..]); }
    }

    /** The label of the new generation is wiped wherever it is still in use. */
    method WipeGeneration(ghost now: nat)
      requires Config?(Cfg()) && Represents(Cfg(), data[..], keys, now) && nGeneration == Label(now + 1)
      requires keys == [] || Epoch(Cfg(), |keys| - 1) <= now
      modifies data
      ensures Represents(Cfg(), data[..], keys, now + 1)
    {
      hide Wipe, Last, Position;
      ghost var d := data[..];
      var odd, high := Odd(nGeneration), High(nGeneration);
      var p := 0;
      while p < data.Length
        invariant 0 <= p <= data.Length && p % 2 == 0
        invariant forall i :: p <= i < data.Length ==> data[i] == d[i]
        invariant forall w: nat :: 2 * w + 1 < p ==> PairWiped(d, data[..], w, odd, high)
        decreases data.Length - p
      {
        ghost var before := data[..];
        var p1, p2 := data[p], data[p + 1];
        data[p] := Wipe(p1, p1, p2, odd, high);
        data[p + 1] := Wipe(p2, p1, p2, odd, high);
        p := p + 2;
        forall w: nat | 2 * w + 1 < p ensures PairWiped(d, data[..], w, odd, high) {
          assert 2 * w + 1 < p - 2 ==> PairWiped(d, before, w, odd, high);
        }
      }
      AllWiped(Cfg(), d, data[..], keys, now, nGeneration);
    }

    /** The key's positions get the label of the current generation. */
    method Mark(key: Key, ghost now: nat)
      requires Config?(Cfg()) && Represents(Cfg(), data[..], keys, now) && now == Epoch(Cfg(), |keys|) &&
        nGeneration == Label(now)
      modifies data
      ensures Represents(Cfg(), data[..], keys + [key], now)
    {
      hide WithBit, Last, Position, Represents, MarkedSoFar;
      MarkStart(Cfg(), data[..], keys, key, now);
      for n := 0 to nHashFuncs
        invariant MarkedSoFar(Cfg(), data[..], keys, key, now, n)
      {
        ghost var d := data[..];
        var p := Position(Cfg(), n, key);
        MarkNext(Cfg(), d, keys, key, now, n);
        data[2 * p.pair] := WithBit(data[2 * p.pair], p.bit, Odd(nGeneration));
        data[2 * p.pair + 1] := WithBit(data[2 * p.pair + 1], p.bit, High(nGeneration));
        assert data[..] == SetGen(d, p, nGeneration);
      }
      MarkDone(Cfg(), data[..], keys, key, now);
    }

    /** The positions are taken modulo the size of the table. */
    method Insert(key: Key)
      requires Valid() && data.Length > 0
      modifies this, data
      ensures Valid() && keys == old(keys) + [key] && nTweak == old(nTweak)
    {
      hide Represents;
      ghost var t := |keys|;
      if t > 0 { EpochNext(Cfg(), t - 1); } else { FirstEpoch(Cfg()); }
      if nEntriesThisGeneration == nEntriesPerGeneration {
        nEntriesThisGeneration := 0;
        nGeneration := nGeneration + 1;
        if nGeneration == 4 { nGeneration := 1; }
        WipeGeneration(Current(Cfg(), t));
      }
      nEntriesThisGeneration := nEntriesThisGeneration + 1;
      Mark(key, Epoch(Cfg(), t));
      keys := keys + [key];
    }

    /** A key is reported exactly if each of its positions is used by a key that is still remembered. */
    method Contains(key: Key) returns (found: bool)
      requires Valid() && data.Length > 0
      ensures found <==> forall n :: 0 <= n < nHashFuncs ==> Remembered(Cfg(), keys, Position(Cfg(), n, key))
    {
      hide Position, Last;
      for n := 0 to nHashFuncs
        invariant forall m :: 0 <= m < n ==> Remembered(Cfg(), keys, Position(Cfg(), m, key))
      {
        var p := Position(Cfg(), n, key);
        Kept(Cfg(), keys, p);
        if !Or(data[2 * p.pair], data[2 * p.pair + 1])[p.bit] { return false; }
      }
      return true;
    }
  }

  /** Some key of the current or the two previous generations uses the position. */
  ghost predicate Remembered(cfg: Config, keys: seq<Key>, p: Pos)
    requires Config?(cfg)
  {
    exists i :: 0 <= i < |keys| && Epoch(cfg, i) + 2 >= Current(cfg, |keys|) && Touches(cfg, keys[i], p, cfg.nHashFuncs)
  }

  lemma FirstEpoch(cfg: Config)
    requires Config?(cfg)
    ensures Epoch(cfg, 0) == 0
  {
    DivUnique(0, cfg.perGeneration, 0, 0);
  }

  lemma Kept(cfg: Config, keys: seq<Key>, p: Pos)
    requires Config?(cfg)
    ensures GenOf(cfg, keys, p, Current(cfg, |keys|)) != 0 <==> Remembered(cfg, keys, p)
  {
    var i := Last(cfg, keys, p);
    forall j | 0 <= j < |keys| && Touches(cfg, keys[j], p, cfg.nHashFuncs)
      ensures j <= i && Epoch(cfg, j) <= Epoch(cfg, i)
    {
      EpochMonotone(cfg, j, i);
    }
  }

  lemma AllZero(cfg: Config, data: seq<Word>)
    requires Config?(cfg) && |data| == cfg.size && forall i :: 0 <= i < |data| ==> data[i] == Mask(false)
    ensures Represents(cfg, data, [], 0)
  {
  }

  ghost predicate PairWiped(d: seq<Word>, d': seq<Word>, w: nat, odd: bool, high: bool)
    requires |d| == |d'| && 2 * w + 1 < |d|
  {
    && d'[2 * w] == Wipe(d[2 * w], d[2 * w], d[2 * w + 1], odd, high)
    && d'[2 * w + 1] == Wipe(d[2 * w + 1], d[2 * w], d[2 * w + 1], odd, high)
  }

  lemma AllWiped(cfg: Config, d: seq<Word>, d': seq<Word>, keys: seq<Key>, now: nat, g: nat)
    requires Config?(cfg) && Represents(cfg, d, keys, now) && g == Label(now + 1) && |d'| == |d|
    requires keys == [] || Epoch(cfg, |keys| - 1) <= now
    requires forall w: nat :: 2 * w + 1 < |d| ==> PairWiped(d, d', w, Odd(g), High(g))
    ensures Represents(cfg, d', keys, now + 1)
  {
    hide Wipe, GenOf;
    forall p | InData(d', p) ensures Gen(d', p) == GenOf(cfg, keys, p, now + 1) {
      assert InData(d, p) && PairWiped(d, d', p.pair, Odd(g), High(g));
      Wiped(d[2 * p.pair], d[2 * p.pair + 1], g, p.bit);
      WipeAges(cfg, keys, p, now);
    }
  }

  /** The first `n` positions of the key have been labelled. */
  ghost predicate MarkedSoFar(cfg: Config, data: seq<Word>, keys: seq<Key>, key: Key, now: nat, n: nat)
    requires Config?(cfg)
  {
    && |data| == cfg.size
    && forall p :: InData(data, p) ==>
         Gen(data, p) == if Touches(cfg, key, p, n) then Label(now) else GenOf(cfg, keys, p, now)
  }

  lemma MarkStart(cfg: Config, data: seq<Word>, keys: seq<Key>, key: Key, now: nat)
    requires Config?(cfg) && Represents(cfg, data, keys, now)
    ensures MarkedSoFar(cfg, data, keys, key, now, 0)
  {
  }

  lemma MarkNext(cfg: Config, data: seq<Word>, keys: seq<Key>, key: Key, now: nat, n: nat)
    requires Config?(cfg) && MarkedSoFar(cfg, data, keys, key, now, n)
    ensures InData(data, Position(cfg, n, key))
    ensures MarkedSoFar(cfg, SetGen(data, Position(cfg, n, key), Label(now)), keys, key, now, n + 1)
  {
    hide WithBit, GenOf, Position, Gen;
    var q := Position(cfg, n, key);
    var d' := SetGen(data, q, Label(now));
    forall p | InData(d', p)
      ensures Gen(d', p) == if Touches(cfg, key, p, n + 1) then Label(now) else GenOf(cfg, keys, p, now)
    {
      Marked(data, q, Label(now), p);
      TouchesNext(cfg, key, p, n);
    }
  }

  lemma TouchesNext(cfg: Config, key: Key, p: Pos, n: nat)
    requires Config?(cfg)
    ensures Touches(cfg, key, p, n + 1) <==> Touches(cfg, key, p, n) || Position(cfg, n, key) == p
  {
  }

  lemma MarkDone(cfg: Config, data: seq<Word>, keys: seq<Key>, key: Key, now: nat)
    requires Config?(cfg) && MarkedSoFar(cfg, data, keys, key, now, cfg.nHashFuncs) && now == Epoch(cfg, |keys|)
    ensures Represents(cfg, data, keys + [key], now)
  {
    hide GenOf, Gen;
    forall p | InData(data, p)
      ensures Gen(data, p) == GenOf(cfg, keys + [key], p, now)
    {
      KeyMarks(cfg, keys, key, p, now);
    }
  }

  // ---------------------------------------------------------------- no false negatives

  lemma {:induction false} EpochsApart(cfg: Config, i: nat, m: nat)
    requires Config?(cfg) && m <= 2 * cfg.perGeneration
    ensures Epoch(cfg, i + m) <= Epoch(cfg, i) + 2
  {
    var g := cfg.perGeneration;
    EpochMonotone(cfg, i + m, i + 2 * g);
    Distribute(i / g, 2, g);
    DivUnique(i + 2 * g, g, i / g + 2, i % g);
  }

  /** A key is never denied as long as no more than two generations of keys have come after it. */
  lemma NoFalseNegatives(cfg: Config, keys: seq<Key>, i: nat)
    requires Config?(cfg) && i < |keys| && |keys| - 1 - i <= 2 * cfg.perGeneration
    ensures forall n :: 0 <= n < cfg.nHashFuncs ==> Remembered(cfg, keys, Position(cfg, n, keys[i]))
  {
    EpochsApart(cfg, i, |keys| - 1 - i);
    forall n | 0 <= n < cfg.nHashFuncs ensures Remembered(cfg, keys, Position(cfg, n, keys[i])) {
      assert Touches(cfg, keys[i], Position(cfg, n, keys[i]), cfg.nHashFuncs);
    }
  }

  /** Nothing older than three generations is remembered. */
  lemma Forgotten(cfg: Config, keys: seq<Key>, i: nat)
    requires Config?(cfg) && i < |keys| && |keys| - 1 - i >= 3 * cfg.perGeneration
    ensures Epoch(cfg, i) + 2 < Current(cfg, |keys|)
  {
    var g := cfg.perGeneration;
    Distribute(i / g, 3, g);
    DivUnique(i + 3 * g, g, i / g + 3, i % g);
    EpochMonotone(cfg, i + 3 * g, |keys| - 1);
  }
}
