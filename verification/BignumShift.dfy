/** dshift: how far to shift a divisor so that quorem's estimates are good. */
module BignumShift {
  import opened Arith
  import opened Limbs
  import opened Bignum
  import opened BignumCompare

  /** hi0bits: the number of leading zero bits of a limb, by halving. */
  method Hi0Bits(x0: ULong) returns (k: nat)
    ensures x0 == 0 ==> k == 32
    ensures x0 != 0 ==> k < 32 && Pow2(31 - k) <= x0 < Pow2(32 - k)
  {
    var x: nat;
    k, x := Hi0Nibbles(x0);
    PowSteps();
    hide Pow2;
    if x < 0x4000_0000 { PowNext(k, 2, x0); k, x := k + 2, x * 4; }
    assert x == Pow2(k) * x0;
    if x < 0x8000_0000 {
      PowNext(k, 1, x0);
      k := k + 1;
      if x < 0x4000_0000 { return 32; }
      x := x * 2;
    }
    LeadingBits(x0, k);
  }

  /** The steps of hi0bits by 16, 8 and 4 bits. */
  method Hi0Nibbles(x0: ULong) returns (k: nat, x: nat)
    ensures k <= 28 && x == Pow2(k) * x0 < 0x1_0000_0000
    ensures if x0 == 0 then x == 0 else x >= 0x1000_0000
  {
    x := x0;
    k := 0;
    PowSteps();
    hide Pow2;
    if x < 0x1_0000 { k, x := 16, x * 0x1_0000; }
    assert x == Pow2(k) * x0;
    if x < 0x100_0000 { PowNext(k, 8, x0); k, x := k + 8, x * 0x100; }
    assert x == Pow2(k) * x0 && k <= 24;
    if x < 0x1000_0000 { PowNext(k, 4, x0); k, x := k + 4, x * 0x10; }
  }

  lemma PowSteps()
    ensures Pow2(0) == 1 && Pow2(1) == 2 && Pow2(2) == 4 && Pow2(4) == 16 && Pow2(8) == 256 && Pow2(16) == 0x1_0000
  {
    assert Pow2(4) == 16;
    assert Pow2(8) == 16 * Pow2(4);
    Pow2Add(8, 8);
  }

  lemma PowNext(k: nat, n: nat, x: nat)
    ensures Pow2(k + n) * x == Pow2(n) * (Pow2(k) * x)
  {
    Pow2Add(k, n);
    Regroup(Pow2(n), Pow2(k), x);
    hide Pow2;
    assert Pow2(k) * Pow2(n) == Pow2(n) * Pow2(k);
    assert x * (Pow2(n) * Pow2(k)) == (Pow2(n) * Pow2(k)) * x;
  }

  lemma MulStrict(p: nat, x: nat, y: nat)
    requires p >= 1 && x < y
    ensures p * x < p * y
  {
    MulMono(x + 1, y, p);
    Distribute(p, x);
  }

  lemma Between(p: nat, x: nat, lo: nat, hi: nat)
    requires p >= 1 && p * lo <= p * x < p * hi
    ensures lo <= x < hi
  {
    if x < lo { MulStrict(p, x, lo); }
    if hi <= x { MulMono(hi, x, p); }
  }

  lemma Scale(p: nat, lo: nat, h: nat, hi: nat, v: nat)
    requires lo <= h < hi && p * h <= v < p * (h + 1)
    ensures p * lo <= v < p * hi
  {
    MulMono(lo, h, p);
    MulMono(h + 1, hi, p);
  }

  lemma LeadingBits(x: nat, k: nat)
    requires k < 32 && 0x8000_0000 <= Pow2(k) * x < 0x1_0000_0000
    ensures Pow2(31 - k) <= x < Pow2(32 - k)
  {
    Pow2Add(k, 31 - k);
    Pow2Add(k, 32 - k);
    PowTop();
    hide Pow2;
    Between(Pow2(k), x, Pow2(31 - k), Pow2(32 - k));
  }

  lemma PowTop()
    ensures Pow2(31) == 0x8000_0000 && Pow2(32) == 0x1_0000_0000
  {
    Pow32();
    assert Pow2(32) == 2 * Pow2(31);
  }

  /** dshift */
  method DShift(b: Bigint, p2: int) returns (r: nat)
    requires b.Valid() && b.Val() > 0
    ensures r < 32 && ShiftsTop(b.x[..b.wds], (if p2 > 0 then p2 else 0) + r)
  {
    var k := Hi0Bits(b.x[b.wds - 1]);
    var rv := k as int - 4;
    if p2 > 0 { rv := rv - p2; }
    r := rv % 32;
    NormalZero(b.x[..b.wds]);
    hide Pow2, Value;
    TopOfShifted(b.x[..b.wds], k, (if p2 > 0 then p2 else 0) + r);
  }

  /** Shifted by m bits, s has four leading zero bits in its highest limb. */
  ghost predicate ShiftsTop(s: seq<ULong>, m: nat) {
    forall t: seq<ULong> :: Normal(t) && Value(t) == Value(s) * Pow2(m) ==> TopShifted(t)
  }

  lemma {:induction false} UnderBounds(s: seq<ULong>, h: nat)
    ensures Pow2(32 * |s|) * h <= Under(s, h) < Pow2(32 * |s|) * (h + 1)
  {
    if s != [] {
      UnderBounds(s[1..], h);
      Pow32();
      Pow2Add(32, 32 * (|s| - 1));
      var p, u := Pow2(32 * (|s| - 1)), Under(s[1..], h);
      assert Pow2(32 * |s|) == B * p;
      hide Pow2, Under;
      assert (B * p) * h == B * (p * h) && (B * p) * (h + 1) == B * (p * (h + 1));
    }
  }

  lemma ValueBounds(s: seq<ULong>)
    requires s != []
    ensures var j := |s| - 1; var h: nat := s[j]; Pow2(32 * j) * h <= Value(s) < Pow2(32 * j) * (h + 1)
  {
    SplitTop(s);
    UnderBounds(s[..|s| - 1], s[|s| - 1]);
  }

  /** The highest limb of a number whose length in bits is 28 more than a multiple of 32. */
  lemma TopLimb(t: seq<ULong>, j: nat)
    requires Normal(t) && Pow2(32 * j + 27) <= Value(t) < Pow2(32 * j + 28)
    ensures TopShifted(t)
  {
    var n := |t| - 1;
    var p, h: nat := Pow2(32 * n), t[n];
    ValueBounds(t);
    hide Value;
    if n > j {
      Pow2Mono(32 * j + 28, 32 * n);
      MulMono(1, h, p);
    } else if n < j {
      Pow2Mono(32 * n + 32, 32 * j + 27);
      Pow2Add(32 * n, 32);
      PowTop();
      MulMono(h + 1, 0x1_0000_0000, p);
    } else {
      Pow2Add(32 * n, 27);
      Pow2Add(32 * n, 28);
      Powers();
      hide Pow2;
      if h + 1 <= 0x800_0000 { MulMono(h + 1, 0x800_0000, p); }
      if h >= 0x1000_0000 { MulMono(0x1000_0000, h, p); }
    }
  }

  lemma Powers()
    ensures Pow2(27) == 0x800_0000 && Pow2(28) == 0x1000_0000
  {
    PowTop();
    assert Pow2(31) == 8 * Pow2(28) && Pow2(28) == 2 * Pow2(27);
  }

  lemma TopOfShifted(s: seq<ULong>, k: nat, m: nat)
    requires Normal(s) && k < 32 && Pow2(31 - k) <= s[|s| - 1] < Pow2(32 - k) && (m + 4 - k) % 32 == 0
    ensures ShiftsTop(s, m)
  {
    var n := |s| - 1;
    var j := n + (m + 4 - k) / 32;
    LengthInBits(s, k);
    hide Value;
    ShiftedLength(Value(s), 32 * n + 31 - k, m);
    hide Pow2;
    assert 32 * n + 31 - k + m == 32 * j + 27;
    forall t: seq<ULong> | Normal(t) && Value(t) == Value(s) * Pow2(m) ensures TopShifted(t) { TopLimb(t, j); }
  }

  lemma LengthInBits(s: seq<ULong>, k: nat)
    requires s != [] && k < 32 && Pow2(31 - k) <= s[|s| - 1] < Pow2(32 - k)
    ensures var l := 32 * (|s| - 1) + 31 - k; Pow2(l) <= Value(s) < Pow2(l + 1)
  {
    var n := |s| - 1;
    var h: nat := s[n];
    ValueBounds(s);
    Pow2Add(32 * n, 31 - k);
    Pow2Add(32 * n, 32 - k);
    hide Pow2, Value;
    Scale(Pow2(32 * n), Pow2(31 - k), h, Pow2(32 - k), Value(s));
  }

  lemma ShiftedLength(v: nat, l: nat, m: nat)
    requires Pow2(l) <= v < Pow2(l + 1)
    ensures Pow2(l + m) <= v * Pow2(m) < Pow2(l + m + 1)
  {
    Pow2Add(l, m);
    Pow2Add(l + 1, m);
    OnePow2(m);
    hide Pow2;
    MulMono(Pow2(l), v, Pow2(m));
    MulMono(v + 1, Pow2(l + 1), Pow2(m));
    Distribute(Pow2(m), v);
  }
}
