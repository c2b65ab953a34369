/** The big integers of dtoa.c and the operations its digit generation uses. */
module Bignum {
  import opened Arith
  import opened Limbs

  class Bigint {
    const k: nat
    const x: array<ULong>
    var sign: bool
    var wds: nat

    /** maxwds is 1 << k. */
    ghost predicate Valid()
      reads this, x
    {
      x.Length == Pow2(k) && 1 <= wds <= x.Length && Normal(x[..wds])
    }

    ghost function Val(): nat
      requires Valid()
      reads this, x
    {
      Value(x[..wds])
    }

    /** Balloc: room for 1 << k limbs, none in use. */
    constructor (k: nat)
      ensures this.k == k && x.Length == Pow2(k) && wds == 0 && !sign && fresh(x)
    {
      this.k := k;
      x := new ULong[Pow2(k)];
      sign, wds := false, 0;
    }
  }

  // ---- multadd --------------------------------------------------------------------------------

  lemma MultAddStep(done: seq<ULong>, s: seq<ULong>, i: nat, m: nat, carry: ULong, y: nat)
    requires i < |s| && m < B && y == s[i] * m + carry
    ensures y < B * B && y / B < B && (s[i] >= 1 && m >= 1 ==> y >= 1)
    ensures Under(done + [y % B], y / B + m * Value(s[i + 1..])) == Under(done, carry + m * Value(s[i..]))
  {
    MulMono(s[i], B - 1, m);
    MulMono(m, B - 1, B - 1);
    if s[i] >= 1 { MulMono(1, s[i], m); }
    assert s[i..][1..] == s[i + 1..];
    var v := Value(s[i + 1..]);
    assert m * (s[i] + B * v) == s[i] * m + B * (m * v);
    UnderSnoc(done, y % B, y / B + m * v);
  }

  /** The limbs are multiplied in place; what is carried out is returned. */
  method MulLimbs(b: Bigint, m: nat, a: nat) returns (carry: nat)
    requires b.Valid() && 1 <= m < 0x8000_0000 && a < 0x8000_0000
    modifies b.x
    ensures carry < B && Under(b.x[..b.wds], carry) == m * old(b.Val()) + a
    ensures carry == 0 ==> b.Valid()
  {
    ghost var s := b.x[..b.wds];
    var i := 0;
    carry := a;
    assert s[0..] == s;
    while i < b.wds
      invariant 0 <= i <= b.wds == |s| && carry < B
      invariant forall j :: i <= j < b.wds ==> b.x[j] == s[j]
      invariant Under(b.x[..i], carry + m * Value(s[i..])) == m * Value(s) + a
      invariant i > 0 && s[i - 1] != 0 ==> carry > 0 || b.x[i - 1] != 0
    {
      ghost var done := b.x[..i];
      carry := MulLimb(b, m, carry, i, s);
      assert b.x[..i + 1] == done + [b.x[i]];
      i := i + 1;
    }
    assert s[b.wds..] == [];
  }

  method MulLimb(b: Bigint, m: nat, carry: ULong, i: nat, ghost s: seq<ULong>) returns (carry': ULong)
    requires i < b.x.Length && i < |s| && b.x[i] == s[i] && 1 <= m < 0x8000_0000
    modifies b.x
    ensures forall j :: 0 <= j < b.x.Length && j != i ==> b.x[j] == old(b.x[j])
    ensures Under(old(b.x[..i]) + [b.x[i]], carry' + m * Value(s[i + 1..])) == Under(old(b.x[..i]), carry + m * Value(s[i..]))
    ensures s[i] != 0 ==> carry' > 0 || b.x[i] != 0
  {
    var y: nat := b.x[i] * m + carry;
    MultAddStep(b.x[..i], s, i, m, carry, y);
    carry' := y / B;
    b.x[i] := y % B;
  }

  /** multadd: multiply by m and add a, in place, growing the number by a limb if it must. */
  method MultAdd(b: Bigint, m: nat, a: nat) returns (r: Bigint)
    requires b.Valid() && 1 <= m < 0x8000_0000 && a < 0x8000_0000
    modifies b, b.x
    ensures r.Valid() && r.Val() == old(b.Val()) * m + a
    ensures r == b || (fresh(r) && fresh(r.x))
  {
    hide Under, Value, Pow2;
    var carry := MulLimbs(b, m, a);
    UnderZero(b.x[..b.wds]);
    r := b;
    if carry != 0 {
      UnderTop(b.x[..b.wds], carry);
      r := Append(b, carry);
    }
  }

  lemma UnderTop(s: seq<ULong>, h: ULong)
    ensures Value(s + [h]) == Under(s, h)
  {
    ValueConcat(s, [h]);
    assert Value([h]) == h;
  }

  /** One more limb on top. */
  method Append(b: Bigint, carry: ULong) returns (r: Bigint)
    requires b.x.Length == Pow2(b.k) && 1 <= b.wds <= b.x.Length && carry != 0
    modifies b, b.x
    ensures r.Valid() && r.x[..r.wds] == old(b.x[..b.wds]) + [carry]
    ensures r == b || (fresh(r) && fresh(r.x))
  {
    hide Pow2;
    r := b;
    if b.wds >= b.x.Length {
      r := Grow(b);
    }
    var wds := r.wds;
    r.x[wds] := carry;
    r.wds := wds + 1;
  }

  /** The copy of a full number with twice the room. */
  method Grow(b: Bigint) returns (r: Bigint)
    requires b.x.Length == Pow2(b.k) == b.wds
    ensures fresh(r) && fresh(r.x) && r.k == b.k + 1 && r.x.Length == 2 * b.x.Length == Pow2(r.k)
    ensures r.sign == b.sign && r.wds == b.wds && r.x[..r.wds] == b.x[..b.wds]
  {
    r := new Bigint(b.k + 1);
    r.sign, r.wds := b.sign, b.wds;
    for i := 0 to b.wds
      invariant r.sign == b.sign && r.wds == b.wds && r.x[..i] == b.x[..i]
    {
      r.x[i] := b.x[i];
    }
  }

  // ---- mult -----------------------------------------------------------------------------------

  lemma MultStep(done: seq<ULong>, a: seq<ULong>, i: nat, y: ULong, carry: ULong, x: ULong, rest: seq<ULong>, z: nat)
    requires i < |a| && z == a[i] * y + x + carry
    ensures z < B * B && z / B < B
    ensures Under(done + [z % B], z / B + y * Value(a[i + 1..]) + Value(rest))
            == Under(done, carry + y * Value(a[i..]) + Value([x] + rest))
  {
    MulMono(a[i], B - 1, y);
    MulMono(y, B - 1, B - 1);
    assert a[i..][1..] == a[i + 1..];
    assert ([x] + rest)[1..] == rest;
    var v := Value(a[i + 1..]);
    assert y * (a[i] + B * v) == a[i] * y + B * (y * v);
    UnderSnoc(done, z % B, z / B + y * v + Value(rest));
  }

  lemma UnderEmpty(h: int)
    ensures Under([], h) == h
  {
  }

  lemma ValueEmpty(y: nat)
    ensures y * Value([]) == 0
  {
  }

  /** The loop of mult for one limb y of the shorter number: y times a is added at limb j. */
  method MultRow(c: array<ULong>, j: nat, wc: nat, a: array<ULong>, wa: nat, y: ULong)
    requires c != a && wa <= a.Length && j + wa < wc <= c.Length
    requires forall m :: j + wa <= m < wc ==> c[m] == 0
    modifies c
    ensures forall m :: 0 <= m < c.Length && (m < j || j + wa < m) ==> c[m] == old(c[m])
    ensures Value(c[j..wc]) == old(Value(c[j..wc])) + y * Value(a[..wa])
  {
    hide Value, Under;
    ghost var c0, s := c[j..wc], a[..wa];
    UnderEmpty(y * Value(s) + Value(c0));
    var i: nat, carry: ULong := 0, 0;
    assert c[j..j] == [] && s[0..] == s;
    while i < wa
      invariant 0 <= i <= wa && carry < B
      invariant forall m :: 0 <= m < c.Length && (m < j || j + i <= m) ==> c[m] == old(c[m])
      invariant Under(c[j..j + i], carry + y * Value(s[i..]) + Value(c[j + i..wc])) == Value(c0) + y * Value(s)
    {
      carry := MultLimb(c, j, wc, a[i], s, i, carry, y);
      i := i + 1;
    }
    assert s[wa..] == [];
    ValueEmpty(y);
    assert forall m :: j + wa <= m < wc ==> c[m] == 0;
    ValueZeros(c[j + wa..wc]);
    ghost var done, zeros := c[j..j + wa], c[j + wa + 1..wc];
    c[j + wa] := carry;
    assert c[j..wc] == done + ([carry] + zeros);
    RowTop(done, carry, zeros);
  }

  lemma RowTop(done: seq<ULong>, h: ULong, zeros: seq<ULong>)
    requires forall i :: 0 <= i < |zeros| ==> zeros[i] == 0
    ensures Value(done + ([h] + zeros)) == Under(done, h)
  {
    ValueConcat(done, [h] + zeros);
    assert ([h] + zeros)[1..] == zeros;
    ValueZeros(zeros);
  }

  method MultLimb(c: array<ULong>, j: nat, wc: nat, x: ULong, ghost s: seq<ULong>, i: nat, carry: ULong, y: ULong)
    returns (carry': ULong)
    requires i < |s| && x == s[i] && j + i < wc <= c.Length
    modifies c
    ensures forall m :: 0 <= m < c.Length && m != j + i ==> c[m] == old(c[m])
    ensures Under(c[j..j + i + 1], carry' + y * Value(s[i + 1..]) + Value(c[j + i + 1..wc]))
            == old(Under(c[j..j + i], carry + y * Value(s[i..]) + Value(c[j + i..wc])))
  {
    ghost var done, rest := c[j..j + i], c[j + i + 1..wc];
    var z: nat := x * y + c[j + i] + carry;
    MultStep(done, s, i, y, carry, c[j + i], rest, z);
    assert c[j + i..wc] == [c[j + i]] + rest;
    carry' := z / B;
    c[j + i] := z % B;
    assert c[j..j + i + 1] == done + [z % B];
    assert c[j + i + 1..wc] == rest;
  }

  lemma RowsStep(c: seq<ULong>, c': seq<ULong>, j: nat, va: nat, b: seq<ULong>)
    requires |c| == |c'| && j < |c| && j < |b| && c'[..j] == c[..j]
    requires Value(c'[j..]) == Value(c[j..]) + b[j] * va
    ensures Under(c'[..j + 1], Value(c'[j + 1..]) + va * Value(b[j + 1..])) == Under(c[..j], Value(c[j..]) + va * Value(b[j..]))
  {
    assert c'[..j + 1] == c'[..j] + [c'[j]];
    assert c'[j..][1..] == c'[j + 1..] && b[j..][1..] == b[j + 1..];
    var v := Value(b[j + 1..]);
    assert va * (b[j] + B * v) == b[j] * va + B * (va * v);
    UnderSnoc(c'[..j], c'[j], Value(c'[j + 1..]) + va * v);
  }

  /** The rows of mult: c, all zero at first, becomes the product. */
  method MultRows(c: array<ULong>, wc: nat, a: array<ULong>, wa: nat, b: array<ULong>, wb: nat)
    requires c != a && c != b && wa <= a.Length && wb <= b.Length && wc == wa + wb <= c.Length && wa > 0
    requires forall m :: 0 <= m < wc ==> c[m] == 0
    modifies c
    ensures Value(c[..wc]) == Value(a[..wa]) * Value(b[..wb])
  {
    hide Value, Under;
    ghost var s := b[..wb];
    ghost var va := Value(a[..wa]);
    assert c[..0] == [] && c[0..wc] == c[..wc] && s[0..] == s;
    UnderEmpty(Value(c[0..wc]) + va * Value(s));
    ValueZeros(c[0..wc]);
    for j := 0 to wb
      invariant forall m :: j + wa <= m < wc ==> c[m] == 0
      invariant Under(c[..j], Value(c[j..wc]) + va * Value(s[j..])) == va * Value(s)
    {
      ghost var c0 := c[..wc];
      assert c0[j..] == c[j..wc] && c0[..j] == c[..j];
      var y := b[j];
      assert y == s[j];
      if y != 0 {
        MultRow(c, j, wc, a, wa, y);
      }
      assert c[..wc][j..] == c[j..wc];
      RowsStep(c0, c[..wc], j, va, s);
      assert c[..wc][..j + 1] == c[..j + 1] && c[..wc][j + 1..] == c[j + 1..wc] && c0[..j] == c[..j];
    }
    assert s[wb..] == [];
    ValueEmpty(va);
    assert c[..wc] == c[..wb] + c[wb..wc];
    ValueConcat(c[..wb], c[wb..wc]);
  }

  /** mult: the product in a new number; the limbs of a zero product are all dropped. */
  method Mult(a: Bigint, b: Bigint) returns (c: Bigint)
    requires a.Valid() && b.Valid()
    ensures fresh(c) && fresh(c.x)
    ensures if a.Val() * b.Val() == 0 then c.wds == 0 else c.Valid() && c.Val() == a.Val() * b.Val()
  {
    if a.wds < b.wds {
      assert a.Val() * b.Val() == b.Val() * a.Val();
      c := MultOrdered(b, a);
    } else {
      c := MultOrdered(a, b);
    }
  }

  /** The longer number first. */
  method MultOrdered(a: Bigint, b: Bigint) returns (c: Bigint)
    requires a.Valid() && b.Valid() && a.wds >= b.wds
    ensures fresh(c) && fresh(c.x)
    ensures if a.Val() * b.Val() == 0 then c.wds == 0 else c.Valid() && c.Val() == a.Val() * b.Val()
  {
    hide Value, Normal;
    var k, wa, wb := a.k, a.wds, b.wds;
    var wc := wa + wb;
    if wc > a.x.Length { k := k + 1; }
    c := new Bigint(k);
    forall m | 0 <= m < wc { c.x[m] := 0; }
    MultRows(c.x, wc, a.x, wa, b.x, wb);
    hide Pow2;
    var wds := Trim(c.x, wc);
    c.wds := wds;
    if wds > 0 { NormalTop(c.x[..wds]); }
  }

  lemma NormalTop(s: seq<ULong>)
    requires s != [] && s[|s| - 1] != 0
    ensures Normal(s)
  {
  }

  /** Drops leading zeros. */
  method Trim(x: array<ULong>, n: nat) returns (wds: nat)
    requires n <= x.Length
    ensures wds <= n && Value(x[..wds]) == Value(x[..n])
    ensures if Value(x[..n]) == 0 then wds == 0 else wds > 0 && x[wds - 1] != 0
  {
    wds := n;
    while wds > 0 && x[wds - 1] == 0
      invariant wds <= n && forall i :: wds <= i < n ==> x[i] == 0
    {
      wds := wds - 1;
    }
    assert x[..n][..wds] == x[..wds];
    ValueTrim(x[..n], wds);
    if wds > 0 { TopPositive(x[..wds]); }
  }

  // ---- lshift ---------------------------------------------------------------------------------

  /** The limbs of x go to x1 from n on, shifted left by 0 < k < 32 bits; the bits shifted
      out at the top are returned. */
  method ShiftLimbs(x: array<ULong>, wds: nat, x1: array<ULong>, n: nat, k: nat) returns (z: ULong)
    requires x != x1 && 1 <= wds <= x.Length && n + wds <= x1.Length && 0 < k < 32
    modifies x1
    ensures forall j :: 0 <= j < n ==> x1[j] == old(x1[j])
    ensures Under(x1[n..n + wds], z) == Pow2(k) * Value(x[..wds])
    ensures x[wds - 1] != 0 ==> z > 0 || x1[n + wds - 1] != 0
  {
    ghost var s := x[..wds];
    PowParts(k);
    OnePow2(k);
    OnePow2(32 - k);
    var m, d := Pow2(k), Pow2(32 - k);
    assert m < B by {
      Pow2Mono(k, 31);
      SmallPow2();
    }
    var i: nat := 0;
    z := 0;
    assert x1[n..n] == [] && s[0..] == s;
    hide Under, Value, Pow2;
    UnderEmpty(m * Value(s));
    while i < wds
      invariant 0 <= i <= wds && z < m
      invariant forall j :: 0 <= j < n ==> x1[j] == old(x1[j])
      invariant Under(x1[n..n + i], z + m * Value(s[i..])) == m * Value(s)
      invariant i > 0 && s[i - 1] != 0 ==> z > 0 || x1[n + i - 1] != 0
    {
      z := ShiftOne(x1, n, x[i], m, d, z, s, i);
      i := i + 1;
    }
    assert s[wds..] == [];
    ValueEmpty(m);
  }

  lemma OnePow2(k: nat)
    ensures Pow2(k) >= 1
  {
  }

  /** *x1++ = *x << k | z; z = *x++ >> k1; for m = 1 << k and d = 1 << k1 */
  method ShiftOne(x1: array<ULong>, n: nat, x: ULong, m: nat, d: nat, z: ULong, ghost s: seq<ULong>, i: nat)
    returns (z': ULong)
    requires n + i < x1.Length && 0 < m < B && m * d == B && d > 0 && z < m && i < |s| && x == s[i]
    modifies x1
    ensures forall j :: 0 <= j < x1.Length && j != n + i ==> x1[j] == old(x1[j])
    ensures z' < m
    ensures Under(x1[n..n + i + 1], z' + m * Value(s[i + 1..])) == old(Under(x1[n..n + i], z + m * Value(s[i..])))
    ensures x != 0 ==> z' > 0 || x1[n + i] != 0
  {
    hide Under, Value;
    ghost var y, done := x * m + z, x1[n..n + i];
    ShiftLimb(x, m, d, z);
    MultAddStep(done, s, i, m, z, y);
    x1[n + i] := x * m % B + z;
    assert x1[n..n + i + 1] == done + [x1[n + i]];
    z' := x / d;
  }

  lemma SmallPow2()
    ensures Pow2(31) < B
  {
    Pow32();
    assert Pow2(32) == 2 * Pow2(31);
  }

  /** lshift: a new number with k more bits below. Shifting zero by whole limbs leaves
      leading zeros. */
  method LShift(b: Bigint, k: nat) returns (b1: Bigint)
    requires b.Valid()
    ensures fresh(b1) && fresh(b1.x)
    ensures b1.x.Length == Pow2(b1.k) && 1 <= b1.wds <= b1.x.Length && Value(b1.x[..b1.wds]) == b.Val() * Pow2(k)
    ensures b1.Valid() <==> b.Val() > 0 || k < 32
  {
    var n := k / 32;
    var n1 := n + b.wds + 1;
    b1 := Room(b.k, n1);
    forall j | 0 <= j < n { b1.x[j] := 0; }
    hide Pow2, Value, Normal;
    n1 := ShiftAll(b, b1.x, n, k % 32);
    b1.wds := n1 - 1;
    ShiftNormal(b.x[..b.wds], b1.x[..b1.wds], k);
    ShiftValue(b1.x[..n], b1.x[n..b1.wds], b.x[..b.wds], k);
    assert b1.x[..b1.wds] == b1.x[..n] + b1.x[n..b1.wds];
  }

  lemma ShiftValue(zeros: seq<ULong>, mid: seq<ULong>, s: seq<ULong>, k: nat)
    requires |zeros| == k / 32 && forall i :: 0 <= i < |zeros| ==> zeros[i] == 0
    requires Value(mid) == Pow2(k % 32) * Value(s)
    ensures Value(zeros + mid) == Value(s) * Pow2(k)
  {
    ValueConcat(zeros, mid);
    UnderZeros(zeros, Value(mid));
    Pow2Add(32 * (k / 32), k % 32);
    hide Value, Pow2, Under;
    var p, q, v := Pow2(32 * (k / 32)), Pow2(k % 32), Value(s);
    Regroup(p, q, v);
  }

  lemma Regroup(p: nat, q: nat, v: nat)
    ensures p * (q * v) == v * (p * q)
  {
  }

  lemma ShiftNormal(s: seq<ULong>, t: seq<ULong>, k: nat)
    requires Normal(s) && t != []
    requires if s[|s| - 1] != 0 then t[|t| - 1] != 0 else |t| == k / 32 + 1 && t[|t| - 1] == 0
    ensures Normal(t) <==> Value(s) > 0 || k < 32
  {
    NormalZero(s);
    hide Value;
  }

  lemma NormalZero(s: seq<ULong>)
    requires Normal(s)
    ensures Value(s) == 0 <==> s[|s| - 1] == 0
  {
    if s[|s| - 1] != 0 { TopPositive(s); }
  }

  /** A new number with at least n1 limbs and at least 1 << k of them. */
  method Room(k: nat, n1: nat) returns (b1: Bigint)
    ensures fresh(b1) && fresh(b1.x) && b1.x.Length == Pow2(b1.k) && n1 <= b1.x.Length
  {
    var k1, i := k, Pow2(k);
    while n1 > i
      invariant i == Pow2(k1)
      decreases n1 - i
    {
      i := 2 * i;
      k1 := k1 + 1;
    }
    b1 := new Bigint(k1);
  }

  /** The limbs of b above the n zero limbs of x1, shifted by k bits; one past the top. */
  method ShiftAll(b: Bigint, x1: array<ULong>, n: nat, k: nat) returns (n1: nat)
    requires b.Valid() && x1 != b.x && k < 32 && n + b.wds + 1 <= x1.Length
    modifies x1
    ensures forall j :: 0 <= j < n ==> x1[j] == old(x1[j])
    ensures n + b.wds + 1 <= n1 <= n + b.wds + 2 && n1 - 1 <= x1.Length
    ensures Value(x1[n..n1 - 1]) == Pow2(k) * b.Val()
    ensures b.x[b.wds - 1] != 0 ==> x1[n1 - 2] != 0
    ensures b.x[b.wds - 1] == 0 ==> n1 == n + b.wds + 1 && x1[n] == 0
  {
    n1 := n + b.wds + 1;
    if k != 0 {
      var z := ShiftLimbs(b.x, b.wds, x1, n, k);
      ghost var done := x1[n..n + b.wds];
      x1[n1 - 1] := z;
      hide Pow2;
      if z != 0 {
        UnderTop(done, z);
        assert x1[n..n1] == done + [z];
        n1 := n1 + 1;
      } else {
        UnderZero(done);
        assert x1[n..n1 - 1] == done;
      }
    } else {
      forall j | 0 <= j < b.wds { x1[n + j] := b.x[j]; }
      assert x1[n..n + b.wds] == b.x[..b.wds];
    }
  }
}
