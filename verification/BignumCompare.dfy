/** cmp, diff and quorem: comparison, subtraction and quotients of big integers. */
module BignumCompare {
  import opened Arith
  import opened Limbs
  import opened Bignum

  /** cmp: negative, zero or positive as a is less than, equal to or greater than b. */
  method Cmp(a: Bigint, b: Bigint) returns (r: int)
    requires a.Valid() && b.Valid()
    ensures (r < 0 <==> a.Val() < b.Val()) && (r == 0 <==> a.Val() == b.Val())
  {
    ghost var s, t := a.x[..a.wds], b.x[..b.wds];
    hide Pow2;
    r := a.wds - b.wds;
    if r != 0 {
      if r > 0 { LongerIsLarger(s, t); } else { LongerIsLarger(t, s); }
      return;
    }
    var i := a.wds;
    while i > 0
      invariant 0 <= i <= |s| == |t| == b.wds && s[i..] == t[i..]
    {
      i := i - 1;
      if a.x[i] != b.x[i] {
        if a.x[i] < b.x[i] { TopDecides(s, t, i); return -1; } else { TopDecides(t, s, i); return 1; }
      }
      assert s[i..] == [s[i]] + s[i + 1..] && t[i..] == [t[i]] + t[i + 1..];
    }
    assert s[0..] == s && t[0..] == t;
  }

  lemma DiffStep(done: seq<ULong>, s: seq<ULong>, t: seq<ULong>, i: nat, borrow: nat, y: ULLong)
    requires i < |s| && i < |t| && borrow <= 1 && y == Wrap64(s[i] - t[i] - borrow)
    ensures y / B % 2 <= 1
    ensures Under(done + [y % B], Value(s[i + 1..]) - Value(t[i + 1..]) - y / B % 2)
            == Under(done, Value(s[i..]) - Value(t[i..]) - borrow)
  {
    Borrow(s[i] - t[i] - borrow);
    assert s[i..][1..] == s[i + 1..] && t[i..][1..] == t[i + 1..];
    UnderSnoc(done, y % B, Value(s[i + 1..]) - Value(t[i + 1..]) - y / B % 2);
  }

  lemma DiffStepTop(done: seq<ULong>, s: seq<ULong>, i: nat, borrow: nat, y: ULLong)
    requires i < |s| && borrow <= 1 && y == Wrap64(s[i] - borrow)
    ensures y / B % 2 <= 1
    ensures Under(done + [y % B], Value(s[i + 1..]) - y / B % 2) == Under(done, Value(s[i..]) - borrow)
  {
    Borrow(s[i] - borrow);
    assert s[i..][1..] == s[i + 1..];
    UnderSnoc(done, y % B, Value(s[i + 1..]) - y / B % 2);
  }

  /** The first loop of diff: limbs of both numbers. */
  method SubtractLow(c: array<ULong>, a: array<ULong>, wa: nat, b: array<ULong>, wb: nat) returns (borrow: nat)
    requires c != a && c != b && wb <= wa <= a.Length && wb <= b.Length && wa <= c.Length
    modifies c
    ensures borrow <= 1
    ensures Under(c[..wb], Value(a[..wa][wb..]) - borrow) == Value(a[..wa]) - Value(b[..wb])
  {
    ghost var s, t := a[..wa], b[..wb];
    ghost var d: int := Value(s) - Value(t);
    var i := 0;
    borrow := 0;
    assert c[..0] == [] && s[0..] == s && t[0..] == t;
    UnderEmpty(d);
    hide Under, Value, Wrap64;
    while i < wb
      invariant 0 <= i <= wb && borrow <= 1
      invariant Under(c[..i], Value(s[i..]) - Value(t[i..]) - borrow) == d
    {
      var y := Wrap64(a[i] - b[i] - borrow);
      ghost var done := c[..i];
      DiffStep(done, s, t, i, borrow, y);
      borrow := y / B % 2;
      c[i] := y % B;
      i := i + 1;
      assert c[..i] == done + [c[i - 1]];
    }
    assert t[wb..] == [];
    ValueOfEmpty();
  }

  /** The second loop of diff: the rest of the larger number. */
  method SubtractHigh(c: array<ULong>, a: array<ULong>, wa: nat, wb: nat, borrow0: nat, ghost d: nat)
    requires c != a && wb <= wa <= a.Length && wa <= c.Length && borrow0 <= 1
    requires Under(c[..wb], Value(a[..wa][wb..]) - borrow0) == d
    modifies c
    ensures Value(c[..wa]) == d
  {
    ghost var s := a[..wa];
    hide Under, Value, Wrap64;
    var i, borrow := wb, borrow0;
    while i < wa
      invariant wb <= i <= wa && 0 <= borrow <= 1
      invariant Under(c[..i], Value(s[i..]) - borrow) == d
    {
      var y := Wrap64(a[i] as int - borrow);
      ghost var done := c[..i];
      DiffStepTop(done, s, i, borrow, y);
      borrow := y / B % 2;
      c[i] := y % B;
      i := i + 1;
      assert c[..i] == done + [c[i - 1]];
    }
    assert s[wa..] == [];
    ValueOfEmpty();
    UnderMono(c[..wa], -borrow, -borrow);
    UnderZero(c[..wa]);
  }

  /** The loops of diff: the larger minus the smaller number, limb by limb. */
  method Subtract(c: array<ULong>, a: array<ULong>, wa: nat, b: array<ULong>, wb: nat)
    requires c != a && c != b && wb <= wa <= a.Length && wb <= b.Length && wa <= c.Length
    requires Value(a[..wa]) >= Value(b[..wb])
    modifies c
    ensures Value(c[..wa]) == Value(a[..wa]) - Value(b[..wb])
  {
    ghost var d := Value(a[..wa]) - Value(b[..wb]);
    var borrow := SubtractLow(c, a, wa, b, wb);
    SubtractHigh(c, a, wa, wb, borrow, d);
  }

  lemma ValueOfEmpty()
    ensures Value([]) == 0
  {
  }

  /** diff: the absolute difference, with sign set when a is the smaller. */
  method Diff(a: Bigint, b: Bigint) returns (c: Bigint)
    requires a.Valid() && b.Valid()
    ensures fresh(c) && fresh(c.x) && c.Valid() && (c.sign <==> a.Val() < b.Val())
    ensures c.Val() == if a.Val() < b.Val() then b.Val() - a.Val() else a.Val() - b.Val()
  {
    var i := Cmp(a, b);
    if i == 0 {
      c := new Bigint(0);
      c.wds := 1;
      c.x[0] := 0;
      assert c.x[..1] == [0] && Value([0]) == 0;
    } else if i < 0 {
      c := DiffOrdered(b, a, true);
    } else {
      c := DiffOrdered(a, b, false);
    }
  }

  /** The larger number first. */
  method DiffOrdered(a: Bigint, b: Bigint, sign: bool) returns (c: Bigint)
    requires a.Valid() && b.Valid() && a.Val() > b.Val()
    ensures fresh(c) && fresh(c.x) && c.Valid() && c.sign == sign && c.Val() == a.Val() - b.Val()
  {
    hide Pow2, Value;
    var wa, wb := a.wds, b.wds;
    if wb > wa { LongerIsLarger(b.x[..wb], a.x[..wa]); }
    c := new Bigint(a.k);
    c.sign := sign;
    Subtract(c.x, a.x, wa, b.x, wb);
    var wds := Trim(c.x, wa);
    c.wds := wds;
    NormalTop(c.x[..wds]);
  }

  // ---- quorem ---------------------------------------------------------------------------------

  /** b holds v; quorem drops even the last limb of a zero when S has just one limb. */
  ghost predicate Holds(b: Bigint, v: int)
    reads b, b.x
  {
    if b.wds == 0 then b.x.Length == Pow2(b.k) && b.x.Length > 0 && b.x[0] == 0 && v == 0 else b.Valid() && b.Val() == v
  }

  lemma QuoremStep(done: seq<ULong>, s: seq<ULong>, t: seq<ULong>, i: nat, q: ULong, carry: ULong, borrow: nat, ys: nat, y: ULLong)
    requires i < |s| && i < |t| && borrow <= 1 && carry < B
    requires ys == t[i] * q + carry && y == Wrap64(s[i] - ys % B - borrow)
    ensures ys < B * B && ys / B < B && y / B % 2 <= 1
    ensures Under(done + [y % B], Value(s[i + 1..]) - q * Value(t[i + 1..]) - ys / B - y / B % 2)
            == Under(done, Value(s[i..]) - q * Value(t[i..]) - carry - borrow)
  {
    MulMono(t[i], B - 1, q);
    MulMono(q, B - 1, B - 1);
    Borrow(s[i] - ys % B - borrow);
    assert s[i..][1..] == s[i + 1..] && t[i..][1..] == t[i + 1..];
    var v := Value(t[i + 1..]);
    assert q * (t[i] + B * v) == t[i] * q + B * (q * v);
    UnderSnoc(done, y % B, Value(s[i + 1..]) - q * v - ys / B - y / B % 2);
  }

  method SubtractLimb(x: array<ULong>, sx: ULong, i: nat, q: ULong, carry: ULong, borrow: nat, ghost s: seq<ULong>, ghost t: seq<ULong>)
    returns (carry': ULong, borrow': nat)
    requires i < x.Length && i < |s| && i < |t| && x[i] == s[i] && sx == t[i] && borrow <= 1
    modifies x
    ensures forall j :: 0 <= j < x.Length && j != i ==> x[j] == old(x[j])
    ensures borrow' <= 1
    ensures Under(x[..i + 1], Value(s[i + 1..]) - q * Value(t[i + 1..]) - carry' - borrow')
            == old(Under(x[..i], Value(s[i..]) - q * Value(t[i..]) - carry - borrow))
  {
    hide Under, Value, Wrap64;
    var ys: nat := sx * q + carry;
    var y := Wrap64(x[i] as int - ys % B - borrow);
    ghost var done := x[..i];
    QuoremStep(done, s, t, i, q, carry, borrow, ys, y);
    carry' := ys / B;
    borrow' := y / B % 2;
    x[i] := y % B;
    assert x[..i + 1] == done + [x[i]];
  }

  /** One of the two subtraction loops of quorem: q times S is taken off the n limbs of b. */
  method SubtractMultiple(x: array<ULong>, sx: array<ULong>, n: nat, q: ULong)
    requires x != sx && n <= x.Length && n <= sx.Length
    requires q * Value(sx[..n]) <= Value(x[..n])
    modifies x
    ensures Value(x[..n]) == old(Value(x[..n])) - q * Value(sx[..n])
  {
    ghost var s, t := x[..n], sx[..n];
    ghost var d: int := Value(s) - q * Value(t);
    var i, borrow, carry := 0, 0, 0;
    assert x[..0] == [] && s[0..] == s && t[0..] == t;
    UnderEmpty(d);
    hide Under, Value, Wrap64;
    while i < n
      invariant 0 <= i <= n && 0 <= borrow <= 1 && 0 <= carry < B
      invariant forall j :: i <= j < n ==> x[j] == s[j]
      invariant Under(x[..i], Value(s[i..]) - q * Value(t[i..]) - carry - borrow) == d
    {
      carry, borrow := SubtractLimb(x, sx[i], i, q, carry, borrow, s, t);
      i := i + 1;
    }
    assert s[n..] == [] && t[n..] == [];
    ValueOfEmpty();
    UnderMono(x[..n], -carry - borrow, -carry - borrow);
    UnderZero(x[..n]);
  }

  /** As dshift arranges it: the highest limb has exactly four leading zero bits. */
  predicate TopShifted(s: seq<ULong>) {
    s != [] && 0x800_0000 <= s[|s| - 1] < 0x1000_0000
  }

  lemma SplitTop(s: seq<ULong>)
    requires s != []
    ensures Value(s) == Under(s[..|s| - 1], s[|s| - 1])
  {
    var n := |s| - 1;
    assert s == s[..n] + [s[n]];
    UnderTop(s[..n], s[n]);
  }

  /** A number with more limbs than S is at least sixteen times as large. */
  lemma FewerLimbs(b: seq<ULong>, s: seq<ULong>)
    requires Normal(b) && TopShifted(s) && |b| > |s|
    ensures Value(b) >= 16 * Value(s)
  {
    var n := |s| - 1;
    SplitTop(s);
    UnderTake(b, n);
    var g := Value(b[n..]);
    assert g >= B by {
      var t := b[n + 1..];
      assert b[n..][1..] == t && t[|t| - 1] == b[|b| - 1];
      TopPositive(t);
    }
    MultipleBelow(16, s[..n], s[n], b[..n], g);
  }

  /** The estimate from the top limbs h and g is at most one too small. */
  lemma Estimate(b: seq<ULong>, s: seq<ULong>, h: nat, g: nat, q: nat)
    requires |b| == |s| && TopShifted(s) && h == s[|s| - 1] && g == b[|b| - 1]
    requires q * (h + 1) <= g < (q + 1) * (h + 1) && Value(b) < 16 * Value(s)
    ensures q < 16 && q * Value(s) <= Value(b) < (q + 2) * Value(s)
  {
    var n := |s| - 1;
    SplitTop(s);
    SplitTop(b);
    MultipleBelow(q, s[..n], h, b[..n], g);
    hide Under, Value;
    Distribute(q, Value(s));
    EstimateBound(q, Value(s), Value(b));
    TopBound(q, h, g);
    BelowMultiple(q + 2, s[..n], h, b[..n], g);
  }

  lemma Distribute(q: nat, v: nat)
    ensures q * (v + 1) == q * v + q
  {
  }

  lemma TopBound(q: nat, h: nat, g: nat)
    requires g < (q + 1) * (h + 1) && q < h
    ensures g + 1 <= (q + 2) * h
  {
    assert (q + 1) * (h + 1) == (q + 1) * h + (q + 1);
    assert (q + 2) * h == (q + 1) * h + h;
  }

  lemma EstimateBound(q: nat, v: nat, b: nat)
    requires q * v <= b < 16 * v
    ensures q < 16
  {
    if q >= 16 { MulMono(16, q, v); }
  }

  /** *bxe == 0: the remainder has lost its highest limb, and perhaps more of them. */
  method Shrink(b: Bigint, n0: nat, ghost v: int)
    requires b.wds == n0 + 1 <= b.x.Length && b.x.Length == Pow2(b.k) && Value(b.x[..n0 + 1]) == v
    modifies b`wds
    ensures Holds(b, v) && b.wds <= n0 + 1
    ensures b.wds < n0 + 1 ==> b.x[n0] == 0
  {
    hide Pow2, Value;
    if b.x[n0] == 0 {
      var n, i := n0, n0 - 1;
      while i > 0 && b.x[i] == 0
        invariant i == n - 1 && n <= n0 && forall j :: n <= j <= n0 ==> b.x[j] == 0
      {
        n := n - 1;
        i := i - 1;
      }
      b.wds := n;
      assert b.x[..n0 + 1][..n] == b.x[..n];
      ValueTrim(b.x[..n0 + 1], n);
      if n == 0 { assert b.x[..0] == []; ValueOfEmpty(); }
    }
  }

  /** q = *bxe / (*sxe + 1) */
  method Guess(b: Bigint, S: Bigint, n: nat) returns (q: nat)
    requires b.Valid() && S.Valid() && b.wds == S.wds == n + 1
    requires TopShifted(S.x[..S.wds]) && b.Val() < 16 * S.Val()
    ensures q < 16 && q * S.Val() <= b.Val() < (q + 2) * S.Val()
  {
    hide Pow2, Value, TopShifted;
    var h: nat := S.x[n];
    q := b.x[n] / (h + 1);
    NextMultiple(b.x[n], h + 1, q);
    Estimate(b.x[..b.wds], S.x[..S.wds], h, b.x[n], q);
  }

  /** quorem: the quotient of b by S, with the remainder left in b. */
  method Quorem(b: Bigint, S: Bigint) returns (q: nat)
    requires b.Valid() && S.Valid() && b != S && b.x != S.x
    requires TopShifted(S.x[..S.wds]) && b.Val() < 16 * S.Val()
    modifies b, b.x
    ensures Holds(b, old(b.Val()) - q * S.Val()) && 0 <= old(b.Val()) - q * S.Val() < S.Val() && q < 16
  {
    hide Pow2, Value, TopShifted, Normal;
    ghost var v, d := b.Val(), S.Val();
    if b.wds > S.wds { FewerLimbs(b.x[..b.wds], S.x[..S.wds]); }
    if b.wds < S.wds {
      LongerShifted(S.x[..S.wds], b.x[..b.wds]);
      return 0;
    }
    var n := S.wds - 1;
    q := Guess(b, S, n);
    if q != 0 {
      SubtractMultiple(b.x, S.x, n + 1, q);
      Shrink(b, n, v - q * d);
    }
    TopShiftedPositive(S.x[..S.wds]);
    q := Correct(b, S, n, q, v);
    EstimateBound(q, d, v);
  }

  lemma LongerShifted(t: seq<ULong>, s: seq<ULong>)
    requires TopShifted(t) && |t| > |s|
    ensures Value(t) > Value(s)
  {
    LongerIsLarger(t, s);
  }

  lemma TopShiftedPositive(t: seq<ULong>)
    requires TopShifted(t)
    ensures Value(t) > 0 && t[|t| - 1] != 0
  {
    TopPositive(t);
  }

  lemma NextMultiple(g: nat, m: nat, q: nat)
    requires m > 0 && q == g / m
    ensures q * m <= g < (q + 1) * m
  {
    DivParts(g, m);
    assert (q + 1) * m == q * m + m;
  }

  /** The estimate was one too small if b is not below S yet. */
  method Correct(b: Bigint, S: Bigint, n: nat, q: nat, ghost v: nat) returns (q': nat)
    requires S.Valid() && b != S && b.x != S.x && n == S.wds - 1 < b.x.Length && b.wds <= S.wds
    requires S.x[n] != 0 && S.Val() > 0
    requires q * S.Val() <= v < (q + 2) * S.Val() && Holds(b, v - q * S.Val())
    modifies b, b.x
    ensures q' <= q + 1 && q' * S.Val() <= v && v - q' * S.Val() < S.Val() && Holds(b, v - q' * S.Val())
  {
    ghost var d := S.Val();
    q' := q;
    assert (q + 1) * d == q * d + d && (q + 2) * d == q * d + 2 * d;
    hide Pow2, Value;
    var c := -1;
    if b.wds > 0 { c := Cmp(b, S); }
    if c >= 0 {
      q' := q + 1;
      if b.wds < S.wds { LongerIsLarger(S.x[..S.wds], b.x[..b.wds]); }
      assert 1 * d == d;
      SubtractMultiple(b.x, S.x, n + 1, 1);
      Shrink(b, n, v - q' * d);
    }
  }
}
