/** The part of dtoa between its estimates and its digits: b * 2^b2 * 5^b5 over 2^s2 * 5^s5
    is set up as a quotient of big integers, core/lua-cjson/dtoa.c:4084-4168. */
module DtoaScale {
  import opened Arith
  import opened Limbs
  import opened Bignum
  import opened BignumCompare
  import opened BignumShift
  import opened BignumPow5
  import opened DtoaDigits

  /** Rounding depends on the ratio only. */
  lemma RoundRatio(x: nat, d: nat, x': nat, d': nat)
    requires d > 0 && d' > 0 && x * d' == x' * d
    ensures RoundHalfEven(x, d) == RoundHalfEven(x', d')
  {
    var q, r := x / d, x % d;
    DivParts(x, d);
    var r': int := x' - q * d';
    assert r' * d == r * d' by {
      assert (q * d + r) * d' == q * (d * d') + r * d';
      assert (x' - q * d') * d == x' * d - q * (d * d');
    }
    SameSide(r, d, r', d');
    RoundOf(x, d, q, r);
    RoundOf(x', d', q, r');
  }

  lemma SameSide(r: nat, d: nat, r': int, d': nat)
    requires d > 0 && d' > 0 && r' * d == r * d' && r < d
    ensures 0 <= r' < d' && (2 * r > d <==> 2 * r' > d') && (2 * r == d <==> 2 * r' == d')
  {
    if r' < 0 { MulNegative(r', d); }
    if r' >= d' { MulMono(d', r', d); MulStrict(d', r, d); }
    CompareScaled(2 * r, d, 2 * r', d');
  }

  lemma MulNegative(x: int, d: nat)
    requires x < 0 < d
    ensures x * d < 0
  {
  }

  lemma CompareScaled(u: nat, d: nat, u': nat, d': nat)
    requires d > 0 && d' > 0 && u' * d == u * d'
    ensures (u > d <==> u' > d') && (u == d <==> u' == d')
  {
    assert d' * d == d * d';
    if u > d { MulStrict(d', d, u); }
    if u < d { MulStrict(d', u, d); }
    if u' > d' { MulStrict(d, d', u'); }
    if u' < d' { MulStrict(d, u', d'); }
  }

  /** b * 2^p2 * 5^p5 */
  function Scaled(b: nat, p2: nat, p5: nat): nat { b * Pow5(p5) * Pow2(p2) }

  /** Taking i factors of two from both sides and putting m back keeps the ratio. */
  lemma SameRatio(b: nat, b2: nat, b5: nat, s2: nat, s5: nat, i: nat, m: nat)
    requires i <= b2 && i <= s2
    ensures Scaled(b, b2, b5) * Scaled(1, s2 - i + m, s5) == Scaled(b, b2 - i + m, b5) * Scaled(1, s2, s5)
  {
    Pow2Add(b2 - i, i);
    Pow2Add(b2 - i, m);
    Pow2Add(s2 - i, i);
    Pow2Add(s2 - i, m);
    hide Pow2, Pow5;
    Exchange(b * Pow5(b5), Pow2(b2 - i), Pow2(i), Pow5(s5), Pow2(s2 - i), Pow2(m));
  }

  lemma Exchange(x: nat, p: nat, t: nat, y: nat, q: nat, w: nat)
    ensures (x * (p * t)) * (1 * y * (q * w)) == (x * (p * w)) * (1 * y * (q * t))
  {
    Associate(x, p, t);
    Associate(x, p, w);
    Associate(y, q, w);
    Associate(y, q, t);
    Swap(x * p, t, y * q, w);
  }

  lemma Swap(x: nat, t: nat, y: nat, w: nat)
    ensures (x * t) * (y * w) == (x * w) * (y * t)
  {
    Associate(x, t, y * w);
    Associate(x, w, y * t);
    Associate(t, y, w);
    Associate(w, y, t);
    assert t * y * w == w * y * t;
  }

  /** lshift when there is anything to shift. */
  method Shift(b: Bigint, n: nat) returns (b': Bigint)
    requires b.Valid() && b.Val() > 0
    ensures b'.Valid() && b'.Val() == b.Val() * Pow2(n) && b'.Val() > 0
    ensures b' == b || (fresh(b') && fresh(b'.x))
  {
    Pow2One();
    OnePow2(n);
    hide Pow2, Value, Normal;
    b' := b;
    if n > 0 {
      b' := LShift(b, n);
      MulMono(1, Pow2(n), b.Val());
    }
  }

  /** b = pow5mult(b, b5) if there is a power of five to multiply with. */
  method TimesPow5(p5s: P5s, b0: Bigint, b5: nat) returns (b: Bigint)
    requires p5s.Valid() && p5s.Apart(b0) && b0.Valid() && b0.Val() > 0
    modifies p5s, b0, b0.x
    ensures p5s.Valid() && fresh(p5s.repr - old(p5s.repr)) && p5s.Apart(b)
    ensures b == b0 || (fresh(b) && fresh(b.x))
    ensures b.Valid() && b.Val() == old(b0.Val()) * Pow5(b5) && b.Val() > 0
  {
    OnePow5(b0.Val(), b5);
    Pow5None();
    hide Pow2, Pow5, Value, Normal, P5s.Valid;
    b := b0;
    if b5 > 0 { b := p5s.Pow5Mult(b, b5); }
  }

  /** Both numbers of the quotient, with the common factor of two removed and the divisor
      shifted as quorem wants it. */
  method SetUp(p5s: P5s, b0: Bigint, b2: nat, b5: nat, s2: nat, s5: nat) returns (b: Bigint, S: Bigint)
    requires p5s.Valid() && p5s.Apart(b0) && b0.Valid() && b0.Val() > 0
    modifies p5s, b0, b0.x
    ensures p5s.Valid() && fresh(p5s.repr - old(p5s.repr))
    ensures b.Valid() && S.Valid() && b != S && b.x != S.x && TopShifted(S.x[..S.wds]) && S.Val() > 0
    ensures (b == b0 || (fresh(b) && fresh(b.x))) && fresh(S) && fresh(S.x) && p5s.Apart(b) && p5s.Apart(S)
    ensures Scaled(old(b0.Val()), b2, b5) * S.Val() == b.Val() * Scaled(1, s2, s5)
  {
    ghost var v := b0.Val();
    hide Pow2, Pow5, Value, Normal, TopShifted, P5s.Valid;
    b := TimesPow5(p5s, b0, b5);
    S := I2b(1);
    S := TimesPow5(p5s, S, s5);
    ghost var vb, vs := b.Val(), S.Val();
    ghost var m;
    b, S, m := Align(b, S, b2, s2);
    SameRatio(v, b2, b5, s2, s5, if b2 < s2 then b2 else s2, m);
  }

  /** The shifts: the common factor of two is left out, and m more bits are put in. */
  method Align(b0: Bigint, S0: Bigint, b2: nat, s2: nat) returns (b: Bigint, S: Bigint, ghost m: nat)
    requires b0.Valid() && b0.Val() > 0 && S0.Valid() && S0.Val() > 0 && b0 != S0 && b0.x != S0.x
    ensures b.Valid() && S.Valid() && b != S && b.x != S.x && TopShifted(S.x[..S.wds]) && S.Val() > 0
    ensures (b == b0 || (fresh(b) && fresh(b.x))) && (S == S0 || (fresh(S) && fresh(S.x)))
    ensures var i := if b2 < s2 then b2 else s2;
            b.Val() == b0.Val() * Pow2(b2 - i + m) && S.Val() == S0.Val() * Pow2(s2 - i + m)
  {
    hide Pow2, Value, Normal, TopShifted, ShiftsTop;
    var i := if b2 < s2 then b2 else s2;
    var n := DShift(S0, s2 - i);
    m := n;
    b := Shift(b0, b2 - i + n);
    S := Shift(S0, s2 - i + n);
    TopAfterShift(S0.x[..S0.wds], S.x[..S.wds], s2 - i + n);
  }

  lemma TopAfterShift(s: seq<ULong>, t: seq<ULong>, m: nat)
    requires ShiftsTop(s, m) && Normal(t) && Value(t) == Value(s) * Pow2(m)
    ensures TopShifted(t)
  {
    hide Pow2, Value, Normal, TopShifted;
  }

  lemma OnePow5(v: nat, n: nat)
    ensures v > 0 ==> v * Pow5(n) > 0
  {
    MulMono(1, Pow5(n), v);
  }

  /** dtoa for a fixed number of digits: the value b0 * 2^b2 * 5^b5 / (2^s2 * 5^s5), which
      lies between 1 and 10 or, when the estimate of k is still to be checked, between 1/10
      and 10, correctly rounded. */
  method FixedDigits(buf: array<char>, p5s: P5s, b0: Bigint, b2: nat, b5: nat, s2: nat, s5: nat,
                     k0: int, kCheck: bool, ilim0: nat, ilim1: nat) returns (s: nat, k: int)
    requires p5s.Valid() && p5s.Apart(b0) && b0.Valid() && b0.Val() > 0 && buf !in p5s.repr
    requires 1 <= ilim0 <= buf.Length && 1 <= ilim1 <= buf.Length
    requires var num, den := Scaled(b0.Val(), b2, b5), Scaled(1, s2, s5);
             num < 10 * den && if kCheck then den <= 10 * num else den <= num
    modifies buf, p5s, b0, b0.x
    ensures p5s.Valid() && s <= buf.Length
    ensures Correct(buf[..s], k, k0, ilim0, ilim1, old(Scaled(b0.Val(), b2, b5)), Scaled(1, s2, s5))
  {
    ghost var num, den := Scaled(b0.Val(), b2, b5), Scaled(1, s2, s5);
    hide Pow2, Pow5, Value, Normal, TopShifted, Scaled, Denotes, P5s.Valid;
    var b, S := SetUp(p5s, b0, b2, b5, s2, s5);
    s, k := ScaledDigits(buf, b, S, k0, kCheck, ilim0, ilim1, num, den);
  }

  /** The check of the estimate of k, and the digits. */
  method ScaledDigits(buf: array<char>, b0: Bigint, S: Bigint, k0: int, kCheck: bool, ilim0: nat, ilim1: nat, ghost num: nat, ghost den: nat)
    returns (s: nat, k: int)
    requires b0.Valid() && S.Valid() && b0 != S && b0.x != S.x && TopShifted(S.x[..S.wds]) && S.Val() > 0
    requires 1 <= ilim0 <= buf.Length && 1 <= ilim1 <= buf.Length
    requires num < 10 * den && if kCheck then den <= 10 * num else den <= num
    requires num * S.Val() == b0.Val() * den
    modifies buf, b0, b0.x
    ensures s <= buf.Length && Correct(buf[..s], k, k0, ilim0, ilim1, num, den)
  {
    hide Pow2, Value, Normal, TopShifted, Denotes, Pow10, RoundHalfEven;
    ghost var v, d := b0.Val(), S.Val();
    SmallerTogether(num, den, v, d);
    var b := b0;
    var kk, ilim := k0, ilim0;
    ghost var x := num;
    if kCheck {
      var c := Cmp(b, S);
      if c < 0 {
        kk := k0 - 1;
        b := MultAdd(b, 10, 0);
        ilim := ilim1;
        x := 10 * num;
        Tenfold(num, d, v, den);
      }
    }
    RatioTimes(x, d, b.Val(), den, Pow10(ilim - 1));
    s, k := GenerateDigits(buf, b, S, ilim, kk);
  }

  lemma Tenfold(x: nat, d: nat, w: nat, den: nat)
    requires x * d == w * den
    ensures (10 * x) * d == (w * 10) * den
  {
    assert (10 * x) * d == 10 * (x * d) && (w * 10) * den == 10 * (w * den);
  }

  lemma RatioTimes(x: nat, d: nat, w: nat, den: nat, p: nat)
    requires x * d == w * den && d > 0 && den > 0
    ensures RoundHalfEven(x * p, den) == RoundHalfEven(w * p, d)
  {
    Associate(x, d, p);
    Associate(w, den, p);
    assert (x * p) * d == x * (d * p) && (w * p) * den == w * (den * p);
    RoundRatio(x * p, den, w * p, d);
  }

  /** The ratio tells which of the two is smaller, and whether one is less than ten times the other. */
  lemma SmallerTogether(x: nat, d: nat, x': nat, d': nat)
    requires d' > 0 && x * d' == x' * d && x < 10 * d
    ensures (x < d <==> x' < d') && x' < 10 * d' && (d <= 10 * x ==> d' <= 10 * x')
  {
    assert d' * d == d * d';
    if x < d { MulStrict(d', x, d); Between(d, x', 0, d'); }
    if x' < d' { MulStrict(d, x', d'); Between(d', x, 0, d); }
    MulStrict(d', x, 10 * d);
    assert d' * (10 * d) == d * (10 * d');
    Between(d, x', 0, 10 * d');
    if d <= 10 * x {
      MulMono(d, 10 * x, d');
      assert 10 * x * d' == d * (10 * x');
      if 10 * x' < d' { MulStrict(d, 10 * x', d'); }
    }
  }

  /** The digits that are right for num / den, whose first digit is at place k0 or, when num
      is less than den, one further down. */
  ghost predicate Correct(digits: seq<char>, k: int, k0: int, ilim0: nat, ilim1: nat, num: nat, den: nat)
    requires ilim0 > 0 && ilim1 > 0
  {
    den > 0 &&
    var low := num < den;
    var ilim, kk, x := if low then ilim1 else ilim0, if low then k0 - 1 else k0, if low then 10 * num else num;
    kk <= k <= kk + 1 && Denotes(digits, k == kk + 1, ilim, RoundHalfEven(x * Pow10(ilim - 1), den))
  }
}
