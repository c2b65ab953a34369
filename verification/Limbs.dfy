/** Numbers as sequences of 32-bit limbs, least significant first. */
module Limbs {
  import opened Arith

  const B: nat := 0x1_0000_0000

  type ULong = n: nat | n < 0x1_0000_0000
  type ULLong = n: nat | n < 0x1_0000_0000_0000_0000

  function Value(s: seq<ULong>): nat {
    if s == [] then 0 else s[0] + B * Value(s[1..])
  }

  /** The limbs of s with the number h above them. */
  function Under(s: seq<ULong>, h: int): int {
    if s == [] then h else s[0] + B * Under(s[1..], h)
  }

  /** No leading zero, except for zero itself. */
  predicate Normal(s: seq<ULong>) {
    |s| >= 1 && (|s| > 1 ==> s[|s| - 1] != 0)
  }

  lemma {:induction false} UnderSnoc(s: seq<ULong>, x: ULong, h: int)
    ensures Under(s + [x], h) == Under(s, x + B * h)
  {
    if s != [] {
      assert (s + [x])[1..] == s[1..] + [x];
      UnderSnoc(s[1..], x, h);
    }
  }

  lemma {:induction false} UnderConcat(s: seq<ULong>, t: seq<ULong>, h: int)
    ensures Under(s + t, h) == Under(s, Under(t, h))
  {
    if s == [] {
      assert s + t == t;
    } else {
      assert (s + t)[1..] == s[1..] + t;
      UnderConcat(s[1..], t, h);
    }
  }

  lemma {:induction false} UnderZero(s: seq<ULong>)
    ensures Under(s, 0) == Value(s)
  {
    if s != [] { UnderZero(s[1..]); }
  }

  lemma {:induction false} ValueConcat(s: seq<ULong>, t: seq<ULong>)
    ensures Value(s + t) == Under(s, Value(t))
  {
    UnderZero(s + t);
    UnderZero(t);
    UnderConcat(s, t, 0);
  }

  lemma {:induction false} UnderMono(s: seq<ULong>, g: int, h: int)
    ensures g < h ==> Under(s, g) < Under(s, h)
    ensures g <= h ==> Under(s, g) <= Under(s, h)
    ensures (Under(s, h) >= 0 ==> h >= 0) && (h >= 0 ==> Under(s, h) >= h)
  {
    if s != [] { UnderMono(s[1..], g, h); }
  }

  lemma {:induction false} ValueZeros(s: seq<ULong>)
    requires forall i :: 0 <= i < |s| ==> s[i] == 0
    ensures Value(s) == 0
  {
    if s != [] { ValueZeros(s[1..]); }
  }

  /** Leading zeros do not count. */
  lemma ValueTrim(s: seq<ULong>, n: nat)
    requires n <= |s| && forall i :: n <= i < |s| ==> s[i] == 0
    ensures Value(s[..n]) == Value(s)
  {
    assert s == s[..n] + s[n..];
    ValueConcat(s[..n], s[n..]);
    ValueZeros(s[n..]);
    UnderZero(s[..n]);
  }

  /** The longer of two numbers without leading zeros is the larger. */
  lemma {:induction false} LongerIsLarger(s: seq<ULong>, t: seq<ULong>)
    requires |s| > |t| && s[|s| - 1] != 0
    ensures Value(s) > Value(t)
  {
    if t == [] {
      TopPositive(s);
    } else {
      LongerIsLarger(s[1..], t[1..]);
    }
  }

  lemma {:induction false} TopPositive(s: seq<ULong>)
    requires s != [] && s[|s| - 1] != 0
    ensures Value(s) > 0
  {
    if |s| > 1 { TopPositive(s[1..]); }
  }

  /** The first difference from the top decides. */
  lemma {:induction false} TopDecides(s: seq<ULong>, t: seq<ULong>, i: nat)
    requires |s| == |t| && i < |s| && s[i] < t[i] && s[i + 1..] == t[i + 1..]
    ensures Value(s) < Value(t)
  {
    if i > 0 {
      assert s[1..][i..] == s[i + 1..] && t[1..][i..] == t[i + 1..];
      TopDecides(s[1..], t[1..], i - 1);
    } else {
      assert s[1..] == t[1..];
    }
  }

  lemma Pow32()
    ensures Pow2(32) == B
  {
    Pow2Add(16, 16);
    Pow2Add(8, 8);
    assert Pow2(8) == 256;
  }

  /** n zero limbs below a number shift it by 32n bits. */
  lemma {:induction false} UnderZeros(s: seq<ULong>, h: int)
    requires forall i :: 0 <= i < |s| ==> s[i] == 0
    ensures Under(s, h) == Pow2(32 * |s|) * h
  {
    if s != [] {
      UnderZeros(s[1..], h);
      Pow32();
      Pow2Add(32, 32 * (|s| - 1));
      assert B * (Pow2(32 * (|s| - 1)) * h) == (B * Pow2(32 * (|s| - 1))) * h;
    }
  }

  lemma ShiftParts(x: ULong, p: nat, r: nat, q: nat, t: nat, z: nat)
    requires p * r == B && z < p && t < r && x == q * r + t
    ensures x * p % B + z == (x * p + z) % B && q == (x * p + z) / B && q < p
  {
    assert x * p == q * B + t * p by { assert (q * r + t) * p == q * (p * r) + t * p; }
    MulMono(t, r - 1, p);
    assert (r - 1) * p == B - p;
    DivModUnique(x * p, B, q, t * p);
    DivModUnique(x * p + z, B, q, t * p + z);
    if q >= p { MulMono(p, q, r); }
  }

  /** One limb shifted left by k bits, for p = 2^k and r = 2^(32-k), with z coming in below:
      what stays and what goes out. */
  lemma ShiftLimb(x: ULong, p: nat, r: nat, z: nat)
    requires p * r == B && z < p && r > 0
    ensures x * p % B + z == (x * p + z) % B && x / r == (x * p + z) / B < p
  {
    DivParts(x, r);
    ShiftParts(x, p, r, x / r, x % r, z);
  }

  lemma DivParts(x: nat, r: nat)
    requires r > 0
    ensures x == (x / r) * r + x % r && x % r < r
  {
  }

  lemma PowParts(k: nat)
    requires k <= 32
    ensures Pow2(k) * Pow2(32 - k) == B
  {
    Pow2Add(k, 32 - k);
    Pow32();
  }

  // ---- subtraction and quotients --------------------------------------------------------------

  /** An unsigned long long difference. */
  function Wrap64(d: int): ULLong { d % 0x1_0000_0000_0000_0000 }

  /** y & FFFFFFFF and y >> 32 & 1 are the limb and the borrow of a difference. */
  lemma Borrow(d: int)
    requires -0x1_0000_0000 <= d < 0x1_0000_0000
    ensures var y := Wrap64(d); d == y % B - B * (y / B % 2) && y / B % 2 == if d < 0 then 1 else 0
  {
    if d < 0 {
      assert Wrap64(d) == d + B * B;
      DivModUnique(d + B * B, B, B - 1, d + B);
    }
  }

  /** A multiple of a number stays below another when its top does, with one to spare. */
  lemma {:induction false} MultipleBelow(q: nat, s: seq<ULong>, h: nat, t: seq<ULong>, g: nat)
    requires |s| == |t| && q * (h + 1) <= g
    ensures q * (Under(s, h) + 1) <= Under(t, g)
  {
    if s != [] {
      MultipleBelow(q, s[1..], h, t[1..], g);
      UnderMono(s[1..], h, h);
      ScaleUp(q, Under(s[1..], h), s[0]);
    }
  }

  lemma ScaleUp(q: nat, u: nat, x: ULong)
    ensures q * (x + B * u + 1) <= B * (q * (u + 1))
  {
    MulMono(x + 1 + B * u, B * (u + 1), q);
    assert q * (B * (u + 1)) == B * (q * (u + 1));
  }

  /** A number stays below a multiple of another when its top does. */
  lemma {:induction false} BelowMultiple(m: nat, s: seq<ULong>, h: nat, t: seq<ULong>, g: nat)
    requires |s| == |t| && g + 1 <= m * h
    ensures Under(t, g) + 1 <= m * Under(s, h)
  {
    if s != [] {
      BelowMultiple(m, s[1..], h, t[1..], g);
      var u := Under(s[1..], h);
      MulMono(B * u, s[0] + B * u, m);
      assert m * (B * u) == B * (m * u);
    }
  }

  lemma {:induction false} UnderTake(s: seq<ULong>, i: nat)
    requires i <= |s|
    ensures Value(s) == Under(s[..i], Value(s[i..]))
  {
    assert s == s[..i] + s[i..];
    ValueConcat(s[..i], s[i..]);
  }
}
