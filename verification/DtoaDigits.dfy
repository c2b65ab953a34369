/** The digit loop of dtoa for a given number of digits, and its round-off,
    core/lua-cjson/dtoa.c:4284-4329. */
module DtoaDigits {
  import opened Arith
  import opened Limbs
  import opened Bignum
  import opened BignumCompare
  import opened BignumPow5

  function Pow10(n: nat): (p: nat)
    ensures p >= 1
  {
    if n == 0 then 1 else 10 * Pow10(n - 1)
  }

  /** x / d rounded to an integer, halves to the even one. */
  function RoundHalfEven(x: nat, d: nat): nat
    requires d > 0
  {
    var q, r := x / d, x % d;
    if 2 * r > d || (2 * r == d && q % 2 == 1) then q + 1 else q
  }

  lemma RoundOf(x: nat, d: nat, q: nat, r: nat)
    requires x == q * d + r && r < d
    ensures RoundHalfEven(x, d) == if 2 * r > d || (2 * r == d && q % 2 == 1) then q + 1 else q
  {
    DivModUnique(x, d, q, r);
  }

  // ---- digits ---------------------------------------------------------------------------------

  lemma {:induction false} TrailingZeros(s: seq<char>, n: nat)
    requires Digits(s) && n <= |s| && forall i :: n <= i < |s| ==> s[i] == '0'
    ensures Decimal(s) == Decimal(s[..n]) * Pow10(|s| - n)
    decreases |s|
  {
    if n < |s| {
      var t := s[..|s| - 1];
      TrailingZeros(t, n);
      assert t[..n] == s[..n];
      Associate(Decimal(s[..n]), Pow10(|t| - n), 10);
    } else {
      assert s[..n] == s;
    }
  }

  lemma {:induction false} TrailingNines(s: seq<char>, n: nat)
    requires Digits(s) && n <= |s| && forall i :: n <= i < |s| ==> s[i] == '9'
    ensures Decimal(s) + 1 == (Decimal(s[..n]) + 1) * Pow10(|s| - n)
    decreases |s|
  {
    if n < |s| {
      var t := s[..|s| - 1];
      TrailingNines(t, n);
      assert t[..n] == s[..n];
      Associate(Decimal(s[..n]) + 1, Pow10(|t| - n), 10);
    } else {
      assert s[..n] == s;
    }
  }

  /** The digits s, with the decimal point carried over n0 of them, denote N. */
  ghost predicate Denotes(s: seq<char>, carried: bool, ilim: nat, N: nat) {
    && Digits(s) && 1 <= |s| <= ilim
    && s[0] != '0' && s[|s| - 1] != '0'
    && (if carried then s == ['1'] && N == Pow10(ilim) else N == Decimal(s) * Pow10(ilim - |s|))
  }

  function NextDigit(c: char): char
    requires c < '9'
  {
    c + 1 as char
  }

  lemma NextDigitValue(c: char)
    requires '0' <= c < '9'
    ensures '0' < NextDigit(c) <= '9' && (NextDigit(c) - '0') as nat == (c - '0') as nat + 1
  {
  }

  lemma LastDigitUp(t: seq<char>, c: char)
    requires Digits(t) && '0' <= c < '9'
    ensures var u := t + [NextDigit(c)]; Digits(u) && Decimal(u) == Decimal(t + [c]) + 1 && u[|u| - 1] != '0'
  {
    NextDigitValue(c);
    var e := NextDigit(c);
    DecimalSnoc(t, c);
    DecimalSnoc(t, e);
  }

  /** One more than d, when only nines follow position s. */
  lemma RoundedUp(d: seq<char>, s: nat)
    requires Digits(d) && d != [] && d[0] != '0' && s < |d| && d[s] != '9' && forall i :: s < i < |d| ==> d[i] == '9'
    ensures Denotes(d[..s] + [NextDigit(d[s])], false, |d|, Decimal(d) + 1)
  {
    hide NextDigit, Decimal, Pow10;
    var t, c := d[..s], d[s];
    assert d[..s + 1] == t + [c];
    LastDigitUp(t, c);
    FirstDigitUp(d, s);
    var u := t + [NextDigit(c)];
    var m: nat := Decimal(d[..s + 1]);
    TrailingNines(d, s + 1);
    assert Decimal(u) == m + 1;
  }

  lemma FirstDigitUp(d: seq<char>, s: nat)
    requires Digits(d) && s < |d| && d[0] != '0' && d[s] < '9'
    ensures (d[..s] + [NextDigit(d[s])])[0] != '0'
  {
    NextDigitValue(d[s]);
  }

  lemma AllNines(d: seq<char>)
    requires Digits(d) && d != [] && forall i :: 0 <= i < |d| ==> d[i] == '9'
    ensures Denotes(['1'], true, |d|, Decimal(d) + 1)
  {
    TrailingNines(d, 0);
    assert d[..0] == [];
  }

  /** roundoff: one is added to the last digit; nines are dropped, and when there is nothing
      but nines the result is a single one, one place further up. */
  method RoundUp(buf: array<char>, n: nat, k: int) returns (s: nat, k': int)
    requires 1 <= n <= buf.Length && Digits(buf[..n]) && buf[0] != '0'
    modifies buf
    ensures s <= n && k <= k' <= k + 1
    ensures Denotes(buf[..s], k' == k + 1, n, Decimal(old(buf[..n])) + 1)
  {
    ghost var d := buf[..n];
    hide Decimal, NextDigit, Denotes;
    s := n - 1;
    k' := k;
    while buf[s] == '9'
      invariant s < n && buf[..n] == d && forall i :: s < i < n ==> d[i] == '9'
      decreases s
    {
      assert d[s] == '9';
      if s == 0 {
        AllNines(d);
        buf[0] := '1';
        assert buf[..1] == ['1'];
        return 1, k + 1;
      }
      s := s - 1;
    }
    assert d[s] == buf[s];
    RoundedUp(d, s);
    buf[s] := NextDigit(buf[s]);
    s := s + 1;
    assert buf[..s] == d[..s - 1] + [NextDigit(d[s - 1])];
  }

  /** Trailing zeros are dropped. */
  method TrimZeros(buf: array<char>, n: nat) returns (s: nat)
    requires 1 <= n <= buf.Length && Digits(buf[..n]) && buf[0] != '0'
    ensures s <= n && Denotes(buf[..s], false, n, Decimal(buf[..n]))
  {
    s := n - 1;
    while buf[s] == '0'
      invariant s < n && forall i :: s < i < n ==> buf[i] == '0'
      decreases s
    {
      s := s - 1;
    }
    s := s + 1;
    TrailingZeros(buf[..n], s);
    assert buf[..n][..s] == buf[..s];
  }

  // ---- the digit loop -------------------------------------------------------------------------

  /** i digits of v / d are out and r is what is left. */
  ghost predicate Emitted(s: seq<char>, v: nat, d: nat, r: nat) {
    && Digits(s) && 1 <= |s| && s[0] != '0' && r < d
    && Decimal(s) * d + r == v * Pow10(|s| - 1)
  }

  /** One more digit. */
  lemma EmitDigit(s: seq<char>, v: nat, d: nat, r: nat, q: nat, r': nat, c: char)
    requires Emitted(s, v, d, r) && 10 * r == q * d + r' && r' < d && q < 10 && c == '0' + q as char
    ensures Emitted(s + [c], v, d, r')
  {
    DigitValue(q, c);
    DecimalSnoc(s, c);
    assert Pow10(|s|) == 10 * Pow10(|s| - 1);
    hide Decimal, Pow10;
    NextPlace(Decimal(s), Pow10(|s| - 1), v, d, r, q, r');
    assert |s + [c]| - 1 == |s|;
  }

  lemma DigitValue(q: nat, c: char)
    requires q < 10 && c == '0' + q as char
    ensures '0' <= c <= '9' && (c - '0') as nat == q && (c == '0' <==> q == 0)
  {
  }

  lemma NextPlace(m: nat, p: nat, v: nat, d: nat, r: nat, q: nat, r': nat)
    requires m * d + r == v * p && 10 * r == q * d + r'
    ensures (10 * m + q) * d + r' == v * (10 * p)
  {
    assert (10 * m + q) * d == 10 * (m * d) + q * d;
    assert v * (10 * p) == 10 * (v * p);
  }

  lemma FirstDigit(v: nat, d: nat, q: nat, r: nat, c: char)
    requires d <= v < 10 * d && v == q * d + r && r < d && c == '0' + q as char
    ensures q < 10 && Emitted([c], v, d, r)
  {
    QuotientBounds(v, d, q, r);
    DigitValue(q, c);
    DecimalSnoc([], c);
    assert [] + [c] == [c];
  }

  lemma QuotientBounds(v: nat, d: nat, q: nat, r: nat)
    requires v == q * d + r && r < d
    ensures v < 10 * d ==> q < 10
    ensures d <= v ==> q >= 1
  {
    if q >= 10 { MulMono(10, q, d); }
  }

  /** A remainder of zero ends the digits early, and exactly. */
  lemma ExactEnd(s: seq<char>, v: nat, d: nat, ilim: nat)
    requires Emitted(s, v, d, 0) && |s| <= ilim && d > 0 && s[|s| - 1] != '0'
    ensures Denotes(s, false, ilim, RoundHalfEven(v * Pow10(ilim - 1), d))
  {
    var m, p, t := Decimal(s), Pow10(|s| - 1), Pow10(ilim - |s|);
    Pow10Add(|s| - 1, ilim - |s|);
    hide Decimal, Pow10, RoundHalfEven;
    assert v * (p * t) == (m * t) * d by {
      Associate(v, p, t);
      Associate(m, d, t);
      Associate(m, t, d);
      assert d * t == t * d;
    }
    RoundOf(v * Pow10(ilim - 1), d, m * t, 0);
  }

  lemma {:induction false} Pow10Add(m: nat, n: nat)
    ensures Pow10(m + n) == Pow10(m) * Pow10(n)
    decreases m
  {
    if m > 0 {
      Pow10Add(m - 1, n);
      Associate(10, Pow10(m - 1), Pow10(n));
    }
  }

  /** quorem leaves the remainder; `dig` is the quotient as a digit. */
  method Digit(b: Bigint, S: Bigint) returns (dig: char, ghost q: nat)
    requires b.Valid() && S.Valid() && b != S && b.x != S.x
    requires TopShifted(S.x[..S.wds]) && b.Val() < 10 * S.Val()
    modifies b, b.x
    ensures q < 10 && dig == '0' + q as char
    ensures 0 <= old(b.Val()) - q * S.Val() < S.Val() && Holds(b, old(b.Val()) - q * S.Val())
  {
    ghost var v, d := b.Val(), S.Val();
    hide Pow2, Value, Normal, TopShifted, Holds;
    var n := Quorem(b, S);
    q := n;
    QuotientBounds(v, d, q, v - q * d);
    dig := '0' + n as char;
  }

  /** !b->x[0] && b->wds <= 1 */
  method IsZero(b: Bigint, ghost v: nat) returns (z: bool)
    requires Holds(b, v)
    ensures z <==> v == 0
    ensures !z ==> b.Valid() && b.Val() == v
  {
    hide Pow2;
    z := b.x[0] == 0 && b.wds <= 1;
    if b.wds > 1 { NormalZero(b.x[..b.wds]); }
    if b.wds == 1 { assert b.x[..1] == [b.x[0]] && Value([b.x[0]]) == b.x[0]; }
  }

  /** From the half of the last place on: b << 1 is compared with S. */
  method RoundOff(buf: array<char>, n: nat, b: Bigint, S: Bigint, dig: char, k: int, ghost v: nat) returns (s: nat, k': int)
    requires 1 <= n <= buf.Length && b.Valid() && S.Valid() && b.Val() > 0
    requires Emitted(buf[..n], v, S.Val(), b.Val()) && dig == buf[n - 1]
    modifies buf
    ensures s <= n && k <= k' <= k + 1
    ensures Denotes(buf[..s], k' == k + 1, n, RoundHalfEven(v * Pow10(n - 1), S.Val()))
  {
    hide Pow2, Value, Normal;
    ghost var d := buf[..n];
    RoundOf(v * Pow10(n - 1), S.Val(), Decimal(d), b.Val());
    LastDigitParity(d);
    PowTwo();
    var b1 := LShift(b, 1);
    var j := Cmp(b1, S);
    hide Denotes, RoundHalfEven, Decimal, Pow10;
    assert buf[..n] == d;
    if j > 0 || (j == 0 && (dig as int) % 2 == 1) {
      s, k' := RoundUp(buf, n, k);
    } else {
      s := TrimZeros(buf, n);
      k' := k;
    }
  }

  lemma PowTwo()
    ensures Pow2(1) == 2
  {
  }

  /** The parity of a number is that of its last digit, and '0' is even. */
  lemma LastDigitParity(d: seq<char>)
    requires Digits(d) && d != []
    ensures Decimal(d) % 2 == (d[|d| - 1] as int) % 2
  {
  }

  /** b = multadd(b, 10, 0) and the next digit. */
  method OneMore(buf: array<char>, i: nat, b0: Bigint, S: Bigint, ghost v: nat, ghost r: nat)
    returns (b: Bigint, dig: char, ghost r': nat)
    requires b0.Valid() && S.Valid() && b0 != S && b0.x != S.x && TopShifted(S.x[..S.wds])
    requires 1 <= i < buf.Length && Emitted(buf[..i], v, S.Val(), r) && b0.Val() == r > 0
    modifies buf, b0, b0.x
    ensures S.Valid() && S.Val() == old(S.Val()) && TopShifted(S.x[..S.wds])
    ensures Emitted(buf[..i + 1], v, S.Val(), r') && dig == buf[i] && (r' == 0 ==> dig != '0')
    ensures Holds(b, r') && (b == b0 || (fresh(b) && fresh(b.x)))
  {
    ghost var d := S.Val();
    EmittedBelow(buf[..i], v, d, r);
    hide Pow2, Value, Normal, Decimal, Pow10, Emitted, Holds, TopShifted;
    b := MultAdd(b0, 10, 0);
    ghost var q;
    dig, q := Digit(b, S);
    r' := 10 * r - q * d;
    EmitDigit(buf[..i], v, d, r, q, r', dig);
    DigitValue(q, dig);
    ghost var done := buf[..i];
    buf[i] := dig;
    assert buf[..i + 1] == done + [dig];
    NonzeroDigit(r, q, d);
  }

  lemma NonzeroDigit(r: nat, q: nat, d: nat)
    ensures r > 0 && 10 * r - q * d == 0 ==> q != 0
  {
  }

  lemma EmittedBelow(s: seq<char>, v: nat, d: nat, r: nat)
    requires Emitted(s, v, d, r)
    ensures r < d
  {
  }

  /** The digit loop without left and right bounds, and the round-off: given S <= b < 10S
      with S shifted by dshift, buf receives b/S correctly rounded, half to even, to ilim
      digits without trailing zeros, with k one more if the carry goes through all digits. */
  method GenerateDigits(buf: array<char>, b0: Bigint, S: Bigint, ilim: nat, k: int) returns (s: nat, k': int)
    requires b0.Valid() && S.Valid() && b0 != S && b0.x != S.x && TopShifted(S.x[..S.wds])
    requires S.Val() <= b0.Val() < 10 * S.Val() && 1 <= ilim <= buf.Length
    modifies buf, b0, b0.x
    ensures s <= ilim && k <= k' <= k + 1
    ensures Denotes(buf[..s], k' == k + 1, ilim, RoundHalfEven(old(b0.Val()) * Pow10(ilim - 1), old(S.Val())))
  {
    hide Pow2, Value, Normal, Denotes, RoundHalfEven, Pow10, Decimal, Emitted, Holds, TopShifted;
    ghost var v, d := b0.Val(), S.Val();
    var b := b0;
    var dig;
    ghost var q;
    dig, q := Digit(b, S);
    buf[0] := dig;
    FirstDigit(v, d, q, v - q * d, dig);
    QuotientBounds(v, d, q, v - q * d);
    DigitValue(q, dig);
    assert buf[..1] == [dig];
    var i := 1;
    ghost var r: nat := v - q * d;
    while true
      invariant 1 <= i <= ilim && Emitted(buf[..i], v, d, r) && dig == buf[i - 1]
      invariant Holds(b, r) && S.Valid() && S.Val() == d && TopShifted(S.x[..S.wds])
      invariant b == b0 || (fresh(b) && fresh(b.x))
      invariant r == 0 ==> dig != '0'
      decreases ilim - i
    {
      var z := IsZero(b, r);
      if z {
        ExactEnd(buf[..i], v, d, ilim);
        return i, k;
      }
      if i >= ilim { break; }
      b, dig, r := OneMore(buf, i, b, S, v, r);
      i := i + 1;
    }
    s, k' := RoundOff(buf, i, b, S, dig, k, v);
  }
}
