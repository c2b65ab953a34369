/** Adler-32 with the modulo put off, and the combination of two checks, core/zlib/adler32.c. */
module Adler32 {
  import opened Arith
  import opened Lz77
  import opened BitInput

  /** unsigned long where it is narrowest. */
  type ulong = n: nat | n < 0x1_0000_0000

  const BASE: nat := 65521
  const NMAX: nat := 5552

  // ---- section 8.2 of RFC 1950 -------------------------------------------------------------

  /** The two sums, each taken modulo BASE at every byte. */
  function Sums(a: nat, b: nat, data: seq<octet>): (nat, nat)
    decreases |data|
  {
    if data == [] then (a, b)
    else
      var (p, q) := Sums(a, b, data[..|data| - 1]);
      var p1 := (p + data[|data| - 1]) % BASE;
      (p1, (q + p1) % BASE)
  }

  function Pack(a: nat, b: nat): nat { a + 0x1_0000 * b }

  predicate Reduced(adler: nat) { adler % 0x1_0000 < BASE && adler / 0x1_0000 < BASE }

  /** The check that starts from adler. */
  function Update(adler: nat, data: seq<octet>): nat {
    var (p, q) := Sums(adler % 0x1_0000, adler / 0x1_0000, data);
    Pack(p, q)
  }

  function Adler(data: seq<octet>): nat { Update(1, data) }

  // ---- without the modulo ---------------------------------------------------------------------

  function Sum1(a: nat, data: seq<octet>): nat
    decreases |data|
  {
    if data == [] then a else Sum1(a, data[..|data| - 1]) + data[|data| - 1]
  }

  function Sum2(a: nat, b: nat, data: seq<octet>): nat
    decreases |data|
  {
    if data == [] then b else Sum2(a, b, data[..|data| - 1]) + Sum1(a, data)
  }

  lemma ModAdd(x: int, y: int)
    ensures (x % BASE + y) % BASE == (x + y) % BASE
  {
  }

  /** Reducing late is the same as reducing at every byte. */
  lemma {:induction false} SumsLate(a: nat, b: nat, data: seq<octet>)
    requires a < BASE && b < BASE
    ensures Sums(a, b, data) == (Sum1(a, data) % BASE, Sum2(a, b, data) % BASE)
    decreases |data|
  {
    if data != [] {
      var t := data[..|data| - 1];
      SumsLate(a, b, t);
      ModAdd(Sum1(a, t), data[|data| - 1]);
      ModAdd(Sum2(a, b, t), Sum1(a, data) % BASE);
      ModAdd(Sum1(a, data), Sum2(a, b, t));
    }
  }

  lemma {:induction false} SumsConcat(a: nat, b: nat, x: seq<octet>, y: seq<octet>)
    ensures Sums(a, b, x + y) == var (p, q) := Sums(a, b, x); Sums(p, q, y)
    decreases |y|
  {
    if y == [] {
      assert x + y == x;
    } else {
      var t := y[..|y| - 1];
      SumsConcat(a, b, x, t);
      assert (x + y)[..|x + y| - 1] == x + t;
    }
  }

  /** How large the sums become in n bytes. */
  lemma {:induction false} SumsBound(a: nat, b: nat, data: seq<octet>)
    requires a < BASE && b < BASE
    ensures var n := |data|;
            Sum1(a, data) <= a + 255 * n && 2 * Sum2(a, b, data) <= 2 * b + 2 * n * a + 255 * n * (n + 1)
    decreases |data|
  {
    var n := |data|;
    if n > 0 {
      SumsBound(a, b, data[..n - 1]);
      assert 2 * (n - 1) * a + 2 * a == 2 * n * a;
      assert 255 * (n - 1) * n + 2 * 255 * n == 255 * n * (n + 1);
    }
  }

  /** 255n(n+1)/2 + (n+1)(BASE-1) <= 2^32-1 up to NMAX. */
  lemma NoOverflow(a: nat, b: nat, data: seq<octet>)
    requires a < BASE && b < BASE && |data| <= NMAX
    ensures Sum1(a, data) < 0x1_0000_0000 && Sum2(a, b, data) < 0x1_0000_0000
  {
    SumsBound(a, b, data);
    var n := |data|;
    MulMono(n, NMAX, 2 * a + 255 * (n + 1));
    assert n * (2 * a + 255 * (n + 1)) == 2 * n * a + 255 * n * (n + 1);
  }

  /** The bound is exact: one byte more can overflow. */
  lemma {:induction false} SumsWorst(a: nat, b: nat, data: seq<octet>)
    requires forall i :: 0 <= i < |data| ==> data[i] == 255
    ensures var n := |data|;
            Sum1(a, data) == a + 255 * n && 2 * Sum2(a, b, data) == 2 * b + 2 * n * a + 255 * n * (n + 1)
    decreases |data|
  {
    var n := |data|;
    if n > 0 {
      SumsWorst(a, b, data[..n - 1]);
      assert 2 * (n - 1) * a + 2 * a == 2 * n * a;
      assert 255 * (n - 1) * n + 2 * 255 * n == 255 * n * (n + 1);
    }
  }

  lemma NmaxIsLargest(data: seq<octet>)
    requires |data| == NMAX + 1 && forall i :: 0 <= i < |data| ==> data[i] == 255
    ensures Sum2(BASE - 1, BASE - 1, data) >= 0x1_0000_0000
  {
    SumsWorst(BASE - 1, BASE - 1, data);
  }

  // ---- adler32_z ------------------------------------------------------------------------------

  lemma SumSnoc(a: nat, b: nat, data: seq<octet>, x: octet)
    ensures Sum1(a, data + [x]) == Sum1(a, data) + x
    ensures Sum2(a, b, data + [x]) == Sum2(a, b, data) + Sum1(a, data) + x
  {
    assert (data + [x])[..|data|] == data;
  }

  /** DO16 and the byte loops: n bytes are added without a modulo. */
  method AddBytes(ghost a: nat, ghost b: nat, ghost done: seq<octet>, adler: ulong, sum2: ulong, buf: seq<octet>, i: nat, n: nat)
    returns (adler': ulong, sum2': ulong)
    requires a < BASE && b < BASE && i + n <= |buf| && |done| + n <= NMAX
    requires adler == Sum1(a, done) && sum2 == Sum2(a, b, done)
    ensures adler' == Sum1(a, done + buf[i..i + n]) && sum2' == Sum2(a, b, done + buf[i..i + n])
  {
    adler', sum2' := adler, sum2;
    assert done + buf[i..i] == done;
    for k := 0 to n
      invariant adler' == Sum1(a, done + buf[i..i + k]) && sum2' == Sum2(a, b, done + buf[i..i + k])
    {
      SumSnoc(a, b, done + buf[i..i + k], buf[i + k]);
      assert done + buf[i..i + k + 1] == (done + buf[i..i + k]) + [buf[i + k]];
      NoOverflow(a, b, done + buf[i..i + k + 1]);
      adler' := adler' + buf[i + k];
      sum2' := sum2' + adler';
    }
  }

  /** At least NMAX bytes are there: NMAX / 16 rounds of sixteen, and one modulo each. */
  method FullBlock(adler: ulong, sum2: ulong, buf: seq<octet>, i: nat) returns (adler': ulong, sum2': ulong)
    requires adler < BASE && sum2 < BASE && i + NMAX <= |buf|
    ensures (adler', sum2') == Sums(adler, sum2, buf[i..i + NMAX]) && adler' < BASE && sum2' < BASE
  {
    adler', sum2' := adler, sum2;
    var n := NMAX / 16;
    assert buf[i..i] == [];
    var k := 0;
    while n > 0
      invariant k + 16 * n == NMAX && 0 <= n
      invariant adler' == Sum1(adler, buf[i..i + k]) && sum2' == Sum2(adler, sum2, buf[i..i + k])
    {
      adler', sum2' := AddBytes(adler, sum2, buf[i..i + k], adler', sum2', buf, i + k, 16);
      assert buf[i..i + k] + buf[i + k..i + k + 16] == buf[i..i + k + 16];
      k := k + 16;
      n := n - 1;
    }
    SumsLate(adler, sum2, buf[i..i + NMAX]);
    adler' := adler' % BASE;
    sum2' := sum2' % BASE;
  }

  /** Fewer than NMAX bytes are left. */
  method LastBlock(adler: ulong, sum2: ulong, buf: seq<octet>, i: nat) returns (adler': ulong, sum2': ulong)
    requires adler < BASE && sum2 < BASE && i <= |buf| < i + NMAX
    ensures (adler', sum2') == Sums(adler, sum2, buf[i..])
  {
    adler', sum2' := adler, sum2;
    var k := i;
    assert buf[i..i] == [];
    while |buf| - k >= 16
      invariant i <= k <= |buf|
      invariant adler' == Sum1(adler, buf[i..k]) && sum2' == Sum2(adler, sum2, buf[i..k])
    {
      adler', sum2' := AddBytes(adler, sum2, buf[i..k], adler', sum2', buf, k, 16);
      assert buf[i..k] + buf[k..k + 16] == buf[i..k + 16];
      k := k + 16;
    }
    adler', sum2' := AddBytes(adler, sum2, buf[i..k], adler', sum2', buf, k, |buf| - k);
    assert buf[i..k] + buf[k..k + (|buf| - k)] == buf[i..];
    SumsLate(adler, sum2, buf[i..]);
    adler' := adler' % BASE;
    sum2' := sum2' % BASE;
  }

  /** adler32_z; a null buffer asks for the initial value. */
  method Adler32Z(adler0: ulong, buf: Option<seq<octet>>) returns (r: ulong)
    requires Reduced(adler0)
    ensures match buf
            case None => r == 1
            case Some(data) => r == Update(adler0, data) && Reduced(r)
  {
    var sum2: ulong := adler0 / 0x1_0000 % 0x1_0000;
    var adler: ulong := adler0 % 0x1_0000;
    if buf.None? { return 1; }
    var data := buf.value;
    var a, b := adler, sum2;
    if |data| == 1 {
      adler, sum2 := OneByte(a, b, data);
    } else if |data| < 16 {
      adler, sum2 := FewBytes(a, b, data);
    } else {
      adler, sum2 := Blocks(a, b, data);
    }
    Unpack(adler, sum2);
    hide Pack, Reduced;
    r := Pack(adler, sum2);
  }

  method OneByte(adler: ulong, sum2: ulong, data: seq<octet>) returns (adler': ulong, sum2': ulong)
    requires adler < BASE && sum2 < BASE && |data| == 1
    ensures (adler', sum2') == Sums(adler, sum2, data) && adler' < BASE && sum2' < BASE
  {
    assert data[..0] == [];
    adler' := adler + data[0];
    if adler' >= BASE { adler' := adler' - BASE; }
    sum2' := sum2 + adler';
    if sum2' >= BASE { sum2' := sum2' - BASE; }
  }

  /** So few bytes add less than BASE. */
  lemma FewBound(a: nat, b: nat, data: seq<octet>)
    requires a < BASE && b < BASE && |data| < 16
    ensures Sum1(a, data) < 2 * BASE
  {
    SumsBound(a, b, data);
  }

  method FewBytes(adler: ulong, sum2: ulong, data: seq<octet>) returns (adler': ulong, sum2': ulong)
    requires adler < BASE && sum2 < BASE && |data| < 16
    ensures (adler', sum2') == Sums(adler, sum2, data) && adler' < BASE && sum2' < BASE
  {
    adler', sum2' := AddBytes(adler, sum2, [], adler, sum2, data, 0, |data|);
    assert [] + data[0..0 + |data|] == data;
    FewBound(adler, sum2, data);
    SumsLate(adler, sum2, data);
    hide Sums, Sum1, Sum2;
    if adler' >= BASE { adler' := adler' - BASE; }
    sum2' := sum2' % BASE;
  }

  method Blocks(adler: ulong, sum2: ulong, data: seq<octet>) returns (adler': ulong, sum2': ulong)
    requires adler < BASE && sum2 < BASE
    ensures (adler', sum2') == Sums(adler, sum2, data) && adler' < BASE && sum2' < BASE
  {
    adler', sum2' := adler, sum2;
    var i := 0;
    while |data| - i >= NMAX
      invariant 0 <= i <= |data| && adler' < BASE && sum2' < BASE
      invariant (adler', sum2') == Sums(adler, sum2, data[..i])
    {
      SumsConcat(adler, sum2, data[..i], data[i..i + NMAX]);
      assert data[..i] + data[i..i + NMAX] == data[..i + NMAX];
      adler', sum2' := FullBlock(adler', sum2', data, i);
      i := i + NMAX;
    }
    assert data[..i] + data[i..] == data;
    SumsConcat(adler, sum2, data[..i], data[i..]);
    if i < |data| {
      adler', sum2' := LastBlock(adler', sum2', data, i);
      SumsLate(adler, sum2, data);
    }
  }

  // ---- adler32_combine_ -----------------------------------------------------------------------

  /** The sums are linear in where they start. */
  lemma {:induction false} SumsLinear(a: nat, b: nat, data: seq<octet>)
    ensures Sum1(a, data) == a + Sum1(0, data)
    ensures Sum2(a, b, data) == b + |data| * a + Sum2(0, 0, data)
    decreases |data|
  {
    if data != [] {
      SumsLinear(a, b, data[..|data| - 1]);
      assert (|data| - 1) * a + a == |data| * a;
    }
  }

  lemma MulMod(n: nat, x: nat)
    ensures ((n % BASE) * x) % BASE == (n * x) % BASE
  {
    var q, m := n / BASE, n % BASE;
    assert n * x == m * x + BASE * (q * x);
    AddMultiple(m * x, q * x);
  }

  lemma AddMultiple(x: int, k: int)
    ensures (x + BASE * k) % BASE == x % BASE
  {
  }

  /** What adler32_combine_ computes for a second piece of n bytes. */
  function Combine(adler1: nat, adler2: nat, n: nat): nat {
    var a1, b1, a2, b2 := adler1 % 0x1_0000, adler1 / 0x1_0000, adler2 % 0x1_0000, adler2 / 0x1_0000;
    Pack((a1 + a2 - 1) % BASE, (b1 + b2 + n * a1 - n) % BASE)
  }

  lemma Unpack(a: nat, b: nat)
    requires a < BASE && b < BASE
    ensures Pack(a, b) % 0x1_0000 == a && Pack(a, b) / 0x1_0000 == b && Reduced(Pack(a, b))
  {
  }

  /** Residues may be replaced by what they are residues of. */
  lemma ModSum(x: int, y: int, z: int)
    ensures (x % BASE + y % BASE + z) % BASE == (x + y + z) % BASE
  {
    AddMultiple(x % BASE + y % BASE + z, x / BASE + y / BASE);
  }

  /** The sums of the second piece, begun where the first one ends. */
  lemma SecondPiece(p: nat, q: nat, y: seq<octet>)
    requires p < BASE && q < BASE
    ensures var (a2, b2) := Sums(1, 0, y); var n := |y|;
            Sums(p, q, y) == ((p + a2 - 1) % BASE, (q + b2 + n * p - n) % BASE)
  {
    SumsLate(1, 0, y);
    SumsLate(p, q, y);
    SumsLinear(1, 0, y);
    SumsLinear(p, q, y);
    var n := |y|;
    hide Sums, Sum1, Sum2;
    ModSum(Sum1(1, y), 0, p - 1);
    ModSum(Sum2(1, 0, y), 0, q + n * p - n);
  }

  /** From the checks of two pieces of data and the length of the second, the check of both. */
  lemma CombineIsConcat(x: seq<octet>, y: seq<octet>)
    ensures Combine(Adler(x), Adler(y), |y|) == Adler(x + y)
  {
    SumsLate(1, 0, x);
    SumsLate(1, 0, y);
    SumsConcat(1, 0, x, y);
    hide Sums, Sum1, Sum2;
    var (p, q) := Sums(1, 0, x);
    var (a2, b2) := Sums(1, 0, y);
    Unpack(p, q);
    Unpack(a2, b2);
    SecondPiece(p, q, y);
    hide Pack;
    assert Adler(x) == Pack(p, q) && Adler(y) == Pack(a2, b2);
  }

  lemma LateRem(n: nat, a1: nat, z: int)
    ensures ((n % BASE) * a1 % BASE + z + BASE - n % BASE) % BASE == (z + n * a1 - n) % BASE
  {
    var m, t := n % BASE, n * a1;
    MulMod(n, a1);
    AddMultiple(t % BASE + z - n, n / BASE + 1);
    assert t % BASE + z + BASE - m == t % BASE + z - n + BASE * (n / BASE + 1);
    ModSum(t, 0, z - n);
  }

  /** adler32_combine_ */
  method Adler32Combine_(adler1: ulong, adler2: ulong, len2: int) returns (r: ulong)
    requires Reduced(adler1) && Reduced(adler2)
    ensures len2 < 0 ==> r == 0xffff_ffff
    ensures len2 >= 0 ==> r == Combine(adler1, adler2, len2)
  {
    if len2 < 0 { return 0xffff_ffff; }
    var rem: ulong := len2 % BASE;
    var sum1: ulong := adler1 % 0x1_0000;
    assert rem * sum1 <= (BASE - 1) * (BASE - 1);
    var sum2: ulong := rem * sum1;
    ghost var a1: nat, z: nat := sum1, adler1 / 0x1_0000 + adler2 / 0x1_0000;
    LateRem(len2, a1, z);
    sum2 := sum2 % BASE;
    sum1 := sum1 + (adler2 % 0x1_0000) + BASE - 1;
    sum2 := sum2 + adler1 / 0x1_0000 + adler2 / 0x1_0000 + BASE - rem;
    AddMultiple(a1 + adler2 % 0x1_0000 - 1, 1);
    hide Pack;
    r := Correct(sum1, sum2);
  }

  /** The final subtractions. */
  method Correct(sum1: ulong, sum2: ulong) returns (r: nat)
    requires BASE - 1 <= sum1 < 3 * BASE - 2 && sum2 < 4 * BASE
    ensures r == Pack(sum1 % BASE, sum2 % BASE) && r < 0x1_0000_0000
  {
    var s1, s2 := sum1, sum2;
    if s1 >= BASE { s1 := s1 - BASE; }
    if s1 >= BASE { s1 := s1 - BASE; }
    if s2 >= 2 * BASE { s2 := s2 - 2 * BASE; }
    if s2 >= BASE { s2 := s2 - BASE; }
    r := Pack(s1, s2);
  }
}
