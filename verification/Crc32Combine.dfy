/** Matrices over GF(2) and crc32_combine_, core/zlib/crc32.c:339-425. */
module Crc32Combine {
  import opened Crc32

  function Double(v: bv32): bv32 { v << 1 }

  /** v << n */
  function ShlN(v: bv32, n: nat): bv32 { if n == 0 then v else Double(ShlN(v, n - 1)) }

  /** The number of bits up to the highest one that is set. */
  function Width(v: bv32): nat
    decreases v
  {
    if v == 0 then 0 else 1 + Width(Half(v))
  }

  /** The sum of the rows of mat that v selects. */
  function Times(mat: seq<bv32>, v: bv32): bv32
    requires Width(v) <= |mat|
    decreases v
  {
    if v == 0 then 0
    else if Odd(v) then Xor(mat[0], Times(mat[1..], Half(v)))
    else Times(mat[1..], Half(v))
  }

  // ---- thirty-two bits -----------------------------------------------------------------------

  /** v >> n */
  function ShrN(v: bv32, n: nat): bv32
    decreases n
  {
    if n == 0 then v else ShrN(Half(v), n - 1)
  }

  lemma {:induction false} ShrNAdd(v: bv32, m: nat, n: nat)
    ensures ShrN(v, m + n) == ShrN(ShrN(v, m), n)
    decreases m
  {
    hide Half;
    if m > 0 { ShrNAdd(Half(v), m - 1, n); }
  }

  predicate AtMost(v: bv32, w: bv32) { v <= w }

  lemma HalfMono(v: bv32, w: bv32)
    requires AtMost(v, w)
    ensures AtMost(Half(v), Half(w))
  {
  }

  lemma {:induction false} ShrNMono(v: bv32, w: bv32, n: nat)
    requires AtMost(v, w)
    ensures AtMost(ShrN(v, n), ShrN(w, n))
    decreases n
  {
    hide Half, AtMost;
    if n > 0 {
      HalfMono(v, w);
      ShrNMono(Half(v), Half(w), n - 1);
    }
  }

  function By8(v: bv32): bv32 { v >> 8 }

  lemma Halves(v: bv32)
    ensures Half(Half(Half(Half(Half(Half(Half(Half(v)))))))) == By8(v)
  {
  }

  lemma ShrN8(v: bv32)
    ensures ShrN(v, 8) == By8(v)
  {
    Halves(v);
    hide Half, By8;
    assert ShrN(v, 8) == ShrN(Half(Half(Half(Half(v)))), 4);
  }

  lemma By8Thrice(v: bv32)
    ensures By8(By8(By8(By8(v)))) == 0
    ensures v >= 0x80000000 ==> Half(Half(Half(Half(Half(Half(Half(By8(By8(By8(v)))))))))) != 0
  {
  }

  lemma Shr32(v: bv32)
    ensures ShrN(v, 32) == 0 && (v >= 0x80000000 ==> ShrN(v, 31) != 0)
  {
    By8Thrice(v);
    var w := By8(By8(By8(v)));
    Shr7(w);
    hide ShrN, By8, Half;
    ShrN8(v);
    ShrN8(By8(v));
    ShrN8(By8(By8(v)));
    ShrN8(w);
    ShrNAdd(v, 8, 8);
    ShrNAdd(v, 16, 8);
    ShrNAdd(v, 24, 8);
    ShrNAdd(v, 24, 7);
  }

  lemma Shr7(v: bv32)
    ensures ShrN(v, 7) == Half(Half(Half(Half(Half(Half(Half(v)))))))
  {
    hide Half;
    assert ShrN(v, 7) == ShrN(Half(Half(Half(Half(v)))), 3);
  }

  lemma {:induction false} WidthShr(v: bv32, n: nat)
    requires ShrN(v, n) == 0
    ensures Width(v) <= n
    decreases n
  {
    hide Half;
    if v != 0 {
      WidthShr(Half(v), n - 1);
    }
  }

  /** Every vector has at most 32 bits. */
  lemma WidthAtMost32(v: bv32)
    ensures Width(v) <= 32
  {
    hide ShrN;
    Shr32(v);
    WidthShr(v, 32);
  }

  // ---- the operator of a matrix ---------------------------------------------------------------

  /** The matrix product is linear. */
  lemma {:induction false} TimesLinear(mat: seq<bv32>, v: bv32, w: bv32)
    requires Width(v) <= |mat| && Width(w) <= |mat| && Width(Xor(v, w)) <= |mat|
    ensures Times(mat, Xor(v, w)) == Xor(Times(mat, v), Times(mat, w))
    decreases |mat|
  {
    OddXor(v, w);
    HalfXor(v, w);
    HalfZero();
    hide Xor, Odd, Half;
    if mat != [] {
      var x, y := Half(v), Half(w);
      TimesStep(mat, v);
      TimesStep(mat, w);
      TimesStep(mat, Xor(v, w));
      TimesLinear(mat[1..], x, y);
      var m, p, q := mat[0], Times(mat[1..], x), Times(mat[1..], y);
      XorAssoc(m, p, q);
      XorComm(m, p);
      XorAssoc(p, m, q);
      XorAssoc(Xor(p, m), m, q);
      XorAssoc(p, m, m);
      XorSelf(m);
      XorSelf(p);
    } else {
      XorSelf(0);
    }
  }

  lemma HalfZero()
    ensures Half(0) == 0 && !Odd(0)
  {
  }

  /** The recursion without its special case for zero. */
  lemma TimesStep(mat: seq<bv32>, v: bv32)
    requires mat != [] && Width(v) <= |mat|
    ensures Width(Half(v)) <= |mat| - 1
    ensures Times(mat, v) == if Odd(v) then Xor(mat[0], Times(mat[1..], Half(v))) else Times(mat[1..], Half(v))
  {
    HalfZero();
    hide Half, Odd, Xor;
  }

  /** gf2_matrix_times: the rows are added while vec is shifted out. */
  method Gf2MatrixTimes(mat: array<bv32>, vec: bv32) returns (sum: bv32)
    requires mat.Length == 32
    ensures Width(vec) <= 32 && sum == Times(mat[..], vec)
  {
    WidthAtMost32(vec);
    XorSelf(Times(mat[..], vec));
    hide Xor, Half, Odd;
    sum := 0;
    var v, i := vec, 0;
    assert mat[0..] == mat[..];
    while v != 0
      invariant 0 <= i <= 32 && Width(v) <= 32 - i
      invariant Xor(sum, Times(mat[i..], v)) == Times(mat[..], vec)
      decreases 32 - i
    {
      TimesStep(mat[i..], v);
      assert mat[i..][1..] == mat[i + 1..];
      if Odd(v) {
        XorAssoc(sum, mat[i], Times(mat[i + 1..], Half(v)));
        sum := Xor(sum, mat[i]);
      }
      v := Half(v);
      i := i + 1;
    }
    XorSelf(sum);
  }

  /** The rows of gf2_matrix_square. */
  ghost predicate IsSquare(square: seq<bv32>, mat: seq<bv32>) {
    && |square| == |mat| == 32
    && forall i: nat :: i < 32 ==> Width(mat[i]) <= 32 && square[i] == Times(mat, mat[i])
  }

  method Gf2MatrixSquare(square: array<bv32>, mat: array<bv32>)
    requires square.Length == mat.Length == 32 && square != mat
    modifies square
    ensures IsSquare(square[..], mat[..])
  {
    for n := 0 to 32
      invariant forall i: nat :: i < n ==> Width(mat[i]) <= 32 && square[i] == Times(mat[..], mat[i])
    {
      square[n] := Gf2MatrixTimes(mat, mat[n]);
    }
  }

  /** The square of a matrix applies it twice. */
  lemma SquareComposes(square: seq<bv32>, mat: seq<bv32>, v: bv32)
    requires IsSquare(square, mat)
    ensures Width(v) <= 32 && Width(Times(mat, v)) <= 32
    ensures Times(square, v) == Times(mat, Times(mat, v))
  {
    WidthAtMost32(v);
    WidthAtMost32(Times(mat, v));
    assert square[0..] == square && mat[0..] == mat;
    SquareFrom(square, mat, v, 0);
  }

  lemma {:induction false} SquareFrom(square: seq<bv32>, mat: seq<bv32>, v: bv32, i: nat)
    requires IsSquare(square, mat) && i <= 32 && Width(v) <= 32 - i
    ensures Width(Times(mat[i..], v)) <= 32
    ensures Times(square[i..], v) == Times(mat, Times(mat[i..], v))
    decreases 32 - i
  {
    hide Xor, Half, Odd;
    WidthAtMost32(Times(mat[i..], v));
    if i < 32 {
      TimesStep(mat[i..], v);
      TimesStep(square[i..], v);
      assert mat[i..][1..] == mat[i + 1..] && square[i..][1..] == square[i + 1..];
      SquareFrom(square, mat, Half(v), i + 1);
      if Odd(v) { TimesLinear(mat, mat[i], Times(mat[i + 1..], Half(v))); }
    }
  }

  // ---- the operators of zero bits -----------------------------------------------------------

  /** mat is the operator of k zero bits: row i is what becomes of bit i. */
  ghost predicate IsZeros(mat: seq<bv32>, k: nat) {
    |mat| == 32 && forall i: nat :: i < 32 ==> mat[i] == Zeros(ShlN(1, i), k)
  }

  lemma HalfDouble(v: bv32)
    ensures v == Xor(if Odd(v) then 1 else 0, Double(Half(v)))
  {
  }

  lemma DoubleXor(v: bv32, w: bv32)
    ensures Double(Xor(v, w)) == Xor(Double(v), Double(w)) && Double(0) == 0
  {
  }

  lemma {:induction false} ShlNXor(v: bv32, w: bv32, n: nat)
    ensures ShlN(Xor(v, w), n) == Xor(ShlN(v, n), ShlN(w, n)) && ShlN(0, n) == 0
    decreases n
  {
    hide Xor, Double;
    if n > 0 {
      ShlNXor(v, w, n - 1);
      DoubleXor(ShlN(v, n - 1), ShlN(w, n - 1));
    }
  }

  lemma {:induction false} ShlNDouble(v: bv32, n: nat)
    ensures ShlN(Double(v), n) == ShlN(v, n + 1)
    decreases n
  {
    hide Double;
    if n > 0 { ShlNDouble(v, n - 1); }
  }

  lemma {:induction false} ZerosOfZero(k: nat)
    ensures Zeros(0, k) == 0
  {
    if k > 0 {
      assert BitStep(0) == 0;
      ZerosOfZero(k - 1);
    }
  }

  lemma {:induction false} TimesFrom(mat: seq<bv32>, k: nat, v: bv32, i: nat)
    requires IsZeros(mat, k) && i <= 32 && Width(v) <= 32 - i
    ensures Times(mat[i..], v) == Zeros(ShlN(v, i), k)
    decreases 32 - i
  {
    hide Xor, Half, Odd, Double, Zeros;
    ZerosOfZero(k);
    ShlNXor(0, 0, i);
    if i < 32 {
      var w := Half(v);
      TimesStep(mat[i..], v);
      assert mat[i..][1..] == mat[i + 1..];
      TimesFrom(mat, k, w, i + 1);
      ShlNDouble(w, i);
      HalfDouble(v);
      var b := if Odd(v) then 1 else 0;
      ShlNXor(b, Double(w), i);
      ZerosLinear(ShlN(b, i), ShlN(Double(w), i), k);
      XorSelf(Zeros(ShlN(w, i + 1), k));
    }
  }

  /** Multiplying by the operator of k zero bits steps the register k times. */
  lemma TimesIsZeros(mat: seq<bv32>, k: nat, v: bv32)
    requires IsZeros(mat, k)
    ensures Width(v) <= 32 && Times(mat, v) == Zeros(v, k)
  {
    hide Zeros;
    WidthAtMost32(v);
    assert mat[0..] == mat;
    TimesFrom(mat, k, v, 0);
  }

  lemma SquareIsZeros(square: seq<bv32>, mat: seq<bv32>, k: nat)
    requires IsSquare(square, mat) && IsZeros(mat, k)
    ensures IsZeros(square, 2 * k)
  {
    hide Zeros;
    forall i: nat | i < 32 ensures square[i] == Zeros(ShlN(1, i), 2 * k) {
      TimesIsZeros(mat, k, mat[i]);
      ZerosAdd(ShlN(1, i), k, k);
    }
  }

  lemma {:induction false} UnitShr(n: nat)
    ensures ShrN(ShlN(1, n), n + 1) == 0
  {
    if n == 0 {
      assert Half(1) == 0;
      assert ShrN(1, 1) == ShrN(Half(1), 0);
    } else {
      var u := ShlN(1, n - 1);
      HalfOfDouble(u);
      hide Half, Double, AtMost;
      UnitShr(n - 1);
      ShrNMono(Half(Double(u)), u, n);
      AtMostZero(ShrN(Half(Double(u)), n));
    }
  }

  lemma AtMostZero(v: bv32)
    ensures AtMost(v, 0) ==> v == 0
  {
  }

  lemma HalfOfDouble(u: bv32)
    ensures AtMost(Half(Double(u)), u) && !Odd(Double(u))
    ensures u < 0x80000000 ==> Half(Double(u)) == u
  {
  }

  lemma {:induction false} ShrNZero(n: nat)
    ensures ShrN(0, n) == 0
  {
    HalfZero();
    hide Half;
    if n > 0 { ShrNZero(n - 1); }
  }

  /** The operator of one zero bit, row by row. */
  lemma OneZeroBit(n: nat)
    requires n < 32
    ensures Zeros(ShlN(1, n), 1) == if n == 0 then POLY else ShlN(1, n - 1)
  {
    if n == 0 {
      assert BitStep(1) == POLY;
    } else {
      var u := ShlN(1, n - 1);
      UnitShr(n - 1);
      ShrNAdd(u, n, 31 - n);
      ShrNZero(31 - n);
      Shr32(u);
      HalfOfDouble(u);
      hide ShrN, Half, Double, Odd, Xor;
      ZerosOne(Double(u));
    }
  }

  /** Puts the operator for one zero bit in odd. */
  method OneBitOperator(odd: array<bv32>)
    requires odd.Length == 32
    modifies odd
    ensures IsZeros(odd[..], 1)
  {
    hide Zeros, Double;
    odd[0] := 0xedb88320;
    var row := 1;
    OneZeroBit(0);
    for n := 1 to 32
      invariant row == ShlN(1, n - 1)
      invariant forall i: nat :: i < n ==> odd[i] == Zeros(ShlN(1, i), 1)
    {
      OneZeroBit(n);
      odd[n] := row;
      row := Double(row);
    }
  }

  /** One bit of the length: 2w zero bits each for the bits above it, twice as many for those left. */
  lemma NextBit(crc: bv32, w: nat, len: nat, crc': bv32)
    requires crc' == if len % 2 == 1 then Zeros(crc, 2 * w) else crc
    ensures Zeros(crc', 2 * (2 * w) * (len / 2)) == Zeros(crc, 2 * w * len)
  {
    hide Zeros;
    var l := len / 2;
    assert 2 * (2 * w) * l == 2 * w * (2 * l);
    if len % 2 == 1 {
      assert 2 * w * len == 2 * w + 2 * w * (2 * l) by { assert len == 1 + 2 * l; }
      ZerosAdd(crc, 2 * w, 2 * w * (2 * l));
    } else {
      assert len == 2 * l;
    }
  }

  /** Applies the operator of twice as many zero bits if the length is odd. */
  method ApplyBit(mat: array<bv32>, ghost w: nat, crc: bv32, len: nat) returns (crc': bv32)
    requires mat.Length == 32 && IsZeros(mat[..], 2 * w)
    ensures Zeros(crc', 2 * (2 * w) * (len / 2)) == Zeros(crc, 2 * w * len)
  {
    hide Zeros, Width, Times, IsZeros;
    crc' := crc;
    if len % 2 == 1 {
      TimesIsZeros(mat[..], 2 * w, crc);
      crc' := Gf2MatrixTimes(mat, crc);
    }
    NextBit(crc, w, len, crc');
  }

  /** crc32_combine_: len2 zero bytes are applied to crc1 with as many squarings as len2 has
      bits. */
  method Crc32Combine_(crc1: bv32, crc2: bv32, len2: int) returns (r: bv32)
    ensures r == Combine(crc1, crc2, len2)
  {
    if len2 <= 0 { return crc1; }
    hide Zeros, Xor, IsSquare, IsZeros;
    var even, odd := new bv32[32], new bv32[32];
    OneBitOperator(odd);
    Gf2MatrixSquare(even, odd);
    SquareIsZeros(even[..], odd[..], 1);
    Gf2MatrixSquare(odd, even);
    SquareIsZeros(odd[..], even[..], 2);
    var crc, len: nat := crc1, len2;
    ghost var w: nat := 4;
    while len != 0
      invariant IsZeros(odd[..], w)
      invariant Zeros(crc, 2 * w * len) == Zeros(crc1, 8 * len2)
    {
      crc, len := DoubleStep(even, odd, w, crc, len);
      w := 2 * w;
      if len == 0 { break; }
      crc, len := DoubleStep(odd, even, w, crc, len);
      w := 2 * w;
    }
    assert 2 * w * len == 0;
    ZerosNone(crc);
    r := Xor(crc, crc2);
  }

  method DoubleStep(even: array<bv32>, odd: array<bv32>, ghost w: nat, crc: bv32, len: nat) returns (crc': bv32, len': nat)
    requires even.Length == odd.Length == 32 && even != odd && IsZeros(odd[..], w)
    modifies even
    ensures IsZeros(even[..], 2 * w) && len' == len / 2
    ensures Zeros(crc', 2 * (2 * w) * len') == Zeros(crc, 2 * w * len)
  {
    hide Zeros, IsSquare, IsZeros;
    Gf2MatrixSquare(even, odd);
    SquareIsZeros(even[..], odd[..], w);
    crc' := ApplyBit(even, w, crc, len);
    len' := len / 2;
  }
}
