/** The bit operators the decoder uses, and numbers read from the other end: deflate
    packs Huffman codes starting with the most significant bit of the code, so a code
    appears reversed in the low bits of the bit buffer. */
module BitReverse {
  import opened Arith

  /** x >> k */
  function Shr(x: nat, k: nat): nat { if k == 0 then x else Shr(x / 2, k - 1) }

  /** x << k */
  function Shl(x: nat, k: nat): nat { if k == 0 then x else 2 * Shl(x, k - 1) }

  /** x & ((1 << k) - 1) */
  function Low(x: nat, k: nat): (r: nat)
    ensures r < Pow2(k)
  {
    if k == 0 then 0 else x % 2 + 2 * Low(x / 2, k - 1)
  }

  /** The low n bits of x, read with the first (least significant) bit on top. */
  function Rev(x: nat, n: nat): (r: nat)
    ensures r < Pow2(n)
  {
    if n == 0 then 0 else (if x % 2 == 1 then Pow2(n - 1) else 0) + Rev(x / 2, n - 1)
  }

  lemma {:induction false} ShlSum(x: nat, y: nat, k: nat)
    ensures Shl(x + y, k) == Shl(x, k) + Shl(y, k)
  {
    if k > 0 { ShlSum(x, y, k - 1); }
  }

  lemma {:induction false} ShlPow2(j: nat, k: nat)
    ensures Shl(Pow2(j), k) == Pow2(j + k)
    decreases k
  {
    if k > 0 { ShlPow2(j, k - 1); }
  }

  lemma {:induction false} ShlShl(x: nat, j: nat, k: nat)
    ensures Shl(Shl(x, j), k) == Shl(x, j + k)
    decreases k
  {
    if k > 0 { ShlShl(x, j, k - 1); }
  }

  lemma {:induction false} ShlDouble(x: nat, k: nat)
    ensures Shl(2 * x, k) == 2 * Shl(x, k)
  {
    if k > 0 { ShlDouble(x, k - 1); }
  }

  lemma ShlNext(x: nat, k: nat)
    ensures Shl(x, k + 1) == Shl(2 * x, k)
  {
    ShlDouble(x, k);
  }

  /** Multiples of 2^k are 2^k apart. */
  lemma {:induction false} ShlGap(x: nat, y: nat, k: nat)
    ensures x < y ==> Shl(x, k) + Pow2(k) <= Shl(y, k)
    ensures x <= y ==> Shl(x, k) <= Shl(y, k)
  {
    if k > 0 { ShlGap(x, y, k - 1); }
  }

  lemma {:induction false} Split(x: nat, k: nat)
    ensures x == Low(x, k) + Shl(Shr(x, k), k)
  {
    if k > 0 {
      Split(x / 2, k - 1);
    }
  }

  lemma {:induction false} SplitUnique(k: nat, lo: nat, hi: nat)
    requires lo < Pow2(k)
    ensures Low(lo + Shl(hi, k), k) == lo && Shr(lo + Shl(hi, k), k) == hi
  {
    if k > 0 {
      var x := lo + Shl(hi, k);
      assert x % 2 == lo % 2 && x / 2 == lo / 2 + Shl(hi, k - 1);
      SplitUnique(k - 1, lo / 2, hi);
    }
  }

  lemma ShrNone(x: nat)
    ensures Shr(x, 0) == x
  {
  }

  lemma {:induction false} ShrAdd(x: nat, j: nat, k: nat)
    ensures Shr(Shr(x, j), k) == Shr(x, j + k)
    decreases j
  {
    if j > 0 { ShrAdd(x / 2, j - 1, k); }
  }

  lemma {:induction false} LowSmall(x: nat, k: nat)
    requires x < Pow2(k)
    ensures Low(x, k) == x
  {
    if k > 0 { LowSmall(x / 2, k - 1); }
  }

  lemma {:induction false} LowLow(x: nat, j: nat, k: nat)
    requires j <= k
    ensures Low(Low(x, k), j) == Low(x, j)
  {
    if j > 0 { LowLow(x / 2, j - 1, k - 1); }
  }

  /** Taking k bits above position j is the same inside a window wide enough. */
  lemma {:induction false} ShrLow(x: nat, j: nat, k: nat)
    ensures Low(Shr(x, j), k) == Shr(Low(x, j + k), j)
    decreases j
  {
    if j > 0 { ShrLow(x / 2, j - 1, k); }
  }

  /** The top of a reversal is the reversal of the bottom. */
  lemma {:induction false} RevSplit(x: nat, k: nat, n: nat)
    requires k <= n
    ensures Rev(x, n) == Shl(Rev(x, k), n - k) + Rev(Shr(x, k), n - k)
    decreases k
  {
    if k > 0 {
      RevSplit(x / 2, k - 1, n - 1);
      ShlPow2(k - 1, n - k);
      ShlSum(if x % 2 == 1 then Pow2(k - 1) else 0, Rev(x / 2, k - 1), n - k);
    } 
    ShlZero(n - k);
  }

  lemma {:induction false} ShlZero(k: nat)
    ensures Shl(0, k) == 0
  {
    if k > 0 { ShlZero(k - 1); }
  }

  /** Only the low n bits matter. */
  lemma {:induction false} RevLow(x: nat, k: nat, n: nat)
    requires n <= k
    ensures Rev(Low(x, k), n) == Rev(x, n)
    decreases n
  {
    if n > 0 { RevLow(x / 2, k - 1, n - 1); }
  }

  lemma {:induction false} RevInjective(x: nat, y: nat, n: nat)
    requires Rev(x, n) == Rev(y, n)
    ensures Low(x, n) == Low(y, n)
    decreases n
  {
    if n > 0 { RevInjective(x / 2, y / 2, n - 1); }
  }

  lemma {:induction false} RevZero(n: nat)
    ensures Rev(0, n) == 0
  {
    if n > 0 { RevZero(n - 1); }
  }

  lemma {:induction false} RevOnes(p: nat, n: nat)
    requires p <= n
    ensures Rev(Pow2(p) - 1, n) == Pow2(n) - Pow2(n - p)
    decreases p
  {
    if p == 0 {
      RevZero(n);
    } else {
      RevOnes(p - 1, n - 1);
    }
  }

  lemma RevTop(p: nat, m: nat)
    requires p < m
    ensures Rev(1, m) == Rev(2 * (Pow2(p) - 1), m) + Pow2(m - 1 - p)
  {
    RevZero(m - 1);
    RevOnes(p, m - 1);
    var ones := Pow2(p) - 1;
    assert (2 * ones) / 2 == ones && (2 * ones) % 2 == 0;
  }

  /** What `while (huff & incr) incr >>= 1; huff = (huff & (incr - 1)) + incr` does when
      the highest zero bit below position len is bit k: one is added, seen from the top. */
  lemma RevIncrement(huff: nat, k: nat, len: nat, n: nat)
    requires k < len <= n
    requires Shr(huff, k) == 2 * (Pow2(len - 1 - k) - 1)
    ensures Rev(Low(huff, k) + Pow2(k), n) == Rev(huff, n) + Pow2(n - len)
  {
    hide Rev, Shl, Shr, Low, Pow2;
    var low := Low(huff, k);
    ShlPow2(0, k);
    SplitUnique(k, low, 1);
    RevSplit(huff, k, n);
    RevSplit(low + Pow2(k), k, n);
    RevLow(huff, k, k);
    RevLow(low + Pow2(k), k, k);
    RevTop(len - 1 - k, n - k);
    assert Pow2(0) == 1 by { PowZero(); }
  }

  lemma PowZero()
    ensures Pow2(0) == 1
  {
  }

  lemma IncrementFits(huff: nat, k: nat, len: nat)
    requires k < len
    ensures Low(huff, k) + Pow2(k) < Pow2(len)
  {
    Pow2Mono(k + 1, len);
    assert Pow2(k + 1) == 2 * Pow2(k);
  }

  /** When every bit below len is set, the increment carries out at the top. */
  lemma RevCarry(len: nat, n: nat)
    requires len <= n
    ensures Rev(Pow2(len) - 1, n) + Pow2(n - len) == Pow2(n)
  {
    RevOnes(len, n);
  }
}
