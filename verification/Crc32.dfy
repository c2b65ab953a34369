/** CRC-32, core/zlib/crc32.c: a register over GF(2), byte tables, four bytes at a time in
    either byte order, and the combination of two checks. */
module Crc32 {
  type byte = bv8

  const POLY: bv32 := 0xedb88320

  /** Addition over GF(2). It has a name so that proofs can treat it as a group operation. */
  function Xor(x: bv32, y: bv32): bv32 { x ^ y }

  function Not(x: bv32): bv32 { x ^ 0xffffffff }

  function Wide(b: byte): bv32 { b as bv32 }

  lemma XorAssoc(x: bv32, y: bv32, z: bv32)
    ensures Xor(Xor(x, y), z) == Xor(x, Xor(y, z))
  {
  }

  lemma XorComm(x: bv32, y: bv32)
    ensures Xor(x, y) == Xor(y, x)
  {
  }

  lemma XorSelf(x: bv32)
    ensures Xor(x, x) == 0 && Xor(x, 0) == x && Xor(0, x) == x
  {
  }

  lemma NotXor(x: bv32)
    ensures Not(x) == Xor(x, Not(0)) && Not(Not(x)) == x
  {
  }

  // ---- the register, one bit at a time ---------------------------------------------------

  /** Multiplies by x modulo the polynomial. */
  function BitStep(c: bv32): bv32 { if Odd(c) then Xor(POLY, Half(c)) else Half(c) }

  predicate Odd(c: bv32) { c & 1 == 1 }

  function Half(c: bv32): bv32 { c >> 1 }

  /** The register after n zero bits. */
  function Zeros(c: bv32, n: nat): bv32
    decreases n
  {
    if n == 0 then c else Zeros(BitStep(c), n - 1)
  }

  /** Section 8 of RFC 1952: each byte is added to the low end and shifted through bit by bit. */
  function Register(c: bv32, data: seq<byte>): bv32
    decreases |data|
  {
    if data == [] then c else Zeros(Xor(Register(c, data[..|data| - 1]), Wide(data[|data| - 1])), 8)
  }

  /** The register is complemented before and after. */
  function Update(crc: bv32, data: seq<byte>): bv32 { Not(Register(Not(crc), data)) }

  function Crc(data: seq<byte>): bv32 { Update(0, data) }

  lemma RegisterSnoc(c: bv32, data: seq<byte>, b: byte)
    ensures Register(c, data + [b]) == Zeros(Xor(Register(c, data), Wide(b)), 8)
  {
    assert (data + [b])[..|data|] == data;
  }

  lemma {:induction false} RegisterConcat(c: bv32, a: seq<byte>, b: seq<byte>)
    ensures Register(c, a + b) == Register(Register(c, a), b)
    decreases |b|
  {
    hide Zeros, Xor, Wide;
    if b == [] {
      assert a + b == a;
    } else {
      var t := b[..|b| - 1];
      RegisterConcat(c, a, t);
      assert a + b == (a + t) + [b[|b| - 1]];
      RegisterSnoc(c, a + t, b[|b| - 1]);
    }
  }

  /** The data may be fed in pieces. */
  lemma UpdateConcat(crc: bv32, a: seq<byte>, b: seq<byte>)
    ensures Update(Update(crc, a), b) == Update(crc, a + b)
  {
    hide Register;
    RegisterConcat(Not(crc), a, b);
    assert Not(Not(Register(Not(crc), a))) == Register(Not(crc), a);
  }

  // ---- linearity ---------------------------------------------------------------------------

  lemma OddXor(x: bv32, y: bv32)
    ensures Odd(Xor(x, y)) <==> Odd(x) != Odd(y)
  {
  }

  lemma HalfXor(x: bv32, y: bv32)
    ensures Half(Xor(x, y)) == Xor(Half(x), Half(y))
  {
  }

  lemma BitStepLinear(x: bv32, y: bv32)
    ensures BitStep(Xor(x, y)) == Xor(BitStep(x), BitStep(y))
  {
    OddXor(x, y);
    HalfXor(x, y);
    hide Odd, Half, Xor;
    var p, u, v := POLY, Half(x), Half(y);
    XorAssoc(p, u, v);
    XorComm(p, u);
    XorAssoc(u, p, v);
    XorAssoc(Xor(p, u), p, v);
    XorAssoc(u, p, p);
    XorSelf(p);
    XorSelf(u);
  }

  lemma {:induction false} ZerosLinear(x: bv32, y: bv32, n: nat)
    ensures Zeros(Xor(x, y), n) == Xor(Zeros(x, n), Zeros(y, n))
    decreases n
  {
    hide BitStep, Xor;
    if n > 0 {
      BitStepLinear(x, y);
      ZerosLinear(BitStep(x), BitStep(y), n - 1);
    }
  }

  lemma {:induction false} ZerosAdd(c: bv32, m: nat, n: nat)
    ensures Zeros(c, m + n) == Zeros(Zeros(c, m), n)
    decreases m
  {
    hide BitStep;
    if m > 0 { ZerosAdd(BitStep(c), m - 1, n); }
  }

  /** Starting the register differently shows up as zero bits applied to the difference. */
  lemma {:induction false} RegisterLinear(x: bv32, y: bv32, data: seq<byte>)
    ensures Register(Xor(x, y), data) == Xor(Register(x, data), Zeros(y, 8 * |data|))
    decreases |data|
  {
    hide Zeros, Xor, Wide;
    if data == [] {
      ZerosNone(y);
    } else {
      var t, b := data[..|data| - 1], Wide(data[|data| - 1]);
      RegisterLinear(x, y, t);
      var r, z := Register(x, t), Zeros(y, 8 * |t|);
      assert Xor(Xor(r, z), b) == Xor(Xor(r, b), z) by {
        XorAssoc(r, z, b);
        XorComm(z, b);
        XorAssoc(r, b, z);
      }
      ZerosLinear(Xor(r, b), z, 8);
      ZerosAdd(y, 8 * |t|, 8);
    }
  }

  lemma ZerosOne(c: bv32)
    ensures Zeros(c, 1) == BitStep(c)
  {
  }

  lemma ZerosNone(c: bv32)
    ensures Zeros(c, 0) == c
  {
  }

  // ---- combining two checks ----------------------------------------------------------------

  /** What crc32_combine_ computes. */
  function Combine(crc1: bv32, crc2: bv32, len2: int): bv32 {
    if len2 <= 0 then crc1 else Xor(Zeros(crc1, 8 * len2), crc2)
  }

  /** From the checks of two pieces of data and the length of the second, the check of both. */
  lemma CombineIsConcat(a: seq<byte>, b: seq<byte>)
    ensures Combine(Crc(a), Crc(b), |b|) == Crc(a + b)
  {
    hide Zeros, Xor, Not, Register;
    var ones := Not(0);
    var r := Register(ones, a);
    RegisterConcat(ones, a, b);
    if b == [] {
      assert a + b == a;
    } else {
      var z, rb := Zeros(Not(r), 8 * |b|), Register(ones, b);
      NotXor(r);
      NotXor(rb);
      NotXor(Register(r, b));
      assert Xor(ones, Not(r)) == r by {
        XorComm(ones, Not(r));
        XorAssoc(r, ones, ones);
        XorSelf(ones);
        XorSelf(r);
      }
      RegisterLinear(ones, Not(r), b);
      assert Xor(Xor(rb, z), ones) == Xor(z, Xor(rb, ones)) by {
        XorComm(rb, z);
        XorAssoc(z, rb, ones);
      }
    }
  }
}
