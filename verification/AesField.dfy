/** Arithmetic of AES-128: bytes as elements of GF(2^8), the two substitution tables and the
    column transforms. Models core/aes/aes.c. */
module AesField {
  function Xor(x: bv8, y: bv8): bv8 {
    x ^ y
  }

  /** xtime: multiplication by {02} modulo the AES polynomial. */
  function Xtime(x: bv8): bv8 {
    (x << 1) ^ (((x >> 7) & 1) * 0x1b)
  }

  /** One row of a table, indexed by a half byte. */
  function Row(i: bv8, r0: bv8, r1: bv8, r2: bv8, r3: bv8, r4: bv8, r5: bv8, r6: bv8, r7: bv8,
               r8: bv8, r9: bv8, rA: bv8, rB: bv8, rC: bv8, rD: bv8, rE: bv8, rF: bv8): bv8 {
    if i & 8 == 0 then
      if i & 4 == 0 then
        if i & 2 == 0 then if i & 1 == 0 then r0 else r1 else if i & 1 == 0 then r2 else r3
      else
        if i & 2 == 0 then if i & 1 == 0 then r4 else r5 else if i & 1 == 0 then r6 else r7
    else
      if i & 4 == 0 then
        if i & 2 == 0 then if i & 1 == 0 then r8 else r9 else if i & 1 == 0 then rA else rB
      else
        if i & 2 == 0 then if i & 1 == 0 then rC else rD else if i & 1 == 0 then rE else rF
  }

  /** getSBoxValue, the table sbox row by row. */
  function Sbox(x: bv8): bv8 {
    Row(x >> 4,
      Row(x & 15, 0x63, 0x7c, 0x77, 0x7b, 0xf2, 0x6b, 0x6f, 0xc5, 0x30, 0x01, 0x67, 0x2b, 0xfe, 0xd7, 0xab, 0x76),
      Row(x & 15, 0xca, 0x82, 0xc9, 0x7d, 0xfa, 0x59, 0x47, 0xf0, 0xad, 0xd4, 0xa2, 0xaf, 0x9c, 0xa4, 0x72, 0xc0),
      Row(x & 15, 0xb7, 0xfd, 0x93, 0x26, 0x36, 0x3f, 0xf7, 0xcc, 0x34, 0xa5, 0xe5, 0xf1, 0x71, 0xd8, 0x31, 0x15),
      Row(x & 15, 0x04, 0xc7, 0x23, 0xc3, 0x18, 0x96, 0x05, 0x9a, 0x07, 0x12, 0x80, 0xe2, 0xeb, 0x27, 0xb2, 0x75),
      Row(x & 15, 0x09, 0x83, 0x2c, 0x1a, 0x1b, 0x6e, 0x5a, 0xa0, 0x52, 0x3b, 0xd6, 0xb3, 0x29, 0xe3, 0x2f, 0x84),
      Row(x & 15, 0x53, 0xd1, 0x00, 0xed, 0x20, 0xfc, 0xb1, 0x5b, 0x6a, 0xcb, 0xbe, 0x39, 0x4a, 0x4c, 0x58, 0xcf),
      Row(x & 15, 0xd0, 0xef, 0xaa, 0xfb, 0x43, 0x4d, 0x33, 0x85, 0x45, 0xf9, 0x02, 0x7f, 0x50, 0x3c, 0x9f, 0xa8),
      Row(x & 15, 0x51, 0xa3, 0x40, 0x8f, 0x92, 0x9d, 0x38, 0xf5, 0xbc, 0xb6, 0xda, 0x21, 0x10, 0xff, 0xf3, 0xd2),
      Row(x & 15, 0xcd, 0x0c, 0x13, 0xec, 0x5f, 0x97, 0x44, 0x17, 0xc4, 0xa7, 0x7e, 0x3d, 0x64, 0x5d, 0x19, 0x73),
      Row(x & 15, 0x60, 0x81, 0x4f, 0xdc, 0x22, 0x2a, 0x90, 0x88, 0x46, 0xee, 0xb8, 0x14, 0xde, 0x5e, 0x0b, 0xdb),
      Row(x & 15, 0xe0, 0x32, 0x3a, 0x0a, 0x49, 0x06, 0x24, 0x5c, 0xc2, 0xd3, 0xac, 0x62, 0x91, 0x95, 0xe4, 0x79),
      Row(x & 15, 0xe7, 0xc8, 0x37, 0x6d, 0x8d, 0xd5, 0x4e, 0xa9, 0x6c, 0x56, 0xf4, 0xea, 0x65, 0x7a, 0xae, 0x08),
      Row(x & 15, 0xba, 0x78, 0x25, 0x2e, 0x1c, 0xa6, 0xb4, 0xc6, 0xe8, 0xdd, 0x74, 0x1f, 0x4b, 0xbd, 0x8b, 0x8a),
      Row(x & 15, 0x70, 0x3e, 0xb5, 0x66, 0x48, 0x03, 0xf6, 0x0e, 0x61, 0x35, 0x57, 0xb9, 0x86, 0xc1, 0x1d, 0x9e),
      Row(x & 15, 0xe1, 0xf8, 0x98, 0x11, 0x69, 0xd9, 0x8e, 0x94, 0x9b, 0x1e, 0x87, 0xe9, 0xce, 0x55, 0x28, 0xdf),
      Row(x & 15, 0x8c, 0xa1, 0x89, 0x0d, 0xbf, 0xe6, 0x42, 0x68, 0x41, 0x99, 0x2d, 0x0f, 0xb0, 0x54, 0xbb, 0x16))
  }

  /** getSBoxInvert, the table rsbox row by row. */
  function Rsbox(x: bv8): bv8 {
    Row(x >> 4,
      Row(x & 15, 0x52, 0x09, 0x6a, 0xd5, 0x30, 0x36, 0xa5, 0x38, 0xbf, 0x40, 0xa3, 0x9e, 0x81, 0xf3, 0xd7, 0xfb),
      Row(x & 15, 0x7c, 0xe3, 0x39, 0x82, 0x9b, 0x2f, 0xff, 0x87, 0x34, 0x8e, 0x43, 0x44, 0xc4, 0xde, 0xe9, 0xcb),
      Row(x & 15, 0x54, 0x7b, 0x94, 0x32, 0xa6, 0xc2, 0x23, 0x3d, 0xee, 0x4c, 0x95, 0x0b, 0x42, 0xfa, 0xc3, 0x4e),
      Row(x & 15, 0x08, 0x2e, 0xa1, 0x66, 0x28, 0xd9, 0x24, 0xb2, 0x76, 0x5b, 0xa2, 0x49, 0x6d, 0x8b, 0xd1, 0x25),
      Row(x & 15, 0x72, 0xf8, 0xf6, 0x64, 0x86, 0x68, 0x98, 0x16, 0xd4, 0xa4, 0x5c, 0xcc, 0x5d, 0x65, 0xb6, 0x92),
      Row(x & 15, 0x6c, 0x70, 0x48, 0x50, 0xfd, 0xed, 0xb9, 0xda, 0x5e, 0x15, 0x46, 0x57, 0xa7, 0x8d, 0x9d, 0x84),
      Row(x & 15, 0x90, 0xd8, 0xab, 0x00, 0x8c, 0xbc, 0xd3, 0x0a, 0xf7, 0xe4, 0x58, 0x05, 0xb8, 0xb3, 0x45, 0x06),
      Row(x & 15, 0xd0, 0x2c, 0x1e, 0x8f, 0xca, 0x3f, 0x0f, 0x02, 0xc1, 0xaf, 0xbd, 0x03, 0x01, 0x13, 0x8a, 0x6b),
      Row(x & 15, 0x3a, 0x91, 0x11, 0x41, 0x4f, 0x67, 0xdc, 0xea, 0x97, 0xf2, 0xcf, 0xce, 0xf0, 0xb4, 0xe6, 0x73),
      Row(x & 15, 0x96, 0xac, 0x74, 0x22, 0xe7, 0xad, 0x35, 0x85, 0xe2, 0xf9, 0x37, 0xe8, 0x1c, 0x75, 0xdf, 0x6e),
      Row(x & 15, 0x47, 0xf1, 0x1a, 0x71, 0x1d, 0x29, 0xc5, 0x89, 0x6f, 0xb7, 0x62, 0x0e, 0xaa, 0x18, 0xbe, 0x1b),
      Row(x & 15, 0xfc, 0x56, 0x3e, 0x4b, 0xc6, 0xd2, 0x79, 0x20, 0x9a, 0xdb, 0xc0, 0xfe, 0x78, 0xcd, 0x5a, 0xf4),
      Row(x & 15, 0x1f, 0xdd, 0xa8, 0x33, 0x88, 0x07, 0xc7, 0x31, 0xb1, 0x12, 0x10, 0x59, 0x27, 0x80, 0xec, 0x5f),
      Row(x & 15, 0x60, 0x51, 0x7f, 0xa9, 0x19, 0xb5, 0x4a, 0x0d, 0x2d, 0xe5, 0x7a, 0x9f, 0x93, 0xc9, 0x9c, 0xef),
      Row(x & 15, 0xa0, 0xe0, 0x3b, 0x4d, 0xae, 0x2a, 0xf5, 0xb0, 0xc8, 0xeb, 0xbb, 0x3c, 0x83, 0x53, 0x99, 0x61),
      Row(x & 15, 0x17, 0x2b, 0x04, 0x7e, 0xba, 0x77, 0xd6, 0x26, 0xe1, 0x69, 0x14, 0x63, 0x55, 0x21, 0x0c, 0x7d))
  }

  lemma {:induction false} SboxBackLow(x: bv8)
    requires x < 0x80
    ensures Rsbox(Sbox(x)) == x
  {
  }

  lemma {:induction false} SboxBackHigh(x: bv8)
    requires 0x80 <= x
    ensures Rsbox(Sbox(x)) == x
  {
  }

  lemma {:induction false} RsboxBackLow(x: bv8)
    requires x < 0x80
    ensures Sbox(Rsbox(x)) == x
  {
  }

  lemma {:induction false} RsboxBackHigh(x: bv8)
    requires 0x80 <= x
    ensures Sbox(Rsbox(x)) == x
  {
  }

  /** The two tables are inverse permutations of the bytes. */
  lemma {:induction false} SboxInverse(x: bv8)
    ensures Rsbox(Sbox(x)) == x && Sbox(Rsbox(x)) == x
  {
    hide Sbox, Rsbox;
    if x < 0x80 {
      SboxBackLow(x);
      RsboxBackLow(x);
    } else {
      SboxBackHigh(x);
      RsboxBackHigh(x);
    }
  }

  // ---------------------------------------------------------------- columns

  datatype Column = Column(a: bv8, b: bv8, c: bv8, d: bv8)

  function Sum(a: bv8, b: bv8, c: bv8, d: bv8): bv8 {
    Xor(Xor(a, b), Xor(c, d))
  }

  /** x if the low bit of y is set, and 0 otherwise. */
  function Term(y: bv8, x: bv8): bv8 {
    (y & 1) * x
  }

  /** The macro Multiply; y is a constant of at most five bits. */
  function Multiply(x: bv8, y: bv8): bv8 {
    Xor(Sum(Term(y, x), Term(y >> 1, Xtime(x)), Term(y >> 2, Xtime(Xtime(x))), Term(y >> 3, Xtime(Xtime(Xtime(x))))),
        Term(y >> 4, Xtime(Xtime(Xtime(Xtime(x))))))
  }

  /** A row of the matrix of section 5.1.3 of FIPS 197, circulant of {02} {03} {01} {01}. */
  function MixRow(a: bv8, b: bv8, c: bv8, d: bv8): bv8 {
    Sum(Multiply(a, 2), Multiply(b, 3), c, d)
  }

  function MixColumn(s: Column): Column {
    Column(MixRow(s.a, s.b, s.c, s.d), MixRow(s.b, s.c, s.d, s.a), MixRow(s.c, s.d, s.a, s.b), MixRow(s.d, s.a, s.b, s.c))
  }

  /** A row of the matrix of section 5.3.3 of FIPS 197, circulant of {0e} {0b} {0d} {09}. */
  function InvMixRow(a: bv8, b: bv8, c: bv8, d: bv8): bv8 {
    Sum(Multiply(a, 0x0e), Multiply(b, 0x0b), Multiply(c, 0x0d), Multiply(d, 0x09))
  }

  function InvMixColumn(s: Column): Column {
    Column(InvMixRow(s.a, s.b, s.c, s.d), InvMixRow(s.b, s.c, s.d, s.a),
           InvMixRow(s.c, s.d, s.a, s.b), InvMixRow(s.d, s.a, s.b, s.c))
  }

  lemma {:induction false} XtimeLinear(x: bv8, y: bv8)
    ensures Xtime(Xor(x, y)) == Xor(Xtime(x), Xtime(y))
  {
  }

  lemma {:induction false} TermValue(m: bv8, x: bv8)
    ensures Term(m, x) == if m & 1 == 0 then 0 else x
  {
  }

  lemma {:induction false} XorAssoc(x: bv8, y: bv8, z: bv8)
    ensures Xor(Xor(x, y), z) == Xor(x, Xor(y, z))
  {
  }

  lemma {:induction false} XorComm(x: bv8, y: bv8)
    ensures Xor(x, y) == Xor(y, x)
  {
  }

  lemma {:induction false} XorSelf(x: bv8)
    ensures Xor(x, x) == 0 && Xor(x, 0) == x && Xor(0, x) == x
  {
  }

  lemma {:induction false} Regroup(a: bv8, b: bv8, c: bv8, d: bv8)
    ensures Xor(Xor(a, b), Xor(c, d)) == Xor(Xor(a, c), Xor(b, d))
  {
    hide Xor;
    XorAssoc(a, b, Xor(c, d));
    XorAssoc(b, c, d);
    XorComm(b, c);
    XorAssoc(c, b, d);
    XorAssoc(a, c, Xor(b, d));
  }

  lemma {:induction false} SumLinear(a: bv8, b: bv8, c: bv8, d: bv8, e: bv8, f: bv8, g: bv8, h: bv8)
    ensures Sum(Xor(a, e), Xor(b, f), Xor(c, g), Xor(d, h)) == Xor(Sum(a, b, c, d), Sum(e, f, g, h))
  {
    hide Xor;
    Regroup(a, e, b, f);
    Regroup(c, g, d, h);
    Regroup(Xor(a, b), Xor(e, f), Xor(c, d), Xor(g, h));
  }

  lemma {:induction false} TermLinear(m: bv8, x: bv8, y: bv8)
    ensures Term(m, Xor(x, y)) == Xor(Term(m, x), Term(m, y))
  {
    hide Term, Xor;
    TermValue(m, x);
    TermValue(m, y);
    TermValue(m, Xor(x, y));
    XorSelf(0);
  }

  /** Multiplication in the field distributes over addition, whatever the constant. */
  lemma {:induction false} MultiplyLinear(x: bv8, y: bv8, m: bv8)
    ensures Multiply(Xor(x, y), m) == Xor(Multiply(x, m), Multiply(y, m))
  {
    hide Xtime, Term, Sum, Xor;
    var x1, y1 := Xtime(x), Xtime(y);
    var x2, y2 := Xtime(x1), Xtime(y1);
    var x3, y3 := Xtime(x2), Xtime(y2);
    XtimeLinear(x, y);
    XtimeLinear(x1, y1);
    XtimeLinear(x2, y2);
    XtimeLinear(x3, y3);
    TermLinear(m, x, y);
    TermLinear(m >> 1, x1, y1);
    TermLinear(m >> 2, x2, y2);
    TermLinear(m >> 3, x3, y3);
    TermLinear(m >> 4, Xtime(x3), Xtime(y3));
    SumLinear(Term(m, x), Term(m >> 1, x1), Term(m >> 2, x2), Term(m >> 3, x3),
              Term(m, y), Term(m >> 1, y1), Term(m >> 2, y2), Term(m >> 3, y3));
    Regroup(Sum(Term(m, x), Term(m >> 1, x1), Term(m >> 2, x2), Term(m >> 3, x3)),
            Sum(Term(m, y), Term(m >> 1, y1), Term(m >> 2, y2), Term(m >> 3, y3)),
            Term(m >> 4, Xtime(x3)), Term(m >> 4, Xtime(y3)));
    assert Multiply(Xor(x, y), m) == Xor(Multiply(x, m), Multiply(y, m));
  }

  lemma {:induction false} MixRowLinear(a: bv8, b: bv8, c: bv8, d: bv8, e: bv8, f: bv8, g: bv8, h: bv8)
    ensures MixRow(Xor(a, e), Xor(b, f), Xor(c, g), Xor(d, h)) == Xor(MixRow(a, b, c, d), MixRow(e, f, g, h))
  {
    hide Multiply, Sum, Xor;
    MultiplyLinear(a, e, 2);
    MultiplyLinear(b, f, 3);
    SumLinear(Multiply(a, 2), Multiply(b, 3), c, d, Multiply(e, 2), Multiply(f, 3), g, h);
  }

  lemma {:induction false} InvMixRowLinear(a: bv8, b: bv8, c: bv8, d: bv8, e: bv8, f: bv8, g: bv8, h: bv8)
    ensures InvMixRow(Xor(a, e), Xor(b, f), Xor(c, g), Xor(d, h)) == Xor(InvMixRow(a, b, c, d), InvMixRow(e, f, g, h))
  {
    hide Multiply, Sum, Xor;
    MultiplyLinear(a, e, 0x0e);
    MultiplyLinear(b, f, 0x0b);
    MultiplyLinear(c, g, 0x0d);
    MultiplyLinear(d, h, 0x09);
    SumLinear(Multiply(a, 0x0e), Multiply(b, 0x0b), Multiply(c, 0x0d), Multiply(d, 0x09),
              Multiply(e, 0x0e), Multiply(f, 0x0b), Multiply(g, 0x0d), Multiply(h, 0x09));
  }

  lemma {:induction false} TermAdd(x: bv8, m: bv8, n: bv8)
    ensures Xor(Term(m, x), Term(n, x)) == Term(Xor(m, n), x)
  {
    hide Term;
    TermValue(m, x);
    TermValue(n, x);
    TermValue(Xor(m, n), x);
  }

  lemma {:induction false} ShiftAdd(m: bv8, n: bv8)
    ensures Xor(m, n) >> 1 == Xor(m >> 1, n >> 1) && Xor(m, n) >> 2 == Xor(m >> 2, n >> 2)
    ensures Xor(m, n) >> 3 == Xor(m >> 3, n >> 3) && Xor(m, n) >> 4 == Xor(m >> 4, n >> 4)
  {
  }

  /** Multiples of one byte are added by adding the constants. */
  lemma {:induction false} MultiplyAdd(x: bv8, m: bv8, n: bv8)
    ensures Xor(Multiply(x, m), Multiply(x, n)) == Multiply(x, Xor(m, n))
  {
    hide Xtime, Term, Sum, Xor;
    var x1 := Xtime(x);
    var x2 := Xtime(x1);
    var x3 := Xtime(x2);
    var x4 := Xtime(x3);
    ShiftAdd(m, n);
    TermAdd(x, m, n);
    TermAdd(x1, m >> 1, n >> 1);
    TermAdd(x2, m >> 2, n >> 2);
    TermAdd(x3, m >> 3, n >> 3);
    TermAdd(x4, m >> 4, n >> 4);
    SumLinear(Term(m, x), Term(m >> 1, x1), Term(m >> 2, x2), Term(m >> 3, x3),
              Term(n, x), Term(n >> 1, x1), Term(n >> 2, x2), Term(n >> 3, x3));
    Regroup(Sum(Term(m, x), Term(m >> 1, x1), Term(m >> 2, x2), Term(m >> 3, x3)), Term(m >> 4, x4),
            Sum(Term(n, x), Term(n >> 1, x1), Term(n >> 2, x2), Term(n >> 3, x3)), Term(n >> 4, x4));
  }

  lemma {:induction false} ShiftBack(m: bv8, x: bv8)
    requires m < 16
    ensures (m << 1) >> 1 == m && (m << 1) >> 2 == m >> 1 && (m << 1) >> 3 == m >> 2 && (m << 1) >> 4 == m >> 3
    ensures Term(m << 1, x) == 0 && Term(m >> 4, x) == 0
  {
  }

  lemma {:induction false} SumShift(a: bv8, b: bv8, c: bv8, d: bv8)
    ensures Xor(Sum(0, a, b, c), d) == Xor(Sum(a, b, c, d), 0)
  {
    hide Xor;
    XorSelf(a);
    XorSelf(Sum(a, b, c, d));
    XorAssoc(a, b, c);
    XorAssoc(Xor(a, b), c, d);
  }

  /** Doubling the byte or the constant is the same. */
  lemma {:induction false} MultiplyDouble(x: bv8, m: bv8)
    requires m < 16
    ensures Multiply(Xtime(x), m) == Multiply(x, m << 1)
  {
    var x1 := Xtime(x);
    var x2 := Xtime(x1);
    var x3 := Xtime(x2);
    var x4 := Xtime(x3);
    hide Xtime, Term, Sum, Xor;
    ShiftBack(m, x);
    ShiftBack(m, Xtime(x4));
    SumShift(Term(m, x1), Term(m >> 1, x2), Term(m >> 2, x3), Term(m >> 3, x4));
  }

  lemma {:induction false} TermXtime(m: bv8, x: bv8)
    ensures Xtime(Term(m, x)) == Term(m, Xtime(x))
  {
    hide Term;
    TermValue(m, x);
    TermValue(m, Xtime(x));
  }

  lemma {:induction false} XtimeMultiply(x: bv8, m: bv8)
    ensures Xtime(Multiply(x, m)) == Multiply(Xtime(x), m)
  {
    hide Xtime, Term, Xor;
    var x1 := Xtime(x);
    var x2 := Xtime(x1);
    var x3 := Xtime(x2);
    var x4 := Xtime(x3);
    TermXtime(m, x);
    TermXtime(m >> 1, x1);
    TermXtime(m >> 2, x2);
    TermXtime(m >> 3, x3);
    TermXtime(m >> 4, x4);
    var a, b, c, d := Term(m, x), Term(m >> 1, x1), Term(m >> 2, x2), Term(m >> 3, x3);
    XtimeLinear(a, b);
    XtimeLinear(c, d);
    XtimeLinear(Xor(a, b), Xor(c, d));
    XtimeLinear(Sum(a, b, c, d), Term(m >> 4, x4));
  }

  lemma {:induction false} SmallMultiples(x: bv8)
    ensures Multiply(x, 0) == 0 && Multiply(x, 1) == x
    ensures Multiply(x, 2) == Xtime(x) && Multiply(x, 3) == Xor(x, Xtime(x))
  {
  }

  lemma {:induction false} MultiplyZero(m: bv8)
    ensures Multiply(0, m) == 0
  {
    hide Multiply;
    MultiplyLinear(0, 0, m);
    XorSelf(Multiply(0, m));
  }

  /** Constants below 16 multiply by {02} and {03} without carries, in either order; nothing overflows the
      five bits of the macro. */
  lemma {:induction false} MultiplyTwice(x: bv8, m: bv8)
    requires m < 16
    ensures Multiply(Multiply(x, 2), m) == Multiply(Multiply(x, m), 2) == Multiply(x, m << 1)
    ensures Multiply(Multiply(x, 3), m) == Multiply(Multiply(x, m), 3) == Multiply(x, Xor(m, m << 1))
  {
    hide Multiply, Xor, Xtime;
    SmallMultiples(x);
    SmallMultiples(Multiply(x, m));
    XtimeMultiply(x, m);
    MultiplyDouble(x, m);
    MultiplyLinear(x, Xtime(x), m);
    MultiplyAdd(x, m, m << 1);
  }

  lemma {:induction false} SumAdd(x: bv8, p: bv8, q: bv8, r: bv8, s: bv8)
    ensures Sum(Multiply(x, p), Multiply(x, q), Multiply(x, r), Multiply(x, s)) == Multiply(x, Sum(p, q, r, s))
  {
    hide Multiply, Xor;
    MultiplyAdd(x, p, q);
    MultiplyAdd(x, r, s);
    MultiplyAdd(x, Xor(p, q), Xor(r, s));
  }

  /** A row of a matrix applied to a column with one entry. */
  lemma {:induction false} OneEntry(x: bv8)
    ensures MixRow(x, 0, 0, 0) == Multiply(x, 2) && MixRow(0, x, 0, 0) == Multiply(x, 3)
    ensures MixRow(0, 0, x, 0) == MixRow(0, 0, 0, x) == Multiply(x, 1) == x
    ensures InvMixRow(x, 0, 0, 0) == Multiply(x, 0x0e) && InvMixRow(0, x, 0, 0) == Multiply(x, 0x0b)
    ensures InvMixRow(0, 0, x, 0) == Multiply(x, 0x0d) && InvMixRow(0, 0, 0, x) == Multiply(x, 0x09)
  {
    hide Multiply, Xor;
    SmallMultiples(x);
    MultiplyZero(2);
    MultiplyZero(3);
    MultiplyZero(0x0e);
    MultiplyZero(0x0b);
    MultiplyZero(0x0d);
    MultiplyZero(0x09);
    XorSelf(0);
    XorSelf(x);
    XorSelf(Multiply(x, 2));
    XorSelf(Multiply(x, 3));
    XorSelf(Multiply(x, 0x0e));
    XorSelf(Multiply(x, 0x0b));
    XorSelf(Multiply(x, 0x0d));
    XorSelf(Multiply(x, 0x09));
  }

  /** A row of the product of the two matrices, as a function of the column. */
  function Product(a: bv8, b: bv8, c: bv8, d: bv8): bv8 {
    InvMixRow(MixRow(a, b, c, d), MixRow(b, c, d, a), MixRow(c, d, a, b), MixRow(d, a, b, c))
  }

  function ProductBack(a: bv8, b: bv8, c: bv8, d: bv8): bv8 {
    MixRow(InvMixRow(a, b, c, d), InvMixRow(b, c, d, a), InvMixRow(c, d, a, b), InvMixRow(d, a, b, c))
  }

  lemma {:induction false} ConstantSums()
    ensures Sum(0x0e << 1, 0x0b, 0x0d, Xor(0x09, 0x09 << 1)) == 1
    ensures Sum(Xor(0x0e, 0x0e << 1), 0x0b << 1, 0x0d, 0x09) == 0
    ensures Sum(0x0e, Xor(0x0b, 0x0b << 1), 0x0d << 1, 0x09) == 0
    ensures Sum(0x0e, 0x0b, Xor(0x0d, 0x0d << 1), 0x09 << 1) == 0
    ensures Sum(0x0e << 1, Xor(0x09, 0x09 << 1), 0x0d, 0x0b) == 1
    ensures Sum(0x0b << 1, Xor(0x0e, 0x0e << 1), 0x09, 0x0d) == 0
    ensures Sum(0x0d << 1, Xor(0x0b, 0x0b << 1), 0x0e, 0x09) == 0
    ensures Sum(0x09 << 1, Xor(0x0d, 0x0d << 1), 0x0b, 0x0e) == 0
  {
  }

  /** The product one entry at a time: the first row of the identity. */
  lemma {:induction false} Entries(x: bv8)
    ensures Product(x, 0, 0, 0) == x
    ensures Product(0, x, 0, 0) == Product(0, 0, x, 0) == Product(0, 0, 0, x) == 0
  {
    hide Multiply, MixRow, Xor, Sum;
    OneEntry(x);
    SmallMultiples(x);
    MultiplyTwice(x, 0x0e);
    MultiplyTwice(x, 0x0b);
    MultiplyTwice(x, 0x0d);
    MultiplyTwice(x, 0x09);
    ConstantSums();
    SumAdd(x, 0x0e << 1, 0x0b, 0x0d, Xor(0x09, 0x09 << 1));
    SumAdd(x, Xor(0x0e, 0x0e << 1), 0x0b << 1, 0x0d, 0x09);
    SumAdd(x, 0x0e, Xor(0x0b, 0x0b << 1), 0x0d << 1, 0x09);
    SumAdd(x, 0x0e, 0x0b, Xor(0x0d, 0x0d << 1), 0x09 << 1);
  }

  lemma {:induction false} EntriesBack(x: bv8)
    ensures ProductBack(x, 0, 0, 0) == x
    ensures ProductBack(0, x, 0, 0) == ProductBack(0, 0, x, 0) == ProductBack(0, 0, 0, x) == 0
  {
    hide Multiply, InvMixRow, Xor, Sum;
    OneEntry(x);
    SmallMultiples(x);
    MultiplyTwice(x, 0x0e);
    MultiplyTwice(x, 0x0b);
    MultiplyTwice(x, 0x0d);
    MultiplyTwice(x, 0x09);
    ConstantSums();
    SumAdd(x, 0x0e << 1, Xor(0x09, 0x09 << 1), 0x0d, 0x0b);
    SumAdd(x, 0x0b << 1, Xor(0x0e, 0x0e << 1), 0x09, 0x0d);
    SumAdd(x, 0x0d << 1, Xor(0x0b, 0x0b << 1), 0x0e, 0x09);
    SumAdd(x, 0x09 << 1, Xor(0x0d, 0x0d << 1), 0x0b, 0x0e);
  }

  lemma {:induction false} ProductLinear(a: bv8, b: bv8, c: bv8, d: bv8, e: bv8, f: bv8, g: bv8, h: bv8)
    ensures Product(Xor(a, e), Xor(b, f), Xor(c, g), Xor(d, h)) == Xor(Product(a, b, c, d), Product(e, f, g, h))
  {
    hide MixRow, InvMixRow, Xor;
    MixRowLinear(a, b, c, d, e, f, g, h);
    MixRowLinear(b, c, d, a, f, g, h, e);
    MixRowLinear(c, d, a, b, g, h, e, f);
    MixRowLinear(d, a, b, c, h, e, f, g);
    InvMixRowLinear(MixRow(a, b, c, d), MixRow(b, c, d, a), MixRow(c, d, a, b), MixRow(d, a, b, c),
                    MixRow(e, f, g, h), MixRow(f, g, h, e), MixRow(g, h, e, f), MixRow(h, e, f, g));
  }

  lemma {:induction false} ProductBackLinear(a: bv8, b: bv8, c: bv8, d: bv8, e: bv8, f: bv8, g: bv8, h: bv8)
    ensures ProductBack(Xor(a, e), Xor(b, f), Xor(c, g), Xor(d, h)) ==
      Xor(ProductBack(a, b, c, d), ProductBack(e, f, g, h))
  {
    hide MixRow, InvMixRow, Xor;
    InvMixRowLinear(a, b, c, d, e, f, g, h);
    InvMixRowLinear(b, c, d, a, f, g, h, e);
    InvMixRowLinear(c, d, a, b, g, h, e, f);
    InvMixRowLinear(d, a, b, c, h, e, f, g);
    MixRowLinear(InvMixRow(a, b, c, d), InvMixRow(b, c, d, a), InvMixRow(c, d, a, b), InvMixRow(d, a, b, c),
                 InvMixRow(e, f, g, h), InvMixRow(f, g, h, e), InvMixRow(g, h, e, f), InvMixRow(h, e, f, g));
  }

  /** Superposition: the product is linear and its entries are those of the identity. */
  lemma {:induction false} ProductIsFirst(a: bv8, b: bv8, c: bv8, d: bv8)
    ensures Product(a, b, c, d) == a
  {
    hide Product, Xor;
    Entries(a);
    Entries(b);
    Entries(c);
    Entries(d);
    XorSelf(0);
    XorSelf(a);
    XorSelf(b);
    XorSelf(c);
    XorSelf(d);
    ProductLinear(a, 0, 0, 0, 0, b, 0, 0);
    ProductLinear(a, b, 0, 0, 0, 0, c, 0);
    ProductLinear(a, b, c, 0, 0, 0, 0, d);
  }

  lemma {:induction false} ProductBackIsFirst(a: bv8, b: bv8, c: bv8, d: bv8)
    ensures ProductBack(a, b, c, d) == a
  {
    hide ProductBack, Xor;
    EntriesBack(a);
    EntriesBack(b);
    EntriesBack(c);
    EntriesBack(d);
    XorSelf(0);
    XorSelf(a);
    XorSelf(b);
    XorSelf(c);
    XorSelf(d);
    ProductBackLinear(a, 0, 0, 0, 0, b, 0, 0);
    ProductBackLinear(a, b, 0, 0, 0, 0, c, 0);
    ProductBackLinear(a, b, c, 0, 0, 0, 0, d);
  }

  /** InvMixColumns undoes MixColumns, and the other way round, column by column. */
  lemma {:induction false} MixColumnInverse(s: Column)
    ensures InvMixColumn(MixColumn(s)) == s && MixColumn(InvMixColumn(s)) == s
  {
    hide MixRow, InvMixRow;
    ProductIsFirst(s.a, s.b, s.c, s.d);
    ProductIsFirst(s.b, s.c, s.d, s.a);
    ProductIsFirst(s.c, s.d, s.a, s.b);
    ProductIsFirst(s.d, s.a, s.b, s.c);
    ProductBackIsFirst(s.a, s.b, s.c, s.d);
    ProductBackIsFirst(s.b, s.c, s.d, s.a);
    ProductBackIsFirst(s.c, s.d, s.a, s.b);
    ProductBackIsFirst(s.d, s.a, s.b, s.c);
  }

  lemma {:induction false} SumRotate(a: bv8, b: bv8, c: bv8, d: bv8)
    ensures Sum(b, c, d, a) == Sum(a, b, c, d)
  {
    hide Xor;
    XorComm(Xor(b, c), Xor(d, a));
    Regroup(d, a, b, c);
    XorComm(d, b);
    XorComm(d, a);
    XorAssoc(a, d, Xor(b, c));
    XorAssoc(d, b, c);
    XorComm(d, Xor(b, c));
    XorAssoc(b, c, d);
    XorAssoc(a, b, Xor(c, d));
  }

  /** The form in which MixColumns computes a row: one xtime and the sum Tmp of the column. */
  lemma {:induction false} MixRowShort(a: bv8, b: bv8, c: bv8, d: bv8)
    ensures MixRow(a, b, c, d) == Xor(a, Xor(Xtime(Xor(a, b)), Sum(a, b, c, d)))
  {
    hide Multiply, Xtime, Xor;
    SmallMultiples(a);
    SmallMultiples(b);
    XtimeLinear(a, b);
    var xa, xb, s := Xtime(a), Xtime(b), Xor(c, d);
    // (xa + (b + xb)) + s, against a + ((xa + xb) + ((a + b) + s))
    XorComm(a, Xor(Xor(xa, xb), Xor(Xor(a, b), s)));
    XorComm(Xor(xa, xb), Xor(Xor(a, b), s));
    XorComm(a, b);
    XorAssoc(b, a, s);
    XorComm(a, s);
    XorAssoc(b, s, a);
    XorComm(Xor(Xor(b, s), a), Xor(xa, xb));
    XorAssoc(Xor(xa, xb), Xor(b, s), a);
    XorAssoc(Xor(Xor(xa, xb), Xor(b, s)), a, a);
    XorSelf(a);
    XorSelf(Xor(Xor(xa, xb), Xor(b, s)));
    XorAssoc(Xor(xa, xb), b, s);
    XorAssoc(xa, xb, b);
    XorComm(xb, b);
  }
}
