/** What FIPS 197 says of the parts of AES-128 that are tables and recurrences in core/aes/aes.c:
    the substitution table as inversion in the field followed by an affine map, the key schedule
    byte by byte, and the rounds byte by byte. */
module AesStandard {
  import opened AesField
  import opened AesCipher

  // ---------------------------------------------------------------- the substitution table

  /** The product of two bytes in the field: the multiples of y by the powers of {02} that make up x. */
  function Product(x: bv8, y: bv8): bv8 {
    var y1 := Xtime(y);
    var y2 := Xtime(y1);
    var y3 := Xtime(y2);
    var y4 := Xtime(y3);
    var y5 := Xtime(y4);
    var y6 := Xtime(y5);
    var y7 := Xtime(y6);
    Term(x, y) ^ Term(x >> 1, y1) ^ Term(x >> 2, y2) ^ Term(x >> 3, y3)
    ^ Term(x >> 4, y4) ^ Term(x >> 5, y5) ^ Term(x >> 6, y6) ^ Term(x >> 7, y7)
  }

  function Rotate(x: bv8, n: bv8): bv8
    requires n <= 8
  {
    (x << n) | (x >> (8 - n))
  }

  /** The affine transformation of section 5.1.1: bit i of the result is the sum of the bits i, i + 4,
      i + 5, i + 6 and i + 7, modulo 8, of y and of bit i of {63}. */
  function Affine(y: bv8): bv8 {
    y ^ Rotate(y, 1) ^ Rotate(y, 2) ^ Rotate(y, 3) ^ Rotate(y, 4) ^ 0x63
  }

  function Unaffine(z: bv8): bv8 {
    Rotate(z, 1) ^ Rotate(z, 3) ^ Rotate(z, 6) ^ 0x05
  }

  /** The multiplicative inverse, where {00} is mapped to itself. */
  predicate IsInverse(x: bv8, y: bv8) {
    if x == 0 then y == 0 else Product(x, y) == 1
  }

  predicate Inverts(x: bv8) {
    IsInverse(x, Unaffine(Sbox(x)))
  }

  lemma {:induction false} AffineBack(z: bv8)
    ensures Affine(Unaffine(z)) == z
  {
  }

  // The table is evaluated row by row, in columns k and k + 8 at a time.

  lemma {:induction false} InvertsRow0(x: bv8)
    requires x >> 4 == 0
    ensures Inverts(x)
  {
    match x & 7
    case 0 => assert Inverts(x);
    case 1 => assert Inverts(x);
    case 2 => assert Inverts(x);
    case 3 => assert Inverts(x);
    case 4 => assert Inverts(x);
    case 5 => assert Inverts(x);
    case 6 => assert Inverts(x);
    case _ =>
  }

  lemma {:induction false} InvertsRow1(x: bv8)
    requires x >> 4 == 1
    ensures Inverts(x)
  {
    match x & 7
    case 0 => assert Inverts(x);
    case 1 => assert Inverts(x);
    case 2 => assert Inverts(x);
    case 3 => assert Inverts(x);
    case 4 => assert Inverts(x);
    case 5 => assert Inverts(x);
    case 6 => assert Inverts(x);
    case _ =>
  }

  lemma {:induction false} InvertsRow2(x: bv8)
    requires x >> 4 == 2
    ensures Inverts(x)
  {
    match x & 7
    case 0 => assert Inverts(x);
    case 1 => assert Inverts(x);
    case 2 => assert Inverts(x);
    case 3 => assert Inverts(x);
    case 4 => assert Inverts(x);
    case 5 => assert Inverts(x);
    case 6 => assert Inverts(x);
    case _ =>
  }

  lemma {:induction false} InvertsRow3(x: bv8)
    requires x >> 4 == 3
    ensures Inverts(x)
  {
    match x & 7
    case 0 => assert Inverts(x);
    case 1 => assert Inverts(x);
    case 2 => assert Inverts(x);
    case 3 => assert Inverts(x);
    case 4 => assert Inverts(x);
    case 5 => assert Inverts(x);
    case 6 => assert Inverts(x);
    case _ =>
  }

  lemma {:induction false} InvertsRow4(x: bv8)
    requires x >> 4 == 4
    ensures Inverts(x)
  {
    match x & 7
    case 0 => assert Inverts(x);
    case 1 => assert Inverts(x);
    case 2 => assert Inverts(x);
    case 3 => assert Inverts(x);
    case 4 => assert Inverts(x);
    case 5 => assert Inverts(x);
    case 6 => assert Inverts(x);
    case _ =>
  }

  lemma {:induction false} InvertsRow5(x: bv8)
    requires x >> 4 == 5
    ensures Inverts(x)
  {
    match x & 7
    case 0 => assert Inverts(x);
    case 1 => assert Inverts(x);
    case 2 => assert Inverts(x);
    case 3 => assert Inverts(x);
    case 4 => assert Inverts(x);
    case 5 => assert Inverts(x);
    case 6 => assert Inverts(x);
    case _ =>
  }

  lemma {:induction false} InvertsRow6(x: bv8)
    requires x >> 4 == 6
    ensures Inverts(x)
  {
    match x & 7
    case 0 => assert Inverts(x);
    case 1 => assert Inverts(x);
    case 2 => assert Inverts(x);
    case 3 => assert Inverts(x);
    case 4 => assert Inverts(x);
    case 5 => assert Inverts(x);
    case 6 => assert Inverts(x);
    case _ =>
  }

  lemma {:induction false} InvertsRow7(x: bv8)
    requires x >> 4 == 7
    ensures Inverts(x)
  {
    match x & 7
    case 0 => assert Inverts(x);
    case 1 => assert Inverts(x);
    case 2 => assert Inverts(x);
    case 3 => assert Inverts(x);
    case 4 => assert Inverts(x);
    case 5 => assert Inverts(x);
    case 6 => assert Inverts(x);
    case _ =>
  }

  lemma {:induction false} InvertsRow8(x: bv8)
    requires x >> 4 == 8
    ensures Inverts(x)
  {
    match x & 7
    case 0 => assert Inverts(x);
    case 1 => assert Inverts(x);
    case 2 => assert Inverts(x);
    case 3 => assert Inverts(x);
    case 4 => assert Inverts(x);
    case 5 => assert Inverts(x);
    case 6 => assert Inverts(x);
    case _ =>
  }

  lemma {:induction false} InvertsRow9(x: bv8)
    requires x >> 4 == 9
    ensures Inverts(x)
  {
    match x & 7
    case 0 => assert Inverts(x);
    case 1 => assert Inverts(x);
    case 2 => assert Inverts(x);
    case 3 => assert Inverts(x);
    case 4 => assert Inverts(x);
    case 5 => assert Inverts(x);
    case 6 => assert Inverts(x);
    case _ =>
  }

  lemma {:induction false} InvertsRow10(x: bv8)
    requires x >> 4 == 10
    ensures Inverts(x)
  {
    match x & 7
    case 0 => assert Inverts(x);
    case 1 => assert Inverts(x);
    case 2 => assert Inverts(x);
    case 3 => assert Inverts(x);
    case 4 => assert Inverts(x);
    case 5 => assert Inverts(x);
    case 6 => assert Inverts(x);
    case _ =>
  }

  lemma {:induction false} InvertsRow11(x: bv8)
    requires x >> 4 == 11
    ensures Inverts(x)
  {
    match x & 7
    case 0 => assert Inverts(x);
    case 1 => assert Inverts(x);
    case 2 => assert Inverts(x);
    case 3 => assert Inverts(x);
    case 4 => assert Inverts(x);
    case 5 => assert Inverts(x);
    case 6 => assert Inverts(x);
    case _ =>
  }

  lemma {:induction false} InvertsRow12(x: bv8)
    requires x >> 4 == 12
    ensures Inverts(x)
  {
    match x & 7
    case 0 => assert Inverts(x);
    case 1 => assert Inverts(x);
    case 2 => assert Inverts(x);
    case 3 => assert Inverts(x);
    case 4 => assert Inverts(x);
    case 5 => assert Inverts(x);
    case 6 => assert Inverts(x);
    case _ =>
  }

  lemma {:induction false} InvertsRow13(x: bv8)
    requires x >> 4 == 13
    ensures Inverts(x)
  {
    match x & 7
    case 0 => assert Inverts(x);
    case 1 => assert Inverts(x);
    case 2 => assert Inverts(x);
    case 3 => assert Inverts(x);
    case 4 => assert Inverts(x);
    case 5 => assert Inverts(x);
    case 6 => assert Inverts(x);
    case _ =>
  }

  lemma {:induction false} InvertsRow14(x: bv8)
    requires x >> 4 == 14
    ensures Inverts(x)
  {
    match x & 7
    case 0 => assert Inverts(x);
    case 1 => assert Inverts(x);
    case 2 => assert Inverts(x);
    case 3 => assert Inverts(x);
    case 4 => assert Inverts(x);
    case 5 => assert Inverts(x);
    case 6 => assert Inverts(x);
    case _ =>
  }

  lemma {:induction false} InvertsRow15(x: bv8)
    requires x >> 4 == 15
    ensures Inverts(x)
  {
    match x & 7
    case 0 => assert Inverts(x);
    case 1 => assert Inverts(x);
    case 2 => assert Inverts(x);
    case 3 => assert Inverts(x);
    case 4 => assert Inverts(x);
    case 5 => assert Inverts(x);
    case 6 => assert Inverts(x);
    case _ =>
  }

  lemma {:induction false} InvertsAny(x: bv8)
    ensures Inverts(x)
  {
    hide Inverts;
    match x >> 4
    case 0 => InvertsRow0(x);
    case 1 => InvertsRow1(x);
    case 2 => InvertsRow2(x);
    case 3 => InvertsRow3(x);
    case 4 => InvertsRow4(x);
    case 5 => InvertsRow5(x);
    case 6 => InvertsRow6(x);
    case 7 => InvertsRow7(x);
    case 8 => InvertsRow8(x);
    case 9 => InvertsRow9(x);
    case 10 => InvertsRow10(x);
    case 11 => InvertsRow11(x);
    case 12 => InvertsRow12(x);
    case 13 => InvertsRow13(x);
    case 14 => InvertsRow14(x);
    case _ => InvertsRow15(x);
  }

  /** Every entry of the table is the affine image of the inverse of its index. */
  lemma {:induction false} SboxStandard(x: bv8) returns (y: bv8)
    ensures IsInverse(x, y) && Sbox(x) == Affine(y)
  {
    hide Sbox, Affine, Unaffine, IsInverse;
    y := Unaffine(Sbox(x));
    AffineBack(Sbox(x));
    InvertsAny(x);
  }

  // ---------------------------------------------------------------- the key schedule

  /** {02} to the power n. */
  function Power(n: nat): bv8 {
    if n == 0 then 1 else Xtime(Power(n - 1))
  }

  lemma {:induction false} RconIsPower(n: nat)
    requires 1 <= n <= 10
    ensures RCON[n] == Power(n - 1)
  {
    hide Xtime;
    if n > 1 {
      RconPowers(n - 1);
      RconIsPower(n - 1);
    }
  }

  lemma {:induction false} ByteOfSum(u: Column, v: Column, r: nat)
    requires r < 4
    ensures ByteOf(XorWord(u, v), r) == Xor(ByteOf(u, r), ByteOf(v, r))
  {
    hide Xor;
  }

  /** RotWord, SubWord and Rcon by position. */
  lemma {:induction false} ByteOfTemp(w: Column, i: nat, r: nat)
    requires i < 44 && r < 4
    ensures i % 4 != 0 ==> ByteOf(Temp(w, i), r) == ByteOf(w, r)
    ensures i % 4 == 0 ==>
      ByteOf(Temp(w, i), r) == Xor(Sbox(ByteOf(w, (r + 1) % 4)), if r == 0 then RCON[i / 4] else 0)
  {
    hide Xor, Sbox;
    assert r == 0 || r == 1 || r == 2 || r == 3;
    XorSelf(Sbox(ByteOf(w, (r + 1) % 4)));
  }

  lemma {:induction false} ByteOfKey(key: Block, i: nat, r: nat)
    requires i < 4 && r < 4
    ensures ByteOf(Word(key, i), r) == key[4 * i + r]
  {
    assert r == 0 || r == 1 || r == 2 || r == 3;
  }

  lemma {:induction false} ExpandAt(key: Block, i: nat, r: nat)
    requires i < 44 && r < 4
    ensures ExpandKey(key)[4 * i + r] == ByteOf(Word(key, i), r)
  {
    hide Word, ByteOf;
    assert (4 * i + r) / 4 == i && (4 * i + r) % 4 == r;
  }

  /** Section 5.2 by position: the key itself, and then every byte the sum of the one four words before
      and of the one a word before; at a key boundary the latter is taken one row further down and
      substituted, and row 0 gains a power of {02}. */
  lemma {:induction false} ScheduleByPosition(key: Block, i: nat, r: nat)
    requires i < 44 && r < 4
    ensures i < 4 ==> ExpandKey(key)[4 * i + r] == key[4 * i + r]
    ensures i >= 4 && i % 4 != 0 ==>
      ExpandKey(key)[4 * i + r] == Xor(ExpandKey(key)[4 * (i - 4) + r], ExpandKey(key)[4 * (i - 1) + r])
    ensures i >= 4 && i % 4 == 0 ==>
      ExpandKey(key)[4 * i + r] ==
        Xor(ExpandKey(key)[4 * (i - 4) + r],
            Xor(Sbox(ExpandKey(key)[4 * (i - 1) + (r + 1) % 4]), if r == 0 then Power(i / 4 - 1) else 0))
  {
    hide ExpandKey, Word, Temp, XorWord, ByteOf, Xor, Sbox, Power;
    ExpandAt(key, i, r);
    if i < 4 {
      ByteOfKey(key, i, r);
    } else {
      ExpandAt(key, i - 4, r);
      ExpandAt(key, i - 1, r);
      ExpandAt(key, i - 1, (r + 1) % 4);
      WordAfter(key, i);
      ByteOfSum(Word(key, i - 4), Temp(Word(key, i - 1), i), r);
      ByteOfTemp(Word(key, i - 1), i, r);
      RconIsPower(i / 4);
    }
  }

  lemma {:induction false} WordAfter(key: Block, i: nat)
    requires 4 <= i < 44
    ensures Word(key, i) == XorWord(Word(key, i - 4), Temp(Word(key, i - 1), i))
  {
    hide Temp, XorWord;
  }

  // ---------------------------------------------------------------- the rounds

  /** Row r of column c behind SubBytes and ShiftRows. */
  function Fetched(s: Block, c: nat, r: nat): bv8
    requires r < 4
  {
    Sbox(s[4 * ((c + r) % 4) + r])
  }

  /** Row r of column c behind a round with key k. */
  function RoundByte(s: Block, k: Block, c: nat, r: nat): bv8
    requires c < 4 && r < 4
  {
    Xor(Sum(Product(2, Fetched(s, c, r)), Product(3, Fetched(s, c, (r + 1) % 4)),
            Fetched(s, c, (r + 2) % 4), Fetched(s, c, (r + 3) % 4)),
        k[4 * c + r])
  }

  lemma {:induction false} ProductSmall(x: bv8)
    ensures Product(2, x) == Multiply(x, 2) && Product(3, x) == Multiply(x, 3)
  {
  }

  lemma {:induction false} FetchedAt(s: Block, c: nat, r: nat)
    requires c < 4 && r < 4
    ensures ByteOf(Col(ShiftBlock(SubBlock(s)), c), r) == Fetched(s, c, r)
  {
    hide Sbox, ShiftBlock, Col, ByteOf;
    ShiftMoves(SubBlock(s), r, c);
    ByteOfCol(ShiftBlock(SubBlock(s)), c, r);
  }

  lemma {:induction false} ByteOfCol(t: Block, c: nat, r: nat)
    requires c < 4 && r < 4
    ensures ByteOf(Col(t, c), r) == t[4 * c + r]
  {
    assert r == 0 || r == 1 || r == 2 || r == 3;
  }

  lemma {:induction false} MixedAt(t: Block, c: nat, r: nat)
    requires c < 4 && r < 4
    ensures ByteOf(MixColumn(Col(t, c)), r) ==
      MixRow(ByteOf(Col(t, c), r), ByteOf(Col(t, c), (r + 1) % 4), ByteOf(Col(t, c), (r + 2) % 4), ByteOf(Col(t, c), (r + 3) % 4))
    ensures MixBlock(t)[4 * c + r] == ByteOf(MixColumn(Col(t, c)), r)
  {
    hide MixRow, Col;
    assert r == 0 || r == 1 || r == 2 || r == 3;
    assert c == 0 || c == 1 || c == 2 || c == 3;
  }

  /** Round n by position: sections 5.1.1 to 5.1.4 at once. */
  lemma {:induction false} RoundByPosition(w: Schedule, s: Block, n: nat, c: nat, r: nat)
    requires 1 <= n <= Nr(w) && c < 4 && r < 4
    ensures Rounds(w, s, 0)[4 * c + r] == Xor(s[4 * c + r], w[4 * c + r])
    ensures Rounds(w, s, n)[4 * c + r] == RoundByte(Rounds(w, s, n - 1), w[16 * n..16 * n + 16], c, r)
    ensures Encrypt(w, s)[4 * c + r] == Xor(Fetched(Rounds(w, s, 9), c, r), w[160 + 4 * c + r])
  {
    hide Fetched, RoundByte, Xor, SubBlock, ShiftBlock, Rounds;
    RoundAt(w, s, n, c, r);
    LastAt(w, Rounds(w, s, 9), c, r);
    FirstAt(w, s, c, r);
    hide *;
  }

  lemma {:induction false} FirstAt(w: Schedule, s: Block, c: nat, r: nat)
    requires c < 4 && r < 4
    ensures Rounds(w, s, 0)[4 * c + r] == Xor(s[4 * c + r], w[4 * c + r])
  {
    hide Xor, SubBlock, ShiftBlock, MixBlock;
  }

  lemma {:induction false} RoundAt(w: Schedule, s: Block, n: nat, c: nat, r: nat)
    requires 1 <= n <= Nr(w) && c < 4 && r < 4
    ensures Rounds(w, s, n)[4 * c + r] == RoundByte(Rounds(w, s, n - 1), w[16 * n..16 * n + 16], c, r)
  {
    hide SubBlock, ShiftBlock, MixBlock, Xor, Sum, Product, Fetched;
    MixedRound(Rounds(w, s, n - 1), c, r);
  }

  lemma {:induction false} MixedRound(p: Block, c: nat, r: nat)
    requires c < 4 && r < 4
    ensures MixBlock(ShiftBlock(SubBlock(p)))[4 * c + r] ==
      Sum(Product(2, Fetched(p, c, r)), Product(3, Fetched(p, c, (r + 1) % 4)),
          Fetched(p, c, (r + 2) % 4), Fetched(p, c, (r + 3) % 4))
  {
    hide Xor, Sum, Multiply, Product, Fetched, ByteOf, Col, MixBlock, MixColumn, ShiftBlock, SubBlock;
    MixedAt(ShiftBlock(SubBlock(p)), c, r);
    FetchedAt(p, c, r);
    FetchedAt(p, c, (r + 1) % 4);
    FetchedAt(p, c, (r + 2) % 4);
    FetchedAt(p, c, (r + 3) % 4);
    ProductSmall(Fetched(p, c, r));
    ProductSmall(Fetched(p, c, (r + 1) % 4));
  }

  lemma {:induction false} LastAt(w: Schedule, p: Block, c: nat, r: nat)
    requires c < 4 && r < 4
    ensures AddKey(ShiftBlock(SubBlock(p)), RoundKey(w, 10))[4 * c + r] == Xor(Fetched(p, c, r), w[160 + 4 * c + r])
  {
    hide Xor, Sbox, ShiftBlock;
    ShiftMoves(SubBlock(p), r, c);
  }

  // ---------------------------------------------------------------- the modes

  /** Block i of a message. */
  function BlockAt(p: seq<bv8>, i: nat): Block
    requires 16 * i + 16 <= |p|
  {
    p[16 * i..16 * i + 16]
  }

  lemma {:induction false} BlockLater(b: Block, p: seq<bv8>, i: nat)
    requires 1 <= i
    ensures BlockAt(b + p, 0) == b
    ensures 16 * i <= |p| ==> BlockAt(b + p, i) == BlockAt(p, i - 1)
  {
  }

  /** Every block by itself. */
  lemma {:induction false} EcbByBlock(w: Schedule, p: seq<bv8>, i: nat)
    requires |p| % 16 == 0 && 16 * i + 16 <= |p|
    ensures |EcbEncrypt(w, p)| == |p| && BlockAt(EcbEncrypt(w, p), i) == Encrypt(w, BlockAt(p, i))
  {
    hide *;
    EcbTurn(w, p);
    OneBlockLess(|p|);
    var rest := p[16..];
    var c, e := Encrypt(w, p[..16]), EcbEncrypt(w, rest);
    EcbLength(w, rest);
    BlockLater(p[..16], rest, if i == 0 then 1 else i);
    BlockLater(c, e, if i == 0 then 1 else i);
    if i > 0 {
      EcbByBlock(w, rest, i - 1);
    }
  }

  lemma OneBlockLess(n: nat)
    requires n % 16 == 0 && n >= 16
    ensures (n - 16) % 16 == 0
  {
  }

  lemma {:induction false} EcbTurn(w: Schedule, p: seq<bv8>)
    requires |p| >= 16
    ensures p == p[..16] + p[16..] && EcbEncrypt(w, p) == Encrypt(w, p[..16]) + EcbEncrypt(w, p[16..])
  {
    hide Encrypt;
  }

  lemma {:induction false} CbcTurn(w: Schedule, iv: Block, p: seq<bv8>)
    requires |p| >= 16
    ensures var c := Encrypt(w, AddKey(p[..16], iv));
            p == p[..16] + p[16..] && CbcEncrypt(w, iv, p) == c + CbcEncrypt(w, c, p[16..])
  {
    hide Encrypt, AddKey;
  }

  /** Every block added to the ciphertext before it, the first to the initialization vector. */
  lemma {:induction false} CbcByBlock(w: Schedule, iv: Block, p: seq<bv8>, i: nat)
    requires |p| % 16 == 0 && 16 * i + 16 <= |p|
    ensures |CbcEncrypt(w, iv, p)| == |p|
    ensures BlockAt(CbcEncrypt(w, iv, p), i) ==
      Encrypt(w, AddKey(BlockAt(p, i), if i == 0 then iv else BlockAt(CbcEncrypt(w, iv, p), i - 1)))
    decreases i
  {
    hide *;
    CbcTurn(w, iv, p);
    OneBlockLess(|p|);
    var c, rest := Encrypt(w, AddKey(p[..16], iv)), p[16..];
    assert |rest| == |p| - 16;
    CbcLength(w, c, rest);
    BlockLater(p[..16], rest, 1);
    BlockLater(c, CbcEncrypt(w, c, rest), 1);
    if i > 0 {
      CbcByBlock(w, c, rest, i - 1);
      BlockLater(p[..16], rest, i);
      BlockLater(c, CbcEncrypt(w, c, rest), i);
      if i > 1 {
        BlockLater(c, CbcEncrypt(w, c, rest), i - 1);
      }
    }
  }
}
