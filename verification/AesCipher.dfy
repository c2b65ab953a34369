/** The AES-128 block cipher as functions on blocks of 16 bytes: FIPS 197 with the constants of
    core/aes/aes.c. Byte k of a block is row k % 4 of column k / 4. */
module AesCipher {
  import opened AesField

  type Block = s: seq<bv8> | |s| == 16 witness [0, 0, 0, 0, 0, 0, 0, 0, 0, 0, 0, 0, 0, 0, 0, 0]

  /** The round keys, 44 words. */
  type Schedule = w: seq<bv8> | |w| == 176 witness seq(176, i => 0)

  /** The number of rounds, by the length of the schedule. */
  function Nr(w: Schedule): (n: nat)
    ensures n == 10
  {
    |w| / 16 - 1
  }

  // ---------------------------------------------------------------- the steps of a round

  function AddKey(s: Block, k: Block): Block {
    seq(16, i requires 0 <= i < 16 => Xor(s[i], k[i]))
  }

  function SubBlock(s: Block): Block {
    seq(16, i requires 0 <= i < 16 => Sbox(s[i]))
  }

  function InvSubBlock(s: Block): Block {
    seq(16, i requires 0 <= i < 16 => Rsbox(s[i]))
  }

  /** Row r moves r columns to the left: section 5.1.2. */
  function ShiftBlock(s: Block): Block {
    [s[0], s[5], s[10], s[15], s[4], s[9], s[14], s[3], s[8], s[13], s[2], s[7], s[12], s[1], s[6], s[11]]
  }

  /** Row r moves r columns to the right: section 5.3.1. */
  function InvShiftBlock(s: Block): Block {
    [s[0], s[13], s[10], s[7], s[4], s[1], s[14], s[11], s[8], s[5], s[2], s[15], s[12], s[9], s[6], s[3]]
  }

  function Col(s: seq<bv8>, i: nat): Column
    requires 4 * i + 4 <= |s|
  {
    Column(s[4 * i], s[4 * i + 1], s[4 * i + 2], s[4 * i + 3])
  }

  function Join(c0: Column, c1: Column, c2: Column, c3: Column): Block {
    [c0.a, c0.b, c0.c, c0.d, c1.a, c1.b, c1.c, c1.d, c2.a, c2.b, c2.c, c2.d, c3.a, c3.b, c3.c, c3.d]
  }

  function MixBlock(s: Block): Block {
    Join(MixColumn(Col(s, 0)), MixColumn(Col(s, 1)), MixColumn(Col(s, 2)), MixColumn(Col(s, 3)))
  }

  function InvMixBlock(s: Block): Block {
    Join(InvMixColumn(Col(s, 0)), InvMixColumn(Col(s, 1)), InvMixColumn(Col(s, 2)), InvMixColumn(Col(s, 3)))
  }

  lemma {:induction false} AddKeyTwice(s: Block, k: Block)
    ensures AddKey(AddKey(s, k), k) == s
  {
    forall i | 0 <= i < 16 ensures Xor(Xor(s[i], k[i]), k[i]) == s[i] {
      hide Xor;
      XorAssoc(s[i], k[i], k[i]);
      XorSelf(k[i]);
      XorSelf(s[i]);
    }
    hide Xor;
    assert AddKey(AddKey(s, k), k) == s;
  }

  lemma {:induction false} SubBack(s: Block)
    ensures InvSubBlock(SubBlock(s)) == s && SubBlock(InvSubBlock(s)) == s
  {
    hide Sbox, Rsbox;
    forall i | 0 <= i < 16 ensures Rsbox(Sbox(s[i])) == s[i] && Sbox(Rsbox(s[i])) == s[i] {
      SboxInverse(s[i]);
    }
    assert InvSubBlock(SubBlock(s)) == s;
    assert SubBlock(InvSubBlock(s)) == s;
  }

  lemma {:induction false} ShiftBack(s: Block)
    ensures InvShiftBlock(ShiftBlock(s)) == s && ShiftBlock(InvShiftBlock(s)) == s
  {
  }

  /** What the two do to row r, column c. */
  lemma {:induction false} ShiftMoves(s: Block, r: nat, c: nat)
    requires r < 4 && c < 4
    ensures ShiftBlock(s)[4 * c + r] == s[4 * ((c + r) % 4) + r]
    ensures InvShiftBlock(s)[4 * ((c + r) % 4) + r] == s[4 * c + r]
  {
    assert c == 0 || c == 1 || c == 2 || c == 3;
  }

  lemma {:induction false} JoinColumns(s: Block)
    ensures s == Join(Col(s, 0), Col(s, 1), Col(s, 2), Col(s, 3))
  {
  }

  lemma {:induction false} MixBack(s: Block)
    ensures InvMixBlock(MixBlock(s)) == s && MixBlock(InvMixBlock(s)) == s
  {
    hide MixColumn, InvMixColumn;
    MixColumnInverse(Col(s, 0));
    MixColumnInverse(Col(s, 1));
    MixColumnInverse(Col(s, 2));
    MixColumnInverse(Col(s, 3));
    JoinColumns(s);
  }

  // ---------------------------------------------------------------- key schedule

  /** The first entries of Rcon; the others are never read with a key of four words. */
  const RCON: seq<bv8> := [0x8d, 0x01, 0x02, 0x04, 0x08, 0x10, 0x20, 0x40, 0x80, 0x1b, 0x36]

  function XorWord(u: Column, v: Column): Column {
    Column(Xor(u.a, v.a), Xor(u.b, v.b), Xor(u.c, v.c), Xor(u.d, v.d))
  }

  /** What word i is combined with: the word before it, rotated and substituted at a key boundary. */
  function Temp(w: Column, i: nat): Column
    requires i < 44
  {
    if i % 4 == 0 then Column(Xor(Sbox(w.b), RCON[i / 4]), Sbox(w.c), Sbox(w.d), Sbox(w.a)) else w
  }

  /** Word i of the expanded key: section 5.2 of FIPS 197. */
  function Word(key: Block, i: nat): Column
    requires i < 44
  {
    if i < 4 then Col(key, i) else XorWord(Word(key, i - 4), Temp(Word(key, i - 1), i))
  }

  /** w holds the expanded key. */
  ghost predicate Expands(w: Schedule, key: Block) {
    forall i :: 0 <= i < 44 ==> Col(w, i) == Word(key, i)
  }

  function ByteOf(c: Column, r: nat): bv8 {
    if r == 0 then c.a else if r == 1 then c.b else if r == 2 then c.c else c.d
  }

  function ExpandKey(key: Block): Schedule {
    seq(176, k requires 0 <= k < 176 => ByteOf(Word(key, k / 4), k % 4))
  }

  lemma {:induction false} OnlyExpansion(w: Schedule, key: Block)
    requires Expands(w, key)
    ensures w == ExpandKey(key)
  {
    hide Word;
    forall k | 0 <= k < 176 ensures w[k] == ByteOf(Word(key, k / 4), k % 4) {
      assert Col(w, k / 4) == Word(key, k / 4);
    }
  }

  function RoundKey(w: Schedule, r: nat): Block
    requires r <= Nr(w)
  {
    w[16 * r..16 * r + 16]
  }

  /** The round constants are the powers of {02}. */
  lemma {:induction false} RconPowers(i: nat)
    requires 1 <= i < 10
    ensures RCON[1] == 1 && RCON[i + 1] == Xtime(RCON[i])
  {
    assert i == 1 || i == 2 || i == 3 || i == 4 || i == 5 || i == 6 || i == 7 || i == 8 || i == 9;
  }

  lemma {:induction false} XorWordCancels(u: Column, v: Column, t: Column)
    requires XorWord(u, t) == XorWord(v, t)
    ensures u == v
  {
    hide Xor;
    XorAssoc(u.a, t.a, t.a);
    XorAssoc(u.b, t.b, t.b);
    XorAssoc(u.c, t.c, t.c);
    XorAssoc(u.d, t.d, t.d);
    XorAssoc(v.a, t.a, t.a);
    XorAssoc(v.b, t.b, t.b);
    XorAssoc(v.c, t.c, t.c);
    XorAssoc(v.d, t.d, t.d);
    XorSelf(t.a);
    XorSelf(t.b);
    XorSelf(t.c);
    XorSelf(t.d);
    XorSelf(u.a);
    XorSelf(u.b);
    XorSelf(u.c);
    XorSelf(u.d);
    XorSelf(v.a);
    XorSelf(v.b);
    XorSelf(v.c);
    XorSelf(v.d);
  }

  lemma {:induction false} WordBefore(k1: Block, k2: Block, i: nat)
    requires 1 <= i <= 40
    requires Word(k1, i + 2) == Word(k2, i + 2) && Word(k1, i + 3) == Word(k2, i + 3)
    ensures Word(k1, i - 1) == Word(k2, i - 1)
  {
    var t := Temp(Word(k1, i + 2), i + 3);
    assert Word(k1, i + 3) == XorWord(Word(k1, i - 1), t);
    assert Word(k2, i + 3) == XorWord(Word(k2, i - 1), t);
    XorWordCancels(Word(k1, i - 1), Word(k2, i - 1), t);
  }

  lemma {:induction false} WordOfKey(key: Block, i: nat)
    requires i < 4
    ensures Word(key, i) == Col(key, i)
  {
  }

  lemma {:induction false} FirstWords(k1: Block, k2: Block)
    requires Word(k1, 0) == Word(k2, 0) && Word(k1, 1) == Word(k2, 1)
    requires Word(k1, 2) == Word(k2, 2) && Word(k1, 3) == Word(k2, 3)
    ensures k1 == k2
  {
    hide Word, Join, Col;
    WordOfKey(k1, 0);
    WordOfKey(k1, 1);
    WordOfKey(k1, 2);
    WordOfKey(k1, 3);
    WordOfKey(k2, 0);
    WordOfKey(k2, 1);
    WordOfKey(k2, 2);
    WordOfKey(k2, 3);
    JoinColumns(k1);
    JoinColumns(k2);
  }

  /** The schedule runs backwards too: any four consecutive words determine the key. */
  lemma {:induction false} WordsDetermineKey(k1: Block, k2: Block, i: nat)
    requires i <= 40
    requires Word(k1, i) == Word(k2, i) && Word(k1, i + 1) == Word(k2, i + 1)
    requires Word(k1, i + 2) == Word(k2, i + 2) && Word(k1, i + 3) == Word(k2, i + 3)
    ensures k1 == k2
    decreases i
  {
    hide Word;
    if i == 0 {
      FirstWords(k1, k2);
    } else {
      WordBefore(k1, k2, i);
      WordsDetermineKey(k1, k2, i - 1);
    }
  }

  /** Two keys that share one round key are the same key. */
  lemma {:induction false} RoundKeyDeterminesKey(w1: Schedule, k1: Block, w2: Schedule, k2: Block, r: nat)
    requires Expands(w1, k1) && Expands(w2, k2)
    requires r <= Nr(w1) && RoundKey(w1, r) == RoundKey(w2, r)
    ensures k1 == k2
  {
    hide Word;
    var u, v := RoundKey(w1, r), RoundKey(w2, r);
    assert Col(w1, 4 * r) == Col(u, 0) && Col(w2, 4 * r) == Col(v, 0);
    assert Col(w1, 4 * r + 1) == Col(u, 1) && Col(w2, 4 * r + 1) == Col(v, 1);
    assert Col(w1, 4 * r + 2) == Col(u, 2) && Col(w2, 4 * r + 2) == Col(v, 2);
    assert Col(w1, 4 * r + 3) == Col(u, 3) && Col(w2, 4 * r + 3) == Col(v, 3);
    WordsDetermineKey(k1, k2, 4 * r);
  }

  // ---------------------------------------------------------------- the cipher

  /** The state after r full rounds. */
  function Rounds(w: Schedule, s: Block, r: nat): Block
    requires r <= Nr(w)
  {
    if r == 0 then AddKey(s, RoundKey(w, 0))
    else AddKey(MixBlock(ShiftBlock(SubBlock(Rounds(w, s, r - 1)))), RoundKey(w, r))
  }

  function Encrypt(w: Schedule, s: Block): Block {
    AddKey(ShiftBlock(SubBlock(Rounds(w, s, Nr(w) - 1))), RoundKey(w, Nr(w)))
  }

  /** The state of the inverse cipher once the rounds 9 down to r are undone. */
  function InvRounds(w: Schedule, t: Block, r: nat): Block
    requires 1 <= r <= Nr(w)
    decreases Nr(w) - r
  {
    if r == Nr(w) then AddKey(t, RoundKey(w, Nr(w)))
    else InvMixBlock(AddKey(InvSubBlock(InvShiftBlock(InvRounds(w, t, r + 1))), RoundKey(w, r)))
  }

  function Decrypt(w: Schedule, t: Block): Block {
    AddKey(InvSubBlock(InvShiftBlock(InvRounds(w, t, 1))), RoundKey(w, 0))
  }

  lemma {:induction false} RoundsMeet(w: Schedule, s: Block, r: nat)
    requires 1 <= r <= Nr(w)
    ensures InvRounds(w, Encrypt(w, s), r) == ShiftBlock(SubBlock(Rounds(w, s, r - 1)))
    decreases Nr(w) - r
  {
    hide AddKey, SubBlock, InvSubBlock, ShiftBlock, InvShiftBlock, MixBlock, InvMixBlock, RoundKey;
    if r == Nr(w) {
      AddKeyTwice(ShiftBlock(SubBlock(Rounds(w, s, r - 1))), RoundKey(w, r));
    } else {
      RoundsMeet(w, s, r + 1);
      var m := ShiftBlock(SubBlock(Rounds(w, s, r - 1)));
      ShiftBack(SubBlock(Rounds(w, s, r)));
      SubBack(Rounds(w, s, r));
      AddKeyTwice(MixBlock(m), RoundKey(w, r));
      MixBack(m);
    }
  }

  /** InvCipher undoes Cipher, whatever the round keys. */
  lemma {:induction false} DecryptEncrypt(w: Schedule, s: Block)
    ensures Decrypt(w, Encrypt(w, s)) == s
  {
    hide AddKey, SubBlock, InvSubBlock, ShiftBlock, InvShiftBlock, MixBlock, InvMixBlock, RoundKey, InvRounds, Encrypt;
    RoundsMeet(w, s, 1);
    ShiftBack(SubBlock(Rounds(w, s, 0)));
    SubBack(Rounds(w, s, 0));
    AddKeyTwice(s, RoundKey(w, 0));
  }

  lemma {:induction false} RoundsMeetBack(w: Schedule, t: Block, r: nat)
    requires r < Nr(w)
    ensures Rounds(w, Decrypt(w, t), r) == InvSubBlock(InvShiftBlock(InvRounds(w, t, r + 1)))
  {
    hide AddKey, SubBlock, InvSubBlock, ShiftBlock, InvShiftBlock, MixBlock, InvMixBlock, RoundKey;
    var m := InvSubBlock(InvShiftBlock(InvRounds(w, t, r + 1)));
    if r == 0 {
      AddKeyTwice(m, RoundKey(w, 0));
    } else {
      RoundsMeetBack(w, t, r - 1);
      var u := InvRounds(w, t, r);
      SubBack(InvShiftBlock(u));
      ShiftBack(u);
      MixBack(AddKey(m, RoundKey(w, r)));
      AddKeyTwice(m, RoundKey(w, r));
    }
  }

  /** Cipher undoes InvCipher: for each key the cipher is a permutation of the blocks. */
  lemma {:induction false} EncryptDecrypt(w: Schedule, t: Block)
    ensures Encrypt(w, Decrypt(w, t)) == t
  {
    hide AddKey, SubBlock, InvSubBlock, ShiftBlock, InvShiftBlock, MixBlock, InvMixBlock, RoundKey, Rounds, Decrypt;
    RoundsMeetBack(w, t, Nr(w) - 1);
    var u := InvRounds(w, t, Nr(w));
    SubBack(InvShiftBlock(u));
    ShiftBack(u);
    AddKeyTwice(t, RoundKey(w, Nr(w)));
  }

  // ---------------------------------------------------------------- modes

  /** Whole blocks, each on its own; a rest shorter than a block is dropped. */
  function EcbEncrypt(w: Schedule, p: seq<bv8>): seq<bv8> {
    if |p| < 16 then [] else Encrypt(w, p[..16]) + EcbEncrypt(w, p[16..])
  }

  function EcbDecrypt(w: Schedule, c: seq<bv8>): seq<bv8> {
    if |c| < 16 then [] else Decrypt(w, c[..16]) + EcbDecrypt(w, c[16..])
  }

  lemma {:induction false} EcbLength(w: Schedule, p: seq<bv8>)
    requires |p| % 16 == 0
    ensures |EcbEncrypt(w, p)| == |p| && |EcbDecrypt(w, p)| == |p|
  {
    hide Encrypt, Decrypt;
    if |p| >= 16 {
      EcbLength(w, p[16..]);
    }
  }

  lemma {:induction false} EcbBack(w: Schedule, p: seq<bv8>)
    requires |p| % 16 == 0
    ensures EcbDecrypt(w, EcbEncrypt(w, p)) == p && EcbEncrypt(w, EcbDecrypt(w, p)) == p
  {
    hide Encrypt, Decrypt;
    if |p| >= 16 {
      EcbBack(w, p[16..]);
      DecryptEncrypt(w, p[..16]);
      EncryptDecrypt(w, p[..16]);
      var c, d := EcbEncrypt(w, p), EcbDecrypt(w, p);
      assert c[..16] == Encrypt(w, p[..16]) && c[16..] == EcbEncrypt(w, p[16..]);
      assert d[..16] == Decrypt(w, p[..16]) && d[16..] == EcbDecrypt(w, p[16..]);
      assert p == p[..16] + p[16..];
    }
  }

  lemma {:induction false} EcbSnoc(w: Schedule, p: seq<bv8>, b: Block)
    requires |p| % 16 == 0
    ensures EcbEncrypt(w, p + b) == EcbEncrypt(w, p) + Encrypt(w, b)
    ensures EcbDecrypt(w, p + b) == EcbDecrypt(w, p) + Decrypt(w, b)
  {
    hide Encrypt, Decrypt;
    if |p| == 0 {
      assert p + b == b;
      assert b[..16] == b && b[16..] == [];
    } else {
      EcbSnoc(w, p[16..], b);
      assert (p + b)[..16] == p[..16] && (p + b)[16..] == p[16..] + b;
    }
  }

  /** Cipher block chaining. */
  function CbcEncrypt(w: Schedule, iv: Block, p: seq<bv8>): seq<bv8>
    decreases |p|
  {
    if |p| < 16 then [] else
      var c := Encrypt(w, AddKey(p[..16], iv));
      c + CbcEncrypt(w, c, p[16..])
  }

  function CbcDecrypt(w: Schedule, iv: Block, c: seq<bv8>): seq<bv8>
    decreases |c|
  {
    if |c| < 16 then [] else AddKey(Decrypt(w, c[..16]), iv) + CbcDecrypt(w, c[..16], c[16..])
  }

  /** The block that is chained after the ciphertext c. */
  function LastBlock(iv: Block, c: seq<bv8>): Block {
    if |c| < 16 then iv else c[|c| - 16..]
  }

  lemma {:induction false} CbcBack(w: Schedule, iv: Block, p: seq<bv8>)
    requires |p| % 16 == 0
    ensures CbcDecrypt(w, iv, CbcEncrypt(w, iv, p)) == p
    decreases |p|
  {
    hide Encrypt, Decrypt, AddKey;
    if |p| >= 16 {
      var x := AddKey(p[..16], iv);
      var b := Encrypt(w, x);
      CbcBack(w, b, p[16..]);
      DecryptEncrypt(w, x);
      AddKeyTwice(p[..16], iv);
      var c := CbcEncrypt(w, iv, p);
      assert c[..16] == b && c[16..] == CbcEncrypt(w, b, p[16..]);
      assert p == p[..16] + p[16..];
    }
  }

  lemma {:induction false} CbcLength(w: Schedule, iv: Block, p: seq<bv8>)
    requires |p| % 16 == 0
    ensures |CbcEncrypt(w, iv, p)| == |p| && |CbcDecrypt(w, iv, p)| == |p|
    decreases |p|
  {
    hide Encrypt, Decrypt, AddKey;
    if |p| >= 16 {
      CbcLength(w, Encrypt(w, AddKey(p[..16], iv)), p[16..]);
      CbcLength(w, p[..16], p[16..]);
    }
  }

  lemma {:induction false} LastOfLonger(iv: Block, b: Block, c: seq<bv8>)
    requires |c| % 16 == 0
    ensures LastBlock(iv, b + c) == LastBlock(b, c)
  {
  }

  /** A message may be encrypted in pieces, each continuing from the last block of the one before. */
  lemma {:induction false} CbcConcat(w: Schedule, iv: Block, p: seq<bv8>, q: seq<bv8>)
    requires |p| % 16 == 0
    ensures CbcEncrypt(w, iv, p + q) == CbcEncrypt(w, iv, p) + CbcEncrypt(w, LastBlock(iv, CbcEncrypt(w, iv, p)), q)
    decreases |p|
  {
    hide Encrypt, AddKey;
    if |p| == 0 {
      assert p + q == q;
    } else {
      var b := Encrypt(w, AddKey(p[..16], iv));
      CbcConcat(w, b, p[16..], q);
      assert (p + q)[..16] == p[..16] && (p + q)[16..] == p[16..] + q;
      CbcLength(w, b, p[16..]);
      LastOfLonger(iv, b, CbcEncrypt(w, b, p[16..]));
    }
  }

  lemma {:induction false} CbcOneMore(w: Schedule, iv: Block, p: seq<bv8>, b: Block)
    requires |p| % 16 == 0
    ensures CbcEncrypt(w, iv, p + b) ==
      CbcEncrypt(w, iv, p) + Encrypt(w, AddKey(b, LastBlock(iv, CbcEncrypt(w, iv, p))))
    ensures CbcDecrypt(w, iv, p + b) == CbcDecrypt(w, iv, p) + AddKey(Decrypt(w, b), LastBlock(iv, p))
  {
    hide Encrypt, Decrypt, AddKey;
    CbcConcat(w, iv, p, b);
    CbcDecryptConcat(w, iv, p, b);
    assert b[..16] == b && b[16..] == [];
  }

  lemma {:induction false} CbcDecryptConcat(w: Schedule, iv: Block, c: seq<bv8>, d: seq<bv8>)
    requires |c| % 16 == 0
    ensures CbcDecrypt(w, iv, c + d) == CbcDecrypt(w, iv, c) + CbcDecrypt(w, LastBlock(iv, c), d)
    decreases |c|
  {
    hide Decrypt, AddKey;
    if |c| == 0 {
      assert c + d == d;
    } else {
      CbcDecryptConcat(w, c[..16], c[16..], d);
      assert (c + d)[..16] == c[..16] && (c + d)[16..] == c[16..] + d;
      assert c == c[..16] + c[16..];
      LastOfLonger(iv, c[..16], c[16..]);
    }
  }
}
