/** The tables of make_crc_table, and the two word-at-a-time loops that use them. */
module Crc32Tables {
  import opened Crc32

  /** The register after a byte and k more zero bytes. */
  function T(k: nat, b: byte): bv32 { Zeros(Wide(b), 8 * (k + 1)) }

  /** ZSWAP32(q) */
  function Swap(q: bv32): bv32 {
    ((q >> 24) & 0xff) + ((q >> 8) & 0xff00) + ((q & 0xff00) << 8) + ((q & 0xff) << 24)
  }

  /** c & 0xff, (c >> 8) & 0xff, (c >> 16) & 0xff, c >> 24 */
  function Byte0(c: bv32): byte { (c & 0xff) as byte }
  function Byte1(c: bv32): byte { ((c >> 8) & 0xff) as byte }
  function Byte2(c: bv32): byte { ((c >> 16) & 0xff) as byte }
  function Byte3(c: bv32): byte { (c >> 24) as byte }

  function Shr8(c: bv32): bv32 { c >> 8 }
  function Shl8(c: bv32): bv32 { c << 8 }

  // ---- bytes and shifts --------------------------------------------------------------------

  /** The low byte is zero. */
  predicate LowZero(h: bv32) { h & 0xff == 0 }

  function Shr(h: bv32, k: nat): bv32
    requires k <= 8
  {
    match k
    case 0 => h
    case 1 => h >> 1
    case 2 => h >> 2
    case 3 => h >> 3
    case 4 => h >> 4
    case 5 => h >> 5
    case 6 => h >> 6
    case 7 => h >> 7
    case _ => h >> 8
  }

  lemma ShrNext(h: bv32, k: nat)
    requires k < 8
    ensures Half(Shr(h, k)) == Shr(h, k + 1) && (LowZero(h) ==> !Odd(Shr(h, k)))
  {
    match k {
      case 0 =>
      case 1 => assert Half(h >> 1) == h >> 2;
      case 2 => assert Half(h >> 2) == h >> 3;
      case 3 => assert Half(h >> 3) == h >> 4;
      case 4 => assert Half(h >> 4) == h >> 5;
      case 5 => assert Half(h >> 5) == h >> 6;
      case 6 => assert Half(h >> 6) == h >> 7;
      case _ => assert Half(h >> 7) == h >> 8;
    }
  }

  lemma ShrEnds(h: bv32)
    ensures Shr(h, 0) == h && Shr(h, 8) == Shr8(h)
  {
  }

  lemma {:induction false} ZerosShr(h: bv32, k: nat)
    requires LowZero(h) && k <= 8
    ensures Zeros(h, k) == Shr(h, k)
  {
    hide Odd, Half, LowZero, Xor, Shr, Zeros;
    if k == 0 {
      ZerosNone(h);
      ShrEnds(h);
    } else {
      ZerosShr(h, k - 1);
      ZerosAdd(h, k - 1, 1);
      ShrNext(h, k - 1);
      ZerosOne(Shr(h, k - 1));
    }
  }

  /** Zero bits are shifted out without effect. */
  lemma Zeros8(h: bv32)
    requires LowZero(h)
    ensures Zeros(h, 8) == Shr8(h)
  {
    hide Zeros;
    ZerosShr(h, 8);
    ShrEnds(h);
  }

  lemma SplitByte(c: bv32)
    ensures c == Xor(Wide(Byte0(c)), Shl8(Shr8(c)))
    ensures LowZero(Shl8(c))
    ensures Shr8(Shl8(Shr8(c))) == Shr8(c)
  {
  }

  /** One table access does eight steps. */
  lemma ByteStep(c: bv32)
    ensures Zeros(c, 8) == Xor(T(0, Byte0(c)), Shr8(c))
  {
    SplitByte(c);
    SplitByte(Shr8(c));
    Zeros8(Shl8(Shr8(c)));
    hide Xor, Byte0, Shl8, Zeros, LowZero;
    ZerosLinear(Wide(Byte0(c)), Shl8(Shr8(c)), 8);
  }

  /** The word with b as its byte number j. */
  function Up(b: byte, j: nat): bv32
    requires j < 4
  {
    match j case 0 => Wide(b) case 1 => Wide(b) << 8 case 2 => Wide(b) << 16 case _ => Wide(b) << 24
  }

  lemma UpShift(b: byte, j: nat)
    requires 1 <= j < 4
    ensures LowZero(Up(b, j)) && Shr8(Up(b, j)) == Up(b, j - 1)
  {
  }

  /** A byte further up takes as many more steps to come down. */
  lemma {:induction false} ZerosUp(b: byte, j: nat, n: nat)
    requires j < 4
    ensures Zeros(Up(b, j), 8 * j + n) == Zeros(Wide(b), n)
    decreases j
  {
    hide Zeros, Up, Shr8, LowZero, Wide;
    if j == 0 {
      UpNone(b);
    } else {
      UpShift(b, j);
      Zeros8(Up(b, j));
      ZerosAdd(Up(b, j), 8, 8 * (j - 1) + n);
      ZerosUp(b, j - 1, n);
    }
  }

  lemma UpNone(b: byte)
    ensures Up(b, 0) == Wide(b)
  {
  }

  /** c taken apart into its bytes. */
  lemma FourBytes(c: bv32)
    ensures c == Xor(Xor(Xor(Up(Byte3(c), 3), Up(Byte2(c), 2)), Up(Byte1(c), 1)), Up(Byte0(c), 0))
  {
  }

  /** Four table accesses do thirty-two steps. */
  lemma WordStep(c: bv32)
    ensures Zeros(c, 32) == Xor(Xor(Xor(T(3, Byte0(c)), T(2, Byte1(c))), T(1, Byte2(c))), T(0, Byte3(c)))
  {
    FourBytes(c);
    var a, b, d, e := Byte0(c), Byte1(c), Byte2(c), Byte3(c);
    hide Zeros, Up, Xor, Byte0, Byte1, Byte2, Byte3, Wide;
    var x, y := Up(e, 3), Up(d, 2);
    var p := Xor(x, y);
    ZerosLinear(Xor(p, Up(b, 1)), Up(a, 0), 32);
    ZerosLinear(p, Up(b, 1), 32);
    ZerosLinear(x, y, 32);
    ZerosUp(a, 0, 32);
    ZerosUp(b, 1, 24);
    ZerosUp(d, 2, 16);
    ZerosUp(e, 3, 8);
    Reverse(T(0, e), T(1, d), T(2, b), T(3, a));
  }

  lemma Reverse(x: bv32, y: bv32, z: bv32, w: bv32)
    ensures Xor(Xor(Xor(x, y), z), w) == Xor(Xor(Xor(w, z), y), x)
  {
    hide Xor;
    XorComm(Xor(Xor(x, y), z), w);
    XorComm(Xor(x, y), z);
    XorAssoc(w, z, Xor(x, y));
    XorComm(x, y);
    XorAssoc(Xor(w, z), y, x);
  }

  /** Four bytes at buf loaded as a word by a little-endian machine. */
  function LoadLittle(a: byte, b: byte, d: byte, e: byte): bv32 {
    Wide(a) | (Wide(b) << 8) | (Wide(d) << 16) | (Wide(e) << 24)
  }

  /** The same four bytes loaded by a big-endian machine. */
  function LoadBig(a: byte, b: byte, d: byte, e: byte): bv32 {
    (Wide(a) << 24) | (Wide(b) << 16) | (Wide(d) << 8) | Wide(e)
  }

  lemma LoadUp(a: byte, b: byte, d: byte, e: byte)
    ensures LoadLittle(a, b, d, e) == Xor(Xor(Xor(Up(a, 0), Up(b, 1)), Up(d, 2)), Up(e, 3))
  {
  }

  /** A byte may be added before the steps if it is put so much further up. */
  lemma AddEarly(c: bv32, b: byte, j: nat)
    requires j < 4
    ensures Xor(Zeros(c, 8 * j), Wide(b)) == Zeros(Xor(c, Up(b, j)), 8 * j)
  {
    hide Zeros, Up, Wide, Xor;
    ZerosLinear(c, Up(b, j), 8 * j);
    ZerosUp(b, j, 0);
    ZerosNone(Wide(b));
  }

  /** Adding a whole word and stepping is adding its bytes one after the other. */
  lemma WordRegister(c: bv32, a: byte, b: byte, d: byte, e: byte)
    ensures Zeros(Xor(c, LoadLittle(a, b, d, e)), 32)
            == Zeros(Xor(Zeros(Xor(Zeros(Xor(Zeros(Xor(c, Wide(a)), 8), Wide(b)), 8), Wide(d)), 8), Wide(e)), 8)
  {
    hide Zeros, Up, Wide, Xor, LoadLittle;
    var c0 := Xor(c, Up(a, 0));
    var c1 := Xor(c0, Up(b, 1));
    var c2 := Xor(c1, Up(d, 2));
    var c3 := Xor(c2, Up(e, 3));
    UpNone(a);
    AddEarly(c0, b, 1);
    ZerosAdd(c1, 8, 8);
    AddEarly(c1, d, 2);
    ZerosAdd(c2, 16, 8);
    AddEarly(c2, e, 3);
    ZerosAdd(c3, 24, 8);
    LoadUp(a, b, d, e);
    Gather(c, Up(a, 0), Up(b, 1), Up(d, 2), Up(e, 3));
  }

  lemma Gather(c: bv32, x: bv32, y: bv32, z: bv32, w: bv32)
    ensures Xor(c, Xor(Xor(Xor(x, y), z), w)) == Xor(Xor(Xor(Xor(c, x), y), z), w)
  {
    hide Xor;
    XorAssoc(c, Xor(Xor(x, y), z), w);
    XorAssoc(c, Xor(x, y), z);
    XorAssoc(c, x, y);
  }

  // ---- byte order --------------------------------------------------------------------------

  lemma SwapXor(x: bv32, y: bv32)
    ensures Swap(Xor(x, y)) == Xor(Swap(x), Swap(y))
  {
    SwapOr(x);
    SwapOr(y);
    SwapOr(x ^ y);
  }

  lemma SwapOr(q: bv32)
    ensures Swap(q) == (q >> 24) | ((q >> 8) & 0xff00) | ((q & 0xff00) << 8) | (q << 24)
  {
    assert ((q >> 24) & 0xff) + ((q >> 8) & 0xff00) == (q >> 24) | ((q >> 8) & 0xff00);
  }

  lemma SwapTwice(x: bv32)
    ensures Swap(Swap(x)) == x
  {
    SwapOr(x);
    SwapOr(Swap(x));
  }

  lemma SwapNot(x: bv32)
    ensures Swap(Not(x)) == Not(Swap(x))
  {
    SwapOr(x);
    SwapOr(Not(x));
  }

  lemma SwapBytes(x: bv32)
    ensures Byte3(Swap(x)) == Byte0(x) && Byte2(Swap(x)) == Byte1(x)
    ensures Byte1(Swap(x)) == Byte2(x) && Byte0(Swap(x)) == Byte3(x)
    ensures Shl8(Swap(x)) == Swap(Shr8(x))
  {
    SwapOr(x);
    SwapOr(Shr8(x));
  }

  lemma SwapLoad(a: byte, b: byte, d: byte, e: byte)
    ensures LoadBig(a, b, d, e) == Swap(LoadLittle(a, b, d, e))
  {
    SwapOr(LoadLittle(a, b, d, e));
  }

  // ---- the tables ----------------------------------------------------------------------------

  /** A byte as an index, and back. */
  function Index(b: byte): (n: nat)
    ensures n < 256
  {
    b as int
  }

  function ByteOf(n: nat): byte
    requires n < 256
  {
    n as byte
  }

  lemma ByteIndex(b: byte)
    ensures ByteOf(Index(b)) == b
  {
    assert (b as int) as byte == b;
  }

  ghost predicate Rows(table: array2<bv32>) {
    table.Length0 == 8 && table.Length1 == 256
  }

  /** The first k rows and their reversals in column n are those for the byte b. */
  ghost predicate UpTo(table: array2<bv32>, n: nat, b: byte, k: nat)
    requires Rows(table) && k <= 4 && n < 256
    reads table
  {
    forall j: nat :: j < k ==> table[j, n] == T(j, b) && table[j + 4, n] == Swap(T(j, b))
  }

  ghost predicate EntryOk(table: array2<bv32>, b: byte)
    requires Rows(table)
    reads table
  {
    UpTo(table, Index(b), b, 4)
  }

  ghost predicate TableOk(table: array2<bv32>)
    reads table
  {
    Rows(table) && forall b: byte :: EntryOk(table, b)
  }

  /** The first table is made as far as n. */
  ghost predicate FirstOk(table: array2<bv32>, n: nat)
    requires Rows(table) && n <= 256
    reads table
  {
    forall i: nat :: i < n ==> table[0, i] == T(0, ByteOf(i))
  }

  /** The exponents of the CRC-32 polynomial below 32. */
  const EXPONENTS: seq<nat> := [0, 1, 2, 4, 5, 7, 8, 10, 11, 12, 16, 22, 23, 26]

  /** Exponent e in a register whose high bit is the coefficient of 1. */
  function Bit(e: nat): bv32
    requires e < 32
  {
    1 << (31 - e)
  }

  /** The pattern of the first n exponents. */
  function Pattern(n: nat): bv32
    requires n <= |EXPONENTS|
  {
    if n == 0 then 0 else Pattern(n - 1) | Bit(EXPONENTS[n - 1])
  }

  lemma {:induction false} PatternOfHalf()
    ensures Pattern(7) == 0xed80_0000
  {
    assert Pattern(4) == 0xe800_0000;
  }

  lemma {:induction false} PatternIsPoly()
    ensures Pattern(|EXPONENTS|) == POLY
  {
    PatternOfHalf();
    assert Pattern(9) == 0xedb0_0000;
    assert Pattern(12) == 0xedb8_8200;
  }

  /** The crc of every 8-bit value, then each followed by one, two and three zero bytes,
      and the byte reversal of those. */
  method MakeCrcTable(table: array2<bv32>)
    requires Rows(table)
    modifies table
    ensures TableOk(table)
  {
    hide T, Swap, Zeros, Xor, Index, ByteOf;
    var poly := MakePoly();
    for n := 0 to 256
      invariant FirstOk(table, n)
    {
      table[0, n] := EightSteps(poly, ByteOf(n));
    }
    for n := 0 to 256
      invariant FirstOk(table, 256)
      invariant forall i: nat :: i < n ==> UpTo(table, i, ByteOf(i), 4)
    {
      MoreZeros(table, n);
    }
    forall b: byte ensures EntryOk(table, b) { ByteIndex(b); }
  }

  /** The loop over the exponents. */
  method MakePoly() returns (poly: bv32)
    ensures poly == POLY
  {
    poly := 0;
    hide Bit;
    for n := 0 to |EXPONENTS|
      invariant poly == Pattern(n)
    {
      poly := poly | Bit(EXPONENTS[n]);
    }
    PatternIsPoly();
  }

  method EightSteps(poly: bv32, b: byte) returns (c: bv32)
    requires poly == POLY
    ensures c == T(0, b)
  {
    c := Wide(b);
    hide Xor, Wide;
    for k := 0 to 8
      invariant Zeros(c, 8 - k) == T(0, b)
    {
      c := if Odd(c) then Xor(poly, Half(c)) else Half(c);
    }
  }

  lemma NextZero(k: nat, b: byte)
    requires k >= 1
    ensures T(k, b) == Xor(T(0, Byte0(T(k - 1, b))), Shr8(T(k - 1, b)))
  {
    hide Zeros, Xor, Byte0, Shr8, Wide;
    ZerosAdd(Wide(b), 8 * k, 8);
    ByteStep(T(k - 1, b));
  }

  /** crc_table[k][n] = c; crc_table[k + 4][n] = ZSWAP32(c); */
  method SetEntry(table: array2<bv32>, n: nat, ghost b: byte, k: nat, c: bv32)
    requires Rows(table) && n < 256 && k < 4 && UpTo(table, n, b, k) && c == T(k, b)
    modifies table
    ensures UpTo(table, n, b, k + 1)
    ensures forall j: int, a: int :: 0 <= j < 8 && 0 <= a < 256 && a != n ==> table[j, a] == old(table[j, a])
    ensures table[0, n] == if k == 0 then c else old(table[0, n])
  {
    hide T, Swap;
    table[k, n] := c;
    table[k + 4, n] := Swap(c);
  }

  /** The second loop of make_crc_table for one n. */
  method MoreZeros(table: array2<bv32>, n: nat)
    requires Rows(table) && n < 256 && FirstOk(table, 256)
    modifies table
    ensures FirstOk(table, 256) && UpTo(table, n, ByteOf(n), 4)
    ensures forall i: nat :: i < 256 && i != n && old(UpTo(table, i, ByteOf(i), 4)) ==> UpTo(table, i, ByteOf(i), 4)
  {
    hide T, Zeros, Swap, Xor, Index, Byte0, Shr8, Wide, ByteOf;
    ghost var b := ByteOf(n);
    var c := table[0, n];
    SetEntry(table, n, b, 0, c);
    for k := 1 to 4
      invariant FirstOk(table, 256) && c == T(k - 1, b) && UpTo(table, n, b, k)
      invariant forall j: int, a: int :: 0 <= j < 8 && 0 <= a < 256 && a != n ==> table[j, a] == old(table[j, a])
    {
      NextZero(k, b);
      ByteIndex(Byte0(c));
      c := Xor(table[0, Index(Byte0(c))], Shr8(c));
      SetEntry(table, n, b, k, c);
    }
  }

  // ---- the check behind the data ----------------------------------------------------------

  lemma {:induction false} FourSteps(c: bv32)
    ensures Zeros(c, 4) == BitStep(BitStep(BitStep(BitStep(c))))
  {
    assert Zeros(c, 4) == Zeros(BitStep(c), 3);
    assert Zeros(BitStep(c), 3) == Zeros(BitStep(BitStep(c)), 2);
    assert Zeros(BitStep(BitStep(c)), 2) == Zeros(BitStep(BitStep(BitStep(c))), 1);
    ZerosOne(BitStep(BitStep(BitStep(c))));
  }

  lemma {:induction false} HalfOfOnes()
    ensures Zeros(0xffff_ffff, 16) == 0xbe26_ed00
  {
    FourSteps(0xffff_ffff);
    FourSteps(0xb242_0de3);
    FourSteps(0x2dfd_1072);
    FourSteps(0x39b1_f1cf);
    assert BitStep(BitStep(BitStep(BitStep(0xffff_ffff)))) == 0xb242_0de3;
    assert BitStep(BitStep(BitStep(BitStep(0xb242_0de3)))) == 0x2dfd_1072;
    assert BitStep(BitStep(BitStep(BitStep(0x2dfd_1072)))) == 0x39b1_f1cf;
    assert BitStep(BitStep(BitStep(BitStep(0x39b1_f1cf)))) == 0xbe26_ed00;
    hide Zeros;
    ZerosAdd(0xffff_ffff, 4, 4);
    ZerosAdd(0xffff_ffff, 8, 4);
    ZerosAdd(0xffff_ffff, 12, 4);
  }

  lemma {:induction false} WholeOfOnes()
    ensures Zeros(0xffff_ffff, 32) == 0xdebb_20e3
  {
    FourSteps(0xbe26_ed00);
    FourSteps(0xbe2_6ed0);
    FourSteps(0xbe_26ed);
    FourSteps(0x86d8_30ba);
    assert BitStep(BitStep(BitStep(BitStep(0xbe26_ed00)))) == 0xbe2_6ed0;
    assert BitStep(BitStep(BitStep(BitStep(0xbe2_6ed0)))) == 0xbe_26ed;
    assert BitStep(BitStep(BitStep(BitStep(0xbe_26ed)))) == 0x86d8_30ba;
    assert BitStep(BitStep(BitStep(BitStep(0x86d8_30ba)))) == 0xdebb_20e3;
    hide Zeros;
    HalfOfOnes();
    ZerosAdd(0xffff_ffff, 16, 4);
    ZerosAdd(0xffff_ffff, 20, 4);
    ZerosAdd(0xffff_ffff, 24, 4);
    ZerosAdd(0xffff_ffff, 28, 4);
  }

  lemma ComplementMeets(r: bv32)
    ensures Xor(r, Not(r)) == 0xffff_ffff && Not(Not(r)) == r && Not(0xdebb_20e3) == 0x2144_df1c
  {
  }

  lemma {:induction false} RegisterFour(c: bv32, data: seq<byte>, a: byte, b: byte, d: byte, e: byte)
    ensures Register(c, data + [a, b, d, e]) == Zeros(Xor(Register(c, data), LoadLittle(a, b, d, e)), 32)
  {
    hide Zeros, Xor, Wide, LoadLittle, Register;
    RegisterSnoc(c, data, a);
    RegisterSnoc(c, data + [a], b);
    RegisterSnoc(c, data + [a] + [b], d);
    RegisterSnoc(c, data + [a] + [b] + [d], e);
    assert data + [a] + [b] + [d] + [e] == data + [a, b, d, e];
    WordRegister(Register(c, data), a, b, d, e);
  }

  /** Data with their check behind them, low byte first, always have the same check. */
  lemma {:induction false} CheckOfChecked(data: seq<byte>, a: byte, b: byte, d: byte, e: byte)
    requires LoadLittle(a, b, d, e) == Crc(data)
    ensures Crc(data + [a, b, d, e]) == 0x2144_df1c
  {
    hide Zeros, Xor, Not, LoadLittle, Register;
    var c := Not(0);
    RegisterFour(c, data, a, b, d, e);
    ComplementMeets(Register(c, data));
    WholeOfOnes();
  }
}
