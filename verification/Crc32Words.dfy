/** crc32_little and crc32_big: the register four bytes at a time, core/zlib/crc32.c:259-337. */
module Crc32Words {
  import opened Crc32
  import opened Crc32Tables

  /** One byte through the first table. */
  lemma ByteRegister(c: bv32, b: byte)
    ensures Zeros(Xor(c, Wide(b)), 8) == Xor(T(0, Byte0(Xor(c, Wide(b)))), Shr8(c))
  {
    ByteStep(Xor(c, Wide(b)));
    UpperBits(c, b);
  }

  lemma UpperBits(c: bv32, b: byte)
    ensures Shr8(Xor(c, Wide(b))) == Shr8(c)
  {
  }

  lemma LowByteBig(c: bv32, b: byte)
    ensures Byte3(Swap(c)) ^ b == Byte0(Xor(c, Wide(b)))
  {
    SwapBytes(c);
  }

  /** Four bytes through the register, as one word. */
  lemma WordOfBytes(c: bv32, data: seq<byte>, i: nat)
    requires i + 4 <= |data|
    ensures Register(c, data[..i + 4])
            == Zeros(Xor(Register(c, data[..i]), LoadLittle(data[i], data[i + 1], data[i + 2], data[i + 3])), 32)
  {
    hide Zeros, Xor, Wide, LoadLittle;
    var p0, p1, p2, p3 := data[..i], data[..i + 1], data[..i + 2], data[..i + 3];
    assert p1 == p0 + [data[i]];
    assert p2 == p1 + [data[i + 1]];
    assert p3 == p2 + [data[i + 2]];
    assert data[..i + 4] == p3 + [data[i + 3]];
    RegisterSnoc(c, p0, data[i]);
    RegisterSnoc(c, p1, data[i + 1]);
    RegisterSnoc(c, p2, data[i + 2]);
    RegisterSnoc(c, p3, data[i + 3]);
    hide Register;
    WordRegister(Register(c, p0), data[i], data[i + 1], data[i + 2], data[i + 3]);
  }

  lemma ByteOfBytes(c: bv32, data: seq<byte>, i: nat)
    requires i < |data|
    ensures Register(c, data[..i + 1]) == Zeros(Xor(Register(c, data[..i]), Wide(data[i])), 8)
  {
    hide Zeros, Xor, Wide;
    assert data[..i + 1] == data[..i] + [data[i]];
    RegisterSnoc(c, data[..i], data[i]);
  }

  /** c = crc_table[0][(c ^ *buf++) & 0xff] ^ (c >> 8) */
  method LittleByte(table: array2<bv32>, ghost r: bv32, buf: seq<byte>, i: nat, c: bv32) returns (c': bv32)
    requires TableOk(table) && i < |buf| && c == Register(r, buf[..i])
    ensures c' == Register(r, buf[..i + 1])
  {
    hide Zeros, Xor, Wide, T, Byte0, Shr8, Index, Register;
    ByteOfBytes(r, buf, i);
    ByteRegister(c, buf[i]);
    assert EntryOk(table, Byte0(Xor(c, Wide(buf[i]))));
    c' := Xor(table[0, Index(Byte0(Xor(c, Wide(buf[i]))))], Shr8(c));
  }

  /** DOLIT4 */
  method LittleWord(table: array2<bv32>, ghost r: bv32, buf: seq<byte>, i: nat, c: bv32) returns (c': bv32)
    requires TableOk(table) && i + 4 <= |buf| && c == Register(r, buf[..i])
    ensures c' == Register(r, buf[..i + 4])
  {
    hide Zeros, Xor, Wide, T, Byte0, Byte1, Byte2, Byte3, Index, Register, LoadLittle;
    WordOfBytes(r, buf, i);
    var x := Xor(c, LoadLittle(buf[i], buf[i + 1], buf[i + 2], buf[i + 3]));
    WordStep(x);
    assert EntryOk(table, Byte0(x)) && EntryOk(table, Byte1(x)) && EntryOk(table, Byte2(x)) && EntryOk(table, Byte3(x));
    c' := Xor(Xor(Xor(table[3, Index(Byte0(x))], table[2, Index(Byte1(x))]), table[1, Index(Byte2(x))]), table[0, Index(Byte3(x))]);
  }

  /** crc32_little: bytes up to a word boundary, words eight at a time and one at a time,
      and the remaining bytes. */
  method Crc32Little(table: array2<bv32>, crc: bv32, buf: seq<byte>, address: nat) returns (r: bv32)
    requires TableOk(table)
    ensures r == Update(crc, buf)
  {
    hide Zeros, Xor, Register, Not;
    var c, i := Not(crc), 0;
    ghost var r0 := Not(crc);
    RegisterNone(r0);
    while i < |buf| && (address + i) % 4 != 0
      invariant 0 <= i <= |buf| && c == Register(r0, buf[..i])
    {
      c := LittleByte(table, r0, buf, i, c);
      i := i + 1;
    }
    while |buf| - i >= 32
      invariant 0 <= i <= |buf| && c == Register(r0, buf[..i])
    {
      for k := 0 to 8
        invariant c == Register(r0, buf[..i + 4 * k])
      {
        c := LittleWord(table, r0, buf, i + 4 * k, c);
      }
      i := i + 32;
    }
    while |buf| - i >= 4
      invariant 0 <= i <= |buf| && c == Register(r0, buf[..i])
    {
      c := LittleWord(table, r0, buf, i, c);
      i := i + 4;
    }
    while i < |buf|
      invariant 0 <= i <= |buf| && c == Register(r0, buf[..i])
    {
      c := LittleByte(table, r0, buf, i, c);
      i := i + 1;
    }
    assert buf[..i] == buf;
    return Not(c);
  }

  lemma RegisterNone(c: bv32)
    ensures Register(c, []) == c
  {
  }

  /** c = crc_table[4][(c >> 24) ^ *buf++] ^ (c << 8), with the register's bytes reversed */
  method BigByte(table: array2<bv32>, ghost r: bv32, buf: seq<byte>, i: nat, c: bv32) returns (c': bv32)
    requires TableOk(table) && i < |buf| && c == Swap(Register(r, buf[..i]))
    ensures c' == Swap(Register(r, buf[..i + 1]))
  {
    hide Zeros, Xor, Wide, T, Byte0, Byte3, Shr8, Shl8, Index, Register, Swap;
    ghost var g := Register(r, buf[..i]);
    ByteOfBytes(r, buf, i);
    ByteRegister(g, buf[i]);
    LowByteBig(g, buf[i]);
    SwapBytes(g);
    SwapXor(T(0, Byte0(Xor(g, Wide(buf[i])))), Shr8(g));
    assert EntryOk(table, Byte0(Xor(g, Wide(buf[i]))));
    c' := Xor(table[0 + 4, Index(Byte3(c) ^ buf[i])], Shl8(c));
  }

  /** DOBIG4 */
  method BigWord(table: array2<bv32>, ghost r: bv32, buf: seq<byte>, i: nat, c: bv32) returns (c': bv32)
    requires TableOk(table) && i + 4 <= |buf| && c == Swap(Register(r, buf[..i]))
    ensures c' == Swap(Register(r, buf[..i + 4]))
  {
    hide Zeros, Xor, Wide, T, Byte0, Byte1, Byte2, Byte3, Index, Register, LoadLittle, LoadBig, Swap;
    WordOfBytes(r, buf, i);
    SwapLoad(buf[i], buf[i + 1], buf[i + 2], buf[i + 3]);
    ghost var y := Xor(Register(r, buf[..i]), LoadLittle(buf[i], buf[i + 1], buf[i + 2], buf[i + 3]));
    SwapXor(Register(r, buf[..i]), LoadLittle(buf[i], buf[i + 1], buf[i + 2], buf[i + 3]));
    var x := Xor(c, LoadBig(buf[i], buf[i + 1], buf[i + 2], buf[i + 3]));
    SwapBytes(y);
    WordStep(y);
    SwapSum(T(3, Byte0(y)), T(2, Byte1(y)), T(1, Byte2(y)), T(0, Byte3(y)));
    assert EntryOk(table, Byte0(y)) && EntryOk(table, Byte1(y)) && EntryOk(table, Byte2(y)) && EntryOk(table, Byte3(y));
    c' := Xor(Xor(Xor(table[0 + 4, Index(Byte0(x))], table[1 + 4, Index(Byte1(x))]), table[2 + 4, Index(Byte2(x))]), table[3 + 4, Index(Byte3(x))]);
  }

  lemma SwapSum(a: bv32, b: bv32, d: bv32, e: bv32)
    ensures Swap(Xor(Xor(Xor(a, b), d), e)) == Xor(Xor(Xor(Swap(e), Swap(d)), Swap(b)), Swap(a))
  {
    hide Xor, Swap;
    SwapXor(Xor(Xor(a, b), d), e);
    SwapXor(Xor(a, b), d);
    SwapXor(a, b);
    Reverse(Swap(a), Swap(b), Swap(d), Swap(e));
  }

  /** crc32_big: as crc32_little with every word's bytes in the other order. */
  method Crc32Big(table: array2<bv32>, crc: bv32, buf: seq<byte>, address: nat) returns (r: bv32)
    requires TableOk(table)
    ensures r == Update(crc, buf)
  {
    hide Zeros, Xor, Register, Not, Swap;
    SwapNot(crc);
    var c, i := Not(Swap(crc)), 0;
    ghost var r0 := Not(crc);
    RegisterNone(r0);
    while i < |buf| && (address + i) % 4 != 0
      invariant 0 <= i <= |buf| && c == Swap(Register(r0, buf[..i]))
    {
      c := BigByte(table, r0, buf, i, c);
      i := i + 1;
    }
    while |buf| - i >= 32
      invariant 0 <= i <= |buf| && c == Swap(Register(r0, buf[..i]))
    {
      for k := 0 to 8
        invariant c == Swap(Register(r0, buf[..i + 4 * k]))
      {
        c := BigWord(table, r0, buf, i + 4 * k, c);
      }
      i := i + 32;
    }
    while |buf| - i >= 4
      invariant 0 <= i <= |buf| && c == Swap(Register(r0, buf[..i]))
    {
      c := BigWord(table, r0, buf, i, c);
      i := i + 4;
    }
    while i < |buf|
      invariant 0 <= i <= |buf| && c == Swap(Register(r0, buf[..i]))
    {
      c := BigByte(table, r0, buf, i, c);
      i := i + 1;
    }
    assert buf[..i] == buf;
    SwapNot(c);
    SwapTwice(Register(r0, buf));
    return Swap(Not(c));
  }
}
