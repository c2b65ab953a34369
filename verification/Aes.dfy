/** core/aes/aes.c: the steps of the cipher on the state in place, the key expansion, the cipher and its
    inverse, and the ECB and CBC entry points. The state is 16 bytes of a buffer, at an offset. */
module Aes {
  import opened AesField
  import opened AesCipher

  ghost function View(a: array<bv8>, at: nat): Block
    requires at + 16 <= a.Length
    reads a
  {
    a[at..at + 16]
  }

  /** Nothing outside the block at the offset has changed. */
  twostate predicate OthersKept(a: array<bv8>, at: nat)
    reads a
  {
    forall k :: 0 <= k < a.Length && !(at <= k < at + 16) ==> a[k] == old(a[k])
  }

  /** (*state)[i][j] = x, with m == 4 * i + j. */
  method Put(state: array<bv8>, at: nat, m: nat, x: bv8)
    requires at + 16 <= state.Length && m < 16
    modifies state
    ensures View(state, at) == old(View(state, at))[m := x]
    ensures OthersKept(state, at)
  {
    state[at + m] := x;
  }

  // ---------------------------------------------------------------- the steps of a round

  method AddRoundKey(state: array<bv8>, at: nat, roundKey: array<bv8>, round: nat)
    requires at + 16 <= state.Length && roundKey.Length == 176 && round <= 10 && state != roundKey
    modifies state
    ensures View(state, at) == AddKey(old(View(state, at)), RoundKey(roundKey[..], round))
    ensures OthersKept(state, at)
  {
    hide Xor;
    ghost var was, key := View(state, at), RoundKey(roundKey[..], round);
    var i := 0;
    while i < 4
      invariant 0 <= i <= 4
      invariant OthersKept(state, at)
      invariant forall k :: 0 <= k < 16 ==> View(state, at)[k] == if k < 4 * i then Xor(was[k], key[k]) else was[k]
    {
      var j := 0;
      while j < 4
        invariant 0 <= j <= 4
        invariant OthersKept(state, at)
        invariant forall k :: 0 <= k < 16 ==> View(state, at)[k] == if k < 4 * i + j then Xor(was[k], key[k]) else was[k]
      {
        var m := 4 * i + j;
        Put(state, at, m, Xor(state[at + m], roundKey[round * 16 + m]));
        j := j + 1;
      }
      i := i + 1;
    }
    assert View(state, at) == AddKey(was, key);
  }

  method SubBytes(state: array<bv8>, at: nat)
    requires at + 16 <= state.Length
    modifies state
    ensures View(state, at) == SubBlock(old(View(state, at)))
    ensures OthersKept(state, at)
  {
    hide Sbox;
    ghost var was := View(state, at);
    var i := 0;
    while i < 4
      invariant 0 <= i <= 4
      invariant OthersKept(state, at)
      invariant forall k :: 0 <= k < 16 ==> View(state, at)[k] == if k % 4 < i then Sbox(was[k]) else was[k]
    {
      var j := 0;
      while j < 4
        invariant 0 <= j <= 4
        invariant OthersKept(state, at)
        invariant forall k :: 0 <= k < 16 ==>
          View(state, at)[k] == if k % 4 < i || (k % 4 == i && k / 4 < j) then Sbox(was[k]) else was[k]
      {
        Put(state, at, 4 * j + i, Sbox(state[at + (4 * j + i)]));
        j := j + 1;
      }
      i := i + 1;
    }
    assert View(state, at) == SubBlock(was);
  }

  method InvSubBytes(state: array<bv8>, at: nat)
    requires at + 16 <= state.Length
    modifies state
    ensures View(state, at) == InvSubBlock(old(View(state, at)))
    ensures OthersKept(state, at)
  {
    hide Rsbox;
    ghost var was := View(state, at);
    var i := 0;
    while i < 4
      invariant 0 <= i <= 4
      invariant OthersKept(state, at)
      invariant forall k :: 0 <= k < 16 ==> View(state, at)[k] == if k % 4 < i then Rsbox(was[k]) else was[k]
    {
      var j := 0;
      while j < 4
        invariant 0 <= j <= 4
        invariant OthersKept(state, at)
        invariant forall k :: 0 <= k < 16 ==>
          View(state, at)[k] == if k % 4 < i || (k % 4 == i && k / 4 < j) then Rsbox(was[k]) else was[k]
      {
        Put(state, at, 4 * j + i, Rsbox(state[at + (4 * j + i)]));
        j := j + 1;
      }
      i := i + 1;
    }
    assert View(state, at) == InvSubBlock(was);
  }

  /** v is s with row r moved n columns to the left. */
  ghost predicate Rotated(v: Block, s: Block, r: nat, n: nat)
    requires r < 4
  {
    && (forall k :: 0 <= k < 16 && k % 4 != r ==> v[k] == s[k])
    && v[r] == s[(r + 4 * n) % 16] && v[r + 4] == s[(r + 4 * n + 4) % 16]
    && v[r + 8] == s[(r + 4 * n + 8) % 16] && v[r + 12] == s[(r + 4 * n + 12) % 16]
  }

  lemma {:induction false} RowsLeft(s: Block, t: Block, u: Block, v: Block)
    requires Rotated(t, s, 1, 1) && Rotated(u, t, 2, 2) && Rotated(v, u, 3, 3)
    ensures v == ShiftBlock(s)
  {
    assert v[0] == s[0] && v[4] == s[4] && v[8] == s[8] && v[12] == s[12];
    assert v[1] == t[1] && v[5] == t[5] && v[9] == t[9] && v[13] == t[13];
    assert v[2] == u[2] && v[6] == u[6] && v[10] == u[10] && v[14] == u[14];
    assert t[2] == s[2] && t[6] == s[6] && t[10] == s[10] && t[14] == s[14];
    assert u[3] == s[3] && u[7] == s[7] && u[11] == s[11] && u[15] == s[15];
  }

  lemma {:induction false} RowsRight(s: Block, t: Block, u: Block, v: Block)
    requires Rotated(t, s, 1, 3) && Rotated(u, t, 2, 2) && Rotated(v, u, 3, 1)
    ensures v == InvShiftBlock(s)
  {
    assert v[0] == s[0] && v[4] == s[4] && v[8] == s[8] && v[12] == s[12];
    assert v[1] == t[1] && v[5] == t[5] && v[9] == t[9] && v[13] == t[13];
    assert v[2] == u[2] && v[6] == u[6] && v[10] == u[10] && v[14] == u[14];
    assert t[2] == s[2] && t[6] == s[6] && t[10] == s[10] && t[14] == s[14];
    assert u[3] == s[3] && u[7] == s[7] && u[11] == s[11] && u[15] == s[15];
  }

  method RotateRow1(state: array<bv8>, at: nat)
    requires at + 16 <= state.Length
    modifies state
    ensures Rotated(View(state, at), old(View(state, at)), 1, 1)
    ensures OthersKept(state, at)
  {
    var temp := state[at + 1];
    state[at + 1] := state[at + 5];
    state[at + 5] := state[at + 9];
    state[at + 9] := state[at + 13];
    state[at + 13] := temp;
  }

  method RotateRow2(state: array<bv8>, at: nat)
    requires at + 16 <= state.Length
    modifies state
    ensures Rotated(View(state, at), old(View(state, at)), 2, 2)
    ensures OthersKept(state, at)
  {
    var temp := state[at + 2];
    state[at + 2] := state[at + 10];
    state[at + 10] := temp;
    temp := state[at + 6];
    state[at + 6] := state[at + 14];
    state[at + 14] := temp;
  }

  method RotateRow3(state: array<bv8>, at: nat)
    requires at + 16 <= state.Length
    modifies state
    ensures Rotated(View(state, at), old(View(state, at)), 3, 3)
    ensures OthersKept(state, at)
  {
    var temp := state[at + 3];
    state[at + 3] := state[at + 15];
    state[at + 15] := state[at + 11];
    state[at + 11] := state[at + 7];
    state[at + 7] := temp;
  }

  method RotateRow1Right(state: array<bv8>, at: nat)
    requires at + 16 <= state.Length
    modifies state
    ensures Rotated(View(state, at), old(View(state, at)), 1, 3)
    ensures OthersKept(state, at)
  {
    var temp := state[at + 13];
    state[at + 13] := state[at + 9];
    state[at + 9] := state[at + 5];
    state[at + 5] := state[at + 1];
    state[at + 1] := temp;
  }

  method RotateRow3Right(state: array<bv8>, at: nat)
    requires at + 16 <= state.Length
    modifies state
    ensures Rotated(View(state, at), old(View(state, at)), 3, 1)
    ensures OthersKept(state, at)
  {
    var temp := state[at + 3];
    state[at + 3] := state[at + 7];
    state[at + 7] := state[at + 11];
    state[at + 11] := state[at + 15];
    state[at + 15] := temp;
  }

  method ShiftRows(state: array<bv8>, at: nat)
    requires at + 16 <= state.Length
    modifies state
    ensures View(state, at) == ShiftBlock(old(View(state, at)))
    ensures OthersKept(state, at)
  {
    ghost var s := View(state, at);
    RotateRow1(state, at);
    ghost var t := View(state, at);
    RotateRow2(state, at);
    ghost var u := View(state, at);
    RotateRow3(state, at);
    RowsLeft(s, t, u, View(state, at));
  }

  method InvShiftRows(state: array<bv8>, at: nat)
    requires at + 16 <= state.Length
    modifies state
    ensures View(state, at) == InvShiftBlock(old(View(state, at)))
    ensures OthersKept(state, at)
  {
    ghost var s := View(state, at);
    RotateRow1Right(state, at);
    ghost var t := View(state, at);
    RotateRow2(state, at);
    ghost var u := View(state, at);
    RotateRow3Right(state, at);
    RowsRight(s, t, u, View(state, at));
  }

  ghost function ColumnAt(a: array<bv8>, at: nat): Column
    requires at + 4 <= a.Length
    reads a
  {
    Column(a[at], a[at + 1], a[at + 2], a[at + 3])
  }

  twostate predicate ColumnOnly(a: array<bv8>, at: nat)
    reads a
  {
    forall k :: 0 <= k < a.Length && !(at <= k < at + 4) ==> a[k] == old(a[k])
  }

  lemma {:induction false} MixColumnShort(s: Column)
    ensures MixColumn(s) == Column(
      Xor(s.a, Xor(Xtime(Xor(s.a, s.b)), Sum(s.a, s.b, s.c, s.d))),
      Xor(s.b, Xor(Xtime(Xor(s.b, s.c)), Sum(s.a, s.b, s.c, s.d))),
      Xor(s.c, Xor(Xtime(Xor(s.c, s.d)), Sum(s.a, s.b, s.c, s.d))),
      Xor(s.d, Xor(Xtime(Xor(s.d, s.a)), Sum(s.a, s.b, s.c, s.d))))
  {
    hide Xor, Xtime, Sum, MixRow;
    MixRowShort(s.a, s.b, s.c, s.d);
    MixRowShort(s.b, s.c, s.d, s.a);
    MixRowShort(s.c, s.d, s.a, s.b);
    MixRowShort(s.d, s.a, s.b, s.c);
    SumRotate(s.a, s.b, s.c, s.d);
    SumRotate(s.b, s.c, s.d, s.a);
    SumRotate(s.c, s.d, s.a, s.b);
  }

  /** One turn of the loop of MixColumns. */
  method MixOne(state: array<bv8>, at: nat)
    requires at + 4 <= state.Length
    modifies state
    ensures ColumnAt(state, at) == MixColumn(old(ColumnAt(state, at)))
    ensures ColumnOnly(state, at)
  {
    hide Xor, Xtime, Sum, MixColumn;
    MixColumnShort(ColumnAt(state, at));
    var t := state[at];
    var tmp := Sum(state[at], state[at + 1], state[at + 2], state[at + 3]);
    var tm := Xtime(Xor(state[at], state[at + 1]));
    state[at] := Xor(state[at], Xor(tm, tmp));
    tm := Xtime(Xor(state[at + 1], state[at + 2]));
    state[at + 1] := Xor(state[at + 1], Xor(tm, tmp));
    tm := Xtime(Xor(state[at + 2], state[at + 3]));
    state[at + 2] := Xor(state[at + 2], Xor(tm, tmp));
    tm := Xtime(Xor(state[at + 3], t));
    state[at + 3] := Xor(state[at + 3], Xor(tm, tmp));
    assert ColumnAt(state, at) == MixColumn(old(ColumnAt(state, at)));
  }

  /** One turn of the loop of InvMixColumns. */
  method InvMixOne(state: array<bv8>, at: nat)
    requires at + 4 <= state.Length
    modifies state
    ensures ColumnAt(state, at) == InvMixColumn(old(ColumnAt(state, at)))
    ensures ColumnOnly(state, at)
  {
    hide Sum, Multiply;
    var a, b, c, d := state[at], state[at + 1], state[at + 2], state[at + 3];
    state[at] := Sum(Multiply(a, 0x0e), Multiply(b, 0x0b), Multiply(c, 0x0d), Multiply(d, 0x09));
    state[at + 1] := Sum(Multiply(a, 0x09), Multiply(b, 0x0e), Multiply(c, 0x0b), Multiply(d, 0x0d));
    state[at + 2] := Sum(Multiply(a, 0x0d), Multiply(b, 0x09), Multiply(c, 0x0e), Multiply(d, 0x0b));
    state[at + 3] := Sum(Multiply(a, 0x0b), Multiply(b, 0x0d), Multiply(c, 0x09), Multiply(d, 0x0e));
    SumRotate(Multiply(a, 0x09), Multiply(b, 0x0e), Multiply(c, 0x0b), Multiply(d, 0x0d));
    SumRotate(Multiply(a, 0x0d), Multiply(b, 0x09), Multiply(c, 0x0e), Multiply(d, 0x0b));
    SumRotate(Multiply(b, 0x09), Multiply(c, 0x0e), Multiply(d, 0x0b), Multiply(a, 0x0d));
    SumRotate(Multiply(d, 0x0e), Multiply(a, 0x0b), Multiply(b, 0x0d), Multiply(c, 0x09));
    assert ColumnAt(state, at) == InvMixColumn(old(ColumnAt(state, at)));
  }

  /** v is t in its first m bytes and s in the others. */
  ghost predicate UpTo(v: Block, s: Block, t: Block, m: nat) {
    forall k :: 0 <= k < 16 ==> v[k] == if k < m then t[k] else s[k]
  }

  lemma {:induction false} ColumnDone(v: Block, v': Block, s: Block, t: Block, i: nat)
    requires i < 4 && UpTo(v, s, t, 4 * i) && Col(v', i) == Col(t, i)
    requires forall k :: 0 <= k < 16 && !(4 * i <= k < 4 * i + 4) ==> v'[k] == v[k]
    ensures UpTo(v', s, t, 4 * i + 4)
  {
  }

  lemma {:induction false} MixBlockColumn(s: Block, i: nat)
    requires i < 4
    ensures Col(MixBlock(s), i) == MixColumn(Col(s, i)) && Col(InvMixBlock(s), i) == InvMixColumn(Col(s, i))
  {
    hide MixColumn, InvMixColumn;
    assert i == 0 || i == 1 || i == 2 || i == 3;
  }

  method MixTurn(state: array<bv8>, at: nat, i: nat, ghost s: Block, ghost t: Block)
    requires at + 16 <= state.Length && i < 4 && UpTo(View(state, at), s, t, 4 * i)
    requires Col(t, i) == MixColumn(Col(s, i))
    modifies state
    ensures UpTo(View(state, at), s, t, 4 * i + 4)
    ensures OthersKept(state, at)
  {
    hide MixColumn;
    ghost var v := View(state, at);
    assert Col(s, i) == ColumnAt(state, at + 4 * i);
    MixOne(state, at + 4 * i);
    assert Col(View(state, at), i) == ColumnAt(state, at + 4 * i);
    ColumnDone(v, View(state, at), s, t, i);
  }

  method MixColumns(state: array<bv8>, at: nat)
    requires at + 16 <= state.Length
    modifies state
    ensures View(state, at) == MixBlock(old(View(state, at)))
    ensures OthersKept(state, at)
  {
    hide MixBlock, MixColumn;
    ghost var s := View(state, at);
    ghost var t := MixBlock(s);
    var i := 0;
    while i < 4
      invariant 0 <= i <= 4
      invariant OthersKept(state, at)
      invariant UpTo(View(state, at), s, t, 4 * i)
    {
      MixBlockColumn(s, i);
      MixTurn(state, at, i, s, t);
      i := i + 1;
    }
    assert View(state, at) == t;
  }

  method InvMixTurn(state: array<bv8>, at: nat, i: nat, ghost s: Block, ghost t: Block)
    requires at + 16 <= state.Length && i < 4 && UpTo(View(state, at), s, t, 4 * i)
    requires Col(t, i) == InvMixColumn(Col(s, i))
    modifies state
    ensures UpTo(View(state, at), s, t, 4 * i + 4)
    ensures OthersKept(state, at)
  {
    hide InvMixColumn;
    ghost var v := View(state, at);
    assert Col(s, i) == ColumnAt(state, at + 4 * i);
    InvMixOne(state, at + 4 * i);
    assert Col(View(state, at), i) == ColumnAt(state, at + 4 * i);
    ColumnDone(v, View(state, at), s, t, i);
  }

  method InvMixColumns(state: array<bv8>, at: nat)
    requires at + 16 <= state.Length
    modifies state
    ensures View(state, at) == InvMixBlock(old(View(state, at)))
    ensures OthersKept(state, at)
  {
    hide InvMixBlock, InvMixColumn;
    ghost var s := View(state, at);
    ghost var t := InvMixBlock(s);
    var i := 0;
    while i < 4
      invariant 0 <= i <= 4
      invariant OthersKept(state, at)
      invariant UpTo(View(state, at), s, t, 4 * i)
    {
      MixBlockColumn(s, i);
      InvMixTurn(state, at, i, s, t);
      i := i + 1;
    }
    assert View(state, at) == t;
  }

  // ---------------------------------------------------------------- key expansion

  lemma {:induction false} ColsKept(w: seq<bv8>, w': seq<bv8>, i: nat, k: nat)
    requires 4 * i + 4 <= |w| == |w'| && 4 * k + 4 <= |w| && k != i
    requires w'[..4 * i] == w[..4 * i] && w'[4 * i + 4..] == w[4 * i + 4..]
    ensures Col(w', k) == Col(w, k)
  {
    if k < i {
      assert Col(w', k) == Col(w'[..4 * i], k) && Col(w, k) == Col(w[..4 * i], k);
    } else {
      assert Col(w', k) == Col(w'[4 * i + 4..], k - i - 1) && Col(w, k) == Col(w[4 * i + 4..], k - i - 1);
    }
  }

  /** Stores word i. */
  method PutWord(roundKey: array<bv8>, i: nat, a: bv8, b: bv8, c: bv8, d: bv8)
    requires 4 * i + 4 <= roundKey.Length
    modifies roundKey
    ensures Col(roundKey[..], i) == Column(a, b, c, d)
    ensures forall k: nat :: 4 * k + 4 <= roundKey.Length && k != i ==> Col(roundKey[..], k) == old(Col(roundKey[..], k))
  {
    ghost var w := roundKey[..];
    roundKey[i * 4] := a;
    roundKey[i * 4 + 1] := b;
    roundKey[i * 4 + 2] := c;
    roundKey[i * 4 + 3] := d;
    ghost var w' := roundKey[..];
    forall k: nat | 4 * k + 4 <= roundKey.Length && k != i ensures Col(w', k) == Col(w, k) {
      ColsKept(w, w', i, k);
    }
  }

  /** tempa, once the rotation and substitution at a key boundary are done. */
  method TempWord(roundKey: array<bv8>, i: nat) returns (t: Column)
    requires 1 <= i < 44 && roundKey.Length == 176
    ensures t == Temp(Col(roundKey[..], i - 1), i)
  {
    hide Sbox, Xor;
    var t0, t1, t2, t3 := roundKey[(i - 1) * 4], roundKey[(i - 1) * 4 + 1], roundKey[(i - 1) * 4 + 2], roundKey[(i - 1) * 4 + 3];
    if i % 4 == 0 {
      var k := t0;
      t0 := t1;
      t1 := t2;
      t2 := t3;
      t3 := k;
      t0 := Sbox(t0);
      t1 := Sbox(t1);
      t2 := Sbox(t2);
      t3 := Sbox(t3);
      t0 := Xor(t0, RCON[i / 4]);
    }
    t := Column(t0, t1, t2, t3);
  }

  method KeyExpansion(key: array<bv8>, roundKey: array<bv8>)
    requires key.Length >= 16 && roundKey.Length == 176 && key != roundKey
    modifies roundKey
    ensures roundKey[..] == ExpandKey(key[..16])
  {
    hide Word, Xor, Temp, Col, ExpandKey;
    ghost var k: Block := key[..16];
    var i := 0;
    while i < 4
      invariant 0 <= i <= 4
      invariant forall m: nat :: m < i ==> Col(roundKey[..], m) == Word(k, m)
    {
      PutWord(roundKey, i, key[i * 4], key[i * 4 + 1], key[i * 4 + 2], key[i * 4 + 3]);
      FirstWord(k, i);
      i := i + 1;
    }
    while i < 44
      invariant 4 <= i <= 44
      invariant forall m: nat :: m < i ==> Col(roundKey[..], m) == Word(k, m)
    {
      var t := TempWord(roundKey, i);
      assert Col(roundKey[..], i - 1) == Word(k, i - 1) && Col(roundKey[..], i - 4) == Word(k, i - 4);
      ReadWord(roundKey[..], i - 4);
      NextWord(k, i);
      PutWord(roundKey, i, Xor(roundKey[(i - 4) * 4], t.a), Xor(roundKey[(i - 4) * 4 + 1], t.b),
              Xor(roundKey[(i - 4) * 4 + 2], t.c), Xor(roundKey[(i - 4) * 4 + 3], t.d));
      i := i + 1;
    }
    OnlyExpansion(roundKey[..], k);
  }

  lemma {:induction false} FirstWord(key: Block, i: nat)
    requires i < 4
    ensures Word(key, i) == Column(key[i * 4], key[i * 4 + 1], key[i * 4 + 2], key[i * 4 + 3])
  {
  }

  lemma {:induction false} ReadWord(w: seq<bv8>, i: nat)
    requires 4 * i + 4 <= |w|
    ensures Col(w, i) == Column(w[i * 4], w[i * 4 + 1], w[i * 4 + 2], w[i * 4 + 3])
  {
  }

  lemma {:induction false} NextWord(key: Block, i: nat)
    requires 4 <= i < 44
    ensures Word(key, i) == XorWord(Word(key, i - 4), Temp(Word(key, i - 1), i))
  {
    hide Temp, XorWord;
  }

  // ---------------------------------------------------------------- the cipher

  method Cipher(state: array<bv8>, at: nat, roundKey: array<bv8>)
    requires at + 16 <= state.Length && roundKey.Length == 176 && state != roundKey
    modifies state
    ensures View(state, at) == Encrypt(roundKey[..], old(View(state, at)))
    ensures OthersKept(state, at)
  {
    hide AddKey, SubBlock, ShiftBlock, MixBlock, RoundKey;
    ghost var w, s := roundKey[..], View(state, at);
    AddRoundKey(state, at, roundKey, 0);
    var round := 1;
    while round < 10
      invariant 1 <= round <= 10
      invariant roundKey[..] == w
      invariant View(state, at) == Rounds(w, s, round - 1)
      invariant OthersKept(state, at)
    {
      SubBytes(state, at);
      ShiftRows(state, at);
      MixColumns(state, at);
      AddRoundKey(state, at, roundKey, round);
      round := round + 1;
    }
    SubBytes(state, at);
    ShiftRows(state, at);
    AddRoundKey(state, at, roundKey, 10);
  }

  method InvCipher(state: array<bv8>, at: nat, roundKey: array<bv8>)
    requires at + 16 <= state.Length && roundKey.Length == 176 && state != roundKey
    modifies state
    ensures View(state, at) == Decrypt(roundKey[..], old(View(state, at)))
    ensures OthersKept(state, at)
  {
    hide AddKey, InvSubBlock, InvShiftBlock, InvMixBlock, RoundKey;
    ghost var w, t := roundKey[..], View(state, at);
    AddRoundKey(state, at, roundKey, 10);
    var round := 9;
    while round > 0
      invariant 0 <= round <= 9
      invariant roundKey[..] == w
      invariant View(state, at) == InvRounds(w, t, round + 1)
      invariant OthersKept(state, at)
    {
      InvShiftRows(state, at);
      InvSubBytes(state, at);
      AddRoundKey(state, at, roundKey, round);
      InvMixColumns(state, at);
      round := round - 1;
    }
    InvShiftRows(state, at);
    InvSubBytes(state, at);
    AddRoundKey(state, at, roundKey, 0);
  }

  method BlockCopy(output: array<bv8>, outAt: nat, input: array<bv8>, inAt: nat)
    requires outAt + 16 <= output.Length && inAt + 16 <= input.Length
    requires output != input || outAt == inAt
    modifies output
    ensures View(output, outAt) == old(View(input, inAt))
    ensures OthersKept(output, outAt)
  {
    ghost var was := View(input, inAt);
    ghost var out := View(output, outAt);
    var i := 0;
    while i < 16
      invariant 0 <= i <= 16
      invariant UpTo(View(output, outAt), out, was, i)
      invariant output != input ==> View(input, inAt) == was
      invariant OthersKept(output, outAt)
    {
      assert View(input, inAt)[i] == was[i];
      Put(output, outAt, i, input[inAt + i]);
      i := i + 1;
    }
    assert View(output, outAt) == was;
  }

  // ---------------------------------------------------------------- entry points

  /** The static variables that outlive a call: RoundKey and Iv, the latter a pointer. */
  class Context {
    const roundKey: array<bv8>
    var ivBuf: array<bv8>
    var ivAt: nat

    constructor ()
      ensures fresh(roundKey) && fresh(ivBuf) && roundKey.Length == 176
      ensures ivBuf.Length == 16 && ivAt == 0 && ivBuf != roundKey
    {
      roundKey := new bv8[176];
      ivBuf := new bv8[16];
      ivAt := 0;
    }

    /** AES128_ECB_encrypt, which may work in place. */
    method EcbEncrypt(input: array<bv8>, inAt: nat, key: array<bv8>, output: array<bv8>, outAt: nat)
      requires inAt + 16 <= input.Length && outAt + 16 <= output.Length && key.Length >= 16 && roundKey.Length == 176
      requires output != input || outAt == inAt
      requires roundKey != input && roundKey != key && roundKey != output && output != key
      modifies output, roundKey
      ensures View(output, outAt) == AesCipher.Encrypt(ExpandKey(key[..16]), old(View(input, inAt)))
      ensures OthersKept(output, outAt)
    {
      hide AesCipher.Encrypt, ExpandKey;
      BlockCopy(output, outAt, input, inAt);
      KeyExpansion(key, roundKey);
      Cipher(output, outAt, roundKey);
    }

    /** AES128_ECB_decrypt */
    method EcbDecrypt(input: array<bv8>, inAt: nat, key: array<bv8>, output: array<bv8>, outAt: nat)
      requires inAt + 16 <= input.Length && outAt + 16 <= output.Length && key.Length >= 16 && roundKey.Length == 176
      requires output != input || outAt == inAt
      requires roundKey != input && roundKey != key && roundKey != output && output != key
      modifies output, roundKey
      ensures View(output, outAt) == AesCipher.Decrypt(ExpandKey(key[..16]), old(View(input, inAt)))
      ensures OthersKept(output, outAt)
    {
      hide AesCipher.Decrypt, ExpandKey;
      BlockCopy(output, outAt, input, inAt);
      KeyExpansion(key, roundKey);
      InvCipher(output, outAt, roundKey);
    }

    ghost predicate IvInBounds()
      reads this
    {
      ivAt + 16 <= ivBuf.Length
    }

    ghost function Iv(): Block
      requires IvInBounds()
      reads this, ivBuf
    {
      View(ivBuf, ivAt)
    }

    method XorWithIv(buf: array<bv8>, at: nat)
      requires at + 16 <= buf.Length && IvInBounds()
      requires buf != ivBuf || ivAt + 16 <= at || at + 16 <= ivAt
      modifies buf
      ensures View(buf, at) == AddKey(old(View(buf, at)), old(Iv()))
      ensures OthersKept(buf, at)
    {
      hide Xor;
      ghost var was, iv := View(buf, at), Iv();
      var i := 0;
      while i < 16
        invariant 0 <= i <= 16
        invariant forall k :: 0 <= k < 16 ==> View(buf, at)[k] == if k < i then Xor(was[k], iv[k]) else was[k]
        invariant Iv() == iv
        invariant OthersKept(buf, at)
      {
        assert iv[i] == ivBuf[ivAt + i];
        Put(buf, at, i, Xor(buf[at + i], ivBuf[ivAt + i]));
        assert Iv() == iv;
        i := i + 1;
      }
      assert View(buf, at) == AddKey(was, iv);
    }

    /** One block of AES128_CBC_encrypt_buffer; the input is combined with the chaining block in place. */
    method CbcEncryptBlock(output: array<bv8>, input: array<bv8>, i: nat)
      requires i + 16 <= output.Length && i + 16 <= input.Length && roundKey.Length == 176
      requires output != input && output != roundKey && input != roundKey
      requires IvInBounds() && ivBuf != input
      modifies output, input, `ivBuf, `ivAt
      ensures View(output, i) == AesCipher.Encrypt(roundKey[..], AddKey(old(View(input, i)), old(Iv())))
      ensures OthersKept(output, i) && OthersKept(input, i)
      ensures ivBuf == output && ivAt == i
    {
      hide AesCipher.Encrypt, AddKey;
      XorWithIv(input, i);
      BlockCopy(output, i, input, i);
      Cipher(output, i, roundKey);
      ivBuf, ivAt := output, i;
    }

    /** One block of AES128_CBC_decrypt_buffer. */
    method CbcDecryptBlock(output: array<bv8>, input: array<bv8>, i: nat)
      requires i + 16 <= output.Length && i + 16 <= input.Length && roundKey.Length == 176
      requires output != input && output != roundKey && input != roundKey
      requires IvInBounds() && (ivBuf != output || i + 16 <= ivAt)
      modifies output, `ivBuf, `ivAt
      ensures View(output, i) == AddKey(AesCipher.Decrypt(roundKey[..], View(input, i)), old(Iv()))
      ensures OthersKept(output, i)
      ensures ivBuf == input && ivAt == i
    {
      hide AesCipher.Decrypt, AddKey;
      ghost var iv := Iv();
      BlockCopy(output, i, input, i);
      assert Iv() == iv;
      InvCipher(output, i, roundKey);
      assert Iv() == iv;
      XorWithIv(output, i);
      ivBuf, ivAt := input, i;
    }

    /** The buffers of a CBC call: apart from each other, from the round keys and from the key, and not
        overwriting the chaining block before it is used. The first block is copied whatever the length. */
    ghost predicate Buffers(output: array<bv8>, input: array<bv8>, length: nat, key: array?<bv8>, iv: array?<bv8>)
      reads this
    {
      && length % 16 == 0 && length <= output.Length && length <= input.Length && 16 <= output.Length && 16 <= input.Length
      && roundKey.Length == 176 && output != input && output != roundKey && input != roundKey
      && (key != null ==> key.Length >= 16 && key != roundKey && key != output)
      && (if iv != null then iv.Length >= 16 && iv != output && iv != input && iv != roundKey
          else IvInBounds() && ivBuf != input && ivBuf != roundKey && (ivBuf != output || 16 <= ivAt))
    }

    /** What every CBC call starts with; a null key or iv leaves the one of the previous call. */
    method CbcStart(output: array<bv8>, input: array<bv8>, length: nat, key: array?<bv8>, iv: array?<bv8>)
      requires Buffers(output, input, length, key, iv)
      modifies output, roundKey, `ivBuf, `ivAt
      ensures roundKey[..] == if key != null then ExpandKey(key[..16]) else old(roundKey[..])
      ensures IvInBounds() && ivBuf != input && ivBuf != roundKey && (ivBuf != output || 16 <= ivAt)
      ensures Iv() == if iv != null then iv[..16] else old(Iv())
      ensures OthersKept(output, 0)
    {
      hide ExpandKey;
      BlockCopy(output, 0, input, 0);
      if key != null {
        KeyExpansion(key, roundKey);
      }
      if iv != null {
        ivBuf, ivAt := iv, 0;
      }
    }

    /** AES128_CBC_encrypt_buffer on whole blocks. */
    method CbcEncryptBuffer(output: array<bv8>, input: array<bv8>, length: nat, key: array?<bv8>, iv: array?<bv8>)
      requires Buffers(output, input, length, key, iv)
      modifies output, input, roundKey, `ivBuf, `ivAt
      ensures roundKey[..] == if key != null then old(ExpandKey(key[..16])) else old(roundKey[..])
      ensures output[..length] ==
        CbcEncrypt(roundKey[..], if iv != null then old(iv[..16]) else old(Iv()), old(input[..length]))
      ensures IvInBounds()
      ensures Iv() == LastBlock(if iv != null then old(iv[..16]) else old(Iv()), output[..length])
      ensures forall k :: length <= k < output.Length && 16 <= k ==> output[k] == old(output[k])
      ensures forall k :: length <= k < input.Length ==> input[k] == old(input[k])
    {
      hide ExpandKey, AesCipher.Encrypt, Encrypted;
      CbcStart(output, input, length, key, iv);
      ghost var w, iv0, p := roundKey[..], Iv(), input[..length];
      EncryptedStart(output[..], input[..], iv0, w, p);
      var i := 0;
      while i < length
        invariant 0 <= i <= length && i % 16 == 0
        invariant IvInBounds() && ivBuf != input && roundKey[..] == w
        invariant Encrypted(output[..], input[..], Iv(), w, iv0, p, i)
        invariant forall k :: i <= k < output.Length && 16 <= k ==> output[k] == old(output[k])
        invariant forall k :: length <= k < input.Length ==> input[k] == old(input[k])
      {
        ghost var out, inp, c := output[..], input[..], Iv();
        CbcEncryptBlock(output, input, i);
        EncryptedStep(out, inp, c, output[..], input[..], inp[i..i + 16], View(output, i), w, iv0, p, i);
        i := i + 16;
      }
      EncryptedEnd(output[..], input[..], Iv(), w, iv0, p);
    }

    /** AES128_CBC_decrypt_buffer on whole blocks. */
    method CbcDecryptBuffer(output: array<bv8>, input: array<bv8>, length: nat, key: array?<bv8>, iv: array?<bv8>)
      requires Buffers(output, input, length, key, iv)
      modifies output, roundKey, `ivBuf, `ivAt
      ensures roundKey[..] == if key != null then ExpandKey(key[..16]) else old(roundKey[..])
      ensures output[..length] == CbcDecrypt(roundKey[..], if iv != null then iv[..16] else old(Iv()), input[..length])
      ensures IvInBounds()
      ensures Iv() == LastBlock(if iv != null then iv[..16] else old(Iv()), input[..length])
      ensures forall k :: length <= k < output.Length && 16 <= k ==> output[k] == old(output[k])
    {
      hide ExpandKey, AesCipher.Decrypt, Decrypted;
      CbcStart(output, input, length, key, iv);
      ghost var w, iv0, q := roundKey[..], Iv(), input[..length];
      DecryptedStart(output[..], iv0, w, q);
      var i := 0;
      while i < length
        invariant 0 <= i <= length && i % 16 == 0
        invariant IvInBounds() && (ivBuf != output || i + 16 <= ivAt) && roundKey[..] == w && input[..length] == q
        invariant i > 0 ==> ivBuf == input
        invariant Decrypted(output[..], Iv(), w, iv0, q, i)
        invariant forall k :: i <= k < output.Length && 16 <= k ==> output[k] == old(output[k])
      {
        ghost var out, c := output[..], Iv();
        assert View(input, i) == q[i..i + 16];
        CbcDecryptBlock(output, input, i);
        DecryptedStep(out, c, output[..], View(input, i), View(output, i), w, iv0, q, i);
        i := i + 16;
      }
      DecryptedEnd(output[..], Iv(), w, iv0, q);
    }
  }

  // ---------------------------------------------------------------- the loops over blocks, on values

  /** i bytes of p are encrypted into out, the rest of p is still in inp, and c is the chaining block. */
  ghost predicate Encrypted(out: seq<bv8>, inp: seq<bv8>, c: Block, w: Schedule, iv: Block, p: seq<bv8>, i: nat) {
    && i % 16 == 0 && i <= |p| && |p| <= |out| && |p| <= |inp|
    && inp[i..|p|] == p[i..]
    && out[..i] == CbcEncrypt(w, iv, p[..i])
    && c == LastBlock(iv, out[..i])
  }

  lemma {:induction false} EncryptedStart(out: seq<bv8>, inp: seq<bv8>, iv: Block, w: Schedule, p: seq<bv8>)
    requires |p| <= |out| && |p| <= |inp| && inp[..|p|] == p
    ensures Encrypted(out, inp, iv, w, iv, p, 0)
  {
    CbcNothing(w, iv);
    assert out[..0] == p[..0] == [];
    assert inp[0..|p|] == p[0..];
  }

  lemma {:induction false} Grown(out: seq<bv8>, out': seq<bv8>, e: seq<bv8>, i: nat)
    requires i + 16 <= |out| == |out'| && e == out'[i..i + 16]
    requires forall k :: 0 <= k < i ==> out'[k] == out[k]
    ensures out'[..i + 16] == out[..i] + e
  {
  }

  lemma {:induction false} LastIs(iv: Block, s: seq<bv8>, e: Block)
    ensures LastBlock(iv, s + e) == e
  {
  }

  lemma {:induction false} RestLeft(inp: seq<bv8>, inp': seq<bv8>, p: seq<bv8>, i: nat)
    requires i + 16 <= |p| <= |inp| == |inp'| && inp[i..|p|] == p[i..]
    requires forall k :: i + 16 <= k < |inp| ==> inp'[k] == inp[k]
    ensures inp[i..i + 16] == p[i..i + 16] && inp'[i + 16..|p|] == p[i + 16..]
  {
    assert inp[i..i + 16] == inp[i..|p|][..16] && p[i..i + 16] == p[i..][..16];
    assert inp'[i + 16..|p|] == inp[i..|p|][16..] && p[i + 16..] == p[i..][16..];
  }

  ghost predicate Chained(w: Schedule, c: Block, x: Block, e: Block) {
    e == AesCipher.Encrypt(w, AddKey(x, c))
  }

  lemma {:induction false} ChainedMore(w: Schedule, iv: Block, p: seq<bv8>, x: Block, e: Block)
    requires |p| % 16 == 0 && Chained(w, LastBlock(iv, CbcEncrypt(w, iv, p)), x, e)
    ensures CbcEncrypt(w, iv, p + x) == CbcEncrypt(w, iv, p) + e
  {
    hide AesCipher.Encrypt, AddKey, CbcEncrypt, LastBlock;
    CbcOneMore(w, iv, p, x);
  }

  lemma {:induction false} EncryptedStep(out: seq<bv8>, inp: seq<bv8>, c: Block, out': seq<bv8>, inp': seq<bv8>,
                                         x: Block, e: Block, w: Schedule, iv: Block, p: seq<bv8>, i: nat)
    requires Encrypted(out, inp, c, w, iv, p, i) && i + 16 <= |p| && |out'| == |out| && |inp'| == |inp|
    requires x == inp[i..i + 16] && e == out'[i..i + 16]
    requires forall k :: 0 <= k < i ==> out'[k] == out[k]
    requires forall k :: i + 16 <= k < |inp| ==> inp'[k] == inp[k]
    requires Chained(w, c, x, e)
    ensures Encrypted(out', inp', e, w, iv, p, i + 16)
  {
    hide Chained, CbcEncrypt, LastBlock;
    RestLeft(inp, inp', p, i);
    Grown(out, out', e, i);
    Grown(p, p, x, i);
    ChainedMore(w, iv, p[..i], x, e);
    LastIs(iv, out[..i], e);
    assert Encrypted(out', inp', e, w, iv, p, i + 16);
  }

  lemma {:induction false} EncryptedEnd(out: seq<bv8>, inp: seq<bv8>, c: Block, w: Schedule, iv: Block, p: seq<bv8>)
    requires Encrypted(out, inp, c, w, iv, p, |p|)
    ensures out[..|p|] == CbcEncrypt(w, iv, p) && c == LastBlock(iv, out[..|p|])
  {
    assert p[..|p|] == p;
  }

  /** i bytes of q are decrypted into out, and c is the chaining block. */
  ghost predicate Decrypted(out: seq<bv8>, c: Block, w: Schedule, iv: Block, q: seq<bv8>, i: nat) {
    && i % 16 == 0 && i <= |q| <= |out|
    && out[..i] == CbcDecrypt(w, iv, q[..i])
    && c == LastBlock(iv, q[..i])
  }

  lemma {:induction false} DecryptedStart(out: seq<bv8>, iv: Block, w: Schedule, q: seq<bv8>)
    requires |q| <= |out|
    ensures Decrypted(out, iv, w, iv, q, 0)
  {
    CbcNothing(w, iv);
    assert out[..0] == q[..0] == [];
  }

  lemma {:induction false} DecryptedStep(out: seq<bv8>, c: Block, out': seq<bv8>, x: Block, d: Block,
                                         w: Schedule, iv: Block, q: seq<bv8>, i: nat)
    requires Decrypted(out, c, w, iv, q, i) && i + 16 <= |q| && |out'| == |out|
    requires x == q[i..i + 16] && d == out'[i..i + 16]
    requires forall k :: 0 <= k < i ==> out'[k] == out[k]
    requires d == AddKey(AesCipher.Decrypt(w, x), c)
    ensures Decrypted(out', x, w, iv, q, i + 16)
  {
    hide AesCipher.Decrypt, AddKey, CbcDecrypt, LastBlock;
    Grown(out, out', d, i);
    Grown(q, q, x, i);
    CbcOneMore(w, iv, q[..i], x);
    LastIs(iv, q[..i], x);
    assert Decrypted(out', x, w, iv, q, i + 16);
  }

  lemma {:induction false} DecryptedEnd(out: seq<bv8>, c: Block, w: Schedule, iv: Block, q: seq<bv8>)
    requires Decrypted(out, c, w, iv, q, |q|)
    ensures out[..|q|] == CbcDecrypt(w, iv, q) && c == LastBlock(iv, q)
  {
    assert q[..|q|] == q;
  }

  lemma {:induction false} CbcNothing(w: Schedule, iv: Block)
    ensures CbcEncrypt(w, iv, []) == [] && CbcDecrypt(w, iv, []) == []
  {
  }
}
