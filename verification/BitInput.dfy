/** The input of the decoder as one long number, and the bit accumulator as a piece of it. */
module BitInput {
  import opened Arith
  import opened BitReverse

  type octet = n: nat | n < 0x100

  /** The bytes as a number whose lowest bits come first. */
  function Num(s: seq<octet>): nat {
    if s == [] then 0 else s[0] + Shl(Num(s[1..]), 8)
  }

  /** What is left to read after p bits. */
  function Rest(s: seq<octet>, p: nat): nat { Shr(Num(s), p) }

  lemma RestAdd(s: seq<octet>, p: nat, k: nat)
    ensures Shr(Rest(s, p), k) == Rest(s, p + k)
  {
    ShrAdd(Num(s), p, k);
  }

  lemma Pow8()
    ensures Pow2(8) == 0x100
  {
  }

  lemma {:induction false} RestBytes(s: seq<octet>, i: nat)
    requires i <= |s|
    ensures Rest(s, 8 * i) == Num(s[i..])
    decreases i
  {
    hide Shr, Shl, Low;
    if i == 0 {
      assert s[0..] == s;
      assert Shr(Num(s), 0) == Num(s) by { ShrNone(Num(s)); }
    } else {
      RestBytes(s, i - 1);
      var t := s[i - 1..];
      assert t[1..] == s[i..];
      Pow8();
      SplitUnique(8, t[0], Num(t[1..]));
      RestAdd(s, 8 * (i - 1), 8);
    }
  }

  /** The next whole byte. */
  lemma RestByte(s: seq<octet>, i: nat)
    requires i < |s|
    ensures Low(Rest(s, 8 * i), 8) == s[i]
  {
    hide Shr, Shl, Low;
    RestBytes(s, i);
    Pow8();
    SplitUnique(8, s[i], Num(s[i..][1..]));
  }

  /** hold holds the next `bits` bits; `at` bytes have been taken from the input. */
  ghost predicate HoldOk(s: seq<octet>, at: nat, hold: nat, bits: nat) {
    at <= |s| && bits <= 8 * at && hold == Low(Rest(s, 8 * at - bits), bits)
  }

  /** hold += (unsigned long)(*in++) << bits; bits += 8; */
  lemma PullOk(s: seq<octet>, at: nat, hold: nat, bits: nat)
    requires HoldOk(s, at, hold, bits) && at < |s|
    ensures HoldOk(s, at + 1, hold + Shl(s[at], bits), bits + 8)
  {
    hide Shr, Shl, Low, Rest;
    var x := Rest(s, 8 * at - bits);
    RestAdd(s, 8 * at - bits, bits);
    RestByte(s, at);
    Split(Low(x, bits + 8), bits);
    LowLow(x, bits, bits + 8);
    ShrLow(x, bits, 8);
  }

  /** hold >>= k; bits -= k; */
  lemma DropOk(s: seq<octet>, at: nat, hold: nat, bits: nat, k: nat)
    requires HoldOk(s, at, hold, bits) && k <= bits
    ensures HoldOk(s, at, Shr(hold, k), bits - k)
  {
    hide Shr, Low, Rest;
    RestAdd(s, 8 * at - bits, k);
    ShrLow(Rest(s, 8 * at - bits), k, bits - k);
  }

  /** in -= bits >> 3; bits &= 7; hold &= (1 << bits) - 1: unread whole bytes go back. */
  lemma ReturnOk(s: seq<octet>, at: nat, hold: nat, bits: nat, k: nat)
    requires HoldOk(s, at, hold, bits) && 8 * k <= bits && k <= at
    ensures HoldOk(s, at - k, Low(hold, bits - 8 * k), bits - 8 * k)
  {
    hide Low, Rest;
    LowLow(Rest(s, 8 * at - bits), bits - 8 * k, bits);
  }

  /** Any k <= bits low bits of hold are the next k bits of the input. */
  lemma PeekOk(s: seq<octet>, at: nat, hold: nat, bits: nat, k: nat)
    requires HoldOk(s, at, hold, bits) && k <= bits
    ensures Low(hold, k) == Low(Rest(s, 8 * at - bits), k)
  {
    LowLow(Rest(s, 8 * at - bits), k, bits);
  }
}
