/** The rolling hash of the compressor: UPDATE_HASH and the facts the search
    for matches rests on. */
module DeflateHash {
  import opened Lz77

  /** hash_bits = memLevel + 7 and hash_shift = (hash_bits + 2) / 3. */
  type HashBits = n: nat | 8 <= n <= 16 witness 15

  function HashSize(bits: HashBits): nat {
    match bits
    case 8 => 0x100
    case 9 => 0x200
    case 10 => 0x400
    case 11 => 0x800
    case 12 => 0x1000
    case 13 => 0x2000
    case 14 => 0x4000
    case 15 => 0x8000
    case _ => 0x1_0000
  }

  function HashMask(bits: HashBits): bv16 {
    match bits
    case 8 => 0xff
    case 9 => 0x1ff
    case 10 => 0x3ff
    case 11 => 0x7ff
    case 12 => 0xfff
    case 13 => 0x1fff
    case 14 => 0x3fff
    case 15 => 0x7fff
    case _ => 0xffff
  }

  function HashShift(bits: HashBits): nat { (bits + 2) / 3 }

  function ShiftLeft(h: bv16, shift: nat): bv16 {
    match shift
    case 3 => h << 3
    case 4 => h << 4
    case 5 => h << 5
    case _ => h << 6
  }

  function Mix(shift: nat, mask: bv16, h: bv16, c: byte): bv16 {
    (ShiftLeft(h, shift) ^ (c as bv16)) & mask
  }

  function UpdateHash(bits: HashBits, h: bv16, c: byte): bv16 {
    Mix(HashShift(bits), HashMask(bits), h, c)
  }

  /** The hash of a three-byte string. */
  function Hash3(bits: HashBits, a: byte, b: byte, c: byte): bv16 {
    UpdateHash(bits, UpdateHash(bits, UpdateHash(bits, 0, a), b), c)
  }

  /** A key that continues every string starting with the bytes a, b. */
  ghost predicate Rolled(bits: HashBits, h: bv16, a: byte, b: byte) {
    forall c :: UpdateHash(bits, h, c) == Hash3(bits, a, b, c)
  }

  lemma MixForgets(shift: nat, mask: bv16, h: bv16, a: byte, b: byte, c: byte)
    requires 3 <= shift <= 6
    requires shift == 3 ==> mask == 0xff || mask == 0x1ff
    requires shift == 4 ==> mask == 0x3ff || mask == 0x7ff || mask == 0xfff
    requires shift == 5 ==> mask == 0x1fff || mask == 0x3fff || mask == 0x7fff
    ensures Mix(shift, mask, Mix(shift, mask, Mix(shift, mask, h, a), b), c)
            == Mix(shift, mask, Mix(shift, mask, Mix(shift, mask, 0, a), b), c)
  {
    if shift == 3 {
    } else if shift == 4 {
    } else if shift == 5 {
    } else {
    }
  }

  /** After three updates nothing older than three bytes is left in the key,
      so the key of one string continues to the next. */
  lemma HashForgets(bits: HashBits, h: bv16, a: byte, b: byte)
    ensures Rolled(bits, UpdateHash(bits, UpdateHash(bits, h, a), b), a, b)
  {
    forall c ensures UpdateHash(bits, UpdateHash(bits, UpdateHash(bits, h, a), b), c) == Hash3(bits, a, b, c) {
      MixForgets(HashShift(bits), HashMask(bits), h, a, b, c);
    }
  }

  /** Equal keys and equal first two bytes force equal third bytes. */
  lemma ThirdByteImplied(bits: HashBits, a: byte, b: byte, c: byte, d: byte)
    requires Hash3(bits, a, b, c) == Hash3(bits, a, b, d)
    ensures c == d
  {
  }

  /** Where a key sits in head[]. */
  function Index(h: bv16): (i: nat) { h as nat }

  lemma IndexInRange(bits: HashBits, h: bv16, c: byte)
    ensures Index(UpdateHash(bits, h, c)) < HashSize(bits)
  {
    var k := UpdateHash(bits, h, c);
    assert k & HashMask(bits) == k;
    assert k <= HashMask(bits);
  }

  lemma IndexInjective(h: bv16, g: bv16)
    requires Index(h) == Index(g)
    ensures h == g
  {
    var i, j := h as int, g as int;
    assert i as bv16 == h;
    assert j as bv16 == g;
  }

  /** One INSERT_STRING step of the running key. */
  lemma NextKey(bits: HashBits, h: bv16, a: byte, b: byte, c: byte)
    requires Rolled(bits, h, a, b)
    ensures UpdateHash(bits, h, c) == Hash3(bits, a, b, c)
    ensures Rolled(bits, Hash3(bits, a, b, c), b, c)
    ensures Index(Hash3(bits, a, b, c)) < HashSize(bits)
  {
    hide UpdateHash;
    HashForgets(bits, UpdateHash(bits, 0, a), b, c);
    IndexInRange(bits, h, c);
  }

  /** fill_window starts a key from the first byte itself. */
  lemma FirstByte(bits: HashBits, a: byte)
    ensures UpdateHash(bits, 0, a) == a as bv16
  {
  }
}
