/** Packet encryption: core/crypt.hpp, with RSHash of core/func.hpp and the network integers of
    core/nint.hpp. A packet is the bytes of a structure that starts with a header and ends with an end chunk. */
module Crypt {
  import opened AesCipher
  import opened AesStandard
  import Aes

  /** The int of a 32-bit word. */
  function AsInt(v: bv32): int {
    if v < 0x8000_0000 then v as int else v as int - 0x1_0000_0000
  }

  /** Where the fields are: unique is the offset of header.unique, after which come the four-byte fields
      len and hash and then the password; end is the offset of endchunk, and size that of the structure.
      span is the distance from the password to the end chunk, as the int of the source. */
  datatype Layout = Layout(unique: nat, end: nat, size: nat, span: bv32) {
    function Len(): nat { unique + 4 }
    function Hash(): nat { unique + 8 }
    function Body(): nat { unique + 12 }

    /** The end of the last block: the end chunk takes up what the last block has too much. */
    function Sealed(): nat
      requires Sane()
    {
      unique + (end - unique + 15) / 16 * 16
    }

    ghost predicate Sane() {
      && 1 <= unique && Body() <= end && end + 16 <= size
      && AsInt(span) == end - Body()
    }
  }

  ghost predicate PacketOf(l: Layout, p: seq<bv8>) {
    l.Sane() && |p| == l.size
  }

  // ---------------------------------------------------------------- RSHash

  /** A char, which is signed, as an unsigned int. */
  function SignExtend(c: bv8): bv32 {
    if c < 0x80 then c as bv32 else 0xffff_ff00 | (c as bv32)
  }

  datatype HashState = HashState(hash: bv32, a: bv32)

  function HashStep(s: HashState, c: bv8): HashState {
    HashState(Plus(Times(s.hash, s.a), SignExtend(c)), Times(s.a, 378551))
  }

  function HashRun(str: seq<bv8>): HashState {
    if str == [] then HashState(0, 63689) else HashStep(HashRun(str[..|str| - 1]), str[|str| - 1])
  }

  function RsHash(str: seq<bv8>): bv32 {
    HashRun(str).hash
  }

  method RSHash(str: array<bv8>, at: nat, len: nat) returns (hash: bv32)
    requires at + len <= str.Length
    ensures hash == RsHash(str[at..at + len])
  {
    hide HashStep;
    var s := HashState(0, 63689);
    var i := 0;
    while i < len
      invariant 0 <= i <= len
      invariant s == HashRun(str[at..at + i])
    {
      s := HashStep(s, str[at + i]);
      i := i + 1;
      assert str[at..at + i][..i - 1] == str[at..at + i - 1];
    }
    hash := s.hash;
  }

  /** Sums and products modulo 2^32. They have names so that proofs can treat them as ring operations. */
  function Plus(x: bv32, y: bv32): bv32 { x + y }

  function Times(x: bv32, y: bv32): bv32 { x * y }

  /** The multiplier a in turn j. */
  function Multiplier(j: nat): bv32 {
    if j == 0 then 63689 else Times(Multiplier(j - 1), 378551)
  }

  /** The product of the multipliers of the turns from i to n - 1. */
  function Multipliers(i: nat, n: nat): bv32
    decreases n
  {
    if n <= i then 1 else Times(Multipliers(i, n - 1), Multiplier(n - 1))
  }

  /** The sum of the first k characters, each times the multipliers of the turns after its own, of n turns. */
  function HashSum(str: seq<bv8>, k: nat, n: nat): bv32
    requires k <= |str|
  {
    if k == 0 then 0 else Plus(HashSum(str, k - 1, n), Times(SignExtend(str[k - 1]), Multipliers(k, n)))
  }

  lemma {:induction false} RawRing(x: bv32, y: bv32, z: bv32)
    ensures x * (y * z) == (x * y) * z && (x + y) * z == x * z + y * z && x * 1 == x && 0 * x == 0
  {
  }

  lemma {:induction false} Ring(x: bv32, y: bv32, z: bv32)
    ensures Times(x, Times(y, z)) == Times(Times(x, y), z) && Times(Plus(x, y), z) == Plus(Times(x, z), Times(y, z))
    ensures Times(x, 1) == x && Times(0, x) == 0
  {
    RawRing(x, y, z);
  }

  lemma {:induction false} HashSumTurn(str: seq<bv8>, k: nat, n: nat)
    requires k <= |str| && k <= n
    ensures HashSum(str, k, n + 1) == Times(HashSum(str, k, n), Multiplier(n))
  {
    hide SignExtend, Multiplier, Plus, Times;
    if k == 0 {
      Ring(Multiplier(n), 0, 0);
    } else {
      HashSumTurn(str, k - 1, n);
      Ring(SignExtend(str[k - 1]), Multipliers(k, n), Multiplier(n));
      Ring(HashSum(str, k - 1, n), Times(SignExtend(str[k - 1]), Multipliers(k, n)), Multiplier(n));
    }
  }

  lemma {:induction false} HashSumPrefix(str: seq<bv8>, str': seq<bv8>, k: nat, n: nat)
    requires k <= |str| && str <= str'
    ensures HashSum(str', k, n) == HashSum(str, k, n)
  {
    hide SignExtend, Multipliers, Plus, Times;
    if k > 0 {
      HashSumPrefix(str, str', k - 1, n);
    }
  }

  /** RSHash in closed form. */
  lemma {:induction false} RsHashIsSum(str: seq<bv8>)
    ensures RsHash(str) == HashSum(str, |str|, |str|) && HashRun(str).a == Multiplier(|str|)
  {
    hide SignExtend, Plus, Times;
    if str != [] {
      var n := |str| - 1;
      RsHashIsSum(str[..n]);
      HashSumPrefix(str[..n], str, n, n);
      HashSumTurn(str, n, n);
      Ring(SignExtend(str[n]), 0, 0);
    }
  }

  // ---------------------------------------------------------------- network integers

  /** nint32::operator=: the bytes of htonl(v). */
  function Put32(v: bv32): (r: seq<bv8>)
    ensures |r| == 4
  {
    [((v >> 24) & 0xff) as bv8, ((v >> 16) & 0xff) as bv8, ((v >> 8) & 0xff) as bv8, (v & 0xff) as bv8]
  }

  /** nint32::operator(), as an unsigned value. */
  function Get32(a: bv8, b: bv8, c: bv8, d: bv8): bv32 {
    ((a as bv32) << 24) | ((b as bv32) << 16) | ((c as bv32) << 8) | (d as bv32)
  }

  lemma {:induction false} GetPut(v: bv32)
    ensures Get32(Put32(v)[0], Put32(v)[1], Put32(v)[2], Put32(v)[3]) == v
  {
  }

  lemma {:induction false} PutGet(a: bv8, b: bv8, c: bv8, d: bv8)
    ensures Put32(Get32(a, b, c, d)) == [a, b, c, d]
  {
  }

  // ---------------------------------------------------------------- packets

  const PLAIN: bv8 := 0x66
  const SEALED: bv8 := 0x74

  /** The bytes f stored at offset at. */
  function Store(p: seq<bv8>, at: nat, f: seq<bv8>): seq<bv8>
    requires at + |f| <= |p|
  {
    p[..at] + f + p[at + |f|..]
  }

  function Load(p: seq<bv8>, at: nat): bv32
    requires at + 4 <= |p|
  {
    Get32(p[at], p[at + 1], p[at + 2], p[at + 3])
  }

  /** The packet with its length and hash filled in. */
  function Stamped(l: Layout, p: seq<bv8>): (r: seq<bv8>)
    requires PacketOf(l, p)
    ensures |r| == |p|
  {
    Store(Store(p, l.Len(), Put32(l.span)), l.Hash(), Put32(RsHash(p[l.Body()..l.end])))
  }

  lemma {:induction false} StampedMeans(l: Layout, p: seq<bv8>)
    requires PacketOf(l, p)
    ensures |Stamped(l, p)| == |p|
    ensures forall k :: 0 <= k < |p| && !(l.Len() <= k < l.Body()) ==> Stamped(l, p)[k] == p[k]
    ensures Stamped(l, p)[l.Len()..l.Hash()] == Put32(l.span)
    ensures Stamped(l, p)[l.Hash()..l.Body()] == Put32(RsHash(p[l.Body()..l.end]))
  {
    hide RsHash;
    var len, hash := Put32(l.span), Put32(RsHash(p[l.Body()..l.end]));
    var s := Store(p, l.Len(), len);
    assert s[l.Len()..l.Hash()] == len;
    assert Store(s, l.Hash(), hash)[l.Len()..l.Hash()] == s[l.Len()..l.Hash()];
    assert Store(s, l.Hash(), hash)[l.Hash()..l.Body()] == hash;
  }

  /** s with its blocks from unique on replaced by m. */
  function Middle(l: Layout, s: seq<bv8>, m: seq<bv8>): (r: seq<bv8>)
    requires PacketOf(l, s) && |m| == l.Sealed() - l.unique
    ensures |r| == |s| && r[..l.unique] == s[..l.unique] && r[l.unique..l.Sealed()] == m && r[l.Sealed()..] == s[l.Sealed()..]
  {
    s[..l.unique] + m + s[l.Sealed()..]
  }

  function EncodePacket(l: Layout, key: Block, p: seq<bv8>): seq<bv8>
    requires PacketOf(l, p)
  {
    if p[0] == SEALED then p else
      var s := Stamped(l, p[0 := SEALED]);
      EcbLength(ExpandKey(key), s[l.unique..l.Sealed()]);
      Middle(l, s, EcbEncrypt(ExpandKey(key), s[l.unique..l.Sealed()]))
  }

  function Opened(l: Layout, key: Block, q: seq<bv8>): seq<bv8>
    requires PacketOf(l, q)
  {
    EcbLength(ExpandKey(key), q[l.unique..l.Sealed()]);
    Middle(l, q[0 := PLAIN], EcbDecrypt(ExpandKey(key), q[l.unique..l.Sealed()]))
  }

  /** The length is in bounds and the hash is that of the body. */
  ghost predicate Accepted(l: Layout, p: seq<bv8>)
    requires PacketOf(l, p)
  {
    var len := AsInt(Load(p, l.Len()));
    0 <= len <= l.end - l.Body() && Load(p, l.Hash()) == RsHash(p[l.Body()..l.Body() + len])
  }

  function Zeros(n: nat): seq<bv8> {
    seq(n, i => 0)
  }

  ghost function DecodePacket(l: Layout, key: Block, q: seq<bv8>): seq<bv8>
    requires PacketOf(l, q)
  {
    if q[0] != SEALED then q
    else if Accepted(l, Opened(l, key, q)) then Opened(l, key, q)
    else Zeros(l.size)
  }

  lemma {:induction false} OpenedEncoded(l: Layout, key: Block, p: seq<bv8>)
    requires PacketOf(l, p) && p[0] != SEALED
    ensures EncodePacket(l, key, p)[0] == SEALED
    ensures Opened(l, key, EncodePacket(l, key, p)) == Stamped(l, p[0 := PLAIN])
  {
    hide EcbEncrypt, EcbDecrypt, ExpandKey, Stamped, RsHash;
    StampedMeans(l, p[0 := SEALED]);
    StampedMeans(l, p[0 := PLAIN]);
    var s, q := Stamped(l, p[0 := SEALED]), EncodePacket(l, key, p);
    var mid := s[l.unique..l.Sealed()];
    EcbLength(ExpandKey(key), mid);
    EcbBack(ExpandKey(key), mid);
    assert q[0] == q[..l.unique][0] == s[0];
    assert Opened(l, key, q) == Middle(l, q[0 := PLAIN], mid);
    assert s[0 := PLAIN] == Stamped(l, p[0 := PLAIN]);
  }

  /** q is s with every block from unique on encrypted by itself. */
  ghost predicate BlocksEncrypted(l: Layout, key: Block, s: seq<bv8>, q: seq<bv8>)
    requires PacketOf(l, s)
  {
    && |q| == |s| && q[..l.unique] == s[..l.unique] && q[l.Sealed()..] == s[l.Sealed()..]
    && forall i: nat :: 16 * i + 16 <= l.Sealed() - l.unique ==>
         BlockAt(q[l.unique..l.Sealed()], i) == Encrypt(ExpandKey(key), BlockAt(s[l.unique..l.Sealed()], i))
  }

  /** What is sent: the stamped packet marked as sealed, encrypted block by block. */
  lemma {:induction false} EncodedBlocks(l: Layout, key: Block, p: seq<bv8>)
    requires PacketOf(l, p) && p[0] != SEALED
    ensures BlocksEncrypted(l, key, Stamped(l, p[0 := SEALED]), EncodePacket(l, key, p))
  {
    hide EcbEncrypt, Encrypt, ExpandKey, Stamped, BlockAt;
    StampedMeans(l, p[0 := SEALED]);
    var s := Stamped(l, p[0 := SEALED]);
    var mid := s[l.unique..l.Sealed()];
    EcbAllBlocks(ExpandKey(key), mid);
  }

  lemma {:induction false} EcbAllBlocks(w: Schedule, p: seq<bv8>)
    requires |p| % 16 == 0
    ensures |EcbEncrypt(w, p)| == |p|
    ensures forall i: nat :: 16 * i + 16 <= |p| ==> BlockAt(EcbEncrypt(w, p), i) == Encrypt(w, BlockAt(p, i))
  {
    hide *;
    EcbLength(w, p);
    forall i: nat | 16 * i + 16 <= |p| ensures BlockAt(EcbEncrypt(w, p), i) == Encrypt(w, BlockAt(p, i)) {
      EcbByBlock(w, p, i);
    }
  }

  /** Decoding what was encoded passes the check and gives the packet back, with its length and hash. */
  lemma {:induction false} RoundTrip(l: Layout, key: Block, p: seq<bv8>)
    requires PacketOf(l, p) && p[0] != SEALED
    ensures DecodePacket(l, key, EncodePacket(l, key, p)) == Stamped(l, p[0 := PLAIN])
  {
    hide EcbEncrypt, EcbDecrypt, ExpandKey, Stamped, RsHash, Get32, Put32, EncodePacket, Opened;
    OpenedEncoded(l, key, p);
    var o, body := Stamped(l, p[0 := PLAIN]), p[l.Body()..l.end];
    StampedMeans(l, p[0 := PLAIN]);
    GetPut(l.span);
    GetPut(RsHash(body));
    assert p[0 := PLAIN][l.Body()..l.end] == body == o[l.Body()..l.end];
    assert Load(o, l.Len()) == l.span;
    assert Load(o, l.Hash()) == RsHash(body);
  }

  /** Every byte but crypt, len and hash comes back. */
  lemma {:induction false} BytesComeBack(l: Layout, key: Block, p: seq<bv8>, r: seq<bv8>)
    requires PacketOf(l, p) && p[0] != SEALED
    requires r == DecodePacket(l, key, EncodePacket(l, key, p))
    ensures |r| == |p| && forall k :: 1 <= k < |p| && !(l.Len() <= k < l.Body()) ==> r[k] == p[k]
  {
    hide EncodePacket, Opened, Stamped, Accepted, DecodePacket;
    RoundTrip(l, key, p);
    StampedMeans(l, p[0 := PLAIN]);
  }

  lemma {:induction false} SameFields(l: Layout, s: seq<bv8>, p: seq<bv8>)
    requires PacketOf(l, p) && |s| == |p|
    requires forall k :: 0 <= k < |p| && !(l.Len() <= k < l.Body()) ==> s[k] == p[k]
    requires s[l.Len()..l.Hash()] == p[l.Len()..l.Hash()] && s[l.Hash()..l.Body()] == p[l.Hash()..l.Body()]
    ensures s == p
  {
    forall k | 0 <= k < |p| ensures s[k] == p[k] {
      if l.Len() <= k < l.Hash() {
        assert s[k] == s[l.Len()..l.Hash()][k - l.Len()];
      } else if l.Hash() <= k < l.Body() {
        assert s[k] == s[l.Hash()..l.Body()][k - l.Hash()];
      }
    }
  }

  lemma {:induction false} LoadPut(p: seq<bv8>, at: nat, v: bv32)
    requires at + 4 <= |p|
    ensures p[at..at + 4] == Put32(v) <==> Load(p, at) == v
  {
    hide Get32, Put32;
    GetPut(v);
    PutGet(p[at], p[at + 1], p[at + 2], p[at + 3]);
    assert p[at..at + 4] == [p[at], p[at + 1], p[at + 2], p[at + 3]];
  }

  /** A stamp that is already right is not changed by stamping, and only such a stamp. */
  lemma {:induction false} StampAgain(l: Layout, p: seq<bv8>)
    requires PacketOf(l, p) && Accepted(l, p)
    ensures Stamped(l, p) == p <==> Load(p, l.Len()) == l.span
  {
    hide RsHash, Load, Put32, Stamped;
    StampedMeans(l, p);
    LoadPut(p, l.Len(), l.span);
    if Load(p, l.Len()) == l.span {
      LoadPut(p, l.Hash(), RsHash(p[l.Body()..l.end]));
      SameFields(l, Stamped(l, p), p);
    }
  }

  lemma {:induction false} EncodedOpened(l: Layout, key: Block, q: seq<bv8>)
    requires PacketOf(l, q) && q[0] == SEALED
    requires Stamped(l, Opened(l, key, q)) == Opened(l, key, q)
    ensures EncodePacket(l, key, Opened(l, key, q)) == q
  {
    hide EcbEncrypt, EcbDecrypt, ExpandKey, Stamped, RsHash;
    var d := Opened(l, key, q);
    StampedMeans(l, d);
    StampedMeans(l, d[0 := SEALED]);
    assert d[0] == d[..l.unique][0] == PLAIN;
    assert d[0 := SEALED][l.Body()..l.end] == d[l.Body()..l.end];
    assert Stamped(l, d[0 := SEALED]) == d[0 := SEALED] by {
      var s, e := Stamped(l, d[0 := SEALED]), d[0 := SEALED];
      assert e[l.Len()..l.Hash()] == d[l.Len()..l.Hash()] && e[l.Hash()..l.Body()] == d[l.Hash()..l.Body()];
      SameFields(l, s, e);
    }
    var mid := q[l.unique..l.Sealed()];
    EcbLength(ExpandKey(key), mid);
    EcbBack(ExpandKey(key), mid);
    assert d[0 := SEALED][l.unique..l.Sealed()] == EcbDecrypt(ExpandKey(key), mid);
    assert d[0 := SEALED][..l.unique] == q[..l.unique];
    assert q == q[..l.unique] + mid + q[l.Sealed()..];
  }

  /** An accepted packet encodes to what was received exactly when its length was that of the structure:
      the check itself also passes a shorter length, with the hash of that much of the body. */
  lemma {:induction false} EncodeDecoded(l: Layout, key: Block, q: seq<bv8>)
    requires PacketOf(l, q) && q[0] == SEALED && Accepted(l, Opened(l, key, q))
    ensures EncodePacket(l, key, DecodePacket(l, key, q)) == q <==> Load(Opened(l, key, q), l.Len()) == l.span
  {
    hide EcbEncrypt, EcbDecrypt, ExpandKey, Stamped, RsHash, Load, EncodePacket;
    var d := Opened(l, key, q);
    assert d[0] == d[..l.unique][0] == PLAIN;
    StampAgain(l, d);
    if Stamped(l, d) == d {
      EncodedOpened(l, key, q);
    } else {
      OpenedEncoded(l, key, d);
      assert d[0 := PLAIN] == d;
    }
  }

  // ---------------------------------------------------------------- the functions of crypt.hpp

  /** Assignment to an nint32 field. */
  method PutInt(data: array<bv8>, at: nat, v: bv32)
    requires at + 4 <= data.Length
    modifies data
    ensures data[..] == Store(old(data[..]), at, Put32(v))
  {
    data[at], data[at + 1], data[at + 2], data[at + 3] := Put32(v)[0], Put32(v)[1], Put32(v)[2], Put32(v)[3];
  }

  lemma {:induction false} StoreBefore(p: seq<bv8>, at: nat, f: seq<bv8>, lo: nat, hi: nat)
    requires at + |f| <= lo <= hi <= |p|
    ensures Store(p, at, f)[lo..hi] == p[lo..hi]
  {
  }

  method Stamp(data: array<bv8>, l: Layout)
    requires PacketOf(l, data[..])
    modifies data
    ensures data[..] == Stamped(l, old(data[..]))
  {
    hide RsHash, Put32;
    ghost var p := data[..];
    PutInt(data, l.Len(), l.span);
    ghost var s := data[..];
    var hash := RSHash(data, l.Body(), l.end - l.Body());
    assert hash == RsHash(s[l.Body()..l.end]);
    StoreBefore(p, l.Len(), Put32(l.span), l.Body(), l.end);
    PutInt(data, l.Hash(), hash);
  }

  /** The bytes from at up to here are transformed, and none of the others. */
  ghost predicate Done(v: seq<bv8>, s: seq<bv8>, m: seq<bv8>, at: nat, here: nat) {
    && at <= here <= |s| == |v|
    && v[..at] == s[..at] && v[at..here] == m && v[here..] == s[here..]
  }

  lemma {:induction false} DoneStep(v: seq<bv8>, v': seq<bv8>, s: seq<bv8>, m: seq<bv8>, e: seq<bv8>, at: nat, here: nat)
    requires Done(v, s, m, at, here) && here + 16 <= |s| && |v'| == |v| && v'[here..here + 16] == e
    requires forall k :: 0 <= k < |v| && !(here <= k < here + 16) ==> v'[k] == v[k]
    ensures Done(v', s, m + e, at, here + 16)
    ensures s[at..here] + v[here..here + 16] == s[at..here + 16]
  {
    assert v'[at..here] == v[at..here];
    assert v'[at..here + 16] == v'[at..here] + e;
    assert v'[here + 16..] == v[here..][16..];
    assert v[here..here + 16] == v[here..][..16] == s[here..][..16] == s[here..here + 16];
  }

  lemma {:induction false} DoneNothing(s: seq<bv8>, at: nat)
    requires at <= |s|
    ensures Done(s, s, [], at, at)
  {
  }

  method EncryptBlock(ctx: Aes.Context, data: array<bv8>, here: nat, key: array<bv8>, buf: array<bv8>)
    requires here + 16 <= data.Length && key.Length >= 16 && ctx.roundKey.Length == 176 && buf.Length == 16
    requires data != key && data != ctx.roundKey && key != ctx.roundKey && buf != data && buf != key && buf != ctx.roundKey
    modifies data, ctx.roundKey, buf
    ensures Aes.View(data, here) == AesCipher.Encrypt(ExpandKey(key[..16]), old(Aes.View(data, here)))
    ensures Aes.OthersKept(data, here)
  {
    hide ExpandKey, AesCipher.Encrypt;
    ctx.EcbEncrypt(data, here, key, buf, 0);
    Aes.BlockCopy(data, here, buf, 0);
  }

  method EncryptTurn(ctx: Aes.Context, data: array<bv8>, here: nat, key: array<bv8>, buf: array<bv8>,
                     ghost s: seq<bv8>, ghost at: nat)
    requires here + 16 <= data.Length && key.Length >= 16 && ctx.roundKey.Length == 176 && buf.Length == 16
    requires data != key && data != ctx.roundKey && key != ctx.roundKey && buf != data && buf != key && buf != ctx.roundKey
    requires at <= here <= |s| == data.Length && (here - at) % 16 == 0
    requires Done(data[..], s, EcbEncrypt(ExpandKey(key[..16]), s[at..here]), at, here)
    modifies data, ctx.roundKey, buf
    ensures Done(data[..], s, EcbEncrypt(ExpandKey(key[..16]), s[at..here + 16]), at, here + 16)
  {
    hide EcbEncrypt, ExpandKey, AesCipher.Encrypt, Done;
    ghost var v: seq<bv8>, w: Schedule := data[..], ExpandKey(key[..16]);
    EncryptBlock(ctx, data, here, key, buf);
    DoneStep(v, data[..], s, EcbEncrypt(w, s[at..here]), Aes.View(data, here), at, here);
    EcbSnoc(w, s[at..here], v[here..here + 16]);
  }

  /** The loop over the blocks, of which the last may reach into the end chunk. */
  method EncryptBlocks(ctx: Aes.Context, data: array<bv8>, at: nat, end: nat, ghost blocks: nat, key: array<bv8>)
    requires at + 16 * blocks - 16 < end <= at + 16 * blocks <= data.Length
    requires key.Length >= 16 && ctx.roundKey.Length == 176
    requires data != key && data != ctx.roundKey && key != ctx.roundKey
    modifies data, ctx.roundKey
    ensures Done(data[..], old(data[..]), EcbEncrypt(ExpandKey(key[..16]), old(data[at..at + 16 * blocks])), at, at + 16 * blocks)
  {
    hide EcbEncrypt, ExpandKey, AesCipher.Encrypt, Done;
    ghost var s: seq<bv8>, w: Schedule, n: nat := data[..], ExpandKey(key[..16]), 0;
    var buf := new bv8[16];
    var here := at;
    EcbNothing(w);
    DoneNothing(s, at);
    assert s[at..at] == [];
    while here < end
      invariant here == at + 16 * n && n <= blocks
      invariant w == ExpandKey(key[..16])
      invariant data.Length == |s|
      invariant Done(data[..], s, EcbEncrypt(w, s[at..here]), at, here)
    {
      EncryptTurn(ctx, data, here, key, buf, s, at);
      here, n := here + 16, n + 1;
    }
  }

  method DecryptBlock(ctx: Aes.Context, data: array<bv8>, here: nat, key: array<bv8>, buf: array<bv8>)
    requires here + 16 <= data.Length && key.Length >= 16 && ctx.roundKey.Length == 176 && buf.Length == 16
    requires data != key && data != ctx.roundKey && key != ctx.roundKey && buf != data && buf != key && buf != ctx.roundKey
    modifies data, ctx.roundKey, buf
    ensures Aes.View(data, here) == AesCipher.Decrypt(ExpandKey(key[..16]), old(Aes.View(data, here)))
    ensures Aes.OthersKept(data, here)
  {
    hide ExpandKey, AesCipher.Decrypt;
    ctx.EcbDecrypt(data, here, key, buf, 0);
    Aes.BlockCopy(data, here, buf, 0);
  }

  method DecryptTurn(ctx: Aes.Context, data: array<bv8>, here: nat, key: array<bv8>, buf: array<bv8>,
                     ghost s: seq<bv8>, ghost at: nat)
    requires here + 16 <= data.Length && key.Length >= 16 && ctx.roundKey.Length == 176 && buf.Length == 16
    requires data != key && data != ctx.roundKey && key != ctx.roundKey && buf != data && buf != key && buf != ctx.roundKey
    requires at <= here <= |s| == data.Length && (here - at) % 16 == 0
    requires Done(data[..], s, EcbDecrypt(ExpandKey(key[..16]), s[at..here]), at, here)
    modifies data, ctx.roundKey, buf
    ensures Done(data[..], s, EcbDecrypt(ExpandKey(key[..16]), s[at..here + 16]), at, here + 16)
  {
    hide EcbDecrypt, ExpandKey, AesCipher.Decrypt, Done;
    ghost var v: seq<bv8>, w: Schedule := data[..], ExpandKey(key[..16]);
    DecryptBlock(ctx, data, here, key, buf);
    DoneStep(v, data[..], s, EcbDecrypt(w, s[at..here]), Aes.View(data, here), at, here);
    EcbSnoc(w, s[at..here], v[here..here + 16]);
  }

  /** The loop over the blocks, of which the last may reach into the end chunk. */
  method DecryptBlocks(ctx: Aes.Context, data: array<bv8>, at: nat, end: nat, ghost blocks: nat, key: array<bv8>)
    requires at + 16 * blocks - 16 < end <= at + 16 * blocks <= data.Length
    requires key.Length >= 16 && ctx.roundKey.Length == 176
    requires data != key && data != ctx.roundKey && key != ctx.roundKey
    modifies data, ctx.roundKey
    ensures Done(data[..], old(data[..]), EcbDecrypt(ExpandKey(key[..16]), old(data[at..at + 16 * blocks])), at, at + 16 * blocks)
  {
    hide EcbDecrypt, ExpandKey, AesCipher.Decrypt, Done;
    ghost var s: seq<bv8>, w: Schedule, n: nat := data[..], ExpandKey(key[..16]), 0;
    var buf := new bv8[16];
    var here := at;
    EcbNothing(w);
    DoneNothing(s, at);
    assert s[at..at] == [];
    while here < end
      invariant here == at + 16 * n && n <= blocks
      invariant w == ExpandKey(key[..16])
      invariant data.Length == |s|
      invariant Done(data[..], s, EcbDecrypt(w, s[at..here]), at, here)
    {
      DecryptTurn(ctx, data, here, key, buf, s, at);
      here, n := here + 16, n + 1;
    }
  }

  lemma {:induction false} EcbNothing(w: Schedule)
    ensures EcbEncrypt(w, []) == EcbDecrypt(w, []) == []
  {
  }

  lemma {:induction false} DoneIsMiddle(l: Layout, v: seq<bv8>, s: seq<bv8>, m: seq<bv8>)
    requires PacketOf(l, s) && Done(v, s, m, l.unique, l.Sealed())
    ensures |m| == l.Sealed() - l.unique && v == Middle(l, s, m)
  {
    assert v == v[..l.unique] + v[l.unique..l.Sealed()] + v[l.Sealed()..];
  }

  /** crypt_encode */
  method CryptEncode(ctx: Aes.Context, data: array<bv8>, l: Layout, key: array<bv8>)
    requires PacketOf(l, data[..]) && key.Length >= 16 && ctx.roundKey.Length == 176
    requires data != key && data != ctx.roundKey && key != ctx.roundKey
    modifies data, ctx.roundKey
    ensures data[..] == EncodePacket(l, key[..16], old(data[..]))
  {
    hide EcbEncrypt, ExpandKey, Stamped, Done, AsInt;
    ghost var p := data[..];
    if data[0] == SEALED {
      return;
    }
    data[0] := SEALED;
    assert data[..] == p[0 := SEALED];
    Stamp(data, l);
    StampedMeans(l, p[0 := SEALED]);
    ghost var s := data[..];
    EncryptBlocks(ctx, data, l.unique, l.end, (l.end - l.unique + 15) / 16, key);
    DoneIsMiddle(l, data[..], s, EcbEncrypt(ExpandKey(key[..16]), s[l.unique..l.Sealed()]));
  }

  method GetInt(data: array<bv8>, at: nat) returns (v: bv32)
    requires at + 4 <= data.Length
    ensures v == Load(data[..], at)
  {
    v := Get32(data[at], data[at + 1], data[at + 2], data[at + 3]);
  }

  method Bzero(data: array<bv8>)
    modifies data
    ensures data[..] == Zeros(data.Length)
  {
    var i := 0;
    while i < data.Length
      invariant 0 <= i <= data.Length
      invariant forall k :: 0 <= k < i ==> data[k] == 0
    {
      data[i] := 0;
      i := i + 1;
    }
  }

  /** The check of crypt_decode on the decrypted packet. */
  method Check(data: array<bv8>, l: Layout) returns (ok: bool)
    requires PacketOf(l, data[..])
    ensures ok <==> Accepted(l, data[..])
  {
    hide Load, RsHash, AsInt;
    var hashD := GetInt(data, l.Hash());
    var word := GetInt(data, l.Len());
    var len := AsInt(word);
    if l.end - l.Body() < len || len < 0 {
      return false;
    }
    var hash := RSHash(data, l.Body(), len);
    ok := hashD == hash;
    assert data[..][l.Body()..l.Body() + len] == data[l.Body()..l.Body() + len];
  }

  /** crypt_decode */
  method CryptDecode(ctx: Aes.Context, data: array<bv8>, l: Layout, key: array<bv8>)
    requires PacketOf(l, data[..]) && key.Length >= 16 && ctx.roundKey.Length == 176
    requires data != key && data != ctx.roundKey && key != ctx.roundKey
    modifies data, ctx.roundKey
    ensures data[..] == DecodePacket(l, key[..16], old(data[..]))
  {
    hide EcbDecrypt, ExpandKey, Accepted, Done, Zeros, AsInt;
    ghost var q := data[..];
    if data[0] != SEALED {
      return;
    }
    data[0] := PLAIN;
    ghost var s := data[..];
    assert s == q[0 := PLAIN] && s[l.unique..l.Sealed()] == q[l.unique..l.Sealed()];
    DecryptBlocks(ctx, data, l.unique, l.end, (l.end - l.unique + 15) / 16, key);
    DoneIsMiddle(l, data[..], s, EcbDecrypt(ExpandKey(key[..16]), q[l.unique..l.Sealed()]));
    assert data[..] == Opened(l, key[..16], q);
    var ok := Check(data, l);
    if !ok {
      Bzero(data);
    }
  }
}
