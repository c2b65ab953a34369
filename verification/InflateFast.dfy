/** inflate_fast: the decoding loop for when input and output are ample, core/zlib/inffast.c.
    It reads without checking for input, copies without checking for space, and gives back
    the bytes it read too many. */
module InflateFast {
  import opened Arith
  import opened BitReverse
  import opened BitInput
  import opened Lz77
  import opened InflateTable
  import opened HuffmanLookup
  import opened InflateSpec
  import opened InflateCopy

  datatype Mode = LEN | TYPE | BAD

  /** The locals in, hold and bits: bytes taken so far and the bit accumulator. */
  datatype Bits = Bits(at: nat, hold: nat, bits: nat) {
    /** hold is made of the next bits of the input and fits in 32 of them. */
    ghost predicate Ok(data: seq<octet>) {
      HoldOk(data, at, hold, bits) && bits <= 32
    }

    /** The number of bits consumed. */
    ghost function Pos(): nat { if bits <= 8 * at then 8 * at - bits else 0 }
  }

  lemma HoldFits(data: seq<octet>, r: Bits)
    requires r.Ok(data)
    ensures r.hold < Pow2(32)
  {
    Pow2Mono(r.bits, 32);
  }

  /** hold += (unsigned long)(*in++) << bits; bits += 8; */
  method Pull(data: seq<octet>, r: Bits) returns (q: Bits)
    requires r.Ok(data) && r.at < |data| && r.bits <= 24
    ensures q.Ok(data) && q.at == r.at + 1 && q.bits == r.bits + 8 && q.Pos() == r.Pos()
  {
    hide HoldOk;
    assert r.at < |data|;
    PullOk(data, r.at, r.hold, r.bits);
    q := Bits(r.at + 1, r.hold + Shl(data[r.at], r.bits), r.bits + 8);
  }

  /** hold >>= k; bits -= k; */
  method Drop(ghost data: seq<octet>, r: Bits, k: nat) returns (q: Bits)
    requires r.Ok(data) && k <= r.bits
    ensures q.Ok(data) && q.at == r.at && q.bits == r.bits - k && q.hold == Shr(r.hold, k)
    ensures q.Pos() == r.Pos() + k
  {
    DropOk(data, r.at, r.hold, r.bits, k);
    q := Bits(r.at, Shr(r.hold, k), r.bits - k);
  }

  /** The accumulator is enough to look a code up. */
  lemma LookHold(table: seq<Code>, root: nat, kind: CodeType, data: seq<octet>, r: Bits)
    requires Good(table, root, kind) && r.Ok(data) && Look(table, root, Rest(data, r.Pos())).1 <= r.bits
    ensures Look(table, root, r.hold) == Look(table, root, Rest(data, r.Pos()))
  {
    hide Look, Low, Rest, Shape, EntryOk;
    var x := Rest(data, r.Pos());
    PeekOk(data, r.at, r.hold, r.bits, Look(table, root, x).1);
    assert PrefixOk(table, root, x, r.hold);
  }

  /** op & 16, op & 32, op & 64 */
  predicate Has16(op: uch) { op % 32 >= 16 }
  predicate Has32(op: uch) { op % 64 >= 32 }
  predicate Has64(op: uch) { op % 128 >= 64 }

  /** op & 15 */
  function Low4(op: uch): nat { op % 16 }

  lemma Low4Base(e: Code)
    requires IsBase(e)
    ensures Low4(e.op) == e.op - 16
  {
  }

  /** The tests on op tell the kinds of entries apart. */
  lemma OpTests(kind: CodeType, e: Code)
    requires IsLink(e) || EntryOk(kind, e)
    ensures IsLink(e) <==> e.op != 0 && !Has16(e.op) && !Has64(e.op)
    ensures IsBase(e) <==> Has16(e.op)
    ensures Has32(e.op) <==> e.op == 96
    ensures Has64(e.op) <==> e.op >= 64
  {
  }

  /** From `here = lcode[hold & lmask]` to the entry that is not a link. */
  method FastCode(table: seq<Code>, root: nat, ghost kind: CodeType, data: seq<octet>, r: Bits)
    returns (here: Code, q: Bits)
    requires Good(table, root, kind) && r.Ok(data) && r.bits >= 15
    ensures here == Look(table, root, Rest(data, r.Pos())).0 && EntryOk(kind, here)
    ensures q.Ok(data) && q.at == r.at && q.bits == r.bits - Look(table, root, Rest(data, r.Pos())).1
    ensures q.Pos() == r.Pos() + Look(table, root, Rest(data, r.Pos())).1
  {
    hide Low, Rest, EntryOk, HoldOk, Shr;
    assert LookOk(table, root, kind, Rest(data, r.Pos()));
    LookHold(table, root, kind, data, r);
    here := table[Low(r.hold, root)];
    assert RootEntryOk(table, root, here);
    q := Drop(data, r, here.bits);
    OpTests(kind, here);
    if here.op != 0 && !Has16(here.op) && !Has64(here.op) {
      here := table[here.val + Low(q.hold, here.op)];
      q := Drop(data, q, here.bits);
    }
  }

  /** if (bits < 15), two more bytes. */
  method Refill(data: seq<octet>, r: Bits) returns (q: Bits)
    requires r.Ok(data) && (r.bits < 15 ==> r.at + 2 <= |data|)
    ensures q.Ok(data) && q.Pos() == r.Pos() && q.bits >= 15
    ensures if r.bits < 15 then q.at == r.at + 2 && q.bits == r.bits + 16 else q == r
  {
    hide HoldOk;
    q := r;
    if q.bits < 15 {
      q := Pull(data, q);
      q := Pull(data, q);
    }
  }

  /** Refills and looks the next code up. */
  method NextCode(table: seq<Code>, root: nat, ghost kind: CodeType, data: seq<octet>, r: Bits)
    returns (here: Code, q: Bits)
    requires Good(table, root, kind) && r.Ok(data) && r.bits <= 30 && (r.bits < 15 ==> r.at + 2 <= |data|)
    ensures here == Look(table, root, Rest(data, r.Pos())).0 && EntryOk(kind, here)
    ensures q.Ok(data) && q.Pos() == r.Pos() + Look(table, root, Rest(data, r.Pos())).1 && q.bits <= 30
    ensures if r.bits < 15 then q.at == r.at + 2 && q.bits > r.bits else q.at == r.at
  {
    assert LookOk(table, root, kind, Rest(data, r.Pos()));
    hide Look, Low, Rest, EntryOk, HoldOk, Shr, Good;
    q := Refill(data, r);
    here, q := FastCode(table, root, kind, data, q);
  }

  /** if (bits < op), one more byte; and once more for the extra bits of a distance. */
  method Need(data: seq<octet>, r: Bits, op: nat) returns (q: Bits)
    requires r.Ok(data) && op <= 16
    requires r.bits < op ==> r.at < |data|
    requires r.bits + 8 < op ==> r.at + 1 < |data|
    ensures q.Ok(data) && q.Pos() == r.Pos() && q.bits >= op
    ensures if op <= r.bits then q == r
            else if op <= r.bits + 8 then q.at == r.at + 1 && q.bits == r.bits + 8
            else q.at == r.at + 2 && q.bits == r.bits + 16
  {
    hide HoldOk;
    q := r;
    if q.bits < op {
      q := Pull(data, q);
      if q.bits < op {
        q := Pull(data, q);
      }
    }
  }

  /** Adds the op extra bits to a base. */
  method Extra(data: seq<octet>, here: Code, r: Bits) returns (value: nat, q: Bits)
    requires IsBase(here) && r.Ok(data) && here.op - 16 <= r.bits
    ensures value == Base(here, Rest(data, r.Pos()))
    ensures q.Ok(data) && q.Pos() == r.Pos() + (here.op - 16) && q.at == r.at && q.bits == r.bits - (here.op - 16)
  {
    Low4Base(here);
    hide Low, Rest, Shr, Low4;
    PeekOk(data, r.at, r.hold, r.bits, Low4(here.op));
    value := here.val + Low(r.hold, Low4(here.op));
    q := Drop(data, r, Low4(here.op));
  }

  /** How many bytes a distance may take when so many bits are at hand. */
  function DistanceBytes(bits: nat): nat { if bits < 4 then 4 else if bits < 15 then 3 else 2 }

  /** The bits of a distance, counted in the input. */
  lemma EventOfDistance(s: Block, p: nat, len: nat)
    requires s.Ok()
    ensures var (e, b) := Look(s.distcode, s.distbits, Rest(s.data, p));
            DistanceAt(s, Rest(s.data, p), len)
            == if IsBase(e) then (Copy(len, Base(e, Rest(s.data, p + b))), b + (e.op - 16)) else (BadDistance, b)
  {
    RestAdd(s.data, p, Look(s.distcode, s.distbits, Rest(s.data, p)).1);
  }

  /** From the distance code to the complete distance. */
  method FastDistance(s: Block, len: nat, r: Bits) returns (v: Event, q: Bits)
    requires s.Ok() && r.Ok(s.data) && r.bits <= 30
    requires r.at + DistanceBytes(r.bits) <= |s.data|
    ensures (v, q.Pos() - r.Pos()) == DistanceAt(s, Rest(s.data, r.Pos()), len) && q.Ok(s.data)
    ensures r.at <= q.at <= r.at + DistanceBytes(r.bits) && q.bits <= 30
  {
    ghost var x := Rest(s.data, r.Pos());
    DistRange(s, x);
    EventOfDistance(s, r.Pos(), len);
    hide Low4, Bits.Ok, Has16, Has32, Has64, Look, Low, Rest, Shr, HoldOk, EntryOk, Good, Base, DistanceAt;
    var here;
    here, q := NextCode(s.distcode, s.distbits, DISTS, s.data, r);
    OpTests(DISTS, here);
    if Has16(here.op) {
      Low4Base(here);
      q := Need(s.data, q, Low4(here.op));
      var dist;
      dist, q := Extra(s.data, here, q);
      v := Copy(len, dist);
    } else {
      v := BadDistance;
    }
  }

  /** How many bytes a match may still take after its length code. */
  function MatchBytes(bits: nat): nat { if bits < 1 then 5 else 4 }

  /** The extra bits of a length, and the distance. */
  method FastMatch(s: Block, here: Code, r: Bits) returns (v: Event, q: Bits)
    requires s.Ok() && r.Ok(s.data) && r.bits <= 30 && IsBase(here) && here.op <= 21
    requires r.at + MatchBytes(r.bits) <= |s.data|
    ensures var x := Rest(s.data, r.Pos()); var op := here.op - 16;
            q.Pos() >= r.Pos() + op &&
            (v, q.Pos() - r.Pos() - op) == DistanceAt(s, Shr(x, op), Base(here, x))
    ensures q.Ok(s.data) && r.at <= q.at <= r.at + MatchBytes(r.bits) && q.bits <= 30
  {
    hide Low4, Low, Rest, Shr, HoldOk, Block.Ok, Base, DistanceAt;
    Low4Base(here);
    q := Need(s.data, r, Low4(here.op));
    var len;
    len, q := Extra(s.data, here, q);
    RestAdd(s.data, r.Pos(), here.op - 16);
    v, q := FastDistance(s, len, q);
  }

  /** The bits of a match, counted in the input. */
  lemma EventOfMatch(s: Block, p: nat)
    requires s.Ok() && IsBase(Look(s.lencode, s.lenbits, Rest(s.data, p)).0)
    ensures var (e, b) := Look(s.lencode, s.lenbits, Rest(s.data, p));
            var y := Rest(s.data, p + b); var op := e.op - 16;
            var (v, c) := DistanceAt(s, Shr(y, op), Base(e, y));
            EventAt(s, Rest(s.data, p)) == (v, b + op + c)
  {
    var (e, b) := Look(s.lencode, s.lenbits, Rest(s.data, p));
    hide Look, Low, Rest, Shr, Good, Base, DistanceAt;
    RestAdd(s.data, p, b);
    RestAdd(s.data, p, b + (e.op - 16));
    RestAdd(s.data, p + b, e.op - 16);
  }

  lemma EventOfSymbol(s: Block, x: nat)
    requires s.Ok() && !IsBase(Look(s.lencode, s.lenbits, x).0)
    ensures var (e, b) := Look(s.lencode, s.lenbits, x);
            EventAt(s, x) == (if e.op == 0 && e.val < 256 then Byte(e.val) else if e.op == 96 then EndOfBlock else BadCode, b)
  {
  }

  /** One literal, match or end of block: at most six bytes are read. */
  method FastEvent(s: Block, r: Bits) returns (v: Event, q: Bits)
    requires s.Ok() && r.Ok(s.data) && r.bits <= 30 && r.at + 6 <= |s.data|
    ensures (v, q.Pos() - r.Pos()) == EventAt(s, Rest(s.data, r.Pos()))
    ensures q.Ok(s.data) && r.at <= q.at <= r.at + 6 && q.bits <= 30
  {
    ghost var x := Rest(s.data, r.Pos());
    LenRange(s, x);
    if !IsBase(Look(s.lencode, s.lenbits, x).0) { EventOfSymbol(s, x); }
    hide Low4, Bits.Ok, Has16, Has32, Has64, Look, Low, Rest, Shr, HoldOk, EntryOk, Good, Base, DistanceAt, EventAt;
    var here;
    here, q := NextCode(s.lencode, s.lenbits, LENS, s.data, r);
    OpTests(LENS, here);
    if here.op == 0 {
      v := Byte(here.val);
    } else if Has16(here.op) {
      EventOfMatch(s, r.Pos());
      v, q := FastMatch(s, here, q);
    } else if Has32(here.op) {
      v := EndOfBlock;
    } else {
      v := BadCode;
    }
  }

  /** Where decoding stopped: at the end of the block, or at something invalid. */
  ghost predicate Stopped(s: Block, p: nat, hist: seq<octet>, q: nat, mode: Mode)
    requires s.Ok()
  {
    var (v, b) := EventAt(s, Rest(s.data, p));
    && q == p + b && mode != LEN && Step(s, p, hist).None?
    && (mode == TYPE <==> v.EndOfBlock?)
  }

  /** What inflate_fast is told about the window. Either the window is separate from the
      output and holds whave bytes, as inflate keeps it; or it is the output, as for inflateBack. */
  ghost predicate Setting(s: Block, out: array<octet>, window: array<octet>, wsize: nat, whave: nat, whist: seq<octet>) {
    if window == out then s.limit <= wsize && (whist == [] || whave == wsize)
    else whave == |whist| && s.limit >= 32768
  }

  /** One turn of the loop. */
  method Turn(s: Block, out: array<octet>, window: array<octet>, wsize: nat, wnext: nat, whave: nat, sane: bool,
              ghost whist: seq<octet>, put: nat, r: Bits) returns (put': nat, q: Bits, mode: Mode)
    requires s.Ok() && r.Ok(s.data) && r.bits <= 30 && r.at + 6 <= |s.data|
    requires put + 258 <= out.Length && WindowOk(out, window, wsize, wnext, whist, put)
    requires Setting(s, out, window, wsize, whave, whist)
    requires !sane || window == out ==> NearEnough(s, (r.Pos(), Hist(whist, out, put)))
    modifies out
    ensures r.at <= q.at <= r.at + 6 && put <= put' <= put + 258
    ensures q.Ok(s.data) && q.bits <= 30 && r.Pos() < q.Pos() && WindowOk(out, window, wsize, wnext, whist, put')
    ensures if mode == LEN then Step(s, r.Pos(), old(Hist(whist, out, put))) == Some((q.Pos(), Hist(whist, out, put')))
            else Hist(whist, out, put') == old(Hist(whist, out, put)) && Stopped(s, r.Pos(), old(Hist(whist, out, put)), q.Pos(), mode)
  {
    EventRanges(s, Rest(s.data, r.Pos()));
    hide Block.Ok, EventAt, Bits.Ok, HoldOk, Rest;
    ghost var h := Hist(whist, out, put);
    put', mode := put, LEN;
    var v;
    v, q := FastEvent(s, r);
    match v {
      case Byte(c) =>
        out[put] := c;
        put' := put + 1;
        assert Hist(whist, out, put') == h + [c];
      case Copy(len, dist) =>
        ghost var g := Job(wsize, wnext, whist, h, dist);
        if dist > put {
          if dist - put > whave && sane {
            mode := BAD;
            return;
          }
          put' := CopyFromWindow(out, window, g, wsize, wnext, put, len, dist);
        } else {
          put' := CopyByThree(out, window, g, put, out, put - dist, len);
        }
      case EndOfBlock =>
        mode := TYPE;
      case _ =>
        mode := BAD;
    }
  }

  /** in -= bits >> 3; bits &= 7; hold &= (1U << bits) - 1; */
  method ReturnUnused(data: seq<octet>, r: Bits) returns (q: Bits)
    requires r.Ok(data) && r.bits / 8 <= r.at
    ensures q.Ok(data) && q.Pos() == r.Pos() && q.bits < 8
  {
    var len := r.bits / 8;
    var bits := r.bits - 8 * len;
    ReturnOk(data, r.at, r.hold, r.bits, len);
    q := Bits(r.at - len, Low(r.hold, bits), bits);
  }

  /** The outcome of a number of turns. */
  ghost predicate Decoded(s: Block, p: nat, hist: seq<octet>, n: nat, q: nat, h: seq<octet>, mode: Mode)
    requires s.Ok()
  {
    Run(s, p, hist, n).Some? &&
    if mode == LEN then Run(s, p, hist, n).value == (q, h)
    else Run(s, p, hist, n).value.1 == h && Stopped(s, Run(s, p, hist, n).value.0, h, q, mode)
  }

  /** inflate_fast decodes whole events while at least 6 bytes of input and room for 258
      bytes of output are left. It consumes exactly their bits and produces exactly their
      bytes, never has `in` end up before the start or past the input it was given, and
      leaves less than 8 bits in hold. */
  method InflateFast(s: Block, out: array<octet>, window: array<octet>, wsize: nat, wnext: nat, whave: nat, sane: bool,
                     ghost whist: seq<octet>, put: nat, availIn: nat, r: Bits)
    returns (put': nat, q: Bits, mode: Mode, ghost n: nat)
    requires s.Ok() && r.Ok(s.data) && r.bits < 8 && availIn >= 6 && r.at + availIn <= |s.data|
    requires put + 258 <= out.Length && WindowOk(out, window, wsize, wnext, whist, put)
    requires Setting(s, out, window, wsize, whave, whist)
    requires !sane || window == out ==> DistancesValid(s, r.Pos(), Hist(whist, out, put))
    modifies out
    ensures r.at <= q.at <= r.at + availIn && put <= put' <= out.Length
    ensures q.Ok(s.data) && q.bits < 8 && r.Pos() < q.Pos() && WindowOk(out, window, wsize, wnext, whist, put')
    ensures Decoded(s, r.Pos(), old(Hist(whist, out, put)), n, q.Pos(), Hist(whist, out, put'), mode)
  {
    hide Block.Ok, Bits.Ok, Step, Stopped, NearEnough, DistancesValid;
    ghost var h0 := Hist(whist, out, put);
    var last := r.at + (availIn - 5);
    var end := put + (out.Length - put - 257);
    put', q, mode, n := put, r, LEN, 0;
    while true
      invariant q.Ok(s.data) && q.bits <= 30 && q.at < last && put <= put' < end && r.Pos() <= q.Pos()
      invariant WindowOk(out, window, wsize, wnext, whist, put')
      invariant mode == LEN && Decoded(s, r.Pos(), h0, n, q.Pos(), Hist(whist, out, put'), LEN)
      decreases 8 * |s.data| - q.Pos()
    {
      if !sane || window == out { DistancesStayValid(s, r.Pos(), h0, n); }
      put', q, mode := Turn(s, out, window, wsize, wnext, whave, sane, whist, put', q);
      if mode == LEN { n := n + 1; }
      if mode != LEN || !(q.at < last && put' < end) { break; }
    }
    q := ReturnUnused(s.data, q);
  }
}
