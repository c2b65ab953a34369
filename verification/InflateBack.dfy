/** The LEN state of inflateBack, core/zlib/infback.c:481-604: one event at a time with
    every check, or inflate_fast when input and window space allow. */
module InflateBack {
  import opened Arith
  import opened BitReverse
  import opened BitInput
  import opened Lz77
  import opened InflateTable
  import opened HuffmanLookup
  import opened InflateSpec
  import opened InflateCopy
  import opened InflateFast

  /** At the end of the input, hold is all there is, followed by zeros. */
  lemma HoldIsAll(data: seq<octet>, r: Bits)
    requires r.Ok(data) && r.at == |data|
    ensures r.hold == Rest(data, r.Pos())
  {
    hide Low, Shr, Shl, Rest;
    var x := Rest(data, r.Pos());
    RestAdd(data, r.Pos(), r.bits);
    RestBytes(data, |data|);
    Split(x, r.bits);
    ShlZero(r.bits);
  }

  /** A code that hold shows completely is the code the input shows. */
  lemma LookSeen(table: seq<Code>, root: nat, kind: CodeType, data: seq<octet>, r: Bits)
    requires Good(table, root, kind) && r.Ok(data)
    requires Look(table, root, r.hold).1 <= r.bits || r.at == |data|
    ensures Look(table, root, r.hold) == Look(table, root, Rest(data, r.Pos()))
  {
    hide Look, Low, Rest, Shape, EntryOk;
    if r.at == |data| {
      HoldIsAll(data, r);
    } else {
      PeekOk(data, r.at, r.hold, r.bits, Look(table, root, r.hold).1);
      assert PrefixOk(table, root, r.hold, Rest(data, r.Pos()));
    }
  }

  /** PULLBYTE: in() hands over the input in chunks of any size. */
  method PullByte(data: seq<octet>, have: nat, r: Bits) returns (ok: bool, have': nat, q: Bits)
    requires r.Ok(data) && r.at + have <= |data| && r.bits <= 24
    ensures ok ==> q.at == r.at + 1 && q.bits == r.bits + 8
    ensures !ok ==> q == r && r.at == |data|
    ensures q.Ok(data) && q.Pos() == r.Pos() && q.at + have' <= |data|
  {
    hide HoldOk;
    ok, have', q := true, have, r;
    if have' == 0 {
      if r.at == |data| {
        ok := false;
        return;
      }
      have' :| 1 <= have' <= |data| - r.at;
    }
    have' := have' - 1;
    q := Pull(data, r);
  }

  /** Either b bits after bit p were taken and fewer than 8 are at hand, or the input ends
      before bit p + b. */
  ghost predicate Took(data: seq<octet>, p: nat, b: nat, ok: bool, have: nat, q: Bits) {
    && q.Ok(data) && q.at + have <= |data| && q.bits <= 24
    && if ok then q.Pos() == p + b && q.bits < 8 else 8 * |data| < p + b
  }

  /** NEEDBITS(n) */
  method NeedBits(data: seq<octet>, have: nat, r: Bits, n: nat) returns (ok: bool, have': nat, q: Bits)
    requires r.Ok(data) && r.at + have <= |data| && r.bits < 8 && n <= 15
    ensures ok ==> n <= q.bits < n + 8
    ensures !ok ==> 8 * |data| < r.Pos() + n
    ensures q.Ok(data) && q.Pos() == r.Pos() && q.at + have' <= |data| && q.bits <= 24
  {
    hide HoldOk;
    ok, have', q := true, have, r;
    while q.bits < n
      invariant q.Ok(data) && q.Pos() == r.Pos() && q.at + have' <= |data| && q.bits < n + 8
      decreases n - q.bits
    {
      ok, have', q := PullByte(data, have', q);
      if !ok { return; }
    }
  }

  /** How the two table accesses make up a look-up of the bits h. */
  lemma LookSteps(table: seq<Code>, root: nat, kind: CodeType, h: nat)
    requires Good(table, root, kind)
    ensures Low(h, root) < |table| && 1 <= Look(table, root, h).1 <= 15 && EntryOk(kind, Look(table, root, h).0)
    ensures var e := table[Low(h, root)];
            if IsLink(e) then
              var i := e.val + Shr(Low(h, e.bits + e.op), e.bits);
              e.bits == root && i < |table| && Look(table, root, h) == (table[i], root + table[i].bits)
            else Look(table, root, h) == (e, e.bits)
  {
    assert LookOk(table, root, kind, h);
    var e := table[Low(h, root)];
    assert RootEntryOk(table, root, e);
    hide Low, Shr, EntryOk;
    ShrLow(h, root, e.op);
  }

  /** A code that hold does not show completely needs more bits than hold has. */
  lemma MoreNeeded(table: seq<Code>, root: nat, kind: CodeType, data: seq<octet>, r: Bits)
    requires Good(table, root, kind) && r.Ok(data) && Look(table, root, r.hold).1 > r.bits
    ensures Look(table, root, Rest(data, r.Pos())).1 > r.bits
  {
    hide Look, Low, Rest, EntryOk;
    if Look(table, root, Rest(data, r.Pos())).1 <= r.bits { LookHold(table, root, kind, data, r); }
  }

  /** The first table access. */
  method RootCode(table: seq<Code>, root: nat, ghost kind: CodeType, data: seq<octet>, have: nat, r: Bits)
    returns (ok: bool, here: Code, have': nat, q: Bits)
    requires Good(table, root, kind) && r.Ok(data) && r.at + have <= |data| && r.bits < 8
    ensures q.Ok(data) && q.Pos() == r.Pos() && q.at + have' <= |data|
    ensures q.bits < 8 + Look(table, root, Rest(data, r.Pos())).1 <= 23
    ensures Low(q.hold, root) < |table| && here == table[Low(q.hold, root)]
    ensures if ok then here.bits <= q.bits else 8 * |data| < r.Pos() + Look(table, root, Rest(data, r.Pos())).1
  {
    assert LookOk(table, root, kind, Rest(data, r.Pos()));
    hide Good, HoldOk, Low, Shr, Look, Rest, EntryOk;
    ok, have', q := true, have, r;
    LookSteps(table, root, kind, q.hold);
    here := table[Low(q.hold, root)];
    while here.bits > q.bits
      invariant q.Ok(data) && q.Pos() == r.Pos() && q.at + have' <= |data|
      invariant q.bits < 8 + Look(table, root, Rest(data, r.Pos())).1
      invariant Low(q.hold, root) < |table| && here == table[Low(q.hold, root)]
      decreases 24 - q.bits
    {
      LookSteps(table, root, kind, q.hold);
      MoreNeeded(table, root, kind, data, q);
      ok, have', q := PullByte(data, have', q);
      if !ok { LookSeen(table, root, kind, data, q); return; }
      LookSteps(table, root, kind, q.hold);
      here := table[Low(q.hold, root)];
    }
  }

  /** last.val + (BITS(last.bits + last.op) >> last.bits) */
  function SubIndex(last: Code, hold: nat): nat {
    last.val + Shr(Low(hold, last.bits + last.op), last.bits)
  }

  /** The bits h lead through the link `last` to the entry `here`. */
  ghost predicate Shows(table: seq<Code>, root: nat, kind: CodeType, h: nat, last: Code, here: Code)
    requires Shape(table, root)
  {
    last.bits + here.bits <= 15 && EntryOk(kind, here) && Look(table, root, h) == (here, last.bits + here.bits)
  }

  /** hold goes on showing the link when bits are added, and shows the entry it leads to. */
  lemma SubSteps(table: seq<Code>, root: nat, kind: CodeType, data: seq<octet>, last: Code, r: Bits, q: Bits)
    requires Good(table, root, kind) && r.Ok(data) && q.Ok(data) && q.Pos() == r.Pos() && r.bits <= q.bits
    requires Low(r.hold, root) < |table| && last == table[Low(r.hold, root)] && IsLink(last) && last.bits <= r.bits
    ensures SubIndex(last, q.hold) < |table| && Shows(table, root, kind, q.hold, last, table[SubIndex(last, q.hold)])
  {
    hide Low, Shr, Look, Rest, EntryOk, Good;
    LookSteps(table, root, kind, r.hold);
    LookSteps(table, root, kind, q.hold);
    PeekOk(data, r.at, r.hold, r.bits, root);
    PeekOk(data, q.at, q.hold, q.bits, root);
    assert Low(q.hold, root) == Low(r.hold, root);
  }

  /** Enough bits to see the entry, or all there are: the input shows the same entry. */
  lemma ShowsInput(table: seq<Code>, root: nat, kind: CodeType, data: seq<octet>, last: Code, here: Code, q: Bits)
    requires Good(table, root, kind) && q.Ok(data) && Shows(table, root, kind, q.hold, last, here)
    requires last.bits + here.bits <= q.bits || q.at == |data|
    ensures Shows(table, root, kind, Rest(data, q.Pos()), last, here)
    ensures Look(table, root, Rest(data, q.Pos())).1 == last.bits + here.bits
  {
    hide Good, Look, EntryOk, Rest;
    LookSeen(table, root, kind, data, q);
  }

  lemma ShowsMore(table: seq<Code>, root: nat, kind: CodeType, data: seq<octet>, last: Code, here: Code, q: Bits)
    requires Good(table, root, kind) && q.Ok(data) && Shows(table, root, kind, q.hold, last, here)
    requires last.bits + here.bits > q.bits
    ensures Look(table, root, Rest(data, q.Pos())).1 > q.bits
  {
    hide Good, Look, EntryOk, Rest;
    MoreNeeded(table, root, kind, data, q);
  }

  /** The access to the sub-table that `last` leads to. */
  method SubCode(table: seq<Code>, root: nat, ghost kind: CodeType, data: seq<octet>, last: Code, have: nat, r: Bits)
    returns (ok: bool, here: Code, have': nat, q: Bits)
    requires Good(table, root, kind) && r.Ok(data) && r.at + have <= |data| && r.bits < 8 + Look(table, root, Rest(data, r.Pos())).1
    requires Low(r.hold, root) < |table| && last == table[Low(r.hold, root)] && IsLink(last) && last.bits <= r.bits
    ensures q.Ok(data) && q.Pos() == r.Pos() && q.at + have' <= |data|
    ensures q.bits < 8 + Look(table, root, Rest(data, r.Pos())).1 <= 23
    ensures if ok then last.bits + here.bits <= q.bits && Shows(table, root, kind, Rest(data, r.Pos()), last, here)
            else 8 * |data| < r.Pos() + Look(table, root, Rest(data, r.Pos())).1
  {
    assert LookOk(table, root, kind, Rest(data, r.Pos()));
    hide Good, HoldOk, Bits.Ok, Low, Look, Rest, EntryOk, SubIndex, Shows, Shape;
    ok, have', q := true, have, r;
    SubSteps(table, root, kind, data, last, r, q);
    here := table[SubIndex(last, q.hold)];
    while last.bits + here.bits > q.bits
      invariant q.Ok(data) && q.Pos() == r.Pos() && q.at + have' <= |data|
      invariant r.bits <= q.bits < 8 + Look(table, root, Rest(data, r.Pos())).1
      invariant Shows(table, root, kind, q.hold, last, here)
      decreases 24 - q.bits
    {
      ShowsMore(table, root, kind, data, last, here, q);
      ok, have', q := PullByte(data, have', q);
      if !ok { ShowsInput(table, root, kind, data, last, here, q); return; }
      SubSteps(table, root, kind, data, last, r, q);
      here := table[SubIndex(last, q.hold)];
    }
    ShowsInput(table, root, kind, data, last, here, q);
  }

  /** Gets a code, pulling in a byte only when the bits at hand do not show it completely.
      It fails exactly when the input ends inside the code. */
  method SlowCode(table: seq<Code>, root: nat, ghost kind: CodeType, data: seq<octet>, have: nat, r: Bits)
    returns (ok: bool, here: Code, have': nat, q: Bits)
    requires Good(table, root, kind) && r.Ok(data) && r.at + have <= |data| && r.bits < 8
    ensures var (e, b) := Look(table, root, Rest(data, r.Pos()));
            Took(data, r.Pos(), b, ok, have', q) && (ok ==> here == e && EntryOk(kind, e))
  {
    hide Good, HoldOk, Low, Shr, Look, Rest, EntryOk;
    ok, here, have', q := RootCode(table, root, kind, data, have, r);
    if !ok { return; }
    LookSteps(table, root, kind, q.hold);
    if IsLink(here) {
      var last := here;
      ok, here, have', q := SubCode(table, root, kind, data, last, have', q);
      if !ok { return; }
      q := Drop(data, q, last.bits);
    } else {
      LookSeen(table, root, kind, data, q);
    }
    q := Drop(data, q, here.bits);
  }

  /** Gets the extra bits of a length or a distance, if there are any. */
  method SlowExtra(data: seq<octet>, here: Code, have: nat, r: Bits)
    returns (ok: bool, value: nat, have': nat, q: Bits)
    requires IsBase(here) && here.op <= 29 && r.Ok(data) && r.at + have <= |data| && r.bits < 8
    ensures Took(data, r.Pos(), here.op - 16, ok, have', q)
    ensures ok ==> value == Base(here, Rest(data, r.Pos()))
  {
    hide Low4, Low, HoldOk, Rest;
    Low4Base(here);
    ok, value, have', q := true, here.val, have, r;
    var extra := Low4(here.op);
    if extra != 0 {
      ok, have', q := NeedBits(data, have, r, extra);
      if !ok { return; }
      value, q := Extra(data, here, q);
    } else {
      LowNone(Rest(data, r.Pos()));
    }
  }

  lemma LowNone(x: nat)
    ensures Low(x, 0) == 0
  {
  }

  /** Gets a distance code and its extra bits. */
  method SlowDistance(s: Block, len: nat, have: nat, r: Bits)
    returns (ok: bool, v: Event, have': nat, q: Bits)
    requires s.Ok() && r.Ok(s.data) && r.at + have <= |s.data| && r.bits < 8
    ensures var (e, b) := DistanceAt(s, Rest(s.data, r.Pos()), len);
            Took(s.data, r.Pos(), b, ok, have', q) && (ok ==> v == e)
  {
    var x := Rest(s.data, r.Pos());
    DistRange(s, x);
    EventOfDistance(s, r.Pos(), len);
    hide Has16, Has32, Has64, Good, HoldOk, Low, Shr, Look, Rest, EntryOk, Base, DistanceAt;
    v := BadDistance;
    var here, dist;
    ok, here, have', q := SlowCode(s.distcode, s.distbits, DISTS, s.data, have, r);
    if !ok { return; }
    OpTests(DISTS, here);
    if !Has64(here.op) {
      ok, dist, have', q := SlowExtra(s.data, here, have', q);
      if !ok { return; }
      v := Copy(len, dist);
    }
  }

  /** The extra bits of a length, and the distance. */
  method SlowMatch(s: Block, here: Code, have: nat, r: Bits) returns (ok: bool, v: Event, have': nat, q: Bits)
    requires s.Ok() && IsBase(here) && here.op <= 21
    requires r.Ok(s.data) && r.at + have <= |s.data| && r.bits < 8
    ensures var x := Rest(s.data, r.Pos()); var op := here.op - 16;
            var (e, b) := DistanceAt(s, Shr(x, op), Base(here, x));
            Took(s.data, r.Pos(), op + b, ok, have', q) && (ok ==> v == e)
  {
    RestAdd(s.data, r.Pos(), here.op - 16);
    hide Block.Ok, HoldOk, Low, Shr, Rest, Base, DistanceAt;
    v := BadCode;
    var len;
    ok, len, have', q := SlowExtra(s.data, here, have, r);
    if !ok { return; }
    ok, v, have', q := SlowDistance(s, len, have', q);
  }

  /** An event takes at least the bits of its code. */
  lemma EventOfCode(s: Block, p: nat)
    requires s.Ok()
    ensures EventAt(s, Rest(s.data, p)).1 >= Look(s.lencode, s.lenbits, Rest(s.data, p)).1
  {
    hide Rest, Shr, Low, Base;
  }

  /** Gets a literal, a match or the end of the block; fails exactly when the input ends before it does. */
  method SlowEvent(s: Block, have: nat, r: Bits) returns (ok: bool, v: Event, have': nat, q: Bits)
    requires s.Ok() && r.Ok(s.data) && r.at + have <= |s.data| && r.bits < 8
    ensures var (e, b) := EventAt(s, Rest(s.data, r.Pos()));
            Took(s.data, r.Pos(), b, ok, have', q) && (ok ==> v == e)
  {
    EventOfCode(s, r.Pos());
    hide Bits.Ok, Has16, Has32, Has64, Good, HoldOk, Low, Shr, Look, Rest, EntryOk, Base, DistanceAt, EventAt;
    v := BadCode;
    var here;
    ok, here, have', q := SlowCode(s.lencode, s.lenbits, LENS, s.data, have, r);
    if ok {
      hide IsBase;
      ok, v, have', q := SlowSymbol(s, here, have', q, r.Pos());
    }
  }

  /** What follows from the code that was got. */
  method SlowSymbol(s: Block, here: Code, have: nat, r: Bits, ghost p: nat)
    returns (ok: bool, v: Event, have': nat, q: Bits)
    requires s.Ok() && r.Ok(s.data) && r.at + have <= |s.data| && r.bits < 8
    requires Look(s.lencode, s.lenbits, Rest(s.data, p)) == (here, r.Pos() - p) && EntryOk(LENS, here)
    ensures var (e, b) := EventAt(s, Rest(s.data, p));
            Took(s.data, p, b, ok, have', q) && (ok ==> v == e)
  {
    LenRange(s, Rest(s.data, p));
    hide Bits.Ok, Has16, Has32, Has64, Good, HoldOk, Low, Shr, Look, Rest, EntryOk, Base, DistanceAt, EventAt;
    ok, v, have', q := true, BadCode, have, r;
    OpTests(LENS, here);
    if !IsBase(here) { EventOfSymbol(s, Rest(s.data, p)); }
    if here.op == 0 {
      v := Byte(here.val);
    } else if Has32(here.op) {
      v := EndOfBlock;
    } else if !Has64(here.op) {
      EventOfMatch(s, p);
      ok, v, have', q := SlowMatch(s, here, have, r);
    }
  }

  /** How inflateBack leaves the LEN state other than through a new mode. */
  datatype Ret = Go | InputEnded | OutputRefused

  /** What one event does, or that there is none. */
  ghost predicate Turned(s: Block, p: nat, h: seq<octet>, q: nat, h': seq<octet>, mode: Mode)
    requires s.Ok()
  {
    if mode == LEN then Step(s, p, h) == Some((q, h')) else h' == h && Stopped(s, p, h, q, mode)
  }

  /** The input ends before the event that begins at bit p does. */
  ghost predicate CutShort(s: Block, p: nat)
    requires s.Ok()
  {
    8 * |s.data| < p + EventAt(s, Rest(s.data, p)).1
  }

  /** What out() accepted is part of what the event produces. */
  ghost predicate Overflowed(s: Block, p: nat, h: seq<octet>, written: seq<octet>)
    requires s.Ok()
  {
    Step(s, p, h).Some? && written <= Step(s, p, h).value.1
  }

  lemma TurnCounts(s: Block, p0: nat, h0: seq<octet>, n: nat, p: nat, h: seq<octet>, q: nat, h': seq<octet>, mode: Mode)
    requires s.Ok() && Decoded(s, p0, h0, n, p, h, LEN) && Turned(s, p, h, q, h', mode)
    ensures Decoded(s, p0, h0, if mode == LEN then n + 1 else n, q, h', mode) && p < q
  {
    EventRanges(s, Rest(s.data, p));
    hide EventAt, Rest;
  }

  lemma TurnsCount(s: Block, p0: nat, h0: seq<octet>, n: nat, p: nat, h: seq<octet>, k: nat, q: nat, h': seq<octet>, mode: Mode)
    requires s.Ok() && Decoded(s, p0, h0, n, p, h, LEN) && Decoded(s, p, h, k, q, h', mode)
    ensures Decoded(s, p0, h0, n + k, q, h', mode)
  {
    RunAdd(s, p0, h0, n, k);
    hide Run, Step, Stopped;
  }

  /** Fast or slow and however the input was cut up: a block that ends from the same point
      on ends with the same bytes, at the same bit, for the same reason. */
  lemma BlocksAgree(s: Block, p0: nat, h0: seq<octet>, n: nat, q: nat, h: seq<octet>, mode: Mode,
                    n': nat, q': nat, h': seq<octet>, mode': Mode)
    requires s.Ok() && mode != LEN && mode' != LEN
    requires Decoded(s, p0, h0, n, q, h, mode) && Decoded(s, p0, h0, n', q', h', mode')
    ensures n == n' && q == q' && h == h' && mode == mode'
  {
    RunsEndOnce(s, p0, h0, n, n');
    hide Run, Step, EventAt;
  }

  class InflateBackState {
    const s: Block
    const window: array<octet>
    const sane: bool
    var have: nat
    var r: Bits
    var put: nat
    var left: nat
    var whave: nat
    var mode: Mode
    /** What out() has accepted. */
    var written: seq<octet>

    /** wsize */
    function Size(): nat { window.Length }

    ghost predicate Valid()
      reads this, window
    {
      && s.Ok() && s.limit == Size() && r.Ok(s.data) && r.at + have <= |s.data| && r.bits <= 24
      && 0 < Size() && put + left == Size()
      && (if whave < Size() then written == [] else whave == Size() <= |written|)
      && WindowOk(window, window, Size(), 0, written, put)
    }

    /** Everything decoded so far: what out() has, and what waits in the window. */
    ghost function Produced(): seq<octet>
      requires put <= Size()
      reads this, window
    {
      Hist(written, window, put)
    }

    /** Before the first byte. */
    constructor (s: Block, window: array<octet>, sane: bool)
      requires s.Ok() && s.limit == window.Length > 0
      ensures Valid() && this.s == s && this.window == window && mode == LEN
      ensures Produced() == [] && r.Pos() == 0
    {
      this.s, this.window, this.sane := s, window, sane;
      have, r, put, left, whave, mode, written := 0, Bits(0, 0, 0), 0, window.Length, 0, LEN, [];
      new;
      LowNone(Rest(s.data, 0));
    }

    /** ROOM(): hands the full window to out(), which may refuse it. */
    method Room() returns (refused: bool)
      requires Valid()
      modifies `put, `left, `whave, `written
      ensures if refused then written == old(written) else Valid() && left > 0 && Produced() == old(Produced())
      ensures old(left) > 0 ==> put == old(put) && written == old(written) && !refused
      ensures old(left) == 0 && !refused ==> put == 0
    {
      hide Block.Ok, Bits.Ok;
      refused := false;
      if left == 0 {
        put := 0;
        left := Size();
        whave := left;
        refused := *;
        if !refused {
          written := written + window[..];
          assert window[..Size()] == window[..];
        }
      }
    }
  
    /** copy match from window to output: pieces that end at the end of the window, at
        the end of what was produced before, or with the match. */
    method SlowCopy(len: nat, offset: nat) returns (refused: bool)
      requires Valid() && 1 <= offset <= |Produced()| && offset <= Size()
      modifies `put, `left, `whave, `written, window
      ensures !refused ==> Valid() && Produced() == CopyBack(old(Produced()), offset, len)
      ensures refused ==> written <= CopyBack(old(Produced()), offset, len)
    {
      hide Block.Ok, Bits.Ok;
      ghost var h0 := Produced();
      var length := len;
      refused := false;
      while length != 0
        invariant 0 <= length <= len && Valid() && Produced() == CopyBack(h0, offset, len - length)
      {
        ghost var before := Produced();
        refused := Room();
        if refused {
          assert written <= before;
          CopyBackGrows(h0, offset, len - length, len);
          return;
        }
        length := CopyPiece(h0, len, length, offset);
      }
    }

    /** Where the next piece of a match comes from, and how long it is. */
    method PieceSource(ghost g: Job, length: nat, offset: nat) returns (from: int, copy: nat)
      requires Valid() && left > 0 && 1 <= offset <= Size() && 1 <= length
      requires g.wsize == Size() && g.wnext == 0 && g.whist == written && g.dist == offset <= |g.before|
      requires Progress(window, window, g, put)
      ensures 1 <= copy <= length && copy <= left
      ensures SourceOk(window, window, g, put, window, from, copy)
    {
      hide Block.Ok, Bits.Ok;
      copy := Size() - offset;
      if copy < left {
        from := put + copy;
        copy := left - copy;
      } else {
        from := put - offset;
        copy := left;
      }
      if copy > length { copy := length; }
    }

    /** One piece of a match; left is not zero. */
    method CopyPiece(ghost h0: seq<octet>, ghost len: nat, length: nat, offset: nat) returns (rest: nat)
      requires Valid() && left > 0 && 1 <= offset <= |h0| && offset <= Size() && 1 <= length <= len
      requires Produced() == CopyBack(h0, offset, len - length)
      modifies `put, `left, window
      ensures rest < length && Valid() && Produced() == CopyBack(h0, offset, len - rest)
    {
      hide Block.Ok, Bits.Ok, SourceOk;
      ghost var g := Job(Size(), 0, written, h0, offset);
      var from, copy := PieceSource(g, length, offset);
      rest := length - copy;
      left := left - copy;
      put := CopyRun(window, window, g, put, window, from, copy);
    }

    /** The LEN state with every check: one event. It fails for lack of input exactly when
        the input ends inside the event. */
    method LenCase() returns (ret: Ret)
      requires Valid() && mode == LEN && r.bits < 8
      modifies this, window
      ensures ret.Go? ==> Valid() && r.bits < 8 && Turned(s, old(r.Pos()), old(Produced()), r.Pos(), Produced(), mode)
      ensures ret.InputEnded? ==> Valid() && mode == LEN && Produced() == old(Produced()) && CutShort(s, old(r.Pos()))
      ensures ret.OutputRefused? ==> Overflowed(s, old(r.Pos()), old(Produced()), written)
    {
      EventRanges(s, Rest(s.data, r.Pos()));
      hide Block.Ok, Bits.Ok, EventAt, Rest;
      ret := Go;
      var ok, v;
      ok, v, have, r := SlowEvent(s, have, r);
      if !ok { return InputEnded; }
      hide Effect;
      ret := Act(v);
    }

    /** What is done about an event. */
    method Act(v: Event) returns (ret: Ret)
      requires Valid() && mode == LEN && (v.Copy? ==> 1 <= v.dist)
      modifies `put, `left, `whave, `written, `mode, window
      ensures ret != InputEnded
      ensures ret.Go? && mode == LEN ==> Valid() && Effect(s, v, old(Produced())) == Some(Produced())
      ensures ret.Go? && mode != LEN ==> Valid() && Effect(s, v, old(Produced())).None? && Produced() == old(Produced())
      ensures ret.Go? && mode != LEN ==> (mode == TYPE <==> v.EndOfBlock?)
      ensures ret.OutputRefused? ==> Effect(s, v, old(Produced())).Some? && written <= Effect(s, v, old(Produced())).value
    {
      hide Block.Ok, Bits.Ok;
      ret := Go;
      match v {
        case Byte(c) =>
          ret := Literal(c);
        case Copy(len, offset) =>
          if offset > Size() - (if whave < Size() then left else 0) {
            mode := BAD;
          } else {
            var refused := SlowCopy(len, offset);
            if refused { ret := OutputRefused; }
          }
        case EndOfBlock =>
          mode := TYPE;
        case _ =>
          mode := BAD;
      }
    }

    /** *put++ = c; left--; */
    method Literal(c: octet) returns (ret: Ret)
      requires Valid()
      modifies `put, `left, `whave, `written, window
      ensures ret == Go ==> Valid() && Produced() == old(Produced()) + [c]
      ensures ret == OutputRefused ==> written <= old(Produced()) + [c]
      ensures ret != InputEnded
    {
      hide Block.Ok, Bits.Ok;
      ghost var h := Produced();
      var refused := Room();
      if refused { return OutputRefused; }
      window[put] := c;
      put := put + 1;
      left := left - 1;
      assert window[..put] == window[..put - 1] + [c];
      return Go;
    }

    /** inflate_fast on the window itself, between RESTORE() and LOAD(). */
    method Fast() returns (ghost n: nat)
      requires Valid() && mode == LEN && r.bits < 8 && have >= 6 && left >= 258
      requires DistancesValid(s, r.Pos(), Produced())
      modifies this, window
      ensures Valid() && r.bits < 8 && old(r.Pos()) < r.Pos()
      ensures Decoded(s, old(r.Pos()), old(Produced()), n, r.Pos(), Produced(), mode)
    {
      hide Block.Ok, HoldOk, DistancesValid, Decoded;
      if whave < Size() { whave := Size() - left; }
      var put', q, m;
      put', q, m, n := InflateFast.InflateFast(s, window, window, Size(), 0, whave, sane, written, put, have, r);
      have := have - (q.at - r.at);
      put, left, r, mode := put', Size() - put', q, m;
    }

    /** Where a block leaves off after n events from bit p0 on, with h0 produced before. */
    ghost predicate Outcome(p0: nat, h0: seq<octet>, n: nat, ret: Ret)
      requires s.Ok()
      reads this, window
    {
      match ret
      case Go => Valid() && mode != LEN && Decoded(s, p0, h0, n, r.Pos(), Produced(), mode)
      case InputEnded =>
        && Valid() && mode == LEN && Run(s, p0, h0, n).Some?
        && var (q, h) := Run(s, p0, h0, n).value; Produced() == h && CutShort(s, q)
      case OutputRefused =>
        && Run(s, p0, h0, n).Some?
        && var (q, h) := Run(s, p0, h0, n).value; Overflowed(s, q, h, written)
    }

    /** The block from here on: inflate_fast where it may be used and one event at a time
        elsewhere, until the block ends, the data are invalid, the input ends or out()
        refuses a window. */
    method DecodeBlock() returns (ret: Ret, ghost n: nat)
      requires Valid() && mode == LEN && r.bits < 8 && DistancesValid(s, r.Pos(), Produced())
      modifies this, window
      ensures Outcome(old(r.Pos()), old(Produced()), n, ret)
    {
      hide Block.Ok, WindowOk, EventAt, Rest;
      ghost var p0, h0 := r.Pos(), Produced();
      ret, n := Go, 0;
      while mode == LEN
        invariant Valid() && r.bits < 8 && ret == Go
        invariant Decoded(s, p0, h0, n, r.Pos(), Produced(), mode)
        decreases 8 * |s.data| - r.Pos(), mode == LEN
      {
        ghost var p, h := r.Pos(), Produced();
        assert Run(s, p0, h0, n).value == (p, h);
        DistancesStayValid(s, p0, h0, n);
        hide Run, Step, Stopped, Turned, Decoded, DistancesValid, NearEnough, Overflowed, CutShort;
        if have >= 6 && left >= 258 {
          ghost var k := Fast();
          TurnsCount(s, p0, h0, n, p, h, k, r.Pos(), Produced(), mode);
          n := n + k;
        } else {
          ret := LenCase();
          if ret != Go { return; }
          TurnCounts(s, p0, h0, n, p, h, r.Pos(), Produced(), mode);
          if mode == LEN { n := n + 1; }
        }
      }
    }
  }

  lemma CopyBackGrows(h: seq<octet>, dist: nat, m: nat, n: nat)
    requires 1 <= dist <= |h| && m <= n
    ensures CopyBack(h, dist, m) <= CopyBack(h, dist, n)
  {
    CopyBackSplit(h, dist, m, n - m);
  }
}
