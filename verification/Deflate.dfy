/** The LZ77 half of the deflate compressor: a sliding window with hash chains,
    fed in chunks, that tallies literals and matches either greedily
    (DeflateFast) or with one step of lazy evaluation (DeflateSlow).

    Ghost fields keep what the running program forgets: all the data consumed,
    the absolute position of window index 0, the strings inserted, and every
    token tallied. */
module Deflate {
  import opened Sequences
  import opened Lz77
  import opened DeflateHash
  import opened DeflateTables

  const MIN_LOOKAHEAD: nat := MAX_MATCH + MIN_MATCH + 1
  const TOO_FAR: nat := 4096
  const WORD: nat := 0x1_0000_0000

  type uint32 = n: nat | n < WORD
  type uch = n: nat | n < 0x100

  datatype Flush = NoFlush | SyncFlush | Finish
  datatype BlockState = NeedMore | BlockDone | FinishStarted | FinishDone

  /** C's unsigned subtraction. */
  function Sub32(a: uint32, b: uint32): uint32 { (a - b) % WORD }

  /** What a slot of the two tally buffers stands for. */
  function Slots(d: seq<Pos>, l: seq<uch>): seq<Token>
    requires |d| == |l|
  {
    seq(|d|, i requires 0 <= i < |d| => if d[i] == 0 then Literal(l[i] as byte) else Match(d[i], l[i] + MIN_MATCH))
  }

  lemma SlotsSnoc(d: seq<Pos>, l: seq<uch>, dist: Pos, c: uch)
    requires |d| == |l|
    ensures Slots(d + [dist], l + [c]) == Slots(d, l) + Slots([dist], [c])
  {
  }

  lemma LiteralSlot(c: byte)
    ensures Slots([0], [c as nat]) == [Literal(c)]
  {
    assert (c as nat) as byte == c;
  }

  ghost predicate TokenOk(t: Token, maxDist: nat) {
    t.Match? ==> 1 <= t.dist <= maxDist && MIN_MATCH <= t.len <= MAX_MATCH
  }

  /** The tokens mean the first n bytes of data, and keep to the limits of the format. */
  ghost predicate Means(tokens: seq<Token>, data: seq<byte>, n: nat, maxDist: nat) {
    && n <= |data|
    && Expand(tokens) == Some(data[..n])
    && forall t :: t in tokens ==> TokenOk(t, maxDist)
  }

  lemma MeansLiteral(tokens: seq<Token>, data: seq<byte>, n: nat, maxDist: nat)
    requires Means(tokens, data, n, maxDist) && n < |data|
    ensures Means(tokens + [Literal(data[n])], data, n + 1, maxDist)
  {
    ExpandSnoc(tokens, Literal(data[n]));
    assert data[..n + 1] == data[..n] + [data[n]];
  }

  lemma MeansMatch(tokens: seq<Token>, data: seq<byte>, n: nat, dist: nat, len: nat, maxDist: nat)
    requires Means(tokens, data, n, maxDist)
    requires IsMatch(data, n, dist, len) && dist <= maxDist && MIN_MATCH <= len <= MAX_MATCH
    ensures Means(tokens + [Match(dist, len)], data, n + len, maxDist)
  {
    ExpandSnoc(tokens, Match(dist, len));
    CopyBackIsMatch(data, n, dist, len);
  }

  lemma MeansMore(tokens: seq<Token>, data: seq<byte>, n: nat, maxDist: nat, data': seq<byte>)
    requires Means(tokens, data, n, maxDist) && data <= data'
    ensures Means(tokens, data', n, maxDist)
  {
    assert data'[..n] == data[..n];
  }

  lemma MeansAll(tokens: seq<Token>, data: seq<byte>, maxDist: nat)
    requires Means(tokens, data, |data|, maxDist)
    ensures Expand(tokens) == Some(data)
    ensures forall t :: t in tokens ==> TokenOk(t, maxDist)
  {
    assert data[..|data|] == data;
  }

  lemma MatchFits(data: seq<byte>, pos: nat, dist: nat, len: nat)
    requires IsMatch(data, pos, dist, len)
    ensures pos + len <= |data| && dist <= pos
  {
  }

  lemma IsMatchMore(data: seq<byte>, pos: nat, dist: nat, len: nat, data': seq<byte>)
    requires IsMatch(data, pos, dist, len) && data <= data'
    ensures IsMatch(data', pos, dist, len)
  {
  }

  ghost predicate KeyReady(bits: HashBits, data: seq<byte>, at: nat, insert: nat, insH: bv16) {
    at + MIN_MATCH <= |data| ==> insert == 0 && Rolled(bits, insH, data[at], data[at + 1])
  }

  lemma Appended(data: seq<byte>, base: nat, more: seq<byte>, n: nat)
    requires base <= |data| && n <= |more|
    ensures (data + more[..n])[base..] == data[base..] + more[..n]
    ensures (data + more[..n]) + more[n..] == data + more
  {
  }

  lemma SubSlide(s: uint32, m: uint32, w: uint32)
    requires w <= s
    ensures Sub32(s - w, Sub32(m, w)) == Sub32(s, m)
  {
  }

  lemma SubBefore(s: uint32, m: uint32)
    requires s > 0 && Sub32(s, m) > 0
    ensures Sub32(s - 1, m) == Sub32(s, m) - 1
  {
  }

  ghost predicate Beaten(data: seq<byte>, at: nat, start: nat, c: nat, r: nat) {
    c < start && !IsMatch(data, at, start - c, r + 1)
  }

  /** None of the candidates, window indices like start, matches the data at `at` for more than r bytes. */
  ghost predicate Unbeaten(data: seq<byte>, at: nat, start: nat, candidates: seq<nat>, r: nat) {
    forall c :: c in candidates ==> Beaten(data, at, start, c, r)
  }

  predicate ThreeBytes(data: seq<byte>, a: nat) { a + 3 <= |data| }

  /** The strings of three bytes that begin at the positions from `from` to `to`. */
  ghost function Strings(data: seq<byte>, from: nat, to: nat): set<nat> {
    set a: nat | from <= a < to && ThreeBytes(data, a)
  }

  lemma StringsJoin(data: seq<byte>, from: nat, mid: nat, to: nat)
    requires from <= mid <= to
    ensures Strings(data, from, mid) + Strings(data, mid, to) == Strings(data, from, to)
  {
  }

  /** Strings that are there already when more is read. */
  lemma StringsKept(data: seq<byte>, from: nat, to: nat, data': seq<byte>)
    requires data <= data' && (from < to ==> to + 2 <= |data|)
    ensures Strings(data', from, to) == Strings(data, from, to)
  {
  }

  lemma StringsOne(data: seq<byte>, at: nat)
    ensures Strings(data, at, at) == {}
    ensures Strings(data, at, at + 1) == if at + 3 <= |data| then {at} else {}
  {
  }

  /** What INSERT_STRING does to the tables: the old head becomes the link of the string, and the string the head. */
  ghost predicate Linked(head0: seq<Pos>, prev0: seq<Pos>, head1: seq<Pos>, prev1: seq<Pos>, key: nat, str: Pos, hashHead: Pos) {
    && key < |head0| && 0 < |prev0| && hashHead == head0[key]
    && head1 == head0[key := str] && prev1 == prev0[str % |prev0| := hashHead]
  }

  class DeflateState {
    const wSize: nat
    const hashBits: HashBits
    const litBufsize: nat
    const maxChainLength: nat
    const goodMatch: nat
    const niceMatch: nat
    const maxLazyMatch: nat
    const filtered: bool

    const window: array<byte>
    const head: array<Pos>
    const prev: array<Pos>
    const dBuf: array<Pos>
    const lBuf: array<uch>

    var nextIn: seq<byte>       // the caller's input not yet read
    var strstart: nat
    var lookahead: nat
    var insert: nat
    var insH: bv16
    var matchStart: uint32
    var matchLength: nat
    var prevLength: nat
    var prevMatch: uint32
    var matchAvailable: bool
    var highWater: nat
    var lastLit: nat

    ghost var data: seq<byte>
    ghost var base: nat
    ghost var ins: set<nat>
    ghost var top: nat
    ghost var flushed: seq<Token>
    ghost var tokens: seq<Token>

    ghost predicate Params() {
      && 512 <= wSize <= 0x8000
      && window.Length == 2 * wSize
      && prev.Length == wSize
      && head.Length == HashSize(hashBits)
      && 2 <= litBufsize == dBuf.Length == lBuf.Length
      && head != prev && head != dBuf && prev != dBuf && head as object != lBuf as object && prev as object != lBuf as object
      && window as object != head as object && window as object != prev as object && window as object != dBuf as object
      && lBuf as object != dBuf as object && window as object != lBuf as object
      && 4 <= maxChainLength
    }

    /** How many candidates a search looks at, when a match of length best is already there. */
    function Budget(best: nat): nat { if best >= goodMatch then maxChainLength / 4 else maxChainLength }

    /** The candidates a search from curMatch visits at most. */
    ghost function Candidates(curMatch: nat, best: nat): seq<nat>
      requires Params()
      reads `strstart, prev
    {
      Chain(prev[..], curMatch, if strstart > MaxDist() then strstart - MaxDist() else NIL, Budget(best))
    }

    /** The newest inserted string with the key of the string at strstart, as head[] has it. */
    ghost function HeadOf(): nat
      requires Params() && |data| == At() + lookahead
      reads `strstart, `lookahead, `data, `base, head
    {
      if lookahead < MIN_MATCH then NIL
      else
        KeyInRange(hashBits, data, At());
        head[KeyAt(hashBits, data, At())]
    }

    /** The candidates for the string at strstart: none if the newest is too far back. */
    ghost function CandidatesFrom(hashHead: nat, best: nat): seq<nat>
      requires Params()
      reads `strstart, prev
    {
      if hashHead != NIL && strstart - hashHead <= MaxDist() then Candidates(hashHead, best) else []
    }

    function MaxDist(): nat
      requires Params()
    {
      wSize - MIN_LOOKAHEAD
    }

    /** The absolute position of strstart. */
    ghost function At(): nat
      reads `base, `strstart
    {
      base + strstart
    }

    ghost predicate WindowOk()
      reads `strstart, `lookahead, `insert, `data, `base, window
    {
      && strstart + lookahead <= window.Length
      && |data| == base + strstart + lookahead
      && window[..strstart + lookahead] == data[base..]
      && insert <= strstart && insert < MIN_MATCH
    }

    ghost predicate ChainsOk()
      reads `data, `base, `ins, `top, head, prev
    {
      TablesOk(hashBits, head[..], prev[..], data, base, top, ins)
    }

    /** With three bytes ahead the running key is the key of the two bytes at strstart. */
    ghost predicate KeyOk()
      reads `strstart, `insert, `data, `base, `insH
    {
      KeyReady(hashBits, data, At(), insert, insH)
    }

    ghost predicate TallyOk()
      reads `lastLit, `tokens, `flushed, dBuf, lBuf
    {
      && dBuf as object != lBuf as object
      && dBuf.Length == lBuf.Length
      && lastLit < dBuf.Length
      && tokens == flushed + Slots(dBuf[..lastLit], lBuf[..lastLit])
    }

    /** Everything but the running key. */
    ghost predicate Loaded()
      reads `strstart, `lookahead, `insert, `data, `base, `ins, `top, `lastLit, `tokens, `flushed,
            window, head, prev, dBuf, lBuf
    {
      && Params()
      && WindowOk()
      && ChainsOk() && top + insert <= At()
      && TallyOk()
    }

    ghost predicate Valid()
      reads `strstart, `lookahead, `insert, `data, `base, `ins, `top, `insH, `lastLit, `tokens, `flushed,
            window, head, prev, dBuf, lBuf
    {
      Loaded() && KeyOk()
    }

    constructor (w: nat, bits: HashBits, litSize: nat, chain: nat, good: nat, nice: nat, lazy: nat, filter: bool)
      requires 512 <= w <= 0x8000 && 2 <= litSize && 4 <= chain
      ensures Valid() && fresh(window) && fresh(head) && fresh(prev) && fresh(dBuf) && fresh(lBuf)
      ensures nextIn == [] && data == [] && tokens == [] && base + strstart == 0 && lookahead == 0
      ensures matchLength == prevLength == MIN_MATCH - 1 && !matchAvailable
    {
      wSize, hashBits, litBufsize := w, bits, litSize;
      maxChainLength, goodMatch, niceMatch, maxLazyMatch, filtered := chain, good, nice, lazy, filter;
      window := new byte[2 * w];
      head := new Pos[HashSize(bits)](_ => 0);
      prev := new Pos[w];
      dBuf := new Pos[litSize];
      lBuf := new uch[litSize];
      nextIn, strstart, lookahead, insert, insH := [], 0, 0, 0, 0;
      matchStart, prevMatch := 0, 0;
      matchLength, prevLength, matchAvailable := MIN_MATCH - 1, MIN_MATCH - 1, false;
      highWater, lastLit := 0, 0;
      data, base, ins, top, flushed, tokens := [], 0, {}, 0, [], [];
      new;
      hide Valid;
      FreshIsValid();
    }

    lemma FreshIsValid()
      requires Params() && forall i :: 0 <= i < head.Length ==> head[i] == NIL
      requires data == [] && tokens == flushed == [] && ins == {}
      requires base == top == strstart == lookahead == insert == lastLit == 0
      ensures Valid()
    {
      hide TablesOk;
      EmptyTables(hashBits, head[..], prev[..]);
    }

    // ---- trees.c as seen from here: the tally buffers --------------------------------

    /** _tr_tally_lit; the result says that the block is full. */
    method TallyLit(c: byte) returns (bflush: bool)
      requires TallyOk() && lastLit + 1 < litBufsize == dBuf.Length
      modifies this`lastLit, this`tokens, dBuf, lBuf
      ensures tokens == old(tokens) + [Literal(c)]
      ensures lastLit == old(lastLit) + 1
      ensures TallyOk()
      ensures bflush <==> lastLit == litBufsize - 1
    {
      LiteralSlot(c);
      hide Slots;
      dBuf[lastLit] := 0;
      lBuf[lastLit] := c as nat;
      lastLit := lastLit + 1;
      tokens := tokens + [Literal(c)];
      assert dBuf[..lastLit] == old(dBuf[..lastLit]) + [0];
      assert lBuf[..lastLit] == old(lBuf[..lastLit]) + [c as nat];
      SlotsSnoc(old(dBuf[..lastLit]), old(lBuf[..lastLit]), 0, c as nat);
      bflush := lastLit == litBufsize - 1;
    }

    /** _tr_tally_dist: the distance is stored in 16 bits and the length less three
        in 8; within the limits of the format nothing is lost. */
    method TallyDist(distance: uint32, length: uint32) returns (bflush: bool)
      requires TallyOk() && lastLit + 1 < litBufsize == dBuf.Length
      requires 1 <= distance < 0x1_0000 && length <= MAX_MATCH - MIN_MATCH
      modifies this`lastLit, this`tokens, dBuf, lBuf
      ensures tokens == old(tokens) + [Match(distance, length + MIN_MATCH)]
      ensures lastLit == old(lastLit) + 1
      ensures TallyOk()
      ensures bflush <==> lastLit == litBufsize - 1
    {
      var len := length % 0x100;
      var dist := distance % 0x1_0000;
      dBuf[lastLit] := dist;
      lBuf[lastLit] := len;
      lastLit := lastLit + 1;
      tokens := tokens + [Match(distance, length + MIN_MATCH)];
      assert dBuf[..lastLit] == old(dBuf[..lastLit]) + [dist];
      assert lBuf[..lastLit] == old(lBuf[..lastLit]) + [len];
      SlotsSnoc(old(dBuf[..lastLit]), old(lBuf[..lastLit]), dist, len);
      bflush := lastLit == litBufsize - 1;
    }

    /** FLUSH_BLOCK_ONLY: the buffers are handed on and emptied.  Whether the
        caller's output buffer is full afterwards depends on the Huffman coder,
        so it is left open. */
    method FlushBlock() returns (outputFull: bool)
      requires Valid()
      modifies this`lastLit, this`flushed
      ensures Valid() && lastLit == 0
    {
      hide WindowOk, ChainsOk, KeyOk;
      flushed := tokens;
      lastLit := 0;
      outputFull := *;
    }

    // ---- the dictionary --------------------------------------------------------------

    /** UPDATE_HASH with the third byte of the string at str. */
    method UpdateKey(str: nat)
      requires WindowOk() && str + 3 <= strstart + lookahead
      requires Rolled(hashBits, insH, data[base + str], data[base + str + 1])
      modifies this`insH
      ensures Index(insH) == KeyAt(hashBits, data, base + str) < HashSize(hashBits)
      ensures Rolled(hashBits, insH, data[base + str + 1], data[base + str + 2])
    {
      var c := window[str + (MIN_MATCH - 1)];
      assert c == data[base + str + 2] by { assert window[..strstart + lookahead][str + 2] == data[base..][str + 2]; }
      hide UpdateHash, Hash3, Index, Rolled;
      NextKey(hashBits, insH, data[base + str], data[base + str + 1], c);
      insH := UpdateHash(hashBits, insH, c);
    }

    /** The two stores of INSERT_STRING. */
    method LinkString(key: nat, str: Pos) returns (hashHead: Pos)
      requires head != prev && prev.Length > 0 && key < head.Length
      modifies head, prev
      ensures hashHead == old(head[key])
      ensures head[..] == old(head[..])[key := str]
      ensures prev[..] == old(prev[..])[str % prev.Length := hashHead]
    {
      hashHead := head[key];
      prev[str % prev.Length] := hashHead;
      head[key] := str;
    }

    /** INSERT_STRING(s, str): returns the previous head of the chain. */
    method InsertString(str: nat) returns (hashHead: Pos)
      requires Params() && WindowOk() && ChainsOk() && top <= base + str
      requires str < 0x1_0000 && str + 3 <= strstart + lookahead
      requires Rolled(hashBits, insH, data[base + str], data[base + str + 1])
      modifies this`insH, this`ins, this`top, head, prev
      ensures ChainsOk() && top == base + str + 1
      ensures Rolled(hashBits, insH, data[base + str + 1], data[base + str + 2])
      ensures hashHead != NIL ==> Known(hashBits, data, base, ins, base + hashHead, base + str, KeyAt(hashBits, data, base + str))
      ensures ins == old(ins) + {base + str}
      ensures Linked(old(head[..]), old(prev[..]), head[..], prev[..], KeyAt(hashBits, data, base + str), str, hashHead)
    {
      hide Rolled, Slot, ChainsOk, LinkOk, Known, HashSize, Linked;
      UpdateKey(str);
      hide KeyAt, Index;
      hashHead := LinkUnderKey(str);
    }

    method LinkUnderKey(str: nat) returns (hashHead: Pos)
      requires Params() && ChainsOk() && top <= base + str && str < 0x1_0000 && base + str + 3 <= |data|
      requires Index(insH) == KeyAt(hashBits, data, base + str) < head.Length
      modifies this`ins, this`top, head, prev
      ensures ChainsOk() && top == base + str + 1
      ensures hashHead != NIL ==> Known(hashBits, data, base, ins, base + hashHead, base + str, KeyAt(hashBits, data, base + str))
      ensures ins == old(ins) + {base + str}
      ensures Linked(old(head[..]), old(prev[..]), head[..], prev[..], KeyAt(hashBits, data, base + str), str, hashHead)
    {
      hide Slot, TablesOk, LinkOk, Known, HashSize, KeyAt, Index;
      InsertKeepsTables(hashBits, head[..], prev[..], data, base, top, ins, str);
      hashHead := LinkString(Index(insH), str);
      LinkKnown(hashBits, data, base, ins + {base + str}, hashHead, base + str, KeyAt(hashBits, data, base + str));
      ins, top := ins + {base + str}, base + str + 1;
    }

    /** slide_hash: every entry of both tables moves down with the window. */
    method SlideHash()
      requires Params()
      modifies head, prev
      ensures head[..] == RebaseAll(old(head[..]), wSize)
      ensures prev[..] == RebaseAll(old(prev[..]), wSize)
    {
      RebaseTable(head);
      RebaseTable(prev);
    }

    method RebaseTable(table: array<Pos>)
      modifies table
      ensures table[..] == RebaseAll(old(table[..]), wSize)
    {
      var n := table.Length;
      while n > 0
        invariant 0 <= n <= table.Length
        invariant forall i :: 0 <= i < n ==> table[i] == old(table[i])
        invariant forall i :: n <= i < table.Length ==> table[i] == Rebase(old(table[i]), wSize)
      {
        n := n - 1;
        var m := table[n];
        table[n] := if m >= wSize then m - wSize else NIL;
      }
    }

    // ---- reading input ---------------------------------------------------------------

    /** memcpy of the live part of the upper half onto the lower half. */
    method MoveDown(n: nat)
      requires window.Length == 2 * wSize && n <= wSize
      modifies window
      ensures window[..n] == old(window[wSize..wSize + n])
    {
      forall i | 0 <= i < n {
        window[i] := window[wSize + i];
      }
    }

    method MoveWindow()
      requires Params() && WindowOk() && wSize <= strstart
      modifies window
      ensures window[..strstart - wSize + lookahead] == data[base + wSize..]
    {
      var n := strstart + lookahead - wSize;
      assert window[wSize..wSize + n] == data[base + wSize..] by {
        assert window[..strstart + lookahead][wSize..] == window[wSize..wSize + n];
        assert data[base..][wSize..] == data[base + wSize..];
      }
      MoveDown(n);
    }

    /** The window is full enough: its upper half moves down and every table entry
        with it.  matchStart may wrap below zero; only its distance from strstart counts. */
    method SlideWindow()
      requires Valid() && strstart >= wSize + MaxDist()
      modifies window, head, prev, this`matchStart, this`strstart, this`base
      ensures Valid()
      ensures At() == old(At()) && strstart == old(strstart) - wSize
      ensures Sub32(strstart, matchStart) == old(Sub32(strstart, matchStart))
    {
      hide TablesOk, KeyReady, TallyOk, RebaseAll;
      MoveWindow();
      SubSlide(strstart, matchStart, wSize);
      hide Sub32;
      SlideKeepsTables(hashBits, head[..], prev[..], data, base, top, ins);
      SlideHash();
      matchStart := Sub32(matchStart, wSize);
      strstart := strstart - wSize;
      base := base + wSize;
      assert ChainsOk() && WindowOk();
    }

    /** memcpy from the input. */
    method CopyIn(end: nat, n: nat)
      requires end + n <= window.Length && n <= |nextIn|
      modifies window
      ensures window[..end + n] == old(window[..end]) + nextIn[..n]
    {
      forall i | 0 <= i < n {
        window[end + i] := nextIn[i];
      }
    }

    /** read_buf, appending behind the lookahead. */
    method ReadBuf(size: nat)
      requires Loaded() && strstart + lookahead + size <= window.Length
      modifies window, this`nextIn, this`lookahead, this`data
      ensures Loaded()
      ensures old(data) <= data && data + nextIn == old(data + nextIn)
      ensures size > 0 && old(nextIn) != [] ==> |nextIn| < |old(nextIn)|
    {
      hide TablesOk, TallyOk;
      var n := if |nextIn| > size then size else |nextIn|;
      ghost var data' := data + nextIn[..n];
      Appended(data, base, nextIn, n);
      CopyIn(strstart + lookahead, n);
      GrowKeepsTables(hashBits, head[..], prev[..], data, base, top, ins, data');
      data := data';
      lookahead := lookahead + n;
      nextIn := nextIn[n..];
    }

    /** ins_h for the string at str, from its first two bytes; garbage when the data
        ends before them. */
    method FirstTwo(str: nat) returns (h: bv16)
      requires WindowOk() && str + 2 <= window.Length
      ensures str + 2 <= strstart + lookahead ==> Rolled(hashBits, h, data[base + str], data[base + str + 1])
    {
      hide Rolled;
      if str + 2 <= strstart + lookahead {
        WindowAt(str);
        WindowAt(str + 1);
      }
      FirstByte(hashBits, window[str]);
      HashForgets(hashBits, 0, window[str], window[str + 1]);
      h := UpdateHash(hashBits, window[str] as bv16, window[str + 1]);
    }

    /** Strings skipped at the end of earlier input are inserted as soon as their
        three bytes are there. */
    method InsertSkipped()
      requires Loaded() && lookahead + insert >= MIN_MATCH
      requires Rolled(hashBits, insH, data[base + strstart - insert], data[base + strstart - insert + 1])
      modifies this`insH, this`insert, this`ins, this`top, head, prev
      ensures Loaded()
      ensures lookahead + insert < MIN_MATCH
              || (insert == 0 && Rolled(hashBits, insH, data[base + strstart], data[base + strstart + 1]))
      ensures insert <= old(insert) && (insert < old(insert) ==> At() - insert + 2 <= |data|)
      ensures ins == old(ins) + Strings(data, At() - old(insert), At() - insert)
    {
      hide ChainsOk, TallyOk, LinkOk, Known, KeyAt, Rolled, Strings, WindowOk;
      var str := strstart - insert;
      Lengths();
      StringsOne(data, At() - insert);
      while insert > 0
        invariant insert <= old(insert) && (insert < old(insert) ==> At() - insert + 2 <= |data|)
        invariant ins == old(ins) + Strings(data, At() - old(insert), At() - insert)
        invariant insert <= strstart && str == strstart - insert && Loaded()
        invariant lookahead + insert >= MIN_MATCH
        invariant Rolled(hashBits, insH, data[base + str], data[base + str + 1])
        decreases insert
      {
        Lengths();
        StringsJoin(data, At() - old(insert), base + str, base + str + 1);
        StringsOne(data, base + str);
        InsertOneSkipped(str);
        str := str + 1;
        if lookahead + insert < MIN_MATCH { break; }
      }
    }

    method InsertOneSkipped(str: nat)
      requires Loaded() && lookahead + insert >= MIN_MATCH && 0 < insert && str == strstart - insert
      requires Rolled(hashBits, insH, data[base + str], data[base + str + 1])
      modifies this`insH, this`insert, this`ins, this`top, head, prev
      ensures Loaded() && insert == old(insert) - 1 && ins == old(ins) + {base + str}
      ensures Rolled(hashBits, insH, data[base + str + 1], data[base + str + 2])
    {
      hide ChainsOk, TallyOk, LinkOk, KeyAt, Rolled;
      var _ := InsertString(str);
      insert := insert - 1;
    }

    /** The key is started afresh after every read. */
    method StartKey()
      requires Loaded()
      modifies this`insH, this`insert, this`ins, this`top, head, prev
      ensures Valid() && (insert == 0 || lookahead + insert < MIN_MATCH)
      ensures insert <= old(insert) && (insert < old(insert) ==> At() - insert + 2 <= |data|)
      ensures ins == old(ins) + Strings(data, At() - old(insert), At() - insert)
    {
      hide TablesOk, Rolled, Slots, Strings;
      StringsOne(data, At() - insert);
      if lookahead + insert >= MIN_MATCH {
        insH := FirstTwo(strstart - insert);
        InsertSkipped();
      }
    }

    /** zmemzero. */
    method Zero(start: nat, n: nat)
      requires start + n <= window.Length
      modifies window
      ensures window[..start] == old(window[..start])
    {
      forall i | start <= i < start + n { window[i] := 0; }
    }

    /** The bytes just behind the data, never written so far, are zeroed. */
    method ZeroAhead()
      requires Valid()
      modifies window, this`highWater
      ensures Valid()
    {
      hide TablesOk, Slots, Rolled;
      var curr := strstart + lookahead;
      if highWater < window.Length {
        if highWater < curr {
          var init := window.Length - curr;
          if init > MAX_MATCH { init := MAX_MATCH; }
          Zero(curr, init);
          highWater := curr + init;
        } else if highWater < curr + MAX_MATCH {
          var init := curr + MAX_MATCH - highWater;
          if init > window.Length - highWater { init := window.Length - highWater; }
          Zero(highWater, init);
          assert window[..curr] == window[..highWater][..curr];
          highWater := highWater + init;
        }
      }
      assert WindowOk();
    }

    /** Reads, and inserts the strings pending that now have three bytes; first of them were pending when
        ins was `was`. */
    method ReadMore(size: nat, ghost first: nat, ghost was: set<nat>)
      requires Valid() && strstart + lookahead + size <= window.Length && size > 0 && nextIn != []
      requires insert <= first <= At() && (insert < first ==> At() - insert + 2 <= |data|)
      requires ins == was + Strings(data, At() - first, At() - insert)
      modifies window, head, prev, this`nextIn, this`lookahead, this`data, this`insH, this`insert, this`ins, this`top
      ensures Valid() && (insert == 0 || lookahead + insert < MIN_MATCH)
      ensures old(data) <= data && data + nextIn == old(data + nextIn) && |nextIn| < |old(nextIn)|
      ensures insert <= first && (insert < first ==> At() - insert + 2 <= |data|)
      ensures ins == was + Strings(data, At() - first, At() - insert)
    {
      hide TablesOk, Rolled, Slots, Strings, WindowOk, ChainsOk, TallyOk, KeyOk;
      ghost var data0, from, mid := data, At() - first, At() - insert;
      ReadBuf(size);
      StringsKept(data0, from, mid, data);
      StartKey();
      StringsJoin(data, from, mid, At() - insert);
    }

    /** How much there is room for, once the window has slid if it is almost full. */
    method MakeRoom() returns (more: nat)
      requires Valid() && lookahead < MIN_LOOKAHEAD
      modifies window, head, prev, this`matchStart, this`strstart, this`base
      ensures Valid() && At() == old(At()) && (old(strstart) > 0 ==> strstart > 0)
      ensures more == window.Length - lookahead - strstart && more >= 2 && strstart + MIN_LOOKAHEAD <= window.Length
      ensures old(strstart) < WORD && strstart < WORD && Sub32(strstart, matchStart) == old(Sub32(strstart, matchStart))
    {
      hide Valid, Sub32;
      Bounds();
      more := window.Length - lookahead - strstart;
      if strstart >= wSize + MaxDist() {
        SlideWindow();
        more := more + wSize;
      }
      Bounds();
    }

    /** fill_window: reads what there is room for, sliding the window when it is
        almost full.  The absolute position and everything pending stay put. */
    method FillWindow()
      requires Valid() && lookahead < MIN_LOOKAHEAD
      modifies window, head, prev, this`nextIn, this`lookahead, this`data, this`insH, this`insert, this`ins, this`top,
               this`matchStart, this`strstart, this`base, this`highWater
      ensures Valid()
      ensures At() == old(At())
      ensures strstart + MIN_LOOKAHEAD <= window.Length
      ensures old(strstart) > 0 ==> strstart > 0
      ensures lookahead >= MIN_LOOKAHEAD || nextIn == []
      ensures old(data) <= data && data + nextIn == old(data + nextIn)
      ensures Sub32(strstart, matchStart) == old(Sub32(strstart, matchStart))
      ensures insert <= old(insert) && (nextIn != old(nextIn) ==> insert == 0 || lookahead + insert < MIN_MATCH)
      ensures ins == old(ins) + Strings(data, At() - old(insert), At() - insert)
    {
      hide Valid, WindowOk, Sub32, Strings;
      Bounds();
      StringsOne(data, At() - insert);
      var again := true;
      while again
        invariant Valid() && At() == old(At())
        invariant insert <= old(insert) && (insert < old(insert) ==> At() - insert + 2 <= |data|)
        invariant nextIn != old(nextIn) ==> insert == 0 || lookahead + insert < MIN_MATCH
        invariant ins == old(ins) + Strings(data, At() - old(insert), At() - insert)
        invariant (old(strstart) > 0 ==> strstart > 0) && strstart < WORD
        invariant if again then lookahead < MIN_LOOKAHEAD
                  else strstart + MIN_LOOKAHEAD <= window.Length && (lookahead >= MIN_LOOKAHEAD || nextIn == [])
        invariant old(data) <= data && data + nextIn == old(data + nextIn)
        invariant Sub32(strstart, matchStart) == old(Sub32(strstart, matchStart))
        decreases again, |nextIn|
      {
        again := FillTurn(old(insert), old(ins));
      }
      ZeroAhead();
    }

    /** One turn of the loop of fill_window; the result says whether there is another. */
    method FillTurn(ghost first: nat, ghost was: set<nat>) returns (again: bool)
      requires Valid() && lookahead < MIN_LOOKAHEAD && strstart < WORD
      requires insert <= first <= At() && (insert < first ==> At() - insert + 2 <= |data|)
      requires ins == was + Strings(data, At() - first, At() - insert)
      modifies window, head, prev, this`nextIn, this`lookahead, this`data, this`insH, this`insert, this`ins, this`top,
               this`matchStart, this`strstart, this`base
      ensures Valid() && At() == old(At()) && (old(strstart) > 0 ==> strstart > 0) && strstart < WORD
      ensures strstart + MIN_LOOKAHEAD <= window.Length
      ensures if nextIn == old(nextIn) then !again && nextIn == [] && insert == old(insert) && lookahead == old(lookahead)
              else (insert == 0 || lookahead + insert < MIN_MATCH) && |nextIn| < |old(nextIn)|
      ensures again <==> lookahead < MIN_LOOKAHEAD && nextIn != []
      ensures insert <= first && (insert < first ==> At() - insert + 2 <= |data|)
      ensures ins == was + Strings(data, At() - first, At() - insert)
      ensures old(data) <= data && data + nextIn == old(data + nextIn)
      ensures Sub32(strstart, matchStart) == old(Sub32(strstart, matchStart))
    {
      hide Valid, WindowOk, Sub32, Strings;
      Bounds();
      again := false;
      var more := MakeRoom();
      if nextIn != [] {
        Bounds();
        ReadMore(more, first, was);
        Bounds();
        again := lookahead < MIN_LOOKAHEAD && nextIn != [];
      }
    }

    // ---- searching -------------------------------------------------------------------

    /** The next n bytes at strstart also stand at the window index c. */
    ghost predicate Agree(c: nat, n: nat)
      requires c < strstart && strstart + n <= window.Length
      reads `strstart, window
    {
      window[c..c + n] == window[strstart..strstart + n]
    }

    lemma AgreeStep(c: nat, n: nat)
      requires c < strstart && strstart + n < window.Length && Agree(c, n)
      ensures Agree(c, n + 1) <==> window[c + n] == window[strstart + n]
    {
      assert window[c..c + n + 1] == window[c..c + n] + [window[c + n]];
      assert window[strstart..strstart + n + 1] == window[strstart..strstart + n] + [window[strstart + n]];
    }

    /** Eight comparisons in a row, each after advancing both pointers. */
    method CompareEight(cur: nat, n: nat) returns (len: nat, same: bool)
      requires cur < strstart && strstart + n + 8 < window.Length
      requires Agree(cur, n + 1)
      ensures n < len <= n + 8 && Agree(cur, len)
      ensures same <==> Agree(cur, len + 1)
      ensures same ==> len == n + 8
    {
      hide Agree;
      len, same := n, true;
      var u := 0;
      while u < 8 && same
        invariant u <= 8 && len == n + u && (u > 0 ==> Agree(cur, len))
        invariant same <==> Agree(cur, len + 1)
        invariant u == 0 ==> same
      {
        u, len := u + 1, len + 1;
        AgreeStep(cur, len);
        same := window[strstart + len] == window[cur + len];
      }
    }

    /** The unrolled comparison of longest_match: the first difference behind the
        three bytes known to agree, looked for up to MAX_MATCH. */
    method Extend(cur: nat) returns (len: nat)
      requires cur < strstart && strstart + MAX_MATCH < window.Length
      requires Agree(cur, MIN_MATCH)
      ensures MIN_MATCH <= len <= MAX_MATCH
      ensures Agree(cur, len)
      ensures len < MAX_MATCH ==> !Agree(cur, len + 1)
    {
      hide Agree;
      len := 2;
      var same := true;
      while same && len < MAX_MATCH
        invariant 2 <= len <= MAX_MATCH && (len > 2 ==> Agree(cur, len))
        invariant same ==> (MAX_MATCH - len) % 8 == 0
        invariant same <==> Agree(cur, len + 1)
        invariant len == 2 ==> same
        decreases MAX_MATCH - len
      {
        len, same := CompareEight(cur, len);
      }
    }

    lemma AgreePrefix(c: nat, m: nat, n: nat)
      requires c < strstart && strstart + n <= window.Length && m <= n && Agree(c, n)
      ensures Agree(c, m)
    {
      assert window[c..c + m] == window[c..c + n][..m];
      assert window[strstart..strstart + m] == window[strstart..strstart + n][..m];
    }

    lemma AgreeAt(c: nat, n: nat, k: nat)
      requires c < strstart && strstart + n <= window.Length && k < n && Agree(c, n)
      ensures window[c + k] == window[strstart + k]
    {
      assert window[c..c + n][k] == window[strstart..strstart + n][k];
    }

    /** Within the lookahead, agreeing bytes are a match in the data. */
    lemma AgreeIsMatch(c: nat, n: nat)
      requires WindowOk() && c < strstart && n <= lookahead
      ensures Agree(c, n) <==> IsMatch(data, At(), strstart - c, n)
    {
      hide WindowOk, Agree;
      WindowFits();
      if Agree(c, n) {
        forall i | At() <= i < At() + n ensures data[i] == data[i - (strstart - c)] {
          var k := i - At();
          AgreeAt(c, n, k);
          WindowAt(c + k);
          WindowAt(strstart + k);
        }
      }
      if IsMatch(data, At(), strstart - c, n) { MatchAgrees(c, n); }
    }

    lemma WindowFits()
      requires WindowOk()
      ensures strstart + lookahead <= window.Length && |data| == At() + lookahead
    {
    }

    lemma MatchAgrees(c: nat, n: nat)
      requires WindowOk() && c < strstart && n <= lookahead && IsMatch(data, At(), strstart - c, n)
      ensures strstart + n <= window.Length && Agree(c, n)
    {
      hide WindowOk;
      WindowFits();
      forall i | strstart <= i < strstart + n ensures window[i - (strstart - c)] == window[i] {
        WindowAt(i - (strstart - c));
        WindowAt(i);
        assert data[base + i] == data[base + i - (strstart - c)];
      }
    }

    lemma WindowAt(i: nat)
      requires WindowOk() && i < strstart + lookahead
      ensures window[i] == data[base + i]
    {
      assert window[..strstart + lookahead][i] == data[base..][i];
    }

    /** A candidate passing the first comparisons agrees in its third byte too. */
    lemma FirstThree(cur: nat)
      requires WindowOk() && 0 < cur < strstart && lookahead >= MIN_MATCH
      requires Known(hashBits, data, base, ins, base + cur, At(), KeyAt(hashBits, data, At()))
      requires window[cur] == window[strstart] && window[cur + 1] == window[strstart + 1]
      ensures Agree(cur, MIN_MATCH)
    {
      hide KeyAt;
      WindowAt(cur); WindowAt(cur + 1); WindowAt(cur + 2);
      WindowAt(strstart); WindowAt(strstart + 1); WindowAt(strstart + 2);
      ThirdByteAt(hashBits, data, base + cur, At());
    }

    lemma AgreeFour(cur: nat, bestLen: nat)
      requires cur < strstart && 1 <= bestLen <= MAX_MATCH && strstart + MAX_MATCH < window.Length
      requires Agree(cur, bestLen + 1)
      ensures window[cur + bestLen] == window[strstart + bestLen]
      ensures window[cur + bestLen - 1] == window[strstart + bestLen - 1]
      ensures window[cur] == window[strstart] && window[cur + 1] == window[strstart + 1]
    {
      hide Agree;
      AgreeAt(cur, bestLen + 1, bestLen);
      AgreeAt(cur, bestLen + 1, bestLen - 1);
      AgreeAt(cur, bestLen + 1, 0);
      AgreeAt(cur, bestLen + 1, 1);
    }

    /** The four comparisons made first: if one fails, the candidate cannot be
        longer than the best so far. */
    method QuickCheck(cur: nat, bestLen: nat) returns (skip: bool)
      requires cur < strstart && 1 <= bestLen <= MAX_MATCH && strstart + MAX_MATCH < window.Length
      ensures skip ==> !Agree(cur, bestLen + 1)
      ensures !skip ==> window[cur] == window[strstart] && window[cur + 1] == window[strstart + 1]
    {
      hide Agree;
      if Agree(cur, bestLen + 1) { AgreeFour(cur, bestLen); }
      skip := window[cur + bestLen] != window[strstart + bestLen]
        || window[cur + bestLen - 1] != window[strstart + bestLen - 1]
        || window[cur] != window[strstart]
        || window[cur + 1] != window[strstart + 1];
    }

    /** One candidate: skipped, or measured. */
    method Consider(cur: nat, bestLen: nat) returns (best: nat)
      requires WindowOk() && 0 < cur < strstart && 2 <= bestLen <= MAX_MATCH && strstart + MAX_MATCH < window.Length
      requires lookahead >= MIN_MATCH
      requires Known(hashBits, data, base, ins, base + cur, At(), KeyAt(hashBits, data, At()))
      ensures bestLen <= best <= MAX_MATCH
      ensures best > bestLen ==> Agree(cur, best)
      ensures best < MAX_MATCH ==> !Agree(cur, best + 1)
    {
      hide Agree, KeyAt, Known, WindowOk;
      best := bestLen;
      var skip := QuickCheck(cur, bestLen);
      if !skip {
        FirstThree(cur);
        var len := Extend(cur);
        if len > bestLen {
          best := len;
        } else if bestLen < MAX_MATCH && Agree(cur, bestLen + 1) {
          AgreePrefix(cur, len + 1, bestLen + 1);
        }
      }
    }

    ghost predicate BestSoFar(bestLen: nat, start: nat)
      requires Params() && strstart + MAX_MATCH < window.Length
      reads this, window
    {
      && prevLength <= bestLen <= MAX_MATCH
      && (bestLen > prevLength ==>
            start < strstart && strstart - start <= MaxDist() && Agree(start, bestLen))
    }

    ghost predicate NoneLonger(seen: seq<nat>, bestLen: nat)
      requires strstart + MAX_MATCH < window.Length
      reads this, window
    {
      bestLen < MAX_MATCH ==> forall c :: c in seen ==> c < strstart && !Agree(c, bestLen + 1)
    }

    lemma NoneLongerStep(seen: seq<nat>, cur: nat, bestLen: nat, len: nat)
      requires cur < strstart && strstart + MAX_MATCH < window.Length
      requires NoneLonger(seen, bestLen) && bestLen <= len
      requires len < MAX_MATCH ==> !Agree(cur, len + 1)
      ensures NoneLonger(seen + [cur], len)
    {
      if len < MAX_MATCH {
        forall c | c in seen + [cur] ensures c < strstart && !Agree(c, len + 1) {
          if c != cur && Agree(c, len + 1) {
            AgreePrefix(c, bestLen + 1, len + 1);
          }
        }
      }
    }

    /** What the search found out, said about the data. */
    lemma SearchResult(seen: seq<nat>, bestLen: nat, start: nat, r: nat)
      requires Params() && WindowOk() && strstart + MIN_LOOKAHEAD <= window.Length
      requires BestSoFar(bestLen, start) && NoneLonger(seen, bestLen)
      requires r == if bestLen <= lookahead then bestLen else lookahead
      ensures r > prevLength ==> Found(start, r)
      ensures r < lookahead && r < MAX_MATCH ==> Unbeaten(data, At(), strstart, seen, r)
    {
      hide WindowOk, IsMatch;
      if r > prevLength {
        AgreePrefix(start, r, bestLen);
        AgreeIsMatch(start, r);
      }
      if r < lookahead && r < MAX_MATCH {
        forall c | c in seen ensures Beaten(data, At(), strstart, c, r) {
          AgreeIsMatch(c, r + 1);
        }
      }
    }

    /** A true match of length r at window index start, no further back than MaxDist. */
    ghost predicate Found(start: nat, r: nat)
      requires Params()
      reads `strstart, `data, `base
    {
      start < strstart && strstart - start <= MaxDist() && IsMatch(data, At(), strstart - start, r)
    }

    /** longest_match.  A result above prevLength is a true match at matchStart, no
        further back than MaxDist and within the lookahead; and no candidate of the
        chain would have matched one byte more, unless the result is already nice. */
    method LongestMatch(curMatch: nat) returns (r: nat)
      requires Params() && WindowOk() && ChainsOk() && top <= At() + 1
      requires lookahead >= MIN_MATCH && strstart + MIN_LOOKAHEAD <= window.Length
      requires 0 < curMatch < strstart && strstart - curMatch <= MaxDist()
      requires Known(hashBits, data, base, ins, base + curMatch, At(), KeyAt(hashBits, data, At()))
      requires 2 <= prevLength <= MAX_MATCH
      modifies this`matchStart
      ensures r <= lookahead && r <= MAX_MATCH
      ensures r <= prevLength ==> r == prevLength || r == lookahead
      ensures r > prevLength ==> Found(matchStart, r)
      ensures r < lookahead && r < niceMatch && r < MAX_MATCH ==>
                Unbeaten(data, At(), strstart, old(Candidates(curMatch, prevLength)), r)
    {
      var start;
      r, start := Search(curMatch);
      if r > prevLength { matchStart := start; }
    }

    /** One candidate: it becomes the best so far if it is longer. */
    method Visit(cur: nat, bestLen: nat, start: nat, ghost seen: seq<nat>) returns (longer: bool, best: nat, start': nat)
      requires Params() && WindowOk() && ChainsOk() && top <= At() + 1
      requires lookahead >= MIN_MATCH && strstart + MIN_LOOKAHEAD <= window.Length
      requires 0 < cur < strstart && strstart - cur <= MaxDist() && 2 <= prevLength <= bestLen <= MAX_MATCH
      requires Known(hashBits, data, base, ins, base + cur, At(), KeyAt(hashBits, data, At()))
      requires BestSoFar(bestLen, start) && NoneLonger(seen, bestLen)
      ensures prevLength <= best <= MAX_MATCH && (longer <==> best > bestLen)
      ensures BestSoFar(best, start') && NoneLonger(seen + [cur], best)
    {
      hide Agree, TablesOk, Known, KeyAt, IsMatch, NoneLonger, Found, BestSoFar, ChainsOk;
      var len := Consider(cur, bestLen);
      NoneLongerStep(seen, cur, bestLen, len);
      longer, best, start' := false, bestLen, start;
      if len > bestLen {
        longer, best, start' := true, len, cur;
        NewBest(cur, len);
      }
      assert NoneLonger(seen + [cur], best);
    }

    /** The loop of longest_match. */
    method Search(curMatch: nat) returns (r: nat, start: nat)
      requires Params() && WindowOk() && ChainsOk() && top <= At() + 1
      requires lookahead >= MIN_MATCH && strstart + MIN_LOOKAHEAD <= window.Length
      requires 0 < curMatch < strstart && strstart - curMatch <= MaxDist()
      requires Known(hashBits, data, base, ins, base + curMatch, At(), KeyAt(hashBits, data, At()))
      requires 2 <= prevLength <= MAX_MATCH
      ensures r <= lookahead && r <= MAX_MATCH
      ensures r <= prevLength ==> r == prevLength || r == lookahead
      ensures r > prevLength ==> Found(start, r)
      ensures r < lookahead && r < niceMatch && r < MAX_MATCH ==>
                Unbeaten(data, At(), strstart, Candidates(curMatch, prevLength), r)
    {
      hide Agree, TablesOk, Known, KeyAt, IsMatch, NoneLonger, Unbeaten, Found, BestSoFar, Chain, ChainsOk;
      var chainLength: nat := if prevLength >= goodMatch then maxChainLength / 4 else maxChainLength;
      var nice := if niceMatch > lookahead then lookahead else niceMatch;
      var limit: nat := if strstart > MaxDist() then strstart - MaxDist() else NIL;
      var cur, bestLen := curMatch, prevLength;
      start := 0;
      ghost var seen: seq<nat> := [];
      NothingSeen(bestLen, start);
      while true
        invariant 1 <= chainLength && 0 < cur < strstart && strstart - cur <= MaxDist()
        invariant Candidates(curMatch, prevLength) == seen + Chain(prev[..], cur, limit, chainLength)
        invariant Known(hashBits, data, base, ins, base + cur, At(), KeyAt(hashBits, data, At()))
        invariant prevLength <= bestLen <= MAX_MATCH
        invariant BestSoFar(bestLen, start) && NoneLonger(seen, bestLen)
        decreases chainLength
      {
        var longer;
        longer, bestLen, start := Visit(cur, bestLen, start, seen);
        seen := seen + [cur];
        if longer && bestLen >= nice { break; }
        NextCandidate(cur);
        ChainStep(prev[..], seen[..|seen| - 1], cur, limit, chainLength);
        assert seen == seen[..|seen| - 1] + [cur];
        cur := prev[cur % wSize];
        chainLength := chainLength - 1;
        if cur <= limit || chainLength == 0 {
          assert Candidates(curMatch, prevLength) == seen;
          break;
        }
      }
      r := if bestLen <= lookahead then bestLen else lookahead;
      SearchResult(seen, bestLen, start, r);
    }

    lemma NothingSeen(bestLen: nat, start: nat)
      requires Params() && strstart + MAX_MATCH < window.Length && bestLen == prevLength <= MAX_MATCH
      ensures NoneLonger([], bestLen) && BestSoFar(bestLen, start)
    {
    }

    lemma NewBest(start: nat, len: nat)
      requires Params() && strstart + MAX_MATCH < window.Length
      requires prevLength <= len <= MAX_MATCH && start < strstart && strstart - start <= MaxDist() && Agree(start, len)
      ensures BestSoFar(len, start)
    {
    }

    lemma NextCandidate(cur: nat)
      requires Params() && WindowOk() && ChainsOk() && top <= At() + 1 && lookahead >= MIN_MATCH
      requires 0 < cur < strstart && strstart - cur <= MaxDist()
      requires Known(hashBits, data, base, ins, base + cur, At(), KeyAt(hashBits, data, At()))
      ensures prev[cur % wSize] != 0 ==>
                prev[cur % wSize] < cur &&
                Known(hashBits, data, base, ins, base + prev[cur % wSize], At(), KeyAt(hashBits, data, At()))
    {
      hide TablesOk, KeyAt;
      NextLink(hashBits, head[..], prev[..], data, base, top, ins, cur, At(), KeyAt(hashBits, data, At()));
    }

    // ---- the two compressors: common steps --------------------------------------------

    /** After the string at strstart has been inserted, if it has three bytes. */
    ghost predicate Inserted()
      reads `strstart, `lookahead, `insert, `data, `base, `ins, `top, `insH, `lastLit, `tokens, `flushed,
            window, head, prev, dBuf, lBuf
    {
      && Params() && WindowOk() && TallyOk() && ChainsOk()
      && (lookahead >= MIN_MATCH ==>
            insert == 0 && top <= At() + 1
            && Rolled(hashBits, insH, data[At() + 1], data[At() + 2]))
      && (lookahead < MIN_MATCH ==> top + insert <= At())
    }

    /** A chain head worth searching from. */
    ghost predicate Searchable(hashHead: nat)
      requires Params()
      reads `strstart, `lookahead, `data, `base, `ins
    {
      && lookahead >= MIN_MATCH && |data| == At() + lookahead
      && 0 < hashHead < strstart
      && Known(hashBits, data, base, ins, base + hashHead, At(), KeyAt(hashBits, data, At()))
    }

    /** Inserts the string at strstart, if it has three bytes. The result is the head of its chain before;
        the candidates that a search from there visits are those the tables held before the insertion. */
    method InsertHere(ghost best: nat) returns (hashHead: Pos)
      requires Valid() && lookahead > 0
      modifies this`insH, this`ins, this`top, head, prev
      ensures Inserted()
      ensures hashHead != NIL ==> Searchable(hashHead)
      ensures hashHead == old(HeadOf()) && CandidatesFrom(hashHead, best) == old(CandidatesFrom(HeadOf(), best))
      ensures ins == old(ins) + Strings(data, At(), At() + 1)
    {
      hide TablesOk, Rolled, KeyAt, Slots, Strings, CandidatesFrom, Known;
      StringsOne(data, At());
      hashHead := NIL;
      if lookahead >= MIN_MATCH {
        hashHead := InsertAhead(best);
      }
    }

    /** With three bytes ahead. */
    method InsertAhead(ghost best: nat) returns (hashHead: Pos)
      requires Params() && WindowOk() && ChainsOk() && top <= At() && lookahead >= MIN_MATCH && strstart < 0x1_0000
      requires Rolled(hashBits, insH, data[At()], data[At() + 1])
      modifies this`insH, this`ins, this`top, head, prev
      ensures ChainsOk() && top == At() + 1 && Rolled(hashBits, insH, data[At() + 1], data[At() + 2])
      ensures hashHead != NIL ==>
                0 < hashHead < strstart &&
                Known(hashBits, data, base, ins, base + hashHead, At(), KeyAt(hashBits, data, At()))
      ensures hashHead == old(HeadOf()) && CandidatesFrom(hashHead, best) == old(CandidatesFrom(HeadOf(), best))
      ensures ins == old(ins) + {At()}
    {
      hide TablesOk, WindowOk, LinkOk, Rolled, KeyAt, Chain;
      Lengths();
      HeadKnown();
      ghost var head0, prev0, top0, ins0 := head[..], prev[..], top, ins;
      hashHead := InsertString(strstart);
      SameCandidates(head0, prev0, top0, ins0, hashHead, best);
    }

    lemma Lengths()
      requires WindowOk()
      ensures |data| == At() + lookahead && strstart + lookahead <= window.Length && insert <= strstart
    {
    }

    /** The head of the chain is the newest string with the key. */
    lemma HeadKnown()
      requires Params() && ChainsOk() && |data| == At() + lookahead && lookahead >= MIN_MATCH
      ensures LinkOk(hashBits, data, base, ins, HeadOf(), top, KeyAt(hashBits, data, At()))
    {
      hide LinkOk, KeyAt;
      KeyInRange(hashBits, data, At());
    }

    /** Every string in the window with the three bytes at strstart is a candidate, if it is nearer than MaxDist
        and the number of candidates is not used up: so the result of a search that nothing cut short is the
        longest match there is. */
    lemma CandidatesComplete(q: nat, best: nat)
      requires Valid() && lookahead >= MIN_MATCH && 0 < q < strstart && strstart - q < MaxDist() && base + q in ins
      requires data[base + q] == data[At()] && data[base + q + 1] == data[At() + 1] && data[base + q + 2] == data[At() + 2]
      ensures CandidatesFrom(HeadOf(), best) != []
      ensures |CandidatesFrom(HeadOf(), best)| < Budget(best) ==> q in CandidatesFrom(HeadOf(), best)
    {
      hide TablesOk, KeyAt, Known, LinkOk, Chain, Budget, KeyOk, TallyOk;
      var key, limit := KeyAt(hashBits, data, At()), if strstart > MaxDist() then strstart - MaxDist() else NIL;
      SameBytesKnown(hashBits, head[..], prev[..], data, base, top, ins, base + q, At());
      HeadKnown();
      ChainComplete(hashBits, head[..], prev[..], data, base, top, ins, HeadOf(), limit, Budget(best), top, key, q);
      SomeCandidates(HeadOf(), best);
    }

    lemma SomeCandidates(curMatch: nat, best: nat)
      requires Params()
      ensures Candidates(curMatch, best) != []
    {
    }

    lemma SameCandidates(head0: seq<Pos>, prev0: seq<Pos>, top0: nat, ins0: set<nat>, hashHead: Pos, best: nat)
      requires Params() && TablesOk(hashBits, head0, prev0, data, base, top0, ins0) && top0 <= At()
      requires |data| == At() + lookahead && lookahead >= MIN_MATCH && |prev0| == wSize
      requires LinkOk(hashBits, data, base, ins0, hashHead, top0, KeyAt(hashBits, data, At()))
      requires prev[..] == prev0[strstart % wSize := hashHead]
      ensures CandidatesFrom(hashHead, best) ==
        if hashHead != NIL && strstart - hashHead <= MaxDist()
        then Chain(prev0, hashHead, if strstart > MaxDist() then strstart - MaxDist() else NIL, Budget(best)) else []
    {
      hide TablesOk, KeyAt, Chain, Budget;
      if hashHead != NIL && strstart - hashHead <= MaxDist() {
        ChainAfterInsert(hashBits, head0, prev0, prev[..], data, base, top0, ins0, strstart, hashHead,
                         if strstart > MaxDist() then strstart - MaxDist() else NIL, Budget(best), top0,
                         KeyAt(hashBits, data, At()));
      }
    }

    /** Moves strstart over a match whose first string is already inserted, inserting
        every other string that has three bytes. */
    method AdvanceInserting(n: nat)
      requires Inserted() && 1 <= n <= lookahead
      modifies this`strstart, this`lookahead, this`insH, this`ins, this`top, head, prev
      ensures Valid() && strstart == old(strstart) + n && lookahead == old(lookahead) - n
      ensures ins == old(ins) + Strings(data, old(At()) + 1, At())
    {
      hide WindowOk, ChainsOk, TallyOk, KeyOk, Rolled, Strings, CandidatesFrom, HeadOf, Searchable;
      var k := 1;
      StringsOne(data, old(At()) + 1);
      while k < n
        invariant 1 <= k <= n && Inserted()
        invariant strstart == old(strstart) + (k - 1) && lookahead == old(lookahead) - (k - 1)
        invariant ins == old(ins) + Strings(data, old(At()) + 1, At() + 1)
      {
        StepOver();
        StringsJoin(data, old(At()) + 1, At(), At() + 1);
        var _ := InsertHere(0);
        k := k + 1;
      }
      StepOver();
    }

    /** Moves strstart by one. */
    method StepOver()
      requires Inserted() && lookahead > 0
      modifies this`strstart, this`lookahead
      ensures Valid() && strstart == old(strstart) + 1 && lookahead == old(lookahead) - 1
    {
      hide TablesOk, Rolled, Slots;
      strstart, lookahead := strstart + 1, lookahead - 1;
    }

    /** Moves strstart over a match without inserting any further string; the key is
        started afresh. */
    method AdvanceSkipping(n: nat)
      requires Inserted() && 1 <= n <= lookahead && strstart + n + 2 <= window.Length
      modifies this`strstart, this`lookahead, this`insH
      ensures Valid() && strstart == old(strstart) + n && lookahead == old(lookahead) - n
    {
      hide TablesOk, Rolled, Slots;
      strstart, lookahead := strstart + n, lookahead - n;
      insH := FirstTwo(strstart);
      assert KeyOk();
    }

    // ---- deflate_fast -----------------------------------------------------------------

    ghost predicate FastState()
      reads `strstart, `lookahead, `insert, `data, `base, `ins, `top, `insH, `lastLit, `tokens, `flushed,
            `matchStart, `matchLength, `prevLength, `matchAvailable,
            window, head, prev, dBuf, lBuf
    {
      && Valid()
      && Means(tokens, data, At(), MaxDist())
      && matchLength < MIN_MATCH && prevLength == MIN_MATCH - 1
    }

    /** After the tallies of a step: the tokens now reach n bytes further. */
    ghost predicate Tallied(n: nat)
      reads `strstart, `data, `base, `tokens
      requires Params()
    {
      Means(tokens, data, At() + n, MaxDist())
    }

    /** r is the outcome of a search among the candidates for the string at `at`: with none to look at it is
        too short for a match; otherwise no candidate matches for more than r bytes, unless r is nice, the
        longest possible or all that is left. */
    ghost predicate Searched(data: seq<byte>, at: nat, start: nat, left: nat, candidates: seq<nat>, r: nat) {
      && (candidates == [] ==> r < MIN_MATCH)
      && (candidates != [] && r < left && r < niceMatch && r < MAX_MATCH ==> Unbeaten(data, at, start, candidates, r))
    }

    /** The strings inserted on the way over n bytes, as far as the parameters of the level allow. */
    ghost predicate InsertsAll(n: nat, left: nat) { n <= maxLazyMatch && left >= n + MIN_MATCH }

    /** One turn of the loop of deflate_fast: a match of the length len that was found, or a literal.
        No candidate that the tables hold for this string matches for more than len bytes, unless len is
        nice, the longest possible or all that is left; so with less than three bytes found, none matches
        for three. The strings passed over are inserted, those within a match only if it is short. */
    method FastStep() returns (bflush: bool, ghost len: nat)
      requires FastState() && lookahead > 0 && strstart + MIN_LOOKAHEAD <= window.Length
      requires lastLit + 1 < litBufsize
      modifies this`insH, this`ins, this`top, this`matchStart, this`matchLength, this`strstart, this`lookahead,
               this`lastLit, this`tokens, head, prev, dBuf, lBuf
      ensures FastState()
      ensures tokens == old(tokens) + [if len >= MIN_MATCH then Match(Sub32(old(strstart), matchStart), len)
                                       else Literal(old(window[strstart]))]
      ensures Searched(data, old(At()), old(strstart), old(lookahead), old(CandidatesFrom(HeadOf(), prevLength)), len)
      ensures At() == old(At()) + if len >= MIN_MATCH then len else 1
      ensures ins == old(ins) +
                Strings(data, old(At()), if len < MIN_MATCH || InsertsAll(len, old(lookahead)) then At() else old(At()) + 1)
      ensures bflush <==> lastLit == litBufsize - 1
      ensures At() > old(At()) && At() + lookahead == old(At() + lookahead)
    {
      hide ChainsOk, Rolled, KeyAt, LinkOk, Known, Means, IsMatch, Slots, Agree, Sub32, WindowOk, TallyOk, KeyOk,
           HeadOf, Chain, Budget, Unbeaten, Strings;
      ghost var here := At();
      var hashHead := InsertHere(prevLength);
      if hashHead != NIL && strstart - hashHead <= MaxDist() {
        SomeCandidates(hashHead, prevLength);
        matchLength := LongestMatch(hashHead);
      }
      len := matchLength;
      if matchLength >= MIN_MATCH {
        bflush := FastMatch();
        StringsJoin(data, here, here + 1, At());
      } else {
        bflush := FastLiteral();
      }
    }

    method FastLiteral() returns (bflush: bool)
      requires Inserted() && Tallied(0) && lookahead > 0 && lastLit + 1 < litBufsize
      modifies this`strstart, this`lookahead, this`lastLit, this`tokens, dBuf, lBuf
      ensures Valid() && Tallied(0)
      ensures tokens == old(tokens + [Literal(window[strstart])])
      ensures bflush <==> lastLit == litBufsize - 1
      ensures strstart == old(strstart) + 1 && lookahead == old(lookahead) - 1
    {
      hide TablesOk, Rolled, Means, Slots;
      WindowAt(strstart);
      MeansLiteral(tokens, data, At(), MaxDist());
      bflush := TallyLit(window[strstart]);
      StepOver();
    }

    method FastMatch() returns (bflush: bool)
      requires Inserted() && Tallied(0) && Found(matchStart, matchLength)
      requires MIN_MATCH <= matchLength <= MAX_MATCH && matchLength <= lookahead
      requires strstart + MIN_LOOKAHEAD <= window.Length && lastLit + 1 < litBufsize
      modifies this`insH, this`ins, this`top, this`matchLength, this`strstart, this`lookahead,
               this`lastLit, this`tokens, head, prev, dBuf, lBuf
      ensures Valid() && Tallied(0) && matchLength == 0
      ensures tokens == old(tokens + [Match(Sub32(strstart, matchStart), matchLength)])
      ensures bflush <==> lastLit == litBufsize - 1
      ensures strstart == old(strstart + matchLength) && lookahead == old(lookahead - matchLength)
      ensures ins == old(ins) + if InsertsAll(old(matchLength), old(lookahead)) then Strings(data, old(At()) + 1, At()) else {}
    {
      hide WindowOk, ChainsOk, TallyOk, KeyOk, Rolled, Means, IsMatch, Strings;
      MeansMatch(tokens, data, At(), strstart - matchStart, matchLength, MaxDist());
      bflush := TallyDist(Sub32(strstart, matchStart), matchLength - MIN_MATCH);
      AdvanceOver(matchLength);
      matchLength := 0;
    }

    /** The strings within a short match are inserted, those within a long one are not. */
    method AdvanceOver(n: nat)
      requires Inserted() && MIN_MATCH <= n <= lookahead && strstart + n + 2 <= window.Length
      modifies this`insH, this`ins, this`top, this`strstart, this`lookahead, head, prev
      ensures Valid() && strstart == old(strstart) + n && lookahead == old(lookahead) - n
      ensures ins == old(ins) + if InsertsAll(n, old(lookahead)) then Strings(data, old(At()) + 1, At()) else {}
    {
      hide Inserted, Valid, Strings;
      if n <= maxLazyMatch && lookahead - n >= MIN_MATCH {
        AdvanceInserting(n);
      } else {
        AdvanceSkipping(n);
      }
    }

    /** The end of both compressors: everything read has been tallied; the last two
        positions are remembered for insertion, and the block is handed on. */
    method EndOfInput(flush: Flush) returns (state: BlockState)
      requires Valid() && lookahead == 0
      modifies this`insert, this`lastLit, this`flushed
      ensures Valid() && lastLit == 0
      ensures state == (if flush == Finish then state else if state == NeedMore then NeedMore else BlockDone)
      ensures flush == Finish ==> state == FinishStarted || state == FinishDone
    {
      hide TallyOk, ChainsOk;
      TopLeavesTwo();
      insert := if strstart < MIN_MATCH - 1 then strstart else MIN_MATCH - 1;
      if flush == Finish {
        var full := FlushBlock();
        return if full then FinishStarted else FinishDone;
      }
      if lastLit > 0 {
        var full := FlushBlock();
        if full { return NeedMore; }
      }
      state := BlockDone;
    }

    lemma TopLeavesTwo()
      requires Valid() && lookahead == 0
      ensures top + (if strstart < MIN_MATCH - 1 then strstart else MIN_MATCH - 1) <= At()
    {
    }

    /** deflate_fast, for one call with the input in nextIn.  The tokens mean the data
        up to strstart at every exit, and all of the data when the call ends a block. */
    method DeflateFast(flush: Flush) returns (state: BlockState)
      requires FastState() && lastLit + 1 < litBufsize
      modifies this, window, head, prev, dBuf, lBuf
      ensures FastState() && lastLit + 1 < litBufsize
      ensures data + nextIn == old(data + nextIn) && |data| >= |old(data)| && At() >= old(At())
      ensures state != NeedMore ==> nextIn == [] && flush != NoFlush && Means(tokens, data, |data|, MaxDist())
      ensures flush == Finish && state == NeedMore ==> At() > old(At())
      ensures flush == NoFlush && nextIn != [] ==> At() > old(At())
      ensures flush == Finish ==> state != BlockDone
    {
      hide FastState, Means, CandidatesFrom, HeadOf, Searched, Strings, InsertsAll, Sub32;
      FastBounds();
      while true
        invariant FastState() && lastLit + 1 < litBufsize
        invariant data + nextIn == old(data + nextIn) && |data| >= |old(data)|
        invariant old(At()) <= At() <= |data|
        decreases |data + nextIn| - At()
      {
        FastBounds();
        if lookahead < MIN_LOOKAHEAD {
          FastFill();
          FastBounds();
          if lookahead < MIN_LOOKAHEAD && flush == NoFlush { return NeedMore; }
          if lookahead == 0 { break; }
        }
        var bflush, _ := FastStep();
        FastBounds();
        if bflush {
          var full := FastFlush();
          if full { return NeedMore; }
        }
      }
      FastMeans();
      state := FastEnd(flush);
    }

    lemma FastMeans()
      requires FastState()
      ensures Means(tokens, data, At(), MaxDist())
    {
      hide Valid, Means;
    }

    method FastFill()
      requires FastState() && lookahead < MIN_LOOKAHEAD
      modifies window, head, prev, this`nextIn, this`lookahead, this`data, this`insH, this`insert, this`ins, this`top,
               this`matchStart, this`strstart, this`base, this`highWater
      ensures FastState() && At() == old(At())
      ensures strstart + MIN_LOOKAHEAD <= window.Length
      ensures lookahead >= MIN_LOOKAHEAD || nextIn == []
      ensures data + nextIn == old(data + nextIn) && |data| >= |old(data)|
    {
      hide Valid, Means;
      FastBounds();
      ghost var was := data;
      FillWindow();
      MeansMore(tokens, was, At(), MaxDist(), data);
    }

    method FastFlush() returns (full: bool)
      requires FastState()
      modifies this`lastLit, this`flushed
      ensures FastState() && lastLit == 0
    {
      hide Valid, Means;
      full := FlushBlock();
    }

    method FastEnd(flush: Flush) returns (state: BlockState)
      requires FastState() && lookahead == 0
      modifies this`insert, this`lastLit, this`flushed
      ensures FastState() && lastLit == 0
      ensures flush == Finish ==> state == FinishStarted || state == FinishDone
    {
      hide Valid, Means;
      state := EndOfInput(flush);
    }

    lemma FastBounds()
      requires FastState()
      ensures Params() && At() + lookahead == |data| && strstart + lookahead <= window.Length
      ensures lastLit < litBufsize
    {
    }

    // ---- deflate_slow -----------------------------------------------------------------

    /** The bytes before strstart, from position At() - 1 on, hold a match for len bytes. */
    ghost predicate MatchBehind(dist: int, len: nat)
      requires Params()
      reads `strstart, `base, `data
    {
      strstart > 0 && 1 <= dist <= MaxDist() && IsMatch(data, At() - 1, dist, len)
    }

    /** One byte behind strstart may still be undecided.  A match found there is held by
        its distance: matchStart itself may have wrapped when the window slid. */
    ghost predicate SlowState()
      reads `strstart, `lookahead, `insert, `data, `base, `ins, `top, `insH, `lastLit, `tokens, `flushed,
            `matchStart, `matchLength, `prevLength, `matchAvailable,
            window, head, prev, dBuf, lBuf
    {
      && Valid() && strstart < WORD
      && (matchAvailable ==> strstart > 0)
      && Means(tokens, data, At() - (if matchAvailable then 1 else 0), MaxDist())
      && MIN_MATCH - 1 <= matchLength <= MAX_MATCH
      && (matchLength >= MIN_MATCH ==>
            matchAvailable && MatchBehind(Sub32(strstart, matchStart) - 1, matchLength))
    }

    /** The previous match, if there is one, is a match at the undecided byte. */
    ghost predicate PreviousOk()
      requires Params()
      reads `strstart, `base, `data, `prevLength, `prevMatch, `matchAvailable
    {
      && strstart < WORD && (matchAvailable ==> strstart > 0)
      && MIN_MATCH - 1 <= prevLength <= MAX_MATCH
      && (prevLength >= MIN_MATCH ==> matchAvailable && MatchBehind(Sub32(strstart - 1, prevMatch), prevLength))
    }

    /** The match found before becomes the previous match. */
    method KeepPrevious()
      requires Params() && 0 <= strstart < WORD && (matchAvailable ==> strstart > 0)
      requires MIN_MATCH - 1 <= matchLength <= MAX_MATCH
      requires matchLength >= MIN_MATCH ==>
                 matchAvailable && MatchBehind(Sub32(strstart, matchStart) - 1, matchLength)
      modifies this`prevLength, this`prevMatch, this`matchLength
      ensures PreviousOk() && 2 <= prevLength <= MAX_MATCH && matchLength == MIN_MATCH - 1
      ensures prevLength == old(matchLength) && prevMatch == old(matchStart)
    {
      if matchLength >= MIN_MATCH { SubBefore(strstart, matchStart); }
      prevLength, prevMatch := matchLength, matchStart;
      matchLength := MIN_MATCH - 1;
    }

    /** A match of at most five bytes is dropped with the filtered strategy, and one of three if it is far. */
    function Kept(r: nat, distance: nat): nat {
      if r <= 5 && (filtered || (r == MIN_MATCH && distance > TOO_FAR)) then MIN_MATCH - 1 else r
    }

    /** The lazy search for a match better than the previous one; r is what longest_match returned. */
    method SlowSearch(hashHead: nat) returns (ghost r: nat)
      requires Inserted() && (hashHead != NIL ==> Searchable(hashHead))
      requires strstart + MIN_LOOKAHEAD <= window.Length
      requires MIN_MATCH - 1 <= prevLength <= MAX_MATCH && matchLength == MIN_MATCH - 1
      modifies this`matchLength, this`matchStart
      ensures BetterOk()
      ensures Searched(data, At(), strstart, lookahead,
                       if prevLength < maxLazyMatch then CandidatesFrom(hashHead, prevLength) else [], r)
      ensures matchLength == Kept(r, Sub32(strstart, matchStart))
    {
      hide Rolled, Found, LinkOk, KeyAt, Sub32, ChainsOk, TallyOk, Unbeaten, Chain, Budget;
      r := matchLength;
      if hashHead != NIL && prevLength < maxLazyMatch && strstart - hashHead <= MaxDist() {
        SomeCandidates(hashHead, prevLength);
        matchLength := LongestMatch(hashHead);
        r := matchLength;
        if matchLength <= 5 && (filtered || (matchLength == MIN_MATCH && Sub32(strstart, matchStart) > TOO_FAR)) {
          matchLength := MIN_MATCH - 1;
        }
      }
    }

    /** The match just found, if it is better than the previous one, is a true match. */
    ghost predicate BetterOk()
      requires Params()
      reads `strstart, `base, `data, `prevLength, `matchLength, `matchStart
    {
      && MIN_MATCH - 1 <= matchLength <= MAX_MATCH
      && (MIN_MATCH <= matchLength && matchLength > prevLength ==> Found(matchStart, matchLength))
    }

    method TallyMatch(distance: uint32, length: uint32) returns (bflush: bool)
      requires Inserted() && lastLit + 1 < litBufsize
      requires 1 <= distance < 0x1_0000 && length <= MAX_MATCH - MIN_MATCH
      modifies this`lastLit, this`tokens, dBuf, lBuf
      ensures Inserted() && tokens == old(tokens) + [Match(distance, length + MIN_MATCH)]
      ensures bflush <==> lastLit == litBufsize - 1
    {
      hide WindowOk, ChainsOk, TallyOk, Rolled;
      bflush := TallyDist(distance, length);
    }

    method TallyPrevious() returns (bflush: bool)
      requires Params() && PreviousOk() && prevLength >= MIN_MATCH
      requires Inserted() && lastLit + 1 < litBufsize
      requires Means(tokens, data, At() - 1, MaxDist())
      modifies this`lastLit, this`tokens, dBuf, lBuf
      ensures Inserted() && prevLength - 1 <= lookahead
      ensures tokens == old(tokens) + [Match(Sub32(strstart - 1, prevMatch), prevLength)]
      ensures bflush <==> lastLit == litBufsize - 1
      ensures Means(tokens, data, At() + (prevLength - 1), MaxDist())
    {
      hide Inserted, Means, Sub32, IsMatch;
      InsertedBounds();
      MatchFits(data, At() - 1, Sub32(strstart - 1, prevMatch), prevLength);
      MeansMatch(tokens, data, At() - 1, Sub32(strstart - 1, prevMatch), prevLength, MaxDist());
      bflush := TallyMatch(Sub32(strstart - 1, prevMatch), prevLength - MIN_MATCH);
    }

    /** The previous match was not bettered: it is tallied, and strstart moves behind it. */
    method SlowMatch() returns (bflush: bool)
      requires Params() && PreviousOk() && prevLength >= MIN_MATCH
      requires Inserted() && lastLit + 1 < litBufsize
      requires Means(tokens, data, At() - 1, MaxDist())
      modifies this`insH, this`ins, this`top, this`matchLength, this`prevLength, this`matchAvailable,
               this`strstart, this`lookahead, this`lastLit, this`tokens, head, prev, dBuf, lBuf
      ensures SlowState()
      ensures tokens == old(tokens + [Match(Sub32(strstart - 1, prevMatch), prevLength)])
      ensures strstart == old(strstart + prevLength - 1) && !matchAvailable && matchLength == MIN_MATCH - 1
      ensures ins == old(ins) + Strings(data, old(At()) + 1, At())
      ensures bflush <==> lastLit == litBufsize - 1
      ensures At() > old(At())
    {
      hide Inserted, Valid, Means, MatchBehind, Sub32, Strings;
      bflush := TallyPrevious();
      hide PreviousOk;
      AdvanceInserting(prevLength - 1);
      prevLength := 0;
      matchAvailable := false;
      matchLength := MIN_MATCH - 1;
      Bounds();
    }

    lemma InsertedBounds()
      requires Inserted()
      ensures Params() && At() + lookahead == |data| && strstart + lookahead <= window.Length
      ensures lastLit < litBufsize
    {
    }

    lemma Bounds()
      requires Valid()
      ensures Params() && At() + lookahead == |data| && strstart + lookahead <= window.Length
      ensures lastLit < litBufsize && strstart < WORD && insert <= strstart
    {
    }

    /** The byte before strstart is decided to be a literal, even if a match started
        there; the byte at strstart becomes the undecided one. */
    method SlowLiteral() returns (bflush: bool)
      requires Inserted() && lookahead > 0 && lastLit + 1 < litBufsize && strstart > 0
      requires Means(tokens, data, At() - 1, MaxDist())
      requires MIN_MATCH - 1 <= matchLength <= MAX_MATCH && matchAvailable
      requires matchLength >= MIN_MATCH ==> Found(matchStart, matchLength)
      modifies this`strstart, this`lookahead, this`lastLit, this`tokens, dBuf, lBuf
      ensures SlowState()
      ensures tokens == old(tokens + [Literal(window[strstart - 1])])
      ensures strstart == old(strstart) + 1
      ensures bflush <==> lastLit == litBufsize - 1
      ensures At() > old(At())
    {
      hide Valid, Means, Found;
      bflush := TallyBehind();
      hide Inserted;
      Undecided();
    }

    /** Tallies the byte before strstart as a literal. */
    method TallyBehind() returns (bflush: bool)
      requires Inserted() && lastLit + 1 < litBufsize && strstart > 0
      requires Means(tokens, data, At() - 1, MaxDist())
      modifies this`lastLit, this`tokens, dBuf, lBuf
      ensures Inserted() && Means(tokens, data, At(), MaxDist())
      ensures tokens == old(tokens) + [Literal(window[strstart - 1])]
      ensures bflush <==> lastLit == litBufsize - 1
    {
      hide ChainsOk, Rolled, TallyOk, Means;
      WindowAt(strstart - 1);
      MeansLiteral(tokens, data, At() - 1, MaxDist());
      bflush := TallyLit(window[strstart - 1]);
    }

    /** There is nothing to decide yet: wait for the next position. */
    method SlowWait()
      requires Inserted() && lookahead > 0
      requires Means(tokens, data, At(), MaxDist())
      requires MIN_MATCH - 1 <= matchLength <= MAX_MATCH
      requires matchLength >= MIN_MATCH ==> Found(matchStart, matchLength)
      modifies this`strstart, this`lookahead, this`matchAvailable
      ensures SlowState() && strstart == old(strstart) + 1 && matchAvailable
    {
      hide Found, Inserted, Means;
      matchAvailable := true;
      Undecided();
    }

    /** strstart moves on, leaving the byte it was at undecided. */
    method Undecided()
      requires Inserted() && lookahead > 0
      requires Means(tokens, data, At(), MaxDist())
      requires MIN_MATCH - 1 <= matchLength <= MAX_MATCH && matchAvailable
      requires matchLength >= MIN_MATCH ==> Found(matchStart, matchLength)
      modifies this`strstart, this`lookahead
      ensures SlowState() && strstart == old(strstart) + 1
    {
      hide Inserted, Valid, Means, IsMatch, Sub32;
      InsertedBounds();
      StepOver();
      Bounds();
      if matchLength >= MIN_MATCH { FoundBehind(); }
    }

    lemma FoundBehind()
      requires Params() && 0 <= matchStart < strstart < WORD && strstart > 0
      requires strstart - 1 > matchStart && strstart - 1 - matchStart <= MaxDist()
      requires IsMatch(data, At() - 1, strstart - 1 - matchStart, matchLength)
      ensures MatchBehind(Sub32(strstart, matchStart) - 1, matchLength)
    {
      hide IsMatch;
    }

    /** The three-way decision of deflate_slow. */
    method Decide() returns (bflush: bool)
      requires Params() && Inserted() && PreviousOk() && BetterOk()
      requires lookahead > 0 && lastLit + 1 < litBufsize
      requires Means(tokens, data, At() - (if matchAvailable then 1 else 0), MaxDist())
      modifies this`insH, this`ins, this`top, this`matchLength, this`prevLength,
               this`matchAvailable, this`strstart, this`lookahead, this`lastLit, this`tokens, head, prev, dBuf, lBuf
      ensures SlowState()
      ensures tokens == old(tokens + if prevLength >= MIN_MATCH && matchLength <= prevLength
                                     then [Match(Sub32(strstart - 1, prevMatch), prevLength)]
                                     else if matchAvailable then [Literal(window[strstart - 1])] else [])
      ensures if old(prevLength >= MIN_MATCH && matchLength <= prevLength)
        then !matchAvailable && matchLength == MIN_MATCH - 1 && At() == old(At() + prevLength - 1)
        else matchAvailable && matchLength == old(matchLength) && At() == old(At()) + 1
      ensures ins == old(ins) + Strings(data, old(At()) + 1, At())
      ensures bflush <==> lastLit == litBufsize - 1
      ensures At() > old(At())
    {
      hide Inserted, Valid, Means, MatchBehind, Found, Sub32, Strings;
      StringsOne(data, At() + 1);
      if prevLength >= MIN_MATCH && matchLength <= prevLength {
        bflush := SlowMatch();
      } else if matchAvailable {
        bflush := SlowLiteral();
      } else {
        SlowWait();
        bflush := false;
      }
    }

    method KeepAndInsert() returns (hashHead: Pos)
      requires Valid() && lookahead > 0 && strstart < WORD && (matchAvailable ==> strstart > 0)
      requires MIN_MATCH - 1 <= matchLength <= MAX_MATCH
      requires matchLength >= MIN_MATCH ==>
                 matchAvailable && MatchBehind(Sub32(strstart, matchStart) - 1, matchLength)
      modifies this`insH, this`ins, this`top, this`matchLength, this`prevLength, this`prevMatch, head, prev
      ensures Inserted() && PreviousOk() && (hashHead != NIL ==> Searchable(hashHead))
      ensures 2 <= prevLength <= MAX_MATCH && matchLength == MIN_MATCH - 1
      ensures prevLength == old(matchLength) && prevMatch == old(matchStart)
      ensures CandidatesFrom(hashHead, prevLength) == old(CandidatesFrom(HeadOf(), matchLength))
      ensures ins == old(ins) + Strings(data, At(), At() + 1)
    {
      hide *;
      Bounds();
      hashHead := InsertHere(matchLength);
      InsertedBounds();
      KeepPrevious();
    }

    /** The first half of a turn: insert, and look for something better. */
    method SlowFind() returns (ghost r: nat)
      requires Valid() && lookahead > 0 && strstart + MIN_LOOKAHEAD <= window.Length
      requires strstart < WORD && (matchAvailable ==> strstart > 0)
      requires MIN_MATCH - 1 <= matchLength <= MAX_MATCH
      requires matchLength >= MIN_MATCH ==>
                 matchAvailable && MatchBehind(Sub32(strstart, matchStart) - 1, matchLength)
      modifies this`insH, this`ins, this`top, this`matchStart, this`matchLength, this`prevLength, this`prevMatch, head, prev
      ensures Inserted() && PreviousOk() && BetterOk()
      ensures prevLength == old(matchLength) && prevMatch == old(matchStart)
      ensures Searched(data, At(), strstart, lookahead,
                       if prevLength < maxLazyMatch then old(CandidatesFrom(HeadOf(), matchLength)) else [], r)
      ensures matchLength == Kept(r, Sub32(strstart, matchStart))
      ensures ins == old(ins) + Strings(data, At(), At() + 1)
    {
      hide *;
      Bounds();
      var hashHead := KeepAndInsert();
      r := SlowSearch(hashHead);
    }

    /** One turn of the loop of deflate_slow: the match found one byte before is emitted unless the one of
        length len found here is longer; otherwise the byte before is a literal, if it was still undecided,
        and what was found here is kept for the next turn. A match already long enough is not searched to
        be bettered; otherwise r is the outcome of the search among the candidates that the tables hold for
        this string. All strings passed over are inserted. */
    method SlowStep() returns (bflush: bool, ghost len: nat, ghost r: nat)
      requires SlowState() && lookahead > 0 && strstart + MIN_LOOKAHEAD <= window.Length
      requires lastLit + 1 < litBufsize
      modifies this`insH, this`ins, this`top, this`matchStart, this`matchLength, this`prevLength, this`prevMatch,
               this`matchAvailable, this`strstart, this`lookahead, this`lastLit, this`tokens, head, prev, dBuf, lBuf
      ensures SlowState()
      ensures Searched(data, old(At()), old(strstart), old(lookahead),
                       if old(matchLength) < maxLazyMatch then old(CandidatesFrom(HeadOf(), matchLength)) else [], r)
      ensures len == Kept(r, Sub32(old(strstart), matchStart))
      ensures tokens == old(tokens) +
        if old(matchLength) >= MIN_MATCH && len <= old(matchLength)
        then [Match(Sub32(old(strstart) - 1, old(matchStart)), old(matchLength))]
        else if old(matchAvailable) then [Literal(old(window[strstart - 1]))] else []
      ensures if old(matchLength) >= MIN_MATCH && len <= old(matchLength)
        then !matchAvailable && matchLength == MIN_MATCH - 1 && At() == old(At() + matchLength - 1)
        else matchAvailable && matchLength == len && At() == old(At()) + 1
      ensures ins == old(ins) + Strings(data, old(At()), At())
      ensures bflush <==> lastLit == litBufsize - 1
      ensures At() > old(At())
    {
      hide Valid, Inserted, Means, MatchBehind, Sub32, BetterOk, PreviousOk, CandidatesFrom, HeadOf, Strings, Searched, Kept;
      Bounds();
      ghost var here := At();
      r := SlowFind();
      len := matchLength;
      bflush := Decide();
      StringsJoin(data, here, here + 1, At());
    }

    /** deflate_slow, for one call with the input in nextIn: as deflate_fast, except that
        within a run one byte may be held back. */
    method DeflateSlow(flush: Flush) returns (state: BlockState)
      requires SlowState() && lastLit + 1 < litBufsize
      modifies this, window, head, prev, dBuf, lBuf
      ensures SlowState() && lastLit + 1 < litBufsize
      ensures data + nextIn == old(data + nextIn) && |data| >= |old(data)| && At() >= old(At())
      ensures state != NeedMore ==> nextIn == [] && flush != NoFlush && Means(tokens, data, |data|, MaxDist())
      ensures flush == Finish && state == NeedMore ==> At() > old(At())
      ensures flush == NoFlush && nextIn != [] ==> At() > old(At())
      ensures flush == Finish ==> state != BlockDone
    {
      hide SlowState, Means, CandidatesFrom, HeadOf, Searched, Strings, Kept, Sub32;
      SlowBounds();
      while true
        invariant SlowState() && lastLit + 1 < litBufsize
        invariant data + nextIn == old(data + nextIn) && |data| >= |old(data)|
        invariant old(At()) <= At() <= |data|
        decreases |data + nextIn| - At()
      {
        SlowBounds();
        if lookahead < MIN_LOOKAHEAD {
          SlowFill();
          SlowBounds();
          if lookahead < MIN_LOOKAHEAD && flush == NoFlush { return NeedMore; }
          if lookahead == 0 { break; }
        }
        var bflush, _, _ := SlowStep();
        SlowBounds();
        if bflush {
          var full := SlowFlush();
          if full { return NeedMore; }
        }
      }
      LastByte();
      state := SlowEnd(flush);
    }

    lemma SlowBounds()
      requires SlowState()
      ensures Params() && At() + lookahead == |data| && lastLit < litBufsize
      ensures strstart + lookahead <= window.Length
    {
      hide Means, MatchBehind, Sub32;
      Bounds();
    }

    method SlowFlush() returns (full: bool)
      requires SlowState()
      modifies this`lastLit, this`flushed
      ensures SlowState() && lastLit == 0
    {
      hide Valid, Means, MatchBehind, Sub32;
      full := FlushBlock();
    }

    method SlowEnd(flush: Flush) returns (state: BlockState)
      requires SlowState() && lookahead == 0
      modifies this`insert, this`lastLit, this`flushed
      ensures SlowState() && lastLit == 0
      ensures flush == Finish ==> state == FinishStarted || state == FinishDone
    {
      hide Valid, Means, MatchBehind, Sub32;
      state := EndOfInput(flush);
    }

    /** fill_window, with the undecided byte and the match found at it carried across. */
    method SlowFill()
      requires SlowState() && lookahead < MIN_LOOKAHEAD
      modifies window, head, prev, this`nextIn, this`lookahead, this`data, this`insH, this`insert, this`ins, this`top,
               this`matchStart, this`strstart, this`base, this`highWater
      ensures SlowState() && At() == old(At())
      ensures strstart + MIN_LOOKAHEAD <= window.Length
      ensures lookahead >= MIN_LOOKAHEAD || nextIn == []
      ensures data + nextIn == old(data + nextIn) && |data| >= |old(data)|
    {
      hide Valid, Means, IsMatch, Sub32;
      Bounds();
      ghost var was := data;
      FillWindow();
      Bounds();
      MeansMore(tokens, was, At() - (if matchAvailable then 1 else 0), MaxDist(), data);
      if matchLength >= MIN_MATCH {
        IsMatchMore(was, At() - 1, Sub32(strstart, matchStart) - 1, matchLength, data);
      }
      Bounds();
    }

    lemma ValidIsInserted()
      requires Valid() && lookahead == 0
      ensures Inserted()
    {
      hide TablesOk, Slots, Rolled;
    }

    lemma InsertedIsValid()
      requires Inserted() && lookahead == 0
      ensures Valid()
    {
      hide TablesOk, Slots, Rolled;
    }

    lemma NothingPending()
      requires SlowState() && lookahead == 0
      ensures matchLength < MIN_MATCH && At() == |data| && lastLit < litBufsize
    {
      hide Valid, IsMatch, Means, Sub32;
      Bounds();
      if matchLength >= MIN_MATCH {
        MatchFits(data, At() - 1, Sub32(strstart, matchStart) - 1, matchLength);
      }
    }

    /** At the end of the input an undecided byte can only be a literal. */
    method LastByte()
      requires SlowState() && lookahead == 0 && lastLit + 1 < litBufsize
      modifies this`lastLit, this`tokens, this`matchAvailable, dBuf, lBuf
      ensures SlowState() && !matchAvailable && Means(tokens, data, |data|, MaxDist())
    {
      hide Inserted, Valid, Means, Sub32, MatchBehind;
      NothingPending();
      if matchAvailable {
        ValidIsInserted();
        var _ := TallyBehind();
        InsertedIsValid();
        matchAvailable := false;
      }
    }

    // ---- whole runs -------------------------------------------------------------------

    /** The state between two calls, for the compressor the level selects. */
    ghost predicate Ready(lazy: bool)
      reads `strstart, `lookahead, `insert, `data, `base, `ins, `top, `insH, `lastLit, `tokens, `flushed,
            `matchStart, `matchLength, `prevLength, `matchAvailable,
            window, head, prev, dBuf, lBuf
    {
      Params() && At() <= |data| && lastLit + 1 < litBufsize && if lazy then SlowState() else FastState()
    }

    /** The compressor configured for the level, called once. */
    method Deflate(lazy: bool, flush: Flush) returns (state: BlockState)
      requires Ready(lazy)
      modifies this, window, head, prev, dBuf, lBuf
      ensures Ready(lazy)
      ensures data + nextIn == old(data + nextIn) && |data| >= |old(data)| && At() >= old(At())
      ensures state != NeedMore ==> nextIn == [] && Means(tokens, data, |data|, MaxDist())
      ensures flush == Finish && state == NeedMore ==> At() > old(At())
      ensures flush == NoFlush && nextIn != [] ==> At() > old(At())
      ensures flush == Finish ==> state != BlockDone
    {
      hide Valid, Means, SlowState;
      if lazy {
        state := DeflateSlow(flush);
        SlowBounds();
      } else {
        state := DeflateFast(flush);
        FastBounds();
      }
    }

    /** One chunk, with as many calls as a caller short of output space needs. */
    method Feed(lazy: bool, chunk: seq<byte>)
      requires Ready(lazy) && nextIn == []
      modifies this, window, head, prev, dBuf, lBuf
      ensures Ready(lazy) && nextIn == [] && data == old(data) + chunk
    {
      hide Valid, Means, SlowState;
      nextIn := chunk;
      while nextIn != []
        invariant Ready(lazy) && data + nextIn == old(data) + chunk
        decreases nextIn != [], |old(data) + chunk| - At()
      {
        var _ := Deflate(lazy, NoFlush);
      }
    }

    /** The law of the compressor: whatever the chunks and whatever the shortage of
        output space, the tokens of a finished run expand to exactly the input. */
    method Run(lazy: bool, chunks: seq<seq<byte>>)
      requires Ready(lazy) && nextIn == [] && data == []
      modifies this, window, head, prev, dBuf, lBuf
      ensures data == Flatten(chunks)
      ensures Expand(tokens) == Some(Flatten(chunks))
      ensures forall t :: t in tokens ==> TokenOk(t, MaxDist())
    {
      hide Valid, Means, SlowState;
      for i := 0 to |chunks|
        invariant Ready(lazy) && nextIn == [] && data == Flatten(chunks[..i])
      {
        Feed(lazy, chunks[i]);
        assert chunks[..i + 1][..i] == chunks[..i];
      }
      assert chunks[..|chunks|] == chunks;
      var state := NeedMore;
      while state == NeedMore
        invariant Ready(lazy) && nextIn == [] && data == Flatten(chunks)
        invariant state != NeedMore ==> Means(tokens, data, |data|, MaxDist())
        decreases state == NeedMore, |Flatten(chunks)| - At()
      {
        state := Deflate(lazy, Finish);
        assert nextIn == [] && data + nextIn == data;
      }
      MeansAll(tokens, data, MaxDist());
    }
  }
}
