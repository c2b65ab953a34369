/** inflate_table: builds the two-level decoding table of a canonical Huffman code. */
module InflateTable {
  import opened Arith
  import opened BitReverse
  import opened Canonical

  datatype CodeType = CODES | LENS | DISTS

  type uch = n: nat | n < 0x100
  type ush = n: nat | n < 0x1_0000

  /** One table entry: a symbol, or the link to a sub-table. */
  datatype Code = Code(op: uch, bits: uch, val: ush)

  const ENOUGH_LENS: nat := 852
  const ENOUGH_DISTS: nat := 592

  function LBase(i: nat): ush
    requires i < 31
  {
    [3, 4, 5, 6, 7, 8, 9, 10, 11, 13, 15, 17, 19, 23, 27, 31,
     35, 43, 51, 59, 67, 83, 99, 115, 131, 163, 195, 227, 258, 0, 0][i]
  }

  function LExt(i: nat): (e: uch)
    requires i < 31
    ensures e >= 16
  {
    [16, 16, 16, 16, 16, 16, 16, 16, 17, 17, 17, 17, 18, 18, 18, 18,
     19, 19, 19, 19, 20, 20, 20, 20, 21, 21, 21, 21, 16, 77, 202][i]
  }

  function DBase(i: nat): ush
    requires i < 32
  {
    [1, 2, 3, 4, 5, 7, 9, 13, 17, 25, 33, 49, 65, 97, 129, 193,
     257, 385, 513, 769, 1025, 1537, 2049, 3073, 4097, 6145,
     8193, 12289, 16385, 24577, 0, 0][i]
  }

  function DExt(i: nat): (e: uch)
    requires i < 32
    ensures e >= 16
  {
    [16, 16, 16, 16, 17, 17, 18, 18, 19, 19, 20, 20, 21, 21, 22, 22,
     23, 23, 24, 24, 25, 25, 26, 26, 27, 27,
     28, 28, 29, 29, 64, 64][i]
  }

  function MaxSymbols(kind: CodeType): nat {
    match kind case CODES => 19 case LENS => 288 case DISTS => 32
  }

  /** What a symbol stands for, with the number of code bits its entry accounts for. */
  function SymbolEntry(kind: CodeType, sym: nat, bits: uch): Code
    requires sym < MaxSymbols(kind)
  {
    match kind
    case CODES => Code(0, bits, sym)
    case LENS =>
      if sym < 256 then Code(0, bits, sym)
      else if sym == 256 then Code(32 + 64, bits, 0)
      else Code(LExt(sym - 257), bits, LBase(sym - 257))
    case DISTS => Code(DExt(sym), bits, DBase(sym))
  }

  /** The entries that lead on to a sub-table. */
  predicate IsLink(e: Code) { 1 <= e.op < 16 }

  lemma SymbolIsNoLink(kind: CodeType, sym: nat, bits: uch)
    requires sym < MaxSymbols(kind)
    ensures !IsLink(SymbolEntry(kind, sym, bits))
  {
    hide LExt, DExt, LBase, DBase;
  }

  /** The code lengths are accumulated in an array. */
  method CountLengths(lens: seq<nat>) returns (count: array<nat>)
    requires LensOk(lens)
    ensures fresh(count) && count.Length == MAXBITS + 1
    ensures forall l :: 0 <= l <= MAXBITS ==> count[l] == Count(lens, l)
  {
    count := new nat[MAXBITS + 1](_ => 0);
    for sym := 0 to |lens|
      invariant forall l :: 0 <= l <= MAXBITS ==> count[l] == Count(lens[..sym], l)
    {
      count[lens[sym]] := count[lens[sym]] + 1;
      assert lens[..sym + 1][..sym] == lens[..sym];
    }
    assert lens[..|lens|] == lens;
  }

  ghost predicate Counts(count: seq<nat>, lens: seq<nat>) {
    |count| == MAXBITS + 1 && forall l :: 0 <= l <= MAXBITS ==> count[l] == Count(lens, l)
  }

  /** Number of coded symbols of length at most l. */
  ghost function Upto(lens: seq<nat>, l: nat): nat { |Order(lens, l)| }

  lemma {:induction false} UptoFlat(lens: seq<nat>, l: nat, m: nat)
    requires l <= m && forall k :: l < k <= m ==> Count(lens, k) == 0
    ensures Order(lens, m) == Order(lens, l)
    decreases m
  {
    if l < m {
      UptoFlat(lens, l, m - 1);
      assert Count(lens, m) == 0;
      assert Order(lens, m) == Order(lens, m - 1) + [];
    }
  }

  /** The longest code length in use, or 0. */
  method LongestLength(count: array<nat>, ghost lens: seq<nat>) returns (max: nat)
    requires Counts(count[..], lens)
    ensures max <= MAXBITS && (max > 0 ==> Count(lens, max) > 0)
    ensures Order(lens, max) == Sorted(lens)
  {
    max := MAXBITS;
    while max >= 1 && count[max] == 0
      invariant max <= MAXBITS && forall k :: max < k <= MAXBITS ==> Count(lens, k) == 0
    {
      assert count[..][max] == Count(lens, max);
      max := max - 1;
    }
    if max >= 1 { assert count[..][max] == Count(lens, max); }
    UptoFlat(lens, max, MAXBITS);
  }

  /** The shortest code length in use. */
  method ShortestLength(count: array<nat>, max: nat, ghost lens: seq<nat>) returns (min: nat)
    requires Counts(count[..], lens) && 1 <= max <= MAXBITS && Count(lens, max) > 0
    ensures 1 <= min <= max && Count(lens, min) > 0 && Order(lens, min - 1) == []
  {
    min := 1;
    while min < max && count[min] == 0
      invariant 1 <= min <= max && forall k :: 1 <= k < min ==> Count(lens, k) == 0
    {
      assert count[..][min] == Count(lens, min);
      min := min + 1;
    }
    assert count[..][min] == Count(lens, min);
    UptoFlat(lens, 0, min - 1);
  }

  /** The code space left free by the codes of length at most len is `left` codes of that length. */
  ghost predicate FreeAt(lens: seq<nat>, len: nat, left: nat) {
    && len <= MAXBITS
    && SymsOk(lens, Order(lens, len))
    && Pow2(MAXBITS) == Shl(left, MAXBITS - len) + Weight(lens, Order(lens, len))
  }

  lemma FreeStep(lens: seq<nat>, len: nat, left: nat)
    requires 1 <= len <= MAXBITS && FreeAt(lens, len - 1, left)
    ensures 2 * left >= Count(lens, len) ==> FreeAt(lens, len, 2 * left - Count(lens, len))
    ensures 2 * left < Count(lens, len) ==> OverSubscribed(lens)
  {
    hide Pow2, Shl, Order, SymsOf, Weight, Start, Count;
    var k, c := MAXBITS - len, Count(lens, len);
    LevelWeight(lens, len);
    PrefixStart(lens, len);
    ShlNext(left, k);
    if 2 * left >= c {
      ShlSum(2 * left - c, c, k);
    } else {
      ShlGap(2 * left, c, k);
    }
  }

  lemma FreeStart(lens: seq<nat>)
    ensures FreeAt(lens, 0, 1)
  {
    hide Shl;
    ShlPow2(0, MAXBITS);
  }

  lemma FreeEnds(lens: seq<nat>, left: nat)
    requires FreeAt(lens, MAXBITS, left)
    ensures left == Pow2(MAXBITS) - Start(lens, |Sorted(lens)|)
  {
    hide Shl, Pow2, Weight, SymsOf;
    PrefixStart(lens, MAXBITS);
    ShlNone(left);
  }

  lemma ShlNone(x: nat)
    ensures Shl(x, 0) == x
  {
  }

  /** The check for over-subscribed sets; `left` is the code space still free. */
  method FreeSpace(count: array<nat>, ghost lens: seq<nat>) returns (left: int)
    requires Counts(count[..], lens)
    ensures left < 0 <==> OverSubscribed(lens)
    ensures left >= 0 ==> left == Pow2(MAXBITS) - Start(lens, |Sorted(lens)|)
  {
    hide FreeAt, Order, SymsOf, Pow2, Shl;
    left := 1;
    FreeStart(lens);
    var len := 1;
    while len <= MAXBITS
      invariant 1 <= len <= MAXBITS + 1 && left >= 0
      invariant FreeAt(lens, len - 1, left)
    {
      assert count[..][len] == Count(lens, len);
      FreeStep(lens, len, left);
      left := 2 * left;
      left := left - count[len];
      if left < 0 { return; }
      len := len + 1;
    }
    FreeEnds(lens, left);
  }

  lemma PrefixStart(lens: seq<nat>, l: nat)
    requires l <= MAXBITS
    ensures SymsOk(lens, Order(lens, l)) && Upto(lens, l) <= |Sorted(lens)|
    ensures Order(lens, l) == Sorted(lens)[..Upto(lens, l)]
    ensures Weight(lens, Order(lens, l)) == Start(lens, Upto(lens, l)) <= Start(lens, |Sorted(lens)|)
  {
    OrderAre(lens, l);
    OrderPrefix(lens, l, MAXBITS);
    StartMono(lens, Upto(lens, l), |Sorted(lens)|);
  }

  // ---- sorting the symbols -------------------------------------------------------------

  lemma {:induction false} CountPrefix(lens: seq<nat>, p: nat, l: nat)
    requires p <= |lens|
    ensures Count(lens[..p], l) <= Count(lens, l)
    decreases |lens|
  {
    if p < |lens| {
      CountPrefix(lens[..|lens| - 1], p, l);
      assert lens[..|lens| - 1][..p] == lens[..p];
    } else {
      assert lens[..p] == lens;
    }
  }

  lemma SymsOfSnoc(lens: seq<nat>, p: nat, l: nat)
    requires p < |lens|
    ensures SymsOf(lens[..p + 1], l) == SymsOf(lens[..p], l) + if lens[p] == l then [p] else []
  {
    assert lens[..p + 1][..p] == lens[..p];
  }

  lemma {:induction false} UptoBound(lens: seq<nat>, l: nat)
    ensures Upto(lens, l) <= |lens|
    decreases |lens|, l
  {
    if lens == [] {
      if l > 0 { UptoBound(lens, l - 1); }
    } else {
      UptoSnoc(lens, l);
      UptoBound(lens[..|lens| - 1], l);
    }
  }

  lemma {:induction false} UptoSnoc(lens: seq<nat>, l: nat)
    requires lens != []
    ensures var last := lens[|lens| - 1];
            Upto(lens, l) == Upto(lens[..|lens| - 1], l) + if 1 <= last <= l then 1 else 0
    decreases l
  {
    hide Order;
    if l > 0 {
      UptoSnoc(lens, l - 1);
      LevelCount(lens, l);
      LevelCount(lens[..|lens| - 1], l);
    } else {
      UptoZero(lens);
      UptoZero(lens[..|lens| - 1]);
    }
  }

  lemma {:induction false} UptoMono(lens: seq<nat>, l: nat, m: nat)
    requires l <= m
    ensures Upto(lens, l) <= Upto(lens, m)
  {
    OrderPrefix(lens, l, m);
  }

  /** offs[] and work[] after the first p symbols have been put in their places. */
  ghost predicate Placing(lens: seq<nat>, p: nat, offs: seq<nat>, work: seq<nat>)
    requires p <= |lens|
  {
    && |offs| == MAXBITS + 1
    && forall l :: 1 <= l <= MAXBITS ==> PlacedLevel(lens, p, offs[l], work, l)
  }

  ghost predicate PlacedLevel(lens: seq<nat>, p: nat, off: nat, work: seq<nat>, l: nat)
    requires p <= |lens| && l >= 1
  {
    && off == Upto(lens, l - 1) + Count(lens[..p], l)
    && off <= |work|
    && work[Upto(lens, l - 1)..off] == SymsOf(lens[..p], l)
  }

  lemma PlaceOne(lens: seq<nat>, p: nat, offs: seq<nat>, work: seq<nat>)
    requires p < |lens| <= |work| && 1 <= lens[p] <= MAXBITS && Placing(lens, p, offs, work)
    ensures offs[lens[p]] < |work|
    ensures Placing(lens, p + 1, offs[lens[p] := offs[lens[p]] + 1], work[offs[lens[p]] := p])
  {
    hide SymsOf, Order;
    var at, w := lens[p], offs[lens[p]];
    CountPrefix(lens, p + 1, at);
    SymsOfSnoc(lens, p, at);
    assert PlacedLevel(lens, p, w, work, at);
    assert w < Upto(lens, at) by { LevelCount(lens, at); }
    UptoBound(lens, at);
    var offs', work' := offs[at := w + 1], work[w := p];
    forall l | 1 <= l <= MAXBITS ensures PlacedLevel(lens, p + 1, offs'[l], work', l) {
      assert PlacedLevel(lens, p, offs[l], work, l);
      SymsOfSnoc(lens, p, l);
      LevelCount(lens, l);
      CountPrefix(lens, p, l);
      if l == at {
        assert work'[Upto(lens, l - 1)..w + 1] == work[Upto(lens, l - 1)..w] + [p];
      } else {
        if l < at { UptoMono(lens, l, at - 1); } else { UptoMono(lens, at, l - 1); }
        assert work'[Upto(lens, l - 1)..offs[l]] == work[Upto(lens, l - 1)..offs[l]];
      }
    }
  }

  lemma LevelCount(lens: seq<nat>, l: nat)
    requires l >= 1
    ensures Upto(lens, l) == Upto(lens, l - 1) + Count(lens, l)
  {
  }

  lemma UptoZero(lens: seq<nat>)
    ensures Upto(lens, 0) == 0
  {
  }

  lemma PlaceNone(lens: seq<nat>, p: nat, offs: seq<nat>, work: seq<nat>)
    requires p < |lens| && lens[p] == 0 && Placing(lens, p, offs, work)
    ensures Placing(lens, p + 1, offs, work)
  {
    hide SymsOf, Order;
    forall l | 1 <= l <= MAXBITS ensures PlacedLevel(lens, p + 1, offs[l], work, l) {
      assert PlacedLevel(lens, p, offs[l], work, l);
      SymsOfSnoc(lens, p, l);
    }
  }

  lemma {:induction false} AllPlaced(lens: seq<nat>, offs: seq<nat>, work: seq<nat>, l: nat)
    requires l <= MAXBITS && Placing(lens, |lens|, offs, work)
    ensures Upto(lens, l) <= |work| && work[..Upto(lens, l)] == Order(lens, l)
    decreases l
  {
    if l > 0 {
      AllPlaced(lens, offs, work, l - 1);
      assert lens[..|lens|] == lens;
      assert PlacedLevel(lens, |lens|, offs[l], work, l);
      var i, j := Upto(lens, l - 1), offs[l];
      assert work[..j] == work[..i] + work[i..j];
    }
  }

  /** The symbols sorted by length, and by symbol within each length. */
  method SortSymbols(lens: seq<nat>, count: array<nat>, work: array<nat>)
    requires LensOk(lens) && Counts(count[..], lens) && |lens| <= work.Length && count != work
    modifies work
    ensures |Sorted(lens)| <= work.Length && work[..|Sorted(lens)|] == Sorted(lens)
  {
    hide SymsOf, Order, Placing;
    var offs := new nat[MAXBITS + 1](_ => 0);
    assert Upto(lens, 0) == 0 by { UptoZero(lens); }
    var len := 1;
    while len < MAXBITS
      invariant 1 <= len <= MAXBITS
      invariant forall l :: 1 <= l <= len ==> offs[l] == Upto(lens, l - 1)
    {
      assert count[..][len] == Count(lens, len);
      LevelCount(lens, len);
      offs[len + 1] := offs[len] + count[len];
      len := len + 1;
    }
    StartPlacing(lens, offs[..], work[..]);
    for sym := 0 to |lens|
      invariant Placing(lens, sym, offs[..], work[..])
    {
      if lens[sym] != 0 {
        PlaceOne(lens, sym, offs[..], work[..]);
        ghost var o, w := offs[..], work[..];
        work[offs[lens[sym]]] := sym;
        offs[lens[sym]] := offs[lens[sym]] + 1;
        assert work[..] == w[o[lens[sym]] := sym] && offs[..] == o[lens[sym] := o[lens[sym]] + 1];
      } else {
        PlaceNone(lens, sym, offs[..], work[..]);
      }
    }
    AllPlaced(lens, offs[..], work[..], MAXBITS);
  }

  lemma StartPlacing(lens: seq<nat>, offs: seq<nat>, work: seq<nat>)
    requires |offs| == MAXBITS + 1 && |lens| <= |work|
    requires forall l :: 1 <= l <= MAXBITS ==> offs[l] == Upto(lens, l - 1)
    ensures Placing(lens, 0, offs, work)
  {
    hide Order;
    forall l | 1 <= l <= MAXBITS ensures PlacedLevel(lens, 0, offs[l], work, l) {
      UptoBound(lens, l - 1);
      assert lens[..0] == [];
    }
  }

  // ---- codes, backwards ---------------------------------------------------------------

  lemma {:induction false} ShrSmall(x: nat, k: nat)
    requires x < Pow2(k)
    ensures Shr(x, k) == 0
  {
    if k > 0 { ShrSmall(x / 2, k - 1); }
  }

  /** The next code of len bits, kept reversed: seen from the top, one is added; after
      the last code the increment carries out and leaves 0. */
  method Increment(huff: nat, len: nat) returns (next: nat)
    requires 1 <= len <= MAXBITS && huff < Pow2(len)
    ensures Rev(huff, MAXBITS) + Pow2(MAXBITS - len) < Pow2(MAXBITS) ==>
              next < Pow2(len) && Rev(next, MAXBITS) == Rev(huff, MAXBITS) + Pow2(MAXBITS - len)
    ensures Rev(huff, MAXBITS) + Pow2(MAXBITS - len) >= Pow2(MAXBITS) ==> next == 0
    ensures next > 0 ==> Rev(huff, MAXBITS) + Pow2(MAXBITS - len) < Pow2(MAXBITS)
  {
    hide Rev, Pow2, Shr, Low;
    var k := len - 1;
    OnesAbove(huff, len);
    while k >= 0 && Shr(huff, k) % 2 == 1
      invariant -1 <= k < len && Shr(huff, k + 1) == Pow2(len - 1 - k) - 1
    {
      OnesStep(huff, k, len);
      k := k - 1;
    }
    if k >= 0 {
      OnesStop(huff, k, len);
      RevIncrement(huff, k, len, MAXBITS);
      IncrementFits(huff, k, len);
      next := Low(huff, k) + Pow2(k);
    } else {
      assert Shr(huff, 0) == huff by { ShrNone(huff); }
      RevCarry(len, MAXBITS);
      next := 0;
    }
  }

  lemma OnesAbove(huff: nat, len: nat)
    requires huff < Pow2(len)
    ensures Shr(huff, len) == Pow2(0) - 1
  {
    ShrSmall(huff, len);
  }

  lemma OnesStep(huff: nat, k: nat, len: nat)
    requires k < len && Shr(huff, k + 1) == Pow2(len - 1 - k) - 1 && Shr(huff, k) % 2 == 1
    ensures Shr(huff, k) == Pow2(len - k) - 1
  {
    ShrAdd(huff, k, 1);
    assert Shr(Shr(huff, k), 1) == Shr(huff, k) / 2;
    assert Pow2(len - k) == 2 * Pow2(len - 1 - k);
  }

  lemma OnesStop(huff: nat, k: nat, len: nat)
    requires k < len && Shr(huff, k + 1) == Pow2(len - 1 - k) - 1 && Shr(huff, k) % 2 != 1
    ensures Shr(huff, k) == 2 * (Pow2(len - 1 - k) - 1)
  {
    ShrAdd(huff, k, 1);
    assert Shr(Shr(huff, k), 1) == Shr(huff, k) / 2;
  }

  /** The index of the m-th replica. */
  lemma ReplicaIndex(curr: nat, e: nat, r: nat, m: nat)
    requires e <= curr && r < Pow2(e) && 1 <= m <= Pow2(curr - e)
    ensures Shl(m - 1, e) == Shl(m, e) - Pow2(e) && r + Shl(m - 1, e) < Pow2(curr)
    ensures m == 1 <==> Shl(m - 1, e) == 0
    ensures forall i :: i == r + Shl(m - 1, e) <==> (i >= 0 && Low(i, e) == r && Shr(i, e) == m - 1)
  {
    hide Low, Shr, Shl, Pow2;
    ShlSum(m - 1, 1, e);
    OnePow2(e);
    ShlGap(m, Pow2(curr - e), e);
    ShlPow2(curr - e, e);
    ShlGap(0, m - 1, e);
    ShlZero(e);
    SplitUnique(e, r, m - 1);
    forall i: nat | Low(i, e) == r && Shr(i, e) == m - 1 ensures i == r + Shl(m - 1, e) {
      Split(i, e);
    }
  }

  lemma OnePow2(e: nat)
    ensures Shl(1, e) == Pow2(e) > 0
  {
    ShlPow2(0, e);
  }

  lemma ShrBound(i: nat, e: nat, curr: nat)
    requires e <= curr && i < Pow2(curr)
    ensures Shr(i, e) < Pow2(curr - e)
  {
    Split(i, e);
    ShlPow2(curr - e, e);
    ShlGap(Pow2(curr - e), Shr(i, e), e);
  }

  /** Entries are replicated at every index whose low e bits are r, in a table of
      2^curr entries starting at next. */
  method Replicate(table: array<Code>, next: nat, curr: nat, e: nat, r: nat, here: Code)
    requires e <= curr && r < Pow2(e) && next + Pow2(curr) <= table.Length
    modifies table
    ensures forall i :: 0 <= i < Pow2(curr) ==>
              table[next + i] == if Low(i, e) == r then here else old(table[next + i])
    ensures forall i :: (0 <= i < next || next + Pow2(curr) <= i < table.Length) ==> table[i] == old(table[i])
  {
    hide Low, Shr, Shl, Pow2;
    var incr, fill := Pow2(e), Pow2(curr);
    ghost var m := Pow2(curr - e);
    ShlPow2(curr - e, e);
    forall i: nat | i < Pow2(curr) ensures Shr(i, e) < m { ShrBound(i, e, curr); }
    while true
      invariant 1 <= m <= Pow2(curr - e) && fill == Shl(m, e)
      invariant forall i :: 0 <= i < Pow2(curr) ==>
                  table[next + i] == if Low(i, e) == r && Shr(i, e) >= m then here else old(table[next + i])
      invariant forall i :: (0 <= i < next || next + Pow2(curr) <= i < table.Length) ==> table[i] == old(table[i])
      decreases m
    {
      ReplicaIndex(curr, e, r, m);
      fill := fill - incr;
      table[next + (r + fill)] := here;
      m := m - 1;
      if fill == 0 { break; }
    }
  }

  // ---- what the table says --------------------------------------------------------------

  /** The length of the i-th code of the sorted order. */
  ghost function Len(lens: seq<nat>, i: nat): (l: nat)
    requires i < |Sorted(lens)|
    ensures 1 <= l <= MAXBITS
  {
    lens[Sorted(lens)[i]]
  }

  /** Looking up the bits x, at most two levels deep, ends at the entry of sym, having
      accounted for exactly l bits. */
  ghost predicate Decodes(table: seq<Code>, root: nat, x: nat, kind: CodeType, sym: nat, l: nat)
    requires sym < MaxSymbols(kind) && l <= MAXBITS
  {
    Low(x, root) < |table| &&
    var e := table[Low(x, root)];
    if l <= root then
      e == SymbolEntry(kind, sym, l)
    else
      && IsLink(e) && e.bits == root && l <= root + e.op
      && e.val + Low(Shr(x, root), e.op) < |table|
      && table[e.val + Low(Shr(x, root), e.op)] == SymbolEntry(kind, sym, l - root)
  }

  /** As the table is being built: sub-tables lie behind the root table; the one under
      the root entry `low` is the one open, all others are below it. */
  ghost predicate Placed(table: seq<Code>, root: nat, x: nat, kind: CodeType, sym: nat, l: nat,
                         next: nat, curr: nat, low: int)
    requires sym < MaxSymbols(kind) && l <= MAXBITS
  {
    Decodes(table, root, x, kind, sym, l) &&
    (l > root ==>
       var e := table[Low(x, root)];
       && Pow2(root) <= e.val
       && if Low(x, root) == low then e.val == next && e.op == curr else e.val + Pow2(e.op) <= next)
  }

  ghost predicate Symbols(lens: seq<nat>, kind: CodeType) { LensOk(lens) && |lens| <= MaxSymbols(kind) }

  /** Everything below the i-th code has been placed. */
  ghost predicate Frontier(lens: seq<nat>, kind: CodeType, table: seq<Code>, root: nat, i: nat,
                           next: nat, curr: nat, low: int)
    requires Symbols(lens, kind)
  {
    i <= |Sorted(lens)| &&
    forall j, x: nat :: 0 <= j < i && InShare(lens, j, Rev(x, MAXBITS)) ==>
      Placed(table, root, x, kind, Sorted(lens)[j], Len(lens, j), next, curr, low)
  }

  /** huff is the i-th code, bit-reversed. */
  ghost predicate IsCode(lens: seq<nat>, i: nat, huff: nat) {
    i < |Sorted(lens)| && huff < Pow2(Len(lens, i)) && Rev(huff, MAXBITS) == Start(lens, i)
  }

  lemma CodeBits(lens: seq<nat>, i: nat, huff: nat)
    requires IsCode(lens, i, huff)
    ensures Rev(huff, Len(lens, i)) == CodeOf(lens, Sorted(lens)[i])
  {
    hide Rev, Shl, Shr, Pow2, Start, CodeOf;
    var s, l := Sorted(lens)[i], Len(lens, i);
    PlaceOfSorted(lens, i);
    CodeStart(lens, s);
    RevSplit(huff, l, MAXBITS);
    ShrSmall(huff, l);
    RevZero(MAXBITS - l);
    ShlGap(Rev(huff, l), CodeOf(lens, s), MAXBITS - l);
    ShlGap(CodeOf(lens, s), Rev(huff, l), MAXBITS - l);
    assert Pow2(MAXBITS - l) > 0 by { OnePow2(MAXBITS - l); }
  }

  /** The indices filled with the i-th code are those of the bits in its share. */
  lemma HitIff(lens: seq<nat>, i: nat, huff: nat, x: nat)
    requires IsCode(lens, i, huff)
    ensures Low(x, Len(lens, i)) == huff <==> InShare(lens, i, Rev(x, MAXBITS))
  {
    hide Rev, Shl, Shr, Low, Pow2, Start, CodeOf, Place, InShare;
    var s, l := Sorted(lens)[i], Len(lens, i);
    CodeBits(lens, i, huff);
    PlaceOfSorted(lens, i);
    BeginsInShare(lens, s, x);
    LowSmall(huff, l);
    if Low(x, l) == huff { RevLow(x, l, l); }
    if Rev(x, l) == Rev(huff, l) { RevInjective(x, huff, l); }
  }

  // ---- one code placed ------------------------------------------------------------------

  lemma LevelLen(lens: seq<nat>, k: nat, l: nat)
    requires 1 <= l <= MAXBITS && Upto(lens, l - 1) <= k < Upto(lens, l)
    ensures k < |Sorted(lens)| && Len(lens, k) == l
  {
    OrderPrefix(lens, l, MAXBITS);
    SymsOfAre(lens, l);
  }

  lemma LenLevel(lens: seq<nat>, k: nat)
    requires k < |Sorted(lens)|
    ensures Upto(lens, Len(lens, k) - 1) <= k < Upto(lens, Len(lens, k))
  {
    var l := LevelOf(lens, k, MAXBITS);
    LevelLen(lens, k, l);
  }

  lemma LenMono(lens: seq<nat>, j: nat, k: nat)
    requires j <= k < |Sorted(lens)|
    ensures Len(lens, j) <= Len(lens, k)
  {
    hide Order, Len;
    LenLevel(lens, j);
    LenLevel(lens, k);
    if Len(lens, k) < Len(lens, j) { UptoMono(lens, Len(lens, k), Len(lens, j) - 1); }
  }

  /** Agreeing with a code longer than root: in the root index, and behind it. */
  lemma SubHit(x: nat, huff: nat, root: nat, l: nat)
    requires root <= l && huff < Pow2(l)
    ensures Low(x, l) == huff <==>
            Low(x, root) == Low(huff, root) && Low(Shr(x, root), l - root) == Shr(huff, root)
  {
    hide Low, Shr, Shl;
    LowLow(x, root, l);
    ShrLow(x, root, l - root);
    Split(Low(x, l), root);
    Split(huff, root);
  }

  /** A code that fits the root table. */
  lemma RootStep(lens: seq<nat>, kind: CodeType, t: seq<Code>, t': seq<Code>, root: nat, i: nat, huff: nat,
                 next: nat, curr: nat, low: int)
    requires Symbols(lens, kind) && IsCode(lens, i, huff) && Len(lens, i) <= root
    requires Frontier(lens, kind, t, root, i, next, curr, low)
    requires Pow2(root) <= |t| == |t'|
    requires forall k :: 0 <= k < Pow2(root) ==>
               t'[k] == if Low(k, Len(lens, i)) == huff then SymbolEntry(kind, Sorted(lens)[i], Len(lens, i)) else t[k]
    ensures Frontier(lens, kind, t', root, i + 1, next, curr, low)
  {
    hide Rev, Low, Shr, Pow2, InShare, Len, SymbolEntry;
    forall j, x: nat | 0 <= j < i + 1 && InShare(lens, j, Rev(x, MAXBITS))
      ensures Placed(t', root, x, kind, Sorted(lens)[j], Len(lens, j), next, curr, low)
    {
      HitIff(lens, i, huff, x);
      LowLow(x, Len(lens, i), root);
      LenMono(lens, j, i);
      if j < i {
        if InShare(lens, i, Rev(x, MAXBITS)) { SharesApart(lens, j, i, Rev(x, MAXBITS)); }
        assert Placed(t, root, x, kind, Sorted(lens)[j], Len(lens, j), next, curr, low);
      }
    }
  }

  /** The change made by replicating an entry in the sub-table at next. */
  ghost predicate Replicated(t: seq<Code>, t': seq<Code>, next: nat, curr: nat, e: nat, r: nat, here: Code) {
    && next + Pow2(curr) <= |t| == |t'|
    && (forall k :: 0 <= k < Pow2(curr) ==> t'[next + k] == if Low(k, e) == r then here else t[next + k])
    && (forall k :: (0 <= k < next || next + Pow2(curr) <= k < |t|) ==> t'[k] == t[k])
  }

  lemma SubOld(lens: seq<nat>, kind: CodeType, t: seq<Code>, t': seq<Code>, root: nat, i: nat, huff: nat,
               next: nat, curr: nat, low: nat, e: nat, here: Code, j: nat, x: nat)
    requires Symbols(lens, kind) && IsCode(lens, i, huff) && root + e == Len(lens, i)
    requires 1 <= root && e <= curr < 16 && low == Low(huff, root) && Pow2(root) <= next
    requires Replicated(t, t', next, curr, e, Shr(huff, root), here)
    requires j < i && InShare(lens, j, Rev(x, MAXBITS))
    requires Placed(t, root, x, kind, Sorted(lens)[j], Len(lens, j), next, curr, low)
    ensures Placed(t', root, x, kind, Sorted(lens)[j], Len(lens, j), next, curr, low)
  {
    hide Rev, Low, Shr, Pow2, InShare, Len, SymbolEntry;
    HitIff(lens, i, huff, x);
    SubHit(x, huff, root, Len(lens, i));
    LowLow(Shr(x, root), e, curr);
    if InShare(lens, i, Rev(x, MAXBITS)) { SharesApart(lens, j, i, Rev(x, MAXBITS)); }
    assert t'[Low(x, root)] == t[Low(x, root)];
    if Len(lens, j) > root && Low(x, root) == low {
      var q := Low(Shr(x, root), curr);
      assert t'[next + q] == t[next + q];
    }
  }

  lemma SubNew(lens: seq<nat>, kind: CodeType, t: seq<Code>, t': seq<Code>, root: nat, i: nat, huff: nat,
               next: nat, curr: nat, low: nat, e: nat, x: nat)
    requires Symbols(lens, kind) && IsCode(lens, i, huff) && root + e == Len(lens, i)
    requires 1 <= root && 1 <= e <= curr < 16 && low == Low(huff, root) && Pow2(root) <= next < 0x1_0000
    requires |t| >= Pow2(root) && t[low] == Code(curr, root, next)
    requires Replicated(t, t', next, curr, e, Shr(huff, root), SymbolEntry(kind, Sorted(lens)[i], e))
    requires InShare(lens, i, Rev(x, MAXBITS))
    ensures Placed(t', root, x, kind, Sorted(lens)[i], Len(lens, i), next, curr, low)
  {
    hide Rev, Low, Shr, Pow2, InShare, Len, SymbolEntry;
    HitIff(lens, i, huff, x);
    SubHit(x, huff, root, Len(lens, i));
    LowLow(Shr(x, root), e, curr);
    var q := Low(Shr(x, root), curr);
    assert t'[low] == t[low];
    assert Low(q, e) == Shr(huff, root);
    assert t'[next + q] == SymbolEntry(kind, Sorted(lens)[i], e);
  }

  /** A code in the sub-table that is open. */
  lemma SubStep(lens: seq<nat>, kind: CodeType, t: seq<Code>, t': seq<Code>, root: nat, i: nat, huff: nat,
                next: nat, curr: nat, low: nat, e: nat)
    requires Symbols(lens, kind) && IsCode(lens, i, huff) && root + e == Len(lens, i)
    requires 1 <= root && 1 <= e <= curr < 16 && low == Low(huff, root) && Pow2(root) <= next < 0x1_0000
    requires Frontier(lens, kind, t, root, i, next, curr, low)
    requires |t| >= Pow2(root) && t[low] == Code(curr, root, next)
    requires Replicated(t, t', next, curr, e, Shr(huff, root), SymbolEntry(kind, Sorted(lens)[i], e))
    ensures Frontier(lens, kind, t', root, i + 1, next, curr, low)
  {
    hide Rev, Low, Shr, Pow2, InShare, Len, SymbolEntry, Replicated, Placed;
    forall j, x: nat | 0 <= j < i + 1 && InShare(lens, j, Rev(x, MAXBITS))
      ensures Placed(t', root, x, kind, Sorted(lens)[j], Len(lens, j), next, curr, low)
    {
      if j < i {
        SubOld(lens, kind, t, t', root, i, huff, next, curr, low, e, SymbolEntry(kind, Sorted(lens)[i], e), j, x);
      } else {
        SubNew(lens, kind, t, t', root, i, huff, next, curr, low, e, x);
      }
    }
  }

  /** Opening a sub-table: no bits decoded so far go through its root entry. */
  lemma OpenStep(lens: seq<nat>, kind: CodeType, t: seq<Code>, root: nat, i: nat, huff: nat,
                 next: nat, curr: nat, low: int, next': nat, curr': nat)
    requires Symbols(lens, kind) && IsCode(lens, i, huff)
    requires Frontier(lens, kind, t, root, i, next, curr, low)
    requires 1 <= root <= MAXBITS && 1 <= curr' < 16 && Pow2(root) <= next' == next + Pow2(curr) < 0x1_0000
    requires Pow2(root) <= |t|
    requires Start(lens, i) == Shl(Rev(huff, root), MAXBITS - root)
    ensures Frontier(lens, kind, t[Low(huff, root) := Code(curr', root, next')], root, i, next', curr', Low(huff, root))
  {
    hide Rev, Low, Shr, Pow2, InShare, Len, SymbolEntry, Shl, Start, Placed;
    var low' := Low(huff, root);
    forall j, x: nat | 0 <= j < i && InShare(lens, j, Rev(x, MAXBITS))
      ensures Placed(t[low' := Code(curr', root, next')], root, x, kind, Sorted(lens)[j], Len(lens, j), next', curr', low')
    {
      BelowEdge(lens, i, huff, root, j, x);
      OpenKeeps(kind, t, root, x, Sorted(lens)[j], Len(lens, j), next, curr, low, next', curr', low');
    }
  }

  lemma OpenKeeps(kind: CodeType, t: seq<Code>, root: nat, x: nat, sym: nat, l: nat,
                  next: nat, curr: nat, low: int, next': nat, curr': nat, low': nat)
    requires sym < MaxSymbols(kind) && l <= MAXBITS && Placed(t, root, x, kind, sym, l, next, curr, low)
    requires root <= MAXBITS && curr' < 16 && Pow2(root) <= next' == next + Pow2(curr) < 0x1_0000
    requires low' < Pow2(root) <= |t| && Low(x, root) != low'
    ensures Placed(t[low' := Code(curr', root, next')], root, x, kind, sym, l, next', curr', low')
  {
    hide Low, Shr, Pow2, SymbolEntry;
  }

  lemma BelowEdge(lens: seq<nat>, i: nat, huff: nat, root: nat, j: nat, x: nat)
    requires i < |Sorted(lens)| && j < i && root <= MAXBITS
    requires Start(lens, i) == Shl(Rev(huff, root), MAXBITS - root)
    requires InShare(lens, j, Rev(x, MAXBITS))
    ensures Low(x, root) != Low(huff, root)
  {
    hide Rev, Low, Shr, Pow2, Shl, Start;
    StartMono(lens, j + 1, i);
    RevSplit(x, root, MAXBITS);
    if Low(x, root) == Low(huff, root) {
      RevLow(x, root, root);
      RevLow(huff, root, root);
    }
  }

  // ---- sub-tables ---------------------------------------------------------------------

  lemma CodeEnds(lens: seq<nat>, i: nat, huff: nat)
    requires IsCode(lens, i, huff)
    ensures Start(lens, i) == Shl(Rev(huff, Len(lens, i)), MAXBITS - Len(lens, i))
    ensures Start(lens, i + 1) == Shl(Rev(huff, Len(lens, i)) + 1, MAXBITS - Len(lens, i))
  {
    hide Rev, Shl, Shr, Pow2, Start, CodeOf;
    var l := Len(lens, i);
    CodeBits(lens, i, huff);
    PlaceOfSorted(lens, i);
    CodeStart(lens, Sorted(lens)[i]);
    StartStep(lens, i);
    ShlSum(Rev(huff, l), 1, MAXBITS - l);
    OnePow2(MAXBITS - l);
  }

  /** The block of code space under one root index. */
  ghost function BlockEnd(huff: nat, root: nat): nat
    requires root <= MAXBITS
  {
    Shl(Rev(huff, root) + 1, MAXBITS - root)
  }

  lemma InBlock(huff: nat, root: nat)
    requires root <= MAXBITS
    ensures Shl(Rev(huff, root), MAXBITS - root) <= Rev(huff, MAXBITS) < BlockEnd(huff, root)
    ensures BlockEnd(huff, root) == Shl(Rev(huff, root), MAXBITS - root) + Pow2(MAXBITS - root)
  {
    hide Rev, Shl, Shr, Pow2;
    RevSplit(huff, root, MAXBITS);
    ShlSum(Rev(huff, root), 1, MAXBITS - root);
    OnePow2(MAXBITS - root);
  }

  /** The first code longer than root starts a block: all before it end on block borders. */
  lemma FirstEdge(lens: seq<nat>, i: nat, before: nat, huff: nat, root: nat)
    requires 1 <= i && root <= MAXBITS && IsCode(lens, i - 1, before) && IsCode(lens, i, huff)
    requires Len(lens, i - 1) <= root
    ensures Start(lens, i) == Shl(Rev(huff, root), MAXBITS - root)
  {
    hide Rev, Shl, Shr, Pow2, Start, Len;
    var l := Len(lens, i - 1);
    CodeEnds(lens, i - 1, before);
    var c := Shl(Rev(before, l) + 1, root - l);
    ShlShl(Rev(before, l) + 1, root - l, MAXBITS - root);
    InBlock(huff, root);
    ShlGap(c, Rev(huff, root), MAXBITS - root);
    ShlGap(Rev(huff, root), c, MAXBITS - root);
    assert Pow2(MAXBITS - root) > 0 by { OnePow2(MAXBITS - root); }
  }

  /** Leaving one sub-table, the next code starts the next block. */
  lemma NextEdge(lens: seq<nat>, i: nat, before: nat, huff: nat, root: nat)
    requires 1 <= i && root <= MAXBITS && IsCode(lens, i - 1, before) && IsCode(lens, i, huff)
    requires root < Len(lens, i - 1) && Low(before, root) != Low(huff, root)
    ensures Start(lens, i) == Shl(Rev(huff, root), MAXBITS - root)
  {
    hide Rev, Shl, Shr, Pow2, Start, Len, Low;
    var l, b, k := Len(lens, i - 1), Rev(before, root), MAXBITS - root;
    CodeEnds(lens, i - 1, before);
    RevSplit(before, root, l);
    ShlSum(b, 1, l - root);
    OnePow2(l - root);
    var c := Shl(b + 1, l - root);
    assert Rev(before, l) + 1 <= c;
    ShlGap(Rev(before, l) + 1, c, MAXBITS - l);
    ShlShl(b + 1, l - root, MAXBITS - l);
    assert Start(lens, i) <= Shl(b + 1, k);
    InBlock(before, root);
    InBlock(huff, root);
    StartStep(lens, i - 1);
    assert Pow2(MAXBITS - l) > 0 by { OnePow2(MAXBITS - l); }
    if Rev(huff, root) == b { RevInjective(huff, before, root); }
    ShlGap(Rev(huff, root) + 1, b, k);
    ShlGap(b + 1, Rev(huff, root), k);
  }

  lemma {:induction false} RangeStart(lens: seq<nat>, a: nat, b: nat, l: nat)
    requires 1 <= l <= MAXBITS && Upto(lens, l - 1) <= a <= b <= Upto(lens, l) <= |Sorted(lens)|
    ensures Start(lens, b) == Start(lens, a) + Shl(b - a, MAXBITS - l)
    decreases b
  {
    hide Order, Start, Shl, Pow2;
    if a == b {
      ShlZero(MAXBITS - l);
    } else {
      RangeStart(lens, a, b - 1, l);
      LevelLen(lens, b - 1, l);
      StartStep(lens, b - 1);
      ShlSum(b - 1 - a, 1, MAXBITS - l);
      OnePow2(MAXBITS - l);
    }
  }

  /** The look-ahead over the remaining counts: with m codes seen, all shorter than l,
      the block that starts with code i has room for `left` codes of length l. */
  ghost predicate Ahead(lens: seq<nat>, i: nat, m: nat, root: nat, l: nat, left: nat) {
    && 1 <= root < l <= MAXBITS && i <= m < |Sorted(lens)|
    && Upto(lens, l - 1) <= m <= Upto(lens, l)
    && Shl(left, MAXBITS - l) + Start(lens, m) == Start(lens, i) + Pow2(MAXBITS - root)
  }

  lemma AheadStart(lens: seq<nat>, i: nat, root: nat)
    requires i < |Sorted(lens)| && 1 <= root < Len(lens, i)
    ensures Ahead(lens, i, i, root, Len(lens, i), Pow2(Len(lens, i) - root))
  {
    hide Order, Start, Shl, Pow2;
    LenLevel(lens, i);
    ShlPow2(Len(lens, i) - root, MAXBITS - Len(lens, i));
  }

  lemma AheadStep(lens: seq<nat>, i: nat, m: nat, root: nat, l: nat, left: nat)
    requires Ahead(lens, i, m, root, l, left) && Upto(lens, l) < |Sorted(lens)|
    ensures var c := Upto(lens, l) - m;
            if left > c then l < MAXBITS && Ahead(lens, i, Upto(lens, l), root, l + 1, 2 * (left - c))
            else Start(lens, Upto(lens, l)) >= Start(lens, i) + Pow2(MAXBITS - root)
  {
    hide Order, Start, Shl, Pow2, SymsOf;
    var c := Upto(lens, l) - m;
    RangeStart(lens, m, Upto(lens, l), l);
    if left > c {
      ShlSum(left - c, c, MAXBITS - l);
      if l < MAXBITS {
        UptoMono(lens, l, l + 1);
        ShlNext(left - c, MAXBITS - l - 1);
      }
    } else {
      ShlGap(left, c, MAXBITS - l);
    }
  }

  /** No code of the block is longer than fits. */
  ghost predicate BlockFits(lens: seq<nat>, i: nat, end: nat, fits: nat) {
    forall k :: i <= k < |Sorted(lens)| && Start(lens, k) < end ==> Len(lens, k) <= fits
  }

  lemma FitsWhenFull(lens: seq<nat>, i: nat, end: nat, l: nat)
    requires l <= MAXBITS && Upto(lens, l) <= |Sorted(lens)| && Start(lens, Upto(lens, l)) >= end
    ensures BlockFits(lens, i, end, l)
  {
    hide Order, Start;
    forall k | i <= k < |Sorted(lens)| && Start(lens, k) < end ensures Len(lens, k) <= l {
      LenLevel(lens, k);
      if k >= Upto(lens, l) { StartMono(lens, Upto(lens, l), k); }
      if Len(lens, k) > l { UptoMono(lens, l, Len(lens, k) - 1); }
    }
  }

  /** count[] once the codes before the i-th have been taken out of it. */
  ghost predicate CountsFrom(count: seq<nat>, lens: seq<nat>, i: nat) {
    && i < |Sorted(lens)| && |count| == MAXBITS + 1
    && count[Len(lens, i)] + i == Upto(lens, Len(lens, i))
    && forall l :: Len(lens, i) < l <= MAXBITS ==> count[l] == Count(lens, l)
  }

  lemma LenAtMost(lens: seq<nat>, k: nat, max: nat)
    requires k < |Sorted(lens)| && max <= MAXBITS && Order(lens, max) == Sorted(lens)
    ensures Len(lens, k) <= max
  {
    hide Order;
    LenLevel(lens, k);
    if Len(lens, k) > max { UptoMono(lens, max, Len(lens, k) - 1); }
  }

  lemma UptoBelow(lens: seq<nat>, l: nat, max: nat)
    requires l < max <= MAXBITS && Count(lens, max) > 0 && Order(lens, max) == Sorted(lens)
    ensures Upto(lens, l) < |Sorted(lens)|
  {
    UptoMono(lens, l, max - 1);
    LevelCount(lens, max);
  }

  /** The index bits of a new sub-table: enough for every code under the same root entry. */
  method LookAhead(count: array<nat>, ghost lens: seq<nat>, ghost i: nat, len: nat, root: nat, max: nat)
    returns (curr: nat, ghost last: nat)
    requires CountsFrom(count[..], lens, i) && len == Len(lens, i) && 1 <= root < len <= max <= MAXBITS
    requires Count(lens, max) > 0 && Order(lens, max) == Sorted(lens)
    ensures 1 <= curr && len <= root + curr <= max
    ensures BlockFits(lens, i, Start(lens, i) + Pow2(MAXBITS - root), root + curr)
    ensures i <= last < |Sorted(lens)| && Start(lens, last) < Start(lens, i) + Pow2(MAXBITS - root)
    ensures Len(lens, last) == root + curr
  {
    hide Order, Start, Shl, Pow2, Len, SymsOf, BlockFits, Ahead;
    ghost var end := Start(lens, i) + Pow2(MAXBITS - root);
    curr := len - root;
    var left: int := Pow2(curr);
    ghost var m := i;
    AheadStart(lens, i, root);
    OnePow2(curr);
    while curr + root < max
      invariant 1 <= curr && len <= curr + root <= max && left > 0
      invariant Ahead(lens, i, m, root, curr + root, left)
      invariant m == if curr + root == len then i else Upto(lens, curr + root - 1)
    {
      ghost var l := curr + root;
      UptoBelow(lens, l, max);
      AheadStep(lens, i, m, root, l, left);
      LevelCount(lens, l);
      assert count[..][l] + m == Upto(lens, l);
      left := left - count[curr + root];
      if left <= 0 {
        FitsWhenFull(lens, i, end, l);
        last := m;
        AheadIn(lens, i, m, root, l, left + count[curr + root]);
        LevelLen(lens, m, l);
        return;
      }
      curr := curr + 1;
      left := 2 * left;
      m := Upto(lens, l);
    }
    assert BlockFits(lens, i, end, max) by { AllFit(lens, i, end, max); }
    last := m;
    AheadIn(lens, i, m, root, max, left);
    LenAtMost(lens, m, max);
    LenIsLast(lens, m, max);
  }

  /** While there is room left, the next code is in the block. */
  lemma AheadIn(lens: seq<nat>, i: nat, m: nat, root: nat, l: nat, left: nat)
    requires Ahead(lens, i, m, root, l, left) && left > 0
    ensures i <= m < |Sorted(lens)| && Upto(lens, l - 1) <= m && Start(lens, m) < Start(lens, i) + Pow2(MAXBITS - root)
  {
    hide Order, Start, Shl, Pow2;
    ShlZero(MAXBITS - l);
    ShlGap(0, left, MAXBITS - l);
    OnePow2(MAXBITS - l);
  }

  lemma LenIsLast(lens: seq<nat>, m: nat, max: nat)
    requires 1 <= max <= MAXBITS && m < |Sorted(lens)| && Upto(lens, max - 1) <= m && Order(lens, max) == Sorted(lens)
    ensures Len(lens, m) == max
  {
    hide Order;
    LevelLen(lens, m, max);
  }

  lemma AllFit(lens: seq<nat>, i: nat, end: nat, max: nat)
    requires max <= MAXBITS && Order(lens, max) == Sorted(lens)
    ensures BlockFits(lens, i, end, max)
  {
    hide Order, Start, Len;
    forall k | i <= k < |Sorted(lens)| && Start(lens, k) < end ensures Len(lens, k) <= max {
      LenAtMost(lens, k, max);
    }
  }

  /** The entry for a symbol, as the fields base, extra and match are set up for each kind. */
  method MakeEntry(kind: CodeType, sym: nat, bits: uch) returns (here: Code)
    requires sym < MaxSymbols(kind)
    ensures here == SymbolEntry(kind, sym, bits)
  {
    hide LExt, LBase, DExt, DBase;
    var match_ := match kind case CODES => 20 case LENS => 257 case DISTS => 0;
    if sym + 1 < match_ {
      here := Code(0, bits, sym);
    } else if sym >= match_ {
      here := if kind.LENS? then Code(LExt(sym - match_), bits, LBase(sym - match_))
              else Code(DExt(sym - match_), bits, DBase(sym - match_));
    } else {
      here := Code(32 + 64, bits, 0);
    }
  }

  function Enough(kind: CodeType): nat {
    match kind case CODES => 0x80 case LENS => ENOUGH_LENS case DISTS => ENOUGH_DISTS
  }

  // ---- the space a set of lengths needs ---------------------------------------------------

  /** The first root bits of the i-th code. */
  ghost function Prefix(lens: seq<nat>, root: nat, i: nat): nat
    requires i < |Sorted(lens)| && root <= MAXBITS
  {
    Shr(Start(lens, i), MAXBITS - root)
  }

  /** The length of the longest code from the i-th on with the same first root bits. */
  ghost function LongestUnder(lens: seq<nat>, root: nat, i: nat): nat
    requires i < |Sorted(lens)| && root <= MAXBITS
    decreases |Sorted(lens)| - i
  {
    if i + 1 < |Sorted(lens)| && Prefix(lens, root, i + 1) == Prefix(lens, root, i) then LongestUnder(lens, root, i + 1)
    else Len(lens, i)
  }

  /** The i-th code is longer than root, and the first with its first root bits. */
  ghost predicate Opens(lens: seq<nat>, root: nat, i: nat)
    requires i < |Sorted(lens)| && root <= MAXBITS
  {
    Len(lens, i) > root && (i == 0 || Prefix(lens, root, i - 1) != Prefix(lens, root, i))
  }

  /** The root table, and for each of the prefixes of the first n codes that are longer than root a
      sub-table indexed by what the longest code has behind it. */
  ghost function SpaceTo(lens: seq<nat>, root: nat, n: nat): nat
    requires n <= |Sorted(lens)| && root <= MAXBITS
  {
    if n == 0 then Pow2(root)
    else SpaceTo(lens, root, n - 1)
         + if Opens(lens, root, n - 1) then Pow2(Behind(LongestUnder(lens, root, n - 1), root)) else 0
  }

  function Behind(l: nat, root: nat): nat { if l > root then l - root else 0 }

  ghost function Space(lens: seq<nat>, root: nat): nat
    requires root <= MAXBITS
  {
    SpaceTo(lens, root, |Sorted(lens)|)
  }

  lemma {:induction false} SpaceGrows(lens: seq<nat>, root: nat, m: nat, n: nat)
    requires m <= n <= |Sorted(lens)| && root <= MAXBITS
    ensures SpaceTo(lens, root, m) <= SpaceTo(lens, root, n)
  {
    hide Pow2, LongestUnder, Opens;
    if m < n {
      SpaceGrows(lens, root, m, n - 1);
    }
  }

  lemma PrefixOfCode(lens: seq<nat>, root: nat, i: nat, huff: nat)
    requires IsCode(lens, i, huff) && root <= MAXBITS
    ensures Prefix(lens, root, i) == Rev(huff, root)
  {
    hide Rev, Shl, Shr, Pow2, Start, Low;
    RevSplit(huff, root, MAXBITS);
    SplitUnique(MAXBITS - root, Rev(Shr(huff, root), MAXBITS - root), Rev(huff, root));
  }

  /** Comparing low is comparing the prefixes. */
  lemma SamePrefix(lens: seq<nat>, root: nat, i: nat, huff: nat, k: nat, huff': nat)
    requires IsCode(lens, i, huff) && IsCode(lens, k, huff') && root <= MAXBITS
    ensures Prefix(lens, root, i) == Prefix(lens, root, k) <==> Low(huff, root) == Low(huff', root)
  {
    hide Rev, Pow2, Start, Low, Prefix;
    PrefixOfCode(lens, root, i, huff);
    PrefixOfCode(lens, root, k, huff');
    RevLow(huff, root, root);
    RevLow(huff', root, root);
    if Rev(huff, root) == Rev(huff', root) { RevInjective(huff, huff', root); }
  }

  /** The codes from the i-th on with its prefix are those that start in its block. */
  lemma BlockIsPrefix(lens: seq<nat>, root: nat, i: nat, k: nat)
    requires i <= k < |Sorted(lens)| && root <= MAXBITS
    ensures Start(lens, k) < Shl(Prefix(lens, root, i) + 1, MAXBITS - root) <==> Prefix(lens, root, k) == Prefix(lens, root, i)
  {
    hide Shl, Shr, Low, Pow2, Start;
    var d := MAXBITS - root;
    var p, q := Prefix(lens, root, i), Prefix(lens, root, k);
    StartMono(lens, i, k);
    Split(Start(lens, i), d);
    Split(Start(lens, k), d);
    ShlSum(p, 1, d);
    ShlSum(q, 1, d);
    OnePow2(d);
    ShlGap(p, q, d);
    ShlGap(q, p, d);
    ShlGap(p + 1, q, d);
  }

  lemma {:induction false} LongestIsLast(lens: seq<nat>, root: nat, i: nat, l: nat, last: nat)
    requires root <= MAXBITS && i <= last < |Sorted(lens)| && Prefix(lens, root, last) == Prefix(lens, root, i)
    requires forall k :: i <= k < |Sorted(lens)| && Prefix(lens, root, k) == Prefix(lens, root, i) ==> Len(lens, k) <= l
    requires Len(lens, last) >= l
    ensures LongestUnder(lens, root, i) == l
    decreases |Sorted(lens)| - i
  {
    hide Len, Prefix;
    if i + 1 < |Sorted(lens)| && Prefix(lens, root, i + 1) == Prefix(lens, root, i) {
      if last == i {
        LenMono(lens, i, i + 1);
      }
      LongestIsLast(lens, root, i + 1, l, if last == i then i + 1 else last);
    } else if last > i {
      Between(lens, root, i, i + 1, last);
    }
  }

  lemma Between(lens: seq<nat>, root: nat, i: nat, j: nat, k: nat)
    requires root <= MAXBITS && i <= j <= k < |Sorted(lens)| && Prefix(lens, root, k) == Prefix(lens, root, i)
    ensures Prefix(lens, root, j) == Prefix(lens, root, i)
  {
    hide Shl, Start, Prefix;
    BlockIsPrefix(lens, root, i, j);
    BlockIsPrefix(lens, root, i, k);
    StartMono(lens, j, k);
  }

  /** What the look-ahead finds is the size the space is counted with. */
  lemma SubTableSize(lens: seq<nat>, root: nat, i: nat, huff: nat, curr: nat, last: nat)
    requires IsCode(lens, i, huff) && root <= MAXBITS && Start(lens, i) == Shl(Rev(huff, root), MAXBITS - root)
    requires BlockFits(lens, i, Start(lens, i) + Pow2(MAXBITS - root), root + curr)
    requires i <= last < |Sorted(lens)| && Start(lens, last) < Start(lens, i) + Pow2(MAXBITS - root)
    requires Len(lens, last) == root + curr
    ensures LongestUnder(lens, root, i) == root + curr
  {
    hide Shl, Pow2, Start, Prefix, Rev, Len, LongestUnder;
    PrefixOfCode(lens, root, i, huff);
    ShlSum(Prefix(lens, root, i), 1, MAXBITS - root);
    OnePow2(MAXBITS - root);
    forall k | i <= k < |Sorted(lens)| && Prefix(lens, root, k) == Prefix(lens, root, i) ensures Len(lens, k) <= root + curr {
      BlockIsPrefix(lens, root, i, k);
    }
    BlockIsPrefix(lens, root, i, last);
    LongestIsLast(lens, root, i, root + curr, last);
  }

  // ---- filling the tables -------------------------------------------------------------------

  /** The variables of the main loop that say which table is being filled. */
  datatype Cursor = Cursor(next: nat, curr: nat, drop: nat, low: int, used: nat)

  /** Filling the root table, or the open sub-table under the root entry low. */
  ghost predicate Open(lens: seq<nat>, table: seq<Code>, root: nat, i: nat, huff: nat, c: Cursor)
    requires i < |Sorted(lens)| && root <= MAXBITS
  {
    && Pow2(root) <= c.used <= |table|
    && c.next + Pow2(c.curr) == c.used
    && if c.drop == 0 then
         c.next == 0 && c.curr == root && c.low == -1 && Len(lens, i) <= root
       else
         && c.drop == root < Len(lens, i) <= root + c.curr && 1 <= c.curr < 16
         && Pow2(root) <= c.next < 0x1_0000
         && c.low == Low(huff, root)
         && table[c.low] == Code(c.curr, root, c.next)
         && BlockFits(lens, i, BlockEnd(huff, root), root + c.curr)
  }

  lemma FillFits(huff: nat, len: nat, drop: nat)
    requires drop <= len && huff < Pow2(len)
    ensures Shr(huff, drop) < Pow2(len - drop)
  {
    ShrBound(huff, drop, len);
  }

  /** Replicating the entry of the i-th code where its bits lead. */
  method PlaceCode(table: array<Code>, ghost lens: seq<nat>, ghost kind: CodeType, root: nat,
                   ghost i: nat, len: nat, huff: nat, c: Cursor, here: Code)
    requires Symbols(lens, kind) && IsCode(lens, i, huff) && len == Len(lens, i) && 1 <= root <= MAXBITS
    requires Open(lens, table[..], root, i, huff, c)
    requires Frontier(lens, kind, table[..], root, i, c.next, c.curr, c.low)
    requires here == SymbolEntry(kind, Sorted(lens)[i], len - c.drop)
    modifies table
    ensures Open(lens, table[..], root, i, huff, c)
    ensures Frontier(lens, kind, table[..], root, i + 1, c.next, c.curr, c.low)
  {
    hide Rev, Low, Shr, Pow2, InShare, Len, SymbolEntry, Placed, BlockFits, Frontier, Start;
    ghost var t := table[..];
    var e := len - c.drop;
    FillFits(huff, len, c.drop);
    if c.drop == 0 { assert Shr(huff, 0) == huff by { ShrNone(huff); } }
    Replicate(table, c.next, c.curr, e, Shr(huff, c.drop), here);
    if c.drop == 0 {
      RootStep(lens, kind, t, table[..], root, i, huff, c.next, c.curr, c.low);
    } else {
      SubStep(lens, kind, t, table[..], root, i, huff, c.next, c.curr, c.low, e);
      assert table[c.low] == t[c.low];
    }
  }

  /** `if (len > root && (huff & mask) != low)`: moving on to a new sub-table. */
  method NewTable(table: array<Code>, count: array<nat>, ghost lens: seq<nat>, kind: CodeType, root: nat, max: nat,
                  ghost i: nat, len: nat, ghost before: nat, huff: nat, c: Cursor)
    returns (ret: nat, c': Cursor)
    requires Symbols(lens, kind) && 1 <= i && IsCode(lens, i - 1, before) && IsCode(lens, i, huff)
    requires len == Len(lens, i) && 1 <= root < len <= max <= MAXBITS
    requires Count(lens, max) > 0 && Order(lens, max) == Sorted(lens) && CountsFrom(count[..], lens, i)
    requires kind != CODES && table.Length >= Enough(kind)
    requires Open(lens, table[..], root, i - 1, before, c) && Low(huff, root) != c.low
    requires Frontier(lens, kind, table[..], root, i, c.next, c.curr, c.low)
    requires c.used == SpaceTo(lens, root, i)
    modifies table
    ensures ret <= 1 && (ret == 1 <==> SpaceTo(lens, root, i + 1) > Enough(kind))
    ensures ret == 0 ==> c'.used == SpaceTo(lens, root, i + 1)
    ensures ret == 0 ==> Open(lens, table[..], root, i, huff, c')
    ensures ret == 0 ==> Frontier(lens, kind, table[..], root, i, c'.next, c'.curr, c'.low)
  {
    hide Rev, Low, Shr, Pow2, InShare, Len, Placed, BlockFits, Frontier, Start, Order, Shl, Prefix, LongestUnder;
    var next := c.next + Pow2(c.curr);
    var curr, last := LookAhead(count, lens, i, len, root, max);
    var used := c.used + Pow2(curr);
    if c.drop == 0 {
      FirstEdge(lens, i, before, huff, root);
      FirstOpens(lens, i, before, huff, root);
    } else {
      NextEdge(lens, i, before, huff, root);
      SamePrefix(lens, root, i - 1, before, i, huff);
    }
    SubTableSize(lens, root, i, huff, curr, last);
    assert used == SpaceTo(lens, root, i + 1);
    if used > Enough(kind) { return 1, c; }
    var low := Low(huff, root);
    InBlock(huff, root);
    OpenStep(lens, kind, table[..], root, i, huff, c.next, c.curr, c.low, next, curr);
    ghost var t := table[..];
    table[low] := Code(curr, root, next);
    assert table[..] == t[low := Code(curr, root, next)];
    ret, c' := 0, Cursor(next, curr, root, low, used);
  }

  /** A code longer than root behind one that is not begins other bits. */
  lemma FirstOpens(lens: seq<nat>, i: nat, before: nat, huff: nat, root: nat)
    requires 1 <= i && 1 <= root <= MAXBITS && IsCode(lens, i - 1, before) && IsCode(lens, i, huff)
    requires Len(lens, i - 1) <= root
    ensures Prefix(lens, root, i - 1) != Prefix(lens, root, i)
  {
    hide Rev, Shl, Shr, Pow2, Start, Len, Low;
    FirstEdge(lens, i, before, huff, root);
    PrefixOfCode(lens, root, i, huff);
    Split(Start(lens, i - 1), MAXBITS - root);
    StartStep(lens, i - 1);
    OnePow2(MAXBITS - Len(lens, i - 1));
  }

  /** What the caller of inflate_table may rely on. */
  ghost predicate TableOk(table: seq<Code>, root: nat, kind: CodeType, lens: seq<nat>)
    requires Symbols(lens, kind)
  {
    forall s: nat, x: nat :: Begins(lens, s, x) ==> Decodes(table, root, x, kind, s, lens[s])
  }

  lemma FrontierDone(lens: seq<nat>, kind: CodeType, table: seq<Code>, root: nat, next: nat, curr: nat, low: int)
    requires Symbols(lens, kind) && Frontier(lens, kind, table, root, |Sorted(lens)|, next, curr, low)
    ensures TableOk(table, root, kind, lens)
  {
    hide Rev, Low, Shr, Place, Start, InShare, Decodes;
    forall s: nat, x: nat | Begins(lens, s, x) ensures Decodes(table, root, x, kind, s, lens[s]) {
      BeginsInShare(lens, s, x);
      PlaceIs(lens, s);
      assert Placed(table, root, x, kind, Sorted(lens)[Place(lens, s)], Len(lens, Place(lens, s)), next, curr, low);
    }
  }

  lemma FirstCodeIsZero(lens: seq<nat>, min: nat)
    requires 1 <= min <= MAXBITS && Count(lens, min) > 0 && Order(lens, min - 1) == []
    ensures |Sorted(lens)| > 0 && Len(lens, 0) == min && IsCode(lens, 0, 0)
  {
    LevelCount(lens, min);
    OrderPrefix(lens, min, MAXBITS);
    LevelLen(lens, 0, min);
    RevZero(MAXBITS);
  }

  lemma CountsAtStart(count: seq<nat>, lens: seq<nat>, min: nat)
    requires Counts(count, lens) && 1 <= min <= MAXBITS && Count(lens, min) > 0 && Order(lens, min - 1) == []
    requires |Sorted(lens)| > 0 && Len(lens, 0) == min
    ensures CountsFrom(count, lens, 0)
  {
    LevelCount(lens, min);
  }

  lemma CountPositive(count: seq<nat>, lens: seq<nat>, i: nat)
    requires CountsFrom(count, lens, i)
    ensures count[Len(lens, i)] >= 1
  {
    hide Order;
    LenLevel(lens, i);
  }

  /** After the i-th code: what the next one is can be read off count[]. */
  lemma CountsNext(count: seq<nat>, lens: seq<nat>, i: nat, max: nat)
    requires CountsFrom(count, lens, i) && count[Len(lens, i)] >= 1
    requires max <= MAXBITS && Order(lens, max) == Sorted(lens) && Count(lens, max) > 0
    ensures var len := Len(lens, i);
            if count[len] == 1 && len == max then i + 1 == |Sorted(lens)|
            else CountsFrom(count[len := count[len] - 1], lens, i + 1) && (count[len] > 1 ==> Len(lens, i + 1) == len)
  {
    hide Order, SymsOf;
    var len := Len(lens, i);
    LenLevel(lens, i);
    LenAtMost(lens, i, max);
    UptoMono(lens, len, max);
    if i + 1 < Upto(lens, len) {
      LevelLen(lens, i + 1, len);
    } else if len < max {
      UptoBelow(lens, len, max);
      LenLevel(lens, i + 1);
      LenMono(lens, i, i + 1);
      LevelCount(lens, Len(lens, i + 1));
      UptoMono(lens, len, Len(lens, i + 1) - 1);
    }
  }

  lemma NextCode(lens: seq<nat>, i: nat, huff: nat, next: nat)
    requires IsCode(lens, i, huff) && !OverSubscribed(lens)
    requires Rev(huff, MAXBITS) + Pow2(MAXBITS - Len(lens, i)) < Pow2(MAXBITS) ==>
               next < Pow2(Len(lens, i)) && Rev(next, MAXBITS) == Rev(huff, MAXBITS) + Pow2(MAXBITS - Len(lens, i))
    ensures i + 1 < |Sorted(lens)| ==> IsCode(lens, i + 1, next)
  {
    hide Rev, Pow2, Start;
    StartStep(lens, i);
    if i + 1 < |Sorted(lens)| {
      LenMono(lens, i, i + 1);
      Pow2Mono(Len(lens, i), Len(lens, i + 1));
      StartStep(lens, i + 1);
      OnePow2(MAXBITS - Len(lens, i + 1));
      StartMono(lens, i + 2, |Sorted(lens)|);
    }
  }

  /** The increment of the last code carries out exactly when the set is complete. */
  lemma LastCode(lens: seq<nat>, i: nat, huff: nat, next: nat)
    requires IsCode(lens, i, huff) && !OverSubscribed(lens) && i + 1 == |Sorted(lens)|
    requires if Rev(huff, MAXBITS) + Pow2(MAXBITS - Len(lens, i)) < Pow2(MAXBITS)
             then next < Pow2(Len(lens, i)) && Rev(next, MAXBITS) == Rev(huff, MAXBITS) + Pow2(MAXBITS - Len(lens, i)) else next == 0
    ensures next == 0 <==> Complete(lens)
    ensures !Complete(lens) ==> next < Pow2(Len(lens, i)) && Rev(next, MAXBITS) == Start(lens, |Sorted(lens)|)
  {
    hide Rev, Pow2, Start;
    StartStep(lens, i);
    RevZero(MAXBITS);
    OnePow2(MAXBITS - Len(lens, i));
  }

  /** Staying in the table that is open. */
  lemma StayOpen(lens: seq<nat>, table: seq<Code>, root: nat, i: nat, before: nat, huff: nat, c: Cursor)
    requires 1 <= i && 1 <= root <= MAXBITS && IsCode(lens, i - 1, before) && IsCode(lens, i, huff)
    requires Open(lens, table, root, i - 1, before, c)
    requires !(Len(lens, i) > root && Low(huff, root) != c.low)
    ensures Open(lens, table, root, i, huff, c)
  {
    hide Rev, Pow2, Start, Len, Low, Shl;
    LenMono(lens, i - 1, i);
    if c.drop != 0 {
      RevLow(huff, root, root);
      RevLow(before, root, root);
      InBlock(huff, root);
      assert BlockEnd(huff, root) == BlockEnd(before, root);
    }
  }

  /** The loop of inflate_table that enters all codes. */
  method FillTables(table: array<Code>, count: array<nat>, work: array<nat>, lens: seq<nat>, kind: CodeType,
                    root: nat, min: nat, max: nat)
    returns (ret: nat, c: Cursor, huff: nat, len: nat)
    requires Symbols(lens, kind) && !OverSubscribed(lens) && Counts(count[..], lens) && count as object != table as object
    requires work as object != table as object && work != count
    requires |Sorted(lens)| <= work.Length && work[..|Sorted(lens)|] == Sorted(lens)
    requires 1 <= min <= root <= max <= MAXBITS && Count(lens, min) > 0 && Order(lens, min - 1) == []
    requires Count(lens, max) > 0 && Order(lens, max) == Sorted(lens)
    requires table.Length >= Enough(kind) && Pow2(root) <= Enough(kind) && (kind == CODES ==> max <= root)
    modifies table, count
    ensures ret <= 1 && (ret == 1 <==> kind != CODES && Space(lens, root) > Enough(kind))
    ensures ret == 0 ==> c.used == Space(lens, root)
    ensures ret == 0 ==> Pow2(root) <= c.used <= table.Length && TableOk(table[..], root, kind, lens)
    ensures ret == 0 && max <= root ==> c.next == 0 && c.drop == 0
    ensures ret == 0 ==> (huff == 0 <==> Complete(lens)) && len == max
    ensures ret == 0 && !Complete(lens) ==> huff < Pow2(len) && Rev(huff, MAXBITS) == Start(lens, |Sorted(lens)|)
  {
    hide Rev, Low, Shr, Pow2, InShare, Placed, BlockFits, Frontier, Start, Order, Shl, SymsOf, SymbolEntry, TableOk,
         SpaceTo, Opens;
    ret := 0;
    FirstCodeIsZero(lens, min);
    CountsAtStart(count[..], lens, min);
    huff, len := 0, min;
    var sym := 0;
    c := Cursor(0, root, 0, -1, Pow2(root));
    RootSpace(lens, root);
    assert Frontier(lens, kind, table[..], root, 0, 0, root, -1) by { NothingPlaced(lens, kind, table[..], root); }
    while true
      invariant sym < |Sorted(lens)| && IsCode(lens, sym, huff) && len == Len(lens, sym)
      invariant work[..|Sorted(lens)|] == Sorted(lens)
      invariant CountsFrom(count[..], lens, sym)
      invariant Open(lens, table[..], root, sym, huff, c)
      invariant c.used == SpaceTo(lens, root, sym + 1) && (kind == CODES || c.used <= Enough(kind))
      invariant Frontier(lens, kind, table[..], root, sym, c.next, c.curr, c.low)
      decreases |Sorted(lens)| - sym
    {
      assert work[sym] == Sorted(lens)[sym] by { assert work[..|Sorted(lens)|][sym] == work[sym]; }
      var here := MakeEntry(kind, work[sym], len - c.drop);
      PlaceCode(table, lens, kind, root, sym, len, huff, c, here);
      ghost var before := huff;
      huff := Increment(huff, len);
      NextCode(lens, sym, before, huff);
      CountPositive(count[..], lens, sym);
      CountsNext(count[..], lens, sym, max);
      ghost var was := count[..];
      sym := sym + 1;
      count[len] := count[len] - 1;
      assert count[..] == was[len := was[len] - 1];
      if count[len] == 0 {
        if len == max {
          LastCode(lens, sym - 1, before, huff);
          assert c.used == Space(lens, root);
          break;
        }
        assert work[sym] == Sorted(lens)[sym] by { assert work[..|Sorted(lens)|][sym] == work[sym]; }
        len := lens[work[sym]];
      }
      LenAtMost(lens, sym, max);
      if len > root && Low(huff, root) != c.low {
        ret, c := NewTable(table, count, lens, kind, root, max, sym, len, before, huff, c);
        if ret != 0 {
          SpaceGrows(lens, root, sym + 1, |Sorted(lens)|);
          return;
        }
      } else {
        NoneOpened(lens, table[..], root, sym, before, huff, c);
        StayOpen(lens, table[..], root, sym, before, huff, c);
      }
    }
    FrontierDone(lens, kind, table[..], root, c.next, c.curr, c.low);
  }

  /** The first code is not longer than root. */
  lemma RootSpace(lens: seq<nat>, root: nat)
    requires |Sorted(lens)| > 0 && Len(lens, 0) <= root <= MAXBITS
    ensures SpaceTo(lens, root, 1) == Pow2(root)
  {
    hide Pow2;
    assert SpaceTo(lens, root, 0) == Pow2(root);
  }

  /** Staying in the table that is open, no other is counted. */
  lemma NoneOpened(lens: seq<nat>, table: seq<Code>, root: nat, i: nat, before: nat, huff: nat, c: Cursor)
    requires 1 <= i && 1 <= root <= MAXBITS && IsCode(lens, i - 1, before) && IsCode(lens, i, huff)
    requires Open(lens, table, root, i - 1, before, c)
    requires !(Len(lens, i) > root && Low(huff, root) != c.low)
    ensures SpaceTo(lens, root, i + 1) == SpaceTo(lens, root, i)
  {
    hide Rev, Pow2, Start, Len, Low, Shl, Prefix, LongestUnder, BlockFits;
    if Len(lens, i) > root {
      SamePrefix(lens, root, i - 1, before, i, huff);
    }
  }

  lemma NothingPlaced(lens: seq<nat>, kind: CodeType, table: seq<Code>, root: nat)
    requires Symbols(lens, kind)
    ensures Frontier(lens, kind, table, root, 0, 0, root, -1)
  {
  }

  ghost predicate OneBitCodes(lens: seq<nat>) { forall i :: 0 <= i < |Sorted(lens)| ==> Len(lens, i) == 1 }

  lemma LongestIs(lens: seq<nat>, max: nat)
    requires max <= MAXBITS && Order(lens, max) == Sorted(lens) && (max > 0 ==> Count(lens, max) > 0)
    ensures max == 0 <==> Sorted(lens) == []
    ensures max > 0 ==> (OneBitCodes(lens) <==> max == 1)
  {
    hide SymsOf;
    if max > 0 {
      LevelCount(lens, max);
      var k := Upto(lens, max) - 1;
      LevelLen(lens, k, max);
      if max == 1 {
        forall i | 0 <= i < |Sorted(lens)| ensures Len(lens, i) == 1 { LenAtMost(lens, i, 1); }
      }
    } else {
      UptoZero(lens);
    }
  }

  /** The marker for invalid codes. */
  const INVALID := Code(64, 1, 0)

  /** With a single one-bit code, the other bit is free to be marked. */
  lemma MarkFree(lens: seq<nat>, kind: CodeType, table: seq<Code>, huff: nat)
    requires Symbols(lens, kind) && TableOk(table, 1, kind, lens) && 2 <= |table|
    requires 0 < huff < Pow2(1) && Rev(huff, MAXBITS) == Start(lens, |Sorted(lens)|)
    requires OneBitCodes(lens)
    ensures TableOk(table[huff := INVALID], 1, kind, lens)
  {
    hide Start, Place, CodeOf, SymbolEntry, Shr;
    var t := table[huff := INVALID];
    forall s: nat, x: nat | Begins(lens, s, x) ensures Decodes(t, 1, x, kind, s, lens[s]) {
      assert Decodes(table, 1, x, kind, s, lens[s]);
      BeginsInShare(lens, s, x);
      PlaceIs(lens, s);
      assert Len(lens, Place(lens, s)) == 1;
      StartMono(lens, Place(lens, s) + 1, |Sorted(lens)|);
      OddRev(x);
      OddRev(huff);
      assert Low(x, 1) == x % 2;
    }
  }

  lemma OddRev(x: nat)
    ensures x % 2 == 1 ==> Rev(x, MAXBITS) >= Pow2(MAXBITS - 1)
    ensures x == 1 ==> Rev(x, MAXBITS) == Pow2(MAXBITS - 1)
  {
    hide Pow2;
    RevZero(MAXBITS - 1);
  }

  /** The bits asked for, but not more than the longest code has and not less than the shortest. */
  ghost function RootBits(lens: seq<nat>, bits: nat): (root: nat)
    requires Sorted(lens) != []
    ensures 1 <= root <= MAXBITS
  {
    var shortest, longest := Len(lens, 0), Len(lens, |Sorted(lens)| - 1);
    var root := if bits > longest then longest else bits;
    if root < shortest then shortest else root
  }

  lemma RootIs(lens: seq<nat>, min: nat, max: nat)
    requires 1 <= min <= max <= MAXBITS && Count(lens, min) > 0 && Order(lens, min - 1) == []
    requires Count(lens, max) > 0 && Order(lens, max) == Sorted(lens)
    ensures Sorted(lens) != [] && Len(lens, 0) == min && Len(lens, |Sorted(lens)| - 1) == max
  {
    hide Order, SymsOf;
    FirstCodeIsZero(lens, min);
    LevelCount(lens, max);
    LenIsLast(lens, |Sorted(lens)| - 1, max);
  }

  lemma SpaceIsMore(lens: seq<nat>, root: nat)
    requires root <= MAXBITS
    ensures Space(lens, root) >= Pow2(root)
  {
    hide Pow2;
    SpaceGrows(lens, root, 0, |Sorted(lens)|);
  }

  /** inflate_table.  The result is -1 exactly for the sets of lengths that are
      over-subscribed, or incomplete other than by having no code at all or, for LENS
      and DISTS, one code of one bit.  It is 1 exactly for the other sets of literal/length
      or distance codes that need more space than the constants of inftrees.h allow for,
      which is told from the lengths alone; otherwise just that space is used.  On success
      the table decodes every code by consuming exactly its bits. */
  method InflateTable(kind: CodeType, lens: seq<nat>, table: array<Code>, bits: nat, work: array<nat>)
    returns (ret: int, bits': nat, used: nat)
    requires Symbols(lens, kind) && |lens| <= work.Length && table.Length >= Enough(kind)
    requires work as object != table as object
    requires kind == CODES ==> bits == 7 && forall s :: 0 <= s < |lens| ==> lens[s] <= 7
    modifies table, work
    ensures ret == 0 || ret == 1 || ret == -1
    ensures ret == 1 <==> Sorted(lens) != [] && !OverSubscribed(lens) && (Complete(lens) || OneBitCodes(lens)) &&
                          kind != CODES && Space(lens, RootBits(lens, bits)) > Enough(kind)
    ensures ret == 0 && Sorted(lens) != [] ==> bits' == RootBits(lens, bits) && used == Space(lens, bits')
    ensures ret == -1 <==> Sorted(lens) != [] && (OverSubscribed(lens) ||
                             (!Complete(lens) && (kind == CODES || !OneBitCodes(lens))))
    ensures ret == 0 ==> 1 <= bits' <= MAXBITS && Pow2(bits') <= used <= table.Length
    ensures ret == 0 ==> TableOk(table[..], bits', kind, lens)
    ensures ret == 0 && Sorted(lens) == [] ==> bits' == 1 && table[0] == table[1] == INVALID
    ensures ret == 0 && Sorted(lens) != [] && !Complete(lens) ==> bits' == 1 && table[1] == INVALID
  {
    hide Rev, Low, Shr, Pow2, Start, Order, Shl, SymsOf, SymbolEntry, TableOk, SpaceTo;
    bits', used := 0, 0;
    var count := CountLengths(lens);
    assert count as object != table as object && count != work;
    var root := bits;
    var max := LongestLength(count, lens);
    LongestIs(lens, max);
    if root > max { root := max; }
    if max == 0 {
      table[0], table[1] := INVALID, INVALID;
      assert TableOk(table[..], 1, kind, lens) by { NoCodes(lens, kind, table[..]); }
      PowOne();
      return 0, 1, 2;
    }
    var min := ShortestLength(count, max, lens);
    if root < min { root := min; }
    RootIs(lens, min, max);
    var left := FreeSpace(count, lens);
    if left < 0 { return -1, bits', used; }
    if left > 0 && (kind == CODES || max != 1) { return -1, bits', used; }
    ghost var counts := count[..];
    SortSymbols(lens, count, work);
    assert count[..] == counts;
    if kind == CODES {
      CodesFit(lens, max);
      Pow2Mono(root, 7);
      PowSeven();
    }
    SpaceIsMore(lens, root);
    if kind != CODES && Pow2(root) > Enough(kind) { return 1, bits', used; }
    var c, huff, len;
    ret, c, huff, len := FillTables(table, count, work, lens, kind, root, min, max);
    if ret != 0 { return; }
    if huff != 0 {
      PowOne();
      MarkFree(lens, kind, table[..], huff);
      ghost var t := table[..];
      table[c.next + huff] := Code(64, len - c.drop, 0);
      assert table[..] == t[huff := INVALID];
    }
    used := c.used;
    bits' := root;
  }

  lemma PowOne()
    ensures Pow2(1) == 2
  {
  }

  lemma PowSeven()
    ensures Pow2(7) == 0x80
  {
  }

  lemma NoCodes(lens: seq<nat>, kind: CodeType, table: seq<Code>)
    requires Symbols(lens, kind) && Sorted(lens) == []
    ensures TableOk(table, 1, kind, lens)
  {
    hide Rev, Order;
    forall s: nat, x: nat ensures !Begins(lens, s, x) {
      if Begins(lens, s, x) { PlaceIs(lens, s); }
    }
  }

  lemma CodesFit(lens: seq<nat>, max: nat)
    requires 1 <= max <= MAXBITS && Count(lens, max) > 0 && forall s :: 0 <= s < |lens| ==> lens[s] <= 7
    ensures max <= 7
  {
    SymsOfAre(lens, max);
    assert lens[SymsOf(lens, max)[0]] == max;
  }
}
