/** Segmentation of maximum weight, core/cppjieba/MPSegment.hpp. */
module MpSegment {
  import opened Unicode
  import opened Trie

  /** -3.14e+100 */
  const MIN_DOUBLE: real := -31400000000000000000000000000000000000000000000000000000000000000000000000000000000000000000000000000.0
  const MAX_WORD_LENGTH: nat := 512

  type Words = map<seq<Rune>, DictUnit>

  /** The dictionary as DictTrie makes it: every unit is filed under its own word. */
  ghost predicate Keyed(words: Words) {
    forall w :: w in words ==> words[w].word == w && w != []
  }

  // ---- segmentations --------------------------------------------------------------------------

  /** A piece may be any single rune, or a dictionary word that is not too long. */
  ghost predicate Piece(words: Words, maxLen: nat, w: seq<Rune>) {
    |w| == 1 || (w in words && 1 <= |w| <= maxLen)
  }

  /** Runes that are no dictionary word cost the minimum weight. */
  ghost function PieceWeight(words: Words, minWeight: real, w: seq<Rune>): real {
    if w in words then words[w].weight else minWeight
  }

  /** lens are the lengths of pieces that make up r from i on. */
  ghost predicate Segments(words: Words, maxLen: nat, r: seq<Rune>, i: nat, lens: seq<nat>)
    decreases |lens|
  {
    if lens == [] then i == |r|
    else
      && 1 <= lens[0] && i + lens[0] <= |r| && Piece(words, maxLen, r[i..i + lens[0]])
      && Segments(words, maxLen, r, i + lens[0], lens[1..])
  }

  ghost function Weight(words: Words, minWeight: real, r: seq<Rune>, i: nat, lens: seq<nat>): real
    decreases |lens|
  {
    if lens == [] || i + lens[0] > |r| then 0.0
    else PieceWeight(words, minWeight, r[i..i + lens[0]]) + Weight(words, minWeight, r, i + lens[0], lens[1..])
  }

  /** No segmentation of the rest from i on weighs more than x, and lens weighs x. */
  ghost predicate Best(words: Words, minWeight: real, maxLen: nat, r: seq<Rune>, i: nat, lens: seq<nat>, x: real) {
    && Segments(words, maxLen, r, i, lens) && Weight(words, minWeight, r, i, lens) == x
    && forall other :: Segments(words, maxLen, r, i, other) ==> Weight(words, minWeight, r, i, other) <= x
  }

  /** From every position on, some segmentation weighs more than MIN_DOUBLE. */
  ghost predicate AboveMin(words: Words, minWeight: real, maxLen: nat, r: seq<Rune>) {
    forall i :: 0 <= i < |r| ==> SomeAboveMin(words, minWeight, maxLen, r, i)
  }

  ghost predicate SomeAboveMin(words: Words, minWeight: real, maxLen: nat, r: seq<Rune>, i: nat) {
    exists lens :: Segments(words, maxLen, r, i, lens) && Weight(words, minWeight, r, i, lens) > MIN_DOUBLE
  }

  // ---- CalcDP ---------------------------------------------------------------------------------

  /** What follows position e in the best segmentation, by the weights found so far. */
  function Tail(w: seq<real>, e: nat): real { if e + 1 < |w| then w[e + 1] else 0.0 }

  function UnitWeight(minWeight: real, p: Found): real { if p.Found? then p.u.weight else minWeight }

  function EdgeValue(minWeight: real, w: seq<real>, edge: (nat, Found)): real {
    Tail(w, edge.0) + UnitWeight(minWeight, edge.1)
  }

  /** The first edge of greatest value, unless no value is above MIN_DOUBLE. */
  ghost predicate Chosen(minWeight: real, w: seq<real>, nexts: seq<(nat, Found)>, pInfo: Found, weight: real) {
    && (forall k :: 0 <= k < |nexts| ==> EdgeValue(minWeight, w, nexts[k]) <= weight)
    && weight >= MIN_DOUBLE
    && if weight == MIN_DOUBLE then pInfo == NotFound
       else exists k :: 0 <= k < |nexts| && nexts[k].1 == pInfo && EdgeValue(minWeight, w, nexts[k]) == weight
  }

  function Weights(dags: seq<Dag>): (w: seq<real>)
    ensures |w| == |dags| && forall i :: 0 <= i < |w| ==> w[i] == dags[i].weight
  {
    seq(|dags|, i requires 0 <= i < |dags| => dags[i].weight)
  }

  /** The inner loop of CalcDP for one position. */
  method ChooseBest(dags: array<Dag>, minWeight: real, i: nat)
    requires i < dags.Length && forall k :: 0 <= k < |dags[i].nexts| ==> dags[i].nexts[k].0 >= i
    modifies dags
    ensures forall k :: 0 <= k < dags.Length && k != i ==> dags[k] == old(dags[k])
    ensures dags[i].runestr == old(dags[i].runestr) && dags[i].nexts == old(dags[i].nexts)
    ensures Chosen(minWeight, Weights(old(dags[..])), dags[i].nexts, dags[i].pInfo, dags[i].weight)
  {
    ghost var w := Weights(dags[..]);
    var pInfo, weight := NotFound, MIN_DOUBLE;
    var nexts := dags[i].nexts;
    for k := 0 to |nexts|
      invariant Chosen(minWeight, w, nexts[..k], pInfo, weight)
    {
      var (nextPos, p) := nexts[k];
      var val := 0.0;
      if nextPos + 1 < dags.Length { val := val + dags[nextPos + 1].weight; }
      if p.Found? { val := val + p.u.weight; } else { val := val + minWeight; }
      assert nexts[..k + 1] == nexts[..k] + [nexts[k]];
      assert val == EdgeValue(minWeight, w, nexts[k]);
      if val > weight {
        pInfo, weight := p, val;
        assert nexts[..k + 1][k] == nexts[k];
      }
    }
    assert nexts[..|nexts|] == nexts;
    dags[i] := dags[i].(pInfo := pInfo, weight := weight);
  }

  /** Chosen looks only at the weights of later positions. */
  lemma ChosenFrame(minWeight: real, w: seq<real>, w': seq<real>, k: nat, nexts: seq<(nat, Found)>, pInfo: Found, weight: real)
    requires |w| == |w'| && forall j :: k < j < |w| ==> w[j] == w'[j]
    requires forall j :: 0 <= j < |nexts| ==> nexts[j].0 >= k
    requires Chosen(minWeight, w, nexts, pInfo, weight)
    ensures Chosen(minWeight, w', nexts, pInfo, weight)
  {
    forall j | 0 <= j < |nexts| ensures EdgeValue(minWeight, w', nexts[j]) == EdgeValue(minWeight, w, nexts[j]) {
    }
  }

  /** The edges of position k begin at k and its choice is right. */
  ghost predicate Solved(minWeight: real, dags: seq<Dag>, k: nat)
    requires k < |dags|
  {
    Chosen(minWeight, Weights(dags), dags[k].nexts, dags[k].pInfo, dags[k].weight)
  }

  ghost predicate Forward(dags: seq<Dag>) {
    forall k :: 0 <= k < |dags| ==> EdgesForward(dags[k].nexts, k)
  }

  ghost predicate EdgesForward(nexts: seq<(nat, Found)>, k: nat) {
    forall j :: 0 <= j < |nexts| ==> nexts[j].0 >= k
  }

  /** CalcDP: from the last position to the first. */
  method CalcDP(dags: array<Dag>, minWeight: real)
    requires Forward(dags[..])
    modifies dags
    ensures forall k :: 0 <= k < dags.Length ==> dags[k].runestr == old(dags[k].runestr) && dags[k].nexts == old(dags[k].nexts)
    ensures forall k :: 0 <= k < dags.Length ==> Solved(minWeight, dags[..], k)
  {
    var i := dags.Length;
    while i > 0
      invariant 0 <= i <= dags.Length
      invariant forall k :: 0 <= k < dags.Length ==> dags[k].runestr == old(dags[k].runestr) && dags[k].nexts == old(dags[k].nexts)
      invariant forall k :: i <= k < dags.Length ==> Solved(minWeight, dags[..], k)
    {
      ghost var before := dags[..];
      i := i - 1;
      assert EdgesForward(old(dags[..])[i].nexts, i);
      ChooseBest(dags, minWeight, i);
      forall k | i <= k < dags.Length ensures Solved(minWeight, dags[..], k) {
        if k > i { assert Solved(minWeight, before, k); }
        assert EdgesForward(old(dags[..])[k].nexts, k);
        ChosenFrame(minWeight, Weights(before), Weights(dags[..]), k, dags[k].nexts, dags[k].pInfo, dags[k].weight);
      }
    }
  }

  // ---- the plan that the choices make ---------------------------------------------------------

  /** How many runes the choice at a position takes. */
  function Step(p: Found): nat { if p.Found? then |p.u.word| else 1 }

  ghost function Plan(dags: seq<Dag>, i: nat): seq<nat>
    decreases |dags| - i
  {
    if i >= |dags| || Step(dags[i].pInfo) == 0 then []
    else [Step(dags[i].pInfo)] + Plan(dags, i + Step(dags[i].pInfo))
  }

  /** The weight found for the rest from i on. */
  function Value(w: seq<real>, i: nat): real { if i < |w| then w[i] else 0.0 }

  lemma {:induction false} EdgeToAt(words: Words, r: seq<Rune>, i: nat, j: nat, k: nat)
    requires i < |r| && j <= |r| && k < |EdgesTo(words, r, i, j)|
    ensures var (e, p) := EdgesTo(words, r, i, j)[k]; i < e < j && r[i..e + 1] in words && p == Found(words[r[i..e + 1]])
    decreases j
  {
    if k < |EdgesTo(words, r, i, j - 1)| { EdgeToAt(words, r, i, j - 1, k); }
  }

  /** Every edge is a piece, with its unit if it is a word. */
  lemma EdgeAt(words: Words, r: seq<Rune>, i: nat, maxLen: nat, k: nat)
    requires i < |r| && k < |Edges(words, r, i, maxLen)|
    ensures var (e, p) := Edges(words, r, i, maxLen)[k];
            && i <= e < |r| && p == Lookup(words, r[i..e + 1]) && Piece(words, maxLen, r[i..e + 1])
            && (p == NotFound ==> e == i)
  {
    if k > 0 { EdgeToAt(words, r, i, if i + maxLen < |r| then i + maxLen else |r|, k - 1); }
  }

  /** Every piece is an edge. */
  lemma PieceIsEdge(words: Words, r: seq<Rune>, i: nat, maxLen: nat, n: nat) returns (k: nat)
    requires 1 <= n && i + n <= |r| && Piece(words, maxLen, r[i..i + n])
    ensures k < |Edges(words, r, i, maxLen)| && Edges(words, r, i, maxLen)[k] == (i + n - 1, Lookup(words, r[i..i + n]))
  {
    if n == 1 {
      k := 0;
    } else {
      var u := words[r[i..i + n]];
      DagIsDictionary(words, r, i, maxLen, i + n - 1, u);
      assert (i + n - 1, Found(u)) in Edges(words, r, i, maxLen);
      k :| 0 <= k < |Edges(words, r, i, maxLen)| && Edges(words, r, i, maxLen)[k] == (i + n - 1, Found(u));
    }
  }

  /** The DAG of r, solved. */
  ghost predicate SolvedDag(words: Words, minWeight: real, maxLen: nat, r: seq<Rune>, dags: seq<Dag>) {
    && Keyed(words) && |dags| == |r|
    && (forall k :: 0 <= k < |r| ==> dags[k].nexts == Edges(words, r, k, maxLen))
    && (forall k :: 0 <= k < |r| ==> Solved(minWeight, dags, k))
  }

  /** A segmentation weighs no more than the weight found, if that holds further on. */
  lemma AtMostFound(words: Words, minWeight: real, maxLen: nat, r: seq<Rune>, dags: seq<Dag>, i: nat, other: seq<nat>)
    requires SolvedDag(words, minWeight, maxLen, r, dags) && i < |r| && Segments(words, maxLen, r, i, other)
    requires Weight(words, minWeight, r, i + other[0], other[1..]) <= Value(Weights(dags), i + other[0])
    ensures Weight(words, minWeight, r, i, other) <= dags[i].weight
  {
    var k := PieceIsEdge(words, r, i, maxLen, other[0]);
    assert Solved(minWeight, dags, i);
    assert EdgeValue(minWeight, Weights(dags), dags[i].nexts[k]) <= dags[i].weight;
  }

  /** The choice at i is a piece, and its value is the weight found. */
  lemma ChoiceIsEdge(words: Words, minWeight: real, maxLen: nat, r: seq<Rune>, dags: seq<Dag>, i: nat)
    requires SolvedDag(words, minWeight, maxLen, r, dags) && i < |r| && dags[i].weight > MIN_DOUBLE
    ensures var n := Step(dags[i].pInfo);
            && 1 <= n && i + n <= |r| && Piece(words, maxLen, r[i..i + n])
            && dags[i].weight == PieceWeight(words, minWeight, r[i..i + n]) + Value(Weights(dags), i + n)
  {
    assert Solved(minWeight, dags, i);
    var k :| 0 <= k < |dags[i].nexts| && dags[i].nexts[k].1 == dags[i].pInfo
             && EdgeValue(minWeight, Weights(dags), dags[i].nexts[k]) == dags[i].weight;
    EdgeAt(words, r, i, maxLen, k);
  }

  /** Whatever the weights, the choice at i is a piece. */
  lemma ChoiceIsPiece(words: Words, minWeight: real, maxLen: nat, r: seq<Rune>, dags: seq<Dag>, i: nat)
    requires SolvedDag(words, minWeight, maxLen, r, dags) && i < |r|
    ensures var n := Step(dags[i].pInfo); 1 <= n && i + n <= |r| && Piece(words, maxLen, r[i..i + n])
  {
    assert Solved(minWeight, dags, i);
    if dags[i].weight > MIN_DOUBLE { ChoiceIsEdge(words, minWeight, maxLen, r, dags, i); }
  }

  /** Whatever the weights, the plan is a segmentation. */
  lemma {:induction false} PlanSegments(words: Words, minWeight: real, maxLen: nat, r: seq<Rune>, dags: seq<Dag>, i: nat)
    requires SolvedDag(words, minWeight, maxLen, r, dags) && i <= |r|
    ensures Segments(words, maxLen, r, i, Plan(dags, i))
    decreases |r| - i
  {
    if i < |r| {
      ChoiceIsPiece(words, minWeight, maxLen, r, dags, i);
      hide Piece;
      PlanSegments(words, minWeight, maxLen, r, dags, i + Step(dags[i].pInfo));
    }
  }

  ghost predicate PlanBest(words: Words, minWeight: real, maxLen: nat, r: seq<Rune>, dags: seq<Dag>, i: nat) {
    Best(words, minWeight, maxLen, r, i, Plan(dags, i), Value(Weights(dags), i))
  }

  lemma NoneBetter(words: Words, minWeight: real, maxLen: nat, r: seq<Rune>, dags: seq<Dag>, i: nat, other: seq<nat>)
    requires SolvedDag(words, minWeight, maxLen, r, dags) && i < |r| && Segments(words, maxLen, r, i, other)
    requires PlanBest(words, minWeight, maxLen, r, dags, i + other[0])
    ensures Weight(words, minWeight, r, i, other) <= dags[i].weight
  {
    AtMostFound(words, minWeight, maxLen, r, dags, i, other);
  }

  lemma PlanFollows(words: Words, minWeight: real, maxLen: nat, r: seq<Rune>, dags: seq<Dag>, i: nat)
    requires SolvedDag(words, minWeight, maxLen, r, dags) && i < |r| && dags[i].weight > MIN_DOUBLE
    requires forall j :: i < j <= |r| ==> PlanBest(words, minWeight, maxLen, r, dags, j)
    ensures Segments(words, maxLen, r, i, Plan(dags, i)) && Weight(words, minWeight, r, i, Plan(dags, i)) == dags[i].weight
  {
    ChoiceIsEdge(words, minWeight, maxLen, r, dags, i);
    hide SolvedDag, Weights;
    var n := Step(dags[i].pInfo);
    assert PlanBest(words, minWeight, maxLen, r, dags, i + n);
    assert Plan(dags, i)[1..] == Plan(dags, i + n);
  }

  /** The plan is a segmentation of maximum weight, from every position on. */
  lemma {:induction false} PlanIsBest(words: Words, minWeight: real, maxLen: nat, r: seq<Rune>, dags: seq<Dag>, i: nat)
    requires SolvedDag(words, minWeight, maxLen, r, dags) && AboveMin(words, minWeight, maxLen, r) && i <= |r|
    ensures PlanBest(words, minWeight, maxLen, r, dags, i)
    decreases |r| - i
  {
    if i < |r| {
      forall j | i < j <= |r| ensures PlanBest(words, minWeight, maxLen, r, dags, j) {
        PlanIsBest(words, minWeight, maxLen, r, dags, j);
      }
      assert SomeAboveMin(words, minWeight, maxLen, r, i);
      FirstPiece(words, maxLen, r, i);
      hide Plan, Weight, SolvedDag, AboveMin, Segments, PlanBest;
      forall other | Segments(words, maxLen, r, i, other) ensures Weight(words, minWeight, r, i, other) <= dags[i].weight {
        NoneBetter(words, minWeight, maxLen, r, dags, i, other);
      }
      PlanFollows(words, minWeight, maxLen, r, dags, i);
      PlanBestIs(words, minWeight, maxLen, r, dags, i);
    }
  }

  lemma FirstPiece(words: Words, maxLen: nat, r: seq<Rune>, i: nat)
    requires i < |r|
    ensures forall other :: Segments(words, maxLen, r, i, other) ==> other != [] && 1 <= other[0] && i + other[0] <= |r|
  {
  }

  lemma PlanBestIs(words: Words, minWeight: real, maxLen: nat, r: seq<Rune>, dags: seq<Dag>, i: nat)
    requires i < |r| == |dags|
    requires Segments(words, maxLen, r, i, Plan(dags, i)) && Weight(words, minWeight, r, i, Plan(dags, i)) == dags[i].weight
    requires forall other :: Segments(words, maxLen, r, i, other) ==> Weight(words, minWeight, r, i, other) <= dags[i].weight
    ensures PlanBest(words, minWeight, maxLen, r, dags, i)
  {
    hide Segments, Weight, Plan;
  }

  ghost predicate SinglesAtLeast(words: Words, minWeight: real, r: seq<Rune>, low: real) {
    forall k :: 0 <= k < |r| ==> PieceWeight(words, minWeight, [r[k]]) >= low
  }

  function Ones(n: nat): seq<nat> { if n == 0 then [] else [1] + Ones(n - 1) }

  /** Single runes alone show that no sum gets as low as MIN_DOUBLE, if none of them weighs
      less than low and |r| times low is above it. */
  lemma SinglesSuffice(words: Words, minWeight: real, maxLen: nat, r: seq<Rune>, low: real)
    requires low <= 0.0 && (|r| as real) * low > MIN_DOUBLE
    requires SinglesAtLeast(words, minWeight, r, low)
    ensures AboveMin(words, minWeight, maxLen, r)
  {
    forall i | 0 <= i < |r| ensures SomeAboveMin(words, minWeight, maxLen, r, i) {
      SinglesWeigh(words, minWeight, maxLen, r, i, low);
      MulLow(|r| - i, |r|, low);
    }
  }

  lemma AddLow(n: nat, low: real)
    requires n >= 1
    ensures (n as real) * low == low + ((n - 1) as real) * low
  {
  }

  lemma MulLow(m: nat, n: nat, low: real)
    requires m <= n && low <= 0.0
    ensures (m as real) * low >= (n as real) * low
  {
  }

  lemma {:induction false} SinglesWeigh(words: Words, minWeight: real, maxLen: nat, r: seq<Rune>, i: nat, low: real)
    requires i <= |r| && SinglesAtLeast(words, minWeight, r, low)
    ensures var ones := Ones(|r| - i);
            Segments(words, maxLen, r, i, ones) && Weight(words, minWeight, r, i, ones) >= ((|r| - i) as real) * low
    decreases |r| - i
  {
    if i < |r| {
      SinglesWeigh(words, minWeight, maxLen, r, i + 1, low);
      var n := |r| - i;
      assert Ones(n)[1..] == Ones(n - 1) && r[i..i + 1] == [r[i]];
      AddLow(n, low);
    }
  }

  // ---- CutByDag and Cut -------------------------------------------------------------------------

  /** The ranges of pieces of these lengths, from begin on. */
  function RangesOf(begin: nat, lens: seq<nat>): seq<WordRange>
    decreases |lens|
  {
    if lens == [] then []
    else [WordRange(begin, if lens[0] == 0 then begin else begin + lens[0] - 1)] + RangesOf(begin + lens[0], lens[1..])
  }

  lemma {:induction false} SegmentsTile(words: Words, maxLen: nat, r: seq<Rune>, i: nat, lens: seq<nat>, begin: nat)
    requires Segments(words, maxLen, r, i, lens)
    ensures Tiled(RangesOf(begin + i, lens), begin + i, begin + |r|)
    decreases |lens|
  {
    if lens != [] {
      var mid := begin + i + lens[0];
      SegmentsTile(words, maxLen, r, i + lens[0], lens[1..], begin);
      TiledSnoc([], begin + i, begin + i, mid);
      assert [] + [WordRange(begin + i, mid - 1)] == [WordRange(begin + i, mid - 1)];
      TiledConcat([WordRange(begin + i, mid - 1)], RangesOf(mid, lens[1..]), begin + i, mid, begin + |r|);
    }
  }

  /** CutByDag: follows the choices. */
  method CutByDag(begin: nat, dags: array<Dag>, ghost words: Words, ghost maxLen: nat, ghost r: seq<Rune>) returns (ws: seq<WordRange>)
    requires |r| == dags.Length && Segments(words, maxLen, r, 0, Plan(dags[..], 0))
    ensures ws == RangesOf(begin, Plan(dags[..], 0))
  {
    ws := [];
    var i := 0;
    ghost var d := dags[..];
    JoinedEnds(begin, Plan(d, 0));
    while i < dags.Length
      invariant 0 <= i <= dags.Length && Segments(words, maxLen, r, i, Plan(d, i))
      invariant RangesOf(begin, Plan(d, 0)) == Joined(ws, begin + i, Plan(d, i))
    {
      hide Plan, Segments, RangesOf, Joined;
      ws, i := CutOne(begin, dags[i].pInfo, d, i, ws, words, maxLen, r);
    }
    hide Segments, RangesOf, Joined;
    JoinedNone(ws, begin + i);
  }

  /** One word of CutByDag. */
  method CutOne(begin: nat, p: Found, ghost d: seq<Dag>, i: nat, ws: seq<WordRange>, ghost words: Words, ghost maxLen: nat, ghost r: seq<Rune>)
    returns (ws': seq<WordRange>, i': nat)
    requires i < |d| == |r| && Segments(words, maxLen, r, i, Plan(d, i)) && p == d[i].pInfo
    ensures i < i' <= |r| && Segments(words, maxLen, r, i', Plan(d, i'))
    ensures Joined(ws', begin + i', Plan(d, i')) == Joined(ws, begin + i, Plan(d, i))
  {
    PlanStep(d, i, words, maxLen, r);
    RangesStep(ws, begin + i, Plan(d, i));
    hide Plan, Segments, RangesOf, Joined;
    if p.Found? {
      ws' := ws + [WordRange(begin + i, begin + i + |p.u.word| - 1)];
      i' := i + |p.u.word|;
    } else {
      ws' := ws + [WordRange(begin + i, begin + i)];
      i' := i + 1;
    }
  }

  lemma RangesStep(ws: seq<WordRange>, begin: nat, lens: seq<nat>)
    requires lens != [] && lens[0] >= 1
    ensures Joined(ws, begin, lens) == Joined(ws + [WordRange(begin, begin + lens[0] - 1)], begin + lens[0], lens[1..])
  {
  }

  function Joined(ws: seq<WordRange>, begin: nat, lens: seq<nat>): seq<WordRange> { ws + RangesOf(begin, lens) }

  lemma JoinedEnds(begin: nat, lens: seq<nat>)
    ensures Joined([], begin, lens) == RangesOf(begin, lens)
  {
  }

  lemma JoinedNone(ws: seq<WordRange>, begin: nat)
    ensures Joined(ws, begin, []) == ws
  {
  }

  lemma PlanStep(dags: seq<Dag>, i: nat, words: Words, maxLen: nat, r: seq<Rune>)
    requires i < |dags| == |r| && Segments(words, maxLen, r, i, Plan(dags, i))
    ensures var rest, n := Plan(dags, i), Step(dags[i].pInfo);
            && rest != [] && rest[0] == n >= 1 && i + n <= |r| && rest[1..] == Plan(dags, i + n)
            && Segments(words, maxLen, r, i + n, Plan(dags, i + n))
  {
  }

  /** Cut on a range of runes: a segmentation, of maximum total weight if sums stay above
      MIN_DOUBLE. */
  method Cut(dict: Trie, minWeight: real, sentence: seq<RuneStr>, begin: nat, end: nat, maxLen: nat)
    returns (ws: seq<WordRange>, ghost lens: seq<nat>)
    requires dict.Valid() && Keyed(dict.words) && begin <= end <= |sentence|
    ensures Tiled(ws, begin, end) && ws == RangesOf(begin, lens)
    ensures Segments(dict.words, maxLen, Runes(sentence[begin..end]), 0, lens)
    ensures AboveMin(dict.words, minWeight, maxLen, Runes(sentence[begin..end])) ==>
              exists x :: Best(dict.words, minWeight, maxLen, Runes(sentence[begin..end]), 0, lens, x)
  {
    hide Trie.Valid, Chosen, Best;
    ghost var r := Runes(sentence[begin..end]);
    var dags := dict.FindDag(sentence[begin..end], maxLen);
    DagForward(dict.words, maxLen, r, dags[..]);
    CalcDP(dags, minWeight);
    lens := Plan(dags[..], 0);
    PlanSegments(dict.words, minWeight, maxLen, r, dags[..], 0);
    if AboveMin(dict.words, minWeight, maxLen, r) { PlanIsBest(dict.words, minWeight, maxLen, r, dags[..], 0); }
    SegmentsTile(dict.words, maxLen, r, 0, lens, begin);
    ws := CutByDag(begin, dags, dict.words, maxLen, r);
  }

  lemma DagForward(words: Words, maxLen: nat, r: seq<Rune>, dags: seq<Dag>)
    requires |dags| == |r| && forall k :: 0 <= k < |r| ==> dags[k].nexts == Edges(words, r, k, maxLen)
    ensures Forward(dags)
  {
    forall k | 0 <= k < |dags| ensures EdgesForward(dags[k].nexts, k) {
      forall j | 0 <= j < |dags[k].nexts| ensures dags[k].nexts[j].0 >= k { EdgeAt(words, r, k, maxLen, j); }
    }
  }
}
