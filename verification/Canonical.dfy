/** Canonical Huffman codes: section 3.2.2 of RFC 1951, and what makes them decodable. */
module Canonical {
  import opened Arith
  import opened BitReverse

  const MAXBITS: nat := 15

  /** Code lengths of the symbols 0..; length 0 means that the symbol is not used. */
  ghost predicate LensOk(lens: seq<nat>) {
    forall s :: 0 <= s < |lens| ==> lens[s] <= MAXBITS
  }

  /** The symbols of length l, in increasing order. */
  function SymsOf(lens: seq<nat>, l: nat): seq<nat> {
    if lens == [] then []
    else
      SymsOf(lens[..|lens| - 1], l) + if lens[|lens| - 1] == l then [|lens| - 1] else []
  }

  function Count(lens: seq<nat>, l: nat): nat { |SymsOf(lens, l)| }

  /** Step 2 of the RFC: the smallest code of each length. */
  function FirstCode(lens: seq<nat>, l: nat): nat {
    if l == 0 then 0 else 2 * (FirstCode(lens, l - 1) + if l == 1 then 0 else Count(lens, l - 1))
  }

  /** Step 3 of the RFC: consecutive codes within one length, in symbol order. */
  function CodeOf(lens: seq<nat>, s: nat): nat
    requires s < |lens|
  {
    FirstCode(lens, lens[s]) + Count(lens[..s], lens[s])
  }

  /** The code of s, most significant bit first, is how the bits of x begin. */
  ghost predicate Begins(lens: seq<nat>, s: nat, x: nat) {
    s < |lens| && lens[s] > 0 && Rev(x, lens[s]) == CodeOf(lens, s)
  }

  /** The coded symbols of length at most l, sorted by length and then by symbol. */
  function Order(lens: seq<nat>, l: nat): seq<nat> {
    if l == 0 then [] else Order(lens, l - 1) + SymsOf(lens, l)
  }

  lemma {:induction false} SymsOfAre(lens: seq<nat>, l: nat)
    ensures forall i :: 0 <= i < |SymsOf(lens, l)| ==> SymsOf(lens, l)[i] < |lens| && lens[SymsOf(lens, l)[i]] == l
  {
    if lens != [] { SymsOfAre(lens[..|lens| - 1], l); }
  }

  lemma {:induction false} OrderAre(lens: seq<nat>, l: nat)
    ensures forall i :: 0 <= i < |Order(lens, l)| ==>
              Order(lens, l)[i] < |lens| && 1 <= lens[Order(lens, l)[i]] <= l
  {
    if l > 0 {
      OrderAre(lens, l - 1);
      SymsOfAre(lens, l);
    }
  }

  ghost predicate SymsOk(lens: seq<nat>, syms: seq<nat>) {
    forall i :: 0 <= i < |syms| ==> syms[i] < |lens| && 1 <= lens[syms[i]] <= MAXBITS
  }

  /** The share of the code space taken by some symbols, in units of 2^-15. */
  function Weight(lens: seq<nat>, syms: seq<nat>): nat
    requires SymsOk(lens, syms)
  {
    if syms == [] then 0
    else Weight(lens, syms[..|syms| - 1]) + Pow2(MAXBITS - lens[syms[|syms| - 1]])
  }

  lemma {:induction false} WeightConcat(lens: seq<nat>, a: seq<nat>, b: seq<nat>)
    requires SymsOk(lens, a) && SymsOk(lens, b)
    ensures SymsOk(lens, a + b) && Weight(lens, a + b) == Weight(lens, a) + Weight(lens, b)
    decreases |b|
  {
    if b == [] {
      assert a + b == a;
    } else {
      var b' := b[..|b| - 1];
      assert (a + b)[..|a + b| - 1] == a + b';
      WeightConcat(lens, a, b');
    }
  }

  lemma {:induction false} WeightSame(lens: seq<nat>, syms: seq<nat>, l: nat)
    requires 1 <= l <= MAXBITS
    requires forall i :: 0 <= i < |syms| ==> syms[i] < |lens| && lens[syms[i]] == l
    ensures Weight(lens, syms) == Shl(|syms|, MAXBITS - l)
    decreases |syms|
  {
    if syms == [] {
      ShlZero(MAXBITS - l);
    } else {
      WeightSame(lens, syms[..|syms| - 1], l);
      ShlSum(|syms| - 1, 1, MAXBITS - l);
      ShlPow2(0, MAXBITS - l);
    }
  }

  /** Each length adds its number of codes, as the check for over-subscription counts them. */
  lemma LevelWeight(lens: seq<nat>, l: nat)
    requires 1 <= l <= MAXBITS
    ensures SymsOk(lens, Order(lens, l)) && SymsOk(lens, Order(lens, l - 1))
    ensures Weight(lens, Order(lens, l)) == Weight(lens, Order(lens, l - 1)) + Shl(Count(lens, l), MAXBITS - l)
  {
    OrderAre(lens, l);
    OrderAre(lens, l - 1);
    SymsOfAre(lens, l);
    WeightConcat(lens, Order(lens, l - 1), SymsOf(lens, l));
    WeightSame(lens, SymsOf(lens, l), l);
  }

  /** The first code of each length starts where the shorter codes end. */
  lemma {:induction false} LevelStart(lens: seq<nat>, l: nat)
    requires 1 <= l <= MAXBITS
    ensures SymsOk(lens, Order(lens, l - 1))
    ensures Weight(lens, Order(lens, l - 1)) == Shl(FirstCode(lens, l), MAXBITS - l)
  {
    hide Shl, Pow2, SymsOf;
    if l == 1 {
      ShlZero(MAXBITS - 1);
    } else {
      LevelStart(lens, l - 1);
      LevelWeight(lens, l - 1);
      hide Weight, Order;
      var k, f, c := MAXBITS - l, FirstCode(lens, l - 1), Count(lens, l - 1);
      FirstCodeNext(lens, l);
      ShlSum(f, c, k + 1);
      ShlNext(f + c, k);
    }
  }

  lemma FirstCodeNext(lens: seq<nat>, l: nat)
    requires l > 1
    ensures FirstCode(lens, l) == 2 * (FirstCode(lens, l - 1) + Count(lens, l - 1))
  {
  }

  lemma {:induction false} SymsOfRank(lens: seq<nat>, l: nat, r: nat)
    requires r < |SymsOf(lens, l)|
    ensures SymsOf(lens, l)[r] < |lens|
    ensures SymsOf(lens[..SymsOf(lens, l)[r]], l) == SymsOf(lens, l)[..r]
    decreases |lens|
  {
    SymsOfAre(lens, l);
    var n := |lens| - 1;
    var p := lens[..n];
    if r < |SymsOf(p, l)| {
      SymsOfRank(p, l, r);
      var s := SymsOf(p, l)[r];
      assert lens[..s] == p[..s];
    }
  }

  /** Every coded symbol has its place. */
  lemma {:induction false} SymsOfFind(lens: seq<nat>, s: nat)
    requires s < |lens|
    ensures var r := Count(lens[..s], lens[s]); r < |SymsOf(lens, lens[s])| && SymsOf(lens, lens[s])[r] == s
    decreases |lens|
  {
    var n := |lens| - 1;
    if s < n {
      SymsOfFind(lens[..n], s);
      assert lens[..n][..s] == lens[..s];
    }
  }

  lemma {:induction false} OrderPrefix(lens: seq<nat>, l: nat, m: nat)
    requires l <= m
    ensures Order(lens, l) <= Order(lens, m)
    decreases m
  {
    if l < m { OrderPrefix(lens, l, m - 1); }
  }

  function Sorted(lens: seq<nat>): (o: seq<nat>)
    ensures SymsOk(lens, o)
  {
    OrderAre(lens, MAXBITS);
    Order(lens, MAXBITS)
  }

  /** The code space below the i-th symbol of the sorted order. */
  function Start(lens: seq<nat>, i: nat): nat
    requires i <= |Sorted(lens)|
  {
    Weight(lens, Sorted(lens)[..i])
  }

  lemma StartStep(lens: seq<nat>, i: nat)
    requires i < |Sorted(lens)|
    ensures Start(lens, i + 1) == Start(lens, i) + Pow2(MAXBITS - lens[Sorted(lens)[i]])
  {
    assert Sorted(lens)[..i + 1][..i] == Sorted(lens)[..i];
  }

  /** Where symbol s stands in the sorted order. */
  function Place(lens: seq<nat>, s: nat): nat
    requires s < |lens| && 1 <= lens[s] <= MAXBITS
  {
    |Order(lens, lens[s] - 1)| + Count(lens[..s], lens[s])
  }

  lemma PlaceIs(lens: seq<nat>, s: nat)
    requires s < |lens| && 1 <= lens[s] <= MAXBITS
    ensures Place(lens, s) < |Sorted(lens)| && Sorted(lens)[Place(lens, s)] == s
  {
    SymsOfFind(lens, s);
    OrderPrefix(lens, lens[s], MAXBITS);
  }

  lemma PrefixTake(o: seq<nat>, a: seq<nat>, b: seq<nat>, r: nat)
    requires a + b <= o && r <= |b|
    ensures |a| + r <= |o| && o[..|a| + r] == a + b[..r]
  {
    assert o[..|a| + |b|] == a + b;
  }

  /** The canonical code of s, moved to the top of 15 bits, is where its share starts. */
  lemma CodeStart(lens: seq<nat>, s: nat)
    requires s < |lens| && 1 <= lens[s] <= MAXBITS
    ensures Place(lens, s) < |Sorted(lens)|
    ensures Start(lens, Place(lens, s)) == Shl(CodeOf(lens, s), MAXBITS - lens[s])
  {
    hide SymsOf, Order, Shl, FirstCode;
    var l, r := lens[s], Count(lens[..s], lens[s]);
    PlaceIs(lens, s);
    RankPrefix(lens, s);
    var head, part := Order(lens, l - 1), SymsOf(lens, l)[..r];
    LevelStart(lens, l);
    WeightConcat(lens, head, part);
    WeightSame(lens, part, l);
    ShlSum(FirstCode(lens, l), r, MAXBITS - l);
  }

  /** What comes before s in the sorted order: the shorter codes, and those of the same
      length for smaller symbols. */
  lemma RankPrefix(lens: seq<nat>, s: nat)
    requires s < |lens| && 1 <= lens[s] <= MAXBITS
    ensures
      var l, r := lens[s], Count(lens[..s], lens[s]);
      && r <= |SymsOf(lens, l)| && Place(lens, s) <= |Sorted(lens)|
      && Sorted(lens)[..Place(lens, s)] == Order(lens, l - 1) + SymsOf(lens, l)[..r]
      && SymsOk(lens, SymsOf(lens, l)[..r]) && SymsOk(lens, Order(lens, l - 1))
      && forall i :: 0 <= i < r ==> lens[SymsOf(lens, l)[i]] == l
  {
    var l, r := lens[s], Count(lens[..s], lens[s]);
    SymsOfFind(lens, s);
    SymsOfAre(lens, l);
    OrderAre(lens, l - 1);
    OrderPrefix(lens, l, MAXBITS);
    PrefixTake(Sorted(lens), Order(lens, l - 1), SymsOf(lens, l), r);
  }

  /** The share of the i-th symbol. */
  ghost predicate InShare(lens: seq<nat>, i: nat, v: nat) {
    i < |Sorted(lens)| && Start(lens, i) <= v < Start(lens, i + 1)
  }

  /** Bits begin with a code exactly when, read from the top, they lie in its share. */
  lemma BeginsInShare(lens: seq<nat>, s: nat, x: nat)
    requires s < |lens| && 1 <= lens[s] <= MAXBITS
    ensures Begins(lens, s, x) <==> InShare(lens, Place(lens, s), Rev(x, MAXBITS))
  {
    CodeStart(lens, s);
    PlaceIs(lens, s);
    StartStep(lens, Place(lens, s));
    var l := lens[s];
    RevSplit(x, l, MAXBITS);
    ShlGap(Rev(x, l), CodeOf(lens, s), MAXBITS - l);
    ShlGap(CodeOf(lens, s), Rev(x, l), MAXBITS - l);
  }

  lemma {:induction false} StartMono(lens: seq<nat>, i: nat, j: nat)
    requires i <= j <= |Sorted(lens)|
    ensures Start(lens, i) <= Start(lens, j)
    decreases j
  {
    if i < j {
      StartMono(lens, i, j - 1);
      StartStep(lens, j - 1);
    }
  }

  lemma {:induction false} ShareExists(lens: seq<nat>, v: nat, n: nat) returns (i: nat)
    requires n <= |Sorted(lens)| && v < Start(lens, n)
    ensures i < n && InShare(lens, i, v)
    decreases n
  {
    assert n > 0;
    if Start(lens, n - 1) <= v {
      i := n - 1;
    } else {
      i := ShareExists(lens, v, n - 1);
    }
  }

  lemma SharesApart(lens: seq<nat>, i: nat, j: nat, v: nat)
    requires InShare(lens, i, v) && InShare(lens, j, v)
    ensures i == j
  {
    hide Start;
    if i < j { StartMono(lens, i + 1, j); }
    if j < i { StartMono(lens, j + 1, i); }
  }

  ghost predicate Complete(lens: seq<nat>) { Start(lens, |Sorted(lens)|) == Pow2(MAXBITS) }

  ghost predicate OverSubscribed(lens: seq<nat>) { Start(lens, |Sorted(lens)|) > Pow2(MAXBITS) }

  /** No code is the beginning of another; this needs no completeness. */
  lemma PrefixFree(lens: seq<nat>, s: nat, t: nat, x: nat)
    requires LensOk(lens) && Begins(lens, s, x) && Begins(lens, t, x)
    ensures s == t
  {
    hide InShare, Rev, Place;
    BeginsInShare(lens, s, x);
    BeginsInShare(lens, t, x);
    PlaceIs(lens, s);
    PlaceIs(lens, t);
    SharesApart(lens, Place(lens, s), Place(lens, t), Rev(x, MAXBITS));
  }

  /** A complete set decodes everything: any bits begin with exactly one code. */
  lemma CompleteDecodes(lens: seq<nat>, x: nat)
    requires LensOk(lens) && Complete(lens)
    ensures exists s :: Begins(lens, s, x)
    ensures forall s, t :: Begins(lens, s, x) && Begins(lens, t, x) ==> s == t
  {
    var i := ShareExists(lens, Rev(x, MAXBITS), |Sorted(lens)|);
    var s := Sorted(lens)[i];
    PlaceOfSorted(lens, i);
    BeginsInShare(lens, s, x);
    assert Begins(lens, s, x);
    forall s, t | Begins(lens, s, x) && Begins(lens, t, x) ensures s == t {
      PrefixFree(lens, s, t, x);
    }
  }

  /** Place is the inverse of the sorted order. */
  lemma {:induction false} PlaceOfSorted(lens: seq<nat>, i: nat)
    requires i < |Sorted(lens)|
    ensures Place(lens, Sorted(lens)[i]) == i
  {
    hide SymsOf;
    var l := LevelOf(lens, i, MAXBITS);
    var r := i - |Order(lens, l - 1)|;
    OrderPrefix(lens, l, MAXBITS);
    SymsOfAre(lens, l);
    SymsOfRank(lens, l, r);
  }

  lemma {:induction false} LevelOf(lens: seq<nat>, i: nat, m: nat) returns (l: nat)
    requires i < |Order(lens, m)|
    ensures 1 <= l <= m && |Order(lens, l - 1)| <= i < |Order(lens, l)|
    decreases m
  {
    if i < |Order(lens, m - 1)| {
      l := LevelOf(lens, i, m - 1);
    } else {
      l := m;
    }
  }
}
