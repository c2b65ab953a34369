/** Viterbi decoding and the cuts it leads to, core/cppjieba/HMMSegment.hpp. */
module HmmSegment {
  import opened Sequences
  import opened Unicode
  import opened MpSegment

  /** The states B, E, M and S. */
  const B: nat := 0
  const E: nat := 1
  const M: nat := 2
  const S: nat := 3
  const STATUS_SUM: nat := 4

  datatype HmmModel = HmmModel(startProb: seq<real>, transProb: seq<seq<real>>, emitProb: seq<map<Rune, real>>) {
    predicate Valid() {
      && |startProb| == STATUS_SUM && |transProb| == STATUS_SUM && |emitProb| == STATUS_SUM
      && forall y :: 0 <= y < STATUS_SUM ==> |transProb[y]| == STATUS_SUM
    }

    /** GetEmitProb with MIN_DOUBLE as the default. */
    function Emit(y: nat, r: Rune): real
      requires Valid() && y < STATUS_SUM
    {
      if r in emitProb[y] then emitProb[y][r] else MIN_DOUBLE
    }

    /** Logarithms of probabilities. */
    ghost predicate NonPositive()
      requires Valid()
    {
      && (forall y :: 0 <= y < STATUS_SUM ==> startProb[y] <= 0.0)
      && (forall y, z :: 0 <= y < STATUS_SUM && 0 <= z < STATUS_SUM ==> transProb[y][z] <= 0.0)
      && (forall y, r :: 0 <= y < STATUS_SUM && r in emitProb[y] ==> emitProb[y][r] <= 0.0)
    }
  }

  ghost predicate Statuses(ys: seq<nat>) { forall k :: 0 <= k < |ys| ==> ys[k] < STATUS_SUM }

  /** The weight of a sequence of states for the runes r. */
  ghost function Score(m: HmmModel, r: seq<Rune>, ys: seq<nat>): real
    requires m.Valid() && Statuses(ys) && 1 <= |ys| <= |r|
    decreases |ys|
  {
    var k := |ys| - 1;
    if k == 0 then m.startProb[ys[0]] + m.Emit(ys[0], r[0])
    else Score(m, r, ys[..k]) + m.transProb[ys[k - 1]][ys[k]] + m.Emit(ys[k], r[k])
  }

  /** Where the arrays keep position x and state y. */
  function At(n: nat, x: nat, y: nat): nat { x + y * n }

  lemma AtRange(n: nat, x: nat, y: nat)
    requires x < n && y < STATUS_SUM
    ensures At(n, x, y) < n * STATUS_SUM
  {
    assert y * n <= 3 * n;
  }

  lemma AtInjective(n: nat, x: nat, y: nat, x': nat, y': nat)
    requires x < n && x' < n && At(n, x, y) == At(n, x', y')
    ensures x == x' && y == y'
  {
    assert y < y' ==> (y + 1) * n <= y' * n;
    assert y' < y ==> (y' + 1) * n <= y * n;
  }

  /** weight[x + y * X] or path[x + y * X] */
  function Cell<T>(a: seq<T>, n: nat, x: nat, y: nat): T
    requires |a| == n * STATUS_SUM && x < n && y < STATUS_SUM
  {
    AtRange(n, x, y);
    a[At(n, x, y)]
  }

  /** The weight of reaching state y at x through state z. */
  ghost function Through(m: HmmModel, r: seq<Rune>, w: seq<real>, x: nat, z: nat, y: nat): real
    requires m.Valid() && |w| == |r| * STATUS_SUM && 0 < x < |r| && z < STATUS_SUM && y < STATUS_SUM
  {
    Cell(w, |r|, x - 1, z) + m.transProb[z][y] + m.Emit(y, r[x])
  }

  /** The best way of reaching y at x, as far as the states before k are concerned. */
  ghost predicate BestOf(m: HmmModel, r: seq<Rune>, w: seq<real>, x: nat, y: nat, k: nat, weight: real, path: int)
    requires m.Valid() && |w| == |r| * STATUS_SUM && 0 < x < |r| && y < STATUS_SUM && k <= STATUS_SUM
  {
    && (forall z :: 0 <= z < k ==> Through(m, r, w, x, z, y) <= weight)
    && weight >= MIN_DOUBLE && 0 <= path < STATUS_SUM
    && if weight == MIN_DOUBLE then path == E
       else Through(m, r, w, x, path, y) == weight && forall z :: 0 <= z < path ==> Through(m, r, w, x, z, y) < weight
  }

  ghost predicate CellOk(m: HmmModel, r: seq<Rune>, w: seq<real>, p: seq<int>, x: nat, y: nat)
    requires m.Valid() && |w| == |r| * STATUS_SUM && |p| == |w| && x < |r| && y < STATUS_SUM
  {
    if x == 0 then Cell(w, |r|, x, y) == m.startProb[y] + m.Emit(y, r[0])
    else BestOf(m, r, w, x, y, STATUS_SUM, Cell(w, |r|, x, y), Cell(p, |r|, x, y))
  }

  /** All cells before position x are right. */
  ghost predicate Filled(m: HmmModel, r: seq<Rune>, w: seq<real>, p: seq<int>, x: nat)
    requires m.Valid() && |w| == |r| * STATUS_SUM && |p| == |w| && x <= |r|
  {
    forall i, y :: 0 <= i < x && 0 <= y < STATUS_SUM ==> CellOk(m, r, w, p, i, y)
  }

  // ---- what the table means ---------------------------------------------------------------------

  /** No sequence of states does better than the table says. */
  lemma {:induction false} TableIsUpperBound(m: HmmModel, r: seq<Rune>, w: seq<real>, p: seq<int>, ys: seq<nat>)
    requires m.Valid() && |w| == |r| * STATUS_SUM && |p| == |w| && Filled(m, r, w, p, |r|)
    requires Statuses(ys) && 1 <= |ys| <= |r|
    ensures Score(m, r, ys) <= Cell(w, |r|, |ys| - 1, ys[|ys| - 1])
    decreases |ys|
  {
    hide Cell;
    var k := |ys| - 1;
    assert CellOk(m, r, w, p, k, ys[k]);
    if k > 0 {
      TableIsUpperBound(m, r, w, p, ys[..k]);
      assert ys[..k][k - 1] == ys[k - 1];
      assert Through(m, r, w, k, ys[k - 1], ys[k]) <= Cell(w, |r|, k, ys[k]);
    }
  }

  /** The states that the path leads back through from state y at x. */
  ghost function Back(p: seq<int>, n: nat, x: nat, y: nat): seq<nat>
    requires PathOk(p, n) && x < n && y < STATUS_SUM
    decreases x
  {
    if x == 0 then [y] else Back(p, n, x - 1, Cell(p, n, x, y)) + [y]
  }

  ghost predicate PathOk(p: seq<int>, n: nat) {
    |p| == n * STATUS_SUM && forall i: nat, z: nat :: 0 < i < n && z < STATUS_SUM ==> 0 <= Cell(p, n, i, z) < STATUS_SUM
  }

  lemma {:induction false} BackStatuses(p: seq<int>, n: nat, x: nat, y: nat)
    requires PathOk(p, n) && x < n && y < STATUS_SUM
    ensures var ys := Back(p, n, x, y); |ys| == x + 1 && Statuses(ys) && ys[x] == y
    decreases x
  {
    hide Cell;
    if x > 0 { BackStatuses(p, n, x - 1, Cell(p, n, x, y)); }
  }

  /** Where the weight is above MIN_DOUBLE, the path attains it: adding to weights only
      makes them smaller, so no weight on the way was cut off at MIN_DOUBLE. */
  lemma {:induction false} PathAttains(m: HmmModel, r: seq<Rune>, w: seq<real>, p: seq<int>, x: nat, y: nat)
    requires m.Valid() && m.NonPositive() && |w| == |r| * STATUS_SUM && |p| == |w| && Filled(m, r, w, p, |r|) && PathOk(p, |r|)
    requires x < |r| && y < STATUS_SUM && Cell(w, |r|, x, y) > MIN_DOUBLE
    ensures var ys := Back(p, |r|, x, y);
            |ys| == x + 1 && Statuses(ys) && Score(m, r, ys) == Cell(w, |r|, x, y)
    decreases x
  {
    BackStatuses(p, |r|, x, y);
    assert CellOk(m, r, w, p, x, y);
    hide Cell;
    if x > 0 {
      var z: nat := Cell(p, |r|, x, y);
      OnlyLower(m, z, y, r[x]);
      hide Filled, HmmModel.NonPositive, HmmModel.Emit;
      PathAttains(m, r, w, p, x - 1, z);
      ScoreSnoc(m, r, Back(p, |r|, x - 1, z), y);
    }
  }

  lemma OnlyLower(m: HmmModel, z: nat, y: nat, r: Rune)
    requires m.Valid() && m.NonPositive() && z < STATUS_SUM && y < STATUS_SUM
    ensures m.transProb[z][y] <= 0.0 && m.Emit(y, r) <= 0.0
  {
  }

  lemma ScoreSnoc(m: HmmModel, r: seq<Rune>, ys: seq<nat>, y: nat)
    requires m.Valid() && Statuses(ys) && 1 <= |ys| < |r| && y < STATUS_SUM
    ensures Statuses(ys + [y])
    ensures Score(m, r, ys + [y]) == Score(m, r, ys) + m.transProb[ys[|ys| - 1]][y] + m.Emit(y, r[|ys|])
  {
    assert (ys + [y])[..|ys|] == ys;
  }

  // ---- what the table is, cut off or not -----------------------------------------------------------

  function Larger(a: real, b: real): real { if b > a then b else a }

  /** The weight of state y at x: the best over the states before it, cut off below at MIN_DOUBLE. */
  ghost function Weight(m: HmmModel, r: seq<Rune>, x: nat, y: nat): real
    requires m.Valid() && x < |r| && y < STATUS_SUM
    decreases x, 1
  {
    if x == 0 then m.startProb[y] + m.Emit(y, r[0])
    else Larger(Larger(Larger(Larger(MIN_DOUBLE, Into(m, r, x, B, y)), Into(m, r, x, E, y)), Into(m, r, x, M, y)),
                Into(m, r, x, S, y))
  }

  ghost function Into(m: HmmModel, r: seq<Rune>, x: nat, z: nat, y: nat): real
    requires m.Valid() && 0 < x < |r| && z < STATUS_SUM && y < STATUS_SUM
    decreases x, 0
  {
    Weight(m, r, x - 1, z) + m.transProb[z][y] + m.Emit(y, r[x])
  }

  /** State y at x leads back to z: the first state of best weight, or E where no weight exceeds MIN_DOUBLE. */
  ghost predicate Leads(m: HmmModel, r: seq<Rune>, x: nat, z: int, y: nat)
    requires m.Valid() && 0 < x < |r| && y < STATUS_SUM
  {
    && 0 <= z < STATUS_SUM
    && if Weight(m, r, x, y) == MIN_DOUBLE then z == E
       else Into(m, r, x, z, y) == Weight(m, r, x, y) && forall k :: 0 <= k < z ==> Into(m, r, x, k, y) < Weight(m, r, x, y)
  }

  /** The states that the decoding leads to, for any model and any runes. */
  ghost predicate Traced(m: HmmModel, r: seq<Rune>, status: seq<nat>)
    requires m.Valid()
  {
    && |status| == |r| >= 1 && Statuses(status)
    && status[|r| - 1] == (if Weight(m, r, |r| - 1, E) >= Weight(m, r, |r| - 1, S) then E else S)
    && forall x :: 0 < x < |r| ==> Leads(m, r, x, status[x - 1], status[x])
  }

  lemma {:induction false} TableIsWeight(m: HmmModel, r: seq<Rune>, w: seq<real>, p: seq<int>, x: nat, y: nat)
    requires m.Valid() && |w| == |r| * STATUS_SUM && |p| == |w| && Filled(m, r, w, p, |r|)
    requires x < |r| && y < STATUS_SUM
    ensures Cell(w, |r|, x, y) == Weight(m, r, x, y)
    ensures x > 0 ==> Leads(m, r, x, Cell(p, |r|, x, y), y)
    decreases x
  {
    hide Cell;
    assert CellOk(m, r, w, p, x, y);
    if x > 0 {
      forall z | 0 <= z < STATUS_SUM ensures Through(m, r, w, x, z, y) == Into(m, r, x, z, y) {
        TableIsWeight(m, r, w, p, x - 1, z);
      }
      hide Into, Through, Filled;
      BestIsLargest(m, r, w, x, y, Cell(w, |r|, x, y), Cell(p, |r|, x, y));
    }
  }

  lemma {:induction false} BestIsLargest(m: HmmModel, r: seq<Rune>, w: seq<real>, x: nat, y: nat, weight: real, path: int)
    requires m.Valid() && |w| == |r| * STATUS_SUM && 0 < x < |r| && y < STATUS_SUM
    requires forall z :: 0 <= z < STATUS_SUM ==> Through(m, r, w, x, z, y) == Into(m, r, x, z, y)
    requires BestOf(m, r, w, x, y, STATUS_SUM, weight, path)
    ensures weight == Weight(m, r, x, y) && Leads(m, r, x, path, y)
  {
    hide Into, Through;
    assert Through(m, r, w, x, B, y) <= weight && Through(m, r, w, x, E, y) <= weight;
    assert Through(m, r, w, x, M, y) <= weight && Through(m, r, w, x, S, y) <= weight;
    assert path == B || path == E || path == M || path == S;
  }

  lemma {:induction false} BackIsTraced(m: HmmModel, r: seq<Rune>, w: seq<real>, p: seq<int>, x: nat, y: nat)
    requires m.Valid() && |w| == |r| * STATUS_SUM && |p| == |w| && Filled(m, r, w, p, |r|) && PathOk(p, |r|)
    requires x < |r| && y < STATUS_SUM
    ensures var ys := Back(p, |r|, x, y);
            |ys| == x + 1 && Statuses(ys) && ys[x] == y && forall k :: 0 < k <= x ==> Leads(m, r, k, ys[k - 1], ys[k])
    decreases x
  {
    hide Cell, Leads, Filled;
    BackStatuses(p, |r|, x, y);
    if x > 0 {
      var z: nat := Cell(p, |r|, x, y);
      TableIsWeight(m, r, w, p, x, y);
      BackIsTraced(m, r, w, p, x - 1, z);
    }
  }

  lemma {:induction false} WeightNonPositive(m: HmmModel, r: seq<Rune>, x: nat, y: nat)
    requires m.Valid() && m.NonPositive() && x < |r| && y < STATUS_SUM
    ensures Weight(m, r, x, y) <= 0.0
    decreases x
  {
    if x > 0 {
      forall z | 0 <= z < STATUS_SUM ensures Into(m, r, x, z, y) <= 0.0 {
        WeightNonPositive(m, r, x - 1, z);
        OnlyLower(m, z, y, r[x]);
      }
      hide Into;
    }
  }

  /** A rune that no state emits cuts every weight off, so that a word ends before it. */
  lemma {:induction false} UnknownRune(m: HmmModel, r: seq<Rune>, status: seq<nat>, x: nat)
    requires m.Valid() && m.NonPositive() && Traced(m, r, status) && 0 < x < |r|
    requires forall y :: 0 <= y < STATUS_SUM ==> r[x] !in m.emitProb[y]
    ensures Weight(m, r, x, status[x]) == MIN_DOUBLE && status[x - 1] == E
  {
    var y := status[x];
    assert Leads(m, r, x, status[x - 1], y);
    forall z | 0 <= z < STATUS_SUM ensures Into(m, r, x, z, y) <= MIN_DOUBLE {
      WeightNonPositive(m, r, x - 1, z);
      OnlyLower(m, z, y, r[x]);
    }
    hide Into;
  }

  // ---- Viterbi ----------------------------------------------------------------------------------

  /** The innermost loop: the best way to state y at x. */
  method BestWay(m: HmmModel, r: seq<Rune>, weight: array<real>, x: nat, y: nat) returns (best: real, from: int)
    requires m.Valid() && weight.Length == |r| * STATUS_SUM && 0 < x < |r| && y < STATUS_SUM
    ensures BestOf(m, r, weight[..], x, y, STATUS_SUM, best, from)
  {
    best, from := MIN_DOUBLE, E;
    var emitProb := m.Emit(y, r[x]);
    for preY := 0 to STATUS_SUM
      invariant BestOf(m, r, weight[..], x, y, preY, best, from)
    {
      AtRange(|r|, x - 1, preY);
      var tmp := weight[At(|r|, x - 1, preY)] + m.transProb[preY][y] + emitProb;
      assert tmp == Through(m, r, weight[..], x, preY, y);
      if tmp > best { best, from := tmp, preY; }
    }
  }

  /** Column x from the column before it. */
  method FillColumn(m: HmmModel, r: seq<Rune>, weight: array<real>, path: array<int>, x: nat)
    requires m.Valid() && weight.Length == path.Length == |r| * STATUS_SUM && 0 < x < |r|
    requires Filled(m, r, weight[..], path[..], x)
    modifies weight, path
    ensures Filled(m, r, weight[..], path[..], x + 1)
  {
    hide BestOf, At;
    for y := 0 to STATUS_SUM
      invariant Filled(m, r, weight[..], path[..], x)
      invariant forall z :: 0 <= z < y ==> CellOk(m, r, weight[..], path[..], x, z)
    {
      var best, from := BestWay(m, r, weight, x, y);
      ghost var w, p := weight[..], path[..];
      AtRange(|r|, x, y);
      weight[At(|r|, x, y)] := best;
      path[At(|r|, x, y)] := from;
      OneMoreCell(m, r, w, p, x, y, best, from);
      assert weight[..] == w[At(|r|, x, y) := best] && path[..] == p[At(|r|, x, y) := from];
    }
  }

  /** A new cell leaves the others right and is right itself. */
  lemma OneMoreCell(m: HmmModel, r: seq<Rune>, w: seq<real>, p: seq<int>, x: nat, y: nat, best: real, from: int)
    requires m.Valid() && |w| == |p| == |r| * STATUS_SUM && 0 < x < |r| && y < STATUS_SUM && Filled(m, r, w, p, x)
    requires forall z :: 0 <= z < y ==> CellOk(m, r, w, p, x, z)
    requires BestOf(m, r, w, x, y, STATUS_SUM, best, from)
    ensures At(|r|, x, y) < |w|
    ensures var w', p' := w[At(|r|, x, y) := best], p[At(|r|, x, y) := from];
            Filled(m, r, w', p', x) && forall z :: 0 <= z < y + 1 ==> CellOk(m, r, w', p', x, z)
  {
    AtRange(|r|, x, y);
    var w', p' := w[At(|r|, x, y) := best], p[At(|r|, x, y) := from];
    forall i: nat, z: nat | i < |r| && z < STATUS_SUM
      ensures Cell(w', |r|, i, z) == (if i == x && z == y then best else Cell(w, |r|, i, z))
      ensures Cell(p', |r|, i, z) == (if i == x && z == y then from else Cell(p, |r|, i, z))
    {
      AtRange(|r|, i, z);
      if At(|r|, i, z) == At(|r|, x, y) { AtInjective(|r|, i, z, x, y); }
    }
    hide Cell;
    forall i, z | 0 <= i < x && 0 <= z < STATUS_SUM ensures CellOk(m, r, w', p', i, z) {
      assert CellOk(m, r, w, p, i, z);
      if i > 0 { SameWay(m, r, w, w', i, z, Cell(w, |r|, i, z), Cell(p, |r|, i, z)); }
    }
    forall z | 0 <= z < y + 1 ensures CellOk(m, r, w', p', x, z) {
      if z < y {
        assert CellOk(m, r, w, p, x, z);
        SameWay(m, r, w, w', x, z, Cell(w, |r|, x, z), Cell(p, |r|, x, z));
      } else {
        SameWay(m, r, w, w', x, z, best, from);
      }
    }
  }

  ghost predicate SameColumn(w: seq<real>, w': seq<real>, n: nat, x: nat)
    requires |w| == |w'| == n * STATUS_SUM && x < n
  {
    forall z: nat :: z < STATUS_SUM ==> Cell(w', n, x, z) == Cell(w, n, x, z)
  }

  /** The best way depends on the column before only. */
  lemma SameWay(m: HmmModel, r: seq<Rune>, w: seq<real>, w': seq<real>, x: nat, y: nat, weight: real, path: int)
    requires m.Valid() && |w| == |w'| == |r| * STATUS_SUM && 0 < x < |r| && y < STATUS_SUM
    requires SameColumn(w, w', |r|, x - 1)
    requires BestOf(m, r, w, x, y, STATUS_SUM, weight, path)
    ensures BestOf(m, r, w', x, y, STATUS_SUM, weight, path)
  {
    hide Cell;
    forall z: nat | z < STATUS_SUM ensures Through(m, r, w', x, z, y) == Through(m, r, w, x, z, y) {
    }
  }

  /** The first column. */
  method FillStart(m: HmmModel, r: seq<Rune>, weight: array<real>, path: array<int>)
    requires m.Valid() && weight.Length == path.Length == |r| * STATUS_SUM && 1 <= |r|
    modifies weight, path
    ensures Filled(m, r, weight[..], path[..], 1)
  {
    for y := 0 to STATUS_SUM
      invariant forall z :: 0 <= z < y ==> CellOk(m, r, weight[..], path[..], 0, z)
    {
      ghost var w, p := weight[..], path[..];
      AtRange(|r|, 0, y);
      weight[At(|r|, 0, y)] := m.startProb[y] + m.Emit(y, r[0]);
      path[At(|r|, 0, y)] := -1;
      forall z | 0 <= z < y + 1 ensures CellOk(m, r, weight[..], path[..], 0, z) {
        AtRange(|r|, 0, z);
        if z < y {
          AtDiffers(|r|, 0, z, y);
          assert CellOk(m, r, w, p, 0, z);
          assert Cell(weight[..], |r|, 0, z) == Cell(w, |r|, 0, z);
        } else {
          assert weight[..][At(|r|, 0, y)] == weight[At(|r|, 0, y)];
        }
      }
    }
  }

  lemma AtDiffers(n: nat, x: nat, y: nat, z: nat)
    requires x < n && y != z
    ensures At(n, x, y) != At(n, x, z)
  {
    if At(n, x, y) == At(n, x, z) { AtInjective(n, x, y, x, z); }
  }

  /** What the states after backtracking are: a path of best weight among all sequences
      that end a word, when that weight is above MIN_DOUBLE. */
  ghost predicate Decoded(m: HmmModel, r: seq<Rune>, status: seq<nat>)
    requires m.Valid()
  {
    && |status| == |r| >= 1 && Statuses(status)
    && (status[|r| - 1] == E || status[|r| - 1] == S)
    && (m.NonPositive() && SomeAbove(m, r) ==>
          forall ys :: Ending(ys, |r|) ==> Score(m, r, ys) <= Score(m, r, status))
  }

  /** A sequence of states that ends a word. */
  ghost predicate Ending(ys: seq<nat>, n: nat) {
    |ys| == n >= 1 && Statuses(ys) && (ys[n - 1] == E || ys[n - 1] == S)
  }

  ghost predicate SomeAbove(m: HmmModel, r: seq<Rune>)
    requires m.Valid()
  {
    exists ys :: Ending(ys, |r|) && Score(m, r, ys) > MIN_DOUBLE
  }

  /** Viterbi */
  method Viterbi(m: HmmModel, r: seq<Rune>) returns (status: seq<nat>)
    requires m.Valid() && |r| >= 1
    ensures Decoded(m, r, status) && Traced(m, r, status)
  {
    hide Leads, Weight;
    var n := |r|;
    var path, weight := new int[n * STATUS_SUM], new real[n * STATUS_SUM];
    FillStart(m, r, weight, path);
    for x := 1 to n
      invariant Filled(m, r, weight[..], path[..], x)
    {
      FillColumn(m, r, weight, path, x);
    }
    AtRange(n, n - 1, E);
    AtRange(n, n - 1, S);
    var endE, endS := weight[At(n, n - 1, E)], weight[At(n, n - 1, S)];
    var stat := if endE >= endS then E else S;
    PathsAreOk(m, r, weight[..], path[..]);
    status := BackTrack(path, n, stat);
    EndIsBest(m, r, weight[..], path[..], stat);
    TableIsWeight(m, r, weight[..], path[..], n - 1, E);
    TableIsWeight(m, r, weight[..], path[..], n - 1, S);
    BackIsTraced(m, r, weight[..], path[..], n - 1, stat);
    assert Traced(m, r, status);
  }

  lemma PathsAreOk(m: HmmModel, r: seq<Rune>, w: seq<real>, p: seq<int>)
    requires m.Valid() && |w| == |p| == |r| * STATUS_SUM && Filled(m, r, w, p, |r|)
    ensures PathOk(p, |r|)
  {
    hide Cell;
    forall i: nat, z: nat | 0 < i < |r| && z < STATUS_SUM ensures 0 <= Cell(p, |r|, i, z) < STATUS_SUM {
      assert CellOk(m, r, w, p, i, z);
    }
  }

  /** The loop over path from the end to the start. */
  method BackTrack(path: array<int>, n: nat, last: nat) returns (status: seq<nat>)
    requires PathOk(path[..], n) && n >= 1 && last < STATUS_SUM
    ensures status == Back(path[..], n, n - 1, last)
  {
    status := [];
    var stat: int := last;
    var x := n - 1;
    while x >= 0
      invariant -1 <= x < n
      invariant x >= 0 ==> 0 <= stat < STATUS_SUM && Back(path[..], n, n - 1, last) == Back(path[..], n, x, stat) + status
      invariant x == -1 ==> Back(path[..], n, n - 1, last) == status
    {
      AtRange(n, x, stat);
      BackStep(path[..], n, x, stat, status);
      assert path[..][At(n, x, stat)] == path[At(n, x, stat)];
      status := [stat] + status;
      stat := path[At(n, x, stat)];
      x := x - 1;
    }
  }

  lemma BackStep(p: seq<int>, n: nat, x: nat, y: nat, rest: seq<nat>)
    requires PathOk(p, n) && x < n && y < STATUS_SUM
    ensures Back(p, n, x, y) + rest == if x == 0 then [y] + rest else Back(p, n, x - 1, Cell(p, n, x, y)) + ([y] + rest)
  {
  }

  /** The better of the two end states leads back to the best sequence. */
  lemma EndIsBest(m: HmmModel, r: seq<Rune>, w: seq<real>, p: seq<int>, stat: nat)
    requires m.Valid() && |w| == |p| == |r| * STATUS_SUM && 1 <= |r| && Filled(m, r, w, p, |r|) && PathOk(p, |r|)
    requires stat == if Cell(w, |r|, |r| - 1, E) >= Cell(w, |r|, |r| - 1, S) then E else S
    ensures Decoded(m, r, Back(p, |r|, |r| - 1, stat))
  {
    var n := |r|;
    var ys := Back(p, n, n - 1, stat);
    BackStatuses(p, n, n - 1, stat);
    hide Cell, Score, Back, Filled, HmmModel.NonPositive;
    forall zs | Ending(zs, n) ensures Score(m, r, zs) <= Cell(w, n, n - 1, stat) {
      TableIsUpperBound(m, r, w, p, zs);
    }
    if m.NonPositive() && SomeAbove(m, r) {
      PathAttains(m, r, w, p, n - 1, stat);
    }
  }

  // ---- words --------------------------------------------------------------------------------------

  /** The words end exactly at the states E and S. */
  ghost predicate EndsAt(ws: seq<WordRange>, status: seq<nat>, begin: nat, to: nat)
    requires to <= |status|
  {
    forall k :: 0 <= k < to ==> (status[k] % 2 == 1 <==> exists j :: 0 <= j < |ws| && ws[j].right == begin + k)
  }

  /** InternalCut */
  method InternalCut(m: HmmModel, s: seq<RuneStr>, begin: nat, end: nat) returns (ws: seq<WordRange>, ghost status: seq<nat>)
    requires m.Valid() && begin < end <= |s|
    ensures Tiled(ws, begin, end)
    ensures Decoded(m, Runes(s[begin..end]), status) && Traced(m, Runes(s[begin..end]), status)
    ensures EndsAt(ws, status, begin, end - begin)
  {
    hide Decoded, Traced;
    var states := Viterbi(m, Runes(s[begin..end]));
    status := states;
    LastEnds(m, Runes(s[begin..end]), states);
    ws := [];
    var left := begin;
    for i := 0 to |states|
      invariant begin <= left <= begin + i && Tiled(ws, begin, left)
      invariant i > 0 && states[i - 1] % 2 == 1 ==> left == begin + i
      invariant EndsAt(ws, states, begin, i)
    {
      TiledBounds(ws, begin, left);
      if states[i] % 2 == 1 {
        var right := begin + i + 1;
        TiledSnoc(ws, begin, left, right);
        ghost var before := ws;
        ws := ws + [WordRange(left, right - 1)];
        assert ws[|before|].right == begin + i;
        assert forall j :: 0 <= j < |before| ==> ws[j] == before[j];
        left := right;
      }
    }
  }

  lemma LastEnds(m: HmmModel, r: seq<Rune>, status: seq<nat>)
    requires m.Valid() && Decoded(m, r, status)
    ensures |status| == |r| >= 1 && status[|r| - 1] % 2 == 1
  {
  }

  predicate IsLetter(x: Rune) { 'a' as nat <= x <= 'z' as nat || 'A' as nat <= x <= 'Z' as nat }
  predicate IsDigit(x: Rune) { '0' as nat <= x <= '9' as nat }

  predicate IsLetterOrDigit(x: Rune) { IsLetter(x) || IsDigit(x) }
  predicate IsDigitOrDot(x: Rune) { IsDigit(x) || x == '.' as nat }

  /** The longest run of runes from `from` on that pass the test. */
  ghost predicate Longest(s: seq<RuneStr>, from: nat, to: nat, end: nat, test: Rune -> bool) {
    from <= to <= end <= |s| && (forall k :: from <= k < to ==> test(s[k].rune)) && (to < end ==> !test(s[to].rune))
  }

  /** A letter and all letters and digits after it, or nothing. */
  method SequentialLetterRule(s: seq<RuneStr>, begin: nat, end: nat) returns (right: nat)
    requires begin < end <= |s|
    ensures if IsLetter(s[begin].rune) then begin < right && Longest(s, begin, right, end, IsLetterOrDigit)
            else right == begin
  {
    right := begin;
    if !IsLetter(s[begin].rune) { return; }
    right := begin + 1;
    while right != end
      invariant begin < right <= end && forall k :: begin <= k < right ==> IsLetterOrDigit(s[k].rune)
      decreases end - right
    {
      if !(IsLetter(s[right].rune) || IsDigit(s[right].rune)) { return; }
      right := right + 1;
    }
  }

  /** A digit and all digits and dots after it, or nothing. */
  method NumbersRule(s: seq<RuneStr>, begin: nat, end: nat) returns (right: nat)
    requires begin < end <= |s|
    ensures if IsDigit(s[begin].rune) then begin < right && Longest(s, begin, right, end, IsDigitOrDot)
            else right == begin
  {
    right := begin;
    if !IsDigit(s[begin].rune) { return; }
    right := begin + 1;
    while right != end
      invariant begin < right <= end && forall k :: begin <= k < right ==> IsDigitOrDot(s[k].rune)
      decreases end - right
    {
      if !(IsDigit(s[right].rune) || s[right].rune == '.' as nat) { return; }
      right := right + 1;
    }
  }

  /** Where the ASCII word that begins at `left` ends. */
  method AsciiWord(s: seq<RuneStr>, left: nat, end: nat) returns (right: nat)
    requires left < end <= |s|
    ensures left < right <= end && AsciiWordAt(s, left, right, end)
  {
    right := SequentialLetterRule(s, left, end);
    if right != left { return; }
    right := NumbersRule(s, left, end);
    if right != left { return; }
    right := right + 1;
  }

  predicate IsAscii(x: Rune) { x < 0x80 }

  /** The ASCII word that begins at `left` ends before `right`. */
  ghost predicate AsciiWordAt(s: seq<RuneStr>, left: nat, right: nat, end: nat)
    requires left < right <= end <= |s|
  {
    if IsLetter(s[left].rune) then Longest(s, left, right, end, IsLetterOrDigit)
    else if IsDigit(s[left].rune) then Longest(s, left, right, end, IsDigitOrDot)
    else right == left + 1
  }

  /** All runes of a range that are not ASCII, between ASCII runes or the ends. */
  ghost predicate WholeRun(s: seq<RuneStr>, begin: nat, left: nat, right: nat, end: nat) {
    && begin <= left < right <= end <= |s|
    && (forall k :: left <= k < right ==> !IsAscii(s[k].rune))
    && (left == begin || IsAscii(s[left - 1].rune)) && (right == end || IsAscii(s[right].rune))
  }

  /** The words end where a best sequence of states for the range says. */
  ghost predicate ByStates(m: HmmModel, s: seq<RuneStr>, left: nat, right: nat, ws: seq<WordRange>)
    requires m.Valid() && left < right <= |s|
  {
    Tiled(ws, left, right) &&
    exists status :: Decoded(m, Runes(s[left..right]), status) && Traced(m, Runes(s[left..right]), status) &&
                     EndsAt(ws, status, left, right - left)
  }

  /** What one step of Cut makes of the runes from left to right. */
  ghost predicate Piece(m: HmmModel, s: seq<RuneStr>, begin: nat, end: nat, left: nat, right: nat, ws: seq<WordRange>)
    requires m.Valid()
  {
    && begin <= left < right <= end <= |s|
    && if IsAscii(s[left].rune) then ws == [WordRange(left, right - 1)] && AsciiWordAt(s, left, right, end)
       else WholeRun(s, begin, left, right, end) && ByStates(m, s, left, right, ws)
  }

  /** The words up to `at`, piece by piece. */
  ghost predicate CutInto(m: HmmModel, s: seq<RuneStr>, begin: nat, end: nat, at: nat, res: seq<WordRange>,
                          pieces: seq<seq<WordRange>>, cuts: seq<nat>)
    requires m.Valid()
  {
    && |cuts| == |pieces| + 1 && cuts[0] == begin && cuts[|pieces|] == at && res == Flatten(pieces)
    && forall k :: 0 <= k < |pieces| ==> Piece(m, s, begin, end, cuts[k], cuts[k + 1], pieces[k])
  }

  /** ASCII words by rule, and each run of other runes as the model says. */
  ghost predicate IsCut(m: HmmModel, s: seq<RuneStr>, begin: nat, end: nat, res: seq<WordRange>)
    requires m.Valid()
  {
    exists pieces, cuts :: CutInto(m, s, begin, end, end, res, pieces, cuts)
  }

  lemma {:induction false} OnePieceMore(m: HmmModel, s: seq<RuneStr>, begin: nat, end: nat, at: nat, res: seq<WordRange>,
                     pieces: seq<seq<WordRange>>, cuts: seq<nat>, at': nat, ws: seq<WordRange>)
    requires m.Valid() && CutInto(m, s, begin, end, at, res, pieces, cuts) && Piece(m, s, begin, end, at, at', ws)
    ensures CutInto(m, s, begin, end, at', res + ws, pieces + [ws], cuts + [at'])
  {
    hide Piece;
    var pieces', cuts' := pieces + [ws], cuts + [at'];
    assert pieces'[..|pieces|] == pieces;
    forall k | 0 <= k < |pieces'| ensures Piece(m, s, begin, end, cuts'[k], cuts'[k + 1], pieces'[k]) {
      if k < |pieces| { assert Piece(m, s, begin, end, cuts[k], cuts[k + 1], pieces[k]); }
    }
  }

  lemma {:induction false} AsciiEnds(s: seq<RuneStr>, left: nat, right: nat, end: nat)
    requires left < right <= end <= |s| && IsAscii(s[left].rune) && AsciiWordAt(s, left, right, end)
    ensures IsAscii(s[right - 1].rune)
  {
    var x := s[right - 1].rune;
    if IsLetter(s[left].rune) {
      assert IsLetterOrDigit(x);
    } else if IsDigit(s[left].rune) {
      assert IsDigitOrDot(x);
    }
  }

  /** Cut: ASCII words by rule, and the runs of other runes by InternalCut. */
  method Cut(m: HmmModel, s: seq<RuneStr>, begin: nat, end: nat) returns (res: seq<WordRange>)
    requires m.Valid() && begin <= end <= |s|
    ensures Tiled(res, begin, end)
    ensures IsCut(m, s, begin, end, res)
  {
    hide HmmModel.Valid, Piece, CutInto, AsciiWordAt;
    res := [];
    var left, right := begin, begin;
    ghost var pieces: seq<seq<WordRange>>, cuts: seq<nat> := [], [begin];
    NoPieces(m, s, begin, end);
    while right != end
      invariant begin <= left <= right <= end && Tiled(res, begin, left)
      invariant CutInto(m, s, begin, end, left, res, pieces, cuts)
      invariant left == begin || IsAscii(s[left - 1].rune)
      invariant forall k :: left <= k < right ==> !IsAscii(s[k].rune)
      decreases end - right
    {
      if s[right].rune < 0x80 {
        if left != right {
          res, pieces, cuts := AppendCut(m, s, begin, left, right, end, res, pieces, cuts);
        }
        left := right;
        right := AsciiWord(s, left, end);
        AsciiPiece(m, s, begin, left, right, end);
        OnePieceMore(m, s, begin, end, left, res, pieces, cuts, right, [WordRange(left, right - 1)]);
        TiledSnoc(res, begin, left, right);
        res, pieces, cuts := res + [WordRange(left, right - 1)], pieces + [[WordRange(left, right - 1)]], cuts + [right];
        left := right;
      } else {
        right := right + 1;
      }
    }
    if left != right {
      res, pieces, cuts := AppendCut(m, s, begin, left, right, end, res, pieces, cuts);
    }
  }

  lemma {:induction false} NoPieces(m: HmmModel, s: seq<RuneStr>, begin: nat, end: nat)
    requires m.Valid()
    ensures CutInto(m, s, begin, end, begin, [], [], [begin])
  {
  }

  lemma {:induction false} AsciiPiece(m: HmmModel, s: seq<RuneStr>, begin: nat, left: nat, right: nat, end: nat)
    requires m.Valid() && begin <= left < right <= end <= |s| && IsAscii(s[left].rune) && AsciiWordAt(s, left, right, end)
    ensures Piece(m, s, begin, end, left, right, [WordRange(left, right - 1)]) && IsAscii(s[right - 1].rune)
  {
    AsciiEnds(s, left, right, end);
  }

  /** InternalCut, appending to res. */
  method AppendCut(m: HmmModel, s: seq<RuneStr>, begin: nat, left: nat, right: nat, end: nat, res: seq<WordRange>,
                   ghost pieces: seq<seq<WordRange>>, ghost cuts: seq<nat>)
    returns (res': seq<WordRange>, ghost pieces': seq<seq<WordRange>>, ghost cuts': seq<nat>)
    requires m.Valid() && WholeRun(s, begin, left, right, end) && Tiled(res, begin, left)
    requires CutInto(m, s, begin, end, left, res, pieces, cuts)
    ensures Tiled(res', begin, right)
    ensures CutInto(m, s, begin, end, right, res', pieces', cuts')
  {
    hide HmmModel.Valid, CutInto, Decoded, EndsAt, Tiled;
    ghost var status;
    var ws;
    ws, status := InternalCut(m, s, left, right);
    TiledConcat(res, ws, begin, left, right);
    OnePieceMore(m, s, begin, end, left, res, pieces, cuts, right, ws);
    res', pieces', cuts' := res + ws, pieces + [ws], cuts + [right];
  }
}
