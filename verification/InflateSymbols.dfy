/** The tables of inflate_table and the events of the decoders together: what the bits of a block mean in
    terms of the code lengths, section 3.2.5 of RFC 1951. */
module InflateSymbols {
  import opened Arith
  import opened BitReverse
  import opened Canonical
  import opened InflateTable
  import opened HuffmanLookup
  import opened InflateSpec

  /** The extra bits of a length symbol: none up to 264, then one more for every four symbols. */
  function LengthExtra(sym: nat): nat {
    if sym < 265 || sym >= 285 then 0 else (sym - 261) / 4
  }

  function LengthBase(sym: nat): nat
    requires 257 <= sym <= 285
  {
    if sym == 285 then 258
    else if sym < 265 then sym - 254
    else 3 + (4 + (sym - 257) % 4) * Pow2(LengthExtra(sym))
  }

  /** The extra bits of a distance symbol: none up to 3, then one more for every two symbols. */
  function DistanceExtra(d: nat): nat {
    if d < 4 then 0 else (d - 2) / 2
  }

  function DistanceBase(d: nat): nat {
    if d < 4 then d + 1 else 1 + (2 + d % 2) * Pow2(DistanceExtra(d))
  }

  /** The bits x, when they begin with the code of sym and, after its extra bits, with that of d. */
  function SymbolEvent(lens: seq<nat>, dlens: seq<nat>, sym: nat, d: nat, x: nat): (Event, nat)
    requires sym < |lens| && d < |dlens|
  {
    var b := lens[sym];
    if sym < 256 then (Byte(sym), b)
    else if sym == 256 then (EndOfBlock, b)
    else if sym > 285 then (BadCode, b)
    else
      var b1 := b + LengthExtra(sym);
      var c := dlens[d];
      if d > 29 then (BadDistance, b1 + c)
      else
        (Copy(LengthBase(sym) + Low(Shr(x, b), LengthExtra(sym)),
              DistanceBase(d) + Low(Shr(Shr(x, b1), c), DistanceExtra(d))),
         b1 + c + DistanceExtra(d))
  }

  /** A block whose tables decode the code lengths lens and dlens. */
  ghost predicate Built(s: Block, lens: seq<nat>, dlens: seq<nat>) {
    && s.Ok() && Symbols(lens, LENS) && Symbols(dlens, DISTS)
    && TableOk(s.lencode, s.lenbits, LENS, lens) && TableOk(s.distcode, s.distbits, DISTS, dlens)
  }

  /** The table of length codes in the source follows the rule. */
  lemma LengthTable(sym: nat)
    requires 257 <= sym <= 285
    ensures LExt(sym - 257) == 16 + LengthExtra(sym) && LBase(sym - 257) == LengthBase(sym) && LengthExtra(sym) <= 5
  {
    Powers();
    hide Pow2;
    if sym < 265 {
      assert sym == 257 || sym == 258 || sym == 259 || sym == 260 || sym == 261 || sym == 262 || sym == 263 || sym == 264;
    } else if sym < 275 {
      assert sym == 265 || sym == 266 || sym == 267 || sym == 268 || sym == 269 ||
             sym == 270 || sym == 271 || sym == 272 || sym == 273 || sym == 274;
    } else {
      assert sym == 275 || sym == 276 || sym == 277 || sym == 278 || sym == 279 ||
             sym == 280 || sym == 281 || sym == 282 || sym == 283 || sym == 284 || sym == 285;
    }
  }

  /** And so does the table of distance codes. */
  lemma DistanceTable(d: nat)
    requires d <= 29
    ensures DExt(d) == 16 + DistanceExtra(d) && DBase(d) == DistanceBase(d) && DistanceExtra(d) <= 13
  {
    if d < 10 {
      NearDistances(d);
    } else if d < 20 {
      MiddleDistances(d);
    } else {
      FarDistances(d);
    }
    hide DBase, DExt, Pow2;
  }

  lemma NearDistances(d: nat)
    requires d < 10
    ensures DExt(d) == 16 + DistanceExtra(d) && DBase(d) == DistanceBase(d)
  {
    Powers();
    hide Pow2;
    assert d == 0 || d == 1 || d == 2 || d == 3 || d == 4 || d == 5 || d == 6 || d == 7 || d == 8 || d == 9;
  }

  lemma MiddleDistances(d: nat)
    requires 10 <= d < 20
    ensures DExt(d) == 16 + DistanceExtra(d) && DBase(d) == DistanceBase(d)
  {
    Powers();
    hide Pow2;
    assert d == 10 || d == 11 || d == 12 || d == 13 || d == 14 || d == 15 || d == 16 || d == 17 || d == 18 || d == 19;
  }

  lemma FarDistances(d: nat)
    requires 20 <= d < 30
    ensures DExt(d) == 16 + DistanceExtra(d) && DBase(d) == DistanceBase(d)
  {
    Powers();
    hide Pow2;
    assert d == 20 || d == 21 || d == 22 || d == 23 || d == 24 || d == 25 || d == 26 || d == 27 || d == 28 || d == 29;
  }

  /** The symbols without a meaning. */
  lemma Unused()
    ensures LExt(29) == 77 && LExt(30) == 202 && DExt(30) == DExt(31) == 64
  {
  }

  lemma DistanceOfSymbol(s: Block, dlens: seq<nat>, d: nat, y: nat, len: nat)
    requires s.Ok() && Symbols(dlens, DISTS) && TableOk(s.distcode, s.distbits, DISTS, dlens) && Begins(dlens, d, y)
    ensures DistanceAt(s, y, len) ==
      if d > 29 then (BadDistance, dlens[d])
      else (Copy(len, DistanceBase(d) + Low(Shr(y, dlens[d]), DistanceExtra(d))), dlens[d] + DistanceExtra(d))
  {
    hide Look, Low, Shr, TableOk, LookOk, PrefixOk, DBase, DExt, DistanceBase, DistanceExtra, CodeOf, Rev, Pow2;
    LookDecodes(s.distcode, s.distbits, DISTS, dlens, d, y);
    Unused();
    if d <= 29 { DistanceTable(d); }
  }

  /** Codes determine the event, whatever else the tables hold. */
  lemma EventOfCodes(s: Block, lens: seq<nat>, dlens: seq<nat>, x: nat, sym: nat, d: nat)
    requires Built(s, lens, dlens) && Begins(lens, sym, x) && d < |dlens|
    requires 257 <= sym <= 285 ==> Begins(dlens, d, Shr(x, lens[sym] + LengthExtra(sym)))
    ensures EventAt(s, x) == SymbolEvent(lens, dlens, sym, d, x)
  {
    hide Look, Low, Shr, TableOk, LookOk, PrefixOk, LBase, LExt, LengthBase, LengthExtra, DistanceAt, CodeOf, Rev, Pow2;
    LookDecodes(s.lencode, s.lenbits, LENS, lens, sym, x);
    Unused();
    if 257 <= sym <= 285 {
      LengthTable(sym);
      var b := lens[sym];
      DistanceOfSymbol(s, dlens, d, Shr(x, b + LengthExtra(sym)), LengthBase(sym) + Low(Shr(x, b), LengthExtra(sym)));
    }
    assert EventAt(s, x) == SymbolEvent(lens, dlens, sym, d, x);
  }

  /** With two complete codes any bits are one event, that of the only symbols whose codes begin them. */
  lemma EventOfSymbols(s: Block, lens: seq<nat>, dlens: seq<nat>, x: nat)
    requires Built(s, lens, dlens) && Complete(lens) && Complete(dlens)
    ensures exists sym: nat, d: nat :: Begins(lens, sym, x) && Begins(dlens, d, Shr(x, lens[sym] + LengthExtra(sym))) &&
                             EventAt(s, x) == SymbolEvent(lens, dlens, sym, d, x)
    ensures forall sym: nat, sym': nat :: Begins(lens, sym, x) && Begins(lens, sym', x) ==> sym == sym'
    ensures forall d: nat, d': nat, y: nat :: Begins(dlens, d, y) && Begins(dlens, d', y) ==> d == d'
  {
    hide Begins, Complete, Built, SymbolEvent, EventAt, LengthExtra, Shr;
    assert LensOk(lens) && LensOk(dlens) && Symbols(dlens, DISTS) by { LensAreOk(s, lens, dlens); }
    CompleteDecodes(lens, x);
    var sym: nat :| Begins(lens, sym, x);
    assert sym < |lens| by { BeginsIn(lens, sym, x); }
    var y := Shr(x, lens[sym] + LengthExtra(sym));
    CompleteDecodes(dlens, y);
    var d: nat :| Begins(dlens, d, y);
    BeginsIn(dlens, d, y);
    EventOfCodes(s, lens, dlens, x, sym, d);
    forall d: nat, d': nat, y: nat | Begins(dlens, d, y) && Begins(dlens, d', y) ensures d == d' {
      PrefixFree(dlens, d, d', y);
    }
  }

  lemma BeginsIn(lens: seq<nat>, sym: nat, x: nat)
    requires Begins(lens, sym, x)
    ensures sym < |lens|
  {
  }

  lemma LensAreOk(s: Block, lens: seq<nat>, dlens: seq<nat>)
    requires Built(s, lens, dlens)
    ensures LensOk(lens) && LensOk(dlens) && Symbols(dlens, DISTS)
  {
  }
}
