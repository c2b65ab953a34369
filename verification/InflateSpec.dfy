/** Decoding one block of compressed data, section 3.2.3 of RFC 1951: what the input
    says next, and what the bytes produced so far become. */
module InflateSpec {
  import opened Arith
  import opened BitReverse
  import opened BitInput
  import opened Lz77
  import opened InflateTable
  import opened HuffmanLookup

  /** One block: the two tables with their root sizes, the whole input, and how far back
      a distance may reach. */
  datatype Block = Block(
    lencode: seq<Code>, lenbits: nat, distcode: seq<Code>, distbits: nat, data: seq<octet>, limit: nat)
  {
    ghost predicate Ok() {
      Good(lencode, lenbits, LENS) && Good(distcode, distbits, DISTS)
    }
  }

  datatype Event =
    | Byte(c: octet)
    | Copy(len: nat, dist: nat)
    | EndOfBlock
    | BadCode
    | BadDistance

  predicate IsBase(e: Code) { 16 <= e.op < 32 }

  /** The value of a length or distance code: its base and extra bits. */
  function Base(e: Code, x: nat): nat
    requires IsBase(e)
  {
    e.val + Low(x, e.op - 16)
  }

  /** The distance that follows a length. */
  function DistanceAt(s: Block, x: nat, len: nat): (Event, nat)
    requires s.Ok()
  {
    var (f, c) := Look(s.distcode, s.distbits, x);
    if IsBase(f) then (Copy(len, Base(f, Shr(x, c))), c + (f.op - 16)) else (BadDistance, c)
  }

  /** What the bits x begin with, and how many bits that takes. */
  function EventAt(s: Block, x: nat): (Event, nat)
    requires s.Ok()
  {
    var (e, b) := Look(s.lencode, s.lenbits, x);
    if e.op == 0 && e.val < 256 then (Byte(e.val), b)
    else if IsBase(e) then
      var b1 := b + (e.op - 16);
      var (v, c) := DistanceAt(s, Shr(x, b1), Base(e, Shr(x, b)));
      (v, b1 + c)
    else (if e.op == 96 then EndOfBlock else BadCode, b)
  }

  /** A match has a length of 3 to 258 and a distance of 1 to 32768, and takes at most 48 bits. */
  lemma EventRanges(s: Block, x: nat)
    requires s.Ok()
    ensures var (v, b) := EventAt(s, x);
            1 <= b <= 48 && (v.Copy? ==> 3 <= v.len <= 258 && 1 <= v.dist <= 32768)
  {
    LenRange(s, x);
    var (e, b) := Look(s.lencode, s.lenbits, x);
    if IsBase(e) { DistRange(s, Shr(x, b + (e.op - 16))); }
    hide Look, EntryOk, Good;
  }

  lemma LenRange(s: Block, x: nat)
    requires s.Ok()
    ensures var (e, b) := Look(s.lencode, s.lenbits, x);
            && 1 <= b <= 15
            && (e.op == 0 ==> e.val < 256)
            && (IsBase(e) ==> e.op <= 21 && 3 <= Base(e, Shr(x, b)) <= 258)
            && (e.op == 0 || IsBase(e) || e.op == 64 || e.op == 77 || e.op == 96 || e.op == 202)
  {
    hide Look, Low, Shr, Pow2;
    assert LookOk(s.lencode, s.lenbits, LENS, x);
  }

  lemma DistRange(s: Block, x: nat)
    requires s.Ok()
    ensures var (f, c) := Look(s.distcode, s.distbits, x);
            && 1 <= c <= 15
            && (IsBase(f) ==> f.op <= 29 && 1 <= Base(f, Shr(x, c)) <= 32768)
            && (IsBase(f) || f.op == 64)
  {
    hide Look, Low, Shr, Pow2;
    assert LookOk(s.distcode, s.distbits, DISTS, x);
  }

  /** What an event makes of the bytes produced so far, when it produces any. */
  function Effect(s: Block, v: Event, hist: seq<octet>): Option<seq<octet>> {
    match v
    case Byte(c) => Some(hist + [c])
    case Copy(len, dist) =>
      if 1 <= dist <= |hist| && dist <= s.limit then Some(CopyBack(hist, dist, len)) else None
    case _ => None
  }

  /** One more event that produces bytes. */
  function Step(s: Block, p: nat, hist: seq<octet>): Option<(nat, seq<octet>)>
    requires s.Ok()
  {
    var (v, b) := EventAt(s, Rest(s.data, p));
    match Effect(s, v, hist)
    case None => None
    case Some(h) => Some((p + b, h))
  }

  /** n events from bit p of the input on, with hist produced before. */
  function Run(s: Block, p: nat, hist: seq<octet>, n: nat): Option<(nat, seq<octet>)>
    requires s.Ok()
  {
    if n == 0 then Some((p, hist))
    else
      match Run(s, p, hist, n - 1)
      case None => None
      case Some((q, h)) => Step(s, q, h)
  }

  /** Runs compose. */
  lemma {:induction false} RunAdd(s: Block, p: nat, hist: seq<octet>, m: nat, n: nat)
    requires s.Ok() && Run(s, p, hist, m).Some?
    ensures var (q, h) := Run(s, p, hist, m).value; Run(s, p, hist, m + n) == Run(s, q, h, n)
    decreases n
  {
    hide Step;
    var r := Run(s, p, hist, m).value;
    assert r == (r.0, r.1);
    if n > 0 { RunAdd(s, p, hist, m, n - 1); }
  }

  /** A run reaches the point where it can go no further in one way only. */
  lemma RunsEndOnce(s: Block, p: nat, hist: seq<octet>, m: nat, n: nat)
    requires s.Ok() && Run(s, p, hist, m).Some? && Run(s, p, hist, n).Some?
    requires Step(s, Run(s, p, hist, m).value.0, Run(s, p, hist, m).value.1).None?
    requires Step(s, Run(s, p, hist, n).value.0, Run(s, p, hist, n).value.1).None?
    ensures m == n
  {
    hide Step;
    if m < n {
      RunGoesOn(s, p, hist, m, n);
    } else if n < m {
      RunGoesOn(s, p, hist, n, m);
    }
  }

  lemma {:induction false} RunGoesOn(s: Block, p: nat, hist: seq<octet>, m: nat, n: nat)
    requires s.Ok() && m < n && Run(s, p, hist, n).Some?
    ensures Run(s, p, hist, m).Some?
    ensures Step(s, Run(s, p, hist, m).value.0, Run(s, p, hist, m).value.1).Some?
    decreases n
  {
    hide Step;
    if m + 1 < n { RunGoesOn(s, p, hist, m, n - 1); }
  }

  /** No run from here on meets a distance that reaches too far back. */
  ghost predicate DistancesValid(s: Block, p: nat, hist: seq<octet>)
    requires s.Ok()
  {
    forall n: nat :: Run(s, p, hist, n).Some? ==> NearEnough(s, Run(s, p, hist, n).value)
  }

  ghost predicate NearEnough(s: Block, at: (nat, seq<octet>))
    requires s.Ok()
  {
    var v := EventAt(s, Rest(s.data, at.0)).0;
    v.Copy? ==> v.dist <= |at.1| && v.dist <= s.limit
  }

  lemma DistancesStayValid(s: Block, p: nat, hist: seq<octet>, m: nat)
    requires s.Ok() && DistancesValid(s, p, hist) && Run(s, p, hist, m).Some?
    ensures var (q, h) := Run(s, p, hist, m).value; NearEnough(s, Run(s, p, hist, m).value) && DistancesValid(s, q, h)
  {
    hide Run, NearEnough;
    var (q, h) := Run(s, p, hist, m).value;
    forall n: nat ensures Run(s, q, h, n).Some? ==> NearEnough(s, Run(s, q, h, n).value) {
      RunAdd(s, p, hist, m, n);
    }
  }
}
