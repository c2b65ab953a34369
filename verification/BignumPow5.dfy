/** pow5mult with its cache of powers of five, and s2b. */
module BignumPow5 {
  import opened Arith
  import opened Limbs
  import opened Bignum

  function Pow5(n: nat): (p: nat)
    ensures p >= 1
  {
    if n == 0 then 1 else 5 * Pow5(n - 1)
  }

  lemma {:induction false} Pow5Add(m: nat, n: nat)
    ensures Pow5(m + n) == Pow5(m) * Pow5(n)
    decreases m
  {
    if m > 0 {
      Pow5Add(m - 1, n);
      assert 5 * (Pow5(m - 1) * Pow5(n)) == (5 * Pow5(m - 1)) * Pow5(n);
    }
  }

  lemma Pow5Small()
    ensures Pow5(0) == 1 && Pow5(1) == 5 && Pow5(2) == 25 && Pow5(3) == 125 && Pow5(4) == 625
  {
    assert Pow5(3) == 125;
  }

  /** i2b */
  method I2b(i: ULong) returns (b: Bigint)
    ensures fresh(b) && fresh(b.x) && b.Valid() && b.Val() == i
  {
    b := new Bigint(1);
    b.x[0] := i;
    b.wds := 1;
    assert b.x[..1] == [i] && Value([i]) == i;
  }

  lemma Pow2One()
    ensures Pow2(0) == 1
  {
  }

  lemma Pow5None()
    ensures Pow5(0) == 1
  {
  }

  /** The factor for bit i, and what is left to multiply with. */
  lemma PowerStep(v: nat, i: nat, k: nat)
    requires v > 0
    ensures var w := if k % 2 == 1 then v * Pow5(4 * Pow2(i)) else v;
            w > 0 && w * Pow5(4 * Pow2(i + 1) * (k / 2)) == v * Pow5(4 * Pow2(i) * k)
  {
    var p, h := 4 * Pow2(i), k / 2;
    assert 4 * Pow2(i + 1) * h == p * (2 * h);
    if k % 2 == 1 {
      Pow5Add(p, p * (2 * h));
      assert p * k == p + p * (2 * h) by { assert k == 1 + 2 * h; }
      Associate(v, Pow5(p), Pow5(p * (2 * h)));
    }
  }

  lemma Associate(x: nat, y: nat, z: nat)
    ensures (x * y) * z == x * (y * z) && (x > 0 && y > 0 ==> x * y > 0)
  {
  }

  /** The static list p5s. */
  class P5s {
    var list: seq<Bigint>
    ghost var repr: set<object>

    /** Node i holds 5^(4*2^i). */
    ghost predicate Valid()
      reads this, repr
    {
      this !in repr && forall i :: 0 <= i < |list| ==> Node(i)
    }

    ghost predicate Node(i: nat)
      requires i < |list|
      reads this, repr
    {
      && list[i] in repr && list[i].x in repr
      && list[i].Valid() && list[i].Val() == Pow5(4 * Pow2(i))
    }

    /** b is none of the nodes. */
    ghost predicate Apart(b: Bigint)
      reads this
    {
      b !in repr && b.x !in repr
    }

    constructor ()
      ensures Valid() && list == [] && repr == {}
    {
      list, repr := [], {};
    }

    /** A new node at the end of the list. */
    method Add(p5: Bigint)
      requires Valid() && p5.Valid() && p5.Val() == Pow5(4 * Pow2(|list|))
      modifies this
      ensures Valid() && list == old(list) + [p5] && repr == old(repr) + {p5, p5.x}
    {
      hide Pow2, Pow5, Value, Normal;
      list := list + [p5];
      repr := repr + {p5, p5.x};
      forall i | 0 <= i < |list| ensures Node(i) {
        if i < |list| - 1 { assert old(Node(i)); }
      }
    }

    /** The next node, made by squaring the last one when it is needed for the first time. */
    method Next(i: nat)
      requires Valid() && i < |list|
      modifies this
      ensures Valid() && i + 1 < |list| && old(list) <= list && fresh(repr - old(repr))
    {
      if i + 1 == |list| {
        assert Node(i);
        SquareNode(i);
        hide Pow2, Pow5, Value, Normal;
        var p51 := Mult(list[i], list[i]);
        Add(p51);
      }
    }

    /** pow5mult: b times 5^k, whatever calls came before. */
    method Pow5Mult(b0: Bigint, k0: nat) returns (b: Bigint)
      requires Valid() && Apart(b0) && b0.Valid() && b0.Val() > 0
      modifies this, b0, b0.x
      ensures Valid() && b.Valid() && b.Val() == old(b0.Val()) * Pow5(k0)
      ensures b == b0 || (fresh(b) && fresh(b.x))
      ensures Apart(b) && old(list) <= list && fresh(repr - old(repr))
    {
      b := b0;
      ghost var v0 := b0.Val();
      Pow5Small();
      Pow2One();
      hide Pow2, Pow5, Value, Normal;
      var i := k0 % 4;
      if i != 0 {
        b := MultAdd(b, [5, 25, 125][i - 1], 0);
      }
      assert b.Val() == v0 * Pow5(k0 % 4);
      Associate(v0, Pow5(k0 % 4), 1);
      var k := k0 / 4;
      if k == 0 { return; }
      if list == [] {
        var p5 := I2b(625);
        Add(p5);
      }
      Pow5Add(k0 % 4, 4 * k);
      Associate(v0, Pow5(k0 % 4), Pow5(4 * k));
      b := Powers(b, k);
    }

    /** The loop of pow5mult: a factor for every bit of k that is set. */
    method Powers(b0: Bigint, k0: nat) returns (b: Bigint)
      requires Valid() && Apart(b0) && b0.Valid() && b0.Val() > 0 && k0 > 0 && list != []
      modifies this
      ensures Valid() && b.Valid() && b.Val() == old(b0.Val()) * Pow5(4 * k0)
      ensures b == b0 || (fresh(b) && fresh(b.x))
      ensures Apart(b) && old(list) <= list && fresh(repr - old(repr))
    {
      hide Pow2, Pow5, Value, Normal;
      b := b0;
      ghost var target := b0.Val() * Pow5(4 * k0);
      var k: nat, i: nat := k0, 0;
      Pow2One();
      while k > 0
        invariant Valid() && b.Valid() && b.Val() > 0 && 0 <= i && (k > 0 ==> i < |list|)
        invariant b.Val() * Pow5(4 * Pow2(i) * k) == target
        invariant b == b0 || (fresh(b) && fresh(b.x))
        invariant Apart(b) && old(list) <= list && fresh(repr - old(repr))
        decreases k
      {
        PowerStep(b.Val(), i, k);
        if k % 2 == 1 {
          assert Node(i);
          b := Mult(b, list[i]);
        }
        k := k / 2;
        if k > 0 { Next(i); }
        i := i + 1;
      }
      assert 4 * Pow2(i) * k == 0;
      Pow5None();
    }
  }

  lemma SquareNode(i: nat)
    ensures var p := Pow5(4 * Pow2(i)); p * p == Pow5(4 * Pow2(i + 1)) && p * p >= 1
  {
    Pow5Add(4 * Pow2(i), 4 * Pow2(i));
  }

  // ---- s2b ------------------------------------------------------------------------------------

  predicate Digits(s: seq<char>) {
    forall i :: 0 <= i < |s| ==> '0' <= s[i] <= '9'
  }

  /** The number that digits denote. */
  function Decimal(s: seq<char>): nat
    requires Digits(s)
  {
    if s == [] then 0 else 10 * Decimal(s[..|s| - 1]) + (s[|s| - 1] - '0') as nat
  }

  lemma DecimalSnoc(s: seq<char>, c: char)
    requires Digits(s) && '0' <= c <= '9'
    ensures Decimal(s + [c]) == 10 * Decimal(s) + (c - '0') as nat
  {
    assert (s + [c])[..|s|] == s;
  }

  /** The digits of a literal with nd0 of its nd digits before a decimal point of dplen bytes. */
  function DigitsOf(s: seq<char>, nd0: nat, nd: nat, dplen: nat): seq<char>
    requires nd0 <= nd && nd + dplen <= |s|
  {
    s[..nd0] + s[nd0 + dplen..nd + dplen]
  }

  /** b = multadd(b, 10, *s++ - '0') for every digit of t. */
  method AppendDigits(b0: Bigint, t: seq<char>, ghost done: seq<char>) returns (b: Bigint)
    requires b0.Valid() && Digits(done) && Digits(t) && b0.Val() == Decimal(done)
    modifies b0, b0.x
    ensures b.Valid() && Digits(done + t) && b.Val() == Decimal(done + t)
    ensures b == b0 || (fresh(b) && fresh(b.x))
  {
    hide Pow2, Value, Normal;
    b := b0;
    assert done + t[..0] == done;
    for i := 0 to |t|
      invariant b.Valid() && b.Val() == Decimal(done + t[..i])
      invariant b == b0 || (fresh(b) && fresh(b.x))
    {
      DecimalSnoc(done + t[..i], t[i]);
      assert done + t[..i + 1] == (done + t[..i]) + [t[i]];
      b := MultAdd(b, 10, (t[i] - '0') as nat);
    }
    assert t[..|t|] == t;
  }

  /** y9 with room for nd digits. */
  method FirstNine(nd: nat, y9: ULong) returns (b: Bigint)
    ensures fresh(b) && fresh(b.x) && b.Valid() && b.Val() == y9
  {
    var x := (nd + 8) / 9;
    var k, y := 0, 1;
    while x > y
      invariant y == Pow2(k) && k >= 0
      decreases x - y
    {
      y := 2 * y;
      k := k + 1;
    }
    b := new Bigint(k);
    b.x[0] := y9;
    b.wds := 1;
    assert b.x[..1] == [y9] && Value([y9]) == y9;
  }

  /** s2b: the number that all nd digits denote, given that y9 is that of the first nine. */
  method S2b(s: seq<char>, nd0: nat, nd: nat, y9: ULong, dplen: nat) returns (b: Bigint)
    requires nd0 <= nd && nd + dplen <= |s| && Digits(DigitsOf(s, nd0, nd, dplen))
    requires var d := DigitsOf(s, nd0, nd, dplen); y9 == Decimal(d[..if |d| < 9 then |d| else 9])
    ensures b.Valid() && b.Val() == Decimal(DigitsOf(s, nd0, nd, dplen))
  {
    b := FirstNine(nd, y9);
    ghost var d := DigitsOf(s, nd0, nd, dplen);
    hide Pow2, Value, Normal;
    if 9 < nd0 {
      assert s[9..nd0] == d[9..nd0] && s[nd0 + dplen..nd + dplen] == d[nd0..];
      b := AppendDigits(b, s[9..nd0], d[..9]);
      assert d[..9] + s[9..nd0] == d[..nd0];
      b := AppendDigits(b, s[nd0 + dplen..nd + dplen], d[..nd0]);
      assert d[..nd0] + d[nd0..] == d;
    } else if 9 < nd {
      assert s[9 + dplen..nd + dplen] == d[9..];
      b := AppendDigits(b, s[9 + dplen..nd + dplen], d[..9]);
      assert d[..9] + d[9..] == d;
    } else {
      assert d[..|d|] == d;
    }
  }
}
