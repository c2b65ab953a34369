/** The hash chains of the compressor as values: head[] and prev[] seen together
    with all the data consumed so far.  Positions in the tables are window
    indices; `base` is the absolute position of window index 0, so that an index
    q denotes the byte data[base + q]. */
module DeflateTables {
  import opened Lz77
  import opened DeflateHash
  import Arith

  /** The 16-bit type Pos of the tables; 0 doubles as NIL. */
  type Pos = n: nat | n < 0x1_0000

  const NIL: nat := 0

  function KeyAt(bits: HashBits, data: seq<byte>, a: nat): nat
    requires a + 3 <= |data|
  {
    Index(Hash3(bits, data[a], data[a + 1], data[a + 2]))
  }

  lemma SameBytesKnown(bits: HashBits, head: seq<Pos>, prev: seq<Pos>, data: seq<byte>, base: nat, top: nat, ins: set<nat>,
                       a: nat, at: nat)
    requires TablesOk(bits, head, prev, data, base, top, ins) && a in ins && base < a && at + 3 <= |data|
    requires a + 3 <= |data| && data[a] == data[at] && data[a + 1] == data[at + 1] && data[a + 2] == data[at + 2]
    ensures Known(bits, data, base, ins, a, top, KeyAt(bits, data, at))
  {
    hide Hash3, LinkOk;
  }

  lemma KeyInRange(bits: HashBits, data: seq<byte>, a: nat)
    requires a + 3 <= |data|
    ensures KeyAt(bits, data, a) < HashSize(bits)
  {
    hide UpdateHash, HashSize;
    IndexInRange(bits, UpdateHash(bits, UpdateHash(bits, 0, data[a]), data[a + 1]), data[a + 2]);
  }

  function Slot(a: nat, w: nat): nat
    requires w > 0
  {
    a % w
  }

  /** An inserted string older than `bound` with that key, which a table can refer to. */
  ghost predicate Known(bits: HashBits, data: seq<byte>, base: nat, ins: set<nat>, a: nat, bound: nat, key: nat) {
    a in ins && base < a < bound && a + 3 <= |data| && KeyAt(bits, data, a) == key
  }

  /** A table entry is the newest inserted string older than `bound` with that key, or NIL if the
      window holds none. */
  ghost predicate LinkOk(bits: HashBits, data: seq<byte>, base: nat, ins: set<nat>,
                         q: nat, bound: nat, key: nat)
  {
    && (q != 0 ==> Known(bits, data, base, ins, base + q, bound, key))
    && forall a: nat :: Known(bits, data, base, ins, a, bound, key) ==> q != 0 && a <= base + q
  }

  lemma LinkKnown(bits: HashBits, data: seq<byte>, base: nat, ins: set<nat>, q: nat, bound: nat, key: nat)
    requires LinkOk(bits, data, base, ins, q, bound, key)
    ensures q != 0 ==> Known(bits, data, base, ins, base + q, bound, key)
  {
  }

  /** ins holds the absolute positions inserted so far, all below top.  prev[] is
      only meaningful for those among the last |prev| positions below top. */
  ghost predicate TablesOk(bits: HashBits, head: seq<Pos>, prev: seq<Pos>, data: seq<byte>,
                           base: nat, top: nat, ins: set<nat>)
  {
    && |head| == HashSize(bits)
    && |prev| > 0
    && base % |prev| == 0
    && (top > 0 ==> top + 2 <= |data|)
    && (forall a :: a in ins ==> a + 3 <= |data| && a < top)
    && (forall i :: 0 <= i < |head| ==> LinkOk(bits, data, base, ins, head[i], top, i))
    && (forall a :: a in ins && top <= a + |prev| ==>
          LinkOk(bits, data, base, ins, prev[Slot(a, |prev|)], a, KeyAt(bits, data, a)))
  }

  lemma EmptyTables(bits: HashBits, head: seq<Pos>, prev: seq<Pos>)
    requires |head| == HashSize(bits) && |prev| > 0 && forall i :: 0 <= i < |head| ==> head[i] == NIL
    ensures TablesOk(bits, head, prev, [], 0, 0, {})
  {
    forall i | 0 <= i < |head| ensures LinkOk(bits, [], 0, {}, head[i], 0, i) {
    }
  }

  lemma SlotsApart(a: nat, b: nat, w: nat)
    requires 0 < w && a < b < a + w
    ensures Slot(a, w) != Slot(b, w)
  {
    Arith.MulSign(w, b / w - a / w);
    assert w * (b / w - a / w) == (b - b % w) - (a - a % w);
  }

  /** base is a multiple of w, so a slot can be found from the window index alone. */
  lemma SlotOfIndex(base: nat, q: nat, w: nat)
    requires 0 < w && base % w == 0
    ensures Slot(base + q, w) == q % w
  {
    assert base + q == w * (base / w + q / w) + q % w;
    Arith.DivModUnique(base + q, w, base / w + q / w, q % w);
  }

  /** An entry stays right when the string at `at`, not older than its bound, is inserted; and also for the
      bound at + 1 if that string has another key. */
  lemma LinkAfterInsert(bits: HashBits, data: seq<byte>, base: nat, ins: set<nat>, q: nat, bound: nat, key: nat, at: nat)
    requires LinkOk(bits, data, base, ins, q, bound, key) && bound <= at
    ensures LinkOk(bits, data, base, ins + {at}, q, bound, key)
    ensures (forall a :: a in ins ==> a < bound) ==> LinkOk(bits, data, base, ins + {at}, q, at, key)
    ensures (forall a :: a in ins ==> a < bound) && at + 3 <= |data| && KeyAt(bits, data, at) != key ==>
              LinkOk(bits, data, base, ins + {at}, q, at + 1, key)
  {
    hide KeyAt;
    var ins' := ins + {at};
    assert forall a: nat, t: nat :: Known(bits, data, base, ins', a, t, key) && a != at && (t <= bound || a < bound) ==>
             Known(bits, data, base, ins, a, bound, key);
  }

  /** The string inserted last is the newest with its key. */
  lemma LinkToNewest(bits: HashBits, data: seq<byte>, base: nat, ins: set<nat>, q: nat)
    requires base + q in ins && base + q + 3 <= |data| && forall a :: a in ins ==> a <= base + q
    ensures LinkOk(bits, data, base, ins, q, base + q + 1, KeyAt(bits, data, base + q))
  {
    hide KeyAt;
  }

  /** The entries made by INSERT_STRING(s, str). */
  lemma InsertKeepsTables(bits: HashBits, head: seq<Pos>, prev: seq<Pos>, data: seq<byte>,
                          base: nat, top: nat, ins: set<nat>, str: Pos)
    requires TablesOk(bits, head, prev, data, base, top, ins)
    requires top <= base + str && base + str + 3 <= |data|
    requires KeyAt(bits, data, base + str) < |head|
    ensures
      var key := KeyAt(bits, data, base + str);
      && LinkOk(bits, data, base, ins + {base + str}, head[key], base + str, key)
      && TablesOk(bits, head[key := str], prev[str % |prev| := head[key]],
                  data, base, base + str + 1, ins + {base + str})
  {
    SlotOfIndex(base, str, |prev|);
    var w, at := |prev|, base + str;
    var key := KeyAt(bits, data, at);
    var head', prev', ins' := head[key := str], prev[Slot(at, w) := head[key]], ins + {at};
    hide LinkOk, KeyAt, Slot;
    forall i | 0 <= i < |head'|
      ensures LinkOk(bits, data, base, ins', head'[i], at + 1, i)
    {
      assert LinkOk(bits, data, base, ins, head[i], top, i);
      if i == key {
        LinkToNewest(bits, data, base, ins', str);
      } else {
        LinkAfterInsert(bits, data, base, ins, head[i], top, i, at);
      }
    }
    assert LinkOk(bits, data, base, ins, head[key], top, key);
    LinkAfterInsert(bits, data, base, ins, head[key], top, key, at);
    forall a | a in ins' && at + 1 <= a + w
      ensures LinkOk(bits, data, base, ins', prev'[Slot(a, w)], a, KeyAt(bits, data, a))
    {
      if a != at {
        SlotsApart(a, at, w);
        assert LinkOk(bits, data, base, ins, prev[Slot(a, w)], a, KeyAt(bits, data, a));
        LinkAfterInsert(bits, data, base, ins, prev[Slot(a, w)], a, KeyAt(bits, data, a), at);
      }
    }
  }

  lemma LinkInMore(bits: HashBits, data: seq<byte>, base: nat, ins: set<nat>, q: nat, bound: nat, key: nat, data': seq<byte>)
    requires LinkOk(bits, data, base, ins, q, bound, key) && data <= data' && forall a :: a in ins ==> a + 3 <= |data|
    ensures LinkOk(bits, data', base, ins, q, bound, key)
  {
    forall a: nat | a + 3 <= |data| ensures KeyAt(bits, data', a) == KeyAt(bits, data, a) {
    }
    hide KeyAt;
    assert forall a: nat :: Known(bits, data', base, ins, a, bound, key) ==> Known(bits, data, base, ins, a, bound, key);
  }

  /** Reading more input keeps the tables meaningful. */
  lemma GrowKeepsTables(bits: HashBits, head: seq<Pos>, prev: seq<Pos>, data: seq<byte>,
                        base: nat, top: nat, ins: set<nat>, data': seq<byte>)
    requires TablesOk(bits, head, prev, data, base, top, ins)
    requires data <= data'
    ensures TablesOk(bits, head, prev, data', base, top, ins)
  {
    forall a: nat | a + 3 <= |data| ensures KeyAt(bits, data', a) == KeyAt(bits, data, a) {
    }
    hide LinkOk, KeyAt, Slot;
    forall i | 0 <= i < |head| ensures LinkOk(bits, data', base, ins, head[i], top, i) {
      assert LinkOk(bits, data, base, ins, head[i], top, i);
      LinkInMore(bits, data, base, ins, head[i], top, i, data');
    }
    forall a | a in ins && top <= a + |prev|
      ensures LinkOk(bits, data', base, ins, prev[Slot(a, |prev|)], a, KeyAt(bits, data', a))
    {
      assert LinkOk(bits, data, base, ins, prev[Slot(a, |prev|)], a, KeyAt(bits, data, a));
      LinkInMore(bits, data, base, ins, prev[Slot(a, |prev|)], a, KeyAt(bits, data, a), data');
    }
  }

  /** One entry after the window has moved down by w. */
  function Rebase(m: Pos, w: nat): Pos { if m >= w then m - w else 0 }

  function RebaseAll(s: seq<Pos>, w: nat): seq<Pos> {
    seq(|s|, i requires 0 <= i < |s| => Rebase(s[i], w))
  }

  /** An entry rebased refers to the same string, unless that has left the window. */
  lemma LinkRebased(bits: HashBits, data: seq<byte>, base: nat, ins: set<nat>, q: Pos, bound: nat, key: nat, w: nat)
    requires LinkOk(bits, data, base, ins, q, bound, key)
    ensures LinkOk(bits, data, base + w, ins, Rebase(q, w), bound, key)
  {
    hide KeyAt;
    var q', base' := Rebase(q, w), base + w;
    if q' != 0 {
      assert base' + q' == base + q;
    }
    forall a: nat | Known(bits, data, base', ins, a, bound, key) ensures q' != 0 && a <= base' + q' {
      assert Known(bits, data, base, ins, a, bound, key);
    }
  }

  /** slide_hash changes every entry but no entry's meaning: what is not cut off
      denotes the same absolute position as before. */
  lemma SlideKeepsTables(bits: HashBits, head: seq<Pos>, prev: seq<Pos>, data: seq<byte>,
                         base: nat, top: nat, ins: set<nat>)
    requires TablesOk(bits, head, prev, data, base, top, ins)
    ensures TablesOk(bits, RebaseAll(head, |prev|), RebaseAll(prev, |prev|), data,
                     base + |prev|, top, ins)
  {
    var w := |prev|;
    var head', prev' := RebaseAll(head, w), RebaseAll(prev, w);
    SlotOfIndex(base, w, w);
    assert (base + w) % w == 0 by { assert Slot(base + w, w) == w % w == 0; }
    hide LinkOk, KeyAt;
    forall i | 0 <= i < |head'| ensures LinkOk(bits, data, base + w, ins, head'[i], top, i) {
      assert LinkOk(bits, data, base, ins, head[i], top, i);
      assert head'[i] == Rebase(head[i], w);
      LinkRebased(bits, data, base, ins, head[i], top, i, w);
    }
    forall a | a in ins && top <= a + w
      ensures LinkOk(bits, data, base + w, ins, prev'[Slot(a, w)], a, KeyAt(bits, data, a))
    {
      assert LinkOk(bits, data, base, ins, prev[Slot(a, w)], a, KeyAt(bits, data, a));
      assert prev'[Slot(a, w)] == Rebase(prev[Slot(a, w)], w);
      LinkRebased(bits, data, base, ins, prev[Slot(a, w)], a, KeyAt(bits, data, a), w);
    }
  }

  /** cur_match = prev[cur_match & wmask] */
  function Next(prev: seq<Pos>, cur: nat): Pos
    requires |prev| > 0
  {
    prev[cur % |prev|]
  }

  /** The candidates longest_match looks at, starting from cur: at most n of them,
      following prev[] for as long as it stays above limit. */
  function Chain(prev: seq<Pos>, cur: nat, limit: nat, n: nat): seq<nat>
    requires |prev| > 0
    decreases n
  {
    if n == 0 then []
    else
      var next := Next(prev, cur);
      [cur] + if next > limit then Chain(prev, next, limit, n - 1) else []
  }

  lemma ChainStep(prev: seq<Pos>, seen: seq<nat>, cur: nat, limit: nat, n: nat)
    requires |prev| > 0 && n >= 1
    ensures
      var next := Next(prev, cur);
      seen + Chain(prev, cur, limit, n)
      == (seen + [cur]) + if next > limit && n > 1 then Chain(prev, next, limit, n - 1) else []
  {
  }

  /** The byte longest_match does not compare: same key and same first two bytes. */
  lemma ThirdByteAt(bits: HashBits, data: seq<byte>, a: nat, b: nat)
    requires a + 3 <= |data| && b + 3 <= |data|
    requires KeyAt(bits, data, a) == KeyAt(bits, data, b)
    requires data[a] == data[b] && data[a + 1] == data[b + 1]
    ensures data[a + 2] == data[b + 2]
  {
    hide Hash3;
    IndexInjective(Hash3(bits, data[a], data[a + 1], data[a + 2]), Hash3(bits, data[b], data[b + 1], data[b + 2]));
    ThirdByteImplied(bits, data[a], data[a + 1], data[a + 2], data[b + 2]);
  }

  /** One step along a chain leads to NIL or to an older string with the same key. */
  lemma NextLink(bits: HashBits, head: seq<Pos>, prev: seq<Pos>, data: seq<byte>,
                 base: nat, top: nat, ins: set<nat>, cur: nat, bound: nat, key: nat)
    requires TablesOk(bits, head, prev, data, base, top, ins)
    requires Known(bits, data, base, ins, base + cur, bound, key)
    requires top <= base + cur + |prev|
    ensures LinkOk(bits, data, base, ins, Next(prev, cur), base + cur, key)
    ensures Next(prev, cur) != 0 ==> Next(prev, cur) < cur
  {
    SlotOfIndex(base, cur, |prev|);
    assert LinkOk(bits, data, base, ins, prev[Slot(base + cur, |prev|)], base + cur, KeyAt(bits, data, base + cur));
  }

  /** Every candidate above the limit denotes an older string with the key of
      the string searched for: this is the hash-chain invariant as the search uses it. */
  lemma {:induction false} ChainSound(bits: HashBits, head: seq<Pos>, prev: seq<Pos>, data: seq<byte>,
                    base: nat, top: nat, ins: set<nat>, cur: nat, limit: nat, n: nat,
                    bound: nat, key: nat, k: nat)
    requires |prev| > 0 && TablesOk(bits, head, prev, data, base, top, ins)
    requires cur != 0 && LinkOk(bits, data, base, ins, cur, bound, key)
    requires top <= base + limit + |prev| && top <= base + cur + |prev|
    requires k < |Chain(prev, cur, limit, n)|
    ensures CandidateOk(bits, data, base, ins, Chain(prev, cur, limit, n)[k], cur, limit, bound, key, k)
    decreases n
  {
    hide TablesOk, KeyAt, Next;
    if k > 0 {
      hide LinkOk;
      var next := Next(prev, cur);
      NextLink(bits, head, prev, data, base, top, ins, cur, bound, key);
      ChainSound(bits, head, prev, data, base, top, ins, next, limit, n - 1, base + cur, key, k - 1);
      assert Chain(prev, cur, limit, n)[k] == Chain(prev, next, limit, n - 1)[k - 1];
      assert CandidateOk(bits, data, base, ins, Chain(prev, cur, limit, n)[k], cur, limit, bound, key, k);
    }
  }

  /** The k-th candidate of a chain from cur: strictly older than the ones before it,
      above the limit, and an inserted string with the key looked for. */
  ghost predicate CandidateOk(bits: HashBits, data: seq<byte>, base: nat, ins: set<nat>,
                              c: nat, cur: nat, limit: nat, bound: nat, key: nat, k: nat)
  {
    && (if k == 0 then c == cur else limit < c < cur)
    && c != 0 && base + c in ins && base + c < (if k == 0 then bound else base + cur)
    && base + c + 3 <= |data| && KeyAt(bits, data, base + c) == key
  }

  /** And every such string above the limit is a candidate, unless the chain is cut off at n. */
  lemma {:induction false} ChainComplete(bits: HashBits, head: seq<Pos>, prev: seq<Pos>, data: seq<byte>,
                       base: nat, top: nat, ins: set<nat>, cur: nat, limit: nat, n: nat,
                       bound: nat, key: nat, q: nat)
    requires |prev| > 0 && TablesOk(bits, head, prev, data, base, top, ins)
    requires LinkOk(bits, data, base, ins, cur, bound, key) && top <= base + limit + |prev|
    requires Known(bits, data, base, ins, base + q, bound, key) && limit < q
    ensures cur != 0 && limit < cur
    ensures |Chain(prev, cur, limit, n)| < n ==> q in Chain(prev, cur, limit, n)
    decreases n
  {
    hide TablesOk, KeyAt, Next;
    if n > 0 && q != cur {
      NextLink(bits, head, prev, data, base, top, ins, cur, bound, key);
      ChainComplete(bits, head, prev, data, base, top, ins, Next(prev, cur), limit, n - 1, base + cur, key, q);
    }
  }

  /** The candidates are looked up after the insertion of the string searched for, which changes none of
      their links: the slot written is that of the string itself. */
  lemma {:induction false} ChainAfterInsert(bits: HashBits, head: seq<Pos>, prev: seq<Pos>, prev': seq<Pos>, data: seq<byte>,
                       base: nat, top: nat, ins: set<nat>, str: nat, cur: nat, limit: nat, n: nat, bound: nat, key: nat)
    requires |prev| > 0 && TablesOk(bits, head, prev, data, base, top, ins) && top <= base + str
    requires |prev'| == |prev| && forall i :: 0 <= i < |prev| && i != str % |prev| ==> prev'[i] == prev[i]
    requires cur < str && str < limit + |prev| && str < cur + |prev|
    requires cur != 0 && Known(bits, data, base, ins, base + cur, bound, key)
    ensures Chain(prev', cur, limit, n) == Chain(prev, cur, limit, n)
    decreases n
  {
    hide TablesOk, KeyAt;
    if n > 0 {
      SlotsApart(cur, str, |prev|);
      NextLink(bits, head, prev, data, base, top, ins, cur, bound, key);
      assert Next(prev', cur) == Next(prev, cur);
      if Next(prev, cur) > limit {
        ChainAfterInsert(bits, head, prev, prev', data, base, top, ins, str, Next(prev, cur), limit, n - 1, base + cur, key);
      }
    }
  }
}
