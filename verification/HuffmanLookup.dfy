/** Looking codes up in the tables of inflate_table, and what the decoding loops need
    to know about such tables. */
module HuffmanLookup {
  import opened Arith
  import opened BitReverse
  import opened Canonical
  import opened InflateTable

  /** Root entries are symbols, or links to sub-tables of symbols. */
  ghost predicate Shape(table: seq<Code>, root: nat) {
    && 1 <= root <= MAXBITS && Pow2(root) <= |table|
    && forall i :: 0 <= i < Pow2(root) ==> RootEntryOk(table, root, table[i])
  }

  ghost predicate RootEntryOk(table: seq<Code>, root: nat, e: Code) {
    IsLink(e) ==>
      && e.bits == root && e.val + Pow2(e.op) <= |table|
      && forall q :: e.val <= q < e.val + Pow2(e.op) ==> !IsLink(table[q])
  }

  /** The entry that the bits x lead to, and how many bits that takes. */
  function Look(table: seq<Code>, root: nat, x: nat): (Code, nat)
    requires Shape(table, root)
  {
    var e := table[Low(x, root)];
    if IsLink(e) then
      assert RootEntryOk(table, root, e);
      var f := table[e.val + Low(Shr(x, root), e.op)];
      (f, root + f.bits)
    else (e, e.bits)
  }

  /** The entries a table of this kind may hold, and the ranges the extra bits allow. */
  ghost predicate EntryOk(kind: CodeType, e: Code) {
    match kind
    case CODES => e.op == 0 || e.op == 64
    case LENS =>
      || (e.op == 0 && e.val < 256)
      || (16 <= e.op <= 21 && 3 <= e.val && e.val + Pow2(e.op - 16) <= 259)
      || e.op == 64 || e.op == 77 || e.op == 96 || e.op == 202
    case DISTS =>
      (16 <= e.op <= 29 && 1 <= e.val && e.val + Pow2(e.op - 16) <= 32769) || e.op == 64
  }

  ghost predicate LookOk(table: seq<Code>, root: nat, kind: CodeType, x: nat)
    requires Shape(table, root)
  {
    var (e, b) := Look(table, root, x);
    1 <= b <= MAXBITS && !IsLink(e) && EntryOk(kind, e)
  }

  /** Only the bits accounted for matter. */
  ghost predicate PrefixOk(table: seq<Code>, root: nat, x: nat, y: nat)
    requires Shape(table, root)
  {
    var b := Look(table, root, x).1;
    Low(y, b) == Low(x, b) ==> Look(table, root, y) == Look(table, root, x)
  }

  /** The contract between inflate_table and the decoding loops. */
  ghost predicate Good(table: seq<Code>, root: nat, kind: CodeType) {
    && Shape(table, root)
    && (forall x: nat :: LookOk(table, root, kind, x))
    && (forall x: nat, y: nat :: PrefixOk(table, root, x, y))
  }

  // ---- the tables of inflate_table are good --------------------------------------------

  lemma Powers()
    ensures Pow2(0) == 1 && Pow2(1) == 2 && Pow2(2) == 4 && Pow2(3) == 8 && Pow2(4) == 16
    ensures Pow2(5) == 32 && Pow2(6) == 64 && Pow2(7) == 128 && Pow2(8) == 256 && Pow2(9) == 512
    ensures Pow2(10) == 1024 && Pow2(11) == 2048 && Pow2(12) == 4096 && Pow2(13) == 8192
  {
    assert Pow2(3) == 8;
    assert Pow2(6) == 64;
    assert Pow2(9) == 512;
    assert Pow2(12) == 4096;
  }

  lemma LExtOk(i: nat)
    requires i < 31
    ensures EntryOk(LENS, Code(LExt(i), 1, LBase(i)))
  {
    Powers();
    hide Pow2;
  }

  lemma DExtOk(i: nat)
    requires i < 32
    ensures EntryOk(DISTS, Code(DExt(i), 1, DBase(i)))
  {
    Powers();
    hide Pow2;
    if i < 16 {
    } else {
    }
  }

  lemma SymbolOk(kind: CodeType, sym: nat, bits: uch)
    requires sym < MaxSymbols(kind)
    ensures EntryOk(kind, SymbolEntry(kind, sym, bits))
  {
    hide LExt, DExt, LBase, DBase, Pow2;
    if kind == LENS && sym > 256 { LExtOk(sym - 257); }
    if kind == DISTS { DExtOk(sym); }
  }

  /** What TableOk says about one sequence of bits that begins with a code. */
  lemma LookDecodes(table: seq<Code>, root: nat, kind: CodeType, lens: seq<nat>, s: nat, x: nat)
    requires Symbols(lens, kind) && TableOk(table, root, kind, lens) && Shape(table, root) && Begins(lens, s, x)
    ensures Look(table, root, x)
            == (SymbolEntry(kind, s, if lens[s] <= root then lens[s] else lens[s] - root), lens[s])
  {
    hide Low, Shr, Rev, Pow2, CodeOf, SymbolEntry;
    assert Decodes(table, root, x, kind, s, lens[s]);
    SymbolIsNoLink(kind, s, lens[s]);
    SymbolBits(kind, s, if lens[s] <= root then lens[s] else lens[s] - root);
  }

  lemma SymbolBits(kind: CodeType, sym: nat, bits: uch)
    requires sym < MaxSymbols(kind)
    ensures SymbolEntry(kind, sym, bits).bits == bits
  {
  }

  lemma BeginsSame(lens: seq<nat>, s: nat, x: nat, y: nat)
    requires Begins(lens, s, x) && Low(y, lens[s]) == Low(x, lens[s])
    ensures Begins(lens, s, y)
  {
    RevLow(x, lens[s], lens[s]);
    RevLow(y, lens[s], lens[s]);
  }

  /** Any slot of a sub-table is reached by some bits. */
  lemma SlotOfComplete(table: seq<Code>, root: nat, kind: CodeType, lens: seq<nat>, i: nat, q: nat)
    requires Symbols(lens, kind) && TableOk(table, root, kind, lens) && Complete(lens)
    requires 1 <= root <= MAXBITS && i < Pow2(root) <= |table| && IsLink(table[i]) && q < Pow2(table[i].op)
    ensures table[i].bits == root && table[i].val + q < |table| && !IsLink(table[table[i].val + q])
  {
    hide Low, Shr, Rev, Pow2, CodeOf, SymbolEntry, Shl, Complete;
    var x := i + Shl(q, root);
    SplitUnique(root, i, q);
    LowSmall(q, table[i].op);
    CompleteDecodes(lens, x);
    var s: nat :| Begins(lens, s, x);
    assert Decodes(table, root, x, kind, s, lens[s]);
    SymbolIsNoLink(kind, s, if lens[s] <= root then lens[s] else lens[s] - root);
  }

  lemma ShapeOfComplete(table: seq<Code>, root: nat, kind: CodeType, lens: seq<nat>)
    requires Symbols(lens, kind) && TableOk(table, root, kind, lens) && Complete(lens)
    requires 1 <= root <= MAXBITS && Pow2(root) <= |table|
    ensures Shape(table, root)
  {
    hide Pow2, TableOk, Complete;
    forall i: nat | i < Pow2(root) ensures RootEntryOk(table, root, table[i]) {
      var e := table[i];
      if IsLink(e) {
        assert Pow2(e.op) >= 1 by { OnePow2(e.op); }
        SlotOfComplete(table, root, kind, lens, i, Pow2(e.op) - 1);
        forall k | e.val <= k < e.val + Pow2(e.op) ensures !IsLink(table[k]) {
          SlotOfComplete(table, root, kind, lens, i, k - e.val);
        }
      }
    }
  }

  lemma GoodOfComplete(table: seq<Code>, root: nat, kind: CodeType, lens: seq<nat>)
    requires Symbols(lens, kind) && TableOk(table, root, kind, lens) && Complete(lens)
    requires 1 <= root <= MAXBITS && Pow2(root) <= |table|
    ensures Good(table, root, kind)
  {
    hide Low, Shr, Rev, Pow2, CodeOf, SymbolEntry, Complete, Begins, Look, TableOk, EntryOk, Shape;
    ShapeOfComplete(table, root, kind, lens);
    forall x: nat ensures LookOk(table, root, kind, x) {
      CompleteDecodes(lens, x);
      var s: nat :| Begins(lens, s, x);
      LookFound(table, root, kind, lens, s, x);
    }
    forall x: nat, y: nat ensures PrefixOk(table, root, x, y) {
      CompleteDecodes(lens, x);
      var s: nat :| Begins(lens, s, x);
      LookFound(table, root, kind, lens, s, x);
      if Low(y, lens[s]) == Low(x, lens[s]) {
        BeginsSame(lens, s, x, y);
        LookFound(table, root, kind, lens, s, y);
      }
    }
  }

  lemma LookFound(table: seq<Code>, root: nat, kind: CodeType, lens: seq<nat>, s: nat, x: nat)
    requires Symbols(lens, kind) && TableOk(table, root, kind, lens) && Shape(table, root) && Begins(lens, s, x)
    ensures 1 <= lens[s] <= MAXBITS && s < |lens| && LookOk(table, root, kind, x)
    ensures Look(table, root, x)
            == (SymbolEntry(kind, s, if lens[s] <= root then lens[s] else lens[s] - root), lens[s])
  {
    hide Low, Shr, Rev, Pow2, CodeOf, SymbolEntry, EntryOk, Look;
    LookDecodes(table, root, kind, lens, s, x);
    SymbolOk(kind, s, if lens[s] <= root then lens[s] else lens[s] - root);
    SymbolIsNoLink(kind, s, if lens[s] <= root then lens[s] else lens[s] - root);
  }

  lemma GoodOfOneBit(table: seq<Code>, kind: CodeType)
    requires 2 <= |table| && forall i :: 0 <= i < 2 ==> table[i].bits == 1 && !IsLink(table[i]) && EntryOk(kind, table[i])
    ensures Good(table, 1, kind)
  {
    hide EntryOk;
    PowOne();
    assert Shape(table, 1);
    forall x: nat ensures LookOk(table, 1, kind, x) {
      assert table[Low(x, 1)] == table[0] || table[Low(x, 1)] == table[1];
    }
    forall x: nat, y: nat ensures PrefixOk(table, 1, x, y) {
      assert table[Low(x, 1)] == table[0] || table[Low(x, 1)] == table[1];
    }
  }

  /** A single code of one bit is the bit 0. */
  lemma OneBitEntry(table: seq<Code>, kind: CodeType, lens: seq<nat>)
    requires Symbols(lens, kind) && TableOk(table, 1, kind, lens) && Sorted(lens) != [] && OneBitCodes(lens)
    requires 2 <= |table|
    ensures table[0].bits == 1 && !IsLink(table[0]) && EntryOk(kind, table[0])
  {
    hide Rev, EntryOk, SymbolEntry, Start, InShare, Place, CodeOf, Pow2, Shr;
    var s := Sorted(lens)[0];
    assert Len(lens, 0) == 1;
    RevZero(MAXBITS);
    PowOne();
    assert Start(lens, 0) == 0 by { StartZero(lens); }
    HitIff(lens, 0, 0, 0);
    PlaceOfSorted(lens, 0);
    BeginsInShare(lens, s, 0);
    assert Low(0, 1) == 0;
    assert Decodes(table, 1, 0, kind, s, 1);
    SymbolOk(kind, s, 1);
    SymbolIsNoLink(kind, s, 1);
    SymbolBits(kind, s, 1);
  }

  lemma StartZero(lens: seq<nat>)
    ensures Start(lens, 0) == 0
  {
  }

  /** Whatever inflate_table accepts, complete or not, is good for decoding. */
  lemma GoodOfInflateTable(table: seq<Code>, root: nat, kind: CodeType, lens: seq<nat>)
    requires Symbols(lens, kind) && TableOk(table, root, kind, lens)
    requires 1 <= root <= MAXBITS && Pow2(root) <= |table|
    requires !Complete(lens) ==> root == 1 && 2 <= |table| && table[1] == INVALID
    requires !Complete(lens) ==> if Sorted(lens) == [] then table[0] == INVALID else OneBitCodes(lens)
    requires kind != CODES || Complete(lens)
    ensures Good(table, root, kind)
  {
    hide TableOk, Pow2, EntryOk, Complete, Good, OneBitCodes;
    if Complete(lens) {
      GoodOfComplete(table, root, kind, lens);
    } else {
      assert EntryOk(kind, INVALID) by { InvalidOk(kind); }
      if Sorted(lens) != [] { OneBitEntry(table, kind, lens); }
      GoodOfOneBit(table, kind);
    }
  }

  lemma InvalidOk(kind: CodeType)
    ensures EntryOk(kind, INVALID)
  {
  }
}
