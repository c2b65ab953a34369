/** The composition: prefilter, dictionary segmentation, and HMM segmentation of runs of
    single runes, core/cppjieba/PreFilter.hpp and core/cppjieba/MixSegment.hpp. */
module MixSegment {
  import opened Sequences
  import opened Unicode
  import opened Trie
  import Mp = MpSegment
  import Hmm = HmmSegment

  class PreFilter {
    const symbols: set<Rune>
    const sentence: seq<RuneStr>
    var cursor: nat

    ghost predicate Valid()
      reads this
    {
      cursor <= |sentence|
    }

    /** A sentence that does not decode has no runes. */
    constructor (symbols: set<Rune>, s: seq<Byte>)
      ensures Valid() && cursor == 0 && this.symbols == symbols
      ensures Decodable(s) && |s| < 0x1_0000_0000 ==> Tiles(sentence, s, 0, |s|)
      ensures !Decodable(s) ==> sentence == []
    {
      var ok, runes := DecodeRunesInString(s);
      this.symbols, sentence, cursor := symbols, runes, 0;
    }

    predicate HasNext()
      reads this
    {
      cursor != |sentence|
    }

    /** Next: a separator by itself, or all runes up to the next separator. */
    method Next() returns (begin: nat, end: nat)
      requires Valid()
      modifies this
      ensures Valid() && begin == old(cursor) && end == cursor && (old(HasNext()) ==> begin < end)
      ensures begin < end && sentence[begin].rune in symbols ==> end == begin + 1
      ensures begin < end && sentence[begin].rune !in symbols ==>
                && (forall k :: begin <= k < end ==> sentence[k].rune !in symbols)
                && (end < |sentence| ==> sentence[end].rune in symbols)
    {
      begin := cursor;
      while cursor != |sentence|
        invariant begin <= cursor <= |sentence|
        invariant forall k :: begin <= k < cursor ==> sentence[k].rune !in symbols
        decreases |sentence| - cursor
      {
        if sentence[cursor].rune in symbols {
          if begin == cursor { cursor := cursor + 1; }
          return begin, cursor;
        }
        cursor := cursor + 1;
      }
      end := |sentence|;
    }
  }

  class MixSegment {
    const dict: Trie
    const minWeight: real
    const userSingles: set<Rune>
    const model: Hmm.HmmModel
    const symbols: set<Rune>

    constructor (dict: Trie, minWeight: real, userSingles: set<Rune>, model: Hmm.HmmModel, symbols: set<Rune>)
      ensures this.dict == dict && this.minWeight == minWeight && this.userSingles == userSingles
      ensures this.model == model && this.symbols == symbols
    {
      this.dict, this.minWeight, this.userSingles, this.model, this.symbols := dict, minWeight, userSingles, model, symbols;
    }

    ghost predicate Valid()
      reads dict, dict.repr
    {
      dict.Valid() && Mp.Keyed(dict.words) && model.Valid()
    }

    /** A single rune that the user's dictionary does not know goes to the HMM. */
    predicate ForHmm(s: seq<RuneStr>, w: WordRange)
      requires w.left < |s|
    {
      w.left == w.right && s[w.left].rune !in userSingles
    }

    /** What becomes of the dictionary words from i to j: one word that stays, or all single runes in a
        row that go to the HMM, cut together. */
    ghost predicate MixPiece(s: seq<RuneStr>, words: seq<WordRange>, i: nat, j: nat, ws: seq<WordRange>)
      requires model.Valid() && forall k :: 0 <= k < |words| ==> words[k].left < |s|
    {
      && i < j <= |words|
      && if !ForHmm(s, words[i]) then j == i + 1 && ws == [words[i]]
         else && (forall k :: i <= k < j ==> ForHmm(s, words[k]))
              && (i == 0 || !ForHmm(s, words[i - 1])) && (j == |words| || !ForHmm(s, words[j]))
              && Hmm.IsCut(model, s, words[i].left, words[j - 1].left + 1, ws)
    }

    /** The result for the words before `at`, piece by piece. */
    ghost predicate MixedInto(s: seq<RuneStr>, words: seq<WordRange>, at: nat, res: seq<WordRange>,
                              pieces: seq<seq<WordRange>>, cuts: seq<nat>)
      requires model.Valid() && forall k :: 0 <= k < |words| ==> words[k].left < |s|
    {
      && |cuts| == |pieces| + 1 && cuts[0] == 0 && cuts[|pieces|] == at && res == Flatten(pieces)
      && forall k :: 0 <= k < |pieces| ==> MixPiece(s, words, cuts[k], cuts[k + 1], pieces[k])
    }

    lemma {:induction false} OnePieceMore(s: seq<RuneStr>, words: seq<WordRange>, at: nat, res: seq<WordRange>,
                       pieces: seq<seq<WordRange>>, cuts: seq<nat>, at': nat, ws: seq<WordRange>)
      requires model.Valid() && forall k :: 0 <= k < |words| ==> words[k].left < |s|
      requires MixedInto(s, words, at, res, pieces, cuts) && MixPiece(s, words, at, at', ws)
      ensures MixedInto(s, words, at', res + ws, pieces + [ws], cuts + [at'])
    {
      hide MixPiece, ForHmm;
      var pieces', cuts' := pieces + [ws], cuts + [at'];
      assert pieces'[..|pieces|] == pieces;
      forall k | 0 <= k < |pieces'| ensures MixPiece(s, words, cuts'[k], cuts'[k + 1], pieces'[k]) {
        if k < |pieces| { assert MixPiece(s, words, cuts[k], cuts[k + 1], pieces[k]); }
      }
    }

    /** Cut on a range: the words tile it. Without the HMM they are those of the dictionary, of maximum weight;
        with it the single runes among them are cut again, run by run. */
    method CutRange(s: seq<RuneStr>, begin: nat, end: nat, hmm: bool)
      returns (res: seq<WordRange>, ghost words: seq<WordRange>, ghost lens: seq<nat>,
               ghost pieces: seq<seq<WordRange>>, ghost cuts: seq<nat>)
      requires Valid() && begin <= end <= |s|
      ensures Tiled(res, begin, end)
      ensures words == Mp.RangesOf(begin, lens)
      ensures Mp.Segments(dict.words, Mp.MAX_WORD_LENGTH, Runes(s[begin..end]), 0, lens)
      ensures Mp.AboveMin(dict.words, minWeight, Mp.MAX_WORD_LENGTH, Runes(s[begin..end])) ==>
                exists x :: Mp.Best(dict.words, minWeight, Mp.MAX_WORD_LENGTH, Runes(s[begin..end]), 0, lens, x)
      ensures forall k :: 0 <= k < |words| ==> words[k].left < |s|
      ensures if hmm then MixedInto(s, words, |words|, res, pieces, cuts) else res == words
    {
      hide Trie.Valid, Mp.Keyed, Hmm.HmmModel.Valid, Mp.Segments, Mp.AboveMin, Mp.Best, MixedInto;
      var found;
      found, lens := Mp.Cut(dict, minWeight, s, begin, end, Mp.MAX_WORD_LENGTH);
      words, pieces, cuts := found, [], [];
      TiledBounds(words, begin, end);
      if !hmm {
        res := found;
      } else {
        res, pieces, cuts := Mix(s, found, begin, end);
      }
    }

    /** The loop over the dictionary words. */
    method Mix(s: seq<RuneStr>, words: seq<WordRange>, begin: nat, end: nat)
      returns (res: seq<WordRange>, ghost pieces: seq<seq<WordRange>>, ghost cuts: seq<nat>)
      requires model.Valid() && begin <= end <= |s| && Tiled(words, begin, end)
      ensures Tiled(res, begin, end)
      ensures forall k :: 0 <= k < |words| ==> words[k].left < |s|
      ensures MixedInto(s, words, |words|, res, pieces, cuts)
    {
      hide Hmm.HmmModel.Valid, Hmm.IsCut, MixPiece, MixedInto;
      res, pieces, cuts := [], [], [0];
      TiledBounds(words, begin, end);
      TiledAll(words, begin, end);
      NothingMixed(s, words);
      var i := 0;
      while i < |words|
        invariant 0 <= i <= |words| && Tiled(res, begin, EndOf(words, begin, i))
        invariant MixedInto(s, words, i, res, pieces, cuts)
        invariant 0 < i < |words| && ForHmm(s, words[i]) ==> !ForHmm(s, words[i - 1])
        decreases |words| - i
      {
        var ws, j := MixOne(s, words, begin, end, i);
        OnePieceMore(s, words, i, res, pieces, cuts, j, ws);
        TiledConcat(res, ws, begin, EndOf(words, begin, i), EndOf(words, begin, j));
        res, pieces, cuts := res + ws, pieces + [ws], cuts + [j];
        i := j;
      }
    }

    lemma {:induction false} NothingMixed(s: seq<RuneStr>, words: seq<WordRange>)
      requires model.Valid() && forall k :: 0 <= k < |words| ==> words[k].left < |s|
      ensures MixedInto(s, words, 0, [], [], [0])
    {
    }

    /** The single runes in a row from word i on. */
    method RunEnd(s: seq<RuneStr>, words: seq<WordRange>, i: nat) returns (j: nat)
      requires i < |words| && forall k :: 0 <= k < |words| ==> words[k].left < |s|
      requires ForHmm(s, words[i])
      ensures i < j <= |words| && (forall k :: i <= k < j ==> ForHmm(s, words[k]))
      ensures j < |words| ==> !ForHmm(s, words[j])
    {
      j := i;
      while j < |words| && ForHmm(s, words[j])
        invariant i <= j <= |words| && forall k :: i <= k < j ==> ForHmm(s, words[k])
      {
        j := j + 1;
      }
    }

    /** One turn of the loop: what is made of the words from i on, and up to which word. */
    method MixOne(s: seq<RuneStr>, words: seq<WordRange>, begin: nat, end: nat, i: nat)
      returns (ws: seq<WordRange>, j: nat)
      requires model.Valid() && begin <= end <= |s| && Tiled(words, begin, end) && i < |words|
      requires forall k :: 0 <= k < |words| ==> words[k].left < |s|
      requires 0 < i && ForHmm(s, words[i]) ==> !ForHmm(s, words[i - 1])
      ensures i < j <= |words| && MixPiece(s, words, i, j, ws)
      ensures Tiled(ws, EndOf(words, begin, i), EndOf(words, begin, j))
      ensures j < |words| && ForHmm(s, words[j]) ==> !ForHmm(s, words[j - 1])
    {
      hide Hmm.HmmModel.Valid, Hmm.IsCut, Tiled;
      TiledTake(words, begin, end, i);
      if !ForHmm(s, words[i]) {
        ws, j := [words[i]], i + 1;
        TiledOne(words[i]);
      } else {
        j := RunEnd(s, words, i);
        TiledTake(words, begin, end, j - 1);
        EndsGrow(words, begin, end, i, j - 1);
        ws := Hmm.Cut(model, s, words[i].left, words[j - 1].left + 1);
      }
    }
  }

  lemma {:induction false} TiledOne(w: WordRange)
    requires w.left <= w.right
    ensures Tiled([w], w.left, w.right + 1)
  {
    assert [w][..0] == [];
  }

  /** The runes from begin to end are what Next yields at begin: one separator, or the runes up to the
      next separator. */
  ghost predicate IsRange(symbols: set<Rune>, runes: seq<RuneStr>, begin: nat, end: nat) {
    && begin < end <= |runes|
    && if runes[begin].rune in symbols then end == begin + 1
       else (forall k :: begin <= k < end ==> runes[k].rune !in symbols)
            && (end < |runes| ==> runes[end].rune in symbols)
  }

  /** How a range was cut: its words, the lengths of the dictionary words in it, and what became of
      these in the HMM. */
  datatype Part = Part(res: seq<WordRange>, words: seq<WordRange>, lens: seq<nat>,
                       pieces: seq<seq<WordRange>>, cuts: seq<nat>)

  /** What CutRange promises of a range. */
  ghost predicate IsPart(seg: MixSegment, s: seq<RuneStr>, begin: nat, end: nat, hmm: bool, p: Part)
    requires seg.Valid()
    reads seg.dict, seg.dict.repr
  {
    && begin <= end <= |s| && Tiled(p.res, begin, end)
    && p.words == Mp.RangesOf(begin, p.lens)
    && Mp.Segments(seg.dict.words, Mp.MAX_WORD_LENGTH, Runes(s[begin..end]), 0, p.lens)
    && (Mp.AboveMin(seg.dict.words, seg.minWeight, Mp.MAX_WORD_LENGTH, Runes(s[begin..end])) ==>
          exists x :: Mp.Best(seg.dict.words, seg.minWeight, Mp.MAX_WORD_LENGTH, Runes(s[begin..end]), 0, p.lens, x))
    && (forall k :: 0 <= k < |p.words| ==> p.words[k].left < |s|)
    && if hmm then seg.MixedInto(s, p.words, |p.words|, p.res, p.pieces, p.cuts) else p.res == p.words
  }

  /** The words of all the parts. */
  function AllWords(parts: seq<Part>): seq<WordRange> {
    if parts == [] then [] else AllWords(parts[..|parts| - 1]) + parts[|parts| - 1].res
  }

  /** The runes before `at`, range by range. */
  ghost predicate CutInto(seg: MixSegment, s: seq<RuneStr>, at: nat, hmm: bool, bounds: seq<nat>, parts: seq<Part>)
    requires seg.Valid()
    reads seg.dict, seg.dict.repr
  {
    && |bounds| == |parts| + 1 && bounds[0] == 0 && bounds[|parts|] == at
    && forall k :: 0 <= k < |parts| ==>
         IsRange(seg.symbols, s, bounds[k], bounds[k + 1]) && IsPart(seg, s, bounds[k], bounds[k + 1], hmm, parts[k])
  }

  lemma {:induction false} OnePartMore(seg: MixSegment, s: seq<RuneStr>, at: nat, hmm: bool,
                                       bounds: seq<nat>, parts: seq<Part>, at': nat, p: Part)
    requires seg.Valid() && CutInto(seg, s, at, hmm, bounds, parts)
    requires IsRange(seg.symbols, s, at, at') && IsPart(seg, s, at, at', hmm, p)
    ensures CutInto(seg, s, at', hmm, bounds + [at'], parts + [p])
    ensures AllWords(parts + [p]) == AllWords(parts) + p.res
  {
    hide IsRange, IsPart, MixSegment.Valid;
    var bounds', parts' := bounds + [at'], parts + [p];
    assert parts'[..|parts|] == parts;
    forall k | 0 <= k < |parts'|
      ensures IsRange(seg.symbols, s, bounds'[k], bounds'[k + 1]) && IsPart(seg, s, bounds'[k], bounds'[k + 1], hmm, parts'[k])
    {
      if k < |parts| {
        assert IsRange(seg.symbols, s, bounds[k], bounds[k + 1]) && IsPart(seg, s, bounds[k], bounds[k + 1], hmm, parts[k]);
      }
    }
  }

  /** One turn of the loop of Cut: the next range and its words. */
  method CutNext(seg: MixSegment, pre: PreFilter, hmm: bool) returns (ws: seq<WordRange>, ghost p: Part)
    requires seg.Valid() && pre.Valid() && pre.HasNext() && pre.symbols == seg.symbols
    requires pre as object !in seg.dict.repr && pre as object != seg.dict
    modifies pre
    ensures pre.Valid() && old(pre.cursor) < pre.cursor && seg.Valid()
    ensures ws == p.res && Tiled(ws, old(pre.cursor), pre.cursor)
    ensures IsRange(seg.symbols, pre.sentence, old(pre.cursor), pre.cursor)
    ensures IsPart(seg, pre.sentence, old(pre.cursor), pre.cursor, hmm, p)
  {
    hide Trie.Valid, Mp.Keyed, Hmm.HmmModel.Valid, Mp.Segments, Mp.AboveMin, Mp.Best, MixSegment.MixedInto, Tiled;
    var begin, end := pre.Next();
    ghost var words, lens, pieces, cuts;
    ws, words, lens, pieces, cuts := seg.CutRange(pre.sentence, begin, end, hmm);
    p := Part(ws, words, lens, pieces, cuts);
  }

  /** Cut: a sentence that decodes is taken range by range as the prefilter yields them; in each the words
      are those of the dictionary of maximum weight, with the single runes cut again by the HMM if asked;
      and the result is the bytes of all these words in order. They are not empty and make up the
      sentence. A sentence that does not decode has no words. The offsets kept with the runes are
      uint32_t, so the sentence is shorter than that. */
  method Cut(seg: MixSegment, s: seq<Byte>, hmm: bool)
    returns (words: seq<seq<Byte>>, ghost runes: seq<RuneStr>, ghost bounds: seq<nat>, ghost parts: seq<Part>)
    requires seg.Valid() && |s| < 0x1_0000_0000
    ensures seg.Valid()
    ensures if Decodable(s) then Tiles(runes, s, 0, |s|) else runes == []
    ensures CutInto(seg, runes, |runes|, hmm, bounds, parts)
    ensures forall k :: 0 <= k < |AllWords(parts)| ==> InRange(s, runes, AllWords(parts)[k])
    ensures words == GetWords(s, runes, AllWords(parts))
    ensures !Decodable(s) ==> words == []
    ensures Decodable(s) ==> Flatten(words) == s && forall k :: 0 <= k < |words| ==> words[k] != []
  {
    hide IsRange, IsPart, CutInto, MixSegment.Valid, Tiled;
    var pre := new PreFilter(seg.symbols, s);
    var wrs := [];
    runes, bounds, parts := pre.sentence, [0], [];
    NothingCut(seg, runes, hmm);
    while pre.HasNext()
      invariant pre.Valid() && Tiled(wrs, 0, pre.cursor) && seg.Valid()
      invariant wrs == AllWords(parts) && CutInto(seg, runes, pre.cursor, hmm, bounds, parts)
      decreases |pre.sentence| - pre.cursor
    {
      ghost var mid := pre.cursor;
      var ws, p := CutNext(seg, pre, hmm);
      OnePartMore(seg, runes, mid, hmm, bounds, parts, pre.cursor, p);
      TiledConcat(wrs, ws, 0, mid, pre.cursor);
      wrs, bounds, parts := wrs + ws, bounds + [pre.cursor], parts + [p];
    }
    if Decodable(s) {
      WordsTileBytes(s, pre.sentence, wrs, |pre.sentence|);
    } else {
      TiledBounds(wrs, 0, 0);
    }
    words := GetWords(s, pre.sentence, wrs);
  }

  lemma {:induction false} NothingCut(seg: MixSegment, s: seq<RuneStr>, hmm: bool)
    requires seg.Valid()
    ensures CutInto(seg, s, 0, hmm, [0], []) && AllWords([]) == [] && Tiled([], 0, 0)
  {
  }

  /** Where the first i words end. */
  function EndOf(ws: seq<WordRange>, begin: nat, i: nat): nat
    requires i <= |ws|
  {
    if i == 0 then begin else ws[i - 1].right + 1
  }

  lemma TiledAll(ws: seq<WordRange>, begin: nat, end: nat)
    requires Tiled(ws, begin, end)
    ensures EndOf(ws, begin, |ws|) == end
  {
  }

  /** Word i begins where the words before it end. */
  lemma {:induction false} TiledTake(ws: seq<WordRange>, begin: nat, end: nat, i: nat)
    requires Tiled(ws, begin, end) && i < |ws|
    ensures begin <= ws[i].left == EndOf(ws, begin, i) <= ws[i].right < end
    decreases |ws|
  {
    TiledBounds(ws, begin, end);
    var n := |ws| - 1;
    if i < n {
      TiledTake(ws[..n], begin, ws[n].left, i);
    } else {
      TiledAll(ws[..n], begin, ws[n].left);
    }
  }

  lemma {:induction false} EndsGrow(ws: seq<WordRange>, begin: nat, end: nat, i: nat, j: nat)
    requires Tiled(ws, begin, end) && i <= j < |ws|
    ensures ws[i].left <= ws[j].left
    decreases j - i
  {
    if i < j {
      EndsGrow(ws, begin, end, i, j - 1);
      TiledTake(ws, begin, end, j - 1);
      TiledTake(ws, begin, end, j);
    }
  }
}
