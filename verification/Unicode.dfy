/** Runes of a UTF-8 string, core/cppjieba/Unicode.hpp. */
module Unicode {
  import opened Sequences

  type Byte = n: nat | n < 0x100
  type uint32 = n: nat | n < 0x1_0000_0000
  type Rune = nat

  datatype RuneStr = RuneStr(rune: Rune, offset: uint32, len: uint32, unicodeOffset: uint32, unicodeLength: uint32)

  datatype RuneStrLite = RuneStrLite(rune: Rune, len: uint32)

  function Truncate(n: nat): uint32 { n % 0x1_0000_0000 }

  /** The runes of a range. */
  function Runes(s: seq<RuneStr>): (r: seq<Rune>)
    ensures |r| == |s| && forall i :: 0 <= i < |s| ==> r[i] == s[i].rune
  {
    seq(|s|, i requires 0 <= i < |s| => s[i].rune)
  }

  /** rune << 6 | b & 0x3f */
  function Continue(rune: nat, b: Byte): nat { rune * 0x40 + b % 0x40 }

  /** DecodeRuneInString: the first rune and its length in bytes; length 0 for no rune. */
  function DecodeRune(s: seq<Byte>): RuneStrLite {
    if s == [] then RuneStrLite(0, 0)
    else if s[0] < 0x80 then RuneStrLite(s[0], 1)
    else if s[0] <= 0xdf && 1 < |s| then RuneStrLite(Continue(s[0] % 0x20, s[1]), 2)
    else if s[0] <= 0xef && 2 < |s| then RuneStrLite(Continue(Continue(s[0] % 0x10, s[1]), s[2]), 3)
    else if s[0] <= 0xf7 && 3 < |s| then
      RuneStrLite(Continue(Continue(Continue(s[0] % 0x08, s[1]), s[2]), s[3]), 4)
    else RuneStrLite(0, 0)
  }

  /** 10xxxxxx */
  function Tail(r: nat): Byte { 0x80 + r % 0x40 }

  /** The encoding of section 3 of RFC 3629. */
  function EncodeRune(r: Rune): (s: seq<Byte>)
    requires r < 0x11_0000
  {
    if r < 0x80 then [r]
    else if r < 0x800 then [0xc0 + r / 0x40, Tail(r)]
    else if r < 0x1_0000 then [0xe0 + r / 0x40 / 0x40, Tail(r / 0x40), Tail(r)]
    else [0xf0 + r / 0x40 / 0x40 / 0x40, Tail(r / 0x40 / 0x40), Tail(r / 0x40), Tail(r)]
  }

  lemma ContinueTail(r: nat)
    ensures Continue(r / 0x40, Tail(r)) == r
  {
  }

  lemma DecodeTwo(q: nat, b: Byte, rest: seq<Byte>)
    requires q < 0x20
    ensures DecodeRune([0xc0 + q, b] + rest) == RuneStrLite(Continue(q, b), 2)
  {
    hide Continue;
    assert (0xc0 + q) % 0x20 == q;
  }

  lemma DecodeThree(q: nat, b: Byte, c: Byte, rest: seq<Byte>)
    requires q < 0x10
    ensures DecodeRune([0xe0 + q, b, c] + rest) == RuneStrLite(Continue(Continue(q, b), c), 3)
  {
    hide Continue;
    assert (0xe0 + q) % 0x10 == q;
  }

  lemma DecodeFour(q: nat, b: Byte, c: Byte, d: Byte, rest: seq<Byte>)
    requires q < 0x08
    ensures DecodeRune([0xf0 + q, b, c, d] + rest) == RuneStrLite(Continue(Continue(Continue(q, b), c), d), 4)
  {
    hide Continue;
    assert (0xf0 + q) % 0x08 == q;
  }

  /** Decoding undoes the encoding, whatever follows. */
  lemma DecodeEncoded(r: Rune, rest: seq<Byte>)
    requires r < 0x11_0000
    ensures DecodeRune(EncodeRune(r) + rest) == RuneStrLite(r, |EncodeRune(r)|)
  {
    var q := r / 0x40;
    ContinueTail(r);
    ContinueTail(q);
    ContinueTail(q / 0x40);
    if r < 0x80 {
      assert ([r] + rest)[0] == r;
    } else if r < 0x800 {
      hide DecodeRune, Continue, Tail;
      DecodeTwo(q, Tail(r), rest);
    } else if r < 0x1_0000 {
      hide DecodeRune, Continue, Tail;
      DecodeThree(q / 0x40, Tail(q), Tail(r), rest);
    } else {
      hide DecodeRune, Continue, Tail;
      DecodeFour(q / 0x40 / 0x40, Tail(q / 0x40), Tail(q), Tail(r), rest);
    }
  }

  /** The runes lie one after the other in the bytes of s, from the first to the last. */
  ghost predicate Tiles(runes: seq<RuneStr>, s: seq<Byte>, from: nat, to: nat) {
    && (forall i :: 0 <= i < |runes| ==> RuneAt(runes, s, i))
    && (forall i :: 0 <= i < |runes| - 1 ==> Ends(runes[i]) == runes[i + 1].offset)
    && if runes == [] then from == to else runes[0].offset == from && Ends(runes[|runes| - 1]) == to
  }

  function Ends(r: RuneStr): nat { r.offset + r.len }

  /** Rune i is what the bytes at its offset decode to. */
  ghost predicate RuneAt(runes: seq<RuneStr>, s: seq<Byte>, i: nat)
    requires i < |runes|
  {
    var r := runes[i];
    && 1 <= r.len && Ends(r) <= |s|
    && DecodeRune(s[r.offset..]) == RuneStrLite(r.rune, r.len)
    && r.unicodeOffset == i && r.unicodeLength == 1
  }

  /** Every rune of the string decodes. */
  predicate Decodable(s: seq<Byte>)
    decreases |s|
  {
    if s == [] then true
    else var len := DecodeRune(s).len; len != 0 && Decodable(s[len..])
  }

  /** DecodeRunesInString: all runes with their places, or nothing at all. */
  method DecodeRunesInString(s: seq<Byte>) returns (ok: bool, runes: seq<RuneStr>)
    ensures ok <==> Decodable(s)
    ensures !ok ==> runes == []
    ensures ok && |s| < 0x1_0000_0000 ==> Tiles(runes, s, 0, |s|)
  {
    runes := [];
    var i, j := 0, 0;
    assert s[0..] == s;
    hide DecodeRune, Tiles, Continue;
    TilesNone(s);
    while i < |s|
      invariant 0 <= i <= |s| && 0 <= j <= i
      invariant Decodable(s) <==> Decodable(s[i..])
      invariant |s| < 0x1_0000_0000 ==> Tiles(runes, s, 0, i) && |runes| == j
    {
      hide Decodable;
      LengthFits(s[i..]);
      var rp := DecodeRune(s[i..]);
      DecodableStep(s, i);
      if rp.len == 0 { return false, []; }
      var x := RuneStr(rp.rune, Truncate(i), rp.len, Truncate(j), 1);
      if |s| < 0x1_0000_0000 { TilesSnoc(runes, s, i, x); }
      runes := runes + [x];
      i := i + rp.len;
      j := j + 1;
    }
    ok := true;
  }

  lemma TilesNone(s: seq<Byte>)
    ensures Tiles([], s, 0, 0)
  {
  }

  lemma DecodableStep(s: seq<Byte>, i: nat)
    requires i < |s|
    ensures var len := DecodeRune(s[i..]).len;
            i + len <= |s| && (Decodable(s[i..]) <==> len != 0 && Decodable(s[i + len..]))
  {
    var len := DecodeRune(s[i..]).len;
    assert s[i..][len..] == s[i + len..];
  }

  lemma TilesSnoc(runes: seq<RuneStr>, s: seq<Byte>, i: nat, x: RuneStr)
    requires Tiles(runes, s, 0, i) && i < |s| < 0x1_0000_0000 && |runes| <= i
    requires x == RuneStr(DecodeRune(s[i..]).rune, i, DecodeRune(s[i..]).len, |runes|, 1) && x.len > 0
    ensures Tiles(runes + [x], s, 0, i + x.len)
  {
    hide DecodeRune;
    var t := runes + [x];
    LengthFits(s[i..]);
    forall k | 0 <= k < |t| ensures RuneAt(t, s, k) {
      if k < |runes| { assert RuneAt(runes, s, k); }
    }
  }

  lemma LengthFits(s: seq<Byte>)
    ensures DecodeRune(s).len <= |s| && DecodeRune(s).len <= 4
  {
  }

  /** The bytes of the runes left to right. */
  function GetWord(s: seq<Byte>, left: RuneStr, right: RuneStr): seq<Byte>
    requires left.offset <= right.offset && Ends(right) <= |s|
  {
    s[left.offset..left.offset + (right.offset - left.offset + right.len)]
  }

  // ---- words as ranges of runes -----------------------------------------------------------------

  /** [left, right] */
  datatype WordRange = WordRange(left: nat, right: nat)

  /** The ranges are not empty and follow one another from `from` up to `to`. */
  ghost predicate Tiled(ws: seq<WordRange>, from: nat, to: nat)
    decreases |ws|
  {
    if ws == [] then from == to
    else
      var w := ws[|ws| - 1];
      w.left <= w.right && to == w.right + 1 && Tiled(ws[..|ws| - 1], from, w.left)
  }

  lemma TiledSnoc(ws: seq<WordRange>, from: nat, mid: nat, to: nat)
    requires Tiled(ws, from, mid) && mid < to
    ensures Tiled(ws + [WordRange(mid, to - 1)], from, to)
  {
    assert (ws + [WordRange(mid, to - 1)])[..|ws|] == ws;
  }

  lemma {:induction false} TiledConcat(ws: seq<WordRange>, vs: seq<WordRange>, from: nat, mid: nat, to: nat)
    requires Tiled(ws, from, mid) && Tiled(vs, mid, to)
    ensures Tiled(ws + vs, from, to)
    decreases |vs|
  {
    if vs == [] {
      assert ws + vs == ws;
    } else {
      var v := vs[|vs| - 1];
      TiledConcat(ws, vs[..|vs| - 1], from, mid, v.left);
      assert (ws + vs)[..|ws + vs| - 1] == ws + vs[..|vs| - 1];
    }
  }

  lemma {:induction false} TiledBounds(ws: seq<WordRange>, from: nat, to: nat)
    requires Tiled(ws, from, to)
    ensures from <= to && (ws != [] ==> from < to)
    ensures forall k :: 0 <= k < |ws| ==> from <= ws[k].left <= ws[k].right < to
    decreases |ws|
  {
    if ws != [] {
      TiledBounds(ws[..|ws| - 1], from, ws[|ws| - 1].left);
      assert forall k :: 0 <= k < |ws| - 1 ==> ws[k] == ws[..|ws| - 1][k];
    }
  }

  /** GetWordsFromWordRanges */
  function GetWords(s: seq<Byte>, runes: seq<RuneStr>, ws: seq<WordRange>): (words: seq<seq<Byte>>)
    requires forall k :: 0 <= k < |ws| ==> InRange(s, runes, ws[k])
    ensures |words| == |ws|
  {
    if ws == [] then []
    else
      var w := ws[|ws| - 1];
      assert InRange(s, runes, w);
      GetWords(s, runes, ws[..|ws| - 1]) + [GetWord(s, runes[w.left], runes[w.right])]
  }

  /** Word k is the bytes from the beginning of its first rune to the end of its last. */
  lemma {:induction false} WordAt(s: seq<Byte>, runes: seq<RuneStr>, ws: seq<WordRange>, k: nat)
    requires forall j :: 0 <= j < |ws| ==> InRange(s, runes, ws[j])
    requires k < |ws|
    ensures InRange(s, runes, ws[k]) && GetWords(s, runes, ws)[k] == s[runes[ws[k].left].offset..Ends(runes[ws[k].right])]
    decreases |ws|
  {
    if k < |ws| - 1 {
      WordAt(s, runes, ws[..|ws| - 1], k);
    }
  }

  predicate InRange(s: seq<Byte>, runes: seq<RuneStr>, w: WordRange) {
    w.left < |runes| && w.right < |runes| && runes[w.left].offset <= runes[w.right].offset && Ends(runes[w.right]) <= |s|
  }

  lemma {:induction false} OffsetsGrow(runes: seq<RuneStr>, s: seq<Byte>, i: nat, j: nat)
    requires Tiles(runes, s, 0, |s|) && i <= j < |runes|
    ensures runes[i].offset <= runes[j].offset && Ends(runes[j]) <= |s| && (i < j ==> Ends(runes[i]) <= runes[j].offset)
    decreases j - i
  {
    assert RuneAt(runes, s, j);
    if i < j {
      OffsetsGrow(runes, s, i, j - 1);
      assert Ends(runes[j - 1]) == runes[j].offset;
      assert RuneAt(runes, s, j - 1);
    }
  }

  /** Where rune i begins, or the end of the string. */
  function Start(runes: seq<RuneStr>, s: seq<Byte>, i: nat): nat { if i < |runes| then runes[i].offset else |s| }

  /** Words that tile the runes tile the bytes. */
  lemma {:induction false} WordsTileBytes(s: seq<Byte>, runes: seq<RuneStr>, ws: seq<WordRange>, to: nat)
    requires Tiles(runes, s, 0, |s|) && Tiled(ws, 0, to) && to <= |runes|
    ensures forall k :: 0 <= k < |ws| ==> InRange(s, runes, ws[k])
    ensures Start(runes, s, to) <= |s| && Flatten(GetWords(s, runes, ws)) == s[..Start(runes, s, to)]
    ensures forall k :: 0 <= k < |ws| ==> GetWords(s, runes, ws)[k] != []
    decreases |ws|
  {
    TiledBounds(ws, 0, to);
    hide Tiles, RuneAt;
    if ws == [] {
      assert s[..0] == [];
      StartOfAll(runes, s);
    } else {
      var w, ts := ws[|ws| - 1], ws[..|ws| - 1];
      WordsTileBytes(s, runes, ts, w.left);
      var left, right := runes[w.left], runes[w.right];
      WordBytes(s, runes, w, to);
      assert forall k :: 0 <= k < |ts| ==> ws[k] == ts[k];
      assert s[..left.offset] + s[left.offset..Ends(right)] == s[..Ends(right)];
      var words := GetWords(s, runes, ws);
      assert words[..|words| - 1] == GetWords(s, runes, ts);
    }
  }

  lemma StartOfAll(runes: seq<RuneStr>, s: seq<Byte>)
    requires Tiles(runes, s, 0, |s|)
    ensures Start(runes, s, 0) == 0
  {
  }

  lemma WordBytes(s: seq<Byte>, runes: seq<RuneStr>, w: WordRange, to: nat)
    requires Tiles(runes, s, 0, |s|) && w.left <= w.right && to == w.right + 1 <= |runes|
    ensures InRange(s, runes, w) && Ends(runes[w.right]) == Start(runes, s, to) && runes[w.left].offset < Ends(runes[w.right])
  {
    OffsetsGrow(runes, s, w.left, w.right);
    assert RuneAt(runes, s, w.right);
  }
}
