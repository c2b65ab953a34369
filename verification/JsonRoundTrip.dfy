/** Reading undoes writing. */
module JsonRoundTrip {
  import opened Strbuf
  import opened Json
  import opened JsonGrammar
  import E = JsonEncode

  /** d has the text s at p. */
  ghost predicate Has(d: seq<byte>, p: nat, s: seq<byte>) {
    p + |s| <= |d| && d[p..p + |s|] == s
  }

  lemma HasSplit(d: seq<byte>, p: nat, s: seq<byte>, t: seq<byte>)
    requires Has(d, p, s + t)
    ensures Has(d, p, s) && Has(d, p + |s|, t)
  {
    assert d[p..p + |s|] == (s + t)[..|s|];
    assert d[p + |s|..p + |s| + |t|] == (s + t)[|s|..];
  }

  lemma HasAt(d: seq<byte>, p: nat, s: seq<byte>, i: nat)
    requires Has(d, p, s) && i < |s|
    ensures p + i < |d| && At(d, p + i) == s[i]
  {
    assert d[p..p + |s|][i] == d[p + i];
  }

  // ---- strings ----------------------------------------------------------------------------------

  lemma HexBack(n: nat)
    requires n < 16
    ensures HexValue(Hex(n)) == n
  {
  }

  /** One written character is read back. */
  lemma CharBack(d: seq<byte>, p: nat, c: byte, acc: seq<byte>)
    requires Has(d, p, EncodeChar(c))
    ensures ParseChars(d, p, acc) == ParseChars(d, p + |EncodeChar(c)|, acc + [c])
  {
    var s := EncodeChar(c);
    HasAt(d, p, s, 0);
    if |s| >= 2 { HasAt(d, p, s, 1); }
    if |s| == 6 {
      HasAt(d, p, s, 2);
      HasAt(d, p, s, 3);
      HasAt(d, p, s, 4);
      HasAt(d, p, s, 5);
      HexBack(c / 16);
      HexBack(c % 16);
      HexBack(0);
      CodeBack(d, p, c);
    }
  }

  lemma CodeBack(d: seq<byte>, p: nat, c: byte)
    requires p + 6 <= |d| && At(d, p + 2) == 48 && At(d, p + 3) == 48 && c < 128
    requires At(d, p + 4) == Hex(c / 16) && At(d, p + 5) == Hex(c % 16)
    ensures UnicodeEscape(d, p) == Escaped([c], 6)
  {
    HexBack(c / 16);
    HexBack(c % 16);
    assert Hex4(d, p + 2) == c;
  }

  lemma {:induction false} CharsCons(c: byte, s: seq<byte>)
    ensures EncodeChars([c] + s) == EncodeChar(c) + EncodeChars(s)
    decreases |s|
  {
    hide EncodeChar;
    if s == [] {
      assert [c] + s == [c];
      assert EncodeChars([c]) == EncodeChars([]) + EncodeChar(c);
    } else {
      var n := |s| - 1;
      CharsCons(c, s[..n]);
      assert ([c] + s)[..n + 1] == [c] + s[..n];
      E.Associate(EncodeChar(c), EncodeChars(s[..n]), EncodeChar(s[n]));
    }
  }

  /** The rest of a written string is read back. */
  lemma {:induction false} CharsBack(d: seq<byte>, p: nat, s: seq<byte>, acc: seq<byte>)
    requires Has(d, p, EncodeChars(s) + [QUOTE])
    ensures ParseChars(d, p, acc) == Chars(acc + s, p + |EncodeChars(s)| + 1)
    decreases |s|
  {
    hide EncodeChar, ParseChars, Has;
    if s == [] {
      assert [] + [QUOTE] == [QUOTE];
      QuoteEnds(d, p, acc);
      assert acc + [] == acc;
    } else {
      var c, t := s[0], s[1..];
      assert s == [c] + t;
      CharsCons(c, t);
      hide EncodeChars;
      E.Associate(EncodeChar(c), EncodeChars(t), [QUOTE]);
      HasSplit(d, p, EncodeChar(c), EncodeChars(t) + [QUOTE]);
      CharBack(d, p, c, acc);
      CharsBack(d, p + |EncodeChar(c)|, t, acc + [c]);
      assert (acc + [c]) + t == acc + s;
    }
  }

  lemma QuoteEnds(d: seq<byte>, p: nat, acc: seq<byte>)
    requires Has(d, p, [QUOTE])
    ensures ParseChars(d, p, acc) == Chars(acc, p + 1)
  {
    HasAt(d, p, [QUOTE], 0);
  }

  lemma QuoteBegins(d: seq<byte>, p: nat, s: seq<byte>, end: nat)
    requires Has(d, p, [QUOTE]) && ParseChars(d, p + 1, []) == Chars(s, end)
    ensures NextToken(d, p) == (StringT(s), end)
  {
    HasAt(d, p, [QUOTE], 0);
    hide ParseChars;
  }

  /** A written string is one token. */
  lemma StringBack(d: seq<byte>, p: nat, s: seq<byte>)
    requires Has(d, p, EncodeString(s))
    ensures NextToken(d, p) == (StringT(s), p + |EncodeString(s)|)
  {
    hide NextToken, ParseChars, Has, EncodeChars;
    E.Associate([QUOTE], EncodeChars(s), [QUOTE]);
    HasSplit(d, p, [QUOTE], EncodeChars(s) + [QUOTE]);
    CharsBack(d, p + 1, s, []);
    assert [] + s == s;
    QuoteBegins(d, p, s, p + |EncodeString(s)|);
  }

  // ---- values -----------------------------------------------------------------------------------

  lemma CharToken(d: seq<byte>, p: nat, c: byte)
    requires Has(d, p, [c])
    requires c == LBRACE || c == RBRACE || c == LBRACKET || c == RBRACKET || c == COMMA || c == COLON
    ensures NextToken(d, p) == (Punctuation(c), p + 1)
  {
    HasAt(d, p, [c], 0);
  }

  lemma WordToken(d: seq<byte>, p: nat, word: seq<byte>)
    requires Has(d, p, word) && (word == TRUE || word == FALSE || word == NULL)
    ensures NextToken(d, p) == (if word == TRUE then BooleanT(true) else if word == FALSE then BooleanT(false) else NullT, p + |word|)
  {
    HasAt(d, p, word, 0);
    if word != TRUE { assert d[p..p + |word|][0] != TRUE[0]; }
    if word == NULL { assert d[p] != TRUE[0] && d[p] != FALSE[0]; }
    assert Matches(d, p, word);
    if Matches(d, p, TRUE) { assert d[p..p + 4][0] == d[p]; }
    if Matches(d, p, FALSE) { assert d[p..p + 5][0] == d[p]; }
  }

  predicate BeginsValue(t: Token) {
    t.StringT? || t.BooleanT? || t == NullT || t == ObjBegin || t == ArrBegin
  }

  /** The value written at p is read back, and ends where it was written to. */
  ghost predicate Reads(d: seq<byte>, p: nat, v: Value, depth: nat)
    requires p <= |d|
  {
    var (t, q) := NextToken(d, p);
    BeginsValue(t) && ParseValue(d, t, q, depth) == Ok(v, p + |Encode(v)|)
  }

  /** The elements from i on, as they are written. */
  ghost function ItemsFrom(items: seq<Value>, i: nat): seq<byte>
    requires i < |items|
    decreases |items| - i
  {
    Encode(items[i]) + if i + 1 < |items| then [COMMA] + ItemsFrom(items, i + 1) else []
  }

  lemma {:induction false} ItemsSplit(items: seq<Value>, i: nat)
    requires i < |items|
    ensures EncodeItems(items) == EncodeItems(items[..i]) + (if i > 0 then [COMMA] else []) + ItemsFrom(items, i)
    decreases |items| - i
  {
    var n := |items|;
    hide Encode;
    E.ItemsSnoc(items, i);
    if i + 1 < n {
      ItemsSplit(items, i + 1);
      var a, b, c := EncodeItems(items[..i]) + (if i > 0 then [COMMA] else []), Encode(items[i]), [COMMA];
      E.Associate(a + b, c, ItemsFrom(items, i + 1));
      E.Associate(a, b, c + ItemsFrom(items, i + 1));
    } else {
      assert items[..n] == items;
      assert Encode(items[i]) + [] == Encode(items[i]);
    }
  }

  lemma DepthOfItem(items: seq<Value>, i: nat, depth: nat)
    requires i < |items| && depth + ItemsDepth(items) <= MAX_DEPTH
    ensures E.Fits(items[i], depth)
  {
    hide Depth, Encode;
    E.ItemsSnoc(items, i);
    E.ItemsDepthMono(items, i + 1);
  }

  /** One element read, and what follows it. */
  lemma ItemStep(d: seq<byte>, p: nat, x: Value, depth: nat, acc: seq<Value>)
    requires p <= |d| && Reads(d, p, x, depth)
    ensures var (t, q) := NextToken(d, p); var e := p + |Encode(x)|;
            e <= |d| && BeginsValue(t) && ParseItems(d, t, q, depth, acc) ==
              (if NextToken(d, e).0 == ArrEnd then Ok(Arr(acc + [x]), NextToken(d, e).1)
               else if NextToken(d, e).0 != CommaT then Fail
               else ParseItems(d, NextToken(d, NextToken(d, e).1).0, NextToken(d, NextToken(d, e).1).1, depth, acc + [x]))
  {
    hide NextToken, ParseValue, Encode;
  }

  lemma LuaItem(v: Value, i: nat)
    requires v.Arr? && IsLua(v) && i < |v.items|
    ensures IsLua(v.items[i])
  {
  }

  lemma LuaPair(v: Value, i: nat)
    requires v.Obj? && IsLua(v) && i < |v.pairs|
    ensures IsLua(v.pairs[i].val) && Distinct(v.pairs)
  {
  }

  /** The rest of an array is read back. */
  lemma {:induction false} ItemsBack(d: seq<byte>, p: nat, v: Value, i: nat, depth: nat)
    requires v.Arr? && IsLua(v) && i < |v.items| && depth + ItemsDepth(v.items) <= MAX_DEPTH
    requires Has(d, p, ItemsFrom(v.items, i) + [RBRACKET])
    ensures var (t, q) := NextToken(d, p);
            BeginsValue(t) && ParseItems(d, t, q, depth, v.items[..i]) == Ok(v, p + |ItemsFrom(v.items, i)| + 1)
    decreases v, 0, |v.items| - i
  {
    hide Encode, NextToken, ParseValue, ParseItems, E.Fits, IsLua, Depth, ItemsDepth, Has, Reads;
    var items, n := v.items, |v.items|;
    var x := items[i];
    var rest := if i + 1 < n then [COMMA] + ItemsFrom(items, i + 1) else [];
    E.Associate(Encode(x), rest, [RBRACKET]);
    HasSplit(d, p, Encode(x), rest + [RBRACKET]);
    DepthOfItem(items, i, depth);
    LuaItem(v, i);
    ValueBack(d, p, x, depth);
    ItemStep(d, p, x, depth, items[..i]);
    var e := p + |Encode(x)|;
    assert items[..i + 1] == items[..i] + [x];
    if i + 1 < n {
      E.Associate([COMMA], ItemsFrom(items, i + 1), [RBRACKET]);
      HasSplit(d, e, [COMMA], ItemsFrom(items, i + 1) + [RBRACKET]);
      CharToken(d, e, COMMA);
      ItemsBack(d, e + 1, v, i + 1, depth);
    } else {
      assert rest + [RBRACKET] == [RBRACKET];
      CharToken(d, e, RBRACKET);
      assert items[..n] == items;
    }
  }

  ghost function PairsFrom(pairs: seq<Pair>, i: nat): seq<byte>
    requires i < |pairs|
    decreases |pairs| - i
  {
    EncodePair(pairs[i]) + if i + 1 < |pairs| then [COMMA] + PairsFrom(pairs, i + 1) else []
  }

  lemma {:induction false} PairsSplit(pairs: seq<Pair>, i: nat)
    requires i < |pairs|
    ensures EncodePairs(pairs) == EncodePairs(pairs[..i]) + (if i > 0 then [COMMA] else []) + PairsFrom(pairs, i)
    decreases |pairs| - i
  {
    var n := |pairs|;
    hide EncodePair;
    E.PairsSnoc(pairs, i);
    if i + 1 < n {
      PairsSplit(pairs, i + 1);
      var a, b, c := EncodePairs(pairs[..i]) + (if i > 0 then [COMMA] else []), EncodePair(pairs[i]), [COMMA];
      E.Associate(a + b, c, PairsFrom(pairs, i + 1));
      E.Associate(a, b, c + PairsFrom(pairs, i + 1));
    } else {
      assert pairs[..n] == pairs;
      assert EncodePair(pairs[i]) + [] == EncodePair(pairs[i]);
    }
  }

  lemma DepthOfPair(pairs: seq<Pair>, i: nat, depth: nat)
    requires i < |pairs| && depth + PairsDepth(pairs) <= MAX_DEPTH
    ensures E.Fits(pairs[i].val, depth)
  {
    hide Depth, EncodePair;
    E.PairsSnoc(pairs, i);
    E.PairsDepthMono(pairs, i + 1);
  }

  /** A key that is not there yet is added at the end. */
  lemma {:induction false} NewKey(acc: seq<Pair>, key: seq<byte>, v: Value)
    requires forall i :: 0 <= i < |acc| ==> acc[i].key != key
    ensures SetKey(acc, key, v) == acc + [Pair(key, v)]
    decreases |acc|
  {
    if acc != [] {
      forall i | 0 <= i < |acc[1..]| ensures acc[1..][i].key != key {
        assert acc[1..][i] == acc[i + 1];
      }
      NewKey(acc[1..], key, v);
    }
  }

  lemma NextKey(pairs: seq<Pair>, i: nat)
    requires Distinct(pairs) && i < |pairs|
    ensures SetKey(pairs[..i], pairs[i].key, pairs[i].val) == pairs[..i + 1]
  {
    NewKey(pairs[..i], pairs[i].key, pairs[i].val);
    assert pairs[..i + 1] == pairs[..i] + [Pair(pairs[i].key, pairs[i].val)];
  }

  /** The pair written at p: key, colon, value. */
  ghost predicate ReadsPair(d: seq<byte>, p: nat, x: Pair, depth: nat)
    requires p <= |d|
  {
    var q := p + |EncodeString(x.key)|;
    && q + 1 <= |d| && NextToken(d, p) == (StringT(x.key), q) && NextToken(d, q) == (ColonT, q + 1)
    && Reads(d, q + 1, x.val, depth) && q + 1 + |Encode(x.val)| == p + |EncodePair(x)|
  }

  lemma {:induction false} PairBack(d: seq<byte>, p: nat, v: Value, i: nat, depth: nat)
    requires v.Obj? && IsLua(v) && i < |v.pairs| && depth + PairsDepth(v.pairs) <= MAX_DEPTH
    requires p <= |d| && Has(d, p, EncodePair(v.pairs[i]))
    ensures ReadsPair(d, p, v.pairs[i], depth)
    decreases v, 0, 0
  {
    var x := v.pairs[i];
    hide EncodePair, EncodeString, Encode, NextToken, IsLua, Depth, PairsDepth, Distinct, Has, Reads;
    LuaPair(v, i);
    DepthOfPair(v.pairs, i, depth);
    KeyBack(d, p, x);
    ValueBack(d, p + |EncodeString(x.key)| + 1, x.val, depth);
    assert ReadsPair(d, p, x, depth);
  }

  lemma {:induction false} KeyBack(d: seq<byte>, p: nat, x: Pair)
    requires Has(d, p, EncodePair(x))
    ensures var q := p + |EncodeString(x.key)|;
            && q + 1 <= |d| && NextToken(d, p) == (StringT(x.key), q) && NextToken(d, q) == (ColonT, q + 1)
            && Has(d, q + 1, Encode(x.val)) && q + 1 + |Encode(x.val)| == p + |EncodePair(x)|
  {
    hide EncodePair, EncodeString, Encode, NextToken, Has;
    PairText(d, p, x);
    StringBack(d, p, x.key);
    CharToken(d, p + |EncodeString(x.key)|, COLON);
    ColonIs();
  }

  lemma PairText(d: seq<byte>, p: nat, x: Pair)
    requires Has(d, p, EncodePair(x))
    ensures var q := p + |EncodeString(x.key)|;
            && Has(d, p, EncodeString(x.key)) && Has(d, q, [COLON]) && Has(d, q + 1, Encode(x.val))
            && q + 1 + |Encode(x.val)| == p + |EncodePair(x)| && q + 1 <= |d|
  {
    hide EncodeString, Encode;
    HasSplit(d, p, EncodeString(x.key) + [COLON], Encode(x.val));
    HasSplit(d, p, EncodeString(x.key), [COLON]);
  }

  lemma ColonIs()
    ensures Punctuation(COLON) == ColonT
  {
  }

  /** The rest of an object is read back. */
  lemma {:induction false} PairsBack(d: seq<byte>, p: nat, v: Value, i: nat, depth: nat)
    requires v.Obj? && IsLua(v) && i < |v.pairs| && depth + PairsDepth(v.pairs) <= MAX_DEPTH
    requires Has(d, p, PairsFrom(v.pairs, i) + [RBRACE])
    ensures var (t, q) := NextToken(d, p);
            t == StringT(v.pairs[i].key)
            && ParsePairs(d, v.pairs[i].key, q, depth, v.pairs[..i]) == Ok(v, p + |PairsFrom(v.pairs, i)| + 1)
    decreases v, 1, |v.pairs| - i
  {
    hide EncodePair, EncodeString, Encode, NextToken, ParseValue, ParsePairs, SetKey, IsLua, Depth, PairsDepth, Distinct, Has, Reads;
    var pairs, n := v.pairs, |v.pairs|;
    var x := pairs[i];
    var rest := if i + 1 < n then [COMMA] + PairsFrom(pairs, i + 1) else [];
    E.Associate(EncodePair(x), rest, [RBRACE]);
    HasSplit(d, p, EncodePair(x), rest + [RBRACE]);
    PairBack(d, p, v, i, depth);
    LuaPair(v, i);
    NextKey(pairs, i);
    PairStep(d, p + |EncodeString(x.key)|, x.key, x.val, depth, pairs[..i]);
    var e := p + |EncodePair(x)|;
    if i + 1 < n {
      E.Associate([COMMA], PairsFrom(pairs, i + 1), [RBRACE]);
      HasSplit(d, e, [COMMA], PairsFrom(pairs, i + 1) + [RBRACE]);
      CharToken(d, e, COMMA);
      PairsBack(d, e + 1, v, i + 1, depth);
    } else {
      assert rest + [RBRACE] == [RBRACE];
      CharToken(d, e, RBRACE);
      assert pairs[..n] == pairs;
    }
  }

  /** One pair read after its key, and what follows it. */
  lemma PairStep(d: seq<byte>, p: nat, key: seq<byte>, x: Value, depth: nat, acc: seq<Pair>)
    requires p + 1 <= |d| && NextToken(d, p) == (ColonT, p + 1) && Reads(d, p + 1, x, depth)
    ensures var e := p + 1 + |Encode(x)|;
            e <= |d| && ParsePairs(d, key, p, depth, acc) ==
              (if NextToken(d, e).0 == ObjEnd then Ok(Obj(SetKey(acc, key, x)), NextToken(d, e).1)
               else if NextToken(d, e).0 != CommaT then Fail
               else if !NextToken(d, NextToken(d, e).1).0.StringT? then Fail
               else ParsePairs(d, NextToken(d, NextToken(d, e).1).0.s, NextToken(d, NextToken(d, e).1).1, depth, SetKey(acc, key, x)))
  {
    hide NextToken, ParseValue, Encode, SetKey;
  }

  /** A written value is read back, wherever it stands and whatever follows. */
  lemma {:induction false} ValueBack(d: seq<byte>, p: nat, v: Value, depth: nat)
    requires IsLua(v) && E.Fits(v, depth) && Has(d, p, Encode(v))
    ensures Reads(d, p, v, depth)
    decreases v, 2, 0
  {
    match v {
      case Str(s) => StringBack(d, p, s);
      case Bool(b) => WordToken(d, p, if b then TRUE else FALSE);
      case Null => WordToken(d, p, NULL);
      case Arr(items) => ArrayBack(d, p, v, depth);
      case Obj(pairs) => ObjectBack(d, p, v, depth);
    }
  }

  lemma ArrayText(d: seq<byte>, p: nat, v: Value)
    requires v.Arr? && v.items != [] && Has(d, p, Encode(v))
    ensures p + 1 <= |d| && Has(d, p + 1, ItemsFrom(v.items, 0) + [RBRACKET]) && NextToken(d, p) == (ArrBegin, p + 1)
    ensures |Encode(v)| == |ItemsFrom(v.items, 0)| + 2
  {
    var items := v.items;
    assert Encode(v) == [LBRACKET] + EncodeItems(items) + [RBRACKET];
    hide Encode, NextToken, Has, ItemsFrom;
    ItemsSplit(items, 0);
    assert EncodeItems(items[..0]) == [];
    assert EncodeItems(items) == ItemsFrom(items, 0);
    E.Associate([LBRACKET], EncodeItems(items), [RBRACKET]);
    HasSplit(d, p, [LBRACKET], EncodeItems(items) + [RBRACKET]);
    CharToken(d, p, LBRACKET);
  }

  lemma TableFits(v: Value, depth: nat)
    requires IsLua(v) && E.Fits(v, depth)
    ensures v.Arr? ==> v.items != [] && depth + 1 + ItemsDepth(v.items) <= MAX_DEPTH
    ensures v.Obj? ==> depth + 1 + PairsDepth(v.pairs) <= MAX_DEPTH
  {
  }

  lemma {:induction false} ArrayBack(d: seq<byte>, p: nat, v: Value, depth: nat)
    requires v.Arr? && IsLua(v) && E.Fits(v, depth) && Has(d, p, Encode(v))
    ensures Reads(d, p, v, depth)
    decreases v, 1, 0
  {
    hide *;
    TableFits(v, depth);
    ArrayText(d, p, v);
    ItemsBack(d, p + 1, v, 0, depth + 1);
    assert v.items[..0] == [];
    ArrayStep(d, p, v, depth);
  }

  /** An array read from its first element on. */
  lemma ArrayStep(d: seq<byte>, p: nat, v: Value, depth: nat)
    requires p + 1 <= |d| && NextToken(d, p) == (ArrBegin, p + 1) && depth + 1 <= MAX_DEPTH
    requires var (t, q) := NextToken(d, p + 1); BeginsValue(t) && ParseItems(d, t, q, depth + 1, []) == Ok(v, p + |Encode(v)|)
    ensures Reads(d, p, v, depth)
  {
    hide NextToken, Encode;
    assert ParseArray(d, p + 1, depth) == Ok(v, p + |Encode(v)|);
    assert ParseValue(d, ArrBegin, p + 1, depth) == ParseArray(d, p + 1, depth);
  }

  lemma ObjectStep(d: seq<byte>, p: nat, v: Value, depth: nat)
    requires p + 1 <= |d| && NextToken(d, p) == (ObjBegin, p + 1) && depth + 1 <= MAX_DEPTH
    requires var (t, q) := NextToken(d, p + 1); t.StringT? && ParsePairs(d, t.s, q, depth + 1, []) == Ok(v, p + |Encode(v)|)
    ensures Reads(d, p, v, depth)
  {
    hide NextToken, Encode;
    assert ParseObject(d, p + 1, depth) == Ok(v, p + |Encode(v)|);
    assert ParseValue(d, ObjBegin, p + 1, depth) == ParseObject(d, p + 1, depth);
  }

  lemma EmptyObjectStep(d: seq<byte>, p: nat, depth: nat)
    requires p + 1 <= |d| && NextToken(d, p) == (ObjBegin, p + 1) && depth + 1 <= MAX_DEPTH
    requires NextToken(d, p + 1) == (ObjEnd, p + 2)
    ensures Reads(d, p, Obj([]), depth)
  {
    assert |Encode(Obj([]))| == 2;
    hide NextToken, Encode;
    assert ParseObject(d, p + 1, depth) == Ok(Obj([]), p + 2);
    assert ParseValue(d, ObjBegin, p + 1, depth) == ParseObject(d, p + 1, depth);
  }

  lemma ObjectText(d: seq<byte>, p: nat, v: Value)
    requires v.Obj? && Has(d, p, Encode(v))
    ensures p + 1 <= |d| && NextToken(d, p) == (ObjBegin, p + 1)
    ensures v.pairs == [] ==> NextToken(d, p + 1) == (ObjEnd, p + 2)
    ensures v.pairs != [] ==> Has(d, p + 1, PairsFrom(v.pairs, 0) + [RBRACE]) && |Encode(v)| == |PairsFrom(v.pairs, 0)| + 2
  {
    var pairs := v.pairs;
    assert Encode(v) == [LBRACE] + EncodePairs(pairs) + [RBRACE];
    hide Encode, EncodePair, NextToken, Has, PairsFrom;
    E.Associate([LBRACE], EncodePairs(pairs), [RBRACE]);
    HasSplit(d, p, [LBRACE], EncodePairs(pairs) + [RBRACE]);
    CharToken(d, p, LBRACE);
    if pairs == [] {
      HasSplit(d, p + 1, [], [RBRACE]);
      CharToken(d, p + 1, RBRACE);
    } else {
      PairsSplit(pairs, 0);
      assert EncodePairs(pairs[..0]) == [];
      assert EncodePairs(pairs) == PairsFrom(pairs, 0);
    }
  }

  lemma {:induction false} ObjectBack(d: seq<byte>, p: nat, v: Value, depth: nat)
    requires v.Obj? && IsLua(v) && E.Fits(v, depth) && Has(d, p, Encode(v))
    ensures Reads(d, p, v, depth)
    decreases v, 1, |v.pairs| + 1
  {
    hide *;
    TableFits(v, depth);
    ObjectText(d, p, v);
    if v.pairs == [] {
      EmptyObjectStep(d, p, depth);
    } else {
      PairsBack(d, p + 1, v, 0, depth + 1);
      assert v.pairs[..0] == [];
      ObjectStep(d, p, v, depth);
    }
  }

  // ---- the whole text -----------------------------------------------------------------------------

  lemma StringChars(s: seq<byte>)
    ensures var t := EncodeString(s); |t| >= 2 && t[0] != 0 && t[1] != 0
  {
    if s != [] {
      CharsCons(s[0], s[1..]);
      assert [s[0]] + s[1..] == s;
      assert EncodeChar(s[0])[0] != 0;
      hide EncodeChar, EncodeChars;
    }
  }

  lemma FirstItem(items: seq<Value>)
    requires items != []
    ensures EncodeItems(items) != [] && EncodeItems(items)[0] != 0
  {
    FirstChar(items[0]);
    hide Encode;
    ItemsSplit(items, 0);
    assert EncodeItems(items[..0]) == [];
  }

  lemma FirstPair(pairs: seq<Pair>)
    requires pairs != []
    ensures EncodePairs(pairs) != [] && EncodePairs(pairs)[0] != 0
  {
    StringChars(pairs[0].key);
    hide EncodeString, Encode;
    PairsSplit(pairs, 0);
    assert EncodePairs(pairs[..0]) == [];
  }

  /** The first two characters written are not the terminator, which would be taken for UTF-16. */
  lemma FirstChars(v: Value)
    requires IsLua(v)
    ensures |Encode(v)| >= 2 && Encode(v)[0] != 0 && Encode(v)[1] != 0
  {
    match v {
      case Str(s) => StringChars(s); hide EncodeString;
      case Bool(b) =>
      case Null =>
      case Arr(items) => FirstItem(items); hide EncodeItems;
      case Obj(pairs) =>
        if pairs != [] { FirstPair(pairs); }
        hide EncodePairs;
    }
  }

  lemma FirstChar(v: Value)
    ensures Encode(v) != [] && Encode(v)[0] != 0
  {
  }

  /** json_decode(json_encode(v)) is v, for every Lua value that is not nested too deeply. */
  lemma RoundTrip(v: Value)
    requires IsLua(v) && Depth(v) <= MAX_DEPTH
    ensures Decode(Encode(v)) == Ok(v, |Encode(v)|)
  {
    var d := Encode(v);
    FirstChars(v);
    assert Has(d, 0, d) by { assert d[0..0 + |d|] == d; }
    ValueBack(d, 0, v, 0);
    hide Encode, ParseValue;
  }
}
