/** The parser accepts exactly the texts of JsonText, and reads each as what it spells. */
module JsonReading {
  import opened Strbuf
  import opened Json
  import opened JsonGrammar
  import opened JsonUnicode
  import opened JsonRoundTrip
  import opened JsonText
  import E = JsonEncode
  import Unicode

  lemma HasJoin(d: seq<byte>, p: nat, s: seq<byte>, t: seq<byte>)
    requires Has(d, p, s) && Has(d, p + |s|, t)
    ensures Has(d, p, s + t)
  {
    assert d[p..p + |s| + |t|] == d[p..p + |s|] + d[p + |s|..p + |s| + |t|];
  }

  lemma HasSlice(d: seq<byte>, p: nat, q: nat)
    requires p <= q <= |d|
    ensures Has(d, p, d[p..q])
  {
  }

  // ---- strings ----------------------------------------------------------------------------------

  lemma DigitIs(c: byte, v: nat)
    ensures IsDigit(c, v) <==> v < 16 && HexValue(c) == v
  {
    if v < 16 {
      assert v == 0 || v == 1 || v == 2 || v == 3 || v == 4 || v == 5 || v == 6 || v == 7
          || v == 8 || v == 9 || v == 10 || v == 11 || v == 12 || v == 13 || v == 14 || v == 15;
    }
  }

  lemma Digits(unit: nat, a: nat, b: nat, c: nat, e: nat)
    requires a < 16 && b < 16 && c < 16 && e < 16
    ensures unit == ((a * 16 + b) * 16 + c) * 16 + e <==>
            unit / 0x1000 == a && unit / 0x100 % 16 == b && unit / 0x10 % 16 == c && unit % 16 == e
  {
  }

  /** An escape as the parser sees it is an escape as it is spelled. */
  lemma UnitIs(d: seq<byte>, p: nat, unit: nat)
    requires p + 6 <= |d|
    ensures UnitAt(d, p, unit) <==> IsUnit(d[p..p + 6], unit)
  {
    var t := d[p..p + 6];
    hide HexValue, IsDigit;
    DigitIs(t[2], unit / 0x1000);
    DigitIs(t[3], unit / 0x100 % 16);
    DigitIs(t[4], unit / 0x10 % 16);
    DigitIs(t[5], unit % 16);
    if UnitAt(d, p, unit) {
      HexAre(d, p + 2);
      Digits(unit, HexValue(d[p + 2]), HexValue(d[p + 3]), HexValue(d[p + 4]), HexValue(d[p + 5]));
    }
    if IsUnit(t, unit) {
      Digits(unit, HexValue(d[p + 2]), HexValue(d[p + 3]), HexValue(d[p + 4]), HexValue(d[p + 5]));
    }
  }

  lemma HexAre(d: seq<byte>, p: nat)
    requires p + 4 <= |d| && Hex4(d, p) >= 0
    ensures 0 <= HexValue(d[p]) < 16 && 0 <= HexValue(d[p + 1]) < 16 && 0 <= HexValue(d[p + 2]) < 16 && 0 <= HexValue(d[p + 3]) < 16
    ensures Hex4(d, p) == ((HexValue(d[p]) * 16 + HexValue(d[p + 1])) * 16 + HexValue(d[p + 2])) * 16 + HexValue(d[p + 3])
  {
  }

  /** Escapes spelled at p. */
  lemma CodedIs(d: seq<byte>, p: nat, cp: nat, text: seq<byte>)
    requires IsScalar(cp) && |text| == 6 * |Utf16(cp)| && Has(d, p, text)
    ensures PieceOk(Coded(cp, text)) <==> Spelled(d, p, Utf16(cp))
  {
    hide UnitAt, IsUnit, Utf16;
    var units := Utf16(cp);
    forall i | 0 <= i < |units| ensures IsUnit(text[6 * i..6 * i + 6], units[i]) <==> UnitAt(d, p + 6 * i, units[i]) {
      UnitIs(d, p + 6 * i, units[i]);
      assert d[p..p + |text|][6 * i..6 * i + 6] == d[p + 6 * i..p + 6 * i + 6];
    }
  }

  lemma CodedRead(d: seq<byte>, p: nat, cp: nat, text: seq<byte>, acc: seq<byte>)
    requires PieceOk(Coded(cp, text)) && Has(d, p, text)
    ensures ParseChars(d, p, acc) == ParseChars(d, p + |text|, acc + Unicode.EncodeRune(cp))
  {
    CodedIs(d, p, cp, text);
    assert UnitAt(d, p + 6 * 0, Utf16(cp)[0]);
    hide Utf16, UnitAt, UnicodeEscape, Unicode.EncodeRune, Spelled, PieceOk;
    EscapeBegins(d, p, Utf16(cp)[0]);
    ReadsSpelled(d, p, cp);
  }

  lemma EscapeBegins(d: seq<byte>, p: nat, unit: nat)
    requires UnitAt(d, p, unit)
    ensures p + 6 <= |d| && At(d, p) == BACKSLASH && Unescape(At(d, p + 1)) == 117
  {
  }

  lemma ShortIs(letter: byte, c: byte)
    requires c != 0 && c != 117
    ensures IsShort(letter, c) <==> Unescape(letter) == c
  {
  }

  /** One piece is read. */
  lemma PieceRead(d: seq<byte>, p: nat, x: Piece, acc: seq<byte>)
    requires PieceOk(x) && Has(d, p, PieceText(x))
    ensures p + |PieceText(x)| <= |d| && ParseChars(d, p, acc) == ParseChars(d, p + |PieceText(x)|, acc + PieceBytes(x))
  {
    match x
    case Plain(c) => HasAt(d, p, [c], 0);
    case Short(letter, c) =>
      HasAt(d, p, PieceText(x), 0);
      HasAt(d, p, PieceText(x), 1);
      ShortIs(letter, c);
    case Coded(cp, text) => CodedRead(d, p, cp, text, acc);
  }

  lemma {:induction false} PiecesRead(d: seq<byte>, p: nat, xs: seq<Piece>, acc: seq<byte>)
    requires PiecesOk(xs) && Has(d, p, PiecesText(xs) + [QUOTE])
    ensures ParseChars(d, p, acc) == Chars(acc + PiecesBytes(xs), p + |PiecesText(xs)| + 1)
    decreases |xs|
  {
    hide PieceOk, PieceText, PieceBytes, ParseChars, Has;
    if xs == [] {
      assert [] + [QUOTE] == [QUOTE];
      QuoteEnds(d, p, acc);
      assert acc + [] == acc;
    } else {
      var x, rest := xs[0], xs[1..];
      E.Associate(PieceText(x), PiecesText(rest), [QUOTE]);
      HasSplit(d, p, PieceText(x), PiecesText(rest) + [QUOTE]);
      PieceRead(d, p, x, acc);
      PiecesRead(d, p + |PieceText(x)|, rest, acc + PieceBytes(x));
      E.Associate(acc, PieceBytes(x), PiecesBytes(rest));
    }
  }

  /** A string is one token, however it is spelled. */
  lemma StringRead(d: seq<byte>, p: nat, xs: seq<Piece>)
    requires PiecesOk(xs) && Has(d, p, Quoted(xs))
    ensures NextToken(d, p) == (StringT(PiecesBytes(xs)), p + |Quoted(xs)|)
  {
    hide NextToken, ParseChars, Has, PiecesText, PiecesOk, PiecesBytes;
    E.Associate([QUOTE], PiecesText(xs), [QUOTE]);
    HasSplit(d, p, [QUOTE], PiecesText(xs) + [QUOTE]);
    PiecesRead(d, p + 1, xs, []);
    assert [] + PiecesBytes(xs) == PiecesBytes(xs);
    QuoteBegins(d, p, PiecesBytes(xs), p + |Quoted(xs)|);
  }

  // ---- white space ------------------------------------------------------------------------------

  lemma BlankSkipped(d: seq<byte>, p: nat, s: seq<byte>)
    requires Has(d, p, s) && Blank(s)
    ensures p + |s| <= |d| && NextToken(d, p) == NextToken(d, p + |s|)
  {
    forall k | p <= k < p + |s| ensures IsSpace(d[k]) {
      HasAt(d, p, s, k - p);
    }
    SpacesSkipped(d, p, p + |s|);
  }

  // ---- what is spelled is read ------------------------------------------------------------------

  /** From p on, up to e, the parser finds the value v. */
  ghost predicate Finds(d: seq<byte>, p: nat, e: nat, v: Value, depth: nat)
    requires p <= |d|
  {
    var (t, q) := NextToken(d, p);
    e <= |d| && BeginsValue(t) && ParseValue(d, t, q, depth) == Ok(v, e)
  }

  lemma {:induction false} TreeRead(d: seq<byte>, p: nat, t: Tree, n: nat)
    requires n <= MAX_DEPTH && Proper(t, n) && Has(d, p, Spell(t))
    ensures Finds(d, p, p + |Spell(t)|, Meaning(t), MAX_DEPTH - n)
    decreases t, 2
  {
    hide NextToken, ParseValue, Has, Finds, Blank, SpellItems, SpellMembers, ItemsMeaning, MembersMeaning,
         ProperItem, ProperMember;
    match t {
      case Text(xs) => StringLeaf(d, p, xs, MAX_DEPTH - n);
      case True => WordLeaf(d, p, TRUE, t, MAX_DEPTH - n);
      case False => WordLeaf(d, p, FALSE, t, MAX_DEPTH - n);
      case Nil => WordLeaf(d, p, NULL, t, MAX_DEPTH - n);
      case EmptyArray(gap) => EmptyRead(d, p, gap, LBRACKET, RBRACKET); EmptyFound(d, p, p + |Spell(t)|, t, MAX_DEPTH - n);
      case EmptyObject(gap) => EmptyRead(d, p, gap, LBRACE, RBRACE); EmptyFound(d, p, p + |Spell(t)|, t, MAX_DEPTH - n);
      case Array(items) => ArrayRead(d, p, t, n);
      case Object(members) => ObjectRead(d, p, t, n);
    }
  }

  lemma StringLeaf(d: seq<byte>, p: nat, xs: seq<Piece>, depth: nat)
    requires PiecesOk(xs) && Has(d, p, Quoted(xs))
    ensures Finds(d, p, p + |Quoted(xs)|, Str(PiecesBytes(xs)), depth)
  {
    hide NextToken, Quoted, PiecesOk, PiecesBytes;
    StringRead(d, p, xs);
  }

  lemma WordLeaf(d: seq<byte>, p: nat, word: seq<byte>, t: Tree, depth: nat)
    requires Has(d, p, word) && ((t == True && word == TRUE) || (t == False && word == FALSE) || (t == Nil && word == NULL))
    ensures word == Spell(t) && Finds(d, p, p + |word|, Meaning(t), depth)
  {
    hide NextToken;
    WordToken(d, p, word);
    assert TRUE[0] != FALSE[0] && TRUE[0] != NULL[0] && FALSE[0] != NULL[0];
  }

  /** Brackets around white space. */
  lemma EmptyRead(d: seq<byte>, p: nat, gap: seq<byte>, open: byte, close: byte)
    requires Has(d, p, [open] + gap + [close]) && Blank(gap)
    requires (open == LBRACKET && close == RBRACKET) || (open == LBRACE && close == RBRACE)
    ensures p + 1 <= |d| && NextToken(d, p) == (Punctuation(open), p + 1)
    ensures NextToken(d, p + 1) == (Punctuation(close), p + |gap| + 2)
  {
    hide NextToken, Has, Blank;
    HasSplit(d, p, [open] + gap, [close]);
    HasSplit(d, p, [open], gap);
    CharToken(d, p, open);
    BlankSkipped(d, p + 1, gap);
    CharToken(d, p + 1 + |gap|, close);
  }

  lemma EmptyFound(d: seq<byte>, p: nat, e: nat, t: Tree, depth: nat)
    requires t.EmptyArray? || t.EmptyObject?
    requires p + 1 <= |d| && depth < MAX_DEPTH && e <= |d|
    requires NextToken(d, p) == (if t.EmptyArray? then ArrBegin else ObjBegin, p + 1)
    requires NextToken(d, p + 1) == (if t.EmptyArray? then ArrEnd else ObjEnd, e)
    ensures Finds(d, p, e, Meaning(t), depth)
  {
    hide NextToken;
    if t.EmptyArray? {
      assert ParseArray(d, p + 1, depth) == Ok(Obj([]), e);
    } else {
      assert ParseObject(d, p + 1, depth) == Ok(Obj([]), e);
    }
  }

  /** A value between white space. */
  lemma {:induction false} ItemRead(d: seq<byte>, p: nat, x: Item, n: nat)
    requires n <= MAX_DEPTH && ProperItem(x, n) && Has(d, p, SpellItem(x))
    ensures var e := p + |x.before| + |Spell(x.tree)|;
            p + |SpellItem(x)| <= |d| && Finds(d, p, e, Meaning(x.tree), MAX_DEPTH - n)
            && NextToken(d, e) == NextToken(d, p + |SpellItem(x)|)
    decreases x, 3
  {
    hide NextToken, Has, Blank, Spell, Meaning, Proper, ParseValue;
    HasSplit(d, p, x.before + Spell(x.tree), x.after);
    HasSplit(d, p, x.before, Spell(x.tree));
    BlankSkipped(d, p, x.before);
    TreeRead(d, p + |x.before|, x.tree, n);
    BlankSkipped(d, p + |x.before| + |Spell(x.tree)|, x.after);
  }

  /** One element found, and what follows it. */
  lemma ItemsStep(d: seq<byte>, p: nat, e: nat, v: Value, depth: nat, acc: seq<Value>)
    requires p <= |d| && Finds(d, p, e, v, depth)
    ensures var (t, q) := NextToken(d, p);
            BeginsValue(t) && e <= |d| && ParseItems(d, t, q, depth, acc) ==
              (if NextToken(d, e).0 == ArrEnd then Ok(Arr(acc + [v]), NextToken(d, e).1)
               else if NextToken(d, e).0 != CommaT then Fail
               else ParseItems(d, NextToken(d, NextToken(d, e).1).0, NextToken(d, NextToken(d, e).1).1, depth, acc + [v]))
  {
    hide NextToken, ParseValue;
  }

  lemma {:induction false} ItemsRead(d: seq<byte>, p: nat, items: seq<Item>, n: nat, acc: seq<Value>)
    requires n <= MAX_DEPTH && items != [] && forall i :: 0 <= i < |items| ==> ProperItem(items[i], n)
    requires Has(d, p, SpellItems(items) + [RBRACKET])
    ensures var (t, q) := NextToken(d, p);
            BeginsValue(t) && ParseItems(d, t, q, MAX_DEPTH - n, acc) ==
              Ok(Arr(acc + ItemsMeaning(items)), p + |SpellItems(items)| + 1)
    decreases items, 4
  {
    hide NextToken, ParseValue, ParseItems, Has, Spell, SpellItem, Meaning, ProperItem, Finds, BeginsValue;
    var x, rest := items[0], items[1..];
    var more := if |items| > 1 then [COMMA] + SpellItems(rest) else [];
    E.Associate(SpellItem(x), more, [RBRACKET]);
    HasSplit(d, p, SpellItem(x), more + [RBRACKET]);
    ItemRead(d, p, x, n);
    ItemsStep(d, p, p + |x.before| + |Spell(x.tree)|, Meaning(x.tree), MAX_DEPTH - n, acc);
    var e := p + |SpellItem(x)|;
    E.Associate(acc, [Meaning(x.tree)], ItemsMeaning(rest));
    if |items| > 1 {
      E.Associate([COMMA], SpellItems(rest), [RBRACKET]);
      HasSplit(d, e, [COMMA], SpellItems(rest) + [RBRACKET]);
      CharToken(d, e, COMMA);
      ItemsRead(d, e + 1, rest, n, acc + [Meaning(x.tree)]);
    } else {
      assert more + [RBRACKET] == [RBRACKET];
      CharToken(d, e, RBRACKET);
      assert acc + [Meaning(x.tree)] + [] == acc + [Meaning(x.tree)];
    }
  }

  lemma {:induction false} ArrayRead(d: seq<byte>, p: nat, t: Tree, n: nat)
    requires t.Array? && n <= MAX_DEPTH && Proper(t, n) && Has(d, p, Spell(t))
    ensures Finds(d, p, p + |Spell(t)|, Meaning(t), MAX_DEPTH - n)
    decreases t, 1
  {
    hide NextToken, Has, ProperItem, ParseItems, SpellItems, ItemsMeaning;
    E.Associate([LBRACKET], SpellItems(t.items), [RBRACKET]);
    HasSplit(d, p, [LBRACKET], SpellItems(t.items) + [RBRACKET]);
    CharToken(d, p, LBRACKET);
    ItemsRead(d, p + 1, t.items, n - 1, []);
    assert [] + ItemsMeaning(t.items) == ItemsMeaning(t.items);
    ArrayFound(d, p, Arr(ItemsMeaning(t.items)), p + |Spell(t)|, MAX_DEPTH - n);
  }

  /** An array found from its first element on. */
  lemma ArrayFound(d: seq<byte>, p: nat, v: Value, e: nat, depth: nat)
    requires p + 1 <= |d| && NextToken(d, p) == (ArrBegin, p + 1) && depth < MAX_DEPTH
    requires var (t, q) := NextToken(d, p + 1); BeginsValue(t) && ParseItems(d, t, q, depth + 1, []) == Ok(v, e)
    ensures Finds(d, p, e, v, depth)
  {
    hide NextToken, ParseItems;
    assert ParseArray(d, p + 1, depth) == Ok(v, e);
    assert ParseValue(d, ArrBegin, p + 1, depth) == ParseArray(d, p + 1, depth);
  }

  lemma ObjectFound(d: seq<byte>, p: nat, v: Value, e: nat, depth: nat)
    requires p + 1 <= |d| && NextToken(d, p) == (ObjBegin, p + 1) && depth < MAX_DEPTH
    requires var (t, q) := NextToken(d, p + 1); t.StringT? && ParsePairs(d, t.s, q, depth + 1, []) == Ok(v, e)
    ensures Finds(d, p, e, v, depth)
  {
    hide NextToken, ParsePairs;
    assert ParseObject(d, p + 1, depth) == Ok(v, e);
    assert ParseValue(d, ObjBegin, p + 1, depth) == ParseObject(d, p + 1, depth);
  }

  /** A key, a colon and a value, each between white space: the key is a token, then the colon, then the value. */
  ghost predicate MemberFound(d: seq<byte>, p: nat, x: Member, e: nat, depth: nat)
    requires p <= |d|
  {
    var (k, q) := NextToken(d, p);
    var (c, q1) := NextToken(d, q);
    k == StringT(PiecesBytes(x.key)) && c == ColonT && Finds(d, q1, e, Meaning(x.item.tree), depth)
  }

  lemma {:induction false} MemberRead(d: seq<byte>, p: nat, x: Member, n: nat) returns (e: nat)
    requires n <= MAX_DEPTH && ProperMember(x, n) && Has(d, p, SpellMember(x))
    ensures e <= p + |SpellMember(x)| <= |d| && MemberFound(d, p, x, e, MAX_DEPTH - n)
    ensures NextToken(d, e) == NextToken(d, p + |SpellMember(x)|)
    decreases x, 4
  {
    hide NextToken, Has, Blank, Quoted, PiecesOk, PiecesBytes, SpellItem, ProperItem, Finds;
    var k, a := |Quoted(x.key)|, p + |x.before|;
    HasSplit(d, p, x.before + Quoted(x.key) + x.after + [COLON], SpellItem(x.item));
    HasSplit(d, p, x.before + Quoted(x.key) + x.after, [COLON]);
    HasSplit(d, p, x.before + Quoted(x.key), x.after);
    HasSplit(d, p, x.before, Quoted(x.key));
    BlankSkipped(d, p, x.before);
    StringRead(d, a, x.key);
    BlankSkipped(d, a + k, x.after);
    CharToken(d, a + k + |x.after|, COLON);
    ItemRead(d, a + k + |x.after| + 1, x.item, n);
    e := a + k + |x.after| + 1 + |x.item.before| + |Spell(x.item.tree)|;
    ItemFits(x.item);
  }

  lemma ItemFits(x: Item)
    ensures |x.before| + |Spell(x.tree)| <= |SpellItem(x)|
  {
  }

  /** One member found, and what follows it. */
  lemma MembersStep(d: seq<byte>, p: nat, x: Member, e: nat, depth: nat, acc: seq<Pair>)
    requires p <= |d| && MemberFound(d, p, x, e, depth)
    ensures var (k, q) := NextToken(d, p); var acc' := SetKey(acc, PiecesBytes(x.key), Meaning(x.item.tree));
            k.StringT? && e <= |d| && ParsePairs(d, k.s, q, depth, acc) ==
              (if NextToken(d, e).0 == ObjEnd then Ok(Obj(acc'), NextToken(d, e).1)
               else if NextToken(d, e).0 != CommaT then Fail
               else if !NextToken(d, NextToken(d, e).1).0.StringT? then Fail
               else ParsePairs(d, NextToken(d, NextToken(d, e).1).0.s, NextToken(d, NextToken(d, e).1).1, depth, acc'))
  {
    hide NextToken, ParseValue, SetKey, PiecesBytes, Meaning;
  }

  lemma {:induction false} MembersRead(d: seq<byte>, p: nat, members: seq<Member>, n: nat, acc: seq<Pair>)
    requires n <= MAX_DEPTH && members != [] && forall i :: 0 <= i < |members| ==> ProperMember(members[i], n)
    requires Has(d, p, SpellMembers(members) + [RBRACE])
    ensures var (t, q) := NextToken(d, p);
            t.StringT? && ParsePairs(d, t.s, q, MAX_DEPTH - n, acc) ==
              Ok(Obj(MembersMeaning(members, acc)), p + |SpellMembers(members)| + 1)
    decreases members, 5
  {
    hide NextToken, ParsePairs, Has, SpellMember, Meaning, ProperMember, MemberFound, PiecesBytes, SetKey;
    var x, rest := members[0], members[1..];
    var more := if |members| > 1 then [COMMA] + SpellMembers(rest) else [];
    E.Associate(SpellMember(x), more, [RBRACE]);
    HasSplit(d, p, SpellMember(x), more + [RBRACE]);
    var f := MemberRead(d, p, x, n);
    MembersStep(d, p, x, f, MAX_DEPTH - n, acc);
    var e := p + |SpellMember(x)|;
    var acc' := SetKey(acc, PiecesBytes(x.key), Meaning(x.item.tree));
    if |members| > 1 {
      E.Associate([COMMA], SpellMembers(rest), [RBRACE]);
      HasSplit(d, e, [COMMA], SpellMembers(rest) + [RBRACE]);
      CharToken(d, e, COMMA);
      MembersRead(d, e + 1, rest, n, acc');
    } else {
      assert more + [RBRACE] == [RBRACE];
      CharToken(d, e, RBRACE);
      assert MembersMeaning(rest, acc') == acc';
    }
  }

  lemma {:induction false} ObjectRead(d: seq<byte>, p: nat, t: Tree, n: nat)
    requires t.Object? && n <= MAX_DEPTH && Proper(t, n) && Has(d, p, Spell(t))
    ensures Finds(d, p, p + |Spell(t)|, Meaning(t), MAX_DEPTH - n)
    decreases t, 1
  {
    hide NextToken, Has, ProperMember, ParsePairs, SpellMembers, MembersMeaning;
    E.Associate([LBRACE], SpellMembers(t.members), [RBRACE]);
    HasSplit(d, p, [LBRACE], SpellMembers(t.members) + [RBRACE]);
    CharToken(d, p, LBRACE);
    MembersRead(d, p + 1, t.members, n - 1, []);
    ObjectFound(d, p, Obj(MembersMeaning(t.members, [])), p + |Spell(t)|, MAX_DEPTH - n);
  }

  // ---- what is read was spelled -----------------------------------------------------------------

  lemma ShortFound(d: seq<byte>, p: nat)
    requires p < |d| && Unescape(At(d, p)) != 0 && Unescape(At(d, p)) != 117
    ensures IsShort(At(d, p), Unescape(At(d, p)))
  {
    ShortIs(At(d, p), Unescape(At(d, p)));
  }

  lemma CodedFound(d: seq<byte>, p: nat) returns (x: Piece)
    requires p + 2 <= |d| && At(d, p) == BACKSLASH && Unescape(At(d, p + 1)) == 117 && UnicodeEscape(d, p).Escaped?
    ensures PieceOk(x) && Has(d, p, PieceText(x)) && UnicodeEscape(d, p) == Escaped(PieceBytes(x), |PieceText(x)|)
  {
    assert d[p + 1] == 117;
    hide UnicodeEscape, Utf16, Spelled, PieceOk, Unicode.EncodeRune;
    var cp := OnlySpelled(d, p);
    ReadsSpelled(d, p, cp);
    var text := d[p..p + 6 * |Utf16(cp)|];
    CodedIs(d, p, cp, text);
    x := Coded(cp, text);
  }

  /** The piece that the parser reads at p. */
  lemma PieceFound(d: seq<byte>, p: nat, acc: seq<byte>) returns (x: Piece)
    requires p <= |d| && ParseChars(d, p, acc).Chars? && At(d, p) != QUOTE
    ensures PieceOk(x) && Has(d, p, PieceText(x)) && PieceText(x) != []
    ensures ParseChars(d, p, acc) == ParseChars(d, p + |PieceText(x)|, acc + PieceBytes(x))
  {
    if At(d, p) != BACKSLASH {
      x := Plain(d[p]);
    } else if Unescape(At(d, p + 1)) == 117 {
      x := CodedFound(d, p);
    } else {
      ShortFound(d, p + 1);
      x := Short(d[p + 1], Unescape(d[p + 1]));
    }
  }

  lemma {:induction false} PiecesFound(d: seq<byte>, p: nat, acc: seq<byte>) returns (xs: seq<Piece>)
    requires p <= |d| && ParseChars(d, p, acc).Chars?
    ensures PiecesOk(xs) && Has(d, p, PiecesText(xs) + [QUOTE])
    ensures ParseChars(d, p, acc) == Chars(acc + PiecesBytes(xs), p + |PiecesText(xs)| + 1)
    decreases |d| - p
  {
    hide ParseChars, PieceOk, PieceText, PieceBytes, Has;
    if At(d, p) == QUOTE {
      xs := [];
      HasSlice(d, p, p + 1);
      assert d[p..p + 1] == [QUOTE] == [] + [QUOTE] && acc + [] == acc;
      QuoteEnds(d, p, acc);
    } else {
      var x := PieceFound(d, p, acc);
      var rest := PiecesFound(d, p + |PieceText(x)|, acc + PieceBytes(x));
      xs := [x] + rest;
      assert xs[1..] == rest;
      HasJoin(d, p, PieceText(x), PiecesText(rest) + [QUOTE]);
      E.Associate(PieceText(x), PiecesText(rest), [QUOTE]);
      E.Associate(acc, PieceBytes(x), PiecesBytes(rest));
    }
  }

  /** The white space before a token. */
  lemma {:induction false} BlankFound(d: seq<byte>, p: nat) returns (s: seq<byte>)
    requires p <= |d|
    ensures Blank(s) && Has(d, p, s) && NextToken(d, p) == TokenAt(d, p + |s|)
    decreases |d| - p
  {
    hide TokenAt;
    if IsSpace(At(d, p)) {
      var rest := BlankFound(d, p + 1);
      s := [d[p]] + rest;
      HasJoin(d, p, [d[p]], rest);
    } else {
      s := [];
    }
  }

  lemma CharFound(d: seq<byte>, p: nat, c: byte) returns (s: seq<byte>)
    requires c == LBRACE || c == RBRACE || c == LBRACKET || c == RBRACKET || c == COMMA || c == COLON
    requires p <= |d| && NextToken(d, p).0 == Punctuation(c)
    ensures Blank(s) && Has(d, p, s + [c]) && NextToken(d, p).1 == p + |s| + 1
  {
    s := BlankFound(d, p);
    hide ParseChars, NumberWord, Blank;
    HasJoin(d, p, s, [c]);
  }

  lemma StringFound(d: seq<byte>, p: nat) returns (s: seq<byte>, xs: seq<Piece>)
    requires p <= |d| && NextToken(d, p).0.StringT?
    ensures Blank(s) && PiecesOk(xs) && Has(d, p, s + Quoted(xs))
    ensures NextToken(d, p) == (StringT(PiecesBytes(xs)), p + |s + Quoted(xs)|)
  {
    hide *;
    s := BlankFound(d, p);
    xs := QuotedFound(d, p + |s|);
    HasJoin(d, p, s, Quoted(xs));
  }

  lemma QuotedFound(d: seq<byte>, q: nat) returns (xs: seq<Piece>)
    requires q <= |d| && TokenAt(d, q).0.StringT?
    ensures PiecesOk(xs) && Has(d, q, Quoted(xs)) && TokenAt(d, q) == (StringT(PiecesBytes(xs)), q + |Quoted(xs)|)
  {
    hide ParseChars, NumberWord, PiecesOk, PiecesText, PiecesBytes, Has;
    QuoteThere(d, q);
    xs := PiecesFound(d, q + 1, []);
    assert [] + PiecesBytes(xs) == PiecesBytes(xs);
    HasJoin(d, q, [QUOTE], PiecesText(xs) + [QUOTE]);
    E.Associate([QUOTE], PiecesText(xs), [QUOTE]);
  }

  lemma QuoteThere(d: seq<byte>, q: nat)
    requires q <= |d| && TokenAt(d, q).0.StringT?
    ensures Has(d, q, [QUOTE]) && ParseChars(d, q + 1, []).Chars?
    ensures TokenAt(d, q) == (StringT(ParseChars(d, q + 1, []).s), ParseChars(d, q + 1, []).end)
  {
    hide ParseChars, NumberWord;
  }

  /** A tree between p and e, after white space. */
  ghost predicate Spelt(d: seq<byte>, p: nat, s: seq<byte>, t: Tree, e: nat, v: Value, depth: nat) {
    && depth <= MAX_DEPTH && Blank(s) && Proper(t, MAX_DEPTH - depth)
    && Has(d, p, s + Spell(t)) && e == p + |s + Spell(t)| && v == Meaning(t)
  }

  lemma WordFound(d: seq<byte>, p: nat) returns (s: seq<byte>, t: Tree)
    requires p <= |d| && (NextToken(d, p).0.BooleanT? || NextToken(d, p).0.NullT?)
    ensures t == (if NextToken(d, p).0 == BooleanT(true) then True
                  else if NextToken(d, p).0 == BooleanT(false) then False else Nil)
    ensures Blank(s) && Has(d, p, s + Spell(t)) && NextToken(d, p).1 == p + |s + Spell(t)|
  {
    s := BlankFound(d, p);
    hide ParseChars, NumberWord, Blank;
    t := match NextToken(d, p).0 case BooleanT(b) => (if b then True else False) case _ => Nil;
    HasJoin(d, p, s, Spell(t));
  }

  lemma {:induction false} TreeFound(d: seq<byte>, p: nat, depth: nat) returns (s: seq<byte>, t: Tree)
    requires p <= |d| && depth <= MAX_DEPTH && ParseValue(d, NextToken(d, p).0, NextToken(d, p).1, depth).Ok?
    ensures var r := ParseValue(d, NextToken(d, p).0, NextToken(d, p).1, depth); Spelt(d, p, s, t, r.end, r.v, depth)
    decreases |d| - p, 1
  {
    hide NextToken, Has, Blank;
    var (tok, q) := NextToken(d, p);
    if tok.StringT? {
      var xs;
      s, xs := StringFound(d, p);
      t := Text(xs);
    } else if tok.BooleanT? || tok.NullT? {
      s, t := WordFound(d, p);
    } else if tok == ArrBegin {
      s, t := ArraySpelt(d, p, depth);
    } else {
      s, t := ObjectSpelt(d, p, depth);
    }
  }

  lemma {:induction false} ArraySpelt(d: seq<byte>, p: nat, depth: nat) returns (s: seq<byte>, t: Tree)
    requires p <= |d| && NextToken(d, p).0 == ArrBegin && ParseArray(d, NextToken(d, p).1, depth).Ok?
    ensures var r := ParseArray(d, NextToken(d, p).1, depth); Spelt(d, p, s, t, r.end, r.v, depth)
    decreases |d| - p, 0
  {
    hide NextToken, Has, Blank, ParseItems, SpellItems, ItemsMeaning, ProperItem;
    s := CharFound(d, p, LBRACKET);
    var q := NextToken(d, p).1;
    if NextToken(d, q).0 == ArrEnd {
      var gap := CharFound(d, q, RBRACKET);
      t := EmptyArray(gap);
      JoinBrackets(d, p, s, LBRACKET, gap, RBRACKET);
    } else {
      var items := ItemsFound(d, q, depth + 1, []);
      t := Array(items);
      assert [] + ItemsMeaning(items) == ItemsMeaning(items);
      JoinBrackets(d, p, s, LBRACKET, SpellItems(items), RBRACKET);
    }
  }

  lemma JoinBrackets(d: seq<byte>, p: nat, s: seq<byte>, open: byte, inner: seq<byte>, close: byte)
    requires Has(d, p, s + [open]) && Has(d, p + |s| + 1, inner + [close])
    ensures Has(d, p, s + ([open] + inner + [close]))
  {
    HasJoin(d, p, s + [open], inner + [close]);
    assert s + [open] + (inner + [close]) == s + ([open] + inner + [close]);
  }

  lemma {:induction false} ObjectSpelt(d: seq<byte>, p: nat, depth: nat) returns (s: seq<byte>, t: Tree)
    requires p <= |d| && NextToken(d, p).0 == ObjBegin && ParseObject(d, NextToken(d, p).1, depth).Ok?
    ensures var r := ParseObject(d, NextToken(d, p).1, depth); Spelt(d, p, s, t, r.end, r.v, depth)
    decreases |d| - p, 0
  {
    hide NextToken, Has, Blank, ParsePairs, SpellMembers, MembersMeaning, ProperMember;
    s := CharFound(d, p, LBRACE);
    var q := NextToken(d, p).1;
    if NextToken(d, q).0 == ObjEnd {
      var gap := CharFound(d, q, RBRACE);
      t := EmptyObject(gap);
      JoinBrackets(d, p, s, LBRACE, gap, RBRACE);
    } else {
      var members := MembersFound(d, q, depth + 1, []);
      t := Object(members);
      JoinBrackets(d, p, s, LBRACE, SpellMembers(members), RBRACE);
    }
  }

  /** A value and what stands behind it up to the character c. */
  lemma {:induction false} ItemFound(d: seq<byte>, p: nat, depth: nat, c: byte) returns (x: Item)
    requires p <= |d| && depth <= MAX_DEPTH && ParseValue(d, NextToken(d, p).0, NextToken(d, p).1, depth).Ok?
    requires c == RBRACKET || c == RBRACE || c == COMMA
    requires NextToken(d, ParseValue(d, NextToken(d, p).0, NextToken(d, p).1, depth).end).0 == Punctuation(c)
    ensures var r := ParseValue(d, NextToken(d, p).0, NextToken(d, p).1, depth);
            && ProperItem(x, MAX_DEPTH - depth) && Meaning(x.tree) == r.v
            && Has(d, p, SpellItem(x) + [c]) && NextToken(d, r.end).1 == p + |SpellItem(x)| + 1
    decreases |d| - p, 2
  {
    hide NextToken, Has, Blank, ParseValue, Spell, Meaning, Proper;
    var r := ParseValue(d, NextToken(d, p).0, NextToken(d, p).1, depth);
    var s, t := TreeFound(d, p, depth);
    var after := CharFound(d, r.end, c);
    x := Item(s, t, after);
    HasJoin(d, p, s + Spell(t), after + [c]);
    E.Associate(s + Spell(t), after, [c]);
  }

  lemma {:induction false} ItemsFound(d: seq<byte>, p: nat, depth: nat, acc: seq<Value>) returns (items: seq<Item>)
    requires p <= |d| && depth <= MAX_DEPTH && ParseItems(d, NextToken(d, p).0, NextToken(d, p).1, depth, acc).Ok?
    ensures items != [] && forall i :: 0 <= i < |items| ==> ProperItem(items[i], MAX_DEPTH - depth)
    ensures Has(d, p, SpellItems(items) + [RBRACKET])
    ensures ParseItems(d, NextToken(d, p).0, NextToken(d, p).1, depth, acc) ==
              Ok(Arr(acc + ItemsMeaning(items)), p + |SpellItems(items)| + 1)
    decreases |d| - p, 3
  {
    hide NextToken, Has, ParseValue, SpellItem, Meaning, ProperItem;
    var r := ParseValue(d, NextToken(d, p).0, NextToken(d, p).1, depth);
    if NextToken(d, r.end).0 == ArrEnd {
      var x := ItemFound(d, p, depth, RBRACKET);
      items := [x];
      assert items[1..] == [] && SpellItem(x) + [] == SpellItem(x) && [r.v] + [] == [r.v];
    } else {
      var x := ItemFound(d, p, depth, COMMA);
      var rest := ItemsFound(d, p + |SpellItem(x)| + 1, depth, acc + [r.v]);
      items := [x] + rest;
      assert items[1..] == rest;
      JoinList(d, p, SpellItem(x), SpellItems(rest), RBRACKET);
      E.Associate(acc, [r.v], ItemsMeaning(rest));
    }
  }

  lemma JoinList(d: seq<byte>, p: nat, first: seq<byte>, rest: seq<byte>, close: byte)
    requires Has(d, p, first + [COMMA]) && Has(d, p + |first| + 1, rest + [close])
    ensures Has(d, p, first + ([COMMA] + rest) + [close])
  {
    HasJoin(d, p, first + [COMMA], rest + [close]);
    assert first + [COMMA] + (rest + [close]) == first + ([COMMA] + rest) + [close];
  }

  /** The pair at p, up to the character c. */
  lemma {:induction false} MemberSpelt(d: seq<byte>, p: nat, depth: nat, c: byte) returns (x: Member)
    requires p <= |d| && depth <= MAX_DEPTH && NextToken(d, p).0.StringT? && NextToken(d, NextToken(d, p).1).0 == ColonT
    requires c == RBRACE || c == COMMA
    requires var q := NextToken(d, NextToken(d, p).1).1;
             && ParseValue(d, NextToken(d, q).0, NextToken(d, q).1, depth).Ok?
             && NextToken(d, ParseValue(d, NextToken(d, q).0, NextToken(d, q).1, depth).end).0 == Punctuation(c)
    ensures var q := NextToken(d, NextToken(d, p).1).1; var r := ParseValue(d, NextToken(d, q).0, NextToken(d, q).1, depth);
            && ProperMember(x, MAX_DEPTH - depth) && PiecesBytes(x.key) == NextToken(d, p).0.s && Meaning(x.item.tree) == r.v
            && Has(d, p, SpellMember(x) + [c]) && NextToken(d, r.end).1 == p + |SpellMember(x)| + 1
    decreases |d| - p, 2
  {
    hide NextToken, Has, Blank, ParseValue, SpellItem, Meaning, ProperItem, Quoted, PiecesOk, PiecesBytes;
    var s, xs := StringFound(d, p);
    var after := CharFound(d, NextToken(d, p).1, COLON);
    var q := NextToken(d, NextToken(d, p).1).1;
    var item := ItemFound(d, q, depth, c);
    x := Member(s, xs, after, item);
    HasJoin(d, p, s + Quoted(xs), after + [COLON]);
    E.Associate(s + Quoted(xs), after, [COLON]);
    HasJoin(d, p, s + Quoted(xs) + after + [COLON], SpellItem(item) + [c]);
    E.Associate(s + Quoted(xs) + after + [COLON], SpellItem(item), [c]);
  }

  lemma {:induction false} MembersFound(d: seq<byte>, p: nat, depth: nat, acc: seq<Pair>) returns (members: seq<Member>)
    requires p <= |d| && depth <= MAX_DEPTH && NextToken(d, p).0.StringT?
    requires ParsePairs(d, NextToken(d, p).0.s, NextToken(d, p).1, depth, acc).Ok?
    ensures members != [] && forall i :: 0 <= i < |members| ==> ProperMember(members[i], MAX_DEPTH - depth)
    ensures Has(d, p, SpellMembers(members) + [RBRACE])
    ensures ParsePairs(d, NextToken(d, p).0.s, NextToken(d, p).1, depth, acc) ==
              Ok(Obj(MembersMeaning(members, acc)), p + |SpellMembers(members)| + 1)
    decreases |d| - p, 3
  {
    hide NextToken, Has, ParseValue, SpellMember, Meaning, ProperMember, SetKey, PiecesBytes;
    var q := NextToken(d, NextToken(d, p).1).1;
    var r := ParseValue(d, NextToken(d, q).0, NextToken(d, q).1, depth);
    var acc' := SetKey(acc, NextToken(d, p).0.s, r.v);
    if NextToken(d, r.end).0 == ObjEnd {
      var x := MemberSpelt(d, p, depth, RBRACE);
      members := [x];
      assert members[1..] == [] && SpellMember(x) + [] == SpellMember(x) && MembersMeaning([], acc') == acc';
    } else {
      var x := MemberSpelt(d, p, depth, COMMA);
      var rest := MembersFound(d, p + |SpellMember(x)| + 1, depth, acc');
      members := [x] + rest;
      assert members[1..] == rest;
      JoinList(d, p, SpellMember(x), SpellMembers(rest), RBRACE);
    }
  }

  // ---- whole texts ------------------------------------------------------------------------------

  /** The tree between white space, up to the end of the data or a zero byte. */
  ghost predicate IsText(d: seq<byte>, lead: seq<byte>, t: Tree, trail: seq<byte>, rest: seq<byte>) {
    && Blank(lead) && Proper(t, MAX_DEPTH) && Blank(trail) && (rest != [] ==> rest[0] == 0)
    && d == lead + Spell(t) + trail + rest
  }

  lemma FirstOfItem(x: Item)
    requires Blank(x.before) && |Spell(x.tree)| >= 2 && Spell(x.tree)[0] != 0
    ensures SpellItem(x) != [] && SpellItem(x)[0] != 0
  {
    hide Spell;
  }

  lemma FirstOfMember(x: Member)
    requires Blank(x.before)
    ensures SpellMember(x) != [] && SpellMember(x)[0] != 0
  {
    hide PiecesText, SpellItem;
    var a := x.before + Quoted(x.key);
    assert a != [] && a[0] != 0;
  }

  /** No text begins like UTF-16 or UTF-32. */
  lemma {:induction false} TwoBytes(t: Tree, n: nat)
    requires Proper(t, n)
    ensures |Spell(t)| >= 2 && Spell(t)[0] != 0 && Spell(t)[1] != 0
  {
    match t {
      case Text(xs) =>
        if xs != [] { assert PieceOk(xs[0]); }
      case Array(items) =>
        TwoBytes(items[0].tree, n - 1);
        FirstOfItem(items[0]);
        hide SpellItem, Spell;
        FirstIn(LBRACKET, SpellItems(items), RBRACKET);
      case Object(members) =>
        FirstOfMember(members[0]);
        FirstIn(LBRACE, SpellMembers(members), RBRACE);
      case _ =>
    }
  }

  lemma FirstIn(open: byte, inner: seq<byte>, close: byte)
    requires open != 0 && inner != [] && inner[0] != 0
    ensures var s := [open] + inner + [close]; |s| >= 2 && s[0] != 0 && s[1] != 0
  {
  }

  /** Every text is read as the value it spells. */
  lemma ReadsText(d: seq<byte>, lead: seq<byte>, t: Tree, trail: seq<byte>, rest: seq<byte>)
    requires IsText(d, lead, t, trail, rest)
    ensures Decode(d) == Ok(Meaning(t), |lead + Spell(t)|)
  {
    hide Spell, Meaning, Proper, NextToken, ParseValue;
    TwoBytes(t, MAX_DEPTH);
    var e := |lead + Spell(t)|;
    assert Has(d, 0, lead) && Has(d, |lead|, Spell(t)) && Has(d, e, trail);
    BlankSkipped(d, 0, lead);
    TreeRead(d, |lead|, t, MAX_DEPTH);
    BlankSkipped(d, e, trail);
    EndThere(d, e + |trail|);
  }

  lemma EndThere(d: seq<byte>, p: nat)
    requires p <= |d| && At(d, p) == 0
    ensures NextToken(d, p) == (End, p)
  {
  }

  /** And only texts are read. */
  lemma OnlyTexts(d: seq<byte>) returns (lead: seq<byte>, t: Tree, trail: seq<byte>, rest: seq<byte>)
    requires Decode(d).Ok?
    ensures IsText(d, lead, t, trail, rest) && Decode(d).v == Meaning(t)
  {
    hide Spell, Meaning, Proper, NextToken, ParseValue;
    var r := ParseValue(d, NextToken(d, 0).0, NextToken(d, 0).1, 0);
    lead, t := TreeFound(d, 0, 0);
    trail := BlankFound(d, r.end);
    var q := r.end + |trail|;
    rest := d[q..];
    EndIs(d, q);
    assert d == d[0..r.end] + d[r.end..q] + d[q..];
  }

  lemma EndIs(d: seq<byte>, q: nat)
    requires q <= |d| && TokenAt(d, q).0 == End
    ensures At(d, q) == 0
  {
  }

  /** json_decode accepts exactly the texts without numbers, and reads what they spell. */
  lemma DecodeIff(d: seq<byte>, v: Value)
    ensures Decode(d).Ok? && Decode(d).v == v <==>
            exists lead, t, trail, rest :: IsText(d, lead, t, trail, rest) && Meaning(t) == v
  {
    hide IsText, Meaning, Decode;
    if Decode(d).Ok? && Decode(d).v == v {
      var lead, t, trail, rest := OnlyTexts(d);
    }
    forall lead, t, trail, rest | IsText(d, lead, t, trail, rest) && Meaning(t) == v ensures Decode(d).Ok? && Decode(d).v == v {
      ReadsText(d, lead, t, trail, rest);
    }
  }
}
