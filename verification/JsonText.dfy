/** The texts lua-cjson accepts, written down without the parser: RFC 8259 without numbers, with any
    bytes but zero, quotation mark and backslash unescaped in a string. A text is a tree that keeps
    the white space and the spelling of every string; the parser reads exactly these. */
module JsonText {
  import opened Strbuf
  import opened Json
  import opened JsonGrammar
  import opened JsonUnicode
  import opened JsonRoundTrip
  import Unicode

  // ---- strings ----------------------------------------------------------------------------------

  /** A character that stands for itself, an escape of two characters for c, or \u escapes for a code point. */
  datatype Piece = Plain(c: byte) | Short(letter: byte, c: byte) | Coded(cp: nat, text: seq<byte>)

  /** The escapes of two characters, section 7 of RFC 8259. */
  predicate IsShort(letter: byte, c: byte) {
    || (letter == '"' as int && c == 0x22)
    || (letter == '\\' as int && c == 0x5C)
    || (letter == '/' as int && c == 0x2F)
    || (letter == 'b' as int && c == 0x08)
    || (letter == 'f' as int && c == 0x0C)
    || (letter == 'n' as int && c == 0x0A)
    || (letter == 'r' as int && c == 0x0D)
    || (letter == 't' as int && c == 0x09)
  }

  predicate IsDigit(c: byte, v: nat) {
    v < 16 && (c == "0123456789abcdef"[v] as int || c == "0123456789ABCDEF"[v] as int)
  }

  /** One \u escape, with its digits in either case. */
  predicate IsUnit(t: seq<byte>, unit: nat) {
    && |t| == 6 && t[0] == '\\' as int && t[1] == 'u' as int
    && IsDigit(t[2], unit / 0x1000) && IsDigit(t[3], unit / 0x100 % 16)
    && IsDigit(t[4], unit / 0x10 % 16) && IsDigit(t[5], unit % 16)
  }

  predicate PieceOk(x: Piece) {
    match x
    case Plain(c) => c != 0 && c != '"' as int && c != '\\' as int
    case Short(letter, c) => IsShort(letter, c)
    case Coded(cp, text) =>
      && IsScalar(cp) && |text| == 6 * |Utf16(cp)|
      && forall i :: 0 <= i < |Utf16(cp)| ==> IsUnit(text[6 * i..6 * i + 6], Utf16(cp)[i])
  }

  function PieceText(x: Piece): seq<byte> {
    match x
    case Plain(c) => [c]
    case Short(letter, _) => ['\\' as int, letter]
    case Coded(_, text) => text
  }

  /** The bytes a piece stands for; a code point is kept in UTF-8. */
  function PieceBytes(x: Piece): seq<byte> {
    match x
    case Plain(c) => [c]
    case Short(_, c) => [c]
    case Coded(cp, _) => if cp < 0x11_0000 then Unicode.EncodeRune(cp) else []
  }

  predicate PiecesOk(xs: seq<Piece>) { forall i :: 0 <= i < |xs| ==> PieceOk(xs[i]) }

  function PiecesText(xs: seq<Piece>): seq<byte> {
    if xs == [] then [] else PieceText(xs[0]) + PiecesText(xs[1..])
  }

  function PiecesBytes(xs: seq<Piece>): seq<byte> {
    if xs == [] then [] else PieceBytes(xs[0]) + PiecesBytes(xs[1..])
  }

  function Quoted(xs: seq<Piece>): seq<byte> { ['"' as int] + PiecesText(xs) + ['"' as int] }

  // ---- values -----------------------------------------------------------------------------------

  /** Space, tab, line feed and carriage return, in any number. */
  predicate Blank(s: seq<byte>) {
    forall i :: 0 <= i < |s| ==> s[i] == 0x20 || s[i] == 0x09 || s[i] == 0x0A || s[i] == 0x0D
  }

  datatype Tree =
    | Text(pieces: seq<Piece>) | True | False | Nil
    | EmptyArray(gap: seq<byte>) | Array(items: seq<Item>)
    | EmptyObject(gap: seq<byte>) | Object(members: seq<Member>)

  /** A value between white space. */
  datatype Item = Item(before: seq<byte>, tree: Tree, after: seq<byte>)

  datatype Member = Member(before: seq<byte>, key: seq<Piece>, after: seq<byte>, item: Item)

  function Spell(t: Tree): seq<byte> {
    match t
    case Text(xs) => Quoted(xs)
    case True => ['t' as int, 'r' as int, 'u' as int, 'e' as int]
    case False => ['f' as int, 'a' as int, 'l' as int, 's' as int, 'e' as int]
    case Nil => ['n' as int, 'u' as int, 'l' as int, 'l' as int]
    case EmptyArray(gap) => ['[' as int] + gap + [']' as int]
    case Array(items) => ['[' as int] + SpellItems(items) + [']' as int]
    case EmptyObject(gap) => ['{' as int] + gap + ['}' as int]
    case Object(members) => ['{' as int] + SpellMembers(members) + ['}' as int]
  }

  function SpellItem(x: Item): seq<byte> { x.before + Spell(x.tree) + x.after }

  /** The items with commas between them. */
  function SpellItems(items: seq<Item>): seq<byte> {
    if items == [] then []
    else SpellItem(items[0]) + if |items| > 1 then [',' as int] + SpellItems(items[1..]) else []
  }

  function SpellMember(x: Member): seq<byte> { x.before + Quoted(x.key) + x.after + [':' as int] + SpellItem(x.item) }

  function SpellMembers(members: seq<Member>): seq<byte> {
    if members == [] then []
    else SpellMember(members[0]) + if |members| > 1 then [',' as int] + SpellMembers(members[1..]) else []
  }

  /** White space and strings are spelled as they may be, and at most n arrays and objects are nested. */
  predicate Proper(t: Tree, n: nat) {
    match t
    case Text(xs) => PiecesOk(xs)
    case EmptyArray(gap) => n >= 1 && Blank(gap)
    case EmptyObject(gap) => n >= 1 && Blank(gap)
    case Array(items) => n >= 1 && items != [] && forall i :: 0 <= i < |items| ==> ProperItem(items[i], n - 1)
    case Object(members) => n >= 1 && members != [] && forall i :: 0 <= i < |members| ==> ProperMember(members[i], n - 1)
    case _ => true
  }

  predicate ProperItem(x: Item, n: nat) { Blank(x.before) && Blank(x.after) && Proper(x.tree, n) }

  predicate ProperMember(x: Member, n: nat) { Blank(x.before) && Blank(x.after) && PiecesOk(x.key) && ProperItem(x.item, n) }

  /** The value spelled. An empty array is an empty table like any other. */
  function Meaning(t: Tree): Value {
    match t
    case Text(xs) => Str(PiecesBytes(xs))
    case True => Bool(true)
    case False => Bool(false)
    case Nil => Null
    case EmptyArray(_) => Obj([])
    case EmptyObject(_) => Obj([])
    case Array(items) => Arr(ItemsMeaning(items))
    case Object(members) => Obj(MembersMeaning(members, []))
  }

  function ItemsMeaning(items: seq<Item>): seq<Value> {
    if items == [] then [] else [Meaning(items[0].tree)] + ItemsMeaning(items[1..])
  }

  /** The members are set one after the other. */
  function MembersMeaning(members: seq<Member>, acc: seq<Pair>): seq<Pair>
    decreases members
  {
    if members == [] then acc
    else MembersMeaning(members[1..], SetKey(acc, PiecesBytes(members[0].key), Meaning(members[0].item.tree)))
  }

  // ---- repeated keys ----------------------------------------------------------------------------

  /** The table has the value u for the key. */
  ghost predicate Holds(pairs: seq<Pair>, key: seq<byte>, u: Value) {
    pairs != [] && if pairs[0].key == key then pairs[0].val == u else Holds(pairs[1..], key, u)
  }

  /** The last of the members with the key has the value u. */
  ghost predicate LastIs(members: seq<Member>, key: seq<byte>, u: Value) {
    members != [] &&
    var m := members[|members| - 1];
    if PiecesBytes(m.key) == key then Meaning(m.item.tree) == u else LastIs(members[..|members| - 1], key, u)
  }

  lemma {:induction false} SetKeyHolds(pairs: seq<Pair>, key: seq<byte>, v: Value, k: seq<byte>, u: Value)
    ensures Holds(SetKey(pairs, key, v), k, u) <==> if k == key then u == v else Holds(pairs, k, u)
    decreases |pairs|
  {
    if pairs != [] {
      SetKeyHolds(pairs[1..], key, v, k, u);
      assert ([Pair(key, v)] + pairs[1..])[1..] == pairs[1..];
      assert ([pairs[0]] + SetKey(pairs[1..], key, v))[1..] == SetKey(pairs[1..], key, v);
    }
  }

  lemma {:induction false} SetKeyKeys(pairs: seq<Pair>, key: seq<byte>, v: Value)
    requires Distinct(pairs)
    ensures Distinct(SetKey(pairs, key, v))
    ensures forall x :: x in SetKey(pairs, key, v) ==> x.key == key || exists y :: y in pairs && y.key == x.key
    decreases |pairs|
  {
    if pairs != [] {
      var rest := pairs[1..];
      assert pairs == [pairs[0]] + rest;
      assert Distinct(rest) by {
        forall i, j | 0 <= i < j < |rest| ensures rest[i].key != rest[j].key {
          assert rest[i] == pairs[i + 1] && rest[j] == pairs[j + 1];
        }
      }
      forall y | y in rest ensures y.key != pairs[0].key {
        var i :| 0 <= i < |rest| && rest[i] == y;
        assert pairs[i + 1] == y;
      }
      SetKeyKeys(rest, key, v);
    }
  }

  lemma {:induction false} MembersSnoc(members: seq<Member>, m: Member, acc: seq<Pair>)
    ensures MembersMeaning(members + [m], acc) == SetKey(MembersMeaning(members, acc), PiecesBytes(m.key), Meaning(m.item.tree))
    decreases |members|
  {
    hide SetKey, PiecesBytes, Meaning;
    if members == [] {
      assert [] + [m] == [m];
      var acc' := SetKey(acc, PiecesBytes(m.key), Meaning(m.item.tree));
      assert MembersMeaning([], acc') == acc';
    } else {
      assert (members + [m])[1..] == members[1..] + [m];
      MembersSnoc(members[1..], m, SetKey(acc, PiecesBytes(members[0].key), Meaning(members[0].item.tree)));
    }
  }

  /** An object has every key once, with the value its last occurrence has. */
  lemma {:induction false} LastOccurrence(members: seq<Member>, key: seq<byte>, u: Value)
    ensures Distinct(MembersMeaning(members, []))
    ensures Holds(MembersMeaning(members, []), key, u) <==> LastIs(members, key, u)
    decreases |members|
  {
    hide PiecesBytes, Meaning, SetKey;
    if members != [] {
      var n := |members| - 1;
      var m := members[n];
      assert members == members[..n] + [m];
      LastOccurrence(members[..n], key, u);
      MembersSnoc(members[..n], m, []);
      SetKeyKeys(MembersMeaning(members[..n], []), PiecesBytes(m.key), Meaning(m.item.tree));
      SetKeyHolds(MembersMeaning(members[..n], []), PiecesBytes(m.key), Meaning(m.item.tree), key, u);
    }
  }
}
