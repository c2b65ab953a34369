/** Lua values as lua-cjson sees them, and the text it writes for them. */
module Json {
  import opened Strbuf

  /** Null is the lightuserdata NULL; an empty table is an object without pairs. */
  datatype Value =
    | Str(s: seq<byte>)
    | Bool(b: bool)
    | Null
    | Arr(items: seq<Value>)
    | Obj(pairs: seq<Pair>)

  datatype Pair = Pair(key: seq<byte>, val: Value)

  /** A Lua table: an array has elements, and no key occurs twice. */
  ghost predicate IsLua(v: Value) {
    match v
    case Arr(items) => items != [] && forall i :: 0 <= i < |items| ==> IsLua(items[i])
    case Obj(pairs) => Distinct(pairs) && forall i :: 0 <= i < |pairs| ==> IsLua(pairs[i].val)
    case _ => true
  }

  ghost predicate Distinct(pairs: seq<Pair>) {
    forall i, j :: 0 <= i < j < |pairs| ==> pairs[i].key != pairs[j].key
  }

  /** How many tables are nested. */
  function Depth(v: Value): nat {
    match v
    case Arr(items) => 1 + ItemsDepth(items)
    case Obj(pairs) => 1 + PairsDepth(pairs)
    case _ => 0
  }

  function ItemsDepth(items: seq<Value>): nat {
    if items == [] then 0 else Max(ItemsDepth(items[..|items| - 1]), Depth(items[|items| - 1]))
  }

  function PairsDepth(pairs: seq<Pair>): nat {
    if pairs == [] then 0 else Max(PairsDepth(pairs[..|pairs| - 1]), Depth(pairs[|pairs| - 1].val))
  }

  /** The default of encode_max_depth and of decode_max_depth. */
  const MAX_DEPTH: nat := 1000

  function Max(x: nat, y: nat): nat { if x >= y then x else y }

  const QUOTE: byte := 34
  const BACKSLASH: byte := 92
  const SLASH: byte := 47
  const COMMA: byte := 44
  const COLON: byte := 58
  const LBRACKET: byte := 91
  const RBRACKET: byte := 93
  const LBRACE: byte := 123
  const RBRACE: byte := 125

  const TRUE: seq<byte> := [116, 114, 117, 101]
  const FALSE: seq<byte> := [102, 97, 108, 115, 101]
  const NULL: seq<byte> := [110, 117, 108, 108]

  /** A lower-case hexadecimal digit. */
  function Hex(n: nat): byte
    requires n < 16
  {
    if n < 10 then 48 + n else 87 + n
  }

  /** The table char2escape; no escape for most characters. */
  function Escape(c: byte): seq<byte> {
    if c == 8 then [BACKSLASH, 98]
    else if c == 9 then [BACKSLASH, 116]
    else if c == 10 then [BACKSLASH, 110]
    else if c == 12 then [BACKSLASH, 102]
    else if c == 13 then [BACKSLASH, 114]
    else if c == QUOTE || c == SLASH || c == BACKSLASH then [BACKSLASH, c]
    else if c < 32 || c == 127 then [BACKSLASH, 117, 48, 48, Hex(c / 16), Hex(c % 16)]
    else []
  }

  /** What is written for one character of a string. */
  function EncodeChar(c: byte): (r: seq<byte>)
    ensures 1 <= |r| <= 6
  {
    if Escape(c) != [] then Escape(c) else [c]
  }

  function EncodeChars(s: seq<byte>): (r: seq<byte>)
    ensures |r| <= 6 * |s|
  {
    if s == [] then [] else EncodeChars(s[..|s| - 1]) + EncodeChar(s[|s| - 1])
  }

  function EncodeString(s: seq<byte>): seq<byte> { [QUOTE] + EncodeChars(s) + [QUOTE] }

  function Encode(v: Value): seq<byte> {
    match v
    case Str(s) => EncodeString(s)
    case Bool(b) => if b then TRUE else FALSE
    case Null => NULL
    case Arr(items) => [LBRACKET] + EncodeItems(items) + [RBRACKET]
    case Obj(pairs) => [LBRACE] + EncodePairs(pairs) + [RBRACE]
  }

  function EncodeItems(items: seq<Value>): seq<byte> {
    if items == [] then []
    else
      var n := |items| - 1;
      EncodeItems(items[..n]) + (if n > 0 then [COMMA] else []) + Encode(items[n])
  }

  function EncodePairs(pairs: seq<Pair>): seq<byte> {
    if pairs == [] then []
    else
      var n := |pairs| - 1;
      EncodePairs(pairs[..n]) + (if n > 0 then [COMMA] else []) + EncodePair(pairs[n])
  }

  function EncodePair(p: Pair): seq<byte> { EncodeString(p.key) + [COLON] + Encode(p.val) }
}
