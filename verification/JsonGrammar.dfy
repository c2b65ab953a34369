/** The language lua-cjson reads: what each parsing function makes of the data from a
    position on. The data end with a terminator that is not part of them. */
module JsonGrammar {
  import opened Strbuf
  import opened Json

  /** *(data + p) */
  function At(d: seq<byte>, p: nat): byte
    requires p <= |d|
  {
    if p < |d| then d[p] else 0
  }

  // ---- strings ----------------------------------------------------------------------------------

  /** hexdigit2int, or -1 */
  function HexValue(c: byte): int {
    if 48 <= c <= 57 then c - 48
    else if 65 <= c <= 70 then c - 55
    else if 97 <= c <= 102 then c - 87
    else -1
  }

  /** decode_hex4, or -1: the first character that is no digit ends it, so that the
      terminator is never passed. */
  function Hex4(d: seq<byte>, p: nat): (v: int)
    requires p <= |d|
    ensures -1 <= v < 0x1_0000 && (v >= 0 ==> p + 4 <= |d|)
  {
    var a := HexValue(At(d, p));
    if a < 0 then -1
    else
      var b := HexValue(At(d, p + 1));
      if b < 0 then -1
      else
        var c := HexValue(At(d, p + 2));
        if c < 0 then -1
        else
          var e := HexValue(At(d, p + 3));
          if e < 0 then -1 else ((a * 16 + b) * 16 + c) * 16 + e
  }

  /** codepoint_to_utf8 */
  function Utf8(cp: nat): (s: seq<byte>)
    requires cp <= 0x1F_FFFF
    ensures 1 <= |s| <= 4 && (cp <= 0xFFFF ==> |s| <= 3)
  {
    if cp <= 0x7F then [cp]
    else if cp <= 0x7FF then [0xC0 + cp / 0x40, 0x80 + cp % 0x40]
    else if cp <= 0xFFFF then [0xE0 + cp / 0x1000, 0x80 + cp / 0x40 % 0x40, 0x80 + cp % 0x40]
    else [0xF0 + cp / 0x4_0000, 0x80 + cp / 0x1000 % 0x40, 0x80 + cp / 0x40 % 0x40, 0x80 + cp % 0x40]
  }

  datatype Escaped = BadEscape | Escaped(bytes: seq<byte>, len: nat)

  /** json_append_unicode_escape: a code unit, or a surrogate pair. */
  function UnicodeEscape(d: seq<byte>, p: nat): (r: Escaped)
    requires p + 2 <= |d|
    ensures r.Escaped? ==> 0 < |r.bytes| <= r.len && p + r.len <= |d|
  {
    var unit := Hex4(d, p + 2);
    if unit < 0 then BadEscape
    else if 0xD800 <= unit < 0xE000 then
      if unit >= 0xDC00 || At(d, p + 6) != BACKSLASH || At(d, p + 7) != 117 then BadEscape
      else
        var low := Hex4(d, p + 8);
        if 0xDC00 <= low < 0xE000 then Escaped(Utf8((unit - 0xD800) * 0x400 + (low - 0xDC00) + 0x1_0000), 12) else BadEscape
    else Escaped(Utf8(unit), 6)
  }

  /** The table escape2char; 0 for what is no escape. */
  function Unescape(c: byte): byte {
    if c == QUOTE || c == BACKSLASH || c == SLASH || c == 117 then c
    else if c == 98 then 8
    else if c == 116 then 9
    else if c == 110 then 10
    else if c == 102 then 12
    else if c == 114 then 13
    else 0
  }

  datatype Chars = BadChars | Chars(s: seq<byte>, end: nat)

  /** The rest of a string from p on, after acc. */
  function ParseChars(d: seq<byte>, p: nat, acc: seq<byte>): (r: Chars)
    requires p <= |d|
    ensures r.Chars? ==> p < r.end <= |d| && |r.s| <= |acc| + (r.end - 1 - p)
    decreases |d| - p
  {
    var c := At(d, p);
    if c == QUOTE then Chars(acc, p + 1)
    else if c == 0 then BadChars
    else if c == BACKSLASH then
      var e := Unescape(At(d, p + 1));
      if e == 117 then
        match UnicodeEscape(d, p)
        case BadEscape => BadChars
        case Escaped(bytes, len) => ParseChars(d, p + len, acc + bytes)
      else if e == 0 then BadChars
      else ParseChars(d, p + 2, acc + [e])
    else ParseChars(d, p + 1, acc + [c])
  }

  // ---- tokens -----------------------------------------------------------------------------------

  /** A number token only says that a number begins here: reading it is strtod's business. */
  datatype Token =
    | ObjBegin | ObjEnd | ArrBegin | ArrEnd | StringT(s: seq<byte>) | NumberT | BooleanT(b: bool) | NullT
    | ColonT | CommaT | End | ErrorT

  /** The token of a character that is one by itself. */
  function Punctuation(c: byte): Token {
    if c == LBRACE then ObjBegin else if c == RBRACE then ObjEnd else if c == LBRACKET then ArrBegin
    else if c == RBRACKET then ArrEnd else if c == COMMA then CommaT else ColonT
  }

  predicate IsSpace(c: byte) { c == 32 || c == 9 || c == 10 || c == 13 }

  function SkipSpace(d: seq<byte>, p: nat): (q: nat)
    requires p <= |d|
    ensures p <= q <= |d|
    decreases |d| - p
  {
    if IsSpace(At(d, p)) then SkipSpace(d, p + 1) else p
  }

  /** !strncmp(data + p, word, |word|) */
  predicate Matches(d: seq<byte>, p: nat, word: seq<byte>)
    requires p <= |d|
  {
    p + |word| <= |d| && d[p..p + |word|] == word
  }

  /** +, or inf or nan in either case */
  predicate NumberWord(d: seq<byte>, p: nat)
    requires p <= |d|
  {
    || At(d, p) == 43
    || (p + 3 <= |d| && (Lower(d[p..p + 3]) == [105, 110, 102] || Lower(d[p..p + 3]) == [110, 97, 110]))
  }

  function Lower(s: seq<byte>): seq<byte> {
    seq(|s|, i requires 0 <= i < |s| => if 65 <= s[i] <= 90 then s[i] + 32 else s[i])
  }

  /** json_next_token, and where it leaves the pointer. */
  function NextToken(d: seq<byte>, p: nat): (r: (Token, nat))
    requires p <= |d|
    ensures p <= r.1 <= |d| && (r.0 != End && r.0 != ErrorT && r.0 != NumberT ==> p < r.1)
  {
    var q := SkipSpace(d, p);
    TokenAt(d, q)
  }

  function TokenAt(d: seq<byte>, q: nat): (r: (Token, nat))
    requires q <= |d|
    ensures q <= r.1 <= |d| && (r.0 != End && r.0 != ErrorT && r.0 != NumberT ==> q < r.1)
  {
    var c := At(d, q);
    if c == 0 then (End, q)
    else if c == LBRACE then (ObjBegin, q + 1)
    else if c == RBRACE then (ObjEnd, q + 1)
    else if c == LBRACKET then (ArrBegin, q + 1)
    else if c == RBRACKET then (ArrEnd, q + 1)
    else if c == COMMA then (CommaT, q + 1)
    else if c == COLON then (ColonT, q + 1)
    else if c == QUOTE then
      match ParseChars(d, q + 1, [])
      case BadChars => (ErrorT, q)
      case Chars(s, end) => (StringT(s), end)
    else if c == 45 || 48 <= c <= 57 then (NumberT, q)
    else if Matches(d, q, TRUE) then (BooleanT(true), q + 4)
    else if Matches(d, q, FALSE) then (BooleanT(false), q + 5)
    else if Matches(d, q, NULL) then (NullT, q + 4)
    else if NumberWord(d, q) then (NumberT, q)
    else (ErrorT, q)
  }

  /** White space before a token does not matter. */
  lemma {:induction false} SpacesSkipped(d: seq<byte>, p: nat, q: nat)
    requires p <= q <= |d| && forall k :: p <= k < q ==> IsSpace(d[k])
    ensures NextToken(d, p) == NextToken(d, q)
    decreases q - p
  {
    hide TokenAt;
    if p < q { SpacesSkipped(d, p + 1, q); }
  }

  // ---- values -----------------------------------------------------------------------------------

  /** A parse error, a number whose reading is not modelled, or a value and where it ends. */
  datatype Parsed = Fail | AtNumber | Ok(v: Value, end: nat)

  /** lua_rawset */
  function SetKey(pairs: seq<Pair>, key: seq<byte>, v: Value): seq<Pair> {
    if pairs == [] then [Pair(key, v)]
    else if pairs[0].key == key then [Pair(key, v)] + pairs[1..]
    else [pairs[0]] + SetKey(pairs[1..], key, v)
  }

  /** json_process_value for the token tok, which ends at p. */
  function ParseValue(d: seq<byte>, tok: Token, p: nat, depth: nat): (r: Parsed)
    requires p <= |d|
    ensures r.Ok? ==> p <= r.end <= |d|
    decreases |d| - p, 1
  {
    match tok
    case StringT(s) => Ok(Str(s), p)
    case BooleanT(b) => Ok(Bool(b), p)
    case NullT => Ok(Null, p)
    case NumberT => AtNumber
    case ObjBegin => ParseObject(d, p, depth)
    case ArrBegin => ParseArray(d, p, depth)
    case _ => Fail
  }

  /** json_parse_array_context; an empty array is the empty table. */
  function ParseArray(d: seq<byte>, p: nat, depth: nat): (r: Parsed)
    requires p <= |d|
    ensures r.Ok? ==> p <= r.end <= |d|
    decreases |d| - p, 0
  {
    if depth + 1 > MAX_DEPTH then Fail
    else
      var (tok, q) := NextToken(d, p);
      if tok == ArrEnd then Ok(Obj([]), q)
      else if tok == NumberT then AtNumber
      else if tok == End || tok == ErrorT then Fail
      else ParseItems(d, tok, q, depth + 1, [])
  }

  /** The loop of json_parse_array_context, with the elements acc behind it. */
  function ParseItems(d: seq<byte>, tok: Token, p: nat, depth: nat, acc: seq<Value>): (r: Parsed)
    requires p <= |d|
    ensures r.Ok? ==> p <= r.end <= |d|
    decreases |d| - p, 2
  {
    match ParseValue(d, tok, p, depth)
    case Fail => Fail
    case AtNumber => AtNumber
    case Ok(v, e) =>
      var (t, q) := NextToken(d, e);
      if t == ArrEnd then Ok(Arr(acc + [v]), q)
      else if t != CommaT then Fail
      else
        var (t', q') := NextToken(d, q);
        ParseItems(d, t', q', depth, acc + [v])
  }

  /** json_parse_object_context */
  function ParseObject(d: seq<byte>, p: nat, depth: nat): (r: Parsed)
    requires p <= |d|
    ensures r.Ok? ==> p <= r.end <= |d|
    decreases |d| - p, 0
  {
    if depth + 1 > MAX_DEPTH then Fail
    else
      var (tok, q) := NextToken(d, p);
      if tok == ObjEnd then Ok(Obj([]), q)
      else if !tok.StringT? then Fail
      else ParsePairs(d, tok.s, q, depth + 1, [])
  }

  /** The loop of json_parse_object_context, after the key. */
  function ParsePairs(d: seq<byte>, key: seq<byte>, p: nat, depth: nat, acc: seq<Pair>): (r: Parsed)
    requires p <= |d|
    ensures r.Ok? ==> p <= r.end <= |d|
    decreases |d| - p, 2
  {
    var (colon, q) := NextToken(d, p);
    if colon != ColonT then Fail
    else
      var (tok, q1) := NextToken(d, q);
      match ParseValue(d, tok, q1, depth)
      case Fail => Fail
      case AtNumber => AtNumber
      case Ok(v, e) =>
        var (t, q2) := NextToken(d, e);
        if t == ObjEnd then Ok(Obj(SetKey(acc, key, v)), q2)
        else if t != CommaT then Fail
        else
          var (k, q3) := NextToken(d, q2);
          if !k.StringT? then Fail else ParsePairs(d, k.s, q3, depth, SetKey(acc, key, v))
  }

  /** json_decode */
  function Decode(d: seq<byte>): Parsed {
    if |d| >= 2 && (d[0] == 0 || d[1] == 0) then Fail
    else
      var (tok, p) := NextToken(d, 0);
      match ParseValue(d, tok, p, 0)
      case Ok(v, e) => if NextToken(d, e).0 == End then Ok(v, e) else Fail
      case r => r
  }
}
