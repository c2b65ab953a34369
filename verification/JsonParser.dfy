/** The parser of lua-cjson with its pointer and its temporary string buffer,
    core/lua-cjson/lua_cjson.c:817-1289. */
module JsonParser {
  import opened Strbuf
  import opened Json
  import opened JsonGrammar

  class JsonParse {
    const data: seq<byte>
    var ptr: nat
    const tmp: StringBuffer
    var depth: nat

    /** The pointer never passes the terminator, and the temporary string has room for all
        of the data. */
    ghost predicate Valid()
      reads this, tmp
    {
      ptr <= |data| && tmp.Valid() && |data| <= tmp.size - 1
    }

    constructor (data: seq<byte>)
      ensures Valid() && this.data == data && ptr == 0 && depth == 0 && fresh(tmp) && fresh(tmp.buf)
    {
      this.data, ptr, depth := data, 0, 0;
      tmp := new StringBuffer(|data|);
    }

    /** *ptr, *(ptr + 1) and so on: never past the terminator. */
    method Peek(i: nat) returns (c: byte)
      requires ptr + i <= |data|
      ensures c == At(data, ptr + i)
    {
      c := if ptr + i < |data| then data[ptr + i] else 0;
    }

    /** decode_hex4(ptr + i) */
    method DecodeHex4(i: nat) returns (v: int)
      requires ptr + i <= |data|
      ensures v == Hex4(data, ptr + i)
    {
      var digits := [];
      for k := 0 to 4
        invariant |digits| == k && ptr + i + k <= |data|
        invariant forall j :: 0 <= j < k ==> 0 <= digits[j] == HexValue(At(data, ptr + i + j))
      {
        var c := Peek(i + k);
        var digit := HexValue(c);
        if digit < 0 { return -1; }
        digits := digits + [digit];
      }
      v := ((digits[0] * 16 + digits[1]) * 16 + digits[2]) * 16 + digits[3];
    }

    /** json_append_unicode_escape: at most as many bytes are appended as are consumed. */
    method AppendUnicodeEscape() returns (ok: bool)
      requires ptr + 2 <= |data| && tmp.Valid() && tmp.EmptyLength() >= |data| - ptr
      modifies `ptr, tmp`length, tmp.buf
      ensures var r := UnicodeEscape(data, old(ptr));
              if r.Escaped? then ok && ptr == old(ptr) + r.len && tmp.Valid() && tmp.Contents() == old(tmp.Contents()) + r.bytes
                                 && tmp.EmptyLength() == old(tmp.EmptyLength()) - |r.bytes|
              else !ok && ptr == old(ptr) && tmp.Valid() && tmp.EmptyLength() == old(tmp.EmptyLength())
    {
      hide Utf8, Hex4;
      var escapeLen := 6;
      var codepoint := DecodeHex4(2);
      if codepoint < 0 { return false; }
      if 0xD800 <= codepoint < 0xE000 {
        if codepoint >= 0xDC00 { return false; }
        var c := Peek(6);
        if c != BACKSLASH { return false; }
        c := Peek(7);
        if c != 117 { return false; }
        var low := DecodeHex4(8);
        if low < 0 { return false; }
        if !(0xDC00 <= low < 0xE000) { return false; }
        codepoint := (codepoint - 0xD800) * 0x400 + (low - 0xDC00) + 0x1_0000;
        escapeLen := 12;
      }
      tmp.AppendMemUnsafe(Utf8(codepoint));
      ptr := ptr + escapeLen;
      ok := true;
    }
  
    /** json_next_string_token: the decoded string is never longer than the text consumed,
        so the unsafe appends stay within the buffer. */
    method NextStringToken() returns (token: Token)
      requires Valid() && ptr < |data| && data[ptr] == QUOTE
      modifies `ptr, tmp`length, tmp.buf
      ensures Valid() && old(ptr) <= ptr
      ensures match ParseChars(data, old(ptr) + 1, [])
              case BadChars => token == ErrorT
              case Chars(s, end) => token == StringT(s) && ptr == end
    {
      ptr := ptr + 1;
      tmp.Reset();
      var ch := Peek(0);
      hide ParseChars, CharAt;
      while ch != QUOTE
        invariant old(ptr) <= ptr <= |data| && tmp.Valid() && tmp.EmptyLength() >= |data| - ptr
        invariant ch == At(data, ptr)
        invariant ParseChars(data, old(ptr) + 1, []) == ParseChars(data, ptr, tmp.Contents())
        decreases |data| - ptr
      {
        CharsStep(data, ptr, tmp.Contents());
        if ch == 0 { return ErrorT; }
        var ok := StringChar(ch);
        if !ok { return ErrorT; }
        ch := Peek(0);
      }
      CharsStep(data, ptr, tmp.Contents());
      ptr := ptr + 1;
      tmp.EnsureNull();
      token := StringT(tmp.buf[..tmp.length]);
    }

    /** One character or escape inside a string. */
    method StringChar(ch0: byte) returns (ok: bool)
      requires ptr < |data| && ch0 == data[ptr] && ch0 != QUOTE && ch0 != 0
      requires tmp.Valid() && tmp.EmptyLength() >= |data| - ptr
      modifies `ptr, tmp`length, tmp.buf
      ensures tmp.Valid() && old(ptr) <= ptr <= |data| && tmp.EmptyLength() >= |data| - ptr
      ensures ok ==> old(ptr) < ptr
      ensures var next := CharAt(data, old(ptr));
              if next.BadEscape? then !ok
              else ok && ptr == old(ptr) + next.len && tmp.Contents() == old(tmp.Contents()) + next.bytes
    {
      hide UnicodeEscape;
      var ch := ch0;
      if ch == BACKSLASH {
        var c := Peek(1);
        ch := Unescape(c);
        if ch == 117 {
          ok := AppendUnicodeEscape();
          return;
        }
        if ch == 0 { return false; }
        ptr := ptr + 1;
      }
      tmp.AppendCharUnsafe(ch);
      ptr := ptr + 1;
      ok := true;
    }

    /** json_next_token */
    method Next() returns (token: Token)
      requires Valid()
      modifies `ptr, tmp`length, tmp.buf
      ensures Valid() && token == NextToken(data, old(ptr)).0
      ensures Advances(token) ==> ptr == NextToken(data, old(ptr)).1
      ensures old(ptr) <= ptr && (Advances(token) && token != End ==> old(ptr) < ptr)
    {
      hide ParseChars;
      var ch := Peek(0);
      while IsSpace(ch)
        invariant Valid() && ch == At(data, ptr) && SkipSpace(data, old(ptr)) == SkipSpace(data, ptr)
        decreases |data| - ptr
      {
        ptr := ptr + 1;
        ch := Peek(0);
      }
      if ch == 0 { return End; }
      if ch == QUOTE {
        token := NextStringToken();
        return;
      }
      token := OtherToken(ch);
    }

    /** A token that is no string. */
    method OtherToken(ch: byte) returns (token: Token)
      requires Valid() && ptr < |data| && ch == data[ptr] && ch != QUOTE && ch != 0
      modifies `ptr
      ensures Valid() && old(ptr) <= ptr && token == TokenAt(data, old(ptr)).0
      ensures Advances(token) ==> ptr == TokenAt(data, old(ptr)).1
    {
      if ch == LBRACE || ch == RBRACE || ch == LBRACKET || ch == RBRACKET || ch == COMMA || ch == COLON {
        ptr := ptr + 1;
        return Punctuation(ch);
      }
      if ch == 45 || 48 <= ch <= 57 { return NumberT; }
      if Matches(data, ptr, TRUE) {
        ptr := ptr + 4;
        return BooleanT(true);
      }
      if Matches(data, ptr, FALSE) {
        ptr := ptr + 5;
        return BooleanT(false);
      }
      if Matches(data, ptr, NULL) {
        ptr := ptr + 4;
        return NullT;
      }
      token := if NumberWord(data, ptr) then NumberT else ErrorT;
    }

    /** json_process_value */
    method ProcessValue(token: Token) returns (r: Parsed)
      requires Valid()
      modifies `ptr, `depth, tmp`length, tmp.buf
      ensures Valid() && old(ptr) <= ptr && r == ParseValue(data, token, old(ptr), old(depth))
      ensures r.Ok? ==> ptr == r.end && depth == old(depth)
      decreases |data| - ptr, 1
    {
      match token {
        case StringT(s) => r := Ok(Str(s), ptr);
        case BooleanT(b) => r := Ok(Bool(b), ptr);
        case NullT => r := Ok(Null, ptr);
        case NumberT => r := AtNumber;
        case ObjBegin => r := ObjectContext();
        case ArrBegin => r := ArrayContext();
        case _ => r := Fail;
      }
    }

    /** json_parse_array_context */
    method ArrayContext() returns (r: Parsed)
      requires Valid()
      modifies `ptr, `depth, tmp`length, tmp.buf
      ensures Valid() && old(ptr) <= ptr && r == ParseArray(data, old(ptr), old(depth))
      ensures r.Ok? ==> ptr == r.end && depth == old(depth)
      decreases |data| - ptr, 0
    {
      hide NextToken, ParseValue, ParseItems;
      if depth + 1 > MAX_DEPTH { return Fail; }
      depth := depth + 1;
      var token := Next();
      if token == ArrEnd {
        depth := depth - 1;
        return Ok(Obj([]), ptr);
      }
      if token == NumberT { return AtNumber; }
      if token == End || token == ErrorT { return Fail; }
      r := Items(token);
    }

    /** The loop of json_parse_array_context. */
    method Items(first: Token) returns (r: Parsed)
      requires Valid() && depth >= 1
      modifies `ptr, `depth, tmp`length, tmp.buf
      ensures Valid() && old(ptr) <= ptr && r == ParseItems(data, first, old(ptr), old(depth), [])
      ensures r.Ok? ==> ptr == r.end && depth == old(depth) - 1
      decreases |data| - ptr, 2
    {
      hide NextToken, ParseValue, ParseItems;
      var token := first;
      var items := [];
      while true
        invariant Valid() && depth == old(depth) && old(ptr) <= ptr
        invariant ParseItems(data, first, old(ptr), old(depth), []) ==
                  if Advances(token) || token == first then ParseItems(data, token, ptr, depth, items) else Stuck(token)
        decreases |data| - ptr
      {
        ItemsStep(data, token, ptr, depth, items);
        r := ProcessValue(token);
        if !r.Ok? { return; }
        items := items + [r.v];
        ghost var e := ptr;
        token := Next();
        if token == ArrEnd {
          depth := depth - 1;
          return Ok(Arr(items), ptr);
        }
        if token != CommaT { return Fail; }
        ghost var q := ptr;
        token := Next();
        ItemsStep(data, token, NextToken(data, q).1, depth, items);
        ItemsStep(data, token, ptr, depth, items);
      }
    }

    /** json_parse_object_context */
    method ObjectContext() returns (r: Parsed)
      requires Valid()
      modifies `ptr, `depth, tmp`length, tmp.buf
      ensures Valid() && old(ptr) <= ptr && r == ParseObject(data, old(ptr), old(depth))
      ensures r.Ok? ==> ptr == r.end && depth == old(depth)
      decreases |data| - ptr, 0
    {
      hide NextToken, ParseValue, ParsePairs;
      if depth + 1 > MAX_DEPTH { return Fail; }
      depth := depth + 1;
      var token := Next();
      if token == ObjEnd {
        depth := depth - 1;
        return Ok(Obj([]), ptr);
      }
      if !token.StringT? { return Fail; }
      r := Pairs(token.s);
    }

    /** The loop of json_parse_object_context, after the first key. */
    method Pairs(first: seq<byte>) returns (r: Parsed)
      requires Valid() && depth >= 1
      modifies `ptr, `depth, tmp`length, tmp.buf
      ensures Valid() && old(ptr) <= ptr && r == ParsePairs(data, first, old(ptr), old(depth), [])
      ensures r.Ok? ==> ptr == r.end && depth == old(depth) - 1
      decreases |data| - ptr, 2
    {
      hide NextToken, ParseValue, ParsePairs, SetKey;
      var key := first;
      var pairs := [];
      while true
        invariant Valid() && depth == old(depth) && old(ptr) <= ptr
        invariant ParsePairs(data, first, old(ptr), old(depth), []) == ParsePairs(data, key, ptr, depth, pairs)
        decreases |data| - ptr
      {
        PairsStep(data, key, ptr, depth, pairs);
        var token := Next();
        if token != ColonT { return Fail; }
        ghost var c := ptr;
        token := Next();
        StuckValue(data, token, NextToken(data, c).1, depth);
        StuckValue(data, token, ptr, depth);
        r := ProcessValue(token);
        if !r.Ok? { return; }
        pairs := SetKey(pairs, key, r.v);
        token := Next();
        if token == ObjEnd {
          depth := depth - 1;
          return Ok(Obj(pairs), ptr);
        }
        if token != CommaT { return Fail; }
        token := Next();
        if !token.StringT? { return Fail; }
        key := token.s;
      }
    }

    /** json_decode */
    method Decode() returns (r: Parsed)
      requires Valid() && ptr == 0 && depth == 0
      modifies `ptr, `depth, tmp`length, tmp.buf
      ensures r == JsonGrammar.Decode(data)
    {
      hide NextToken, ParseValue;
      if |data| >= 2 && (data[0] == 0 || data[1] == 0) { return Fail; }
      var token := Next();
      StuckValue(data, token, NextToken(data, 0).1, 0);
      StuckValue(data, token, ptr, 0);
      r := ProcessValue(token);
      if !r.Ok? { return; }
      token := Next();
      if token != End { r := Fail; }
    }
  }

  /** The character or escape at p, which is neither a quote nor the terminator. */
  function CharAt(d: seq<byte>, p: nat): (r: Escaped)
    requires p < |d|
    ensures r.Escaped? ==> 0 < |r.bytes| <= r.len && p + r.len <= |d|
  {
    if d[p] != BACKSLASH then Escaped([d[p]], 1)
    else
      var e := Unescape(At(d, p + 1));
      if e == 117 then UnicodeEscape(d, p) else if e == 0 then BadEscape else Escaped([e], 2)
  }

  lemma CharsStep(d: seq<byte>, p: nat, acc: seq<byte>)
    requires p <= |d|
    ensures ParseChars(d, p, acc) ==
            if At(d, p) == QUOTE then Chars(acc, p + 1)
            else if At(d, p) == 0 then BadChars
            else if CharAt(d, p).BadEscape? then BadChars
            else ParseChars(d, p + CharAt(d, p).len, acc + CharAt(d, p).bytes)
  {
    hide UnicodeEscape;
  }

  /** The tokens after which the pointer stands behind them. */
  predicate Advances(t: Token) { t != ErrorT && t != NumberT }

  lemma {:induction false} ItemsStep(d: seq<byte>, tok: Token, p: nat, depth: nat, acc: seq<Value>)
    requires p <= |d|
    ensures ParseItems(d, tok, p, depth, acc) ==
            match ParseValue(d, tok, p, depth)
            case Fail => Fail
            case AtNumber => AtNumber
            case Ok(v, e) =>
              var (t, q) := NextToken(d, e);
              if t == ArrEnd then Ok(Arr(acc + [v]), q)
              else if t != CommaT then Fail
              else var (t', q') := NextToken(d, q); ParseItems(d, t', q', depth, acc + [v])
    ensures !Advances(tok) ==> ParseItems(d, tok, p, depth, acc) == Stuck(tok)
  {
  }

  /** What an error or a number makes of any value, wherever the pointer is. */
  function Stuck(t: Token): Parsed { if t == NumberT then AtNumber else Fail }

  lemma StuckValue(d: seq<byte>, tok: Token, p: nat, depth: nat)
    requires p <= |d|
    ensures !Advances(tok) ==> ParseValue(d, tok, p, depth) == Stuck(tok)
  {
  }

  lemma {:induction false} PairsStep(d: seq<byte>, key: seq<byte>, p: nat, depth: nat, acc: seq<Pair>)
    requires p <= |d|
    ensures ParsePairs(d, key, p, depth, acc) ==
            var (colon, q) := NextToken(d, p);
            if colon != ColonT then Fail
            else
              var (tok, q1) := NextToken(d, q);
              match ParseValue(d, tok, q1, depth)
              case Fail => Fail
              case AtNumber => AtNumber
              case Ok(v, e) =>
                var (t, q2) := NextToken(d, e);
                if t == ObjEnd then Ok(Obj(SetKey(acc, key, v)), q2)
                else if t != CommaT then Fail
                else
                  var (k, q3) := NextToken(d, q2);
                  if !k.StringT? then Fail else ParsePairs(d, k.s, q3, depth, SetKey(acc, key, v))
  {
  }
}
