/** json_append_*: writing a value, core/lua-cjson/lua_cjson.c:461-699. */
module JsonEncode {
  import opened Strbuf
  import opened Json

  lemma CharsSnoc(s: seq<byte>, i: nat)
    requires i < |s|
    ensures EncodeChars(s[..i + 1]) == EncodeChars(s[..i]) + EncodeChar(s[i])
  {
    assert s[..i + 1][..i] == s[..i];
  }

  /** json_append_string: 6n + 2 bytes are reserved once, and the unsafe appends stay within
      them. */
  method AppendString(json: StringBuffer, s: seq<byte>)
    requires json.Valid()
    modifies json, json.buf
    ensures json.Valid() && json.Contents() == old(json.Contents()) + EncodeString(s)
    ensures json.buf == old(json.buf) || fresh(json.buf)
  {
    hide Escape, EncodeChar, StringBuffer.Contents, StringBuffer.Valid;
    json.EnsureEmptyLength(|s| * 6 + 2);
    json.AppendCharUnsafe(QUOTE);
    ghost var before := json.Contents();
    assert s[..0] == [] && before + [] == before;
    for i := 0 to |s|
      invariant json.Valid() && json.EmptyLength() >= 6 * (|s| - i) + 1
      invariant json.Contents() == before + EncodeChars(s[..i])
      invariant json.buf == old(json.buf) || fresh(json.buf)
    {
      AppendOne(json, s[i]);
      CharsSnoc(s, i);
      Associate(before, EncodeChars(s[..i]), EncodeChar(s[i]));
    }
    assert s[..|s|] == s;
    json.AppendCharUnsafe(QUOTE);
    Associate(old(json.Contents()), [QUOTE], EncodeChars(s));
    Associate(old(json.Contents()), [QUOTE] + EncodeChars(s), [QUOTE]);
  }

  lemma Associate<T>(a: seq<T>, b: seq<T>, c: seq<T>)
    ensures (a + b) + c == a + (b + c)
  {
  }

  /** An escape or the character itself. */
  method AppendOne(json: StringBuffer, c: byte)
    requires json.Valid() && json.EmptyLength() >= 6
    modifies json, json.buf
    ensures json.Valid() && json.Contents() == old(json.Contents()) + EncodeChar(c)
    ensures json.buf == old(json.buf) && json.EmptyLength() >= old(json.EmptyLength()) - 6
  {
    hide Escape, StringBuffer.Contents, StringBuffer.Valid;
    CharIs(c);
    var escstr := Escape(c);
    if escstr != [] {
      json.AppendString(escstr);
    } else {
      json.AppendCharUnsafe(c);
    }
  }

  lemma CharIs(c: byte)
    ensures EncodeChar(c) == (if Escape(c) != [] then Escape(c) else [c]) && |Escape(c)| <= 6
  {
  }

  /** Whether nothing in v is nested too deeply. */
  predicate Fits(v: Value, depth: nat) { Depth(v) == 0 || depth + Depth(v) <= MAX_DEPTH }

  /** json_append_data: the text of v is appended, unless tables are nested too deeply. */
  method AppendData(json: StringBuffer, v: Value, depth: nat) returns (ok: bool)
    requires json.Valid() && IsLua(v)
    modifies json, json.buf
    ensures json.Valid() && (json.buf == old(json.buf) || fresh(json.buf))
    ensures ok <==> Fits(v, depth)
    ensures ok ==> json.Contents() == old(json.Contents()) + Encode(v)
    decreases v, 1
  {
    hide EncodeString;
    ok := true;
    match v {
      case Str(s) => AppendString(json, s);
      case Bool(b) => json.AppendMem(if b then TRUE else FALSE);
      case Null => json.AppendMem(NULL);
      case Arr(items) =>
        if depth + 1 > MAX_DEPTH { return false; }
        ok := AppendArray(json, v, depth + 1);
      case Obj(pairs) =>
        if depth + 1 > MAX_DEPTH { return false; }
        ok := AppendObject(json, v, depth + 1);
    }
  }

  lemma ItemsSnoc(items: seq<Value>, i: nat)
    requires i < |items|
    ensures EncodeItems(items[..i + 1]) == EncodeItems(items[..i]) + (if i > 0 then [COMMA] else []) + Encode(items[i])
    ensures ItemsDepth(items[..i + 1]) == Max(ItemsDepth(items[..i]), Depth(items[i]))
  {
    assert items[..i + 1][..i] == items[..i];
  }

  lemma {:induction false} ItemsDepthMono(items: seq<Value>, i: nat)
    requires i <= |items|
    ensures ItemsDepth(items[..i]) <= ItemsDepth(items)
    decreases |items| - i
  {
    if i < |items| {
      ItemsSnoc(items, i);
      ItemsDepthMono(items, i + 1);
    } else {
      assert items[..i] == items;
    }
  }

  /** json_append_array */
  method AppendArray(json: StringBuffer, v: Value, depth: nat) returns (ok: bool)
    requires json.Valid() && v.Arr? && IsLua(v) && depth <= MAX_DEPTH
    modifies json, json.buf
    ensures json.Valid() && (json.buf == old(json.buf) || fresh(json.buf))
    ensures ok <==> depth + ItemsDepth(v.items) <= MAX_DEPTH
    ensures ok ==> json.Contents() == old(json.Contents()) + Encode(v)
    decreases v, 0
  {
    hide Depth, StringBuffer.Contents, StringBuffer.Valid;
    var items := v.items;
    json.AppendChar(LBRACKET);
    ghost var before := json.Contents();
    assert items[..0] == [] && before + [] == before;
    var comma := false;
    for i := 0 to |items|
      invariant json.Valid() && (json.buf == old(json.buf) || fresh(json.buf))
      invariant comma == (i > 0) && depth + ItemsDepth(items[..i]) <= MAX_DEPTH
      invariant json.Contents() == before + EncodeItems(items[..i])
    {
      ItemsSnoc(items, i);
      ItemsDepthMono(items, i + 1);
      ghost var done := json.Contents();
      if comma { json.AppendChar(COMMA); } else { comma := true; assert done + [] == done; }
      ok := AppendData(json, items[i], depth);
      if !ok { return; }
      Associate(before, EncodeItems(items[..i]), if i > 0 then [COMMA] else []);
      Associate(before, EncodeItems(items[..i]) + (if i > 0 then [COMMA] else []), Encode(items[i]));
    }
    assert items[..|items|] == items;
    json.AppendChar(RBRACKET);
    ok := true;
    Associate(old(json.Contents()), [LBRACKET], EncodeItems(items));
    Associate(old(json.Contents()), [LBRACKET] + EncodeItems(items), [RBRACKET]);
  }

  lemma PairsSnoc(pairs: seq<Pair>, i: nat)
    requires i < |pairs|
    ensures EncodePairs(pairs[..i + 1]) == EncodePairs(pairs[..i]) + (if i > 0 then [COMMA] else []) + EncodePair(pairs[i])
    ensures PairsDepth(pairs[..i + 1]) == Max(PairsDepth(pairs[..i]), Depth(pairs[i].val))
  {
    assert pairs[..i + 1][..i] == pairs[..i];
  }

  lemma {:induction false} PairsDepthMono(pairs: seq<Pair>, i: nat)
    requires i <= |pairs|
    ensures PairsDepth(pairs[..i]) <= PairsDepth(pairs)
    decreases |pairs| - i
  {
    if i < |pairs| {
      PairsSnoc(pairs, i);
      PairsDepthMono(pairs, i + 1);
    } else {
      assert pairs[..i] == pairs;
    }
  }

  lemma PairIs(at: seq<byte>, p: Pair)
    ensures ((at + EncodeString(p.key)) + [COLON]) + Encode(p.val) == at + EncodePair(p)
  {
    hide EncodeString, Encode;
    Associate(at, EncodeString(p.key), [COLON]);
    Associate(at, EncodeString(p.key) + [COLON], Encode(p.val));
  }

  /** json_append_object */
  method AppendObject(json: StringBuffer, v: Value, depth: nat) returns (ok: bool)
    requires json.Valid() && v.Obj? && IsLua(v) && depth <= MAX_DEPTH
    modifies json, json.buf
    ensures json.Valid() && (json.buf == old(json.buf) || fresh(json.buf))
    ensures ok <==> depth + PairsDepth(v.pairs) <= MAX_DEPTH
    ensures ok ==> json.Contents() == old(json.Contents()) + Encode(v)
    decreases v, 0
  {
    hide Depth, EncodeString, EncodePair, StringBuffer.Contents, StringBuffer.Valid;
    var pairs := v.pairs;
    json.AppendChar(LBRACE);
    ghost var before := json.Contents();
    assert pairs[..0] == [] && before + [] == before;
    var comma := false;
    for i := 0 to |pairs|
      invariant json.Valid() && (json.buf == old(json.buf) || fresh(json.buf))
      invariant comma == (i > 0) && depth + PairsDepth(pairs[..i]) <= MAX_DEPTH
      invariant json.Contents() == before + EncodePairs(pairs[..i])
    {
      PairsSnoc(pairs, i);
      PairsDepthMono(pairs, i + 1);
      ghost var done := json.Contents();
      if comma { json.AppendChar(COMMA); } else { comma := true; assert done + [] == done; }
      ghost var at := json.Contents();
      AppendString(json, pairs[i].key);
      json.AppendChar(COLON);
      ok := AppendData(json, pairs[i].val, depth);
      if !ok { return; }
      PairIs(at, pairs[i]);
      Associate(before, EncodePairs(pairs[..i]), if i > 0 then [COMMA] else []);
      Associate(before, EncodePairs(pairs[..i]) + (if i > 0 then [COMMA] else []), EncodePair(pairs[i]));
    }
    assert pairs[..|pairs|] == pairs;
    json.AppendChar(RBRACE);
    ok := true;
    Associate(old(json.Contents()), [LBRACE], EncodePairs(pairs));
    Associate(old(json.Contents()), [LBRACE] + EncodePairs(pairs), [RBRACE]);
  }

  /** json_encode */
  method JsonEncode(v: Value) returns (ok: bool, text: seq<byte>)
    requires IsLua(v)
    ensures ok <==> Depth(v) <= MAX_DEPTH
    ensures ok ==> text == Encode(v)
  {
    var json := new StringBuffer(0);
    ok := AppendData(json, v, 0);
    text := json.buf[..json.length];
  }
}
