/** What the \u escapes of a JSON string mean: UTF-16 code units read as UTF-8,
    core/lua-cjson/lua_cjson.c:750-873. */
module JsonUnicode {
  import opened Strbuf
  import opened Json
  import opened JsonGrammar
  import Unicode

  /** A code point that is no surrogate. */
  predicate IsScalar(cp: nat) { cp < 0xD800 || 0xE000 <= cp < 0x11_0000 }

  /** codepoint_to_utf8 writes the UTF-8 encoding: it decodes back to the code point, whatever follows. */
  lemma Utf8Decodes(cp: nat, rest: seq<byte>)
    requires cp < 0x11_0000
    ensures Utf8(cp) == Unicode.EncodeRune(cp)
    ensures Unicode.DecodeRune(Utf8(cp) + rest) == Unicode.RuneStrLite(cp, |Utf8(cp)|)
  {
    assert Utf8(cp) == Unicode.EncodeRune(cp);
    hide Utf8, Unicode.EncodeRune, Unicode.DecodeRune;
    Unicode.DecodeEncoded(cp, rest);
  }

  /** The code units of a scalar value, section 2.1 of RFC 2781. */
  function Utf16(cp: nat): (units: seq<nat>)
    requires IsScalar(cp)
    ensures 1 <= |units| <= 2
  {
    if cp < 0x1_0000 then [cp]
    else [0xD800 + (cp - 0x1_0000) / 0x400, 0xDC00 + (cp - 0x1_0000) % 0x400]
  }

  /** The units as \u escapes, one after the other, from position p on. */
  ghost predicate Spelled(d: seq<byte>, p: nat, units: seq<nat>)
    requires p <= |d|
  {
    forall i :: 0 <= i < |units| ==> UnitAt(d, p + 6 * i, units[i])
  }

  ghost predicate UnitAt(d: seq<byte>, p: nat, unit: nat) {
    p + 6 <= |d| && d[p] == BACKSLASH && d[p + 1] == 117 && Hex4(d, p + 2) == unit
  }

  lemma PairBack(cp: nat)
    requires 0x1_0000 <= cp < 0x11_0000
    ensures var hi, lo := Utf16(cp)[0], Utf16(cp)[1];
            0xD800 <= hi < 0xDC00 <= lo < 0xE000 && (hi - 0xD800) * 0x400 + (lo - 0xDC00) + 0x1_0000 == cp
  {
  }

  /** Escapes that spell a scalar value are read as its UTF-8 encoding, all of them and no more. */
  lemma ReadsSpelled(d: seq<byte>, p: nat, cp: nat)
    requires p + 2 <= |d| && IsScalar(cp) && Spelled(d, p, Utf16(cp))
    ensures UnicodeEscape(d, p) == Escaped(Unicode.EncodeRune(cp), 6 * |Utf16(cp)|)
  {
    Utf8Decodes(cp, []);
    hide Utf8, Unicode.EncodeRune, Unicode.DecodeRune, Hex4;
    assert UnitAt(d, p + 6 * 0, Utf16(cp)[0]);
    if cp >= 0x1_0000 {
      assert UnitAt(d, p + 6 * 1, Utf16(cp)[1]);
      PairBack(cp);
      ReadsPair(d, p, Utf16(cp)[0], Utf16(cp)[1], cp);
    }
  }

  lemma ReadsPair(d: seq<byte>, p: nat, hi: nat, lo: nat, cp: nat)
    requires p + 2 <= |d| && UnitAt(d, p, hi) && UnitAt(d, p + 6, lo) && 0xD800 <= hi < 0xDC00 <= lo < 0xE000
    requires (hi - 0xD800) * 0x400 + (lo - 0xDC00) + 0x1_0000 == cp < 0x11_0000
    ensures UnicodeEscape(d, p) == Escaped(Utf8(cp), 12)
  {
    hide Utf8, Hex4;
  }

  /** And nothing else is accepted: an escape is read exactly if a scalar value is spelled there. */
  lemma OnlySpelled(d: seq<byte>, p: nat) returns (cp: nat)
    requires p + 2 <= |d| && d[p] == BACKSLASH && d[p + 1] == 117 && UnicodeEscape(d, p).Escaped?
    ensures IsScalar(cp) && Spelled(d, p, Utf16(cp))
  {
    hide Utf8, Hex4;
    var unit := Hex4(d, p + 2);
    if 0xD800 <= unit < 0xE000 {
      var low := Hex4(d, p + 8);
      cp := (unit - 0xD800) * 0x400 + (low - 0xDC00) + 0x1_0000;
      assert UnitAt(d, p, unit) && UnitAt(d, p + 6, low);
      assert Utf16(cp) == [unit, low];
    } else {
      cp := unit;
      assert UnitAt(d, p, unit);
    }
  }

  lemma EscapeIff(d: seq<byte>, p: nat)
    requires p + 2 <= |d| && d[p] == BACKSLASH && d[p + 1] == 117
    ensures UnicodeEscape(d, p).Escaped? <==> exists cp: nat :: IsScalar(cp) && Spelled(d, p, Utf16(cp))
  {
    hide UnicodeEscape, Spelled, Utf16;
    if UnicodeEscape(d, p).Escaped? {
      var cp := OnlySpelled(d, p);
    }
    forall cp: nat | IsScalar(cp) && Spelled(d, p, Utf16(cp)) ensures UnicodeEscape(d, p).Escaped? {
      ReadsSpelled(d, p, cp);
    }
  }
}
