/** The meaning of an LZ77 token stream: section 3.2.3 of RFC 1951.
    The compressor (module Deflate) and the two decoders (modules InflateFast
    and InflateBack) are all proved against the functions of this module. */
module Lz77 {
  type byte = bv8

  const MIN_MATCH: nat := 3
  const MAX_MATCH: nat := 258

  datatype Option<+T> = None | Some(value: T)

  datatype Token =
    | Literal(c: byte)
    | Match(dist: nat, len: nat)

  /** Appends len bytes to out, each one a copy of the byte dist places back;
      source and destination may overlap, as they do for dist < len. */
  function CopyBack<T>(out: seq<T>, dist: nat, len: nat): (r: seq<T>)
    requires 1 <= dist <= |out|
    ensures |r| == |out| + len
    ensures r[..|out|] == out
    decreases len
  {
    if len == 0 then out
    else
      var next := out + [out[|out| - dist]];
      assert next[..|out|] == out;
      var r := CopyBack(next, dist, len - 1);
      assert r[..|out|] == r[..|next|][..|out|];
      r
  }

  /** Expanding one token after the bytes already produced; a distance that
      reaches before the first byte has no meaning. */
  function Emit(out: seq<byte>, t: Token): Option<seq<byte>> {
    match t
    case Literal(c) => Some(out + [c])
    case Match(dist, len) => if 1 <= dist <= |out| then Some(CopyBack(out, dist, len)) else None
  }

  function Expand(ts: seq<Token>): Option<seq<byte>> {
    if ts == [] then Some([])
    else
      match Expand(ts[..|ts| - 1])
      case None => None
      case Some(out) => Emit(out, ts[|ts| - 1])
  }

  lemma ExpandSnoc(ts: seq<Token>, t: Token)
    ensures Expand(ts + [t]) ==
            match Expand(ts) { case None => None case Some(out) => Emit(out, t) }
  {
    assert (ts + [t])[..|ts|] == ts;
  }

  /** The len bytes of data at pos repeat those dist places earlier. */
  ghost predicate IsMatch<T>(data: seq<T>, pos: nat, dist: nat, len: nat) {
    && 1 <= dist <= pos
    && pos + len <= |data|
    && forall i :: pos <= i < pos + len ==> data[i] == data[i - dist]
  }

  /** The bytewise copy rebuilds data from a true match, and from nothing else. */
  lemma {:induction false} CopyBackIsMatch<T>(data: seq<T>, pos: nat, dist: nat, len: nat)
    requires 1 <= dist <= pos && pos + len <= |data|
    ensures CopyBack(data[..pos], dist, len) == data[..pos + len] <==> IsMatch(data, pos, dist, len)
    decreases len
  {
    if len > 0 {
      var next := data[..pos] + [data[pos - dist]];
      var r := CopyBack(next, dist, len - 1);
      assert r[..pos + 1] == next;
      if data[pos] == data[pos - dist] {
        assert next == data[..pos + 1];
        CopyBackIsMatch(data, pos + 1, dist, len - 1);
      } else {
        assert r[pos] == next[pos];
        assert data[..pos + len][pos] == data[pos];
      }
    }
  }

  /** Every byte of a copy is the byte dist places before it. */
  lemma {:induction false} CopyBackAt<T>(out: seq<T>, dist: nat, len: nat, k: nat)
    requires 1 <= dist <= |out| && k < len
    ensures CopyBack(out, dist, len)[|out| + k] == CopyBack(out, dist, len)[|out| + k - dist]
    decreases len
  {
    var next := out + [out[|out| - dist]];
    var r := CopyBack(next, dist, len - 1);
    if k == 0 {
      assert r[..|next|] == next;
      assert r[|out|] == next[|out|];
      assert r[|out| - dist] == next[|out| - dist];
    } else {
      CopyBackAt(next, dist, len - 1, k - 1);
    }
  }

  /** Copying in two pieces is copying once. */
  lemma {:induction false} CopyBackSplit<T>(out: seq<T>, dist: nat, m: nat, n: nat)
    requires 1 <= dist <= |out|
    ensures CopyBack(CopyBack(out, dist, m), dist, n) == CopyBack(out, dist, m + n)
    decreases m
  {
    if m > 0 {
      CopyBackSplit(out + [out[|out| - dist]], dist, m - 1, n);
    }
  }
}
