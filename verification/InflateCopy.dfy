/** Copying a match from the window and the output, core/zlib/inffast.c:177-262.
    The output may be the window itself, as it is for inflateBack. */
module InflateCopy {
  import opened BitInput
  import opened Lz77

  /** One match being copied: the window's shape, what was produced before the output
      began, what was produced before the match, and the match's distance. */
  datatype Job = Job(wsize: nat, wnext: nat, whist: seq<octet>, before: seq<octet>, dist: nat)

  /** Where the window keeps the byte k places before the output began. */
  function WindowPos(wsize: nat, wnext: nat, k: nat): int {
    if k <= wnext then wnext - k else wsize + wnext - k
  }

  /** The window holds the last bytes of whist, except those that output written into the
      window itself has replaced. */
  ghost predicate WindowOk(out: array<octet>, window: array<octet>, wsize: nat, wnext: nat,
                           whist: seq<octet>, put: nat)
    reads window
  {
    && wnext <= wsize <= window.Length && put <= out.Length
    && (if window == out then wnext == 0 && wsize == out.Length else |whist| <= wsize)
    && forall k: nat :: 1 <= k <= |whist| && k <= wsize && (window == out ==> put + k <= wsize) ==>
                        window[WindowPos(wsize, wnext, k)] == whist[|whist| - k]
  }

  /** Everything produced: before the output began, and in the output. */
  ghost function Hist(whist: seq<octet>, out: array<octet>, put: nat): seq<octet>
    requires put <= out.Length
    reads out
  {
    whist + out[..put]
  }

  /** The match is copied as far as put. */
  ghost predicate Progress(out: array<octet>, window: array<octet>, g: Job, put: nat)
    reads out, window
  {
    && WindowOk(out, window, g.wsize, g.wnext, g.whist, put)
    && 1 <= g.dist <= |g.before| <= |g.whist| + put
    && Hist(g.whist, out, put) == CopyBack(g.before, g.dist, |g.whist| + put - |g.before|)
  }

  /** The pointer from = base + i leads to the next n bytes of the match. */
  ghost predicate SourceOk(out: array<octet>, window: array<octet>, g: Job, put: nat,
                           base: array<octet>, i: int, n: nat)
  {
    || n == 0
    || (base == out && i == put - g.dist >= 0)
    || (base == window && put + n <= g.dist <= |g.whist| + put && g.dist <= g.wsize + (if window == out then 0 else put)
        && i == WindowPos(g.wsize, g.wnext, g.dist - put)
        && (g.dist - put <= g.wnext || g.wnext + put + n <= g.dist))
  }

  lemma CopyStep(h: seq<octet>, before: seq<octet>, dist: nat, m: nat)
    requires 1 <= dist <= |before| && h == CopyBack(before, dist, m)
    ensures h + [h[|h| - dist]] == CopyBack(before, dist, m + 1)
  {
    CopyBackSplit(before, dist, m, 1);
    assert CopyBack(h, dist, 1) == CopyBack(h + [h[|h| - dist]], dist, 0);
  }

  /** The source pointer points to the byte dist places back. */
  lemma SourceByte(out: array<octet>, window: array<octet>, g: Job, put: nat, base: array<octet>, i: int, n: nat)
    requires Progress(out, window, g, put) && SourceOk(out, window, g, put, base, i, n) && n > 0
    ensures 0 <= i < base.Length
    ensures |Hist(g.whist, out, put)| >= g.dist
    ensures base[i] == Hist(g.whist, out, put)[|g.whist| + put - g.dist]
  {
    if base == out && i == put - g.dist {
    } else {
      var k: nat := g.dist - put;
      assert window[WindowPos(g.wsize, g.wnext, k)] == g.whist[|g.whist| - k];
    }
  }

  /** *out++ = *from++; */
  method CopyByte(out: array<octet>, window: array<octet>, ghost g: Job, put: nat,
                  base: array<octet>, i: int, ghost n: nat)
    requires Progress(out, window, g, put) && put < out.Length
    requires SourceOk(out, window, g, put, base, i, n) && n > 0
    modifies out
    ensures Progress(out, window, g, put + 1)
    ensures SourceOk(out, window, g, put + 1, base, i + 1, n - 1)
  {
    SourceByte(out, window, g, put, base, i, n);
    ghost var h := Hist(g.whist, out, put);
    CopyStep(h, g.before, g.dist, |g.whist| + put - |g.before|);
    out[put] := base[i];
    assert Hist(g.whist, out, put + 1) == h + [out[put]];
  }

  /** do *out++ = *from++; while (--op); */
  method CopyRun(out: array<octet>, window: array<octet>, ghost g: Job, put: nat,
                 base: array<octet>, i: int, op: nat) returns (put': nat)
    requires Progress(out, window, g, put) && 1 <= op && put + op <= out.Length
    requires SourceOk(out, window, g, put, base, i, op)
    modifies out
    ensures put' == put + op && Progress(out, window, g, put')
  {
    hide Progress, SourceOk;
    put' := put;
    var from, left := i, op;
    while left > 0
      invariant put' + left == put + op
      invariant Progress(out, window, g, put') && SourceOk(out, window, g, put', base, from, left)
    {
      CopyByte(out, window, g, put', base, from, left);
      put', from, left := put' + 1, from + 1, left - 1;
    }
  }

  /** The rest of the match, three bytes at a time. */
  method CopyByThree(out: array<octet>, window: array<octet>, ghost g: Job, put: nat,
                     base: array<octet>, i: int, len: nat) returns (put': nat)
    requires Progress(out, window, g, put) && put + len <= out.Length
    requires SourceOk(out, window, g, put, base, i, len)
    modifies out
    ensures put' == put + len && Progress(out, window, g, put')
  {
    hide Progress, SourceOk;
    put' := put;
    var from, left := i, len;
    while left > 2
      invariant put' + left == put + len
      invariant Progress(out, window, g, put') && SourceOk(out, window, g, put', base, from, left)
    {
      CopyByte(out, window, g, put', base, from, left);
      CopyByte(out, window, g, put' + 1, base, from + 1, left - 1);
      CopyByte(out, window, g, put' + 2, base, from + 2, left - 2);
      put', from, left := put' + 3, from + 3, left - 3;
    }
    if left > 0 {
      CopyByte(out, window, g, put', base, from, left);
      put' := put' + 1;
      if left > 1 {
        CopyByte(out, window, g, put', base, from + 1, left - 1);
        put' := put' + 1;
      }
    }
  }

  /** A match that begins in the window: up to three pieces, from the end of the window,
      from its start, and from the output. */
  method CopyFromWindow(out: array<octet>, window: array<octet>, ghost g: Job, wsize: nat, wnext: nat,
                        put: nat, len: nat, dist: nat) returns (put': nat)
    requires g.wsize == wsize && g.wnext == wnext && g.dist == dist
    requires Progress(out, window, g, put) && put + len <= out.Length && put < dist && dist - put <= wsize && 1 <= len
    requires dist <= |g.whist| + put && (window == out ==> dist <= wsize)
    modifies out
    ensures put' == put + len && Progress(out, window, g, put')
  {
    hide Progress;
    put' := put;
    var op, left := dist - put, len;
    var base, from;
    if wnext == 0 {
      base, from := window, wsize - op;
      if op < left {
        left := left - op;
        put' := CopyRun(out, window, g, put', base, from, op);
        base, from := out, put' - dist;
      }
    } else if wnext < op {
      base, from := window, wsize + wnext - op;
      op := op - wnext;
      if op < left {
        left := left - op;
        put' := CopyRun(out, window, g, put', base, from, op);
        base, from := window, 0;
        if wnext < left {
          op := wnext;
          left := left - op;
          put' := CopyRun(out, window, g, put', base, from, op);
          base, from := out, put' - dist;
        }
      }
    } else {
      base, from := window, wnext - op;
      if op < left {
        left := left - op;
        put' := CopyRun(out, window, g, put', base, from, op);
        base, from := out, put' - dist;
      }
    }
    put' := CopyByThree(out, window, g, put', base, from, left);
  }
}
