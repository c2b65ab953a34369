/** The growing byte buffer of lua-cjson, core/lua-cjson/strbuf.h and core/lua-cjson/strbuf.c. */
module Strbuf {
  type byte = n: nat | n < 0x100

  const DEFAULT_SIZE: nat := 1023

  class StringBuffer {
    var buf: array<byte>
    var size: nat
    var length: nat

    /** There is always room for a terminator. */
    ghost predicate Valid()
      reads this
    {
      size == buf.Length && length < size
    }

    ghost function Contents(): seq<byte>
      requires Valid()
      reads this, buf
    {
      buf[..length]
    }

    /** Lstrbuf_new and Lstrbuf_init */
    constructor (len: int)
      ensures Valid() && fresh(buf) && Contents() == []
      ensures EmptyLength() == if len <= 0 then DEFAULT_SIZE - 1 else len
    {
      var n := if len <= 0 then DEFAULT_SIZE else len + 1;
      buf, size, length := new byte[n], n, 0;
      new;
      EnsureNull();
    }

    /** Room left, not counting the terminator. */
    function EmptyLength(): int
      reads this
    {
      size - length - 1
    }

    method Reset()
      requires Valid()
      modifies `length
      ensures Valid() && Contents() == []
    {
      length := 0;
    }

    method EnsureNull()
      requires Valid()
      modifies buf
      ensures Valid() && Contents() == old(Contents()) && buf[length] == 0
    {
      buf[length] := 0;
    }

    /** calculate_new_size: exactly what is needed to shrink, and otherwise as many doublings
        as it takes. */
    method CalculateNewSize(len: nat) returns (newsize: nat)
      requires 0 < len && 0 < size
      ensures newsize > len
      ensures size > len + 1 ==> newsize == len + 1
      ensures size <= len + 1 ==> size <= newsize && (newsize == size || newsize < 2 * (len + 1))
    {
      var reqsize := len + 1;
      if size > reqsize { return reqsize; }
      newsize := size;
      while newsize < reqsize
        invariant size <= newsize && (newsize == size || newsize < 2 * reqsize)
        decreases reqsize - newsize
      {
        newsize := newsize * 2;
      }
    }

    /** Lstrbuf_resize: room for a string of len bytes; what is there is kept. */
    method Resize(len: nat)
      requires Valid() && length <= len && 0 < len
      modifies `size, `buf
      ensures Valid() && Contents() == old(Contents()) && fresh(buf) && size > len
    {
      var newsize := CalculateNewSize(len);
      var newbuf := new byte[newsize];
      forall i | 0 <= i < length { newbuf[i] := buf[i]; }
      size, buf := newsize, newbuf;
    }

    method EnsureEmptyLength(len: nat)
      requires Valid()
      modifies `size, `buf
      ensures Valid() && Contents() == old(Contents()) && EmptyLength() >= len
      ensures buf == old(buf) || fresh(buf)
      ensures old(EmptyLength()) >= len ==> buf == old(buf) && size == old(size)
    {
      if len > EmptyLength() { Resize(length + len); }
    }

    /** Lstrbuf_append_char_unsafe: the caller has made room. */
    method AppendCharUnsafe(c: byte)
      requires Valid() && EmptyLength() >= 1
      modifies buf, `length
      ensures Valid() && Contents() == old(Contents()) + [c] && EmptyLength() == old(EmptyLength()) - 1
    {
      buf[length] := c;
      length := length + 1;
    }

    method AppendChar(c: byte)
      requires Valid()
      modifies this, buf
      ensures Valid() && Contents() == old(Contents()) + [c] && (buf == old(buf) || fresh(buf))
    {
      EnsureEmptyLength(1);
      AppendCharUnsafe(c);
    }

    /** Lstrbuf_append_mem_unsafe: the caller has made room. */
    method AppendMemUnsafe(s: seq<byte>)
      requires Valid() && EmptyLength() >= |s|
      modifies buf, `length
      ensures Valid() && Contents() == old(Contents()) + s && EmptyLength() == old(EmptyLength()) - |s|
    {
      ghost var before := Contents();
      forall i | 0 <= i < |s| { buf[length + i] := s[i]; }
      length := length + |s|;
      assert buf[..length] == before + s;
    }

    method AppendMem(s: seq<byte>)
      requires Valid()
      modifies this, buf
      ensures Valid() && Contents() == old(Contents()) + s && (buf == old(buf) || fresh(buf))
    {
      EnsureEmptyLength(|s|);
      AppendMemUnsafe(s);
    }

    /** Lstrbuf_append_string: byte by byte, making room only when there is none left. */
    method AppendString(s: seq<byte>)
      requires Valid()
      modifies this, buf
      ensures Valid() && Contents() == old(Contents()) + s
      ensures if old(EmptyLength()) >= |s| then buf == old(buf) && EmptyLength() == old(EmptyLength()) - |s|
              else buf == old(buf) || fresh(buf)
    {
      var space := EmptyLength();
      var i := 0;
      while i < |s|
        invariant 0 <= i <= |s| && Valid() && Contents() == old(Contents()) + s[..i] && space == EmptyLength()
        invariant buf == old(buf) || fresh(buf)
        invariant old(EmptyLength()) >= |s| ==> buf == old(buf) && EmptyLength() == old(EmptyLength()) - i
      {
        if space < 1 {
          Resize(length + 1);
          space := EmptyLength();
        }
        AppendCharUnsafe(s[i]);
        space := space - 1;
        i := i + 1;
      }
    }
  }
}
