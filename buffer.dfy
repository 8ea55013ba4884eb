/**
 * The byte buffer used to assemble PNG chunks: a heap array `buf` of
 * capacity `len` with a write cursor `pos` (class `buffer`). The inline
 * generation (src/buffer.hpp) and the out-of-line generation
 * (inc/buffer.hpp with src/buffer.cpp) share `put`, `alloc`, `dealloc`,
 * `data`, `size` and `offset` verbatim; they differ only in the sized
 * constructor, so both constructors are kept.
 */
module ByteBuffer {
  import opened Defs

  function Min(a: int, b: int): (m: int)
    ensures m <= a && m <= b && (m == a || m == b)
  {
    if a < b then a else b
  }

  class Buffer {
    /** The owned array; `null` models `nullptr`. */
    var buf: array?<Byte>
    /** Capacity in bytes. */
    var len: nat
    /** Write cursor. */
    var pos: nat

    /** The cursor stays within the capacity, which is the array's length. */
    ghost predicate Valid()
      reads this
    {
      && pos <= len
      && (buf == null ==> len == 0)
      && (buf != null ==> buf.Length == len)
    }

    /** The bytes currently held (none for a null buffer). */
    ghost function Bytes(): seq<Byte>
      reads this, buf
    {
      if buf == null then [] else buf[..]
    }

    /** `buffer()`: the empty buffer, `buf == nullptr`, `len == pos == 0`. */
    constructor ()
      ensures Valid() && buf == null && len == 0 && pos == 0
    {
      buf := null;
      len := 0;
      pos := 0;
    }

    /** `buffer(len)` of src/buffer.hpp: always allocates. */
    constructor SizedInline(n: nat)
      ensures Valid() && buf != null && fresh(buf) && len == n && pos == 0
    {
      buf := new Byte[n];
      len := n;
      pos := 0;
    }

    /**
     * `buffer(len)` of inc/buffer.hpp: allocates only when `len != 0`.
     * For `len == 0` the source leaves `buf` indeterminate; the model
     * can only represent that as `null`.
     */
    constructor Sized(n: nat)
      ensures Valid() && len == n && pos == 0
      ensures n != 0 ==> buf != null && fresh(buf)
      ensures n == 0 ==> buf == null
    {
      if n != 0 {
        buf := new Byte[n];
      } else {
        buf := null;
      }
      len := n;
      pos := 0;
    }

    /**
     * `put(data, count)`: copies `min(len - pos, count)` bytes of `data`
     * to the cursor and advances it; a null buffer accepts nothing.
     * Only the bytes `memcpy` reads must exist in `data`.
     */
    method Put(data: seq<Byte>, count: nat) returns (k: nat)
      requires Valid()
      requires buf != null ==> Min(len - pos, count) <= |data|
      modifies this, buf
      ensures Valid() && buf == old(buf) && len == old(len)
      ensures old(buf) == null ==> k == 0
      ensures old(buf) != null ==> k == Min(old(len) - old(pos), count)
      ensures pos == old(pos) + k
      ensures Bytes() == old(Bytes())[..old(pos)] + data[..k] + old(Bytes())[old(pos) + k..]
      ensures Bytes()[..pos] == old(Bytes())[..old(pos)] + data[..k]
    {
      if buf == null {
        return 0;
      }
      k := Min(len - pos, count);
      forall i | pos <= i < pos + k {
        buf[i] := data[i - pos];
      }
      pos := pos + k;
    }

    /**
     * `put(char)`: refuses (returns 0) when there is no array or the
     * cursor is at the end; otherwise stores one byte and advances.
     */
    method PutByte(c: Byte) returns (k: nat)
      requires Valid()
      modifies this, buf
      ensures Valid() && buf == old(buf) && len == old(len)
      ensures k == (if old(buf) == null || old(pos) == old(len) then 0 else 1)
      ensures pos == old(pos) + k
      ensures Bytes() == if k == 0 then old(Bytes()) else old(Bytes())[old(pos) := c]
    {
      if buf == null || pos == len {
        return 0;
      }
      buf[pos] := c;
      pos := pos + 1;
      k := 1;
    }

    /**
     * `alloc(count)`: replaces the array by a fresh one of `count` bytes,
     * keeping the first `min(len, count)` bytes; the others are
     * indeterminate. The cursor always ends at 0.
     */
    method Alloc(count: nat)
      requires Valid()
      modifies this
      ensures Valid() && buf != null && fresh(buf)
      ensures len == count && pos == 0
      ensures Bytes()[..Min(old(len), count)] == old(Bytes())[..Min(old(len), count)]
    {
      var nbuf := new Byte[count];
      if buf != null {
        var m := Min(len, count);
        forall i | 0 <= i < m {
          nbuf[i] := buf[i];
        }
        pos := Min(pos, count);
      } else {
        pos := 0;
      }
      buf := nbuf;
      len := count;
      pos := 0;
    }

    /** `dealloc()`: back to the empty buffer, whatever the state before. */
    method Dealloc()
      modifies this
      ensures Valid() && buf == null && len == 0 && pos == 0
    {
      buf := null;
      len := 0;
      pos := 0;
    }

    /** `data()`: the array itself. */
    function Data(): (p: array?<Byte>)
      reads this
      ensures p == buf
    {
      buf
    }

    /** `size()`: the capacity (not the cursor). */
    function Size(): (n: nat)
      reads this
      requires Valid()
      ensures n == |Bytes()|
    {
      len
    }

    /**
     * `offset(c)`: moves the cursor to `c` and yields the address
     * `buf + c`, here the index `c` into `Data()`. The cursor stays
     * within the capacity only when `c <= len`.
     */
    method Offset(c: nat) returns (at: nat)
      requires Valid() && c <= len
      modifies this`pos
      ensures Valid() && pos == c && at == c
    {
      pos := c;
      at := pos;
    }
  }
}
