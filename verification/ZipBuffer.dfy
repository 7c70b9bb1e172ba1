/**
 The bounds-checked cursor that all format code reads and writes through
 (zip_buffer.c): a fixed buffer, an offset and a sticky `ok` flag.
 */
module ZipBuffer {
  import opened Bytes

  datatype Option<+T> = None | Some(value: T) {
    function GetOr(default: T): T {
      if Some? then value else default
    }
  }

  class Cursor {
    const data: array<byte>
    var offset: nat
    var ok: bool

    ghost predicate Valid()
      reads this
    {
      offset <= data.Length < TWO_TO_THE_64
    }

    /** What has been written, or read over, so far. */
    ghost function Before(): seq<byte>
      reads this, data
      requires Valid()
    {
      data[..offset]
    }

    /** What is still ahead. */
    ghost function Ahead(): seq<byte>
      reads this, data
      requires Valid()
    {
      data[offset..]
    }

    constructor Wrap(bytes: seq<byte>)
      requires |bytes| < TWO_TO_THE_64
      ensures Valid() && ok && offset == 0 && fresh(data) && data[..] == bytes
    {
      data := new byte[|bytes|](i requires 0 <= i < |bytes| => bytes[i]);
      offset, ok := 0, true;
    }

    constructor Allocate(size: nat)
      requires size < TWO_TO_THE_64
      ensures Valid() && ok && offset == 0 && fresh(data) && data.Length == size
    {
      data := new byte[size](_ => 0);
      offset, ok := 0, true;
    }

    /** The bounds test; the sum is taken modulo 2^64 as in the original. */
    method Peek(length: uint64) returns (fits: bool)
      requires Valid()
      modifies this`ok
      ensures fits == ok == (old(ok) && offset + length <= data.Length)
    {
      var end := (offset + length) % TWO_TO_THE_64;
      if !ok || end < length || end > data.Length {
        ok := false;
        return false;
      }
      return true;
    }

    method Get(length: uint64) returns (r: Option<seq<byte>>)
      requires Valid()
      modifies this
      ensures Valid() && ok == (old(ok) && old(offset) + length <= data.Length)
      ensures offset == if ok then old(offset) + length else old(offset)
      ensures ok ==> r == Some(old(Ahead())[..length]) && Ahead() == old(Ahead())[length..]
      ensures !ok ==> r == None
    {
      var fits := Peek(length);
      if !fits {
        return None;
      }
      r := Some(data[offset..offset + length]);
      offset := offset + length;
      assert old(Ahead())[..length] == r.value && Ahead() == old(Ahead())[length..];
    }

    /** The little-endian getters share this shape; a failed read yields 0. */
    method GetUint(width: nat) returns (v: nat)
      requires Valid() && width <= 8
      modifies this
      ensures Valid() && ok == (old(ok) && old(offset) + width <= data.Length)
      ensures offset == if ok then old(offset) + width else old(offset)
      ensures ok ==> v == Uint(old(Ahead()), 0, width) && Ahead() == old(Ahead())[width..]
      ensures !ok ==> v == 0
    {
      var bytes := Get(width);
      if bytes.None? {
        return 0;
      }
      v := Nat(bytes.value);
      assert old(Ahead())[0..width] == bytes.value;
    }

    method Put(src: seq<byte>) returns (done: bool)
      requires Valid() && |src| < TWO_TO_THE_64
      modifies this, data
      ensures Valid() && done == ok == (old(ok) && old(offset) + |src| <= data.Length)
      ensures ok ==> Before() == old(Before()) + src && Ahead() == old(Ahead())[|src|..]
      ensures !ok ==> offset == old(offset) && data[..] == old(data[..])
    {
      done := Peek(|src|);
      if done {
        forall i | 0 <= i < |src| {
          data[offset + i] := src[i];
        }
        offset := offset + |src|;
      }
    }

    /** Writes the `width` low bytes of `v`. */
    method PutUint(v: nat, width: nat) returns (done: bool)
      requires Valid() && width <= 8
      modifies this, data
      ensures Valid() && done == ok == (old(ok) && old(offset) + width <= data.Length)
      ensures ok ==> Before() == old(Before()) + Le(v, width) && Ahead() == old(Ahead())[width..]
      ensures !ok ==> offset == old(offset) && data[..] == old(data[..])
    {
      done := Put(Le(v, width));
    }

    method SetOffset(to: nat) returns (done: bool)
      requires Valid()
      modifies this
      ensures Valid() && done == ok == (to <= data.Length)
      ensures offset == if ok then to else old(offset)
    {
      if to > data.Length {
        ok := false;
        return false;
      }
      ok, offset := true, to;
      return true;
    }

    method Skip(length: uint64) returns (done: bool)
      requires Valid()
      modifies this
      ensures Valid() && done == ok == (old(offset) + length <= data.Length)
      ensures offset == if ok then old(offset) + length else old(offset)
    {
      var to := (offset + length) % TWO_TO_THE_64;
      if to < offset {
        ok := false;
        return false;
      }
      done := SetOffset(to);
    }

    predicate AtEnd()
      reads this
    {
      ok && offset == data.Length
    }

    function Left(): (n: nat)
      reads this
      requires Valid()
      ensures ok ==> n == |Ahead()|
      ensures !ok ==> n == 0
    {
      if ok then data.Length - offset else 0
    }
  }
}
