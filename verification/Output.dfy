/**
 Errors, results, and the write side of an archive's source as the format code sees it:
 one byte string with one write position.
 */
module Output {
  import opened Bytes

  datatype Error =
    | NoZip | Inconsistent | MultiDisk | SeekRange | NoEntry | Invalid | Internal
    | EncryptionUnsupported | EndOfFile | BadCrc | Exists | Deleted | ReadOnly | InUse | NotSupported

  datatype Result<+T> = Ok(value: T) | Err(error: Error)

  class Sink {
    var bytes: seq<byte>
    var pos: nat

    ghost predicate Valid()
      reads this
    {
      pos <= |bytes|
    }

    constructor (initial: seq<byte>)
      ensures Valid() && bytes == initial && pos == |initial|
    {
      bytes, pos := initial, |initial|;
    }

    method Write(data: seq<byte>)
      requires Valid()
      modifies this
      ensures Valid() && bytes == Splice(old(bytes), old(pos), data) && pos == old(pos) + |data|
    {
      bytes, pos := Splice(bytes, pos, data), pos + |data|;
    }

    /** Positions past the signed 64-bit range cannot be told. */
    method Tell() returns (r: Result<nat>)
      ensures r == if pos > INT64_MAX then Err(SeekRange) else Ok(pos)
    {
      return if pos > INT64_MAX then Err(SeekRange) else Ok(pos);
    }

    method SeekTo(to: nat) returns (done: bool)
      requires Valid()
      modifies this`pos
      ensures Valid() && done == (to <= |bytes|) && pos == if done then to else old(pos)
    {
      done := to <= |bytes|;
      if done {
        pos := to;
      }
    }
  }
}
