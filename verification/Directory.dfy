/**
 The central directory and its end records (`_zip_cdir_write`, `_zip_read_cdir`,
 `_zip_read_eocd`, `_zip_read_eocd64`; APPNOTE 4.3.12 to 4.3.16).
 */
module Directory {
  import opened Bytes
  import opened ZipBuffer
  import opened Encoding
  import opened Output
  import opened Dirent
  import opened DirentReader

  const EOCD_MAGIC: nat := 0x06054b50
  const EOCD64_MAGIC: nat := 0x06064b50
  const EOCD64LOC_MAGIC: nat := 0x07064b50

  const EOCDLEN: nat := 22
  const EOCD64LEN: nat := 56
  const EOCD64LOCLEN: nat := 20

  const EOCD_WIDTHS: seq<nat> := [4, 4, 2, 2, 4, 4, 2]
  const EOCD64_WIDTHS: seq<nat> := [4, 8, 2, 2, 4, 4, 8, 8, 8, 8]
  const EOCD64LOC_WIDTHS: seq<nat> := [4, 4, 8, 4]

  lemma {:induction false} RecordSizes()
    ensures Offset(EOCD_WIDTHS, |EOCD_WIDTHS|) == EOCDLEN
    ensures Offset(EOCD64_WIDTHS, |EOCD64_WIDTHS|) == EOCD64LEN
    ensures Offset(EOCD64LOC_WIDTHS, |EOCD64LOC_WIDTHS|) == EOCD64LOCLEN
  {
    assert Offset(EOCD_WIDTHS, 4) == 12;
    assert |EOCD_WIDTHS| == 7 && Offset(EOCD_WIDTHS, 7) == 22;
    assert Offset(EOCD64_WIDTHS, 5) == 20;
    assert |EOCD64_WIDTHS| == 10 && Offset(EOCD64_WIDTHS, 10) == 56;
    assert |EOCD64LOC_WIDTHS| == 4 && Offset(EOCD64LOC_WIDTHS, 4) == 20;
  }

  // ----- Writing -----

  ghost predicate AllEncodable(ds: seq<Dirent>) {
    forall i :: 0 <= i < |ds| ==> Encodable(ds[i], false)
  }

  ghost function CentralBytes(ds: seq<Dirent>, crc: Crc): seq<byte>
    requires AllEncodable(ds)
  {
    if ds == [] then []
    else CentralBytes(ds[..|ds| - 1], crc) + DirentBytes(ds[|ds| - 1], false, false, crc)
  }

  predicate AnyZip64(ds: seq<Dirent>) {
    exists i :: 0 <= i < |ds| && NeedsZip64(ds[i], false)
  }

  /** The directory's own size takes no part in this decision. */
  predicate IsZip64Directory(ds: seq<Dirent>, offset: nat) {
    AnyZip64(ds) || offset > UINT32_MAX || |ds| > UINT16_MAX
  }

  function Capped16(n: nat): nat {
    if n >= UINT16_MAX then UINT16_MAX else n
  }

  function EndValues(count: nat, size: nat, offset: nat, comment: nat): (vs: seq<nat>)
    ensures |vs| == |EOCD_WIDTHS|
  {
    [EOCD_MAGIC, 0, Capped16(count), Capped16(count), Capped(size), Capped(offset), comment]
  }

  function End64Values(count: nat, size: nat, offset: nat): (vs: seq<nat>)
    ensures |vs| == |EOCD64_WIDTHS|
  {
    [EOCD64_MAGIC, EOCD64LEN - 12, 45, 45, 0, 0, count, count, size, offset]
  }

  function LocatorValues(end64: nat): (vs: seq<nat>)
    ensures |vs| == |EOCD64LOC_WIDTHS|
  {
    [EOCD64LOC_MAGIC, 0, end64, 1]
  }

  /** The Zip64 end record and its locator, when there is one. */
  function Zip64End(is64: bool, count: nat, size: nat, offset: nat): (b: seq<byte>) {
    if is64 then
      Encoded(EOCD64_WIDTHS, End64Values(count, size, offset)) + Encoded(EOCD64LOC_WIDTHS, LocatorValues(offset + size))
    else
      []
  }

  function EndRecords(is64: bool, count: nat, size: nat, offset: nat, comment: nat): (b: seq<byte>) {
    Zip64End(is64, count, size, offset) + Encoded(EOCD_WIDTHS, EndValues(count, size, offset, comment))
  }

  ghost function DirectoryBytes(ds: seq<Dirent>, offset: nat, comment: seq<byte>, crc: Crc): seq<byte>
    requires AllEncodable(ds)
  {
    var c := CentralBytes(ds, crc);
    c + EndRecords(IsZip64Directory(ds, offset), |ds|, |c|, offset, |comment|) + comment
  }

  method PutEnd64(buffer: Cursor, count: nat, size: nat, offset: nat)
    requires buffer.Valid() && buffer.ok && buffer.offset == 0 && buffer.data.Length >= 76
    modifies buffer, buffer.data
    ensures buffer.Valid() && buffer.ok && buffer.Before() == Zip64End(true, count, size, offset)
  {
    RecordSizes();
    ghost var ws, vs := EOCD64_WIDTHS, End64Values(count, size, offset);
    assert buffer.Before() == [] + EncodedTo(ws, vs, 0);
    PutNext(buffer, EOCD64_MAGIC, 4, [], ws, vs, 0);
    PutNext(buffer, EOCD64LEN - 12, 8, [], ws, vs, 1);
    PutNext(buffer, 45, 2, [], ws, vs, 2);
    PutNext(buffer, 45, 2, [], ws, vs, 3);
    PutNext(buffer, 0, 4, [], ws, vs, 4);
    PutNext(buffer, 0, 4, [], ws, vs, 5);
    PutExtent(buffer, count, size, offset);
    PutLocator(buffer, offset + size);
  }

  method PutExtent(buffer: Cursor, count: nat, size: nat, offset: nat)
    requires buffer.Valid() && buffer.ok && buffer.data.Length >= 76
    requires buffer.Before() == [] + EncodedTo(EOCD64_WIDTHS, End64Values(count, size, offset), 6)
    modifies buffer, buffer.data
    ensures buffer.Valid() && buffer.ok
    ensures buffer.Before() == Encoded(EOCD64_WIDTHS, End64Values(count, size, offset))
  {
    RecordSizes();
    ghost var ws, vs := EOCD64_WIDTHS, End64Values(count, size, offset);
    PutNext(buffer, count, 8, [], ws, vs, 6);
    PutNext(buffer, count, 8, [], ws, vs, 7);
    PutNext(buffer, size, 8, [], ws, vs, 8);
    PutNext(buffer, offset, 8, [], ws, vs, 9);
    assert [] + EncodedTo(ws, vs, 10) == Encoded(ws, vs);
  }

  method PutLocator(buffer: Cursor, end64: nat)
    requires buffer.Valid() && buffer.ok && buffer.offset == 56 && buffer.data.Length >= 76
    modifies buffer, buffer.data
    ensures buffer.Valid() && buffer.ok
    ensures buffer.Before() == old(buffer.Before()) + Encoded(EOCD64LOC_WIDTHS, LocatorValues(end64))
  {
    RecordSizes();
    ghost var start, ws, vs := buffer.Before(), EOCD64LOC_WIDTHS, LocatorValues(end64);
    PutNext(buffer, EOCD64LOC_MAGIC, 4, start, ws, vs, 0);
    PutNext(buffer, 0, 4, start, ws, vs, 1);
    PutNext(buffer, end64, 8, start, ws, vs, 2);
    PutNext(buffer, 1, 4, start, ws, vs, 3);
  }

  method PutEnd(buffer: Cursor, count: nat, size: nat, offset: nat, comment: nat)
    requires buffer.Valid() && buffer.ok && buffer.offset + 22 <= buffer.data.Length
    modifies buffer, buffer.data
    ensures buffer.Valid() && buffer.ok
    ensures buffer.Before() == old(buffer.Before()) + Encoded(EOCD_WIDTHS, EndValues(count, size, offset, comment))
  {
    RecordSizes();
    ghost var start, ws, vs := buffer.Before(), EOCD_WIDTHS, EndValues(count, size, offset, comment);
    PutNext(buffer, EOCD_MAGIC, 4, start, ws, vs, 0);
    PutNext(buffer, 0, 4, start, ws, vs, 1);
    PutNext(buffer, if count >= UINT16_MAX then UINT16_MAX else count, 2, start, ws, vs, 2);
    PutNext(buffer, if count >= UINT16_MAX then UINT16_MAX else count, 2, start, ws, vs, 3);
    PutNext(buffer, if size >= UINT32_MAX then UINT32_MAX else size, 4, start, ws, vs, 4);
    PutNext(buffer, if offset >= UINT32_MAX then UINT32_MAX else offset, 4, start, ws, vs, 5);
    PutNext(buffer, comment, 2, start, ws, vs, 6);
  }

  lemma {:induction false} AnyZip64Step(ds: seq<Dirent>, i: nat)
    requires i < |ds|
    ensures AnyZip64(ds[..i + 1]) <==> AnyZip64(ds[..i]) || NeedsZip64(ds[i], false)
  {
    if NeedsZip64(ds[i], false) {
      assert NeedsZip64(ds[..i + 1][i], false);
    }
    var before, after := ds[..i], ds[..i + 1];
    if k :| 0 <= k < |before| && NeedsZip64(before[k], false) {
      assert NeedsZip64(after[k], false);
    }
    if k :| 0 <= k < |after| && NeedsZip64(after[k], false) {
      assert k < i ==> NeedsZip64(before[k], false);
    }
  }

  /** The loop of `_zip_cdir_write` over the surviving entries. */
  method WriteEntries(out: Sink, ds: seq<Dirent>, crc: Crc) returns (r: Result<bool>)
    requires out.Valid()
    modifies out
    ensures out.Valid()
    ensures r.Ok? <==> AllEncodable(ds)
    ensures r.Ok? ==> r.value == AnyZip64(ds)
    ensures r.Ok? ==> out.bytes == Splice(old(out.bytes), old(out.pos), CentralBytes(ds, crc))
    ensures r.Ok? ==> out.pos == old(out.pos) + |CentralBytes(ds, crc)|
  {
    hide Splice, DirentBytes, NeedsZip64, Encodable;
    ghost var b0, p0, done := out.bytes, out.pos, [];
    SpliceNothing(b0, p0);
    var isZip64 := false;
    for i := 0 to |ds|
      invariant out.Valid() && AllEncodable(ds[..i]) && done == CentralBytes(ds[..i], crc)
      invariant out.bytes == Splice(b0, p0, done) && out.pos == p0 + |done|
      invariant isZip64 == AnyZip64(ds[..i])
    {
      var w := Write(out, ds[i], false, false, crc);
      if w.Err? {
        return Err(w.error);
      }
      assert AllEncodable(ds[..i + 1]) by {
        assert forall k :: 0 <= k < i ==> ds[..i + 1][k] == ds[..i][k];
      }
      assert ds[..i + 1][..i] == ds[..i];
      SpliceTwice(b0, p0, done, DirentBytes(ds[i], false, false, crc));
      AnyZip64Step(ds, i);
      CentralZip64Flag(ds[i]);
      if w.value.1 {
        isZip64 := true;
      }
      done := done + DirentBytes(ds[i], false, false, crc);
    }
    assert ds[..|ds|] == ds;
    return Ok(isZip64);
  }

  lemma {:induction false} CentralZip64Flag(d: Dirent)
    ensures IsZip64(d, false, false) == NeedsZip64(d, false)
  {}

  /** `_zip_cdir_write`: the entries, the end records, the comment; returns the directory's size. */
  method WriteDirectory(out: Sink, ds: seq<Dirent>, comment: seq<byte>, crc: Crc) returns (r: Result<nat>)
    requires out.Valid()
    modifies out
    ensures out.Valid()
    ensures r.Ok? ==> AllEncodable(ds) && old(out.pos) <= INT64_MAX && r.value == |CentralBytes(ds, crc)|
    ensures r.Ok? ==> out.bytes == Splice(old(out.bytes), old(out.pos), DirectoryBytes(ds, old(out.pos), comment, crc))
    ensures r.Ok? ==> out.pos == old(out.pos) + |DirectoryBytes(ds, old(out.pos), comment, crc)|
    ensures r.Ok? ==> old(out.pos) + |CentralBytes(ds, crc)| <= INT64_MAX
    ensures r.Ok? <==> AllEncodable(ds) && old(out.pos) + |CentralBytes(ds, crc)| <= INT64_MAX
  {
    hide Splice, Encoded, EndValues, Zip64End;
    ghost var b0, p0 := out.bytes, out.pos;
    var start := out.Tell();
    if start.Err? {
      return Err(start.error);
    }
    var offset := start.value;
    var entries := WriteEntries(out, ds, crc);
    if entries.Err? {
      return Err(entries.error);
    }
    var end := out.Tell();
    if end.Err? {
      return Err(end.error);
    }
    var size := end.value - offset;
    var is64 := entries.value || offset > UINT32_MAX || |ds| > UINT16_MAX;
    ghost var c := CentralBytes(ds, crc);
    var records := MakeEndRecords(is64, |ds|, size, offset, |comment|);
    SpliceTwice(b0, p0, c, records);
    out.Write(records);
    SpliceTwice(b0, p0, c + records, comment);
    out.Write(comment);
    return Ok(size);
  }

  method MakeEndRecords(is64: bool, count: nat, size: nat, offset: nat, comment: nat) returns (b: seq<byte>)
    ensures b == EndRecords(is64, count, size, offset, comment)
  {
    hide Encoded, EndValues, End64Values, LocatorValues;
    RecordSizes();
    var buffer := new Cursor.Allocate(EOCDLEN + EOCD64LEN + EOCD64LOCLEN);
    if is64 {
      PutEnd64(buffer, count, size, offset);
    }
    assert buffer.Before() == Zip64End(is64, count, size, offset);
    assert |buffer.Before()| <= 76;
    PutEnd(buffer, count, size, offset, comment);
    b := buffer.data[..buffer.offset];
  }

  // ----- Reading -----

  datatype Ending = Ending(is64: bool, count: nat, size: nat, offset: nat)

  datatype Contents = Contents(entries: seq<Dirent>, comment: seq<byte>)

  /** The plain end record at `at`. `strict` demands that the directory ends where the record starts. */
  function ReadEnd32(file: seq<byte>, at: nat, strict: bool): Result<Ending>
    requires at + EOCDLEN <= |file|
  {
    var count, size, offset := U16(file, at + 10), U32(file, at + 12), U32(file, at + 16);
    if U32(file, at + 4) != 0 then Err(MultiDisk)
    else if count != U16(file, at + 8) then Err(NoZip)
    else if offset as int + size as int > at || (strict && offset as int + size as int != at) then Err(Inconsistent)
    else Ok(Ending(false, count, size, offset))
  }

  /** The Zip64 end record that the locator at `loc` points to. The locator's 32-bit disk number is
      read as two 16-bit numbers, and its disk count not at all. `strict` demands that the record ends
      where the locator starts, the directory where the record starts, and that the disk numbers agree. */
  function ReadEnd64(file: seq<byte>, loc: nat, strict: bool): Result<Ending>
    requires loc + EOCD64LOCLEN <= |file|
  {
    var end := U64(file, loc + 8);
    if end > INT64_MAX then Err(SeekRange)
    else if end + EOCD64LEN > loc then Err(Inconsistent)
    else if U32(file, end) != EOCD64_MAGIC then Err(Inconsistent)
    else if strict && (U64(file, end + 4) as int + end + 12) % TWO_TO_THE_64 != loc then Err(Inconsistent)
    else Record64(file, end, U16(file, loc + 4), U16(file, loc + 6), strict)
  }

  function Record64(file: seq<byte>, end: nat, numDisks: nat, eocdDisk: nat, strict: bool): Result<Ending>
    requires end + EOCD64LEN <= |file|
  {
    var disks := if numDisks == UINT16_MAX then U32(file, end + 16) else numDisks;
    var disk := if eocdDisk == UINT16_MAX then U32(file, end + 20) else eocdDisk;
    var count, size, offset := U64(file, end + 24), U64(file, end + 40), U64(file, end + 48);
    if strict && (disk != U32(file, end + 20) || disks != U32(file, end + 16)) then Err(Inconsistent)
    else if disks != 0 || disk != 0 then Err(MultiDisk)
    else if count != U64(file, end + 32) then Err(MultiDisk)
    else if offset > INT64_MAX || offset as int + size as int >= TWO_TO_THE_64 then Err(SeekRange)
    else if offset as int + size as int > end || (strict && offset as int + size as int != end) then Err(Inconsistent)
    else Ok(Ending(true, count, size, offset))
  }

  function ReadEnding(file: seq<byte>, at: nat, strict: bool): Result<Ending>
    requires at <= |file|
  {
    if at + EOCDLEN > |file| || U32(file, at) != EOCD_MAGIC then Err(NoZip)
    else if at >= EOCD64LOCLEN && U32(file, at - EOCD64LOCLEN) == EOCD64LOC_MAGIC then ReadEnd64(file, at - EOCD64LOCLEN, strict)
    else ReadEnd32(file, at, strict)
  }

  lemma {:induction false} ReadConsumes(b: seq<byte>, local: bool, crc: Crc)
    ensures Read(b, local, crc).Ok? ==> HeaderSize(local) <= Read(b, local, crc).value.1 <= |b|
  {
    if Read(b, local, crc).Ok? {
      ReadVariableSize(FixedPart(b, local), RawName(b, local), RawExtra(b, local), RawComment(b, local), local, crc);
    }
  }

  /** The entries in `rest`, the first being number `i` of an announced `count`. Without Zip64 the
      count is only known modulo 65536, so running past it extends it. */
  function ReadEntries(rest: seq<byte>, i: nat, count: nat, is64: bool, crc: Crc): Result<seq<Dirent>>
    decreases |rest|
  {
    if rest == [] then (if i == count then Ok([]) else Err(Inconsistent))
    else if i == count && (is64 || |rest| < CDENTRYSIZE) then Err(Inconsistent)
    else
      ReadConsumes(rest, false, crc);
      match Read(rest, false, crc)
      case Err(e) => Err(if i == count && e == NoZip then Inconsistent else e)
      case Ok((d, size)) =>
        PrependEntry(d, ReadEntries(rest[size..], i + 1, if i == count then count + 0x1_0000 else count, is64, crc))
  }

  /** The comment behind the end record at `at`. */
  function Comment(file: seq<byte>, at: nat, strict: bool): Option<seq<byte>>
    requires at + EOCDLEN <= |file|
  {
    var n, left := U16(file, at + 20), |file| - at - EOCDLEN;
    if (n != 0 || strict) && (left < n || (strict && left != n)) then None
    else Some(file[at + EOCDLEN..at + EOCDLEN + n])
  }

  function PrependEntry(d: Dirent, r: Result<seq<Dirent>>): Result<seq<Dirent>> {
    match r case Err(e) => Err(e) case Ok(ds) => Ok([d] + ds)
  }

  /** The archive whose end record is at `at`; `strict` also forbids bytes after the comment. */
  function ReadArchive(file: seq<byte>, at: nat, strict: bool, crc: Crc): Result<Contents>
    requires at <= |file|
  {
    match ReadEnding(file, at, strict)
    case Err(e) => Err(e)
    case Ok(end) =>
      EndingBound(file, at, strict);
      var comment := Comment(file, at, strict);
      if comment.None? then Err(Inconsistent)
      else match ReadEntries(file[end.offset..end.offset + end.size], 0, end.count, end.is64, crc)
        case Err(e) => Err(e)
        case Ok(ds) => Ok(Contents(ds, comment.value))
  }

  lemma {:induction false} EndingBound(file: seq<byte>, at: nat, strict: bool)
    requires at <= |file|
    ensures ReadEnding(file, at, strict).Ok? ==> at + EOCDLEN <= |file|
    ensures var r := ReadEnding(file, at, strict); r.Ok? ==> r.value.offset + r.value.size <= at
  {}

  // ----- The reader -----

  method Next64(buffer: Cursor, ghost b: seq<byte>, ghost at: nat) returns (v: uint64)
    requires buffer.Valid() && buffer.ok
    requires at + 8 <= |b| && buffer.Ahead() == b[at..]
    modifies buffer
    ensures buffer.Valid() && buffer.ok && buffer.Ahead() == b[at + 8..]
    ensures v == U64(b, at)
  {
    var x := Next(buffer, 8, b, at);
    ghost var _ := U64(b, at);
    v := x;
  }

  /** Moves the cursor of a buffer that holds `b`. */
  method Seek(buffer: Cursor, to: nat, ghost b: seq<byte>)
    requires buffer.Valid() && buffer.data[..] == b && to <= |b|
    modifies buffer
    ensures buffer.Valid() && buffer.ok && buffer.offset == to && buffer.Ahead() == b[to..]
  {
    var _ := buffer.SetOffset(to);
  }

  /** `_zip_read_eocd`. */
  method ReadEocd(buffer: Cursor, at: nat, strict: bool, ghost file: seq<byte>) returns (r: Result<Ending>)
    requires buffer.Valid() && buffer.ok && buffer.data[..] == file
    requires at + EOCDLEN <= |file| && buffer.Ahead() == file[at..]
    modifies buffer
    ensures buffer.Valid() && r == ReadEnd32(file, at, strict)
  {
    var _ := Next32(buffer, file, at); // magic already verified
    var disks := Next32(buffer, file, at + 4);
    if disks != 0 {
      return Err(MultiDisk);
    }
    var here := Next16(buffer, file, at + 8);
    var count := Next16(buffer, file, at + 10);
    if count != here {
      return Err(NoZip);
    }
    var size := Next32(buffer, file, at + 12);
    var offset := Next32(buffer, file, at + 16);
    if offset as int + size as int > at {
      return Err(Inconsistent);
    }
    if strict && offset as int + size as int != at {
      return Err(Inconsistent);
    }
    return Ok(Ending(false, count, size, offset));
  }

  /** `_zip_read_eocd64`. */
  method ReadEocd64(buffer: Cursor, loc: nat, strict: bool, ghost file: seq<byte>) returns (r: Result<Ending>)
    requires buffer.Valid() && buffer.ok && buffer.data[..] == file
    requires loc + EOCD64LOCLEN <= |file| && buffer.Ahead() == file[loc..]
    modifies buffer
    ensures buffer.Valid() && r == ReadEnd64(file, loc, strict)
  {
    hide U16, U32, U64, Record64;
    var _ := Next32(buffer, file, loc); // magic already verified
    var disks: nat, disk: nat;
    disks := Next16(buffer, file, loc + 4);
    disk := Next16(buffer, file, loc + 6);
    var end := Next64(buffer, file, loc + 8);
    if end > INT64_MAX {
      return Err(SeekRange);
    }
    if end + EOCD64LEN > loc {
      return Err(Inconsistent);
    }
    Seek(buffer, end, file);
    var magic := Next32(buffer, file, end);
    if magic != EOCD64_MAGIC {
      return Err(Inconsistent);
    }
    var size := Next64(buffer, file, end + 4);
    if strict && (size as int + end + 12) % TWO_TO_THE_64 != loc {
      return Err(Inconsistent);
    }
    r := ReadRecord64(buffer, end, disks, disk, strict, file);
  }

  /** The Zip64 record behind its magic number and size. */
  method ReadRecord64(buffer: Cursor, end: nat, numDisks: nat, eocdDisk: nat, strict: bool,
      ghost file: seq<byte>) returns (r: Result<Ending>)
    requires buffer.Valid() && buffer.ok && buffer.data[..] == file
    requires end + EOCD64LEN <= |file| && buffer.Ahead() == file[end + 12..]
    modifies buffer
    ensures buffer.Valid()
    ensures r == Record64(file, end, numDisks, eocdDisk, strict)
  {
    hide U32, U64;
    var disks, disk, agree := ReadDisks(buffer, end, numDisks, eocdDisk, file);
    if strict && !agree {
      return Err(Inconsistent);
    }
    if disks != 0 || disk != 0 {
      return Err(MultiDisk);
    }
    var count := Next64(buffer, file, end + 24);
    var again := Next64(buffer, file, end + 32);
    if count != again {
      return Err(MultiDisk);
    }
    var size := Next64(buffer, file, end + 40);
    var offset := Next64(buffer, file, end + 48);
    if offset > INT64_MAX || (offset as int + size as int) % TWO_TO_THE_64 < offset {
      return Err(SeekRange);
    }
    if offset as int + size as int > end {
      return Err(Inconsistent);
    }
    if strict && offset as int + size as int != end {
      return Err(Inconsistent);
    }
    return Ok(Ending(true, count, size, offset));
  }

  /** The disk numbers; 0xffff in the locator defers to the record. */
  method ReadDisks(buffer: Cursor, end: nat, numDisks: nat, eocdDisk: nat, ghost file: seq<byte>)
    returns (disks: nat, disk: nat, agree: bool)
    requires buffer.Valid() && buffer.ok && end + EOCD64LEN <= |file| && buffer.Ahead() == file[end + 12..]
    modifies buffer
    ensures buffer.Valid() && buffer.ok && buffer.Ahead() == file[end + 24..]
    ensures disks == if numDisks == UINT16_MAX then U32(file, end + 16) else numDisks
    ensures disk == if eocdDisk == UINT16_MAX then U32(file, end + 20) else eocdDisk
    ensures agree == (disk == U32(file, end + 20) && disks == U32(file, end + 16))
  {
    hide U32, U64;
    var _ := Next32(buffer, file, end + 12); // versions
    var disks64 := Next32(buffer, file, end + 16);
    var disk64 := Next32(buffer, file, end + 20);
    disks := if numDisks == UINT16_MAX then disks64 else numDisks;
    disk := if eocdDisk == UINT16_MAX then disk64 else eocdDisk;
    agree := disk == disk64 && disks == disks64;
  }

  method FindEnding(buffer: Cursor, at: nat, strict: bool, ghost file: seq<byte>) returns (r: Result<Ending>)
    requires buffer.Valid() && buffer.data[..] == file && at <= |file|
    modifies buffer
    ensures buffer.Valid() && r == ReadEnding(file, at, strict)
  {
    Seek(buffer, at, file);
    if buffer.Left() < EOCDLEN {
      return Err(NoZip);
    }
    var magic := Next32(buffer, file, at);
    if magic != EOCD_MAGIC {
      return Err(NoZip);
    }
    if at >= EOCD64LOCLEN {
      Seek(buffer, at - EOCD64LOCLEN, file);
      var locator := Next32(buffer, file, at - EOCD64LOCLEN);
      if locator == EOCD64LOC_MAGIC {
        Seek(buffer, at - EOCD64LOCLEN, file);
        r := ReadEocd64(buffer, at - EOCD64LOCLEN, strict, file);
        return;
      }
    }
    Seek(buffer, at, file);
    r := ReadEocd(buffer, at, strict, file);
  }

  /** What a run of the entry loop amounts to, given the entries already read. */
  function After(done: seq<Dirent>, rest: Result<seq<Dirent>>): Result<seq<Dirent>> {
    match rest case Err(e) => Err(e) case Ok(ds) => Ok(done + ds)
  }

  lemma {:induction false} AfterStep(done: seq<Dirent>, d: Dirent, rest: Result<seq<Dirent>>)
    ensures After(done, PrependEntry(d, rest)) == After(done + [d], rest)
    ensures After([], rest) == rest
    ensures After(done, Ok([])) == Ok(done)
  {
    if rest.Ok? {
      assert done + ([d] + rest.value) == done + [d] + rest.value;
      assert [] + rest.value == rest.value;
    }
    assert done + [] == done;
  }

  /** The loop of `_zip_read_cdir`. */
  method ReadLoop(bytes: seq<byte>, announced: nat, is64: bool, crc: Crc) returns (r: Result<seq<Dirent>>)
    requires |bytes| < TWO_TO_THE_64
    ensures r == ReadEntries(bytes, 0, announced, is64, crc)
  {
    hide Read;
    var buffer := new Cursor.Wrap(bytes);
    var entries: seq<Dirent> := [];
    var count, left := announced, |bytes|;
    assert bytes[0..] == bytes;
    AfterStep([], Dirent(0, 0, 0, 0, 0, 0, 0, 0, 0, NO_STRING, [], NO_STRING, 0, 0, 0, 0, NoEncryption),
      ReadEntries(bytes, 0, announced, is64, crc));
    while left > 0
      invariant buffer.Valid() && buffer.ok && fresh(buffer) && left == |buffer.Ahead()|
      invariant After(entries, ReadEntries(buffer.Ahead(), |entries|, count, is64, crc))
        == ReadEntries(bytes, 0, announced, is64, crc)
    {
      ghost var rest := buffer.Ahead();
      var grown := false;
      if |entries| == count {
        if is64 || left < CDENTRYSIZE {
          break;
        }
        count, grown := count + 0x1_0000, true;
      }
      ReadConsumes(rest, false, crc);
      var entry := ReadDirent(buffer, false, crc);
      if entry.Err? {
        return Err(if grown && entry.error == NoZip then Inconsistent else entry.error);
      }
      AfterStep(entries, entry.value.0, ReadEntries(rest[entry.value.1..], |entries| + 1, count, is64, crc));
      entries := entries + [entry.value.0];
      left := left - entry.value.1;
    }
    if |entries| != count || left > 0 {
      return Err(Inconsistent);
    }
    assert buffer.Ahead() == [] && entries + [] == entries;
    return Ok(entries);
  }

  method ReadComment(buffer: Cursor, at: nat, strict: bool, ghost file: seq<byte>) returns (r: Option<seq<byte>>)
    requires buffer.Valid() && buffer.data[..] == file && at + EOCDLEN <= |file|
    modifies buffer
    ensures buffer.Valid() && r == Comment(file, at, strict)
  {
    Seek(buffer, at + 20, file);
    var n := Next16(buffer, file, at + 20);
    if n != 0 || strict {
      assert buffer.Ahead() == file[at + EOCDLEN..];
      var tail := buffer.Left();
      if tail < n || (strict && tail != n) {
        return None;
      }
      if n != 0 {
        var comment := NextBytes(buffer, n, file, at + EOCDLEN);
        return Some(comment);
      }
    }
    assert n == 0 && file[at + EOCDLEN..at + EOCDLEN + n] == [];
    return Some([]);
  }

  /** `_zip_read_cdir`, the whole file being in the buffer. */
  method ReadCdir(file: seq<byte>, at: nat, strict: bool, crc: Crc) returns (r: Result<Contents>)
    requires at <= |file| < TWO_TO_THE_64
    ensures r == ReadArchive(file, at, strict, crc)
  {
    hide ReadEnding, ReadEntries;
    var buffer := new Cursor.Wrap(file);
    var ending := FindEnding(buffer, at, strict, file);
    if ending.Err? {
      return Err(ending.error);
    }
    EndingBound(file, at, strict);
    var end := ending.value;
    var comment := ReadComment(buffer, at, strict, file);
    if comment.None? {
      return Err(Inconsistent);
    }
    Seek(buffer, end.offset, file);
    var bytes := NextBytes(buffer, end.size, file, end.offset);
    var entries := ReadLoop(bytes, end.count, end.is64, crc);
    if entries.Err? {
      return Err(entries.error);
    }
    return Ok(Contents(entries.value, comment.value));
  }
}
