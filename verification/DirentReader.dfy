/**
 Reading directory entries back (`_zip_dirent_read`), and what a written entry reads back as.
 */
module DirentReader {
  import opened Bytes
  import opened ZipBuffer
  import opened Encoding
  import opened ExtraField
  import opened Output
  import opened Dirent

  // ----- Specification, by the byte offsets of APPNOTE 4.3.7 and 4.3.12 -----

  function HeaderSize(local: bool): nat {
    if local then LENTRYSIZE else CDENTRYSIZE
  }

  function Magic(local: bool): nat {
    if local then LOCAL_MAGIC else CENTRAL_MAGIC
  }

  /** Where the fields common to both headers start. */
  function Common(local: bool): nat {
    if local then 4 else 6
  }

  function NameLength(b: seq<byte>, local: bool): uint16
    requires |b| >= HeaderSize(local)
  {
    U16(b, Common(local) + 22)
  }

  function ExtraLength(b: seq<byte>, local: bool): uint16
    requires |b| >= HeaderSize(local)
  {
    U16(b, Common(local) + 24)
  }

  function CommentLength(b: seq<byte>, local: bool): uint16
    requires |b| >= HeaderSize(local)
  {
    if local then 0 else U16(b, 32)
  }

  function EncryptionOf(flags: uint16): Encryption {
    if !Bit(flags, GPBF_ENCRYPTED) then NoEncryption
    else if Bit(flags, GPBF_STRONG_ENCRYPTION) then UnknownEncryption else TradPkware
  }

  /** The fixed part of a header; name, fields and comment are still to come. */
  function FixedPart(b: seq<byte>, local: bool): Dirent
    requires |b| >= HeaderSize(local)
  {
    var c := Common(local);
    Dirent(if local then 0 else U16(b, 4), U16(b, c), U16(b, c + 2), U16(b, c + 4), U16(b, c + 6), U16(b, c + 8),
      U32(b, c + 10), U32(b, c + 14), U32(b, c + 18), NO_STRING, [], NO_STRING,
      if local then 0 else U16(b, 34), if local then 0 else U16(b, 36), if local then 0 else U32(b, 38),
      if local then 0 else U32(b, 42), EncryptionOf(U16(b, c + 2)))
  }

  /** NUL bytes inside a file name are read as spaces. */
  function SpaceForNul(s: seq<byte>): (r: seq<byte>)
    ensures |r| == |s|
    ensures 0 !in s ==> r == s
  {
    seq(|s|, i requires 0 <= i < |s| => if s[i] == 0 then 32 else s[i])
  }

  /** A string just read; with the UTF-8 flag set it must not look like code page 437. */
  function FlaggedString(raw: seq<byte>, flags: uint16): Option<ZipString> {
    var s := ZipString(raw, Unknown);
    if raw == [] || !Bit(flags, GPBF_UTF8) then Some(s)
    else
      var (enc, verdict) := Guess(s, Utf8Known);
      if verdict.Error? then None else Some(ZipString(raw, enc))
  }

  /** The string a valid Unicode field substitutes, if its CRC matches the plain one. */
  function Substituted(fs: seq<Field>, id: uint16, s: ZipString, crc: Crc): ZipString {
    match Lookup(fs, Id(id), 0, BOTH)
    case None => s
    case Some(data) =>
      if |data| <= 5 || data[0] != 1 || U32(data, 1) != crc(s.raw) then s
      else
        var (enc, verdict) := Guess(ZipString(data[5..], Unknown), Utf8Known);
        if verdict.Error? then s else ZipString(data[5..], enc)
  }

  /** Replaces the 32-bit values that stand for "see the Zip64 field". */
  function Zip64Read(d: Dirent, local: bool): Result<Dirent> {
    var u, c, o := d.uncompSize == UINT32_MAX, d.compSize == UINT32_MAX, d.offset == UINT32_MAX;
    if !u && !c && !o then Ok(d)
    else match Lookup(d.fields, Id(EF_ZIP64), 0, ViewOf(local))
      case None => Err(NoEntry)
      case Some(data) =>
        var atC := if u || local then 8 else 0;
        var atO := atC + if c then 8 else 0;
        var atD := atO + if o && !local then 8 else 0;
        var end := atD + if !local && d.disk == UINT16_MAX then 4 else 0;
        if |data| != end then Err(Inconsistent)
        else Ok(d.(
          uncompSize := if u then U64(data, 0) else d.uncompSize,
          compSize := if c then U64(data, atC) else d.compSize,
          offset := if o && !local then U64(data, atO) else d.offset,
          disk := if !local && d.disk == UINT16_MAX then U32(data, atD) else d.disk))
  }

  /** Bytes of the whole entry, header, name, fields and comment. */
  function TotalSize(b: seq<byte>, local: bool): nat
    requires |b| >= HeaderSize(local)
  {
    HeaderSize(local) + NameLength(b, local) as nat + ExtraLength(b, local) as nat + CommentLength(b, local) as nat
  }

  function RawName(b: seq<byte>, local: bool): (r: seq<byte>)
    requires |b| >= HeaderSize(local) && |b| >= TotalSize(b, local)
    ensures |r| == NameLength(b, local)
  {
    b[HeaderSize(local)..HeaderSize(local) + NameLength(b, local)]
  }

  function RawExtra(b: seq<byte>, local: bool): (r: seq<byte>)
    requires |b| >= HeaderSize(local) && |b| >= TotalSize(b, local)
    ensures |r| == ExtraLength(b, local)
  {
    var at := HeaderSize(local) + NameLength(b, local);
    b[at..at + ExtraLength(b, local)]
  }

  function RawComment(b: seq<byte>, local: bool): (r: seq<byte>)
    requires |b| >= HeaderSize(local) && |b| >= TotalSize(b, local)
    ensures |r| == CommentLength(b, local)
  {
    b[TotalSize(b, local) - CommentLength(b, local)..TotalSize(b, local)]
  }

  /** The entry at the start of `b`, and the bytes it takes. */
  function Read(b: seq<byte>, local: bool, crc: Crc): Result<(Dirent, nat)> {
    if |b| < HeaderSize(local) || Uint(b, 0, 4) != Magic(local) then Err(NoZip)
    else if |b| < TotalSize(b, local) then Err(Inconsistent)
    else ReadVariable(FixedPart(b, local), RawName(b, local), RawExtra(b, local), RawComment(b, local), local, crc)
  }

  function ReadVariable(d: Dirent, name: seq<byte>, extra: seq<byte>, comment: seq<byte>, local: bool, crc: Crc)
    : Result<(Dirent, nat)>
  {
    var size := HeaderSize(local) + |name| + |extra| + |comment|;
    var plainName := FlaggedString(SpaceForNul(name), d.bitflags);
    if plainName.None? then Err(Inconsistent)
    else
      var fs := Parsed(extra, ViewOf(local));
      if fs.None? then Err(Inconsistent)
      else
        var plainComment := FlaggedString(comment, d.bitflags);
        if plainComment.None? then Err(Inconsistent)
        else Finished(d.(
          fields := fs.value,
          name := Substituted(fs.value, EF_UTF8_NAME, plainName.value, crc),
          comment := Substituted(fs.value, EF_UTF8_COMMENT, plainComment.value, crc)), local, size)
  }

  function Finished(d: Dirent, local: bool, size: nat): Result<(Dirent, nat)> {
    match Zip64Read(d, local)
    case Err(e) => Err(e)
    case Ok(z) =>
      if z.offset > INT64_MAX then Err(SeekRange)
      else if z.compMethod == CM_WINZIP_AES then Err(EncryptionUnsupported)
      else Ok((z.(fields := Unused(z.fields)), size))
  }

  // ----- The reader -----

  /** The next field of the header, with an account of where the cursor stands in `b`. */
  method Next(buffer: Cursor, w: nat, ghost b: seq<byte>, ghost at: nat) returns (v: nat)
    requires buffer.Valid() && buffer.ok && w <= 8
    requires at + w <= |b| && buffer.Ahead() == b[at..]
    modifies buffer
    ensures buffer.Valid() && buffer.ok && buffer.Ahead() == b[at + w..]
    ensures v == Uint(b, at, w)
  {
    assert |buffer.Ahead()| == buffer.data.Length - buffer.offset;
    v := buffer.GetUint(w);
    assert b[at..][0..w] == b[at..at + w] && b[at..][w..] == b[at + w..];
  }

  method NextBytes(buffer: Cursor, n: uint64, ghost b: seq<byte>, ghost at: nat) returns (v: seq<byte>)
    requires buffer.Valid() && buffer.ok
    requires at + n <= |b| && buffer.Ahead() == b[at..]
    modifies buffer
    ensures buffer.Valid() && buffer.ok && buffer.Ahead() == b[at + n..]
    ensures v == b[at..at + n]
  {
    assert |buffer.Ahead()| == buffer.data.Length - buffer.offset;
    var r := buffer.Get(n);
    assert b[at..][..n] == b[at..at + n] && b[at..][n..] == b[at + n..];
    v := r.value;
  }

  method Next16(buffer: Cursor, ghost b: seq<byte>, ghost at: nat) returns (v: uint16)
    requires buffer.Valid() && buffer.ok
    requires at + 2 <= |b| && buffer.Ahead() == b[at..]
    modifies buffer
    ensures buffer.Valid() && buffer.ok && buffer.Ahead() == b[at + 2..]
    ensures v == U16(b, at)
  {
    var x := Next(buffer, 2, b, at);
    ghost var _ := U16(b, at);
    v := x;
  }

  method Next32(buffer: Cursor, ghost b: seq<byte>, ghost at: nat) returns (v: uint32)
    requires buffer.Valid() && buffer.ok
    requires at + 4 <= |b| && buffer.Ahead() == b[at..]
    modifies buffer
    ensures buffer.Valid() && buffer.ok && buffer.Ahead() == b[at + 4..]
    ensures v == U32(b, at)
  {
    var x := Next(buffer, 4, b, at);
    ghost var _ := U32(b, at);
    v := x;
  }

  /** The fields shared by both headers. */
  method ReadCommon(buffer: Cursor, ghost b: seq<byte>, local: bool) returns (d: Dirent, n: uint16, e: uint16)
    requires |b| >= HeaderSize(local)
    requires buffer.Valid() && buffer.ok && buffer.Ahead() == b[Common(local)..]
    modifies buffer
    ensures buffer.Valid() && buffer.ok && buffer.Ahead() == b[Common(local) + 26..]
    ensures n == NameLength(b, local) && e == ExtraLength(b, local)
    ensures local ==> d == FixedPart(b, local)
    ensures !local ==> d == FixedPart(b, local).(madeBy := 0, disk := 0, intAttrib := 0, extAttrib := 0, offset := 0)
  {
    ghost var at := Common(local);
    var needed := Next16(buffer, b, at);
    var flags := Next16(buffer, b, at + 2);
    var compMethod := Next16(buffer, b, at + 4);
    var time := Next16(buffer, b, at + 6);
    var date := Next16(buffer, b, at + 8);
    var crc32 := Next32(buffer, b, at + 10);
    var comp := Next32(buffer, b, at + 14);
    var uncomp := Next32(buffer, b, at + 18);
    n := Next16(buffer, b, at + 22);
    e := Next16(buffer, b, at + 24);
    d := Dirent(0, needed, flags, compMethod, time, date, crc32, comp, uncomp, NO_STRING, [], NO_STRING, 0, 0, 0, 0,
      EncryptionOf(flags));
  }

  method ReadFixed(buffer: Cursor, ghost b: seq<byte>, local: bool)
    returns (d: Dirent, n: uint16, e: uint16, c: uint16)
    requires |b| >= HeaderSize(local)
    requires buffer.Valid() && buffer.ok && buffer.Ahead() == b[4..]
    modifies buffer
    ensures buffer.Valid() && buffer.ok && buffer.Ahead() == b[HeaderSize(local)..]
    ensures d == FixedPart(b, local)
    ensures n == NameLength(b, local) && e == ExtraLength(b, local) && c == CommentLength(b, local)
  {
    var madeBy := 0;
    if !local {
      madeBy := Next16(buffer, b, 4);
    }
    d, n, e := ReadCommon(buffer, b, local);
    c := 0;
    if !local {
      c := Next16(buffer, b, 32);
      var disk := Next16(buffer, b, 34);
      var intAttrib := Next16(buffer, b, 36);
      var extAttrib := Next32(buffer, b, 38);
      var offset := Next32(buffer, b, 42);
      d := d.(madeBy := madeBy, disk := disk, intAttrib := intAttrib, extAttrib := extAttrib, offset := offset);
    }
  }

  /** The string checks of the reader. */
  method CheckedString(raw: seq<byte>, flags: uint16) returns (r: Option<ZipString>)
    ensures r == FlaggedString(raw, flags)
  {
    var s := ZipString(raw, Unknown);
    if raw != [] && Bit(flags, GPBF_UTF8) {
      var enc, verdict := GuessEncoding(s, Utf8Known);
      if verdict.Error? {
        return None;
      }
      s := ZipString(raw, enc);
    }
    return Some(s);
  }

  /** `_zip_dirent_process_ef_utf_8`. */
  method ProcessUtf8(fs: seq<Field>, id: uint16, s: ZipString, crc: Crc) returns (r: ZipString)
    ensures r == Substituted(fs, id, s, crc)
  {
    hide Lookup, Guess;
    var list := new FieldList(fs);
    var data := list.GetById(id, 0, BOTH);
    if data.None? || |data.value| < 5 || data.value[0] != 1 {
      return s;
    }
    var fieldCrc, text := ReadUtf8Field(data.value);
    if crc(s.raw) == fieldCrc && text != [] {
      var enc, verdict := GuessEncoding(ZipString(text, Unknown), Utf8Known);
      if !verdict.Error? {
        return ZipString(text, enc);
      }
    }
    return s;
  }

  method ReadUtf8Field(b: Data) returns (fieldCrc: uint32, text: seq<byte>)
    requires |b| >= 5
    ensures fieldCrc == U32(b, 1) && text == b[5..]
  {
    var buffer := new Cursor.Wrap(b);
    assert b[0..] == b;
    var _ := Next(buffer, 1, b, 0);
    fieldCrc := Next32(buffer, b, 1);
    text := NextBytes(buffer, |b| - 5, b, 5);
  }

  /** The Zip64 part of `_zip_dirent_read`. */
  method ProcessZip64(d: Dirent, local: bool) returns (r: Result<Dirent>)
    requires local ==> d.offset == 0
    ensures r == Zip64Read(d, local)
  {
    if d.uncompSize != UINT32_MAX && d.compSize != UINT32_MAX && d.offset != UINT32_MAX {
      return Ok(d);
    }
    var list := new FieldList(d.fields);
    var data := list.GetById(EF_ZIP64, 0, ViewOf(local));
    if data.None? {
      return Err(NoEntry);
    }
    var z := d;
    var buffer := new Cursor.Wrap(data.value);
    if d.uncompSize == UINT32_MAX {
      var v := Get64(buffer, data.value, 0);
      z := z.(uncompSize := v);
    } else if local {
      var _ := buffer.Skip(8);
    }
    ghost var at := if d.uncompSize == UINT32_MAX || local then 8 else 0;
    if d.compSize == UINT32_MAX {
      var v := Get64(buffer, data.value, at);
      z, at := z.(compSize := v), at + 8;
    }
    if !local {
      if d.offset == UINT32_MAX {
        var v := Get64(buffer, data.value, at);
        z, at := z.(offset := v), at + 8;
      }
      if d.disk == UINT16_MAX {
        var v := Get32(buffer, data.value, at);
        z, at := z.(disk := v), at + 4;
      }
    }
    if !buffer.AtEnd() {
      return Err(Inconsistent);
    }
    return Ok(z);
  }

  /** A get that may fail, with its effect on an account of the cursor's position. */
  method Get64(buffer: Cursor, ghost b: seq<byte>, ghost at: nat) returns (v: uint64)
    requires buffer.Valid() && buffer.data[..] == b
    requires buffer.ok == (at <= |b|) && (buffer.ok ==> buffer.offset == at)
    modifies buffer
    ensures buffer.Valid() && buffer.ok == (at + 8 <= |b|) && (buffer.ok ==> buffer.offset == at + 8)
    ensures buffer.ok ==> v == U64(b, at)
  {
    ghost var ahead := buffer.Ahead();
    var x := buffer.GetUint(8);
    if buffer.ok {
      assert ahead[0..8] == b[at..at + 8];
      ghost var _ := U64(b, at);
    }
    v := x;
  }

  method Get32(buffer: Cursor, ghost b: seq<byte>, ghost at: nat) returns (v: uint32)
    requires buffer.Valid() && buffer.data[..] == b
    requires buffer.ok == (at <= |b|) && (buffer.ok ==> buffer.offset == at)
    modifies buffer
    ensures buffer.Valid() && buffer.ok == (at + 4 <= |b|) && (buffer.ok ==> buffer.offset == at + 4)
    ensures buffer.ok ==> v == U32(b, at)
  {
    ghost var ahead := buffer.Ahead();
    var x := buffer.GetUint(4);
    if buffer.ok {
      assert ahead[0..4] == b[at..at + 4];
      ghost var _ := U32(b, at);
    }
    v := x;
  }

  /** The variable part: strings, extra fields, Zip64 values. */
  method ProcessVariable(fixed: Dirent, rawName: seq<byte>, extra: seq<byte>, rawComment: seq<byte>, local: bool,
      crc: Crc)
    returns (r: Result<(Dirent, nat)>)
    requires |extra| < 0x1_0000 && (local ==> fixed.offset == 0)
    ensures r == ReadVariable(fixed, rawName, extra, rawComment, local, crc)
  {
    hide FlaggedString, Parsed, Substituted, Zip64Read, Unused, SpaceForNul;
    var size := HeaderSize(local) + |rawName| + |extra| + |rawComment|;
    var name := CheckedString(SpaceForNul(rawName), fixed.bitflags);
    if name.None? {
      return Err(Inconsistent);
    }
    var fs := ExtraField.Parse(extra, ViewOf(local));
    if fs.None? {
      return Err(Inconsistent);
    }
    var comment := CheckedString(rawComment, fixed.bitflags);
    if comment.None? {
      return Err(Inconsistent);
    }
    var realName := ProcessUtf8(fs.value, EF_UTF8_NAME, name.value, crc);
    var realComment := ProcessUtf8(fs.value, EF_UTF8_COMMENT, comment.value, crc);
    var d := fixed.(fields := fs.value, name := realName, comment := realComment);
    var z := ProcessZip64(d, local);
    if z.Err? {
      return Err(z.error);
    }
    if z.value.offset > INT64_MAX {
      return Err(SeekRange);
    }
    if z.value.compMethod == CM_WINZIP_AES {
      return Err(EncryptionUnsupported);
    }
    var list := new FieldList(z.value.fields);
    list.RemoveInternal();
    return Ok((z.value.(fields := list.fields), size));
  }

  lemma {:induction false} ReadVariableSize(d: Dirent, name: seq<byte>, extra: seq<byte>, comment: seq<byte>,
      local: bool, crc: Crc)
    ensures var r := ReadVariable(d, name, extra, comment, local, crc);
      r.Ok? ==> r.value.1 == HeaderSize(local) + |name| + |extra| + |comment|
  {}

  method ReadRaw(buffer: Cursor, n: uint16, e: uint16, c: uint16, ghost b: seq<byte>, local: bool)
    returns (rawName: seq<byte>, extra: seq<byte>, rawComment: seq<byte>)
    requires |b| >= HeaderSize(local) && |b| >= TotalSize(b, local)
    requires n == NameLength(b, local) && e == ExtraLength(b, local) && c == CommentLength(b, local)
    requires buffer.Valid() && buffer.ok && buffer.Ahead() == b[HeaderSize(local)..]
    modifies buffer
    ensures buffer.Valid() && buffer.ok && buffer.Ahead() == b[TotalSize(b, local)..]
    ensures rawName == RawName(b, local) && extra == RawExtra(b, local) && rawComment == RawComment(b, local)
  {
    ghost var h := HeaderSize(local);
    rawName := NextBytes(buffer, n, b, h);
    extra := NextBytes(buffer, e, b, h + n);
    rawComment := NextBytes(buffer, c, b, h + n + e);
  }

  method ReadBody(buffer: Cursor, ghost b: seq<byte>, local: bool, crc: Crc) returns (r: Result<(Dirent, nat)>)
    requires buffer.Valid() && buffer.ok
    requires |b| >= HeaderSize(local) && Uint(b, 0, 4) == Magic(local) && buffer.Ahead() == b[4..]
    modifies buffer
    ensures r == Read(b, local, crc)
    ensures r.Ok? ==> buffer.Valid() && buffer.ok && r.value.1 <= |b| && buffer.Ahead() == b[r.value.1..]
  {
    var fixed, n, e, c := ReadFixed(buffer, b, local);
    if buffer.Left() < n as int + e as int + c as int {
      return Err(Inconsistent);
    }
    var rawName, extra, rawComment := ReadRaw(buffer, n, e, c, b, local);
    r := ProcessVariable(fixed, rawName, extra, rawComment, local, crc);
    ReadVariableSize(fixed, rawName, extra, rawComment, local, crc);
  }

  /** `_zip_dirent_read` from a buffer positioned at the entry; the cursor ends behind it. */
  method ReadDirent(buffer: Cursor, local: bool, crc: Crc) returns (r: Result<(Dirent, nat)>)
    requires buffer.Valid() && buffer.ok
    modifies buffer
    ensures r == Read(old(buffer.Ahead()), local, crc)
    ensures r.Ok? ==> buffer.Valid() && buffer.ok && r.value.1 <= |old(buffer.Ahead())|
    ensures r.Ok? ==> buffer.Ahead() == old(buffer.Ahead())[r.value.1..]
  {
    ghost var b := buffer.Ahead();
    if buffer.Left() < HeaderSize(local) {
      return Err(NoZip);
    }
    assert b[0..] == b;
    var magic := Next(buffer, 4, b, 0);
    if magic != Magic(local) {
      return Err(NoZip);
    }
    r := ReadBody(buffer, b, local, crc);
  }
}
