/**
 Directory entries on the wire (zip_dirent.c; APPNOTE 4.3.7, 4.3.12, 4.5.3, 4.6.8, 4.6.9).
 */
module Dirent {
  import opened Bytes
  import opened ZipBuffer
  import opened Encoding
  import opened ExtraField
  import opened Output

  /** CRC-32 is a parameter: nothing here depends on which function it is. */
  type Crc = seq<byte> -> uint32

  datatype Encryption = NoEncryption | TradPkware | UnknownEncryption

  datatype Dirent = Dirent(
    madeBy: uint16, needed: uint16, bitflags: uint16, compMethod: int, time: uint16, date: uint16,
    crc: uint32, compSize: uint64, uncompSize: uint64, name: ZipString, fields: seq<Field>,
    comment: ZipString, disk: uint32, intAttrib: uint16, extAttrib: uint32, offset: uint64,
    encryption: Encryption)

  const LOCAL_MAGIC: nat := 0x04034b50
  const CENTRAL_MAGIC: nat := 0x02014b50

  /** Field widths of APPNOTE 4.3.7 and 4.3.12. */
  const LOCAL_WIDTHS: seq<nat> := [4, 2, 2, 2, 2, 2, 4, 4, 4, 2, 2]
  const CENTRAL_WIDTHS: seq<nat> := [4, 2, 2, 2, 2, 2, 2, 4, 4, 4, 2, 2, 2, 2, 2, 4, 4]

  const LENTRYSIZE: nat := 30
  const CDENTRYSIZE: nat := 46

  const NO_STRING := ZipString([], Unknown)

  const GPBF_ENCRYPTED: nat := 0x0001
  const GPBF_DATA_DESCRIPTOR: nat := 0x0008
  const GPBF_STRONG_ENCRYPTION: nat := 0x0040
  const GPBF_UTF8: nat := 0x0800

  const CM_WINZIP_AES: nat := 99

  function Widths(local: bool): seq<nat> {
    if local then LOCAL_WIDTHS else CENTRAL_WIDTHS
  }

  lemma {:induction false} HeaderSizes()
    ensures Offset(LOCAL_WIDTHS, |LOCAL_WIDTHS|) == LENTRYSIZE
    ensures Offset(CENTRAL_WIDTHS, |CENTRAL_WIDTHS|) == CDENTRYSIZE
  {
    assert Offset(LOCAL_WIDTHS, 6) == 14;
    assert Offset(CENTRAL_WIDTHS, 6) == 14;
    assert Offset(CENTRAL_WIDTHS, 12) == 32;
    assert |CENTRAL_WIDTHS| == 17 && Offset(CENTRAL_WIDTHS, 17) == CDENTRYSIZE;
  }

  function ViewOf(local: bool): View {
    if local then LOCAL else CENTRAL
  }

  predicate Bit(flags: uint16, mask: nat)
    requires mask > 0
  {
    flags / mask % 2 == 1
  }

  function WithBit(flags: uint16, mask: nat, on: bool): int
    requires mask > 0
  {
    flags - (if Bit(flags, mask) then mask else 0) + (if on then mask else 0)
  }

  // ----- Writing -----

  /** Whether name and comment can share the UTF-8 flag. */
  predicate SharesUtf8Flag(d: Dirent) {
    var n, c := EncodingOf(d.name), EncodingOf(d.comment);
    (n == Utf8Known && (c == Ascii || c == Utf8Known)) || (n == Ascii && c == Utf8Known)
  }

  /** Writing updates the entry's UTF-8 and encryption flags. */
  function Flags(d: Dirent): (f: uint16) {
    WithBit(WithBit(d.bitflags, GPBF_UTF8, SharesUtf8Flag(d)), GPBF_ENCRYPTED, d.encryption != NoEncryption)
  }

  function Flagged(d: Dirent): Dirent {
    d.(bitflags := Flags(d))
  }

  predicate NeedsZip64(d: Dirent, local: bool) {
    d.uncompSize >= UINT32_MAX || d.compSize >= UINT32_MAX || (!local && d.offset >= UINT32_MAX)
  }

  predicate IsZip64(d: Dirent, local: bool, force: bool) {
    (local && force) || NeedsZip64(d, local)
  }

  /** The test the writer makes before it fills the Zip64 field: strict, unlike `NeedsZip64`. */
  predicate Exceeds(d: Dirent, local: bool) {
    d.uncompSize > UINT32_MAX || d.compSize > UINT32_MAX || (!local && d.offset > UINT32_MAX)
  }

  function Zip64Data(d: Dirent, local: bool, force: bool): (b: Data) {
    if !force && !Exceeds(d, local) then []
    else if local then Le(d.uncompSize, 8) + Le(d.compSize, 8)
    else Only(d.uncompSize >= UINT32_MAX, d.uncompSize)
         + Only(d.compSize >= UINT32_MAX, d.compSize)
         + Only(d.offset >= UINT32_MAX, d.offset)
  }

  function Only(present: bool, v: uint64): (b: seq<byte>)
    ensures |b| == if present then 8 else 0
  {
    if present then Le(v, 8) else []
  }

  /** The Info-ZIP Unicode field: version 1, the CRC of the plain string, the UTF-8 text. */
  function Utf8Field(id: uint16, s: ZipString, crc: Crc): Field
    requires |s.raw| + 5 <= UINT16_MAX
  {
    Field(id, [1] + Le(crc(s.raw), 4) + s.raw, BOTH)
  }

  predicate NameNeedsField(d: Dirent) {
    !SharesUtf8Flag(d) && EncodingOf(d.name) == Utf8Known
  }

  predicate CommentNeedsField(d: Dirent, local: bool) {
    !SharesUtf8Flag(d) && !local && EncodingOf(d.comment) == Utf8Known
  }

  predicate Encodable(d: Dirent, local: bool) {
    && (NameNeedsField(d) ==> |d.name.raw| + 5 <= UINT16_MAX)
    && (CommentNeedsField(d, local) ==> |d.comment.raw| + 5 <= UINT16_MAX)
  }

  function UnicodeFields(d: Dirent, local: bool, crc: Crc): seq<Field>
    requires Encodable(d, local)
  {
    (if CommentNeedsField(d, local) then [Utf8Field(EF_UTF8_COMMENT, d.comment, crc)] else [])
    + (if NameNeedsField(d) then [Utf8Field(EF_UTF8_NAME, d.name, crc)] else [])
  }

  /** The fields the writer generates, in the order it links them. */
  function Generated(d: Dirent, local: bool, force: bool, crc: Crc): seq<Field>
    requires Encodable(d, local)
  {
    (if IsZip64(d, local, force) then [Field(EF_ZIP64, Zip64Data(d, local, force), BOTH)] else [])
    + UnicodeFields(d, local, crc)
  }

  function Capped(v: nat): nat {
    if v < UINT32_MAX then v else UINT32_MAX
  }

  const COMMON_WIDTHS: seq<nat> := [2, 2, 2, 2, 2, 4, 4, 4, 2, 2]
  const TAIL_WIDTHS: seq<nat> := [2, 2, 2, 4, 4]

  lemma {:induction false} WidthsSplit()
    ensures LOCAL_WIDTHS == [4] + COMMON_WIDTHS
    ensures CENTRAL_WIDTHS == [4, 2] + COMMON_WIDTHS + TAIL_WIDTHS
    ensures Offset(COMMON_WIDTHS, |COMMON_WIDTHS|) == 26 && Offset(TAIL_WIDTHS, |TAIL_WIDTHS|) == 14
  {
    assert Offset(COMMON_WIDTHS, 6) == 14;
    assert |COMMON_WIDTHS| == 10 && Offset(COMMON_WIDTHS, 10) == 26;
    assert |TAIL_WIDTHS| == 5 && Offset(TAIL_WIDTHS, 5) == 14;
  }

  function CommonValues(d: Dirent, local: bool, fieldsLength: nat): (vs: seq<nat>)
    ensures |vs| == |COMMON_WIDTHS|
  {
    var big := local && (d.compSize >= UINT32_MAX || d.uncompSize >= UINT32_MAX);
    [ if NeedsZip64(d, local) then 45 else d.needed, d.bitflags, d.compMethod % 0x1_0000, d.time, d.date, d.crc,
      if big then UINT32_MAX else Capped(d.compSize), if big then UINT32_MAX else Capped(d.uncompSize),
      |d.name.raw|, fieldsLength]
  }

  function TailValues(d: Dirent): (vs: seq<nat>)
    ensures |vs| == |TAIL_WIDTHS|
  {
    [|d.comment.raw|, d.disk % 0x1_0000, d.intAttrib, d.extAttrib, Capped(d.offset)]
  }

  function HeaderValues(d: Dirent, local: bool, fieldsLength: nat): (vs: seq<nat>)
    ensures |vs| == |Widths(local)|
  {
    if local then
      [LOCAL_MAGIC] + CommonValues(d, local, fieldsLength)
    else
      [CENTRAL_MAGIC, if NeedsZip64(d, local) then 45 else d.madeBy] + CommonValues(d, local, fieldsLength) + TailValues(d)
  }

  function BodyLength(d: Dirent, local: bool, generated: seq<Field>): nat {
    (|Written(d.fields, ViewOf(local))| % 0x1_0000 + |Written(generated, BOTH)| % 0x1_0000) % 0x1_0000
  }

  function Body(d: Dirent, local: bool, generated: seq<Field>): seq<byte> {
    Encoded(Widths(local), HeaderValues(d, local, BodyLength(d, local, generated))) + d.name.raw
    + (Written(generated, BOTH) + Written(d.fields, ViewOf(local)))
    + if local then [] else d.comment.raw
  }

  /** The bytes of a header with its name, extra fields and comment. */
  function DirentBytes(d: Dirent, local: bool, force: bool, crc: Crc): seq<byte>
    requires Encodable(d, local)
  {
    Body(Flagged(d), local, Generated(d, local, force, crc))
  }

  method WriteField(out: Sink, f: Field)
    requires out.Valid()
    modifies out
    ensures out.Valid() && out.bytes == Splice(old(out.bytes), old(out.pos), FieldBytes(f))
    ensures out.pos == old(out.pos) + |FieldBytes(f)|
  {
    var head := new Cursor.Allocate(4);
    var _ := head.PutUint(f.id, 2);
    var _ := head.PutUint(|f.data|, 2);
    var b := head.data[..];
    assert b == head.Before() == Le(f.id, 2) + Le(|f.data|, 2);
    out.Write(b);
    SpliceTwice(old(out.bytes), old(out.pos), b, f.data);
    out.Write(f.data);
  }

  /** `_zip_ef_write`. */
  method WriteFields(out: Sink, fs: seq<Field>, v: View)
    requires out.Valid()
    modifies out
    ensures out.Valid() && out.bytes == Splice(old(out.bytes), old(out.pos), Written(fs, v))
    ensures out.pos == old(out.pos) + |Written(fs, v)|
  {
    hide Written, Splice;
    ghost var b0, p0, done := out.bytes, out.pos, [];
    WrittenEmpty(fs, v);
    SpliceNothing(b0, p0);
    for i := 0 to |fs|
      invariant out.Valid() && done == Written(fs[..i], v)
      invariant out.bytes == Splice(b0, p0, done) && out.pos == p0 + |done|
    {
      WrittenStep(fs, i, v);
      if In(fs[i], v) {
        WriteField(out, fs[i]);
        SpliceTwice(b0, p0, done, FieldBytes(fs[i]));
        done := done + FieldBytes(fs[i]);
      }
    }
    assert fs[..|fs|] == fs;
  }

  /** Puts field `k` of a record, keeping the account of what the buffer holds. */
  method PutNext(buffer: Cursor, v: nat, w: nat, ghost start: seq<byte>, ghost ws: seq<nat>, ghost vs: seq<nat>,
      ghost k: nat)
    requires buffer.Valid() && buffer.ok
    requires k < |ws| == |vs| && ws[k] == w <= 8 && vs[k] == v
    requires buffer.Before() == start + EncodedTo(ws, vs, k)
    requires |start| + Offset(ws, |ws|) <= buffer.data.Length
    modifies buffer, buffer.data
    ensures buffer.Valid() && buffer.ok && buffer.Before() == start + EncodedTo(ws, vs, k + 1)
  {
    EncodedStep(start, ws, vs, k);
    assert |buffer.Before()| == buffer.offset;
    var _ := buffer.PutUint(v, w);
  }

  method PutCommon(buffer: Cursor, d: Dirent, local: bool, fieldsLength: nat)
    requires buffer.Valid() && buffer.ok && buffer.offset + 26 <= buffer.data.Length
    modifies buffer, buffer.data
    ensures buffer.Valid() && buffer.ok
    ensures buffer.Before() == old(buffer.Before()) + Encoded(COMMON_WIDTHS, CommonValues(d, local, fieldsLength))
  {
    ghost var start, ws, vs := buffer.Before(), COMMON_WIDTHS, CommonValues(d, local, fieldsLength);
    WidthsSplit();
    PutNext(buffer, if NeedsZip64(d, local) then 45 else d.needed, 2, start, ws, vs, 0);
    PutNext(buffer, d.bitflags, 2, start, ws, vs, 1);
    PutNext(buffer, d.compMethod % 0x1_0000, 2, start, ws, vs, 2);
    PutNext(buffer, d.time, 2, start, ws, vs, 3);
    PutNext(buffer, d.date, 2, start, ws, vs, 4);
    PutSizes(buffer, d, local, fieldsLength, start);
  }

  method PutSizes(buffer: Cursor, d: Dirent, local: bool, fieldsLength: nat, ghost start: seq<byte>)
    requires buffer.Valid() && buffer.ok
    requires buffer.Before() == start + EncodedTo(COMMON_WIDTHS, CommonValues(d, local, fieldsLength), 5)
    requires |start| + 26 <= buffer.data.Length
    modifies buffer, buffer.data
    ensures buffer.Valid() && buffer.ok
    ensures buffer.Before() == start + Encoded(COMMON_WIDTHS, CommonValues(d, local, fieldsLength))
  {
    ghost var ws, vs := COMMON_WIDTHS, CommonValues(d, local, fieldsLength);
    WidthsSplit();
    PutNext(buffer, d.crc, 4, start, ws, vs, 5);
    if local && (d.compSize >= UINT32_MAX || d.uncompSize >= UINT32_MAX) {
      // APPNOTE 4.5.3: a local header carries both sizes in the Zip64 field or neither
      PutNext(buffer, UINT32_MAX, 4, start, ws, vs, 6);
      PutNext(buffer, UINT32_MAX, 4, start, ws, vs, 7);
    } else {
      PutNext(buffer, if d.compSize < UINT32_MAX then d.compSize else UINT32_MAX, 4, start, ws, vs, 6);
      PutNext(buffer, if d.uncompSize < UINT32_MAX then d.uncompSize else UINT32_MAX, 4, start, ws, vs, 7);
    }
    PutNext(buffer, |d.name.raw|, 2, start, ws, vs, 8);
    PutNext(buffer, fieldsLength, 2, start, ws, vs, 9);
  }

  method PutTail(buffer: Cursor, d: Dirent)
    requires buffer.Valid() && buffer.ok && buffer.offset + 14 <= buffer.data.Length
    modifies buffer, buffer.data
    ensures buffer.Valid() && buffer.ok
    ensures buffer.Before() == old(buffer.Before())
      + Encoded(TAIL_WIDTHS, TailValues(d))
  {
    ghost var start, ws, vs := buffer.Before(), TAIL_WIDTHS, TailValues(d);
    WidthsSplit();
    PutNext(buffer, |d.comment.raw|, 2, start, ws, vs, 0);
    PutNext(buffer, d.disk % 0x1_0000, 2, start, ws, vs, 1);
    PutNext(buffer, d.intAttrib, 2, start, ws, vs, 2);
    PutNext(buffer, d.extAttrib, 4, start, ws, vs, 3);
    PutNext(buffer, if d.offset < UINT32_MAX then d.offset else UINT32_MAX, 4, start, ws, vs, 4);
  }

  method LocalHeader(d: Dirent, fieldsLength: nat) returns (h: seq<byte>)
    ensures h == Encoded(LOCAL_WIDTHS, HeaderValues(d, true, fieldsLength))
  {
    var buffer := new Cursor.Allocate(CDENTRYSIZE);
    WidthsSplit();
    assert buffer.Before() == [] + EncodedTo([4], [LOCAL_MAGIC], 0);
    PutNext(buffer, LOCAL_MAGIC, 4, [], [4], [LOCAL_MAGIC], 0);
    assert buffer.Before() == Encoded([4], [LOCAL_MAGIC]);
    PutCommon(buffer, d, true, fieldsLength);
    EncodedAppend([4], [LOCAL_MAGIC], COMMON_WIDTHS, CommonValues(d, true, fieldsLength), |COMMON_WIDTHS|);
    h := buffer.data[..buffer.offset];
  }

  /** A central header in its three stretches. */
  lemma {:induction false} CentralStretches(d: Dirent, fieldsLength: nat)
    ensures HeaderValues(d, false, fieldsLength)
      == [CENTRAL_MAGIC, if NeedsZip64(d, false) then 45 else d.madeBy] + CommonValues(d, false, fieldsLength) + TailValues(d)
    ensures Encoded(CENTRAL_WIDTHS, HeaderValues(d, false, fieldsLength))
      == Encoded([4, 2], [CENTRAL_MAGIC, if NeedsZip64(d, false) then 45 else d.madeBy])
        + Encoded(COMMON_WIDTHS, CommonValues(d, false, fieldsLength)) + Encoded(TAIL_WIDTHS, TailValues(d))
  {
    hide CommonValues, TailValues, Encoded, NeedsZip64;
    WidthsSplit();
    var start, common := [CENTRAL_MAGIC, if NeedsZip64(d, false) then 45 else d.madeBy], CommonValues(d, false, fieldsLength);
    EncodedConcat([4, 2], start, COMMON_WIDTHS, common);
    EncodedConcat([4, 2] + COMMON_WIDTHS, start + common, TAIL_WIDTHS, TailValues(d));
  }

  method PutStart(buffer: Cursor, d: Dirent)
    requires buffer.Valid() && buffer.ok && buffer.offset == 0 && buffer.data.Length >= 6
    modifies buffer, buffer.data
    ensures buffer.Valid() && buffer.ok
    ensures buffer.Before() == Encoded([4, 2], [CENTRAL_MAGIC, if NeedsZip64(d, false) then 45 else d.madeBy])
  {
    hide NeedsZip64;
    var madeBy := if NeedsZip64(d, false) then 45 else d.madeBy;
    ghost var start := [CENTRAL_MAGIC, madeBy];
    assert buffer.Before() == [] + EncodedTo([4, 2], start, 0);
    PutNext(buffer, CENTRAL_MAGIC, 4, [], [4, 2], start, 0);
    PutNext(buffer, madeBy, 2, [], [4, 2], start, 1);
    assert [] + EncodedTo([4, 2], start, 2) == EncodedTo([4, 2], start, 2);
  }

  method CentralHeader(d: Dirent, fieldsLength: nat) returns (h: seq<byte>)
    ensures h == Encoded(CENTRAL_WIDTHS, HeaderValues(d, false, fieldsLength))
  {
    hide HeaderValues, CommonValues, TailValues, NeedsZip64, EncodedTo;
    var buffer := new Cursor.Allocate(CDENTRYSIZE);
    WidthsSplit();
    PutStart(buffer, d);
    assert |buffer.Before()| == 6;
    PutCommon(buffer, d, false, fieldsLength);
    assert |buffer.Before()| == 32;
    PutTail(buffer, d);
    CentralStretches(d, fieldsLength);
    h := buffer.data[..buffer.offset];
  }

  method MakeZip64Data(d: Dirent, local: bool, force: bool) returns (b: Data)
    ensures b == Zip64Data(d, local, force)
  {
    var buffer := new Cursor.Allocate(28);
    if local {
      if force || d.compSize > UINT32_MAX || d.uncompSize > UINT32_MAX {
        var _ := buffer.PutUint(d.uncompSize, 8);
        var _ := buffer.PutUint(d.compSize, 8);
      }
    } else {
      if force || d.compSize > UINT32_MAX || d.uncompSize > UINT32_MAX || d.offset > UINT32_MAX {
        if d.uncompSize >= UINT32_MAX {
          var _ := buffer.PutUint(d.uncompSize, 8);
        }
        assert buffer.Before() == Only(d.uncompSize >= UINT32_MAX, d.uncompSize);
        if d.compSize >= UINT32_MAX {
          var _ := buffer.PutUint(d.compSize, 8);
        }
        if d.offset >= UINT32_MAX {
          var _ := buffer.PutUint(d.offset, 8);
        }
      }
    }
    b := buffer.data[..buffer.offset];
  }

  /** `_zip_ef_utf8`; fails when the text does not fit a field. */
  method MakeUtf8Field(id: uint16, s: ZipString, crc: Crc) returns (r: Option<Field>)
    ensures r == if |s.raw| + 5 > UINT16_MAX then None else Some(Utf8Field(id, s, crc))
  {
    if |s.raw| + 5 > UINT16_MAX {
      return None;
    }
    var buffer := new Cursor.Allocate(|s.raw| + 5);
    var _ := buffer.PutUint(1, 1);
    assert buffer.Before() == [1];
    var _ := buffer.PutUint(crc(s.raw), 4);
    assert |buffer.Before()| == 5;
    var _ := buffer.Put(s.raw);
    return Some(Field(id, buffer.data[..buffer.offset], BOTH));
  }

  /** The UTF-8 flag, or the Unicode fields that stand in for it. */
  method EncodingFields(d: Dirent, local: bool, crc: Crc) returns (r: Option<(uint16, seq<Field>)>)
    ensures r.None? <==> !Encodable(d, local)
    ensures r.Some? ==> r.value.0 == WithBit(d.bitflags, GPBF_UTF8, SharesUtf8Flag(d))
    ensures r.Some? ==> r.value.1 == UnicodeFields(d, local, crc)
  {
    var _, nameVerdict := GuessEncoding(d.name, Unknown);
    var _, commentVerdict := GuessEncoding(d.comment, Unknown);
    var nameEnc, commentEnc := nameVerdict.enc, commentVerdict.enc;
    if (nameEnc == Utf8Known && commentEnc == Ascii) || (nameEnc == Ascii && commentEnc == Utf8Known)
       || (nameEnc == Utf8Known && commentEnc == Utf8Known) {
      return Some((WithBit(d.bitflags, GPBF_UTF8, true), []));
    }
    var fields := [];
    if nameEnc == Utf8Known {
      var f := MakeUtf8Field(EF_UTF8_NAME, d.name, crc);
      if f.None? {
        return None;
      }
      fields := [f.value];
    }
    if !local && commentEnc == Utf8Known {
      var f := MakeUtf8Field(EF_UTF8_COMMENT, d.comment, crc);
      if f.None? {
        return None;
      }
      fields := [f.value] + fields;
    }
    return Some((WithBit(d.bitflags, GPBF_UTF8, false), fields));
  }

  /** The first half of `_zip_dirent_write`: the updated flags and the generated fields. */
  method Prepare(d: Dirent, local: bool, force: bool, crc: Crc) returns (r: Option<(Dirent, seq<Field>)>)
    ensures r == if Encodable(d, local) then Some((Flagged(d), Generated(d, local, force, crc))) else None
  {
    var encoded := EncodingFields(d, local, crc);
    if encoded.None? {
      return None;
    }
    var (flags, fields) := encoded.value;
    if IsZip64(d, local, force) {
      var data := MakeZip64Data(d, local, force);
      fields := [Field(EF_ZIP64, data, BOTH)] + fields;
    }
    assert fields == Generated(d, local, force, crc);
    return Some((d.(bitflags := WithBit(flags, GPBF_ENCRYPTED, d.encryption != NoEncryption)), fields));
  }

  /** `_zip_dirent_write`: the entry with its flags updated, and whether it wrote a Zip64 field. */
  method Write(out: Sink, d: Dirent, local: bool, force: bool, crc: Crc) returns (r: Result<(Dirent, bool)>)
    requires out.Valid()
    modifies out
    ensures out.Valid()
    ensures r == if Encodable(d, local) then Ok((Flagged(d), IsZip64(d, local, force))) else Err(Invalid)
    ensures r.Ok? ==> out.bytes == Splice(old(out.bytes), old(out.pos), DirentBytes(d, local, force, crc))
    ensures r.Ok? ==> out.pos == old(out.pos) + |DirentBytes(d, local, force, crc)|
    ensures r.Err? ==> out.bytes == old(out.bytes) && out.pos == old(out.pos)
  {
    var prepared := Prepare(d, local, force, crc);
    if prepared.None? {
      return Err(Invalid);
    }
    var (de, fields) := prepared.value;
    WriteBody(out, de, local, fields);
    return Ok((de, IsZip64(d, local, force)));
  }

  method MakeHeader(d: Dirent, local: bool, generated: seq<Field>) returns (header: seq<byte>)
    ensures header == Encoded(Widths(local), HeaderValues(d, local, BodyLength(d, local, generated)))
  {
    var own := Size(d.fields, ViewOf(local));
    var added := Size(generated, BOTH);
    var total := (own as int + added as int) % 0x1_0000;
    if local {
      header := LocalHeader(d, total);
    } else {
      header := CentralHeader(d, total);
    }
  }

  lemma {:induction false} BodyParts(d: Dirent, local: bool, generated: seq<Field>, header: seq<byte>)
    requires header == Encoded(Widths(local), HeaderValues(d, local, BodyLength(d, local, generated)))
    ensures var w := header + d.name.raw + Written(generated, BOTH) + Written(d.fields, ViewOf(local));
      Body(d, local, generated) == if local then w else w + d.comment.raw
  {
    hide HeaderValues, Encoded, BodyLength, Written;
    var g, f := Written(generated, BOTH), Written(d.fields, ViewOf(local));
    Associative(header + d.name.raw, g, f);
  }

  /** The second half: the header, the name, the two field lists and, centrally, the comment. */
  method WriteBody(out: Sink, d: Dirent, local: bool, generated: seq<Field>)
    requires out.Valid()
    modifies out
    ensures out.Valid()
    ensures out.bytes == Splice(old(out.bytes), old(out.pos), Body(d, local, generated))
    ensures out.pos == old(out.pos) + |Body(d, local, generated)|
  {
    hide Body, HeaderValues, BodyLength, Written, Encoded, Splice;
    ghost var b0, p0 := out.bytes, out.pos;
    var header := MakeHeader(d, local, generated);
    BodyParts(d, local, generated, header);
    SpliceNothing(b0, p0);
    Append(out, header, b0, p0, []);
    assert [] + header == header;
    Append(out, d.name.raw, b0, p0, header);
    AppendFields(out, generated, BOTH, b0, p0, header + d.name.raw);
    AppendFields(out, d.fields, ViewOf(local), b0, p0, header + d.name.raw + Written(generated, BOTH));
    if !local {
      Append(out, d.comment.raw, b0, p0, header + d.name.raw + Written(generated, BOTH) + Written(d.fields, ViewOf(local)));
    }
  }

  /** Writes on, keeping the account of what has been written since `b0`, `p0`. */
  method Append(out: Sink, data: seq<byte>, ghost b0: seq<byte>, ghost p0: nat, ghost done: seq<byte>)
    requires out.Valid() && p0 <= |b0|
    requires out.bytes == Splice(b0, p0, done) && out.pos == p0 + |done|
    modifies out
    ensures out.Valid() && out.bytes == Splice(b0, p0, done + data) && out.pos == p0 + |done + data|
  {
    SpliceTwice(b0, p0, done, data);
    out.Write(data);
  }

  method AppendFields(out: Sink, fs: seq<Field>, v: View, ghost b0: seq<byte>, ghost p0: nat, ghost done: seq<byte>)
    requires out.Valid() && p0 <= |b0|
    requires out.bytes == Splice(b0, p0, done) && out.pos == p0 + |done|
    modifies out
    ensures out.Valid() && out.bytes == Splice(b0, p0, done + Written(fs, v)) && out.pos == p0 + |done + Written(fs, v)|
  {
    SpliceTwice(b0, p0, done, Written(fs, v));
    WriteFields(out, fs, v);
  }
}
