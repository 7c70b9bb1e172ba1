/**
 Writing one entry with new data (`add_data` in zip_close.c): a preliminary header, the data,
 then the final header over the preliminary one.
 */
module AddData {
  import opened Bytes
  import opened ZipBuffer
  import opened ExtraField
  import opened Output
  import opened Dirent
  import opened DirentReader

  const CM_DEFAULT: int := -1
  const CM_REPLACED_DEFAULT: int := -2
  const CM_STORE: int := 0
  const CM_DEFLATE: int := 8
  const CM_BZIP2: int := 12
  const CM_LZMA: int := 14

  predicate IsDefault(m: int) {
    m == CM_DEFAULT || m == CM_REPLACED_DEFAULT
  }

  function Actual(m: int): int {
    if IsDefault(m) then CM_DEFLATE else m
  }

  type Level = n: nat | n < 4

  /** A data source: what it announces about itself, and what the chain of layers on top of it
      (CRC, compression) delivers and reports once it has been read. */
  datatype Payload = Payload(
    size: Option<uint64>, compSize: Option<uint64>, compMethod: Option<int>,
    bytes: seq<byte>, finalSize: uint64, finalMethod: int, crc: uint32, stamp: (uint16, uint16), level: Level)

  /** Largest size for which the compressed data is taken to stay below 0xffffffff. */
  function MaxSize(m: int): nat {
    if m == CM_BZIP2 then 4269351188 else if m == CM_DEFLATE then 4293656963
    else if m == CM_STORE then 0xffffffff else 0
  }

  /** The method the entry will use and the compressed size known in advance. */
  function Plan(d: Dirent, p: Payload): (int, Option<uint64>) {
    var given := if p.compMethod.None? then CM_STORE else p.compMethod.value;
    if IsDefault(d.compMethod) && given != CM_STORE then (given, p.compSize)
    else if d.compMethod == CM_STORE && p.size.Some? then (d.compMethod, p.size)
    else (d.compMethod, None)
  }

  predicate Forced(d: Dirent, p: Payload) {
    p.size.None? || (Plan(d, p).1.None? && p.size.value > MaxSize(Actual(Plan(d, p).0)))
  }

  /** The entry as first written, before its data. */
  function Preliminary(d: Dirent, p: Payload): Dirent {
    var (m, known) := Plan(d, p);
    d.(compMethod := m,
       uncompSize := if p.size.Some? then p.size.value else d.uncompSize,
       compSize := if p.size.Some? && known.Some? then known.value else d.compSize,
       bitflags := WithBit(d.bitflags, GPBF_DATA_DESCRIPTOR, false))
  }

  function VersionNeeded(d: Dirent, force: bool): uint16 {
    if d.compMethod == CM_LZMA then 63
    else if d.compMethod == CM_BZIP2 then 46
    else if force || NeedsZip64(d, true) then 45
    else if d.compMethod == CM_DEFLATE || d.encryption == TradPkware then 20
    else if d.name.raw != [] && d.name.raw[|d.name.raw| - 1] == 47 then 20
    else 10
  }

  /** The compression-level bits, 1 and 2 of the flags. */
  function WithLevel(flags: uint16, level: Level): uint16
  {
    flags - flags / 2 % 4 * 2 + level * 2
  }

  /** The entry as finally written. `stamped` is its time if that was set explicitly. */
  function Final(d: Dirent, p: Payload, stamped: bool): Dirent
    requires |p.bytes| < TWO_TO_THE_64
  {
    var e := Flagged(Preliminary(d, p));
    var f := e.(
      time := if stamped then e.time else p.stamp.0, date := if stamped then e.date else p.stamp.1,
      compMethod := p.finalMethod, crc := p.crc, uncompSize := p.finalSize, compSize := |p.bytes|,
      bitflags := WithLevel(e.bitflags, p.level));
    f.(needed := VersionNeeded(f, Forced(d, p)))
  }

  function Preheader(d: Dirent, p: Payload, crc: Crc): seq<byte>
    requires Encodable(d, true)
  {
    DirentBytes(Preliminary(d, p), true, Forced(d, p), crc)
  }

  function Header(d: Dirent, p: Payload, stamped: bool, crc: Crc): seq<byte>
    requires Encodable(d, true) && |p.bytes| < TWO_TO_THE_64
  {
    DirentBytes(Final(d, p, stamped), true, Forced(d, p), crc)
  }

  /** `copy_source`: in blocks of 8192 bytes. */
  method CopySource(out: Sink, data: seq<byte>)
    requires out.Valid()
    modifies out
    ensures out.Valid() && out.bytes == Splice(old(out.bytes), old(out.pos), data) && out.pos == old(out.pos) + |data|
  {
    hide Splice;
    ghost var b0, p0 := out.bytes, out.pos;
    SpliceNothing(b0, p0);
    var n := 0;
    assert data[..0] == [];
    while n < |data|
      invariant 0 <= n <= |data| && out.Valid() && out.bytes == Splice(b0, p0, data[..n]) && out.pos == p0 + n
    {
      var end := if n + 8192 < |data| then n + 8192 else |data|;
      SpliceTwice(b0, p0, data[..n], data[n..end]);
      assert data[..n] + data[n..end] == data[..end];
      out.Write(data[n..end]);
      n := end;
    }
    assert data[..n] == data;
  }

  /** What `add_data` leaves in the file when it starts writing at `at`. */
  function Rewrite(b: seq<byte>, at: nat, h1: seq<byte>, data: seq<byte>, h2: seq<byte>): seq<byte>
    requires at <= |b|
  {
    Splice(Splice(b, at, h1 + data), at, h2)
  }

  /** `add_data`. It fails if the two headers disagree on the Zip64 field. */
  method AddEntry(out: Sink, d: Dirent, p: Payload, stamped: bool, crc: Crc) returns (r: Result<Dirent>)
    requires out.Valid()
    modifies out
    ensures out.Valid()
    ensures r.Ok? <==>
      && Encodable(d, true) && old(out.pos) + |Preheader(d, p, crc)| + |p.bytes| <= INT64_MAX
      && IsZip64(Preliminary(d, p), true, Forced(d, p)) == IsZip64(Final(d, p, stamped), true, Forced(d, p))
    ensures r.Ok? ==> r.value == Flagged(Final(d, p, stamped))
    ensures r.Ok? ==> out.pos == old(out.pos) + |Preheader(d, p, crc)| + |p.bytes|
    ensures r.Ok? ==>
      out.bytes == Rewrite(old(out.bytes), old(out.pos), Preheader(d, p, crc), p.bytes, Header(d, p, stamped, crc))
  {
    hide Splice, DirentBytes, Plan, VersionNeeded, WithLevel, Forced, NeedsZip64;
    ghost var b0, p0 := out.bytes, out.pos;
    var force := Forced(d, p);
    var e := Preliminary(d, p);
    var start := out.Tell();
    if start.Err? {
      return Err(start.error);
    }
    EncodableOfSame(d, e);
    var first := Write(out, e, true, force, crc);
    if first.Err? {
      return Err(first.error);
    }
    var dataStart := out.Tell();
    if dataStart.Err? {
      return Err(dataStart.error);
    }
    SpliceTwice(b0, p0, Preheader(d, p, crc), p.bytes);
    CopySource(out, p.bytes);
    var dataEnd := out.Tell();
    if dataEnd.Err? {
      return Err(dataEnd.error);
    }
    var _ := out.SeekTo(start.value);
    var f := Finish(first.value.0, p, stamped, force, dataEnd.value - dataStart.value);
    assert f == Final(d, p, stamped);
    EncodableOfSame(d, f);
    var second := Write(out, f, true, force, crc);
    if second.Err? {
      return Err(Invalid);
    }
    if first.value.1 != second.value.1 {
      return Err(Internal);
    }
    SpliceLength(Splice(b0, p0, Preheader(d, p, crc) + p.bytes), p0, Header(d, p, stamped, crc));
    SpliceReach(b0, p0, Preheader(d, p, crc) + p.bytes);
    var _ := out.SeekTo(dataEnd.value);
    return Ok(second.value.0);
  }

  lemma {:induction false} SpliceReach(b: seq<byte>, at: nat, data: seq<byte>)
    requires at <= |b|
    ensures |Splice(b, at, data)| >= at + |data|
  {}

  method Finish(e: Dirent, p: Payload, stamped: bool, force: bool, compSize: uint64) returns (f: Dirent)
    ensures var g := e.(
      time := if stamped then e.time else p.stamp.0, date := if stamped then e.date else p.stamp.1,
      compMethod := p.finalMethod, crc := p.crc, uncompSize := p.finalSize, compSize := compSize,
      bitflags := WithLevel(e.bitflags, p.level));
      f == g.(needed := VersionNeeded(g, force))
  {
    f := e;
    if !stamped {
      f := f.(time := p.stamp.0, date := p.stamp.1);
    }
    f := f.(compMethod := p.finalMethod, crc := p.crc, uncompSize := p.finalSize, compSize := compSize);
    f := f.(bitflags := WithLevel(f.bitflags, p.level));
    f := f.(needed := VersionNeeded(f, force));
  }

  lemma {:induction false} SpliceLength(b: seq<byte>, at: nat, data: seq<byte>)
    requires at <= |b|
    ensures |Splice(b, at, data)| >= |b|
  {}

  lemma {:induction false} EncodableOfSame(d: Dirent, e: Dirent)
    requires d.name == e.name && d.comment == e.comment
    ensures Encodable(d, true) == Encodable(e, true)
  {}

  // ----- The rewritten header -----

  /** The length of the Zip64 field; without force it is empty for a size of exactly 0xffffffff. */
  function Zip64Length(d: Dirent, force: bool): nat {
    if !IsZip64(d, true, force) then 0 else if force || Exceeds(d, true) then 20 else 4
  }

  lemma {:induction false} HeaderLength(d: Dirent, force: bool, crc: Crc)
    requires Encodable(d, true)
    ensures |DirentBytes(d, true, force, crc)| == LENTRYSIZE + |d.name.raw| + Zip64Length(d, force)
      + |Written(UnicodeFields(d, true, crc), BOTH)| + |Written(d.fields, LOCAL)|
  {
    HeaderSizes();
    var z := if IsZip64(d, true, force) then [Field(EF_ZIP64, Zip64Data(d, true, force), BOTH)] else [];
    var u := UnicodeFields(d, true, crc);
    WrittenAppend(z, u, BOTH);
    OneField(Field(EF_ZIP64, Zip64Data(d, true, force), BOTH), AnyId, BOTH);
    hide HeaderValues, UnicodeFields, Written, NeedsZip64;
  }

  /** The final header covers the preliminary one exactly if and only if their Zip64 fields are as
      long; given that they agree on having one, this fails only between 0xffffffff and more. */
  lemma {:induction false} RewriteFits(d: Dirent, p: Payload, stamped: bool, crc: Crc)
    requires Encodable(d, true) && |p.bytes| < TWO_TO_THE_64
    ensures |Preheader(d, p, crc)| == |Header(d, p, stamped, crc)|
      <==> Zip64Length(Preliminary(d, p), Forced(d, p)) == Zip64Length(Final(d, p, stamped), Forced(d, p))
  {
    var e, f, force := Preliminary(d, p), Final(d, p, stamped), Forced(d, p);
    HeaderLength(e, force, crc);
    HeaderLength(f, force, crc);
    hide DirentBytes, Written, Plan, Forced, VersionNeeded, WithLevel;
  }

  /** A rewrite that fits leaves the final header followed by the data. */
  lemma {:induction false} RewriteKeepsData(b: seq<byte>, h1: seq<byte>, data: seq<byte>, h2: seq<byte>)
    requires |h1| == |h2|
    ensures Rewrite(b, |b|, h1, data, h2) == b + h2 + data
  {}

  // ----- Sources that keep their word -----

  /** Worst-case deflate output: five bytes per 16 KiB block and six more. */
  function WorstDeflate(size: nat): nat {
    size + (size + 16383) / 16384 * 5 + 6
  }

  /** 4293656963 is the largest size whose worst case stays below 0xffffffff. */
  lemma {:induction false} DeflateLimit(size: nat)
    ensures WorstDeflate(size) < UINT32_MAX <==> size <= MaxSize(CM_DEFLATE)
  {
    assert WorstDeflate(4293656963) == 0xfffffffe && WorstDeflate(4293656964) == 0xffffffff;
  }

  /** The source delivers what it announced, and compression grows data within its bound. */
  predicate Honest(d: Dirent, p: Payload) {
    var (m, known) := Plan(d, p);
    p.size.Some? ==>
      && p.finalSize == p.size.value
      && (known.Some? ==> |p.bytes| == known.value)
      && (known.None? ==>
        if Actual(m) == CM_DEFLATE then |p.bytes| <= WorstDeflate(p.size.value)
        else p.size.value <= MaxSize(Actual(m)) ==> p.size.value < UINT32_MAX && |p.bytes| < UINT32_MAX)
  }

  /** The compressed size is not known in advance, and the old one is still in the entry. */
  predicate StaleSize(d: Dirent, p: Payload) {
    p.size.Some? && Plan(d, p).1.None? && !Forced(d, p) && d.compSize >= UINT32_MAX
  }

  /** With an honest source the two headers make the same Zip64 decision and have the same length,
      so that the second overwrites exactly the first, if and only if no stale compressed size of
      0xffffffff or more is left in the entry; a new entry has none. */
  lemma {:induction false} HonestRewriteFits(d: Dirent, p: Payload, stamped: bool, crc: Crc)
    requires Encodable(d, true) && |p.bytes| < TWO_TO_THE_64
    requires Honest(d, p)
    ensures
      && IsZip64(Preliminary(d, p), true, Forced(d, p)) == IsZip64(Final(d, p, stamped), true, Forced(d, p))
      && |Preheader(d, p, crc)| == |Header(d, p, stamped, crc)|
      <==> !StaleSize(d, p)
  {
    RewriteFits(d, p, stamped, crc);
    hide DirentBytes, VersionNeeded, WithLevel, Flags;
    if p.size.Some? && Plan(d, p).1.None? {
      DeflateLimit(p.size.value);
    }
  }

  /** With a stale size, the first header has a Zip64 field and the second has not. */
  lemma {:induction false} StaleDisagrees(d: Dirent, p: Payload, stamped: bool)
    requires Honest(d, p) && StaleSize(d, p) && |p.bytes| < TWO_TO_THE_64
    ensures IsZip64(Preliminary(d, p), true, Forced(d, p)) != IsZip64(Final(d, p, stamped), true, Forced(d, p))
  {
    hide VersionNeeded, WithLevel, Flags;
    DeflateLimit(p.size.value);
  }

  /** An entry whose data took up 0xffffffff bytes, and ten new bytes for it, to be compressed. */
  function BigEntry(): Dirent {
    Dirent(20, 20, 0, CM_DEFAULT, 0, 0, 0, UINT32_MAX, UINT32_MAX, NO_STRING, [], NO_STRING, 0, 0, 0, 0, NoEncryption)
  }

  function TenBytes(): Payload {
    Payload(Some(10), None, None, seq(10, _ => 0), 10, CM_DEFLATE, 0, (0, 0), 0)
  }

  lemma {:induction false} StaleSizeIsRefused(stamped: bool)
    ensures var d, p := BigEntry(), TenBytes();
      && Encodable(d, true) && Honest(d, p) && StaleSize(d, p)
      && IsZip64(Preliminary(d, p), true, Forced(d, p)) && !IsZip64(Final(d, p, stamped), true, Forced(d, p))
  {
    StaleDisagrees(BigEntry(), TenBytes(), stamped);
  }
}
