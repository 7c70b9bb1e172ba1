/**
 What a written directory entry reads back as, and exactly when.
 */
module DirentRoundTrip {
  import opened Bytes
  import opened ZipBuffer
  import opened Encoding
  import opened ExtraField
  import opened Output
  import opened Dirent
  import opened DirentReader

  /** An entry the archive can hold: no internal ids among its own fields, lengths that fit their
      sixteen-bit counts, a position that can be sought, string encodings that the scan produced. */
  ghost predicate Storable(d: Dirent, local: bool, force: bool, crc: Crc) {
    && Encodable(d, local)
    && |d.name.raw| <= UINT16_MAX && |d.comment.raw| <= UINT16_MAX
    && |Written(Generated(d, local, force, crc), BOTH)| + |Written(d.fields, ViewOf(local))| <= UINT16_MAX
    && (forall f :: f in d.fields ==> !IsInternal(f.id))
    && Coherent(d.name) && Coherent(d.comment)
    && (!local ==> d.offset <= INT64_MAX)
    && d.compMethod % 0x1_0000 != CM_WINZIP_AES
  }

  /** The condition under which the Zip64 values survive: a size or offset of exactly 0xffffffff
      needs another one above it (or, locally, a forced field), and the disk number must not be
      the value that announces one in the Zip64 field. */
  predicate Zip64Sound(d: Dirent, local: bool, force: bool) {
    NeedsZip64(d, local) ==>
      (force || Exceeds(d, local)) && (local || d.disk % 0x1_0000 != UINT16_MAX)
  }

  /** A string read back: text known to be UTF-8 stays so, everything else is to be guessed again. */
  function StringBack(s: ZipString, flagged: bool): ZipString {
    if s.raw == [] then NO_STRING
    else if EncodingOf(s) == Utf8Known then ZipString(s.raw, Utf8Known)
    else if flagged then ZipString(s.raw, Ascii) else ZipString(s.raw, Unknown)
  }

  function NameBack(s: ZipString, flagged: bool): ZipString {
    var t := StringBack(s, flagged);
    if t.enc == Unknown then t.(raw := SpaceForNul(t.raw)) else t
  }

  /** The entry a reader sees. */
  function Back(d: Dirent, local: bool): Dirent {
    var really, shared := NeedsZip64(d, local), SharesUtf8Flag(d);
    d.(madeBy := if local then 0 else if really then 45 else d.madeBy,
       needed := if really then 45 else d.needed,
       bitflags := Flags(d), encryption := EncryptionOf(Flags(d)), compMethod := d.compMethod % 0x1_0000,
       name := NameBack(d.name, shared),
       fields := Seen(d.fields, ViewOf(local)),
       comment := if local then NO_STRING else StringBack(d.comment, shared),
       disk := if local then 0 else d.disk % 0x1_0000,
       intAttrib := if local then 0 else d.intAttrib, extAttrib := if local then 0 else d.extAttrib,
       offset := if local then 0 else d.offset)
  }

  // ----- The fixed part -----

  lemma {:induction false} FieldAt(ws: seq<nat>, vs: seq<nat>, b: seq<byte>, k: nat)
    requires Offset(ws, |ws|) <= |b| && Values(ws, b) == vs && k < |ws|
    ensures Offset(ws, k) + ws[k] <= |b|
    ensures Uint(b, Offset(ws, k), ws[k]) == vs[k]
  {
    OffsetMonotonic(ws, k + 1, |ws|);
    assert Values(ws, b)[k] == vs[k];
  }

  /** What the reader makes of a header before it looks at the Zip64 field. */
  function Capped32(d: Dirent, local: bool): Dirent {
    var big := local && (d.compSize >= UINT32_MAX || d.uncompSize >= UINT32_MAX);
    Back(d, local).(
      name := NO_STRING, fields := [], comment := NO_STRING,
      compSize := if big then UINT32_MAX else Capped(d.compSize),
      uncompSize := if big then UINT32_MAX else Capped(d.uncompSize),
      offset := if local then 0 else Capped(d.offset))
  }

  /** The numbers of the fields common to both headers, at their byte offsets. */
  lemma {:induction false} CommonAt(b: seq<byte>, vs: seq<nat>, local: bool)
    requires |b| >= HeaderSize(local)
    requires Offset(Widths(local), |Widths(local)|) <= |b| && Values(Widths(local), b) == vs
    ensures var c, j := Common(local), if local then 1 else 2;
      && Uint(b, 0, 4) == vs[0]
      && U16(b, c) == vs[j] && U16(b, c + 2) == vs[j + 1] && U16(b, c + 4) == vs[j + 2] && U16(b, c + 6) == vs[j + 3]
      && U16(b, c + 8) == vs[j + 4] && U32(b, c + 10) == vs[j + 5] && U32(b, c + 14) == vs[j + 6]
      && U32(b, c + 18) == vs[j + 7] && U16(b, c + 22) == vs[j + 8] && U16(b, c + 24) == vs[j + 9]
  {
    var ws, j := Widths(local), if local then 1 else 2;
    WidthOffsets();
    FieldAt(ws, vs, b, 0);
    FieldAt(ws, vs, b, j);
    FieldAt(ws, vs, b, j + 1);
    FieldAt(ws, vs, b, j + 2);
    FieldAt(ws, vs, b, j + 3);
    FieldAt(ws, vs, b, j + 4);
    FieldAt(ws, vs, b, j + 5);
    FieldAt(ws, vs, b, j + 6);
    FieldAt(ws, vs, b, j + 7);
    FieldAt(ws, vs, b, j + 8);
    FieldAt(ws, vs, b, j + 9);
  }

  lemma {:induction false} TailAt(b: seq<byte>, vs: seq<nat>)
    requires |b| >= CDENTRYSIZE
    requires Offset(CENTRAL_WIDTHS, |CENTRAL_WIDTHS|) <= |b| && Values(CENTRAL_WIDTHS, b) == vs
    ensures U16(b, 4) == vs[1] && U16(b, 32) == vs[12] && U16(b, 34) == vs[13] && U16(b, 36) == vs[14]
    ensures U32(b, 38) == vs[15] && U32(b, 42) == vs[16]
  {
    WidthOffsets();
    FieldAt(CENTRAL_WIDTHS, vs, b, 1);
    FieldAt(CENTRAL_WIDTHS, vs, b, 12);
    FieldAt(CENTRAL_WIDTHS, vs, b, 13);
    FieldAt(CENTRAL_WIDTHS, vs, b, 14);
    FieldAt(CENTRAL_WIDTHS, vs, b, 15);
    FieldAt(CENTRAL_WIDTHS, vs, b, 16);
  }

  lemma {:induction false} WidthOffsets()
    ensures var l := LOCAL_WIDTHS;
      && Offset(l, 1) == 4 && Offset(l, 2) == 6 && Offset(l, 3) == 8 && Offset(l, 4) == 10 && Offset(l, 5) == 12
      && Offset(l, 6) == 14 && Offset(l, 7) == 18 && Offset(l, 8) == 22 && Offset(l, 9) == 26 && Offset(l, 10) == 28
    ensures var c := CENTRAL_WIDTHS;
      && Offset(c, 1) == 4 && Offset(c, 2) == 6 && Offset(c, 3) == 8 && Offset(c, 4) == 10 && Offset(c, 5) == 12
      && Offset(c, 6) == 14 && Offset(c, 7) == 16 && Offset(c, 8) == 20 && Offset(c, 9) == 24 && Offset(c, 10) == 28
      && Offset(c, 11) == 30 && Offset(c, 12) == 32 && Offset(c, 13) == 34 && Offset(c, 14) == 36 && Offset(c, 15) == 38
      && Offset(c, 16) == 42
  {
    assert Offset(LOCAL_WIDTHS, 5) == 12;
    assert Offset(CENTRAL_WIDTHS, 5) == 12;
    assert Offset(CENTRAL_WIDTHS, 10) == 28;
    assert Offset(CENTRAL_WIDTHS, 13) == 34;
  }

  lemma {:induction false} HeaderFits(d: Dirent, local: bool, length: uint16)
    requires |d.name.raw| <= UINT16_MAX && |d.comment.raw| <= UINT16_MAX
    ensures Fits(Widths(local), HeaderValues(d, local, length))
  {
    Pow256Values();
    WidthsSplit();
    var start := if local then [LOCAL_MAGIC] else [CENTRAL_MAGIC, if NeedsZip64(d, local) then 45 else d.madeBy];
    var common := CommonValues(d, local, length);
    assert Fits(if local then [4] else [4, 2], start);
    assert Fits(COMMON_WIDTHS, common);
    FitsAppend(if local then [4] else [4, 2], start, COMMON_WIDTHS, common);
    if !local {
      assert Fits(TAIL_WIDTHS, TailValues(d));
      FitsAppend([4, 2] + COMMON_WIDTHS, start + common, TAIL_WIDTHS, TailValues(d));
    }
  }

  lemma {:induction false} FitsAppend(ws: seq<nat>, vs: seq<nat>, xs: seq<nat>, ys: seq<nat>)
    requires Fits(ws, vs) && Fits(xs, ys)
    ensures Fits(ws + xs, vs + ys)
  {}

  /** The fixed part of a written header, as the reader sees it. */
  lemma {:induction false} FixedRoundTrip(d: Dirent, local: bool, length: uint16, tail: seq<byte>)
    requires |d.name.raw| <= UINT16_MAX && |d.comment.raw| <= UINT16_MAX
    ensures var b := Encoded(Widths(local), HeaderValues(Flagged(d), local, length)) + tail;
      && |b| >= HeaderSize(local) && Uint(b, 0, 4) == Magic(local)
      && NameLength(b, local) == |d.name.raw| && ExtraLength(b, local) == length
      && CommentLength(b, local) == (if local then 0 else |d.comment.raw|)
      && FixedPart(b, local) == Capped32(d, local)
  {
    var vs := HeaderValues(Flagged(d), local, length);
    var b := Encoded(Widths(local), vs) + tail;
    HeaderSizes();
    HeaderFits(Flagged(d), local, length);
    RecordRoundTrip(Widths(local), vs, tail);
    FixedFromValues(d, local, length, b);
  }

  lemma {:induction false} FixedFromValues(d: Dirent, local: bool, length: uint16, b: seq<byte>)
    requires |b| >= HeaderSize(local) == Offset(Widths(local), |Widths(local)|)
    requires Values(Widths(local), b) == HeaderValues(Flagged(d), local, length)
    ensures Uint(b, 0, 4) == Magic(local)
    ensures NameLength(b, local) == |d.name.raw| && ExtraLength(b, local) == length
    ensures CommentLength(b, local) == (if local then 0 else |d.comment.raw|)
    ensures FixedPart(b, local) == Capped32(d, local)
  {
    hide Uint, Values, Offset, Flags, EncryptionOf;
    var vs := HeaderValues(Flagged(d), local, length);
    CommonAt(b, vs, local);
    if !local {
      TailAt(b, vs);
    }
  }

  // ----- The variable part -----

  lemma {:induction false} SeenIsPlain(fs: seq<Field>, v: View, w: View, id: uint16)
    requires forall f :: f in fs ==> !IsInternal(f.id)
    requires IsInternal(id)
    ensures ById(Seen(fs, v), Id(id), w) == []
    ensures Unused(Seen(fs, v)) == Seen(fs, v)
  {
    if fs != [] {
      assert fs[0] in fs;
      SeenIsPlain(fs[1..], v, w, id);
      if In(fs[0], v) {
        assert Seen(fs, v)[1..] == Seen(fs[1..], v);
      } else {
        assert Seen(fs, v) == Seen(fs[1..], v);
      }
    }
  }

  /** What a lookup of a generated field finds in the whole list. */
  lemma {:induction false} LookupGenerated(gen: seq<Field>, own: seq<Field>, v: View, w: View, id: uint16)
    requires forall f :: f in gen ==> f.view == BOTH
    requires ById(own, Id(id), w) == [] && (v == LOCAL || v == CENTRAL) && (w == v || w == BOTH)
    ensures Lookup(Seen(gen, v) + own, Id(id), 0, w) == First(gen, id)
  {
    hide ById;
    var fs := Seen(gen, v) + own;
    if gen == [] {
      assert fs == own;
    } else {
      var f := gen[0].(view := v);
      assert gen[0] in gen;
      LookupGenerated(gen[1..], own, v, w, id);
      assert SeenIn(gen[0], v) == [f];
      Associative([f], Seen(gen[1..], v), own);
      ByIdAppend([f], Seen(gen[1..], v) + own, Id(id), w);
      OneField(f, Id(id), w);
    }
  }

  lemma {:induction false} UnusedCons(f: Field, fs: seq<Field>)
    ensures Unused([f] + fs) == (if IsInternal(f.id) then [] else [f]) + Unused(fs)
  {
    assert ([f] + fs)[1..] == fs;
  }

  /** The reader drops the generated fields and keeps the entry's own. */
  lemma {:induction false} UnusedGenerated(gen: seq<Field>, own: seq<Field>, v: View)
    requires forall f :: f in gen ==> IsInternal(f.id)
    requires Unused(own) == own
    ensures Unused(Seen(gen, v) + own) == own
  {
    if gen == [] {
      assert Seen(gen, v) + own == own;
    } else {
      assert gen[0] in gen;
      UnusedGenerated(gen[1..], own, v);
      if In(gen[0], v) {
        assert Seen(gen, v) + own == [gen[0].(view := v)] + (Seen(gen[1..], v) + own);
        UnusedCons(gen[0].(view := v), Seen(gen[1..], v) + own);
      } else {
        assert Seen(gen, v) == Seen(gen[1..], v);
      }
    }
  }

  function First(gen: seq<Field>, id: uint16): Option<Data> {
    if gen == [] then None else if gen[0].id == id then Some(gen[0].data) else First(gen[1..], id)
  }

  /** Generated fields are in both views, so they read the same in either. */
  lemma {:induction false} WrittenBoth(fs: seq<Field>, v: View)
    requires (forall f :: f in fs ==> f.view == BOTH) && (v == LOCAL || v == CENTRAL)
    ensures Written(fs, BOTH) == Written(fs, v)
  {
    if fs != [] {
      assert fs[0] in fs;
      WrittenBoth(fs[1..], v);
    }
  }

  lemma {:induction false} ScanKinds(s: seq<byte>)
    ensures Scan(s) in {Ascii, Utf8Guessed, Cp437}
    ensures 0 in s ==> Scan(s) == Cp437
  {
    ScanKindsFrom(s, 0, Ascii);
    assert s[0..] == s;
    if 0 in s {
      NulIsRejected(s, 0, Ascii);
    }
  }

  lemma {:induction false} ScanKindsFrom(s: seq<byte>, i: nat, enc: Encoding)
    requires i <= |s| && enc in {Ascii, Utf8Guessed}
    ensures ScanFrom(s, i, enc) in {Ascii, Utf8Guessed, Cp437}
    decreases |s| - i
  {
    if i < |s| {
      var n := Continuations(s[i]);
      if Printable(s[i]) {
        ScanKindsFrom(s, i + 1, enc);
      } else if i + n < |s| {
        ScanKindsFrom(s, i + n + 1, Utf8Guessed);
      }
    }
  }

  /** A plain string with its Unicode field, if it has one, reads back as `StringBack`. */
  lemma {:induction false} StringRoundTrip(s: ZipString, fs: seq<Field>, id: uint16, flags: uint16, shared: bool,
      crc: Crc)
    requires Coherent(s) && (shared ==> EncodingOf(s) in {Ascii, Utf8Known})
    requires Bit(flags, GPBF_UTF8) == shared
    requires var needs := !shared && EncodingOf(s) == Utf8Known;
      && (needs ==> |s.raw| + 5 <= UINT16_MAX)
      && Lookup(fs, Id(id), 0, BOTH) == if needs then Some(Utf8Field(id, s, crc).data) else None
    ensures var plain := FlaggedString(s.raw, flags);
      plain.Some? && Substituted(fs, id, plain.value, crc) == StringBack(s, shared)
  {
    ScanKinds(s.raw);
    if !shared && EncodingOf(s) == Utf8Known {
      var data := Utf8Field(id, s, crc).data;
      Pow256Values();
      NatOfLe(crc(s.raw), 4);
      assert data[1..5] == Le(crc(s.raw), 4) && data[5..] == s.raw;
      assert U32(data, 1) == crc(s.raw);
    }
  }

  lemma {:induction false} NameRoundTrip(s: ZipString, fs: seq<Field>, flags: uint16, shared: bool, crc: Crc)
    requires Coherent(s) && (shared ==> EncodingOf(s) in {Ascii, Utf8Known})
    requires Bit(flags, GPBF_UTF8) == shared
    requires var needs := !shared && EncodingOf(s) == Utf8Known;
      && (needs ==> |s.raw| + 5 <= UINT16_MAX)
      && Lookup(fs, Id(EF_UTF8_NAME), 0, BOTH) == if needs then Some(Utf8Field(EF_UTF8_NAME, s, crc).data) else None
    ensures var plain := FlaggedString(SpaceForNul(s.raw), flags);
      plain.Some? && Substituted(fs, EF_UTF8_NAME, plain.value, crc) == NameBack(s, shared)
  {
    ScanKinds(s.raw);
    if 0 in s.raw {
      assert EncodingOf(s) == Cp437;
    } else {
      StringRoundTrip(s, fs, EF_UTF8_NAME, flags, shared, crc);
    }
  }

  lemma {:induction false} FlagBits(d: Dirent)
    ensures Bit(Flags(d), GPBF_UTF8) == SharesUtf8Flag(d)
    ensures Bit(Flags(d), GPBF_ENCRYPTED) == (d.encryption != NoEncryption)
  {}

  // ----- Zip64 -----

  /** The 64-bit values read back from the field the writer generates, exactly when sound. */
  lemma {:induction false} Zip64RoundTrip(d: Dirent, local: bool, force: bool, e: Dirent)
    requires e == Capped32(d, local).(name := e.name, fields := e.fields, comment := e.comment)
    requires Lookup(e.fields, Id(EF_ZIP64), 0, ViewOf(local))
      == if IsZip64(d, local, force) then Some(Zip64Data(d, local, force)) else None
    ensures Zip64Sound(d, local, force) ==>
      Zip64Read(e, local) == Ok(Back(d, local).(name := e.name, fields := e.fields, comment := e.comment))
    ensures !Zip64Sound(d, local, force) ==> Zip64Read(e, local) == Err(Inconsistent)
  {
    if NeedsZip64(d, local) {
      if local {
        LocalZip64(d, force, e);
      } else if force || Exceeds(d, local) {
        CentralZip64(d, force);
      }
    }
  }

  lemma {:induction false} LocalZip64(d: Dirent, force: bool, e: Dirent)
    requires e == Capped32(d, true).(name := e.name, fields := e.fields, comment := e.comment) && NeedsZip64(d, true)
    requires Lookup(e.fields, Id(EF_ZIP64), 0, LOCAL) == Some(Zip64Data(d, true, force))
    ensures Zip64Sound(d, true, force) ==>
      Zip64Read(e, true) == Ok(Back(d, true).(name := e.name, fields := e.fields, comment := e.comment))
    ensures !Zip64Sound(d, true, force) ==> Zip64Read(e, true) == Err(Inconsistent)
  {
    Pow256Values();
    var data := Zip64Data(d, true, force);
    if force || Exceeds(d, true) {
      NatOfLe(d.uncompSize, 8);
      NatOfLe(d.compSize, 8);
      assert data[0..8] == Le(d.uncompSize, 8) && data[8..16] == Le(d.compSize, 8);
      assert U64(data, 0) == d.uncompSize && U64(data, 8) == d.compSize;
    }
  }

  lemma {:induction false} CentralZip64(d: Dirent, force: bool)
    requires force || Exceeds(d, false)
    ensures var data := Zip64Data(d, false, force);
      var u, c, o := d.uncompSize >= UINT32_MAX, d.compSize >= UINT32_MAX, d.offset >= UINT32_MAX;
      var atC := if u then 8 else 0;
      var atO := atC + if c then 8 else 0;
      && |data| == atO + (if o then 8 else 0)
      && (u ==> U64(data, 0) == d.uncompSize)
      && (c ==> U64(data, atC) == d.compSize)
      && (o ==> U64(data, atO) == d.offset)
  {
    Pow256Values();
    var data := Zip64Data(d, false, force);
    var u, c, o := d.uncompSize >= UINT32_MAX, d.compSize >= UINT32_MAX, d.offset >= UINT32_MAX;
    var atC := if u then 8 else 0;
    var atO := atC + if c then 8 else 0;
    NatOfLe(d.uncompSize, 8);
    NatOfLe(d.compSize, 8);
    NatOfLe(d.offset, 8);
    var x, y, z := Only(u, d.uncompSize), Only(c, d.compSize), Only(o, d.offset);
    assert data == x + y + z;
    assert data[..atC] == x && data[atC..atO] == y && data[atO..] == z;
    if u {
      assert data[0..8] == Le(d.uncompSize, 8);
    }
    if c {
      assert data[atC..atC + 8] == Le(d.compSize, 8);
    }
    if o {
      assert data[atO..atO + 8] == Le(d.offset, 8);
    }
  }

  // ----- The whole entry -----

  /** The variable parts of an entry, cut out by the lengths in its header. */
  lemma {:induction false} CutParts(b: seq<byte>, local: bool, h: seq<byte>, x: seq<byte>, y: seq<byte>, z: seq<byte>,
      tail: seq<byte>)
    requires b == h + x + y + z + tail && |h| == HeaderSize(local)
    requires NameLength(b, local) == |x| && ExtraLength(b, local) == |y| && CommentLength(b, local) == |z|
    ensures TotalSize(b, local) == |h + x + y + z| <= |b|
    ensures RawName(b, local) == x && RawExtra(b, local) == y && RawComment(b, local) == z
  {}

  lemma {:induction false} Regroup(h: seq<byte>, x: seq<byte>, y: seq<byte>, z: seq<byte>, tail: seq<byte>)
    ensures h + x + y + z + tail == h + (x + y + z + tail)
  {}

  function OwnComment(d: Dirent, local: bool): seq<byte> {
    if local then [] else d.comment.raw
  }

  function ExtraBytes(d: Dirent, local: bool, force: bool, crc: Crc): seq<byte>
    requires Encodable(d, local)
  {
    Written(Generated(d, local, force, crc), BOTH) + Written(d.fields, ViewOf(local))
  }

  lemma {:induction false} LengthOfExtra(d: Dirent, local: bool, force: bool, crc: Crc)
    requires Storable(d, local, force, crc)
    ensures BodyLength(Flagged(d), local, Generated(d, local, force, crc)) == |ExtraBytes(d, local, force, crc)| <= UINT16_MAX
  {
    hide Generated, Written, Flags, Encodable;
  }

  lemma {:induction false} BytesOfEntry(d: Dirent, local: bool, force: bool, crc: Crc) returns (h: seq<byte>)
    requires Storable(d, local, force, crc)
    ensures Encodable(d, local)
    ensures h == Encoded(Widths(local), HeaderValues(Flagged(d), local, |ExtraBytes(d, local, force, crc)|))
    ensures DirentBytes(d, local, force, crc) == h + d.name.raw + ExtraBytes(d, local, force, crc) + OwnComment(d, local)
    ensures |h| == HeaderSize(local)
  {
    LengthOfExtra(d, local, force, crc);
    HeaderSizes();
    h := Encoded(Widths(local), HeaderValues(Flagged(d), local, |ExtraBytes(d, local, force, crc)|));
    hide HeaderValues, Encoded, Written, Generated, BodyLength, Encodable, Flags;
  }

  lemma {:induction false} PartsRoundTrip(d: Dirent, local: bool, force: bool, crc: Crc, tail: seq<byte>)
    requires Storable(d, local, force, crc)
    ensures var w := DirentBytes(d, local, force, crc); var b := w + tail;
      && |b| >= HeaderSize(local) && Uint(b, 0, 4) == Magic(local) && TotalSize(b, local) == |w| <= |b|
      && FixedPart(b, local) == Capped32(d, local)
      && RawName(b, local) == d.name.raw && RawComment(b, local) == OwnComment(d, local)
      && RawExtra(b, local) == ExtraBytes(d, local, force, crc)
  {
    var h := BytesOfEntry(d, local, force, crc);
    var x, y, z := d.name.raw, ExtraBytes(d, local, force, crc), OwnComment(d, local);
    var b := h + x + y + z + tail;
    Regroup(h, x, y, z, tail);
    FixedRoundTrip(d, local, |y|, x + y + z + tail);
    CutParts(b, local, h, x, y, z, tail);
  }

  /** The fields a reader parses: the generated ones, then the entry's own. */
  lemma {:induction false} FieldsRoundTrip(d: Dirent, local: bool, force: bool, crc: Crc)
    requires Storable(d, local, force, crc)
    ensures var gen, v := Generated(d, local, force, crc), ViewOf(local);
      Parsed(ExtraBytes(d, local, force, crc), v) == Some(Seen(gen, v) + Seen(d.fields, v))
  {
    var gen, v := Generated(d, local, force, crc), ViewOf(local);
    WrittenBoth(gen, v);
    WrittenAppend(gen, d.fields, v);
    SeenAppend(gen, d.fields, v);
    ParseWritten(gen + d.fields, v, []);
    assert Written(gen + d.fields, v) + [] == Written(gen + d.fields, v);
  }

  lemma {:induction false} GeneratedLookups(d: Dirent, local: bool, force: bool, crc: Crc)
    requires Storable(d, local, force, crc)
    ensures var gen, v := Generated(d, local, force, crc), ViewOf(local); var fs := Seen(gen, v) + Seen(d.fields, v);
      && Unused(fs) == Seen(d.fields, v)
      && Lookup(fs, Id(EF_ZIP64), 0, v) == (if IsZip64(d, local, force) then Some(Zip64Data(d, local, force)) else None)
      && Lookup(fs, Id(EF_UTF8_NAME), 0, BOTH)
        == (if NameNeedsField(d) then Some(Utf8Field(EF_UTF8_NAME, d.name, crc).data) else None)
      && Lookup(fs, Id(EF_UTF8_COMMENT), 0, BOTH)
        == (if CommentNeedsField(d, local) then Some(Utf8Field(EF_UTF8_COMMENT, d.comment, crc).data) else None)
  {
    var gen, v := Generated(d, local, force, crc), ViewOf(local);
    SeenIsPlain(d.fields, v, v, EF_ZIP64);
    SeenIsPlain(d.fields, v, BOTH, EF_UTF8_NAME);
    SeenIsPlain(d.fields, v, BOTH, EF_UTF8_COMMENT);
    LookupGenerated(gen, Seen(d.fields, v), v, v, EF_ZIP64);
    LookupGenerated(gen, Seen(d.fields, v), v, BOTH, EF_UTF8_NAME);
    LookupGenerated(gen, Seen(d.fields, v), v, BOTH, EF_UTF8_COMMENT);
    UnusedGenerated(gen, Seen(d.fields, v), v);
    FirstGenerated(d, local, force, crc, EF_ZIP64);
    FirstGenerated(d, local, force, crc, EF_UTF8_NAME);
    FirstGenerated(d, local, force, crc, EF_UTF8_COMMENT);
  }

  lemma {:induction false} FirstAppend(a: seq<Field>, b: seq<Field>, id: uint16)
    ensures First(a + b, id) == if First(a, id).Some? then First(a, id) else First(b, id)
  {
    if a == [] {
      assert a + b == b;
    } else {
      FirstAppend(a[1..], b, id);
      assert (a + b)[1..] == a[1..] + b;
    }
  }

  lemma {:induction false} FirstGenerated(d: Dirent, local: bool, force: bool, crc: Crc, id: uint16)
    requires Encodable(d, local)
    ensures First(Generated(d, local, force, crc), id)
      == if id == EF_ZIP64 && IsZip64(d, local, force) then Some(Zip64Data(d, local, force))
         else if id == EF_UTF8_COMMENT && CommentNeedsField(d, local) then Some(Utf8Field(id, d.comment, crc).data)
         else if id == EF_UTF8_NAME && NameNeedsField(d) then Some(Utf8Field(id, d.name, crc).data) else None
  {
    var z := if IsZip64(d, local, force) then [Field(EF_ZIP64, Zip64Data(d, local, force), BOTH)] else [];
    var c := if CommentNeedsField(d, local) then [Utf8Field(EF_UTF8_COMMENT, d.comment, crc)] else [];
    var n := if NameNeedsField(d) then [Utf8Field(EF_UTF8_NAME, d.name, crc)] else [];
    FirstAppend(z, c + n, id);
    FirstAppend(c, n, id);
  }

  /** What the reader makes of an entry once its strings and fields are in. */
  lemma {:induction false} FinishedRoundTrip(d: Dirent, local: bool, force: bool, e: Dirent, size: nat)
    requires (!local ==> d.offset <= INT64_MAX) && d.compMethod % 0x1_0000 != CM_WINZIP_AES
    requires e == Capped32(d, local).(name := Back(d, local).name, fields := e.fields, comment := Back(d, local).comment)
    requires Unused(e.fields) == Seen(d.fields, ViewOf(local))
    requires Lookup(e.fields, Id(EF_ZIP64), 0, ViewOf(local))
      == if IsZip64(d, local, force) then Some(Zip64Data(d, local, force)) else None
    ensures Finished(e, local, size) == if Zip64Sound(d, local, force) then Ok((Back(d, local), size)) else Err(Inconsistent)
  {
    Zip64RoundTrip(d, local, force, e);
    if Zip64Sound(d, local, force) {
      assert Zip64Read(e, local) == Ok(Back(d, local).(fields := e.fields));
    }
  }

  lemma {:induction false} StringsRoundTrip(d: Dirent, local: bool, crc: Crc, fs: seq<Field>)
    requires Encodable(d, local) && Coherent(d.name) && Coherent(d.comment)
    requires Lookup(fs, Id(EF_UTF8_NAME), 0, BOTH)
      == if NameNeedsField(d) then Some(Utf8Field(EF_UTF8_NAME, d.name, crc).data) else None
    requires Lookup(fs, Id(EF_UTF8_COMMENT), 0, BOTH)
      == if CommentNeedsField(d, local) then Some(Utf8Field(EF_UTF8_COMMENT, d.comment, crc).data) else None
    ensures var name, comment := FlaggedString(SpaceForNul(d.name.raw), Flags(d)), FlaggedString(OwnComment(d, local), Flags(d));
      && name.Some? && Substituted(fs, EF_UTF8_NAME, name.value, crc) == Back(d, local).name
      && comment.Some? && Substituted(fs, EF_UTF8_COMMENT, comment.value, crc) == Back(d, local).comment
  {
    FlagBits(d);
    NameRoundTrip(d.name, fs, Flags(d), SharesUtf8Flag(d), crc);
    if !local {
      StringRoundTrip(d.comment, fs, EF_UTF8_COMMENT, Flags(d), SharesUtf8Flag(d), crc);
    }
  }

  lemma {:induction false} CappedFlags(d: Dirent, local: bool)
    ensures Capped32(d, local).bitflags == Flags(d)
  {}

  lemma {:induction false} VariableRoundTrip(d: Dirent, local: bool, force: bool, crc: Crc)
    requires Storable(d, local, force, crc)
    ensures var extra := ExtraBytes(d, local, force, crc);
      var size := HeaderSize(local) + |d.name.raw| + |extra| + |OwnComment(d, local)|;
      ReadVariable(Capped32(d, local), d.name.raw, extra, OwnComment(d, local), local, crc)
      == if Zip64Sound(d, local, force) then Ok((Back(d, local), size)) else Err(Inconsistent)
  {
    hide Capped32, Back, Lookup, Parsed, Written, Seen, Generated, Substituted, FlaggedString, Finished, Encodable;
    hide Zip64Sound, ExtraBytes, Flags;
    var v, extra := ViewOf(local), ExtraBytes(d, local, force, crc);
    var size := HeaderSize(local) + |d.name.raw| + |extra| + |OwnComment(d, local)|;
    var fs := Seen(Generated(d, local, force, crc), v) + Seen(d.fields, v);
    FieldsRoundTrip(d, local, force, crc);
    GeneratedLookups(d, local, force, crc);
    StringsRoundTrip(d, local, crc, fs);
    CappedFlags(d, local);
    var e := Capped32(d, local).(name := Back(d, local).name, fields := fs, comment := Back(d, local).comment);
    FinishedRoundTrip(d, local, force, e, size);
  }

  lemma {:induction false} StorableIsEncodable(d: Dirent, local: bool, force: bool, crc: Crc)
    requires Storable(d, local, force, crc)
    ensures Encodable(d, local)
  {}

  lemma {:induction false} ReadOfParts(b: seq<byte>, local: bool, crc: Crc)
    requires |b| >= HeaderSize(local) && Uint(b, 0, 4) == Magic(local) && TotalSize(b, local) <= |b|
    ensures Read(b, local, crc)
      == ReadVariable(FixedPart(b, local), RawName(b, local), RawExtra(b, local), RawComment(b, local), local, crc)
    ensures TotalSize(b, local) == HeaderSize(local) + |RawName(b, local)| + |RawExtra(b, local)| + |RawComment(b, local)|
  {}

  /** Reading a written entry returns it, consuming exactly its bytes, if and only if its Zip64
      values are sound; otherwise the reader reports an inconsistent archive. */
  lemma {:induction false} RoundTrip(d: Dirent, local: bool, force: bool, crc: Crc, tail: seq<byte>)
    requires Storable(d, local, force, crc)
    ensures var w := DirentBytes(d, local, force, crc); var r := Read(w + tail, local, crc);
      && (r == Ok((Back(d, local), |w|)) <==> Zip64Sound(d, local, force))
      && (!Zip64Sound(d, local, force) ==> r == Err(Inconsistent))
  {
    hide *;
    PartsRoundTrip(d, local, force, crc, tail);
    StorableIsEncodable(d, local, force, crc);
    ReadOfParts(DirentBytes(d, local, force, crc) + tail, local, crc);
    VariableRoundTrip(d, local, force, crc);
  }

  /** An entry with 0xffffffff bytes of compressed data: what is written of it does not read back. */
  function Unlucky(): Dirent {
    Dirent(20, 20, 0, 8, 0, 0, 0, UINT32_MAX, 0, NO_STRING, [], NO_STRING, 0, 0, 0, 0, NoEncryption)
  }

  lemma {:induction false} UnluckyIsRefused(local: bool, crc: Crc, tail: seq<byte>)
    ensures Storable(Unlucky(), local, false, crc) && !Zip64Sound(Unlucky(), local, false)
    ensures Read(DirentBytes(Unlucky(), local, false, crc) + tail, local, crc) == Err(Inconsistent)
  {
    hide DirentBytes, Read;
    var d := Unlucky();
    var z := Field(EF_ZIP64, Zip64Data(d, local, false), BOTH);
    assert Generated(d, local, false, crc) == [z];
    OneField(z, AnyId, BOTH);
    RoundTrip(d, local, false, crc, tail);
  }
}
