/**
 Parsing a written central directory at its end record gives back its entries, and exactly when.
 */
module DirectoryRoundTrip {
  import opened Bytes
  import opened ZipBuffer
  import opened Encoding
  import opened ExtraField
  import opened Output
  import opened Dirent
  import opened DirentReader
  import opened DirentRoundTrip
  import opened Directory

  ghost predicate AllStorable(ds: seq<Dirent>, crc: Crc) {
    forall i :: 0 <= i < |ds| ==> Storable(ds[i], false, false, crc)
  }

  predicate AllSound(ds: seq<Dirent>) {
    forall i :: 0 <= i < |ds| ==> Zip64Sound(ds[i], false, false)
  }

  lemma {:induction false} StorableAreEncodable(ds: seq<Dirent>, crc: Crc)
    requires AllStorable(ds, crc)
    ensures AllEncodable(ds)
  {
    hide Encodable;
    forall i | 0 <= i < |ds| ensures Encodable(ds[i], false) {
      assert Storable(ds[i], false, false, crc);
    }
  }

  /** Entries below the Zip64 limits, with moderate strings and no fields of their own, meet every
      condition of the round trips, in both headers. */
  lemma {:induction false} PlainEntryIsSound(d: Dirent, crc: Crc)
    requires d.fields == [] && |d.name.raw| <= 0x7000 && |d.comment.raw| <= 0x7000 && Coherent(d.name) && Coherent(d.comment)
    requires d.uncompSize < UINT32_MAX && d.compSize < UINT32_MAX && d.offset < UINT32_MAX
    requires d.compMethod % 0x1_0000 != CM_WINZIP_AES
    ensures forall local: bool :: Storable(d, local, false, crc) && Zip64Sound(d, local, false)
  {
    forall local: bool ensures Storable(d, local, false, crc) {
      hide EncodingOf, Coherent;
      assert Encodable(d, local);
      var u := UnicodeFields(d, local, crc);
      assert Generated(d, local, false, crc) == u;
      ShortFields(u);
      assert Written(d.fields, ViewOf(local)) == [];
    }
  }

  lemma {:induction false} ShortFields(u: seq<Field>)
    requires |u| <= 2 && forall f :: f in u ==> |f.data| <= 0x7005
    ensures |Written(u, BOTH)| <= 0xe012
  {
    if |u| == 1 {
      OneField(u[0], AnyId, BOTH);
      assert u == [u[0]];
    } else if |u| == 2 {
      OneField(u[0], AnyId, BOTH);
      OneField(u[1], AnyId, BOTH);
      WrittenAppend([u[0]], [u[1]], BOTH);
      assert u == [u[0]] + [u[1]];
    }
  }

  /** The entries as the reader sees them. */
  function Backs(ds: seq<Dirent>): (bs: seq<Dirent>)
    ensures |bs| == |ds|
  {
    seq(|ds|, i requires 0 <= i < |ds| => Back(ds[i], false))
  }

  lemma {:induction false} CentralCons(ds: seq<Dirent>, crc: Crc)
    requires AllEncodable(ds) && ds != []
    ensures CentralBytes(ds, crc) == DirentBytes(ds[0], false, false, crc) + CentralBytes(ds[1..], crc)
    decreases |ds|
  {
    hide DirentBytes, Encodable;
    var n := |ds| - 1;
    if n > 0 {
      CentralCons(ds[..n], crc);
      assert ds[..n][1..] == ds[1..][..n - 1] && ds[1..][n - 1] == ds[n];
    }
  }

  // ----- Entries -----

  lemma {:induction false} EntryRoundTrip(d: Dirent, tail: seq<byte>, crc: Crc)
    requires Storable(d, false, false, crc)
    ensures Encodable(d, false) && |DirentBytes(d, false, false, crc)| >= CDENTRYSIZE
    ensures Read(DirentBytes(d, false, false, crc) + tail, false, crc)
      == if Zip64Sound(d, false, false) then Ok((Back(d, false), |DirentBytes(d, false, false, crc)|)) else Err(Inconsistent)
  {
    hide DirentBytes, Read, Storable, Zip64Sound, Back;
    StorableIsEncodable(d, false, false, crc);
    RoundTrip(d, false, false, crc, tail);
    PartsRoundTrip(d, false, false, crc, tail);
    hide TotalSize;
    TotalAtLeast(DirentBytes(d, false, false, crc) + tail);
  }

  lemma {:induction false} TotalAtLeast(b: seq<byte>)
    requires |b| >= HeaderSize(false)
    ensures TotalSize(b, false) >= CDENTRYSIZE
  {}

  /** All the entries of a written directory are read back in order if and only if the Zip64 values of
      all are sound; otherwise the directory is refused. */
  lemma {:induction false} EntriesRoundTrip(ds: seq<Dirent>, i: nat, is64: bool, crc: Crc)
    requires AllStorable(ds, crc)
    ensures AllEncodable(ds)
    ensures ReadEntries(CentralBytes(ds, crc), i, i + |ds|, is64, crc)
      == if AllSound(ds) then Ok(Backs(ds)) else Err(Inconsistent)
    decreases |ds|
  {
    hide Storable, DirentBytes, Read, CentralBytes, Back, Encodable, Zip64Sound;
    StorableAreEncodable(ds, crc);
    if ds == [] {
      CentralEmpty(crc);
    } else {
      EntriesRoundTrip(ds[1..], i + 1, is64, crc);
      CentralCons(ds, crc);
      EntryRoundTrip(ds[0], CentralBytes(ds[1..], crc), crc);
      SoundCons(ds);
      var rest := CentralBytes(ds, crc);
      assert rest[|DirentBytes(ds[0], false, false, crc)|..] == CentralBytes(ds[1..], crc);
      assert Backs(ds) == [Back(ds[0], false)] + Backs(ds[1..]);
    }
  }

  lemma {:induction false} SoundCons(ds: seq<Dirent>)
    requires ds != []
    ensures AllSound(ds) <==> Zip64Sound(ds[0], false, false) && AllSound(ds[1..])
  {
    hide Zip64Sound;
    if Zip64Sound(ds[0], false, false) && AllSound(ds[1..]) {
      assert forall i :: 1 <= i < |ds| ==> ds[i] == ds[1..][i - 1];
    }
  }

  lemma {:induction false} CentralEmpty(crc: Crc)
    ensures CentralBytes([], crc) == []
  {}

  /** A cut-off entry does not read. */
  lemma {:induction false} CutEntry(d: Dirent, k: nat, crc: Crc)
    requires Storable(d, false, false, crc)
    requires Encodable(d, false) && k < |DirentBytes(d, false, false, crc)|
    ensures Read(DirentBytes(d, false, false, crc)[..k], false, crc).Err?
  {
    hide DirentBytes, Storable, Encodable, ReadVariable;
    PartsRoundTrip(d, false, false, crc, []);
    var w := DirentBytes(d, false, false, crc);
    assert w + [] == w;
    if k >= CDENTRYSIZE {
      SameSize(w, k);
    }
  }

  lemma {:induction false} SameSize(w: seq<byte>, k: nat)
    requires CDENTRYSIZE <= k <= |w|
    ensures TotalSize(w[..k], false) == TotalSize(w, false)
  {
    var v := w[..k];
    assert v[28..30] == w[28..30] && v[30..32] == w[30..32] && v[32..34] == w[32..34];
  }

  /** A directory cut short is refused. */
  lemma {:induction false} CutDirectory(ds: seq<Dirent>, k: nat, i: nat, is64: bool, crc: Crc)
    requires AllStorable(ds, crc) && AllEncodable(ds) && k < |CentralBytes(ds, crc)|
    ensures ReadEntries(CentralBytes(ds, crc)[..k], i, i + |ds|, is64, crc).Err?
    decreases |ds|
  {
    hide DirentBytes, Read, CentralBytes, Back, Encodable, Storable, Zip64Sound;
    CentralEmpty(crc);
    CentralCons(ds, crc);
    var w, rest := DirentBytes(ds[0], false, false, crc), CentralBytes(ds, crc)[..k];
    if k < |w| {
      assert rest == w[..k];
      CutEntry(ds[0], k, crc);
    } else {
      var later := CentralBytes(ds[1..], crc)[..k - |w|];
      assert rest == w + later && rest[|w|..] == later;
      EntryRoundTrip(ds[0], later, crc);
      CutDirectory(ds[1..], k - |w|, i + 1, is64, crc);
    }
  }

  // ----- End records -----

  lemma {:induction false} UintInside(file: seq<byte>, at: nat, e: seq<byte>, o: nat, w: nat)
    requires at + |e| <= |file| && file[at..at + |e|] == e && o + w <= |e|
    ensures Uint(file, at + o, w) == Uint(e, o, w)
  {
    var x, y := file[at + o..at + o + w], e[o..o + w];
    assert forall i :: 0 <= i < w ==> x[i] == file[at..at + |e|][o + i] == y[i];
    assert x == y;
  }

  /** The fields of a record written at `at`. */
  lemma {:induction false} RecordAt(file: seq<byte>, at: nat, ws: seq<nat>, vs: seq<nat>, k: nat)
    requires Fits(ws, vs) && k < |ws|
    requires at + Offset(ws, |ws|) <= |file| && file[at..at + Offset(ws, |ws|)] == Encoded(ws, vs)
    ensures Offset(ws, k) + ws[k] <= Offset(ws, |ws|)
    ensures Uint(file, at + Offset(ws, k), ws[k]) == vs[k]
  {
    hide Encoded, Uint;
    var e := Encoded(ws, vs);
    FieldBack(ws, vs, [], k);
    assert e + [] == e;
    UintInside(file, at, e, Offset(ws, k), ws[k]);
  }

  lemma {:induction false} EndAt(file: seq<byte>, at: nat, count: nat, size: nat, offset: nat, comment: uint16)
    requires at + EOCDLEN <= |file|
    requires file[at..at + EOCDLEN] == Encoded(EOCD_WIDTHS, EndValues(count, size, offset, comment))
    ensures U32(file, at) == EOCD_MAGIC && U32(file, at + 4) == 0
    ensures U16(file, at + 8) == Capped16(count) && U16(file, at + 10) == Capped16(count)
    ensures U32(file, at + 12) == Capped(size) && U32(file, at + 16) == Capped(offset) && U16(file, at + 20) == comment
  {
    RecordSizes();
    Pow256Values();
    var ws, vs := EOCD_WIDTHS, EndValues(count, size, offset, comment);
    assert Offset(ws, 3) == 10;
    assert Offset(ws, 4) == 12 && Offset(ws, 5) == 16 && Offset(ws, 6) == 20;
    RecordAt(file, at, ws, vs, 0);
    RecordAt(file, at, ws, vs, 1);
    RecordAt(file, at, ws, vs, 2);
    RecordAt(file, at, ws, vs, 3);
    RecordAt(file, at, ws, vs, 4);
    RecordAt(file, at, ws, vs, 5);
    RecordAt(file, at, ws, vs, 6);
  }

  lemma {:induction false} End64At(file: seq<byte>, at: nat, count: uint64, size: uint64, offset: uint64)
    requires at + EOCD64LEN <= |file|
    requires file[at..at + EOCD64LEN] == Encoded(EOCD64_WIDTHS, End64Values(count, size, offset))
    ensures U32(file, at) == EOCD64_MAGIC && U64(file, at + 4) == EOCD64LEN - 12 && U32(file, at + 16) == 0 && U32(file, at + 20) == 0
    ensures U64(file, at + 24) == count && U64(file, at + 32) == count && U64(file, at + 40) == size
    ensures U64(file, at + 48) == offset
  {
    RecordSizes();
    Pow256Values();
    var ws, vs := EOCD64_WIDTHS, End64Values(count, size, offset);
    assert Offset(ws, 1) == 4 && Offset(ws, 4) == 16 && Offset(ws, 5) == 20 && Offset(ws, 6) == 24;
    assert Offset(ws, 7) == 32 && Offset(ws, 8) == 40 && Offset(ws, 9) == 48;
    RecordAt(file, at, ws, vs, 0);
    RecordAt(file, at, ws, vs, 1);
    RecordAt(file, at, ws, vs, 4);
    RecordAt(file, at, ws, vs, 5);
    RecordAt(file, at, ws, vs, 6);
    RecordAt(file, at, ws, vs, 7);
    RecordAt(file, at, ws, vs, 8);
    RecordAt(file, at, ws, vs, 9);
  }

  lemma {:induction false} LocatorAt(file: seq<byte>, at: nat, end64: uint64)
    requires at + EOCD64LOCLEN <= |file|
    requires file[at..at + EOCD64LOCLEN] == Encoded(EOCD64LOC_WIDTHS, LocatorValues(end64))
    ensures U32(file, at) == EOCD64LOC_MAGIC && U16(file, at + 4) == 0 && U16(file, at + 6) == 0
    ensures U64(file, at + 8) == end64
  {
    RecordSizes();
    Pow256Values();
    var ws, vs := EOCD64LOC_WIDTHS, LocatorValues(end64);
    RecordAt(file, at, ws, vs, 0);
    RecordAt(file, at, ws, vs, 1);
    RecordAt(file, at, ws, vs, 2);
    var four := file[at + 4..at + 8];
    assert Uint(file, at + 4, 4) == 0;
    LeOfNat(four);
    assert four == [0, 0, 0, 0];
    NoDisk(file, at + 4);
  }

  lemma {:induction false} NoDisk(file: seq<byte>, at: nat)
    requires at + 4 <= |file| && file[at..at + 4] == [0, 0, 0, 0]
    ensures U16(file, at) == 0 && U16(file, at + 2) == 0
  {
    var four := file[at..at + 4];
    assert four[0] == file[at] && four[1] == file[at + 1] && four[2] == file[at + 2] && four[3] == file[at + 3];
    assert file[at..at + 2] == [0, 0] && file[at + 2..at + 4] == [0, 0];
    assert Nat([0, 0]) == 0;
  }

  // ----- The whole directory -----

  /** Where the end record of a directory written at `offset` stands. */
  ghost function EndPosition(ds: seq<Dirent>, offset: nat, crc: Crc): nat
    requires AllEncodable(ds)
  {
    offset + |CentralBytes(ds, crc)| + if IsZip64Directory(ds, offset) then EOCD64LEN + EOCD64LOCLEN else 0
  }

  ghost function File(pre: seq<byte>, ds: seq<Dirent>, comment: seq<byte>, crc: Crc): seq<byte>
    requires AllEncodable(ds)
  {
    pre + DirectoryBytes(ds, |pre|, comment, crc)
  }

  /** A file that ends in a directory with this extent, these end records and this comment. */
  ghost predicate EndsWith(file: seq<byte>, at: nat, c: seq<byte>, is64: bool, count: nat, offset: nat,
      comment: seq<byte>) {
    && |file| == at + EOCDLEN + |comment|
    && at == offset + |c| + (if is64 then EOCD64LEN + EOCD64LOCLEN else 0)
    && file[offset..offset + |c|] == c
    && file[offset + |c|..at] == Zip64End(is64, count, |c|, offset)
    && file[at..at + EOCDLEN] == Encoded(EOCD_WIDTHS, EndValues(count, |c|, offset, |comment|))
    && file[at + EOCDLEN..] == comment
  }

  lemma {:induction false} Cut5(a: seq<byte>, b: seq<byte>, c: seq<byte>, d: seq<byte>, e: seq<byte>)
    ensures var s := a + (b + (c + d) + e);
      var i := |a| + |b|; var j := i + |c|; var k := j + |d|;
      s[|a|..i] == b && s[i..j] == c && s[j..k] == d && s[k..] == e && |s| == k + |e|
  {}

  lemma {:induction false} Zip64EndSize(is64: bool, count: nat, size: nat, offset: nat)
    ensures |Zip64End(is64, count, size, offset)| == if is64 then EOCD64LEN + EOCD64LOCLEN else 0
    ensures Offset(EOCD_WIDTHS, |EOCD_WIDTHS|) == EOCDLEN
  {
    RecordSizes();
  }

  lemma {:induction false} FileIs(pre: seq<byte>, ds: seq<Dirent>, comment: seq<byte>, crc: Crc)
    requires AllEncodable(ds)
    ensures var c, is64 := CentralBytes(ds, crc), IsZip64Directory(ds, |pre|);
      File(pre, ds, comment, crc) == pre + (c + (Zip64End(is64, |ds|, |c|, |pre|)
        + Encoded(EOCD_WIDTHS, EndValues(|ds|, |c|, |pre|, |comment|))) + comment)
  {
    hide Encoded, EndValues, CentralBytes, IsZip64Directory, Zip64End, AllEncodable;
  }

  lemma {:induction false} Assemble(pre: seq<byte>, c: seq<byte>, is64: bool, count: nat, comment: seq<byte>)
    ensures var z, e := Zip64End(is64, count, |c|, |pre|), Encoded(EOCD_WIDTHS, EndValues(count, |c|, |pre|, |comment|));
      EndsWith(pre + (c + (z + e) + comment), |pre| + |c| + |z|, c, is64, count, |pre|, comment)
  {
    var z, e := Zip64End(is64, count, |c|, |pre|), Encoded(EOCD_WIDTHS, EndValues(count, |c|, |pre|, |comment|));
    Zip64EndSize(is64, count, |c|, |pre|);
    hide Encoded, EndValues, Zip64End, Offset;
    Cut5(pre, c, z, e, comment);
  }

  lemma {:induction false} Pieces(pre: seq<byte>, ds: seq<Dirent>, comment: seq<byte>, crc: Crc)
    requires AllEncodable(ds)
    ensures EndsWith(File(pre, ds, comment, crc), EndPosition(ds, |pre|, crc), CentralBytes(ds, crc),
      IsZip64Directory(ds, |pre|), |ds|, |pre|, comment)
  {
    hide File, Encoded, EndValues, CentralBytes, IsZip64Directory, Zip64End, AllEncodable, EndsWith;
    var c, is64 := CentralBytes(ds, crc), IsZip64Directory(ds, |pre|);
    FileIs(pre, ds, comment, crc);
    Zip64EndSize(is64, |ds|, |c|, |pre|);
    Assemble(pre, c, is64, |ds|, comment);
  }

  lemma {:induction false} Zip64Pieces(file: seq<byte>, at: nat, count: nat, size: nat, offset: nat)
    requires 76 <= at <= |file| && file[at - 76..at] == Zip64End(true, count, size, offset)
    ensures file[at - 76..at - 20] == Encoded(EOCD64_WIDTHS, End64Values(count, size, offset))
    ensures file[at - 20..at] == Encoded(EOCD64LOC_WIDTHS, LocatorValues(offset + size))
  {
    RecordSizes();
    var r, l := Encoded(EOCD64_WIDTHS, End64Values(count, size, offset)), Encoded(EOCD64LOC_WIDTHS, LocatorValues(offset + size));
    hide Encoded, End64Values, LocatorValues;
    assert file[at - 76..at][..56] == r && file[at - 76..at][56..] == l;
  }

  /** What the reader takes from the end records. */
  lemma {:induction false} EndingRoundTrip(file: seq<byte>, at: nat, c: seq<byte>, is64: bool, count: nat,
      offset: nat, comment: seq<byte>, strict: bool)
    requires EndsWith(file, at, c, is64, count, offset, comment) && |comment| <= UINT16_MAX
    requires offset + |c| <= INT64_MAX && count <= INT64_MAX
    requires !is64 ==> offset <= UINT32_MAX && count <= UINT16_MAX
    requires !is64 ==> at <= |file| && NoLocator(file, at)
    requires strict && !is64 ==> |c| <= UINT32_MAX
    ensures ReadEnding(file, at, strict) == Ok(Ending(is64, count, if is64 then |c| else Capped(|c|), offset))
  {
    hide U16, U32, U64, Encoded, Zip64End, EndValues, End64Values, LocatorValues;
    EndAt(file, at, count, |c|, offset, |comment|);
    if is64 {
      Zip64Pieces(file, at, count, |c|, offset);
      End64At(file, at - 76, count, |c|, offset);
      LocatorAt(file, at - 20, offset + |c|);
    }
  }

  lemma {:induction false} CommentRoundTrip(file: seq<byte>, at: nat, c: seq<byte>, is64: bool, count: nat,
      offset: nat, comment: seq<byte>, strict: bool)
    requires EndsWith(file, at, c, is64, count, offset, comment) && |comment| <= UINT16_MAX
    ensures Comment(file, at, strict) == Some(comment)
  {
    hide U32, U64, Encoded, Zip64End, EndValues;
    EndAt(file, at, count, |c|, offset, |comment|);
    assert file[at + EOCDLEN..at + EOCDLEN + |comment|] == file[at + EOCDLEN..];
  }

  /** The 20 bytes before the end record do not pass for a Zip64 locator. */
  predicate NoLocator(file: seq<byte>, at: nat)
    requires at <= |file|
  {
    at >= EOCD64LOCLEN ==> U32(file, at - EOCD64LOCLEN) != EOCD64LOC_MAGIC
  }

  lemma {:induction false} EntriesOrCut(ds: seq<Dirent>, is64: bool, crc: Crc)
    requires AllStorable(ds, crc) && AllEncodable(ds)
    ensures ReadEntries(CentralBytes(ds, crc), 0, |ds|, is64, crc) == if AllSound(ds) then Ok(Backs(ds)) else Err(Inconsistent)
    ensures |CentralBytes(ds, crc)| > UINT32_MAX ==>
      ReadEntries(CentralBytes(ds, crc)[..UINT32_MAX], 0, |ds|, is64, crc).Err?
  {
    hide *;
    EntriesRoundTrip(ds, 0, is64, crc);
    if |CentralBytes(ds, crc)| > UINT32_MAX {
      CutDirectory(ds, UINT32_MAX, 0, is64, crc);
    }
  }

  lemma {:induction false} ReadArchiveOf(file: seq<byte>, at: nat, end: Ending, comment: seq<byte>, strict: bool,
      crc: Crc)
    requires at + EOCDLEN <= |file| && ReadEnding(file, at, strict) == Ok(end) && Comment(file, at, strict) == Some(comment)
    requires end.offset + end.size <= |file|
    ensures ReadArchive(file, at, strict, crc)
      == match ReadEntries(file[end.offset..end.offset + end.size], 0, end.count, end.is64, crc)
         case Err(e) => Err(e)
         case Ok(ds) => Ok(Contents(ds, comment))
  {
    hide ReadEnding, Comment, ReadEntries;
  }

  /** Parsing at the written end record gives exactly the entries, in order, and the comment, if and
      only if the Zip64 values of all are sound and the directory is in Zip64 form or its size fits 32
      bits; otherwise it is refused. It is assumed that the 20 bytes before a plain end record do not
      look like a Zip64 locator. */
  lemma {:induction false} DirectoryRoundTrip(pre: seq<byte>, ds: seq<Dirent>, comment: seq<byte>, strict: bool,
      crc: Crc)
    requires AllStorable(ds, crc) && AllEncodable(ds) && |comment| <= UINT16_MAX
    requires |pre| + |CentralBytes(ds, crc)| <= INT64_MAX && |ds| <= INT64_MAX
    requires EndPosition(ds, |pre|, crc) <= |File(pre, ds, comment, crc)|
    requires !IsZip64Directory(ds, |pre|) ==> NoLocator(File(pre, ds, comment, crc), EndPosition(ds, |pre|, crc))
    ensures var r := ReadArchive(File(pre, ds, comment, crc), EndPosition(ds, |pre|, crc), strict, crc);
      var right := AllSound(ds) && (IsZip64Directory(ds, |pre|) || |CentralBytes(ds, crc)| <= UINT32_MAX);
      && (r == Ok(Contents(Backs(ds), comment)) <==> right)
      && (!right ==> r.Err?)
  {
    hide *;
    var c, is64, at := CentralBytes(ds, crc), IsZip64Directory(ds, |pre|), EndPosition(ds, |pre|, crc);
    var file := File(pre, ds, comment, crc);
    Pieces(pre, ds, comment, crc);
    PlainBounds(ds, |pre|);
    EndsWithExtent(file, at, c, is64, |ds|, |pre|, comment);
    if strict && !is64 && |c| > UINT32_MAX {
      PastPlain(file, at, c, |ds|, |pre|, comment);
      RefusedEnding(file, at, strict, crc);
    } else {
      EndingRoundTrip(file, at, c, is64, |ds|, |pre|, comment, strict);
      CommentRoundTrip(file, at, c, is64, |ds|, |pre|, comment, strict);
      EntriesOrCut(ds, is64, crc);
      var size := if is64 then |c| else Capped(|c|);
      ReadArchiveOf(file, at, Ending(is64, |ds|, size, |pre|), comment, strict, crc);
      assert file[|pre|..|pre| + size] == c[..size] by {
        assert file[|pre|..|pre| + |c|][..size] == file[|pre|..|pre| + size];
      }
      assert size == |c| ==> c[..size] == c;
    }
  }

  /** The consistency check catches the size of a plain directory that does not fit. */
  lemma {:induction false} PastPlain(file: seq<byte>, at: nat, c: seq<byte>, count: nat, offset: nat, comment: seq<byte>)
    requires EndsWith(file, at, c, false, count, offset, comment) && |comment| <= UINT16_MAX && |c| > UINT32_MAX
    requires offset <= UINT32_MAX && at <= |file| && NoLocator(file, at)
    ensures ReadEnding(file, at, true).Err?
  {
    hide U16, U32, U64, Encoded, Zip64End, EndValues, End64Values, LocatorValues;
    EndAt(file, at, count, |c|, offset, |comment|);
  }

  lemma {:induction false} RefusedEnding(file: seq<byte>, at: nat, strict: bool, crc: Crc)
    requires at <= |file| && ReadEnding(file, at, strict).Err?
    ensures ReadArchive(file, at, strict, crc).Err?
  {
    hide ReadEnding;
  }

  lemma {:induction false} PlainBounds(ds: seq<Dirent>, offset: nat)
    ensures !IsZip64Directory(ds, offset) ==> offset <= UINT32_MAX && |ds| <= UINT16_MAX
    ensures forall n: nat :: Capped(n) == if n <= UINT32_MAX then n else UINT32_MAX
  {}

  lemma {:induction false} EndsWithExtent(file: seq<byte>, at: nat, c: seq<byte>, is64: bool, count: nat, offset: nat,
      comment: seq<byte>)
    requires EndsWith(file, at, c, is64, count, offset, comment)
    ensures offset + |c| <= at && at + EOCDLEN <= |file| && file[offset..offset + |c|] == c
  {}

  // ----- A plain directory that is too long -----

  /** An unremarkable entry but for a comment of the greatest length. */
  function Wordy(): Dirent {
    Dirent(20, 20, 0, 8, 0, 0, 0, 1, 1, NO_STRING, [], ZipString(seq(UINT16_MAX, _ => 97), Unknown), 0, 0, 0, 0, NoEncryption)
  }

  const WORDY_LENGTH: nat := 65581

  lemma {:induction false} WordyRecord(crc: Crc)
    ensures var d := Wordy();
      && Storable(d, false, false, crc) && Encodable(d, false) && Zip64Sound(d, false, false) && !NeedsZip64(d, false)
      && |DirentBytes(d, false, false, crc)| == WORDY_LENGTH
      && DirentBytes(d, false, false, crc)[WORDY_LENGTH - 20] == 97
  {
    hide DirentBytes, EncodingOf, ScanFrom;
    var d := Wordy();
    WordyText(d.comment);
    assert Generated(d, false, false, crc) == [];
    assert Storable(d, false, false, crc);
    PartsRoundTrip(d, false, false, crc, []);
    var b := DirentBytes(d, false, false, crc);
    assert b + [] == b && ExtraBytes(d, false, false, crc) == [];
    RecordEnd(b, d.comment.raw);
  }

  lemma {:induction false} WordyText(s: ZipString)
    requires s.raw == seq(UINT16_MAX, _ => 97) && s.enc == Unknown
    ensures EncodingOf(s) == Ascii && EncodingOf(NO_STRING) == Ascii
  {
    ScanAscii(s.raw, 0);
    hide ScanFrom;
  }

  lemma {:induction false} RecordEnd(b: seq<byte>, comment: seq<byte>)
    requires |b| >= CDENTRYSIZE && TotalSize(b, false) == |b|
    requires RawName(b, false) == [] && RawExtra(b, false) == [] && RawComment(b, false) == comment && |comment| == UINT16_MAX
    requires comment[|comment| - 20] == 97
    ensures |b| == WORDY_LENGTH && b[WORDY_LENGTH - 20] == 97
  {
    hide U16;
    assert |RawName(b, false)| == 0 && |RawExtra(b, false)| == 0 && |RawComment(b, false)| == UINT16_MAX;
    assert b[|b| - |comment|..|b|] == comment;
    assert b[|b| - 20] == b[|b| - |comment|..|b|][|comment| - 20];
  }

  lemma {:induction false} WordyDirectory(n: nat, crc: Crc)
    ensures var ds := seq(n, _ => Wordy());
      && AllStorable(ds, crc) && AllEncodable(ds) && AllSound(ds) && !AnyZip64(ds)
      && |CentralBytes(ds, crc)| == n * WORDY_LENGTH
      && (n > 0 ==> CentralBytes(ds, crc)[n * WORDY_LENGTH - 20] == 97)
    decreases n
  {
    hide DirentBytes, Storable, Encodable, Zip64Sound, NeedsZip64, Wordy;
    var ds := seq(n, _ => Wordy());
    WordyRecord(crc);
    if n > 0 {
      WordyDirectory(n - 1, crc);
      assert ds[..n - 1] == seq(n - 1, _ => Wordy());
    }
  }

  /** 65535 such entries make a directory of more than 0xffffffff bytes that is not in Zip64 form; it is
      written, and cannot be read. */
  lemma {:induction false} LongDirectoryIsRefused(strict: bool, crc: Crc)
    ensures var ds := seq(UINT16_MAX, _ => Wordy());
      && AllStorable(ds, crc) && AllSound(ds) && AllEncodable(ds) && !IsZip64Directory(ds, 0) && |CentralBytes(ds, crc)| <= INT64_MAX
      && EndPosition(ds, 0, crc) <= |File([], ds, [], crc)|
      && ReadArchive(File([], ds, [], crc), EndPosition(ds, 0, crc), strict, crc).Err?
  {
    hide DirentBytes, Storable, Encodable, Zip64Sound, NeedsZip64, Wordy, CentralBytes, AllStorable, AllEncodable, AllSound, AnyZip64,
        ReadArchive, File, EndRecords;
    var ds := seq(UINT16_MAX, _ => Wordy());
    WordyDirectory(UINT16_MAX, crc);
    LongFile(ds, crc);
    DirectoryRoundTrip([], ds, [], strict, crc);
  }

  lemma {:induction false} LongFile(ds: seq<Dirent>, crc: Crc)
    requires AllEncodable(ds) && !IsZip64Directory(ds, 0) && |CentralBytes(ds, crc)| >= 20
    requires CentralBytes(ds, crc)[|CentralBytes(ds, crc)| - 20] == 97
    ensures EndPosition(ds, 0, crc) <= |File([], ds, [], crc)|
    ensures NoLocator(File([], ds, [], crc), EndPosition(ds, 0, crc))
  {
    hide AllEncodable, IsZip64Directory, CentralBytes, EndRecords;
    var c, file := CentralBytes(ds, crc), File([], ds, [], crc);
    assert c <= file;
    var four := file[|c| - 20..|c| - 16];
    assert four[0] == 97 && Nat(four) % 256 == 97;
  }
}
