/**
 A close that fails, and one that follows: the archive it writes gives away another entry's data.
 */
module CloseHistory {
  import opened Bytes
  import opened ZipBuffer
  import opened Encoding
  import opened ExtraField
  import opened Output
  import opened Dirent
  import opened DirentReader
  import opened DirentRoundTrip
  import opened Directory
  import opened DirectoryRoundTrip
  import opened AddData
  import opened Close
  import opened CloseRoundTrip

  // ----- An archive of three entries, the last one cut off -----

  /** An unremarkable entry: `size` bytes, stored, under a name of one letter. */
  function Plain(letter: byte, offset: uint32, size: uint16): Dirent {
    Dirent(0, 10, 0, CM_STORE, 0, 0, 0, size, size, ZipString([letter], Unknown), [], NO_STRING, 0, 0, 0, offset, NoEncryption)
  }

  function Opened(letter: byte, offset: uint32, size: uint16): Entry {
    Entry(Some(Plain(letter, offset, size)), false, None, false, NOTHING, None, false)
  }

  /** The local header of an entry with a name of one letter. */
  function LocalOf(letter: byte): (h: seq<byte>)
    ensures |h| == 31
  {
    [0x50, 0x4b, 3, 4] + seq(22, _ => 0) + [1, 0, 0, 0] + [letter]
  }

  /** Entry `a` with data 1, entry `b` with data 2, and the header of an entry `c`. */
  const SRC: seq<byte> := LocalOf(97) + [1] + LocalOf(98) + [2] + LocalOf(99)

  const A := Opened(97, 0, 1)
  const B := Opened(98, 32, 1)
  const C := Opened(99, 64, 10)

  lemma {:induction false} HeaderAt(at: nat)
    requires at == 0 || at == 32 || at == 64
    ensures |SRC| == 95 && U16(SRC, at + 26) == 1 && U16(SRC, at + 28) == 0
    ensures DataStart(SRC, at) == Ok(at + 31) && LocalFields(SRC, at) == Ok([])
  {
    assert SRC[at + 26] == 1 && SRC[at + 27] == 0 && SRC[at + 28] == 0 && SRC[at + 29] == 0;
    assert SRC[at + 26..at + 28] == [1, 0] && SRC[at + 28..at + 30] == [0, 0];
    assert Nat([1, 0]) == 1 && Nat([0, 0]) == 0;
  }

  lemma {:induction false} WhereTheDataIs()
    ensures DataAt(SRC, 0, 1) == Some([1]) && DataAt(SRC, 32, 1) == Some([2]) && DataAt(SRC, 64, 10) == None
  {
    hide DataStart;
    HeaderAt(0);
    HeaderAt(32);
    HeaderAt(64);
    assert SRC[31..32] == [1] && SRC[63..64] == [2];
  }

  // ----- The first close -----

  /** Entry `a` has been deleted. */
  const FIRST: seq<Entry> := [A.(deleted := true), B, C]

  lemma {:induction false} OneMore(es: seq<Entry>, e: Entry)
    ensures Live(es + [e]) == Longer(Live(es), e, |es|)
    ensures Lowest(es + [e]) == Lower(Lowest(es), e)
  {
    assert (es + [e])[..|es|] == es;
  }

  lemma {:induction false} NoEntries()
    ensures Live([]) == [] && Lowest([]) == None
  {}

  lemma {:induction false} Three(a: Entry, b: Entry, c: Entry)
    ensures Live([a, b, c]) == Longer(Longer(Longer([], a, 0), b, 1), c, 2)
    ensures Lowest([a, b, c]) == Lower(Lower(Lower(None, a), b), c)
  {
    hide HasChanges, Live, Lowest, Lower, Longer;
    assert [] + [a] == [a] && [a] + [b] == [a, b] && [a, b] + [c] == [a, b, c];
    NoEntries();
    OneMore([], a);
    OneMore([a], b);
    OneMore([a, b], c);
  }

  function Longer(ix: seq<nat>, e: Entry, i: nat): seq<nat> {
    if e.deleted then ix else ix + [i]
  }

  function Lower(l: Option<nat>, e: Entry): Option<nat> {
    if e.orig.Some? && HasChanges(e) && (l.None? || e.orig.value.offset < l.value) then Some(e.orig.value.offset) else l
  }

  lemma {:induction false} FirstKeepsNothing(cloneAt: nat -> bool)
    ensures Live(FIRST) == [1, 2] && Dirty(FIRST, false) && Kept(FIRST, SRC, true, cloneAt) == Ok(0)
  {
    hide DataEnd, Last, Live, Lowest;
    var a := A.(deleted := true);
    Three(a, B, C);
    assert HasChanges(FIRST[0]);
  }

  lemma {:induction false} PlainIsEncodable(letter: byte, offset: uint32, size: uint16)
    requires 32 <= letter < 127
    ensures forall local: bool :: Encodable(Plain(letter, offset, size), local)
    ensures EncodingOf(ZipString([letter], Unknown)) == Ascii
  {
    ScanAscii([letter], 0);
  }

  /** Entry `b` after a failed close: its record says that it is at the start. */
  function Moved(): Entry {
    B.(origLocalRead := true, changes := Some(Plain(98, 0, 1)), changesLocalRead := true)
  }

  lemma {:induction false} PlainFlags(letter: byte, offset: uint32, size: uint16)
    requires 32 <= letter < 127
    ensures Flagged(WithoutDescriptor(Plain(letter, offset, size))) == Plain(letter, offset, size)
  {
    hide EncodingOf;
    PlainIsEncodable(letter, offset, size);
    assert EncodingOf(NO_STRING) == Ascii by {
      EmptyIsAscii();
    }
  }

  lemma {:induction false} EmptyIsAscii()
    ensures EncodingOf(NO_STRING) == Ascii
  {}

  /** Entry `b` moves to the start, where `a` was. */
  lemma {:induction false} SecondEntryMoves(again: Payload, crc: Crc)
    ensures var r := Rewritten(1, B, SRC, 0, again, crc); r.Ok? && r.value.d == Plain(98, 0, 1)
    ensures Settled(B, SRC, Plain(98, 0, 1)) == Moved()
  {
    hide DataStart, LocalFields, DirentBytes, Flags, WithBit, Encodable, EncodingOf;
    HeaderAt(32);
    PlainIsEncodable(98, 0, 1);
    PlainFlags(98, 0, 1);
    assert Base(B, SRC).value.(offset := 0) == Plain(98, 0, 1);
    assert Encodable(Plain(98, 0, 1), true);
    assert Copied(1, Some(32), Plain(98, 0, 1), SRC, crc).Ok?;
  }

  /** Entry `c` cannot be copied. */
  lemma {:induction false} ThirdEntryFails(at: nat, again: Payload, crc: Crc)
    ensures Rewritten(2, C, SRC, at, again, crc).Err?
  {
    hide DataStart, LocalFields, DirentBytes, Flags, WithBit, Encodable, EncodingOf;
    HeaderAt(64);
  }

  /** The first close fails, and leaves its mark on entry `b`. */
  lemma {:induction false} FirstClose(now: seq<Entry>, cloneAt: nat -> bool, again: nat -> Payload, crc: Crc)
    ensures Closing(FIRST, SRC, 0, true, cloneAt, again, crc).Err?
    ensures AfterClosing(now, FIRST, SRC, 0, true, cloneAt, again, crc) ==>
      |now| == 3 && now[0] == FIRST[0] && now[1] == Moved() && OnlyChanges(C, now[2])
  {
    hide Kept, Live, Rewritten, Settled, OnlyChanges, Planned, Turned;
    var es, list := FIRST, [1, 2];
    FirstKeepsNothing(cloneAt);
    PlannedNothing(es, list, SRC, 0, 0, again, crc);
    SecondEntryMoves(again(1), crc);
    PlannedStep(es, list, 0, SRC, 0, 0, again, crc, Layout([], 0));
    var p := Rewritten(1, B, SRC, 0, again(1), crc).value;
    RewrittenBlock(1, B, SRC, 0, again(1), crc);
    ThirdEntryFails(p.extent, again(2), crc);
    PlannedStep(es, list, 1, SRC, 0, 0, again, crc, Layout([] + [p], p.extent));
    ReachedUpTo(es, list, 1, 2, SRC, 0, 0, again, crc);
    TurnedNone(es, list, SRC);
    TurnedMore(es, list, [], p, SRC);
  }

  // ----- The second close -----

  /** Entry `a` has been restored, and entry `c` deleted. */
  function Second(c: Entry): seq<Entry> {
    [A, Moved(), c]
  }

  function Records(): seq<Dirent> {
    [Plain(97, 0, 1), Plain(98, 0, 1)]
  }

  predicate Dropped(c: Entry) {
    c.deleted && c.orig.Some? && c.orig.value.offset == 64
  }

  lemma {:induction false} SecondKeepsBoth(c: Entry, cloneAt: nat -> bool)
    requires Dropped(c) && cloneAt(64)
    ensures Live(Second(c)) == [0, 1] && Dirty(Second(c), false) && Kept(Second(c), SRC, true, cloneAt) == Ok(64)
  {
    hide DataEnd, Last, Live, Lowest;
    HeaderAt(0);
    Three(A, Moved(), c);
    assert HasChanges(Second(c)[2]);
  }

  lemma {:induction false} SecondPlan(c: Entry, cloneAt: nat -> bool, again: nat -> Payload, crc: Crc) returns (l: Layout)
    requires Dropped(c) && cloneAt(64)
    ensures Closing(Second(c), SRC, 0, true, cloneAt, again, crc) == Ok((64, l))
    ensures l.end == 64 && |l.placed| == 2 && Dirents(l.placed) == Records()
    ensures |SRC| == 95 && Laid(SRC[..64] + [], l.placed, crc) == SRC[..64]
  {
    hide Kept, Live, Rewritten, Planned;
    var es, list := Second(c), [0, 1];
    SecondKeepsBoth(c, cloneAt);
    PlannedNothing(es, list, SRC, 64, 64, again, crc);
    PlannedStep(es, list, 0, SRC, 64, 64, again, crc, Layout([], 64));
    PlannedStep(es, list, 1, SRC, 64, 64, again, crc, Layout([] + [SkippedAs(0, A)], 64));
    l := Layout([] + [SkippedAs(0, A)] + [SkippedAs(1, Moved())], 64);
    HeaderAt(0);
    LaidSkipped(crc);
  }

  lemma {:induction false} LaidSkipped(crc: Crc)
    requires |SRC| == 95
    ensures Laid(SRC[..64] + [], [] + [SkippedAs(0, A)] + [SkippedAs(1, Moved())], crc) == SRC[..64]
  {
    hide Laid, Block, Moved;
    var start := SRC[..64] + [];
    assert [] + [SkippedAs(0, A)] == [SkippedAs(0, A)];
    LaidStart(start, crc);
    LaidMore(start, [], SkippedAs(0, A), crc);
    LaidMore(start, [SkippedAs(0, A)], SkippedAs(1, Moved()), crc);
    SkippedBlock(0, A, start, crc);
    SkippedBlock(1, Moved(), start, crc);
  }

  /** The central record of an unremarkable entry: its length, and one byte of it. */
  lemma {:induction false} PlainRecord(letter: byte, crc: Crc)
    requires 32 <= letter < 127
    ensures var d := Plain(letter, 0, 1);
      && Encodable(d, false) && Storable(d, false, false, crc) && Zip64Sound(d, false, false) && !NeedsZip64(d, false)
      && |DirentBytes(d, false, false, crc)| == 47 && DirentBytes(d, false, false, crc)[27] == 0
  {
    hide DirentBytes, EncodingOf, Storable, FixedPart;
    var d := Plain(letter, 0, 1);
    PlainIsEncodable(letter, 0, 1);
    EmptyIsAscii();
    PlainEntryIsSound(d, crc);
    assert Storable(d, false, false, crc) && Zip64Sound(d, false, false);
    PartsRoundTrip(d, false, false, crc, []);
    var b := DirentBytes(d, false, false, crc);
    assert b + [] == b && ExtraBytes(d, false, false, crc) == [];
    SizeByte(b);
  }

  lemma {:induction false} SizeByte(b: seq<byte>)
    requires |b| >= 46 && FixedPart(b, false).uncompSize == 1
    ensures b[27] == 0
  {
    var four := b[24..28];
    assert Nat(four) == 1;
    LeOfNat(four);
    assert four == [1, 0, 0, 0];
    assert b[27] == four[3];
  }

  // ----- What a reader finds -----

  lemma {:induction false} BothRecords(crc: Crc)
    ensures var ds := Records();
      && AllEncodable(ds) && AllStorable(ds, crc) && AllSound(ds) && !IsZip64Directory(ds, 64)
      && |CentralBytes(ds, crc)| == 94 && CentralBytes(ds, crc)[74] == 0
  {
    hide DirentBytes, Encodable, Storable, Zip64Sound, NeedsZip64, Plain;
    var ds := Records();
    PlainRecord(97, crc);
    PlainRecord(98, crc);
    assert AllEncodable(ds);
    CentralCons(ds, crc);
    CentralCons(ds[1..], crc);
    assert ds[1..][1..] == [];
  }

  /** The last 20 bytes before the end record are no Zip64 locator. */
  lemma {:induction false} NoLocatorHere(file: seq<byte>)
    requires |file| >= 158 && file[138] == 0
    ensures NoLocator(file, 158)
  {
    var four := file[138..142];
    assert four[0] == 0;
    assert Nat(four) % 256 == 0;
  }

  lemma {:induction false} FileParts(file: seq<byte>, l: Layout, crc: Crc)
    requires |l.placed| == 2 && Dirents(l.placed) == Records() && l.end == 64
    requires Writable(l, crc) && Replaced(file, SRC, 64, [], l.placed, [], crc)
    requires |SRC| == 95 && Laid(SRC[..64] + [], l.placed, crc) == SRC[..64]
    ensures |file| >= 180 && file[138] == 0 && AllEncodable(Records()) && EndPosition(Records(), 64, crc) == 158
  {
    hide CentralBytes, EndRecords, Laid, AllEncodable, IsZip64Directory;
    BothRecords(crc);
    ReplacedFile(file, SRC, 64, [], l, [], crc);
    var c, records := CentralBytes(Records(), crc), EndRecords(false, 2, 94, 64, 0);
    EndLength();
    assert file == SRC[..64] + (c + records + []);
  }

  lemma {:induction false} EndLength()
    ensures |EndRecords(false, 2, 94, 64, 0)| == EOCDLEN
  {
    Zip64EndSize(false, 2, 94, 64);
    hide EndValues;
  }

  lemma {:induction false} BothHonest(c: Entry, again: nat -> Payload)
    requires Dropped(c)
    ensures AllHonest(Second(c), again)
  {}

  /** The second close succeeds, and a reader of its file takes the data of `b` from where `a` is. */
  lemma {:induction false} SecondClose(file: seq<byte>, c: Entry, cloneAt: nat -> bool, again: nat -> Payload,
      strict: bool, crc: Crc, kept: nat, l: Layout)
    requires Dropped(c) && cloneAt(64) && Closing(Second(c), SRC, 0, true, cloneAt, again, crc) == Ok((kept, l))
    ensures Writable(l, crc)
    ensures Replaced(file, SRC, kept, [], l.placed, [], crc) ==>
      && |file| >= 158 && ReadArchive(file, 158, strict, crc) == Ok(Contents(Backs(Records()), []))
      && DataAt(file, 0, 1) == Some([1])
  {
    hide Closing, Writable, Replaced, Live, Planned, Kept, AllHonest, AllFit, AllStorable, AllSound, AllEncodable, IsZip64Directory,
        CentralBytes, ReadArchive, Backs, DataAt, EndPosition, NoLocator, Disjoint, Unattempted, SkippedReopens, PlacedFrom,
        Reopens, Recorded, Storable, Records, Second, Dropped, Dirents;
    var m := SecondPlan(c, cloneAt, again, crc);
    BothRecords(crc);
    SecondWritable(l, crc);
    if Replaced(file, SRC, kept, [], l.placed, [], crc) {
      FileParts(file, l, crc);
      NoLocatorHere(file);
      SecondKeepsBoth(c, cloneAt);
      BothHonest(c, again);
      CloseThenReopen(file, Second(c), SRC, [], true, cloneAt, again, [], strict, crc, 64, l);
      ClosingPlan(Second(c), SRC, 0, true, cloneAt, again, crc, 64, l);
      HonestFit(Second(c), Live(Second(c)), 2, SRC, 64, 64, again, crc, l);
      KeptStays(file, Second(c), SRC, [], true, cloneAt, again, [], crc, 64, l);
      FirstDataStays(file);
    }
  }

  lemma {:induction false} SecondWritable(l: Layout, crc: Crc)
    requires Dirents(l.placed) == Records() && l.end == 64 && AllEncodable(Records()) && |CentralBytes(Records(), crc)| == 94
    ensures Writable(l, crc)
  {
    hide AllEncodable, CentralBytes, Records;
  }

  lemma {:induction false} FirstDataStays(file: seq<byte>)
    requires |SRC| == 95 && SRC[..64] <= file
    ensures DataAt(file, 0, 1) == Some([1])
  {
    hide DataStart;
    HeaderAt(0);
    WhereTheDataIs();
    assert forall x :: 0 <= x < 64 ==> file[x] == SRC[..64][x] == SRC[x];
    assert forall a, b :: 0 <= a <= b <= 64 ==> file[a..b] == SRC[a..b];
    SameStart(file, SRC, 64, 0);
  }

  // ----- The history -----

  /** `zip_delete` of entry `a` and a close, which fails on the cut-off entry `c`; then `zip_unchange` of
      `a`, `zip_delete` of `c` and another close, which succeeds. Its directory gives the place of `a`
      for `b`, and whoever reads `b` is given the data of `a`. */
  method StaleRecord(again: nat -> Payload, crc: Crc) returns (file: seq<byte>)
    ensures DataAt(SRC, B.orig.value.offset, B.orig.value.compSize) == Some([2])
    ensures |file| >= 158 && Backs(Records())[1].name.raw == [98]
    ensures forall strict: bool :: ReadArchive(file, 158, strict, crc) == Ok(Contents(Backs(Records()), []))
    ensures var record := Backs(Records())[1]; DataAt(file, record.offset, record.compSize) == Some([1])
  {
    hide Closing, AfterClosing, Writable, Replaced, Live, Kept, AllFit, ReadArchive, OnlyChanges, DataAt, HasChanges, Back, Moved,
        NameBack;
    var a := new Archive(SRC, FIRST, [], again, crc, true, _ => true);
    FirstKeepsNothing(a.cloneAt);
    var done := a.Close();
    FirstClose(a.entries, a.cloneAt, again, crc);
    DroppedLast(a.entries[2]);
    var c := a.entries[2].(changes := None, changesLocalRead := false, changed := NOTHING, deleted := true);
    a.entries := [a.entries[0].(deleted := false), a.entries[1], c];
    SecondKeepsBoth(c, a.cloneAt);
    var l := SecondPlan(c, a.cloneAt, again, crc);
    FitPlan(c, a.cloneAt, again, crc, l);
    done := a.Close();
    file := a.src;
    SecondClose(file, c, a.cloneAt, again, false, crc, 64, l);
    forall strict: bool ensures ReadArchive(file, 158, strict, crc) == Ok(Contents(Backs(Records()), [])) {
      SecondClose(file, c, a.cloneAt, again, strict, crc, 64, l);
    }
    WhereTheDataIs();
    BackPlaces(Plain(98, 0, 1));
    BackName();
  }

  lemma {:induction false} BackName()
    ensures Backs(Records())[1] == Back(Plain(98, 0, 1), false) && Back(Plain(98, 0, 1), false).name.raw == [98]
  {
    hide EncodingOf;
    PlainIsEncodable(98, 0, 1);
    assert NameBack(ZipString([98], Unknown), false).raw == [98];
  }

  lemma {:induction false} DroppedLast(e: Entry)
    requires OnlyChanges(C, e)
    ensures Dropped(e.(changes := None, changesLocalRead := false, changed := NOTHING, deleted := true))
  {}

  lemma {:induction false} FitPlan(c: Entry, cloneAt: nat -> bool, again: nat -> Payload, crc: Crc, l: Layout)
    requires Dropped(c) && cloneAt(64) && Closing(Second(c), SRC, 0, true, cloneAt, again, crc) == Ok((64, l))
    ensures AllFit(l.placed)
  {
    hide Closing, Live, Kept, Planned, AllHonest, Second, AllFit;
    BothHonest(c, again);
    ClosingPlan(Second(c), SRC, 0, true, cloneAt, again, crc, 64, l);
    HonestFit(Second(c), Live(Second(c)), |Live(Second(c))|, SRC, 64, 64, again, crc, l);
  }
}
