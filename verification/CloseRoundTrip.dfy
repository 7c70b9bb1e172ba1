/**
 Closing and reopening: what is in the new file, where each survivor's data comes from, and why
 leaving entries where they were is safe.
 */
module CloseRoundTrip {
  import opened Bytes
  import opened ZipBuffer
  import opened ExtraField
  import opened Output
  import opened Dirent
  import opened DirentReader
  import opened DirentRoundTrip
  import opened Directory
  import opened DirectoryRoundTrip
  import opened AddData
  import opened Close

  /** `n` bytes of data of the entry whose local header is at `at`, as `_zip_file_get_offset` finds them. */
  function DataAt(file: seq<byte>, at: nat, n: nat): Option<seq<byte>> {
    match DataStart(file, at)
    case Err(_) => None
    case Ok(start) => if start + n <= |file| then Some(file[start..start + n]) else None
  }

  // ----- Each survivor -----

  /** How survivor `i` was placed: left alone, or rewritten at its own offset. */
  predicate PlacedFrom(p: Placed, i: nat, e: Entry, src: seq<byte>, kept: nat, again: Payload, crc: Crc) {
    if Skips(e, kept) then p == SkippedAs(i, e)
    else Rewritten(i, e, src, p.d.offset, again, crc) == Ok(p)
  }

  lemma {:induction false} PlannedFrom(es: seq<Entry>, list: seq<nat>, n: nat, src: seq<byte>, kept: nat, start: nat,
      again: nat -> Payload, crc: Crc, l: Layout)
    requires n <= |list| && forall k :: 0 <= k < |list| ==> list[k] < |es|
    requires Planned(es, list, n, src, kept, start, again, crc) == Ok(l)
    ensures |l.placed| == n
    ensures forall k :: 0 <= k < n ==> PlacedFrom(l.placed[k], list[k], es[list[k]], src, kept, again(list[k]), crc)
  {
    hide Rewritten, Skips;
    if n > 0 {
      var i, m := list[n - 1], Planned(es, list, n - 1, src, kept, start, again, crc).value;
      PlannedFrom(es, list, n - 1, src, kept, start, again, crc, m);
      if !Skips(es[i], kept) {
        RewrittenBlock(i, es[i], src, m.end, again(i), crc);
      }
      assert forall k :: 0 <= k < n - 1 ==> l.placed[k] == m.placed[k];
    }
  }

  /** The extra fields of a rewritten survivor: those of its entry, joined with the local header's unless
      that has been done before. */
  function FieldsOf(e: Entry, src: seq<byte>): seq<Field> {
    if e.orig.None? || e.origLocalRead || (e.changes.Some? && e.changesLocalRead) then Current(e).fields
    else match LocalFields(src, e.orig.value.offset)
      case Err(_) => []
      case Ok(fs) => Merged(e.orig.value.fields, fs)
  }

  /** A survivor keeps everything about it that is not its own to change: with new data its sizes,
      method, CRC and time are those of the data; copied, only its place and flags change, and the
      local header's fields are joined to its own. */
  lemma {:induction false} SurvivorKeeps(p: Placed, i: nat, e: Entry, src: seq<byte>, at: nat, again: Payload, crc: Crc)
    requires Rewritten(i, e, src, at, again, crc) == Ok(p)
    ensures p.index == i && p.d.offset == at && p.d.compSize == |p.data|
    ensures var c := Current(e).(offset := at, fields := FieldsOf(e, src), bitflags := p.d.bitflags);
      if NeedsNewData(e) then
        var s := e.source.GetOr(again);
        && p.data == s.bytes
        && p.d == c.(time := p.d.time, date := p.d.date, needed := p.d.needed, compMethod := s.finalMethod,
             crc := s.crc, compSize := |s.bytes|, uncompSize := s.finalSize)
      else
        && p.d == c && e.orig.Some? && DataAt(src, e.orig.value.offset, c.compSize) == Some(p.data)
  {
    hide DirentBytes, Encodable, DataStart, LocalFields, Flags, Plan, Forced, Zip64Length, IsZip64, VersionNeeded,
        WithBit, WithLevel, Merged, FieldsOf;
    BaseKeeps(e, src);
  }

  lemma {:induction false} BaseKeeps(e: Entry, src: seq<byte>)
    requires Base(e, src).Ok?
    ensures Base(e, src).value == Current(e).(fields := FieldsOf(e, src))
  {
    hide LocalFields, Merged;
  }

  /** The new data of a survivor is what its source announced, if it has new data. */
  predicate HonestFor(e: Entry, again: Payload) {
    NeedsNewData(e) ==> Honest(Current(e), e.source.GetOr(again))
  }

  /** The survivor gets new data, of a size not known in advance, and has kept an old compressed size
      of 0xffffffff or more. */
  predicate StaleFor(e: Entry, again: Payload) {
    NeedsNewData(e) && StaleSize(Current(e), e.source.GetOr(again))
  }

  lemma {:induction false} SamePlan(d: Dirent, e: Dirent, p: Payload)
    requires d == e.(offset := d.offset, fields := d.fields)
    ensures Honest(d, p) == Honest(e, p) && StaleSize(d, p) == StaleSize(e, p)
  {
    assert Plan(d, p) == Plan(e, p);
  }

  /** With a source that keeps its word, the two headers of a rewritten survivor have the same length. */
  lemma {:induction false} HonestSurvivorFits(p: Placed, i: nat, e: Entry, src: seq<byte>, at: nat, again: Payload, crc: Crc)
    requires Rewritten(i, e, src, at, again, crc) == Ok(p) && HonestFor(e, again)
    ensures p.fits && !StaleFor(e, again)
  {
    hide DirentBytes, Encodable, Base, Copied, Flags, Honest, StaleSize, IsZip64, Zip64Length, Plan, Forced, VersionNeeded, WithLevel;
    var d := Base(e, src).value.(offset := at);
    if NeedsNewData(e) {
      var s := e.source.GetOr(again);
      BaseKeeps(e, src);
      SamePlan(d, Current(e), s);
      HonestRewriteFits(d, s, Cloned(e).changed.lastMod, crc);
      RewriteFits(d, s, Cloned(e).changed.lastMod, crc);
      if StaleSize(d, s) {
        StaleDisagrees(d, s, Cloned(e).changed.lastMod);
      }
    } else {
      CopiedFits(i, Origin(e), d, src, crc);
    }
  }

  /** Nothing but a stale size stands in the way of writing this survivor's new data at `at`. */
  predicate Addable(e: Entry, src: seq<byte>, at: nat, again: Payload, crc: Crc) {
    && NeedsNewData(e) && (e.source.Some? || e.orig.Some?) && Base(e, src).Ok? && at <= INT64_MAX
    && Encodable(Base(e, src).value.(offset := at), true)
    && at + |Preheader(Base(e, src).value.(offset := at), e.source.GetOr(again), crc)| + |e.source.GetOr(again).bytes| <= INT64_MAX
  }

  /** New data from a source that keeps its word is written, other conditions being met, if and only if
      no stale size is left in the entry; if one is, the write fails with an internal error, because the
      first header has a Zip64 field and the second has not. */
  lemma {:induction false} StaleSizeFails(i: nat, e: Entry, src: seq<byte>, at: nat, again: Payload, crc: Crc)
    requires Addable(e, src, at, again, crc) && HonestFor(e, again)
    ensures Rewritten(i, e, src, at, again, crc).Ok? <==> !StaleFor(e, again)
    ensures Rewritten(i, e, src, at, again, crc) == Err(Internal) <==> StaleFor(e, again)
  {
    hide DirentBytes, Encodable, Base, Flags, Honest, StaleSize, IsZip64, Zip64Length, Plan, Forced, VersionNeeded, WithLevel;
    var d, s := Base(e, src).value.(offset := at), e.source.GetOr(again);
    BaseKeeps(e, src);
    SamePlan(d, Current(e), s);
    HonestRewriteFits(d, s, Cloned(e).changed.lastMod, crc);
    if StaleSize(d, s) {
      StaleDisagrees(d, s, Cloned(e).changed.lastMod);
    }
  }

  /** A stale size makes the whole close fail. */
  lemma {:induction false} StaleSizeStops(es: seq<Entry>, src: seq<byte>, prefix: nat, cloning: bool,
      cloneAt: nat -> bool, again: nat -> Payload, crc: Crc, kept: nat, n: nat, m: Layout)
    requires Kept(es, src, cloning, cloneAt) == Ok(kept) && n < |Live(es)|
    requires Planned(es, Live(es), n, src, kept, kept + prefix, again, crc) == Ok(m)
    requires var i := Live(es)[n];
      !Skips(es[i], kept) && Addable(es[i], src, m.end, again(i), crc) && HonestFor(es[i], again(i)) && StaleFor(es[i], again(i))
    ensures Closing(es, src, prefix, cloning, cloneAt, again, crc).Err?
  {
    hide Kept, Planned, Live, Skips, Addable, HonestFor, StaleFor, Rewritten;
    var i := Live(es)[n];
    StaleSizeFails(i, es[i], src, m.end, again(i), crc);
    PlannedStep(es, Live(es), n, src, kept, kept + prefix, again, crc, m);
  }

  /** Every survivor's new data is what its source announced. */
  predicate AllHonest(es: seq<Entry>, again: nat -> Payload) {
    forall i :: 0 <= i < |es| && !es[i].deleted ==> HonestFor(es[i], again(i))
  }

  lemma {:induction false} HonestFit(es: seq<Entry>, list: seq<nat>, n: nat, src: seq<byte>, kept: nat, start: nat,
      again: nat -> Payload, crc: Crc, l: Layout)
    requires n <= |list| && forall k :: 0 <= k < |list| ==> list[k] < |es| && !es[list[k]].deleted
    requires Planned(es, list, n, src, kept, start, again, crc) == Ok(l) && AllHonest(es, again)
    ensures AllFit(l.placed)
  {
    hide Rewritten, Skips, HonestFor;
    if n > 0 {
      var i, m := list[n - 1], Planned(es, list, n - 1, src, kept, start, again, crc).value;
      HonestFit(es, list, n - 1, src, kept, start, again, crc, m);
      if !Skips(es[i], kept) {
        HonestSurvivorFits(l.placed[|l.placed| - 1], i, es[i], src, m.end, again(i), crc);
      }
    }
  }

  lemma {:induction false} CopiedFits(i: nat, from: Option<nat>, d: Dirent, src: seq<byte>, crc: Crc)
    requires Encodable(d, true) && Copied(i, from, d, src, crc).Ok?
    ensures Copied(i, from, d, src, crc).value.fits
  {
    hide DirentBytes, Encodable, DataStart;
  }

  // ----- Where they stand -----

  lemma {:induction false} LaidStands(es: seq<Entry>, list: seq<nat>, n: nat, src: seq<byte>, kept: nat,
      start: seq<byte>,
      again: nat -> Payload, crc: Crc, l: Layout)
    requires n <= |list| && forall k :: 0 <= k < |list| ==> list[k] < |es|
    requires Planned(es, list, n, src, kept, |start|, again, crc) == Ok(l) && AllFit(l.placed)
    ensures |Laid(start, l.placed, crc)| == l.end && start <= Laid(start, l.placed, crc)
    ensures forall p :: p in l.placed && !p.skipped ==> Stands(Laid(start, l.placed, crc), p, crc)
  {
    hide Rewritten, Skips, Stands, Block, AllFit, Laid;
    LaidNothing(start, |start|, crc);
    LaidStart(start, crc);
    if n > 0 {
      var i, m := list[n - 1], Planned(es, list, n - 1, src, kept, |start|, again, crc).value;
      var p := l.placed[|l.placed| - 1];
      assert l.placed == m.placed + [p];
      LaidMore(start, m.placed, p, crc);
      LaidStands(es, list, n - 1, src, kept, start, again, crc, m);
      var before := Laid(start, m.placed, crc);
      if Skips(es[i], kept) {
        SkippedBlock(i, es[i], before, crc);
        assert before + [] == before;
      } else {
        RewrittenBlock(i, es[i], src, m.end, again(i), crc);
        FitsOne(l.placed, |m.placed|);
        BlockStands(before, p, crc);
        forall q | q in m.placed && !q.skipped ensures Stands(before + Block(p, crc), q, crc) {
          StandsOn(before, q, Block(p, crc), crc);
        }
      }
    }
  }

  lemma {:induction false} LaidStart(start: seq<byte>, crc: Crc)
    ensures Laid(start, [], crc) == start
  {}

  lemma {:induction false} FitsOne(ps: seq<Placed>, k: nat)
    requires AllFit(ps) && k < |ps|
    ensures ps[k].fits
  {}

  lemma {:induction false} BlockStands(b: seq<byte>, p: Placed, crc: Crc)
    requires Encodable(p.d, true) && p.d.offset == |b| && !p.skipped
    ensures Stands(b + Block(p, crc), p, crc)
  {
    hide DirentBytes, Encodable, Stands;
    StandsAtEnd(b, p, crc);
    Associative(b, DirentBytes(p.d, true, p.force, crc), p.data);
  }

  /** What a reader finds at the offset of a survivor: the header, exactly when its Zip64 values are
      sound, and behind it exactly the data. */
  ghost predicate Reopens(file: seq<byte>, p: Placed, crc: Crc) {
    && p.d.offset <= |file| && Encodable(p.d, true)
    && var n := |DirentBytes(p.d, true, p.force, crc)|;
      && (Read(file[p.d.offset..], true, crc) == Ok((Back(p.d, true), n)) <==> Zip64Sound(p.d, true, p.force))
      && DataAt(file, p.d.offset, |p.data|) == Some(p.data)
  }

  lemma {:induction false} StandsReopens(pre: seq<byte>, p: Placed, more: seq<byte>, crc: Crc)
    requires Stands(pre, p, crc) && Storable(p.d, true, p.force, crc) && |pre| <= INT64_MAX
    ensures Reopens(pre + more, p, crc)
  {
    hide *;
    var file := pre + more;
    StandsExtent(pre, p, more, crc);
    var h, at := DirentBytes(p.d, true, p.force, crc), p.d.offset;
    var tail := file[at + |h|..];
    RoundTrip(p.d, true, p.force, crc, tail);
    HeaderEnd(p.d, p.force, tail, crc);
    LocalStart(file, at);
    ReopensIf(file, p, crc);
  }

  lemma {:induction false} ReopensIf(file: seq<byte>, p: Placed, crc: Crc)
    requires p.d.offset <= |file| && Encodable(p.d, true)
    requires var n := |DirentBytes(p.d, true, p.force, crc)|;
      && (Read(file[p.d.offset..], true, crc) == Ok((Back(p.d, true), n)) <==> Zip64Sound(p.d, true, p.force))
      && DataStart(file, p.d.offset) == Ok(p.d.offset + n) && p.d.offset + n + |p.data| <= |file|
      && file[p.d.offset + n..p.d.offset + n + |p.data|] == p.data
    ensures Reopens(file, p, crc)
  {
    hide DirentBytes, Encodable, Read, Back, Zip64Sound, DataStart;
  }

  lemma {:induction false} StandsExtent(pre: seq<byte>, p: Placed, more: seq<byte>, crc: Crc)
    requires Stands(pre, p, crc)
    ensures Encodable(p.d, true)
    ensures var file, at, h := pre + more, p.d.offset, DirentBytes(p.d, true, p.force, crc);
      && at + |h| + |p.data| <= |pre| && file[at..] == h + file[at + |h|..]
      && file[at + |h|..at + |h| + |p.data|] == p.data
  {
    hide DirentBytes, Encodable;
    StandsOn(pre, p, more, crc);
    var file, at, n := pre + more, p.d.offset, |DirentBytes(p.d, true, p.force, crc)|;
    assert file[at..] == file[at..at + n] + file[at + n..];
  }

  lemma {:induction false} HeaderEnd(d: Dirent, force: bool, tail: seq<byte>, crc: Crc)
    requires Storable(d, true, force, crc)
    ensures Encodable(d, true)
    ensures var b := DirentBytes(d, true, force, crc) + tail;
      |b| >= LENTRYSIZE && TotalSize(b, true) == |DirentBytes(d, true, force, crc)|
  {
    hide *;
    StorableIsEncodable(d, true, force, crc);
    PartsRoundTrip(d, true, force, crc, tail);
    LocalHeaderSize();
  }

  lemma {:induction false} LocalHeaderSize()
    ensures HeaderSize(true) == LENTRYSIZE
  {}

  /** The two ways of finding the end of a local header agree. */
  lemma {:induction false} LocalStart(file: seq<byte>, at: nat)
    requires at + LENTRYSIZE <= |file|
    ensures DataStart(file, at) == if at + TotalSize(file[at..], true) > INT64_MAX then Err(SeekRange)
      else Ok(at + TotalSize(file[at..], true))
  {
    var b := file[at..];
    assert b[26..28] == file[at + 26..at + 28] && b[28..30] == file[at + 28..at + 30];
  }

  // ----- The new file -----

  lemma {:induction false} ClosingPlan(es: seq<Entry>, src: seq<byte>, prefix: nat, cloning: bool,
      cloneAt: nat -> bool, again: nat -> Payload,
      crc: Crc, kept: nat, l: Layout)
    requires Closing(es, src, prefix, cloning, cloneAt, again, crc) == Ok((kept, l))
    ensures kept <= |src| && Kept(es, src, cloning, cloneAt) == Ok(kept)
    ensures Planned(es, Live(es), |Live(es)|, src, kept, kept + prefix, again, crc) == Ok(l)
  {
    hide Planned, Live, Kept;
    KeptInside(es, src, cloning, cloneAt);
  }

  lemma {:induction false} ReplacedFile(file: seq<byte>, src: seq<byte>, kept: nat, prefix: seq<byte>, l: Layout,
      comment: seq<byte>, crc: Crc)
    requires kept <= |src| && Writable(l, crc) && Replaced(file, src, kept, prefix, l.placed, comment, crc)
    ensures AllEncodable(Dirents(l.placed)) && l.end + |CentralBytes(Dirents(l.placed), crc)| <= INT64_MAX
    ensures var pre := Laid(src[..kept] + prefix, l.placed, crc);
      file == pre + DirectoryBytes(Dirents(l.placed), |pre|, comment, crc) == File(pre, Dirents(l.placed), comment, crc)
  {
    hide Laid, AllEncodable, CentralBytes, DirectoryBytes, Dirents;
  }

  // ----- Keeping part of the old file -----

  function End(src: seq<byte>, d: Dirent): nat {
    if DataEnd(src, d).Ok? then DataEnd(src, d).value else 0
  }

  /** The old entries lie apart from each other in the old file. */
  ghost predicate Disjoint(es: seq<Entry>, src: seq<byte>) {
    && (forall i :: 0 <= i < |es| && es[i].orig.Some? ==> DataEnd(src, es[i].orig.value).Ok?)
    && (forall i, j :: 0 <= i < |es| && 0 <= j < |es| && i != j && es[i].orig.Some? && es[j].orig.Some? ==>
          End(src, es[i].orig.value) <= es[j].orig.value.offset || End(src, es[j].orig.value) <= es[i].orig.value.offset)
  }

  lemma {:induction false} LowestIsLowest(es: seq<Entry>) returns (j: nat)
    ensures forall i :: 0 <= i < |es| && es[i].orig.Some? && HasChanges(es[i]) ==>
      Lowest(es).Some? && Lowest(es).value <= es[i].orig.value.offset
    ensures Lowest(es).Some? ==> j < |es| && es[j].orig.Some? && HasChanges(es[j]) && es[j].orig.value.offset == Lowest(es).value
  {
    j := 0;
    hide HasChanges;
    if es != [] {
      var n := |es| - 1;
      j := LowestIsLowest(es[..n]);
      assert forall i :: 0 <= i < n ==> es[..n][i] == es[i];
      if es[n].orig.Some? && HasChanges(es[n]) && Lowest(es).value == es[n].orig.value.offset {
        j := n;
      }
    }
  }

  lemma {:induction false} EndAfterStart(src: seq<byte>, d: Dirent)
    requires DataEnd(src, d).Ok?
    ensures DataStart(src, d.offset).Ok? && d.offset < DataStart(src, d.offset).value
    ensures DataStart(src, d.offset).value + d.compSize <= DataEnd(src, d).value
  {
    hide NeedsZip64;
  }

  /** A skipped survivor is neither deleted nor changed, and if the old entries lie apart, the part
      of the old file that is kept holds all of it. */
  lemma {:induction false} SkippedIsSafe(es: seq<Entry>, src: seq<byte>, cloning: bool, cloneAt: nat -> bool,
      kept: nat, i: nat)
    requires Kept(es, src, cloning, cloneAt) == Ok(kept) && i < |es| && Skips(es[i], kept)
    ensures !HasChanges(es[i])
    ensures Disjoint(es, src) ==> End(src, es[i].orig.value) <= kept
  {
    hide HasChanges, DataEnd, Lowest, Last;
    var j := LowestIsLowest(es);
    LastIsOld(es);
    if Disjoint(es, src) {
      EndAfterStart(src, es[i].orig.value);
      var k := if Lowest(es).Some? then j else Last(es).value;
      EndAfterStart(src, es[k].orig.value);
    }
  }

  /** An entry's stretch of the old file is there in the new one. */
  ghost predicate Undisturbed(file: seq<byte>, src: seq<byte>, d: Dirent) {
    && d.offset <= End(src, d) <= |src| && End(src, d) <= |file|
    && file[d.offset..End(src, d)] == src[d.offset..End(src, d)] && DataStart(file, d.offset) == DataStart(src, d.offset)
    && DataAt(file, d.offset, d.compSize) == DataAt(src, d.offset, d.compSize) != None
  }

  lemma {:induction false} KeptIsUndisturbed(file: seq<byte>, src: seq<byte>, kept: nat, d: Dirent)
    requires kept <= |src| && src[..kept] <= file
    requires DataEnd(src, d).Ok? && End(src, d) <= kept
    ensures Undisturbed(file, src, d)
  {
    hide DataEnd;
    EndAfterStart(src, d);
    var at, end := d.offset, End(src, d);
    assert forall x :: 0 <= x < kept ==> file[x] == src[..kept][x] == src[x];
    assert forall a, b :: 0 <= a <= b <= kept ==> file[a..b] == src[a..b];
    SameStart(file, src, kept, at);
  }

  lemma {:induction false} SameStart(file: seq<byte>, src: seq<byte>, kept: nat, at: nat)
    requires kept <= |src| && kept <= |file| && forall a, b :: 0 <= a <= b <= kept ==> file[a..b] == src[a..b]
    requires DataStart(src, at).Ok? && DataStart(src, at).value <= kept
    ensures DataStart(file, at) == DataStart(src, at)
  {
    assert file[at + 26..at + 28] == src[at + 26..at + 28] && file[at + 28..at + 30] == src[at + 28..at + 30];
  }

  /** The new file starts with what was kept. */
  lemma {:induction false} KeptStays(file: seq<byte>, es: seq<Entry>, src: seq<byte>, prefix: seq<byte>,
      cloning: bool, cloneAt: nat -> bool,
      again: nat -> Payload, comment: seq<byte>, crc: Crc, kept: nat, l: Layout)
    requires Closing(es, src, |prefix|, cloning, cloneAt, again, crc) == Ok((kept, l))
    requires Writable(l, crc) && AllFit(l.placed) && Replaced(file, src, kept, prefix, l.placed, comment, crc)
    ensures kept <= |src| && src[..kept] <= file && Kept(es, src, cloning, cloneAt) == Ok(kept)
  {
    hide Closing, Writable, AllFit, Replaced, Planned, Kept, Laid, Live, Dirents, AllEncodable, CentralBytes;
    ClosingPlan(es, src, |prefix|, cloning, cloneAt, again, crc, kept, l);
    var start := src[..kept] + prefix;
    LaidStands(es, Live(es), |Live(es)|, src, kept, start, again, crc, l);
    ReplacedFile(file, src, kept, prefix, l, comment, crc);
    assert src[..kept] <= start <= Laid(start, l.placed, crc) <= file;
  }

  /** Cloning skips only what is safe: every changed or new survivor is rewritten, every skipped one
      is unchanged, and of an archive whose entries lie apart it stays where it was, byte for byte. */
  lemma {:induction false} CloningIsSafe(file: seq<byte>, es: seq<Entry>, src: seq<byte>, prefix: seq<byte>,
      cloning: bool, cloneAt: nat -> bool,
      again: nat -> Payload, comment: seq<byte>, crc: Crc, kept: nat, l: Layout)
    requires Closing(es, src, |prefix|, cloning, cloneAt, again, crc) == Ok((kept, l))
    requires Writable(l, crc) && AllHonest(es, again) && Replaced(file, src, kept, prefix, l.placed, comment, crc)
    ensures forall i :: 0 <= i < |es| && (HasChanges(es[i]) || es[i].orig.None?) ==> !Skips(es[i], kept)
    ensures Disjoint(es, src) ==> forall i :: 0 <= i < |es| && Skips(es[i], kept) ==> Undisturbed(file, src, es[i].orig.value)
  {
    hide Closing, Writable, AllHonest, Replaced, HasChanges, Undisturbed, DataEnd, Planned, Kept, AllFit, Live;
    ClosingPlan(es, src, |prefix|, cloning, cloneAt, again, crc, kept, l);
    HonestFit(es, Live(es), |Live(es)|, src, kept, kept + |prefix|, again, crc, l);
    KeptStays(file, es, src, prefix, cloning, cloneAt, again, comment, crc, kept, l);
    forall i | 0 <= i < |es| && Skips(es[i], kept) ensures !HasChanges(es[i])
      ensures Disjoint(es, src) ==> Undisturbed(file, src, es[i].orig.value)
    {
      SkippedIsSafe(es, src, cloning, cloneAt, kept, i);
      if Disjoint(es, src) {
        KeptIsUndisturbed(file, src, kept, es[i].orig.value);
      }
    }
  }

  // ----- What the directory says of those left where they were -----

  /** The directory will give the place and size the entry has in the old file. */
  predicate Recorded(e: Entry) {
    e.orig.Some? && Current(e).offset == e.orig.value.offset && Current(e).compSize == e.orig.value.compSize
  }

  /** Where a reader who follows directory record `d` takes the header and the data from. */
  function Extent(file: seq<byte>, d: Dirent): Option<(nat, nat, nat)> {
    match DataStart(file, d.offset)
    case Err(_) => None
    case Ok(start) => if start + d.compSize > |file| then None else Some((d.offset, start, start + d.compSize))
  }

  /** Record `d` leads to the header and the data that the old file has for `o`, where it has them. */
  ghost predicate Leads(file: seq<byte>, d: Dirent, src: seq<byte>, o: Dirent) {
    && Extent(src, o).Some? && Extent(file, d) == Extent(src, o)
    && var (at, start, end) := Extent(src, o).value; at <= start && file[at..end] == src[at..end]
  }

  lemma {:induction false} LeadsIffRecorded(file: seq<byte>, src: seq<byte>, e: Entry, d: Dirent)
    requires e.orig.Some? && Undisturbed(file, src, e.orig.value) && DataEnd(src, e.orig.value).Ok?
    requires d.offset == Current(e).offset && d.compSize == Current(e).compSize
    ensures Leads(file, d, src, e.orig.value) <==> Recorded(e)
  {
    hide DataEnd, DataStart;
    var o := e.orig.value;
    EndAfterStart(src, o);
    var (at, end) := (o.offset, DataStart(src, o.offset).value + o.compSize);
    assert file[at..End(src, o)][..end - at] == file[at..end] && src[at..End(src, o)][..end - at] == src[at..end];
  }

  lemma {:induction false} BackPlaces(d: Dirent)
    ensures Back(d, false).offset == d.offset && Back(d, false).compSize == d.compSize
  {}

  /** What carries changes has been changed, as is so until a close fails. */
  predicate Unattempted(es: seq<Entry>) {
    forall i :: 0 <= i < |es| && es[i].changes.Some? ==> es[i].changed.Any()
  }

  /** If no close has failed before, a skipped entry is recorded where it is. */
  lemma {:induction false} UnattemptedIsRecorded(es: seq<Entry>, src: seq<byte>, cloning: bool, cloneAt: nat -> bool,
      kept: nat, i: nat)
    requires Kept(es, src, cloning, cloneAt) == Ok(kept) && i < |es| && Skips(es[i], kept) && Unattempted(es)
    ensures Recorded(es[i])
  {
    hide Kept;
    SkippedIsSafe(es, src, cloning, cloneAt, kept, i);
  }

  /** A close that fails later leaves an entry without changes recorded where it is if and only if its
      turn put it back to the same place; it counts as unchanged in either case. */
  lemma {:induction false} AttemptRecords(e: Entry, i: nat, src: seq<byte>, at: nat, again: Payload, crc: Crc, p: Placed)
    requires !HasChanges(e) && e.orig.Some? && e.changes.None? && Rewritten(i, e, src, at, again, crc) == Ok(p)
    ensures var now := Settled(e, src, p.d); !HasChanges(now) && (Recorded(now) <==> at == e.orig.value.offset)
  {
    hide WithLocalFields, FieldsOf, Added, Copied;
    SurvivorKeeps(p, i, e, src, at, again, crc);
    KeepsAll(Cloned(e), src);
  }

  // ----- The whole archive -----

  /** Reopening the new file at its end record gives exactly the survivors, in index order, and the
      comment, if and only if their Zip64 values are sound and the directory is in Zip64 form or its size
      fits 32 bits. For every rewritten survivor the local header and exactly its data are found at the
      offset given. Of an archive whose entries lie apart, a skipped survivor's header and data are found
      at the offset given if and only if that is still the old one, as it is if no close has failed. */
  lemma {:induction false} CloseThenReopen(file: seq<byte>, es: seq<Entry>, src: seq<byte>, prefix: seq<byte>,
      cloning: bool, cloneAt: nat -> bool,
      again: nat -> Payload, comment: seq<byte>, strict: bool, crc: Crc, kept: nat, l: Layout)
    requires Closing(es, src, |prefix|, cloning, cloneAt, again, crc) == Ok((kept, l))
    requires Writable(l, crc) && AllHonest(es, again) && Replaced(file, src, kept, prefix, l.placed, comment, crc)
    requires AllStorable(Dirents(l.placed), crc) && |comment| <= UINT16_MAX && |Live(es)| <= INT64_MAX
    requires EndPosition(Dirents(l.placed), l.end, crc) <= |file|
    requires !IsZip64Directory(Dirents(l.placed), l.end) ==> NoLocator(file, EndPosition(Dirents(l.placed), l.end, crc))
    ensures var ds := Dirents(l.placed); var r := ReadArchive(file, EndPosition(ds, l.end, crc), strict, crc);
      var right := AllSound(ds) && (IsZip64Directory(ds, l.end) || |CentralBytes(ds, crc)| <= UINT32_MAX);
      r == Ok(Contents(Backs(ds), comment)) <==> right
    ensures EachPlaced(l.placed, es, src, kept, again, crc)
    ensures forall p :: p in l.placed && !p.skipped && Storable(p.d, true, p.force, crc) ==> Reopens(file, p, crc)
    ensures Disjoint(es, src) ==> SkippedReopen(file, l.placed, es, src)
    ensures Unattempted(es) ==> forall p :: p in l.placed && p.skipped ==> p.index < |es| && Recorded(es[p.index])
  {
    hide *;
    var ix, ds := Live(es), Dirents(l.placed);
    ClosingPlan(es, src, |prefix|, cloning, cloneAt, again, crc, kept, l);
    PlannedEach(es, src, kept, kept + |prefix|, again, crc, l);
    HonestFit(es, ix, |ix|, src, kept, kept + |prefix|, again, crc, l);
    var start := src[..kept] + prefix;
    ReplacedFile(file, src, kept, prefix, l, comment, crc);
    LaidStands(es, ix, |ix|, src, kept, start, again, crc, l);
    var pre := Laid(start, l.placed, crc);
    DirectoryRoundTrip.DirectoryRoundTrip(pre, ds, comment, strict, crc);
    forall p | p in l.placed && !p.skipped && Storable(p.d, true, p.force, crc) ensures Reopens(file, p, crc) {
      StandsReopens(pre, p, DirectoryBytes(ds, |pre|, comment, crc), crc);
    }
    KeptStays(file, es, src, prefix, cloning, cloneAt, again, comment, crc, kept, l);
    EachSkipped(file, es, src, cloning, cloneAt, again, crc, kept, l.placed);
  }

  /** The survivors, in index order, each left alone or rewritten. */
  ghost predicate EachPlaced(ps: seq<Placed>, es: seq<Entry>, src: seq<byte>, kept: nat, again: nat -> Payload, crc: Crc) {
    var ix := Live(es);
    |ps| == |ix| && forall k :: 0 <= k < |ps| ==> PlacedFrom(ps[k], ix[k], es[ix[k]], src, kept, again(ix[k]), crc)
  }

  lemma {:induction false} PlannedEach(es: seq<Entry>, src: seq<byte>, kept: nat, start: nat,
      again: nat -> Payload, crc: Crc, l: Layout)
    requires Planned(es, Live(es), |Live(es)|, src, kept, start, again, crc) == Ok(l)
    ensures |l.placed| == |Live(es)| && EachPlaced(l.placed, es, src, kept, again, crc)
  {
    hide Planned, Live, PlacedFrom;
    PlannedFrom(es, Live(es), |Live(es)|, src, kept, start, again, crc, l);
  }

  /** The record of each skipped survivor leads to it if and only if it gives the old place and size. */
  ghost predicate SkippedReopen(file: seq<byte>, ps: seq<Placed>, es: seq<Entry>, src: seq<byte>) {
    forall k :: 0 <= k < |ps| && ps[k].skipped ==>
      ps[k].index < |es| && SkippedReopens(file, Backs(Dirents(ps))[k], es[ps[k].index], src)
  }

  ghost predicate SkippedReopens(file: seq<byte>, record: Dirent, e: Entry, src: seq<byte>) {
    e.orig.Some? && (Leads(file, record, src, e.orig.value) <==> Recorded(e))
  }

  lemma {:induction false} EachSkipped(file: seq<byte>, es: seq<Entry>, src: seq<byte>, cloning: bool, cloneAt: nat -> bool,
      again: nat -> Payload, crc: Crc, kept: nat, ps: seq<Placed>)
    requires kept <= |src| && src[..kept] <= file && Kept(es, src, cloning, cloneAt) == Ok(kept)
    requires EachPlaced(ps, es, src, kept, again, crc)
    ensures Disjoint(es, src) ==> SkippedReopen(file, ps, es, src)
    ensures Unattempted(es) ==> forall p :: p in ps && p.skipped ==> p.index < |es| && Recorded(es[p.index])
  {
    hide Kept, Live, PlacedFrom, Disjoint, Unattempted, SkippedReopens, Recorded, Backs, Dirents, Back;
    var ix := Live(es);
    forall k | 0 <= k < |ps| && ps[k].skipped
      ensures ps[k].index < |es|
      ensures Disjoint(es, src) ==> SkippedReopens(file, Backs(Dirents(ps))[k], es[ps[k].index], src)
      ensures Unattempted(es) ==> Recorded(es[ps[k].index])
    {
      SkippedOne(file, es, src, cloning, cloneAt, again(ix[k]), crc, kept, ps[k], ix[k]);
      BacksAt(ps, k);
    }
  }

  lemma {:induction false} BacksAt(ps: seq<Placed>, k: nat)
    requires k < |ps|
    ensures Backs(Dirents(ps))[k] == Back(ps[k].d, false)
  {
    hide Back;
  }

  lemma {:induction false} SkippedOne(file: seq<byte>, es: seq<Entry>, src: seq<byte>, cloning: bool, cloneAt: nat -> bool,
      again: Payload, crc: Crc, kept: nat, p: Placed, i: nat)
    requires kept <= |src| && src[..kept] <= file && Kept(es, src, cloning, cloneAt) == Ok(kept)
    requires i < |es| && PlacedFrom(p, i, es[i], src, kept, again, crc) && p.skipped
    ensures p.index == i
    ensures Disjoint(es, src) ==> SkippedReopens(file, Back(p.d, false), es[i], src)
    ensures Unattempted(es) ==> Recorded(es[i])
  {
    hide Kept, Rewritten, HasChanges, Unattempted, DataEnd, Undisturbed, Leads, Recorded, Back, Current;
    if !Skips(es[i], kept) {
      RewrittenBlock(i, es[i], src, p.d.offset, again, crc);
    }
    SkippedIsSafe(es, src, cloning, cloneAt, kept, i);
    if Unattempted(es) {
      UnattemptedIsRecorded(es, src, cloning, cloneAt, kept, i);
    }
    if Disjoint(es, src) {
      KeptIsUndisturbed(file, src, kept, es[i].orig.value);
      BackPlaces(p.d);
      LeadsIffRecorded(file, src, es[i], Back(p.d, false));
    }
  }
}
