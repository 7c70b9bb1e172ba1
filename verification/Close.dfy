/**
 Closing an archive (zip_close.c, zip_file_get_offset.c): which entries survive, how much of the
 old file can be kept, and the rewrite of everything else.
 */
module Close {
  import opened Bytes
  import opened ZipBuffer
  import opened Encoding
  import opened ExtraField
  import opened Output
  import opened Dirent
  import opened DirentReader
  import opened Directory
  import opened AddData

  /** Which properties of an entry have been changed. */
  datatype Edits = Edits(compMethod: bool, filename: bool, comment: bool, extraField: bool,
    attributes: bool, lastMod: bool, encryption: bool, password: bool)
  {
    predicate Any() {
      compMethod || filename || comment || extraField || attributes || lastMod || encryption || password
    }
  }

  const NOTHING := Edits(false, false, false, false, false, false, false, false)

  /** An archive entry: as it was opened, as it has been edited, its new data, its deletion. */
  datatype Entry = Entry(orig: Option<Dirent>, origLocalRead: bool, changes: Option<Dirent>, changesLocalRead: bool,
    changed: Edits, source: Option<Payload>, deleted: bool)

  const BLANK := Dirent(63 + 3 * 256, 10, 0, CM_DEFAULT, 0, 0, 0, 0, 0, NO_STRING, [], NO_STRING, 0, 0, 0x81b60000, 0, NoEncryption)

  predicate IsChanged(e: Entry) {
    e.changes.Some? && e.changed.Any()
  }

  predicate HasChanges(e: Entry) {
    e.source.Some? || e.deleted || IsChanged(e)
  }

  predicate NeedsNewData(e: Entry) {
    e.source.Some? || (e.changes.Some? && (e.changed.compMethod || e.changed.encryption))
  }

  /** Indices of the entries that are not deleted, in order. */
  function Live(es: seq<Entry>): (ix: seq<nat>)
    ensures forall k :: 0 <= k < |ix| ==> ix[k] < |es| && !es[ix[k]].deleted
    ensures forall k, l :: 0 <= k < l < |ix| ==> ix[k] < ix[l]
    ensures forall i :: 0 <= i < |es| && !es[i].deleted ==> i in ix
  {
    if es == [] then []
    else
      var n := |es| - 1;
      var ix := Live(es[..n]);
      assert forall k :: 0 <= k < |ix| ==> es[..n][ix[k]] == es[ix[k]];
      assert forall i :: 0 <= i < n ==> es[..n][i] == es[i];
      if es[n].deleted then ix else ix + [n]
  }

  // ----- Looking into the old file -----

  /** `_zip_file_get_offset`: where the data of the entry at `at` starts. */
  function DataStart(src: seq<byte>, at: nat): Result<nat> {
    if at + 26 > |src| then Err(Invalid)
    else if at + LENTRYSIZE > |src| then Err(EndOfFile)
    else
      var start := at + LENTRYSIZE + U16(src, at + 26) as nat + U16(src, at + 28) as nat;
      if start > INT64_MAX then Err(SeekRange) else Ok(start)
  }

  const DATADES_MAGIC: nat := 0x08074b50

  /** `_zip_file_get_end`: where the entry's data, or its data descriptor, ends. */
  function DataEnd(src: seq<byte>, d: Dirent): Result<nat> {
    match DataStart(src, d.offset)
    case Err(e) => Err(e)
    case Ok(start) =>
      var end := start + d.compSize;
      if end > INT64_MAX then Err(SeekRange)
      else if !Bit(d.bitflags, GPBF_DATA_DESCRIPTOR) then Ok(end)
      else if end > |src| then Err(Invalid)
      else if end + 4 > |src| then Err(EndOfFile)
      else
        var tail := (if U32(src, end) == DATADES_MAGIC then 16 else 12) + if NeedsZip64(d, true) then 8 else 0;
        if end + tail > INT64_MAX then Err(SeekRange) else Ok(end + tail)
  }

  /** The extra fields in the local header at `at`, without those the format uses itself. */
  function LocalFields(src: seq<byte>, at: nat): Result<seq<Field>> {
    if at + 26 > INT64_MAX then Err(SeekRange)
    else if at + 26 > |src| then Err(Invalid)
    else if at + LENTRYSIZE > |src| then Err(EndOfFile)
    else
      var n, m := U16(src, at + 26) as nat, U16(src, at + 28) as nat;
      if m == 0 then Ok([])
      else if at + LENTRYSIZE + n > |src| then Err(SeekRange)
      else if at + LENTRYSIZE + n + m > |src| then Err(EndOfFile)
      else match Parsed(src[at + LENTRYSIZE + n..at + LENTRYSIZE + n + m], LOCAL)
        case None => Err(Inconsistent)
        case Some(fs) => Ok(Unused(fs))
  }

  /** `_zip_read_local_ef`: adds the local header's fields to the entry's list, once. */
  function WithLocalFields(e: Entry, src: seq<byte>): Result<Entry> {
    if e.orig.None? || e.origLocalRead then Ok(e)
    else match LocalFields(src, e.orig.value.offset)
      case Err(x) => Err(x)
      case Ok(fs) => Ok(Joined(e, fs))
  }

  function Joined(e: Entry, fs: seq<Field>): Entry
    requires e.orig.Some?
  {
    var all := Merged(e.orig.value.fields, fs);
    var changes := if e.changes.Some? && !e.changesLocalRead then Some(e.changes.value.(fields := all)) else e.changes;
    e.(orig := Some(e.orig.value.(fields := all)), origLocalRead := true, changes := changes,
       changesLocalRead := e.changesLocalRead || e.changes.Some?)
  }

  // ----- What closing writes -----

  /** One survivor in the new file, with the stretch it takes up there. `fits` is false if its two
      headers differ in length. */
  datatype Placed = Placed(index: nat, skipped: bool, d: Dirent, force: bool, data: seq<byte>, fits: bool, extent: nat)

  /** Survivors that start before the kept part of the old file ends are left where they are. */
  predicate Skips(e: Entry, kept: nat) {
    e.orig.Some? && e.orig.value.offset < kept
  }

  /** What the central directory will say of an entry. */
  function Current(e: Entry): Dirent {
    e.changes.GetOr(e.orig.GetOr(BLANK))
  }

  function Origin(e: Entry): Option<nat> {
    if e.orig.Some? then Some(e.orig.value.offset) else None
  }

  function Cloned(e: Entry): Entry {
    if e.changes.Some? then e
    else e.(changes := Some(e.orig.GetOr(BLANK)), changesLocalRead := e.orig.Some? && e.origLocalRead, changed := NOTHING)
  }

  /** The entry a rewrite starts from. */
  function Base(e: Entry, src: seq<byte>): Result<Dirent> {
    match WithLocalFields(Cloned(e), src)
    case Err(x) => Err(x)
    case Ok(f) => Ok(f.changes.GetOr(BLANK))
  }

  /** What a survivor rewritten at `at` becomes: its entry, and its data, taken from the source or, if
      that has not changed, from the old file. `again` is what recompressing the old data would deliver. */
  function Rewritten(index: nat, e: Entry, src: seq<byte>, at: nat, again: Payload, crc: Crc): Result<Placed> {
    match Base(e, src)
    case Err(x) => Err(x)
    case Ok(b) =>
      if at > INT64_MAX then Err(SeekRange)
      else if !Encodable(b.(offset := at), true) then Err(Invalid)
      else if NeedsNewData(e) then
        if e.source.None? && e.orig.None? then Err(Invalid)
        else Added(index, b.(offset := at), e.source.GetOr(again), Cloned(e).changed.lastMod, crc)
      else Copied(index, Origin(e), b.(offset := at), src, crc)
  }

  function Added(index: nat, d: Dirent, p: Payload, stamped: bool, crc: Crc): Result<Placed>
    requires Encodable(d, true)
  {
    var pre := Preheader(d, p, crc);
    if d.offset + |pre| + |p.bytes| > INT64_MAX then Err(SeekRange)
    else
      var e, f, force := Preliminary(d, p), Final(d, p, stamped), Forced(d, p);
      if IsZip64(e, true, force) != IsZip64(f, true, force) then Err(Internal)
      else Ok(Placed(index, false, Flagged(f), force, p.bytes, Zip64Length(e, force) == Zip64Length(f, force),
        |pre| + |p.bytes|))
  }

  /** A data descriptor is dropped: all sizes are known. */
  function WithoutDescriptor(d: Dirent): Dirent {
    d.(bitflags := WithBit(d.bitflags, GPBF_DATA_DESCRIPTOR, false))
  }

  function Copied(index: nat, from: Option<nat>, d: Dirent, src: seq<byte>, crc: Crc): Result<Placed>
    requires Encodable(d, true)
  {
    if from.None? then Err(Internal)
    else match DataStart(src, from.value)
      case Err(x) => Err(x)
      case Ok(start) =>
        if start > |src| then Err(Invalid)
        else if start + d.compSize > |src| then Err(EndOfFile)
        else
          EncodableOfSame(d, WithoutDescriptor(d));
          Ok(Placed(index, false, Flagged(WithoutDescriptor(d)), false, src[start..start + d.compSize], true,
            |DirentBytes(WithoutDescriptor(d), true, false, crc)| + d.compSize))
  }

  /** The bytes of a rewritten survivor. */
  function Block(p: Placed, crc: Crc): seq<byte> {
    if p.skipped || !Encodable(p.d, true) then [] else DirentBytes(p.d, true, p.force, crc) + p.data
  }

  datatype Layout = Layout(placed: seq<Placed>, end: nat)

  /** Where closing puts the first `n` of the survivors `list`, starting at `start`. */
  function Planned(es: seq<Entry>, list: seq<nat>, n: nat, src: seq<byte>, kept: nat, start: nat,
      again: nat -> Payload, crc: Crc): Result<Layout>
    requires n <= |list| && forall k :: 0 <= k < |list| ==> list[k] < |es|
  {
    if n == 0 then Ok(Layout([], start))
    else match Planned(es, list, n - 1, src, kept, start, again, crc)
      case Err(x) => Err(x)
      case Ok(l) =>
        var i := list[n - 1];
        if Skips(es[i], kept) then Ok(Layout(l.placed + [SkippedAs(i, es[i])], l.end))
        else match Rewritten(i, es[i], src, l.end, again(i), crc)
          case Err(x) => Err(x)
          case Ok(p) => Ok(Layout(l.placed + [p], l.end + p.extent))
  }

  predicate AllFit(ps: seq<Placed>) {
    forall p :: p in ps ==> p.fits
  }

  function Dirents(ps: seq<Placed>): (ds: seq<Dirent>)
    ensures |ds| == |ps|
  {
    seq(|ps|, k requires 0 <= k < |ps| => ps[k].d)
  }

  /** The file up to the central directory: what is kept, the prefix, and the survivors' blocks. */
  function Laid(start: seq<byte>, ps: seq<Placed>, crc: Crc): seq<byte> {
    if ps == [] then start else Laid(start, ps[..|ps| - 1], crc) + Block(ps[|ps| - 1], crc)
  }

  predicate Dirty(es: seq<Entry>, otherwise: bool) {
    otherwise || exists i :: 0 <= i < |es| && HasChanges(es[i])
  }

  /** The whole of what closing decides before it writes anything. */
  function Closing(es: seq<Entry>, src: seq<byte>, prefix: nat, cloning: bool, cloneAt: nat -> bool,
      again: nat -> Payload, crc: Crc): Result<(nat, Layout)> {
    match Kept(es, src, cloning, cloneAt)
    case Err(x) => Err(x)
    case Ok(kept) =>
      match Planned(es, Live(es), |Live(es)|, src, kept, kept + prefix, again, crc)
      case Err(x) => Err(x)
      case Ok(l) => Ok((kept, l))
  }

  /** The new file: the kept part of the old one, the prefix, the survivors' blocks, the directory. */
  ghost predicate Replaced(file: seq<byte>, src: seq<byte>, kept: nat, prefix: seq<byte>, ps: seq<Placed>,
      comment: seq<byte>, crc: Crc)
  {
    && kept <= |src| && AllEncodable(Dirents(ps))
    && var pre := Laid(src[..kept] + prefix, ps, crc);
      file == pre + DirectoryBytes(Dirents(ps), |pre|, comment, crc)
  }

  /** The directory of this layout can be written. */
  ghost predicate Writable(l: Layout, crc: Crc) {
    AllEncodable(Dirents(l.placed)) && l.end + |CentralBytes(Dirents(l.placed), crc)| <= INT64_MAX
  }

  /** A rewritten survivor stands in the file: its header at its offset, its data behind it. */
  ghost predicate Stands(file: seq<byte>, p: Placed, crc: Crc) {
    && Encodable(p.d, true)
    && var h := DirentBytes(p.d, true, p.force, crc);
      && p.d.offset + |h| + |p.data| <= |file|
      && file[p.d.offset..p.d.offset + |h|] == h
      && file[p.d.offset + |h|..p.d.offset + |h| + |p.data|] == p.data
  }

  lemma {:induction false} StandsOn(file: seq<byte>, p: Placed, more: seq<byte>, crc: Crc)
    requires Stands(file, p, crc)
    ensures Stands(file + more, p, crc)
  {
    hide DirentBytes, Encodable;
    var n, m := |DirentBytes(p.d, true, p.force, crc)|, |p.data|;
    var at := p.d.offset;
    assert (file + more)[at..at + n] == file[at..at + n];
    assert (file + more)[at + n..at + n + m] == file[at + n..at + n + m];
  }

  lemma {:induction false} StandsAtEnd(b: seq<byte>, p: Placed, crc: Crc)
    requires Encodable(p.d, true) && p.d.offset == |b|
    ensures Stands(b + DirentBytes(p.d, true, p.force, crc) + p.data, p, crc)
  {}

  /** Writing sets flags that writing again would set the same. */
  lemma {:induction false} FlaggedTwice(d: Dirent, force: bool, crc: Crc)
    requires Encodable(d, true)
    ensures Encodable(Flagged(d), true)
    ensures DirentBytes(Flagged(d), true, force, crc) == DirentBytes(d, true, force, crc)
  {
    FlagsTwice(d);
    hide Flags, Body, EncodingOf;
    assert Generated(Flagged(d), true, force, crc) == Generated(d, true, force, crc);
  }

  lemma {:induction false} FlagsTwice(d: Dirent)
    ensures Flags(Flagged(d)) == Flags(d)
  {}

  /** A rewritten survivor knows its place and, if its headers agree, fills exactly its extent. */
  lemma {:induction false} RewrittenBlock(index: nat, e: Entry, src: seq<byte>, at: nat, again: Payload, crc: Crc)
    requires Rewritten(index, e, src, at, again, crc).Ok?
    ensures var p := Rewritten(index, e, src, at, again, crc).value;
      && p.index == index && !p.skipped && p.d.offset == at <= INT64_MAX && Encodable(p.d, true)
      && (p.fits ==> |Block(p, crc)| == p.extent)
  {
    hide Base, DirentBytes, Encodable, NeedsNewData, DataStart, Forced, Plan, VersionNeeded, WithLevel, Zip64Length,
        IsZip64, Added, Copied;
    var d := Base(e, src).value.(offset := at);
    if NeedsNewData(e) {
      AddedBlock(index, d, e.source.GetOr(again), Cloned(e).changed.lastMod, crc);
    } else {
      CopiedBlock(index, Origin(e), d, src, crc);
    }
  }

  lemma {:induction false} AddedBlock(index: nat, d: Dirent, p: Payload, stamped: bool, crc: Crc)
    requires Encodable(d, true) && Added(index, d, p, stamped, crc).Ok?
    ensures var w := Added(index, d, p, stamped, crc).value;
      && w.index == index && !w.skipped && w.d.offset == d.offset && Encodable(w.d, true)
      && w.extent == |Preheader(d, p, crc)| + |p.bytes|
      && Block(w, crc) == Header(d, p, stamped, crc) + p.bytes
      && (w.fits ==> |Preheader(d, p, crc)| == |Header(d, p, stamped, crc)|)
  {
    hide DirentBytes, Encodable, Plan, Forced, VersionNeeded, WithLevel, Zip64Length, IsZip64;
    RewriteFits(d, p, stamped, crc);
    EncodableOfSame(d, Final(d, p, stamped));
    FlaggedTwice(Final(d, p, stamped), Forced(d, p), crc);
  }

  lemma {:induction false} CopiedBlock(index: nat, from: Option<nat>, d: Dirent, src: seq<byte>, crc: Crc)
    requires Encodable(d, true) && Copied(index, from, d, src, crc).Ok?
    ensures var w := Copied(index, from, d, src, crc).value;
      && w.index == index && !w.skipped && w.d.offset == d.offset && Encodable(w.d, true)
      && Encodable(WithoutDescriptor(d), true)
      && Block(w, crc) == DirentBytes(WithoutDescriptor(d), true, false, crc) + w.data && |Block(w, crc)| == w.extent
  {
    hide DirentBytes, Encodable, DataStart;
    EncodableOfSame(d, WithoutDescriptor(d));
    FlaggedTwice(WithoutDescriptor(d), false, crc);
  }

  lemma {:induction false} LaidNothing(start: seq<byte>, p0: nat, crc: Crc)
    ensures LaidSoFar(start, p0, start, p0, [], crc)
  {}

  lemma {:induction false} SkippedBlock(i: nat, e: Entry, bytes: seq<byte>, crc: Crc)
    ensures Block(SkippedAs(i, e), crc) == [] && bytes + [] == bytes
  {}

  /** An entry once it has been rewritten: its local fields joined, its new place and data recorded in
      its changes, whether or not the new file is committed in the end. */
  function Settled(e: Entry, src: seq<byte>, d: Dirent): Entry {
    match WithLocalFields(Cloned(e), src) case Err(_) => e.(changes := Some(d)) case Ok(f) => f.(changes := Some(d))
  }

  /** The entries once the first of `list` have been placed as `ps`. */
  function Turned(es: seq<Entry>, list: seq<nat>, ps: seq<Placed>, src: seq<byte>): (now: seq<Entry>)
    requires |ps| <= |list| && forall k :: 0 <= k < |list| ==> list[k] < |es|
    ensures |now| == |es|
  {
    if ps == [] then es
    else
      var n := |ps| - 1;
      var q := Turned(es, list, ps[..n], src);
      if ps[n].skipped then q else q[list[n] := Settled(es[list[n]], src, ps[n].d)]
  }

  lemma {:induction false} TurnedMore(es: seq<Entry>, list: seq<nat>, ps: seq<Placed>, p: Placed, src: seq<byte>)
    requires |ps| < |list| && forall k :: 0 <= k < |list| ==> list[k] < |es|
    ensures var q, i := Turned(es, list, ps, src), list[|ps|];
      Turned(es, list, ps + [p], src) == if p.skipped then q else q[i := Settled(es[i], src, p.d)]
  {
    hide Settled;
    assert (ps + [p])[..|ps|] == ps;
  }

  /** Entries whose turn has not come are as they were. */
  lemma {:induction false} TurnedLater(es: seq<Entry>, list: seq<nat>, ps: seq<Placed>, src: seq<byte>, i: nat)
    requires |ps| <= |list| && forall k :: 0 <= k < |list| ==> list[k] < |es|
    requires i < |es| && forall k :: 0 <= k < |ps| ==> list[k] != i
    ensures Turned(es, list, ps, src)[i] == es[i]
  {
    hide Settled;
    if ps != [] {
      TurnedLater(es, list, ps[..|ps| - 1], src, i);
    }
  }

  /** Each placed entry knows what it is now. */
  lemma {:induction false} TurnedCurrent(es: seq<Entry>, list: seq<nat>, ps: seq<Placed>, src: seq<byte>, k: nat)
    requires |ps| <= |list| && forall k :: 0 <= k < |list| ==> list[k] < |es|
    requires forall k, l :: 0 <= k < l < |list| ==> list[k] < list[l]
    requires k < |ps| && (ps[k].skipped ==> ps[k].d == Current(es[list[k]]))
    ensures Current(Turned(es, list, ps, src)[list[k]]) == ps[k].d
  {
    hide WithLocalFields;
    var n := |ps| - 1;
    if k < n {
      TurnedCurrent(es, list, ps[..n], src, k);
    } else {
      TurnedLater(es, list, ps[..n], src, list[k]);
    }
  }

  lemma {:induction false} TurnedNone(es: seq<Entry>, list: seq<nat>, src: seq<byte>)
    requires forall k :: 0 <= k < |list| ==> list[k] < |es|
    ensures Turned(es, list, [], src) == es
  {}

  /** The skipped ones are as they were. */
  predicate SkippedAre(es: seq<Entry>, list: seq<nat>, ps: seq<Placed>)
    requires |ps| <= |list| && forall k :: 0 <= k < |list| ==> list[k] < |es|
  {
    forall k :: 0 <= k < |ps| && ps[k].skipped ==> ps[k].d == Current(es[list[k]])
  }

  lemma {:induction false} TurnedDirents(es: seq<Entry>, list: seq<nat>, ps: seq<Placed>, src: seq<byte>)
    requires |ps| <= |list| && forall k :: 0 <= k < |list| ==> list[k] < |es|
    requires forall k, l :: 0 <= k < l < |list| ==> list[k] < list[l]
    requires SkippedAre(es, list, ps)
    ensures forall k :: 0 <= k < |ps| ==> Current(Turned(es, list, ps, src)[list[k]]) == ps[k].d
  {
    hide Current, Turned;
    forall k | 0 <= k < |ps| ensures Current(Turned(es, list, ps, src)[list[k]]) == ps[k].d {
      TurnedCurrent(es, list, ps, src, k);
    }
  }

  /** How many of the first `n` turns go well. */
  function Reached(es: seq<Entry>, list: seq<nat>, n: nat, src: seq<byte>, kept: nat, start: nat,
      again: nat -> Payload, crc: Crc): (j: nat)
    requires n <= |list| && forall k :: 0 <= k < |list| ==> list[k] < |es|
    ensures j <= n && Planned(es, list, j, src, kept, start, again, crc).Ok?
  {
    if Planned(es, list, n, src, kept, start, again, crc).Ok? then n
    else
      PlannedNothing(es, list, src, kept, start, again, crc);
      Reached(es, list, n - 1, src, kept, start, again, crc)
  }

  lemma {:induction false} ReachedAll(es: seq<Entry>, list: seq<nat>, src: seq<byte>, kept: nat, start: nat,
      again: nat -> Payload, crc: Crc)
    requires forall k :: 0 <= k < |list| ==> list[k] < |es|
    requires Planned(es, list, |list|, src, kept, start, again, crc).Ok?
    ensures Reached(es, list, |list|, src, kept, start, again, crc) == |list|
  {
    hide Planned;
  }

  lemma {:induction false} ReachedUpTo(es: seq<Entry>, list: seq<nat>, j: nat, n: nat, src: seq<byte>, kept: nat, start: nat,
      again: nat -> Payload, crc: Crc)
    requires j < n <= |list| && forall k :: 0 <= k < |list| ==> list[k] < |es|
    requires Planned(es, list, j, src, kept, start, again, crc).Ok?
    requires Planned(es, list, j + 1, src, kept, start, again, crc).Err?
    ensures Reached(es, list, n, src, kept, start, again, crc) == j
  {
    hide Planned;
    PlannedStops(es, list, j + 1, n, src, kept, start, again, crc);
    if j + 1 < n {
      ReachedUpTo(es, list, j, n - 1, src, kept, start, again, crc);
    }
  }

  /** A failed turn may leave its mark in the entry's changes and field lists, and nowhere else. */
  predicate OnlyChanges(e: Entry, now: Entry) {
    && now.source == e.source && now.deleted == e.deleted && now.changed == Cloned(e).changed && now.changes.Some?
    && (e.orig.None? ==> now.orig.None?)
    && (e.orig.Some? ==> now.orig.Some? && now.orig.value == e.orig.value.(fields := now.orig.value.fields))
  }

  /** What the main loop leaves of the entries, whether it comes to its end or not. */
  ghost predicate Attempted(now: seq<Entry>, es: seq<Entry>, list: seq<nat>, src: seq<byte>, kept: nat, start: nat,
      again: nat -> Payload, crc: Crc)
    requires forall k :: 0 <= k < |list| ==> list[k] < |es|
  {
    var j := Reached(es, list, |list|, src, kept, start, again, crc);
    var ps := Planned(es, list, j, src, kept, start, again, crc).value.placed;
    |ps| == j &&
    if j == |list| then now == Turned(es, list, ps, src)
    else |now| == |es| && now == Turned(es, list, ps, src)[list[j] := now[list[j]]] && OnlyChanges(es[list[j]], now[list[j]])
  }

  /** What the main loop has written, as long as every header fitted. */
  ghost predicate LaidSoFar(bytes: seq<byte>, pos: nat, start: seq<byte>, p0: nat, ps: seq<Placed>, crc: Crc) {
    p0 == |start| && AllFit(ps) ==> bytes == Laid(start, ps, crc) && |bytes| == pos
  }

  lemma {:induction false} LaidNext(bytes: seq<byte>, pos: nat, start: seq<byte>, p0: nat, ps: seq<Placed>, p: Placed,
      more: seq<byte>, crc: Crc)
    requires LaidSoFar(bytes, pos, start, p0, ps, crc)
    requires p.fits ==> |Block(p, crc)| == p.extent
    requires p.fits && pos == |bytes| ==> more == bytes + Block(p, crc)
    ensures LaidSoFar(more, pos + p.extent, start, p0, ps + [p], crc)
  {
    hide Laid, AllFit, Block;
    LaidMore(start, ps, p, crc);
  }

  lemma {:induction false} LaidMore(start: seq<byte>, ps: seq<Placed>, p: Placed, crc: Crc)
    ensures Laid(start, ps + [p], crc) == Laid(start, ps, crc) + Block(p, crc)
    ensures AllFit(ps + [p]) <==> AllFit(ps) && p.fits
  {
    assert (ps + [p])[..|ps|] == ps;
  }

  lemma {:induction false} DirentsOf(ps: seq<Placed>, ds: seq<Dirent>)
    requires |ds| == |ps| && forall k :: 0 <= k < |ps| ==> ds[k] == ps[k].d
    ensures ds == Dirents(ps)
  {}

  function SkippedAs(i: nat, e: Entry): Placed {
    Placed(i, true, Current(e), false, [], true, 0)
  }

  lemma {:induction false} PlannedStep(es: seq<Entry>, list: seq<nat>, n: nat, src: seq<byte>, kept: nat, start: nat,
      again: nat -> Payload, crc: Crc, l: Layout)
    requires n < |list| && forall k :: 0 <= k < |list| ==> list[k] < |es|
    requires Planned(es, list, n, src, kept, start, again, crc) == Ok(l)
    ensures var i, next := list[n], Planned(es, list, n + 1, src, kept, start, again, crc);
      if Skips(es[i], kept) then next == Ok(Layout(l.placed + [SkippedAs(i, es[i])], l.end))
      else match Rewritten(i, es[i], src, l.end, again(i), crc)
        case Ok(p) => next == Ok(Layout(l.placed + [p], l.end + p.extent))
        case Err(_) => next.Err? && Planned(es, list, |list|, src, kept, start, again, crc).Err?
  {
    hide Rewritten, Skips, Current;
    var i := list[n];
    if !Skips(es[i], kept) && Rewritten(i, es[i], src, l.end, again(i), crc).Err? {
      PlannedStops(es, list, n + 1, |list|, src, kept, start, again, crc);
    }
  }

  lemma {:induction false} PlannedStops(es: seq<Entry>, list: seq<nat>, m: nat, n: nat, src: seq<byte>, kept: nat,
      start: nat,
      again: nat -> Payload, crc: Crc)
    requires m <= n <= |list| && forall k :: 0 <= k < |list| ==> list[k] < |es|
    requires Planned(es, list, m, src, kept, start, again, crc).Err?
    ensures Planned(es, list, n, src, kept, start, again, crc).Err?
  {
    hide Rewritten, Skips, Current;
    if m < n {
      PlannedStops(es, list, m, n - 1, src, kept, start, again, crc);
    }
  }

  lemma {:induction false} PlannedNothing(es: seq<Entry>, list: seq<nat>, src: seq<byte>, kept: nat, start: nat,
      again: nat -> Payload, crc: Crc)
    requires forall k :: 0 <= k < |list| ==> list[k] < |es|
    ensures Planned(es, list, 0, src, kept, start, again, crc) == Ok(Layout([], start))
  {}

  lemma {:induction false} KeptInside(es: seq<Entry>, src: seq<byte>, cloning: bool, cloneAt: nat -> bool)
    ensures Kept(es, src, cloning, cloneAt).Ok? ==> Kept(es, src, cloning, cloneAt).value <= |src|
  {}

  /** What closing leaves of the entries. */
  ghost predicate AfterClosing(now: seq<Entry>, es: seq<Entry>, src: seq<byte>, prefix: nat, cloning: bool,
      cloneAt: nat -> bool, again: nat -> Payload, crc: Crc)
  {
    match Kept(es, src, cloning, cloneAt)
    case Err(_) => now == es
    case Ok(kept) => Attempted(now, es, Live(es), src, kept, kept + prefix, again, crc)
  }

  class Archive {
    var src: seq<byte> // the committed file
    var entries: seq<Entry>
    var comment: seq<byte>
    var commentChanged: bool
    var flagsChanged: bool
    var truncate: bool
    var prefix: Option<seq<byte>> // written before the first entry
    const again: nat -> Payload
    const crc: Crc
    const cloning: bool // whether the source can keep part of the old file at all
    const cloneAt: nat -> bool // and that much of it

    constructor (src: seq<byte>, entries: seq<Entry>, comment: seq<byte>, again: nat -> Payload, crc: Crc,
        cloning: bool, cloneAt: nat -> bool)
      ensures this.src == src && this.entries == entries && this.comment == comment
      ensures this.again == again && this.crc == crc && this.cloning == cloning && this.cloneAt == cloneAt
      ensures !commentChanged && !flagsChanged && !truncate && prefix == None
    {
      this.src, this.entries, this.comment := src, entries, comment;
      this.again, this.crc, this.cloning, this.cloneAt := again, crc, cloning, cloneAt;
      commentChanged, flagsChanged, truncate, prefix := false, false, false, None;
    }

    /** `_zip_changed`. */
    method CountSurvivors() returns (changed: bool, survivors: nat)
      ensures survivors == |Live(entries)|
      ensures changed == Dirty(entries, commentChanged || flagsChanged)
    {
      changed, survivors := commentChanged || flagsChanged, 0;
      assert entries[..0] == [];
      for i := 0 to |entries|
        invariant survivors == |Live(entries[..i])|
        invariant changed == (commentChanged || flagsChanged || exists k :: 0 <= k < i && HasChanges(entries[k]))
      {
        if HasChanges(entries[i]) {
          changed := true;
        }
        assert entries[..i + 1][..i] == entries[..i];
        if !entries[i].deleted {
          survivors := survivors + 1;
        }
      }
      assert entries[..|entries|] == entries;
    }

    /** The first loop of `zip_close`: the survivors, and the lowest offset of a changed old entry. */
    method ListSurvivors() returns (list: seq<nat>, lowest: Option<nat>)
      ensures list == Live(entries)
      ensures lowest == Lowest(entries)
    {
      list, lowest := [], None;
      assert entries[..0] == [];
      for i := 0 to |entries|
        invariant list == Live(entries[..i]) && lowest == Lowest(entries[..i])
      {
        assert entries[..i + 1][..i] == entries[..i];
        if entries[i].orig.Some? && HasChanges(entries[i]) {
          var offset := entries[i].orig.value.offset;
          lowest := if lowest.None? || offset < lowest.value then Some(offset) else lowest;
        }
        if !entries[i].deleted {
          list := list + [i];
        }
      }
      assert entries[..|entries|] == entries;
    }

    /** The search for the last old entry, whose end bounds what can be kept. */
    method FindLast() returns (last: Option<nat>)
      ensures last == Last(entries)
    {
      last := None;
      var highest := 0;
      assert entries[..0] == [];
      for i := 0 to |entries|
        invariant last == Last(entries[..i])
        invariant highest == if last.None? then 0 else OldOffset(entries, last.value)
        invariant last.Some? ==> last.value < i
      {
        assert entries[..i + 1][..i] == entries[..i];
        if entries[i].orig.Some? && entries[i].orig.value.offset >= highest {
          highest, last := entries[i].orig.value.offset, Some(i);
        }
      }
      assert entries[..|entries|] == entries;
    }

    /** How much of the old file to keep. */
    method DecideKept(lowest: Option<nat>) returns (r: Result<nat>)
      requires lowest == Lowest(entries)
      ensures r == Kept(entries, src, cloning, cloneAt)
    {
      var kept := 0;
      if !cloning {
        return Ok(0);
      }
      if lowest.Some? {
        kept := lowest.value;
      } else {
        var last := FindLast();
        if last.Some? {
          LastIsOld(entries);
          var end := DataEnd(src, entries[last.value].orig.value);
          if end.Err? {
            return Err(end.error);
          }
          kept := end.value;
        }
      }
      if kept > 0 && !(kept <= |src| && cloneAt(kept)) {
        kept := 0;
      }
      return Ok(kept);
    }

    method ParseLocalFields(at: nat) returns (r: Result<seq<Field>>)
      ensures r == LocalFields(src, at)
    {
      hide Parsed, Unused;
      if at + 26 > INT64_MAX {
        return Err(SeekRange);
      }
      if at + 26 > |src| {
        return Err(Invalid);
      }
      if at + LENTRYSIZE > |src| {
        return Err(EndOfFile);
      }
      var n, m := U16(src, at + 26) as nat, U16(src, at + 28) as nat;
      if m == 0 {
        return Ok([]);
      }
      if at + LENTRYSIZE + n > |src| {
        return Err(SeekRange);
      }
      if at + LENTRYSIZE + n + m > |src| {
        return Err(EndOfFile);
      }
      var fs := ExtraField.Parse(src[at + LENTRYSIZE + n..at + LENTRYSIZE + n + m], LOCAL);
      if fs.None? {
        return Err(Inconsistent);
      }
      var list := new FieldList(fs.value);
      list.RemoveInternal();
      return Ok(list.fields);
    }

    /** `_zip_read_local_ef`. */
    method ReadLocalFields(i: nat) returns (error: Option<Error>)
      requires i < |entries|
      modifies this`entries
      ensures error == match WithLocalFields(old(entries)[i], src) case Err(x) => Some(x) case Ok(_) => None
      ensures entries == match WithLocalFields(old(entries)[i], src)
        case Err(_) => old(entries)
        case Ok(e) => old(entries)[i := e]
    {
      hide LocalFields, Merged;
      var e := entries[i];
      if e.orig.None? || e.origLocalRead {
        return None;
      }
      var fs := ParseLocalFields(e.orig.value.offset);
      if fs.Err? {
        return Some(fs.error);
      }
      var list := new FieldList(e.orig.value.fields);
      list.Merge(fs.value);
      e := e.(orig := Some(e.orig.value.(fields := list.fields)), origLocalRead := true);
      if e.changes.Some? && !e.changesLocalRead {
        e := e.(changes := Some(e.changes.value.(fields := list.fields)), changesLocalRead := true);
      }
      entries := entries[i := e];
      return None;
    }

    /** `copy_data`: from the old file, in blocks of 8192 bytes. */
    method CopyData(out: Sink, start: nat, length: nat) returns (done: bool)
      requires out.Valid() && start <= |src|
      modifies out
      ensures out.Valid() && done == (start + length <= |src|)
      ensures done ==> out.bytes == Splice(old(out.bytes), old(out.pos), src[start..start + length])
      ensures done ==> out.pos == old(out.pos) + length
    {
      hide Splice;
      ghost var b0, p0 := out.bytes, out.pos;
      SpliceNothing(b0, p0);
      var n := 0;
      assert src[start..start] == [];
      while n < length
        invariant 0 <= n <= length && out.Valid() && start + n <= |src|
        invariant out.pos == p0 + n && out.bytes == Splice(b0, p0, src[start..start + n])
      {
        var block := if n + 8192 < length then 8192 else length - n;
        if start + n + block > |src| {
          return false;
        }
        SpliceTwice(b0, p0, src[start..start + n], src[start + n..start + n + block]);
        assert src[start..start + n] + src[start + n..start + n + block] == src[start..start + n + block];
        out.Write(src[start + n..start + n + block]);
        n := n + block;
      }
      done := true;
    }

    /** A survivor whose data stays: its header, then its data from the old file. */
    method CopyEntry(out: Sink, i: nat, from: Option<nat>, d: Dirent) returns (r: Option<Dirent>)
      requires out.Valid() && d.offset == out.pos
      modifies out
      ensures out.Valid()
      ensures r.Some? <==> Encodable(d, true) && Copied(i, from, d, src, crc).Ok?
      ensures r.Some? ==> var w := Copied(i, from, d, src, crc).value;
        && r.value == w.d && out.pos == old(out.pos) + w.extent
        && (old(out.pos) == |old(out.bytes)| ==> out.bytes == old(out.bytes) + Block(w, crc))
    {
      hide Splice, DirentBytes, Encodable, Block, Flagged, Flags, IsZip64, NeedsZip64, DataStart, WithBit;
      var f := WithoutDescriptor(d);
      EncodableOfSame(d, f);
      var w := Write(out, f, true, false, crc);
      if w.Err? || from.None? {
        return None;
      }
      var start := DataStart(src, from.value);
      if start.Err? || start.value > |src| {
        return None;
      }
      var copied := CopyData(out, start.value, d.compSize);
      if !copied {
        return None;
      }
      CopiedBlock(i, from, d, src, crc);
      SpliceTwice(old(out.bytes), old(out.pos), DirentBytes(f, true, false, crc), src[start.value..start.value + d.compSize]);
      SpliceEnd(old(out.bytes), Block(Copied(i, from, d, src, crc).value, crc));
      return Some(w.value.0);
    }

    /** A survivor with new data, which `add_data` writes. */
    method AddNew(out: Sink, i: nat, d: Dirent, p: Payload, stamped: bool) returns (r: Option<Dirent>)
      requires out.Valid() && d.offset == out.pos
      modifies out
      ensures out.Valid()
      ensures r.Some? <==> Encodable(d, true) && Added(i, d, p, stamped, crc).Ok?
      ensures r.Some? ==> var w := Added(i, d, p, stamped, crc).value;
        && r.value == w.d && out.pos == old(out.pos) + w.extent
        && (w.fits && old(out.pos) == |old(out.bytes)| ==> out.bytes == old(out.bytes) + Block(w, crc))
    {
      hide Splice, DirentBytes, Encodable, IsZip64, Zip64Length, Plan, VersionNeeded, WithLevel, Forced, NeedsZip64;
      ghost var b0 := out.bytes;
      var w := AddEntry(out, d, p, stamped, crc);
      if w.Err? {
        return None;
      }
      AddedBlock(i, d, p, stamped, crc);
      if Added(i, d, p, stamped, crc).value.fits && d.offset == |b0| {
        RewriteKeepsData(b0, Preheader(d, p, crc), p.bytes, Header(d, p, stamped, crc));
        Associative(b0, Header(d, p, stamped, crc), p.bytes);
      }
      return Some(w.value);
    }

    /** One turn of the main loop, for a survivor that is not skipped. */
    method PlaceEntry(out: Sink, i: nat) returns (done: bool)
      requires out.Valid() && i < |entries|
      modifies this`entries, out
      ensures out.Valid()
      ensures done == Rewritten(i, old(entries)[i], src, old(out.pos), again(i), crc).Ok?
      ensures !done ==> |entries| == |old(entries)| && entries == old(entries)[i := entries[i]]
      ensures !done ==> OnlyChanges(old(entries)[i], entries[i])
      ensures done ==> var w := Rewritten(i, old(entries)[i], src, old(out.pos), again(i), crc).value;
        && entries == old(entries)[i := Settled(old(entries)[i], src, w.d)]
        && out.pos == old(out.pos) + w.extent
        && (w.fits && old(out.pos) == |old(out.bytes)| ==> out.bytes == old(out.bytes) + Block(w, crc))
    {
      hide WithLocalFields, Encodable, Added, Copied, Block, Splice, Settled, OnlyChanges;
      ghost var e0 := entries[i];
      var newData := NeedsNewData(entries[i]);
      entries := entries[i := Cloned(entries[i])];
      ClonedOnly(e0);
      var error := ReadLocalFields(i);
      if error.Some? {
        return false;
      }
      SettledOnly(e0, src, Current(entries[i]));
      var at := out.Tell();
      if at.Err? {
        return false;
      }
      var d := entries[i].changes.value.(offset := at.value);
      SettledOnly(e0, src, d);
      entries := entries[i := entries[i].(changes := Some(d))];
      var w;
      if newData {
        if entries[i].source.None? && entries[i].orig.None? {
          return false;
        }
        w := AddNew(out, i, d, entries[i].source.GetOr(again(i)), entries[i].changed.lastMod);
      } else {
        w := CopyEntry(out, i, Origin(entries[i]), d);
      }
      if w.None? {
        return false;
      }
      SettledOnly(e0, src, w.value);
      entries := entries[i := entries[i].(changes := w)];
      done := true;
    }

    /** The main loop of `zip_close`. */
    method PlaceEntries(out: Sink, list: seq<nat>, kept: nat) returns (done: bool)
      requires out.Valid() && list == Live(entries)
      modifies this`entries, out
      ensures out.Valid()
      ensures Attempted(entries, old(entries), list, src, kept, old(out.pos), again, crc)
      ensures var l := Planned(old(entries), list, |list|, src, kept, old(out.pos), again, crc);
        && done == l.Ok?
        && (done ==> l.value.end == out.pos && |l.value.placed| == |list|)
        && (done ==> entries == Turned(old(entries), list, l.value.placed, src) && SkippedAre(old(entries), list, l.value.placed))
        && (done ==> LaidSoFar(out.bytes, out.pos, old(out.bytes), old(out.pos), l.value.placed, crc))
    {
      hide Rewritten, Block, Laid, Live, AllFit, Planned, Skips, LaidSoFar, Sink.Valid, Turned, Settled, Reached, OnlyChanges;
      ghost var es, b0, p0 := entries, out.bytes, out.pos;
      ghost var l := Layout([], p0);
      LaidNothing(b0, p0, crc);
      TurnedNone(es, list, src);
      PlannedNothing(es, list, src, kept, p0, again, crc);
      for j := 0 to |list|
        invariant out.Valid() && |l.placed| == j && entries == Turned(es, list, l.placed, src)
        invariant SkippedAre(es, list, l.placed)
        invariant Planned(es, list, j, src, kept, p0, again, crc) == Ok(l) && l.end == out.pos
        invariant LaidSoFar(out.bytes, out.pos, b0, p0, l.placed, crc)
      {
        var i := list[j];
        ghost var ps, before, bytes := l.placed, entries, out.bytes;
        TurnedLater(es, list, ps, src, i);
        PlannedStep(es, list, j, src, kept, p0, again, crc, l);
        if Skips(entries[i], kept) {
          l := Layout(ps + [SkippedAs(i, entries[i])], l.end);
          SkippedBlock(i, entries[i], bytes, crc);
        } else {
          ghost var r := Rewritten(i, entries[i], src, out.pos, again(i), crc);
          if r.Ok? {
            RewrittenBlock(i, entries[i], src, out.pos, again(i), crc);
          }
          var placed := PlaceEntry(out, i);
          if !placed {
            ReachedUpTo(es, list, j, |list|, src, kept, p0, again, crc);
            return false;
          }
          l := Layout(ps + [r.value], l.end + r.value.extent);
        }
        TurnedMore(es, list, ps, l.placed[j], src);
        LaidNext(bytes, out.pos - l.placed[j].extent, b0, p0, ps, l.placed[j], out.bytes, crc);
      }
      ReachedAll(es, list, src, kept, p0, again, crc);
      done := true;
    }

    /** What `_zip_cdir_write` says of each survivor: its changes, or what it was. */
    method Survivors(list: seq<nat>) returns (ds: seq<Dirent>)
      requires forall k :: 0 <= k < |list| ==> list[k] < |entries|
      ensures |ds| == |list| && forall k :: 0 <= k < |list| ==> ds[k] == Current(entries[list[k]])
    {
      ds := [];
      for k := 0 to |list|
        invariant |ds| == k && forall m :: 0 <= m < k ==> ds[m] == Current(entries[list[m]])
      {
        var e := entries[list[k]];
        ds := ds + [if e.changes.Some? then e.changes.value else e.orig.GetOr(BLANK)];
      }
    }

    /** The new file, written next to the old one. */
    method WriteNew(list: seq<nat>, lowest: Option<nat>) returns (file: Option<seq<byte>>)
      requires list == Live(entries) && lowest == Lowest(entries)
      modifies this`entries
      ensures AfterClosing(entries, old(entries), src, |prefix.GetOr([])|, cloning, cloneAt, again, crc)
      ensures var r := Closing(old(entries), src, |prefix.GetOr([])|, cloning, cloneAt, again, crc);
        && file.Some? == (r.Ok? && Writable(r.value.1, crc))
        && (file.Some? && AllFit(r.value.1.placed) ==>
            Replaced(file.value, src, r.value.0, prefix.GetOr([]), r.value.1.placed, comment, crc))
    {
      hide Live, Planned, Laid, Kept, CentralBytes, DirectoryBytes, AllFit, Splice, AllEncodable, Dirents, Current, Attempted, Turned;
      ghost var es := entries;
      var kept := DecideKept(lowest);
      if kept.Err? {
        return None;
      }
      KeptInside(entries, src, cloning, cloneAt);
      var out := new Sink(src[..kept.value]);
      if prefix.Some? {
        SpliceEnd(out.bytes, prefix.value);
        out.Write(prefix.value);
      }
      assert out.bytes == src[..kept.value] + prefix.GetOr([]);
      var placed := PlaceEntries(out, list, kept.value);
      if !placed {
        return None;
      }
      ghost var l := Planned(es, list, |list|, src, kept.value, kept.value + |prefix.GetOr([])|, again, crc).value;
      TurnedDirents(es, list, l.placed, src);
      var ds := Survivors(list);
      DirentsOf(l.placed, ds);
      ghost var pre := out.bytes;
      var size := WriteDirectory(out, ds, comment, crc);
      if size.Err? {
        return None;
      }
      if AllFit(l.placed) {
        SpliceEnd(pre, DirectoryBytes(ds, |pre|, comment, crc));
      }
      return Some(out.bytes);
    }

    /** `zip_close`. Nothing of an unsuccessful write is committed, but the entries keep what it did to
        their changes. */
    method Close() returns (done: bool)
      modifies this`entries, this`src
      ensures Live(old(entries)) == [] && (truncate || Dirty(old(entries), commentChanged || flagsChanged)) ==> done && src == []
      ensures Live(old(entries)) == [] && !truncate && !Dirty(old(entries), commentChanged || flagsChanged) ==>
        done && src == old(src)
      ensures Live(old(entries)) != [] && !Dirty(old(entries), commentChanged || flagsChanged) ==>
        done && src == old(src)
      ensures Live(old(entries)) != [] && Dirty(old(entries), commentChanged || flagsChanged) ==>
        var r := Closing(old(entries), old(src), |prefix.GetOr([])|, cloning, cloneAt, again, crc);
        && done == (r.Ok? && Writable(r.value.1, crc))
        && (done && AllFit(r.value.1.placed) ==>
            Replaced(src, old(src), r.value.0, prefix.GetOr([]), r.value.1.placed, comment, crc))
      ensures !done ==> src == old(src)
      ensures Live(old(entries)) == [] || !Dirty(old(entries), commentChanged || flagsChanged) ==> entries == old(entries)
      ensures Live(old(entries)) != [] && Dirty(old(entries), commentChanged || flagsChanged) ==>
        AfterClosing(entries, old(entries), old(src), |prefix.GetOr([])|, cloning, cloneAt, again, crc)
    {
      hide Live, AfterClosing, Closing, Writable, Replaced, AllFit, Dirty;
      var changed, survivors := CountSurvivors();
      if survivors == 0 {
        if truncate || changed {
          src := [];
        }
        return true;
      }
      if !changed {
        return true;
      }
      var list, lowest := ListSurvivors();
      var file := WriteNew(list, lowest);
      if file.None? {
        return false;
      }
      src := file.value;
      return true;
    }
  }

  /** Reading the local fields touches nothing but field lists. */
  lemma {:induction false} KeepsAll(e: Entry, src: seq<byte>)
    requires WithLocalFields(e, src).Ok?
    ensures var f := WithLocalFields(e, src).value;
      && f.source == e.source && f.changed == e.changed && f.deleted == e.deleted
      && (f.orig.Some? <==> e.orig.Some?)
      && (e.orig.Some? ==> f.orig.value == e.orig.value.(fields := f.orig.value.fields))
      && (f.changes.Some? <==> e.changes.Some?)
  {
    hide LocalFields, Merged;
  }

  lemma {:induction false} ClonedOnly(e: Entry)
    ensures OnlyChanges(e, Cloned(e))
  {}

  lemma {:induction false} SettledOnly(e: Entry, src: seq<byte>, d: Dirent)
    requires WithLocalFields(Cloned(e), src).Ok?
    ensures var f := WithLocalFields(Cloned(e), src).value;
      && Settled(e, src, d) == f.(changes := Some(d)) && OnlyChanges(e, f) && OnlyChanges(e, f.(changes := Some(d)))
      && f.changes.Some? && f.changed == Cloned(e).changed && f.source == e.source && Origin(f) == Origin(e)
  {
    hide WithLocalFields;
    KeepsAll(Cloned(e), src);
  }

  function OldOffset(es: seq<Entry>, i: nat): nat {
    if i < |es| && es[i].orig.Some? then es[i].orig.value.offset else 0
  }

  /** The lowest offset of an old entry that has changes. */
  function Lowest(es: seq<Entry>): Option<nat> {
    if es == [] then None
    else
      var n := |es| - 1;
      var l := Lowest(es[..n]);
      if es[n].orig.Some? && HasChanges(es[n]) && (l.None? || es[n].orig.value.offset < l.value)
      then Some(es[n].orig.value.offset) else l
  }

  /** The old entry with the highest offset. */
  function Last(es: seq<Entry>): (r: Option<nat>)
    ensures r.Some? ==> r.value < |es|
  {
    if es == [] then None
    else
      var n := |es| - 1;
      var l := Last(es[..n]);
      if es[n].orig.Some? && (l.None? || es[n].orig.value.offset >= OldOffset(es[..n], l.value)) then Some(n) else l
  }

  lemma {:induction false} LastIsOld(es: seq<Entry>)
    ensures Last(es).Some? ==> es[Last(es).value].orig.Some?
    ensures forall i :: 0 <= i < |es| && es[i].orig.Some? ==>
      Last(es).Some? && es[i].orig.value.offset <= OldOffset(es, Last(es).value)
  {
    if es != [] {
      LastIsOld(es[..|es| - 1]);
      assert forall i :: 0 <= i < |es| - 1 ==> es[..|es| - 1][i] == es[i];
    }
  }

  /** The length of the old file that is kept in place; 0 where cloning does not apply. */
  function Kept(es: seq<Entry>, src: seq<byte>, cloning: bool, cloneAt: nat -> bool): Result<nat> {
    LastIsOld(es);
    var wanted :=
      if !cloning then Ok(0)
      else if Lowest(es).Some? then Ok(Lowest(es).value)
      else if Last(es).None? then Ok(0)
      else DataEnd(src, es[Last(es).value].orig.value);
    if wanted.Err? then wanted
    else if wanted.value > 0 && !(wanted.value <= |src| && cloneAt(wanted.value)) then Ok(0)
    else wanted
  }
}
