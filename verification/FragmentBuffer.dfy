/**
 The growing memory buffer made of fragments (zip_source_buffer.c): fragments lie in an explicit heap,
 so that sharing, double frees and leaks can be spoken of.
 */
module FragmentBuffer {
  import opened Bytes
  import opened ZipBuffer
  import opened Output

  const WRITE_FRAGMENT_SIZE: nat := 65536

  type Memory = map<nat, seq<byte>>

  /** Allocated memory: blocks by address. Only a live block can be freed. */
  class Heap {
    var blocks: Memory
    var next: nat

    ghost predicate Valid()
      reads this
    {
      forall id :: id in blocks ==> id < next
    }

    constructor ()
      ensures Valid() && blocks == map[]
    {
      blocks, next := map[], 0;
    }

    method Malloc(size: nat) returns (id: nat)
      requires Valid()
      modifies this
      ensures Valid() && id !in old(blocks) && id in blocks && |blocks[id]| == size
      ensures blocks == old(blocks)[id := blocks[id]]
    {
      id := next;
      blocks, next := blocks[id := seq(size, _ => 0)], next + 1;
    }

    method Free(id: nat)
      requires Valid() && id in blocks
      modifies this
      ensures Valid() && blocks == old(blocks) - {id}
    {
      blocks := blocks - {id};
    }

    method Store(id: nat, at: nat, data: seq<byte>)
      requires Valid() && id in blocks && at + |data| <= |blocks[id]|
      modifies this
      ensures Valid() && blocks == old(blocks)[id := Splice(old(blocks)[id], at, data)]
    {
      blocks := blocks[id := Splice(blocks[id], at, data)];
    }
  }

  datatype Fragment = Fragment(id: nat, length: nat)

  /** The total length of the first `k` fragments. */
  function Before(fs: seq<Fragment>, k: nat): nat
    requires k <= |fs|
  {
    if k == 0 then 0 else Before(fs, k - 1) + fs[k - 1].length
  }

  ghost predicate Backed(fs: seq<Fragment>, mem: Memory) {
    forall i :: 0 <= i < |fs| ==> fs[i].id in mem && 0 < fs[i].length <= |mem[fs[i].id]|
  }

  ghost predicate Distinct(fs: seq<Fragment>) {
    forall i, j :: 0 <= i < j < |fs| ==> fs[i].id != fs[j].id
  }

  /** The bytes of the first `k` fragments, one after the other. */
  ghost function Flat(fs: seq<Fragment>, mem: Memory, k: nat): (s: seq<byte>)
    requires k <= |fs| && Backed(fs, mem)
    ensures |s| == Before(fs, k)
  {
    if k == 0 then [] else Flat(fs, mem, k - 1) + mem[fs[k - 1].id][..fs[k - 1].length]
  }

  lemma {:induction false} BeforeMonotonic(fs: seq<Fragment>, j: nat, k: nat)
    requires j <= k <= |fs|
    ensures Before(fs, j) <= Before(fs, k)
  {
    if j < k {
      BeforeMonotonic(fs, j, k - 1);
    }
  }

  lemma {:induction false} SliceOfSlice<T>(s: seq<T>, b: nat, c: nat, x: nat, y: nat)
    requires b <= c <= |s| && x <= y <= c - b
    ensures s[b..c][x..y] == s[b + x..b + y]
  {
    assert forall i :: 0 <= i < y - x ==> s[b..c][x..y][i] == s[b..c][x + i] == s[b + x + i] == s[b + x..b + y][i];
  }

  lemma {:induction false} Joined<T>(s: seq<T>, x: nat, y: nat, z: nat)
    requires x <= y <= z <= |s|
    ensures s[x..y] + s[y..z] == s[x..z]
  {}

  lemma {:induction false} SliceOfSum<T>(s: seq<T>, t: seq<T>, x: nat, y: nat)
    requires x <= y <= |s|
    ensures (s + t)[x..y] == s[x..y] && (s + t)[|s|..] == t
  {}

  /** The part of the flat view that fragment `i` holds. */
  lemma {:induction false} FlatSlice(fs: seq<Fragment>, mem: Memory, i: nat, k: nat)
    requires i < k <= |fs| && Backed(fs, mem)
    ensures Before(fs, i + 1) == Before(fs, i) + fs[i].length <= Before(fs, k)
    ensures Flat(fs, mem, k)[Before(fs, i)..Before(fs, i + 1)] == mem[fs[i].id][..fs[i].length]
  {
    var s, last := Flat(fs, mem, k - 1), mem[fs[k - 1].id][..fs[k - 1].length];
    if i + 1 < k {
      FlatSlice(fs, mem, i, k - 1);
      SliceOfSum(s, last, Before(fs, i), Before(fs, i + 1));
    } else {
      SliceOfSum(s, last, 0, 0);
    }
  }

  /** Bytes read out of one fragment. */
  lemma {:induction false} FlatPiece(fs: seq<Fragment>, mem: Memory, i: nat, at: nat, n: nat)
    requires i < |fs| && Backed(fs, mem) && at + n <= fs[i].length
    ensures Before(fs, i) + at + n <= Before(fs, |fs|)
    ensures fs[i].id in mem && fs[i].length <= |mem[fs[i].id]|
    ensures mem[fs[i].id][at..at + n] == Flat(fs, mem, |fs|)[Before(fs, i) + at..Before(fs, i) + at + n]
  {
    FlatSlice(fs, mem, i, |fs|);
    hide Flat;
    SliceOfSlice(Flat(fs, mem, |fs|), Before(fs, i), Before(fs, i + 1), at, at + n);
    SliceOfSlice(mem[fs[i].id], 0, fs[i].length, at, at + n);
  }

  /** Two lists of fragments with the same bytes. */
  lemma {:induction false} FlatSame(fs: seq<Fragment>, gs: seq<Fragment>, mem: Memory, now: Memory, k: nat)
    requires k <= |fs| && k <= |gs| && Backed(fs, mem) && Backed(gs, now)
    requires forall i :: 0 <= i < k ==> fs[i].length == gs[i].length
    requires forall i :: 0 <= i < k ==> mem[fs[i].id][..fs[i].length] == now[gs[i].id][..gs[i].length]
    ensures Before(fs, k) == Before(gs, k) && Flat(fs, mem, k) == Flat(gs, now, k)
  {
    if k > 0 {
      FlatSame(fs, gs, mem, now, k - 1);
    }
  }

  lemma {:induction false} SpliceInside(a: seq<byte>, b: seq<byte>, at: nat, data: seq<byte>)
    requires at + |data| <= |a|
    ensures Splice(a + b, at, data) == Splice(a, at, data) + b
  {}

  lemma {:induction false} SpliceBehind(a: seq<byte>, b: seq<byte>, at: nat, data: seq<byte>)
    requires at + |data| <= |b|
    ensures Splice(a + b, |a| + at, data) == a + Splice(b, at, data)
  {}

  lemma {:induction false} SplicePrefix(b: seq<byte>, at: nat, data: seq<byte>, n: nat)
    requires at + |data| <= n <= |b|
    ensures Splice(b, at, data)[..n] == Splice(b[..n], at, data)
  {}

  /** Storing into one fragment overwrites just its place in the flat view. */
  lemma {:induction false} StoreFlat(fs: seq<Fragment>, mem: Memory, i: nat, at: nat, data: seq<byte>, k: nat)
    requires i < k <= |fs| && Backed(fs, mem) && Distinct(fs) && at + |data| <= fs[i].length
    ensures var now := mem[fs[i].id := Splice(mem[fs[i].id], at, data)];
      && Backed(fs, now) && Before(fs, i) + at + |data| <= Before(fs, k)
      && Flat(fs, now, k) == Splice(Flat(fs, mem, k), Before(fs, i) + at, data)
  {
    hide Splice;
    var now := mem[fs[i].id := Splice(mem[fs[i].id], at, data)];
    var last := mem[fs[k - 1].id][..fs[k - 1].length];
    SpliceSize(mem[fs[i].id], at, data);
    if i + 1 < k {
      StoreFlat(fs, mem, i, at, data, k - 1);
      SpliceInside(Flat(fs, mem, k - 1), last, Before(fs, i) + at, data);
    } else {
      FlatSame(fs, fs, mem, now, k - 1);
      SplicePrefix(mem[fs[i].id], at, data, fs[i].length);
      SpliceBehind(Flat(fs, mem, k - 1), last, at, data);
    }
  }

  lemma {:induction false} SpliceSize(b: seq<byte>, at: nat, data: seq<byte>)
    requires at + |data| <= |b|
    ensures |Splice(b, at, data)| == |b|
  {}

  /** A list of fragments and the memory after fresh fragments have been added to it. */
  ghost predicate Extended(fs: seq<Fragment>, mem: Memory, gs: seq<Fragment>, now: Memory) {
    && fs <= gs
    && (forall k :: |fs| <= k < |gs| ==> gs[k].id !in mem)
    && (forall id :: id in mem ==> id in now && now[id] == mem[id])
    && (forall id :: id in now ==> id in mem || exists k :: |fs| <= k < |gs| && gs[k].id == id)
  }

  lemma {:induction false} ExtendedNothing(fs: seq<Fragment>, mem: Memory)
    ensures Extended(fs, mem, fs, mem)
  {}

  lemma {:induction false} ExtendedMore(f: seq<Fragment>, m: Memory, fs: seq<Fragment>, mem: Memory, g: Fragment,
      now: Memory)
    requires Extended(f, m, fs, mem) && g.id !in mem && g.id in now && now == mem[g.id := now[g.id]]
    ensures Extended(f, m, fs + [g], now)
  {
    assert (fs + [g])[|fs|].id == g.id;
    forall id | id in now && id !in m ensures exists k :: |f| <= k < |fs| + 1 && (fs + [g])[k].id == id {
      if id in mem {
        var k :| |f| <= k < |fs| && fs[k].id == id;
        assert (fs + [g])[k].id == id;
      }
    }
  }

  lemma {:induction false} BeforeOfMore(fs: seq<Fragment>, g: Fragment, k: nat)
    requires k <= |fs| + 1
    ensures Before(fs + [g], k) == if k <= |fs| then Before(fs, k) else Before(fs, |fs|) + g.length
  {
    if k > 0 {
      BeforeOfMore(fs, g, k - 1);
    }
  }

  lemma {:induction false} FlatPrefix(fs: seq<Fragment>, gs: seq<Fragment>, mem: Memory, now: Memory, k: nat)
    requires |fs| <= k <= |gs| && fs <= gs && Backed(fs, mem) && Backed(gs, now)
    requires forall i :: 0 <= i < |fs| ==> now[fs[i].id] == mem[fs[i].id]
    ensures Flat(fs, mem, |fs|) <= Flat(gs, now, k)
  {
    if k == |fs| {
      FlatSame(fs, gs, mem, now, k);
    } else {
      FlatPrefix(fs, gs, mem, now, k - 1);
    }
  }

  lemma {:induction false} ExtendedContents(fs: seq<Fragment>, mem: Memory, gs: seq<Fragment>, now: Memory, size: nat)
    requires Backed(fs, mem) && Backed(gs, now) && Extended(fs, mem, gs, now) && size <= Before(fs, |fs|)
    ensures size <= Before(gs, |gs|) && Flat(gs, now, |gs|)[..size] == Flat(fs, mem, |fs|)[..size]
  {
    hide Flat, Before;
    FlatPrefix(fs, gs, mem, now, |gs|);
    assert Flat(fs, mem, |fs|) == Flat(gs, now, |gs|)[..Before(fs, |fs|)];
    SliceOfSlice(Flat(gs, now, |gs|), 0, Before(fs, |fs|), 0, size);
  }

  /** What writing from `start` on leaves alone: other blocks, the fragments before, and of every block
      whatever lies behind the fragment. */
  ghost predicate Touched(fs: seq<Fragment>, mem: Memory, now: Memory, start: nat) {
    && mem.Keys == now.Keys
    && (forall id :: id in mem && (forall k :: 0 <= k < |fs| ==> fs[k].id != id) ==> now[id] == mem[id])
    && (forall k :: 0 <= k < |fs| && Before(fs, k + 1) <= start && fs[k].id in mem ==> now[fs[k].id] == mem[fs[k].id])
    && (forall k :: 0 <= k < |fs| && fs[k].id in mem && fs[k].length <= |mem[fs[k].id]| ==>
          |now[fs[k].id]| == |mem[fs[k].id]| && now[fs[k].id][fs[k].length..] == mem[fs[k].id][fs[k].length..])
  }

  /** What a write does to the fragments and to memory: growth, then copying. */
  ghost predicate Wrote(fs: seq<Fragment>, mem: Memory, gs: seq<Fragment>, now: Memory, start: nat) {
    exists m :: Extended(fs, mem, gs, m) && Backed(gs, m) && Touched(gs, m, now, start)
  }

  lemma {:induction false} TouchedNothing(fs: seq<Fragment>, mem: Memory, start: nat)
    ensures Touched(fs, mem, mem, start)
  {}

  lemma {:induction false} StoreTouched(fs: seq<Fragment>, m0: Memory, mem: Memory, start: nat, i: nat, at: nat,
      data: seq<byte>)
    requires Touched(fs, m0, mem, start) && i < |fs| && Backed(fs, mem) && Distinct(fs)
    requires at + |data| <= fs[i].length && Before(fs, i) + at >= start
    ensures Touched(fs, m0, mem[fs[i].id := Splice(mem[fs[i].id], at, data)], start)
  {
    var b, id := mem[fs[i].id], fs[i].id;
    var c := Splice(b, at, data);
    SpliceTail(b, at, data, fs[i].length);
    if Before(fs, i + 1) <= start {
      SpliceNothing(b, at);
    }
    TouchedBlock(fs, m0, mem, start, i, c);
  }

  lemma {:induction false} TouchedBlock(fs: seq<Fragment>, m0: Memory, mem: Memory, start: nat, i: nat, c: seq<byte>)
    requires Touched(fs, m0, mem, start) && i < |fs| && fs[i].id in mem && Distinct(fs) && fs[i].length <= |mem[fs[i].id]|
    requires Before(fs, i + 1) <= start ==> c == mem[fs[i].id]
    requires |c| == |mem[fs[i].id]| && c[fs[i].length..] == mem[fs[i].id][fs[i].length..]
    ensures Touched(fs, m0, mem[fs[i].id := c], start)
  {
    hide Before;
    var now := mem[fs[i].id := c];
    assert m0.Keys == now.Keys;
    assert forall k :: 0 <= k < |fs| && k != i ==> fs[k].id != fs[i].id;
  }

  lemma {:induction false} SpliceTail(b: seq<byte>, at: nat, data: seq<byte>, n: nat)
    requires at + |data| <= n <= |b|
    ensures |Splice(b, at, data)| == |b| && Splice(b, at, data)[n..] == b[n..]
  {}

  lemma {:induction false} SpliceContents(flat: seq<byte>, at: nat, data: seq<byte>, size: nat)
    requires at <= size <= |flat| && at + |data| <= |flat|
    ensures var end := if at + |data| > size then at + |data| else size;
      |Splice(flat, at, data)| == |flat| && Splice(flat, at, data)[..end] == Splice(flat[..size], at, data)
  {}

  datatype Whence = FromStart | FromHere | FromEnd

  /** `zip_source_seek_compute_offset`. */
  function SeekTarget(offset: nat, length: nat, whence: Whence, delta: int): Option<nat> {
    var to := match whence case FromStart => delta case FromHere => offset + delta case FromEnd => length + delta;
    if 0 <= to <= length then Some(to) else None
  }

  lemma {:induction false} NextOffset(fs: seq<Fragment>, k: nat)
    requires k < |fs|
    ensures Before(fs, k + 1) == Before(fs, k) + fs[k].length
  {}

  lemma {:induction false} StartsAtZero(fs: seq<Fragment>)
    ensures Before(fs, 0) == 0
  {}

  /** The search starts in the middle of a table of one offset more than there are fragments: it stays
      within it, in 64-bit arithmetic, if and only if there is a fragment. */
  lemma {:induction false} FirstProbe(n: nat)
    requires n < TWO_TO_THE_64
    ensures var high := (n - 1) % TWO_TO_THE_64; (high > 0 ==> high / 2 < n + 1) <==> n > 0
  {
    if n > 0 {
      assert (n - 1) % TWO_TO_THE_64 == n - 1;
    } else {
      assert -1 % TWO_TO_THE_64 == TWO_TO_THE_64 - 1;
    }
  }

  lemma {:induction false} NotEmpty(fs: seq<Fragment>, at: nat)
    requires 0 < at <= Before(fs, |fs|)
    ensures fs != []
  {}

  lemma {:induction false} BackedIsPositive(fs: seq<Fragment>, mem: Memory)
    requires Backed(fs, mem)
    ensures forall k :: 0 <= k < |fs| ==> fs[k].length > 0
  {}

  lemma {:induction false} EmptyIsIn(mem: Memory)
    ensures Backed([], mem) && Distinct([])
  {}

  /** The first `at` bytes of a list of fragments: some of them, the last one cut. */
  ghost predicate CutOf(cs: seq<Fragment>, fs: seq<Fragment>, at: nat) {
    && 0 < |cs| <= |fs| && Before(cs, |cs|) == at
    && (forall k :: 0 <= k < |cs| ==> cs[k].id == fs[k].id)
    && (forall k :: 0 <= k < |cs| - 1 ==> cs[k].length == fs[k].length)
    && 0 < cs[|cs| - 1].length <= fs[|cs| - 1].length
  }

  /** How much of the fragment that holds byte `at - 1` lies behind it. */
  ghost function Waste(fs: seq<Fragment>, at: nat): int
    decreases |fs|
  {
    if fs == [] || at <= 0 then 0
    else if at > Before(fs, |fs| - 1) then Before(fs, |fs|) - at
    else Waste(fs[..|fs| - 1], at)
  }

  lemma {:induction false} BeforePrefix(fs: seq<Fragment>, gs: seq<Fragment>, k: nat)
    requires k <= |fs| && k <= |gs| && forall i :: 0 <= i < k ==> fs[i].length == gs[i].length
    ensures Before(fs, k) == Before(gs, k)
  {
    if k > 0 {
      BeforePrefix(fs, gs, k - 1);
    }
  }

  lemma {:induction false} WasteIs(fs: seq<Fragment>, f: nat, at: nat)
    requires f < |fs| && Before(fs, f) < at <= Before(fs, f + 1)
    ensures Waste(fs, at) == Before(fs, f) + fs[f].length - at
    decreases |fs|
  {
    BeforeMonotonic(fs, f + 1, |fs|);
    if f + 1 < |fs| {
      BeforeMonotonic(fs, f + 1, |fs| - 1);
      var shorter := fs[..|fs| - 1];
      BeforePrefix(fs, shorter, f);
      BeforePrefix(fs, shorter, f + 1);
      WasteIs(shorter, f, at);
    }
  }

  lemma {:induction false} CutFlat(fs: seq<Fragment>, mem: Memory, f: nat, inside: nat, at: nat)
    requires Backed(fs, mem) && Distinct(fs) && f < |fs| && 0 < inside <= fs[f].length && Before(fs, f) + inside == at
    ensures var cs := fs[..f] + [Fragment(fs[f].id, inside)];
      && CutOf(cs, fs, at) && Backed(cs, mem) && Distinct(cs) && at <= Before(fs, |fs|)
      && Flat(cs, mem, |cs|) == Flat(fs, mem, |fs|)[..at]
  {
    var cs := fs[..f] + [Fragment(fs[f].id, inside)];
    BeforePrefix(fs, cs, f);
    BeforeMonotonic(fs, f + 1, |fs|);
    CutIs(cs, fs, mem, at);
  }

  lemma {:induction false} CutIs(cs: seq<Fragment>, fs: seq<Fragment>, mem: Memory, at: nat)
    requires Backed(fs, mem) && Distinct(fs) && CutOf(cs, fs, at)
    ensures Backed(cs, mem) && at <= Before(fs, |fs|) && Flat(cs, mem, |cs|) == Flat(fs, mem, |fs|)[..at]
  {
    hide Flat, Before;
    var f := |cs| - 1;
    CutParts(cs, fs, mem, at);
    FlatSlice(fs, mem, f, |fs|);
    FlatTake(fs, mem, f);
    TakeMore(Flat(fs, mem, |fs|), Flat(fs, mem, f), mem[fs[f].id], fs[f].length, cs[f].length);
  }

  lemma {:induction false} CutParts(cs: seq<Fragment>, fs: seq<Fragment>, mem: Memory, at: nat)
    requires Backed(fs, mem) && CutOf(cs, fs, at)
    ensures var f := |cs| - 1;
      && Backed(cs, mem) && Before(fs, f) + cs[f].length == at
      && Flat(cs, mem, |cs|) == Flat(fs, mem, f) + mem[fs[f].id][..cs[f].length]
  {
    hide Flat, Before, Backed, CutOf;
    var f := |cs| - 1;
    CutBacked(cs, fs, mem, at);
    FlatSame(cs, fs, mem, mem, f);
    FlatNext(cs, mem, f);
  }

  lemma {:induction false} CutBacked(cs: seq<Fragment>, fs: seq<Fragment>, mem: Memory, at: nat)
    requires Backed(fs, mem) && CutOf(cs, fs, at)
    ensures Backed(cs, mem)
    ensures 0 < |cs| <= |fs| && Before(cs, |cs|) == at && cs[|cs| - 1].id == fs[|cs| - 1].id
    ensures forall k :: 0 <= k < |cs| - 1 ==> cs[k] == fs[k]
  {
    hide Before;
    forall k | 0 <= k < |cs| ensures cs[k].id in mem && 0 < cs[k].length <= |mem[cs[k].id]| {
      assert fs[k].id in mem && 0 < fs[k].length <= |mem[fs[k].id]|;
    }
  }

  lemma {:induction false} FlatNext(fs: seq<Fragment>, mem: Memory, k: nat)
    requires k < |fs| && Backed(fs, mem)
    ensures Before(fs, k + 1) == Before(fs, k) + fs[k].length
    ensures Flat(fs, mem, k + 1) == Flat(fs, mem, k) + mem[fs[k].id][..fs[k].length]
  {}

  lemma {:induction false} TakeMore(s: seq<byte>, p: seq<byte>, block: seq<byte>, length: nat, n: nat)
    requires |p| + length <= |s| && n <= length <= |block|
    requires s[..|p|] == p && s[|p|..|p| + length] == block[..length]
    ensures p + block[..n] == s[..|p| + n]
  {
    assert forall i :: 0 <= i < n ==> s[|p| + i] == s[|p|..|p| + length][i] == block[..length][i];
    assert forall i :: 0 <= i < |p| ==> s[i] == s[..|p|][i];
  }

  lemma {:induction false} FlatTake(fs: seq<Fragment>, mem: Memory, k: nat)
    requires k <= |fs| && Backed(fs, mem)
    ensures Before(fs, k) <= Before(fs, |fs|) && Flat(fs, mem, |fs|)[..Before(fs, k)] == Flat(fs, mem, k)
  {
    BeforeMonotonic(fs, k, |fs|);
    FlatGrows(fs, mem, k, |fs|);
  }

  lemma {:induction false} FlatGrows(fs: seq<Fragment>, mem: Memory, k: nat, n: nat)
    requires k <= n <= |fs| && Backed(fs, mem)
    ensures Flat(fs, mem, k) <= Flat(fs, mem, n)
  {
    if k < n {
      FlatGrows(fs, mem, k, n - 1);
    }
  }

  ghost function IdsTo(fs: seq<Fragment>, from: nat, to: nat): set<nat>
    requires to <= |fs|
  {
    set k | from <= k < to :: fs[k].id
  }

  ghost function Ids(fs: seq<Fragment>, from: nat): set<nat> {
    IdsTo(fs, from, |fs|)
  }

  ghost predicate SameBut(fragments: seq<Fragment>, offsets: seq<nat>, size: nat, offset: nat, current: nat,
      firstOwned: nat, b: Buffer)
    reads b
  {
    && b.fragments == fragments && b.offsets == offsets && b.size == size && b.offset == offset && b.current == current
    && b.firstOwned == firstOwned
  }

  // ----- The offset table of a new buffer -----

  /** A fragment as a caller hands it in: an address, which may be missing, and a length. */
  datatype Given = Given(id: Option<nat>, length: nat)

  function Length(given: seq<Given>): nat {
    if given == [] then 0 else Length(given[..|given| - 1]) + given[|given| - 1].length
  }

  predicate Usable(given: seq<Given>) {
    forall i :: 0 <= i < |given| ==> given[i].length > 0 ==> given[i].id.Some?
  }

  function Kept(given: seq<Given>): seq<Fragment>
    requires Usable(given)
  {
    if given == [] then []
    else
      var g := given[|given| - 1];
      Kept(given[..|given| - 1]) + if g.length > 0 then [Fragment(g.id.value, g.length)] else []
  }

  /** The table as `buffer_new` leaves it in memory that held `garbage`: it skips empty fragments in one
      array but not in the other. */
  function TableOf(given: seq<Given>, garbage: seq<nat>): (t: seq<nat>)
    requires |garbage| == |given| + 1
    ensures |t| == |garbage|
  {
    seq(|garbage|, i requires 0 <= i < |garbage| =>
      if i < |given| && given[i].length == 0 then garbage[i] else Length(given[..i]))
  }

  /** The filling loop of `buffer_new`. */
  method FillTable(given: seq<Given>, garbage: seq<nat>) returns (r: Result<(seq<Fragment>, seq<nat>)>)
    requires |garbage| == |given| + 1
    ensures r == if Usable(given) then Ok((Kept(given), TableOf(given, garbage))) else Err(Invalid)
  {
    var kept, table, offset := [], garbage, 0;
    assert given[..0] == [];
    for i := 0 to |given|
      invariant Usable(given[..i]) && kept == Kept(given[..i]) && offset == Length(given[..i])
      invariant |table| == |garbage| && (forall k :: 0 <= k < i ==> table[k] == TableOf(given, garbage)[k])
      invariant forall k :: i <= k < |table| ==> table[k] == garbage[k]
    {
      assert given[..i + 1][..i] == given[..i];
      if given[i].length != 0 {
        if given[i].id.None? {
          return Err(Invalid);
        }
        kept := kept + [Fragment(given[i].id.value, given[i].length)];
        table := table[i := offset];
        offset := offset + given[i].length;
      }
    }
    assert given[..|given|] == given;
    table := table[|given| := offset];
    assert table == TableOf(given, garbage);
    return Ok((kept, table));
  }

  predicate RightTable(fs: seq<Fragment>, t: seq<nat>) {
    |fs| < |t| && forall k :: 0 <= k <= |fs| ==> t[k] == Before(fs, k)
  }

  predicate NoneEmpty(given: seq<Given>) {
    forall i :: 0 <= i < |given| ==> given[i].length > 0
  }

  lemma {:induction false} KeptIs(given: seq<Given>, k: nat)
    requires Usable(given) && k <= |given| && NoneEmpty(given[..k])
    ensures Usable(given[..k]) && |Kept(given[..k])| == k <= |Kept(given)| && Kept(given[..k]) <= Kept(given)
    ensures Length(given[..k]) == Before(Kept(given), k)
    decreases |given|, k
  {
    if k == |given| {
      assert given[..k] == given;
      if k > 0 {
        KeptIs(given[..k - 1], k - 1);
        assert given[..k - 1][..k - 1] == given[..k - 1];
        BeforePrefix(Kept(given[..k - 1]), Kept(given), k - 1);
      }
    } else {
      var shorter := given[..|given| - 1];
      assert shorter[..k] == given[..k];
      KeptIs(shorter, k);
      BeforePrefix(Kept(shorter), Kept(given), k);
    }
  }

  /** The table is right whatever the fresh memory held if and only if no fragment is empty. */
  lemma {:induction false} TableIsRight(given: seq<Given>)
    requires Usable(given)
    ensures (forall f: seq<nat> :: |f| == |given| + 1 ==> RightTable(Kept(given), TableOf(given, f))) <==> NoneEmpty(given)
  {
    if NoneEmpty(given) {
      forall f: seq<nat> | |f| == |given| + 1 ensures RightTable(Kept(given), TableOf(given, f)) {
        assert given[..|given|] == given;
        KeptIs(given, |given|);
        forall k | 0 <= k <= |given| ensures TableOf(given, f)[k] == Before(Kept(given), k) {
          KeptIs(given, k);
        }
      }
    } else {
      var e := FirstEmpty(given);
      KeptIs(given, e);
      var f := seq(|given| + 1, _ => Before(Kept(given), e) + 1);
      assert TableOf(given, f)[e] == f[e];
      assert !RightTable(Kept(given), TableOf(given, f));
    }
  }

  lemma {:induction false} FirstEmpty(given: seq<Given>) returns (e: nat)
    requires !NoneEmpty(given)
    ensures e < |given| && given[e].length == 0 && NoneEmpty(given[..e])
    decreases |given|
  {
    var n := |given| - 1;
    if NoneEmpty(given[..n]) {
      e := n;
      assert forall i :: 0 <= i < n ==> given[i] == given[..n][i];
    } else {
      e := FirstEmpty(given[..n]);
      assert given[..n][..e] == given[..e];
    }
  }

  class Buffer {
    var fragments: seq<Fragment>
    var offsets: seq<nat> // where each fragment starts, and the capacity
    var firstOwned: nat // the first fragment to free
    var sharedFragments: nat
    var shared: Buffer?
    var size: nat
    var offset: nat
    var current: nat // the fragment the offset is in

    /** Offset `at` lies in fragment `k`, or at its end; behind the last one only the end does. */
    predicate Brackets(k: nat, at: nat)
      requires |offsets| == |fragments| + 1
      reads this
    {
      && k <= |fragments| && offsets[k] <= at
      && if k < |fragments| then at <= offsets[k + 1] else at == offsets[k]
    }

    /** The offset table is right, and the cached fragment brackets the offset. */
    ghost predicate Valid()
      reads this
    {
      && |offsets| == |fragments| + 1
      && (forall k :: 0 <= k <= |fragments| ==> offsets[k] == Before(fragments, k))
      && offset <= size <= offsets[|fragments|] && Brackets(current, offset)
      && firstOwned <= |fragments|
    }

    ghost predicate In(heap: Heap)
      reads this, heap
    {
      Valid() && heap.Valid() && Backed(fragments, heap.blocks) && Distinct(fragments)
    }

    /** The flat byte sequence the buffer stands for. */
    ghost function Contents(heap: Heap): (s: seq<byte>)
      requires In(heap)
      reads this, heap
      ensures |s| == size
    {
      Flat(fragments, heap.blocks, |fragments|)[..size]
    }

    /** `buffer_find_fragment`. */
    method FindFragment(at: nat) returns (k: nat)
      requires Valid() && fragments != [] && at <= offsets[|fragments|]
      ensures k < |fragments| && offsets[k] <= at <= offsets[k + 1]
      ensures at < offsets[|fragments|] ==> at < offsets[k + 1]
    {
      var low, high := 0, |fragments| - 1;
      while low < high
        invariant low <= high < |fragments|
        invariant offsets[low] <= at && (high + 1 == |fragments| || at < offsets[high + 1])
      {
        var mid := (high - low) / 2 + low;
        BeforeMonotonic(fragments, low, mid);
        if offsets[mid] > at {
          high := mid - 1;
        } else if mid == |fragments| || offsets[mid + 1] > at {
          return mid;
        } else {
          low := mid + 1;
        }
      }
      return low;
    }

    /** The copying loop of `buffer_read`. */
    method Gather(heap: Heap, start: nat, from: nat, length: nat) returns (data: seq<byte>, i: nat)
      requires In(heap) && Brackets(from, start) && start + length <= offsets[|fragments|]
      ensures data == Flat(fragments, heap.blocks, |fragments|)[start..start + length]
      ensures Brackets(i, start + length)
    {
      hide Flat, Backed, Distinct;
      ghost var flat := Flat(fragments, heap.blocks, |fragments|);
      i := from;
      var at := start - offsets[i];
      var n := 0;
      data := [];
      while n < length
        invariant n <= length && Brackets(i, start + n) && data == flat[start..start + n]
        invariant n < length ==> offsets[i] + at == start + n
        decreases length - n, |fragments| - i
      {
        var left := if length - n < fragments[i].length - at then length - n else fragments[i].length - at;
        FlatPiece(fragments, heap.blocks, i, at, left);
        Joined(flat, start, start + n, start + n + left);
        data := data + heap.blocks[fragments[i].id][at..at + left];
        if left == fragments[i].length - at {
          i := i + 1;
        }
        n := n + left;
        at := 0;
      }
    }

    /** `buffer_read`. */
    method Read(heap: Heap, want: nat) returns (r: Result<seq<byte>>)
      requires In(heap)
      modifies this`offset, this`current
      ensures In(heap) && Contents(heap) == old(Contents(heap))
      ensures var n := if want < size - old(offset) then want else size - old(offset);
        r == (if n > INT64_MAX then Err(Invalid) else Ok(Contents(heap)[old(offset)..old(offset) + n]))
        && offset == if r.Ok? then old(offset) + n else old(offset)
    {
      hide Flat, Backed, Distinct, Before;
      var length := if want < size - offset then want else size - offset;
      SliceOfSlice(Flat(fragments, heap.blocks, |fragments|), 0, size, offset, offset + length);
      if length == 0 {
        return Ok([]);
      }
      if length > INT64_MAX {
        return Err(Invalid);
      }
      var data, i := Gather(heap, offset, current, length);
      offset, current := offset + length, i;
      return Ok(data);
    }

    /** The growth part of `buffer_write`: fragments of 64 KiB until `length` more bytes fit. */
    method Grow(heap: Heap, length: nat)
      requires In(heap)
      modifies this`fragments, this`offsets, heap
      ensures In(heap) && Contents(heap) == old(Contents(heap))
      ensures Extended(old(fragments), old(heap.blocks), fragments, heap.blocks)
      ensures offset + length <= offsets[|fragments|]
    {
      hide Flat, Before;
      ghost var f0, m0 := fragments, heap.blocks;
      var capacity := offsets[|fragments|];
      if offset + length > capacity {
        var needed := |fragments| + (length - (capacity - offset) + WRITE_FRAGMENT_SIZE - 1) / WRITE_FRAGMENT_SIZE;
        while |fragments| < needed
          invariant In(heap) && Extended(f0, m0, fragments, heap.blocks) && |fragments| <= needed
          invariant capacity == offsets[|fragments|] == old(offsets[|fragments|]) + (|fragments| - |f0|) * WRITE_FRAGMENT_SIZE
        {
          AddFragment(heap);
          capacity := capacity + WRITE_FRAGMENT_SIZE;
        }
      }
      ExtendedContents(f0, m0, fragments, heap.blocks, size);
    }

    method AddFragment(heap: Heap)
      requires In(heap)
      modifies this`fragments, this`offsets, heap
      ensures In(heap)
      ensures |fragments| == |old(fragments)| + 1 && offsets[|fragments|] == old(offsets[|fragments|]) + WRITE_FRAGMENT_SIZE
      ensures forall f, m :: Extended(f, m, old(fragments), old(heap.blocks)) ==> Extended(f, m, fragments, heap.blocks)
    {
      hide Flat, Before;
      ghost var f0, o0, m0 := fragments, offsets, heap.blocks;
      var id := heap.Malloc(WRITE_FRAGMENT_SIZE);
      fragments := fragments + [Fragment(id, WRITE_FRAGMENT_SIZE)];
      offsets := offsets + [offsets[|offsets| - 1] + WRITE_FRAGMENT_SIZE];
      forall k | 0 <= k <= |fragments| ensures offsets[k] == Before(fragments, k) {
        BeforeOfMore(f0, fragments[|f0|], k);
      }
      forall f, m | Extended(f, m, f0, m0) ensures Extended(f, m, fragments, heap.blocks) {
        ExtendedMore(f, m, f0, m0, fragments[|f0|], heap.blocks);
      }
    }

    /** The copying loop of `buffer_write`. */
    method Scatter(heap: Heap, start: nat, from: nat, data: seq<byte>) returns (i: nat)
      requires In(heap) && Brackets(from, start) && start + |data| <= offsets[|fragments|]
      modifies heap
      ensures In(heap) && Brackets(i, start + |data|)
      ensures Flat(fragments, heap.blocks, |fragments|) == Splice(Flat(fragments, old(heap.blocks), |fragments|), start, data)
      ensures Touched(fragments, old(heap.blocks), heap.blocks, start)
    {
      hide Flat, Backed, Distinct, Splice, Touched;
      ghost var m0 := heap.blocks;
      ghost var flat := Flat(fragments, m0, |fragments|);
      SpliceNothing(flat, start);
      TouchedNothing(fragments, m0, start);
      i := from;
      var at := start - offsets[i];
      var n := 0;
      assert data[..0] == [];
      while n < |data|
        invariant n <= |data| && Brackets(i, start + n) && In(heap)
        invariant Flat(fragments, heap.blocks, |fragments|) == Splice(flat, start, data[..n])
        invariant Touched(fragments, m0, heap.blocks, start)
        invariant n < |data| ==> offsets[i] + at == start + n
        decreases |data| - n, |fragments| - i
      {
        var left := if |data| - n < fragments[i].length - at then |data| - n else fragments[i].length - at;
        ghost var m := heap.blocks;
        FlatPiece(fragments, m, i, at, left);
        StoreFlat(fragments, m, i, at, data[n..n + left], |fragments|);
        StoreTouched(fragments, m0, m, start, i, at, data[n..n + left]);
        SpliceTwice(flat, start, data[..n], data[n..n + left]);
        assert data[..n] + data[n..n + left] == data[..n + left];
        heap.Store(fragments[i].id, at, data[n..n + left]);
        if left == fragments[i].length - at {
          i := i + 1;
        }
        n := n + left;
        at := 0;
      }
      assert data[..n] == data;
    }

    /** `buffer_write`. */
    method Write(heap: Heap, data: seq<byte>) returns (done: bool)
      requires In(heap)
      modifies this`fragments, this`offsets, this`size, this`offset, this`current, heap
      ensures In(heap)
      ensures done == ((old(offset) + |data| + WRITE_FRAGMENT_SIZE - 1) % TWO_TO_THE_64 >= |data|)
      ensures done ==> Contents(heap) == Splice(old(Contents(heap)), old(offset), data) && offset == old(offset) + |data|
      ensures !done ==> heap.blocks == old(heap.blocks) && fragments == old(fragments) && offset == old(offset)
      ensures !done ==> Contents(heap) == old(Contents(heap))
      ensures Wrote(old(fragments), old(heap.blocks), fragments, heap.blocks, old(offset))
    {
      hide Flat, Backed, Distinct, Splice, Touched, Extended, Before;
      ExtendedNothing(fragments, heap.blocks);
      TouchedNothing(fragments, heap.blocks, offset);
      if (offset + |data| + WRITE_FRAGMENT_SIZE - 1) % TWO_TO_THE_64 < |data| {
        return false;
      }
      Grow(heap, |data|);
      ghost var m, flat := heap.blocks, Flat(fragments, heap.blocks, |fragments|);
      assert Extended(old(fragments), old(heap.blocks), fragments, m) && Backed(fragments, m);
      var i := Scatter(heap, offset, current, data);
      assert Touched(fragments, m, heap.blocks, offset);
      SpliceContents(flat, offset, data, size);
      offset, current := offset + |data|, i;
      if offset > size {
        size := offset;
      }
      done := true;
    }

    /** `buffer_seek`; a buffer without fragments has none to find. */
    method Seek(whence: Whence, delta: int) returns (done: bool)
      requires Valid() && (fragments != [] || SeekTarget(offset, size, whence, delta).None?)
      modifies this`offset, this`current
      ensures Valid()
      ensures done == SeekTarget(old(offset), size, whence, delta).Some?
      ensures offset == SeekTarget(old(offset), size, whence, delta).GetOr(old(offset))
    {
      hide Before;
      var to := SeekTarget(offset, size, whence, delta);
      if to.None? {
        return false;
      }
      var k := FindFragment(to.value);
      offset, current := to.value, k;
      return true;
    }

    /** A clone is written to from its end on. */
    method ToEnd()
      requires Valid() && size == offsets[|fragments|]
      modifies this`offset, this`current
      ensures Valid() && offset == size
    {
      offset, current := size, |fragments|;
    }

    /** Opening starts from the beginning. */
    method Rewind()
      requires Valid()
      modifies this`offset, this`current
      ensures Valid() && offset == 0
    {
      if fragments != [] {
        BeforeMonotonic(fragments, 0, 1);
      }
      offset, current := 0, 0;
    }

    /** `buffer_new` with no fragments. */
    constructor Empty()
      ensures Valid() && fragments == [] && size == 0 && offset == 0 && firstOwned == 0 && shared == null && sharedFragments == 0
    {
      fragments, offsets, firstOwned, sharedFragments, shared, size, offset, current := [], [0], 0, 0, null, 0, 0, 0;
    }

    /** `buffer_new` on fragments none of which is empty. */
    constructor Of(given: seq<Fragment>, freeData: bool)
      requires forall k :: 0 <= k < |given| ==> given[k].length > 0
      ensures Valid() && fragments == given && size == Before(given, |given|) && offset == 0
      ensures firstOwned == (if freeData then 0 else |given|) && shared == null && sharedFragments == 0
    {
      fragments := given;
      offsets := seq(|given| + 1, k requires 0 <= k <= |given| => Before(given, k));
      firstOwned, sharedFragments, shared := if freeData then 0 else |given|, 0, null;
      size, offset, current := Before(given, |given|), 0, 0;
      new;
      BeforeMonotonic(given, 0, |given|);
      BeforeMonotonic(given, 0, if given == [] then 0 else 1);
    }

    /** `buffer_clone`: shares the fragments before `at`, the last one cut there, and ends at `at`. */
    method Clone(heap: Heap, at: nat) returns (r: Result<Buffer>)
      requires In(heap)
      modifies this`shared, this`sharedFragments
      ensures In(heap) && Contents(heap) == old(Contents(heap))
      ensures r.Ok? <==> at == 0 || (at <= size && old(shared) == null && Waste(fragments, at) <= at)
      ensures r.Err? || at == 0 ==> shared == old(shared) && sharedFragments == old(sharedFragments)
      ensures r.Ok? ==> fresh(r.value) && r.value.In(heap) && r.value.size == r.value.offset == at
      ensures r.Ok? && at == 0 ==> r.value.fragments == [] && r.value.shared == null && r.value.firstOwned == 0
      ensures r.Ok? && at > 0 ==>
        && CutOf(r.value.fragments, fragments, at) && r.value.Contents(heap) == Contents(heap)[..at]
        && shared == r.value && r.value.shared == this
        && sharedFragments == r.value.sharedFragments == |r.value.fragments|
        && r.value.firstOwned == if firstOwned < sharedFragments - 1 then firstOwned else sharedFragments - 1
    {
      hide Flat, Before, Waste, CutOf, Backed, Distinct;
      if at == 0 {
        var empty := new Buffer.Empty();
        EmptyIsIn(heap.blocks);
        return Ok(empty);
      }
      if at > size {
        return Err(Invalid);
      }
      if shared != null {
        return Err(InUse);
      }
      BackedIsPositive(fragments, heap.blocks);
      var f, inside := PickFragment(at);
      var waste := fragments[f].length - inside;
      if waste > at {
        return Err(NotSupported);
      }
      CutFlat(fragments, heap.blocks, f, inside, at);
      SliceOfSlice(Flat(fragments, heap.blocks, |fragments|), 0, size, 0, at);
      var clone := MakeClone(fragments[..f] + [Fragment(fragments[f].id, inside)]);
      shared, sharedFragments := clone, f + 1;
      return Ok(clone);
    }

    method MakeClone(cut: seq<Fragment>) returns (clone: Buffer)
      requires cut != [] && forall k :: 0 <= k < |cut| ==> cut[k].length > 0
      ensures fresh(clone) && clone.Valid() && clone.fragments == cut && clone.size == clone.offset == Before(cut, |cut|)
      ensures clone.shared == this && clone.sharedFragments == |cut|
      ensures clone.firstOwned == if firstOwned < |cut| - 1 then firstOwned else |cut| - 1
    {
      hide Before;
      clone := new Buffer.Of(cut, false);
      clone.firstOwned := if firstOwned < |cut| - 1 then firstOwned else |cut| - 1;
      clone.shared, clone.sharedFragments := this, |cut|;
      clone.ToEnd();
    }

    /** The fragment that holds byte `at - 1`, and how much of it lies before `at`. */
    method PickFragment(at: nat) returns (f: nat, inside: nat)
      requires Valid() && 0 < at <= size && forall k :: 0 <= k < |fragments| ==> fragments[k].length > 0
      ensures f < |fragments| && 0 < inside <= fragments[f].length && Before(fragments, f) + inside == at
      ensures Waste(fragments, at) == fragments[f].length - inside
    {
      hide Before, Waste;
      NotEmpty(fragments, at);
      f := FindFragment(at);
      inside := at - offsets[f];
      NextOffset(fragments, f);
      if inside == 0 {
        StartsAtZero(fragments);
        f := f - 1;
        NextOffset(fragments, f);
        inside := fragments[f].length;
      }
      WasteIs(fragments, f, at);
    }

    /** The fragments `buffer_free` frees: those owned, without those that are shared. */
    ghost function Freed(): (first: nat)
      reads this
    {
      if shared != null && sharedFragments > firstOwned then sharedFragments else firstOwned
    }

    /** `buffer_free`. Every fragment freed must be live. */
    method Free(heap: Heap)
      requires Valid() && heap.Valid() && Distinct(fragments) && Freed() <= |fragments|
      requires forall k :: Freed() <= k < |fragments| ==> fragments[k].id in heap.blocks
      requires shared != null ==> shared != this
      modifies heap, this`firstOwned, if shared == null then {} else {shared}
      ensures heap.Valid() && heap.blocks == old(heap.blocks) - Ids(fragments, old(Freed()))
      ensures shared != null ==> shared.shared == null && SameBut(old(shared.fragments), old(shared.offsets), old(shared.size),
        old(shared.offset), old(shared.current), old(shared.firstOwned), shared)
    {
      hide Before, IdsTo;
      if shared != null {
        shared.shared, shared.sharedFragments := null, 0;
        firstOwned := if sharedFragments > firstOwned then sharedFragments else firstOwned;
      }
      FreeFrom(heap);
    }

    method FreeFrom(heap: Heap)
      requires heap.Valid() && Distinct(fragments) && firstOwned <= |fragments|
      requires forall k :: firstOwned <= k < |fragments| ==> fragments[k].id in heap.blocks
      modifies heap
      ensures heap.Valid() && heap.blocks == old(heap.blocks) - Ids(fragments, firstOwned)
    {
      ghost var m0 := heap.blocks;
      assert m0 == m0 - IdsTo(fragments, firstOwned, firstOwned);
      for i := firstOwned to |fragments|
        invariant heap.Valid() && heap.blocks == m0 - IdsTo(fragments, firstOwned, i)
        invariant forall k :: i <= k < |fragments| ==> fragments[k].id in heap.blocks
      {
        heap.Free(fragments[i].id);
        assert IdsTo(fragments, firstOwned, i + 1) == IdsTo(fragments, firstOwned, i) + {fragments[i].id};
      }
    }
  }
}
