/**
 Extra-field lists (zip_extra_field.c, zip_extra_field_api.c; APPNOTE 4.5.1).

 One list carries two views, the local header's and the central directory's; each
 field belongs to one or both. A list is kept as a sequence that the editing methods
 walk and splice.
 */
module ExtraField {
  import opened Bytes
  import opened ZipBuffer

  type Data = s: seq<byte> | |s| < 0x1_0000

  datatype View = View(local: bool, central: bool)

  const LOCAL := View(true, false)
  const CENTRAL := View(false, true)
  const BOTH := View(true, true)

  datatype Field = Field(id: uint16, data: Data, view: View)

  const ANY: uint16 := 0xffff // as an index: every field, or a new one

  const EF_ZIP64: uint16 := 0x0001
  const EF_UTF8_COMMENT: uint16 := 0x6375
  const EF_UTF8_NAME: uint16 := 0x7075
  const EF_WINZIP_AES: uint16 := 0x9901

  predicate IsInternal(id: uint16) {
    id == EF_UTF8_COMMENT || id == EF_UTF8_NAME || id == EF_WINZIP_AES || id == EF_ZIP64
  }

  predicate In(f: Field, v: View) {
    (f.view.local && v.local) || (f.view.central && v.central)
  }

  predicate Single(v: View) {
    v == LOCAL || v == CENTRAL
  }

  function Other(v: View): View {
    View(!v.local, !v.central)
  }

  // ----- Wire form -----

  function FieldBytes(f: Field): seq<byte> {
    Le(f.id, 2) + Le(|f.data|, 2) + f.data
  }

  /** A field's bytes in a view, none if the view does not show it. */
  function BytesIn(f: Field, v: View): seq<byte> {
    if In(f, v) then FieldBytes(f) else []
  }

  function Written(fs: seq<Field>, v: View): seq<byte> {
    if fs == [] then [] else BytesIn(fs[0], v) + Written(fs[1..], v)
  }

  predicate AllZero(b: seq<byte>) {
    forall i :: 0 <= i < |b| ==> b[i] == 0
  }

  /** Fields up to the end of the data; fewer than four trailing zero bytes are padding. */
  function Parsed(b: seq<byte>, v: View): Option<seq<Field>> {
    if |b| < 4 then (if AllZero(b) then Some([]) else None)
    else
      var n := Uint(b, 2, 2);
      if |b| - 4 < n then None
      else
        UintBound(b, 0, 2);
        UintBound(b, 2, 2);
        Pow256Values();
        Prepend([Field(Uint(b, 0, 2), b[4..4 + n], v)], Parsed(b[4 + n..], v))
  }

  function Prepend(fs: seq<Field>, rest: Option<seq<Field>>): Option<seq<Field>> {
    if rest.None? then None else Some(fs + rest.value)
  }

  lemma {:induction false} PrependEmpty(fs: seq<Field>, rest: Option<seq<Field>>)
    ensures Prepend([], rest) == rest
    ensures Prepend(fs, Some([])) == Some(fs)
  {
    assert fs + [] == fs;
    if rest.Some? {
      assert [] + rest.value == rest.value;
    }
  }

  lemma {:induction false} ParsedStep(fs: seq<Field>, b: seq<byte>, v: View)
    requires |b| >= 4
    ensures Uint(b, 0, 2) < 0x1_0000 && Uint(b, 2, 2) < 0x1_0000
    ensures var n := Uint(b, 2, 2);
      if |b| - 4 < n then Parsed(b, v) == None
      else Prepend(fs, Parsed(b, v)) == Prepend(fs + [Field(Uint(b, 0, 2), b[4..4 + n], v)], Parsed(b[4 + n..], v))
  {
    UintBound(b, 0, 2);
    UintBound(b, 2, 2);
    Pow256Values();
    var n := Uint(b, 2, 2);
    if |b| - 4 >= n {
      var f, rest := Field(Uint(b, 0, 2), b[4..4 + n], v), Parsed(b[4 + n..], v);
      if rest.Some? {
        assert fs + [f] + rest.value == fs + ([f] + rest.value);
      }
    }
  }

  /** One field off the cursor; none if its data runs past the end. */
  method ReadField(buffer: Cursor, v: View) returns (r: Option<Field>)
    requires buffer.Valid() && buffer.ok && |buffer.Ahead()| >= 4
    modifies buffer
    ensures buffer.Valid()
    ensures Uint(old(buffer.Ahead()), 0, 2) < 0x1_0000 && Uint(old(buffer.Ahead()), 2, 2) < 0x1_0000
    ensures var b, n := old(buffer.Ahead()), Uint(old(buffer.Ahead()), 2, 2);
      if |b| - 4 < n then r == None
      else r == Some(Field(Uint(b, 0, 2), b[4..4 + n], v)) && buffer.ok && buffer.Ahead() == b[4 + n..]
  {
    ghost var b := buffer.Ahead();
    UintBound(b, 0, 2);
    UintBound(b, 2, 2);
    Pow256Values();
    var id := buffer.GetUint(2);
    assert b[2..][0..2] == b[2..4];
    var n := buffer.GetUint(2);
    assert b[2..][2..] == b[4..];
    var data := buffer.Get(n);
    if data.None? {
      return None;
    }
    assert b[4..][n..] == b[4 + n..] && b[4..][..n] == b[4..4 + n];
    return Some(Field(id, data.value, v));
  }

  /** `_zip_ef_parse`, over the bounds-checked cursor. */
  method Parse(b: seq<byte>, v: View) returns (r: Option<seq<Field>>)
    requires |b| < 0x1_0000
    ensures r == Parsed(b, v)
  {
    var buffer := new Cursor.Wrap(b);
    var fs := [];
    assert b[0..] == b;
    PrependEmpty([], Parsed(b, v));
    while buffer.ok && buffer.Left() >= 4
      invariant buffer.Valid() && buffer.ok && fresh(buffer)
      invariant Prepend(fs, Parsed(buffer.Ahead(), v)) == Parsed(b, v)
      decreases buffer.Left()
    {
      ParsedStep(fs, buffer.Ahead(), v);
      var f := ReadField(buffer, v);
      if f.None? {
        return None;
      }
      fs := fs + [f.value];
    }
    ghost var tail := buffer.Ahead();
    PrependEmpty(fs, None);
    if !buffer.AtEnd() {
      var glen := buffer.Left();
      var garbage := buffer.Get(glen);
      assert tail[..|tail|] == tail;
      if glen >= 4 || garbage.None? || !AllZero(garbage.value) {
        return None;
      }
    }
    return Some(fs);
  }

  /** The fields a view shows, as a reader of that view alone sees them. */
  function Seen(fs: seq<Field>, v: View): seq<Field> {
    if fs == [] then [] else SeenIn(fs[0], v) + Seen(fs[1..], v)
  }

  function SeenIn(f: Field, v: View): seq<Field> {
    if In(f, v) then [f.(view := v)] else []
  }

  /** Parsing what was written for a view, with padding, returns that view. */
  lemma {:induction false} ParseWritten(fs: seq<Field>, v: View, pad: seq<byte>)
    requires |pad| < 4 && AllZero(pad)
    ensures Parsed(Written(fs, v) + pad, v) == Some(Seen(fs, v))
  {
    if fs == [] {
      assert Written(fs, v) + pad == pad;
    } else {
      ParseWritten(fs[1..], v, pad);
      if In(fs[0], v) {
        ParseField(fs[0], Written(fs[1..], v) + pad, v);
        assert Written(fs, v) + pad == FieldBytes(fs[0]) + (Written(fs[1..], v) + pad);
      } else {
        assert Written(fs, v) == Written(fs[1..], v) && Seen(fs, v) == Seen(fs[1..], v);
      }
    }
  }

  lemma {:induction false} ParseField(f: Field, tail: seq<byte>, v: View)
    ensures Parsed(FieldBytes(f) + tail, v) == Prepend([f.(view := v)], Parsed(tail, v))
  {
    var b := FieldBytes(f) + tail;
    Pow256Values();
    NatOfLe(f.id, 2);
    NatOfLe(|f.data|, 2);
    assert b[0..2] == Le(f.id, 2) && b[2..4] == Le(|f.data|, 2);
    assert b[4..4 + |f.data|] == f.data && b[4 + |f.data|..] == tail;
  }

  /** Whatever is accepted is the written form of what it parses to, plus padding. */
  lemma {:induction false} WrittenParse(b: seq<byte>, v: View) returns (pad: seq<byte>)
    requires Parsed(b, v).Some? && In(Field(0, [], v), v)
    ensures |pad| < 4 && AllZero(pad)
    ensures b == Written(Parsed(b, v).value, v) + pad
  {
    if |b| < 4 {
      pad := b;
    } else {
      var n := Uint(b, 2, 2);
      pad := WrittenParse(b[4 + n..], v);
      var fs := Parsed(b, v).value;
      LeOfNat(b[0..2]);
      LeOfNat(b[2..4]);
      assert fs[1..] == Parsed(b[4 + n..], v).value;
      assert b == b[0..2] + b[2..4] + b[4..4 + n] + b[4 + n..];
    }
  }

  lemma {:induction false} Associative<T>(a: seq<T>, b: seq<T>, c: seq<T>)
    ensures a + b + c == a + (b + c)
  {}

  lemma {:induction false} WrittenAppend(fs: seq<Field>, gs: seq<Field>, v: View)
    ensures Written(fs + gs, v) == Written(fs, v) + Written(gs, v)
  {
    hide BytesIn;
    if fs == [] {
      assert fs + gs == gs;
    } else {
      WrittenAppend(fs[1..], gs, v);
      assert (fs + gs)[1..] == fs[1..] + gs && (fs + gs)[0] == fs[0];
      Associative(BytesIn(fs[0], v), Written(fs[1..], v), Written(gs, v));
    }
  }

  lemma {:induction false} SeenAppend(fs: seq<Field>, gs: seq<Field>, v: View)
    ensures Seen(fs + gs, v) == Seen(fs, v) + Seen(gs, v)
  {
    hide SeenIn;
    if fs == [] {
      assert fs + gs == gs;
    } else {
      SeenAppend(fs[1..], gs, v);
      assert (fs + gs)[1..] == fs[1..] + gs && (fs + gs)[0] == fs[0];
      Associative(SeenIn(fs[0], v), Seen(fs[1..], v), Seen(gs, v));
    }
  }

  lemma {:induction false} WrittenStep(fs: seq<Field>, i: nat, v: View)
    requires i < |fs|
    ensures Written(fs[..i + 1], v) == Written(fs[..i], v) + BytesIn(fs[i], v)
    ensures |BytesIn(fs[i], v)| == if In(fs[i], v) then 4 + |fs[i].data| else 0
  {
    WrittenAppend(fs[..i], [fs[i]], v);
    assert fs[..i + 1] == fs[..i] + [fs[i]];
    assert Written([fs[i]], v) == BytesIn(fs[i], v);
  }

  /** `_zip_ef_size`: sixteen-bit arithmetic, hence the written length when that fits. */
  method Size(fs: seq<Field>, v: View) returns (size: uint16)
    ensures size == |Written(fs, v)| % 0x1_0000
  {
    hide Written, BytesIn;
    size := 0;
    WrittenEmpty(fs, v);
    for i := 0 to |fs|
      invariant size == |Written(fs[..i], v)| % 0x1_0000
    {
      WrittenStep(fs, i, v);
      if In(fs[i], v) {
        size := (size + 4 + |fs[i].data|) % 0x1_0000;
      }
    }
    assert fs[..|fs|] == fs;
  }

  lemma {:induction false} WrittenEmpty(fs: seq<Field>, v: View)
    ensures Written(fs[..0], v) == []
  {}

  // ----- Lookups and edits -----

  /** What a view shows, without the membership flags. */
  function Pairs(fs: seq<Field>, v: View): seq<(uint16, Data)> {
    if fs == [] then [] else PairIn(fs[0], v) + Pairs(fs[1..], v)
  }

  function PairIn(f: Field, v: View): seq<(uint16, Data)> {
    if In(f, v) then [(f.id, f.data)] else []
  }

  /** One id, or in deletions any id. */
  datatype Which = Id(id: uint16) | AnyId

  predicate Match(f: Field, w: Which, v: View) {
    In(f, v) && (w.AnyId? || f.id == w.id)
  }

  /** The data of the fields with this id, in order. */
  function ById(fs: seq<Field>, w: Which, v: View): seq<Data> {
    if fs == [] then [] else DataIn(fs[0], w, v) + ById(fs[1..], w, v)
  }

  function DataIn(f: Field, w: Which, v: View): seq<Data> {
    if Match(f, w, v) then [f.data] else []
  }

  function Lookup(fs: seq<Field>, w: Which, k: nat, v: View): Option<Data> {
    if k < |ById(fs, w, v)| then Some(ById(fs, w, v)[k]) else None
  }

  /** The position of the `k`-th match, or the length of the list. */
  function Position(fs: seq<Field>, w: Which, k: nat, v: View): (p: nat)
    ensures p <= |fs|
    ensures p < |fs| ==> Match(fs[p], w, v)
  {
    if fs == [] then 0
    else if Match(fs[0], w, v) then (if k == 0 then 0 else 1 + Position(fs[1..], w, k - 1, v))
    else 1 + Position(fs[1..], w, k, v)
  }

  function Clear(f: Field, v: View): Field {
    f.(view := View(f.view.local && !v.local, f.view.central && !v.central))
  }

  function Cleared(f: Field, v: View): seq<Field> {
    var g := Clear(f, v);
    if g.view.local || g.view.central then [g] else []
  }

  /** The list without the `k`-th field of an id in view `v`. */
  function Deleted(fs: seq<Field>, w: Which, k: nat, v: View): seq<Field> {
    var p := Position(fs, w, k, v);
    if p == |fs| then fs else fs[..p] + Cleared(fs[p], v) + fs[p + 1..]
  }

  /** The list without any field of an id in view `v`. */
  function DeletedAll(fs: seq<Field>, w: Which, v: View): seq<Field> {
    if fs == [] then []
    else (if Match(fs[0], w, v) then Cleared(fs[0], v) else [fs[0]]) + DeletedAll(fs[1..], w, v)
  }

  function Unused(fs: seq<Field>): seq<Field> {
    if fs == [] then [] else (if IsInternal(fs[0].id) then [] else [fs[0]]) + Unused(fs[1..])
  }

  predicate Same(f: Field, g: Field) {
    f.id == g.id && f.data == g.data
  }

  function Join(v: View, w: View): View {
    View(v.local || w.local, v.central || w.central)
  }

  /** The first field of the list equal to `f`, or the length of the list. */
  function Twin(fs: seq<Field>, f: Field): (p: nat)
    ensures p <= |fs|
    ensures p < |fs| ==> Same(fs[p], f)
  {
    if fs == [] then 0 else if Same(fs[0], f) then 0 else 1 + Twin(fs[1..], f)
  }

  function MergedOne(fs: seq<Field>, f: Field): seq<Field> {
    var p := Twin(fs, f);
    if p == |fs| then fs + [f] else fs[p := fs[p].(view := Join(fs[p].view, f.view))]
  }

  function Merged(to: seq<Field>, from: seq<Field>): seq<Field>
    decreases |from|
  {
    if to == [] || from == [] then (if to == [] then from else to)
    else Merged(MergedOne(to, from[0]), from[1..])
  }

  datatype SetResult = Refused | Changed

  /** Where a new value goes: in place of the `k`-th match, or at the end. */
  function Stored(fs: seq<Field>, id: uint16, k: nat, data: Data, v: View): seq<Field> {
    var p := Position(fs, Id(id), k, v);
    var f := Field(id, data, v);
    if p == |fs| then fs + [f]
    else if fs[p].view == v then fs[p := f]
    else fs[..p] + [Clear(fs[p], v), f] + fs[p + 1..]
  }

  function ViewSize(fs: seq<Field>, on: bool, v: View): nat {
    if on then |Written(fs, v)| % 0x1_0000 else 0
  }

  /** The length the size check of `zip_file_extra_field_set` computes. */
  function CheckedLength(fs: seq<Field>, id: uint16, k: nat, data: Data, v: View): int {
    var p := Position(fs, Id(id), k, v);
    var ls := ViewSize(fs, v.local, LOCAL);
    var cs := ViewSize(fs, v.central, CENTRAL);
    (if ls > cs then ls else cs) - (if p < |fs| then |fs[p].data| + 4 else 0) + |data| + 4
  }

  predicate SetAllowed(fs: seq<Field>, id: uint16, k: nat, data: Data, v: View) {
    (k <= |ById(fs, Id(id), v)| || k == ANY) && CheckedLength(fs, id, k, data, v) <= UINT16_MAX
  }

  lemma {:induction false} PositionSplit(fs: seq<Field>, i: nat, w: Which, k: nat, v: View)
    requires i <= |fs|
    requires |ById(fs[..i], w, v)| <= k
    ensures Position(fs, w, k, v) == i + Position(fs[i..], w, k - |ById(fs[..i], w, v)|, v)
  {
    hide Match;
    if i > 0 {
      assert fs[..i][1..] == fs[1..][..i - 1] && fs[1..][i - 1..] == fs[i..];
      PositionSplit(fs[1..], i - 1, w, if Match(fs[0], w, v) then k - 1 else k, v);
    } else {
      assert fs[0..] == fs;
    }
  }

  lemma {:induction false} ByIdAppend(fs: seq<Field>, gs: seq<Field>, w: Which, v: View)
    ensures ById(fs + gs, w, v) == ById(fs, w, v) + ById(gs, w, v)
  {
    hide DataIn;
    if fs == [] {
      assert fs + gs == gs;
    } else {
      ByIdAppend(fs[1..], gs, w, v);
      assert (fs + gs)[1..] == fs[1..] + gs && (fs + gs)[0] == fs[0];
      Associative(DataIn(fs[0], w, v), ById(fs[1..], w, v), ById(gs, w, v));
    }
  }

  lemma {:induction false} PairsAppend(fs: seq<Field>, gs: seq<Field>, v: View)
    ensures Pairs(fs + gs, v) == Pairs(fs, v) + Pairs(gs, v)
  {
    hide PairIn;
    if fs == [] {
      assert fs + gs == gs;
    } else {
      PairsAppend(fs[1..], gs, v);
      assert (fs + gs)[1..] == fs[1..] + gs && (fs + gs)[0] == fs[0];
      Associative(PairIn(fs[0], v), Pairs(fs[1..], v), Pairs(gs, v));
    }
  }

  lemma {:induction false} PositionCounts(fs: seq<Field>, w: Which, k: nat, v: View)
    ensures var p := Position(fs, w, k, v);
      if p < |fs| then |ById(fs[..p], w, v)| == k < |ById(fs, w, v)| else |ById(fs, w, v)| <= k
  {
    if fs != [] {
      var p := Position(fs, w, k, v);
      if !(Match(fs[0], w, v) && k == 0) {
        PositionCounts(fs[1..], w, if Match(fs[0], w, v) then k - 1 else k, v);
        assert p > 0 && fs[..p][1..] == fs[1..][..p - 1];
      } else {
        assert fs[..p] == [];
      }
    }
  }

  lemma {:induction false} ByIdAt(fs: seq<Field>, w: Which, k: nat, v: View)
    requires Position(fs, w, k, v) < |fs|
    ensures k < |ById(fs, w, v)| && ById(fs, w, v)[k] == fs[Position(fs, w, k, v)].data
  {
    if !(Match(fs[0], w, v) && k == 0) {
      ByIdAt(fs[1..], w, if Match(fs[0], w, v) then k - 1 else k, v);
    }
  }

  lemma {:induction false} SearchStart(fs: seq<Field>, w: Which, k: nat, v: View)
    ensures ById(fs[..0], w, v) == []
  {}

  /** One step of a search for the `k`-th match that has not found it before `at`. */
  lemma {:induction false} SearchStep(fs: seq<Field>, at: nat, w: Which, k: nat, v: View)
    requires at < |fs| && |ById(fs[..at], w, v)| <= k
    ensures |ById(fs[..at + 1], w, v)| == |ById(fs[..at], w, v)| + if Match(fs[at], w, v) then 1 else 0
    ensures if Match(fs[at], w, v) && |ById(fs[..at], w, v)| == k then Position(fs, w, k, v) == at
            else Position(fs, w, k, v) >= at + 1
  {
    PositionSplit(fs, at, w, k, v);
    ByIdAppend(fs[..at], [fs[at]], w, v);
    assert fs[..at + 1] == fs[..at] + [fs[at]];
    assert fs[at..][0] == fs[at];
  }

  lemma {:induction false} DeletedAllStep(done: seq<Field>, rest: seq<Field>, w: Which, v: View)
    requires rest != []
    ensures done + DeletedAll(rest, w, v)
      == done + (if Match(rest[0], w, v) then Cleared(rest[0], v) else [rest[0]]) + DeletedAll(rest[1..], w, v)
  {
    Associative(done, if Match(rest[0], w, v) then Cleared(rest[0], v) else [rest[0]], DeletedAll(rest[1..], w, v));
  }

  lemma {:induction false} DeletedAllEnd(w: Which, v: View)
    ensures DeletedAll([], w, v) == []
  {}

  /** A dirent's list; fewer fields than the sixteen-bit index can count. */
  class FieldList {
    var fields: seq<Field>

    constructor (fs: seq<Field>)
      ensures fields == fs
    {
      fields := fs;
    }

    /** `_zip_ef_get_by_id`. */
    method GetById(id: uint16, k: uint16, v: View) returns (r: Option<Data>)
      ensures r == Lookup(fields, Id(id), k, v)
    {
      hide Match, ById;
      var i := 0;
      SearchStart(fields, Id(id), k, v);
      PositionCounts(fields, Id(id), k, v);
      for at := 0 to |fields|
        invariant i == |ById(fields[..at], Id(id), v)| <= k
        invariant Position(fields, Id(id), k, v) >= at
      {
        SearchStep(fields, at, Id(id), k, v);
        if Match(fields[at], Id(id), v) {
          if i == k {
            ByIdAt(fields, Id(id), k, v);
            return Some(fields[at].data);
          }
          i := i + 1;
        }
      }
      assert fields[..|fields|] == fields;
      return None;
    }

    /** `_zip_ef_delete_by_id` for one index. */
    method DeleteKth(w: Which, k: uint16, v: View)
      requires k != ANY
      modifies this
      ensures fields == Deleted(old(fields), w, k, v)
    {
      hide Match, Cleared, ById;
      var i, at := 0, 0;
      SearchStart(fields, w, k, v);
      while at < |fields|
        invariant at <= |fields| && fields == old(fields) && i == |ById(fields[..at], w, v)| <= k
        invariant Position(fields, w, k, v) >= at
      {
        SearchStep(fields, at, w, k, v);
        if Match(fields[at], w, v) {
          if i == k {
            fields := fields[..at] + Cleared(fields[at], v) + fields[at + 1..];
            return;
          }
          i := i + 1;
        }
        at := at + 1;
      }
    }

    /** `_zip_ef_delete_by_id` for every index. */
    method DeleteEvery(w: Which, v: View)
      requires |fields| < ANY
      modifies this
      ensures fields == DeletedAll(old(fields), w, v)
    {
      hide DeletedAll, Match;
      var i, at := 0, 0;
      ghost var done, rest := [], fields;
      while at < |fields|
        invariant at == |done| && i <= at && fields == done + rest && at + |rest| < ANY
        invariant done + DeletedAll(rest, w, v) == DeletedAll(old(fields), w, v)
        decreases |rest|
      {
        var f := fields[at];
        DeletedAllStep(done, rest, w, v);
        if Match(f, w, v) {
          var g := Clear(f, v);
          if !g.view.local && !g.view.central {
            fields := fields[..at] + fields[at + 1..];
            done, rest := done + [], rest[1..];
            continue;
          }
          fields := fields[at := g];
          done, rest := done + [g], rest[1..];
          i := i + 1;
          assert i <= ANY;
        } else {
          done, rest := done + [f], rest[1..];
        }
        at := at + 1;
      }
      DeletedAllEnd(w, v);
    }

    /** `_zip_ef_remove_internal`. */
    method RemoveInternal()
      modifies this
      ensures fields == Unused(old(fields))
    {
      var at := 0;
      ghost var next := 0;
      while at < |fields|
        invariant 0 <= at <= |fields| && 0 <= next <= |old(fields)|
        invariant fields[at..] == old(fields)[next..]
        invariant fields[..at] + Unused(old(fields)[next..]) == Unused(old(fields))
        decreases |fields| - at
      {
        assert old(fields)[next..][1..] == old(fields)[next + 1..] && fields[at] == old(fields)[next];
        next := next + 1;
        if IsInternal(fields[at].id) {
          fields := fields[..at] + fields[at + 1..];
        } else {
          at := at + 1;
        }
      }
      assert fields[..at] == fields;
    }

    /** `_zip_ef_merge`. */
    method Merge(from: seq<Field>)
      modifies this
      ensures fields == Merged(old(fields), from)
    {
      if fields == [] {
        fields := from;
        return;
      }
      assert from[0..] == from;
      for i := 0 to |from|
        invariant fields != [] && Merged(fields, from[i..]) == Merged(old(fields), from)
      {
        assert from[i..][1..] == from[i + 1..];
        var t := 0;
        assert fields[0..] == fields;
        while t < |fields| && !Same(fields[t], from[i])
          invariant t <= |fields| && Twin(fields, from[i]) == t + Twin(fields[t..], from[i])
        {
          assert fields[t..][1..] == fields[t + 1..];
          t := t + 1;
        }
        if t < |fields| {
          fields := fields[t := fields[t].(view := Join(fields[t].view, from[i].view))];
        } else {
          fields := fields + [from[i]];
        }
      }
    }

    /** The search loop of `zip_file_extra_field_set`. */
    method Find(id: uint16, k: uint16, v: View) returns (at: nat, i: nat)
      ensures at == Position(fields, Id(id), k, v)
      ensures at < |fields| ==> i == k < |ById(fields, Id(id), v)|
      ensures at == |fields| ==> i == |ById(fields, Id(id), v)|
    {
      hide Match, ById;
      i, at := 0, 0;
      SearchStart(fields, Id(id), k, v);
      PositionCounts(fields, Id(id), k, v);
      while at < |fields|
        invariant at <= |fields| && i == |ById(fields[..at], Id(id), v)| <= k
        invariant Position(fields, Id(id), k, v) >= at
      {
        SearchStep(fields, at, Id(id), k, v);
        if Match(fields[at], Id(id), v) {
          if i == k {
            return;
          }
          i := i + 1;
        }
        at := at + 1;
      }
      assert fields[..at] == fields;
    }

    /** `zip_file_extra_field_set`, from the search on. */
    method Set(id: uint16, k: uint16, data: Data, v: View) returns (r: SetResult)
      modifies this
      ensures r == if SetAllowed(old(fields), id, k, data, v) then Changed else Refused
      ensures fields == if r.Changed? then Stored(old(fields), id, k, data, v) else old(fields)
    {
      var at, i := Find(id, k, v);
      if i < k && k != ANY {
        return Refused;
      }
      var ls, cs := 0, 0;
      if v.local {
        ls := Size(fields, LOCAL);
      }
      if v.central {
        cs := Size(fields, CENTRAL);
      }
      var newLength: int := if ls > cs then ls else cs;
      if at < |fields| {
        newLength := newLength - (|fields[at].data| + 4);
      }
      newLength := newLength + |data| + 4;
      if newLength > UINT16_MAX {
        return Refused;
      }
      var f := Field(id, data, v);
      if at == |fields| {
        fields := fields + [f];
      } else if fields[at].view == v {
        fields := fields[at := f];
      } else {
        fields := fields[..at] + [Clear(fields[at], v), f] + fields[at + 1..];
      }
      return Changed;
    }
  }

  // ----- Laws -----

  /** Replacing the field at `p` by `mid` changes nothing else in any view. */
  lemma {:induction false} Around(fs: seq<Field>, p: nat, mid: seq<Field>, w: Which, v: View)
    requires p < |fs|
    ensures var gs := fs[..p] + mid + fs[p + 1..];
      && Pairs(fs, v) == Pairs(fs[..p], v) + Pairs([fs[p]], v) + Pairs(fs[p + 1..], v)
      && Pairs(gs, v) == Pairs(fs[..p], v) + Pairs(mid, v) + Pairs(fs[p + 1..], v)
      && ById(fs, w, v) == ById(fs[..p], w, v) + ById([fs[p]], w, v) + ById(fs[p + 1..], w, v)
      && ById(gs, w, v) == ById(fs[..p], w, v) + ById(mid, w, v) + ById(fs[p + 1..], w, v)
      && |Written(gs, v)| == |Written(fs, v)| - |Written([fs[p]], v)| + |Written(mid, v)|
  {
    assert fs == fs[..p] + [fs[p]] + fs[p + 1..];
    PairsAround(fs[..p], [fs[p]], fs[p + 1..], w, v);
    PairsAround(fs[..p], mid, fs[p + 1..], w, v);
  }

  lemma {:induction false} PairsAround(a: seq<Field>, b: seq<Field>, c: seq<Field>, w: Which, v: View)
    ensures Pairs(a + b + c, v) == Pairs(a, v) + Pairs(b, v) + Pairs(c, v)
    ensures ById(a + b + c, w, v) == ById(a, w, v) + ById(b, w, v) + ById(c, w, v)
    ensures |Written(a + b + c, v)| == |Written(a, v)| + |Written(b, v)| + |Written(c, v)|
  {
    PairsAppend(a, b, v);
    PairsAppend(a + b, c, v);
    ByIdAppend(a, b, w, v);
    ByIdAppend(a + b, c, w, v);
    WrittenAppend(a, b, v);
    WrittenAppend(a + b, c, v);
  }

  function Without<T>(s: seq<T>, k: nat): seq<T>
    requires k < |s|
  {
    s[..k] + s[k + 1..]
  }

  lemma {:induction false} ClearedIn(f: Field, w: Which, v: View)
    requires Single(v) && In(f, v)
    ensures Pairs(Cleared(f, v), v) == [] && ById(Cleared(f, v), w, v) == [] && Written(Cleared(f, v), v) == []
    ensures Pairs(Cleared(f, v), Other(v)) == Pairs([f], Other(v))
    ensures |Written(Cleared(f, v), Other(v))| == |Written([f], Other(v))|
  {
    var g := Clear(f, v);
    assert g == f.(view := View(f.view.local && !v.local, f.view.central && !v.central));
  }

  lemma {:induction false} OneField(f: Field, w: Which, v: View)
    ensures Pairs([f], v) == if In(f, v) then [(f.id, f.data)] else []
    ensures ById([f], w, v) == if Match(f, w, v) then [f.data] else []
    ensures |Written([f], v)| == if In(f, v) then |f.data| + 4 else 0
  {
    assert [f][1..] == [];
  }

  lemma {:induction false} DropMiddle<T>(a: seq<T>, x: T, c: seq<T>)
    ensures Without(a + [x] + c, |a|) == a + [] + c
  {}

  /** Deleting the `k`-th match in one view removes exactly that field from the view, so earlier
      lookups stay and later ones shift down by one, and leaves the other view alone. */
  lemma {:induction false} DeleteLaw(fs: seq<Field>, w: Which, k: nat, v: View)
    requires Single(v)
    ensures var gs := Deleted(fs, w, k, v);
      && Pairs(gs, Other(v)) == Pairs(fs, Other(v))
      && (k >= |ById(fs, w, v)| ==> gs == fs)
      && (k < |ById(fs, w, v)| ==>
        && ById(gs, w, v) == Without(ById(fs, w, v), k)
        && exists n :: 0 <= n < |Pairs(fs, v)| && Pairs(gs, v) == Without(Pairs(fs, v), n))
  {
    PositionCounts(fs, w, k, v);
    var p := Position(fs, w, k, v);
    if p < |fs| {
      var f, gs := fs[p], Deleted(fs, w, k, v);
      ClearedIn(f, w, v);
      OneField(f, w, v);
      assert Pairs(gs, Other(v)) == Pairs(fs, Other(v)) by {
        Around(fs, p, Cleared(f, v), w, Other(v));
      }
      Around(fs, p, Cleared(f, v), w, v);
      DropMiddle(ById(fs[..p], w, v), f.data, ById(fs[p + 1..], w, v));
      DropMiddle(Pairs(fs[..p], v), (f.id, f.data), Pairs(fs[p + 1..], v));
      assert 0 <= |Pairs(fs[..p], v)| < |Pairs(fs, v)|;
    }
  }

  /** Deleting every index leaves no match in that view and nothing else changed. */
  lemma {:induction false} DeleteAllLaw(fs: seq<Field>, w: Which, v: View)
    requires Single(v)
    ensures ById(DeletedAll(fs, w, v), w, v) == []
    ensures Pairs(DeletedAll(fs, w, v), Other(v)) == Pairs(fs, Other(v))
    ensures forall u :: u != w && w.Id? && u.Id? ==> ById(DeletedAll(fs, w, v), u, v) == ById(fs, u, v)
  {
    if fs != [] {
      DeleteAllLaw(fs[1..], w, v);
      var kept := if Match(fs[0], w, v) then Cleared(fs[0], v) else [fs[0]];
      if Match(fs[0], w, v) {
        ClearedIn(fs[0], w, v);
      }
      PairsAppend(kept, DeletedAll(fs[1..], w, v), Other(v));
      ByIdAppend(kept, DeletedAll(fs[1..], w, v), w, v);
      forall u | u != w && w.Id? && u.Id? ensures ById(DeletedAll(fs, w, v), u, v) == ById(fs, u, v) {
        ByIdAppend(kept, DeletedAll(fs[1..], w, v), u, v);
      }
    }
  }

  lemma {:induction false} StoredAround(fs: seq<Field>, id: uint16, k: nat, data: Data,
      v: View) returns (mid: seq<Field>)
    requires Position(fs, Id(id), k, v) < |fs|
    ensures var p, f := Position(fs, Id(id), k, v), Field(id, data, v);
      && mid == (if fs[p].view == v then [f] else [Clear(fs[p], v)] + [f])
      && Stored(fs, id, k, data, v) == fs[..p] + mid + fs[p + 1..]
  {
    var p, f := Position(fs, Id(id), k, v), Field(id, data, v);
    mid := if fs[p].view == v then [f] else [Clear(fs[p], v)] + [f];
  }

  /** A value set in one view is no other id's concern. */
  lemma {:induction false} SetOtherId(fs: seq<Field>, id: uint16, k: nat, data: Data, v: View, u: uint16)
    requires Single(v) && u != id
    ensures ById(Stored(fs, id, k, data, v), Id(u), v) == ById(fs, Id(u), v)
  {
    PositionCounts(fs, Id(id), k, v);
    var p, f := Position(fs, Id(id), k, v), Field(id, data, v);
    OneField(f, Id(u), v);
    if p == |fs| {
      ByIdAppend(fs, [f], Id(u), v);
    } else {
      var g := Clear(fs[p], v);
      OneField(fs[p], Id(u), v);
      OneField(g, Id(u), v);
      var mid := StoredAround(fs, id, k, data, v);
      ByIdAppend([g], [f], Id(u), v);
      assert ById(mid, Id(u), v) == [];
      Around(fs, p, mid, Id(u), v);
    }
  }

  /** A value set in one view is what the lookup at its index then returns; every other lookup in that
      view stays. */
  lemma {:induction false} SetLaw(fs: seq<Field>, id: uint16, k: nat, data: Data, v: View)
    requires Single(v)
    ensures var before, after := ById(fs, Id(id), v), ById(Stored(fs, id, k, data, v), Id(id), v);
      after == if k < |before| then before[k := data] else before + [data]
    ensures forall u: uint16 :: u != id ==> ById(Stored(fs, id, k, data, v), Id(u), v) == ById(fs, Id(u), v)
  {
    forall u: uint16 | u != id ensures ById(Stored(fs, id, k, data, v), Id(u), v) == ById(fs, Id(u), v) {
      SetOtherId(fs, id, k, data, v, u);
    }
    PositionCounts(fs, Id(id), k, v);
    var p, f := Position(fs, Id(id), k, v), Field(id, data, v);
    OneField(f, Id(id), v);
    if p == |fs| {
      ByIdAppend(fs, [f], Id(id), v);
    } else {
      var g := Clear(fs[p], v);
      OneField(fs[p], Id(id), v);
      OneField(g, Id(id), v);
      var mid := StoredAround(fs, id, k, data, v);
      ByIdAppend([g], [f], Id(id), v);
      assert ById(mid, Id(id), v) == [data];
      Around(fs, p, mid, Id(id), v);
      ReplaceMiddle(ById(fs[..p], Id(id), v), fs[p].data, data, ById(fs[p + 1..], Id(id), v));
    }
  }

  lemma {:induction false} ReplaceMiddle<T>(a: seq<T>, x: T, y: T, c: seq<T>)
    ensures (a + [x] + c)[|a| := y] == a + [y] + c
  {}

  /** What takes the place of a replaced field shows the same as before in the other view. */
  lemma {:induction false} ReplacementElsewhere(g: Field, f: Field, v: View)
    requires Single(v) && In(g, v) && f.view == v
    ensures Pairs([f], Other(v)) == []
    ensures g.view == v ==> Pairs([g], Other(v)) == []
    ensures g.view != v ==> Pairs([Clear(g, v)] + [f], Other(v)) == Pairs([g], Other(v))
  {
    var u := Other(v);
    OneField(f, AnyId, u);
    OneField(g, AnyId, u);
    OneField(Clear(g, v), AnyId, u);
    PairsAppend([Clear(g, v)], [f], u);
  }

  /** A value set in one view leaves the other view alone. */
  lemma {:induction false} SetLeavesOther(fs: seq<Field>, id: uint16, k: nat, data: Data, v: View)
    requires Single(v)
    ensures Pairs(Stored(fs, id, k, data, v), Other(v)) == Pairs(fs, Other(v))
  {
    hide Pairs, Position, Other, Clear;
    var p, f := Position(fs, Id(id), k, v), Field(id, data, v);
    if p == |fs| {
      ReplacementElsewhere(f, f, v);
      PairsAppend(fs, [f], Other(v));
    } else {
      ReplacementElsewhere(fs[p], f, v);
      var mid := StoredAround(fs, id, k, data, v);
      Around(fs, p, mid, AnyId, Other(v));
    }
  }

  /** How a stored value changes the written length of a view. */
  lemma {:induction false} StoredSize(fs: seq<Field>, id: uint16, k: nat, data: Data, v: View, u: View)
    requires Single(u) && In(Field(0, [], v), v)
    ensures var p := Position(fs, Id(id), k, v);
      |Written(Stored(fs, id, k, data, v), u)| == |Written(fs, u)|
        - (if p < |fs| && In(fs[p], u) && In(fs[p].(view := u), v) then |fs[p].data| + 4 else 0)
        + (if In(Field(id, data, v), u) then |data| + 4 else 0)
  {
    hide Written, Position;
    var p, f := Position(fs, Id(id), k, v), Field(id, data, v);
    if p == |fs| {
      OneField(f, AnyId, u);
      WrittenAppend(fs, [f], u);
    } else {
      hide Stored;
      var mid := StoredAround(fs, id, k, data, v);
      ReplacementSize(fs[p], f, v, u);
      Around(fs, p, mid, AnyId, u);
    }
  }

  lemma {:induction false} ReplacementSize(g: Field, f: Field, v: View, u: View)
    requires Single(u) && In(g, v) && f.view == v
    ensures |Written([g], u)| == if In(g, u) then |g.data| + 4 else 0
    ensures |Written([f], u)| == if In(f, u) then |f.data| + 4 else 0
    ensures g.view == v ==> In(g, u) == In(g.(view := u), v)
    ensures |Written([Clear(g, v)] + [f], u)| == (if In(g, u) && !In(g.(view := u), v) then |g.data| + 4 else 0)
      + |Written([f], u)|
  {
    OneField(g, AnyId, u);
    OneField(f, AnyId, u);
    OneField(Clear(g, v), AnyId, u);
    WrittenAppend([Clear(g, v)], [f], u);
  }

  predicate WithinLimit(fs: seq<Field>) {
    |Written(fs, LOCAL)| <= UINT16_MAX && |Written(fs, CENTRAL)| <= UINT16_MAX
  }

  /** A view that lacks the field being replaced, while the new value enters it. */
  predicate Gains(fs: seq<Field>, id: uint16, k: nat, v: View, u: View) {
    var p := Position(fs, Id(id), k, v);
    v == BOTH && p < |fs| && !In(fs[p], u)
  }

  /** An accepted value keeps both views within 65535 bytes if and only if, should it enter a view
      that lacks the field it replaces, that view has room: the size check subtracts the old
      length even from a view that never held it. */
  lemma {:induction false} SetKeepsLimit(fs: seq<Field>, id: uint16, k: nat, data: Data, v: View)
    requires v == LOCAL || v == CENTRAL || v == BOTH
    requires WithinLimit(fs) && SetAllowed(fs, id, k, data, v)
    ensures WithinLimit(Stored(fs, id, k, data, v)) <==>
      && (Gains(fs, id, k, v, LOCAL) ==> |Written(fs, LOCAL)| + |data| + 4 <= UINT16_MAX)
      && (Gains(fs, id, k, v, CENTRAL) ==> |Written(fs, CENTRAL)| + |data| + 4 <= UINT16_MAX)
  {
    hide Stored, Written, Position, ById;
    StoredSize(fs, id, k, data, v, LOCAL);
    StoredSize(fs, id, k, data, v, CENTRAL);
  }

  lemma {:induction false} TwoFields(f: Field, g: Field, u: View)
    ensures |Written([f, g], u)| == (if In(f, u) then |f.data| + 4 else 0) + (if In(g, u) then |g.data| + 4 else 0)
  {
    OneField(f, AnyId, u);
    OneField(g, AnyId, u);
    WrittenAppend([f], [g], u);
    assert [f] + [g] == [f, g];
  }

  /** The failing case: a 1000-byte local field replaced in both views beside a 65000-byte central one. */
  lemma {:induction false} SetCanExceedLimit()
    ensures var fs := [Field(7, seq(1000, _ => 0), LOCAL), Field(8, seq(65000, _ => 0), CENTRAL)];
      var data := seq(1000, _ => 0);
      && WithinLimit(fs) && SetAllowed(fs, 7, 0, data, BOTH)
      && !WithinLimit(Stored(fs, 7, 0, data, BOTH))
  {
    var f, g := Field(7, seq(1000, _ => 0), LOCAL), Field(8, seq(65000, _ => 0), CENTRAL);
    var data := seq(1000, _ => 0);
    var fs := [f, g];
    TwoFields(f, g, LOCAL);
    TwoFields(f, g, CENTRAL);
    assert Position(fs, Id(7), 0, BOTH) == 0;
    StoredSize(fs, 7, 0, data, BOTH, CENTRAL);
    assert |Written(Stored(fs, 7, 0, data, BOTH), CENTRAL)| == 66008;
  }

  function PairSet(fs: seq<Field>, v: View): set<(uint16, Data)> {
    set p | p in Pairs(fs, v)
  }

  lemma {:induction false} InPairs(fs: seq<Field>, v: View, p: (uint16, Data))
    ensures p in Pairs(fs, v) <==> exists i :: 0 <= i < |fs| && In(fs[i], v) && (fs[i].id, fs[i].data) == p
  {
    if fs != [] {
      InPairs(fs[1..], v, p);
      if i :| 0 <= i < |fs[1..]| && In(fs[1..][i], v) && (fs[1..][i].id, fs[1..][i].data) == p {
        assert fs[i + 1] == fs[1..][i];
      }
      if i :| 0 <= i < |fs| && In(fs[i], v) && (fs[i].id, fs[i].data) == p {
        assert i > 0 ==> fs[1..][i - 1] == fs[i];
      }
    }
  }

  lemma {:induction false} MergeOneLaw(fs: seq<Field>, f: Field, v: View)
    ensures PairSet(MergedOne(fs, f), v) == PairSet(fs, v) + (if In(f, v) then {(f.id, f.data)} else {})
  {
    var gs := MergedOne(fs, f);
    var t := Twin(fs, f);
    forall p ensures p in PairSet(gs, v) <==> p in PairSet(fs, v) || (In(f, v) && p == (f.id, f.data)) {
      InPairs(fs, v, p);
      InPairs(gs, v, p);
      if i :| 0 <= i < |fs| && In(fs[i], v) && (fs[i].id, fs[i].data) == p {
        assert In(gs[i], v) && (gs[i].id, gs[i].data) == p;
      }
      if In(f, v) && p == (f.id, f.data) {
        assert In(gs[t], v) && (gs[t].id, gs[t].data) == p;
      }
      if i :| 0 <= i < |gs| && In(gs[i], v) && (gs[i].id, gs[i].data) == p {
        assert i < |fs| ==> (fs[i].id, fs[i].data) == p && (In(fs[i], v) || (i == t && In(f, v)));
      }
    }
  }

  /** Merging makes each view's set of (id, data) pairs the union of the two lists' views. */
  lemma {:induction false} MergeLaw(to: seq<Field>, from: seq<Field>, v: View)
    ensures PairSet(Merged(to, from), v) == PairSet(to, v) + PairSet(from, v)
    decreases |from|
  {
    if to != [] && from != [] {
      MergeOneLaw(to, from[0], v);
      MergeLaw(MergedOne(to, from[0]), from[1..], v);
      assert Pairs(from, v) == (if In(from[0], v) then [(from[0].id, from[0].data)] else []) + Pairs(from[1..], v);
    }
  }
}
