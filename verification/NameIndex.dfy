/**
 Entry names and the index over them: adding, renaming, replacing, deleting and unchanging entries
 (zip_set_name.c, zip_file_rename.c, zip_delete.c, zip_unchange.c, zip_unchange_data.c,
 zip_unchange_all.c, zip_file_replace.c, zip_add_entry.c, the registration loop of zip_open.c).
 */
module NameIndex {
  import opened Bytes
  import opened ZipBuffer
  import opened Output
  import opened NameHash

  datatype Method = Unchanged | Chosen | ReplacedDefault

  /** An entry's edited properties: its name, and which of them have been changed. */
  datatype Changes = Changes(name: Name, renamed: bool, compression: Method, other: bool)

  datatype Entry = Entry(orig: Option<Name>, changes: Option<Changes>, hasSource: bool, deleted: bool)

  datatype World = World(entries: seq<Entry>, index: Index, readOnly: bool)

  const NEW_ENTRY := Entry(None, None, false, false)

  function Cleared(c: Changes): Option<Changes> {
    if c.renamed || c.compression != Unchanged || c.other then Some(c) else None
  }

  /** `_zip_unchange_data`. */
  function UnchangedData(e: Entry): Entry {
    var changes :=
      if e.changes.Some? && e.changes.value.compression == ReplacedDefault then
        Cleared(e.changes.value.(compression := Unchanged))
      else e.changes;
    e.(hasSource := false, changes := changes, deleted := false)
  }

  function NameOf(e: Entry): Result<Name> {
    if e.changes.Some? then Ok(e.changes.value.name)
    else if e.orig.None? then Err(Invalid)
    else if e.deleted then Err(Deleted)
    else Ok(e.orig.value)
  }

  function DroppedIf(m: Index, name: Name): Index {
    if Dropped(m, name).Ok? then Dropped(m, name).value else m
  }

  /** The changes `_zip_set_name` starts from. */
  function Edited(e: Entry, name: Name): Option<Changes> {
    if e.orig != Some(name) && e.changes.None? then Some(Changes(e.orig.GetOr([]), false, Unchanged, false)) else e.changes
  }

  function Renamed(e: Entry, name: Name): Option<Changes> {
    var d := Edited(e, name);
    if e.orig == Some(name) then
      if d.Some? && d.value.renamed then Cleared(d.value.(renamed := false, name := name)) else d
    else
      Some(d.value.(name := name, renamed := true))
  }

  /** `_zip_set_name`. An empty old name is not taken out of the index. */
  function AfterSetName(w: World, i: nat, name: Name): (r: (World, Option<Error>))
    ensures |r.0.entries| == |w.entries| && r.0.readOnly == w.readOnly
  {
    if i >= |w.entries| then (w, Some(Invalid))
    else if w.readOnly then (w, Some(ReadOnly))
    else
      var at, e := Found(w.index, name, false), w.entries[i];
      if at.Some? && at.value != i then (w, Some(Exists))
      else if at.Some? then (w, None)
      else
        var d := Edited(e, name);
        var was := if d.Some? then d.value.name else e.orig.GetOr([]);
        match Added(w.index, name, i, false)
        case Err(x) => (w.(entries := w.entries[i := e.(changes := d)]), Some(x))
        case Ok(m) =>
          (w.(entries := w.entries[i := e.(changes := Renamed(e, name))], index := if was == [] then m else DroppedIf(m, was)), None)
  }

  predicate IsDir(name: Name) {
    name != [] && name[|name| - 1] == 47
  }

  /** `zip_file_rename`: a directory stays one, and nothing else becomes one. */
  function AfterRename(w: World, i: nat, name: Name): (World, Option<Error>) {
    if i >= |w.entries| || |name| > UINT16_MAX then (w, Some(Invalid))
    else if w.readOnly then (w, Some(ReadOnly))
    else match NameOf(w.entries[i])
      case Err(x) => (w, Some(x))
      case Ok(was) => if IsDir(name) != IsDir(was) then (w, Some(Invalid)) else AfterSetName(w, i, name)
  }

  function Plain(e: Entry): Entry {
    UnchangedData(e.(changes := None))
  }

  /** `zip_unchange`. */
  function AfterUnchange(w: World, i: nat): (World, Option<Error>) {
    if i >= |w.entries| then (w, Some(Invalid))
    else
      var e := w.entries[i];
      var plain := w.entries[i := Plain(e)];
      if e.changes.None? || !e.changes.value.renamed then (w.(entries := plain), None)
      else
        var newName := e.changes.value.name;
        if e.orig.None? then
          match Dropped(w.index, newName)
          case Err(x) => (w, Some(x))
          case Ok(m) => (w.(entries := plain, index := m), None)
        else
          var at := Found(w.index, e.orig.value, false);
          if at.Some? && at.value != i then (w, Some(Exists))
          else match Added(w.index, e.orig.value, i, false)
            case Err(x) => (w, Some(x))
            case Ok(m) =>
              match Dropped(m, newName)
              case Err(x) => (w.(index := DroppedIf(m, e.orig.value)), Some(x))
              case Ok(m2) => (w.(entries := plain, index := m2), None)
  }

  /** `zip_delete`. */
  function AfterDelete(w: World, i: nat): (World, Option<Error>) {
    if i >= |w.entries| then (w, Some(Invalid))
    else if w.readOnly then (w, Some(ReadOnly))
    else match NameOf(w.entries[i])
      case Err(x) => (w, Some(x))
      case Ok(name) =>
        match Dropped(w.index, name)
        case Err(x) => (w, Some(x))
        case Ok(m) => (w.(entries := w.entries[i := Plain(w.entries[i]).(deleted := true)], index := m), None)
  }

  /** `zip_unchange_all`. */
  function AfterUnchangeAll(w: World): (World, Option<Error>) {
    (w.(entries := seq(|w.entries|, i requires 0 <= i < |w.entries| => Plain(w.entries[i])), index := Reverted(w.index)), None)
  }

  function WithSource(e: Entry): Entry {
    var f := UnchangedData(e);
    var changes :=
      if f.orig.Some? && (f.changes.None? || f.changes.value.compression == Unchanged) then
        var c := f.changes.GetOr(Changes(f.orig.value, false, Unchanged, false));
        Some(c.(compression := ReplacedDefault))
      else f.changes;
    f.(changes := changes, hasSource := true)
  }

  /** `_zip_file_replace` with a name, as `zip_file_add` calls it. A failed addition is undone. */
  function AfterAdd(w: World, name: Name, overwrite: bool): (World, Option<Error>) {
    if w.readOnly then (w, Some(ReadOnly))
    else
      var at := if overwrite then Found(w.index, name, false) else None;
      var v := if at.Some? then w else w.(entries := w.entries + [NEW_ENTRY]);
      var i := if at.Some? then at.value else |w.entries|;
      var (u, error) := AfterSetName(v, i, name);
      if error.Some? then
        (if at.None? && |u.entries| > 0 then u.(entries := u.entries[..|u.entries| - 1]) else u, error)
      else if i >= |u.entries| then (u, Some(Invalid))
      else (u.(entries := u.entries[i := WithSource(u.entries[i])]), None)
  }

  /** `zip_file_replace`. */
  function AfterReplace(w: World, i: nat): (World, Option<Error>) {
    if i >= |w.entries| then (w, Some(Invalid))
    else if w.readOnly then (w, Some(ReadOnly))
    else (w.(entries := w.entries[i := WithSource(w.entries[i])]), None)
  }

  datatype Edit =
    | Rename(i: nat, name: Name) | Delete(i: nat) | Unchange(i: nat) | UnchangeAll
    | AddFile(name: Name, overwrite: bool) | ReplaceFile(i: nat)

  function Step(w: World, op: Edit): (World, Option<Error>) {
    match op
    case Rename(i, name) => AfterRename(w, i, name)
    case Delete(i) => AfterDelete(w, i)
    case Unchange(i) => AfterUnchange(w, i)
    case UnchangeAll => AfterUnchangeAll(w)
    case AddFile(name, overwrite) => AfterAdd(w, name, overwrite)
    case ReplaceFile(i) => AfterReplace(w, i)
  }

  // ----- The invariant -----

  /** The name an entry goes by. */
  function CurrentName(e: Entry): Option<Name> {
    if e.deleted then None else if e.changes.Some? then Some(e.changes.value.name) else e.orig
  }

  /** What the operations keep of a single entry. */
  predicate Shaped(e: Entry) {
    && (e.deleted ==> e.changes.None?)
    && (e.changes.Some? ==>
          if e.orig.None? then e.changes.value.renamed
          else e.changes.value.renamed <==> Some(e.changes.value.name) != e.orig)
  }

  predicate AllShaped(w: World) {
    |w.entries| <= INT64_MAX + 1 && forall i :: 0 <= i < |w.entries| ==> Shaped(w.entries[i])
  }

  predicate Goes(es: seq<Entry>, i: nat, name: Name) {
    i < |es| && CurrentName(es[i]) == Some(name)
  }

  predicate Went(es: seq<Entry>, i: nat, name: Name) {
    i < |es| && es[i].orig == Some(name)
  }

  /** Looking up a name yields an index if and only if that entry goes by that name, in either view. */
  ghost predicate Agree(w: World) {
    && (forall name: Name, i: nat :: Found(w.index, name, false) == Some(i) <==> Goes(w.entries, i, name))
    && (forall name: Name, i: nat :: Found(w.index, name, true) == Some(i) <==> Went(w.entries, i, name))
  }

  ghost predicate Good(w: World) {
    AllShaped(w) && Meaningful(w.index) && Agree(w)
  }

  /** Unchanging or replacing a deleted original entry brings it back, but not its name. */
  predicate Revives(w: World, op: Edit) {
    && (op.Unchange? || (op.ReplaceFile? && !w.readOnly))
    && op.i < |w.entries| && w.entries[op.i].deleted && w.entries[op.i].orig.Some?
  }

  /** No entry has, or had, the empty name. */
  predicate Named(w: World) {
    forall i :: 0 <= i < |w.entries| ==> w.entries[i].orig != Some([]) && CurrentName(w.entries[i]) != Some([])
  }

  predicate OpNamed(op: Edit) {
    (op.Rename? || op.AddFile?) ==> op.name != []
  }

  // ----- Single steps -----

  /** In the index, entry `i` moves from one name to another; the original view stays. */
  ghost predicate Moves(m: Index, n: Index, i: nat, from: Option<Name>, to: Option<Name>) {
    && (forall name: Name :: Found(n, name, true) == Found(m, name, true))
    && (forall name: Name :: Found(n, name, false) ==
          if to == Some(name) then Some(i) else if from == Some(name) then None else Found(m, name, false))
  }

  /** If an entry and the index move together, they still agree. */
  lemma {:induction false} MovesTogether(w: World, v: World, i: nat, e: Entry)
    requires Agree(w) && i < |w.entries| && v.entries == w.entries[i := e] && e.orig == w.entries[i].orig
    requires Moves(w.index, v.index, i, CurrentName(w.entries[i]), CurrentName(e))
    requires CurrentName(e).Some? ==> Found(w.index, CurrentName(e).value, false) in {None, Some(i)}
    ensures Agree(v)
  {
    hide Found, CurrentName;
    forall name: Name, j: nat ensures Found(v.index, name, false) == Some(j) <==> Goes(v.entries, j, name) {
      assert Found(w.index, name, false) == Some(j) <==> Goes(w.entries, j, name);
      assert Found(w.index, name, false) == Some(i) <==> Goes(w.entries, i, name);
    }
    forall name: Name, j: nat ensures Found(v.index, name, true) == Some(j) <==> Went(v.entries, j, name) {
      assert Found(w.index, name, true) == Some(j) <==> Went(w.entries, j, name);
    }
  }

  lemma {:induction false} AddedMoves(m: Index, name: Name, i: nat)
    requires Found(m, name, false) == None && i <= INT64_MAX && Meaningful(m)
    ensures Added(m, name, i, false).Ok?
    ensures Moves(m, Added(m, name, i, false).value, i, None, Some(name)) && Meaningful(Added(m, name, i, false).value)
  {}

  lemma {:induction false} DroppedMoves(m: Index, name: Name, i: nat)
    requires Found(m, name, false).Some? && Meaningful(m)
    ensures Dropped(m, name).Ok?
    ensures Moves(m, Dropped(m, name).value, i, Some(name), None) && Meaningful(Dropped(m, name).value)
  {}

  lemma {:induction false} MovesTwice(m: Index, n: Index, p: Index, i: nat, from: Name, to: Name)
    requires Moves(m, n, i, None, Some(to)) && Moves(n, p, i, Some(from), None) && from != to
    ensures Moves(m, p, i, Some(from), Some(to))
  {
    hide Found;
  }

  /** Renaming a live entry whose name is not empty. Failing changes nothing. */
  lemma {:induction false} SetNameKeeps(w: World, i: nat, name: Name)
    requires Agree(w) && Meaningful(w.index) && i < |w.entries| && i <= INT64_MAX
    requires Shaped(w.entries[i]) && !w.entries[i].deleted && CurrentName(w.entries[i]) != Some([])
    ensures var (v, error) := AfterSetName(w, i, name);
      if error.Some? then v == w
      else
        && Agree(v) && Meaningful(v.index) && |v.entries| == |w.entries| && v.entries == w.entries[i := v.entries[i]]
        && v.entries[i].orig == w.entries[i].orig && Shaped(v.entries[i]) && CurrentName(v.entries[i]) == Some(name)
  {
    var at, e := Found(w.index, name, false), w.entries[i];
    var (v, error) := AfterSetName(w, i, name);
    assert at == Some(i) <==> Goes(w.entries, i, name);
    if !w.readOnly && at.None? {
      AddedMoves(w.index, name, i);
      var m := Added(w.index, name, i, false).value;
      var was := CurrentName(e);
      if was.Some? {
        assert Found(w.index, was.value, false) == Some(i) by {
          assert Goes(w.entries, i, was.value);
        }
        DroppedMoves(m, was.value, i);
        MovesTwice(w.index, m, v.index, i, was.value, name);
      }
      hide Found, Added, Dropped;
      MovesTogether(w, v, i, v.entries[i]);
    }
  }

  lemma {:induction false} PlainIs(e: Entry)
    ensures Plain(e) == Entry(e.orig, None, false, false)
  {}

  lemma {:induction false} UnchangeKeeps(w: World, i: nat)
    requires Good(w) && i < |w.entries|
    ensures var (v, error) := AfterUnchange(w, i);
      if error.Some? then v == w else Good(v) <==> !Revives(w, Edit.Unchange(i))
  {
    var e := w.entries[i];
    var (v, error) := AfterUnchange(w, i);
    PlainIs(e);
    if e.changes.Some? && e.changes.value.renamed {
      var newName := e.changes.value.name;
      assert Found(w.index, newName, false) == Some(i) by {
        assert Goes(w.entries, i, newName);
      }
      if e.orig.None? {
        DroppedMoves(w.index, newName, i);
        MovesTogether(w, v, i, v.entries[i]);
      } else {
        assert Found(w.index, e.orig.value, false) == Some(i) <==> Goes(w.entries, i, e.orig.value);
        if error.None? {
          AddedMoves(w.index, e.orig.value, i);
          var m := Added(w.index, e.orig.value, i, false).value;
          DroppedMoves(m, newName, i);
          MovesTwice(w.index, m, v.index, i, newName, e.orig.value);
          MovesTogether(w, v, i, v.entries[i]);
        } else {
          AddedOrExists(w, i);
        }
      }
    } else {
      SameNames(w, v, i);
    }
  }

  /** An edit that leaves the index alone keeps agreement if and only if the entry keeps its name. */
  lemma {:induction false} SameNames(w: World, v: World, i: nat)
    requires Agree(w) && i < |w.entries| && |v.entries| == |w.entries| && v.index == w.index
    requires v.entries == w.entries[i := v.entries[i]] && v.entries[i].orig == w.entries[i].orig
    ensures Agree(v) <==> CurrentName(v.entries[i]) == CurrentName(w.entries[i])
  {
    hide Found, CurrentName;
    var a, b := CurrentName(w.entries[i]), CurrentName(v.entries[i]);
    if a == b {
      forall name: Name, j: nat ensures Goes(v.entries, j, name) <==> Goes(w.entries, j, name) {}
      forall name: Name, j: nat ensures Went(v.entries, j, name) <==> Went(w.entries, j, name) {}
      assert Agree(v);
    } else if a.Some? {
      assert Goes(w.entries, i, a.value) && !Goes(v.entries, i, a.value);
    } else {
      assert Goes(v.entries, i, b.value) && !Goes(w.entries, i, b.value);
    }
  }

  /** Undoing a rename fails only because another entry has taken the original name. */
  lemma {:induction false} AddedOrExists(w: World, i: nat)
    requires Good(w) && i < |w.entries| && w.entries[i].orig.Some?
    requires w.entries[i].changes.Some? && w.entries[i].changes.value.renamed
    ensures var at := Found(w.index, w.entries[i].orig.value, false);
      (at.Some? && at.value != i) || AfterUnchange(w, i).1.None?
  {
    var e := w.entries[i];
    var at, newName := Found(w.index, e.orig.value, false), e.changes.value.name;
    assert at == Some(i) <==> Goes(w.entries, i, e.orig.value);
    assert Found(w.index, newName, false) == Some(i) by {
      assert Goes(w.entries, i, newName);
    }
    if at.None? {
      AddedMoves(w.index, e.orig.value, i);
      DroppedMoves(Added(w.index, e.orig.value, i, false).value, newName, i);
    }
  }

  lemma {:induction false} DeleteKeeps(w: World, i: nat)
    requires Good(w) && i < |w.entries|
    ensures var (v, error) := AfterDelete(w, i); if error.Some? then v == w else Good(v) && v.entries[i].deleted
    ensures AfterDelete(w, i).1.None? <==> !w.readOnly && CurrentName(w.entries[i]).Some?
  {
    var e := w.entries[i];
    var (v, error) := AfterDelete(w, i);
    PlainIs(e);
    var name := CurrentName(e);
    if !w.readOnly && name.Some? {
      assert Found(w.index, name.value, false) == Some(i) by {
        assert Goes(w.entries, i, name.value);
      }
      DroppedMoves(w.index, name.value, i);
      MovesTogether(w, v, i, v.entries[i]);
    }
  }

  lemma {:induction false} WithSourceKeepsName(e: Entry)
    requires Shaped(e)
    ensures var f := WithSource(e);
      && Shaped(f) && f.orig == e.orig
      && (CurrentName(f) == CurrentName(e) <==> !(e.deleted && e.orig.Some?))
      && (CurrentName(f) != CurrentName(e) ==> CurrentName(f) == e.orig)
  {}

  lemma {:induction false} ReplaceKeeps(w: World, i: nat)
    requires Good(w) && i < |w.entries|
    ensures var (v, error) := AfterReplace(w, i);
      if error.Some? then v == w else Good(v) <==> !Revives(w, Edit.ReplaceFile(i))
  {
    WithSourceKeepsName(w.entries[i]);
    var (v, error) := AfterReplace(w, i);
    hide WithSource;
    if error.None? {
      SameNames(w, v, i);
    }
  }

  lemma {:induction false} UnchangeAllKeeps(w: World)
    requires Good(w)
    ensures Good(AfterUnchangeAll(w).0) && AfterUnchangeAll(w).1.None?
    ensures forall i :: 0 <= i < |w.entries| ==> CurrentName(AfterUnchangeAll(w).0.entries[i]) == w.entries[i].orig
  {
    var v := AfterUnchangeAll(w).0;
    forall i | 0 <= i < |w.entries| ensures v.entries[i] == Entry(w.entries[i].orig, None, false, false) {
      PlainIs(w.entries[i]);
    }
    forall name: Name ensures Found(v.index, name, false) == Found(w.index, name, true) == Found(v.index, name, true) {}
    assert Meaningful(v.index);
    hide Found, Plain, Reverted;
    forall name: Name, i: nat ensures Found(v.index, name, false) == Some(i) <==> Goes(v.entries, i, name) {
      assert Found(w.index, name, true) == Some(i) <==> Went(w.entries, i, name);
    }
    forall name: Name, i: nat ensures Found(v.index, name, true) == Some(i) <==> Went(v.entries, i, name) {
      assert Found(w.index, name, true) == Some(i) <==> Went(w.entries, i, name);
    }
  }

  lemma {:induction false} RenameKeeps(w: World, i: nat, name: Name)
    requires Good(w) && Named(w)
    ensures var (v, error) := AfterRename(w, i, name); if error.Some? then v == w else Good(v) && (name != [] ==> Named(v))
  {
    if i < |w.entries| && NameOf(w.entries[i]).Ok? {
      SetNameKeeps(w, i, name);
    }
    hide AfterSetName, Found, IsDir;
  }

  lemma {:induction false} NewEntryAgrees(w: World)
    requires Agree(w)
    ensures Agree(w.(entries := w.entries + [NEW_ENTRY]))
  {
    hide Found;
    var v := w.(entries := w.entries + [NEW_ENTRY]);
    forall name: Name, i: nat ensures Goes(v.entries, i, name) <==> Goes(w.entries, i, name) {}
    forall name: Name, i: nat ensures Went(v.entries, i, name) <==> Went(w.entries, i, name) {}
  }

  /** With a place left for it, or without one, adding succeeds or changes nothing. */
  lemma {:induction false} AddFileKeeps(w: World, name: Name, overwrite: bool)
    requires Good(w) && Named(w) && name != []
    ensures var (v, error) := AfterAdd(w, name, overwrite); if error.Some? then v == w else Good(v) && Named(v)
  {
    var at := if overwrite then Found(w.index, name, false) else None;
    if !w.readOnly {
      if at.Some? {
        AddOver(w, name, at.value);
      } else if |w.entries| <= INT64_MAX {
        AddNew(w, name);
      } else {
        TooMany(w, name);
      }
      hide AfterSetName, WithSource, Found;
    }
  }

  lemma {:induction false} AddOver(w: World, name: Name, i: nat)
    requires Good(w) && Named(w) && name != [] && Found(w.index, name, false) == Some(i) && !w.readOnly
    ensures i < |w.entries| && AfterSetName(w, i, name) == (w, None)
    ensures var v := w.(entries := w.entries[i := WithSource(w.entries[i])]); Good(v) && Named(v)
  {
    assert Goes(w.entries, i, name);
    ReplaceKeeps(w, i);
    WithSourceKeepsName(w.entries[i]);
    hide WithSource, Found;
  }

  lemma {:induction false} AddNew(w: World, name: Name)
    requires Good(w) && Named(w) && name != [] && |w.entries| <= INT64_MAX && !w.readOnly
    ensures var v := w.(entries := w.entries + [NEW_ENTRY]); var (u, error) := AfterSetName(v, |w.entries|, name);
      && |u.entries| == |w.entries| + 1
      && (error.Some? ==> u.(entries := u.entries[..|w.entries|]) == w)
      && (error.None? ==>
            var t := u.(entries := u.entries[|w.entries| := WithSource(u.entries[|w.entries|])]); Good(t) && Named(t))
  {
    var v := w.(entries := w.entries + [NEW_ENTRY]);
    NewEntryAgrees(w);
    SetNameKeeps(v, |w.entries|, name);
    var (u, error) := AfterSetName(v, |w.entries|, name);
    if error.None? {
      hide AfterSetName, Found;
      WithSourceKeepsName(u.entries[|w.entries|]);
      hide WithSource;
      SameNames(u, u.(entries := u.entries[|w.entries| := WithSource(u.entries[|w.entries|])]), |w.entries|);
    } else {
      assert v.entries[..|w.entries|] == w.entries;
    }
  }

  lemma {:induction false} TooMany(w: World, name: Name)
    requires Good(w) && |w.entries| == INT64_MAX + 1 && !w.readOnly
    ensures var v := w.(entries := w.entries + [NEW_ENTRY]); var (u, error) := AfterSetName(v, |w.entries|, name);
      error.Some? && |u.entries| == |w.entries| + 1 && u.(entries := u.entries[..|w.entries|]) == w
  {
    var at := Found(w.index, name, false);
    if at.Some? {
      assert Goes(w.entries, at.value, name);
    }
    var v := w.(entries := w.entries + [NEW_ENTRY]);
    var (u, error) := AfterSetName(v, |w.entries|, name);
    assert u.entries[..|w.entries|] == w.entries;
  }

  // ----- Whole runs -----

  /** A step that fails leaves entries and index as they were; one that succeeds keeps them in
      agreement if and only if it does not revive a deleted entry. */
  lemma {:induction false} StepKeeps(w: World, op: Edit)
    requires Good(w) && Named(w) && OpNamed(op)
    ensures var (v, error) := Step(w, op);
      if error.Some? then v == w else Good(v) <==> !Revives(w, op)
    ensures !Revives(w, op) ==> Named(Step(w, op).0)
  {
    match op {
      case Rename(i, name) =>
        RenameKeeps(w, i, name);
      case Delete(i) =>
        if i < |w.entries| {
          DeleteKeeps(w, i);
        }
        DeleteNamed(w, i);
      case Unchange(i) =>
        if i < |w.entries| {
          UnchangeKeeps(w, i);
        }
        UnchangeNamed(w, i);
      case UnchangeAll =>
        UnchangeAllKeeps(w);
        hide AfterUnchangeAll;
        UnchangeAllNamed(w);
      case AddFile(name, overwrite) =>
        AddFileKeeps(w, name, overwrite);
      case ReplaceFile(i) =>
        if i < |w.entries| {
          ReplaceKeeps(w, i);
        }
        ReplaceNamed(w, i);
    }
    hide AfterRename, AfterDelete, AfterUnchange, AfterUnchangeAll, AfterAdd, AfterReplace;
  }

  lemma {:induction false} DeleteNamed(w: World, i: nat)
    requires Named(w)
    ensures Named(AfterDelete(w, i).0)
  {
    hide Dropped;
  }

  lemma {:induction false} UnchangeNamed(w: World, i: nat)
    requires Named(w)
    ensures Named(AfterUnchange(w, i).0)
  {
    hide Dropped, Added, Found;
  }

  lemma {:induction false} UnchangeAllNamed(w: World)
    requires Named(w)
    ensures Named(AfterUnchangeAll(w).0)
  {
    hide Reverted;
  }

  lemma {:induction false} ReplaceNamed(w: World, i: nat)
    requires Named(w) && AllShaped(w)
    ensures Named(AfterReplace(w, i).0)
  {}

  function Run(w: World, ops: seq<Edit>): World
    decreases |ops|
  {
    if ops == [] then w else Step(Run(w, ops[..|ops| - 1]), ops[|ops| - 1]).0
  }

  /** No operation of the run unchanges or replaces a deleted entry or uses an empty name. */
  ghost predicate Sensible(w: World, ops: seq<Edit>) {
    forall k :: 0 <= k < |ops| ==> OpNamed(ops[k]) && !Revives(Run(w, ops[..k]), ops[k])
  }

  /** After any such run, looking up a name yields an index exactly if that entry goes by the name. */
  lemma {:induction false} IndexAgrees(w: World, ops: seq<Edit>)
    requires Good(w) && Named(w) && Sensible(w, ops)
    ensures Good(Run(w, ops)) && Named(Run(w, ops))
    decreases |ops|
  {
    hide Step, Good, Named, Revives;
    if ops != [] {
      var n := |ops| - 1;
      assert Sensible(w, ops[..n]) by {
        assert forall k :: 0 <= k < n ==> ops[..n][k] == ops[k] && ops[..n][..k] == ops[..k];
      }
      IndexAgrees(w, ops[..n]);
      StepKeeps(Run(w, ops[..n]), ops[n]);
    }
  }

  /** Renaming away from a name leaves the index in agreement if and only if that name is not empty. */
  lemma {:induction false} EmptyNameStays(w: World, i: nat, name: Name)
    requires Good(w) && i < |w.entries| && CurrentName(w.entries[i]).Some? && !w.readOnly
    requires Found(w.index, name, false) == None
    ensures AfterSetName(w, i, name).1 == None
    ensures Agree(AfterSetName(w, i, name).0) <==> CurrentName(w.entries[i]) != Some([])
  {
    var was := CurrentName(w.entries[i]).value;
    if was != [] {
      SetNameKeeps(w, i, name);
      AddedMoves(w.index, name, i);
    } else {
      assert Goes(w.entries, i, []);
      AddedMoves(w.index, name, i);
      var v := AfterSetName(w, i, name).0;
      assert Found(v.index, [], false) == Some(i) && !Goes(v.entries, i, []);
    }
  }

  lemma {:induction false} RunTwo(w: World, a: Edit, b: Edit)
    ensures Run(w, [a, b]) == Step(Step(w, a).0, b).0
  {
    hide Step;
    assert [a, b][..1] == [a] && [a][..0] == [];
    assert Run(w, [a]) == Step(Run(w, []), a).0;
  }

  /** An archive of one entry. */
  function Single(name: Name): World {
    World([Entry(Some(name), None, false, false)], map[name := Views(Some(0), Some(0))], false)
  }

  /** Deleted and brought back, an entry is there under its name again, but not to be found by it. */
  lemma {:induction false} RevivedIsLost(name: Name)
    requires name != []
    ensures Good(Single(name)) && Named(Single(name))
    ensures var w := Run(Single(name), [Edit.Delete(0), Unchange(0)]);
      |w.entries| == 1 && CurrentName(w.entries[0]) == Some(name) && Found(w.index, name, false) == None && !Good(w)
  {
    var s := Single(name);
    assert forall other: Name, i: nat :: Goes(s.entries, i, other) <==> i == 0 && other == name;
    RunTwo(s, Edit.Delete(0), Unchange(0));
    var gone := World([Entry(Some(name), None, false, true)], map[name := Views(Some(0), None)], false);
    assert Step(s, Edit.Delete(0)).0 == gone;
    var w := Step(gone, Unchange(0)).0;
    assert w == gone.(entries := s.entries);
    assert Goes(w.entries, 0, name) && Found(w.index, name, false) != Some(0);
  }

  // ----- Opening -----

  /** The entries as opened, and the index after the first `n` names have been registered. */
  function Opened(names: seq<Name>): seq<Entry> {
    seq(|names|, i requires 0 <= i < |names| => Entry(Some(names[i]), None, false, false))
  }

  function Registered(names: seq<Name>): Index {
    if names == [] then map[]
    else
      var m := Registered(names[..|names| - 1]);
      var r := Added(m, names[|names| - 1], |names| - 1, true);
      if r.Ok? then r.value else m
  }

  predicate DistinctNames(names: seq<Name>) {
    forall i, j :: 0 <= i < j < |names| ==> names[i] != names[j]
  }

  predicate FirstAt(names: seq<Name>, i: nat, name: Name) {
    i < |names| && names[i] == name && name !in names[..i]
  }

  /** A name that occurs twice is registered for its first entry only. */
  lemma {:induction false} RegisteredFirst(names: seq<Name>)
    requires |names| <= INT64_MAX + 1
    ensures Meaningful(Registered(names))
    ensures forall name: Name, i: nat :: Found(Registered(names), name, false) == Some(i) <==> FirstAt(names, i, name)
    ensures forall name: Name :: Found(Registered(names), name, true) == Found(Registered(names), name, false)
  {
    if names != [] {
      var n := |names| - 1;
      RegisteredFirst(names[..n]);
      var m, last := Registered(names[..n]), names[n];
      FirstPlace(names[..n], last);
      assert Found(m, last, false).Some? <==> last in names[..n] by {
        if Found(m, last, false).Some? {
          assert FirstAt(names[..n], Found(m, last, false).value, last);
        }
      }
      AddedOriginal(m, last, n);
      hide Found, Added;
      forall name: Name, i: nat ensures Found(Registered(names), name, false) == Some(i) <==> FirstAt(names, i, name) {
        FirstAtMore(names, i, name);
        assert Found(m, name, false) == Some(i) <==> FirstAt(names[..n], i, name);
      }
    }
  }

  lemma {:induction false} FirstAtMore(names: seq<Name>, i: nat, name: Name)
    requires names != []
    ensures var n := |names| - 1;
      FirstAt(names, i, name) <==> FirstAt(names[..n], i, name) || (i == n && names[n] == name && name !in names[..n])
  {
    var n := |names| - 1;
    assert i <= n ==> names[..n][..i] == names[..i];
  }

  lemma {:induction false} AddedOriginal(m: Index, name: Name, i: nat)
    requires Meaningful(m) && i <= INT64_MAX
    requires forall other: Name :: Found(m, other, true) == Found(m, other, false)
    ensures var r := Added(m, name, i, true);
      if Found(m, name, false).Some? then r.Err?
      else
        && r.Ok? && Meaningful(r.value)
        && (forall other: Name :: Found(r.value, other, true) == Found(r.value, other, false))
        && (forall other: Name :: Found(r.value, other, false) == if other == name then Some(i) else Found(m, other, false))
  {
    var r := Added(m, name, i, true);
    if r.Ok? {
      forall other: Name ensures Found(r.value, other, true) == Found(r.value, other, false) {
        assert Found(m, other, true) == Found(m, other, false);
      }
    }
  }

  lemma {:induction false} FirstPlace(names: seq<Name>, name: Name)
    ensures name in names ==> exists i: nat :: FirstAt(names, i, name)
  {
    if name in names {
      var n := |names| - 1;
      if name in names[..n] {
        FirstPlace(names[..n], name);
        var i: nat :| FirstAt(names[..n], i, name);
        assert names[..n][..i] == names[..i];
        assert FirstAt(names, i, name);
      } else {
        assert FirstAt(names, n, name);
      }
    }
  }

  /** A freshly opened archive is in agreement if and only if its names are distinct. */
  lemma {:induction false} OpenAgrees(names: seq<Name>, readOnly: bool)
    requires |names| <= INT64_MAX + 1
    ensures Good(World(Opened(names), Registered(names), readOnly)) <==> DistinctNames(names)
  {
    hide Found, Registered, FirstAt;
    RegisteredFirst(names);
    var w := World(Opened(names), Registered(names), readOnly);
    if DistinctNames(names) {
      forall name: Name, i: nat ensures FirstAt(names, i, name) == Goes(w.entries, i, name) == Went(w.entries, i, name) {
        DistinctFirst(names, i, name);
      }
      forall name: Name, i: nat ensures Found(w.index, name, true) == Some(i) <==> Went(w.entries, i, name) {
        assert Found(w.index, name, true) == Found(w.index, name, false);
        assert Found(w.index, name, false) == Some(i) <==> FirstAt(names, i, name);
      }
      forall name: Name, i: nat ensures Found(w.index, name, false) == Some(i) <==> Goes(w.entries, i, name) {}
    } else {
      var i, j :| 0 <= i < j < |names| && names[i] == names[j];
      NotFirst(names, i, j);
      assert Goes(w.entries, j, names[j]) && Found(w.index, names[j], false) != Some(j);
    }
  }

  lemma {:induction false} DistinctFirst(names: seq<Name>, i: nat, name: Name)
    requires DistinctNames(names)
    ensures FirstAt(names, i, name) <==> i < |names| && names[i] == name
  {}

  lemma {:induction false} NotFirst(names: seq<Name>, i: nat, j: nat)
    requires i < j < |names| && names[i] == names[j]
    ensures !FirstAt(names, j, names[j])
  {
    assert names[..j][i] == names[j];
  }

  // ----- The archive -----

  class Archive {
    var entries: seq<Entry>
    var names: Table
    var readOnly: bool

    ghost predicate Valid()
      reads this, names
    {
      names.Valid()
    }

    ghost function State(): World
      reads this, names
    {
      World(entries, names.views, readOnly)
    }

    /** The end of `_zip_open`: every entry's name is registered; a duplicate is an error only if
        consistency is to be checked. */
    constructor (originals: seq<Name>, readOnly: bool)
      ensures Valid() && fresh(names) && State() == World(Opened(originals), Registered(originals), readOnly)
    {
      hide Added;
      entries, this.readOnly := Opened(originals), readOnly;
      names := new Table();
      new;
      names.ReserveCapacity(|originals|);
      assert originals[..0] == [];
      for i := 0 to |originals|
        invariant Valid() && fresh(names) && entries == Opened(originals) && this.readOnly == readOnly
        invariant names.views == Registered(originals[..i])
      {
        assert originals[..i + 1][..i] == originals[..i];
        var _ := names.Add(originals[i], i, true);
      }
      assert originals[..|originals|] == originals;
    }

    /** `_zip_set_name`. */
    method SetName(i: nat, name: Name) returns (error: Option<Error>)
      requires Valid()
      modifies this`entries, names
      ensures Valid() && (State(), error) == AfterSetName(old(State()), i, name)
    {
      hide Added, Dropped, Found;
      if i >= |entries| {
        return Some(Invalid);
      }
      if readOnly {
        return Some(ReadOnly);
      }
      var at := names.Lookup(name, false);
      if at.Some? && at.value != i {
        return Some(Exists);
      }
      if at.Some? {
        return None;
      }
      var e := entries[i];
      var sameAsOrig := e.orig == Some(name);
      if !sameAsOrig && e.changes.None? {
        e := e.(changes := Some(Changes(e.orig.GetOr([]), false, Unchanged, false)));
        entries := entries[i := e];
      }
      var was := if e.changes.Some? then e.changes.value.name else e.orig.GetOr([]);
      assert entries == old(entries)[i := old(entries)[i].(changes := Edited(old(entries)[i], name))];
      error := names.Add(name, i, false);
      if error.Some? {
        return;
      }
      if was != [] {
        var _ := names.Delete(was);
      }
      if sameAsOrig {
        if e.changes.Some? && e.changes.value.renamed {
          e := e.(changes := Cleared(e.changes.value.(renamed := false, name := name)));
        }
      } else {
        e := e.(changes := Some(e.changes.value.(name := name, renamed := true)));
      }
      entries := entries[i := e];
      assert entries == old(entries)[i := old(entries)[i].(changes := Renamed(old(entries)[i], name))];
    }

    /** `zip_file_rename`. */
    method Rename(i: nat, name: Name) returns (error: Option<Error>)
      requires Valid() && (i < |entries| ==> NameOf(entries[i]) != Ok([])) && name != []
      modifies this`entries, names
      ensures Valid() && (State(), error) == Step(old(State()), Edit.Rename(i, name))
    {
      hide AfterSetName;
      if i >= |entries| || |name| > UINT16_MAX {
        return Some(Invalid);
      }
      if readOnly {
        return Some(ReadOnly);
      }
      var was := NameOf(entries[i]);
      if was.Err? {
        return Some(was.error);
      }
      var newIsDir, wasDir := name[|name| - 1] == 47, was.value[|was.value| - 1] == 47;
      if newIsDir != wasDir {
        return Some(Invalid);
      }
      error := SetName(i, name);
    }

    /** `_zip_unchange`; `allowDuplicates` leaves the index to the caller. */
    method UnchangeEntry(i: nat, allowDuplicates: bool) returns (error: Option<Error>)
      requires Valid()
      modifies this`entries, names
      ensures Valid()
      ensures (State(), error) == if i < |old(entries)| && allowDuplicates
        then (old(State()).(entries := old(entries)[i := Plain(old(entries)[i])]), None)
        else AfterUnchange(old(State()), i)
    {
      hide Added, Dropped, Found;
      if i >= |entries| {
        return Some(Invalid);
      }
      var e := entries[i];
      if !allowDuplicates && e.changes.Some? && e.changes.value.renamed {
        error := RestoreName(i);
        if error.Some? {
          return;
        }
      }
      entries := entries[i := UnchangedData(e.(changes := None))];
      return None;
    }

    /** The part of `_zip_unchange` that gives an entry its name back. */
    method RestoreName(i: nat) returns (error: Option<Error>)
      requires Valid() && i < |entries| && entries[i].changes.Some? && entries[i].changes.value.renamed
      modifies names
      ensures Valid()
      ensures var (v, x) := AfterUnchange(old(State()), i); error == x && names.views == v.index
    {
      hide Added, Dropped, Found;
      var e := entries[i];
      if e.orig.Some? {
        var at := names.Lookup(e.orig.value, false);
        if at.Some? && at.value != i {
          return Some(Exists);
        }
        error := names.Add(e.orig.value, i, false);
        if error.Some? {
          return;
        }
      }
      error := names.Delete(e.changes.value.name);
      if error.Some? && e.orig.Some? {
        var _ := names.Delete(e.orig.value);
      }
    }

    /** `zip_unchange`. */
    method Unchange(i: nat) returns (error: Option<Error>)
      requires Valid()
      modifies this`entries, names
      ensures Valid() && (State(), error) == Step(old(State()), Edit.Unchange(i))
    {
      error := UnchangeEntry(i, false);
    }

    /** `zip_delete`. */
    method Delete(i: nat) returns (error: Option<Error>)
      requires Valid()
      modifies this`entries, names
      ensures Valid() && (State(), error) == Step(old(State()), Edit.Delete(i))
    {
      hide Added, Dropped, Found;
      if i >= |entries| {
        return Some(Invalid);
      }
      if readOnly {
        return Some(ReadOnly);
      }
      var name := NameOf(entries[i]);
      if name.Err? {
        return Some(name.error);
      }
      error := names.Delete(name.value);
      if error.Some? {
        return;
      }
      var _ := UnchangeEntry(i, true);
      entries := entries[i := entries[i].(deleted := true)];
      assert entries == old(entries)[i := Plain(old(entries)[i]).(deleted := true)];
    }

    /** `zip_unchange_all`. */
    method UnchangeAll() returns (error: Option<Error>)
      requires Valid()
      modifies this`entries, names
      ensures Valid() && (State(), error) == Step(old(State()), Edit.UnchangeAll)
    {
      hide Reverted, Plain;
      names.Revert();
      for i := 0 to |entries|
        invariant Valid() && names == old(names) && names.views == Reverted(old(names.views)) && readOnly == old(readOnly)
        invariant |entries| == |old(entries)|
        invariant forall k :: 0 <= k < |entries| ==> entries[k] == if k < i then Plain(old(entries)[k]) else old(entries)[k]
      {
        var _ := UnchangeEntry(i, true);
      }
      assert entries == AfterUnchangeAll(old(State())).0.entries;
      return None;
    }

    /** `_zip_file_replace`: entry `at`, or the one found by its name, or a new one. */
    method PutSource(at: Option<nat>, name: Option<Name>, overwrite: bool) returns (error: Option<Error>)
      requires Valid() && (at.None? ==> name.Some?) && (at.Some? ==> name.None? && at.value < |entries|)
      modifies this`entries, names
      ensures Valid()
      ensures (State(), error) == if at.Some? then AfterReplace(old(State()), at.value)
        else AfterAdd(old(State()), name.value, overwrite)
    {
      hide AfterSetName, Found;
      if readOnly {
        return Some(ReadOnly);
      }
      var before, i := |entries|, at;
      if at.None? {
        if overwrite {
          i := names.Lookup(name.value, false);
        }
        if i.None? {
          entries := entries + [NEW_ENTRY];
          i := Some(before);
        }
      }
      if name.Some? {
        error := SetName(i.value, name.value);
        if error.Some? {
          if |entries| != before {
            entries := entries[..before];
          }
          return;
        }
      }
      if i.value >= |entries| {
        return Some(Invalid);
      }
      var e := UnchangedData(entries[i.value]);
      if e.orig.Some? && (e.changes.None? || e.changes.value.compression == Unchanged) {
        var c := e.changes.GetOr(Changes(e.orig.value, false, Unchanged, false));
        e := e.(changes := Some(c.(compression := ReplacedDefault)));
      }
      entries := entries[i.value := e.(hasSource := true)];
      return None;
    }
  }
}
