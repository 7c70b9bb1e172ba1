/**
 Windows over one shared seekable source (zip_source_window.c, zip_source_read.c, zip_source_seek.c,
 zip_source_tell.c, and opening as in zip_source_open.c).
 */
module Window {
  import opened Bytes
  import opened ZipBuffer
  import opened Output
  import opened FragmentBuffer

  /** A source: the shared one at the bottom, or a window from `start` to `end` of an older source. */
  datatype Span = Span(lower: Option<nat>, start: nat, end: nat)

  /** What changes as a source is used. */
  datatype Node = Node(offset: nat, eof: bool, failed: bool, opens: nat)

  predicate WellFounded(spans: seq<Span>) {
    forall i :: 0 <= i < |spans| ==> spans[i].start <= spans[i].end && (spans[i].lower.Some? ==> spans[i].lower.value < i)
  }

  function Drop(s: seq<byte>, k: nat): seq<byte> {
    if k <= |s| then s[k..] else []
  }

  function Take(s: seq<byte>, k: nat): seq<byte> {
    if k <= |s| then s[..k] else s
  }

  /** The bytes a source stands for. */
  function Slice(spans: seq<Span>, content: seq<byte>, i: nat): seq<byte>
    requires WellFounded(spans) && i < |spans|
    decreases i
  {
    var s := spans[i];
    var below := if s.lower.Some? then Slice(spans, content, s.lower.value) else content;
    Take(Drop(below, s.start), s.end - s.start)
  }

  /** Source `j` is below source `i`. */
  predicate Under(spans: seq<Span>, j: nat, i: nat)
    requires WellFounded(spans) && i < |spans|
    decreases i
  {
    spans[i].lower.Some? && (j == spans[i].lower.value || Under(spans, j, spans[i].lower.value))
  }

  function Size(spans: seq<Span>, i: nat): nat
    requires WellFounded(spans) && i < |spans|
  {
    spans[i].end - spans[i].start
  }

  /** The window lies within the source below it, or is empty. */
  predicate Inside(spans: seq<Span>, content: seq<byte>, i: nat)
    requires WellFounded(spans) && i < |spans|
  {
    var s := spans[i];
    if s.lower.Some? then s.start == s.end || s.end <= Size(spans, s.lower.value) else s.start == 0 && s.end == |content|
  }

  /** Every source at the bottom stands for the shared content. */
  predicate Grounded(spans: seq<Span>, content: seq<byte>) {
    WellFounded(spans) && forall i :: 0 <= i < |spans| && spans[i].lower.None? ==> Inside(spans, content, i)
  }

  lemma {:induction false} UnderSmaller(spans: seq<Span>, j: nat, i: nat)
    requires WellFounded(spans) && i < |spans| && Under(spans, j, i)
    ensures j < i
    decreases i
  {
    if j != spans[i].lower.value {
      UnderSmaller(spans, j, spans[i].lower.value);
    }
  }

  /** Windows that lie within each other all the way down stand for as many bytes as they span. */
  predicate Nested(spans: seq<Span>, content: seq<byte>, i: nat)
    requires WellFounded(spans) && i < |spans|
    decreases i
  {
    Inside(spans, content, i) && (spans[i].lower.Some? ==> Nested(spans, content, spans[i].lower.value))
  }

  lemma {:induction false} NestedSize(spans: seq<Span>, content: seq<byte>, i: nat)
    requires WellFounded(spans) && i < |spans| && Nested(spans, content, i)
    ensures |Slice(spans, content, i)| == spans[i].end - spans[i].start
    decreases i
  {
    if spans[i].lower.Some? {
      NestedSize(spans, content, spans[i].lower.value);
    }
  }

  /** No source at or below `i` has failed before. */
  predicate Healthy(spans: seq<Span>, nodes: seq<Node>, i: nat)
    requires WellFounded(spans) && i < |spans| == |nodes|
    decreases i
  {
    !nodes[i].failed && (spans[i].lower.Some? ==> Healthy(spans, nodes, spans[i].lower.value))
  }

  /** An open source has a place within its bounds and an open source below it. */
  predicate Coherent(spans: seq<Span>, nodes: seq<Node>) {
    && WellFounded(spans) && |nodes| == |spans|
    && forall i :: 0 <= i < |nodes| && nodes[i].opens > 0 ==>
         && spans[i].start <= nodes[i].offset <= spans[i].end
         && (nodes[i].eof ==> nodes[i].offset == spans[i].end)
         && (spans[i].lower.Some? ==> nodes[spans[i].lower.value].opens > 0)
  }

  /** Only source `i` and those below it have been touched, and none opened or closed. */
  predicate OnlyBelow(spans: seq<Span>, before: seq<Node>, after: seq<Node>, i: nat)
    requires WellFounded(spans) && i < |spans|
  {
    && |after| == |before|
    && (forall j :: 0 <= j < |before| && j != i && !Under(spans, j, i) ==> after[j] == before[j])
    && (forall j :: 0 <= j < |before| ==> after[j].opens == before[j].opens)
  }

  /** What is delivered is next in the window. */
  predicate Delivers(slice: seq<byte>, at: nat, data: seq<byte>) {
    data <= Drop(slice, at)
  }

  lemma {:induction false} DeliversThrough(below: seq<byte>, start: nat, end: nat, offset: nat, data: seq<byte>)
    requires start <= offset <= end && |data| <= end - offset && Delivers(below, offset, data)
    ensures Delivers(Take(Drop(below, start), end - start), offset - start, data)
  {
    var slice := Take(Drop(below, start), end - start);
    if data != [] {
      assert |data| <= |below| - offset;
      assert forall k :: 0 <= k < |data| ==> Drop(slice, offset - start)[k] == below[offset + k] == Drop(below, offset)[k] == data[k];
    }
  }

  lemma {:induction false} DeliversMore(slice: seq<byte>, at: nat, data: seq<byte>, more: seq<byte>)
    requires Delivers(slice, at, data) && Delivers(slice, at + |data|, more)
    ensures Delivers(slice, at, data + more)
  {
    if more != [] {
      var rest := Drop(slice, at);
      assert forall k :: 0 <= k < |data| ==> rest[k] == data[k];
      assert forall k :: 0 <= k < |more| ==> rest[|data| + k] == Drop(slice, at + |data|)[k] == more[k];
    } else {
      assert data + more == data;
    }
  }

  lemma {:induction false} HealthySame(spans: seq<Span>, before: seq<Node>, after: seq<Node>, i: nat)
    requires WellFounded(spans) && i < |spans| == |before| == |after|
    requires forall j :: 0 <= j <= i ==> after[j].failed == before[j].failed
    ensures Healthy(spans, after, i) == Healthy(spans, before, i)
    decreases i
  {
    if spans[i].lower.Some? {
      HealthySame(spans, before, after, spans[i].lower.value);
    }
  }

  lemma {:induction false} OnlyBelowStep(spans: seq<Span>, before: seq<Node>, mid: seq<Node>, after: seq<Node>,
      i: nat, l: nat)
    requires WellFounded(spans) && i < |spans| == |before| && spans[i].lower == Some(l)
    requires |mid| == |before| && mid == before[l := mid[l]] && mid[l].opens == before[l].opens
    requires OnlyBelow(spans, mid, after, l)
    ensures OnlyBelow(spans, before, after, i) && after[i] == before[i]
  {
    if Under(spans, i, l) {
      UnderSmaller(spans, i, l);
    }
    forall j | 0 <= j < |before| && j != i && !Under(spans, j, i) ensures after[j] == before[j] {
      assert j != l && !Under(spans, j, l);
    }
  }

  lemma {:induction false} OnlyBelowThen(spans: seq<Span>, before: seq<Node>, after: seq<Node>, i: nat, n: Node)
    requires WellFounded(spans) && i < |spans| == |before| && OnlyBelow(spans, before, after, i) && n.opens == before[i].opens
    ensures OnlyBelow(spans, before, after[i := n], i)
  {
    hide Under;
  }

  lemma {:induction false} OnlyBelowTwice(spans: seq<Span>, before: seq<Node>, mid: seq<Node>, after: seq<Node>, i: nat)
    requires WellFounded(spans) && i < |spans| == |before|
    requires OnlyBelow(spans, before, mid, i) && OnlyBelow(spans, mid, after, i)
    ensures OnlyBelow(spans, before, after, i)
  {
    hide Under;
  }

  // ----- What the operations do -----

  type Outcome = (seq<Node>, Result<seq<byte>>)

  function Least(a: nat, b: nat): nat {
    if a < b then a else b
  }

  function Got(r: Result<seq<byte>>): nat {
    if r.Ok? then |r.value| else 0
  }

  /** `zip_source_seek` with the SEEK command of the window or of the shared source. */
  function Sought(spans: seq<Span>, nodes: seq<Node>, i: nat, whence: Whence, delta: int): (r: (seq<Node>, bool))
    requires Coherent(spans, nodes) && i < |nodes|
    ensures Coherent(spans, r.0) && OnlyBelow(spans, nodes, r.0, i) && r.0 == nodes[i := r.0[i]]
    ensures r.0[i].failed == nodes[i].failed && (r.1 ==> !r.0[i].eof && nodes[i].opens > 0)
  {
    var s, n := spans[i], nodes[i];
    var to := if n.opens > 0 then SeekTarget(n.offset - s.start, s.end - s.start, whence, delta) else None;
    if to.None? then (nodes, false) else (nodes[i := n.(offset := s.start + to.value, eof := false)], true)
  }

  /** `zip_source_open`. */
  function Opened(spans: seq<Span>, nodes: seq<Node>, i: nat): (r: seq<Node>)
    requires Coherent(spans, nodes) && i < |nodes|
    ensures Coherent(spans, r)
    ensures forall j :: 0 <= j < |nodes| && j != i && !Under(spans, j, i) ==> r[j] == nodes[j]
    ensures forall j :: 0 <= j < |nodes| ==> r[j].opens >= nodes[j].opens && (!nodes[j].failed ==> !r[j].failed)
    ensures r[i] == Node(if nodes[i].opens == 0 then spans[i].start else nodes[i].offset, false, false, nodes[i].opens + 1)
    decreases i
  {
    var n := nodes[i];
    if n.opens > 0 then nodes[i := n.(eof := false, failed := false, opens := n.opens + 1)]
    else
      var q := if spans[i].lower.Some? then Opened(spans, nodes, spans[i].lower.value) else nodes;
      NotUnderLower(spans, i);
      q[i := Node(spans[i].start, false, false, 1)]
  }

  lemma {:induction false} NotUnderLower(spans: seq<Span>, i: nat)
    requires WellFounded(spans) && i < |spans|
    ensures spans[i].lower.Some? ==> !Under(spans, i, spans[i].lower.value)
  {
    if spans[i].lower.Some? && Under(spans, i, spans[i].lower.value) {
      UnderSmaller(spans, i, spans[i].lower.value);
    }
  }

  lemma {:induction false} CoherentThen(spans: seq<Span>, nodes: seq<Node>, i: nat, n: Node)
    requires Coherent(spans, nodes) && i < |nodes| && n.opens == nodes[i].opens > 0
    requires spans[i].start <= n.offset <= spans[i].end && (n.eof ==> n.offset == spans[i].end)
    ensures Coherent(spans, nodes[i := n])
  {}

  /** The READ command: of the shared source, or of a window, which seeks the source below it first. */
  function Called(spans: seq<Span>, content: seq<byte>, nodes: seq<Node>, i: nat, want: nat): (r: Outcome)
    requires Grounded(spans, content) && Coherent(spans, nodes) && i < |nodes| && nodes[i].opens > 0 && 0 < want <= INT64_MAX
    ensures Coherent(spans, r.0) && OnlyBelow(spans, nodes, r.0, i) && Got(r.1) <= want
    ensures r.0[i] == nodes[i].(offset := nodes[i].offset + Got(r.1))
    ensures r.1.Ok? && r.1.value == [] ==> nodes[i].offset == spans[i].end
    decreases i, 0, 1
  {
    var s, at := spans[i], nodes[i].offset;
    var n := Least(want, s.end - at);
    if n == 0 then (nodes, Ok([]))
    else if s.lower.None? then
      CoherentThen(spans, nodes, i, nodes[i].(offset := at + n));
      (nodes[i := nodes[i].(offset := at + n)], Ok(content[at..at + n]))
    else
      var (after, r) := Below(spans, content, nodes, i, n);
      if r.Err? then (after, r)
      else if r.value == [] then (after, Err(EndOfFile))
      else
        OnlyBelowThen(spans, nodes, after, i, after[i].(offset := at + |r.value|));
        CoherentThen(spans, after, i, after[i].(offset := at + |r.value|));
        (after[i := after[i].(offset := at + |r.value|)], r)
  }

  /** The part of the command that a window leaves to the source below: it is sent to where the window
      stands, and read. */
  function Below(spans: seq<Span>, content: seq<byte>, nodes: seq<Node>, i: nat, n: nat): (r: Outcome)
    requires Grounded(spans, content) && Coherent(spans, nodes) && i < |nodes| && nodes[i].opens > 0 && spans[i].lower.Some?
    requires n <= INT64_MAX
    ensures Coherent(spans, r.0) && OnlyBelow(spans, nodes, r.0, i) && r.0[i] == nodes[i] && Got(r.1) <= n
    decreases i, 0, 0
  {
    var l := spans[i].lower.value;
    var (mid, moved) := Sought(spans, nodes, l, FromStart, nodes[i].offset);
    OnlyBelowStep(spans, nodes, mid, mid, i, l);
    if !moved then (mid, Err(Invalid))
    else
      var r := Delivered(spans, content, mid, l, n);
      OnlyBelowStep(spans, nodes, mid, r.0, i, l);
      r
  }

  /** The loop of `zip_source_read`: on until there is enough, nothing more, or an error, which is latched. */
  function Looped(spans: seq<Span>, content: seq<byte>, nodes: seq<Node>, i: nat, want: nat, data: seq<byte>): (r: Outcome)
    requires Grounded(spans, content) && Coherent(spans, nodes) && i < |nodes| && nodes[i].opens > 0
    requires |data| <= want <= INT64_MAX && !nodes[i].eof
    ensures Coherent(spans, r.0) && OnlyBelow(spans, nodes, r.0, i)
    ensures |data| <= (if r.1.Ok? then |r.1.value| else |data|) <= want
    ensures r.0[i].offset + |data| == nodes[i].offset + if r.1.Ok? then |r.1.value| else |data|
    decreases i, 1, want - |data|
  {
    if |data| == want then (nodes, Ok(data))
    else
      var (mid, part) := Called(spans, content, nodes, i, want - |data|);
      if part.Err? then
        OnlyBelowThen(spans, nodes, mid, i, mid[i].(failed := true));
        (mid[i := mid[i].(failed := true)], if data == [] then Err(part.error) else Ok(data))
      else if part.value == [] then
        OnlyBelowThen(spans, nodes, mid, i, mid[i].(eof := true));
        (mid[i := mid[i].(eof := true)], Ok(data))
      else
        var r := Looped(spans, content, mid, i, want, data + part.value);
        OnlyBelowTwice(spans, nodes, mid, r.0, i);
        r
  }

  /** `zip_source_read`. */
  function Delivered(spans: seq<Span>, content: seq<byte>, nodes: seq<Node>, i: nat, want: nat): (r: Outcome)
    requires Grounded(spans, content) && Coherent(spans, nodes) && i < |nodes|
    ensures Coherent(spans, r.0) && OnlyBelow(spans, nodes, r.0, i) && Got(r.1) <= want
    ensures r.0[i].offset == nodes[i].offset + Got(r.1)
    decreases i, 2, 0
  {
    if nodes[i].opens == 0 || want > INT64_MAX || nodes[i].failed then (nodes, Err(Invalid))
    else if nodes[i].eof || want == 0 then (nodes, Ok([]))
    else Looped(spans, content, nodes, i, want, [])
  }

  // ----- What is delivered, and what fails -----

  /** A source that lies within the sources below it, none of which has failed. */
  predicate Sound(spans: seq<Span>, content: seq<byte>, nodes: seq<Node>, i: nat)
    requires WellFounded(spans) && i < |spans| == |nodes|
  {
    Nested(spans, content, i) && Healthy(spans, nodes, i)
  }

  predicate KeepsSound(spans: seq<Span>, content: seq<byte>, before: seq<Node>, after: seq<Node>)
    requires WellFounded(spans) && |spans| == |before| == |after|
  {
    forall k :: 0 <= k < |spans| && Sound(spans, content, before, k) ==> Sound(spans, content, after, k)
  }

  lemma {:induction false} SoundParts(spans: seq<Span>, content: seq<byte>, nodes: seq<Node>, i: nat)
    requires WellFounded(spans) && i < |spans| == |nodes|
    ensures Sound(spans, content, nodes, i) <==>
      Inside(spans, content, i) && !nodes[i].failed && (spans[i].lower.Some? ==> Sound(spans, content, nodes, spans[i].lower.value))
  {}

  lemma {:induction false} SoundBelow(spans: seq<Span>, content: seq<byte>, nodes: seq<Node>, j: nat, i: nat)
    requires WellFounded(spans) && i < |spans| == |nodes| && Sound(spans, content, nodes, i) && Under(spans, j, i)
    ensures j < i && Sound(spans, content, nodes, j)
    decreases i
  {
    UnderSmaller(spans, j, i);
    if j != spans[i].lower.value {
      SoundBelow(spans, content, nodes, j, spans[i].lower.value);
    }
  }

  /** Failures that appear only where a source was not sound leave sound sources sound. */
  lemma {:induction false} SoundStays(spans: seq<Span>, content: seq<byte>, before: seq<Node>, after: seq<Node>, k: nat)
    requires WellFounded(spans) && k < |spans| == |before| == |after| && Sound(spans, content, before, k)
    requires forall j :: 0 <= j < |spans| && after[j].failed && !before[j].failed ==> !Sound(spans, content, before, j)
    ensures Sound(spans, content, after, k)
    decreases k
  {
    if spans[k].lower.Some? {
      SoundStays(spans, content, before, after, spans[k].lower.value);
    }
  }

  lemma {:induction false} AllSoundStay(spans: seq<Span>, content: seq<byte>, before: seq<Node>, after: seq<Node>)
    requires WellFounded(spans) && |spans| == |before| == |after|
    requires forall j :: 0 <= j < |spans| && after[j].failed && !before[j].failed ==> !Sound(spans, content, before, j)
    ensures KeepsSound(spans, content, before, after)
  {
    hide Sound;
    forall k | 0 <= k < |spans| && Sound(spans, content, before, k) ensures Sound(spans, content, after, k) {
      SoundStays(spans, content, before, after, k);
    }
  }

  lemma {:induction false} NothingDelivered(slice: seq<byte>, at: nat)
    ensures Delivers(slice, at, [])
  {}

  lemma {:induction false} BaseDelivers(spans: seq<Span>, content: seq<byte>, i: nat, at: nat, n: nat)
    requires WellFounded(spans) && i < |spans| && spans[i].lower.None? && Inside(spans, content, i) && at + n <= spans[i].end
    ensures Delivers(Slice(spans, content, i), at - spans[i].start, content[at..at + n])
  {
    assert Slice(spans, content, i) == content;
  }

  /** What is left of the slice behind the place where the source stands. */
  function Rest(spans: seq<Span>, content: seq<byte>, nodes: seq<Node>, i: nat): seq<byte>
    requires WellFounded(spans) && i < |spans| == |nodes| && spans[i].start <= nodes[i].offset
  {
    Drop(Slice(spans, content, i), nodes[i].offset - spans[i].start)
  }

  /** Nothing has failed, and the slice has as many bytes as are asked for or left of the window. */
  predicate Enough(spans: seq<Span>, content: seq<byte>, nodes: seq<Node>, i: nat, want: nat)
    requires WellFounded(spans) && i < |spans| == |nodes| && spans[i].start <= nodes[i].offset <= spans[i].end
  {
    Healthy(spans, nodes, i) && Least(want, spans[i].end - nodes[i].offset) <= |Rest(spans, content, nodes, i)|
  }

  predicate SameFailures(before: seq<Node>, after: seq<Node>)
    requires |before| == |after|
  {
    forall j :: 0 <= j < |before| ==> after[j].failed == before[j].failed
  }

  lemma {:induction false} SoundHasEnough(spans: seq<Span>, content: seq<byte>, nodes: seq<Node>, i: nat, want: nat)
    requires WellFounded(spans) && i < |spans| == |nodes| && spans[i].start <= nodes[i].offset <= spans[i].end
    ensures Sound(spans, content, nodes, i) ==> Enough(spans, content, nodes, i, want)
  {
    hide Healthy, Slice;
    if Nested(spans, content, i) {
      NestedSize(spans, content, i);
    }
  }

  /** With the same failures and less asked for, there is still enough. */
  lemma {:induction false} StillEnough(spans: seq<Span>, content: seq<byte>, before: seq<Node>, after: seq<Node>, i: nat,
      want: nat, less: nat)
    requires WellFounded(spans) && i < |spans| == |before| == |after| && SameFailures(before, after)
    requires spans[i].start <= before[i].offset <= after[i].offset <= spans[i].end
    requires less + after[i].offset == want + before[i].offset
    requires Enough(spans, content, before, i, want)
    ensures Enough(spans, content, after, i, less)
  {
    hide Slice;
    HealthySame(spans, before, after, i);
  }

  /** One command: the next bytes of the window, and if there are enough as many as asked for or left. */
  ghost predicate CalledRight(spans: seq<Span>, content: seq<byte>, nodes: seq<Node>, i: nat, want: nat, r: Outcome)
    requires WellFounded(spans) && i < |spans| == |nodes| == |r.0| && spans[i].start <= nodes[i].offset <= spans[i].end
  {
    && (r.1.Ok? ==> Delivers(Slice(spans, content, i), nodes[i].offset - spans[i].start, r.1.value))
    && (Enough(spans, content, nodes, i, want) ==>
          r.1.Ok? && |r.1.value| == Least(want, spans[i].end - nodes[i].offset) && SameFailures(nodes, r.0))
    && KeepsSound(spans, content, nodes, r.0)
  }

  lemma {:induction false} CalledLaw(spans: seq<Span>, content: seq<byte>, nodes: seq<Node>, i: nat, want: nat)
    requires Grounded(spans, content) && Coherent(spans, nodes) && i < |nodes| && nodes[i].opens > 0 && 0 < want <= INT64_MAX
    ensures CalledRight(spans, content, nodes, i, want, Called(spans, content, nodes, i, want))
    decreases i, 0, 1
  {
    hide Delivered, Looped, Slice, Sound, Under, Delivers, Enough, Nested, Healthy;
    var s, at := spans[i], nodes[i].offset;
    var n := Least(want, s.end - at);
    EnoughLeft(spans, content, nodes, i, want);
    if n == 0 {
      NothingDelivered(Slice(spans, content, i), at - s.start);
    } else if s.lower.None? {
      BaseDelivers(spans, content, i, at, n);
      AllSoundStay(spans, content, nodes, nodes[i := nodes[i].(offset := at + n)]);
    } else {
      CalledBelow(spans, content, nodes, i, n);
      CalledAs(spans, content, nodes, i, want);
      var r := Below(spans, content, nodes, i, n);
      AllSoundStay(spans, content, r.0, r.0[i := r.0[i].(offset := at + Got(r.1))]);
      hide Below, Called;
    }
  }

  /** The command of a window, in terms of the source below. */
  lemma {:induction false} CalledAs(spans: seq<Span>, content: seq<byte>, nodes: seq<Node>, i: nat, want: nat)
    requires Grounded(spans, content) && Coherent(spans, nodes) && i < |nodes| && nodes[i].opens > 0 && spans[i].lower.Some?
    requires 0 < want <= INT64_MAX && nodes[i].offset < spans[i].end
    ensures var r := Below(spans, content, nodes, i, Least(want, spans[i].end - nodes[i].offset));
      Called(spans, content, nodes, i, want) == if r.1.Ok? && r.1.value != []
        then (r.0[i := r.0[i].(offset := nodes[i].offset + |r.1.value|)], r.1)
        else (r.0, if r.1.Ok? then Err(EndOfFile) else r.1)
  {
    hide Delivered, Under;
  }

  /** The command where the window is at its end, and that of the shared source. */
  lemma {:induction false} CalledHere(spans: seq<Span>, content: seq<byte>, nodes: seq<Node>, i: nat, want: nat)
    requires Grounded(spans, content) && Coherent(spans, nodes) && i < |nodes| && nodes[i].opens > 0 && 0 < want <= INT64_MAX
    ensures var at, n := nodes[i].offset, Least(want, spans[i].end - nodes[i].offset);
      && (n == 0 ==> Called(spans, content, nodes, i, want) == (nodes, Ok([])))
      && (n > 0 && spans[i].lower.None? ==> at + n <= |content|)
      && (n > 0 && spans[i].lower.None? ==>
            Called(spans, content, nodes, i, want) == (nodes[i := nodes[i].(offset := at + n)], Ok(content[at..at + n])))
  {
    hide Delivered, Under;
  }

  lemma {:induction false} CalledBelow(spans: seq<Span>, content: seq<byte>, nodes: seq<Node>, i: nat, n: nat)
    requires Grounded(spans, content) && Coherent(spans, nodes) && i < |nodes| && nodes[i].opens > 0 && spans[i].lower.Some?
    requires 0 < n <= INT64_MAX && n <= spans[i].end - nodes[i].offset
    ensures var r := Below(spans, content, nodes, i, n);
      && (r.1.Ok? ==> |r.1.value| <= n && Delivers(Slice(spans, content, i), nodes[i].offset - spans[i].start, r.1.value))
      && (Enough(spans, content, nodes, i, n) ==> r.1.Ok? && |r.1.value| == n && SameFailures(nodes, r.0))
      && KeepsSound(spans, content, nodes, r.0)
    decreases i, 0, 0
  {
    hide Delivered, Looped, Slice, Sound, Under, Delivers, Take, Drop, Enough, Healthy, Nested;
    var s, l, at := spans[i], spans[i].lower.value, nodes[i].offset;
    var (mid, moved) := Sought(spans, nodes, l, FromStart, at);
    AllSoundStay(spans, content, nodes, mid);
    if Enough(spans, content, nodes, i, n) {
      EnoughBelow(spans, content, nodes, i, n);
      HealthySame(spans, nodes, mid, l);
      EnoughAt(spans, content, mid, l, at, n);
    }
    if moved {
      DeliveredLaw(spans, content, mid, l, n);
      var r := Delivered(spans, content, mid, l, n);
      if r.1.Ok? {
        SliceOf(spans, content, i);
        DeliversThrough(Slice(spans, content, l), s.start, s.end, at, r.1.value);
      }
    }
  }

  /** A window has enough only if the source below it has, from where the window stands. */
  lemma {:induction false} EnoughBelow(spans: seq<Span>, content: seq<byte>, nodes: seq<Node>, i: nat, n: nat)
    requires WellFounded(spans) && i < |spans| == |nodes| && spans[i].lower.Some? && n > 0
    requires spans[i].start <= nodes[i].offset && n <= spans[i].end - nodes[i].offset && Enough(spans, content, nodes, i, n)
    ensures var l := spans[i].lower.value;
      && Healthy(spans, nodes, l) && nodes[i].offset + n <= |Slice(spans, content, l)| <= Size(spans, l)
  {
    SliceOf(spans, content, i);
    SliceAtMost(spans, content, spans[i].lower.value);
    hide Slice;
  }

  lemma {:induction false} EnoughAt(spans: seq<Span>, content: seq<byte>, nodes: seq<Node>, l: nat, at: nat, n: nat)
    requires WellFounded(spans) && l < |spans| == |nodes| && Healthy(spans, nodes, l)
    requires at + n <= |Slice(spans, content, l)| <= Size(spans, l)
    ensures nodes[l].offset == spans[l].start + at ==>
      Enough(spans, content, nodes, l, n) && Least(n, spans[l].end - nodes[l].offset) == n
  {
    hide Slice, Healthy;
  }

  /** Asking for more than is left of the window asks for what is left. */
  lemma {:induction false} EnoughLeft(spans: seq<Span>, content: seq<byte>, nodes: seq<Node>, i: nat, want: nat)
    requires WellFounded(spans) && i < |spans| == |nodes| && spans[i].start <= nodes[i].offset <= spans[i].end
    ensures var n := Least(want, spans[i].end - nodes[i].offset);
      Enough(spans, content, nodes, i, n) == Enough(spans, content, nodes, i, want)
  {
    hide Slice, Healthy;
  }

  lemma {:induction false} SliceAtMost(spans: seq<Span>, content: seq<byte>, i: nat)
    requires WellFounded(spans) && i < |spans|
    ensures |Slice(spans, content, i)| <= Size(spans, i)
  {}

  lemma {:induction false} SliceOf(spans: seq<Span>, content: seq<byte>, i: nat)
    requires WellFounded(spans) && i < |spans| && spans[i].lower.Some?
    ensures Slice(spans, content, i)
      == Take(Drop(Slice(spans, content, spans[i].lower.value), spans[i].start), spans[i].end - spans[i].start)
  {}

  lemma {:induction false} LoopedLaw(spans: seq<Span>, content: seq<byte>, nodes: seq<Node>, i: nat, want: nat, data: seq<byte>)
    requires Grounded(spans, content) && Coherent(spans, nodes) && i < |nodes| && nodes[i].opens > 0
    requires |data| <= want <= INT64_MAX && !nodes[i].eof
    requires spans[i].start + |data| <= nodes[i].offset
    requires Delivers(Slice(spans, content, i), nodes[i].offset - |data| - spans[i].start, data)
    ensures var r := Looped(spans, content, nodes, i, want, data);
      && (r.1.Ok? ==> Delivers(Slice(spans, content, i), nodes[i].offset - |data| - spans[i].start, r.1.value))
      && (Enough(spans, content, nodes, i, want - |data|) ==>
            && r.1.Ok? && |r.1.value| == Least(want, |data| + spans[i].end - nodes[i].offset)
            && SameFailures(nodes, r.0))
      && KeepsSound(spans, content, nodes, r.0)
    decreases i, 1, want - |data|
  {
    hide Called, Slice, Sound, Under, Delivers, Nested, Healthy, Enough;
    if |data| < want {
      CalledLaw(spans, content, nodes, i, want - |data|);
      SoundHasEnough(spans, content, nodes, i, want - |data|);
      var (mid, part) := Called(spans, content, nodes, i, want - |data|);
      if part.Err? {
        FailureStaysAbove(spans, content, nodes, mid, mid[i := mid[i].(failed := true)], i);
      } else if part.value == [] {
        AllSoundStay(spans, content, mid, mid[i := mid[i].(eof := true)]);
      } else {
        DeliversMore(Slice(spans, content, i), nodes[i].offset - |data| - spans[i].start, data, part.value);
        if Enough(spans, content, nodes, i, want - |data|) {
          StillEnough(spans, content, nodes, mid, i, want - |data|, want - |data + part.value|);
        }
        LoopedLaw(spans, content, mid, i, want, data + part.value);
      }
    }
  }

  /** A source that was not sound may fail. */
  lemma {:induction false} FailureStaysAbove(spans: seq<Span>, content: seq<byte>, before: seq<Node>, mid: seq<Node>,
      after: seq<Node>, i: nat)
    requires WellFounded(spans) && i < |spans| == |before| == |mid| && after == mid[i := mid[i].(failed := true)]
    requires KeepsSound(spans, content, before, mid) && !Sound(spans, content, before, i)
    ensures KeepsSound(spans, content, before, after)
  {
    forall k | 0 <= k < |spans| && Sound(spans, content, before, k) ensures Sound(spans, content, after, k) {
      hide Sound, Under, Nested, Healthy;
      if Under(spans, i, k) {
        SoundBelow(spans, content, before, i, k);
      }
      SoundAbove(spans, content, mid, after, i, k);
    }
  }

  /** What is neither `i` nor above it does not notice. */
  lemma {:induction false} SoundAbove(spans: seq<Span>, content: seq<byte>, mid: seq<Node>, after: seq<Node>, i: nat, k: nat)
    requires WellFounded(spans) && k < |spans| == |mid| == |after| && i < |spans| && after == mid[i := after[i]]
    requires Sound(spans, content, mid, k) && k != i && !Under(spans, i, k)
    ensures Sound(spans, content, after, k)
    decreases k
  {
    if spans[k].lower.Some? {
      SoundAbove(spans, content, mid, after, i, spans[k].lower.value);
    }
  }

  /** `zip_source_read` never delivers a wrong byte, and if there are enough exactly the next ones, as many
      as asked for or as are left, and nothing fails; and it makes no source fail that lies within those
      below it. */
  lemma {:induction false} DeliveredLaw(spans: seq<Span>, content: seq<byte>, nodes: seq<Node>, i: nat, want: nat)
    requires Grounded(spans, content) && Coherent(spans, nodes) && i < |nodes|
    ensures var (after, r) := Delivered(spans, content, nodes, i, want);
      && (r.Ok? ==> nodes[i].opens > 0)
      && (r.Ok? ==> Delivers(Slice(spans, content, i), nodes[i].offset - spans[i].start, r.value))
      && (nodes[i].opens > 0 && want <= INT64_MAX && Enough(spans, content, nodes, i, want) ==>
            r.Ok? && |r.value| == Least(want, spans[i].end - nodes[i].offset) && SameFailures(nodes, after))
      && KeepsSound(spans, content, nodes, after)
    decreases i, 2, 0
  {
    hide Looped, Slice, Sound, Under, Delivers;
    if nodes[i].opens > 0 {
      NothingDelivered(Slice(spans, content, i), nodes[i].offset - spans[i].start);
      if want <= INT64_MAX && !nodes[i].failed && !nodes[i].eof && want > 0 {
        LoopedLaw(spans, content, nodes, i, want, []);
      }
    }
  }

  lemma {:induction false} EnoughDelivers(spans: seq<Span>, content: seq<byte>, nodes: seq<Node>, i: nat, want: nat)
    requires Grounded(spans, content) && Coherent(spans, nodes) && i < |nodes| && nodes[i].opens > 0 && want <= INT64_MAX
    requires Enough(spans, content, nodes, i, want)
    ensures Delivered(spans, content, nodes, i, want).1
      == Ok(Rest(spans, content, nodes, i)[..Least(want, spans[i].end - nodes[i].offset)])
  {
    hide Delivered, Slice, Healthy, Under;
    DeliveredLaw(spans, content, nodes, i, want);
    var v, rest := Delivered(spans, content, nodes, i, want).1.value, Rest(spans, content, nodes, i);
    assert v <= rest && v == rest[..|v|];
  }

  /** Failures last until a source is opened again. */
  predicate KeepsFailures(before: seq<Node>, after: seq<Node>)
    requires |before| == |after|
  {
    forall j :: 0 <= j < |before| && before[j].failed ==> after[j].failed
  }

  lemma {:induction false} CalledKeepsFailures(spans: seq<Span>, content: seq<byte>, nodes: seq<Node>, i: nat, want: nat)
    requires Grounded(spans, content) && Coherent(spans, nodes) && i < |nodes| && nodes[i].opens > 0 && 0 < want <= INT64_MAX
    ensures KeepsFailures(nodes, Called(spans, content, nodes, i, want).0)
    decreases i, 0, 0
  {
    hide Delivered, Under;
    var n := Least(want, spans[i].end - nodes[i].offset);
    if n > 0 && spans[i].lower.Some? {
      var (mid, moved) := Sought(spans, nodes, spans[i].lower.value, FromStart, nodes[i].offset);
      if moved {
        DeliveredKeepsFailures(spans, content, mid, spans[i].lower.value, n);
      }
    }
  }

  lemma {:induction false} LoopedKeepsFailures(spans: seq<Span>, content: seq<byte>, nodes: seq<Node>, i: nat, want: nat,
      data: seq<byte>)
    requires Grounded(spans, content) && Coherent(spans, nodes) && i < |nodes| && nodes[i].opens > 0
    requires |data| <= want <= INT64_MAX && !nodes[i].eof
    ensures KeepsFailures(nodes, Looped(spans, content, nodes, i, want, data).0)
    decreases i, 1, want - |data|
  {
    hide Called, Under;
    if |data| < want {
      CalledKeepsFailures(spans, content, nodes, i, want - |data|);
      var (mid, part) := Called(spans, content, nodes, i, want - |data|);
      if part.Ok? && part.value != [] {
        LoopedKeepsFailures(spans, content, mid, i, want, data + part.value);
      }
    }
  }

  lemma {:induction false} DeliveredKeepsFailures(spans: seq<Span>, content: seq<byte>, nodes: seq<Node>, i: nat, want: nat)
    requires Grounded(spans, content) && Coherent(spans, nodes) && i < |nodes|
    ensures KeepsFailures(nodes, Delivered(spans, content, nodes, i, want).0)
    decreases i, 2, 0
  {
    hide Looped, Under;
    if nodes[i].opens > 0 && want <= INT64_MAX && !nodes[i].failed && !nodes[i].eof && want > 0 {
      LoopedKeepsFailures(spans, content, nodes, i, want, []);
    }
  }

  lemma {:induction false} TooLittleLoops(spans: seq<Span>, content: seq<byte>, nodes: seq<Node>, i: nat, want: nat, data: seq<byte>)
    requires Grounded(spans, content) && Coherent(spans, nodes) && i < |nodes| && nodes[i].opens > 0
    requires |data| <= want <= INT64_MAX && !nodes[i].eof
    requires Least(want - |data|, spans[i].end - nodes[i].offset) > |Rest(spans, content, nodes, i)|
    ensures Looped(spans, content, nodes, i, want, data).0[i].failed
    decreases want - |data|
  {
    hide Called, Slice, Under, Sound, Enough;
    CalledLaw(spans, content, nodes, i, want - |data|);
    var (mid, part) := Called(spans, content, nodes, i, want - |data|);
    if part.Ok? && part.value != [] {
      assert |Rest(spans, content, mid, i)| == |Rest(spans, content, nodes, i)| - |part.value|;
      TooLittleLoops(spans, content, mid, i, want, data + part.value);
    }
  }

  /** A read leaves a healthy open source unfailed if and only if its slice has what was asked for or is
      left of the window. */
  lemma {:induction false} FailsExactly(spans: seq<Span>, content: seq<byte>, nodes: seq<Node>, i: nat, want: nat)
    requires Grounded(spans, content) && Coherent(spans, nodes) && i < |nodes| && nodes[i].opens > 0 && want <= INT64_MAX
    requires Healthy(spans, nodes, i)
    ensures !Delivered(spans, content, nodes, i, want).0[i].failed <==> Enough(spans, content, nodes, i, want)
  {
    hide Looped, Slice, Under;
    DeliveredLaw(spans, content, nodes, i, want);
    if !Enough(spans, content, nodes, i, want) {
      TooLittleLoops(spans, content, nodes, i, want, []);
    }
  }

  /** No window is served by a source that has failed. */
  lemma {:induction false} FailedServesNone(spans: seq<Span>, content: seq<byte>, nodes: seq<Node>, i: nat, want: nat)
    requires Grounded(spans, content) && Coherent(spans, nodes) && i < |nodes| && nodes[i].opens > 0 && 0 < want
    requires spans[i].lower.Some? && nodes[spans[i].lower.value].failed && nodes[i].offset < spans[i].end
    ensures Delivered(spans, content, nodes, i, want).1.Err?
  {
    hide Under, OnlyBelow;
    var l := spans[i].lower.value;
    if want <= INT64_MAX && !nodes[i].failed {
      var (mid, moved) := Sought(spans, nodes, l, FromStart, nodes[i].offset);
      assert moved ==> Delivered(spans, content, mid, l, Least(want, spans[i].end - nodes[i].offset)).1.Err?;
      assert Called(spans, content, nodes, i, want).1.Err?;
    }
  }

  /** A read that finds too little below makes the source below fail, too. */
  lemma {:induction false} TooLittleBelow(spans: seq<Span>, content: seq<byte>, nodes: seq<Node>, i: nat, want: nat)
    requires Grounded(spans, content) && Coherent(spans, nodes) && i < |nodes| && nodes[i].opens > 0 && want <= INT64_MAX
    requires spans[i].lower.Some? && !nodes[i].failed && !nodes[i].eof && want > 0
    requires var l, n := spans[i].lower.value, Least(want, spans[i].end - nodes[i].offset);
      n > 0 && nodes[i].offset + n <= Size(spans, l) && |Slice(spans, content, l)| < nodes[i].offset + n
    ensures Delivered(spans, content, nodes, i, want).0[spans[i].lower.value].failed
  {
    hide Slice, Under, OnlyBelow;
    var l, n := spans[i].lower.value, Least(want, spans[i].end - nodes[i].offset);
    var mid := Sought(spans, nodes, l, FromStart, nodes[i].offset).0;
    if !mid[l].failed {
      TooLittleLoops(spans, content, mid, l, n, []);
    }
    var after := Called(spans, content, nodes, i, want).0;
    assert Below(spans, content, nodes, i, n).0 == Delivered(spans, content, mid, l, n).0;
    assert after[l].failed by {
      NotUnderLower(spans, i);
    }
    LoopedOnwards(spans, content, nodes, i, want);
  }

  lemma {:induction false} LoopedOnwards(spans: seq<Span>, content: seq<byte>, nodes: seq<Node>, i: nat, want: nat)
    requires Grounded(spans, content) && Coherent(spans, nodes) && i < |nodes| && nodes[i].opens > 0 && 0 < want <= INT64_MAX
    requires !nodes[i].failed && !nodes[i].eof
    ensures KeepsFailures(Called(spans, content, nodes, i, want).0, Delivered(spans, content, nodes, i, want).0)
  {
    hide Called, Under, OnlyBelow;
    var (mid, part) := Called(spans, content, nodes, i, want);
    if part.Ok? && part.value != [] {
      LoopedKeepsFailures(spans, content, mid, i, want, [] + part.value);
    }
  }

  // ----- Any number of windows -----

  datatype Use = Open(i: nat) | Read(i: nat, want: nat) | Seek(i: nat, whence: Whence, delta: int)

  function Step(spans: seq<Span>, content: seq<byte>, nodes: seq<Node>, use: Use): (r: Outcome)
    requires Grounded(spans, content) && Coherent(spans, nodes)
    ensures Coherent(spans, r.0)
  {
    if use.i >= |nodes| then (nodes, Err(Invalid))
    else
      match use
      case Open(i) => (Opened(spans, nodes, i), Ok([]))
      case Seek(i, whence, delta) =>
        var (after, done) := Sought(spans, nodes, i, whence, delta);
        (after, if done then Ok([]) else Err(Invalid))
      case Read(i, want) => Delivered(spans, content, nodes, i, want)
  }

  function Fresh(spans: seq<Span>): (nodes: seq<Node>)
    ensures |nodes| == |spans| && forall j :: 0 <= j < |nodes| ==> nodes[j] == Node(0, false, false, 0)
  {
    seq(|spans|, _ => Node(0, false, false, 0))
  }

  /** The state after a run of uses, in any order, of any of the sources. */
  function Run(spans: seq<Span>, content: seq<byte>, uses: seq<Use>): (nodes: seq<Node>)
    requires Grounded(spans, content)
    ensures Coherent(spans, nodes)
    decreases |uses|
  {
    if uses == [] then Fresh(spans)
    else Step(spans, content, Run(spans, content, uses[..|uses| - 1]), uses[|uses| - 1]).0
  }

  /** What use `k` of a run returned. */
  function Out(spans: seq<Span>, content: seq<byte>, uses: seq<Use>, k: nat): Result<seq<byte>>
    requires Grounded(spans, content) && k < |uses|
  {
    Step(spans, content, Run(spans, content, uses[..k]), uses[k]).1
  }

  lemma {:induction false} StepKeepsSound(spans: seq<Span>, content: seq<byte>, nodes: seq<Node>, use: Use)
    requires Grounded(spans, content) && Coherent(spans, nodes)
    ensures KeepsSound(spans, content, nodes, Step(spans, content, nodes, use).0)
  {
    hide Sound, Delivered, Opened, Under, Delivers;
    if use.i < |nodes| {
      if use.Read? {
        DeliveredLaw(spans, content, nodes, use.i, use.want);
      } else {
        AllSoundStay(spans, content, nodes, Step(spans, content, nodes, use).0);
      }
    } else {
      AllSoundStay(spans, content, nodes, nodes);
    }
  }

  lemma {:induction false} FreshIsHealthy(spans: seq<Span>, j: nat)
    requires WellFounded(spans) && j < |spans|
    ensures Healthy(spans, Fresh(spans), j)
    decreases j
  {
    if spans[j].lower.Some? {
      FreshIsHealthy(spans, spans[j].lower.value);
    }
  }

  /** A window that lies within the sources below it never fails, whatever is done to any source. */
  lemma {:induction false} NestedNeverFails(spans: seq<Span>, content: seq<byte>, uses: seq<Use>, j: nat)
    requires Grounded(spans, content) && j < |spans| && Nested(spans, content, j)
    ensures Sound(spans, content, Run(spans, content, uses), j)
    decreases |uses|
  {
    hide Step, Nested, Healthy;
    if uses == [] {
      FreshIsHealthy(spans, j);
    } else {
      NestedNeverFails(spans, content, uses[..|uses| - 1], j);
      StepKeepsSound(spans, content, Run(spans, content, uses[..|uses| - 1]), uses[|uses| - 1]);
    }
  }

  /** The source that overreaches. */
  lemma {:induction false} Overreaching(spans: seq<Span>, content: seq<byte>, j: nat) returns (k: nat)
    requires Grounded(spans, content) && j < |spans| && !Nested(spans, content, j)
    ensures k <= j && !Inside(spans, content, k) && spans[k].lower.Some? && (k == j || Under(spans, k, j))
    decreases j
  {
    k := j;
    if Inside(spans, content, j) {
      k := Overreaching(spans, content, spans[j].lower.value);
    }
  }

  lemma {:induction false} UnhealthyAbove(spans: seq<Span>, nodes: seq<Node>, k: nat, j: nat)
    requires WellFounded(spans) && j < |spans| == |nodes| && (k == j || Under(spans, k, j))
    ensures k <= j && (nodes[k].failed ==> !Healthy(spans, nodes, j))
    decreases j
  {
    if k != j {
      UnderSmaller(spans, k, j);
      UnhealthyAbove(spans, nodes, k, spans[j].lower.value);
    }
  }

  /** Reading where the source below ends, or past it, fails. */
  lemma {:induction false} ReadingPastFails(spans: seq<Span>, content: seq<byte>, nodes: seq<Node>, k: nat)
    requires Grounded(spans, content) && Coherent(spans, nodes) && k < |nodes| && spans[k].lower.Some?
    requires nodes[k].opens > 0 && !nodes[k].failed && !nodes[k].eof && !nodes[spans[k].lower.value].failed
    requires Size(spans, spans[k].lower.value) <= nodes[k].offset < spans[k].end
    ensures Delivered(spans, content, nodes, k, 1).0[k].failed && Delivered(spans, content, nodes, k, 1).1.Err?
  {
    hide Under, OnlyBelow;
    var l, at := spans[k].lower.value, nodes[k].offset;
    var (mid, moved) := Sought(spans, nodes, l, FromStart, at);
    if moved {
      EndDeliversNothing(spans, content, mid, l);
    }
    assert Called(spans, content, nodes, k, 1).1.Err?;
  }

  lemma {:induction false} EndDeliversNothing(spans: seq<Span>, content: seq<byte>, nodes: seq<Node>, l: nat)
    requires Grounded(spans, content) && Coherent(spans, nodes) && l < |nodes|
    requires nodes[l].opens > 0 && !nodes[l].failed && nodes[l].offset == spans[l].end
    ensures Delivered(spans, content, nodes, l, 1).1 == Ok([])
  {
    hide Under, OnlyBelow;
    if !nodes[l].eof {
      assert Called(spans, content, nodes, l, 1) == (nodes, Ok([]));
    }
  }

  lemma {:induction false} RunMore(spans: seq<Span>, content: seq<byte>, uses: seq<Use>, use: Use)
    requires Grounded(spans, content)
    ensures Run(spans, content, uses + [use]) == Step(spans, content, Run(spans, content, uses), use).0
    ensures Out(spans, content, uses + [use], |uses|) == Step(spans, content, Run(spans, content, uses), use).1
  {
    assert (uses + [use])[..|uses|] == uses;
  }

  /** A window that does not lie within the sources below it can be made to fail. */
  lemma {:induction false} OverreachFails(spans: seq<Span>, content: seq<byte>, j: nat) returns (uses: seq<Use>)
    requires Grounded(spans, content) && j < |spans| && !Nested(spans, content, j)
    ensures !Healthy(spans, Run(spans, content, uses), j)
  {
    hide Step, Delivered, Opened, Under, Run, Healthy, Nested;
    var k := Overreaching(spans, content, j);
    var x := Edge(spans, content, k);
    uses := [Open(k), Seek(k, FromStart, x), Read(k, 1)];
    StandsPast(spans, content, k, x);
    var nodes := Run(spans, content, [Open(k), Seek(k, FromStart, x)]);
    RunThird(spans, content, Open(k), Seek(k, FromStart, x), Read(k, 1));
    StepReads(spans, content, nodes, k, 1);
    ReadingPastFails(spans, content, nodes, k);
    UnhealthyAbove(spans, Run(spans, content, uses), k, j);
  }

  /** Where in window `k` the source below ends. */
  function Edge(spans: seq<Span>, content: seq<byte>, k: nat): (x: nat)
    requires WellFounded(spans) && k < |spans| && spans[k].lower.Some? && !Inside(spans, content, k)
    ensures Size(spans, spans[k].lower.value) <= spans[k].start + x < spans[k].end
  {
    var size := Size(spans, spans[k].lower.value);
    if spans[k].start < size then size - spans[k].start else 0
  }

  lemma {:induction false} StandsPast(spans: seq<Span>, content: seq<byte>, k: nat, x: nat)
    requires Grounded(spans, content) && k < |spans| && spans[k].lower.Some? && spans[k].start + x < spans[k].end
    ensures var nodes := Run(spans, content, [Open(k), Seek(k, FromStart, x)]);
      && |nodes| == |spans| && nodes[k] == Node(spans[k].start + x, false, false, 1) && !nodes[spans[k].lower.value].failed
  {
    hide Opened, Under, OnlyBelow, Inside;
    RunTwo(spans, content, Open(k), Seek(k, FromStart, x));
    var a := Opened(spans, Fresh(spans), k);
    assert Run(spans, content, [Open(k), Seek(k, FromStart, x)]) == Sought(spans, a, k, FromStart, x).0;
  }

  lemma {:induction false} RunNothing(spans: seq<Span>, content: seq<byte>)
    requires Grounded(spans, content)
    ensures Run(spans, content, []) == Fresh(spans)
  {}

  /** A window can be made to fail, itself or below, if and only if it does not lie within the sources
      below it. */
  lemma {:induction false} NestedIffNeverFails(spans: seq<Span>, content: seq<byte>, j: nat)
    requires Grounded(spans, content) && j < |spans|
    ensures Nested(spans, content, j) <==> forall uses :: Healthy(spans, Run(spans, content, uses), j)
  {
    hide Run, Healthy, Nested;
    if Nested(spans, content, j) {
      forall uses ensures Healthy(spans, Run(spans, content, uses), j) {
        NestedNeverFails(spans, content, uses, j);
      }
    } else {
      var uses := OverreachFails(spans, content, j);
    }
  }

  // ----- One window among others -----

  /** A window of `size` bytes on its own: whether it is open, and where it stands. */
  datatype Place = Place(open: bool, pos: nat)

  function Alone(size: nat, p: Place, use: Use): Place {
    match use
    case Open(_) => if p.open then p else Place(true, 0)
    case Read(_, want) =>
      if p.open && want <= INT64_MAX && p.pos <= size then Place(true, p.pos + Least(want, size - p.pos)) else p
    case Seek(_, whence, delta) => if p.open then Place(true, SeekTarget(p.pos, size, whence, delta).GetOr(p.pos)) else p
  }

  /** Where window `j` would stand if only the uses of itself had been made. */
  function AloneRun(size: nat, j: nat, uses: seq<Use>): Place
    decreases |uses|
  {
    if uses == [] then Place(false, 0)
    else
      var p := AloneRun(size, j, uses[..|uses| - 1]);
      if uses[|uses| - 1].i == j then Alone(size, p, uses[|uses| - 1]) else p
  }

  function PlaceOf(spans: seq<Span>, nodes: seq<Node>, j: nat): Place
    requires Coherent(spans, nodes) && j < |spans|
  {
    if nodes[j].opens == 0 then Place(false, 0) else Place(true, nodes[j].offset - spans[j].start)
  }

  /** One use, seen from a sound window that is not below the source used. */
  lemma {:induction false} StepAlone(spans: seq<Span>, content: seq<byte>, nodes: seq<Node>, use: Use, j: nat)
    requires Grounded(spans, content) && Coherent(spans, nodes) && j < |spans| && Sound(spans, content, nodes, j)
    requires use.i < |spans| ==> !Under(spans, j, use.i)
    ensures var p := PlaceOf(spans, nodes, j);
      PlaceOf(spans, Step(spans, content, nodes, use).0, j) == if use.i == j then Alone(Size(spans, j), p, use) else p
  {
    hide Delivered, Sound, Under, Opened, Sought, Alone, PlaceOf, Coherent, Grounded;
    CoherentSize(spans, nodes);
    if use.i < |spans| {
      match use
      case Open(i) => OpenMovesAlone(spans, nodes, i, j);
      case Seek(i, whence, delta) => SeekMovesAlone(spans, nodes, i, whence, delta, j);
      case Read(i, want) => ReadMovesAlone(spans, content, nodes, i, want, j);
    }
  }

  lemma {:induction false} OpenMovesAlone(spans: seq<Span>, nodes: seq<Node>, i: nat, j: nat)
    requires Coherent(spans, nodes) && j < |spans| && i < |spans| && !Under(spans, j, i)
    ensures var p := PlaceOf(spans, nodes, j);
      PlaceOf(spans, Opened(spans, nodes, i), j) == if i == j then Alone(Size(spans, j), p, Open(i)) else p
  {
    hide Under, Opened;
  }

  lemma {:induction false} SeekMovesAlone(spans: seq<Span>, nodes: seq<Node>, i: nat, whence: Whence, delta: int, j: nat)
    requires Coherent(spans, nodes) && j < |spans| && i < |spans|
    ensures var p := PlaceOf(spans, nodes, j);
      PlaceOf(spans, Sought(spans, nodes, i, whence, delta).0, j)
        == if i == j then Alone(Size(spans, j), p, Seek(i, whence, delta)) else p
  {
    hide Under, OnlyBelow;
  }

  lemma {:induction false} ReadMovesAlone(spans: seq<Span>, content: seq<byte>, nodes: seq<Node>, i: nat, want: nat, j: nat)
    requires Grounded(spans, content) && Coherent(spans, nodes) && j < |spans| && Sound(spans, content, nodes, j)
    requires i < |spans| && !Under(spans, j, i)
    ensures var p := PlaceOf(spans, nodes, j);
      PlaceOf(spans, Delivered(spans, content, nodes, i, want).0, j)
        == if i == j then Alone(Size(spans, j), p, Read(i, want)) else p
  {
    hide Delivered, Sound, Under, Slice, Delivers, Enough;
    DeliveredLaw(spans, content, nodes, i, want);
    OpenCloses(spans, content, nodes, i, want);
    if nodes[j].opens > 0 {
      SoundHasEnough(spans, content, nodes, j, want);
    }
  }

  lemma {:induction false} OpenCloses(spans: seq<Span>, content: seq<byte>, nodes: seq<Node>, i: nat, want: nat)
    requires Grounded(spans, content) && Coherent(spans, nodes) && i < |nodes|
    ensures var after := Delivered(spans, content, nodes, i, want).0;
      && |after| == |nodes| && Coherent(spans, after) && (forall j :: 0 <= j < |nodes| ==> after[j].opens == nodes[j].opens)
      && (nodes[i].opens == 0 || want > INT64_MAX ==> after == nodes)
  {
    hide Looped, Under;
  }

  lemma {:induction false} PrefixTake(s: seq<byte>, v: seq<byte>, want: nat)
    requires v <= s && |v| == Least(want, |s|)
    ensures v == Take(s, want)
  {}

  /** A read of a sound window delivers just the next bytes of its slice. */
  lemma {:induction false} ReadAlone(spans: seq<Span>, content: seq<byte>, nodes: seq<Node>, j: nat, want: nat)
    requires Grounded(spans, content) && Coherent(spans, nodes) && j < |spans| && Sound(spans, content, nodes, j)
    requires nodes[j].opens > 0 && want <= INT64_MAX
    ensures Delivered(spans, content, nodes, j, want).1
      == Ok(Take(Drop(Slice(spans, content, j), nodes[j].offset - spans[j].start), want))
  {
    hide Delivered, Slice, Nested, Healthy;
    DeliveredLaw(spans, content, nodes, j, want);
    SoundHasEnough(spans, content, nodes, j, want);
    NestedSize(spans, content, j);
    PrefixTake(Drop(Slice(spans, content, j), nodes[j].offset - spans[j].start),
      Delivered(spans, content, nodes, j, want).1.value, want);
  }

  /** No source that is used is layered on `j`. */
  predicate NoneAbove(spans: seq<Span>, uses: seq<Use>, j: nat)
    requires WellFounded(spans)
  {
    forall k :: 0 <= k < |uses| && uses[k].i < |spans| ==> !Under(spans, j, uses[k].i)
  }

  /** Windows never interfere. Over any interleaving of opens, seeks and reads of any sources, a window
      that lies within those below it, and on which none of those used is layered, stands where it would
      if it were used alone, and every read of it delivers exactly the next bytes of its own slice. */
  lemma {:induction false} WindowsDoNotInterfere(spans: seq<Span>, content: seq<byte>, uses: seq<Use>, j: nat)
    requires Grounded(spans, content) && j < |spans| && Nested(spans, content, j) && NoneAbove(spans, uses, j)
    ensures PlaceOf(spans, Run(spans, content, uses), j) == AloneRun(Size(spans, j), j, uses)
    ensures forall k :: 0 <= k < |uses| && uses[k].Read? && uses[k].i == j && uses[k].want <= INT64_MAX ==>
      var p := AloneRun(Size(spans, j), j, uses[..k]);
      p.open ==> Out(spans, content, uses, k) == Ok(Take(Drop(Slice(spans, content, j), p.pos), uses[k].want))
    decreases |uses|
  {
    hide Run, Out, Slice, AloneRun, Nested, NoneAbove, Take, Drop, PlaceOf, Grounded;
    PlaceAlone(spans, content, uses, j);
    forall k | 0 <= k < |uses| && uses[k].Read? && uses[k].i == j && uses[k].want <= INT64_MAX
      ensures var p := AloneRun(Size(spans, j), j, uses[..k]);
        p.open ==> Out(spans, content, uses, k) == Ok(Take(Drop(Slice(spans, content, j), p.pos), uses[k].want))
    {
      OutAlone(spans, content, uses, j, k);
    }
  }

  /** Read `k`, of window `j`. */
  lemma {:induction false} OutAlone(spans: seq<Span>, content: seq<byte>, uses: seq<Use>, j: nat, k: nat)
    requires Grounded(spans, content) && j < |spans| && Nested(spans, content, j) && NoneAbove(spans, uses, j)
    requires k < |uses| && uses[k].Read? && uses[k].i == j && uses[k].want <= INT64_MAX
    ensures var p := AloneRun(Size(spans, j), j, uses[..k]);
      p.open ==> Out(spans, content, uses, k) == Ok(Take(Drop(Slice(spans, content, j), p.pos), uses[k].want))
  {
    hide Run, Slice, AloneRun, Delivered, Sound, Nested, Under, NoneAbove, Take, Drop, Coherent;
    var nodes := Run(spans, content, uses[..k]);
    assert NoneAbove(spans, uses[..k], j) by {
      FewerAbove(spans, uses, j, k);
    }
    PlaceAlone(spans, content, uses[..k], j);
    NestedNeverFails(spans, content, uses[..k], j);
    CoherentSize(spans, nodes);
    StepReads(spans, content, nodes, j, uses[k].want);
    if nodes[j].opens > 0 {
      ReadAlone(spans, content, nodes, j, uses[k].want);
    }
  }

  lemma {:induction false} StandsIn(spans: seq<Span>, nodes: seq<Node>, i: nat)
    requires Coherent(spans, nodes) && i < |nodes|
    ensures |nodes| == |spans| && spans[i].start <= spans[i].end
    ensures nodes[i].opens > 0 ==> spans[i].start <= nodes[i].offset <= spans[i].end
  {}

  lemma {:induction false} CoherentSize(spans: seq<Span>, nodes: seq<Node>)
    requires Coherent(spans, nodes)
    ensures |nodes| == |spans|
  {}

  lemma {:induction false} FewerAbove(spans: seq<Span>, uses: seq<Use>, j: nat, k: nat)
    requires WellFounded(spans) && NoneAbove(spans, uses, j) && k <= |uses|
    ensures NoneAbove(spans, uses[..k], j)
  {
    hide Under;
  }

  lemma {:induction false} PlaceAlone(spans: seq<Span>, content: seq<byte>, uses: seq<Use>, j: nat)
    requires Grounded(spans, content) && j < |spans| && Nested(spans, content, j) && NoneAbove(spans, uses, j)
    ensures PlaceOf(spans, Run(spans, content, uses), j) == AloneRun(Size(spans, j), j, uses)
    decreases |uses|
  {
    hide Step, Nested, Sound, Under, Alone;
    if uses != [] {
      var n := |uses| - 1;
      PlaceAlone(spans, content, uses[..n], j);
      NestedNeverFails(spans, content, uses[..n], j);
      StepAlone(spans, content, Run(spans, content, uses[..n]), uses[n], j);
    }
  }

  /** Using another source leaves a window where it stands alone, whatever the uses, if and only if the
      other is not layered on it. */
  lemma {:induction false} DisturbedFromAbove(spans: seq<Span>, content: seq<byte>, j: nat, i: nat)
    requires Grounded(spans, content) && j < |spans| && i < |spans| && i != j && Nested(spans, content, j)
    ensures !Under(spans, j, i) <==>
      forall uses :: OnlyOf(uses, i, j) ==> PlaceOf(spans, Run(spans, content, uses), j) == AloneRun(Size(spans, j), j, uses)
  {
    hide Run, Nested, AloneRun;
    if !Under(spans, j, i) {
      forall uses | OnlyOf(uses, i, j)
        ensures PlaceOf(spans, Run(spans, content, uses), j) == AloneRun(Size(spans, j), j, uses)
      {
        NotUnderItself(spans, j);
        PlaceAlone(spans, content, uses, j);
      }
    } else {
      RunNothing(spans, content);
      RunMore(spans, content, [], Open(i));
      assert [] + [Open(i)] == [Open(i)];
      OpensBelow(spans, Fresh(spans), i, j);
      AloneNot(Size(spans, j), j, i);
      assert OnlyOf([Open(i)], i, j);
    }
  }

  predicate OnlyOf(uses: seq<Use>, i: nat, j: nat) {
    forall k :: 0 <= k < |uses| ==> uses[k].i == i || uses[k].i == j
  }

  lemma {:induction false} NotUnderItself(spans: seq<Span>, j: nat)
    requires WellFounded(spans) && j < |spans|
    ensures !Under(spans, j, j)
  {
    if Under(spans, j, j) {
      UnderSmaller(spans, j, j);
    }
  }

  lemma {:induction false} AloneNot(size: nat, j: nat, i: nat)
    requires i != j
    ensures AloneRun(size, j, [Open(i)]) == Place(false, 0)
  {
    assert [Open(i)][..0] == [];
  }

  lemma {:induction false} OpensBelow(spans: seq<Span>, nodes: seq<Node>, i: nat, j: nat)
    requires Coherent(spans, nodes) && i < |spans| && Under(spans, j, i)
    ensures j < i && Opened(spans, nodes, i)[j].opens > 0
    decreases i
  {
    UnderSmaller(spans, j, i);
    OpenBelowOpen(spans, Opened(spans, nodes, i), i, j);
  }

  lemma {:induction false} OpenBelowOpen(spans: seq<Span>, nodes: seq<Node>, i: nat, j: nat)
    requires Coherent(spans, nodes) && i < |spans| && nodes[i].opens > 0 && Under(spans, j, i)
    ensures j < i && nodes[j].opens > 0
    decreases i
  {
    UnderSmaller(spans, j, i);
    if j != spans[i].lower.value {
      OpenBelowOpen(spans, nodes, spans[i].lower.value, j);
    }
  }

  // ----- The operations in place -----

  class Windows {
    const content: seq<byte>
    const spans: seq<Span>
    var nodes: seq<Node>

    constructor (content: seq<byte>, spans: seq<Span>)
      requires Grounded(spans, content)
      ensures Valid() && this.content == content && this.spans == spans && nodes == Fresh(spans)
    {
      this.content, this.spans := content, spans;
      nodes := Fresh(spans);
    }

    predicate Valid()
      reads this
    {
      Grounded(spans, content) && Coherent(spans, nodes)
    }

    /** The bytes source `i` stands for. */
    function Of(i: nat): seq<byte>
      requires Valid() && i < |spans|
      reads this
    {
      Slice(spans, content, i)
    }

    /** `zip_source_seek` with the SEEK command of the window or of the shared source. */
    method Seek(i: nat, whence: Whence, delta: int) returns (done: bool)
      requires Valid() && i < |nodes|
      modifies this
      ensures Valid() && (nodes, done) == Sought(spans, old(nodes), i, whence, delta)
      ensures var s, n := spans[i], old(nodes)[i];
        var to := if n.opens > 0 then SeekTarget(n.offset - s.start, s.end - s.start, whence, delta) else None;
        && done == to.Some?
        && nodes == if done then old(nodes)[i := n.(offset := s.start + to.value, eof := false)] else old(nodes)
    {
      hide Under, OnlyBelow, Coherent, Grounded;
      StandsIn(spans, nodes, i);
      ghost var sought := Sought(spans, nodes, i, whence, delta);
      var s, n := spans[i], nodes[i];
      if n.opens == 0 {
        return false;
      }
      var to := SeekTarget(n.offset - s.start, s.end - s.start, whence, delta);
      if to.None? {
        return false;
      }
      nodes := nodes[i := n.(offset := s.start + to.value, eof := false)];
      return true;
    }

    /** `zip_source_tell`: relative to the window. */
    method Tell(i: nat) returns (r: Option<nat>)
      requires Valid() && i < |nodes|
      ensures r == if nodes[i].opens > 0 then Some(nodes[i].offset - spans[i].start) else None
    {
      if nodes[i].opens == 0 {
        return None;
      }
      return Some(nodes[i].offset - spans[i].start);
    }

    /** `zip_source_open`: no source that had not failed has failed afterwards, and none that is not below
        is touched. */
    method Open(i: nat)
      requires Valid() && i < |nodes|
      modifies this
      ensures Valid() && nodes == Opened(spans, old(nodes), i)
      ensures var n := old(nodes)[i];
        nodes[i] == Node(if n.opens == 0 then spans[i].start else n.offset, false, false, n.opens + 1)
      ensures forall j :: 0 <= j < |nodes| && j != i && !Under(spans, j, i) ==> nodes[j] == old(nodes)[j]
      ensures KeepsSound(spans, content, old(nodes), nodes)
      decreases i
    {
      hide Under, Sound;
      NotUnderLower(spans, i);
      AllSoundStay(spans, content, nodes, Opened(spans, nodes, i));
      if nodes[i].opens == 0 {
        if spans[i].lower.Some? {
          Open(spans[i].lower.value);
        }
        nodes := nodes[i := nodes[i].(offset := spans[i].start)];
      }
      nodes := nodes[i := nodes[i].(eof := false, failed := false, opens := nodes[i].opens + 1)];
    }

    /** The READ command: of the shared source, or of a window, which seeks the source below it first. */
    method Callback(i: nat, want: nat) returns (r: Result<seq<byte>>)
      requires Valid() && i < |nodes| && nodes[i].opens > 0 && 0 < want <= INT64_MAX
      modifies this
      ensures Valid() && (nodes, r) == Called(spans, content, old(nodes), i, want)
      ensures CalledRight(spans, content, old(nodes), i, want, (nodes, r))
      decreases i, 0
    {
      hide Delivered, Called, Below, Under, OnlyBelow, CalledRight, Slice;
      CalledLaw(spans, content, nodes, i, want);
      var s, at := spans[i], nodes[i].offset;
      var n := if want > s.end - at then s.end - at else want;
      CalledHere(spans, content, nodes, i, want);
      if n == 0 {
        return Ok([]);
      }
      if s.lower.None? {
        nodes := nodes[i := nodes[i].(offset := at + n)];
        return Ok(content[at..at + n]);
      }
      CalledAs(spans, content, nodes, i, want);
      r := ReadBelow(i, n);
      if r.Err? {
        return;
      }
      if r.value == [] {
        return Err(EndOfFile);
      }
      nodes := nodes[i := nodes[i].(offset := at + |r.value|)];
    }

    /** Seeks the source below to where this window stands, and reads it. */
    method ReadBelow(i: nat, n: nat) returns (r: Result<seq<byte>>)
      requires Valid() && i < |nodes| && nodes[i].opens > 0 && spans[i].lower.Some? && n <= INT64_MAX
      modifies this
      ensures Valid() && (nodes, r) == Below(spans, content, old(nodes), i, n)
      decreases i, 0, 0
    {
      hide Delivered, Sought, Under, OnlyBelow, Inside;
      var moved := Seek(spans[i].lower.value, FromStart, nodes[i].offset);
      if !moved {
        return Err(Invalid);
      }
      r := Read(spans[i].lower.value, n);
    }

    /** `zip_source_read`: never a wrong byte, and if the slice has them exactly the next ones, as many as
        asked for or as are left; a refused read changes nothing; no window within those below it fails. */
    method Read(i: nat, want: nat) returns (r: Result<seq<byte>>)
      requires Valid() && i < |nodes|
      modifies this
      ensures Valid() && (nodes, r) == Delivered(spans, content, old(nodes), i, want)
      ensures OnlyBelow(spans, old(nodes), nodes, i) && nodes[i].offset == old(nodes)[i].offset + Got(r)
      ensures r.Ok? ==> Delivers(Of(i), old(nodes)[i].offset - spans[i].start, r.value)
      ensures nodes[i].opens > 0 && want <= INT64_MAX && Enough(spans, content, old(nodes), i, want) ==>
        r.Ok? && |r.value| == Least(want, spans[i].end - old(nodes)[i].offset) && SameFailures(old(nodes), nodes)
      ensures nodes[i].opens == 0 || want > INT64_MAX || old(nodes)[i].failed ==> r.Err? && nodes == old(nodes)
      ensures KeepsSound(spans, content, old(nodes), nodes)
      decreases i, 1
    {
      hide Looped, Under, KeepsSound, SameFailures, OnlyBelow, Enough, Slice, Delivers, Grounded, Coherent;
      DeliveredLaw(spans, content, nodes, i, want);
      OpenCloses(spans, content, nodes, i, want);
      if nodes[i].opens == 0 || want > INT64_MAX || nodes[i].failed {
        return Err(Invalid);
      }
      if nodes[i].eof || want == 0 {
        return Ok([]);
      }
      r := ReadOn(i, want);
    }

    /** The loop of `zip_source_read`. */
    method ReadOn(i: nat, want: nat) returns (r: Result<seq<byte>>)
      requires Valid() && i < |nodes| && nodes[i].opens > 0 && want <= INT64_MAX && !nodes[i].eof
      modifies this
      ensures Valid() && (nodes, r) == Looped(spans, content, old(nodes), i, want, [])
      decreases i, 1, 0
    {
      hide Called, Under, OnlyBelow, CalledRight, Grounded;
      var data := [];
      while |data| < want
        invariant Valid() && i < |nodes| && nodes[i].opens > 0 && !nodes[i].eof && |data| <= want
        invariant Looped(spans, content, nodes, i, want, data) == Looped(spans, content, old(nodes), i, want, [])
        decreases want - |data|
      {
        var part := Callback(i, want - |data|);
        if part.Err? {
          nodes := nodes[i := nodes[i].(failed := true)];
          return if data == [] then Err(part.error) else Ok(data);
        }
        if part.value == [] {
          nodes := nodes[i := nodes[i].(eof := true)];
          return Ok(data);
        }
        data := data + part.value;
      }
      return Ok(data);
    }

    /** Any one use. */
    method Do(use: Use) returns (out: Result<seq<byte>>)
      requires Valid()
      modifies this
      ensures Valid() && (nodes, out) == Step(spans, content, old(nodes), use)
    {
      hide Delivered, Opened, Sought, Under;
      if use.i >= |nodes| {
        return Err(Invalid);
      }
      match use
      case Open(i) =>
        Open(i);
        return Ok([]);
      case Seek(i, whence, delta) =>
        var done := Seek(i, whence, delta);
        return if done then Ok([]) else Err(Invalid);
      case Read(i, want) =>
        out := Read(i, want);
    }
  }

  /** Any number of uses, one after the other, of sources made anew. */
  method Play(spans: seq<Span>, content: seq<byte>, uses: seq<Use>) returns (w: Windows, outs: seq<Result<seq<byte>>>)
    requires Grounded(spans, content)
    ensures fresh(w) && w.Valid() && w.spans == spans && w.content == content && w.nodes == Run(spans, content, uses)
    ensures |outs| == |uses| && forall k :: 0 <= k < |uses| ==> outs[k] == Out(spans, content, uses, k)
  {
    hide Step, Grounded, Coherent;
    w := new Windows(content, spans);
    outs := [];
    for n := 0 to |uses|
      invariant fresh(w) && w.Valid() && w.spans == spans && w.content == content
      invariant w.nodes == Run(spans, content, uses[..n]) && |outs| == n
      invariant forall k :: 0 <= k < n ==> outs[k] == Out(spans, content, uses, k)
    {
      var out := w.Do(uses[n]);
      RunMore(spans, content, uses[..n], uses[n]);
      assert uses[..n] + [uses[n]] == uses[..n + 1];
      outs := outs + [out];
    }
    assert uses[..|uses|] == uses;
  }

  // ----- Two runs that go wrong -----

  lemma {:induction false} RunTwo(spans: seq<Span>, content: seq<byte>, a: Use, b: Use)
    requires Grounded(spans, content)
    ensures Run(spans, content, [a, b])
      == Step(spans, content, Step(spans, content, Fresh(spans), a).0, b).0
  {
    hide Step;
    RunNothing(spans, content);
    RunMore(spans, content, [], a);
    RunMore(spans, content, [a], b);
    assert [] + [a] == [a] && [a] + [b] == [a, b];
  }

  lemma {:induction false} RunThird(spans: seq<Span>, content: seq<byte>, a: Use, b: Use, c: Use)
    requires Grounded(spans, content)
    ensures var nodes := Run(spans, content, [a, b]);
      && Run(spans, content, [a, b, c]) == Step(spans, content, nodes, c).0
      && Out(spans, content, [a, b, c], 2) == Step(spans, content, nodes, c).1
  {
    hide Step, Run, Out;
    RunMore(spans, content, [a, b], c);
    assert [a, b] + [c] == [a, b, c];
  }

  lemma {:induction false} RunFourth(spans: seq<Span>, content: seq<byte>, a: Use, b: Use, c: Use, d: Use)
    requires Grounded(spans, content)
    ensures Out(spans, content, [a, b, c, d], 3) == Step(spans, content, Run(spans, content, [a, b, c]), d).1
  {
    hide Step, Run, Out;
    RunMore(spans, content, [a, b, c], d);
    assert [a, b, c] + [d] == [a, b, c, d];
  }

  lemma {:induction false} StepReads(spans: seq<Span>, content: seq<byte>, nodes: seq<Node>, i: nat, want: nat)
    requires Grounded(spans, content) && Coherent(spans, nodes) && i < |nodes|
    ensures Step(spans, content, nodes, Read(i, want)) == Delivered(spans, content, nodes, i, want)
  {}

  /** A window of five bytes on a source of two, and two windows on that window. */
  const OVERREACHING: seq<Span> := [Span(None, 0, 2), Span(Some(0), 0, 5), Span(Some(1), 0, 5), Span(Some(1), 0, 1)]

  lemma {:induction false} OverreachingSlices()
    ensures Grounded(OVERREACHING, [1, 2])
    ensures var s := OVERREACHING; Slice(s, [1, 2], 1) == [1, 2] && Slice(s, [1, 2], 3) == [1]
    ensures !Under(OVERREACHING, 2, 3) && !Under(OVERREACHING, 3, 2)
  {
    var s, c: seq<byte> := OVERREACHING, [1, 2];
    assert Slice(s, c, 0) == c;
    assert Slice(s, c, 1) == c;
    assert !Under(s, 2, 0) && !Under(s, 3, 0);
    assert !Under(s, 2, 1) && !Under(s, 3, 1);
  }

  lemma {:induction false} BothOpen(nodes: seq<Node>)
    requires Grounded(OVERREACHING, [1, 2]) && nodes == Run(OVERREACHING, [1, 2], [Open(2), Open(3)])
    ensures |nodes| == 4 && Healthy(OVERREACHING, nodes, 3)
    ensures nodes[2] == Node(0, false, false, 1) && nodes[3] == Node(0, false, false, 1) && !nodes[1].failed
  {
    hide Under, Slice, Opened;
    OverreachingSlices();
    var s := OVERREACHING;
    RunTwo(s, [1, 2], Open(2), Open(3));
    var first := Opened(s, Fresh(s), 2);
    assert nodes == Opened(s, first, 3);
    assert Healthy(s, nodes, 0) && Healthy(s, nodes, 1);
  }

  /** Two windows on one overreaching window: reading the first makes a read of the second fail that
      lies well within it and would otherwise deliver its byte. */
  lemma {:induction false} OverreachPoisons()
    ensures Grounded(OVERREACHING, [1, 2])
    ensures Out(OVERREACHING, [1, 2], [Open(2), Open(3), Read(2, 5), Read(3, 1)], 3).Err?
    ensures Out(OVERREACHING, [1, 2], [Open(2), Open(3), Read(3, 1)], 2) == Ok([1])
  {
    hide Run, Step, Out, Delivered, Slice, Sound, Nested, Healthy, Under, Grounded, Coherent, Take, Drop, OnlyBelow;
    OverreachingSlices();
    var s, c: seq<byte> := OVERREACHING, [1, 2];
    var nodes := Run(s, c, [Open(2), Open(3)]);
    BothOpen(nodes);
    RunThird(s, c, Open(2), Open(3), Read(2, 5));
    RunFourth(s, c, Open(2), Open(3), Read(2, 5), Read(3, 1));
    RunThird(s, c, Open(2), Open(3), Read(3, 1));
    StepReads(s, c, nodes, 2, 5);
    StepReads(s, c, nodes, 3, 1);
    FirstReadPoisons(nodes);
    OpenCloses(s, c, nodes, 2, 5);
    StepReads(s, c, Delivered(s, c, nodes, 2, 5).0, 3, 1);
    SecondReadAlone(nodes);
  }

  lemma {:induction false} FirstReadPoisons(nodes: seq<Node>)
    requires Grounded(OVERREACHING, [1, 2]) && Coherent(OVERREACHING, nodes)
    requires nodes[2] == Node(0, false, false, 1) && nodes[3] == Node(0, false, false, 1) && !nodes[1].failed
    ensures var after := Delivered(OVERREACHING, [1, 2], nodes, 2, 5).0;
      Delivered(OVERREACHING, [1, 2], after, 3, 1).1.Err?
  {
    hide Delivered, Under, Slice;
    var s, c: seq<byte> := OVERREACHING, [1, 2];
    OverreachingSlices();
    TooLittleBelow(s, c, nodes, 2, 5);
    FailedServesNone(s, c, Delivered(s, c, nodes, 2, 5).0, 3, 1);
  }

  lemma {:induction false} DropNone(s: seq<byte>)
    ensures Drop(s, 0) == s
  {}

  lemma {:induction false} OnlyByte(spans: seq<Span>, content: seq<byte>, nodes: seq<Node>, i: nat, b: byte)
    requires Grounded(spans, content) && Coherent(spans, nodes) && i < |nodes| && nodes[i].opens > 0
    requires |nodes| == |spans| && Healthy(spans, nodes, i) && nodes[i].offset == spans[i].start < spans[i].end
    requires WellFounded(spans) && Slice(spans, content, i) == [b]
    ensures Delivered(spans, content, nodes, i, 1).1 == Ok([b])
  {
    hide Delivered, Under, Slice, Healthy, Grounded, Coherent, WellFounded, Drop;
    DropNone([b]);
    EnoughDelivers(spans, content, nodes, i, 1);
    assert [b][..1] == [b];
  }

  lemma {:induction false} SecondReadAlone(nodes: seq<Node>)
    requires Grounded(OVERREACHING, [1, 2]) && Coherent(OVERREACHING, nodes) && |nodes| == 4
    requires nodes[3] == Node(0, false, false, 1) && Healthy(OVERREACHING, nodes, 3)
    ensures Delivered(OVERREACHING, [1, 2], nodes, 3, 1).1 == Ok([1])
  {
    hide Delivered, Under, Slice, Healthy, Grounded, Coherent;
    OverreachingSlices();
    OnlyByte(OVERREACHING, [1, 2], nodes, 3, 1);
  }

  /** A window on a source, which the client reads as well. */
  const LAYERED: seq<Span> := [Span(None, 0, 3), Span(Some(0), 1, 3)]

  lemma {:induction false} ReadMovesBelow(spans: seq<Span>, content: seq<byte>, nodes: seq<Node>, i: nat)
    requires Grounded(spans, content) && Coherent(spans, nodes) && i < |nodes| && nodes[i].opens > 0
    requires Sound(spans, content, nodes, i) && !nodes[i].eof && spans[i].lower.Some? && nodes[i].offset < spans[i].end
    ensures var l := spans[i].lower.value;
      Delivered(spans, content, nodes, i, 1).0[l].offset == spans[l].start + nodes[i].offset + 1
  {
    hide Slice, Under, Looped, Nested, Healthy, OnlyBelow;
    var l := spans[i].lower.value;
    CalledLaw(spans, content, nodes, i, 1);
    SoundHasEnough(spans, content, nodes, i, 1);
    CalledAs(spans, content, nodes, i, 1);
    SoundParts(spans, content, nodes, i);
    LoopedOnce(spans, content, nodes, i);
  }

  lemma {:induction false} LoopedOnce(spans: seq<Span>, content: seq<byte>, nodes: seq<Node>, i: nat)
    requires Grounded(spans, content) && Coherent(spans, nodes) && i < |nodes| && nodes[i].opens > 0
    requires !nodes[i].eof && !nodes[i].failed
    requires Got(Called(spans, content, nodes, i, 1).1) == 1
    ensures Delivered(spans, content, nodes, i, 1).0 == Called(spans, content, nodes, i, 1).0
  {
    hide Called, Under, OnlyBelow;
    var (mid, part) := Called(spans, content, nodes, i, 1);
    assert Looped(spans, content, mid, i, 1, [] + part.value).0 == mid;
  }

  /** A read of a window moves the source below: its own next read skips bytes. */
  lemma {:induction false} LayeredReadSkips()
    ensures Grounded(LAYERED, [1, 2, 3])
    ensures Out(LAYERED, [1, 2, 3], [Open(0), Open(1), Read(1, 1), Read(0, 1)], 3) == Ok([3])
    ensures Out(LAYERED, [1, 2, 3], [Open(0), Open(1), Read(0, 1)], 2) == Ok([1])
  {
    hide Run, Step, Out, Delivered, Slice, Sound, Nested, Healthy, Under, Grounded, Coherent, Take, Drop, OnlyBelow;
    var s, c: seq<byte> := LAYERED, [1, 2, 3];
    LayeredIsNested();
    LayeredOpen();
    RunThird(s, c, Open(0), Open(1), Read(1, 1));
    RunFourth(s, c, Open(0), Open(1), Read(1, 1), Read(0, 1));
    RunThird(s, c, Open(0), Open(1), Read(0, 1));
    var nodes := Run(s, c, [Open(0), Open(1)]);
    var after := Run(s, c, [Open(0), Open(1), Read(1, 1)]);
    NestedNeverFails(s, c, [Open(0), Open(1)], 0);
    NestedNeverFails(s, c, [Open(0), Open(1)], 1);
    NestedNeverFails(s, c, [Open(0), Open(1), Read(1, 1)], 0);
    StepReads(s, c, nodes, 1, 1);
    StepReads(s, c, nodes, 0, 1);
    OpenCloses(s, c, nodes, 1, 1);
    StepReads(s, c, after, 0, 1);
    ReadMovesBelow(s, c, nodes, 1);
    ReadAlone(s, c, after, 0, 1);
    ReadAlone(s, c, nodes, 0, 1);
    FirstAndThird();
  }

  lemma {:induction false} FirstAndThird()
    ensures Take(Drop([1, 2, 3], 0), 1) == [1] && Take(Drop([1, 2, 3], 2), 1) == [3]
  {}

  lemma {:induction false} LayeredIsNested()
    ensures Grounded(LAYERED, [1, 2, 3]) && Nested(LAYERED, [1, 2, 3], 0) && Nested(LAYERED, [1, 2, 3], 1)
    ensures Slice(LAYERED, [1, 2, 3], 0) == [1, 2, 3]
  {}

  lemma {:induction false} OpenedOver(spans: seq<Span>, nodes: seq<Node>, i: nat)
    requires Coherent(spans, nodes) && i < |nodes| && nodes[i].opens == 0 && spans[i].lower.Some?
    ensures Opened(spans, nodes, i) == Opened(spans, nodes, spans[i].lower.value)[i := Node(spans[i].start, false, false, 1)]
  {
    hide Under;
  }

  lemma {:induction false} LayeredOpen()
    requires Grounded(LAYERED, [1, 2, 3])
    ensures var nodes := Run(LAYERED, [1, 2, 3], [Open(0), Open(1)]);
      && |nodes| == 2 && nodes[0].opens > 0 && nodes[0].offset == 0 && nodes[1] == Node(1, false, false, 1)
  {
    hide Slice, Opened, Run;
    var s := LAYERED;
    RunTwo(s, [1, 2, 3], Open(0), Open(1));
    var first := Opened(s, Fresh(s), 0);
    assert !Under(s, 1, 0);
    OpenedOver(s, first, 1);
  }
}
