/**
 The memory source: reading and transactional writing over fragmented buffers
 (`read_data` in zip_source_buffer.c; zip_source_begin_write.c, _begin_write_cloning.c, _write.c,
 _seek_write.c, _commit_write.c, _rollback_write.c, _remove.c, _open.c, _close.c).
 */
module MemorySource {
  import opened Bytes
  import opened ZipBuffer
  import opened Output
  import opened FragmentBuffer

  // ----- What a client sees -----

  /** Pending output: its bytes, its position, and how much of it is still shared with the reader. */
  datatype Writer = Writer(bytes: seq<byte>, pos: nat, shared: nat)

  datatype State = State(reader: seq<byte>, readPos: nat, writer: Option<Writer>, removed: bool, opens: nat)

  datatype Op =
    | Open | Close | Read(want: nat) | Seek(whence: Whence, delta: int)
    | BeginWrite | BeginCloning(length: nat, granted: bool)
    | Write(data: seq<byte>) | SeekWrite(whence: Whence, delta: int)
    | Commit | Rollback | Remove

  function Min(a: int, b: int): int {
    if a < b then a else b
  }

  predicate WriteFits(pos: nat, n: nat) {
    n <= INT64_MAX && (pos + n + WRITE_FRAGMENT_SIZE - 1) % TWO_TO_THE_64 >= n
  }

  /** Overwriting shared fragments shows in the reader. */
  function Leak(reader: seq<byte>, w: Writer, data: seq<byte>): seq<byte>
    requires w.shared <= |reader|
  {
    if w.pos < w.shared then Splice(reader, w.pos, data[..Min(|data|, w.shared - w.pos)]) else reader
  }

  predicate Consistent(s: State) {
    && s.readPos <= |s.reader|
    && (s.writer.Some? ==> s.writer.value.pos <= |s.writer.value.bytes|)
    && (s.writer.Some? ==> s.writer.value.shared <= |s.reader| && s.writer.value.shared <= |s.writer.value.bytes|)
    && (s.writer.Some? ==> s.reader[..s.writer.value.shared] == s.writer.value.bytes[..s.writer.value.shared])
  }

  /** What a read of up to `want` bytes delivers. */
  function NextBytes(s: State, want: nat): seq<byte>
    requires Consistent(s)
  {
    s.reader[s.readPos..s.readPos + Min(want, |s.reader| - s.readPos)]
  }

  function Step(s: State, op: Op): (t: State)
    requires Consistent(s)
    ensures Consistent(t)
  {
    match op
    case Open =>
      if s.removed then s else s.(opens := s.opens + 1, readPos := if s.opens == 0 then 0 else s.readPos)
    case Close => if s.opens == 0 then s else s.(opens := s.opens - 1)
    case Read(want) =>
      var n := Min(want, |s.reader| - s.readPos);
      if s.opens == 0 || want > INT64_MAX then s else s.(readPos := s.readPos + n)
    case Seek(whence, delta) =>
      if s.opens == 0 then s else s.(readPos := SeekTarget(s.readPos, |s.reader|, whence, delta).GetOr(s.readPos))
    case BeginWrite => if s.writer.Some? then s else s.(writer := Some(Writer([], 0, 0)), removed := false)
    case BeginCloning(length, granted) =>
      if s.writer.Some? || !granted || length > |s.reader| then s
      else s.(writer := Some(Writer(s.reader[..length], length, length)), removed := false)
    case Write(data) =>
      if s.writer.None? || !WriteFits(s.writer.value.pos, |data|) then s
      else
        var w := s.writer.value;
        LeakConsistent(s.reader, w, data);
        s.(reader := Leak(s.reader, w, data),
           writer := Some(w.(bytes := Splice(w.bytes, w.pos, data), pos := w.pos + |data|)))
    case SeekWrite(whence, delta) =>
      if s.writer.None? then s
      else
        var w := s.writer.value;
        s.(writer := Some(w.(pos := SeekTarget(w.pos, |w.bytes|, whence, delta).GetOr(w.pos))))
    case Commit =>
      if s.writer.None? || s.opens > 1 then s
      else State(s.writer.value.bytes, s.writer.value.pos, None, false, 0)
    case Rollback => s.(writer := None)
    case Remove => if s.removed then s else State([], 0, None, true, if s.opens > 0 then s.opens - 1 else 0)
  }

  lemma {:induction false} LeakConsistent(reader: seq<byte>, w: Writer, data: seq<byte>)
    requires w.pos <= |w.bytes| && w.shared <= |reader| && w.shared <= |w.bytes| && reader[..w.shared] == w.bytes[..w.shared]
    ensures |Leak(reader, w, data)| == |reader| && w.pos + |data| <= |Splice(w.bytes, w.pos, data)|
    ensures w.shared <= |Splice(w.bytes, w.pos, data)|
    ensures Leak(reader, w, data)[..w.shared] == Splice(w.bytes, w.pos, data)[..w.shared]
  {
    var b, c := Leak(reader, w, data), Splice(w.bytes, w.pos, data);
    assert forall i :: 0 <= i < w.shared ==> reader[i] == reader[..w.shared][i] == w.bytes[..w.shared][i] == w.bytes[i];
    assert forall i :: 0 <= i < w.shared ==> b[i] == c[i];
  }

  function Run(s: State, ops: seq<Op>): (t: State)
    requires Consistent(s)
    ensures Consistent(t)
    decreases |ops|
  {
    if ops == [] then s else Step(Run(s, ops[..|ops| - 1]), ops[|ops| - 1])
  }

  // ----- Which runs there are -----

  /** A seek that would succeed is not made on bytes that are none: there may be no fragment to find
      then, and the search would read outside the table of offsets. */
  predicate Defined(s: State, op: Op)
    requires Consistent(s)
  {
    match op
    case Seek(whence, delta) => s.opens > 0 && s.reader == [] ==> SeekTarget(s.readPos, 0, whence, delta).None?
    case SeekWrite(whence, delta) =>
      s.writer.Some? && s.writer.value.bytes == [] ==> SeekTarget(s.writer.value.pos, 0, whence, delta).None?
    case _ => true
  }

  /** No operation of the run is an undefined seek. */
  ghost predicate AllDefined(s: State, ops: seq<Op>)
    requires Consistent(s)
  {
    forall k :: 0 <= k < |ops| ==> Defined(Run(s, ops[..k]), ops[k])
  }

  /** Pending output is empty until something is written: seeking to its start is no run of a source. */
  lemma {:induction false} UndefinedSeek(s: State)
    requires Consistent(s) && s.writer.None?
    ensures !AllDefined(s, [BeginWrite, SeekWrite(FromStart, 0)]) && Careful(s, [BeginWrite, SeekWrite(FromStart, 0)])
    ensures AllDefined(s, [BeginWrite, Write([1]), SeekWrite(FromStart, 0)])
  {
    var ops := [BeginWrite, SeekWrite(FromStart, 0)];
    RunOne(s, BeginWrite);
    assert ops[..1] == [BeginWrite] && Run(s, ops[..1]).writer == Some(Writer([], 0, 0));
    assert !Defined(Run(s, ops[..1]), ops[1]);
    var more := [BeginWrite, Write([1]), SeekWrite(FromStart, 0)];
    RunAppend(s, [BeginWrite], [Write([1])]);
    RunOne(Step(s, BeginWrite), Write([1]));
    assert more[..2] == [BeginWrite] + [Write([1])];
    assert Run(s, more[..2]).writer.value.bytes != [];
  }

  /** The same operation, but for whether a clone was granted. */
  predicate Same(op: Op, did: Op) {
    if op.BeginCloning? then did == op.(granted := true) || did == op.(granted := false) else did == op
  }

  lemma {:induction false} RunNone(s: State)
    requires Consistent(s)
    ensures Run(s, []) == s && AllDefined(s, [])
  {}

  lemma {:induction false} DefinedNext(s: State, did: seq<Op>, op: Op, done: Op)
    requires Consistent(s) && AllDefined(s, did) && Defined(Run(s, did), op) && Same(op, done)
    ensures AllDefined(s, did + [done]) && Run(s, did + [done]) == Step(Run(s, did), done)
  {
    hide Step, Run;
    RunAppend(s, did, [done]);
    RunOne(Run(s, did), done);
    var all := did + [done];
    forall k | 0 <= k < |all| ensures Defined(Run(s, all[..k]), all[k]) {
      assert all[..k] == did[..k];
      assert did[..|did|] == did;
    }
  }

  // ----- Transactions -----

  /** No write starts before the clone point. */
  ghost predicate Careful(s: State, ops: seq<Op>)
    requires Consistent(s)
  {
    forall k :: 0 <= k < |ops| && ops[k].Write? ==>
      var w := Run(s, ops[..k]).writer;
      w.Some? ==> w.value.pos >= w.value.shared
  }

  predicate Changes(op: Op) {
    op.Commit? || op.Remove?
  }

  lemma {:induction false} CarefulPrefix(s: State, ops: seq<Op>)
    requires Consistent(s) && Careful(s, ops) && ops != []
    ensures Careful(s, ops[..|ops| - 1])
  {
    var shorter := ops[..|ops| - 1];
    forall k | 0 <= k < |shorter| && shorter[k].Write?
      ensures Run(s, shorter[..k]).writer.Some? ==>
        Run(s, shorter[..k]).writer.value.pos >= Run(s, shorter[..k]).writer.value.shared
    {
      assert shorter[..k] == ops[..k] && ops[k].Write?;
    }
  }

  lemma {:induction false} DefinedPrefix(s: State, ops: seq<Op>)
    requires Consistent(s) && AllDefined(s, ops) && ops != []
    ensures AllDefined(s, ops[..|ops| - 1])
  {
    hide Defined, Run;
    var shorter := ops[..|ops| - 1];
    forall k | 0 <= k < |shorter| ensures Defined(Run(s, shorter[..k]), shorter[k]) {
      assert shorter[..k] == ops[..k];
    }
  }

  lemma {:induction false} DefinedSuffix(s: State, op: Op, ops: seq<Op>)
    requires Consistent(s) && AllDefined(s, [op] + ops)
    ensures AllDefined(Step(s, op), ops)
  {
    hide Defined, Run, Step;
    var all := [op] + ops;
    forall k | 0 <= k < |ops| ensures Defined(Run(Step(s, op), ops[..k]), ops[k]) {
      assert all[..k + 1] == [op] + ops[..k] && all[k + 1] == ops[k];
      RunAppend(s, [op], ops[..k]);
      RunOne(s, op);
    }
  }

  /** A single step changes what a reader sees if and only if it is a commit or a removal with
      something else to show, or a write that overwrites shared bytes with different ones. */
  lemma {:induction false} StepReader(s: State, op: Op)
    requires Consistent(s)
    ensures !Changes(op) && !op.Write? ==> Step(s, op).reader == s.reader
    ensures op.Write? && s.writer.Some? && WriteFits(s.writer.value.pos, |op.data|) ==>
      var w := s.writer.value;
      Step(s, op).reader == s.reader <==>
        forall i :: 0 <= i < |op.data| && w.pos + i < w.shared ==> op.data[i] == s.reader[w.pos + i]
  {
    if op.Write? && s.writer.Some? {
      LeakShows(s.reader, s.writer.value, op.data);
    }
    hide Leak, Splice;
  }

  lemma {:induction false} LeakShows(reader: seq<byte>, w: Writer, data: seq<byte>)
    requires w.shared <= |reader|
    ensures Leak(reader, w, data) == reader <==>
      forall i :: 0 <= i < |data| && w.pos + i < w.shared ==> data[i] == reader[w.pos + i]
  {
    var t := Leak(reader, w, data);
    assert forall i :: 0 <= i < |data| && w.pos + i < w.shared ==> t[w.pos + i] == data[i];
    if forall i :: 0 <= i < |data| && w.pos + i < w.shared ==> data[i] == reader[w.pos + i] {
      assert |t| == |reader|;
      forall j | 0 <= j < |t| ensures t[j] == reader[j] {
        if w.pos <= j < w.shared && j < w.pos + |data| {
          assert t[w.pos + (j - w.pos)] == data[j - w.pos];
        }
      }
    }
  }

  /** Writing before the clone point does reach the reader. */
  lemma {:induction false} CarelessWriteLeaks()
    ensures exists s: State, ops: seq<Op> :: Consistent(s) && (forall op :: op in ops ==> !Changes(op)) && Run(s, ops).reader != s.reader
  {
    hide Run, Leak, Splice;
    var s := State([1, 2], 0, None, false, 0);
    var ops := [BeginCloning(2, true), SeekWrite(FromStart, 0), Write([7])];
    assert s.reader[..2] == [1, 2];
    var w := Writer([1, 2], 0, 2);
    assert Step(Step(s, ops[0]), ops[1]) == State([1, 2], 0, Some(w), false, 0);
    LeakShows(s.reader, w, [7]);
    assert w.pos + 0 < w.shared && [7][0] != s.reader[w.pos + 0];
    assert forall op :: op in ops ==> !Changes(op);
    RunThree(s, ops[0], ops[1], ops[2]);
    assert Run(s, ops).reader != s.reader;
  }

  lemma {:induction false} RunThree(s: State, a: Op, b: Op, c: Op)
    requires Consistent(s)
    ensures Run(s, [a, b, c]) == Step(Step(Step(s, a), b), c)
  {
    hide *;
    RunOne(s, a);
    RunAppend(s, [a], [b]);
    RunOne(Step(s, a), b);
    assert [a] + [b] == [a, b];
    RunAppend(s, [a, b], [c]);
    RunOne(Step(Step(s, a), b), c);
    assert [a, b] + [c] == [a, b, c];
  }

  /** Whatever a run of careful operations does, the reader's bytes change only at a commit or a removal. */
  lemma {:induction false} ReaderIsStable(s: State, ops: seq<Op>)
    requires Consistent(s) && Careful(s, ops) && AllDefined(s, ops)
    requires forall op :: op in ops ==> !Changes(op)
    ensures Run(s, ops).reader == s.reader
    decreases |ops|
  {
    if ops != [] {
      var n := |ops| - 1;
      CarefulPrefix(s, ops);
      DefinedPrefix(s, ops);
      ReaderIsStable(s, ops[..n]);
      var t := Run(s, ops[..n]);
      StepReader(t, ops[n]);
    }
  }

  /** Pending output seen as one flat file with one position. */
  function Applied(b: seq<byte>, pos: nat, op: Op): (r: (seq<byte>, nat))
    requires pos <= |b|
    ensures r.1 <= |r.0|
  {
    match op
    case Write(data) => if WriteFits(pos, |data|) then (Splice(b, pos, data), pos + |data|) else (b, pos)
    case SeekWrite(whence, delta) => (b, SeekTarget(pos, |b|, whence, delta).GetOr(pos))
    case _ => (b, pos)
  }

  function Written(b: seq<byte>, pos: nat, ops: seq<Op>): (r: (seq<byte>, nat))
    requires pos <= |b|
    ensures r.1 <= |r.0|
    decreases |ops|
  {
    if ops == [] then (b, pos)
    else
      var (c, p) := Written(b, pos, ops[..|ops| - 1]);
      Applied(c, p, ops[|ops| - 1])
  }

  predicate Keeps(op: Op) {
    !Changes(op) && !op.Rollback?
  }

  lemma {:induction false} StepWriter(s: State, op: Op)
    requires Consistent(s) && s.writer.Some? && Keeps(op)
    ensures var w, u := Step(s, op).writer, s.writer.value;
      w.Some? && w.value.shared == u.shared && (w.value.bytes, w.value.pos) == Applied(u.bytes, u.pos, op)
  {
    hide Leak, Splice;
  }

  lemma {:induction false} WriterIsFlat(s: State, ops: seq<Op>)
    requires Consistent(s) && s.writer.Some? && AllDefined(s, ops) && forall op :: op in ops ==> Keeps(op)
    ensures var w, u := Run(s, ops).writer, s.writer.value;
      w.Some? && w.value.shared == u.shared && (w.value.bytes, w.value.pos) == Written(u.bytes, u.pos, ops)
    decreases |ops|
  {
    hide Step, Applied, Keeps;
    if ops != [] {
      var n := |ops| - 1;
      assert ops[n] in ops && forall op :: op in ops[..n] ==> op in ops;
      DefinedPrefix(s, ops);
      WriterIsFlat(s, ops[..n]);
      StepWriter(Run(s, ops[..n]), ops[n]);
    }
  }

  lemma {:induction false} RunAppend(s: State, xs: seq<Op>, ys: seq<Op>)
    requires Consistent(s)
    ensures Run(s, xs + ys) == Run(Run(s, xs), ys)
    decreases |ys|
  {
    if ys == [] {
      assert xs + ys == xs;
    } else {
      assert (xs + ys)[..|xs + ys| - 1] == xs + ys[..|ys| - 1];
      RunAppend(s, xs, ys[..|ys| - 1]);
    }
  }

  /** A whole transaction: until the commit a reader sees the old bytes, afterwards the kept prefix as
      the writes and seeks left it, and on a rollback the old bytes still. */
  lemma {:induction false} Transaction(s: State, start: Op, ops: seq<Op>)
    requires Consistent(s) && s.writer.None?
    requires start.BeginWrite? || (start.BeginCloning? && start.granted && start.length <= |s.reader|)
    requires Careful(s, [start] + ops) && AllDefined(s, [start] + ops) && forall op :: op in ops ==> Keeps(op)
    ensures var kept := if start.BeginWrite? then 0 else start.length;
      var t := Run(s, [start] + ops);
      && t.reader == s.reader
      && Step(t, Rollback).reader == s.reader && Step(t, Rollback).writer == None
      && (t.opens <= 1 ==> Step(t, Commit).reader == Written(s.reader[..kept], kept, ops).0)
      && (t.opens > 1 ==> Step(t, Commit) == t)
  {
    hide *;
    RunOne(s, start);
    RunAppend(s, [start], ops);
    StartOf(s, start);
    forall op | op in [start] + ops ensures !Changes(op) {
      KeepsIsQuiet(op, start);
    }
    ReaderIsStable(s, [start] + ops);
    DefinedSuffix(s, start, ops);
    WriterIsFlat(Step(s, start), ops);
    EndOf(Run(s, [start] + ops));
  }

  lemma {:induction false} StartOf(s: State, start: Op)
    requires Consistent(s) && s.writer.None?
    requires start.BeginWrite? || (start.BeginCloning? && start.granted && start.length <= |s.reader|)
    ensures var kept := if start.BeginWrite? then 0 else start.length;
      Step(s, start).writer == Some(Writer(s.reader[..kept], kept, kept))
  {}

  lemma {:induction false} KeepsIsQuiet(op: Op, start: Op)
    ensures Keeps(op) ==> !Changes(op)
    ensures start.BeginWrite? || start.BeginCloning? ==> !Changes(start)
  {}

  lemma {:induction false} EndOf(t: State)
    requires Consistent(t) && t.writer.Some?
    ensures Step(t, Rollback).reader == t.reader && Step(t, Rollback).writer == None
    ensures if t.opens <= 1 then Step(t, Commit).reader == t.writer.value.bytes else Step(t, Commit) == t
  {}

  lemma {:induction false} RunOne(s: State, op: Op)
    requires Consistent(s)
    ensures Run(s, [op]) == Step(s, op)
  {
    assert [op][..0] == [] && Run(s, []) == s;
  }

  // ----- The buffers behind it -----

  /** Fragments `cs` of the output are the first `c` of the input's, the last one cut. */
  ghost predicate Linked(ins: seq<Fragment>, outs: seq<Fragment>, c: nat) {
    && 0 < c <= |outs| && CutOf(outs[..c], ins, Before(outs, c))
    && forall j, k :: 0 <= j < |ins| && c <= k < |outs| ==> ins[j].id != outs[k].id
  }

  ghost predicate Apart(ins: seq<Fragment>, outs: seq<Fragment>) {
    forall j, k :: 0 <= j < |ins| && 0 <= k < |outs| ==> ins[j].id != outs[k].id
  }

  lemma {:induction false} FlatTail(fs: seq<Fragment>, mem: Memory, now: Memory, j: nat, n: nat, k: nat)
    requires Backed(fs, mem) && Backed(fs, now) && j < k <= |fs| && n <= fs[j].length
    requires |now[fs[j].id]| == |mem[fs[j].id]| && now[fs[j].id][n..] == mem[fs[j].id][n..]
    requires forall i :: j < i < k ==> now[fs[i].id] == mem[fs[i].id]
    ensures Before(fs, j) + n <= Before(fs, k)
    ensures Flat(fs, now, k)[Before(fs, j) + n..] == Flat(fs, mem, k)[Before(fs, j) + n..]
  {
    var at := Before(fs, j) + n;
    FlatNext(fs, mem, k - 1);
    FlatNext(fs, now, k - 1);
    if k == j + 1 {
      TailOfLast(Flat(fs, mem, j), mem[fs[j].id], fs[j].length, n);
      TailOfLast(Flat(fs, now, j), now[fs[j].id], fs[j].length, n);
    } else {
      FlatTail(fs, mem, now, j, n, k - 1);
      hide Flat;
      TailOfSum(Flat(fs, mem, k - 1), mem[fs[k - 1].id][..fs[k - 1].length], at);
      TailOfSum(Flat(fs, now, k - 1), now[fs[k - 1].id][..fs[k - 1].length], at);
    }
  }

  lemma {:induction false} TailOfLast(p: seq<byte>, block: seq<byte>, length: nat, n: nat)
    requires n <= length <= |block|
    ensures (p + block[..length])[|p| + n..] == block[n..][..length - n]
  {}

  lemma {:induction false} TailOfSum(p: seq<byte>, q: seq<byte>, at: nat)
    requires at <= |p|
    ensures (p + q)[at..] == p[at..] + q
  {}

  /** The shared part reads the same through either list. */
  lemma {:induction false} SharedPrefix(ins: seq<Fragment>, outs: seq<Fragment>, mem: Memory, c: nat)
    requires Backed(ins, mem) && Distinct(ins) && Backed(outs, mem) && Linked(ins, outs, c)
    ensures var p := Before(outs, c);
      p <= Before(ins, |ins|) && p <= Before(outs, |outs|)
      && Flat(outs, mem, |outs|)[..p] == Flat(ins, mem, |ins|)[..p]
  {
    hide Flat, Before, CutOf;
    var cs, p := outs[..c], Before(outs, c);
    BeforePrefix(cs, outs, c);
    CutBacked(cs, ins, mem, p);
    CutIs(cs, ins, mem, p);
    FlatTake(outs, mem, c);
    FlatSame(cs, outs, mem, mem, c);
  }

  /** Nothing of the input behind the clone point changes. */
  lemma {:induction false} SharedTail(ins: seq<Fragment>, outs: seq<Fragment>, mem: Memory, gs: seq<Fragment>,
      m1: Memory, now: Memory, c: nat, at: nat)
    requires Backed(ins, mem) && Distinct(ins) && Backed(outs, mem) && Linked(ins, outs, c)
    requires Extended(outs, mem, gs, m1) && Touched(gs, m1, now, at) && Backed(gs, m1) && Distinct(gs)
    ensures Backed(ins, now) && Before(outs, c) <= Before(ins, |ins|)
    ensures Flat(ins, now, |ins|)[Before(outs, c)..] == Flat(ins, mem, |ins|)[Before(outs, c)..]
  {
    hide *;
    LinkedCut(ins, outs, mem, c);
    var j, n := c - 1, outs[c - 1].length;
    LaterBlocks(ins, outs, mem, gs, m1, now, c, at);
    EarlierBlocks(ins, outs, mem, gs, m1, now, c, at);
    SurvivesBacked(ins, mem, now);
    FlatTail(ins, mem, now, j, n, |ins|);
  }

  lemma {:induction false} LinkedCut(ins: seq<Fragment>, outs: seq<Fragment>, mem: Memory, c: nat)
    requires Backed(ins, mem) && Linked(ins, outs, c)
    ensures 0 < c <= |ins| && c <= |outs| && outs[c - 1].length <= ins[c - 1].length
    ensures Before(outs, c) == Before(ins, c - 1) + outs[c - 1].length
  {
    hide Before;
    CutBacked(outs[..c], ins, mem, Before(outs, c));
    BeforePrefix(outs, ins, c - 1);
    NextOffset(outs, c - 1);
  }

  lemma {:induction false} SurvivesBacked(fs: seq<Fragment>, mem: Memory, now: Memory)
    requires Backed(fs, mem)
    requires forall i :: 0 <= i < |fs| ==> fs[i].id in now && fs[i].id in mem && |now[fs[i].id]| == |mem[fs[i].id]|
    ensures Backed(fs, now)
  {}

  lemma {:induction false} LaterBlocks(ins: seq<Fragment>, outs: seq<Fragment>, mem: Memory, gs: seq<Fragment>,
      m1: Memory, now: Memory, c: nat, at: nat)
    requires Backed(ins, mem) && Distinct(ins) && Linked(ins, outs, c)
    requires Extended(outs, mem, gs, m1) && Touched(gs, m1, now, at)
    ensures forall i :: c <= i < |ins| ==> ins[i].id in now && ins[i].id in mem && now[ins[i].id] == mem[ins[i].id]
  {
    hide Before, Backed;
    forall i | c <= i < |ins| ensures ins[i].id in now && ins[i].id in mem && now[ins[i].id] == mem[ins[i].id] {
      BackedAt(ins, mem, i);
      forall k | 0 <= k < |gs| ensures gs[k].id != ins[i].id {
        if k < c {
          assert gs[k] == outs[k] == outs[..c][k] && outs[..c][k].id == ins[k].id;
        }
      }
    }
  }

  lemma {:induction false} BackedAt(fs: seq<Fragment>, mem: Memory, i: nat)
    requires Backed(fs, mem) && i < |fs|
    ensures fs[i].id in mem && 0 < fs[i].length <= |mem[fs[i].id]|
  {}

  lemma {:induction false} EarlierBlocks(ins: seq<Fragment>, outs: seq<Fragment>, mem: Memory, gs: seq<Fragment>,
      m1: Memory, now: Memory, c: nat, at: nat)
    requires Backed(ins, mem) && Backed(outs, mem) && Linked(ins, outs, c)
    requires Extended(outs, mem, gs, m1) && Touched(gs, m1, now, at)
    ensures c <= |ins|
    ensures forall i :: 0 <= i < c ==> ins[i].id in now && ins[i].id in mem && |now[ins[i].id]| == |mem[ins[i].id]|
    ensures outs[c - 1].length <= |mem[ins[c - 1].id]|
    ensures now[ins[c - 1].id][outs[c - 1].length..] == mem[ins[c - 1].id][outs[c - 1].length..]
  {
    hide Before;
    forall i | 0 <= i < c ensures ins[i].id in now && ins[i].id in mem && |now[ins[i].id]| == |mem[ins[i].id]|
      && outs[i].length <= |mem[ins[i].id]| && now[ins[i].id][outs[i].length..] == mem[ins[i].id][outs[i].length..]
    {
      assert gs[i] == outs[i] == outs[..c][i] && outs[..c][i].id == ins[i].id;
      BackedAt(outs, mem, i);
    }
  }

  lemma {:induction false} LeakIs(r: seq<byte>, t: seq<byte>, before: seq<byte>, at: nat, data: seq<byte>, p: nat)
    requires at <= |before| && p <= |r| == |t| && p <= |before|
    requires r[..p] == before[..p] && t[..p] == Splice(before, at, data)[..p] && t[p..] == r[p..]
    ensures t == Leak(r, Writer(before, at, p), data)
  {
    var u, after := Leak(r, Writer(before, at, p), data), Splice(before, at, data);
    assert forall i :: 0 <= i < p ==> r[i] == before[..p][i] == before[i] && t[i] == t[..p][i] == after[i];
    assert forall i :: p <= i < |r| ==> t[i] == t[p..][i - p] == r[p..][i - p] == r[i];
    assert |u| == |r|;
    forall i | 0 <= i < |r| ensures t[i] == u[i] {}
  }

  /** A write through the output, as the reader sees it. */
  lemma {:induction false} LinkedWrite(ins: seq<Fragment>, outs: seq<Fragment>, mem: Memory, gs: seq<Fragment>,
      m1: Memory, now: Memory,
      c: nat, at: nat, data: seq<byte>, size: nat, before: seq<byte>, after: seq<byte>)
    requires Backed(ins, mem) && Distinct(ins) && Backed(outs, mem) && Linked(ins, outs, c)
    requires Extended(outs, mem, gs, m1) && Touched(gs, m1, now, at) && Backed(gs, m1) && Backed(gs, now) && Distinct(gs)
    requires Before(outs, c) <= size <= Before(ins, |ins|) && Before(outs, c) <= |before|
    requires before <= Flat(outs, mem, |outs|) && after <= Flat(gs, now, |gs|)
    requires at <= |before| && after == Splice(before, at, data)
    ensures Backed(ins, now) && Linked(ins, gs, c) && Before(gs, c) == Before(outs, c) <= |after|
    ensures Flat(ins, now, |ins|)[..size]
      == Leak(Flat(ins, mem, |ins|)[..size], Writer(before, at, Before(outs, c)), data)
  {
    hide *;
    LinkedCut(ins, outs, mem, c);
    var p := Before(outs, c);
    LinkedMore(ins, outs, mem, gs, m1, c);
    SharedPrefix(ins, outs, mem, c);
    SharedTail(ins, outs, mem, gs, m1, now, c, at);
    SharedPrefix(ins, gs, now, c);
    SpliceKeepsLength(before, at, data);
    var x, y := Flat(ins, mem, |ins|), Flat(ins, now, |ins|);
    assert x[..size][..p] == x[..p] == before[..p];
    assert y[..size][..p] == y[..p] == after[..p];
    assert y[..size][p..] == y[p..][..size - p] == x[p..][..size - p] == x[..size][p..];
    LeakIs(x[..size], y[..size], before, at, data, p);
  }

  lemma {:induction false} SpliceKeepsLength(b: seq<byte>, at: nat, data: seq<byte>)
    requires at <= |b|
    ensures |b| <= |Splice(b, at, data)|
  {}

  lemma {:induction false} LinkedMore(ins: seq<Fragment>, outs: seq<Fragment>, mem: Memory, gs: seq<Fragment>,
      m1: Memory, c: nat)
    requires Backed(ins, mem) && Linked(ins, outs, c) && Extended(outs, mem, gs, m1)
    ensures Linked(ins, gs, c) && Before(gs, c) == Before(outs, c)
  {
    hide Before, CutOf;
    assert gs[..c] == outs[..c];
    BeforePrefix(outs, gs, c);
    forall j, k | 0 <= j < |ins| && c <= k < |gs| ensures ins[j].id != gs[k].id {
      assert k < |outs| ==> gs[k] == outs[k];
    }
  }

  /** A write through an output that shares nothing. */
  lemma {:induction false} ApartWrite(ins: seq<Fragment>, outs: seq<Fragment>, mem: Memory, gs: seq<Fragment>,
      m1: Memory, now: Memory, at: nat)
    requires Backed(ins, mem) && Apart(ins, outs) && Extended(outs, mem, gs, m1) && Touched(gs, m1, now, at)
    ensures Apart(ins, gs) && Backed(ins, now) && Flat(ins, now, |ins|) == Flat(ins, mem, |ins|)
  {
    hide Before, Flat;
    forall j, k | 0 <= j < |ins| && 0 <= k < |gs| ensures ins[j].id != gs[k].id {
      assert k < |outs| ==> gs[k] == outs[k];
    }
    assert forall j :: 0 <= j < |ins| ==> ins[j].id in now && now[ins[j].id] == mem[ins[j].id];
    FlatSame(ins, ins, mem, now, |ins|);
  }

  /** Fragments that are not freed read as before. */
  lemma {:induction false} Survives(fs: seq<Fragment>, mem: Memory, gone: set<nat>)
    requires Backed(fs, mem) && forall k :: 0 <= k < |fs| ==> fs[k].id !in gone
    ensures Backed(fs, mem - gone) && Flat(fs, mem - gone, |fs|) == Flat(fs, mem, |fs|)
  {
    FlatSame(fs, fs, mem, mem - gone, |fs|);
  }

  class Source {
    const heap: Heap
    var input: Buffer
    var output: Buffer?
    var removed: bool
    var opens: nat
    ghost const foreign: set<nat> // blocks that are not the source's to free

    /** `zip_source_buffer_fragment_create`; `freeData` hands the fragments over. */
    constructor (heap: Heap, given: seq<Fragment>, freeData: bool)
      requires heap.Valid() && Backed(given, heap.blocks) && Distinct(given)
      ensures Valid() && this.heap == heap && fresh(input) && output == null && Balanced()
      ensures View() == State(Flat(given, heap.blocks, |given|), 0, None, false, 0)
      ensures FullyOwned() <==> freeData || given == []
      ensures input.fragments == given && input.firstOwned == if freeData then 0 else |given|
    {
      hide Flat, Before;
      this.heap := heap;
      input := new Buffer.Of(given, freeData);
      output, removed, opens := null, false, 0;
      foreign := heap.blocks.Keys - if freeData then Ids(given, 0) else {};
      new;
      assert freeData ==> Ids(given, 0) <= heap.blocks.Keys;
      assert !freeData ==> Ids(given, |given|) == {};
    }

    /** Everything the source is to free: the input's own fragments and the output's, shared ones once. */
    ghost function Owned(): set<nat>
      reads this, input, output
    {
      Ids(input.fragments, input.firstOwned) + if output == null then {} else Ids(output.fragments, output.Freed())
    }

    /** No block is lost, and none is the source's that is not its own. */
    ghost predicate Balanced()
      reads this, heap, input, output
    {
      heap.blocks.Keys == foreign + Owned() && foreign !! Owned()
    }

    ghost predicate FullyOwned()
      reads this, input, output
    {
      input.firstOwned == 0 && (output != null ==> output.firstOwned == 0)
    }

    ghost predicate Valid()
      reads this, heap, input, output
    {
      && input.In(heap) && (input.shared != null ==> input.shared == output)
      && (output != null ==> output != input && output.In(heap) && !removed && Related())
    }

    /** Input and output share their first fragments, or none. */
    ghost predicate Related()
      requires output != null
      reads this, input, output
    {
      if output.shared == null then
        input.shared == null && Apart(input.fragments, output.fragments)
      else
        && output.shared == input && input.shared == output && input.sharedFragments == output.sharedFragments
        && Linked(input.fragments, output.fragments, output.sharedFragments)
        && Before(output.fragments, output.sharedFragments) <= input.size
        && Before(output.fragments, output.sharedFragments) <= output.size
        && output.firstOwned == Min(input.firstOwned, output.sharedFragments - 1)
    }

    ghost function View(): (s: State)
      requires Valid()
      reads this, heap, input, output
      ensures Consistent(s)
    {
      if output != null && output.shared != null then
        SharedView(input.fragments, output.fragments, heap.blocks, output.sharedFragments, input.size, output.size);
        State(input.Contents(heap), input.offset,
          Some(Writer(output.Contents(heap), output.offset, Before(output.fragments, output.sharedFragments))), removed, opens)
      else
        State(input.Contents(heap), input.offset,
          if output == null then None else Some(Writer(output.Contents(heap), output.offset, 0)), removed, opens)
    }

    /** `zip_source_open`: an open source can be opened again, since it seeks. */
    method Open() returns (done: bool)
      requires Valid()
      modifies this`opens, input`offset, input`current
      ensures Valid() && View() == Step(old(View()), Op.Open) && done == !removed
      ensures (old(Balanced()) ==> Balanced()) && (old(FullyOwned()) ==> FullyOwned())
    {
      hide Flat, Before, Linked, Backed;
      if removed {
        return false;
      }
      if opens == 0 {
        input.Rewind();
      }
      opens := opens + 1;
      return true;
    }

    /** `zip_source_close`. */
    method Close() returns (done: bool)
      requires Valid()
      modifies this`opens
      ensures Valid() && View() == Step(old(View()), Op.Close) && done == (old(opens) > 0)
      ensures (old(Balanced()) ==> Balanced()) && (old(FullyOwned()) ==> FullyOwned())
    {
      hide Flat, Before, Linked, Backed;
      done := opens > 0;
      if done {
        opens := opens - 1;
      }
    }

    /** The read command: exactly the reader's next bytes. */
    method Read(want: nat) returns (r: Result<seq<byte>>)
      requires Valid()
      modifies input`offset, input`current
      ensures Valid() && View() == Step(old(View()), Op.Read(want))
      ensures (old(Balanced()) ==> Balanced()) && (old(FullyOwned()) ==> FullyOwned())
      ensures r.Ok? <==> opens > 0 && want <= INT64_MAX
      ensures r.Ok? ==> r.value == NextBytes(old(View()), want)
    {
      hide Flat, Before, Linked, Backed;
      if opens == 0 || want > INT64_MAX {
        return Err(Invalid);
      }
      r := input.Read(heap, want);
    }

    /** `zip_source_seek`. */
    method Seek(whence: Whence, delta: int) returns (done: bool)
      requires Valid()
      requires input.fragments != [] || opens == 0 || SeekTarget(input.offset, input.size, whence, delta).None?
      modifies input`offset, input`current
      ensures Valid() && View() == Step(old(View()), Op.Seek(whence, delta))
      ensures (old(Balanced()) ==> Balanced()) && (old(FullyOwned()) ==> FullyOwned())
      ensures done == (opens > 0 && SeekTarget(old(input.offset), input.size, whence, delta).Some?)
    {
      hide Flat, Before, Linked, Backed;
      if opens == 0 {
        return false;
      }
      done := input.Seek(whence, delta);
    }

    /** `zip_source_begin_write`. */
    method BeginWrite() returns (done: bool)
      requires Valid()
      modifies this`output, this`removed
      ensures Valid() && View() == Step(old(View()), Op.BeginWrite) && done == (old(output) == null)
      ensures if done then fresh(output) else output == old(output)
      ensures (old(Balanced()) ==> Balanced()) && (old(FullyOwned()) ==> FullyOwned())
    {
      hide Flat, Before, Linked, Backed;
      if output != null {
        return false;
      }
      output := new Buffer.Empty();
      removed := false;
      EmptyIsIn(heap.blocks);
      return true;
    }

    /** `zip_source_begin_write_cloning`; refused when too much of the last fragment would be wasted. */
    method BeginCloning(length: nat) returns (done: bool)
      requires Valid()
      modifies this`output, this`removed, input`shared, input`sharedFragments
      ensures Valid() && View() == Step(old(View()), Op.BeginCloning(length, done))
      ensures if done then fresh(output) else output == old(output)
      ensures done <==> old(output) == null && (length == 0 || (length <= input.size && Waste(input.fragments, length) <= length))
      ensures (old(Balanced()) ==> Balanced()) && (old(FullyOwned()) ==> FullyOwned())
    {
      hide Flat, Before, Backed, CutOf, Distinct, Waste, Linked, Buffer.Contents;
      if output != null {
        return false;
      }
      var clone := input.Clone(heap, length);
      if clone.Err? {
        return false;
      }
      output, removed := clone.value, false;
      if length > 0 {
        CloneLinked(input.fragments, output.fragments, length);
      }
      assert length == 0 ==> input.Contents(heap)[..0] == [];
      return true;
    }

    /** `zip_source_write`. */
    method Write(data: seq<byte>) returns (done: bool)
      requires Valid()
      modifies heap, output
      ensures Valid() && View() == Step(old(View()), Op.Write(data))
      ensures done == (output != null && WriteFits(old(View()).writer.value.pos, |data|))
      ensures (old(Balanced()) ==> Balanced()) && (old(FullyOwned()) ==> FullyOwned())
    {
      hide Flat, Before, Backed, Distinct, Splice, Leak, Linked, Apart;
      if output == null || |data| > INT64_MAX {
        return false;
      }
      done := WriteOut(data);
    }

    /** Bytes of the output that are still the input's, too. */
    ghost function ClonePoint(): nat
      requires output != null && Valid()
      reads this, heap, input, output
    {
      if output.shared == null then 0
      else
        LinkedCut(input.fragments, output.fragments, heap.blocks, output.sharedFragments);
        Before(output.fragments, output.sharedFragments)
    }

    method WriteOut(data: seq<byte>) returns (done: bool)
      requires Valid() && output != null && |data| <= INT64_MAX
      modifies heap, output
      ensures Valid() && ClonePoint() == old(ClonePoint()) && ClonePoint() <= input.size && output.shared == old(output.shared)
      ensures done == WriteFits(old(output.offset), |data|)
      ensures var w := Writer(old(output.Contents(heap)), old(output.offset), old(ClonePoint()));
        if done then
          && input.Contents(heap) == Leak(old(input.Contents(heap)), w, data)
          && output.Contents(heap) == Splice(w.bytes, w.pos, data) && output.offset == w.pos + |data|
        else
          input.Contents(heap) == old(input.Contents(heap)) && output.Contents(heap) == w.bytes && output.offset == w.pos
      ensures (old(Balanced()) ==> Balanced()) && (old(FullyOwned()) ==> FullyOwned())
    {
      hide Flat, Before, Backed, Distinct, Splice, Leak, Linked, Apart, Wrote, Ids;
      ghost var ins, outs, mem, at, first := input.fragments, output.fragments, heap.blocks, output.offset, output.Freed();
      ghost var before := output.Contents(heap);
      FreedInside();
      done := output.Write(heap, data);
      WroteOwned(outs, mem, output.fragments, heap.blocks, at, first);
      if output.shared == null {
        WroteApart(ins, outs, mem, output.fragments, heap.blocks, at);
        NoLeak(input.Contents(heap), before, at, data);
      } else {
        WroteLinked(ins, outs, mem, output.fragments, heap.blocks, at, data, done,
          output.sharedFragments, input.size, before, output.Contents(heap));
      }
    }

    /** `zip_source_seek_write`. */
    method SeekWrite(whence: Whence, delta: int) returns (done: bool)
      requires Valid()
      requires output != null ==> output.fragments != [] || SeekTarget(output.offset, output.size, whence, delta).None?
      modifies output
      ensures Valid() && View() == Step(old(View()), Op.SeekWrite(whence, delta))
      ensures done == (output != null && SeekTarget(old(View()).writer.value.pos, output.size, whence, delta).Some?)
      ensures (old(Balanced()) ==> Balanced()) && (old(FullyOwned()) ==> FullyOwned())
    {
      hide Flat, Before, Linked, Backed, Apart, Ids;
      if output == null {
        return false;
      }
      done := output.Seek(whence, delta);
    }

    /** `zip_source_commit_write`: the output takes the input's place, and what the input alone had is
        freed. Blocks are then freed that are not the source's if and only if the clone shares nothing
        but fragments that were not the input's to free. */
    method Commit() returns (done: bool)
      requires Valid()
      modifies this`input, this`output, this`opens, heap, input, output
      ensures Valid() && View() == Step(old(View()), Op.Commit)
      ensures if done then input == old(output) && output == null else input == old(input) && output == old(output)
      ensures done == (old(output) != null && old(opens) <= 1)
      ensures done && old(Balanced()) ==>
        (Balanced() <==> old(input.shared) == null || old(input.firstOwned) < old(input.sharedFragments))
      ensures (!done && old(Balanced()) ==> Balanced()) && (old(FullyOwned()) ==> FullyOwned())
    {
      hide Flat, Before, Backed, Distinct, Linked, Apart, Ids, Buffer.Contents;
      if output == null || opens > 1 {
        return false;
      }
      opens := 0;
      TakeOver();
      return true;
    }

    method TakeOver()
      requires Valid() && output != null
      modifies this`input, this`output, heap, input, output
      ensures Valid() && output == null && input == old(output) && input.offset == old(output.offset)
      ensures input.Contents(heap) == old(output.Contents(heap)) && input.firstOwned == old(output.firstOwned)
      ensures old(Balanced()) ==>
        (Balanced() <==> old(input.shared) == null || old(input.firstOwned) < old(input.sharedFragments))
    {
      hide Flat, Before, Backed, Distinct, Linked, Apart, Ids;
      ghost var ins, outs, mem, c := input.fragments, output.fragments, heap.blocks, input.sharedFragments;
      ghost var first, owned := input.Freed(), input.firstOwned;
      AllLive(ins, mem);
      if input.shared == null {
        ApartSurvives(ins, outs, mem, first);
      } else {
        LinkedCut(ins, outs, mem, c);
        LinkedSurvives(ins, outs, mem, c, first);
        CommitLedger(ins, outs, c, owned, mem, foreign);
      }
      input.Free(heap);
      input, output := output, null;
    }

    /** `zip_source_rollback_write`: only what the output alone had is freed. */
    method Rollback()
      requires Valid()
      modifies this`output, heap, output, input
      ensures Valid() && View() == Step(old(View()), Op.Rollback)
      ensures (old(Balanced()) ==> Balanced()) && (old(FullyOwned()) ==> FullyOwned())
      ensures output == null && input == old(input)
    {
      hide Flat, Before, Backed, Distinct, Linked, Apart, Ids;
      if output == null {
        return;
      }
      ghost var ins, outs, mem, first := input.fragments, output.fragments, heap.blocks, output.Freed();
      FreedInside();
      AllLive(outs, mem);
      RollbackSurvives(ins, outs, mem, first, output.shared != null, output.sharedFragments);
      output.Free(heap);
      output := null;
    }

    /** `zip_source_remove`. */
    method Remove()
      requires Valid()
      modifies this`input, this`output, this`removed, this`opens, heap, input, output
      ensures Valid() && View() == Step(old(View()), Op.Remove)
      ensures (input == old(input) || fresh(input)) && (output == old(output) || output == null)
      ensures (old(Balanced()) ==> Balanced()) && (old(FullyOwned()) ==> FullyOwned())
    {
      hide Flat, Before, Backed, Distinct, Linked, Apart, Ids, Buffer.Contents;
      if removed {
        return;
      }
      if opens > 0 {
        var _ := Close();
      }
      Rollback();
      Discard();
      removed := true;
    }

    method Discard()
      requires Valid() && output == null
      modifies this`input, heap, input
      ensures Valid() && input.Contents(heap) == [] && input.offset == 0 && fresh(input) && output == null
      ensures (old(Balanced()) ==> Balanced()) && (old(FullyOwned()) ==> FullyOwned())
    {
      hide Flat, Before, Backed, Distinct, Linked, Apart, Ids;
      AllLive(input.fragments, heap.blocks);
      var empty := new Buffer.Empty();
      input.Free(heap);
      input := empty;
      EmptyIsIn(heap.blocks);
      NoIds();
    }

    /** `zip_source_free`: every block of the source is freed, once, and no other. */
    method Release()
      requires Valid()
      modifies this`output, heap, input, output
      ensures heap.Valid() && (old(Balanced()) ==> heap.blocks.Keys == foreign)
    {
      hide Flat, Before, Backed, Distinct, Linked, Apart, Ids;
      Rollback();
      AllLive(input.fragments, heap.blocks);
      input.Free(heap);
    }

    /** A source has no fragments only if its bytes are none, so what is defined for the bytes is
        defined for the fragments. */
    lemma {:induction false} NoFragmentsNoBytes(op: Op)
      requires Valid()
      ensures input.fragments == [] ==> View().reader == []
      ensures output != null && output.fragments == [] ==> View().writer.value.bytes == []
      ensures op.Seek? && Defined(View(), op) ==>
        input.fragments != [] || opens == 0 || SeekTarget(input.offset, input.size, op.whence, op.delta).None?
      ensures op.SeekWrite? && Defined(View(), op) && output != null ==>
        output.fragments != [] || SeekTarget(output.offset, output.size, op.whence, op.delta).None?
    {
      hide Flat, Linked, Backed, Apart;
    }

    /** Whether an operation is defined now. */
    predicate Allows(op: Op)
      requires Valid()
      reads this, heap, input, output
      ensures Allows(op) == Defined(View(), op)
    {
      match op
      case Seek(whence, delta) => opens > 0 && input.size == 0 ==> SeekTarget(input.offset, 0, whence, delta).None?
      case SeekWrite(whence, delta) =>
        output != null && output.size == 0 ==> SeekTarget(output.offset, 0, whence, delta).None?
      case _ => true
    }

    /** Any one operation; whether a clone is granted is for the source to say. What owns all it has
        loses no block and frees no other. */
    method Do(op: Op) returns (did: Op)
      requires Valid() && Defined(View(), op)
      modifies this, heap, input, output
      ensures Valid() && View() == Step(old(View()), did) && Same(op, did)
      ensures old(FullyOwned() && Balanced()) ==> FullyOwned() && Balanced()
      ensures input == old(input) || input == old(output) || fresh(input)
      ensures output == null || output == old(output) || fresh(output)
    {
      hide Flat, Before, Linked, Backed, Apart, Ids, Step, Buffer.Contents, Defined, Waste;
      did := op;
      NoFragmentsNoBytes(op);
      match op
      case Open => var _ := Open();
      case Close => var _ := Close();
      case Read(want) => var _ := Read(want);
      case Seek(whence, delta) => var _ := Seek(whence, delta);
      case BeginWrite => var _ := BeginWrite();
      case BeginCloning(length, _) =>
        var granted := BeginCloning(length);
        did := Op.BeginCloning(length, granted);
      case Write(data) => var _ := Write(data);
      case SeekWrite(whence, delta) => var _ := SeekWrite(whence, delta);
      case Commit =>
        SharesSome();
        var _ := Commit();
      case Rollback => Rollback();
      case Remove => Remove();
    }

    lemma {:induction false} SharesSome()
      requires Valid()
      ensures output != null && input.shared != null ==> input.sharedFragments > 0
    {
      hide Flat, Before, Backed, Apart;
    }

    /** Operations one after the other, up to the first that is not defined. */
    method Play(ops: seq<Op>) returns (did: seq<Op>)
      requires Valid()
      modifies this, heap, input, output
      ensures Valid() && View() == Run(old(View()), did) && AllDefined(old(View()), did)
      ensures |did| <= |ops| && forall k :: 0 <= k < |did| ==> Same(ops[k], did[k])
      ensures |did| < |ops| ==> !Defined(View(), ops[|did|])
      ensures old(FullyOwned() && Balanced()) ==> FullyOwned() && Balanced()
    {
      hide Step, Defined, Run;
      did := [];
      ghost var s := View();
      RunNone(s);
      for n := 0 to |ops|
        invariant Valid() && |did| == n && View() == Run(s, did) && AllDefined(s, did)
        invariant forall k :: 0 <= k < n ==> Same(ops[k], did[k])
        invariant old(FullyOwned() && Balanced()) ==> FullyOwned() && Balanced()
        invariant input == old(input) || input == old(output) || fresh(input)
        invariant output == null || output == old(input) || output == old(output) || fresh(output)
      {
        if !Allows(ops[n]) {
          return;
        }
        var op := Do(ops[n]);
        DefinedNext(s, did, ops[n], op);
        did := did + [op];
      }
    }

    lemma {:induction false} SharesOne()
      requires Valid() && |input.fragments| == 1 && View().writer.Some? && View().writer.value.shared > 0
      ensures input.shared != null && input.sharedFragments == 1
    {
      hide Flat, Before, Apart;
      if output.shared != null {
        LinkedCut(input.fragments, output.fragments, heap.blocks, output.sharedFragments);
      }
    }

    lemma {:induction false} FreedInside()
      requires Valid() && output != null
      ensures output.Freed() <= |output.fragments|
    {
      if output.shared != null {
        LinkedCut(input.fragments, output.fragments, heap.blocks, output.sharedFragments);
      }
    }
  }

  /** A clone of data that was not handed over, committed: the source takes a block for its own that is
      not, and would free it. */
  method UnownedClone() returns (source: Source)
    ensures source.Valid() && !source.Balanced()
  {
    hide Flat, Before, Linked, Apart, Ids, Backed, Distinct, Source.Related;
    var heap := new Heap();
    var id := heap.Malloc(2);
    var given := [Fragment(id, 2)];
    OneBacked(given, heap.blocks);
    source := new Source(heap, given, false);
    assert source.input.size == |source.View().reader| == Before(given, 1);
    CommitUnowned(source);
  }

  method CommitUnowned(source: Source)
    requires source.Valid() && source.Balanced() && source.View() == State(source.View().reader, 0, None, false, 0)
    requires |source.input.fragments| == 1 && source.input.fragments[0].length == 2 == source.input.size && source.input.firstOwned == 1
    modifies source, source.heap, source.input, source.output
    ensures source.Valid() && !source.Balanced()
  {
    hide Flat, Before, Linked, Apart, Ids, Backed, Distinct, Source.Related, Source.Balanced, Waste, Buffer.In;
    NoWaste(source.input.fragments);
    assert source.output == null && source.opens == 0;
    var cloned := source.BeginCloning(2);
    assert cloned;
    source.SharesOne();
    var done := source.Commit();
  }

  lemma {:induction false} OneBacked(fs: seq<Fragment>, mem: Memory)
    requires |fs| == 1 && fs[0].id in mem && 0 < fs[0].length == |mem[fs[0].id]|
    ensures Backed(fs, mem) && Distinct(fs) && Before(fs, 1) == fs[0].length
  {}

  lemma {:induction false} NoWaste(fs: seq<Fragment>)
    requires |fs| == 1 && fs[0].length == 2
    ensures Waste(fs, 2) == 0
  {}

  lemma {:induction false} NoIds()
    ensures forall k: nat :: Ids([], k) == {}
  {}

  lemma {:induction false} AllLive(fs: seq<Fragment>, mem: Memory)
    requires Backed(fs, mem)
    ensures forall k :: 0 <= k < |fs| ==> fs[k].id in mem
    ensures Ids(fs, 0) <= mem.Keys
  {}

  lemma {:induction false} ApartSurvives(ins: seq<Fragment>, outs: seq<Fragment>, mem: Memory, first: nat)
    requires Apart(ins, outs) && Backed(outs, mem) && Backed(ins, mem)
    ensures Backed(outs, mem - Ids(ins, first))
    ensures Flat(outs, mem - Ids(ins, first), |outs|) == Flat(outs, mem, |outs|)
    ensures forall k: nat :: Ids(ins, first) !! Ids(outs, k)
  {
    hide Flat;
    Survives(outs, mem, Ids(ins, first));
  }

  /** The output does not use the fragments the input has to itself. */
  lemma {:induction false} LinkedSurvives(ins: seq<Fragment>, outs: seq<Fragment>, mem: Memory, c: nat, first: nat)
    requires Linked(ins, outs, c) && c <= |ins| && Distinct(ins) && Backed(outs, mem) && first >= c
    ensures Backed(outs, mem - Ids(ins, first))
    ensures Flat(outs, mem - Ids(ins, first), |outs|) == Flat(outs, mem, |outs|)
  {
    hide Flat, Before, Backed;
    forall j, k | first <= j < |ins| && 0 <= k < |outs| ensures outs[k].id != ins[j].id {
      assert k < c ==> outs[k] == outs[..c][k] && outs[..c][k].id == ins[k].id;
    }
    Survives(outs, mem, Ids(ins, first));
  }

  lemma {:induction false} RollbackSurvives(ins: seq<Fragment>, outs: seq<Fragment>, mem: Memory, first: nat,
      linked: bool, c: nat)
    requires if linked then Linked(ins, outs, c) && first >= c else Apart(ins, outs)
    requires Backed(ins, mem)
    ensures Backed(ins, mem - Ids(outs, first)) && forall k: nat :: Ids(ins, k) !! Ids(outs, first)
    ensures Flat(ins, mem - Ids(outs, first), |ins|) == Flat(ins, mem, |ins|)
  {
    hide Flat, Before, Backed;
    Survives(ins, mem, Ids(outs, first));
  }

  /** The account after a commit: it balances if and only if a shared fragment was the input's own. */
  lemma {:induction false} CommitLedger(ins: seq<Fragment>, outs: seq<Fragment>, c: nat, owned: nat, mem: Memory,
      foreign: set<nat>)
    requires Linked(ins, outs, c) && c <= |ins| && Distinct(ins) && Distinct(outs) && owned <= |ins| && Backed(ins, mem)
    ensures var freed := Ids(ins, if c > owned then c else owned); var kept := Ids(outs, Min(owned, c - 1));
      mem.Keys == foreign + Ids(ins, owned) + Ids(outs, c) && foreign !! Ids(ins, owned) + Ids(outs, c) ==>
        (mem.Keys - freed == foreign + kept && foreign !! kept <==> owned < c)
  {
    hide Flat, Before;
  }

  lemma {:induction false} NoLeak(reader: seq<byte>, bytes: seq<byte>, at: nat, data: seq<byte>)
    ensures Leak(reader, Writer(bytes, at, 0), data) == reader
  {}

  lemma {:induction false} WroteOwned(outs: seq<Fragment>, mem: Memory, gs: seq<Fragment>, now: Memory, at: nat,
      first: nat)
    requires Wrote(outs, mem, gs, now, at) && first <= |outs|
    ensures outs <= gs && Ids(gs, first) == Ids(outs, first) + Ids(gs, |outs|)
    ensures now.Keys == mem.Keys + Ids(gs, |outs|) && Ids(gs, |outs|) !! mem.Keys
  {
    hide Before, Backed, Touched, Extended;
    var m :| Extended(outs, mem, gs, m) && Backed(gs, m) && Touched(gs, m, now, at);
    ExtendedKeys(outs, mem, gs, m);
    TouchedKeys(gs, m, now, at);
    assert forall k :: first <= k < |outs| ==> gs[k] == outs[k];
    assert forall k :: first <= k < |gs| ==> k < |outs| || gs[k].id in Ids(gs, |outs|);
    forall id | id in Ids(outs, first) ensures id in Ids(gs, first) {
      var k :| first <= k < |outs| && outs[k].id == id;
      assert gs[k].id == id;
    }
    forall id | id in Ids(gs, |outs|) ensures id in Ids(gs, first) {
      var k :| |outs| <= k < |gs| && gs[k].id == id;
      assert first <= k;
    }
  }

  lemma {:induction false} ExtendedKeys(outs: seq<Fragment>, mem: Memory, gs: seq<Fragment>, m: Memory)
    requires Extended(outs, mem, gs, m) && Backed(gs, m)
    ensures outs <= gs && m.Keys == mem.Keys + Ids(gs, |outs|) && Ids(gs, |outs|) !! mem.Keys
  {
    forall id | id in Ids(gs, |outs|) ensures id in m && id !in mem {
      var k :| |outs| <= k < |gs| && gs[k].id == id;
      BackedAt(gs, m, k);
    }
    forall id | id in m && id !in mem ensures id in Ids(gs, |outs|) {
      var k :| |outs| <= k < |gs| && gs[k].id == id;
    }
  }

  lemma {:induction false} TouchedKeys(gs: seq<Fragment>, m: Memory, now: Memory, at: nat)
    requires Touched(gs, m, now, at)
    ensures now.Keys == m.Keys
  {}

  lemma {:induction false} WroteApart(ins: seq<Fragment>, outs: seq<Fragment>, mem: Memory, gs: seq<Fragment>,
      now: Memory, at: nat)
    requires Backed(ins, mem) && Apart(ins, outs) && Wrote(outs, mem, gs, now, at)
    ensures Apart(ins, gs) && Backed(ins, now) && Flat(ins, now, |ins|) == Flat(ins, mem, |ins|)
  {
    hide Backed, Apart, Extended, Touched, Flat;
    var m :| Extended(outs, mem, gs, m) && Backed(gs, m) && Touched(gs, m, now, at);
    ApartWrite(ins, outs, mem, gs, m, now, at);
  }

  lemma {:induction false} WroteLinked(ins: seq<Fragment>, outs: seq<Fragment>, mem: Memory, gs: seq<Fragment>,
      now: Memory, at: nat,
      data: seq<byte>, done: bool, c: nat, size: nat, before: seq<byte>, after: seq<byte>)
    requires Backed(ins, mem) && Distinct(ins) && Backed(outs, mem) && Linked(ins, outs, c)
    requires Wrote(outs, mem, gs, now, at) && Backed(gs, now) && Distinct(gs)
    requires Before(outs, c) <= size <= Before(ins, |ins|) && Before(outs, c) <= |before|
    requires before <= Flat(outs, mem, |outs|) && after <= Flat(gs, now, |gs|) && at <= |before|
    requires if done then after == Splice(before, at, data) else gs == outs && now == mem && after == before
    ensures Backed(ins, now) && Linked(ins, gs, c) && Before(gs, c) == Before(outs, c) <= |after|
    ensures Flat(ins, now, |ins|)[..size] == if done
      then Leak(Flat(ins, mem, |ins|)[..size], Writer(before, at, Before(outs, c)), data) else Flat(ins, mem, |ins|)[..size]
  {
    hide Backed, Linked, Extended, Touched, Flat, Before, Splice, Leak, Distinct;
    LinkedCut(ins, outs, mem, c);
    var m :| Extended(outs, mem, gs, m) && Backed(gs, m) && Touched(gs, m, now, at);
    if done {
      LinkedWrite(ins, outs, mem, gs, m, now, c, at, data, size, before, after);
    }
  }

  lemma {:induction false} CloneLinked(ins: seq<Fragment>, outs: seq<Fragment>, length: nat)
    requires CutOf(outs, ins, length)
    ensures Linked(ins, outs, |outs|) && Before(outs, |outs|) == length
  {
    assert outs[..|outs|] == outs;
  }

  lemma {:induction false} SharedView(ins: seq<Fragment>, outs: seq<Fragment>, mem: Memory, c: nat, size: nat,
      osize: nat)
    requires Backed(ins, mem) && Distinct(ins) && Backed(outs, mem) && Linked(ins, outs, c)
    requires Before(outs, c) <= size <= Before(ins, |ins|) && Before(outs, c) <= osize <= Before(outs, |outs|)
    ensures var p := Before(outs, c);
      Flat(ins, mem, |ins|)[..size][..p] == Flat(outs, mem, |outs|)[..osize][..p]
  {
    hide Flat, Before;
    SharedPrefix(ins, outs, mem, c);
    var x, y, p := Flat(ins, mem, |ins|), Flat(outs, mem, |outs|), Before(outs, c);
    assert x[..size][..p] == x[..p] && y[..osize][..p] == y[..p];
  }
}
