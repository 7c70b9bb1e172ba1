/**
 The pass-through source that computes the CRC of what is read through it (zip_source_crc.c).
 CRC-32 is a fold with an arbitrary step.
 */
module CrcSource {
  import opened Bytes
  import opened ZipBuffer
  import opened Output
  import opened FragmentBuffer

  type Stride = (uint32, byte) -> uint32

  const UINT_MAX: nat := 0xffff_ffff

  function Fold(step: Stride, crc: uint32, data: seq<byte>): uint32 {
    if data == [] then crc else step(Fold(step, crc, data[..|data| - 1]), data[|data| - 1])
  }

  lemma {:induction false} FoldAppend(step: Stride, crc: uint32, a: seq<byte>, b: seq<byte>)
    ensures Fold(step, crc, a + b) == Fold(step, Fold(step, crc, a), b)
  {
    if b == [] {
      assert a + b == a;
    } else {
      assert (a + b)[..|a + b| - 1] == a + b[..|b| - 1];
      FoldAppend(step, crc, a, b[..|b| - 1]);
    }
  }

  /** `position` is where reading stands, `done` how far the CRC has been computed. */
  datatype State = State(position: nat, done: nat, crc: uint32, complete: bool, size: nat)

  datatype Use = Open | Read(n: nat) | Seek(to: nat)

  const START := State(0, 0, 0, false, 0)

  /** The bytes from `crcPosition` on among those just read extend the CRC; reading nothing at all
      means the end of the stream. */
  function Step(step: Stride, content: seq<byte>, s: State, use: Use): State
    requires Legal(content, s, use)
  {
    match use
    case Open => s.(position := 0)
    case Seek(to) => s.(position := to)
    case Read(n) =>
      if n == 0 then
        if s.done == s.position then s.(complete := true, size := s.position) else s
      else
        var end := s.position + n;
        if !s.complete && s.position <= s.done < end then
          s.(position := end, done := end, crc := Fold(step, s.crc, content[s.done..end]))
        else
          s.(position := end)
  }

  /** The source below delivers at most what is left, and nothing only at its end. */
  predicate Legal(content: seq<byte>, s: State, use: Use) {
    match use
    case Open => true
    case Seek(to) => to <= |content|
    case Read(n) => s.position + n <= |content| && (n == 0 ==> s.position == |content|)
  }

  predicate Right(step: Stride, content: seq<byte>, s: State) {
    && s.position <= |content| && s.done <= |content|
    && s.crc == Fold(step, 0, content[..s.done])
    && (s.complete ==> s.done == s.size == |content|)
  }

  lemma {:induction false} StepIsRight(step: Stride, content: seq<byte>, s: State, use: Use)
    requires Right(step, content, s) && Legal(content, s, use)
    ensures var t := Step(step, content, s, use);
      && Right(step, content, t) && t.done >= s.done && (s.complete ==> t.complete)
      && (t.complete <==> s.complete || (use == Read(0) && s.done == |content|))
  {
    if use.Read? && s.done < s.position + use.n {
      var end := s.position + use.n;
      assert content[..s.done] + content[s.done..end] == content[..end];
      FoldAppend(step, 0, content[..s.done], content[s.done..end]);
    }
  }

  /** The state after a run, if everything in it was legal. */
  function Run(step: Stride, content: seq<byte>, uses: seq<Use>): Option<State>
    decreases |uses|
  {
    if uses == [] then Some(START)
    else
      var before := Run(step, content, uses[..|uses| - 1]);
      if before.Some? && Legal(content, before.value, uses[|uses| - 1])
      then Some(Step(step, content, before.value, uses[|uses| - 1])) else None
  }

  /** After any run of opens, reads and seeks back or forth the stored CRC is that of the first bytes
      of the stream, and once complete it and the size are those of the whole stream. */
  lemma {:induction false} CrcOfPrefix(step: Stride, content: seq<byte>, uses: seq<Use>)
    requires Run(step, content, uses).Some?
    ensures var s := Run(step, content, uses).value;
      && s.done <= |content| && s.crc == Fold(step, 0, content[..s.done])
      && (s.complete ==> s.size == |content| && s.crc == Fold(step, 0, content))
      && Right(step, content, s)
    decreases |uses|
  {
    hide Step, Legal;
    if uses == [] {
      assert content[..0] == [];
    } else {
      var n := |uses| - 1;
      CrcOfPrefix(step, content, uses[..n]);
      StepIsRight(step, content, Run(step, content, uses[..n]).value, uses[n]);
    }
    assert content[..|content|] == content;
  }

  predicate OnlyReads(uses: seq<Use>) {
    forall k :: 0 <= k < |uses| ==> uses[k].Read?
  }

  /** Reading straight through, in pieces of any sizes, computes the CRC as it goes, and noticing the
      end completes it. */
  lemma {:induction false} StraightThrough(step: Stride, content: seq<byte>, uses: seq<Use>)
    requires Run(step, content, uses).Some? && OnlyReads(uses)
    ensures var s := Run(step, content, uses).value;
      s.position == s.done && (uses != [] && uses[|uses| - 1] == Read(0) ==> s.complete)
    decreases |uses|
  {
    hide Fold;
    if uses != [] {
      var n := |uses| - 1;
      StraightThrough(step, content, uses[..n]);
      CrcOfPrefix(step, content, uses[..n]);
    }
  }

  /** A CRC source and the source below it, which nobody else uses. */
  class Crc {
    const content: seq<byte>
    const step: Stride
    const validate: bool
    const claimedCrc: Option<uint32> // what the source below says of itself
    const claimedSize: Option<nat>
    var below: nat // where the source below stands
    var position: nat
    var crcPosition: nat
    var crc: uint32
    var complete: bool
    var size: nat

    constructor (content: seq<byte>, step: Stride, validate: bool, claimedCrc: Option<uint32>, claimedSize: Option<nat>)
      ensures Valid() && this.content == content && this.step == step && View() == START
      ensures this.validate == validate && this.claimedCrc == claimedCrc && this.claimedSize == claimedSize
    {
      this.content, this.step, this.validate := content, step, validate;
      this.claimedCrc, this.claimedSize := claimedCrc, claimedSize;
      below, position, crcPosition, crc, complete, size := 0, 0, 0, 0, false, 0;
      new;
      assert content[..0] == [];
    }

    function View(): State
      reads this
    {
      State(position, crcPosition, crc, complete, size)
    }

    predicate Valid()
      reads this
    {
      Right(step, content, View()) && below == position
    }

    /** What the source below says of itself is true. */
    predicate Confirmed() {
      && (claimedCrc.Some? ==> claimedCrc.value == Fold(step, 0, content))
      && (claimedSize.Some? ==> claimedSize.value == |content|)
    }

    method Open()
      requires Valid()
      modifies this
      ensures Valid() && View() == Step(step, content, old(View()), Use.Open)
    {
      below := 0;
      position := 0;
    }

    /** Delivers as much as it likes, but something unless it is at its end or fails. */
    method ReadBelow(want: nat, fails: bool) returns (r: Result<seq<byte>>)
      requires below <= |content| && want > 0
      modifies this`below
      ensures r.Err? <==> fails
      ensures r.Err? ==> below == old(below)
      ensures r.Ok? ==> below == old(below) + |r.value| <= |content| && |r.value| <= want
      ensures r.Ok? ==> r.value == content[old(below)..below] && (r.value == [] ==> below == |content|)
    {
      if fails {
        return Err(Invalid);
      }
      var n := if want < |content| - below then want else |content| - below;
      r := Ok(content[below..below + n]);
      below := below + n;
    }

    /** Extends the CRC by `data` from `from` on, in pieces that fit an unsigned int. */
    method Update(data: seq<byte>, from: nat)
      requires from <= |data|
      modifies this`crc, this`crcPosition
      ensures crc == Fold(step, old(crc), data[from..]) && crcPosition == old(crcPosition) + |data| - from
    {
      hide Fold;
      var i := from;
      FoldNothing(step, crc);
      assert data[from..from] == [];
      while i < |data|
        invariant from <= i <= |data|
        invariant crc == Fold(step, old(crc), data[from..i]) && crcPosition == old(crcPosition) + i - from
      {
        var n := if |data| - i < UINT_MAX then |data| - i else UINT_MAX;
        FoldAppend(step, old(crc), data[from..i], data[i..i + n]);
        assert data[from..i] + data[i..i + n] == data[from..i + n];
        crc, crcPosition := Fold(step, crc, data[i..i + n]), crcPosition + n;
        i := i + n;
      }
      assert data[from..i] == data[from..];
    }

    /** The READ command. With `validate`, the end of the stream is where a wrong CRC or size shows. */
    method Read(want: nat, fails: bool) returns (r: Result<seq<byte>>)
      requires Valid() && want > 0
      modifies this
      ensures Valid()
      ensures fails ==> r.Err? && View() == old(View())
      ensures !fails ==> var n := if r.Ok? then |r.value| else 0;
        && Legal(content, old(View()), Use.Read(n)) && View() == Step(step, content, old(View()), Use.Read(n))
        && (r.Ok? ==> n <= want && r.value == content[old(position)..old(position) + n])
        && (r.Err? <==> old(position) == old(crcPosition) == |content| && validate && !Confirmed())
    {
      hide Fold;
      var part := ReadBelow(want, fails);
      if part.Err? {
        return Err(part.error);
      }
      var data := part.value;
      StepIsRight(step, content, View(), Use.Read(|data|));
      assert content[..|content|] == content;
      if data == [] {
        if crcPosition == position {
          complete, size := true, position;
          if validate && claimedCrc.Some? && claimedCrc.value != crc {
            return Err(BadCrc);
          }
          if validate && claimedSize.Some? && claimedSize.value != size {
            return Err(Inconsistent);
          }
        }
      } else if !complete && position <= crcPosition {
        if crcPosition - position < |data| {
          assert data[crcPosition - position..] == content[crcPosition..position + |data|];
          Update(data, crcPosition - position);
        }
      }
      position := position + |data|;
      return Ok(data);
    }

    /** The SEEK command: wherever the source below ends up. */
    method Seek(whence: Whence, delta: int) returns (done: bool)
      requires Valid()
      modifies this`below, this`position
      ensures Valid() && done == SeekTarget(old(position), |content|, whence, delta).Some?
      ensures View() == if done then Step(step, content, old(View()), Use.Seek(SeekTarget(old(position), |content|, whence, delta).value))
        else old(View())
    {
      var to := SeekTarget(below, |content|, whence, delta);
      done := to.Some?;
      if done {
        below := to.value;
        position := below;
      }
    }

    /** The STAT command: only a complete CRC is reported. */
    method Stat() returns (r: Option<(nat, uint32)>)
      requires Valid()
      ensures r == if complete then Some((|content|, Fold(step, 0, content))) else None
    {
      assert content[..|content|] == content;
      return if complete then Some((size, crc)) else None;
    }
  }

  lemma {:induction false} FoldNothing(step: Stride, crc: uint32)
    ensures Fold(step, crc, []) == crc
  {}
}
