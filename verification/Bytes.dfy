/**
 Bytes, little-endian integers and fixed-width record layouts.

 Every record of the ZIP format is a table of field widths, so one generic pair of
 functions (`Encoded`, `Values`) and one round-trip lemma serve all of them.
 */
module Bytes {
  type byte = x: int | 0 <= x < 256

  const UINT16_MAX: nat := 0xffff
  const UINT32_MAX: nat := 0xffff_ffff
  const INT64_MAX: nat := 0x7fff_ffff_ffff_ffff
  const TWO_TO_THE_64: nat := 0x1_0000_0000_0000_0000

  type uint16 = x: nat | x < 0x1_0000
  type uint32 = x: nat | x < 0x1_0000_0000
  type uint64 = x: nat | x < 0x1_0000_0000_0000_0000

  function Pow256(w: nat): (p: nat)
    ensures p > 0
  {
    if w == 0 then 1 else 256 * Pow256(w - 1)
  }

  /** The `w` low bytes of `v`, least significant first. */
  function Le(v: nat, w: nat): (b: seq<byte>)
    ensures |b| == w
  {
    if w == 0 then [] else [v % 256] + Le(v / 256, w - 1)
  }

  /** The number a little-endian byte string denotes. */
  function Nat(b: seq<byte>): nat {
    if b == [] then 0 else b[0] + 256 * Nat(b[1..])
  }

  lemma {:induction false} NatOfLe(v: nat, w: nat)
    requires v < Pow256(w)
    ensures Nat(Le(v, w)) == v
  {
    if w > 0 {
      NatOfLe(v / 256, w - 1);
      assert Le(v, w)[1..] == Le(v / 256, w - 1);
    }
  }

  lemma {:induction false} LeOfNat(b: seq<byte>)
    ensures Nat(b) < Pow256(|b|)
    ensures Le(Nat(b), |b|) == b
  {
    if b != [] {
      LeOfNat(b[1..]);
      assert Nat(b) % 256 == b[0] && Nat(b) / 256 == Nat(b[1..]);
    }
  }

  lemma {:induction false} Pow256Values()
    ensures Pow256(1) == 0x100 && Pow256(2) == 0x1_0000
    ensures Pow256(4) == 0x1_0000_0000 && Pow256(8) == 0x1_0000_0000_0000_0000
  {
    assert Pow256(3) == 0x100_0000;
    assert Pow256(5) == 0x100_0000_0000;
    assert Pow256(6) == 0x1_0000_0000_0000;
    assert Pow256(7) == 0x100_0000_0000_0000;
  }

  /** Where field `k` of a record starts. */
  function Offset(ws: seq<nat>, k: nat): nat
    requires k <= |ws|
  {
    if k == 0 then 0 else Offset(ws, k - 1) + ws[k - 1]
  }

  lemma {:induction false} OffsetMonotonic(ws: seq<nat>, j: nat, k: nat)
    requires j <= k <= |ws|
    ensures Offset(ws, j) <= Offset(ws, k)
  {
    if j < k { OffsetMonotonic(ws, j, k - 1); }
  }

  /** The first `k` fields of a record, in wire form. */
  function EncodedTo(ws: seq<nat>, vs: seq<nat>, k: nat): (b: seq<byte>)
    requires k <= |ws| == |vs|
    ensures |b| == Offset(ws, k)
  {
    if k == 0 then [] else EncodedTo(ws, vs, k - 1) + Le(vs[k - 1], ws[k - 1])
  }

  function Encoded(ws: seq<nat>, vs: seq<nat>): (b: seq<byte>)
    requires |ws| == |vs|
    ensures |b| == Offset(ws, |ws|)
  {
    EncodedTo(ws, vs, |ws|)
  }

  /** The unsigned integer of width `w` stored at `at`. */
  function Uint(b: seq<byte>, at: nat, w: nat): nat
    requires at + w <= |b|
  {
    Nat(b[at..at + w])
  }

  lemma {:induction false} UintBound(b: seq<byte>, at: nat, w: nat)
    requires at + w <= |b|
    ensures Uint(b, at, w) < Pow256(w)
  {
    LeOfNat(b[at..at + w]);
  }

  function U16(b: seq<byte>, at: nat): uint16
    requires at + 2 <= |b|
  {
    UintBound(b, at, 2);
    Pow256Values();
    Uint(b, at, 2)
  }

  function U32(b: seq<byte>, at: nat): uint32
    requires at + 4 <= |b|
  {
    UintBound(b, at, 4);
    Pow256Values();
    Uint(b, at, 4)
  }

  function U64(b: seq<byte>, at: nat): uint64
    requires at + 8 <= |b|
  {
    UintBound(b, at, 8);
    Pow256Values();
    Uint(b, at, 8)
  }

  /** All the fields of a record read at the start of `b`. */
  function Values(ws: seq<nat>, b: seq<byte>): (vs: seq<nat>)
    requires Offset(ws, |ws|) <= |b|
    ensures |vs| == |ws|
  {
    seq(|ws|, k requires 0 <= k < |ws| => OffsetMonotonic(ws, k + 1, |ws|); Uint(b, Offset(ws, k), ws[k]))
  }

  predicate Fits(ws: seq<nat>, vs: seq<nat>) {
    |ws| == |vs| && forall k :: 0 <= k < |ws| ==> vs[k] < Pow256(ws[k])
  }

  lemma {:induction false} EncodedPrefix(ws: seq<nat>, vs: seq<nat>, j: nat, k: nat)
    requires j <= k <= |ws| == |vs|
    ensures EncodedTo(ws, vs, j) <= EncodedTo(ws, vs, k)
  {
    if j < k { EncodedPrefix(ws, vs, j, k - 1); }
  }

  lemma {:induction false} EncodedAppend(ws: seq<nat>, vs: seq<nat>, xs: seq<nat>, ys: seq<nat>, k: nat)
    requires |ws| == |vs| && k <= |xs| == |ys|
    ensures Offset(ws + xs, |ws| + k) == Offset(ws, |ws|) + Offset(xs, k)
    ensures EncodedTo(ws + xs, vs + ys, |ws| + k) == Encoded(ws, vs) + EncodedTo(xs, ys, k)
  {
    if k == 0 {
      EncodedCongruent(ws, vs, ws + xs, vs + ys, |ws|);
    } else {
      EncodedAppend(ws, vs, xs, ys, k - 1);
      var e := Le(ys[k - 1], xs[k - 1]);
      assert Encoded(ws, vs) + EncodedTo(xs, ys, k - 1) + e == Encoded(ws, vs) + (EncodedTo(xs, ys, k - 1) + e);
    }
  }

  lemma {:induction false} EncodedConcat(ws: seq<nat>, vs: seq<nat>, xs: seq<nat>, ys: seq<nat>)
    requires |ws| == |vs| && |xs| == |ys|
    ensures Encoded(ws + xs, vs + ys) == Encoded(ws, vs) + Encoded(xs, ys)
  {
    EncodedAppend(ws, vs, xs, ys, |xs|);
  }

  lemma {:induction false} EncodedStep(start: seq<byte>, ws: seq<nat>, vs: seq<nat>, k: nat)
    requires k < |ws| == |vs|
    ensures start + EncodedTo(ws, vs, k) + Le(vs[k], ws[k]) == start + EncodedTo(ws, vs, k + 1)
    ensures |start + EncodedTo(ws, vs, k)| + ws[k] <= |start| + Offset(ws, |ws|)
  {
    OffsetMonotonic(ws, k + 1, |ws|);
  }

  lemma {:induction false} EncodedCongruent(ws: seq<nat>, vs: seq<nat>, xs: seq<nat>, ys: seq<nat>, k: nat)
    requires |ws| == |vs| && |xs| == |ys| && k <= |ws| && ws <= xs && vs <= ys
    ensures Offset(ws, k) == Offset(xs, k) && EncodedTo(ws, vs, k) == EncodedTo(xs, ys, k)
  {
    if k > 0 { EncodedCongruent(ws, vs, xs, ys, k - 1); }
  }

  lemma {:induction false} FieldBack(ws: seq<nat>, vs: seq<nat>, tail: seq<byte>, k: nat)
    requires Fits(ws, vs) && k < |ws|
    ensures Offset(ws, k) + ws[k] <= |Encoded(ws, vs)|
    ensures Uint(Encoded(ws, vs) + tail, Offset(ws, k), ws[k]) == vs[k]
  {
    OffsetMonotonic(ws, k + 1, |ws|);
    EncodedPrefix(ws, vs, k + 1, |ws|);
    var e, at := EncodedTo(ws, vs, k + 1), Offset(ws, k);
    var b := Encoded(ws, vs) + tail;
    assert b[at..at + ws[k]] == e[at..] == Le(vs[k], ws[k]);
    NatOfLe(vs[k], ws[k]);
  }

  /** Reading a written record returns its fields, whatever follows it. */
  lemma {:induction false} RecordRoundTrip(ws: seq<nat>, vs: seq<nat>, tail: seq<byte>)
    requires Fits(ws, vs)
    ensures Values(ws, Encoded(ws, vs) + tail) == vs
  {
    hide Encoded, EncodedTo, Uint;
    forall k | 0 <= k < |ws| ensures Values(ws, Encoded(ws, vs) + tail)[k] == vs[k] {
      FieldBack(ws, vs, tail, k);
    }
  }

  /** Overwrites from `at` on, extending the string if the data runs past its end. */
  function Splice(b: seq<byte>, at: nat, data: seq<byte>): seq<byte>
    requires at <= |b|
  {
    b[..at] + data + if at + |data| < |b| then b[at + |data|..] else []
  }

  lemma {:induction false} SpliceTwice(b: seq<byte>, at: nat, x: seq<byte>, y: seq<byte>)
    requires at <= |b|
    ensures Splice(Splice(b, at, x), at + |x|, y) == Splice(b, at, x + y)
  {}

  lemma {:induction false} SpliceNothing(b: seq<byte>, at: nat)
    requires at <= |b|
    ensures Splice(b, at, []) == b
  {}

  lemma {:induction false} SpliceEnd(b: seq<byte>, data: seq<byte>)
    ensures Splice(b, |b|, data) == b + data
  {}
}
