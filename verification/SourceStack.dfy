/**
 Opening, closing and freeing layered sources (zip_source_open.c, zip_source_close.c,
 zip_source_free.c, zip_source_layered.c, zip_source_function.c): a source layered on another holds
 it open while it is open itself.
 */
module SourceStack {
  import opened ZipBuffer

  /** `lower` is the source this one is layered on. `calls` records the successful OPEN callbacks
      (true) and the CLOSE callbacks (false), in order. */
  datatype Source = Source(lower: Option<nat>, seekable: bool, removed: bool, opens: nat, refs: nat, live: bool, calls: seq<bool>)

  /** Every source is layered on an older one, if on any. */
  predicate Layered(p: seq<Source>) {
    forall i :: 0 <= i < |p| && p[i].lower.Some? ==> p[i].lower.value < i
  }

  // ----- The operations -----

  /** `zip_source_close`. */
  function Closed(p: seq<Source>, i: nat): (r: (seq<Source>, bool))
    requires Layered(p) && i < |p|
    ensures |r.0| == |p| && Layered(r.0) && forall j :: i < j < |p| ==> r.0[j] == p[j]
    ensures forall j :: 0 <= j < |p| ==> SameButOpens(p[j], r.0[j])
    decreases i
  {
    if p[i].opens == 0 then (p, false)
    else if p[i].opens > 1 then (p[i := p[i].(opens := p[i].opens - 1)], true)
    else
      var q := p[i := p[i].(opens := 0, calls := p[i].calls + [false])];
      if p[i].lower.None? then (q, true) else (Closed(q, p[i].lower.value).0, true)
  }

  /** `zip_source_open`; `fails` says which sources' OPEN callbacks fail. */
  function Opened(p: seq<Source>, i: nat, fails: nat -> bool): (r: (seq<Source>, bool))
    requires Layered(p) && i < |p|
    ensures |r.0| == |p| && Layered(r.0) && forall j :: i < j < |p| ==> r.0[j] == p[j]
    ensures forall j :: 0 <= j < |p| ==> SameButOpens(p[j], r.0[j])
    decreases i
  {
    if p[i].removed then (p, false)
    else if p[i].opens > 0 then
      if p[i].seekable then (p[i := p[i].(opens := p[i].opens + 1)], true) else (p, false)
    else
      var (q, ok) := if p[i].lower.Some? then Opened(p, p[i].lower.value, fails) else (p, true);
      if !ok then (q, false)
      else if fails(i) then (if p[i].lower.Some? then Closed(q, p[i].lower.value).0 else q, false)
      else (q[i := q[i].(opens := 1, calls := q[i].calls + [true])], true)
  }

  predicate SameButOpens(a: Source, b: Source) {
    b == a.(opens := b.opens, calls := b.calls)
  }

  /** `zip_source_free`. */
  function Freed(p: seq<Source>, i: nat): (r: seq<Source>)
    requires Layered(p) && i < |p|
    ensures |r| == |p| && Layered(r)
    decreases i
  {
    var refs := if p[i].refs > 0 then p[i].refs - 1 else 0;
    var q := p[i := p[i].(refs := refs)];
    if refs > 0 then q
    else
      var c := if q[i].opens > 0 then Closed(q[i := q[i].(opens := 1)], i).0 else q;
      var d := c[i := c[i].(live := false)];
      if p[i].lower.None? then d else Freed(d, p[i].lower.value)
  }

  // ----- The accounts -----

  predicate HoldsOpen(s: Source, l: nat) {
    s.lower == Some(l) && s.opens > 0
  }

  predicate HoldsRef(s: Source, l: nat) {
    s.lower == Some(l) && s.live
  }

  /** How many sources hold source `l` open, and how many hold a reference to it. */
  function Held(p: seq<Source>, l: nat): nat {
    if p == [] then 0 else Held(p[..|p| - 1], l) + if HoldsOpen(p[|p| - 1], l) then 1 else 0
  }

  function Uppers(p: seq<Source>, l: nat): nat {
    if p == [] then 0 else Uppers(p[..|p| - 1], l) + if HoldsRef(p[|p| - 1], l) then 1 else 0
  }

  /** OPEN and CLOSE alternate, and the last of them was OPEN exactly while the source is open. */
  predicate Alternates(s: Source) {
    && (forall k :: 0 <= k < |s.calls| ==> s.calls[k] == (k % 2 == 0))
    && |s.calls| % 2 == if s.opens > 0 then 1 else 0
  }

  /** What the clients themselves hold: `direct` opens and `owned` references to each source. */
  datatype Client = Client(direct: seq<nat>, owned: seq<nat>)

  /** Each source is open as often as clients have opened it, and once more for every open source
      layered on it; and the same for references. */
  predicate OpensBalanced(p: seq<Source>, direct: seq<nat>) {
    |direct| == |p| && forall l :: 0 <= l < |p| ==> p[l].opens == direct[l] + Held(p, l)
  }

  predicate RefsBalanced(p: seq<Source>, owned: seq<nat>) {
    |owned| == |p| && forall l :: 0 <= l < |p| ==> p[l].refs == owned[l] + Uppers(p, l)
  }

  predicate Proper(p: seq<Source>) {
    Layered(p) && forall l :: 0 <= l < |p| ==> Alternates(p[l])
  }

  /** A source lives as long as it is referred to, and only live sources are open. */
  predicate Lives(p: seq<Source>) {
    forall l :: 0 <= l < |p| ==> (p[l].live <==> p[l].refs > 0) && (p[l].opens > 0 ==> p[l].live)
  }

  predicate Balanced(p: seq<Source>, c: Client) {
    Proper(p) && Lives(p) && OpensBalanced(p, c.direct) && RefsBalanced(p, c.owned)
  }

  lemma {:induction false} HeldUpdate(p: seq<Source>, i: nat, s: Source, l: nat)
    requires i < |p|
    ensures Held(p[i := s], l) == Held(p, l)
      - (if HoldsOpen(p[i], l) then 1 else 0) + (if HoldsOpen(s, l) then 1 else 0)
  {
    var n := |p| - 1;
    if i < n {
      HeldUpdate(p[..n], i, s, l);
      assert p[i := s][..n] == p[..n][i := s];
    } else {
      assert p[i := s][..n] == p[..n];
    }
  }

  lemma {:induction false} UppersUpdate(p: seq<Source>, i: nat, s: Source, l: nat)
    requires i < |p|
    ensures Uppers(p[i := s], l) == Uppers(p, l)
      - (if HoldsRef(p[i], l) then 1 else 0) + (if HoldsRef(s, l) then 1 else 0)
  {
    var n := |p| - 1;
    if i < n {
      UppersUpdate(p[..n], i, s, l);
      assert p[i := s][..n] == p[..n][i := s];
    } else {
      assert p[i := s][..n] == p[..n];
    }
  }

  lemma {:induction false} UppersSame(p: seq<Source>, q: seq<Source>, l: nat)
    requires |p| == |q| && forall j :: 0 <= j < |p| ==> SameButOpens(p[j], q[j])
    ensures Uppers(p, l) == Uppers(q, l)
  {
    if p != [] {
      UppersSame(p[..|p| - 1], q[..|q| - 1], l);
    }
  }

  lemma {:induction false} HeldAtMostUppers(p: seq<Source>, l: nat)
    requires forall j :: 0 <= j < |p| ==> p[j].opens > 0 ==> p[j].live
    ensures Held(p, l) <= Uppers(p, l)
  {
    if p != [] {
      HeldAtMostUppers(p[..|p| - 1], l);
    }
  }

  /** Changing the open count of source `i`, and with it whether it holds its lower source. */
  lemma {:induction false} SetOpens(p: seq<Source>, i: nat, s: Source, direct: seq<nat>, after: seq<nat>)
    requires OpensBalanced(p, direct) && Layered(p) && i < |p| && SameButOpens(p[i], s) && |after| == |p|
    requires forall l :: 0 <= l < |p| && l != i && Some(l) != p[i].lower ==> after[l] == direct[l]
    requires s.opens + direct[i] == p[i].opens + after[i]
    requires p[i].lower.Some? ==> var l := p[i].lower.value;
      after[l] + (if s.opens > 0 then 1 else 0) == direct[l] + if p[i].opens > 0 then 1 else 0
    ensures OpensBalanced(p[i := s], after)
  {
    var q := p[i := s];
    forall l | 0 <= l < |p| ensures q[l].opens == after[l] + Held(q, l) {
      HeldUpdate(p, i, s, l);
      assert p[l].opens == direct[l] + Held(p, l);
    }
  }

  lemma {:induction false} ClosedIs(p: seq<Source>, i: nat)
    requires Layered(p) && i < |p|
    ensures Closed(p, i) == if p[i].opens == 0 then (p, false)
      else if p[i].opens > 1 then (p[i := p[i].(opens := p[i].opens - 1)], true)
      else
        var q := p[i := p[i].(opens := 0, calls := p[i].calls + [false])];
        if p[i].lower.None? then (q, true) else (Closed(q, p[i].lower.value).0, true)
  {}

  lemma {:induction false} AlternatesNext(s: Source)
    requires Alternates(s)
    ensures s.opens > 1 ==> Alternates(s.(opens := s.opens - 1))
    ensures s.opens == 1 ==> Alternates(s.(opens := 0, calls := s.calls + [false]))
  {}

  /** Closing what a client has opened gives back just that. */
  lemma {:induction false} CloseBalances(p: seq<Source>, i: nat, direct: seq<nat>)
    requires Proper(p) && OpensBalanced(p, direct) && i < |p| && direct[i] > 0
    ensures Closed(p, i).1 && Proper(Closed(p, i).0)
    ensures OpensBalanced(Closed(p, i).0, direct[i := direct[i] - 1])
    ensures forall j :: 0 <= j < |p| ==> Closed(p, i).0[j].opens <= p[j].opens
    decreases i
  {
    hide Held, Closed, Alternates, HoldsOpen;
    ClosedIs(p, i);
    AlternatesNext(p[i]);
    var less := direct[i := direct[i] - 1];
    if p[i].opens > 1 {
      SetOpens(p, i, p[i].(opens := p[i].opens - 1), direct, less);
    } else {
      var s := p[i].(opens := 0, calls := p[i].calls + [false]);
      var q := p[i := s];
      if p[i].lower.Some? {
        var l := p[i].lower.value;
        var more := less[l := less[l] + 1];
        SetOpens(p, i, s, direct, more);
        CloseBalances(q, l, more);
        assert more[l := more[l] - 1] == less;
      } else {
        SetOpens(p, i, s, direct, less);
      }
    }
  }

  lemma {:induction false} HeldSame(p: seq<Source>, q: seq<Source>, l: nat)
    requires |p| == |q| && forall j :: 0 <= j < |p| ==> HoldsOpen(p[j], l) == HoldsOpen(q[j], l)
    ensures Held(p, l) == Held(q, l)
  {
    if p != [] {
      HeldSame(p[..|p| - 1], q[..|q| - 1], l);
    }
  }

  /** The accounts determine the open counts. */
  lemma {:induction false} SameCounts(p: seq<Source>, q: seq<Source>, direct: seq<nat>, l: nat)
    requires OpensBalanced(p, direct) && OpensBalanced(q, direct) && Layered(p) && l <= |p|
    requires forall j :: 0 <= j < |p| ==> SameButOpens(p[j], q[j])
    ensures forall j :: l <= j < |p| ==> q[j].opens == p[j].opens
    decreases |p| - l
  {
    if l < |p| {
      SameCounts(p, q, direct, l + 1);
      HeldSame(p, q, l);
    }
  }

  /** What is layered on is live. */
  predicate LowersLive(p: seq<Source>)
    requires Layered(p)
  {
    forall j :: 0 <= j < |p| && p[j].live && p[j].lower.Some? ==> p[p[j].lower.value].live
  }

  lemma {:induction false} CountsRef(p: seq<Source>, j: nat, l: nat)
    requires j < |p| && HoldsRef(p[j], l)
    ensures Uppers(p, l) > 0
  {
    if j < |p| - 1 {
      CountsRef(p[..|p| - 1], j, l);
    }
  }

  lemma {:induction false} BalancedLives(p: seq<Source>, c: Client)
    requires Balanced(p, c)
    ensures LowersLive(p)
  {
    forall j | 0 <= j < |p| && p[j].live && p[j].lower.Some? ensures p[p[j].lower.value].live {
      CountsRef(p, j, p[j].lower.value);
    }
  }

  /** A successful open adds one; a failed one, at whatever level, leaves every count as it was. */
  lemma {:induction false} OpenBalances(p: seq<Source>, i: nat, fails: nat -> bool, direct: seq<nat>)
    requires Proper(p) && OpensBalanced(p, direct) && i < |p| && p[i].live && LowersLive(p)
    ensures var (q, ok) := Opened(p, i, fails);
      && Proper(q) && OpensBalanced(q, if ok then direct[i := direct[i] + 1] else direct)
      && (!ok ==> forall j :: 0 <= j < |p| ==> q[j].opens == p[j].opens)
      && (forall j :: 0 <= j < |p| && q[j].opens > 0 ==> p[j].opens > 0 || p[j].live)
    decreases i
  {
    hide Held, Closed, HoldsOpen;
    var more := direct[i := direct[i] + 1];
    if p[i].removed {
    } else if p[i].opens > 0 {
      SetOpens(p, i, p[i].(opens := p[i].opens + 1), direct, more);
    } else if p[i].lower.Some? {
      var l := p[i].lower.value;
      OpenBalances(p, l, fails, direct);
      var (r, lowerOk) := Opened(p, l, fails);
      hide Opened;
      OpenedOver(p, i, fails);
      if lowerOk {
        if fails(i) {
          LowerClosed(p, r, l, direct);
        } else {
          LowerHeld(p, r, i, l, direct);
        }
      }
    } else if !fails(i) {
      SetOpens(p, i, p[i].(opens := 1, calls := p[i].calls + [true]), direct, more);
    }
  }

  /** Opening over a lower source: that is opened first, and closed again if the own OPEN fails. */
  lemma {:induction false} OpenedOver(p: seq<Source>, i: nat, fails: nat -> bool)
    requires Layered(p) && i < |p| && p[i].opens == 0 && !p[i].removed && p[i].lower.Some?
    ensures var l := p[i].lower.value; var (r, ok) := Opened(p, l, fails);
      Opened(p, i, fails) == if !ok then (r, false) else if fails(i) then (Closed(r, l).0, false)
        else (r[i := r[i].(opens := 1, calls := r[i].calls + [true])], true)
  {}

  lemma {:induction false} LowerClosed(p: seq<Source>, r: seq<Source>, l: nat, direct: seq<nat>)
    requires Proper(p) && OpensBalanced(p, direct) && l < |p| == |r| && forall j :: 0 <= j < |p| ==> SameButOpens(p[j], r[j])
    requires Proper(r) && OpensBalanced(r, direct[l := direct[l] + 1])
    ensures var q := Closed(r, l).0;
      Proper(q) && OpensBalanced(q, direct) && forall j :: 0 <= j < |p| ==> q[j].opens == p[j].opens
  {
    hide Held, Closed;
    var held := direct[l := direct[l] + 1];
    CloseBalances(r, l, held);
    assert held[l := held[l] - 1] == direct;
    SameCounts(p, Closed(r, l).0, direct, 0);
  }

  lemma {:induction false} LowerHeld(p: seq<Source>, r: seq<Source>, i: nat, l: nat, direct: seq<nat>)
    requires Layered(p) && i < |p| == |r| == |direct| && p[i].lower == Some(l) && l < i && p[i].opens == 0 && r[i] == p[i] && p[i].live
    requires Proper(r) && OpensBalanced(r, direct[l := direct[l] + 1])
    ensures var q := r[i := r[i].(opens := 1, calls := r[i].calls + [true])];
      Proper(q) && OpensBalanced(q, direct[i := direct[i] + 1])
  {
    hide Held;
    SetOpens(r, i, r[i].(opens := 1, calls := r[i].calls + [true]), direct[l := direct[l] + 1], direct[i := direct[i] + 1]);
  }

  // ----- Freeing -----

  /** What clients hold once `i` has been freed: whatever died is no longer open. */
  function AfterFree(c: Client, q: seq<Source>, i: nat): (d: Client)
    requires |c.direct| == |c.owned| == |q| && i < |q| && c.owned[i] > 0
    ensures |d.direct| == |d.owned| == |q|
  {
    Client(seq(|q|, j requires 0 <= j < |q| => if q[j].live then c.direct[j] else 0), c.owned[i := c.owned[i] - 1])
  }

  /** One reference fewer, or the end of the source. */
  lemma {:induction false} DropRef(p: seq<Source>, i: nat, s: Source, owned: seq<nat>, after: seq<nat>)
    requires RefsBalanced(p, owned) && Layered(p) && i < |p| == |after| && s.lower == p[i].lower
    requires forall l :: 0 <= l < |p| && l != i && Some(l) != p[i].lower ==> after[l] == owned[l]
    requires s.refs + owned[i] == p[i].refs + after[i]
    requires p[i].lower.Some? ==> var l := p[i].lower.value;
      after[l] + (if s.live then 1 else 0) == owned[l] + if p[i].live then 1 else 0
    ensures RefsBalanced(p[i := s], after)
  {
    var q := p[i := s];
    forall l | 0 <= l < |p| ensures q[l].refs == after[l] + Uppers(q, l) {
      UppersUpdate(p, i, s, l);
      assert p[l].refs == owned[l] + Uppers(p, l);
    }
  }

  lemma {:induction false} DeadHoldsNothing(p: seq<Source>, c: Client, j: nat)
    requires Balanced(p, c) && j < |p| && !p[j].live
    ensures c.direct[j] == 0 && c.owned[j] == 0
  {}

  /** The end of a source: it is closed by force, and its lower source is no longer referred to. */
  function Ended(p: seq<Source>, i: nat): (d: seq<Source>)
    requires Layered(p) && i < |p|
    ensures |d| == |p| && Layered(d) && d[i].lower == p[i].lower
  {
    var q := p[i := p[i].(refs := 0)];
    var c := if q[i].opens > 0 then Closed(q[i := q[i].(opens := 1)], i).0 else q;
    c[i := c[i].(live := false)]
  }

  lemma {:induction false} FreedLast(p: seq<Source>, i: nat)
    requires Layered(p) && i < |p| && p[i].refs <= 1
    ensures Freed(p, i) == if p[i].lower.None? then Ended(p, i) else Freed(Ended(p, i), p[i].lower.value)
  {}

  lemma {:induction false} EndedOpens(p: seq<Source>, i: nat, direct: seq<nat>)
    requires Proper(p) && OpensBalanced(p, direct) && i < |p| && p[i].opens == direct[i]
    ensures Proper(Ended(p, i)) && OpensBalanced(Ended(p, i), direct[i := 0])
    ensures forall j :: 0 <= j < |p| ==> Ended(p, i)[j].opens <= p[j].opens
    ensures Ended(p, i)[i].opens == 0
    ensures forall j :: 0 <= j < |p| && j != i ==> SameButOpens(p[j], Ended(p, i)[j])
    ensures !Ended(p, i)[i].live && Ended(p, i)[i].refs == 0
  {
    hide Held, Closed, HoldsOpen;
    var q := p[i := p[i].(refs := 0)];
    SetOpensSame(p, i, q[i], direct);
    if q[i].opens > 0 {
      var one := q[i := q[i].(opens := 1)];
      SetOpens(q, i, one[i], direct, direct[i := 1]);
      CloseBalances(one, i, direct[i := 1]);
      assert direct[i := 1][i := 0] == direct[i := 0];
      var closed := Closed(one, i).0;
      ClosedEnd(one, i);
      SetOpensSame(closed, i, closed[i].(live := false), direct[i := 0]);
    } else {
      assert direct == direct[i := 0];
      SetOpensSame(q, i, q[i].(live := false), direct);
    }
  }

  lemma {:induction false} EndedRefs(p: seq<Source>, i: nat, owned: seq<nat>)
    requires Layered(p) && RefsBalanced(p, owned) && i < |p| && owned[i] > 0 && p[i].refs == 1 && p[i].live
    requires forall j :: 0 <= j < |p| && j != i ==> SameButOpens(p[j], Ended(p, i)[j])
    requires !Ended(p, i)[i].live && Ended(p, i)[i].refs == 0
    ensures var less := owned[i := owned[i] - 1];
      RefsBalanced(Ended(p, i), if p[i].lower.Some? then less[p[i].lower.value := less[p[i].lower.value] + 1] else less)
  {
    var d := Ended(p, i);
    hide Uppers, Ended;
    var q := d[i := p[i]];
    forall l | 0 <= l < |p| ensures Uppers(p, l) == Uppers(q, l) {
      UppersSame(p, q, l);
    }
    assert RefsBalanced(q, owned);
    assert d == q[i := d[i]];
    var less := owned[i := owned[i] - 1];
    DropRef(q, i, d[i], owned, if p[i].lower.Some? then less[p[i].lower.value := less[p[i].lower.value] + 1] else less);
  }

  lemma {:induction false} LastRef(p: seq<Source>, i: nat, c: Client)
    requires Balanced(p, c) && i < |p| && c.owned[i] > 0 && p[i].refs == 1
    ensures forall j :: 0 <= j < |p| && j != i ==> Ended(p, i)[j].live == p[j].live
    ensures !Ended(p, i)[i].live
    ensures var direct, owned := c.direct[i := 0], c.owned[i := c.owned[i] - 1]; var l := p[i].lower;
      Balanced(Ended(p, i), Client(direct, if l.Some? then owned[l.value := owned[l.value] + 1] else owned))
  {
    hide Held, Uppers, Ended;
    HeldAtMostUppers(p, i);
    EndedOpens(p, i, c.direct);
    EndedRefs(p, i, c.owned);
  }

  /** Fields other than open count and lower source do not matter to who holds whom open. */
  lemma {:induction false} SetOpensSame(p: seq<Source>, i: nat, s: Source, direct: seq<nat>)
    requires OpensBalanced(p, direct) && i < |p| && s.opens == p[i].opens && s.lower == p[i].lower
    ensures OpensBalanced(p[i := s], direct)
  {
    var q := p[i := s];
    forall l | 0 <= l < |p| ensures q[l].opens == direct[l] + Held(q, l) {
      HeldUpdate(p, i, s, l);
    }
  }

  lemma {:induction false} ClosedEnd(p: seq<Source>, i: nat)
    requires Layered(p) && i < |p| && p[i].opens == 1
    ensures Closed(p, i).0[i].opens == 0
  {}

  /** Freeing a reference one holds keeps both accounts balanced, all the way down. */
  lemma {:induction false} FreeBalances(p: seq<Source>, i: nat, c: Client)
    requires Balanced(p, c) && i < |p| && c.owned[i] > 0
    ensures Balanced(Freed(p, i), AfterFree(c, Freed(p, i), i))
    ensures forall j :: 0 <= j < |p| && Freed(p, i)[j].live ==> p[j].live
    decreases i
  {
    hide Held, Uppers, Closed;
    if p[i].refs > 1 {
      var s := p[i].(refs := p[i].refs - 1);
      var owned := c.owned[i := c.owned[i] - 1];
      DropRef(p, i, s, c.owned, owned);
      SetOpensSame(p, i, s, c.direct);
      OneLess(p, i, c);
    } else {
      LastRef(p, i, c);
      FreedLast(p, i);
      var d := Ended(p, i);
      hide Freed, Ended;
      var direct, owned := c.direct[i := 0], c.owned[i := c.owned[i] - 1];
      if p[i].lower.Some? {
        var l := p[i].lower.value;
        var e := Client(direct, owned[l := owned[l] + 1]);
        FreeBalances(d, l, e);
        SameAccount(p, d, Freed(p, i), i, l, c);
      } else {
        LastAccount(p, d, i, c);
      }
    }
  }

  lemma {:induction false} OneLess(p: seq<Source>, i: nat, c: Client)
    requires Balanced(p, c) && i < |p| && c.owned[i] > 0 && p[i].refs > 1
    ensures var q := p[i := p[i].(refs := p[i].refs - 1)];
      Freed(p, i) == q && AfterFree(c, q, i) == Client(c.direct, c.owned[i := c.owned[i] - 1])
  {
    var q := p[i := p[i].(refs := p[i].refs - 1)];
    forall j | 0 <= j < |p| && !q[j].live ensures c.direct[j] == 0 {
      DeadHoldsNothing(p, c, j);
    }
    assert AfterFree(c, q, i).direct == c.direct;
  }

  lemma {:induction false} SameAccount(p: seq<Source>, d: seq<Source>, q: seq<Source>, i: nat, l: nat, c: Client)
    requires |p| == |d| == |q| == |c.direct| == |c.owned| && l < i < |p| && c.owned[i] > 0
    requires !d[i].live && forall j :: 0 <= j < |p| && q[j].live ==> d[j].live
    ensures var direct, owned := c.direct[i := 0], c.owned[i := c.owned[i] - 1];
      AfterFree(Client(direct, owned[l := owned[l] + 1]), q, l) == AfterFree(c, q, i)
  {
    var owned := c.owned[i := c.owned[i] - 1];
    assert owned[l := owned[l] + 1][l := owned[l]] == owned;
  }

  lemma {:induction false} LastAccount(p: seq<Source>, d: seq<Source>, i: nat, c: Client)
    requires Balanced(p, c) && |d| == |p| && i < |p| && c.owned[i] > 0 && !d[i].live
    requires forall j :: 0 <= j < |p| && j != i ==> d[j].live == p[j].live
    ensures AfterFree(c, d, i) == Client(c.direct[i := 0], c.owned[i := c.owned[i] - 1])
  {
    forall j | 0 <= j < |p| && !p[j].live ensures c.direct[j] == 0 {
      DeadHoldsNothing(p, c, j);
    }
  }

  // ----- Runs -----

  datatype Use =
    | Create(seekable: bool) | Layer(on: nat, seekable: bool) | Keep(i: nat)
    | Open(i: nat, fails: nat -> bool) | Close(i: nat) | Free(i: nat)

  /** Clients use sources they hold, and close what they have opened. */
  predicate Allowed(c: Client, use: Use)
    requires |c.direct| == |c.owned|
  {
    match use
    case Create(_) => true
    case Layer(on, _) => on < |c.owned| && c.owned[on] > 0
    case Keep(i) => i < |c.owned| && c.owned[i] > 0
    case Open(i, _) => i < |c.owned| && c.owned[i] > 0
    case Close(i) => i < |c.direct| && c.direct[i] > 0
    case Free(i) => i < |c.owned| && c.owned[i] > 0
  }

  function Step(p: seq<Source>, c: Client, use: Use): (r: (seq<Source>, Client))
    requires Layered(p) && |c.direct| == |c.owned| == |p| && Allowed(c, use)
    ensures Layered(r.0) && |r.1.direct| == |r.1.owned| == |r.0|
  {
    match use
    case Create(seekable) =>
      (p + [Source(None, seekable, false, 0, 1, true, [])], Client(c.direct + [0], c.owned + [1]))
    case Layer(on, seekable) =>
      (p[on := p[on].(refs := p[on].refs + 1)] + [Source(Some(on), seekable, false, 0, 1, true, [])],
       Client(c.direct + [0], c.owned + [1]))
    case Keep(i) =>
      (p[i := p[i].(refs := p[i].refs + 1)], c.(owned := c.owned[i := c.owned[i] + 1]))
    case Open(i, fails) =>
      var (q, ok) := Opened(p, i, fails);
      (q, if ok then c.(direct := c.direct[i := c.direct[i] + 1]) else c)
    case Close(i) => (Closed(p, i).0, c.(direct := c.direct[i := c.direct[i] - 1]))
    case Free(i) => (Freed(p, i), AfterFree(c, Freed(p, i), i))
  }

  lemma {:induction false} CreateBalances(p: seq<Source>, c: Client, s: Source)
    requires Balanced(p, c) && s.lower.None? && s.opens == 0 && s.refs == 1 && s.live && s.calls == []
    ensures Balanced(p + [s], Client(c.direct + [0], c.owned + [1]))
  {
    var q := p + [s];
    assert q[..|p|] == p;
    forall l | 0 <= l < |q| ensures Held(q, l) == Held(p, l) && Uppers(q, l) == Uppers(p, l) {}
    NobodyHolds(p, |p|);
  }

  lemma {:induction false} NobodyHolds(p: seq<Source>, l: nat)
    requires forall j :: 0 <= j < |p| && p[j].lower.Some? ==> p[j].lower.value < l
    ensures Held(p, l) == 0 && Uppers(p, l) == 0
  {
    if p != [] {
      NobodyHolds(p[..|p| - 1], l);
    }
  }

  lemma {:induction false} LayerBalances(p: seq<Source>, c: Client, on: nat, s: Source)
    requires Balanced(p, c) && on < |p| && p[on].live
    requires s.lower == Some(on) && s.opens == 0 && s.refs == 1 && s.live && s.calls == []
    ensures Balanced(p[on := p[on].(refs := p[on].refs + 1)] + [s], Client(c.direct + [0], c.owned + [1]))
  {
    var r := p[on := p[on].(refs := p[on].refs + 1)];
    var q := r + [s];
    assert q[..|p|] == r;
    SetOpensSame(p, on, r[on], c.direct);
    forall l | 0 <= l < |q| ensures Held(q, l) == Held(r, l) {}
    forall l | 0 <= l < |q| ensures Uppers(q, l) == Uppers(p, l) + if l == on then 1 else 0 {
      UppersUpdate(p, on, r[on], l);
    }
    NobodyHolds(r, |p|);
    NobodyHolds(p, |p|);
  }

  /** Every use keeps the accounts, and with them the alternation of callbacks. */
  lemma {:induction false} StepBalances(p: seq<Source>, c: Client, use: Use)
    requires Balanced(p, c) && Allowed(c, use)
    ensures var (q, d) := Step(p, c, use); Balanced(q, d)
  {
    hide Held, Uppers, Opened, Closed, Freed, AfterFree;
    match use {
      case Create(seekable) =>
        CreateBalances(p, c, Source(None, seekable, false, 0, 1, true, []));
      case Layer(on, seekable) =>
        LayerBalances(p, c, on, Source(Some(on), seekable, false, 0, 1, true, []));
      case Keep(i) =>
        DropRef(p, i, p[i].(refs := p[i].refs + 1), c.owned, c.owned[i := c.owned[i] + 1]);
        SetOpensSame(p, i, p[i].(refs := p[i].refs + 1), c.direct);
      case Open(i, fails) =>
        BalancedLives(p, c);
        OpenBalances(p, i, fails, c.direct);
        RefsStay(p, Opened(p, i, fails).0, c.owned);
      case Close(i) =>
        CloseBalances(p, i, c.direct);
        RefsStay(p, Closed(p, i).0, c.owned);
      case Free(i) =>
        FreeBalances(p, i, c);
    }
  }

  lemma {:induction false} RefsStay(p: seq<Source>, q: seq<Source>, owned: seq<nat>)
    requires RefsBalanced(p, owned) && |p| == |q| && forall j :: 0 <= j < |p| ==> SameButOpens(p[j], q[j])
    ensures RefsBalanced(q, owned)
  {
    forall l | 0 <= l < |p| ensures Uppers(q, l) == Uppers(p, l) {
      UppersSame(p, q, l);
    }
  }

  /** The state after a run, if every use in it was allowed. */
  function Run(uses: seq<Use>): (r: Option<(seq<Source>, Client)>)
    ensures r.Some? ==> Layered(r.value.0) && |r.value.1.direct| == |r.value.1.owned| == |r.value.0|
    decreases |uses|
  {
    if uses == [] then Some(([], Client([], [])))
    else
      var before := Run(uses[..|uses| - 1]);
      if before.Some? && Allowed(before.value.1, uses[|uses| - 1])
      then Some(Step(before.value.0, before.value.1, uses[|uses| - 1])) else None
  }

  /** Over any stack of sources and any run of opens, failing ones included, closes and frees: a
      layered source holds exactly one open on its lower source while it is open and none otherwise,
      and the OPEN and CLOSE callbacks of every source alternate. */
  lemma {:induction false} RunBalances(uses: seq<Use>)
    requires Run(uses).Some?
    ensures var (p, c) := Run(uses).value; Balanced(p, c)
    decreases |uses|
  {
    hide Step, Allowed, Balanced;
    if uses != [] {
      var before := Run(uses[..|uses| - 1]);
      RunBalances(uses[..|uses| - 1]);
      StepBalances(before.value.0, before.value.1, uses[|uses| - 1]);
    } else {
      EmptyBalances();
    }
  }

  lemma {:induction false} EmptyBalances()
    ensures Balanced([], Client([], []))
  {}

  /** When clients have closed everything nothing is open, and when they have let go of everything
      nothing is left. */
  lemma {:induction false} NothingLeft(p: seq<Source>, c: Client, l: nat)
    requires Balanced(p, c) && l <= |p|
    ensures (forall j :: 0 <= j < |p| ==> c.direct[j] == 0) ==> forall j :: l <= j < |p| ==> p[j].opens == 0
    ensures (forall j :: 0 <= j < |p| ==> c.owned[j] == 0) ==> forall j :: l <= j < |p| ==> !p[j].live
    decreases |p| - l
  {
    if l < |p| {
      NothingLeft(p, c, l + 1);
      if forall j :: 0 <= j < |p| ==> c.direct[j] == 0 {
        NoneOpen(p, l);
      }
      if forall j :: 0 <= j < |p| ==> c.owned[j] == 0 {
        NoneLive(p, l);
      }
    }
  }

  lemma {:induction false} NoneOpen(p: seq<Source>, l: nat)
    requires forall j :: 0 <= j < |p| ==> !HoldsOpen(p[j], l)
    ensures Held(p, l) == 0
  {
    if p != [] {
      NoneOpen(p[..|p| - 1], l);
    }
  }

  lemma {:induction false} NoneLive(p: seq<Source>, l: nat)
    requires forall j :: 0 <= j < |p| ==> !HoldsRef(p[j], l)
    ensures Uppers(p, l) == 0
  {
    if p != [] {
      NoneLive(p[..|p| - 1], l);
    }
  }

  /** Closing an open source leaves accounts that can balance if and only if a client had it open. */
  lemma {:induction false} CloseOnlyOwn(p: seq<Source>, i: nat, c: Client)
    requires Balanced(p, c) && i < |p| && p[i].opens > 0
    ensures (exists direct :: OpensBalanced(Closed(p, i).0, direct)) <==> c.direct[i] > 0
  {
    hide Held;
    if c.direct[i] > 0 {
      CloseBalances(p, i, c.direct);
      assert OpensBalanced(Closed(p, i).0, c.direct[i := c.direct[i] - 1]);
    } else {
      var q := Closed(p, i).0;
      ClosedCount(p, i);
      HeldByOthers(p, q, i);
      assert p[i].opens == c.direct[i] + Held(p, i);
      forall direct ensures !OpensBalanced(q, direct) {
        assert |direct| == |q| ==> q[i].opens < direct[i] + Held(q, i);
      }
    }
  }

  lemma {:induction false} TwoHeld(a: Source, b: Source, l: nat)
    ensures Held([a, b], l) == (if HoldsOpen(a, l) then 1 else 0) + (if HoldsOpen(b, l) then 1 else 0)
    ensures Uppers([a, b], l) == (if HoldsRef(a, l) then 1 else 0) + (if HoldsRef(b, l) then 1 else 0)
  {
    assert [a, b][..1] == [a] && [a][..0] == [];
    assert Held([a], l) == Held([], l) + (if HoldsOpen(a, l) then 1 else 0);
    assert Uppers([a], l) == Uppers([], l) + (if HoldsRef(a, l) then 1 else 0);
  }

  /** A source under an open one, closed by a client that had not opened it, is gone from under it. */
  lemma {:induction false} ForeignClose()
    ensures exists p: seq<Source>, c: Client :: Balanced(p, c) && |p| == 2 && c.direct == [0, 1] && ClosedUnder(p, c)
  {
    var p := [Source(None, true, false, 1, 1, true, [true]), Source(Some(0), true, false, 1, 1, true, [true])];
    var c := Client([0, 1], [0, 1]);
    TwoHeld(p[0], p[1], 0);
    TwoHeld(p[0], p[1], 1);
    assert Balanced(p, c);
    CloseOnlyOwn(p, 0, c);
    assert ClosedUnder(p, c);
  }

  /** Closing source 0 leaves source 1 open on a closed one, and accounts that cannot balance. */
  ghost predicate ClosedUnder(p: seq<Source>, c: Client)
    requires Balanced(p, c) && |p| == 2
  {
    var q := Closed(p, 0).0;
    p[1].lower == Some(0) && q[0].opens == 0 && q[1].opens == 1 && !exists direct :: OpensBalanced(q, direct)
  }

  lemma {:induction false} ClosedCount(p: seq<Source>, i: nat)
    requires Layered(p) && i < |p| && p[i].opens > 0
    ensures Closed(p, i).0[i].opens == p[i].opens - 1
  {
    if p[i].opens == 1 && p[i].lower.Some? {
      var q := p[i := p[i].(opens := 0, calls := p[i].calls + [false])];
      assert Closed(q, p[i].lower.value).0[i] == q[i];
    }
  }

  lemma {:induction false} HeldByOthers(p: seq<Source>, q: seq<Source>, i: nat)
    requires Layered(p) && |q| == |p| && i < |p| && forall j :: i < j < |p| ==> q[j] == p[j]
    requires forall j :: 0 <= j < |p| ==> SameButOpens(p[j], q[j])
    ensures Held(q, i) == Held(p, i)
  {
    HeldSame(p, q, i);
  }

  class Pool {
    var sources: seq<Source>

    constructor ()
      ensures sources == []
    {
      sources := [];
    }

    /** `zip_source_open`. */
    method Open(i: nat, fails: nat -> bool) returns (ok: bool)
      requires Layered(sources) && i < |sources|
      modifies this
      ensures (sources, ok) == Opened(old(sources), i, fails)
      decreases i
    {
      if sources[i].removed {
        return false;
      }
      if sources[i].opens > 0 {
        if !sources[i].seekable {
          return false;
        }
      } else {
        var lower := sources[i].lower;
        if lower.Some? {
          ok := Open(lower.value, fails);
          if !ok {
            return;
          }
        }
        if fails(i) {
          if lower.Some? {
            var _ := Close(lower.value);
          }
          return false;
        }
        ghost var q := sources;
        sources := sources[i := sources[i].(calls := sources[i].calls + [true])];
        assert sources[i := sources[i].(opens := 1)] == q[i := q[i].(opens := 1, calls := q[i].calls + [true])];
      }
      sources := sources[i := sources[i].(opens := sources[i].opens + 1)];
      return true;
    }

    /** `zip_source_close`. */
    method Close(i: nat) returns (ok: bool)
      requires Layered(sources) && i < |sources|
      modifies this
      ensures (sources, ok) == Closed(old(sources), i)
      decreases i
    {
      if sources[i].opens == 0 {
        return false;
      }
      sources := sources[i := sources[i].(opens := sources[i].opens - 1)];
      if sources[i].opens == 0 {
        sources := sources[i := sources[i].(calls := sources[i].calls + [false])];
        assert sources == old(sources)[i := old(sources)[i].(opens := 0, calls := sources[i].calls)];
        if sources[i].lower.Some? {
          var _ := Close(sources[i].lower.value);
        }
      }
      return true;
    }

    /** `zip_source_free`. */
    method Free(i: nat)
      requires Layered(sources) && i < |sources|
      modifies this
      ensures sources == Freed(old(sources), i)
      decreases i
    {
      hide Closed;
      if sources[i].refs > 0 {
        sources := sources[i := sources[i].(refs := sources[i].refs - 1)];
      }
      assert sources == old(sources)[i := old(sources)[i].(refs := sources[i].refs)];
      if sources[i].refs > 0 {
        return;
      }
      if sources[i].opens > 0 {
        sources := sources[i := sources[i].(opens := 1)];
        var _ := Close(i);
      }
      sources := sources[i := sources[i].(live := false)];
      if sources[i].lower.Some? {
        Free(sources[i].lower.value);
      }
    }
  }
}
