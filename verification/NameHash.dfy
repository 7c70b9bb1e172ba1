/**
 The hash table behind name lookup (zip_hash.c): chains of entries, each with an original and a
 current index, as a finite map from names to those two views.
 */
module NameHash {
  import opened Bytes
  import opened ZipBuffer
  import opened Output

  const HASH_MULTIPLIER: nat := 33
  const HASH_START: nat := 5381
  const HASH_MIN_SIZE: nat := 256
  const HASH_MAX_SIZE: nat := 0x8000_0000

  /** A C string. */
  type Name = n: seq<byte> | 0 !in n witness []

  /** The index a name had when the archive was opened, and the one it has now. */
  datatype Views = Views(orig: Option<nat>, current: Option<nat>)

  type Index = map<Name, Views>

  datatype HashEntry = HashEntry(name: Name, views: Views, hash: nat)

  function Hash(name: seq<byte>): nat {
    if name == [] then HASH_START
    else (Hash(name[..|name| - 1]) * HASH_MULTIPLIER + name[|name| - 1] as nat) % 0x1_0000_0000
  }

  // ----- What the operations mean -----

  function Added(m: Index, name: Name, index: nat, original: bool): Result<Index> {
    if index > INT64_MAX then Err(Invalid)
    else if name in m && ((original && m[name].orig.Some?) || m[name].current.Some?) then Err(Exists)
    else
      var orig := if original then Some(index) else if name in m then m[name].orig else None;
      Ok(m[name := Views(orig, Some(index))])
  }

  function Dropped(m: Index, name: Name): Result<Index> {
    if name !in m then Err(NoEntry)
    else if m[name].orig.None? then Ok(m - {name})
    else Ok(m[name := Views(m[name].orig, None)])
  }

  function Found(m: Index, name: Name, original: bool): Option<nat> {
    if name !in m then None else if original then m[name].orig else m[name].current
  }

  function Reverted(m: Index): Index {
    map name | name in m && m[name].orig.Some? :: Views(m[name].orig, m[name].orig)
  }

  /** No name is kept that neither view knows. */
  predicate Meaningful(m: Index) {
    forall name :: name in m ==> m[name].orig.Some? || m[name].current.Some?
  }

  datatype HashOp = Add(name: Name, index: nat) | Delete(name: Name) | Revert

  function Applied(m: Index, op: HashOp): Index {
    match op
    case Add(name, index) => if Added(m, name, index, false).Ok? then Added(m, name, index, false).value else m
    case Delete(name) => if Dropped(m, name).Ok? then Dropped(m, name).value else m
    case Revert => Reverted(m)
  }

  function Run(m: Index, ops: seq<HashOp>): Index
    decreases |ops|
  {
    if ops == [] then m else Applied(Run(m, ops[..|ops| - 1]), ops[|ops| - 1])
  }

  lemma {:induction false} OriginalStays(m: Index, ops: seq<HashOp>, name: Name)
    ensures Found(Run(m, ops), name, true) == Found(m, name, true)
    decreases |ops|
  {
    if ops != [] {
      OriginalStays(m, ops[..|ops| - 1], name);
    }
  }

  /** Whatever edits were made, reverting brings back the original view, for every name. */
  lemma {:induction false} RevertRestores(m: Index, ops: seq<HashOp>, name: Name)
    ensures Found(Reverted(Run(m, ops)), name, false) == Found(m, name, true)
    ensures Found(Reverted(Run(m, ops)), name, true) == Found(m, name, true)
  {
    OriginalStays(m, ops, name);
  }

  // ----- Sizes -----

  function Pow2(k: nat): (p: nat)
    ensures p > 0
  {
    if k == 0 then 1 else 2 * Pow2(k - 1)
  }

  predicate IsPowerOfTwo(n: nat) {
    exists k :: 0 <= k <= 31 && n == Pow2(k)
  }

  /** The table is empty, or a power of two and at most three quarters full, unless it cannot grow. */
  predicate Sized(entries: nat, size: nat) {
    if size == 0 then entries == 0
    else IsPowerOfTwo(size) && size <= HASH_MAX_SIZE && (4 * entries <= 3 * size || size == HASH_MAX_SIZE)
  }

  lemma {:induction false} Pow2Monotonic(j: nat, k: nat)
    requires j <= k
    ensures Pow2(j) <= Pow2(k)
    decreases k
  {
    if j < k {
      Pow2Monotonic(j, k - 1);
    }
  }

  lemma {:induction false} Pow2Values()
    ensures Pow2(8) == 256 && Pow2(31) == 0x8000_0000 && Pow2(32) == 0x1_0000_0000
  {
    assert Pow2(4) == 16;
    assert Pow2(16) == 65536 by {
      assert Pow2(12) == 4096;
    }
    assert Pow2(24) == 0x100_0000 by {
      assert Pow2(20) == 0x10_0000;
    }
    assert Pow2(28) == 0x1000_0000;
  }

  lemma {:induction false} Pow2Next(k: nat)
    ensures Pow2(k + 1) == 2 * Pow2(k)
  {}

  lemma {:induction false} Power(k: nat)
    requires k <= 31
    ensures IsPowerOfTwo(Pow2(k))
  {}

  /** Doubling and halving stay within the powers of two. */
  lemma {:induction false} Neighbours(size: nat)
    requires IsPowerOfTwo(size)
    ensures size < HASH_MAX_SIZE ==> IsPowerOfTwo(size * 2) && size * 2 <= HASH_MAX_SIZE
    ensures size > HASH_MIN_SIZE ==> size % 2 == 0 && IsPowerOfTwo(size / 2) && size / 2 >= HASH_MIN_SIZE
    ensures 0 < size <= HASH_MAX_SIZE
  {
    hide Pow2, IsPowerOfTwo;
    Pow2Values();
    var k := Exponent(size);
    Pow2Monotonic(k, 31);
    if size < HASH_MAX_SIZE {
      Pow2Next(k);
      Power(k + 1);
      Pow2Monotonic(k + 1, 31);
    }
    if size > HASH_MIN_SIZE {
      if k <= 8 {
        Pow2Monotonic(k, 8);
      }
      Pow2Next(k - 1);
      Power(k - 1);
      Pow2Monotonic(8, k - 1);
    }
  }

  // ----- Rounding up to a power of two, bit by bit -----

  function Shr(u: nat, w: nat): nat
    decreases w
  {
    if w == 0 then u else Shr(u / 2, w - 1)
  }

  predicate BitAt(u: nat, i: nat) {
    Shr(u, i) % 2 == 1
  }

  /** The bitwise or of two numbers. */
  function Or(a: nat, b: nat): nat
    decreases a + b
  {
    if a == 0 && b == 0 then 0
    else (if a % 2 == 1 || b % 2 == 1 then 1 else 0) + 2 * Or(a / 2, b / 2)
  }

  lemma {:induction false} OrHalf(a: nat, b: nat)
    ensures Or(a, b) / 2 == Or(a / 2, b / 2) && (Or(a, b) % 2 == 1 <==> a % 2 == 1 || b % 2 == 1)
  {
    assert a == 0 && b == 0 ==> Or(a / 2, b / 2) == 0;
  }

  lemma {:induction false} BitHalf(x: nat, i: nat)
    ensures BitAt(x, i) == if i == 0 then x % 2 == 1 else BitAt(x / 2, i - 1)
  {}

  lemma {:induction false} OrBits(a: nat, b: nat, i: nat)
    ensures BitAt(Or(a, b), i) <==> BitAt(a, i) || BitAt(b, i)
    decreases i
  {
    hide Or, BitAt;
    OrHalf(a, b);
    BitHalf(a, i);
    BitHalf(b, i);
    BitHalf(Or(a, b), i);
    if i > 0 {
      OrBits(a / 2, b / 2, i - 1);
    }
  }

  lemma {:induction false} ShrBits(u: nat, w: nat, i: nat)
    ensures BitAt(Shr(u, w), i) == BitAt(u, w + i)
    decreases w
  {
    if w > 0 {
      ShrBits(u / 2, w - 1, i);
    }
  }

  /** The number of binary digits. */
  function Digits(u: nat): nat {
    if u == 0 then 0 else 1 + Digits(u / 2)
  }

  lemma {:induction false} DigitsAre(u: nat)
    ensures u < Pow2(Digits(u)) && (u > 0 ==> Pow2(Digits(u) - 1) <= u && BitAt(u, Digits(u) - 1))
  {
    if u > 0 {
      DigitsAre(u / 2);
    }
  }

  lemma {:induction false} NoBitsAbove(u: nat, i: nat)
    requires i >= Digits(u)
    ensures !BitAt(u, i)
    decreases i
  {
    if i > 0 {
      NoBitsAbove(u / 2, i - 1);
    }
  }

  /** Of the `t` digits of `u`, the top `w` are ones. */
  ghost predicate Smeared(u: nat, t: nat, w: nat) {
    && (forall i: nat :: i >= t ==> !BitAt(u, i))
    && (forall i: nat :: t - w <= i < t ==> BitAt(u, i))
  }

  /** Or-ing a number with itself shifted by `w` doubles the ones. */
  lemma {:induction false} SmearStep(u: nat, t: nat, w: nat)
    requires Smeared(u, t, w)
    ensures Smeared(Or(u, Shr(u, w)), t, 2 * w)
  {
    hide BitAt, Shr, Or;
    var v := Or(u, Shr(u, w));
    forall i: nat | i >= t ensures !BitAt(v, i) {
      OrBits(u, Shr(u, w), i);
      ShrBits(u, w, i);
    }
    forall i: nat | t - 2 * w <= i < t ensures BitAt(v, i) {
      OrBits(u, Shr(u, w), i);
      ShrBits(u, w, i);
      assert BitAt(u, i) || BitAt(u, w + i);
    }
  }

  lemma {:induction false} AllOnes(u: nat, t: nat)
    requires Smeared(u, t, t)
    ensures u + 1 == Pow2(t)
    decreases t, u
  {
    assert BitAt(u, 0) == (u % 2 == 1);
    forall i: nat ensures BitAt(u / 2, i) == BitAt(u, i + 1) {
      ShrBits(u, 1, i);
    }
    if t > 0 {
      assert Smeared(u / 2, t - 1, t - 1);
      AllOnes(u / 2, t - 1);
    } else if u > 0 {
      assert BitAt(u, Digits(u) - 1) by {
        DigitsAre(u);
      }
    }
  }

  /** What the requested capacity needs at a fill of three quarters. */
  function Needed(capacity: nat): nat {
    if 4 * capacity / 3 > UINT32_MAX then UINT32_MAX else 4 * capacity / 3
  }

  /** `size_for_capacity`: the least power of two that is enough, or the largest there is. */
  method SizeForCapacity(capacity: nat) returns (v: nat)
    requires capacity > 0
    ensures IsPowerOfTwo(v) && v <= HASH_MAX_SIZE
    ensures if Needed(capacity) > HASH_MAX_SIZE then v == HASH_MAX_SIZE
      else v >= Needed(capacity) && forall p: nat :: IsPowerOfTwo(p) && p >= Needed(capacity) ==> p >= v
  {
    Pow2Values();
    Power(31);
    v := Needed(capacity);
    if v > HASH_MAX_SIZE {
      return HASH_MAX_SIZE;
    }
    ghost var u, t := v - 1, Digits(v - 1);
    v := v - 1;
    SmearedAtFirst(v);
    SmearStep(v, t, 1);
    v := Or(v, Shr(v, 1));
    SmearStep(v, t, 2);
    v := Or(v, Shr(v, 2));
    SmearStep(v, t, 4);
    v := Or(v, Shr(v, 4));
    SmearStep(v, t, 8);
    v := Or(v, Shr(v, 8));
    SmearStep(v, t, 16);
    v := Or(v, Shr(v, 16));
    RoundedUp(u, v);
    v := v + 1;
  }

  lemma {:induction false} SmearedAtFirst(u: nat)
    ensures Smeared(u, Digits(u), 1)
  {
    DigitsAre(u);
    forall i: nat | i >= Digits(u) ensures !BitAt(u, i) {
      NoBitsAbove(u, i);
    }
  }

  lemma {:induction false} RoundedUp(u: nat, v: nat)
    requires u < HASH_MAX_SIZE && Smeared(v, Digits(u), 32)
    ensures IsPowerOfTwo(v + 1) && u < v + 1 <= HASH_MAX_SIZE
    ensures forall p: nat :: IsPowerOfTwo(p) && p > u ==> p >= v + 1
  {
    var t := Digits(u);
    DigitsAre(u);
    assert t > 0 ==> u > 0;
    Pow2Values();
    hide Pow2, BitAt, IsPowerOfTwo, Digits;
    if t > 31 {
      Pow2Monotonic(31, t - 1);
    }
    AllOnes(v, t);
    Power(t);
    Pow2Monotonic(t, 31);
    forall p: nat | IsPowerOfTwo(p) && p > u ensures p >= v + 1 {
      var k := Exponent(p);
      if k < t {
        Pow2Monotonic(k, t - 1);
        assert false;
      }
      Pow2Monotonic(t, k);
    }
  }

  lemma {:induction false} Exponent(p: nat) returns (k: nat)
    requires IsPowerOfTwo(p)
    ensures k <= 31 && p == Pow2(k)
  {
    k :| 0 <= k <= 31 && p == Pow2(k);
  }

  // ----- Chains -----

  ghost predicate Holds(chain: seq<HashEntry>, name: Name) {
    exists k :: 0 <= k < |chain| && chain[k].name == name
  }

  function Bucket(name: Name, size: nat): (b: nat)
    requires size > 0
    ensures b < size
  {
    Hash(name) % size
  }

  /** A chain has no name twice, and all its entries belong where they are and say what the map says. */
  ghost predicate ChainOk(chain: seq<HashEntry>, b: nat, size: nat, m: Index)
    requires size > 0
  {
    && (forall k :: 0 <= k < |chain| ==> EntryOk(chain[k], b, size, m))
    && (forall j, k :: 0 <= j < k < |chain| ==> chain[j].name != chain[k].name)
  }

  predicate EntryOk(e: HashEntry, b: nat, size: nat, m: Index)
    requires size > 0
  {
    e.name in m && m[e.name] == e.views && e.hash == Hash(e.name) && Bucket(e.name, size) == b
  }

  /** The chains partition the map by hash modulo the size of the table. */
  ghost predicate Chains(table: seq<seq<HashEntry>>, m: Index) {
    if table == [] then m == map[]
    else
      && (forall b :: 0 <= b < |table| ==> ChainOk(table[b], b, |table|, m))
      && (forall name :: name in m ==> Holds(table[Bucket(name, |table|)], name))
  }

  function Total(table: seq<seq<HashEntry>>): nat {
    if table == [] then 0 else Total(table[..|table| - 1]) + |table[|table| - 1]|
  }

  lemma {:induction false} TotalUpdate(table: seq<seq<HashEntry>>, b: nat, chain: seq<HashEntry>)
    requires b < |table|
    ensures Total(table[b := chain]) == Total(table) - |table[b]| + |chain|
  {
    var n := |table| - 1;
    if b < n {
      TotalUpdate(table[..n], b, chain);
      assert table[b := chain][..n] == table[..n][b := chain];
    } else {
      assert table[b := chain][..n] == table[..n];
    }
  }

  ghost function Names(chain: seq<HashEntry>): set<Name> {
    set k | 0 <= k < |chain| :: chain[k].name
  }

  lemma {:induction false} NamesCount(chain: seq<HashEntry>)
    requires forall j, k :: 0 <= j < k < |chain| ==> chain[j].name != chain[k].name
    ensures |Names(chain)| == |chain|
  {
    if chain != [] {
      var n := |chain| - 1;
      NamesCount(chain[..n]);
      assert Names(chain) == Names(chain[..n]) + {chain[n].name};
      assert chain[n].name !in Names(chain[..n]);
    }
  }

  ghost function AllNames(table: seq<seq<HashEntry>>, n: nat): set<Name>
    requires n <= |table|
  {
    if n == 0 then {} else AllNames(table, n - 1) + Names(table[n - 1])
  }

  lemma {:induction false} AllNamesCount(table: seq<seq<HashEntry>>, n: nat, m: Index)
    requires n <= |table| && table != [] && Chains(table, m)
    ensures |AllNames(table, n)| == Total(table[..n])
    ensures forall name :: name in AllNames(table, n) <==> name in m && Bucket(name, |table|) < n
  {
    hide Hash, Bucket;
    if n > 0 {
      AllNamesCount(table, n - 1, m);
      assert table[..n][..n - 1] == table[..n - 1];
      NamesAre(table, n - 1, m);
      assert AllNames(table, n - 1) !! Names(table[n - 1]);
    }
  }

  lemma {:induction false} NamesAre(table: seq<seq<HashEntry>>, b: nat, m: Index)
    requires b < |table| && Chains(table, m)
    ensures |Names(table[b])| == |table[b]|
    ensures forall name :: name in Names(table[b]) <==> name in m && Bucket(name, |table|) == b
  {
    hide Hash, Bucket;
    assert ChainOk(table[b], b, |table|, m);
    NamesCount(table[b]);
    forall name ensures name in Names(table[b]) <==> name in m && Bucket(name, |table|) == b {
      if name in m && Bucket(name, |table|) == b {
        assert Holds(table[b], name);
      }
      if name in Names(table[b]) {
        var k :| 0 <= k < |table[b]| && table[b][k].name == name;
        assert EntryOk(table[b][k], b, |table|, m);
      }
    }
  }

  /** The chains hold as many entries as the map has names. */
  lemma {:induction false} ChainsCount(table: seq<seq<HashEntry>>, m: Index)
    requires Chains(table, m)
    ensures |m| == Total(table)
  {
    if table != [] {
      AllNamesCount(table, |table|, m);
      assert table[..|table|] == table;
      assert m.Keys == AllNames(table, |table|);
    }
  }

  /** A new entry in front of its chain. */
  lemma {:induction false} Prepended(table: seq<seq<HashEntry>>, m: Index, e: HashEntry)
    requires table != [] && Chains(table, m) && e.name !in m && e.hash == Hash(e.name)
    ensures var b := Bucket(e.name, |table|); Chains(table[b := [e] + table[b]], m[e.name := e.views])
  {
    hide Hash, Bucket;
    var b := Bucket(e.name, |table|);
    var moved, n := table[b := [e] + table[b]], m[e.name := e.views];
    forall c | 0 <= c < |table| ensures ChainOk(moved[c], c, |table|, n) {
      assert ChainOk(table[c], c, |table|, m);
      forall k | 0 <= k < |table[c]| ensures EntryOk(table[c][k], c, |table|, n) {
        assert EntryOk(table[c][k], c, |table|, m);
      }
      if c == b {
        assert forall k :: 1 <= k < |moved[b]| ==> moved[b][k] == table[b][k - 1];
      }
    }
    forall name | name in n ensures Holds(moved[Bucket(name, |table|)], name) {
      var c := Bucket(name, |table|);
      if name == e.name {
        assert moved[b][0].name == name;
      } else {
        var k :| 0 <= k < |table[c]| && table[c][k].name == name;
        assert c == b ==> moved[b][k + 1].name == name;
      }
    }
  }

  /** New views for the entry at place `k` of chain `b`. */
  lemma {:induction false} Replaced(table: seq<seq<HashEntry>>, m: Index, b: nat, k: nat, views: Views)
    requires b < |table| && Chains(table, m) && k < |table[b]|
    ensures var e := table[b][k];
      e.name in m && Chains(table[b := table[b][k := e.(views := views)]], m[e.name := views])
  {
    hide Hash, Bucket;
    var e := table[b][k];
    assert ChainOk(table[b], b, |table|, m) && EntryOk(e, b, |table|, m);
    var moved, n := table[b := table[b][k := e.(views := views)]], m[e.name := views];
    forall c | 0 <= c < |table| ensures ChainOk(moved[c], c, |table|, n) {
      assert ChainOk(table[c], c, |table|, m);
      forall j | 0 <= j < |table[c]| ensures EntryOk(moved[c][j], c, |table|, n) {
        assert EntryOk(table[c][j], c, |table|, m);
      }
    }
    forall name | name in n ensures Holds(moved[Bucket(name, |table|)], name) {
      var c := Bucket(name, |table|);
      var j :| 0 <= j < |table[c]| && table[c][j].name == name;
      assert moved[c][j].name == name;
    }
  }

  /** The entry at place `k` of chain `b` taken out. */
  lemma {:induction false} Unlinked(table: seq<seq<HashEntry>>, m: Index, b: nat, k: nat)
    requires b < |table| && Chains(table, m) && k < |table[b]|
    ensures var e := table[b][k];
      e.name in m && Chains(table[b := table[b][..k] + table[b][k + 1..]], m - {e.name})
  {
    hide Hash, Bucket;
    var e, chain := table[b][k], table[b][..k] + table[b][k + 1..];
    assert ChainOk(table[b], b, |table|, m) && EntryOk(e, b, |table|, m);
    var moved, n := table[b := chain], m - {e.name};
    forall c | 0 <= c < |table| ensures ChainOk(moved[c], c, |table|, n) {
      assert ChainOk(table[c], c, |table|, m);
      forall j | 0 <= j < |table[c]| && !(c == b && j == k) ensures EntryOk(table[c][j], c, |table|, n) {
        assert EntryOk(table[c][j], c, |table|, m);
      }
      if c == b {
        assert forall j :: 0 <= j < |chain| ==> chain[j] == table[b][if j < k then j else j + 1];
      }
    }
    forall name | name in n ensures Holds(moved[Bucket(name, |table|)], name) {
      var c := Bucket(name, |table|);
      var j :| 0 <= j < |table[c]| && table[c][j].name == name;
      if c == b {
        assert chain[if j < k then j else j - 1].name == name;
      } else {
        assert moved[c][j].name == name;
      }
    }
  }

  /** A name is in the map exactly if its chain has it. */
  lemma {:induction false} NotInChain(table: seq<seq<HashEntry>>, m: Index, name: Name)
    requires table != [] && Chains(table, m) && !Holds(table[Bucket(name, |table|)], name)
    ensures name !in m
  {}

  lemma {:induction false} InChain(table: seq<seq<HashEntry>>, m: Index, b: nat, k: nat)
    requires b < |table| && Chains(table, m) && k < |table[b]|
    ensures var e := table[b][k]; e.name in m && m[e.name] == e.views && e.hash == Hash(e.name) && Bucket(e.name, |table|) == b
  {
    assert ChainOk(table[b], b, |table|, m) && EntryOk(table[b][k], b, |table|, m);
  }

  // ----- Rehashing -----

  ghost predicate Passed(name: Name, table: seq<seq<HashEntry>>, i: nat, j: nat)
    requires table != []
  {
    var b := Bucket(name, |table|);
    b < i || (b == i && i < |table| && j <= |table[i]| && Holds(table[i][..j], name))
  }

  /** Everything before entry `j` of chain `i` has been moved. */
  ghost predicate Moved(done: Index, m: Index, table: seq<seq<HashEntry>>, i: nat, j: nat)
    requires table != []
  {
    && (forall name :: name in done ==> name in m && done[name] == m[name])
    && (forall name :: name in m ==> (name in done <==> Passed(name, table, i, j)))
  }

  lemma {:induction false} MovedOne(done: Index, m: Index, table: seq<seq<HashEntry>>, i: nat, j: nat)
    requires i < |table| && j < |table[i]| && Chains(table, m) && Moved(done, m, table, i, j)
    ensures var e := table[i][j];
      e.name !in done && e.hash == Hash(e.name) && Moved(done[e.name := e.views], m, table, i, j + 1)
  {
    hide Hash, Bucket;
    var e, c := table[i][j], table[i];
    InChain(table, m, i, j);
    assert ChainOk(c, i, |table|, m);
    assert !Holds(c[..j], e.name);
    forall name | name in m && name != e.name ensures Passed(name, table, i, j + 1) <==> Passed(name, table, i, j) {
      HoldsMore(c, j, name);
    }
    assert c[..j + 1][j].name == e.name;
  }

  lemma {:induction false} HoldsMore(c: seq<HashEntry>, j: nat, name: Name)
    requires j < |c|
    ensures Holds(c[..j + 1], name) <==> Holds(c[..j], name) || c[j].name == name
  {
    var d, e := c[..j], c[..j + 1];
    if k :| 0 <= k < |d| && d[k].name == name {
      assert e[k].name == name;
    }
    if k :| 0 <= k < |e| && e[k].name == name {
      assert k < j ==> d[k].name == name;
    }
    assert e[j] == c[j];
  }

  lemma {:induction false} MovedChain(done: Index, m: Index, table: seq<seq<HashEntry>>, i: nat)
    requires i < |table| && Chains(table, m) && Moved(done, m, table, i, |table[i]|)
    ensures Moved(done, m, table, i + 1, 0)
  {
    hide Hash, Bucket;
    assert table[i][..|table[i]|] == table[i];
    forall name | name in m ensures Passed(name, table, i + 1, 0) <==> Passed(name, table, i, |table[i]|) {
      assert i + 1 < |table| ==> !Holds(table[i + 1][..0], name);
    }
  }

  lemma {:induction false} MovedNothing(m: Index, table: seq<seq<HashEntry>>)
    requires table != []
    ensures Moved(map[], m, table, 0, 0)
  {}

  lemma {:induction false} MovedAll(done: Index, m: Index, table: seq<seq<HashEntry>>)
    requires table != [] && Moved(done, m, table, |table|, 0)
    ensures done == m
  {
    hide Hash;
    assert forall name :: name in m ==> Passed(name, table, |table|, 0);
  }

  lemma {:induction false} EmptyChains(table: seq<seq<HashEntry>>)
    requires table != [] && forall b :: 0 <= b < |table| ==> table[b] == []
    ensures Chains(table, map[])
  {}

  // ----- Reverting -----

  function RevertedChain(chain: seq<HashEntry>): seq<HashEntry> {
    if chain == [] then []
    else
      var e := chain[|chain| - 1];
      RevertedChain(chain[..|chain| - 1])
      + if e.views.orig.None? then [] else [e.(views := Views(e.views.orig, e.views.orig))]
  }

  /** The table with its first `n` chains reverted. */
  function RevertedTable(table: seq<seq<HashEntry>>, n: nat): (r: seq<seq<HashEntry>>)
    ensures |r| == |table|
  {
    seq(|table|, b requires 0 <= b < |table| => if b < n then RevertedChain(table[b]) else table[b])
  }

  predicate IsReverted(e: HashEntry, f: HashEntry) {
    e.views.orig.Some? && f == e.(views := Views(e.views.orig, e.views.orig))
  }

  ghost predicate FromChain(chain: seq<HashEntry>, f: HashEntry) {
    exists j :: 0 <= j < |chain| && IsReverted(chain[j], f)
  }

  lemma {:induction false} RevertedEntries(chain: seq<HashEntry>)
    ensures var r := RevertedChain(chain);
      && (forall k :: 0 <= k < |r| ==> FromChain(chain, r[k]))
      && (forall j :: 0 <= j < |chain| && chain[j].views.orig.Some? ==> Holds(r, chain[j].name))
  {
    if chain != [] {
      var n := |chain| - 1;
      var s, r := RevertedChain(chain[..n]), RevertedChain(chain);
      RevertedEntries(chain[..n]);
      forall j | 0 <= j < |chain| && chain[j].views.orig.Some? ensures Holds(r, chain[j].name) {
        if j < n {
          assert chain[..n][j] == chain[j];
          var k :| 0 <= k < |s| && s[k].name == chain[j].name;
          assert r[k] == s[k];
        } else {
          assert r[|s|].name == chain[j].name;
        }
      }
      forall k | 0 <= k < |r| ensures FromChain(chain, r[k]) {
        if k < |s| {
          var before := chain[..n];
          var j :| 0 <= j < |before| && IsReverted(before[j], s[k]);
          assert IsReverted(chain[j], r[k]);
        } else {
          assert IsReverted(chain[n], r[k]);
        }
      }
    }
  }

  lemma {:induction false} RevertedDistinct(chain: seq<HashEntry>)
    requires forall j, k :: 0 <= j < k < |chain| ==> chain[j].name != chain[k].name
    ensures var r := RevertedChain(chain); forall j, k :: 0 <= j < k < |r| ==> r[j].name != r[k].name
  {
    if chain != [] {
      var n := |chain| - 1;
      RevertedDistinct(chain[..n]);
      RevertedEntries(chain[..n]);
      var s := RevertedChain(chain[..n]);
      forall k | 0 <= k < |s| ensures s[k].name != chain[n].name {
        var before := chain[..n];
        var j :| 0 <= j < |before| && IsReverted(before[j], s[k]);
        assert chain[j].name == s[k].name;
      }
    }
  }

  lemma {:induction false} RevertedChains(table: seq<seq<HashEntry>>, m: Index)
    requires Chains(table, m)
    ensures Chains(RevertedTable(table, |table|), Reverted(m)) && Meaningful(Reverted(m))
  {
    hide Hash, Bucket, RevertedChain;
    var r, n := RevertedTable(table, |table|), Reverted(m);
    if table != [] {
      forall b | 0 <= b < |table| ensures ChainOk(r[b], b, |r|, n) {
        assert ChainOk(table[b], b, |table|, m);
        RevertedEntries(table[b]);
        RevertedDistinct(table[b]);
        assert r[b] == RevertedChain(table[b]);
        forall k | 0 <= k < |r[b]| ensures EntryOk(r[b][k], b, |r|, n) {
          assert FromChain(table[b], r[b][k]);
          var j :| 0 <= j < |table[b]| && IsReverted(table[b][j], r[b][k]);
          assert EntryOk(table[b][j], b, |table|, m);
        }
      }
      forall name | name in n ensures Holds(r[Bucket(name, |r|)], name) {
        var b := Bucket(name, |r|);
        var j :| 0 <= j < |table[b]| && table[b][j].name == name;
        InChain(table, m, b, j);
        RevertedEntries(table[b]);
      }
    }
  }

  // ----- The table -----

  class Table {
    var table: seq<seq<HashEntry>>
    var nentries: nat
    ghost var views: Index

    ghost predicate Stored()
      reads this
    {
      Chains(table, views) && nentries == Total(table)
    }

    ghost predicate Valid()
      reads this
    {
      Stored() && Sized(nentries, |table|) && Meaningful(views)
    }

    /** `_zip_hash_new`. */
    constructor ()
      ensures Valid() && views == map[]
    {
      table, nentries, views := [], 0, map[];
    }

    /** `hash_string`. */
    static method HashString(name: Name) returns (value: nat)
      ensures value == Hash(name)
    {
      value := HASH_START;
      assert name[..0] == [];
      for i := 0 to |name|
        invariant value == Hash(name[..i])
      {
        assert name[..i + 1][..i] == name[..i];
        value := (value * HASH_MULTIPLIER + name[i] as nat) % 0x1_0000_0000;
      }
      assert name[..|name|] == name;
    }

    /** `hash_resize`: every entry goes to the front of its new chain. */
    method Resize(newSize: nat)
      requires Stored() && newSize > 0
      modifies this`table
      ensures Stored() && |table| == newSize
    {
      hide Chains, Moved, Bucket, Hash, Total;
      if newSize == |table| {
        return;
      }
      var moved := seq(newSize, _ => []);
      ghost var done: Index := map[];
      EmptyChains(moved);
      ChainsCount(table, views);
      if nentries > 0 {
        TotalNone();
        MovedNothing(views, table);
        for i := 0 to |table|
          invariant table == old(table) && |moved| == newSize && Chains(moved, done) && Moved(done, views, table, i, 0)
        {
          moved, done := MoveChain(i, moved, done);
        }
        MovedAll(done, views, table);
      }
      table := moved;
      ChainsCount(table, views);
    }

    method MoveChain(i: nat, before: seq<seq<HashEntry>>, ghost was: Index) returns (moved: seq<seq<HashEntry>>,
        ghost done: Index)
      requires i < |table| && Chains(table, views) && before != [] && Chains(before, was) && Moved(was, views, table, i, 0)
      ensures |moved| == |before| && Chains(moved, done) && Moved(done, views, table, i + 1, 0)
    {
      hide Chains, Moved, Bucket, Hash;
      moved, done := before, was;
      for j := 0 to |table[i]|
        invariant |moved| == |before| && Chains(moved, done) && Moved(done, views, table, i, j)
      {
        var e := table[i][j];
        MovedOne(done, views, table, i, j);
        Prepended(moved, done, e);
        BucketIs(e.name, |moved|);
        var b := e.hash % |moved|;
        moved := moved[b := [e] + moved[b]];
        done := done[e.name := e.views];
      }
      MovedChain(done, views, table, i);
    }

    /** The place of a name in its chain, or the length of the chain. */
    method FindEntry(b: nat, name: Name, hash: nat) returns (k: nat)
      requires b < |table| && Stored() && hash == Hash(name) && b == Bucket(name, |table|)
      ensures k <= |table[b]|
      ensures if k < |table[b]| then name in views && table[b][k].name == name && table[b][k].views == views[name]
        else name !in views
    {
      hide Hash, Bucket, Total, Chains;
      k := 0;
      while k < |table[b]|
        invariant k <= |table[b]| && forall j :: 0 <= j < k ==> table[b][j].name != name
      {
        InChain(table, views, b, k);
        if table[b][k].hash == hash && table[b][k].name == name {
          return;
        }
        k := k + 1;
      }
      assert !Holds(table[b], name);
      NotInChain(table, views, name);
    }

    /** `_zip_hash_add`. */
    method Add(name: Name, index: nat, original: bool) returns (error: Option<Error>)
      requires Valid()
      modifies this
      ensures Valid()
      ensures match Added(old(views), name, index, original)
        case Ok(m) => error == None && views == m
        case Err(x) => error == Some(x) && views == old(views)
    {
      hide Hash, Bucket, Total, Chains, IsPowerOfTwo;
      if index > INT64_MAX {
        return Some(Invalid);
      }
      if |table| == 0 {
        MinSize();
        Resize(HASH_MIN_SIZE);
      }
      var hash := HashString(name);
      BucketIs(name, |table|);
      var b := hash % |table|;
      var k := FindEntry(b, name, hash);
      if k < |table[b]| {
        var e := table[b][k];
        if (original && e.views.orig.Some?) || e.views.current.Some? {
          return Some(Exists);
        }
        SetViews(b, k, Views(if original then Some(index) else e.views.orig, Some(index)));
      } else {
        Insert(b, HashEntry(name, Views(if original then Some(index) else None, Some(index)), hash));
      }
      return None;
    }

    method SetViews(b: nat, k: nat, v: Views)
      requires Valid() && b < |table| && k < |table[b]| && (v.orig.Some? || v.current.Some?)
      modifies this`table, this`views
      ensures Valid() && views == old(views)[old(table)[b][k].name := v]
    {
      hide Hash, Bucket, Total, Chains;
      var e := table[b][k];
      Replaced(table, views, b, k, v);
      TotalUpdate(table, b, table[b][k := e.(views := v)]);
      table := table[b := table[b][k := e.(views := v)]];
      views := views[e.name := v];
    }

    /** A new entry, after which the table may have to double. */
    method Insert(b: nat, e: HashEntry)
      requires Valid() && b < |table| && b == Bucket(e.name, |table|) && e.name !in views && e.hash == Hash(e.name)
      requires e.views.orig.Some? || e.views.current.Some?
      modifies this
      ensures Valid() && views == old(views)[e.name := e.views]
    {
      hide Hash, Bucket, Total, Chains, IsPowerOfTwo;
      Neighbours(|table|);
      Prepended(table, views, e);
      TotalUpdate(table, b, [e] + table[b]);
      table := table[b := [e] + table[b]];
      views := views[e.name := e.views];
      nentries := nentries + 1;
      if 4 * nentries > 3 * |table| && |table| < HASH_MAX_SIZE {
        Resize(|table| * 2);
        ChainsCount(table, views);
      }
    }

    /** `_zip_hash_delete`: an original name stays, without a current index. */
    method Delete(name: Name) returns (error: Option<Error>)
      requires Valid()
      modifies this
      ensures Valid()
      ensures match Dropped(old(views), name)
        case Ok(m) => error == None && views == m
        case Err(x) => error == Some(x) && views == old(views)
    {
      hide Hash, Bucket, Total, Chains, IsPowerOfTwo;
      ChainsCount(table, views);
      if nentries == 0 {
        return Some(NoEntry);
      }
      TotalNone();
      var hash := HashString(name);
      BucketIs(name, |table|);
      var b := hash % |table|;
      var k := FindEntry(b, name, hash);
      if k == |table[b]| {
        return Some(NoEntry);
      }
      if table[b][k].views.orig.None? {
        Remove(b, k);
      } else {
        SetViews(b, k, Views(table[b][k].views.orig, None));
      }
      return None;
    }

    /** Takes an entry out, after which the table may have to halve. */
    method Remove(b: nat, k: nat)
      requires Valid() && b < |table| && k < |table[b]|
      modifies this
      ensures Valid() && views == old(views) - {old(table)[b][k].name}
    {
      hide Hash, Bucket, Total, Chains, IsPowerOfTwo;
      Neighbours(|table|);
      Unlinked(table, views, b, k);
      TotalUpdate(table, b, table[b][..k] + table[b][k + 1..]);
      views := views - {table[b][k].name};
      table := table[b := table[b][..k] + table[b][k + 1..]];
      nentries := nentries - 1;
      if 100 * nentries < |table| && |table| > HASH_MIN_SIZE {
        Resize(|table| / 2);
        ChainsCount(table, views);
      }
    }

    /** `_zip_hash_lookup`. */
    method Lookup(name: Name, original: bool) returns (r: Option<nat>)
      requires Valid()
      ensures r == Found(views, name, original)
    {
      hide Hash, Bucket, Total, Chains, Sized;
      ChainsCount(table, views);
      if nentries > 0 {
        TotalNone();
        var hash := HashString(name);
        BucketIs(name, |table|);
        var b := hash % |table|;
        for k := 0 to |table[b]|
          invariant forall j :: 0 <= j < k ==> table[b][j].name != name
        {
          if table[b][k].name == name {
            InChain(table, views, b, k);
            return if original then table[b][k].views.orig else table[b][k].views.current;
          }
        }
        assert !Holds(table[b], name);
        NotInChain(table, views, name);
      }
      return None;
    }

    /** `_zip_hash_reserve_capacity`. The table may end up smaller than the usual minimum. */
    method ReserveCapacity(capacity: nat)
      requires Valid()
      modifies this`table
      ensures Valid() && |table| >= |old(table)|
      ensures capacity > 0 && Needed(capacity) <= HASH_MAX_SIZE ==> |table| >= Needed(capacity)
    {
      hide Hash, Bucket, Total, Chains, IsPowerOfTwo;
      if capacity == 0 {
        return;
      }
      var newSize := SizeForCapacity(capacity);
      if newSize <= |table| {
        return;
      }
      Resize(newSize);
      ChainsCount(table, views);
    }

    /** `_zip_hash_revert`. */
    method Revert()
      requires Valid()
      modifies this
      ensures Valid() && views == Reverted(old(views))
    {
      hide Hash, Bucket, Total, Chains, IsPowerOfTwo, RevertedTable;
      RevertChains();
      if 100 * nentries < |table| && |table| > HASH_MIN_SIZE {
        var newSize := Shrunk(nentries, |table|);
        Resize(newSize);
        ChainsCount(table, views);
      }
    }

    static method Shrunk(entries: nat, size: nat) returns (newSize: nat)
      requires IsPowerOfTwo(size) && size > HASH_MIN_SIZE && 100 * entries < size
      ensures Sized(entries, newSize) && HASH_MIN_SIZE <= newSize < size
      ensures 100 * entries >= newSize || newSize == HASH_MIN_SIZE
    {
      hide IsPowerOfTwo;
      Neighbours(size);
      newSize := size / 2;
      while 100 * entries < newSize && newSize > HASH_MIN_SIZE
        invariant HASH_MIN_SIZE <= newSize < size <= HASH_MAX_SIZE && IsPowerOfTwo(newSize) && 100 * entries < newSize * 2
      {
        Neighbours(newSize);
        newSize := newSize / 2;
      }
    }

    method RevertChains()
      requires Valid()
      modifies this
      ensures Stored() && views == Reverted(old(views)) && |table| == |old(table)| && nentries <= old(nentries) && Meaningful(views)
    {
      hide Hash, Bucket, Chains, IsPowerOfTwo, Total;
      ghost var t0 := table;
      assert RevertedTable(t0, 0) == t0;
      for i := 0 to |table|
        invariant |table| == |t0| && table == RevertedTable(t0, i) && nentries == Total(table) <= old(nentries) && views == old(views)
      {
        var chain := RevertChain(table[i]);
        TotalUpdate(table, i, chain);
        nentries := nentries - (|table[i]| - |chain|);
        table := table[i := chain];
      }
      RevertedChains(t0, views);
      views := Reverted(views);
    }

    static method RevertChain(chain: seq<HashEntry>) returns (kept: seq<HashEntry>)
      ensures kept == RevertedChain(chain) && |kept| <= |chain|
    {
      kept := chain;
      var k: nat, left: nat := 0, |chain|;
      assert chain[|chain|..] == [];
      while left > 0
        invariant k + left == |kept| <= |chain| && left <= |chain|
        invariant kept[k..] == chain[|chain| - left..]
        invariant kept[..k] == RevertedChain(chain[..|chain| - left])
      {
        var n := |chain| - left;
        assert kept[k] == kept[k..][0] == chain[n];
        assert chain[..n + 1][..n] == chain[..n];
        ghost var was := kept;
        if kept[k].views.orig.None? {
          kept := kept[..k] + kept[k + 1..];
          assert kept[..k] == was[..k] && kept[k..] == was[k..][1..];
        } else {
          kept := kept[k := kept[k].(views := Views(kept[k].views.orig, kept[k].views.orig))];
          assert kept[..k + 1] == was[..k] + [kept[k]] && kept[k + 1..] == was[k..][1..];
          k := k + 1;
        }
        assert chain[n..][1..] == chain[n + 1..];
        left := left - 1;
      }
      assert kept[..k] == kept && chain[..|chain|] == chain;
    }

    lemma {:induction false} TotalNone()
      requires nentries > 0 && nentries == Total(table)
      ensures table != []
    {}
  }

  lemma {:induction false} BucketIs(name: Name, size: nat)
    requires size > 0
    ensures Bucket(name, size) == Hash(name) % size
  {}

  lemma {:induction false} MinSize()
    ensures IsPowerOfTwo(HASH_MIN_SIZE)
  {
    Pow2Values();
    Power(8);
  }
}
