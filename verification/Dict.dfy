/**
 The two-table dictionary of dict.c as a state machine over its tables.

 A key is an address; hashing and comparing are the functions of dict_type, whatever they
 are. A table is the sequence of its chains, newest entry first. `DictTables` holds the
 code that changes the tables in place and is proved against the steps here.
 */
module Dict {
  import Bits
  import opened Common

  const DICT_HT_SIZE: nat := 100
  const DICT_RESIZE_RATIO: nat := 5
  const LONG_MAX: nat := 0x7fff_ffff_ffff_ffff
  const ULONG_RANGE: nat := 0x1_0000_0000_0000_0000

  type Key = int
  type Word = n: nat | n < 0x1_0000_0000

  datatype Entry = Entry(key: Key, val: int)

  /** dict_type: the hash, and the comparison whose result 0 means equal. */
  datatype Type = Type(hash: Key -> Word, cmp: (Key, Key) -> int)

  type Chain = seq<Entry>
  type Table = seq<Chain>

  /** The tables ht[0] and ht[1]; a table without memory is empty. */
  datatype State = State(t0: Table, t1: Table, rehashidx: int)

  const CREATED := State([], [], -1)

  predicate Rehashing(s: State) {
    s.rehashidx != -1
  }

  // ---------- what the tables hold ----------

  ghost function Items(t: Table): multiset<Entry> {
    if t == [] then multiset{} else multiset(t[0]) + Items(t[1..])
  }

  /** The field `used`: the sum of the chain lengths. */
  function Used(t: Table): nat {
    if t == [] then 0 else |t[0]| + Used(t[1..])
  }

  /** The union of both tables. */
  ghost function Union(s: State): multiset<Entry> {
    Items(s.t0) + Items(s.t1)
  }

  lemma {:induction false} UsedCountsItems(t: Table)
    ensures Used(t) == |Items(t)|
  {
    if t != [] {
      UsedCountsItems(t[1..]);
    }
  }

  lemma {:induction false} ItemsAre(t: Table, e: Entry)
    ensures e in Items(t) <==> exists i | 0 <= i < |t| :: e in t[i]
  {
    if t != [] {
      ItemsAre(t[1..], e);
      if e in Items(t[1..]) {
        var i :| 0 <= i < |t[1..]| && e in t[1..][i];
        assert e in t[i + 1];
      }
      if i :| 0 < i < |t| && e in t[i] {
        assert e in t[1..][i - 1];
      }
    }
  }

  lemma AddToBoth(x: multiset<Entry>, a: multiset<Entry>, b: multiset<Entry>, c: multiset<Entry>, d: multiset<Entry>)
    requires a + b == c + d
    ensures (x + a) + b == (x + c) + d
  {
    assert (x + a) + b == x + (a + b);
    assert (x + c) + d == x + (c + d);
  }

  /** Replacing one chain replaces its entries. */
  lemma {:induction false} ItemsUpdate(t: Table, i: nat, c: Chain)
    requires i < |t|
    ensures Items(t[i := c]) + multiset(t[i]) == Items(t) + multiset(c)
    ensures Used(t[i := c]) + |t[i]| == Used(t) + |c|
  {
    var u := t[i := c];
    if i == 0 {
      assert u[1..] == t[1..];
      Swap(multiset(c), Items(t[1..]), multiset(t[0]));
    } else {
      assert u[1..] == t[1..][i - 1 := c];
      ItemsUpdate(t[1..], i - 1, c);
      AddToBoth(multiset(t[0]), Items(u[1..]), multiset(t[i]), Items(t[1..]), multiset(c));
    }
  }

  lemma Swap(a: multiset<Entry>, b: multiset<Entry>, c: multiset<Entry>)
    ensures (a + b) + c == (c + b) + a
  {
    assert (a + b) + c == b + (a + c);
  }

  /** One entry more at the front of a chain. */
  lemma ItemsPush(t: Table, i: nat, e: Entry)
    requires i < |t|
    ensures Items(t[i := [e] + t[i]]) == Items(t) + multiset{e}
    ensures Used(t[i := [e] + t[i]]) == Used(t) + 1
  {
    var u := Items(t[i := [e] + t[i]]);
    ItemsUpdate(t, i, [e] + t[i]);
    assert multiset([e] + t[i]) == multiset{e} + multiset(t[i]);
    Cancel(u, multiset(t[i]), Items(t), multiset{e});
  }

  lemma Cancel(u: multiset<Entry>, m: multiset<Entry>, t: multiset<Entry>, e: multiset<Entry>)
    requires u + m == t + (e + m)
    ensures u == t + e
  {
    assert t + (e + m) == (t + e) + m;
    assert u == (u + m) - m && (t + e) == (t + e + m) - m;
  }

  lemma {:induction false} NoItems(t: Table)
    requires forall i | 0 <= i < |t| :: t[i] == []
    ensures Items(t) == multiset{} && Used(t) == 0
  {
    if t != [] {
      NoItems(t[1..]);
    }
  }

  lemma {:induction false} SomeItem(t: Table) returns (i: nat)
    requires Used(t) > 0
    ensures i < |t| && t[i] != []
  {
    if t[0] != [] {
      i := 0;
    } else {
      i := SomeItem(t[1..]);
      i := i + 1;
    }
  }

  // ---------- placement ----------

  /** hash & sizemask, with sizemask == size - 1. */
  function Slot(ty: Type, k: Key, size: nat): (i: nat)
    requires size > 0
    ensures i < size
  {
    Bits.AndBounds(ty.hash(k), size - 1);
    Bits.And(ty.hash(k), size - 1)
  }

  /** A bit of the index is set exactly when it is set in the hash and in the mask. */
  lemma SlotBits(ty: Type, k: Key, size: nat, b: nat)
    requires size > 0
    ensures Bits.BitSet(Slot(ty, k, size), b) <==> Bits.BitSet(ty.hash(k), b) && Bits.BitSet(size - 1, b)
  {
    Bits.AndBits(ty.hash(k), size - 1, b);
  }

  predicate SameBit(ty: Type, k: Key, j: Key, b: nat) {
    Bits.BitSet(ty.hash(k), b) == Bits.BitSet(ty.hash(j), b)
  }

  /** The two keys' hashes agree in every bit of the mask. */
  ghost predicate AgreeUnder(ty: Type, mask: nat, k: Key, j: Key) {
    forall b: nat | Bits.BitSet(mask, b) :: SameBit(ty, k, j, b)
  }

  /** Two keys share a chain exactly when their hashes agree in the mask's bits. */
  lemma SameSlotExactly(ty: Type, k: Key, j: Key, size: nat)
    requires size > 0
    ensures Slot(ty, k, size) == Slot(ty, j, size) <==> AgreeUnder(ty, size - 1, k, j)
  {
    hide Slot;
    forall b: nat
      ensures Bits.BitSet(Slot(ty, k, size), b) <==> Bits.BitSet(ty.hash(k), b) && Bits.BitSet(size - 1, b)
      ensures Bits.BitSet(Slot(ty, j, size), b) <==> Bits.BitSet(ty.hash(j), b) && Bits.BitSet(size - 1, b)
    {
      SlotBits(ty, k, size, b);
      SlotBits(ty, j, size, b);
    }
    if Slot(ty, k, size) != Slot(ty, j, size) {
      var b := Bits.DifferentBit(Slot(ty, k, size), Slot(ty, j, size));
      assert !SameBit(ty, k, j, b);
    }
  }

  ghost predicate PlacedAt(ty: Type, c: Chain, i: nat, size: nat)
    requires size > 0
  {
    forall e | e in c :: Slot(ty, e.key, size) == i
  }

  /** Every entry lies in the chain its hash selects. */
  ghost predicate Placed(ty: Type, t: Table) {
    forall i | 0 <= i < |t| :: PlacedAt(ty, t[i], i, |t|)
  }

  ghost predicate Inv(ty: Type, s: State) {
    && Placed(ty, s.t0) && Placed(ty, s.t1)
    && if Rehashing(s) then
         && 0 <= s.rehashidx <= |s.t0| && s.t0 != [] && s.t1 != []
         && forall i | 0 <= i < s.rehashidx :: s.t0[i] == []
       else s.t1 == []
  }

  // ---------- dict_expand ----------

  /** The least 100 * 2^k that is at least the size, as far as unsigned long can hold it. */
  function NextPower(size: nat): (n: nat)
    ensures n > 0
  {
    if size >= LONG_MAX then LONG_MAX else Doubled(DICT_HT_SIZE, size)
  }

  function Doubled(n: nat, size: nat): (m: nat)
    requires n > 0
    ensures m >= size && m >= n
    decreases size - n
  {
    if n >= size then n else Doubled(2 * n, size)
  }

  ghost predicate IsTableSize(n: nat) {
    exists k: nat :: n == DICT_HT_SIZE * Bits.Pow2(k)
  }

  /** Doubling stops at the first power that is large enough. */
  lemma {:induction false} DoubledStops(n: nat, size: nat, k: nat) returns (m: nat)
    requires n == DICT_HT_SIZE * Bits.Pow2(k) && (k > 0 ==> DICT_HT_SIZE * Bits.Pow2(k - 1) < size)
    ensures n > 0 && Doubled(n, size) == DICT_HT_SIZE * Bits.Pow2(m)
    ensures m > 0 ==> DICT_HT_SIZE * Bits.Pow2(m - 1) < size
    decreases size - n
  {
    m := k;
    if n < size {
      m := DoubledStops(2 * n, size, k + 1);
    }
  }

  lemma {:induction false} Pow2Grows(j: nat, k: nat)
    requires j <= k
    ensures Bits.Pow2(j) <= Bits.Pow2(k)
    decreases k
  {
    if j < k {
      Pow2Grows(j, k - 1);
    }
  }

  /** For every size below LONG_MAX: the least 100 * 2^k that is at least the size, and doubling never wraps. */
  lemma NextPowerIsLeast(size: nat)
    requires size < LONG_MAX
    ensures IsTableSize(NextPower(size)) && size <= NextPower(size) < ULONG_RANGE
    ensures forall k: nat | DICT_HT_SIZE * Bits.Pow2(k) >= size :: NextPower(size) <= DICT_HT_SIZE * Bits.Pow2(k)
    ensures size > DICT_HT_SIZE ==> NextPower(size) < 2 * size
  {
    var m := DoubledStops(DICT_HT_SIZE, size, 0);
    assert m > 0 ==> NextPower(size) == 2 * (DICT_HT_SIZE * Bits.Pow2(m - 1));
    forall k: nat | DICT_HT_SIZE * Bits.Pow2(k) >= size ensures NextPower(size) <= DICT_HT_SIZE * Bits.Pow2(k) {
      if k < m {
        Pow2Grows(k, m - 1);
      } else {
        Pow2Grows(m, k);
      }
    }
  }

  function Fresh(size: nat): Table {
    seq(size, _ => [])
  }

  lemma FreshIsEmpty(ty: Type, size: nat)
    ensures Items(Fresh(size)) == multiset{} && Used(Fresh(size)) == 0 && Placed(ty, Fresh(size))
  {
    NoItems(Fresh(size));
  }

  function Expand(s: State, size: nat): (State, int) {
    if Rehashing(s) || Used(s.t0) > size then (s, OS_ERR)
    else if s.t0 == [] then (s.(t0 := Fresh(NextPower(size))), OS_OK)
    else (State(s.t0, Fresh(NextPower(size)), 0), OS_OK)
  }

  lemma ExpandKeeps(ty: Type, s: State, size: nat)
    requires Inv(ty, s)
    ensures Inv(ty, Expand(s, size).0) && Union(Expand(s, size).0) == Union(s)
    ensures Expand(s, size).1 == OS_OK <==> !Rehashing(s) && Used(s.t0) <= size
    ensures Expand(s, size).1 == OS_OK ==> Expand(s, size).0.t0 != []
  {
    FreshIsEmpty(ty, NextPower(size));
    assert Items([]) == multiset{};
  }

  /** The size that a table for so many entries gets: the least 100 * 2^k, or LONG_MAX beyond the powers. */
  ghost predicate SizeFor(n: nat, size: nat) {
    if size >= LONG_MAX then n == LONG_MAX
    else IsTableSize(n) && n >= size && forall k: nat | DICT_HT_SIZE * Bits.Pow2(k) >= size :: n <= DICT_HT_SIZE * Bits.Pow2(k)
  }

  ghost predicate EmptyOfSize(t: Table, size: nat) {
    SizeFor(|t|, size) && forall i | 0 <= i < |t| :: t[i] == []
  }

  /** An expansion that succeeds makes one new table, of the right size and empty; one that fails changes nothing. */
  lemma ExpandMakes(s: State, size: nat)
    ensures var (s', rc) := Expand(s, size);
            if rc != OS_OK then rc == OS_ERR && s' == s
            else if s.t0 == [] then EmptyOfSize(s'.t0, size) && s' == s.(t0 := s'.t0)
            else EmptyOfSize(s'.t1, size) && s' == State(s.t0, s'.t1, 0)
  {
    if size < LONG_MAX {
      NextPowerIsLeast(size);
    }
    hide NextPower;
  }

  // ---------- dict_rehash ----------

  /** The chain's entries move one by one to the front of their new chains. */
  function MoveChain(ty: Type, c: Chain, t: Table): (u: Table)
    requires t != []
    ensures |u| == |t|
    decreases |c|
  {
    if c == [] then t
    else
      var h := Slot(ty, c[0].key, |t|);
      MoveChain(ty, c[1..], t[h := [c[0]] + t[h]])
  }

  lemma PushPlaced(ty: Type, t: Table, e: Entry)
    requires t != [] && Placed(ty, t)
    ensures var h := Slot(ty, e.key, |t|); Placed(ty, t[h := [e] + t[h]])
  {
    hide Slot;
    var h := Slot(ty, e.key, |t|);
    assert PlacedAt(ty, t[h], h, |t|);
    assert PlacedAt(ty, [e] + t[h], h, |t|);
  }

  lemma {:induction false} MoveChainKeeps(ty: Type, c: Chain, t: Table)
    requires t != [] && Placed(ty, t)
    ensures Placed(ty, MoveChain(ty, c, t))
    ensures Items(MoveChain(ty, c, t)) == Items(t) + multiset(c)
    ensures Used(MoveChain(ty, c, t)) == Used(t) + |c|
    decreases |c|
  {
    hide Placed, Items, Used, Slot;
    if c != [] {
      var h := Slot(ty, c[0].key, |t|);
      ItemsPush(t, h, c[0]);
      PushPlaced(ty, t, c[0]);
      assert c == [c[0]] + c[1..] && multiset(c) == multiset{c[0]} + multiset(c[1..]);
      MoveChainKeeps(ty, c[1..], t[h := [c[0]] + t[h]]);
    }
  }

  /** The first chain with entries, from an index on. */
  function FirstChain(t: Table, from: nat): (i: nat)
    requires exists j | from <= j < |t| :: t[j] != []
    ensures from <= i < |t| && t[i] != [] && forall j | from <= j < i :: t[j] == []
    decreases |t| - from
  {
    if t[from] != [] then from else FirstChain(t, from + 1)
  }

  lemma MoreToMove(ty: Type, s: State)
    requires Inv(ty, s) && Rehashing(s) && Used(s.t0) > 0
    ensures exists j | s.rehashidx <= j < |s.t0| :: s.t0[j] != []
  {
    var i := SomeItem(s.t0);
    assert s.rehashidx <= i;
  }

  /** One turn of the loop in dict_rehash. */
  ghost function RehashStep(ty: Type, s: State): State
    requires Inv(ty, s) && Rehashing(s)
  {
    if Used(s.t0) == 0 then State(s.t1, [], -1)
    else
      MoreToMove(ty, s);
      var i := FirstChain(s.t0, s.rehashidx);
      State(s.t0[i := []], MoveChain(ty, s.t0[i], s.t1), i + 1)
  }

  /** Both cases of a turn, and what it needs of the tables. */
  lemma RehashStepIs(ty: Type, s: State)
    requires Inv(ty, s) && Rehashing(s)
    ensures Placed(ty, s.t0) && Placed(ty, s.t1) && s.t0 != [] && s.t1 != [] && 0 <= s.rehashidx
    ensures Used(s.t0) == 0 ==> RehashStep(ty, s) == State(s.t1, [], -1)
    ensures Used(s.t0) > 0 ==>
              && (exists j | s.rehashidx <= j < |s.t0| :: s.t0[j] != [])
              && var i := FirstChain(s.t0, s.rehashidx);
                 RehashStep(ty, s) == State(s.t0[i := []], MoveChain(ty, s.t0[i], s.t1), i + 1)
  {
    hide Placed, Used, MoveChain;
    if Used(s.t0) > 0 {
      MoreToMove(ty, s);
    }
  }

  /** One chain moves from table 0 to table 1. */
  lemma MoveKeeps(ty: Type, t0: Table, i: nat, t1: Table)
    requires i < |t0| && t1 != [] && Placed(ty, t0) && Placed(ty, t1)
    ensures var u0, u1 := t0[i := []], MoveChain(ty, t0[i], t1);
            && Placed(ty, u0) && Placed(ty, u1)
            && Items(u0) + Items(u1) == Items(t0) + Items(t1) && Used(u0) + Used(u1) == Used(t0) + Used(t1)
  {
    hide Items, Used, Slot, MoveChain;
    ItemsUpdate(t0, i, []);
    MoveChainKeeps(ty, t0[i], t1);
    var c := multiset(t0[i]);
    assert Items(t0[i := []]) + c == Items(t0);
    assert Items(t0[i := []]) + (Items(t1) + c) == (Items(t0[i := []]) + c) + Items(t1);
    assert PlacedAt(ty, [], i, |t0|);
  }

  lemma RehashStepKeeps(ty: Type, s: State)
    requires Inv(ty, s) && Rehashing(s)
    ensures Inv(ty, RehashStep(ty, s)) && Union(RehashStep(ty, s)) == Union(s)
    ensures var s' := RehashStep(ty, s); Used(s'.t0) + Used(s'.t1) == Used(s.t0) + Used(s.t1)
  {
    if Used(s.t0) == 0 {
      UsedCountsItems(s.t0);
      assert Items([]) == multiset{};
    } else {
      MoreToMove(ty, s);
      var i := FirstChain(s.t0, s.rehashidx);
      MoveKeeps(ty, s.t0, i, s.t1);
      hide Placed, Items, Used, MoveChain;
    }
  }

  /** dict_rehash(d, n): n turns, as long as there is something to do; a negative n never stops early. */
  ghost function Rehash(ty: Type, s: State, n: int): State
    requires Inv(ty, s)
    decreases Work(s) + (if Rehashing(s) then 1 else 0)
  {
    if n == 0 || !Rehashing(s) then s
    else
      RehashStepKeeps(ty, s);
      StepWorks(ty, s);
      Rehash(ty, RehashStep(ty, s), n - 1)
  }

  /** The chains of table 0 that still hold entries. */
  function Filled(t: Table): nat {
    if t == [] then 0 else (if t[0] != [] then 1 else 0) + Filled(t[1..])
  }

  ghost function Work(s: State): nat {
    if Rehashing(s) then Filled(s.t0) else 0
  }

  lemma {:induction false} FilledUpdate(t: Table, i: nat)
    requires i < |t| && t[i] != []
    ensures Filled(t[i := []]) == Filled(t) - 1
  {
    var u := t[i := []];
    if i == 0 {
      assert u[1..] == t[1..];
    } else {
      assert u[1..] == t[1..][i - 1 := []];
      FilledUpdate(t[1..], i - 1);
    }
  }

  lemma {:induction false} FilledIsUsed(t: Table)
    ensures Filled(t) <= Used(t) && (Used(t) == 0 <==> Filled(t) == 0)
  {
    if t != [] {
      FilledIsUsed(t[1..]);
    }
  }

  /** Each turn empties one chain, or ends the rehash. */
  lemma StepWorks(ty: Type, s: State)
    requires Inv(ty, s) && Rehashing(s)
    ensures var s' := RehashStep(ty, s);
            if Filled(s.t0) == 0 then !Rehashing(s') else Rehashing(s') && Filled(s'.t0) == Filled(s.t0) - 1
  {
    FilledIsUsed(s.t0);
    if Used(s.t0) > 0 {
      MoreToMove(ty, s);
      FilledUpdate(s.t0, FirstChain(s.t0, s.rehashidx));
    }
  }

  /** Rehashing moves entries and nothing else, at every stage. */
  lemma {:induction false} RehashKeeps(ty: Type, s: State, n: int)
    requires Inv(ty, s)
    ensures Inv(ty, Rehash(ty, s, n)) && Union(Rehash(ty, s, n)) == Union(s)
    ensures var s' := Rehash(ty, s, n); Used(s'.t0) + Used(s'.t1) == Used(s.t0) + Used(s.t1)
    decreases Work(s) + (if Rehashing(s) then 1 else 0)
  {
    if n != 0 && Rehashing(s) {
      RehashStepKeeps(ty, s);
      StepWorks(ty, s);
      RehashKeeps(ty, RehashStep(ty, s), n - 1);
    }
  }

  /** It ends exactly after one turn for each filled chain and one more. */
  lemma {:induction false} RehashEndsExactly(ty: Type, s: State, n: int)
    requires Inv(ty, s) && Rehashing(s)
    ensures !Rehashing(Rehash(ty, s, n)) <==> n < 0 || n > Filled(s.t0)
    decreases Work(s) + (if Rehashing(s) then 1 else 0)
  {
    if n != 0 {
      RehashStepKeeps(ty, s);
      StepWorks(ty, s);
      if Filled(s.t0) > 0 {
        RehashEndsExactly(ty, RehashStep(ty, s), n - 1);
      }
    }
  }

  /** A rehash in two calls is a rehash in one. */
  lemma {:induction false} RehashInParts(ty: Type, s: State, m: nat, n: nat)
    requires Inv(ty, s)
    ensures Inv(ty, Rehash(ty, s, m))
    ensures Rehash(ty, Rehash(ty, s, m), n) == Rehash(ty, s, m + n)
    decreases m
  {
    hide Inv, RehashStep;
    RehashKeeps(ty, s, m);
    if m > 0 && Rehashing(s) {
      RehashStepKeeps(ty, s);
      RehashInParts(ty, RehashStep(ty, s), m - 1, n);
    }
  }

  // ---------- dict_find ----------

  predicate Equal(ty: Type, a: Key, b: Key) {
    ty.cmp(a, b) == 0
  }

  /** Comparing equal is an equivalence, and equal keys have equal hashes. */
  ghost predicate Lawful(ty: Type) {
    && (forall a :: Equal(ty, a, a))
    && (forall a, b | Equal(ty, a, b) :: Equal(ty, b, a) && ty.hash(a) == ty.hash(b))
    && (forall a, b, c | Equal(ty, a, b) && Equal(ty, b, c) :: Equal(ty, a, c))
  }

  /** No key is stored twice. */
  ghost predicate Distinct(ty: Type, m: multiset<Entry>) {
    && (forall e | e in m :: m[e] == 1)
    && (forall e, f | e in m && f in m && Equal(ty, e.key, f.key) :: e == f)
  }

  ghost predicate Absent(ty: Type, m: multiset<Entry>, k: Key) {
    forall e | e in m :: !Equal(ty, k, e.key)
  }

  /** The first entry of the chain whose key compares equal. */
  function FindIn(ty: Type, c: Chain, k: Key): (r: Option<Entry>)
    ensures r.Some? ==> r.value in c && Equal(ty, k, r.value.key)
    ensures r.None? ==> forall e | e in c :: !Equal(ty, k, e.key)
  {
    if c == [] then None
    else if Equal(ty, k, c[0].key) then Some(c[0])
    else FindIn(ty, c[1..], k)
  }

  function Lookup(ty: Type, s: State, k: Key): Option<Entry>
    requires Rehashing(s) ==> s.t1 != []
  {
    if s.t0 == [] then None
    else
      var found := FindIn(ty, s.t0[Slot(ty, k, |s.t0|)], k);
      if found.None? && Rehashing(s) then FindIn(ty, s.t1[Slot(ty, k, |s.t1|)], k) else found
  }

  function Either(a: Option<Entry>, b: Option<Entry>): Option<Entry> {
    if a.Some? then a else b
  }

  lemma {:induction false} FindInConcat(ty: Type, c: Chain, d: Chain, k: Key)
    ensures FindIn(ty, c + d, k) == Either(FindIn(ty, c, k), FindIn(ty, d, k))
    decreases |c|
  {
    if c == [] {
      assert c + d == d;
    } else {
      assert (c + d)[0] == c[0] && (c + d)[1..] == c[1..] + d;
      FindInConcat(ty, c[1..], d, k);
    }
  }

  /** A key that was stored twice: moving its chain turns it around, so that its oldest entry is found. */
  lemma {:induction false} MovedIsTurned(ty: Type, c: Chain, t: Table, k: Key)
    requires Lawful(ty) && t != []
    ensures FindIn(ty, MoveChain(ty, c, t)[Slot(ty, k, |t|)], k) == Either(FindIn(ty, Reverse(c), k), FindIn(ty, t[Slot(ty, k, |t|)], k))
    decreases |c|
  {
    hide Lawful, Slot;
    if c != [] {
      var h := Slot(ty, c[0].key, |t|);
      var u := t[h := [c[0]] + t[h]];
      MovedIsTurned(ty, c[1..], u, k);
      FindInConcat(ty, Reverse(c[1..]), [c[0]], k);
      FindInConcat(ty, [c[0]], t[h], k);
      EqualSlots(ty, k, c[0].key, |t|);
    }
  }

  lemma EqualSlots(ty: Type, k: Key, j: Key, size: nat)
    requires Lawful(ty) && size > 0
    ensures Equal(ty, k, j) ==> Slot(ty, k, size) == Slot(ty, j, size)
  {
  }

  /** In a table where every entry is in its place, one chain is enough to look at. */
  lemma ChainDecides(ty: Type, t: Table, k: Key)
    requires Lawful(ty) && Placed(ty, t) && t != []
    ensures match FindIn(ty, t[Slot(ty, k, |t|)], k)
            case Some(e) => e in Items(t)
            case None => Absent(ty, Items(t), k)
  {
    match FindIn(ty, t[Slot(ty, k, |t|)], k)
    case Some(e) => ItemsAre(t, e);
    case None =>
      forall e | e in Items(t) ensures !Equal(ty, k, e.key) {
        ItemsAre(t, e);
        var i :| 0 <= i < |t| && e in t[i];
        assert PlacedAt(ty, t[i], i, |t|);
      }
  }

  /** dict_find finds a key exactly when the union of both tables holds it, at every stage of a rehash. */
  lemma LookupDecides(ty: Type, s: State, k: Key)
    requires Lawful(ty) && Inv(ty, s)
    ensures match Lookup(ty, s, k)
            case Some(e) => e in Union(s) && Equal(ty, k, e.key)
            case None => Absent(ty, Union(s), k)
  {
    hide Placed, Slot, Lawful;
    if s.t0 != [] {
      ChainDecides(ty, s.t0, k);
      if Rehashing(s) {
        ChainDecides(ty, s.t1, k);
      }
    }
  }

  /** With distinct keys the union alone determines what is found. */
  lemma LookupByUnion(ty: Type, s: State, s': State, k: Key)
    requires Lawful(ty) && Inv(ty, s) && Inv(ty, s') && Union(s) == Union(s') && Distinct(ty, Union(s))
    ensures Lookup(ty, s, k) == Lookup(ty, s', k)
  {
    LookupDecides(ty, s, k);
    LookupDecides(ty, s', k);
    hide Inv, Union, Lookup;
    if Lookup(ty, s, k).Some? && Lookup(ty, s', k).Some? {
      assert Equal(ty, Lookup(ty, s, k).value.key, Lookup(ty, s', k).value.key);
    }
  }

  /** No stage of a rehash changes what is found. */
  lemma RehashIsInvisible(ty: Type, s: State, n: int, k: Key)
    requires Lawful(ty) && Inv(ty, s) && Distinct(ty, Union(s))
    ensures Inv(ty, Rehash(ty, s, n)) && Lookup(ty, Rehash(ty, s, n), k) == Lookup(ty, s, k)
  {
    RehashKeeps(ty, s, n);
    LookupByUnion(ty, s, Rehash(ty, s, n), k);
  }

  // ---------- dict_add ----------

  function ExpandIfNeeded(s: State): (State, int) {
    if Rehashing(s) then (s, OS_OK)
    else if s.t0 == [] then Expand(s, DICT_HT_SIZE)
    else if Used(s.t0) >= |s.t0| && Used(s.t0) / |s.t0| > DICT_RESIZE_RATIO then Expand(s, Used(s.t0) * 2)
    else (s, OS_OK)
  }

  /** Making room never fails and never loses an entry. */
  lemma ExpandIfNeededKeeps(ty: Type, s: State)
    requires Inv(ty, s)
    ensures var (s', rc) := ExpandIfNeeded(s);
            Inv(ty, s') && Union(s') == Union(s) && s'.t0 != [] && rc == OS_OK
  {
    hide Placed, Union;
    if !Rehashing(s) {
      ExpandKeeps(ty, s, DICT_HT_SIZE);
      ExpandKeeps(ty, s, Used(s.t0) * 2);
    }
  }

  /** When room is made: for the first entry 100 chains, and at six entries a chain a table for twice as many. */
  lemma ExpandIfNeededMakes(ty: Type, s: State)
    requires Inv(ty, s)
    ensures var s' := ExpandIfNeeded(s).0;
            if Rehashing(s) then s' == s
            else if s.t0 == [] then |s'.t0| == DICT_HT_SIZE && EmptyOfSize(s'.t0, DICT_HT_SIZE) && s' == s.(t0 := s'.t0)
            else if Used(s.t0) >= 6 * |s.t0| then EmptyOfSize(s'.t1, 2 * Used(s.t0)) && s' == State(s.t0, s'.t1, 0)
            else s' == s
  {
    ExpandKeeps(ty, s, DICT_HT_SIZE);
    ExpandKeeps(ty, s, Used(s.t0) * 2);
    ExpandMakes(s, DICT_HT_SIZE);
    ExpandMakes(s, Used(s.t0) * 2);
    hide Expand, Placed, Used, Union, Doubled;
    assert DICT_HT_SIZE * Bits.Pow2(0) == DICT_HT_SIZE;
    if s.t0 != [] {
      RatioAbove(Used(s.t0), |s.t0|);
    }
  }

  lemma RatioAbove(used: nat, size: nat)
    requires size > 0
    ensures used >= size && used / size > DICT_RESIZE_RATIO <==> used >= 6 * size
  {
    assert used == size * (used / size) + used % size;
  }

  /** The chains that _dict_key_index walks through. */
  function Probed(ty: Type, s: State, k: Key): Chain
    requires s.t0 != [] && (Rehashing(s) ==> s.t1 != [])
  {
    s.t0[Slot(ty, k, |s.t0|)] + if Rehashing(s) then s.t1[Slot(ty, k, |s.t1|)] else []
  }

  /** The test in _dict_key_index: an entry whose comparison is not 0 stops the insertion. */
  predicate Blocked(ty: Type, c: Chain, k: Key) {
    exists e | e in c :: !Equal(ty, k, e.key)
  }

  function KeyIndex(ty: Type, s: State, k: Key): int
    requires s.t0 != [] && (Rehashing(s) ==> s.t1 != [])
  {
    if Blocked(ty, s.t0[Slot(ty, k, |s.t0|)], k) then -1
    else if !Rehashing(s) then Slot(ty, k, |s.t0|)
    else if Blocked(ty, s.t1[Slot(ty, k, |s.t1|)], k) then -1
    else Slot(ty, k, |s.t1|)
  }

  function Push(t: Table, i: nat, e: Entry): Table
    requires i < |t|
  {
    t[i := [e] + t[i]]
  }

  /** The entry goes to table 1 while rehashing, to table 0 otherwise. */
  function Insert(s: State, i: nat, e: Entry): State
    requires i < if Rehashing(s) then |s.t1| else |s.t0|
  {
    if Rehashing(s) then s.(t1 := Push(s.t1, i, e)) else s.(t0 := Push(s.t0, i, e))
  }

  function Add(ty: Type, s: State, e: Entry): (State, int)
    requires Rehashing(s) ==> s.t1 != []
  {
    var (s', rc) := ExpandIfNeeded(s);
    if rc != OS_OK || s'.t0 == [] || (Rehashing(s') && s'.t1 == []) then (s', OS_ERR)
    else
      var i := KeyIndex(ty, s', e.key);
      if i == -1 then (s', OS_ERR) else (Insert(s', i, e), OS_OK)
  }

  lemma AddByIndex(ty: Type, s: State, e: Entry)
    requires Inv(ty, s)
    ensures var s' := ExpandIfNeeded(s).0;
            && Inv(ty, s') && s'.t0 != [] && (Rehashing(s') ==> s'.t1 != [])
            && var i := KeyIndex(ty, s', e.key);
               if i == -1 then Add(ty, s, e) == (s', OS_ERR)
               else 0 <= i < (if Rehashing(s') then |s'.t1| else |s'.t0|) && Add(ty, s, e) == (Insert(s', i, e), OS_OK)
  {
    ExpandIfNeededKeeps(ty, s);
    hide ExpandIfNeeded, Insert, Placed, Slot, Blocked;
  }

  /** What an addition does: one entry more, or none. */
  lemma AddKeeps(ty: Type, s: State, e: Entry)
    requires Inv(ty, s)
    ensures var (s', rc) := Add(ty, s, e);
            && Inv(ty, s') && (rc == OS_OK || rc == OS_ERR)
            && Union(s') == if rc == OS_OK then Union(s) + multiset{e} else Union(s)
  {
    ExpandIfNeededKeeps(ty, s);
    var s' := ExpandIfNeeded(s).0;
    hide ExpandIfNeeded, Placed, Items, Slot, Blocked;
    if KeyIndex(ty, s', e.key) != -1 {
      if Rehashing(s') {
        PushPlaced(ty, s'.t1, e);
        ItemsPush(s'.t1, Slot(ty, e.key, |s'.t1|), e);
        assert Items(s'.t0) + (Items(s'.t1) + multiset{e}) == Items(s'.t0) + Items(s'.t1) + multiset{e};
      } else {
        PushPlaced(ty, s'.t0, e);
        ItemsPush(s'.t0, Slot(ty, e.key, |s'.t0|), e);
        assert (Items(s'.t0) + multiset{e}) + Items(s'.t1) == Items(s'.t0) + Items(s'.t1) + multiset{e};
      }
    }
  }

  /** An addition succeeds exactly when every entry it walks past compares equal. */
  lemma AddSucceedsExactly(ty: Type, s: State, e: Entry)
    requires Inv(ty, s)
    ensures var s' := ExpandIfNeeded(s).0;
            && s'.t0 != [] && (Rehashing(s') ==> s'.t1 != [])
            && (Add(ty, s, e).1 == OS_OK <==> forall f | f in Probed(ty, s', e.key) :: Equal(ty, e.key, f.key))
  {
    ExpandIfNeededKeeps(ty, s);
    hide ExpandIfNeeded, Slot, Placed;
  }

  lemma ProbedInUnion(ty: Type, s: State, k: Key, e: Entry)
    requires Inv(ty, s) && s.t0 != [] && e in Probed(ty, s, k)
    ensures e in Union(s)
  {
    ItemsAre(s.t0, e);
    ItemsAre(s.t1, e);
  }

  /** For a key that is not there: it succeeds exactly when the chains it walks are empty. */
  lemma AddAbsentExactly(ty: Type, s: State, e: Entry)
    requires Inv(ty, s) && Absent(ty, Union(s), e.key)
    ensures var s' := ExpandIfNeeded(s).0;
            && s'.t0 != [] && (Rehashing(s') ==> s'.t1 != [])
            && (Add(ty, s, e).1 == OS_OK <==> Probed(ty, s', e.key) == [])
  {
    AddSucceedsExactly(ty, s, e);
    ExpandIfNeededKeeps(ty, s);
    var s' := ExpandIfNeeded(s).0;
    hide ExpandIfNeeded, Slot, Placed, Inv, Union, Add;
    var c := Probed(ty, s', e.key);
    if c != [] {
      assert c[0] in c;
      ProbedInUnion(ty, s', e.key, c[0]);
    }
  }

  /** A new key that was added is found, and every other lookup stays as it was. */
  lemma AddAbsentIsFound(ty: Type, s: State, e: Entry, k: Key)
    requires Lawful(ty) && Inv(ty, s) && Distinct(ty, Union(s))
    requires Absent(ty, Union(s), e.key) && Add(ty, s, e).1 == OS_OK
    ensures var s' := Add(ty, s, e).0;
            && Inv(ty, s') && Distinct(ty, Union(s')) && Union(s') == Union(s) + multiset{e}
            && Lookup(ty, s', k) == if Equal(ty, k, e.key) then Some(e) else Lookup(ty, s, k)
  {
    AddKeeps(ty, s, e);
    var s' := Add(ty, s, e).0;
    LookupDecides(ty, s, k);
    LookupDecides(ty, s', k);
    hide Inv, Union, Add, Lookup;
    DistinctMore(ty, Union(s), e);
    UniqueFinding(ty, Union(s'), k, Lookup(ty, s', k), if Equal(ty, k, e.key) then Some(e) else Lookup(ty, s, k));
  }

  lemma DistinctMore(ty: Type, m: multiset<Entry>, e: Entry)
    requires Lawful(ty) && Distinct(ty, m) && Absent(ty, m, e.key)
    ensures Distinct(ty, m + multiset{e})
  {
    assert e !in m;
  }

  /** Two answers that both fit the stored entries are the same. */
  lemma UniqueFinding(ty: Type, m: multiset<Entry>, k: Key, a: Option<Entry>, b: Option<Entry>)
    requires Lawful(ty) && Distinct(ty, m)
    requires match a case Some(e) => e in m && Equal(ty, k, e.key) case None => Absent(ty, m, k)
    requires match b case Some(e) => e in m && Equal(ty, k, e.key) case None => Absent(ty, m, k)
    ensures a == b
  {
    if a.Some? && b.Some? {
      assert Equal(ty, a.value.key, b.value.key);
    }
  }

  /** A key that is there already is stored a second time exactly when its entry is all that the walk meets. */
  lemma AddPresentExactly(ty: Type, s: State, e: Entry, f: Entry)
    requires Lawful(ty) && Inv(ty, s) && Distinct(ty, Union(s)) && f in Union(s) && Equal(ty, e.key, f.key)
    ensures var s' := ExpandIfNeeded(s).0;
            && s'.t0 != [] && (Rehashing(s') ==> s'.t1 != [])
            && (Add(ty, s, e).1 == OS_OK <==> forall g | g in Probed(ty, s', e.key) :: g == f)
    ensures Add(ty, s, e).1 == OS_OK ==> !Distinct(ty, Union(Add(ty, s, e).0))
  {
    AddSucceedsExactly(ty, s, e);
    AddKeeps(ty, s, e);
    ExpandIfNeededKeeps(ty, s);
    var s' := ExpandIfNeeded(s).0;
    hide ExpandIfNeeded, Slot, Placed, Inv, Union, Add;
    forall g | g in Probed(ty, s', e.key) ensures g in Union(s) {
      ProbedInUnion(ty, s', e.key, g);
    }
    if Add(ty, s, e).1 == OS_OK {
      var m := Union(Add(ty, s, e).0);
      assert m[e] >= 1 && f in m;
      if e == f {
        assert m[e] >= 2;
      }
    }
  }

  /** An entry just added is the one that is found, unless a rehash goes on and table 0 still holds its key. */
  lemma AddedIsFoundExactly(ty: Type, s: State, e: Entry)
    requires Lawful(ty) && Inv(ty, s) && Add(ty, s, e).1 == OS_OK
    ensures var m, s' := ExpandIfNeeded(s).0, Add(ty, s, e).0;
            && Inv(ty, m) && Inv(ty, s')
            && Lookup(ty, s', e.key) == if Rehashing(m) && !Absent(ty, Items(m.t0), e.key) then Lookup(ty, m, e.key) else Some(e)
  {
    AddByIndex(ty, s, e);
    AddKeeps(ty, s, e);
    var m := ExpandIfNeeded(s).0;
    IndexIsSlot(ty, m, e.key);
    ChainDecides(ty, m.t0, e.key);
    assert Equal(ty, e.key, e.key);
    hide Add, ExpandIfNeeded, KeyIndex, Slot, Lawful, Inv, Items;
  }

  lemma IndexIsSlot(ty: Type, s: State, k: Key)
    requires s.t0 != [] && (Rehashing(s) ==> s.t1 != [])
    ensures KeyIndex(ty, s, k) == -1 || KeyIndex(ty, s, k) == Slot(ty, k, if Rehashing(s) then |s.t1| else |s.t0|)
  {
    hide Slot, Blocked;
  }

  /** An entry with the same hash lies in a chain that is walked. */
  lemma SameHashIsProbed(ty: Type, s: State, k: Key, f: Entry)
    requires Inv(ty, s) && s.t0 != [] && f in Union(s) && ty.hash(f.key) == ty.hash(k)
    ensures f in Probed(ty, s, k)
  {
    ItemsAre(s.t0, f);
    ItemsAre(s.t1, f);
    if f in Items(s.t0) {
      var i :| 0 <= i < |s.t0| && f in s.t0[i];
      assert PlacedAt(ty, s.t0[i], i, |s.t0|);
    } else {
      assert !Rehashing(s) ==> Items(s.t1) == multiset{};
      var i :| 0 <= i < |s.t1| && f in s.t1[i];
      assert PlacedAt(ty, s.t1[i], i, |s.t1|);
    }
  }

  /** A new key whose hash collides with a stored one is always refused. */
  lemma CollisionIsRefused(ty: Type, s: State, e: Entry, f: Entry)
    requires Inv(ty, s) && Absent(ty, Union(s), e.key) && f in Union(s) && ty.hash(f.key) == ty.hash(e.key)
    ensures Add(ty, s, e).1 == OS_ERR
  {
    ExpandIfNeededKeeps(ty, s);
    AddAbsentExactly(ty, s, e);
    AddKeeps(ty, s, e);
    SameHashIsProbed(ty, ExpandIfNeeded(s).0, e.key, f);
  }

  /** Of two different keys in a new dictionary the second is accepted exactly when the hashes differ in a bit of 99. */
  lemma SecondAcceptedExactly(ty: Type, e: Entry, f: Entry)
    requires !Equal(ty, f.key, e.key)
    ensures var (s, rc) := Add(ty, CREATED, e);
            && Inv(ty, s) && rc == OS_OK
            && (Add(ty, s, f).1 == OS_OK <==>
                  !(SameBit(ty, e.key, f.key, 0) && SameBit(ty, e.key, f.key, 1) && SameBit(ty, e.key, f.key, 5) && SameBit(ty, e.key, f.key, 6)))
  {
    var s := FirstAdd(ty, e);
    AddAbsentExactly(ty, s, f);
    ExpandIfNeededMakes(ty, s);
    SameSlotExactly(ty, e.key, f.key, DICT_HT_SIZE);
    AgreeUnder99(ty, e.key, f.key);
    hide Slot, Add, Inv, ExpandIfNeeded, SameBit, AgreeUnder, Used;
    assert Probed(ty, s, f.key) == s.t0[Slot(ty, f.key, DICT_HT_SIZE)];
  }

  /** An empty table takes a key at its slot. */
  lemma EmptyIndex(ty: Type, s: State, k: Key)
    requires s.t0 != [] && !Rehashing(s) && forall i | 0 <= i < |s.t0| :: s.t0[i] == []
    ensures KeyIndex(ty, s, k) == Slot(ty, k, |s.t0|)
  {
    hide Slot;
  }

  /** The first entry of a new dictionary lies alone in a table of 100 chains. */
  lemma FirstAdd(ty: Type, e: Entry) returns (s: State)
    ensures Inv(ty, CREATED) && Add(ty, CREATED, e) == (s, OS_OK) && Inv(ty, s) && !Rehashing(s)
    ensures |s.t0| == DICT_HT_SIZE && Used(s.t0) == 1 && Union(s) == multiset{e}
    ensures forall i | 0 <= i < |s.t0| :: s.t0[i] == if i == Slot(ty, e.key, |s.t0|) then [e] else []
  {
    CreatedInv(ty);
    ExpandIfNeededMakes(ty, CREATED);
    AddByIndex(ty, CREATED, e);
    AddKeeps(ty, CREATED, e);
    var empty := ExpandIfNeeded(CREATED).0;
    EmptyIndex(ty, empty, e.key);
    hide Add, ExpandIfNeeded, Slot, Placed, Items, KeyIndex, Used;
    s := Insert(empty, Slot(ty, e.key, DICT_HT_SIZE), e);
    UsedCountsItems(s.t0);
    NoItems(s.t1);
  }

  lemma AgreeUnder99(ty: Type, k: Key, j: Key)
    ensures AgreeUnder(ty, 99, k, j) <==> SameBit(ty, k, j, 0) && SameBit(ty, k, j, 1) && SameBit(ty, k, j, 5) && SameBit(ty, k, j, 6)
  {
    hide SameBit;
    forall b: nat ensures Bits.BitSet(99, b) <==> b == 0 || b == 1 || b == 5 || b == 6 {
      MaskBit(b);
    }
  }

  lemma HalfBit(x: nat, b: nat)
    requires b > 0
    ensures Bits.BitSet(x, b) == Bits.BitSet(x / 2, b - 1)
  {
  }

  /** 99 is binary 1100011. */
  lemma MaskBit(b: nat)
    ensures Bits.BitSet(99, b) <==> b == 0 || b == 1 || b == 5 || b == 6
  {
    ByHalves(99, b);
    assert 99 / 8 == 12;
    if b >= 3 {
      ByHalves(12, b - 3);
      assert 12 / 16 == 0;
      if b >= 7 {
        Bits.NoBits(b - 7);
      }
    }
    hide Bits.BitSet;
  }

  lemma ByHalves(x: nat, b: int)
    ensures b == 0 ==> (Bits.BitSet(x, b) <==> x % 2 == 1)
    ensures b == 1 ==> (Bits.BitSet(x, b) <==> x / 2 % 2 == 1)
    ensures b == 2 ==> (Bits.BitSet(x, b) <==> x / 4 % 2 == 1)
    ensures b == 3 ==> (Bits.BitSet(x, b) <==> x / 8 % 2 == 1)
    ensures b >= 3 ==> Bits.BitSet(x, b) == Bits.BitSet(x / 8, b - 3)
    ensures b >= 4 ==> Bits.BitSet(x, b) == Bits.BitSet(x / 16, b - 4)
  {
    if b > 0 {
      HalfBit(x, b);
      if b > 1 {
        HalfBit(x / 2, b - 1);
        if b > 2 {
          HalfBit(x / 4, b - 2);
          if b > 3 {
            HalfBit(x / 8, b - 3);
          }
        }
      }
    }
  }

  /** The shortest such run: one hash for all keys, and two different keys. */
  const ONE_HASH := Type(_ => 0, (a, b) => a - b)

  lemma AbsentKeyRefused()
    ensures var s := Add(ONE_HASH, CREATED, Entry(1, 0)).0;
            && Lawful(ONE_HASH) && Union(s) == multiset{Entry(1, 0)} && Absent(ONE_HASH, Union(s), 2)
            && Inv(ONE_HASH, s) && Add(ONE_HASH, s, Entry(2, 0)).1 == OS_ERR
  {
    hide Add, Inv;
    var e := Entry(1, 0);
    CreatedInv(ONE_HASH);
    FirstAddSucceeds(ONE_HASH, e);
    AddKeeps(ONE_HASH, CREATED, e);
    assert !Equal(ONE_HASH, 2, 1);
    CollisionIsRefused(ONE_HASH, Add(ONE_HASH, CREATED, e).0, Entry(2, 0), e);
  }

  lemma FirstAddSucceeds(ty: Type, e: Entry)
    ensures Inv(ty, CREATED) && Add(ty, CREATED, e).1 == OS_OK
  {
    CreatedInv(ty);
    AddAbsentExactly(ty, CREATED, e);
    ExpandIfNeededKeeps(ty, CREATED);
    var s' := ExpandIfNeeded(CREATED).0;
    hide ExpandIfNeeded, Add;
    var c := Probed(ty, s', e.key);
    if c != [] {
      ProbedInUnion(ty, s', e.key, c[0]);
      assert false;
    }
  }

  lemma CreatedInv(ty: Type)
    ensures Inv(ty, CREATED) && Union(CREATED) == multiset{} && Distinct(ty, Union(CREATED))
  {
  }

  // ---------- whole runs ----------

  datatype Op = OpAdd(entry: Entry) | OpRehash(n: int) | OpExpand(size: nat)

  ghost function Apply(ty: Type, s: State, op: Op): State
    requires Inv(ty, s)
  {
    match op
    case OpAdd(e) => Add(ty, s, e).0
    case OpRehash(n) => Rehash(ty, s, n)
    case OpExpand(size) => Expand(s, size).0
  }

  lemma ApplyKeeps(ty: Type, s: State, op: Op)
    requires Inv(ty, s)
    ensures Inv(ty, Apply(ty, s, op))
  {
    match op
    case OpAdd(e) => AddKeeps(ty, s, e);
    case OpRehash(n) => RehashKeeps(ty, s, n);
    case OpExpand(size) => ExpandKeeps(ty, s, size);
  }

  /** The state after the operations, in their order. */
  ghost function Exec(ty: Type, s: State, ops: seq<Op>): (s': State)
    requires Inv(ty, s)
    ensures Inv(ty, s')
    decreases |ops|
  {
    if ops == [] then s
    else
      ApplyKeeps(ty, s, ops[0]);
      Exec(ty, Apply(ty, s, ops[0]), ops[1..])
  }

  /** The entries whose addition returned OS_OK. */
  ghost function Accepted(ty: Type, s: State, ops: seq<Op>): multiset<Entry>
    requires Inv(ty, s)
    decreases |ops|
  {
    if ops == [] then multiset{}
    else
      ApplyKeeps(ty, s, ops[0]);
      var rest := Accepted(ty, Apply(ty, s, ops[0]), ops[1..]);
      if ops[0].OpAdd? && Add(ty, s, ops[0].entry).1 == OS_OK then multiset{ops[0].entry} + rest else rest
  }

  /** Every addition is of a key that is not there. */
  ghost predicate OnlyNewKeys(ty: Type, s: State, ops: seq<Op>)
    requires Inv(ty, s)
    decreases |ops|
  {
    ops == [] || (
      ApplyKeeps(ty, s, ops[0]);
      && (ops[0].OpAdd? ==> Absent(ty, Union(s), ops[0].entry.key))
      && OnlyNewKeys(ty, Apply(ty, s, ops[0]), ops[1..]))
  }

  /** In any run the union holds what was accepted, whatever the state of the rehash. */
  lemma {:induction false} ExecHoldsAccepted(ty: Type, s: State, ops: seq<Op>)
    requires Inv(ty, s)
    ensures Union(Exec(ty, s, ops)) == Union(s) + Accepted(ty, s, ops)
    decreases |ops|
  {
    if ops != [] {
      var s' := Apply(ty, s, ops[0]);
      ApplyKeeps(ty, s, ops[0]);
      ApplyUnion(ty, s, ops[0]);
      hide Apply, Union, Inv, Add;
      ExecHoldsAccepted(ty, s', ops[1..]);
    }
  }

  lemma ApplyUnion(ty: Type, s: State, op: Op)
    requires Inv(ty, s)
    ensures Union(Apply(ty, s, op)) == Union(s) + if op.OpAdd? && Add(ty, s, op.entry).1 == OS_OK then multiset{op.entry} else multiset{}
  {
    match op
    case OpAdd(e) => AddKeeps(ty, s, e);
    case OpRehash(n) => RehashKeeps(ty, s, n);
    case OpExpand(size) => ExpandKeeps(ty, s, size);
  }

  lemma {:induction false} ExecKeepsDistinct(ty: Type, s: State, ops: seq<Op>)
    requires Lawful(ty) && Inv(ty, s) && Distinct(ty, Union(s)) && OnlyNewKeys(ty, s, ops)
    ensures Distinct(ty, Union(Exec(ty, s, ops)))
    decreases |ops|
  {
    if ops != [] {
      ApplyKeeps(ty, s, ops[0]);
      ApplyUnion(ty, s, ops[0]);
      if ops[0].OpAdd? {
        DistinctMore(ty, Union(s), ops[0].entry);
      }
      hide Apply, Union, Inv, Add, Distinct, Absent;
      ExecKeepsDistinct(ty, Apply(ty, s, ops[0]), ops[1..]);
    }
  }

  /** In every run that adds new keys only, a lookup returns exactly the accepted entry of its key. */
  lemma RunsFindAccepted(ty: Type, ops: seq<Op>, k: Key, e: Entry)
    requires Lawful(ty) && Inv(ty, CREATED) && OnlyNewKeys(ty, CREATED, ops)
    ensures Lookup(ty, Exec(ty, CREATED, ops), k) == Some(e) <==> e in Accepted(ty, CREATED, ops) && Equal(ty, k, e.key)
  {
    CreatedInv(ty);
    ExecHoldsAccepted(ty, CREATED, ops);
    ExecKeepsDistinct(ty, CREATED, ops);
    var s := Exec(ty, CREATED, ops);
    LookupDecides(ty, s, k);
    hide Inv, Lookup, Exec, Accepted, OnlyNewKeys, Union;
    if e in Union(s) && Equal(ty, k, e.key) && Lookup(ty, s, k).Some? {
      UniqueFinding(ty, Union(s), k, Lookup(ty, s, k), Some(e));
    }
  }
}
