/**
 The functions of dict.c on their two bucket arrays, changed in place.

 Each method is proved against the step of the same name in `Dict`. The chain of a bucket
 is a value: putting an entry in front builds the new chain.
 */
module DictTables {
  import Bits
  import opened Common
  import opened Dict

  const INT_LIMIT: nat := 0x8000_0000

  /** dictht: `table` is null until memory is allocated for it. */
  datatype Dictht = Dictht(table: array?<Chain>, size: nat, sizemask: nat, used: nat)

  /** A table after _dict_reset. */
  const RESET := Dictht(null, 0, 0, 0)

  ghost function Chains(h: Dictht): Table
    reads h.table
  {
    if h.table == null then [] else h.table[..]
  }

  ghost predicate Counted(h: Dictht)
    reads h.table
  {
    && h.size == |Chains(h)| && h.used == Used(Chains(h))
    && h.sizemask == (if h.size == 0 then 0 else h.size - 1)
    && (h.table != null ==> h.size > 0)
  }

  /** _dict_next_power: unsigned long never wraps while doubling. */
  method FindNextPower(size: nat) returns (i: nat)
    requires size < ULONG_RANGE
    ensures i == NextPower(size)
  {
    i := DICT_HT_SIZE;
    if size >= LONG_MAX {
      return LONG_MAX;
    }
    while i < size
      invariant 0 < i < ULONG_RANGE && Doubled(i, size) == NextPower(size)
      decreases size - i
    {
      i := i * 2 % ULONG_RANGE;
    }
  }

  /** The walk of dict_find along one chain. */
  method WalkFind(ty: Type, chain: Chain, k: Key) returns (r: Option<Entry>)
    ensures r == FindIn(ty, chain, k)
  {
    var he := chain;
    while he != []
      invariant FindIn(ty, he, k) == FindIn(ty, chain, k)
      decreases |he|
    {
      if ty.cmp(k, he[0].key) == 0 {
        return Some(he[0]);
      }
      he := he[1..];
    }
    r := None;
  }

  /** The walk of _dict_key_index along one chain. */
  method WalkBlocked(ty: Type, chain: Chain, k: Key) returns (blocked: bool)
    ensures blocked <==> Blocked(ty, chain, k)
  {
    var he := chain;
    while he != []
      invariant |he| <= |chain| && he == chain[|chain| - |he|..]
      invariant forall j | 0 <= j < |chain| - |he| :: Equal(ty, k, chain[j].key)
      decreases |he|
    {
      if ty.cmp(k, he[0].key) != 0 {
        assert he[0] in chain;
        return true;
      }
      he := he[1..];
    }
    blocked := false;
  }

  /** The entry becomes the first of its chain and is counted. */
  method PushInto(ht: Dictht, index: nat, e: Entry) returns (h: Dictht)
    requires Counted(ht) && ht.table != null && index < ht.size
    modifies ht.table
    ensures Counted(h) && h == ht.(used := ht.used + 1) && Chains(h) == Push(old(Chains(ht)), index, e)
  {
    hide Used;
    ghost var t := ht.table[..];
    ItemsPush(t, index, e);
    ht.table[index] := [e] + ht.table[index];
    assert ht.table[..] == Push(t, index, e);
    h := ht.(used := ht.used + 1);
  }

  /** A table of empty chains, as os_calloc gives it. */
  method NewTable(size: nat) returns (n: Dictht)
    requires size > 0
    ensures n.table != null && fresh(n.table) && Counted(n) && Chains(n) == Fresh(size)
  {
    var table := new Chain[size](_ => []);
    assert table[..] == Fresh(size);
    NoItems(table[..]);
    n := Dictht(table, size, size - 1, 0);
  }

  class DictObject {
    const ty: Type
    var h0: Dictht
    var h1: Dictht
    var rehashidx: int

    ghost function View(): State
      reads this, h0.table, h1.table
    {
      State(Chains(h0), Chains(h1), rehashidx)
    }

    ghost predicate Valid()
      reads this, h0.table, h1.table
    {
      && Counted(h0) && Counted(h1) && Inv(ty, View())
      && (h0.table != null ==> h0.table != h1.table)
    }

    /** dict_create */
    constructor (ty: Type)
      ensures Valid() && View() == CREATED && this.ty == ty && h0.table == h1.table == null
    {
      this.ty := ty;
      h0, h1 := RESET, RESET;
      rehashidx := -1;
    }

    predicate IsRehashing()
      reads this
    {
      rehashidx != -1
    }

    /** dict_expand */
    method ExpandTo(size: nat) returns (rc: int)
      requires Valid() && size < ULONG_RANGE
      modifies this`h0, this`h1, this`rehashidx
      ensures Valid() && (View(), rc) == Expand(old(View()), size)
      ensures h0.table == old(h0.table) || fresh(h0.table)
      ensures h1.table == old(h1.table) || fresh(h1.table)
    {
      ExpandKeeps(ty, View(), size);
      hide Used, Inv, NextPower, Fresh;
      var realsize := FindNextPower(size);
      if IsRehashing() || h0.used > size {
        return OS_ERR;
      }
      var n := NewTable(realsize);
      if h0.table == null {
        h0 := n;
        return OS_OK;
      }
      h1 := n;
      rehashidx := 0;
      rc := OS_OK;
    }

    /** _dict_expand_if_needed */
    method MakeRoom() returns (rc: int)
      requires Valid() && 2 * h0.used < ULONG_RANGE
      modifies this`h0, this`h1, this`rehashidx
      ensures Valid() && (View(), rc) == ExpandIfNeeded(old(View())) && rc == OS_OK && h0.table != null
      ensures h0.table == old(h0.table) || fresh(h0.table)
      ensures h1.table == old(h1.table) || fresh(h1.table)
    {
      ExpandIfNeededKeeps(ty, View());
      hide Inv, Expand, Used;
      if IsRehashing() {
        return OS_OK;
      }
      if h0.size == 0 {
        rc := ExpandTo(DICT_HT_SIZE);
        return;
      }
      if h0.used >= h0.size && h0.used / h0.size > DICT_RESIZE_RATIO {
        rc := ExpandTo(h0.used * 2);
        return;
      }
      rc := OS_OK;
    }

    /** The inner loop of dict_rehash: the chain of one bucket moves to table 1, entry by entry. */
    method MoveBucket(i: nat)
      requires Counted(h0) && Counted(h1) && h0.table != null && h1.table != null && h0.table != h1.table
      requires i < h0.size && Placed(ty, h0.table[..]) && Placed(ty, h1.table[..])
      modifies this`h0, this`h1, h0.table, h1.table
      ensures Counted(h0) && Counted(h1) && h0.table == old(h0.table) && h1.table == old(h1.table)
      ensures Chains(h0) == old(Chains(h0))[i := []]
      ensures Chains(h1) == MoveChain(ty, old(Chains(h0))[i], old(Chains(h1)))
    {
      ghost var t0, t1 := h0.table[..], h1.table[..];
      ItemsUpdate(t0, i, []);
      MoveChainKeeps(ty, t0[i], t1);
      hide Placed, Used;
      var de := h0.table[i];
      while de != []
        invariant h0 == old(h0).(used := h0.used) && h1 == old(h1).(used := h1.used)
        invariant h0.table[..] == t0 && h1.table.Length == |t1|
        invariant h0.used + |t0[i]| == old(h0.used) + |de|
        invariant h1.used + |de| == old(h1.used) + |t0[i]|
        invariant |de| <= |t0[i]| <= old(h0.used)
        invariant MoveChain(ty, de, h1.table[..]) == MoveChain(ty, t0[i], t1)
        decreases |de|
      {
        var h := Bits.And(ty.hash(de[0].key), h1.sizemask);
        assert h == Slot(ty, de[0].key, |t1|);
        ghost var u := h1.table[..];
        h1.table[h] := [de[0]] + h1.table[h];
        assert h1.table[..] == u[h := [de[0]] + u[h]];
        h0 := h0.(used := h0.used - 1);
        h1 := h1.(used := h1.used + 1);
        de := de[1..];
      }
      h0.table[i] := [];
      assert h0.table[..] == t0[i := []];
    }

    /** The scan for the next chain with entries never leaves table 0. */
    method NextFilled() returns (i: nat)
      requires Valid() && IsRehashing() && h0.used > 0
      ensures exists j | rehashidx <= j < |View().t0| :: View().t0[j] != []
      ensures 0 <= rehashidx && i == FirstChain(View().t0, rehashidx)
    {
      MoreToMove(ty, View());
      hide Placed, Used;
      ghost var t0 := h0.table[..];
      i := rehashidx;
      if h0.size > rehashidx {
        while h0.table[i] == []
          invariant rehashidx <= i < h0.size
          invariant exists j | i <= j < |t0| :: t0[j] != []
          invariant FirstChain(t0, i) == FirstChain(t0, rehashidx)
          decreases h0.size - i
        {
          assert t0[i] == [];
          i := i + 1;
        }
      }
    }

    /** The rest of a turn when table 0 still holds entries. */
    method MoveNext()
      requires Valid() && IsRehashing() && h0.used > 0
      modifies this`h0, this`h1, this`rehashidx, h0.table, h1.table
      ensures Valid() && View() == RehashStep(ty, old(View()))
      ensures h0.table == old(h0.table) && h1.table == old(h1.table)
    {
      RehashStepKeeps(ty, View());
      RehashStepIs(ty, View());
      hide Inv, RehashStep, Used, MoveChain, FirstChain, Placed;
      var i := NextFilled();
      MoveBucket(i);
      rehashidx := i + 1;
    }

    /** One turn of the outer loop of dict_rehash. */
    method RehashOnce()
      requires Valid() && IsRehashing()
      modifies this`h0, this`h1, this`rehashidx, h0.table, h1.table
      ensures Valid() && View() == RehashStep(ty, old(View()))
      ensures h0.table == old(h0.table) || h0.table == old(h1.table)
      ensures h1.table == old(h1.table) || h1.table == null
    {
      RehashStepKeeps(ty, View());
      RehashStepIs(ty, View());
      hide Inv, RehashStep, Used, Placed;
      if h0.used == 0 {
        h0 := h1;
        h1 := RESET;
        rehashidx := -1;
        return;
      }
      MoveNext();
    }

    /** dict_rehash: 1 as long as the rehash goes on, 0 when there is none or it has ended. */
    method RehashTurns(count: int) returns (rc: int)
      requires Valid()
      modifies this`h0, this`h1, this`rehashidx, h0.table, h1.table
      ensures Valid() && View() == Rehash(ty, old(View()), count)
      ensures rc == if Rehashing(View()) then 1 else 0
    {
      if !IsRehashing() {
        return 0;
      }
      hide Inv, RehashStep;
      var n := count;
      ghost var before := View();
      while n != 0
        invariant Valid() && IsRehashing()
        invariant {h0.table, h1.table} <= {old(h0.table), old(h1.table)}
        invariant Rehash(ty, View(), n) == Rehash(ty, before, count)
        decreases Work(View())
      {
        StepWorks(ty, View());
        RehashStepKeeps(ty, View());
        RehashOnce();
        n := n - 1;
        if !IsRehashing() {
          return 0;
        }
      }
      rc := 1;
    }

    /** _dict_key_index, once there is room. */
    method IndexOf(key: Key) returns (idx: int)
      requires Valid() && h0.table != null
      ensures idx == KeyIndex(ty, View(), key)
      ensures idx == -1 || 0 <= idx < if IsRehashing() then h1.size else h0.size
    {
      hide Placed, Used;
      var h := ty.hash(key);
      idx := Bits.And(h, h0.sizemask);
      assert idx == Slot(ty, key, |View().t0|);
      var blocked := WalkBlocked(ty, h0.table[idx], key);
      if blocked {
        return -1;
      }
      if !IsRehashing() {
        return;
      }
      idx := Bits.And(h, h1.sizemask);
      assert idx == Slot(ty, key, |View().t1|);
      blocked := WalkBlocked(ty, h1.table[idx], key);
      if blocked {
        return -1;
      }
    }

    /** The end of dict_add_raw: the entry goes to the front of its chain. */
    method PushEntry(index: nat, e: Entry)
      requires Valid() && h0.table != null && index < if IsRehashing() then h1.size else h0.size
      requires Inv(ty, Insert(View(), index, e))
      modifies this`h0, this`h1, h0.table, h1.table
      ensures Valid() && View() == Insert(old(View()), index, e)
    {
      hide Inv;
      if IsRehashing() {
        h1 := PushInto(h1, index, e);
      } else {
        h0 := PushInto(h0, index, e);
      }
    }

    /** _dict_key_index */
    method KeyIndexFor(key: Key) returns (index: int)
      requires Valid() && 2 * h0.used < ULONG_RANGE
      modifies this`h0, this`h1, this`rehashidx
      ensures Valid() && h0.table != null && View() == ExpandIfNeeded(old(View())).0
      ensures index == KeyIndex(ty, View(), key)
      ensures index == -1 || 0 <= index < if IsRehashing() then h1.size else h0.size
      ensures h0.table == old(h0.table) || fresh(h0.table)
      ensures h1.table == old(h1.table) || fresh(h1.table)
    {
      assert OS_OK != OS_ERR;
      hide *;
      var rc := MakeRoom();
      if rc == OS_ERR {
        return -1;
      }
      index := IndexOf(key);
    }

    /** dict_add and dict_add_raw; the index is an int, so the table that takes the entry has at most 2^31 chains. */
    method AddEntry(key: Key, val: int) returns (rc: int)
      requires Valid() && 2 * h0.used < ULONG_RANGE
      requires var s := ExpandIfNeeded(View()).0; |if Rehashing(s) then s.t1 else s.t0| <= INT_LIMIT
      modifies this`h0, this`h1, this`rehashidx, h0.table, h1.table
      ensures Valid() && (View(), rc) == Add(ty, old(View()), Entry(key, val))
    {
      AddByIndex(ty, View(), Entry(key, val));
      AddKeeps(ty, View(), Entry(key, val));
      hide *;
      var index := KeyIndexFor(key);
      if index == -1 {
        return OS_ERR;
      }
      PushEntry(index, Entry(key, val));
      rc := OS_OK;
    }

    /** dict_find */
    method FindEntry(key: Key) returns (found: Option<Entry>)
      requires Valid()
      ensures found == Lookup(ty, View(), key)
    {
      hide Placed, Used;
      if h0.size == 0 {
        return None;
      }
      var h := ty.hash(key);
      var idx := Bits.And(h, h0.sizemask);
      assert idx == Slot(ty, key, |View().t0|);
      found := WalkFind(ty, h0.table[idx], key);
      if found.Some? || !IsRehashing() {
        return;
      }
      idx := Bits.And(h, h1.sizemask);
      assert idx == Slot(ty, key, |View().t1|);
      found := WalkFind(ty, h1.table[idx], key);
    }
  }
}
