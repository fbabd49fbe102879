/**
 The string dictionary of arrays.h: chained buckets, rebuilt larger when a chain grows past three.

 A key may be stored several times. `Stack` is what the table holds for one key, newest
 first; every operation is described by what it does to all the stacks. `Dictionary` is the
 code in place.
 */
module StringDictionary {
  import opened Common

  type Key = string
  type Hash = string -> nat

  /** A pointer; 0 stands for NULL, which is also kIMAXDictionaryNotFound. */
  type Value = int
  const NOT_FOUND: Value := 0

  const LONGEST_CHAIN := 3
  const INT_LIMIT := 0x8000_0000

  datatype Entry = Entry(key: Key, value: Value)
  type Chain = seq<Entry>
  type Table = seq<Chain>

  /** DictHash: some 64-bit number modulo the size. */
  function Position(hash: Hash, k: Key, size: nat): (i: nat)
    requires size > 0
    ensures i < size
  {
    hash(k) % size
  }

  /** The values of one key, in the order of the chain. */
  function Select(c: Chain, k: Key): seq<Value> {
    if c == [] then [] else (if c[0].key == k then [c[0].value] else []) + Select(c[1..], k)
  }

  function Stack(hash: Hash, t: Table, k: Key): seq<Value> {
    if t == [] then [] else Select(t[Position(hash, k, |t|)], k)
  }

  /** Every entry lies in the chain of its hash. */
  ghost predicate Placed(hash: Hash, t: Table) {
    forall i, e | 0 <= i < |t| && e in t[i] :: Position(hash, e.key, |t|) == i
  }

  /** All entries from a chain on, in the order in which the loops visit them. */
  function Flat(t: Table, i: nat): Chain
    requires i <= |t|
    decreases |t| - i
  {
    if i == |t| then [] else t[i] + Flat(t, i + 1)
  }

  function Head(s: seq<Value>): Value {
    if s == [] then NOT_FOUND else s[0]
  }

  // ---------- lemmas on selections ----------

  lemma {:induction false} SelectConcat(c: Chain, d: Chain, k: Key)
    ensures Select(c + d, k) == Select(c, k) + Select(d, k)
    decreases |c|
  {
    if c == [] {
      assert c + d == d;
    } else {
      assert (c + d)[0] == c[0] && (c + d)[1..] == c[1..] + d;
      SelectConcat(c[1..], d, k);
      var first := if c[0].key == k then [c[0].value] else [];
      assert (first + Select(c[1..], k)) + Select(d, k) == first + (Select(c[1..], k) + Select(d, k));
    }
  }

  lemma {:induction false} SelectNone(c: Chain, k: Key)
    ensures Select(c, k) == [] <==> forall e | e in c :: e.key != k
  {
    if c != [] {
      SelectNone(c[1..], k);
      assert c == [c[0]] + c[1..];
    }
  }

  /** A placed table holds a key in one chain only. */
  lemma {:induction false} SelectFlat(hash: Hash, t: Table, i: nat, k: Key)
    requires Placed(hash, t) && i <= |t|
    ensures Select(Flat(t, i), k) == if t != [] && i <= Position(hash, k, |t|) then Stack(hash, t, k) else []
    decreases |t| - i
  {
    if i < |t| {
      SelectConcat(t[i], Flat(t, i + 1), k);
      SelectFlat(hash, t, i + 1, k);
      if i != Position(hash, k, |t|) {
        SelectNone(t[i], k);
      }
    }
  }

  lemma {:induction false} ReverseLast<T>(s: seq<T>)
    ensures |Reverse(s)| == |s| && (s != [] ==> Reverse(s)[0] == s[|s| - 1])
  {
    if |s| > 1 {
      ReverseLast(s[1..]);
    }
  }

  // ---------- the operations on a table ----------

  function Fresh(size: nat): Table {
    seq(size, _ => [])
  }

  function Push(hash: Hash, t: Table, e: Entry): (u: Table)
    requires t != []
    ensures |u| == |t|
  {
    var i := Position(hash, e.key, |t|);
    t[i := [e] + t[i]]
  }

  function PushAll(hash: Hash, t: Table, entries: Chain): (u: Table)
    requires t != []
    ensures |u| == |t|
    decreases |entries|
  {
    if entries == [] then t else PushAll(hash, Push(hash, t, entries[0]), entries[1..])
  }

  /** i_new_size, in int arithmetic that the sizes must fit. */
  function LargerSize(size: nat): nat {
    (size + 2) * 3 / 2
  }

  function Rebuilt(hash: Hash, t: Table): Table {
    PushAll(hash, Fresh(LargerSize(|t|)), Flat(t, 0))
  }

  lemma RebuiltIs(hash: Hash, t: Table)
    ensures Rebuilt(hash, t) == PushAll(hash, Fresh(LargerSize(|t|)), Flat(t, 0))
  {
  }

  lemma {:induction false} PushAllConcat(hash: Hash, t: Table, c: Chain, d: Chain)
    requires t != []
    ensures PushAll(hash, t, c + d) == PushAll(hash, PushAll(hash, t, c), d)
    decreases |c|
  {
    if c == [] {
      assert c + d == d;
    } else {
      assert (c + d)[1..] == c[1..] + d;
      PushAllConcat(hash, Push(hash, t, c[0]), c[1..], d);
    }
  }

  /** dictionary_insert; an unallocated table gets one bucket first. */
  function Insert(hash: Hash, t: Table, e: Entry): Table {
    var pushed := Push(hash, if t == [] then Fresh(1) else t, e);
    if Grows(hash, t, e.key) then Rebuilt(hash, pushed) else pushed
  }

  /** The insertion makes the chain longer than three. */
  predicate Grows(hash: Hash, t: Table, k: Key) {
    t != [] && |t[Position(hash, k, |t|)]| + 1 > LONGEST_CHAIN
  }

  /** The chain without its first entry for the key. */
  function Drop(c: Chain, k: Key): Chain {
    if c == [] then [] else if c[0].key == k then c[1..] else [c[0]] + Drop(c[1..], k)
  }

  /** dictionary_remove_value_for_key */
  function Remove(hash: Hash, t: Table, k: Key): Table {
    if t == [] then t
    else
      var i := Position(hash, k, |t|);
      t[i := Drop(t[i], k)]
  }

  // ---------- what they do to the stacks ----------

  lemma PushStacks(hash: Hash, t: Table, e: Entry, k: Key)
    requires t != [] && Placed(hash, t)
    ensures Placed(hash, Push(hash, t, e))
    ensures Stack(hash, Push(hash, t, e), k) == (if k == e.key then [e.value] else []) + Stack(hash, t, k)
  {
    var i := Position(hash, e.key, |t|);
    assert ([e] + t[i])[1..] == t[i];
  }

  lemma {:induction false} PushAllStacks(hash: Hash, t: Table, entries: Chain, k: Key)
    requires t != [] && Placed(hash, t)
    ensures Placed(hash, PushAll(hash, t, entries))
    ensures Stack(hash, PushAll(hash, t, entries), k) == Reverse(Select(entries, k)) + Stack(hash, t, k)
    decreases |entries|
  {
    hide Placed, Stack, Push;
    if entries != [] {
      PushStacks(hash, t, entries[0], k);
      PushAllStacks(hash, Push(hash, t, entries[0]), entries[1..], k);
      ReversePush(entries, k, Stack(hash, t, k));
    }
  }

  lemma ReversePush(entries: Chain, k: Key, rest: seq<Value>)
    requires entries != []
    ensures Reverse(Select(entries[1..], k)) + ((if k == entries[0].key then [entries[0].value] else []) + rest)
            == Reverse(Select(entries, k)) + rest
  {
    var tail := Select(entries[1..], k);
    assert [] + tail == tail && [] + rest == rest;
    if k == entries[0].key {
      assert ([entries[0].value] + tail)[1..] == tail;
    }
  }

  lemma FreshStacks(hash: Hash, size: nat, k: Key)
    ensures Placed(hash, Fresh(size)) && Stack(hash, Fresh(size), k) == []
  {
  }

  /** A rebuild turns every stack around. */
  lemma RebuiltStacks(hash: Hash, t: Table, k: Key)
    requires Placed(hash, t)
    ensures Placed(hash, Rebuilt(hash, t)) && Rebuilt(hash, t) != []
    ensures Stack(hash, Rebuilt(hash, t), k) == Reverse(Stack(hash, t, k))
  {
    var empty := Fresh(LargerSize(|t|));
    FreshStacks(hash, |empty|, k);
    PushAllStacks(hash, empty, Flat(t, 0), k);
    SelectFlat(hash, t, 0, k);
  }

  /** An insertion pushes the value; when the chain grew too long it turns all the stacks around as well. */
  lemma InsertStacks(hash: Hash, t: Table, e: Entry, k: Key)
    requires Placed(hash, t)
    ensures Placed(hash, Insert(hash, t, e)) && Insert(hash, t, e) != []
    ensures var pushed := (if k == e.key then [e.value] else []) + Stack(hash, t, k);
            Stack(hash, Insert(hash, t, e), k) == if Grows(hash, t, e.key) then Reverse(pushed) else pushed
  {
    hide Placed, Rebuilt;
    FreshStacks(hash, 1, k);
    var base := if t == [] then Fresh(1) else t;
    PushStacks(hash, base, e, k);
    RebuiltStacks(hash, Push(hash, base, e), k);
  }

  lemma {:induction false} DropSelect(c: Chain, key: Key, k: Key)
    ensures Select(Drop(c, key), k) == if k == key && Select(c, k) != [] then Select(c, k)[1..] else Select(c, k)
    ensures forall e | e in Drop(c, key) :: e in c
  {
    if c != [] {
      DropSelect(c[1..], key, k);
      if c[0].key != key {
        assert ([c[0]] + Drop(c[1..], key))[1..] == Drop(c[1..], key);
      }
    }
  }

  /** One step of the walk. */
  lemma DropFirst(before: Chain, entry: Chain, key: Key)
    requires entry != []
    ensures entry[0].key == key ==> before + Drop(entry, key) == before + entry[1..]
    ensures entry[0].key != key ==> before + Drop(entry, key) == before + [entry[0]] + Drop(entry[1..], key)
    ensures before + entry == before + [entry[0]] + entry[1..]
  {
    var e, rest, dropped := [entry[0]], entry[1..], Drop(entry[1..], key);
    assert Drop(entry, key) == if entry[0].key == key then rest else e + dropped;
    hide Drop;
    assert entry == e + rest;
    AppendTwice(before, e, rest);
    AppendTwice(before, e, dropped);
  }

  lemma AppendTwice(a: Chain, b: Chain, c: Chain)
    ensures a + (b + c) == a + b + c
  {
  }

  /** A removal takes the newest value of the key, and nothing else. */
  lemma RemoveStacks(hash: Hash, t: Table, key: Key, k: Key)
    requires Placed(hash, t)
    ensures Placed(hash, Remove(hash, t, key))
    ensures var s := Stack(hash, t, k);
            Stack(hash, Remove(hash, t, key), k) == if k == key && s != [] then s[1..] else s
  {
    if t != [] {
      DropSelect(t[Position(hash, key, |t|)], key, k);
    }
  }

  // ---------- what a caller sees ----------

  /** dictionary_value_for_key */
  function ValueFor(hash: Hash, t: Table, k: Key): Value {
    Head(Stack(hash, t, k))
  }

  /** A value just inserted is found, except when a rebuild brings the key's oldest value to the front. */
  lemma InsertedIsFoundExactly(hash: Hash, t: Table, k: Key, v: Value)
    requires Placed(hash, t)
    ensures var s := Stack(hash, t, k);
            ValueFor(hash, Insert(hash, t, Entry(k, v)), k) == v <==>
              !Grows(hash, t, k) || s == [] || s[|s| - 1] == v
  {
    InsertStacks(hash, t, Entry(k, v), k);
    var pushed := [v] + Stack(hash, t, k);
    ReverseLast(pushed);
  }

  /** Four values for one key: after the fourth insertion the first one is found again. */
  lemma FourthInsertionReturnsFirst(hash: Hash, k: Key, a: Value, b: Value, c: Value, d: Value)
    ensures var t := Insert(hash, Insert(hash, Insert(hash, [], Entry(k, a)), Entry(k, b)), Entry(k, c));
            ValueFor(hash, t, k) == c && ValueFor(hash, Insert(hash, t, Entry(k, d)), k) == a
  {
    InsertOneBucket(hash, [], Entry(k, a));
    assert Insert(hash, [], Entry(k, a)) == Insert(hash, [[]], Entry(k, a)) by {
      assert Fresh(1) == [[]];
    }
    assert [Entry(k, a)] + [] == [Entry(k, a)];
    assert [Entry(k, b)] + [Entry(k, a)] == [Entry(k, b), Entry(k, a)];
    assert [Entry(k, c)] + [Entry(k, b), Entry(k, a)] == [Entry(k, c), Entry(k, b), Entry(k, a)];
    InsertOneBucket(hash, [Entry(k, a)], Entry(k, b));
    InsertOneBucket(hash, [Entry(k, b), Entry(k, a)], Entry(k, c));
    var t: Table := [[Entry(k, c), Entry(k, b), Entry(k, a)]];
    assert Select(t[0][2..], k) == [a] && Select(t[0][1..], k) == [b, a] && Stack(hash, t, k) == [c, b, a];
    InsertStacks(hash, t, Entry(k, d), k);
    ReverseLast([d, c, b, a]);
  }

  lemma InsertOneBucket(hash: Hash, c: Chain, e: Entry)
    requires |c| < LONGEST_CHAIN
    ensures Insert(hash, [c], e) == [[e] + c]
  {
  }

  // ---------- when a rebuild happens ----------

  /** The entries whose hash is that of the key modulo the size. */
  function Colliding(hash: Hash, c: Chain, k: Key, size: nat): nat
    requires size > 0
  {
    if c == [] then 0 else (if hash(c[0].key) % size == hash(k) % size then 1 else 0) + Colliding(hash, c[1..], k, size)
  }

  lemma {:induction false} CollidingConcat(hash: Hash, c: Chain, d: Chain, k: Key, size: nat)
    requires size > 0
    ensures Colliding(hash, c + d, k, size) == Colliding(hash, c, k, size) + Colliding(hash, d, k, size)
    decreases |c|
  {
    if c == [] {
      assert c + d == d;
    } else {
      assert (c + d)[0] == c[0] && (c + d)[1..] == c[1..] + d;
      CollidingConcat(hash, c[1..], d, k, size);
    }
  }

  lemma {:induction false} CollidingAll(hash: Hash, c: Chain, k: Key, size: nat)
    requires size > 0
    ensures (forall e | e in c :: hash(e.key) % size == hash(k) % size) ==> Colliding(hash, c, k, size) == |c|
    ensures (forall e | e in c :: hash(e.key) % size != hash(k) % size) ==> Colliding(hash, c, k, size) == 0
  {
    if c != [] {
      assert c[0] in c && forall e | e in c[1..] :: e in c;
      CollidingAll(hash, c[1..], k, size);
    }
  }

  lemma {:induction false} CollidingFlat(hash: Hash, t: Table, i: nat, k: Key)
    requires t != [] && Placed(hash, t) && i <= |t|
    ensures Colliding(hash, Flat(t, i), k, |t|) == if i <= Position(hash, k, |t|) then |t[Position(hash, k, |t|)]| else 0
    decreases |t| - i
  {
    if i < |t| {
      CollidingConcat(hash, t[i], Flat(t, i + 1), k, |t|);
      CollidingFlat(hash, t, i + 1, k);
      CollidingAll(hash, t[i], k, |t|);
    }
  }

  /**
   A dictionary is rebuilt, half as large again and three buckets more, exactly when three
   stored entries have the new key's hash modulo its size; otherwise it keeps its size.
   */
  lemma RebuildsExactly(hash: Hash, t: Table, e: Entry)
    requires Placed(hash, t)
    ensures |Insert(hash, t, e)| ==
            if t == [] then 1
            else if Colliding(hash, Flat(t, 0), e.key, |t|) >= 3 then |t| + |t| / 2 + 3
            else |t|
  {
    if t != [] {
      CollidingFlat(hash, t, 0, e.key);
    }
    hide Placed, Flat, PushAll;
  }

  // ---------- distinct keys: a finite map ----------

  ghost predicate Once(hash: Hash, t: Table) {
    forall k :: |Stack(hash, t, k)| <= 1
  }

  ghost function KeysOf(c: Chain): set<Key> {
    set e | e in c :: e.key
  }

  ghost function AsMap(hash: Hash, t: Table): map<Key, Value> {
    map k | k in KeysOf(Flat(t, 0)) :: ValueFor(hash, t, k)
  }

  lemma KeyHasStack(hash: Hash, t: Table, k: Key)
    requires Placed(hash, t)
    ensures k in AsMap(hash, t) <==> Stack(hash, t, k) != []
  {
    SelectFlat(hash, t, 0, k);
    SelectNone(Flat(t, 0), k);
    hide Placed, Stack;
  }

  lemma {:induction false} CountKeys(c: Chain)
    requires forall k :: |Select(c, k)| <= 1
    ensures |KeysOf(c)| == |c|
  {
    if c != [] {
      var rest := c[1..];
      forall k ensures |Select(rest, k)| <= 1 {
        assert |Select(c, k)| <= 1;
      }
      CountKeys(rest);
      SelectNone(rest, c[0].key);
      assert |Select(c, c[0].key)| <= 1;
      assert c == [c[0]] + rest;
      assert KeysOf(c) == {c[0].key} + KeysOf(rest);
    }
  }

  /** dictionary_keys_count counts the entries: with distinct keys, the size of the map. */
  lemma CountIsSize(hash: Hash, t: Table)
    requires Placed(hash, t) && Once(hash, t)
    ensures |Flat(t, 0)| == |AsMap(hash, t)|
  {
    forall k ensures |Select(Flat(t, 0), k)| <= 1 {
      SelectFlat(hash, t, 0, k);
    }
    CountKeys(Flat(t, 0));
    assert AsMap(hash, t).Keys == KeysOf(Flat(t, 0));
  }

  function Single(m: map<Key, Value>, k: Key): seq<Value> {
    if k in m then [m[k]] else []
  }

  /** The stacks of distinct keys are the map. */
  lemma StackIsSingle(hash: Hash, t: Table, k: Key)
    requires Placed(hash, t) && Once(hash, t)
    ensures Stack(hash, t, k) == Single(AsMap(hash, t), k)
  {
    KeyHasStack(hash, t, k);
    assert |Stack(hash, t, k)| <= 1;
  }

  lemma SinglesAreMap(hash: Hash, t: Table, m: map<Key, Value>)
    requires Placed(hash, t) && forall k :: Stack(hash, t, k) == Single(m, k)
    ensures Once(hash, t) && AsMap(hash, t) == m
  {
    hide Placed, Stack;
    forall k ensures k in AsMap(hash, t) <==> k in m {
      KeyHasStack(hash, t, k);
    }
  }

  /** Inserting a new key is an update of the map, rebuilt or not. */
  lemma InsertIsUpdate(hash: Hash, t: Table, k: Key, v: Value)
    requires Placed(hash, t) && Once(hash, t) && k !in AsMap(hash, t)
    ensures var u := Insert(hash, t, Entry(k, v));
            Placed(hash, u) && Once(hash, u) && AsMap(hash, u) == AsMap(hash, t)[k := v]
  {
    hide *;
    var u := Insert(hash, t, Entry(k, v));
    InsertStacks(hash, t, Entry(k, v), k);
    forall j ensures Stack(hash, u, j) == Single(AsMap(hash, t)[k := v], j) {
      InsertSingle(hash, t, k, v, j);
    }
    SinglesAreMap(hash, u, AsMap(hash, t)[k := v]);
  }

  lemma InsertSingle(hash: Hash, t: Table, k: Key, v: Value, j: Key)
    requires Placed(hash, t) && Once(hash, t) && k !in AsMap(hash, t)
    ensures Stack(hash, Insert(hash, t, Entry(k, v)), j) == Single(AsMap(hash, t)[k := v], j)
  {
    StackIsSingle(hash, t, j);
    InsertStacks(hash, t, Entry(k, v), j);
    SingleReverse(Stack(hash, t, j), v);
    hide Placed, Insert, Stack, AsMap;
  }

  lemma SingleReverse(s: seq<Value>, v: Value)
    requires |s| <= 1
    ensures Reverse(s) == s && Reverse([v]) == [v] && [v] + [] == [v] && [] + s == s
  {
    if s != [] {
      assert s == [s[0]];
    }
  }

  /** Removing a key erases it from the map. */
  lemma RemoveIsErase(hash: Hash, t: Table, k: Key)
    requires Placed(hash, t) && Once(hash, t)
    ensures var u := Remove(hash, t, k);
            Placed(hash, u) && Once(hash, u) && AsMap(hash, u) == AsMap(hash, t) - {k}
  {
    hide Placed, Stack, AsMap, Once, Remove;
    var u := Remove(hash, t, k);
    RemoveStacks(hash, t, k, k);
    forall j ensures Stack(hash, u, j) == Single(AsMap(hash, t) - {k}, j) {
      StackIsSingle(hash, t, j);
      RemoveStacks(hash, t, k, j);
    }
    SinglesAreMap(hash, u, AsMap(hash, t) - {k});
  }

  lemma ValueForIsLookup(hash: Hash, t: Table, k: Key)
    requires Placed(hash, t)
    ensures ValueFor(hash, t, k) == if k in AsMap(hash, t) then AsMap(hash, t)[k] else NOT_FOUND
  {
    KeyHasStack(hash, t, k);
  }

  datatype Op = OpInsert(key: Key, value: Value) | OpRemove(key: Key)

  function Exec(hash: Hash, t: Table, ops: seq<Op>): Table
    decreases |ops|
  {
    if ops == [] then t
    else
      match ops[0]
      case OpInsert(k, v) => Exec(hash, Insert(hash, t, Entry(k, v)), ops[1..])
      case OpRemove(k) => Exec(hash, Remove(hash, t, k), ops[1..])
  }

  /** The same run on a map; None when it inserts a key that is there. */
  datatype MapRun = Done(m: map<Key, Value>) | Repeats

  function OnMap(m: map<Key, Value>, ops: seq<Op>): MapRun
    decreases |ops|
  {
    if ops == [] then Done(m)
    else
      match ops[0]
      case OpInsert(k, v) => if k in m then Repeats else OnMap(m[k := v], ops[1..])
      case OpRemove(k) => OnMap(m - {k}, ops[1..])
  }

  lemma {:induction false} ExecIsMapRun(hash: Hash, t: Table, ops: seq<Op>)
    requires Placed(hash, t) && Once(hash, t) && OnMap(AsMap(hash, t), ops).Done?
    ensures var u := Exec(hash, t, ops);
            Placed(hash, u) && Once(hash, u) && AsMap(hash, u) == OnMap(AsMap(hash, t), ops).m
    decreases |ops|
  {
    hide Placed, Once, AsMap, Insert, Remove;
    if ops != [] {
      match ops[0]
      case OpInsert(k, v) =>
        InsertIsUpdate(hash, t, k, v);
        ExecIsMapRun(hash, Insert(hash, t, Entry(k, v)), ops[1..]);
      case OpRemove(k) =>
        RemoveIsErase(hash, t, k);
        ExecIsMapRun(hash, Remove(hash, t, k), ops[1..]);
    }
  }

  /** Any run from a table of any size that never inserts a stored key behaves as a map. */
  lemma RunsAreMaps(hash: Hash, size: nat, ops: seq<Op>, k: Key)
    requires OnMap(map[], ops).Done?
    ensures var u, m := Exec(hash, Fresh(size), ops), OnMap(map[], ops).m;
            ValueFor(hash, u, k) == (if k in m then m[k] else NOT_FOUND) && |Flat(u, 0)| == |m|
  {
    var t := Fresh(size);
    forall j ensures Stack(hash, t, j) == [] && j !in AsMap(hash, t) {
      FreshStacks(hash, size, j);
      KeyHasStack(hash, t, j);
    }
    assert AsMap(hash, t) == map[];
    var u := Exec(hash, t, ops);
    ExecIsMapRun(hash, t, ops);
    ValueForIsLookup(hash, u, k);
    CountIsSize(hash, u);
  }

  // ---------- the code in place ----------

  class Dictionary {
    const hash: Hash
    var size: nat
    var entries: array?<Chain>

    ghost function View(): Table
      reads this, entries
    {
      if entries == null then [] else entries[..]
    }

    ghost predicate Valid()
      reads this, entries
    {
      && Placed(hash, View())
      && (entries != null ==> entries.Length == size > 0)
    }

    /** dictionary_init */
    constructor (hash: Hash, size: int)
      ensures Valid() && this.hash == hash && View() == Fresh(if size > 0 then size else 0)
      ensures entries == null || fresh(entries)
    {
      this.hash := hash;
      if size > 0 {
        entries := new Chain[size](_ => []);
        this.size := size;
      } else {
        entries := null;
        this.size := 0;
      }
      new;
      assert entries != null ==> entries[..] == Fresh(size);
    }

    /** dictionary_value_for_key */
    method ValueForKey(key: Key) returns (value: Value)
      requires Valid()
      ensures value == ValueFor(hash, View(), key)
    {
      if entries == null {
        return NOT_FOUND;
      }
      var entry := entries[Position(hash, key, size)];
      while entry != []
        invariant Head(Select(entry, key)) == ValueFor(hash, View(), key)
        decreases |entry|
      {
        if entry[0].key == key {
          return entry[0].value;
        }
        entry := entry[1..];
      }
      value := NOT_FOUND;
    }

    /** dictionary_keys_count */
    method KeysCount() returns (count: nat)
      requires Valid()
      ensures count == |Flat(View(), 0)|
    {
      count := 0;
      if entries == null {
        return;
      }
      ghost var t := View();
      var i := 0;
      while i < size
        invariant i <= size && count + |Flat(t, i)| == |Flat(t, 0)|
      {
        var entry := entries[i];
        while entry != []
          invariant count + |entry| + |Flat(t, i + 1)| == |Flat(t, 0)|
          decreases |entry|
        {
          count := count + 1;
          entry := entry[1..];
        }
        i := i + 1;
      }
    }

    /** dictionary_remove_value_for_key: unlinking walks to the entry and joins its two sides. */
    method RemoveValueForKey(key: Key)
      requires Valid()
      modifies entries
      ensures Valid() && View() == Remove(hash, old(View()), key)
    {
      if entries == null {
        return;
      }
      ghost var t := View();
      RemoveStacks(hash, t, key, key);
      hide Placed, Position, Drop;
      var i := Position(hash, key, size);
      var before, entry: Chain := [], entries[i];
      while entry != []
        invariant entries[..] == t && before + entry == t[i] && before + Drop(entry, key) == Drop(t[i], key)
        decreases |entry|
      {
        DropFirst(before, entry, key);
        if entry[0].key == key {
          entries[i] := before + entry[1..];
          assert entries[..] == Remove(hash, t, key);
          return;
        }
        before, entry := before + [entry[0]], entry[1..];
      }
      assert entries[..] == Remove(hash, t, key);
    }

    /** __dictionary_insert; an insertion that makes its chain too long needs a larger size of type int. */
    method InsertEntry(key: Key, value: Value, rebuild: bool)
      requires Valid() && (rebuild && Grows(hash, View(), key) ==> (size + 2) * 3 < INT_LIMIT)
      modifies this`size, this`entries, entries
      ensures Valid() && entries != null && (entries == old(entries) || fresh(entries))
      ensures var e := Entry(key, value);
              View() == if rebuild then Insert(hash, old(View()), e)
                        else Push(hash, if old(View()) == [] then Fresh(1) else old(View()), e)
      ensures !rebuild && old(entries) != null ==> size == old(size) && entries == old(entries)
      decreases rebuild, 0
    {
      var e := Entry(key, value);
      InsertStacks(hash, View(), e, key);
      FreshStacks(hash, 1, key);
      if entries == null {
        entries := new Chain[1](_ => []);
        size := 1;
        assert entries[..] == Fresh(1);
      }
      ghost var base := View();
      PushStacks(hash, base, e, key);
      hide Placed, Insert, Rebuilt;
      var i := Position(hash, key, size);
      entries[i] := [e] + entries[i];
      assert entries[..] == Push(hash, base, e);
      if rebuild {
        var count := ChainLength(entries[i]);
        if count > LONGEST_CHAIN {
          Rebuild();
        }
      }
    }

    /** The walk from the new entry to the end of its chain. */
    static method ChainLength(chain: Chain) returns (count: nat)
      requires chain != []
      ensures count == |chain|
    {
      count := 1;
      var entry := chain;
      while |entry| > 1
        invariant 1 <= |entry| && count + |entry| == |chain| + 1
        decreases |entry|
      {
        entry := entry[1..];
        count := count + 1;
      }
    }

    /** The inner loop of the rebuild: one chain of the smaller dictionary. */
    method InsertChain(chain: Chain)
      requires Valid() && entries != null
      modifies this`size, this`entries, entries
      ensures Valid() && entries == old(entries) && View() == PushAll(hash, old(View()), chain)
      decreases false, 1, 0
    {
      hide Placed, Push;
      ghost var t := View();
      var entry := chain;
      while entry != []
        invariant Valid() && entries == old(entries) && size == old(size) && entries != null
        invariant PushAll(hash, View(), entry) == PushAll(hash, t, chain)
        decreases |entry|
      {
        InsertEntry(entry[0].key, entry[0].value, false);
        entry := entry[1..];
      }
    }

    /** Every entry is inserted into a larger dictionary, which then takes this one's place. */
    method Rebuild()
      requires Valid() && entries != null && (size + 2) * 3 < INT_LIMIT
      modifies this`size, this`entries
      ensures Valid() && View() == Rebuilt(hash, old(View())) && entries != null && fresh(entries)
      decreases false, 1, 1
    {
      ghost var t := View();
      hide Placed, Insert, Push, Rebuilt;
      var bigger := new Dictionary(hash, (size + 2) * 3 / 2);
      RebuiltIs(hash, t);
      var i := 0;
      while i < size
        invariant i <= size == |t| && entries == old(entries) && entries != null && entries[..] == t
        invariant bigger.Valid() && bigger.hash == hash && fresh(bigger) && bigger.entries != null && fresh(bigger.entries)
        invariant PushAll(hash, bigger.View(), Flat(t, i)) == Rebuilt(hash, t)
      {
        PushAllConcat(hash, bigger.View(), t[i], Flat(t, i + 1));
        bigger.InsertChain(entries[i]);
        i := i + 1;
      }
      size := bigger.size;
      entries := bigger.entries;
    }
  }
}
