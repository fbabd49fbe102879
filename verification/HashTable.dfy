/**
 The open-addressing table of hashtable.c: strings are known by a start slot and a pair of hashes.

 The hash words are 32 bits wide and wrap around. `crypt` is the table that crypttable_init
 fills; nothing but its length matters for the probing. The slots say which string each
 bucket was filled for; the buckets themselves keep only the pair.
 */
module HashTable {
  import Bits
  import opened Common

  const MAXHASHTABLELEN: nat := 1024
  const CRYPT_SIZE: nat := 0x500

  type Word = nat
  const WORD_RANGE: nat := 0x1_0000_0000

  type Crypt = c: seq<Word> | |c| == CRYPT_SIZE witness seq(CRYPT_SIZE, _ => 0)

  // ---------- hashstring ----------

  /** toupper in the C locale */
  function Upper(ch: Byte): (u: Byte)
    ensures SameLetter(u, ch) && !('a' <= u <= 'z')
  {
    if 'a' <= ch <= 'z' then (ch as int - 32) as char else ch
  }

  /** Two bytes have the same upper-case form exactly when they are the same up to case. */
  lemma UpperExactly(a: Byte, b: Byte)
    ensures Upper(a) == Upper(b) <==> SameLetter(a, b)
  {
  }

  datatype Seeds = Seeds(seed1: Word, seed2: Word)

  const START_SEEDS := Seeds(0x7FED7FED, 0xEEEEEEEE)

  function Mix(crypt: Crypt, kind: nat, s: Seeds, key: Byte): Seeds
    requires kind < 3
  {
    var ch := Upper(key) as nat;
    var seed1 := Bits.Xor(crypt[kind * 256 + ch], (s.seed1 + s.seed2) % WORD_RANGE);
    Seeds(seed1, (ch + seed1 + s.seed2 + s.seed2 * 32 + 3) % WORD_RANGE)
  }

  function MixAll(crypt: Crypt, kind: nat, s: Seeds, keys: Text): Seeds
    requires kind < 3
    decreases |keys|
  {
    if keys == [] then s else MixAll(crypt, kind, Mix(crypt, kind, s, keys[0]), keys[1..])
  }

  function HashString(crypt: Crypt, name: Text, kind: nat): Word
    requires kind < 3
  {
    MixAll(crypt, kind, START_SEEDS, name).seed1
  }

  /** The loop of hashstring. */
  method ComputeHash(crypt: Crypt, name: Text, kind: nat) returns (h: Word)
    requires kind < 3
    ensures h == HashString(crypt, name, kind)
  {
    var seed1: Word, seed2: Word := 0x7FED7FED, 0xEEEEEEEE;
    var key := name;
    while key != []
      invariant MixAll(crypt, kind, Seeds(seed1, seed2), key) == MixAll(crypt, kind, START_SEEDS, name)
      decreases |key|
    {
      var ch := Upper(key[0]) as nat;
      seed1 := Bits.Xor(crypt[kind * 256 + ch], (seed1 + seed2) % WORD_RANGE);
      seed2 := (ch + seed1 + seed2 + seed2 * 32 + 3) % WORD_RANGE;
      key := key[1..];
    }
    h := seed1;
  }

  lemma {:induction false} VariantsMixAlike(crypt: Crypt, kind: nat, s: Seeds, a: Text, b: Text)
    requires kind < 3 && SameButCase(a, b)
    ensures MixAll(crypt, kind, s, a) == MixAll(crypt, kind, s, b)
    decreases |a|
  {
    if a != [] {
      var next := Mix(crypt, kind, s, a[0]);
      UpperExactly(a[0], b[0]);
      hide Mix;
      VariantsMixAlike(crypt, kind, next, a[1..], b[1..]);
    }
  }

  // ---------- the table ----------

  datatype Slot = Free | Taken(name: Text, data: int)

  type Table = seq<Slot>

  function Start(crypt: Crypt, name: Text, size: nat): (i: nat)
    requires size > 0
    ensures i < size
  {
    HashString(crypt, name, 0) % size
  }

  ghost predicate SamePair(crypt: Crypt, a: Text, b: Text) {
    HashString(crypt, a, 1) == HashString(crypt, b, 1) && HashString(crypt, a, 2) == HashString(crypt, b, 2)
  }

  lemma VariantsHashAlike(crypt: Crypt, a: Text, b: Text, size: nat)
    requires SameButCase(a, b) && size > 0
    ensures SamePair(crypt, a, b) && Start(crypt, a, size) == Start(crypt, b, size)
  {
    VariantsMixAlike(crypt, 0, START_SEEDS, a, b);
    VariantsMixAlike(crypt, 1, START_SEEDS, a, b);
    VariantsMixAlike(crypt, 2, START_SEEDS, a, b);
  }

  function Empty(size: nat): Table {
    seq(size, _ => Free)
  }

  /** The slot d steps after the start, around the end of the table. */
  function At(start: nat, d: nat, size: nat): (i: nat)
    requires start < size && d < size
    ensures i < size
  {
    if start + d < size then start + d else start + d - size
  }

  lemma StepAround(start: nat, d: nat, size: nat)
    requires start < size && d < size
    ensures (At(start, d, size) + 1) % size == if d + 1 < size then At(start, d + 1, size) else start
  {
    var i := At(start, d, size);
    Bits.RemainderUnique(i + 1, size, if i + 1 == size then 1 else 0, if i + 1 == size then 0 else i + 1);
  }

  /** The way from a start to a slot. */
  function Steps(start: nat, i: nat, size: nat): (d: nat)
    requires start < size && i < size
    ensures d < size && At(start, d, size) == i
  {
    if start <= i then i - start else i + size - start
  }

  /** The first free slot on the way around, or the size. */
  function FreeAfter(t: Table, start: nat, d: nat): (f: nat)
    requires start < |t| && d <= |t|
    ensures d <= f <= |t| && (f < |t| ==> t[At(start, f, |t|)] == Free)
    ensures forall e | d <= e < f :: t[At(start, e, |t|)] != Free
    decreases |t| - d
  {
    if d == |t| || t[At(start, d, |t|)] == Free then d else FreeAfter(t, start, d + 1)
  }

  /** hashtable_add */
  function Add(crypt: Crypt, t: Table, name: Text, data: int): (Table, bool)
    requires t != []
  {
    var start := Start(crypt, name, |t|);
    var d := FreeAfter(t, start, 0);
    if d == |t| then (t, false) else (t[At(start, d, |t|) := Taken(name, data)], true)
  }

  /** An addition fills one free slot with the string and its data and leaves all others alone; a refused one changes nothing. */
  lemma AddStores(crypt: Crypt, t: Table, name: Text, data: int) returns (i: nat)
    requires t != []
    ensures var (u, ok) := Add(crypt, t, name, data);
            if ok then i < |t| && t[i] == Free && u == t[i := Taken(name, data)] else u == t && forall j | 0 <= j < |t| :: t[j] != Free
  {
    hide HashString;
    var start := Start(crypt, name, |t|);
    var f := FreeAfter(t, start, 0);
    if f < |t| {
      i := At(start, f, |t|);
    } else {
      i := 0;
      forall j | 0 <= j < |t| ensures t[j] != Free {
        assert t[At(start, Steps(start, j, |t|), |t|)] != Free;
      }
    }
  }

  /** Every slot on the way from a string's start to its slot is taken. */
  ghost predicate Reached(crypt: Crypt, t: Table, i: nat)
    requires i < |t|
  {
    t[i].Taken? ==>
      var start := Start(crypt, t[i].name, |t|);
      forall d | 0 <= d < Steps(start, i, |t|) :: t[At(start, d, |t|)] != Free
  }

  ghost predicate Inv(crypt: Crypt, t: Table) {
    t != [] && forall i | 0 <= i < |t| :: Reached(crypt, t, i)
  }

  lemma AddKeeps(crypt: Crypt, t: Table, name: Text, data: int)
    requires Inv(crypt, t)
    ensures Inv(crypt, Add(crypt, t, name, data).0)
    ensures Add(crypt, t, name, data).1 <==> exists i | 0 <= i < |t| :: t[i] == Free
  {
    hide HashString;
    var start := Start(crypt, name, |t|);
    var f := FreeAfter(t, start, 0);
    var u := Add(crypt, t, name, data).0;
    if f < |t| {
      forall i | 0 <= i < |u| ensures Reached(crypt, u, i) {
        assert Reached(crypt, t, i);
      }
    } else {
      forall i | 0 <= i < |t| ensures t[i] != Free {
        var d := Steps(start, i, |t|);
        assert t[At(start, d, |t|)] != Free;
      }
    }
  }

  // ---------- hashtable_isexist ----------

  /** How a search ends: at a slot, at a free slot or after all slots, or beyond the last bucket. */
  datatype Search = Found(pos: nat) | NotFound | OutOfTable

  predicate PairMatches(crypt: Crypt, slot: Slot, name: Text)
    requires slot.Taken?
  {
    && HashString(crypt, slot.name, 1) == HashString(crypt, name, 1)
    && HashString(crypt, slot.name, 2) == HashString(crypt, name, 2)
  }

  /** The search d steps after the start; it wraps around at MAXHASHTABLELEN, whatever the size is. */
  function Seek(crypt: Crypt, t: Table, name: Text, start: nat, d: nat): (r: Search)
    requires start < |t| <= MAXHASHTABLELEN && d < MAXHASHTABLELEN
    ensures r.Found? ==> r.pos < |t| && t[r.pos].Taken? && PairMatches(crypt, t[r.pos], name)
    decreases MAXHASHTABLELEN - d
  {
    var pos := At(start, d, MAXHASHTABLELEN);
    if pos >= |t| then OutOfTable
    else if t[pos] == Free then NotFound
    else if PairMatches(crypt, t[pos], name) then Found(pos)
    else if d + 1 == MAXHASHTABLELEN then NotFound
    else Seek(crypt, t, name, start, d + 1)
  }

  function IsExist(crypt: Crypt, t: Table, name: Text): Search
    requires 0 < |t| <= MAXHASHTABLELEN
  {
    Seek(crypt, t, name, Start(crypt, name, |t|), 0)
  }

  /** A search that meets a matching slot before any free one ends at a match. */
  lemma {:induction false} SeekMeets(crypt: Crypt, t: Table, name: Text, start: nat, d: nat, hit: nat)
    requires |t| == MAXHASHTABLELEN && start < |t| && d <= hit < |t|
    requires forall e | d <= e < hit :: t[At(start, e, |t|)] != Free
    requires t[At(start, hit, |t|)].Taken? && PairMatches(crypt, t[At(start, hit, |t|)], name)
    ensures Seek(crypt, t, name, start, d).Found?
    decreases hit - d
  {
    hide PairMatches;
    if d < hit && !PairMatches(crypt, t[At(start, d, |t|)], name) {
      SeekMeets(crypt, t, name, start, d + 1, hit);
    }
  }

  /** In a table of the right size: a stored string is found, whatever the case of its letters. */
  lemma StoredIsFound(crypt: Crypt, t: Table, i: nat, name: Text)
    requires Inv(crypt, t) && |t| == MAXHASHTABLELEN
    requires i < |t| && t[i].Taken? && SameButCase(t[i].name, name)
    ensures IsExist(crypt, t, name).Found?
  {
    VariantsHashAlike(crypt, t[i].name, name, |t|);
    SameHashesFound(crypt, t, i, name);
  }

  /** A string is found as soon as one with its start slot and its pair is stored. */
  lemma SameHashesFound(crypt: Crypt, t: Table, i: nat, name: Text)
    requires Inv(crypt, t) && |t| == MAXHASHTABLELEN && i < |t| && t[i].Taken?
    requires SamePair(crypt, t[i].name, name) && Start(crypt, t[i].name, |t|) == Start(crypt, name, |t|)
    ensures IsExist(crypt, t, name).Found?
  {
    hide HashString;
    assert Reached(crypt, t, i);
    var start := Start(crypt, name, |t|);
    SeekMeets(crypt, t, name, start, 0, Steps(start, i, |t|));
  }

  /** What the answer tells, exactly: a slot with the pair, or that no string with these three hashes was stored. */
  lemma AnswerDecides(crypt: Crypt, t: Table, name: Text)
    requires Inv(crypt, t) && |t| == MAXHASHTABLELEN
    ensures match IsExist(crypt, t, name)
            case Found(pos) => pos < |t| && t[pos].Taken? && SamePair(crypt, t[pos].name, name)
            case NotFound => forall i | 0 <= i < |t| && t[i].Taken? ::
              !(SamePair(crypt, t[i].name, name) && Start(crypt, t[i].name, |t|) == Start(crypt, name, |t|))
            case OutOfTable => false
  {
    hide HashString;
    SeekStays(crypt, t, name, Start(crypt, name, |t|), 0);
    if IsExist(crypt, t, name).NotFound? {
      forall i | 0 <= i < |t| && t[i].Taken?
        ensures !(SamePair(crypt, t[i].name, name) && Start(crypt, t[i].name, |t|) == Start(crypt, name, |t|))
      {
        if SamePair(crypt, t[i].name, name) && Start(crypt, t[i].name, |t|) == Start(crypt, name, |t|) {
          SameHashesFound(crypt, t, i, name);
          assert false;
        }
      }
    }
  }

  /** Of several strings with the pair the search returns the one that is nearest to its start. */
  lemma FoundIsFirst(crypt: Crypt, t: Table, name: Text)
    requires |t| == MAXHASHTABLELEN && IsExist(crypt, t, name).Found?
    ensures var start, pos := Start(crypt, name, |t|), IsExist(crypt, t, name).pos;
            && pos < |t|
            && forall d | 0 <= d < Steps(start, pos, |t|) :: t[At(start, d, |t|)].Taken? && !SamePair(crypt, t[At(start, d, |t|)].name, name)
  {
    hide HashString;
    var hit := SeekFirst(crypt, t, name, Start(crypt, name, |t|), 0);
  }

  lemma {:induction false} SeekFirst(crypt: Crypt, t: Table, name: Text, start: nat, d: nat) returns (hit: nat)
    requires |t| == MAXHASHTABLELEN && start < |t| && d < |t| && Seek(crypt, t, name, start, d).Found?
    ensures d <= hit < |t| && Seek(crypt, t, name, start, d) == Found(At(start, hit, |t|))
    ensures forall e | d <= e < hit :: t[At(start, e, |t|)].Taken? && !PairMatches(crypt, t[At(start, e, |t|)], name)
    decreases MAXHASHTABLELEN - d
  {
    hide PairMatches;
    hit := d;
    if !PairMatches(crypt, t[At(start, d, |t|)], name) {
      hit := SeekFirst(crypt, t, name, start, d + 1);
    }
  }

  /** With no other string of the same pair the answer is the string's own slot. */
  lemma OwnSlotIsFound(crypt: Crypt, t: Table, i: nat, name: Text)
    requires Inv(crypt, t) && |t| == MAXHASHTABLELEN
    requires i < |t| && t[i].Taken? && SameButCase(t[i].name, name)
    requires forall j | 0 <= j < |t| && t[j].Taken? && SamePair(crypt, t[j].name, name) :: j == i
    ensures IsExist(crypt, t, name) == Found(i)
  {
    hide HashString, Inv;
    StoredIsFound(crypt, t, i, name);
    AnswerDecides(crypt, t, name);
  }

  lemma {:induction false} SeekStays(crypt: Crypt, t: Table, name: Text, start: nat, d: nat)
    requires |t| == MAXHASHTABLELEN && start < |t| && d < MAXHASHTABLELEN
    ensures !Seek(crypt, t, name, start, d).OutOfTable?
    decreases MAXHASHTABLELEN - d
  {
    hide PairMatches;
    if d + 1 < MAXHASHTABLELEN {
      SeekStays(crypt, t, name, start, d + 1);
    }
  }

  /** All slots from one on are taken by strings with other pairs. */
  predicate OthersFrom(crypt: Crypt, t: Table, name: Text, from: nat) {
    forall i | from <= i < |t| :: t[i].Taken? && !PairMatches(crypt, t[i], name)
  }

  /** In a smaller table a search leaves the buckets exactly when all slots from its start on are taken by other pairs. */
  lemma LeavesTableExactly(crypt: Crypt, t: Table, name: Text)
    requires 0 < |t| < MAXHASHTABLELEN
    ensures IsExist(crypt, t, name) == OutOfTable <==> OthersFrom(crypt, t, name, Start(crypt, name, |t|))
  {
    hide HashString, Seek, OthersFrom, Start;
    SeekLeaves(crypt, t, name, Start(crypt, name, |t|), 0);
  }

  lemma {:induction false} SeekLeaves(crypt: Crypt, t: Table, name: Text, start: nat, d: nat)
    requires start < |t| < MAXHASHTABLELEN && start + d <= |t|
    ensures Seek(crypt, t, name, start, d) == OutOfTable <==> OthersFrom(crypt, t, name, start + d)
    decreases |t| - start - d
  {
    hide PairMatches;
    if start + d < |t| {
      SeekLeaves(crypt, t, name, start, d + 1);
      var pos := start + d;
      assert OthersFrom(crypt, t, name, pos) <==>
        t[pos].Taken? && !PairMatches(crypt, t[pos], name) && OthersFrom(crypt, t, name, pos + 1);
    }
  }

  /** In a smaller table a stored string can be lost: it is found exactly when its pair lies between its start and the end. */
  lemma SmallTableFindsExactly(crypt: Crypt, t: Table, i: nat)
    requires Inv(crypt, t) && |t| < MAXHASHTABLELEN && i < |t| && t[i].Taken?
    ensures var start := Start(crypt, t[i].name, |t|);
            && (IsExist(crypt, t, t[i].name).Found? <==>
                  exists j | start <= j < |t| :: t[j].Taken? && PairMatches(crypt, t[j], t[i].name))
            && (i >= start ==> IsExist(crypt, t, t[i].name).Found?)
            && (!IsExist(crypt, t, t[i].name).Found? ==> i < start && IsExist(crypt, t, t[i].name) == OutOfTable)
  {
    hide HashString, Start;
    var start := Start(crypt, t[i].name, |t|);
    assert Reached(crypt, t, i);
    SeekSmall(crypt, t, t[i].name, start, 0);
    if i >= start {
      assert t[i].Taken? && PairMatches(crypt, t[i], t[i].name);
      forall j | start <= j < i ensures t[j] != Free {
        assert t[At(start, j - start, |t|)] != Free;
      }
    } else {
      forall j | start <= j < |t| ensures t[j] != Free {
        assert t[At(start, j - start, |t|)] != Free;
      }
    }
  }

  /** A search in a smaller table goes straight on to the first free slot, match or end. */
  lemma {:induction false} SeekSmall(crypt: Crypt, t: Table, name: Text, start: nat, d: nat)
    requires start < |t| < MAXHASHTABLELEN && start + d <= |t|
    ensures match Seek(crypt, t, name, start, d)
            case Found(pos) => start + d <= pos < |t| && t[pos].Taken? && PairMatches(crypt, t[pos], name)
            case NotFound => exists j | start + d <= j < |t| :: t[j] == Free && NoneBefore(crypt, t, name, start + d, j)
            case OutOfTable => NoneBefore(crypt, t, name, start + d, |t|)
    decreases |t| - start - d
  {
    hide PairMatches;
    var pos := start + d;
    if pos < |t| {
      SeekSmall(crypt, t, name, start, d + 1);
      if t[pos] == Free {
        assert NoneBefore(crypt, t, name, pos, pos);
      } else if !PairMatches(crypt, t[pos], name) && Seek(crypt, t, name, start, d).NotFound? {
        var j :| pos + 1 <= j < |t| && t[j] == Free && NoneBefore(crypt, t, name, pos + 1, j);
        assert NoneBefore(crypt, t, name, pos, j);
      }
    }
  }

  ghost predicate NoneBefore(crypt: Crypt, t: Table, name: Text, from: nat, end: nat)
    requires end <= |t|
  {
    forall j | from <= j < end :: t[j].Taken? && !PairMatches(crypt, t[j], name)
  }

  /** Two strings that start at the last slot: the second one wraps around, and a search for it leaves the table. */
  lemma LostAtWrap(crypt: Crypt, size: nat, first: Text, second: Text, data: int, data': int)
    requires 1 < size < MAXHASHTABLELEN && !SamePair(crypt, first, second)
    requires Start(crypt, first, size) == Start(crypt, second, size) == size - 1
    ensures var (t, ok) := Add(crypt, Empty(size), first, data);
            var (u, ok') := Add(crypt, t, second, data');
            && ok && ok' && u[0] == Taken(second, data')
            && IsExist(crypt, u, second) == OutOfTable
  {
    hide HashString, Start, SamePair;
    var empty := Empty(size);
    assert At(size - 1, 0, size) == size - 1 && At(size - 1, 1, size) == 0;
    var t := empty[size - 1 := Taken(first, data)];
    assert Add(crypt, empty, first, data) == (t, true);
    assert FreeAfter(t, size - 1, 0) == FreeAfter(t, size - 1, 1) == 1;
    var u := t[0 := Taken(second, data')];
    assert Add(crypt, t, second, data') == (u, true);
    NoPair(crypt, first, second, data);
    LeavesTableExactly(crypt, u, second);
  }

  lemma NoPair(crypt: Crypt, first: Text, second: Text, data: int)
    requires !SamePair(crypt, first, second)
    ensures !PairMatches(crypt, Taken(first, data), second)
  {
  }

  // ---------- runs of additions ----------

  function AddAll(crypt: Crypt, t: Table, items: seq<(Text, int)>): (u: Table)
    requires t != []
    ensures |u| == |t|
    decreases |items|
  {
    if items == [] then t else AddAll(crypt, Add(crypt, t, items[0].0, items[0].1).0, items[1..])
  }

  ghost predicate Holds(t: Table, name: Text) {
    exists i | 0 <= i < |t| :: t[i].Taken? && t[i].name == name
  }

  /** Additions keep what was stored and store exactly what they accept. */
  lemma AddHolds(crypt: Crypt, t: Table, name: Text, data: int, other: Text)
    requires Inv(crypt, t)
    ensures var (u, ok) := Add(crypt, t, name, data);
            Holds(u, other) <==> Holds(t, other) || (ok && other == name)
  {
    hide HashString, Reached;
    var (u, ok) := Add(crypt, t, name, data);
    if ok {
      var i := At(Start(crypt, name, |t|), FreeAfter(t, Start(crypt, name, |t|), 0), |t|);
      assert u == t[i := Taken(name, data)] && t[i] == Free;
      if Holds(t, other) {
        var j :| 0 <= j < |t| && t[j].Taken? && t[j].name == other;
        assert u[j] == t[j];
      }
      if other == name {
        assert u[i].Taken? && u[i].name == name;
      }
    }
  }

  lemma {:induction false} AddAllKeeps(crypt: Crypt, t: Table, items: seq<(Text, int)>, name: Text)
    requires Inv(crypt, t)
    ensures Inv(crypt, AddAll(crypt, t, items))
    ensures Holds(t, name) ==> Holds(AddAll(crypt, t, items), name)
    ensures Holds(AddAll(crypt, t, items), name) ==> Holds(t, name) || exists k | 0 <= k < |items| :: items[k].0 == name
    decreases |items|
  {
    if items != [] {
      var (name0, data0) := items[0];
      AddKeeps(crypt, t, name0, data0);
      AddHolds(crypt, t, name0, data0, name);
      hide Add, Inv, Holds;
      AddAllKeeps(crypt, Add(crypt, t, name0, data0).0, items[1..], name);
      if k :| 0 <= k < |items[1..]| && items[1..][k].0 == name {
        assert items[k + 1].0 == name;
      }
    }
  }

  /** After any additions to an empty table, one more that is accepted is found in any case, now and after any further ones. */
  lemma RunsFindAdded(crypt: Crypt, before: seq<(Text, int)>, name: Text, data: int, after: seq<(Text, int)>, variant: Text)
    requires SameButCase(name, variant)
    requires Add(crypt, AddAll(crypt, Empty(1024), before), name, data).1
    ensures var t := AddAll(crypt, Add(crypt, AddAll(crypt, Empty(1024), before), name, data).0, after);
            IsExist(crypt, t, variant).Found?
  {
    var empty := Empty(1024);
    assert Inv(crypt, empty);
    AddAllKeeps(crypt, empty, before, name);
    var t := AddAll(crypt, empty, before);
    AddKeeps(crypt, t, name, data);
    AddHolds(crypt, t, name, data, name);
    var u := Add(crypt, t, name, data).0;
    AddAllKeeps(crypt, u, after, name);
    hide Add, AddAll, Inv, IsExist, Empty;
    var i :| 0 <= i < MAXHASHTABLELEN && AddAll(crypt, u, after)[i].Taken? && AddAll(crypt, u, after)[i].name == name;
    StoredIsFound(crypt, AddAll(crypt, u, after), i, variant);
  }

  /** The slots with the string's pair are at most this one. */
  ghost predicate OnlyAt(crypt: Crypt, t: Table, name: Text, i: int) {
    forall j | 0 <= j < |t| && t[j].Taken? && SamePair(crypt, t[j].name, name) :: j == i
  }

  /** Additions of strings with other pairs touch neither the slot nor what is in it. */
  lemma {:induction false} AddAllKeepsSlot(crypt: Crypt, t: Table, items: seq<(Text, int)>, name: Text, i: int)
    requires t != [] && OnlyAt(crypt, t, name, i) && (i == -1 || (0 <= i < |t| && t[i].Taken?))
    requires forall x | x in items :: !SamePair(crypt, x.0, name)
    ensures OnlyAt(crypt, AddAll(crypt, t, items), name, i)
    ensures 0 <= i ==> AddAll(crypt, t, items)[i] == t[i]
    decreases |items|
  {
    hide SamePair, Add;
    if items != [] {
      var k := AddStores(crypt, t, items[0].0, items[0].1);
      assert items[0] in items;
      AddAllKeepsSlot(crypt, Add(crypt, t, items[0].0, items[0].1).0, items[1..], name, i);
    }
  }

  /**
   The data given with an accepted string are in the slot that a search for it returns, in any
   case, now and after any further additions, as long as no other string has its pair.
   */
  lemma RunsFindData(crypt: Crypt, before: seq<(Text, int)>, name: Text, data: int, after: seq<(Text, int)>, variant: Text)
    requires SameButCase(name, variant)
    requires Add(crypt, AddAll(crypt, Empty(1024), before), name, data).1
    requires forall x | x in before + after :: !SamePair(crypt, x.0, name)
    ensures var t := AddAll(crypt, Add(crypt, AddAll(crypt, Empty(1024), before), name, data).0, after);
            exists i | 0 <= i < |t| :: IsExist(crypt, t, variant) == Found(i) && t[i] == Taken(name, data)
  {
    var empty := Empty(1024);
    RunsFindAdded(crypt, before, name, data, after, variant);
    AddAllInv(crypt, before, name, data, after);
    VariantsHashAlike(crypt, name, variant, MAXHASHTABLELEN);
    AddAllKeepsSlot(crypt, empty, before, name, -1);
    var t := AddAll(crypt, empty, before);
    var i := AddStores(crypt, t, name, data);
    var u := Add(crypt, t, name, data).0;
    assert OnlyAt(crypt, u, name, i);
    AddAllKeepsSlot(crypt, u, after, name, i);
    var v := AddAll(crypt, u, after);
    hide Add, AddAll, Inv, IsExist, Empty, SamePair;
    SamePairAsVariant(crypt, v, name, variant, i);
    OwnSlotIsFound(crypt, v, i, variant);
  }

  lemma SamePairAsVariant(crypt: Crypt, t: Table, name: Text, variant: Text, i: int)
    requires OnlyAt(crypt, t, name, i) && SamePair(crypt, name, variant)
    ensures OnlyAt(crypt, t, variant, i)
  {
    hide HashString;
  }

  lemma AddAllInv(crypt: Crypt, before: seq<(Text, int)>, name: Text, data: int, after: seq<(Text, int)>)
    ensures Inv(crypt, AddAll(crypt, Add(crypt, AddAll(crypt, Empty(1024), before), name, data).0, after))
  {
    var empty := Empty(1024);
    assert Inv(crypt, empty);
    AddAllKeeps(crypt, empty, before, name);
    var t := AddAll(crypt, empty, before);
    AddKeeps(crypt, t, name, data);
    AddAllKeeps(crypt, Add(crypt, t, name, data).0, after, name);
  }

  // ---------- the code in place ----------

  /** hashitem: the string itself is not kept. */
  datatype Bucket = Bucket(hashA: Word, hashB: Word, exist: bool, data: int)

  ghost predicate Holding(crypt: Crypt, b: Bucket, slot: Slot) {
    match slot
    case Free => !b.exist
    case Taken(name, data) => b == Bucket(HashString(crypt, name, 1), HashString(crypt, name, 2), true, data)
  }

  class Buckets {
    const crypt: Crypt
    const items: array<Bucket>
    ghost var slots: Table

    ghost predicate Valid()
      reads this, items
    {
      && |slots| == items.Length && Inv(crypt, slots)
      && forall i | 0 <= i < |slots| :: Holding(crypt, items[i], slots[i])
    }

    /** hashtable_init */
    constructor (crypt: Crypt, size: nat)
      requires size > 0
      ensures Valid() && slots == Empty(size) && this.crypt == crypt && fresh(items)
    {
      this.crypt := crypt;
      items := new Bucket[size](_ => Bucket(WORD_RANGE - 1, WORD_RANGE - 1, false, 0));
      slots := Empty(size);
    }

    /** The probing of hashtable_add: on a full table it comes back to its start and gives up. */
    method FindFree(start: nat) returns (full: bool, pos: nat)
      requires Valid() && start < items.Length
      ensures full <==> FreeAfter(slots, start, 0) == |slots|
      ensures !full ==> pos == At(start, FreeAfter(slots, start, 0), |slots|)
    {
      hide Inv, HashString;
      var size := items.Length;
      pos := start;
      ghost var d := 0;
      while items[pos].exist
        invariant d < size && pos == At(start, d, size)
        invariant FreeAfter(slots, start, d) == FreeAfter(slots, start, 0)
        decreases size - d
      {
        assert Holding(crypt, items[pos], slots[pos]);
        StepAround(start, d, size);
        pos := (pos + 1) % size;
        if pos == start {
          FullCircle(start, d, size);
          return true, pos;
        }
        d := d + 1;
      }
      assert Holding(crypt, items[pos], slots[pos]);
      full := false;
    }

    /** hashtable_add */
    method AddString(name: Text, data: int) returns (ok: bool)
      requires Valid()
      modifies this, items
      ensures Valid() && (slots, ok) == Add(crypt, old(slots), name, data)
    {
      AddKeeps(crypt, slots, name, data);
      var hash := ComputeHash(crypt, name, 0);
      var hashA := ComputeHash(crypt, name, 1);
      var hashB := ComputeHash(crypt, name, 2);
      hide HashString, Reached;
      var start := hash % items.Length;
      var full, pos := FindFree(start);
      if full {
        return false;
      }
      slots := slots[pos := Taken(name, data)];
      items[pos] := Bucket(hashA, hashB, true, data);
      ok := true;
    }

    /** hashtable_isexist: -1 is NotFound; a read past the last bucket is OutOfTable. */
    method Exists(name: Text) returns (r: Search)
      requires Valid() && items.Length <= MAXHASHTABLELEN
      ensures r == IsExist(crypt, slots, name)
    {
      var hash := ComputeHash(crypt, name, 0);
      var hashA := ComputeHash(crypt, name, 1);
      var hashB := ComputeHash(crypt, name, 2);
      hide HashString, Reached;
      var start := hash % items.Length;
      var pos := start;
      ghost var d := 0;
      while true
        invariant d < MAXHASHTABLELEN && pos == At(start, d, MAXHASHTABLELEN)
        invariant Seek(crypt, slots, name, start, d) == IsExist(crypt, slots, name)
        decreases MAXHASHTABLELEN - d
      {
        if pos >= items.Length {
          return OutOfTable;
        }
        assert Holding(crypt, items[pos], slots[pos]);
        if !items[pos].exist {
          return NotFound;
        }
        if items[pos].hashA == hashA && items[pos].hashB == hashB {
          return Found(pos);
        }
        StepAround(start, d, MAXHASHTABLELEN);
        pos := (pos + 1) % MAXHASHTABLELEN;
        if pos == start {
          FullCircle(start, d, MAXHASHTABLELEN);
          return NotFound;
        }
        d := d + 1;
      }
    }
  }

  /** Coming back to the start takes as many steps as there are slots. */
  lemma FullCircle(start: nat, d: nat, size: nat)
    requires start < size && d < size && (At(start, d, size) + 1) % size == start
    ensures d + 1 == size
  {
    StepAround(start, d, size);
  }

  // ---------- crypttable_init ----------

  const SEED_RANGE: nat := 0x2AAAAB

  /** The numbers seed runs through. */
  function Seed(k: nat): (s: nat)
    ensures k > 0 ==> s < SEED_RANGE
  {
    if k == 0 then 0x00100001 else (Seed(k - 1) * 125 + 3) % SEED_RANGE
  }

  /** The k-th entry that is made: 16 bits of one number above 16 bits of the next. */
  function MadeEntry(k: nat): Word {
    Seed(2 * k + 1) % 0x1_0000 * 0x1_0000 + Seed(2 * k + 2) % 0x1_0000
  }

  /** Entry j is made in row j mod 256 and column j div 256. */
  function CryptEntry(j: nat): Word {
    MadeEntry(j % 0x100 * 5 + j / 0x100)
  }

  /** The entries of the finished rows, and of the first columns of the row at hand. */
  ghost predicate MadeUpTo(table: seq<Word>, row: nat, column: nat) {
    forall j | 0 <= j < |table| && (j % 0x100 < row || (j % 0x100 == row && j / 0x100 < column)) :: table[j] == CryptEntry(j)
  }

  lemma MakesEntry(table: seq<Word>, row: nat, column: nat)
    requires |table| == CRYPT_SIZE && row < 0x100 && column < 5 && MadeUpTo(table, row, column)
    ensures var j := row + column * 0x100; j < CRYPT_SIZE && MadeUpTo(table[j := MadeEntry(row * 5 + column)], row, column + 1)
  {
    hide MadeEntry;
    var j := row + column * 0x100;
    assert j % 0x100 == row && j / 0x100 == column;
    forall i | 0 <= i < |table| && i % 0x100 == row && i / 0x100 == column ensures i == j {
    }
  }

  lemma RowDone(table: seq<Word>, row: nat)
    requires |table| == CRYPT_SIZE && MadeUpTo(table, row, 5)
    ensures MadeUpTo(table, row + 1, 0)
  {
    hide CryptEntry;
    forall j | 0 <= j < |table| && j % 0x100 == row ensures j / 0x100 < 5 {
    }
  }

  /** The two shifted halves do not overlap. */
  lemma JoinHalves(a: nat, b: nat)
    ensures Bits.Or(b % 0x1_0000, a % 0x1_0000 * 0x1_0000) == a % 0x1_0000 * 0x1_0000 + b % 0x1_0000
  {
    assert Bits.Pow2(16) == 0x1_0000 by {
      assert Bits.Pow2(8) == 0x100;
      Bits.Pow2Add(8, 8);
    }
    Bits.OrDisjoint(b % 0x1_0000, a % 0x1_0000, 16);
  }

  /** The inner loop of crypttable_init: the five entries of one row. */
  method FillRow(table: array<Word>, index1: nat, start: nat) returns (seed: nat)
    requires table.Length == CRYPT_SIZE && index1 < 0x100 && start == Seed(index1 * 10) && MadeUpTo(table[..], index1, 0)
    modifies table
    ensures seed == Seed(index1 * 10 + 10) && MadeUpTo(table[..], index1, 5)
  {
    hide Seed, MadeUpTo, CryptEntry, MadeEntry;
    seed := start;
    var index2, i := index1, 0;
    while i < 5
      invariant i <= 5 && index2 == index1 + i * 0x100
      invariant seed == Seed(index1 * 10 + i * 2) && MadeUpTo(table[..], index1, i)
    {
      ghost var before, k := table[..], index1 * 5 + i;
      MakesEntry(before, index1, i);
      NextSeed(2 * k, seed);
      seed := (seed * 125 + 3) % WORD_RANGE % SEED_RANGE;
      var t1 := seed % 0x1_0000 * 0x1_0000;
      NextSeed(2 * k + 1, seed);
      seed := (seed * 125 + 3) % WORD_RANGE % SEED_RANGE;
      var t2 := seed % 0x1_0000;
      MadeIs(k);
      table[index2] := Bits.Or(t2, t1);
      assert table[..] == before[index2 := MadeEntry(k)];
      i, index2 := i + 1, index2 + 0x100;
    }
  }

  /** crypttable_init fills every entry, each with two numbers of its own; 32 bits are enough for the seed. */
  method CryptTableInit(table: array<Word>)
    requires table.Length == CRYPT_SIZE
    modifies table
    ensures forall j | 0 <= j < CRYPT_SIZE :: table[j] == CryptEntry(j)
  {
    var seed := 0x00100001;
    assert seed == Seed(0);
    hide MadeUpTo, CryptEntry, Seed;
    NoneMade(table[..]);
    var index1 := 0;
    while index1 < 0x100
      invariant index1 <= 0x100 && seed == Seed(index1 * 10) && MadeUpTo(table[..], index1, 0)
    {
      seed := FillRow(table, index1, seed);
      RowDone(table[..], index1);
      index1 := index1 + 1;
    }
    AllMade(table[..]);
  }

  lemma NextSeed(k: nat, seed: nat)
    requires seed == Seed(k)
    ensures (seed * 125 + 3) % WORD_RANGE % SEED_RANGE == Seed(k + 1) < SEED_RANGE
  {
    assert 0 <= seed * 125 + 3 < WORD_RANGE;
    Bits.RemainderUnique(seed * 125 + 3, WORD_RANGE, 0, seed * 125 + 3);
  }

  lemma MadeIs(k: nat)
    ensures MadeEntry(k) == Bits.Or(Seed(2 * k + 2) % 0x1_0000, Seed(2 * k + 1) % 0x1_0000 * 0x1_0000)
  {
    hide Seed;
    JoinHalves(Seed(2 * k + 1), Seed(2 * k + 2));
  }

  lemma NoneMade(table: seq<Word>)
    ensures MadeUpTo(table, 0, 0)
  {
  }

  lemma AllMade(table: seq<Word>)
    requires MadeUpTo(table, 0x100, 0)
    ensures forall j | 0 <= j < |table| :: table[j] == CryptEntry(j)
  {
    hide CryptEntry;
    forall j | 0 <= j < |table| ensures j % 0x100 < 0x100 {
    }
  }
}
