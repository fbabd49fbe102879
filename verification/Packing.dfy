/**
 The 64-bit head word of the atomic list: a 16-bit version above a 48-bit pointer.

 The lemmas say that the packing loses nothing: a canonical pointer and the version
 modulo 2^16 come back, so two head words are equal exactly when both parts are.
 */
module Packing {
  import opened Bits

  const POW_16 := 0x1_0000
  const POW_48 := 0x1_0000_0000_0000
  const POW_63 := 0x8000_0000_0000_0000
  const POW_64 := 0x1_0000_0000_0000_0000

  /** Conversion to a signed 64-bit integer, and so the result of a left shift. */
  function Int64(x: int): int {
    (x + POW_63) % POW_64 - POW_63
  }

  /** An address as the processor defines it: bits 48 to 63 repeat bit 47. */
  predicate Canonical(p: int) {
    -POW_48 / 2 <= p < POW_48 / 2
  }

  function Pointer(w: int): int {
    var shifted := Int64(w * POW_16);
    Or(shifted / POW_16, Int64(Not(shifted / POW_63 - 1) / POW_48 * POW_48))
  }

  function Version(w: int): int {
    w / POW_48
  }

  function Pack(p: int, v: int): int {
    Int64(Or(And(p, POW_48 - 1), And(v, POW_16 - 1) * POW_48))
  }

  /** The version field without the sign that `Version` extends. */
  function Tag(w: int): nat {
    Version(w) % POW_16
  }

  lemma Powers()
    ensures Pow2(16) == POW_16 && Pow2(48) == POW_48
  {
    assert Pow2(4) == 16;
    Pow2Add(4, 4);
    Pow2Add(8, 8);
    Pow2Add(16, 16);
    Pow2Add(16, 32);
  }

  lemma Int64Period(x: int, k: int)
    ensures Int64(x + k * POW_64) == Int64(x)
  {
    ModPeriod(x + POW_63, POW_64, k);
  }

  /** The second operand of the `or` vanishes: the pointer is the sign extension of the low 48 bits. */
  lemma PointerExtendsSign(w: int)
    ensures Pointer(w) == Int64(w * POW_16) / POW_16
  {
  }

  lemma PackFields(p: int, v: int)
    ensures Pack(p, v) == Int64(p % POW_48 + v % POW_16 * POW_48)
  {
    Powers();
    AndMask(p, 48);
    AndMask(v, 16);
    OrDisjoint(p % POW_48, v % POW_16, 48);
  }

  /** Shifting the word left drops its version. */
  lemma ShiftOutVersion(field: int, version: int)
    ensures Int64(Int64(field + version * POW_48) * POW_16) == Int64(field * POW_16)
  {
    var x := field + version * POW_48;
    var turns := (x + POW_63) / POW_64;
    assert Int64(x) == x - turns * POW_64;
    Int64Period(field * POW_16, version - turns * POW_16);
  }

  lemma SignExtension(p: int)
    requires Canonical(p)
    ensures Int64(p % POW_48 * POW_16) / POW_16 == p
  {
    assert p % POW_48 == if p < 0 then p + POW_48 else p;
    Int64Period(p * POW_16, if p < 0 then 1 else 0);
  }

  lemma VersionField(field: nat, version: nat)
    requires field < POW_48 && version < POW_16
    ensures Tag(Int64(field + version * POW_48)) == version
  {
    var x := field + version * POW_48;
    assert Int64(x) == if x < POW_63 then x else x - POW_64;
    RemainderUnique(x, POW_48, version, field);
    RemainderUnique(x - POW_64, POW_48, version - POW_16, field);
  }

  lemma Unpack(p: int, v: int)
    requires Canonical(p)
    ensures Pointer(Pack(p, v)) == p
    ensures Tag(Pack(p, v)) == v % POW_16
  {
    PackFields(p, v);
    PointerExtendsSign(Pack(p, v));
    ShiftOutVersion(p % POW_48, v % POW_16);
    SignExtension(p);
    VersionField(p % POW_48, v % POW_16);
  }

  /** What `atomic_cas` compares: equal words are equal pointers with equal versions modulo 2^16. */
  lemma SameWord(p: int, v: int, q: int, u: int)
    requires Canonical(p) && Canonical(q)
    ensures Pack(p, v) == Pack(q, u) <==> p == q && v % POW_16 == u % POW_16
  {
    Unpack(p, v);
    Unpack(q, u);
    PackFields(p, v);
    PackFields(q, u);
  }

  lemma PointerKeepsField(w: int)
    ensures Canonical(Pointer(w)) && Pointer(w) % POW_48 == w % POW_48
  {
    PointerExtendsSign(w);
    var turns := (w * POW_16 + POW_63) / POW_64;
    assert Int64(w * POW_16) == w * POW_16 - turns * POW_64;
    assert Pointer(w) == w - turns * POW_48;
  }

  lemma Repack(w: int)
    requires -POW_63 <= w < POW_63
    ensures Pack(Pointer(w), Version(w)) == w
  {
    PointerKeepsField(w);
    PackFields(Pointer(w), Version(w));
    var turns := Version(w) / POW_16;
    assert Version(w) % POW_16 == Version(w) - turns * POW_16;
    Int64Period(w, -turns);
  }
}
