/**
 Two's complement arithmetic on integers: the bit operators of C on words of any width.

 Halving rounds down, so the bits of a negative number end in ones: -1 is all ones.
 */
module Bits {

  /** The distance to the nearer of 0 and -1, where every sequence of halvings ends. */
  function Magnitude(x: int): nat {
    if x < 0 then -1 - x else x
  }

  function And(x: int, y: int): (r: int)
    decreases Magnitude(x) + Magnitude(y)
  {
    if x == 0 || y == 0 then 0
    else if x == -1 then y
    else if y == -1 then x
    else 2 * And(x / 2, y / 2) + (if x % 2 == 1 && y % 2 == 1 then 1 else 0)
  }

  function Or(x: int, y: int): int
    decreases Magnitude(x) + Magnitude(y)
  {
    if x == -1 || y == -1 then -1
    else if x == 0 then y
    else if y == 0 then x
    else 2 * Or(x / 2, y / 2) + (if x % 2 == 1 || y % 2 == 1 then 1 else 0)
  }

  function Xor(x: nat, y: nat): nat
    decreases x + y
  {
    if x == 0 then y
    else if y == 0 then x
    else 2 * Xor(x / 2, y / 2) + (if x % 2 != y % 2 then 1 else 0)
  }

  function Not(x: int): int {
    -1 - x
  }

  function Pow2(k: nat): (r: nat)
    ensures r > 0
  {
    if k == 0 then 1 else 2 * Pow2(k - 1)
  }

  lemma {:induction false} AndBounds(x: nat, y: nat)
    ensures 0 <= And(x, y) <= x && And(x, y) <= y
    decreases x + y
  {
    if x != 0 && y != 0 {
      AndBounds(x / 2, y / 2);
    }
  }

  /** Bit k of the word is set. */
  predicate BitSet(word: nat, k: nat) {
    if k == 0 then word % 2 == 1 else BitSet(word / 2, k - 1)
  }

  lemma {:induction false} NoBits(k: nat)
    ensures !BitSet(0, k)
  {
    if k > 0 {
      NoBits(k - 1);
    }
  }

  lemma {:induction false} AndBits(x: nat, y: nat, k: nat)
    ensures And(x, y) >= 0 && (BitSet(And(x, y), k) <==> BitSet(x, k) && BitSet(y, k))
    decreases k
  {
    AndBounds(x, y);
    if x == 0 || y == 0 {
      NoBits(k);
    } else if k > 0 {
      AndBits(x / 2, y / 2, k - 1);
    }
  }

  lemma {:induction false} OrBits(x: nat, y: nat, k: nat)
    ensures Or(x, y) >= 0 && (BitSet(Or(x, y), k) <==> BitSet(x, k) || BitSet(y, k))
    decreases k
  {
    OrBounds(x, y);
    if x == 0 || y == 0 {
      NoBits(k);
    } else if k > 0 {
      OrBits(x / 2, y / 2, k - 1);
    }
  }

  lemma {:induction false} OrBounds(x: nat, y: nat)
    ensures Or(x, y) >= 0
    decreases x + y
  {
    if x != 0 && y != 0 {
      OrBounds(x / 2, y / 2);
    }
  }

  lemma {:induction false} XorBits(x: nat, y: nat, k: nat)
    ensures BitSet(Xor(x, y), k) <==> BitSet(x, k) != BitSet(y, k)
    decreases k
  {
    if x == 0 || y == 0 {
      NoBits(k);
    } else if k > 0 {
      XorBits(x / 2, y / 2, k - 1);
    }
  }

  /** Two words with the same bits are the same. */
  lemma {:induction false} DifferentBit(x: nat, y: nat) returns (k: nat)
    requires x != y
    ensures BitSet(x, k) != BitSet(y, k)
    decreases x + y
  {
    k := 0;
    if x % 2 == y % 2 {
      k := DifferentBit(x / 2, y / 2);
      k := k + 1;
    }
  }

  lemma AndOdd(x: int, q: nat)
    requires q > 0
    ensures And(x, 2 * q - 1) == 2 * And(x / 2, q - 1) + x % 2
  {
  }

  lemma {:induction false} AndMask(x: int, k: nat)
    ensures And(x, Pow2(k) - 1) == x % Pow2(k)
    decreases k
  {
    if k > 0 {
      hide And;
      AndMask(x / 2, k - 1);
      AndOdd(x, Pow2(k - 1));
      HalfRemainder(x, Pow2(k - 1));
      assert Pow2(k) == 2 * Pow2(k - 1);
    }
  }

  lemma RemainderUnique(x: int, m: nat, q: int, r: nat)
    requires 0 <= r < m && x == q * m + r
    ensures x % m == r && x / m == q
  {
    assert x == m * (x / m) + x % m;
    MultipleApart(m, x / m - q);
    assert m * (x / m - q) == r - x % m;
  }

  lemma MultipleApart(m: int, d: int)
    requires m > 0
    ensures d > 0 ==> m * d >= m
    ensures d < 0 ==> m * d <= -m
  {
  }

  lemma {:induction false} Pow2Add(a: nat, b: nat)
    ensures Pow2(a + b) == Pow2(a) * Pow2(b)
  {
    if a > 0 {
      Pow2Add(a - 1, b);
      assert Pow2(a + b) == 2 * Pow2(a - 1 + b);
    }
  }

  lemma ModPeriod(x: int, m: nat, k: int)
    requires m > 0
    ensures (x + k * m) % m == x % m
  {
    assert x == (x / m) * m + x % m;
    assert x + k * m == (x / m + k) * m + x % m;
    RemainderUnique(x + k * m, m, x / m + k, x % m);
  }

  lemma NextRemainder(x: int, y: int, m: nat)
    requires m > 0 && x % m == y % m
    ensures (x + 1) % m == (y + 1) % m
  {
    var k := x / m - y / m;
    assert x == y + k * m by {
      assert x == x / m * m + x % m && y == y / m * m + y % m;
    }
    ModPeriod(y + 1, m, k);
  }

  lemma HalfRemainder(x: int, q: nat)
    requires q > 0
    ensures x % (2 * q) == 2 * ((x / 2) % q) + x % 2
  {
    var h := x / 2;
    assert x == 2 * (q * (h / q) + h % q) + x % 2;
    assert x == (2 * q) * (h / q) + (2 * (h % q) + x % 2);
    RemainderUnique(x, 2 * q, h / q, 2 * (h % q) + x % 2);
  }

  /** Fields that share no bit: `or` is addition. */
  lemma {:induction false} OrDisjoint(x: nat, c: nat, k: nat)
    requires x < Pow2(k)
    ensures Or(x, c * Pow2(k)) == x + c * Pow2(k)
    decreases k
  {
    if k > 0 && x != 0 && c != 0 {
      var q := Pow2(k - 1);
      assert c * Pow2(k) == 2 * (c * q);
      assert c * q > 0;
      OrDisjoint(x / 2, c, k - 1);
    }
  }
}
