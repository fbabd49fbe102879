/**
 The byte tests of http_parse.c as the code writes them, by bits, and as `RequestLine` states them.
 */
module ByteClasses {
  import Bits
  import opened Common
  import opened RequestLine

  /** The table `usual`: one bit for each of 256 bytes. */
  const USUAL: seq<nat> := [
    0xffffdbfe, 0x7fff37d6, 0xffffffff, 0xffffffff, 0xffffffff, 0xffffffff, 0xffffffff, 0xffffffff]

  /** The bits of a word, from the lowest on, say which bytes from `base` on are usual. */
  predicate Agrees(word: nat, base: nat, left: nat)
    requires base + left <= 256
    decreases left
  {
    left == 0 || ((word % 2 == 1 <==> Usual(base as char)) && Agrees(word / 2, base + 1, left - 1))
  }

  lemma {:induction false} AgreesAt(word: nat, base: nat, left: nat, k: nat)
    requires base + left <= 256 && k < left && Agrees(word, base, left)
    ensures Bits.BitSet(word, k) <==> Usual((base + k) as char)
    decreases k
  {
    if k > 0 {
      AgreesAt(word / 2, base + 1, left - 1, k - 1);
    }
  }

  lemma NoBits(base: nat)
    requires base <= 256
    ensures Agrees(0, base, 0)
  {
  }

  lemma OneBit(word: nat, base: nat, left: nat)
    requires 0 < left && base + left <= 256 && (word % 2 == 1 <==> Usual(base as char)) && Agrees(word / 2, base + 1, left - 1)
    ensures Agrees(word, base, left)
  {
  }

  /** From the highest bits down, four at a time. */
  lemma FourBits(word: nat, base: nat, left: nat)
    requires 4 <= left && base + left <= 256 && Agrees(word / 16, base + 4, left - 4)
    requires (word % 2 == 1 <==> Usual(base as char)) && (word / 2 % 2 == 1 <==> Usual((base + 1) as char))
    requires (word / 4 % 2 == 1 <==> Usual((base + 2) as char)) && (word / 8 % 2 == 1 <==> Usual((base + 3) as char))
    ensures Agrees(word, base, left)
  {
    hide Agrees, Usual;
    assert word / 2 / 2 == word / 4 && word / 4 / 2 == word / 8 && word / 8 / 2 == word / 16;
    OneBit(word / 8, base + 3, left - 3);
    OneBit(word / 4, base + 2, left - 2);
    OneBit(word / 2, base + 1, left - 1);
    OneBit(word, base, left);
  }

  lemma FirstWord()
    ensures Agrees(0xffffdbfe, 0, 32)
  {
    hide Agrees;
    NoBits(32);
    FourBits(0xf, 28, 4);
    FourBits(0xff, 24, 8);
    FourBits(0xfff, 20, 12);
    FourBits(0xffff, 16, 16);
    FourBits(0xffffd, 12, 20);
    FourBits(0xffffdb, 8, 24);
    FourBits(0xffffdbf, 4, 28);
    FourBits(0xffffdbfe, 0, 32);
  }

  lemma SecondWord()
    ensures Agrees(0x7fff37d6, 32, 32)
  {
    hide Agrees;
    NoBits(64);
    FourBits(0x7, 60, 4);
    FourBits(0x7f, 56, 8);
    FourBits(0x7ff, 52, 12);
    FourBits(0x7fff, 48, 16);
    FourBits(0x7fff3, 44, 20);
    FourBits(0x7fff37, 40, 24);
    FourBits(0x7fff37d, 36, 28);
    FourBits(0x7fff37d6, 32, 32);
  }

  /** Above 64 every byte is usual, and every bit is set. */
  lemma {:induction false} AllOnes(base: nat, left: nat)
    requires base >= 64 && base + left <= 256
    ensures Agrees(Bits.Pow2(left) - 1, base, left)
    decreases left
  {
    if left == 0 {
      NoBits(base);
    } else {
      AllOnes(base + 1, left - 1);
      assert Usual(base as char);
      hide Usual, Agrees;
      OneBit(Bits.Pow2(left) - 1, base, left);
    }
  }

  lemma LowBits()
    ensures Bits.Pow2(32) - 1 == 0xffffffff
  {
    assert Bits.Pow2(8) == 0x100;
    Bits.Pow2Add(8, 8);
    Bits.Pow2Add(16, 16);
  }

  /** The parser looks up the bit by the high three and the low five bits of the byte. */
  lemma UsualIsBitmap(ch: Byte)
    ensures Usual(ch) <==> Bits.BitSet(USUAL[ch as int / 32], ch as int % 32)
  {
    hide Usual, Agrees;
    var row := ch as int / 32;
    FirstWord();
    SecondWord();
    if row >= 2 {
      AllOnes(row * 32, 32);
      LowBits();
    }
    AgreesAt(USUAL[row], row * 32, 32, ch as int % 32);
  }

  lemma {:induction false} OrBit(x: nat, k: nat)
    ensures Bits.Or(x, Bits.Pow2(k)) == if x / Bits.Pow2(k) % 2 == 1 then x else x + Bits.Pow2(k)
    decreases k
  {
    if k == 0 {
      assert Bits.Or(x / 2, 0) == x / 2;
    } else {
      OrBit(x / 2, k - 1);
      HalfQuotient(x, Bits.Pow2(k - 1));
    }
  }

  lemma HalfQuotient(x: nat, q: nat)
    requires q > 0
    ensures x / (2 * q) == x / 2 / q
  {
    var h := x / 2;
    assert h == q * (h / q) + h % q;
    Bits.RemainderUnique(x, 2 * q, h / q, 2 * (h % q) + x % 2);
  }

  /** The parser sets bit 5 first, and then compares with lower-case letters only. */
  lemma LetterByOr(ch: Byte)
    ensures IsLetter(ch) <==> 'a' as int <= Bits.Or(ch as int, 0x20) <= 'z' as int
  {
    assert Bits.Pow2(5) == 0x20;
    OrBit(ch as int, 5);
  }
}
