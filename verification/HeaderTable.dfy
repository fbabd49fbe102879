/**
 The hash table of header names: 512 slots, filled from the table that crypttable_init computes.

 Two strings, PO and QR, both start at its last slot. The one that is added second wraps
 around to slot 0, and a search for it reads past the last bucket.
 */
module HeaderTable {
  import Bits
  import opened Common
  import opened HashTable

  const MAX_HEADERS: nat := 512

  // ---------- exclusive or of words, digit by digit ----------

  lemma XorDouble(a: nat, c: nat, s: nat, t: nat)
    requires s < 2 && t < 2
    ensures Bits.Xor(2 * a + s, 2 * c + t) == 2 * Bits.Xor(a, c) + (if s != t then 1 else 0)
  {
    var x, y := 2 * a + s, 2 * c + t;
    assert x / 2 == a && x % 2 == s && y / 2 == c && y % 2 == t;
  }

  /** The exclusive or of two hexadecimal digits. */
  function XorDigit(b: nat, d: nat): nat {
    (if b / 8 % 2 != d / 8 % 2 then 8 else 0) + (if b / 4 % 2 != d / 4 % 2 then 4 else 0)
    + (if b / 2 % 2 != d / 2 % 2 then 2 else 0) + (if b % 2 != d % 2 then 1 else 0)
  }

  lemma DigitBits(b: nat)
    requires b < 16
    ensures b == 8 * (b / 8 % 2) + 4 * (b / 4 % 2) + 2 * (b / 2 % 2) + b % 2
  {
  }

  lemma XorAppend(a: nat, b: nat, c: nat, d: nat)
    requires b < 16 && d < 16
    ensures Bits.Xor(16 * a + b, 16 * c + d) == 16 * Bits.Xor(a, c) + XorDigit(b, d)
  {
    hide Bits.Xor;
    DigitBits(b);
    DigitBits(d);
    var b3, b2, b1, b0 := b / 8 % 2, b / 4 % 2, b / 2 % 2, b % 2;
    var d3, d2, d1, d0 := d / 8 % 2, d / 4 % 2, d / 2 % 2, d % 2;
    XorDouble(a, c, b3, d3);
    XorDouble(2 * a + b3, 2 * c + d3, b2, d2);
    XorDouble(2 * (2 * a + b3) + b2, 2 * (2 * c + d3) + d2, b1, d1);
    XorDouble(2 * (2 * (2 * a + b3) + b2) + b1, 2 * (2 * (2 * c + d3) + d2) + d1, b0, d0);
  }

  /** Four digits after another number. */
  lemma XorFour(a: nat, c: nat, b3: nat, b2: nat, b1: nat, b0: nat, d3: nat, d2: nat, d1: nat, d0: nat)
    requires b3 < 16 && b2 < 16 && b1 < 16 && b0 < 16 && d3 < 16 && d2 < 16 && d1 < 16 && d0 < 16
    ensures Bits.Xor(0x1_0000 * a + 0x1000 * b3 + 0x100 * b2 + 0x10 * b1 + b0, 0x1_0000 * c + 0x1000 * d3 + 0x100 * d2 + 0x10 * d1 + d0)
            == 0x1_0000 * Bits.Xor(a, c) + 0x1000 * XorDigit(b3, d3) + 0x100 * XorDigit(b2, d2) + 0x10 * XorDigit(b1, d1) + XorDigit(b0, d0)
  {
    hide Bits.Xor, XorDigit;
    XorAppend(a, b3, c, d3);
    XorAppend(16 * a + b3, b2, 16 * c + d3, d2);
    XorAppend(16 * (16 * a + b3) + b2, b1, 16 * (16 * c + d3) + d2, d1);
    XorAppend(16 * (16 * (16 * a + b3) + b2) + b1, b0, 16 * (16 * (16 * c + d3) + d2) + d1, d0);
  }

  lemma Xor0()
    ensures Bits.Xor(0x20250752, 0x6edc6edb) == 0x4ef96989
  {
    hide Bits.Xor;
    XorDouble(0, 0, 0, 0);
    XorFour(0, 0, 2, 0, 2, 5, 6, 0xe, 0xd, 0xc);
    XorFour(0x2025, 0x6edc, 0, 7, 5, 2, 6, 0xe, 0xd, 0xb);
  }

  lemma Xor1()
    ensures Bits.Xor(0x94f711ec, 0x6abfa013) == 0xfe48b1ff
  {
    hide Bits.Xor;
    XorDouble(0, 0, 0, 0);
    XorFour(0, 0, 9, 4, 0xf, 7, 6, 0xa, 0xb, 0xf);
    XorFour(0x94f7, 0x6abf, 1, 1, 0xe, 0xc, 0xa, 0, 1, 3);
  }

  lemma Xor2()
    ensures Bits.Xor(0xe84614da, 0x6edc6edb) == 0x869a7a01
  {
    hide Bits.Xor;
    XorDouble(0, 0, 0, 0);
    XorFour(0, 0, 0xe, 8, 4, 6, 6, 0xe, 0xd, 0xc);
    XorFour(0xe846, 0x6edc, 1, 4, 0xd, 0xa, 6, 0xe, 0xd, 0xb);
  }

  lemma Xor3()
    ensures Bits.Xor(0x6ae1da73, 0xda01c103) == 0xb0e01b70
  {
    hide Bits.Xor;
    XorDouble(0, 0, 0, 0);
    XorFour(0, 0, 6, 0xa, 0xe, 1, 0xd, 0xa, 0, 1);
    XorFour(0x6ae1, 0xda01, 0xd, 0xa, 7, 3, 0xc, 1, 0, 3);
  }

  lemma Xor4()
    ensures Bits.Xor(0x399d21a3, 0x6edc6edb) == 0x57414f78
  {
    hide Bits.Xor;
    XorDouble(0, 0, 0, 0);
    XorFour(0, 0, 3, 9, 9, 0xd, 6, 0xe, 0xd, 0xc);
    XorFour(0x399d, 0x6edc, 2, 1, 0xa, 3, 6, 0xe, 0xd, 0xb);
  }

  lemma Xor5()
    ensures Bits.Xor(0xe5c0840d, 0x7b4f6bf2) == 0x9e8fefff
  {
    hide Bits.Xor;
    XorDouble(0, 0, 0, 0);
    XorFour(0, 0, 0xe, 5, 0xc, 0, 7, 0xb, 4, 0xf);
    XorFour(0xe5c0, 0x7b4f, 8, 4, 0, 0xd, 6, 0xb, 0xf, 2);
  }

  lemma Xor6()
    ensures Bits.Xor(0x6c9906ab, 0x6edc6edb) == 0x02456870
  {
    hide Bits.Xor;
    XorDouble(0, 0, 0, 0);
    XorFour(0, 0, 6, 0xc, 9, 9, 6, 0xe, 0xd, 0xc);
    XorFour(0x6c99, 0x6edc, 0, 6, 0xa, 0xb, 6, 0xe, 0xd, 0xb);
  }

  lemma Xor7()
    ensures Bits.Xor(0xcf8e02db, 0xd1579de2) == 0x1ed99f39
  {
    hide Bits.Xor;
    XorDouble(0, 0, 0, 0);
    XorFour(0, 0, 0xc, 0xf, 8, 0xe, 0xd, 1, 5, 7);
    XorFour(0xcf8e, 0xd157, 0, 2, 0xd, 0xb, 9, 0xd, 0xe, 2);
  }

  // ---------- the numbers of crypttable_init, far along ----------

  /** n numbers further on, as one multiplication and one addition. */
  ghost predicate Leaps(n: nat, a: nat, b: nat) {
    forall k: nat :: Seed(k + n) == (a * Seed(k) + b) % SEED_RANGE
  }

  lemma LeapOne()
    ensures Leaps(1, 125, 3)
  {
  }

  /** A remainder may be taken before multiplying. */
  lemma ReduceFirst(c: nat, x: nat, d: nat)
    ensures (c * (x % SEED_RANGE) + d) % SEED_RANGE == (c * x + d) % SEED_RANGE
  {
    var q, r := x / SEED_RANGE, x % SEED_RANGE;
    assert x == q * SEED_RANGE + r;
    assert c * x == c * r + c * q * SEED_RANGE;
    Bits.ModPeriod(c * r + d, SEED_RANGE, c * q);
  }

  /** Coefficients may be reduced. */
  lemma ReduceCoefficients(a: nat, s: nat, b: nat)
    ensures (a % SEED_RANGE * s + b % SEED_RANGE) % SEED_RANGE == (a * s + b) % SEED_RANGE
  {
    ReduceFirst(s, a, b % SEED_RANGE);
    assert s * (a % SEED_RANGE) == a % SEED_RANGE * s && s * a == a * s;
    ReduceFirst(1, b, a * s);
  }

  lemma LeapArithmetic(a: nat, b: nat, c: nat, d: nat, s: nat)
    ensures (c * ((a * s + b) % SEED_RANGE) + d) % SEED_RANGE == (c * a % SEED_RANGE * s + (c * b + d) % SEED_RANGE) % SEED_RANGE
  {
    ReduceFirst(c, a * s + b, d);
    Distribute(a, b, c, d, s);
    ReduceCoefficients(c * a, s, c * b + d);
  }

  lemma Distribute(a: nat, b: nat, c: nat, d: nat, s: nat)
    ensures c * (a * s + b) + d == c * a * s + (c * b + d)
  {
    assert c * (a * s + b) == c * (a * s) + c * b;
    assert c * (a * s) == c * a * s;
  }

  lemma LeapTwice(m: nat, a: nat, b: nat, n: nat, c: nat, d: nat, e: nat, f: nat)
    requires Leaps(m, a, b) && Leaps(n, c, d) && e == c * a % SEED_RANGE && f == (c * b + d) % SEED_RANGE
    ensures Leaps(m + n, e, f)
  {
    forall k: nat ensures Seed(k + (m + n)) == (e * Seed(k) + f) % SEED_RANGE {
      hide Seed;
      LeapTogether(k, m, a, b, n, c, d);
    }
  }

  lemma LeapTogether(k: nat, m: nat, a: nat, b: nat, n: nat, c: nat, d: nat)
    requires Leaps(m, a, b) && Leaps(n, c, d)
    ensures Seed(k + (m + n)) == (c * a % SEED_RANGE * Seed(k) + (c * b + d) % SEED_RANGE) % SEED_RANGE
  {
    hide Seed;
    var x, y := Seed(k), Seed(k + m);
    assert y == (a * x + b) % SEED_RANGE;
    assert Seed(k + m + n) == (c * y + d) % SEED_RANGE;
    assert k + m + n == k + (m + n);
    hide Leaps;
    LeapArithmetic(a, b, c, d, x);
  }

  lemma LeapTo256()
    ensures Leaps(2, 15625, 378) && Leaps(4, 870964, 314222) && Leaps(16, 332981, 1902258) && Leaps(256, 6772, 1105115)
  {
    hide Leaps;
    LeapOne();
    LeapTwice(1, 125, 3, 1, 125, 3, 15625, 378);
    LeapTwice(2, 15625, 378, 2, 15625, 378, 870964, 314222);
    LeapTwice(4, 870964, 314222, 4, 870964, 314222, 1969832, 791808);
    LeapTwice(8, 1969832, 791808, 8, 1969832, 791808, 332981, 1902258);
    LeapTwice(16, 332981, 1902258, 16, 332981, 1902258, 1305005, 2196375);
    LeapTwice(32, 1305005, 2196375, 32, 1305005, 2196375, 2224266, 1113664);
    LeapTwice(64, 2224266, 1113664, 64, 2224266, 1113664, 920217, 2547866);
    LeapTwice(128, 920217, 2547866, 128, 920217, 2547866, 6772, 1105115);
  }

  lemma Seed790()
    ensures Seed(790) == 1614588
  {
    hide Seed;
    LeapTo256();
    LeapFarther();
    SeedZero();
    assert Seed(0 + 790) == (1958603 * Seed(0) + 2347488) % SEED_RANGE;
  }

  lemma SeedZero()
    ensures Seed(0) == 0x00100001
  {
  }

  lemma LeapFarther()
    requires Leaps(2, 15625, 378) && Leaps(4, 870964, 314222) && Leaps(16, 332981, 1902258) && Leaps(256, 6772, 1105115)
    ensures Leaps(790, 1958603, 2347488)
  {
    hide Leaps;
    LeapTwice(256, 6772, 1105115, 256, 6772, 1105115, 1120736, 2304667);
    LeapTwice(512, 1120736, 2304667, 256, 6772, 1105115, 729250, 2701096);
    LeapTwice(768, 729250, 2701096, 16, 332981, 1902258, 1329527, 77266);
    LeapTwice(784, 1329527, 77266, 4, 870964, 314222, 975262, 1045);
    LeapTwice(788, 975262, 1045, 2, 15625, 378, 1958603, 2347488);
  }

  /** The first two entries of a row, and the seed of the next one. */
  lemma Row(row: nat, s0: nat, s1: nat, s2: nat, s3: nat, s4: nat)
    requires row < 0x100 && Seed(row * 10) == s0
    requires s1 == (s0 * 125 + 3) % SEED_RANGE && s2 == (s1 * 125 + 3) % SEED_RANGE
    requires s3 == (s2 * 125 + 3) % SEED_RANGE && s4 == (s3 * 125 + 3) % SEED_RANGE
    ensures CryptEntry(row) == s1 % 0x1_0000 * 0x1_0000 + s2 % 0x1_0000
    ensures CryptEntry(0x100 + row) == s3 % 0x1_0000 * 0x1_0000 + s4 % 0x1_0000
  {
    assert row % 0x100 == row && row / 0x100 == 0;
    assert (0x100 + row) % 0x100 == row && (0x100 + row) / 0x100 == 1;
    assert Seed(row * 10 + 1) == s1;
    assert Seed(row * 10 + 2) == s2;
    assert Seed(row * 10 + 3) == s3;
    assert Seed(row * 10 + 4) == s4;
    hide Seed;
    assert 2 * (row * 5 + 0) + 1 == row * 10 + 1 && 2 * (row * 5 + 1) + 1 == row * 10 + 3;
  }

  lemma NextRow(row: nat, s: nat, s': nat)
    requires Seed(row * 10) == s
    requires Leaps(10, 818579, 1598306) && s' == (818579 * s + 1598306) % SEED_RANGE
    ensures Seed((row + 1) * 10) == s'
  {
    hide Seed;
    assert (row + 1) * 10 == row * 10 + 10;
  }

  lemma LeapTen()
    ensures Leaps(10, 818579, 1598306)
  {
    hide Leaps;
    LeapOne();
    LeapTwice(1, 125, 3, 1, 125, 3, 15625, 378);
    LeapTwice(2, 15625, 378, 2, 15625, 378, 870964, 314222);
    LeapTwice(4, 870964, 314222, 4, 870964, 314222, 1969832, 791808);
    LeapTwice(8, 1969832, 791808, 2, 15625, 378, 818579, 1598306);
  }

  lemma RowSeeds()
    ensures Seed(79 * 10) == 1614588 && Seed(80 * 10) == 2137763 && Seed(81 * 10) == 1347014 && Seed(82 * 10) == 1057610
  {
    hide Seed, Leaps;
    Seed790();
    LeapTen();
    NextRow(79, 1614588, 2137763);
    NextRow(80, 2137763, 1347014);
    NextRow(81, 1347014, 1057610);
  }

  lemma EntriesO()
    ensures CryptEntry(79) == 0x94f711ec && CryptEntry(335) == 0x6ae1da73
  {
    hide Seed, CryptEntry, Leaps;
    RowSeeds();
    Row(79, 1614588, 496887, 594412, 1600225, 1497715);
  }

  lemma EntriesP()
    ensures CryptEntry(80) == 0x20250752 && CryptEntry(336) == 0xe84614da
  {
    hide Seed, CryptEntry, Leaps;
    RowSeeds();
    Row(80, 2137763, 1581093, 1902418, 124998, 1643738);
  }

  lemma EntriesQ()
    ensures CryptEntry(81) == 0x399d21a3 && CryptEntry(337) == 0x6c9906ab
  {
    hide Seed, CryptEntry, Leaps;
    RowSeeds();
    Row(81, 1347014, 604573, 74147, 879769, 919211);
  }

  lemma EntriesR()
    ensures CryptEntry(82) == 0xe5c0840d && CryptEntry(338) == 0xcf8e02db
  {
    hide Seed, CryptEntry, Leaps;
    RowSeeds();
    Row(82, 1057610, 779712, 2393101, 2740110, 1376987);
  }

  // ---------- two strings ----------

  const PO: Text := "PO"
  const QR: Text := "QR"

  /** The table as crypttable_init leaves it. */
  ghost predicate Computed(crypt: Crypt) {
    forall j | 0 <= j < CRYPT_SIZE :: crypt[j] == CryptEntry(j)
  }

  lemma EntryOf(crypt: Crypt, j: nat)
    requires Computed(crypt) && j < CRYPT_SIZE
    ensures crypt[j] == CryptEntry(j)
  {
    hide CryptEntry;
  }

  /** The hash of two upper-case letters. */
  lemma TwoLetters(crypt: Crypt, kind: nat, a: Byte, b: Byte, s: Seeds, t: Seeds)
    requires kind < 3 && 'A' <= a <= 'Z' && 'A' <= b <= 'Z'
    requires s == Mix(crypt, kind, START_SEEDS, a) && t == Mix(crypt, kind, s, b)
    ensures HashString(crypt, [a, b], kind) == t.seed1
  {
    hide Mix;
    assert [a, b][1..] == [b] && [b][1..] == [];
    assert MixAll(crypt, kind, START_SEEDS, [a, b]) == MixAll(crypt, kind, s, [b]) == MixAll(crypt, kind, t, []);
  }

  /** One letter, with its entry and the exclusive or at hand. */
  lemma MixIs(crypt: Crypt, kind: nat, s: Seeds, ch: Byte, entry: nat, seed1: nat)
    requires kind < 3 && 'A' <= ch <= 'Z' && crypt[kind * 256 + ch as nat] == entry
    requires Bits.Xor(entry, (s.seed1 + s.seed2) % WORD_RANGE) == seed1
    ensures Mix(crypt, kind, s, ch) == Seeds(seed1, (ch as nat + seed1 + s.seed2 + s.seed2 * 32 + 3) % WORD_RANGE)
  {
  }

  lemma HashPO0(crypt: Crypt)
    requires Computed(crypt)
    ensures HashString(crypt, PO, 0) == 0xfe48b1ff
  {
    hide Bits.Xor, CryptEntry, Mix, HashString, Computed;
    EntriesP();
    EntriesO();
    EntryOf(crypt, 80);
    EntryOf(crypt, 79);
    Xor0();
    Xor1();
    var s := Seeds(0x4ef96989, 0x1bc6368a);
    MixIs(crypt, 0, START_SEEDS, 'P', 0x20250752, 0x4ef96989);
    MixIs(crypt, 0, s, 'O', 0x94f711ec, 0xfe48b1ff);
    TwoLetters(crypt, 0, 'P', 'O', s, Seeds(0xfe48b1ff, 0x92d5ba1b));
  }

  lemma HashPO1(crypt: Crypt)
    requires Computed(crypt)
    ensures HashString(crypt, PO, 1) == 0xb0e01b70
  {
    hide Bits.Xor, CryptEntry, Mix, HashString, Computed;
    EntriesP();
    EntriesO();
    EntryOf(crypt, 336);
    EntryOf(crypt, 335);
    Xor2();
    Xor3();
    var s := Seeds(0x869a7a01, 0x53674702);
    MixIs(crypt, 1, START_SEEDS, 'P', 0xe84614da, 0x869a7a01);
    MixIs(crypt, 1, s, 'O', 0x6ae1da73, 0xb0e01b70);
    TwoLetters(crypt, 1, 'P', 'O', s, Seeds(0xb0e01b70, 0x71304304));
  }

  lemma HashQR0(crypt: Crypt)
    requires Computed(crypt)
    ensures HashString(crypt, QR, 0) == 0x9e8fefff
  {
    hide Bits.Xor, CryptEntry, Mix, HashString, Computed;
    EntriesQ();
    EntriesR();
    EntryOf(crypt, 81);
    EntryOf(crypt, 82);
    Xor4();
    Xor5();
    var s := Seeds(0x57414f78, 0x240e1c7a);
    MixIs(crypt, 0, START_SEEDS, 'Q', 0x399d21a3, 0x57414f78);
    MixIs(crypt, 0, s, 'R', 0xe5c0840d, 0x9e8fefff);
    TwoLetters(crypt, 0, 'Q', 'R', s, Seeds(0x9e8fefff, 0x44619c0e));
  }

  lemma HashQR1(crypt: Crypt)
    requires Computed(crypt)
    ensures HashString(crypt, QR, 1) == 0x1ed99f39
  {
    hide Bits.Xor, CryptEntry, Mix, HashString, Computed;
    EntriesQ();
    EntriesR();
    EntryOf(crypt, 337);
    EntryOf(crypt, 338);
    Xor6();
    Xor7();
    var s := Seeds(0x02456870, 0xcf123572);
    MixIs(crypt, 1, START_SEEDS, 'Q', 0x6c9906ab, 0x02456870);
    MixIs(crypt, 1, s, 'R', 0xcf8e02db, 0x1ed99f39);
    TwoLetters(crypt, 1, 'Q', 'R', s, Seeds(0x1ed99f39, 0xd0328340));
  }

  /** Both strings are accepted, and the second one is not found: its search leaves the table of header names. */
  lemma StoredStringIsLost(crypt: Crypt)
    requires Computed(crypt)
    ensures var (t, ok) := Add(crypt, Empty(MAX_HEADERS), PO, 0);
            var (u, ok') := Add(crypt, t, QR, 1);
            ok && ok' && u[0] == Taken(QR, 1) && IsExist(crypt, u, QR) == OutOfTable
  {
    hide HashString, Computed;
    HashPO0(crypt);
    HashPO1(crypt);
    HashQR0(crypt);
    HashQR1(crypt);
    LostAtWrap(crypt, MAX_HEADERS, PO, QR, 0, 1);
  }
}
