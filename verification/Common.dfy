/**
 The names that several parts of the server share: return codes, bytes and a few types.
 */
module Common {

  const OS_OK := 0
  const OS_ERR := -1
  const OS_AGAIN := -2
  const OS_DECLINED := -5

  type Byte = c: char | c as int < 256
  type Text = seq<Byte>

  datatype Option<T> = None | Some(value: T)

  // ---------- letter case ----------

  /** The place of an ASCII letter in the alphabet, whatever its case; -1 for other bytes. */
  function LetterPlace(ch: Byte): int {
    if 'A' <= ch <= 'Z' then ch as int - 'A' as int
    else if 'a' <= ch <= 'z' then ch as int - 'a' as int
    else -1
  }

  /** The same byte, or the same letter in either case. */
  predicate SameLetter(a: Byte, b: Byte) {
    a == b || LetterPlace(a) == LetterPlace(b) != -1
  }

  /** The same text up to the case of its letters. */
  predicate SameButCase(s: Text, t: Text) {
    |s| == |t| && forall i | 0 <= i < |s| :: SameLetter(s[i], t[i])
  }

  // ---------- reversal ----------

  function Reverse<T>(s: seq<T>): (r: seq<T>)
    ensures |r| == |s|
    ensures forall i | 0 <= i < |s| :: r[i] == s[|s| - 1 - i]
    ensures forall x | x in r :: x in s
    ensures forall x | x in s :: x in r
  {
    if s == [] then [] else Reverse(s[1..]) + [s[0]]
  }

  lemma {:induction false} ReverseMultiset<T>(s: seq<T>)
    ensures multiset(Reverse(s)) == multiset(s)
  {
    if s != [] {
      ReverseMultiset(s[1..]);
      assert s == [s[0]] + s[1..];
    }
  }
}
