/** The escape bitmap (src/escape.c, src/escape.h). */
module EscapeTable {
  import opened Bytes

  /** Letters, digits and "-_.!~*'():@&=+$,/?": the bytes left unescaped. */
  predicate Unescaped(c: Byte) {
    || 65 <= c <= 90 || 97 <= c <= 122 || 48 <= c <= 57
    || c == 45 || c == 95 || c == 46 || c == 33 || c == 126 || c == 42 || c == 39 || c == 40 || c == 41
    || c == 58 || c == 64 || c == 38 || c == 61 || c == 43 || c == 36 || c == 44 || c == 47 || c == 63
  }

  const UPPER: seq<Byte> :=
    [65, 66, 67, 68, 69, 70, 71, 72, 73, 74, 75, 76, 77, 78, 79, 80, 81, 82, 83, 84, 85, 86, 87, 88, 89, 90]
  const LOWER: seq<Byte> :=
    [97, 98, 99, 100, 101, 102, 103, 104, 105, 106, 107, 108, 109,
     110, 111, 112, 113, 114, 115, 116, 117, 118, 119, 120, 121, 122]
  const DIGITS: seq<Byte> := [48, 49, 50, 51, 52, 53, 54, 55, 56, 57]
  const MARKS: seq<Byte> := [45, 95, 46, 33, 126, 42, 39, 40, 41, 58, 64, 38, 61, 43, 36, 44, 47, 63]

  lemma Uppers(c: Byte)
    ensures c in UPPER <==> 65 <= c <= 90
  {
    assert 65 <= c <= 90 ==> UPPER[c - 65] == c;
  }

  lemma Lowers(c: Byte)
    ensures c in LOWER <==> 97 <= c <= 122
  {
    assert 97 <= c <= 122 ==> LOWER[c - 97] == c;
  }

  lemma DigitsAndMarks(c: Byte)
    ensures c in DIGITS <==> 48 <= c <= 57
    ensures c in MARKS <==> c in {45, 95, 46, 33, 126, 42, 39, 40, 41, 58, 64, 38, 61, 43, 36, 44, 47, 63}
  {
    assert 48 <= c <= 57 ==> DIGITS[c - 48] == c;
  }

  /** A 64-bit word as the set of its one bits, so `a & ~b` is `a - b`. */
  type Word = set<int>

  const ALL_ONES: Word := set k | 0 <= k < 64

  /** `1 << (c & 31)`: an `int`, so bit 31 is sign-extended to the upper half. */
  function Mask(c: Byte): Word {
    if c % 32 == 31 then set k | k in ALL_ONES && 31 <= k else {c % 32}
  }

  /** The `needs_escape` macro over the bitmap. */
  predicate NeedsEscape(words: seq<Word>, c: Byte)
    requires |words| == 4
  {
    c >= 128 || words[c / 32] * Mask(c) != {}
  }

  /** The finished bitmap. */
  ghost predicate Built(words: seq<Word>) {
    |words| == 4 && forall c: Byte :: NeedsEscape(words, c) <==> !Unescaped(c)
  }

  /** Clearing the bit of `j` changes the test of `j` and of no other byte, although the mask
      of bit 31 covers half of the word. */
  lemma ClearedBit(words: seq<Word>, j: Byte, c: Byte)
    requires |words| == 4 && j < 128 && c < 128
    ensures NeedsEscape(words[j / 32 := words[j / 32] - Mask(j)], c) <==> NeedsEscape(words, c) && c != j
  {
    var w := words[j / 32];
    if j / 32 == c / 32 {
      if j == c {
        assert (w - Mask(j)) * Mask(c) == {};
      } else {
        assert j % 32 != c % 32;
        assert Mask(j) * Mask(c) == {};
        assert (w - Mask(j)) * Mask(c) == w * Mask(c);
      }
    }
  }

  /** The bits of the bytes of `special` are cleared, and no others. */
  method ClearBits(words: array<Word>, special: seq<Byte>)
    requires words.Length == 4
    modifies words
    ensures forall c: Byte | c < 128 :: NeedsEscape(words[..], c) <==> old(NeedsEscape(words[..], c)) && c !in special
  {
    ghost var start := words[..];
    for i := 0 to |special|
      invariant forall c: Byte | c < 128 :: NeedsEscape(words[..], c) <==> NeedsEscape(start, c) && c !in special[..i]
    {
      var j := special[i];
      if j < 128 {
        ghost var before := words[..];
        words[j / 32] := words[j / 32] - Mask(j);
        forall c: Byte | c < 128
          ensures NeedsEscape(words[..], c) <==> NeedsEscape(before, c) && c != j
        {
          ClearedBit(before, j, c);
          assert words[..] == before[j / 32 := before[j / 32] - Mask(j)];
        }
      }
    }
  }

  method BuildNeedsEscape(words: array<Word>)
    requires words.Length == 4
    modifies words
    ensures Built(words[..])
  {
    for k := 0 to 4
      invariant forall j :: 0 <= j < k ==> words[j] == ALL_ONES
    {
      words[k] := ALL_ONES;
    }
    forall c: Byte | c < 128
      ensures NeedsEscape(words[..], c)
    {
      assert c % 32 in words[c / 32] * Mask(c);
    }
    var special := UPPER + LOWER + DIGITS + MARKS;
    ClearBits(words, special);
    forall c: Byte
      ensures NeedsEscape(words[..], c) <==> !Unescaped(c)
    {
      Uppers(c);
      Lowers(c);
      DigitsAndMarks(c);
      assert c in special <==> c in UPPER || c in LOWER || c in DIGITS || c in MARKS;
    }
  }
}
