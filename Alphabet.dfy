/** The characters a trie node can branch on: the 26 lower-case ASCII letters,
    each stored at the child index `ch - 'a'`. */
module Alphabet {

  /** Number of children of every node (ALPHABET_SIZE). */
  const AlphabetSize: nat := 26

  /** The child index the engine computes for a character: `ch - 'a'`,
      negative for every character below 'a'. */
  function Index(ch: char): (r: int)
    ensures r < 0 <==> ch < 'a'
  {
    ch as int - 'a' as int
  }

  /** A character has a child slot iff its index is in 0 .. AlphabetSize - 1. */
  predicate IsLetter(ch: char): (b: bool)
    ensures b <==> 'a' <= ch <= 'z'
  {
    0 <= Index(ch) < AlphabetSize
  }

  /** The character of child slot `i` (`i + 'a'`). */
  function Letter(i: nat): (ch: char)
    requires i < AlphabetSize
    ensures IsLetter(ch) && Index(ch) == i
  {
    (i + 'a' as int) as char
  }

  /** Every character of `s` has a child slot. */
  predicate InAlphabet(s: string)
  {
    forall j | 0 <= j < |s| :: IsLetter(s[j])
  }

  /** A character that stands for one byte of a C string: a byte value
      other than NUL. */
  predicate IsCChar(ch: char)
  {
    0 < ch as int < 256
  }

  /** `s` can be passed as a C string: each character is one byte, and none
      is NUL. */
  predicate IsCString(s: string)
  {
    forall j | 0 <= j < |s| :: IsCChar(s[j])
  }

  /** The word that insertion actually stores for `s`: the letters of `s`
      in their order, every other character skipped. */
  function Letters(s: string): (r: string)
    ensures InAlphabet(r) && |r| <= |s|
  {
    if s == [] then []
    else Letters(s[..|s| - 1]) + (if IsLetter(s[|s| - 1]) then [s[|s| - 1]] else [])
  }

  /** Skipping characters changes a word exactly when it holds a character
      outside the alphabet. */
  lemma {:induction false} LettersUnchangedIff(s: string)
    ensures Letters(s) == s <==> InAlphabet(s)
  {
    if s != [] {
      var init := s[..|s| - 1];
      LettersUnchangedIff(init);
      if InAlphabet(s) {
        assert InAlphabet(init) by {
          forall j | 0 <= j < |init| ensures IsLetter(init[j]) {
            assert init[j] == s[j];
          }
        }
        assert s == init + [s[|s| - 1]];
      }
    }
  }

  /** What is stored for a prefix of `s` is a prefix of what is stored for `s`. */
  lemma {:induction false} LettersOfPrefix(s: string, i: nat)
    requires i <= |s|
    ensures |Letters(s[..i])| <= |Letters(s)|
    ensures Letters(s)[..|Letters(s[..i])|] == Letters(s[..i])
  {
    if i < |s| {
      var init := s[..|s| - 1];
      LettersOfPrefix(init, i);
      assert init[..i] == s[..i];
    } else {
      assert s[..i] == s;
    }
  }

  /** One more character of input extends the stored word by that character
      when it is a letter, and leaves it alone otherwise. */
  lemma LettersStep(s: string, i: nat)
    requires i < |s|
    ensures Letters(s[..i + 1]) == Letters(s[..i]) + (if IsLetter(s[i]) then [s[i]] else [])
  {
    assert s[..i + 1][..i] == s[..i];
  }
}
