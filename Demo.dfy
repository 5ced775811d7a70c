/** The driver scenario of main.c: a fresh trie, eight words inserted, then
    autocompletion, a spell check and a prediction; and a few queries that
    show how the engine treats characters outside the alphabet and
    single-letter insertions. */
module Demo {
  import opened Alphabet
  import opened Lexicographic
  import opened SpellingEdits
  import opened TrieEngine

  /** The words the driver inserts, in its order. */
  const Sample: seq<string> := ["cat", "car", "cart", "cake", "cell", "dog", "don", "dot"]

  /** What inserting `words` in turn stores: the letters of each. */
  function Stored(words: seq<string>): (r: set<string>)
    ensures forall w | w in r :: InAlphabet(w)
  {
    if words == [] then {} else Stored(words[..|words| - 1]) + {Letters(words[|words| - 1])}
  }

  /** A fresh trie with `words` inserted in turn, as the driver builds it. */
  method Build(words: seq<string>) returns (t: Trie)
    requires forall w | w in words :: IsCString(w)
    ensures t.Valid() && fresh(t.Repr)
    ensures t.Words == Stored(words)
  {
    t := new Trie();
    for i := 0 to |words|
      invariant t.Valid() && fresh(t.Repr)
      invariant t.Words == Stored(words[..i])
    {
      t.Insert(words[i]);
      assert words[..i + 1][..i] == words[..i];
    }
    assert words[..|words|] == words;
  }

  /** The driver's trie: the sample words are lower-case, so each is stored
      as written. */
  method SampleTrie() returns (t: Trie)
    ensures t.Valid() && fresh(t.Repr)
    ensures forall w :: w in t.Words <==> w in Sample
  {
    SampleStored();
    t := Build(Sample);
  }

  /** Words of letters only are stored as written. */
  lemma {:induction false} StoredAsWritten(words: seq<string>)
    requires forall w | w in words :: InAlphabet(w)
    ensures forall x :: x in Stored(words) <==> x in words
  {
    if words != [] {
      var init, last := words[..|words| - 1], words[|words| - 1];
      assert words == init + [last];
      StoredAsWritten(init);
      LettersUnchangedIff(last);
    }
  }

  /** `s` is lower-case letters only, checked one character at a time. */
  predicate LowerCase(s: string)
  {
    s == [] || ('a' <= s[0] <= 'z' && LowerCase(s[1..]))
  }

  lemma {:induction false} LowerCaseInAlphabet(s: string)
    requires LowerCase(s)
    ensures InAlphabet(s) && IsCString(s)
  {
    if s != [] {
      LowerCaseInAlphabet(s[1..]);
      assert forall j | 1 <= j < |s| :: s[j] == s[1..][j - 1];
    }
  }

  lemma SampleStored()
    ensures forall w | w in Sample :: IsCString(w)
    ensures forall x :: x in Stored(Sample) <==> x in Sample
  {
    assert forall w | w in Sample :: LowerCase(w);
    forall w | w in Sample ensures IsCString(w) && InAlphabet(w) {
      LowerCaseInAlphabet(w);
    }
    StoredAsWritten(Sample);
  }

  /** The sample words that start with "ca", alphabetically. */
  const CaWords: seq<string> := ["cake", "car", "cart", "cat"]

  lemma CaWordsAreTheCompletions()
    ensures StrictlySorted(CaWords)
    ensures forall w :: w in Sample && IsPrefix("ca", w) <==> w in CaWords
  {
  }

  /** Whatever lists exactly the stored words that start with "ca", in
      order, lists CaWords. */
  lemma CompletionOfCa(words: set<string>, r: Completion)
    requires forall w :: w in words <==> w in Sample
    requires r == NoWords <==> forall w | w in words :: !IsPrefix("ca", w)
    requires r.Suggestions? ==> (forall w :: w in r.words <==> w in words && IsPrefix("ca", w))
    requires r.Suggestions? ==> StrictlySorted(r.words)
    ensures r == Suggestions(CaWords)
  {
    CaWordsAreTheCompletions();
    assert "cake" in CaWords;
    SortedUnique(r.words, CaWords);
  }

  /** Autocompleting and predicting "ca" list the four words that start
      with it, alphabetically. */
  method CompleteCa() returns (completed: Completion, predicted: Completion)
    ensures completed == Suggestions(CaWords)
    ensures predicted == completed
  {
    var t := SampleTrie();
    LowerCaseInAlphabet("ca");
    completed := t.Autocomplete("ca");
    CompletionOfCa(t.Words, completed);
    predicted := t.PredictNextWord("ca");
    CompletionOfCa(t.Words, predicted);
  }

  lemma NoneStartsXyz()
    ensures forall w | w in Sample :: !IsPrefix("xyz", w)
  {
    forall w | w in Sample ensures !IsPrefix("xyz", w) {
      assert w[0] != 'x';
    }
  }

  /** No sample word starts with "xyz". */
  lemma CompletionOfXyz(words: set<string>, r: Completion)
    requires forall w :: w in words <==> w in Sample
    requires r == NoWords <==> forall w | w in words :: !IsPrefix("xyz", w)
    ensures r == NoWords
  {
    NoneStartsXyz();
  }

  /** Autocompleting "xyz" finds nothing. */
  method CompleteXyz() returns (r: Completion)
    ensures r == NoWords
  {
    var t := SampleTrie();
    LowerCaseInAlphabet("xyz");
    r := t.Autocomplete("xyz");
    CompletionOfXyz(t.Words, r);
  }

  /** "kat" is not a sample word, and "cat", one substitution away, is
      among its corrections; every correction is a sample word. */
  lemma CorrectionsOfKat(words: set<string>)
    requires forall w :: w in words <==> w in Sample
    ensures Corrections(words, "kat").Misspelled?
    ensures "cat" in Corrections(words, "kat").candidates
    ensures forall w | w in Corrections(words, "kat").candidates :: w in Sample
  {
    assert "kat" !in Sample && "cat" in Sample;
    assert Substitution("kat", 0, 2) == "cat";
    SubstitutionReported(words, "kat", 0, 2);
    forall w | w in Corrections(words, "kat").candidates ensures w in Sample {
      KeepSound(words, Candidates("kat"), w);
    }
  }

  /** Spell checking "kat" against the sample suggests "cat". */
  method CheckKat() returns (r: SpellResult)
    ensures r.Misspelled? && "cat" in r.candidates
    ensures forall w | w in r.candidates :: w in Sample
  {
    var t := SampleTrie();
    LowerCaseInAlphabet("kat");
    r := t.SpellCheck("kat");
    CorrectionsOfKat(t.Words);
  }

  /** When 'c' is tried at the front of "at", the buffer already holds the
      'a' and 'b' tried before it. */
  lemma CTriedAsCbaat()
    ensures InsertionTrial("at", 0, 2) == "cbaat"
  {
    assert Stacked(3) == "cba";
  }

  /** "cat" is one inserted letter away from "at", yet it is no trial string
      of "at": the only insertion trials of the right length are those of
      'a'. */
  lemma CatNotTriedForAt()
    ensures "cat" !in Candidates("at")
  {
    forall i, k | 0 <= i <= 2 && 0 <= k < AlphabetSize ensures InsertionTrial("at", i, k) != "cat" {
      InsertionTrialShape("at", i, k);
      if k == 0 && i > 0 {
        assert InsertionTrial("at", i, k)[..i][0] == 'a';
      }
    }
    forall i | 0 <= i < 2 ensures Deletion("at", i) != "cat" {
      DeletionShape("at", i);
    }
    if "cat" in Candidates("at") {
      CandidateIsTrial("at", "cat");
    }
  }

  /** "at" is misspelled against the sample, and "cat" is not suggested
      although it is stored. */
  lemma CorrectionsOfAt(words: set<string>)
    requires forall w :: w in words <==> w in Sample
    ensures "cat" in words
    ensures Corrections(words, "at").Misspelled?
    ensures "cat" !in Corrections(words, "at").candidates
  {
    assert "at" !in Sample && "cat" in Sample;
    CatNotTriedForAt();
    CorrectionsCount(words, "at", "cat");
  }

  /** Spell checking "at" against the sample misses "cat". */
  method CheckAt() returns (r: SpellResult)
    ensures r.Misspelled? && "cat" !in r.candidates
  {
    var t := SampleTrie();
    LowerCaseInAlphabet("at");
    r := t.SpellCheck("at");
    CorrectionsOfAt(t.Words);
  }

  lemma CapitalDropped()
    ensures IsCString("Cat") && IsCString("at")
    ensures Letters("Cat") == "at"
  {
    LowerCaseInAlphabet("at");
    assert "Cat" == "C" + "at";
    assert Letters("C") == [];
    assert Letters("Ca") == Letters("C") + "a";
  }

  /** Upper-case letters have no child slot: inserting "Cat" stores "at",
      and "Cat" itself is then not found. */
  method InsertCapitalised() returns (capital: bool, lower: bool)
    ensures !capital && lower
  {
    var t := new Trie();
    CapitalDropped();
    t.Insert("Cat");
    capital := t.Search("Cat");
    lower := t.Search("at");
  }

  /** A fresh trie holds no word, and every prefix but the empty one has no
      completion. */
  method EmptyTrie(word: string) returns (found: bool, completed: Completion)
    requires IsCString(word)
    ensures !found
    ensures completed == if word == [] then Suggestions([]) else NoWords
  {
    var t := new Trie();
    found := t.Search(word);
    completed := t.Autocomplete(word);
    if completed.Suggestions? {
      SortedUnique(completed.words, []);
    }
  }
}
