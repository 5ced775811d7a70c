/** The strings the spell checker tries for a misspelled word, in the order
    it tries them, and the filter that keeps those found in the dictionary.

    The spell checker runs three passes over one scratch buffer: insertions
    (every position, then every letter 'a' .. 'z'), deletions (every
    position) and substitutions (every position, then every letter).
    The buffer is refilled from the word once per position, not once per
    letter, so during the insertion pass each letter is inserted in front
    of the letters already inserted at that position. */
module SpellingEdits {
  import opened Alphabet

  /** Outcome of a spell check: the word is stored, or it is not and these
      are the stored words among its trial edits, in trial order. */
  datatype SpellResult = Correct | Misspelled(candidates: seq<string>)

  /** The letters stacked at the insertion position after `k` letters were
      tried: letter k - 1 first, down to 'a'. */
  function Stacked(k: nat): (r: string)
    requires k <= AlphabetSize
    ensures |r| == k
    ensures forall j | 0 <= j < k :: r[j] == Letter(k - 1 - j)
  {
    if k == 0 then [] else [Letter(k - 1)] + Stacked(k - 1)
  }

  /** The buffer searched when the insertion pass tries letter `k` at
      position `i`. */
  function InsertionTrial(word: string, i: nat, k: nat): (r: string)
    requires i <= |word| && k < AlphabetSize
    ensures |r| == |word| + k + 1
  {
    word[..i] + Stacked(k + 1) + word[i..]
  }

  /** The buffer searched when the deletion pass removes position `i`. */
  function Deletion(word: string, i: nat): (r: string)
    requires i < |word|
    ensures |r| == |word| - 1
  {
    word[..i] + word[i + 1..]
  }

  /** The buffer searched when the substitution pass puts letter `k` at
      position `i`. */
  function Substitution(word: string, i: nat, k: nat): (r: string)
    requires i < |word| && k < AlphabetSize
    ensures |r| == |word| && r[i] == Letter(k)
    ensures forall j | 0 <= j < |word| && j != i :: r[j] == word[j]
  {
    word[i := Letter(k)]
  }

  /** Insertion trials of the first `n` letters at position `i`. */
  function InsertionRow(word: string, i: nat, n: nat): (r: seq<string>)
    requires i <= |word| && n <= AlphabetSize
    ensures |r| == n
  {
    if n == 0 then [] else InsertionRow(word, i, n - 1) + [InsertionTrial(word, i, n - 1)]
  }

  /** Insertion trials at the first `n` positions. */
  function InsertionPass(word: string, n: nat): seq<string>
    requires n <= |word| + 1
  {
    if n == 0 then [] else InsertionPass(word, n - 1) + InsertionRow(word, n - 1, AlphabetSize)
  }

  /** Deletion trials at the first `n` positions. */
  function DeletionPass(word: string, n: nat): (r: seq<string>)
    requires n <= |word|
    ensures |r| == n
  {
    if n == 0 then [] else DeletionPass(word, n - 1) + [Deletion(word, n - 1)]
  }

  /** Substitution trials of the first `n` letters at position `i`. */
  function SubstitutionRow(word: string, i: nat, n: nat): (r: seq<string>)
    requires i < |word| && n <= AlphabetSize
    ensures |r| == n
  {
    if n == 0 then [] else SubstitutionRow(word, i, n - 1) + [Substitution(word, i, n - 1)]
  }

  /** Substitution trials at the first `n` positions. */
  function SubstitutionPass(word: string, n: nat): seq<string>
    requires n <= |word|
  {
    if n == 0 then [] else SubstitutionPass(word, n - 1) + SubstitutionRow(word, n - 1, AlphabetSize)
  }

  /** Every string the spell checker searches for, in search order. */
  function Candidates(word: string): seq<string>
  {
    InsertionPass(word, |word| + 1) + DeletionPass(word, |word|) + SubstitutionPass(word, |word|)
  }

  /** The candidates found in `dict`, in candidate order, repeats kept. */
  function Keep(dict: set<string>, cands: seq<string>): (r: seq<string>)
    ensures |r| <= |cands|
  {
    if cands == [] then []
    else
      var last := cands[|cands| - 1];
      Keep(dict, cands[..|cands| - 1]) + (if last in dict then [last] else [])
  }

  /** What spell checking `word` against the stored words `dict` reports. */
  function Corrections(dict: set<string>, word: string): (r: SpellResult)
    ensures r == Correct <==> word in dict
  {
    if word in dict then Correct else Misspelled(Keep(dict, Candidates(word)))
  }

  // ---------------------------------------------------------------------
  // The filter

  /** Filtering a concatenation filters each part. */
  lemma {:induction false} KeepAppend(dict: set<string>, a: seq<string>, b: seq<string>)
    ensures Keep(dict, a + b) == Keep(dict, a) + Keep(dict, b)
  {
    if b == [] {
      assert a + b == a;
    } else {
      var init, last := b[..|b| - 1], b[|b| - 1];
      var extra := if last in dict then [last] else [];
      assert (a + b)[..|a + b| - 1] == a + init && (a + b)[|a + b| - 1] == last;
      calc {
        Keep(dict, a + b);
        Keep(dict, a + init) + extra;
        { KeepAppend(dict, a, init); }
        Keep(dict, a) + Keep(dict, init) + extra;
        Keep(dict, a) + Keep(dict, b);
      }
    }
  }

  /** The filter keeps each dictionary word exactly as often as it is a
      candidate, and drops everything else: duplicates are not merged. */
  lemma {:induction false} KeepCount(dict: set<string>, cands: seq<string>, w: string)
    ensures multiset(Keep(dict, cands))[w] == if w in dict then multiset(cands)[w] else 0
  {
    if cands != [] {
      var init := cands[..|cands| - 1];
      var last := cands[|cands| - 1];
      KeepCount(dict, init, w);
      assert cands == init + [last];
    }
  }

  /** Filtering one more candidate appends it exactly when it is in the
      dictionary. */
  lemma KeepSnoc(dict: set<string>, cands: seq<string>, x: string)
    ensures Keep(dict, cands + [x]) == Keep(dict, cands) + (if x in dict then [x] else [])
  {
    assert (cands + [x])[..|cands|] == cands;
  }

  /** Only candidates in the dictionary are kept. */
  lemma KeepSound(dict: set<string>, cands: seq<string>, w: string)
    requires w in Keep(dict, cands)
    ensures w in dict && w in cands
  {
    KeepCount(dict, cands, w);
    assert multiset(Keep(dict, cands))[w] > 0;
  }

  /** A candidate in the dictionary is kept. */
  lemma KeepComplete(dict: set<string>, cands: seq<string>, w: string)
    requires w in cands && w in dict
    ensures w in Keep(dict, cands)
  {
    KeepCount(dict, cands, w);
    assert multiset(Keep(dict, cands))[w] > 0;
  }

  // ---------------------------------------------------------------------
  // The trial strings

  /** The insertion trial keeps the word around the insertion point and
      stacks k + 1 letters there, the tried letter first. */
  lemma InsertionTrialShape(word: string, i: nat, k: nat)
    requires i <= |word| && k < AlphabetSize
    ensures |InsertionTrial(word, i, k)| == |word| + k + 1
    ensures InsertionTrial(word, i, k)[..i] == word[..i]
    ensures InsertionTrial(word, i, k)[i] == Letter(k)
    ensures InsertionTrial(word, i, k)[i + k + 1..] == word[i..]
  {
    var t := InsertionTrial(word, i, k);
    assert t == word[..i] + Stacked(k + 1) + word[i..];
    assert t[i] == Stacked(k + 1)[0];
  }

  /** One turn of the insertion pass: shifting the buffer right by one from
      position `i` and writing letter `k` there turns the buffer left by the
      earlier letters into the trial of letter `k`. */
  lemma InsertionStep(word: string, i: nat, k: nat)
    requires i <= |word| && k < AlphabetSize
    ensures var b := word[..i] + Stacked(k) + word[i..];
            b[..i] + [Letter(k)] + b[i..] == InsertionTrial(word, i, k)
  {
    var front, rest := word[..i], Stacked(k) + word[i..];
    var b := word[..i] + Stacked(k) + word[i..];
    assert b == front + rest;
    assert b[..i] == front && b[i..] == rest;
    assert Stacked(k + 1) == [Letter(k)] + Stacked(k);
    assert front + [Letter(k)] + rest == front + Stacked(k + 1) + word[i..];
  }

  /** The scratch buffer of strlen(word) + 2 bytes holds the trial string and
      its terminator only for the letter 'a'; every later letter writes past
      its end. */
  lemma InsertionTrialFits(word: string, i: nat, k: nat)
    requires i <= |word| && k < AlphabetSize
    ensures |InsertionTrial(word, i, k)| + 1 <= |word| + 2 <==> k == 0
  {
    InsertionTrialShape(word, i, k);
  }

  /** The trial is the single-letter insertion of the tried letter only for
      'a'. */
  lemma InsertionTrialIsInsertionIff(word: string, i: nat, k: nat)
    requires i <= |word| && k < AlphabetSize
    ensures InsertionTrial(word, i, k) == word[..i] + [Letter(k)] + word[i..] <==> k == 0
  {
    InsertionTrialShape(word, i, k);
    if k == 0 {
      assert Stacked(1) == [Letter(0)];
    } else {
      assert |word[..i] + [Letter(k)] + word[i..]| == |word| + 1;
    }
  }

  /** Deleting position `i` shortens the word by one and keeps the other
      characters in order. */
  lemma DeletionShape(word: string, i: nat)
    requires i < |word|
    ensures |Deletion(word, i)| == |word| - 1
    ensures forall j | 0 <= j < |word| - 1 :: Deletion(word, i)[j] == if j < i then word[j] else word[j + 1]
  {
  }

  // ---------------------------------------------------------------------
  // Where each trial sits in the candidate order

  lemma {:induction false} InsertionPassLength(word: string, n: nat)
    requires n <= |word| + 1
    ensures |InsertionPass(word, n)| == AlphabetSize * n
  {
    if n > 0 {
      InsertionPassLength(word, n - 1);
    }
  }

  lemma {:induction false} SubstitutionPassLength(word: string, n: nat)
    requires n <= |word|
    ensures |SubstitutionPass(word, n)| == AlphabetSize * n
  {
    if n > 0 {
      SubstitutionPassLength(word, n - 1);
    }
  }

  lemma {:induction false} InsertionRowAt(word: string, i: nat, n: nat, k: nat)
    requires i <= |word| && k < n <= AlphabetSize
    ensures |InsertionRow(word, i, n)| == n && InsertionRow(word, i, n)[k] == InsertionTrial(word, i, k)
  {
    if k < n - 1 {
      InsertionRowAt(word, i, n - 1, k);
    } else if n > 1 {
      InsertionRowAt(word, i, n - 1, 0);
    }
  }

  /** The insertion pass tries positions in ascending order and, at each
      position, the letters 'a' .. 'z' in order. */
  lemma {:induction false} InsertionPassAt(word: string, n: nat, i: nat, k: nat)
    requires i < n <= |word| + 1 && k < AlphabetSize
    ensures |InsertionPass(word, n)| == AlphabetSize * n
    ensures InsertionPass(word, n)[AlphabetSize * i + k] == InsertionTrial(word, i, k)
  {
    InsertionRowAt(word, n - 1, AlphabetSize, 0);
    if i < n - 1 {
      InsertionPassAt(word, n - 1, i, k);
    } else {
      if n > 1 {
        InsertionPassAt(word, n - 1, 0, 0);
      }
      InsertionRowAt(word, i, AlphabetSize, k);
    }
  }

  lemma {:induction false} DeletionPassAt(word: string, n: nat, i: nat)
    requires i < n <= |word|
    ensures |DeletionPass(word, n)| == n && DeletionPass(word, n)[i] == Deletion(word, i)
  {
    if i < n - 1 {
      DeletionPassAt(word, n - 1, i);
    } else if n > 1 {
      DeletionPassAt(word, n - 1, 0);
    }
  }

  lemma {:induction false} SubstitutionRowAt(word: string, i: nat, n: nat, k: nat)
    requires i < |word| && k < n <= AlphabetSize
    ensures |SubstitutionRow(word, i, n)| == n && SubstitutionRow(word, i, n)[k] == Substitution(word, i, k)
  {
    if k < n - 1 {
      SubstitutionRowAt(word, i, n - 1, k);
    } else if n > 1 {
      SubstitutionRowAt(word, i, n - 1, 0);
    }
  }

  /** The substitution pass tries positions in ascending order and, at each
      position, the letters 'a' .. 'z' in order. */
  lemma {:induction false} SubstitutionPassAt(word: string, n: nat, i: nat, k: nat)
    requires i < n <= |word| && k < AlphabetSize
    ensures |SubstitutionPass(word, n)| == AlphabetSize * n
    ensures SubstitutionPass(word, n)[AlphabetSize * i + k] == Substitution(word, i, k)
  {
    SubstitutionRowAt(word, n - 1, AlphabetSize, 0);
    if i < n - 1 {
      SubstitutionPassAt(word, n - 1, i, k);
    } else {
      if n > 1 {
        SubstitutionPassAt(word, n - 1, 0, 0);
      }
      SubstitutionRowAt(word, i, AlphabetSize, k);
    }
  }

  // ---------------------------------------------------------------------
  // What the spell check reports

  /** The corrections come pass by pass: insertions, then deletions, then
      substitutions. */
  lemma CorrectionsByPass(dict: set<string>, word: string)
    requires word !in dict
    ensures Corrections(dict, word)
         == Misspelled(Keep(dict, InsertionPass(word, |word| + 1))
                     + Keep(dict, DeletionPass(word, |word|))
                     + Keep(dict, SubstitutionPass(word, |word|)))
  {
    var ins, del, sub := InsertionPass(word, |word| + 1), DeletionPass(word, |word|), SubstitutionPass(word, |word|);
    KeepAppend(dict, ins + del, sub);
    KeepAppend(dict, ins, del);
  }

  /** Each stored word is reported as often as the passes produce it, and
      nothing else is reported. */
  lemma CorrectionsCount(dict: set<string>, word: string, w: string)
    requires word !in dict
    ensures multiset(Corrections(dict, word).candidates)[w]
         == if w in dict then multiset(Candidates(word))[w] else 0
  {
    KeepCount(dict, Candidates(word), w);
  }

  /** A stored word one deletion away from a misspelled word is reported. */
  lemma DeletionReported(dict: set<string>, word: string, i: nat)
    requires word !in dict && i < |word| && Deletion(word, i) in dict
    ensures Deletion(word, i) in Corrections(dict, word).candidates
  {
    DeletionPassAt(word, |word|, i);
    var del := DeletionPass(word, |word|);
    assert Candidates(word)[|InsertionPass(word, |word| + 1)| + i] == del[i];
    KeepComplete(dict, Candidates(word), Deletion(word, i));
  }

  /** A stored word one substitution away from a misspelled word is
      reported. */
  lemma SubstitutionReported(dict: set<string>, word: string, i: nat, k: nat)
    requires word !in dict && i < |word| && k < AlphabetSize && Substitution(word, i, k) in dict
    ensures Substitution(word, i, k) in Corrections(dict, word).candidates
  {
    SubstitutionPassAt(word, |word|, i, k);
    var pre := InsertionPass(word, |word| + 1) + DeletionPass(word, |word|);
    assert Candidates(word)[|pre| + AlphabetSize * i + k] == Substitution(word, i, k);
    KeepComplete(dict, Candidates(word), Substitution(word, i, k));
  }

  /** A stored word equal to an insertion trial of a misspelled word is
      reported. */
  lemma InsertionTrialReported(dict: set<string>, word: string, i: nat, k: nat)
    requires word !in dict && i <= |word| && k < AlphabetSize && InsertionTrial(word, i, k) in dict
    ensures InsertionTrial(word, i, k) in Corrections(dict, word).candidates
  {
    InsertionPassAt(word, |word| + 1, i, k);
    assert Candidates(word)[AlphabetSize * i + k] == InsertionTrial(word, i, k);
    KeepComplete(dict, Candidates(word), InsertionTrial(word, i, k));
  }

  /** A word at two positions of a sequence is counted at least twice. */
  lemma CountedTwice(s: seq<string>, i: nat, j: nat)
    requires i < j < |s| && s[i] == s[j]
    ensures multiset(s)[s[i]] >= 2
  {
    assert s == s[..j] + s[j..];
    assert s[..j][i] == s[i] && s[j..][0] == s[j];
  }

  /** Deleting either letter of a doubled letter gives the same word. */
  lemma DoubledLetterDeletion(word: string, i: nat)
    requires i + 1 < |word| && word[i] == word[i + 1]
    ensures Deletion(word, i + 1) == Deletion(word, i)
  {
    assert word[..i + 1] == word[..i] + [word[i]];
    assert word[i + 1..] == [word[i + 1]] + word[i + 2..];
  }

  /** A stored word that is the deletion of either letter of a doubled
      letter is reported twice: duplicates are kept. */
  lemma DoubledLetterReportedTwice(dict: set<string>, word: string, i: nat)
    requires word !in dict && i + 1 < |word| && word[i] == word[i + 1]
    requires Deletion(word, i) in dict
    ensures multiset(Corrections(dict, word).candidates)[Deletion(word, i)] >= 2
  {
    DoubledLetterDeletion(word, i);
    DeletionPassAt(word, |word|, i);
    DeletionPassAt(word, |word|, i + 1);
    var ins, del := InsertionPass(word, |word| + 1), DeletionPass(word, |word|);
    assert Candidates(word)[|ins| + i] == del[i];
    assert Candidates(word)[|ins| + i + 1] == del[i + 1];
    CountedTwice(Candidates(word), |ins| + i, |ins| + i + 1);
    CorrectionsCount(dict, word, Deletion(word, i));
  }

  /** Position `p` of a pass over `n` positions is letter p % 26 at
      position p / 26. */
  lemma SplitIndex(p: nat, n: nat)
    requires p < AlphabetSize * n
    ensures p / AlphabetSize < n && p % AlphabetSize < AlphabetSize
    ensures AlphabetSize * (p / AlphabetSize) + p % AlphabetSize == p
  {
  }

  /** Every candidate the passes produce is an insertion trial, a deletion or
      a substitution of the word. */
  lemma {:induction false} CandidateIsTrial(word: string, x: string)
    requires x in Candidates(word)
    ensures (exists i, k | 0 <= i <= |word| && 0 <= k < AlphabetSize :: x == InsertionTrial(word, i, k))
         || (exists i | 0 <= i < |word| :: x == Deletion(word, i))
         || (exists i, k | 0 <= i < |word| && 0 <= k < AlphabetSize :: x == Substitution(word, i, k))
  {
    var ins, del, sub := InsertionPass(word, |word| + 1), DeletionPass(word, |word|), SubstitutionPass(word, |word|);
    InsertionPassLength(word, |word| + 1);
    SubstitutionPassLength(word, |word|);
    var p :| 0 <= p < |Candidates(word)| && Candidates(word)[p] == x;
    if p < |ins| {
      SplitIndex(p, |word| + 1);
      var i, k := p / AlphabetSize, p % AlphabetSize;
      InsertionPassAt(word, |word| + 1, i, k);
      assert x == ins[p] == InsertionTrial(word, i, k);
    } else if p < |ins| + |del| {
      var i := p - |ins|;
      DeletionPassAt(word, |word|, i);
      assert x == del[i] == Deletion(word, i);
    } else {
      var q := p - |ins| - |del|;
      SplitIndex(q, |word|);
      var i, k := q / AlphabetSize, q % AlphabetSize;
      SubstitutionPassAt(word, |word|, i, k);
      assert x == sub[q] == Substitution(word, i, k);
    }
  }
}
