# Trie engine: a verified Dafny model

This project models the trie engine of `trie.c`: a prefix tree of heap nodes.
Each node has an end-of-word flag and 26 child slots. The slot for a
character is `ch - 'a'`. The operations are:

- `createNode`, which makes a node with no children that ends no word;
- `insert`, which walks down from the root, creating missing children and
  skipping characters that have no slot, then flags the last node;
- `search`, which walks down and reports the flag, failing at the first
  character without a slot or without a child;
- `autocomplete` with its helper `printWordsWithPrefix`, which walk to the
  node of a prefix and enumerate the words below it depth-first: a node's own
  word first, then its children by ascending letter;
- `predictNextWord`, which is the same call as `autocomplete`;
- `spellCheck`, which reports a stored word as correct, and otherwise tries
  insertions, deletions and substitutions through one scratch buffer and
  reports every trial that `search` accepts.

The model is imperative, like the source:

- `TrieEngine.TrieNode` is a class with the node's flag and its slots.
- `TrieEngine.Trie` is the handle to a root node. Its ghost state gives
  meaning to the tree:
  - `Nodes` maps every path that exists to its node;
  - `Words` is the set of stored words;
  - `Repr` holds every node.
- `Valid()` ties the heap to that ghost state. The paths are prefix-closed
  strings of letters. Slot `i` of the node of `p` holds the node of
  `p + [Letter(i)]`, or null when that path does not exist. The flags mark
  exactly `Words`. Every branch leads to a stored word.
- Every operation is a method with the loop of the source. It is proved
  against the set of stored words:
  - `Insert` adds the letters of its argument;
  - `Search` answers membership;
  - `Autocomplete` returns exactly the stored words with the prefix, in
    strictly increasing lexicographic order;
  - `SpellCheck` returns `Corrections(Words, word)`, a function that lists
    the trial strings in the order the source tries them and keeps those
    that are stored.

Printing is replaced by returned values:

- `Completion` is `NoWords`, or `Suggestions` with the enumerated words.
- `SpellResult` is `Correct`, or `Misspelled` with the reported corrections.

The insertion pass of `spellCheck` is modelled as written. The buffer is
refilled from the word once per position (trie.c:91), not once per letter.
Each letter is therefore inserted in front of the letters tried before it.
The string searched for letter `c` at position `i` is `word[..i]`, then the
letters `c, c-1, …, 'a'`, then `word[i..]` (`SpellingEdits.InsertionTrial`).

`SpellingEdits.InsertionTrialIsInsertionIff` proves that this is the
single-letter insertion only for `'a'`. `SpellingEdits.InsertionTrialFits`
proves that only the trial of `'a'` fits the `strlen(word) + 2` byte buffer
(trie.c:88). Every later letter writes past the buffer's end.
`Demo.CorrectionsOfAt` shows the effect: against the driver's words, the
check of "at" does not suggest "cat", because the string searched when 'c'
is tried at the front is "cbaat".

The alphabet is the 26 lower-case letters, as in the code: slot `i` is
character `i + 'a'` (trie.c:54). An upper-case letter
has a negative index, so `insert` skips it and `search` and `autocomplete`
fail on it.

Modules:
- `Alphabet` covers slots and the word that insertion stores.
- `Lexicographic` covers prefixes and the enumeration order.
- `SpellingEdits` covers the trial strings and the filter.
- `TrieEngine` covers the node and trie classes and their operations.
- `Demo` covers the driver scenario of `main.c` and a few illustrative
  queries.

## Model

| member | source | states |
|---|---|---|
| Alphabet.Index | trie.c:23-24 | the slot index of a character is negative exactly for characters below 'a' |
| Alphabet.IsLetter | trie.c:24 | a character has a slot exactly when it is one of 'a' .. 'z' |
| Alphabet.Letter | trie.c:54 | the character of slot `i` has a slot, and its index is `i` |
| Alphabet.Letters | trie.c:22-25 | the word insert stores consists of letters only and is no longer than the input |
| Alphabet.LettersUnchangedIff | trie.c:23-24 | insertion stores the input unchanged exactly when every character of it has a slot |
| Alphabet.LettersOfPrefix | trie.c:22-28 | what is stored for a prefix of the input is a prefix of what is stored for the input |
| Alphabet.LettersStep | trie.c:23-28 | one more input character extends the stored word by that character if it is a letter, and leaves it unchanged otherwise |
| Lexicographic.PrefixPrecedes | trie.c:48-51 | a word ending at a node precedes every longer word below it |
| Lexicographic.ForkPrecedes | trie.c:52-55 | words that part at a node come in the order of the slots they go through, which is lexicographic order |
| Lexicographic.SortedUnique | trie.c:47-58 | only one strictly sorted sequence holds a given set of words, so the enumeration order is determined by the words |
| Lexicographic.SortedConcat | trie.c:52-57 | sorted runs whose words are ordered across the runs join into a sorted run |
| SpellingEdits.InsertionTrial | trie.c:91-95 | the string searched when letter `k` is tried at position `i` is `k + 1` characters longer than the word |
| SpellingEdits.Deletion | trie.c:103-104 | the string searched when position `i` is deleted is one character shorter than the word |
| SpellingEdits.Substitution | trie.c:111-113 | the string searched when letter `k` is written at position `i` has the word's length, holds that letter at `i` and the word's characters elsewhere |
| SpellingEdits.InsertionRow | trie.c:92-98 | the insertion trials at one position, one per letter tried, in letter order |
| SpellingEdits.InsertionPass | trie.c:90-100 | the insertion trials of the first `n` positions, position by position |
| SpellingEdits.DeletionPass | trie.c:102-108 | the deletion trials of the first `n` positions, one per position, in position order |
| SpellingEdits.SubstitutionRow | trie.c:112-117 | the substitution trials at one position, one per letter written, in letter order |
| SpellingEdits.SubstitutionPass | trie.c:110-118 | the substitution trials of the first `n` positions, position by position |
| SpellingEdits.Candidates | trie.c:89-118 | every string searched, in search order: the insertion pass, then the deletion pass, then the substitution pass |
| SpellingEdits.Keep | trie.c:96-98 | the trials that search accepts, in trial order with repeats kept; never more than were tried |
| SpellingEdits.Corrections | trie.c:81-120 | the outcome is Correct exactly when the word is stored; otherwise the kept trials |
| SpellingEdits.Stacked | trie.c:92-96 | after `k` letters have been tried at a position, the buffer holds them there, newest first |
| SpellingEdits.InsertionStep | trie.c:94-95 | one shift plus one store turns the buffer left by earlier letters into the trial of the next letter |
| SpellingEdits.InsertionTrialShape | trie.c:91-96 | an insertion trial keeps the word around the position, with `k + 1` letters stacked there and the tried letter first |
| SpellingEdits.InsertionTrialFits | trie.c:88-96 | the trial and its terminator fit the `strlen(word) + 2` byte buffer exactly when the tried letter is 'a' |
| SpellingEdits.InsertionTrialIsInsertionIff | trie.c:93-95 | a trial is the single-letter insertion its comment describes exactly when the letter is 'a' |
| SpellingEdits.DeletionShape | trie.c:103-104 | a deletion trial is one shorter and keeps the other characters in order |
| SpellingEdits.InsertionPassLength | trie.c:90-92 | the insertion pass makes 26 trials at each of its positions |
| SpellingEdits.SubstitutionPassLength | trie.c:110-112 | the substitution pass makes 26 trials at each of its positions |
| SpellingEdits.InsertionRowAt | trie.c:92-98 | at one position, letter `k` is the `k`-th insertion trial |
| SpellingEdits.InsertionPassAt | trie.c:90-99 | the insertion trial of letter `k` at position `i` comes at index `26 i + k` |
| SpellingEdits.DeletionPassAt | trie.c:102-107 | the deletion at position `i` is the `i`-th deletion trial |
| SpellingEdits.SubstitutionRowAt | trie.c:112-117 | at one position, letter `k` is the `k`-th substitution trial |
| SpellingEdits.SubstitutionPassAt | trie.c:110-118 | the substitution of letter `k` at position `i` comes at index `26 i + k` |
| SpellingEdits.KeepAppend | trie.c:89-118 | filtering consecutive runs of trials reports each run's finds in turn |
| SpellingEdits.KeepSnoc | trie.c:96-98 | one more trial is reported exactly when search finds it |
| SpellingEdits.KeepCount | trie.c:96-98 | each stored word is reported exactly as often as it is tried, and nothing unstored is reported |
| SpellingEdits.KeepSound | trie.c:96-98 | every reported word is stored and was tried |
| SpellingEdits.KeepComplete | trie.c:96-98 | every tried word that is stored is reported |
| SpellingEdits.CorrectionsByPass | trie.c:89-118 | the corrections are the insertion finds, then the deletion finds, then the substitution finds |
| SpellingEdits.CorrectionsCount | trie.c:89-118 | a misspelled word's corrections hold each stored word as often as it is tried, and nothing else |
| SpellingEdits.DeletionReported | trie.c:102-107 | a stored word one deletion away is reported |
| SpellingEdits.SubstitutionReported | trie.c:110-118 | a stored word one substitution away is reported |
| SpellingEdits.InsertionTrialReported | trie.c:90-99 | a stored word equal to an insertion trial is reported |
| SpellingEdits.CandidateIsTrial | trie.c:89-118 | every string tried is an insertion trial, a deletion or a substitution of the word |
| SpellingEdits.DoubledLetterDeletion | trie.c:102-104 | deleting either letter of a doubled letter gives the same word |
| SpellingEdits.DoubledLetterReportedTwice | trie.c:102-107 | such a word, when stored, is reported at least twice: duplicates are kept |
| TrieEngine.TrieNode.constructor | trie.c:8-17 | a new node ends no word and all 26 of its slots are empty |
| TrieEngine.Trie.constructor | trie.c:8-17 | a fresh root is a valid trie that holds no word |
| TrieEngine.Trie.WordsInAlphabet | trie.c:23-24 | stored words are made of letters only |
| TrieEngine.Trie.PathsArePrefixes | trie.c:20-31 | the paths of the tree are the empty path and the prefixes of stored words |
| TrieEngine.Trie.SameWordsSameShape | trie.c:20-31 | two tries that hold the same words have the same paths and the same flags |
| TrieEngine.Trie.Insert | trie.c:20-31 | insert adds the letters of its argument to the stored words and keeps the trie valid; existing nodes stay in place, and re-inserting a stored word creates no node |
| TrieEngine.Trie.InsertPath | trie.c:21-30 | the walk ends at the node of the stored word and flags it; every node it creates lies on that word's path |
| TrieEngine.Trie.Step | trie.c:22-29 | a letter moves to its child, created if missing, and any other character is skipped |
| TrieEngine.Trie.AddChild | trie.c:25-27 | a fresh node is hung in the empty slot and becomes the node of the extended path; nothing else changes |
| TrieEngine.Trie.MarkEnd | trie.c:30 | flagging the last node adds its path to the stored words |
| TrieEngine.Trie.Search | trie.c:34-44 | search finds exactly the stored words; a word with a character outside the alphabet is never found |
| TrieEngine.Trie.NoPathNoWord | trie.c:37-39 | when the walk cannot go on, no stored word starts with the word searched |
| TrieEngine.Trie.CollectWords | trie.c:47-58 | the enumeration below the node of a path lists exactly the stored words with that prefix, strictly increasing |
| TrieEngine.Trie.ExtendsByLetter | trie.c:52-55 | the words below slot `i` are those that go on from the path through letter `i` |
| TrieEngine.Trie.Locate | trie.c:62-71 | the walk reaches the node of the prefix, or stops when no stored word starts with it |
| TrieEngine.Trie.Autocomplete | trie.c:61-78 | NoWords exactly when the prefix is non-empty and starts no stored word; otherwise exactly the stored words with the prefix, strictly increasing, and at least one when the prefix is non-empty |
| TrieEngine.Trie.PredictNextWord | trie.c:123-126 | the completions of the prefix, with Autocomplete's guarantees: NoWords exactly when a non-empty prefix starts no stored word, otherwise exactly the stored words with the prefix, strictly increasing |
| TrieEngine.Trie.SpellCheck | trie.c:81-120 | the outcome is Corrections: Correct for a stored word, otherwise every stored trial in trial order |
| TrieEngine.Trie.TryInsertions | trie.c:90-100 | the insertion pass reports the stored insertion trials in trial order |
| TrieEngine.Trie.InsertionsAt | trie.c:91-99 | the letters tried at one position report the stored trials of that position in letter order |
| TrieEngine.Trie.TryDeletions | trie.c:102-108 | the deletion pass reports the stored deletions in position order |
| TrieEngine.Trie.TrySubstitutions | trie.c:110-118 | the substitution pass reports the stored substitutions in trial order |
| TrieEngine.Trie.SubstitutionsAt | trie.c:111-117 | the letters written at one position report the stored substitutions in letter order |
| TrieEngine.InsertionTrialIsCString | trie.c:91-95 | an insertion trial of a C string is again a string of non-NUL bytes, so search reads all of it |
| TrieEngine.DeletionIsCString | trie.c:103-104 | a deletion of a C string is again a string of non-NUL bytes |
| TrieEngine.SubstitutionIsCString | trie.c:111-113 | a substitution of a C string is again a string of non-NUL bytes |
| TrieEngine.PopulatedGrows | trie.c:26-30 | adding only nodes on the path of the word being stored keeps every branch leading to a stored word |
| TrieEngine.AddPath | trie.c:25-27 | a new child path keeps the paths prefix-closed and made of letters |
| TrieEngine.ChildPath | trie.c:23-28 | each path below a node is reached through exactly one slot |
| TrieEngine.NoNewPaths | trie.c:25-27 | walking along a path that already exists creates nothing |
| Demo.Stored | main.c:9-10 | inserting words in turn stores words made of letters only, the letters of each word |
| Demo.Build | main.c:5-11 | inserting a list of words into a fresh trie stores the letters of each |
| Demo.StoredAsWritten | main.c:8-10 | words made of letters only are stored as written |
| Demo.SampleTrie | main.c:5-11 | the driver's trie holds exactly its eight words |
| Demo.CompletionOfCa | main.c:15 | the completions of "ca" are cake, car, cart, cat, in that order |
| Demo.CompleteCa | main.c:13-23 | autocompletion and prediction of "ca" both give cake, car, cart, cat |
| Demo.CompletionOfXyz | trie.c:64-69 | a prefix that starts no stored word gives NoWords |
| Demo.CompleteXyz | trie.c:61-78 | autocompleting "xyz" on the driver's trie gives NoWords |
| Demo.CorrectionsOfKat | main.c:19 | "kat" is misspelled, "cat" is among its corrections, and every correction is a driver word |
| Demo.CheckKat | main.c:17-19 | the driver's spell check of "kat" suggests "cat" |
| Demo.CTriedAsCbaat | trie.c:91-96 | trying 'c' at the front of "at" searches "cbaat" |
| Demo.CatNotTriedForAt | trie.c:89-118 | "cat" is not among the strings tried for "at", although it is one inserted letter away |
| Demo.CorrectionsOfAt | trie.c:89-118 | the check of "at" against the driver's words does not suggest the stored "cat" |
| Demo.CheckAt | trie.c:81-120 | spell checking "at" on the driver's trie misses "cat" |
| Demo.CapitalDropped | trie.c:23-24 | inserting "Cat" stores "at" |
| Demo.InsertCapitalised | trie.c:20-44 | after inserting "Cat", searching "Cat" fails and searching "at" succeeds |
| Demo.EmptyTrie | trie.c:8-17 | a fresh trie finds no word; it completes the empty prefix with no words and every other prefix with NoWords |

## Left out

- `freeTrie` (trie.c:129-134), `malloc` and `free`: memory is managed, so there is no teardown and no allocation failure. The NULL that `createNode` may return is not modelled.
- Output: the `printf` calls are replaced by the returned `Completion` and `SpellResult` values.
- trie.c:135-166 is an unresolved merge conflict that holds a second driver. It is not part of this model. The driver of `main.c` appears only as the `Demo` scenarios.
- Byte buffers: strings are Dafny strings. `strcpy`, `memmove` and the enumeration buffer of `strlen(prefix) + 100` bytes (trie.c:73) are modelled by their contents. The enumeration buffer overflows for a word more than 99 characters longer than the prefix; this is not modelled.
- SpellingEdits.InsertionTrial: an insertion trial is an unbounded string. The bytes written past the end of the `strlen(word) + 2` byte buffer for every letter after 'a' (trie.c:88-95) are undefined behaviour in C; the model keeps the string those writes compute, and `InsertionTrialFits` records the overflow.
- Inputs are strings whose characters each stand for one byte other than NUL (`IsCString`), as in a C string. A multi-byte encoding such as UTF-8 is not modelled: a character the C code sees as several bytes must be given as several one-byte characters, so that the spell checker's trials split it byte by byte as the code does.
- TrieEngine.TrieNode: the 26 child slots are a field of type `seq<TrieNode?>` of length 26, not a separate array. In the C struct the slots are part of the node itself, so two nodes never share them; a sequence field states that without extra footprint reasoning. The heap nodes, their identity and their in-place updates are modelled.
- TrieEngine.Trie.Insert: `Nodes.Keys == old(Nodes.Keys)` states idempotence for a word already stored. Together with the preserved old nodes, this means the node map is unchanged. It is not stated as equality of the two maps.
- Upper-case letters: `ch - 'a'` is negative for them, so they have no slot; the alphabet is the 26 lower-case letters of trie.c.
