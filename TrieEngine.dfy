/** The trie engine: heap nodes with one child slot per letter and an
    end-of-word flag, and the operations that build and query them. */
module TrieEngine {
  import opened Alphabet
  import opened Lexicographic
  import opened SpellingEdits

  /** Outcome of autocompletion: the prefix cannot be followed, or these are
      the stored words that start with it, in enumeration order. */
  datatype Completion = NoWords | Suggestions(words: seq<string>)

  /** The first `n` characters of `k`. */
  function Head(k: string, n: nat): (r: string)
    requires n <= |k|
    ensures IsPrefix(r, k) && |r| == n
  {
    k[..n]
  }

  /** Every prefix of every key is a key. */
  ghost predicate PrefixClosed(keys: set<string>)
  {
    forall k, n | k in keys && 0 <= n <= |k| :: Head(k, n) in keys
  }

  /** The child slot through which the walk from the node of `acc` goes on
      towards `w`, or -1 when `w` is `acc` itself. */
  function NextSlot(acc: string, w: string): int
    requires IsPrefix(acc, w)
  {
    if |w| == |acc| then -1 else Index(w[|acc|])
  }

  /** A path of a trie of height `h`: letters only, at most `h` of them. */
  predicate Fits(k: string, h: nat)
  {
    InAlphabet(k) && |k| <= h
  }

  /** Every key but the empty one starts some word of `words`. */
  ghost predicate Populated(keys: set<string>, words: set<string>)
  {
    forall k | k in keys && k != [] :: exists w | w in words :: IsPrefix(k, w)
  }

  /** One node: the end-of-word flag and a child slot per letter. The
      slots are part of the node itself, as in the C struct, so they are a
      field of fixed length rather than a separate array object. */
  class TrieNode {
    var isEndOfWord: bool
    var children: seq<TrieNode?>
    /** The letters on the way from the root to this node. */
    ghost var Path: string

    /** A node that ends no word and has no children. */
    constructor (ghost path: string)
      ensures !isEndOfWord && Path == path
      ensures |children| == AlphabetSize
      ensures forall i | 0 <= i < AlphabetSize :: children[i] == null
    {
      var slots: seq<TrieNode?> := [];
      for i := 0 to AlphabetSize
        invariant |slots| == i
        invariant forall j | 0 <= j < i :: slots[j] == null
      {
        slots := slots + [null];
      }
      isEndOfWord := false;
      children := slots;
      Path := path;
    }
  }

  /** A trie, reached through its root node.

      Nodes maps each path that exists in the tree to its node, so the node
      reached by following `p` from the root is Nodes[p]; Words is the set of
      words the trie holds; Height bounds the length of every path; Repr
      holds this object and every node. */
  class Trie {
    var root: TrieNode
    ghost var Words: set<string>
    ghost var Nodes: map<string, TrieNode>
    ghost var Height: nat
    ghost var Repr: set<object>

    /** Facts about the paths alone. */
    ghost predicate PathsOk()
      reads this
    {
      [] in Nodes && PrefixClosed(Nodes.Keys) &&
      (forall k | k in Nodes :: Fits(k, Height))
    }

    /** The nodes and child arrays form the tree that Nodes describes. */
    ghost predicate Linked()
      reads this, Repr
      requires PathsOk()
    {
      this in Repr && Nodes[[]] == root &&
      (forall k | k in Nodes ::
         Nodes[k] in Repr && Nodes[k].Path == k && |Nodes[k].children| == AlphabetSize) &&
      (forall k, i {:trigger Nodes[k].children[i]} | k in Nodes && 0 <= i < AlphabetSize ::
         Nodes[k].children[i] == if k + [Letter(i)] in Nodes then Nodes[k + [Letter(i)]] else null)
    }

    /** The end-of-word flags mark exactly the stored words. */
    ghost predicate Marked()
      reads this, Repr
      requires PathsOk() && Linked()
    {
      forall k | k in Nodes :: Nodes[k].isEndOfWord <==> k in Words
    }

    /** The structure: paths, links, flags, and words that are paths. */
    ghost predicate Wf()
      reads this, Repr
    {
      PathsOk() && Linked() && Marked() && Words <= Nodes.Keys
    }

    /** The structure, and no branch that leads to no word. */
    ghost predicate Valid()
      reads this, Repr
    {
      Wf() && Populated(Nodes.Keys, Words)
    }

    /** An empty trie: a fresh root node. */
    constructor ()
      ensures Valid() && fresh(Repr)
      ensures Words == {}
    {
      var node := new TrieNode([]);
      root := node;
      Words := {};
      Nodes := map[[] := node];
      Height := 0;
      new;
      Repr := {this, node};
    }

    /** Stored words are made of letters only. */
    lemma WordsInAlphabet(w: string)
      requires Wf() && w in Words
      ensures InAlphabet(w)
    {
    }

    /** The paths of the trie are the empty path and the prefixes of the
        stored words: the words alone determine the shape of the tree. */
    lemma PathsArePrefixes(p: string)
      requires Valid()
      ensures p in Nodes <==> p == [] || exists w | w in Words :: IsPrefix(p, w)
    {
      if p != [] && exists w | w in Words :: IsPrefix(p, w) {
        var w :| w in Words && IsPrefix(p, w);
        assert w in Nodes && Head(w, |p|) == p;
      }
    }

    /** Two tries that hold the same words have the same paths and the same
        end-of-word flags. */
    lemma SameWordsSameShape(other: Trie)
      requires Valid() && other.Valid() && Words == other.Words
      ensures Nodes.Keys == other.Nodes.Keys
      ensures forall p | p in Nodes :: Nodes[p].isEndOfWord == other.Nodes[p].isEndOfWord
    {
      forall p ensures p in Nodes <==> p in other.Nodes {
        PathsArePrefixes(p);
        other.PathsArePrefixes(p);
      }
    }

    /** Inserts the letters of `word`, skipping every other character,
        creating the missing nodes on the way and marking the last one. */
    method Insert(word: string)
      requires Valid() && IsCString(word)
      modifies Repr
      ensures Valid() && fresh(Repr - old(Repr))
      ensures Words == old(Words) + {Letters(word)}
      ensures root == old(root)
      ensures forall p | p in old(Nodes) :: p in Nodes && Nodes[p] == old(Nodes[p])
      ensures Letters(word) in old(Words) ==> Nodes.Keys == old(Nodes.Keys)
    {
      ghost var keys, words := Nodes.Keys, Words;
      InsertPath(word);
      PopulatedGrows(keys, Nodes.Keys, words, Letters(word));
      if Letters(word) in words {
        NoNewPaths(keys, Nodes.Keys, Letters(word));
      }
    }

    /** The walk of Insert: every node it creates lies on the path of the
        inserted word. */
    method InsertPath(word: string)
      requires Wf() && IsCString(word)
      modifies Repr
      ensures Wf() && fresh(Repr - old(Repr))
      ensures Words == old(Words) + {Letters(word)}
      ensures root == old(root)
      ensures forall p | p in old(Nodes) :: p in Nodes && Nodes[p] == old(Nodes[p])
      ensures forall p | p in Nodes :: p in old(Nodes) || IsPrefix(p, Letters(word))
    {
      ghost var target := Letters(word);
      RaiseHeight(|target|);
      var current := root;
      ghost var here: string := [];
      for i := 0 to |word|
        invariant Wf() && Words == old(Words) && |target| <= Height
        invariant root == old(root)
        invariant forall p | p in old(Nodes) :: p in Nodes && Nodes[p] == old(Nodes[p])
        invariant forall p | p in Nodes :: p in old(Nodes) || IsPrefix(p, target)
        invariant here == Letters(word[..i]) && here in Nodes && current == Nodes[here]
        invariant old(Repr) <= Repr && fresh(Repr - old(Repr))
      {
        LettersStep(word, i);
        LettersOfPrefix(word, i + 1);
        current := Step(current, here, word[i], target);
        here := Letters(word[..i + 1]);
      }
      assert word[..|word|] == word;
      MarkEnd(current, here);
    }

    /** The last step of Insert: flags the node of `p` as the end of a word. */
    method MarkEnd(node: TrieNode, ghost p: string)
      requires PathsOk() && Linked() && Marked() && Words <= Nodes.Keys
      requires p in Nodes && node == Nodes[p]
      modifies this, node
      ensures Wf() && Words == old(Words) + {p}
      ensures Nodes == old(Nodes) && root == old(root) && Height == old(Height) && Repr == old(Repr)
    {
      node.isEndOfWord := true;
      Words := Words + {p};
    }

    /** Makes room for paths of length `h`. */
    ghost method RaiseHeight(h: nat)
      requires Wf()
      modifies this
      ensures Wf() && h <= Height
      ensures Nodes == old(Nodes) && Words == old(Words) && root == old(root) && Repr == old(Repr)
    {
      if Height < h {
        Height := h;
      }
    }

    /** One turn of the walk of Insert: a character with a child slot moves
        to that child, creating it when missing; any other character is
        skipped and the walk stays where it is. */
    method Step(current: TrieNode, ghost here: string, ch: char, ghost target: string) returns (next: TrieNode)
      requires PathsOk() && Linked() && Marked() && Words <= Nodes.Keys && |target| <= Height
      requires here in Nodes && current == Nodes[here]
      requires IsPrefix(here + (if IsLetter(ch) then [ch] else []), target)
      modifies this, current
      ensures PathsOk() && Linked() && Marked()
      ensures Words == old(Words) && Words <= Nodes.Keys
      ensures root == old(root) && Height == old(Height)
      ensures forall p | p in old(Nodes) :: p in Nodes && Nodes[p] == old(Nodes[p])
      ensures forall p | p in Nodes :: p in old(Nodes) || IsPrefix(p, target)
      ensures here + (if IsLetter(ch) then [ch] else []) in Nodes
      ensures next == Nodes[here + (if IsLetter(ch) then [ch] else [])]
      ensures old(Repr) <= Repr && fresh(Repr - old(Repr))
    {
      var index := ch as int - 'a' as int;
      if index < 0 || index >= AlphabetSize {
        assert here + [] == here;
        return current;
      }
      assert Letter(index) == ch;
      if current.children[index] == null {
        var node := AddChild(current, here, index, target);
      }
      next := current.children[index];
    }

    /** One step of Insert: hangs a fresh node under `parent` at slot
        `index`, for the path `here` plus that letter. */
    method AddChild(parent: TrieNode, ghost here: string, index: nat, ghost target: string) returns (node: TrieNode)
      requires PathsOk() && Linked() && Marked() && Words <= Nodes.Keys
      requires index < AlphabetSize && |target| <= Height
      requires here in Nodes && parent == Nodes[here] && parent.children[index] == null
      requires IsPrefix(here + [Letter(index)], target)
      modifies this, parent
      ensures PathsOk() && Linked() && Marked()
      ensures Words == old(Words) && Words <= Nodes.Keys
      ensures root == old(root) && Height == old(Height)
      ensures fresh(node) && |parent.children| == AlphabetSize && parent.children[index] == node
      ensures here + [Letter(index)] !in old(Nodes) && Nodes == old(Nodes)[here + [Letter(index)] := node]
      ensures old(Repr) <= Repr && fresh(Repr - old(Repr))
    {
      ghost var key := here + [Letter(index)];
      ghost var before := Nodes;
      assert key !in before;
      node := new TrieNode(key);
      parent.children := parent.children[index := node];
      Nodes := Nodes[key := node];
      Repr := Repr + {node};
      assert |key| <= |target|;
      AddPath(before.Keys, here, Letter(index), Height);
      assert Nodes.Keys == before.Keys + {key};
      forall k, i | k in Nodes && 0 <= i < AlphabetSize
        ensures Nodes[k].children[i] == if k + [Letter(i)] in Nodes then Nodes[k + [Letter(i)]] else null
      {
        ChildPath(k, i, here, index);
        if k == key {
          assert Head(k + [Letter(i)], |key|) == key;
        } else if k != here {
          assert Nodes[k] == before[k] && before[k].Path == k && parent.Path == here;
        }
      }
    }

    /** Reports whether `word` is stored: the walk stops at the first
        character without a child slot or without a child. */
    method Search(word: string) returns (found: bool)
      requires Wf() && IsCString(word)
      ensures found <==> word in Words
      ensures !InAlphabet(word) ==> !found
    {
      var current := root;
      for i := 0 to |word|
        invariant word[..i] in Nodes && current == Nodes[word[..i]]
      {
        var index := word[i] as int - 'a' as int;
        if index < 0 || index >= AlphabetSize || current.children[index] == null {
          NoPathNoWord(word, i);
          return false;
        }
        assert Letter(index) == word[i];
        assert word[..i + 1] == word[..i] + [word[i]];
        current := current.children[index];
      }
      assert word[..|word|] == word;
      return current.isEndOfWord;
    }

    /** When the walk along `word` cannot leave the node for its first `i`
        characters, no stored word starts with `word`. */
    lemma NoPathNoWord(word: string, i: nat)
      requires Wf() && i < |word| && word[..i] in Nodes
      requires !IsLetter(word[i]) || Nodes[word[..i]].children[Index(word[i])] == null
      ensures forall w | w in Words :: !IsPrefix(word, w)
    {
      if IsLetter(word[i]) {
        assert Letter(Index(word[i])) == word[i];
      }
      forall w | w in Words
        ensures IsPrefix(word, w) ==> Head(w, i + 1) == word[..i] + [word[i]]
      {
      }
    }

    /** The stored words that start with `acc`, found below `node`, the node
        of that path: a word ending at a node comes before the words below
        it, and children are visited by ascending letter. */
    method CollectWords(node: TrieNode, acc: string) returns (found: seq<string>)
      requires Wf() && acc in Nodes && node == Nodes[acc]
      ensures forall w :: w in found <==> w in Words && IsPrefix(acc, w)
      ensures StrictlySorted(found)
      decreases Height - |acc|
    {
      found := if node.isEndOfWord then [acc] else [];
      forall w | w in Words && IsPrefix(acc, w) ensures NextSlot(acc, w) < 0 <==> w == acc {
        WordsInAlphabet(w);
      }
      for i := 0 to AlphabetSize
        invariant forall w :: w in found <==> w in Words && IsPrefix(acc, w) && NextSlot(acc, w) < i
        invariant StrictlySorted(found)
      {
        var child := node.children[i];
        var next := acc + [Letter(i)];
        ExtendsByLetter(acc, i);
        if child != null {
          var below := CollectWords(child, next);
          forall x, y | x in found && y in below ensures Precedes(x, y) {
            if |x| == |acc| {
              PrefixPrecedes(x, y);
            } else {
              ForkPrecedes(x, y, |acc|);
            }
          }
          SortedConcat(found, below);
          found := found + below;
        } else {
          forall w | w in Words && IsPrefix(acc, w)
            ensures NextSlot(acc, w) == i ==> Head(w, |next|) == next && Head(w, |next|) in Nodes
          {
          }
        }
      }
      forall w | w in Words && IsPrefix(acc, w) ensures NextSlot(acc, w) < AlphabetSize {
        WordsInAlphabet(w);
      }
    }

    /** The words that start with `acc + [Letter(i)]` are the words that
        start with `acc` and go on through slot `i`. */
    lemma ExtendsByLetter(acc: string, i: nat)
      requires i < AlphabetSize
      ensures forall w :: IsPrefix(acc + [Letter(i)], w) <==> IsPrefix(acc, w) && NextSlot(acc, w) == i
    {
      var next := acc + [Letter(i)];
      forall w ensures IsPrefix(next, w) <==> IsPrefix(acc, w) && NextSlot(acc, w) == i {
        if IsPrefix(next, w) {
          assert w[..|acc|] == next[..|acc|];
          assert w[|acc|] == next[|acc|];
        }
        if IsPrefix(acc, w) && NextSlot(acc, w) == i {
          assert w[..|next|] == w[..|acc|] + [w[|acc|]];
        }
      }
    }

    /** Walks to the node of `prefix` and enumerates the words below it; a
        prefix character without a child slot or without a child gives
        NoWords. */
    method Autocomplete(prefix: string) returns (r: Completion)
      requires Valid() && IsCString(prefix)
      ensures r == NoWords <==> prefix != [] && forall w | w in Words :: !IsPrefix(prefix, w)
      ensures r.Suggestions? ==> (forall w :: w in r.words <==> w in Words && IsPrefix(prefix, w))
      ensures r.Suggestions? ==> StrictlySorted(r.words)
      ensures r.Suggestions? && prefix != [] ==> r.words != []
    {
      var current := Locate(prefix);
      if current == null {
        return NoWords;
      }
      PathsArePrefixes(prefix);
      var words := CollectWords(current, prefix);
      return Suggestions(words);
    }

    /** The walk of Autocomplete: the node of `prefix`, or null when a
        character has no child slot or no child. */
    method Locate(prefix: string) returns (node: TrieNode?)
      requires Wf() && IsCString(prefix)
      ensures node != null ==> prefix in Nodes && node == Nodes[prefix]
      ensures node == null ==> prefix != [] && forall w | w in Words :: !IsPrefix(prefix, w)
    {
      var current := root;
      for i := 0 to |prefix|
        invariant prefix[..i] in Nodes && current == Nodes[prefix[..i]]
      {
        var index := prefix[i] as int - 'a' as int;
        if index < 0 || index >= AlphabetSize || current.children[index] == null {
          NoPathNoWord(prefix, i);
          return null;
        }
        assert Letter(index) == prefix[i];
        assert prefix[..i + 1] == prefix[..i] + [prefix[i]];
        current := current.children[index];
      }
      assert prefix[..|prefix|] == prefix;
      return current;
    }

    /** Word prediction: the same walk and enumeration as Autocomplete. */
    method PredictNextWord(prefix: string) returns (r: Completion)
      requires Valid() && IsCString(prefix)
      ensures r == NoWords <==> prefix != [] && forall w | w in Words :: !IsPrefix(prefix, w)
      ensures r.Suggestions? ==> (forall w :: w in r.words <==> w in Words && IsPrefix(prefix, w))
      ensures r.Suggestions? ==> StrictlySorted(r.words)
    {
      r := Autocomplete(prefix);
    }

    /** Reports Correct for a stored word; otherwise searches every trial
        edit, pass by pass, and reports those found in the order found. */
    method SpellCheck(word: string) returns (r: SpellResult)
      requires Wf() && IsCString(word)
      ensures r == Corrections(Words, word)
    {
      var correct := Search(word);
      if correct {
        return Correct;
      }
      var insertions := TryInsertions(word);
      var deletions := TryDeletions(word);
      var substitutions := TrySubstitutions(word);
      CorrectionsByPass(Words, word);
      return Misspelled(insertions + deletions + substitutions);
    }

    /** The insertion pass of SpellCheck: every position from 0 to |word|,
        the buffer refilled from the word at each. */
    method TryInsertions(word: string) returns (found: seq<string>)
      requires Wf() && IsCString(word)
      ensures found == Keep(Words, InsertionPass(word, |word| + 1))
    {
      found := [];
      for i := 0 to |word| + 1
        invariant found == Keep(Words, InsertionPass(word, i))
      {
        var more := InsertionsAt(word, i);
        KeepAppend(Words, InsertionPass(word, i), InsertionRow(word, i, AlphabetSize));
        found := found + more;
      }
    }

    /** The letters 'a' .. 'z' inserted in turn at position `i`, each one in
        front of those inserted before it. */
    method InsertionsAt(word: string, i: nat) returns (found: seq<string>)
      requires Wf() && IsCString(word) && i <= |word|
      ensures found == Keep(Words, InsertionRow(word, i, AlphabetSize))
    {
      found := [];
      var suggestion := word;
      for k := 0 to AlphabetSize
        invariant suggestion == word[..i] + Stacked(k) + word[i..]
        invariant found == Keep(Words, InsertionRow(word, i, k))
      {
        InsertionStep(word, i, k);
        suggestion := suggestion[..i] + [Letter(k)] + suggestion[i..];
        InsertionTrialIsCString(word, i, k);
        var ok := Search(suggestion);
        KeepSnoc(Words, InsertionRow(word, i, k), suggestion);
        if ok {
          found := found + [suggestion];
        }
      }
    }

    /** The deletion pass of SpellCheck: every position of the word removed
        in turn. */
    method TryDeletions(word: string) returns (found: seq<string>)
      requires Wf() && IsCString(word)
      ensures found == Keep(Words, DeletionPass(word, |word|))
    {
      found := [];
      for i := 0 to |word|
        invariant found == Keep(Words, DeletionPass(word, i))
      {
        var suggestion := word;
        suggestion := suggestion[..i] + suggestion[i + 1..];
        DeletionIsCString(word, i);
        var ok := Search(suggestion);
        KeepSnoc(Words, DeletionPass(word, i), suggestion);
        if ok {
          found := found + [suggestion];
        }
      }
    }

    /** The substitution pass of SpellCheck: every position of the word, the
        buffer refilled from the word at each. */
    method TrySubstitutions(word: string) returns (found: seq<string>)
      requires Wf() && IsCString(word)
      ensures found == Keep(Words, SubstitutionPass(word, |word|))
    {
      found := [];
      for i := 0 to |word|
        invariant found == Keep(Words, SubstitutionPass(word, i))
      {
        var more := SubstitutionsAt(word, i);
        KeepAppend(Words, SubstitutionPass(word, i), SubstitutionRow(word, i, AlphabetSize));
        found := found + more;
      }
    }

    /** The letters 'a' .. 'z' written in turn at position `i`. */
    method SubstitutionsAt(word: string, i: nat) returns (found: seq<string>)
      requires Wf() && IsCString(word) && i < |word|
      ensures found == Keep(Words, SubstitutionRow(word, i, AlphabetSize))
    {
      found := [];
      var suggestion := word;
      for k := 0 to AlphabetSize
        invariant suggestion == if k == 0 then word else Substitution(word, i, k - 1)
        invariant found == Keep(Words, SubstitutionRow(word, i, k))
      {
        suggestion := suggestion[i := Letter(k)];
        SubstitutionIsCString(word, i, k);
        var ok := Search(suggestion);
        KeepSnoc(Words, SubstitutionRow(word, i, k), suggestion);
        if ok {
          found := found + [suggestion];
        }
      }
    }
  }

  /** Adding one letter below a path keeps a prefix-closed set of letter
      paths prefix-closed, and within the height when there is room. */
  lemma AddPath(keys: set<string>, here: string, ch: char, h: nat)
    requires PrefixClosed(keys) && here in keys && forall k | k in keys :: Fits(k, h)
    requires IsLetter(ch) && |here| < h
    ensures PrefixClosed(keys + {here + [ch]})
    ensures forall k | k in keys + {here + [ch]} :: Fits(k, h)
  {
    var key := here + [ch];
    forall k, n | k in keys + {key} && 0 <= n <= |k| ensures Head(k, n) in keys + {key} {
      if k != key {
        assert Head(k, n) in keys;
      } else if n <= |here| {
        assert Head(k, n) == Head(here, n) && Head(here, n) in keys;
      } else {
        assert Head(k, n) == k;
      }
    }
    assert Fits(here, h);
    assert InAlphabet(key) by {
      forall j | 0 <= j < |key| ensures IsLetter(key[j]) {
        if j < |here| {
          assert key[j] == here[j];
        }
      }
    }
  }

  /** Growing a prefix-closed set of paths by prefixes of one of its own
      paths adds nothing. */
  lemma NoNewPaths(keys: set<string>, keys': set<string>, target: string)
    requires PrefixClosed(keys) && target in keys
    requires forall p | p in keys' :: p in keys || IsPrefix(p, target)
    ensures keys' <= keys
  {
    forall p | p in keys' && IsPrefix(p, target) ensures Head(target, |p|) == p {
    }
  }

  /** Each path below a node is reached through exactly one child slot. */
  lemma ChildPath(k: string, i: nat, here: string, index: nat)
    requires i < AlphabetSize && index < AlphabetSize
    ensures k + [Letter(i)] == here + [Letter(index)] <==> k == here && i == index
  {
    if k + [Letter(i)] == here + [Letter(index)] {
      assert k == (k + [Letter(i)])[..|k|] && here == (here + [Letter(index)])[..|here|];
      assert Letter(i) == (k + [Letter(i)])[|k|];
      assert Index(Letter(i)) == Index(Letter(index));
    }
  }

  /** A tree that only gained prefixes of `target`, with `target` added to
      its words, leads to a word along every branch if it did before. */
  lemma PopulatedGrows(keys: set<string>, keys': set<string>, words: set<string>, target: string)
    requires Populated(keys, words)
    requires forall p | p in keys' :: p in keys || IsPrefix(p, target)
    ensures Populated(keys', words + {target})
  {
    forall k | k in keys' && k != []
      ensures exists w | w in words + {target} :: IsPrefix(k, w)
    {
      if k in keys {
        var w :| w in words && IsPrefix(k, w);
        assert w in words + {target};
      } else {
        assert target in words + {target};
      }
    }
  }

  /** The trial strings of a C string are C strings. */
  lemma InsertionTrialIsCString(word: string, i: nat, k: nat)
    requires IsCString(word) && i <= |word| && k < AlphabetSize
    ensures IsCString(InsertionTrial(word, i, k))
  {
    var t := InsertionTrial(word, i, k);
    forall j | 0 <= j < |t| ensures IsCChar(t[j]) {
      if i <= j < i + k + 1 {
        assert t[j] == Stacked(k + 1)[j - i];
      } else if j >= i + k + 1 {
        assert t[j] == word[j - k - 1];
      } else {
        assert t[j] == word[j];
      }
    }
  }

  lemma DeletionIsCString(word: string, i: nat)
    requires IsCString(word) && i < |word|
    ensures IsCString(Deletion(word, i))
  {
    DeletionShape(word, i);
  }

  lemma SubstitutionIsCString(word: string, i: nat, k: nat)
    requires IsCString(word) && i < |word| && k < AlphabetSize
    ensures IsCString(Substitution(word, i, k))
  {
  }
}
