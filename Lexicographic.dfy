/** Prefixes and the lexicographic order on words: the order in which a
    depth-first walk that visits a node before its children, and children by
    ascending index, meets the words stored in a trie. */
module Lexicographic {

  /** `p` is a prefix of `w` (possibly `w` itself). */
  predicate IsPrefix(p: string, w: string)
  {
    |p| <= |w| && w[..|p|] == p
  }

  /** Strict lexicographic order: a proper prefix comes first, otherwise the
      first differing character decides. */
  predicate Precedes(a: string, b: string)
  {
    if a == [] then b != []
    else b != [] && (a[0] < b[0] || (a[0] == b[0] && Precedes(a[1..], b[1..])))
  }

  /** Every element precedes every later one; so no word occurs twice. */
  ghost predicate StrictlySorted(s: seq<string>)
  {
    forall i, j | 0 <= i < j < |s| :: Precedes(s[i], s[j])
  }

  lemma {:induction false} PrecedesIrreflexive(a: string)
    ensures !Precedes(a, a)
  {
    if a != [] {
      PrecedesIrreflexive(a[1..]);
    }
  }

  lemma {:induction false} PrecedesTransitive(a: string, b: string, c: string)
    requires Precedes(a, b) && Precedes(b, c)
    ensures Precedes(a, c)
  {
    if a != [] && a[0] == b[0] && b[0] == c[0] {
      PrecedesTransitive(a[1..], b[1..], c[1..]);
    }
  }

  lemma {:induction false} PrecedesTotal(a: string, b: string)
    requires a != b
    ensures Precedes(a, b) || Precedes(b, a)
  {
    if a != [] && b != [] && a[0] == b[0] {
      assert a == [a[0]] + a[1..] && b == [b[0]] + b[1..];
      PrecedesTotal(a[1..], b[1..]);
    }
  }

  /** A proper prefix precedes the word it starts. */
  lemma {:induction false} PrefixPrecedes(p: string, w: string)
    requires IsPrefix(p, w) && |p| < |w|
    ensures Precedes(p, w)
  {
    if p != [] {
      assert w[1..][..|p| - 1] == w[..|p|][1..];
      PrefixPrecedes(p[1..], w[1..]);
    }
  }

  /** Two words that agree on their first `n` characters and differ at
      position `n` are ordered by that character. */
  lemma {:induction false} ForkPrecedes(a: string, b: string, n: nat)
    requires n < |a| && n < |b| && a[..n] == b[..n] && a[n] < b[n]
    ensures Precedes(a, b)
  {
    if n > 0 {
      assert a[0] == a[..n][0] && b[0] == b[..n][0];
      assert a[1..][..n - 1] == a[..n][1..] && b[1..][..n - 1] == b[..n][1..];
      ForkPrecedes(a[1..], b[1..], n - 1);
    }
  }

  /** A strictly sorted sequence holds each of its words once. */
  lemma SortedDistinct(s: seq<string>, i: nat, j: nat)
    requires StrictlySorted(s) && i < j < |s|
    ensures s[i] != s[j]
  {
    if s[i] == s[j] {
      PrecedesIrreflexive(s[i]);
    }
  }

  /** Joining two strictly sorted sequences keeps them sorted when every word
      of the first precedes every word of the second. */
  lemma SortedConcat(s: seq<string>, t: seq<string>)
    requires StrictlySorted(s) && StrictlySorted(t)
    requires forall x, y | x in s && y in t :: Precedes(x, y)
    ensures StrictlySorted(s + t)
  {
    var st := s + t;
    forall i, j | 0 <= i < j < |st| ensures Precedes(st[i], st[j]) {
      if j < |s| {
        assert st[i] == s[i] && st[j] == s[j];
      } else if i >= |s| {
        assert st[i] == t[i - |s|] && st[j] == t[j - |s|];
      } else {
        assert st[i] in s && st[j] in t;
      }
    }
  }

  /** The first word of a strictly sorted sequence precedes all the others. */
  lemma SortedHeadLeast(s: seq<string>, w: string)
    requires StrictlySorted(s) && w in s
    ensures w == s[0] || Precedes(s[0], w)
  {
    var j :| 0 <= j < |s| && s[j] == w;
    if j > 0 {
      assert Precedes(s[0], s[j]);
    }
  }

  /** There is only one strictly sorted arrangement of a set of words: the
      enumeration order is fully determined by the words enumerated. */
  lemma {:induction false} SortedUnique(s: seq<string>, t: seq<string>)
    requires StrictlySorted(s) && StrictlySorted(t)
    requires forall w :: w in s <==> w in t
    ensures s == t
  {
    if s != [] {
      assert s[0] in t;
    }
    if t != [] {
      assert t[0] in s;
    }
    if s != [] && t != [] {
      SortedHeadLeast(s, t[0]);
      SortedHeadLeast(t, s[0]);
      if s[0] != t[0] {
        PrecedesTransitive(s[0], t[0], s[0]);
        PrecedesIrreflexive(s[0]);
      }
      forall w ensures w in s[1..] <==> w in t[1..] {
        if w in s[1..] {
          var j :| 1 <= j < |s| && s[j] == w;
          SortedDistinct(s, 0, j);
          assert w in t;
          var k :| 0 <= k < |t| && t[k] == w;
          assert t[1..][k - 1] == w;
        }
        if w in t[1..] {
          var j :| 1 <= j < |t| && t[j] == w;
          SortedDistinct(t, 0, j);
          assert w in s;
          var k :| 0 <= k < |s| && s[k] == w;
          assert s[1..][k - 1] == w;
        }
      }
      SortedUnique(s[1..], t[1..]);
      assert s == [s[0]] + s[1..] && t == [t[0]] + t[1..];
    }
  }
}
