/** The bucket index of a key: the sum of its character codes, reduced
    modulo the number of buckets. */
module Hashing {

  /** Sum of the character codes of `s`, in unbounded arithmetic. */
  function CharSum(s: string): nat
  {
    if |s| == 0 then 0 else s[0] as nat + CharSum(s[1..])
  }

  /** The bucket index of `key` in a table of `size` buckets. */
  function Hash(key: string, size: int): (h: int)
    requires size > 0
    ensures 0 <= h < size
  {
    CharSum(key) % size
  }

  /** The character sum of a concatenation is the sum of the parts' sums. */
  lemma {:induction false} CharSumAppend(a: string, b: string)
    ensures CharSum(a + b) == CharSum(a) + CharSum(b)
    decreases |a|
  {
    if |a| == 0 {
      assert a + b == b;
    } else {
      assert (a + b)[0] == a[0];
      assert (a + b)[1..] == a[1..] + b;
      CharSumAppend(a[1..], b);
    }
  }

  /** The character sum depends only on the multiset of characters. */
  lemma {:induction false} CharSumPermutation(a: string, b: string)
    requires multiset(a) == multiset(b)
    ensures CharSum(a) == CharSum(b)
    decreases |a|
  {
    if |a| == 0 {
      assert |multiset(b)| == 0;
    } else {
      var j := MatchFirst(a, b);
      RemoveAtSum(b, j);
      CharSumPermutation(a[1..], b[..j] + b[j+1..]);
    }
  }

  /** The first character of `a` occurs in any `b` with the same multiset,
      and removing both occurrences leaves equal multisets. */
  lemma MatchFirst<T>(a: seq<T>, b: seq<T>) returns (j: int)
    requires |a| > 0
    requires multiset(a) == multiset(b)
    ensures 0 <= j < |b| && b[j] == a[0]
    ensures multiset(a[1..]) == multiset(b[..j] + b[j+1..])
  {
    j := IndexOf(b, a[0]);
    RemoveAtMultiset(b, j);
    assert a == [a[0]] + a[1..];
    assert multiset(a) == multiset{a[0]} + multiset(a[1..]);
  }

  /** A position of `x` in `b`, for an `x` that occurs in `b`. */
  lemma IndexOf<T>(b: seq<T>, x: T) returns (j: int)
    requires x in multiset(b)
    ensures 0 <= j < |b| && b[j] == x
  {
    assert x in b;
    j :| 0 <= j < |b| && b[j] == x;
  }

  /** Removing the character at `j` removes its code from the sum. */
  lemma RemoveAtSum(b: string, j: int)
    requires 0 <= j < |b|
    ensures CharSum(b) == b[j] as nat + CharSum(b[..j] + b[j+1..])
  {
    var pre, post := b[..j], b[j+1..];
    assert b == pre + ([b[j]] + post);
    CharSumAppend(pre, [b[j]] + post);
    assert ([b[j]] + post)[1..] == post;
    CharSumAppend(pre, post);
  }

  /** Removing the element at `j` removes one copy of it from the multiset. */
  lemma RemoveAtMultiset<T>(b: seq<T>, j: int)
    requires 0 <= j < |b|
    ensures multiset(b[..j] + b[j+1..]) == multiset(b) - multiset{b[j]}
  {
    assert b == b[..j] + [b[j]] + b[j+1..];
  }

  /** Keys that are anagrams of each other land in the same bucket. */
  lemma AnagramsCollide(a: string, b: string, size: int)
    requires size > 0
    requires multiset(a) == multiset(b)
    ensures Hash(a, size) == Hash(b, size)
  {
    CharSumPermutation(a, b);
  }
}
