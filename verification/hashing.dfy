/** The bucket hash of the dictionary: the sum of the case-folded character codes of a
    word, reduced modulo the bucket count. */
module Hashing {
  import opened CaseFold

  /** Number of buckets of the table. */
  const N: nat := 10000

  /** Sum of the character codes of `s`, accumulated left to right. */
  function SumCodes(s: seq<char>): nat {
    if |s| == 0 then 0 else SumCodes(s[..|s| - 1]) + s[|s| - 1] as int
  }

  /** The bucket index of `w`; always a valid index into the table. */
  function Hash(w: seq<char>): (h: nat)
    ensures h < N
  {
    SumCodes(LowerWord(w)) % N
  }

  /** The hash loop as written: one pass over the word adding each folded code to a
      running total, then one reduction modulo `N`. */
  method HashLoop(word: seq<char>) returns (h: nat)
    ensures h == Hash(word)
  {
    var total: nat := 0;
    var i := 0;
    while i < |word|
      invariant 0 <= i <= |word|
      invariant total == SumCodes(LowerWord(word[..i]))
    {
      assert LowerWord(word[..i + 1]) == LowerWord(word[..i]) + [Lower(word[i])];
      SumCodesSnoc(LowerWord(word[..i]), Lower(word[i]));
      total := total + Lower(word[i]) as int;
      i := i + 1;
    }
    assert word[..i] == word;
    h := total % N;
  }

  lemma SumCodesSnoc(s: seq<char>, c: char)
    ensures SumCodes(s + [c]) == SumCodes(s) + c as int
  {
    assert (s + [c])[..|s|] == s;
  }

  /** The sum of a concatenation is the sum of the parts. */
  lemma {:induction false} SumCodesConcat(a: seq<char>, b: seq<char>)
    ensures SumCodes(a + b) == SumCodes(a) + SumCodes(b)
    decreases |b|
  {
    if |b| == 0 {
      assert a + b == a;
    } else {
      var b' := b[..|b| - 1];
      assert a + b == (a + b') + [b[|b| - 1]];
      SumCodesSnoc(a + b', b[|b| - 1]);
      SumCodesConcat(a, b');
    }
  }

  /** The sum of codes depends only on the multiset of characters. */
  lemma {:induction false} SumCodesPermutation(a: seq<char>, b: seq<char>)
    requires multiset(a) == multiset(b)
    ensures SumCodes(a) == SumCodes(b)
    decreases |a|
  {
    if |a| == 0 {
      assert |b| == |multiset(b)| == 0;
    } else {
      var a' := a[..|a| - 1];
      var x := a[|a| - 1];
      assert a == a' + [x];
      assert x in multiset(b);
      var j :| 0 <= j < |b| && b[j] == x;
      var b' := b[..j] + b[j + 1..];
      assert b == b[..j] + [x] + b[j + 1..];
      assert multiset(b') == multiset(b) - multiset{x};
      assert multiset(a') == multiset(a) - multiset{x};
      SumCodesPermutation(a', b');
      SumCodesConcat(b[..j] + [x], b[j + 1..]);
      SumCodesConcat(b[..j], [x]);
      SumCodesConcat(b[..j], b[j + 1..]);
      SumCodesSnoc(a', x);
      assert SumCodes([x]) == x as int by {
        assert [x][..0] == [];
      }
    }
  }

  /** The hash ignores ASCII case: a word and its lower-case form share a bucket. */
  lemma HashCaseInsensitive(w: seq<char>)
    ensures Hash(w) == Hash(LowerWord(w))
  {
    LowerWordIdempotent(w);
  }

  /** Words equal up to ASCII case land in the same bucket, which is what lets a
      case-insensitive lookup scan a single chain. */
  lemma EqualFoldSameHash(a: seq<char>, b: seq<char>)
    requires EqualFold(a, b)
    ensures Hash(a) == Hash(b)
  {
  }

  /** The hash sees only the multiset of folded characters, so anagrams collide. */
  lemma AnagramsCollide(a: seq<char>, b: seq<char>)
    requires multiset(LowerWord(a)) == multiset(LowerWord(b))
    ensures Hash(a) == Hash(b)
  {
    SumCodesPermutation(LowerWord(a), LowerWord(b));
  }

  /** Anagrams collide: "tea" and "Eat" share a bucket. */
  lemma TeaEatCollide()
    ensures Hash("tea") == Hash("Eat")
  {
    assert LowerWord("tea") == "tea";
    assert LowerWord("Eat") == "eat";
    assert multiset("tea") == multiset{'t', 'e', 'a'} == multiset("eat");
    AnagramsCollide("tea", "Eat");
  }
}
