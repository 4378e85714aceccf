/** The chained hash table: `N` buckets, each a chain of words with the most recently
    inserted word first, and the running insertion counter `word_count`. */
module HashTable {
  import opened CaseFold
  import opened Hashing

  /** Longest word a node can hold (a node stores `LENGTH + 1` characters with the NUL). */
  const LENGTH: nat := 45

  type Word = seq<char>

  /** `buckets[i]` is the chain headed by `table[i]`; `wordCount` is the C `int` counter. */
  datatype Table = Table(buckets: seq<seq<Word>>, wordCount: int)

  /** A character `fscanf("%s")` can place inside a token: 7-bit ASCII, not NUL and not
      one of the white-space characters that delimit tokens. */
  predicate IsTokenChar(c: char) {
    0 < c as int < 128 && c != ' ' && !('\t' <= c <= '\r')
  }

  /** A token that fits the node's buffer. */
  predicate ValidToken(w: Word) {
    0 < |w| <= LENGTH && forall i :: 0 <= i < |w| ==> IsTokenChar(w[i])
  }

  /** The table as the program starts: every bucket NULL, the counter 0. */
  function Empty(): Table {
    Table(seq(N, _ => []), 0)
  }

  /** All entries of a sequence of chains, counted with multiplicity. */
  function Bag(b: seq<seq<Word>>): multiset<Word> {
    if |b| == 0 then multiset{} else Bag(b[..|b| - 1]) + multiset(b[|b| - 1])
  }

  /** Every word stored in the table, with multiplicity. */
  function Entries(t: Table): multiset<Word> {
    Bag(t.buckets)
  }

  /** Every entry sits in the chain of its own hash. */
  predicate Placed(t: Table) {
    && |t.buckets| == N
    && forall i, j :: 0 <= i < |t.buckets| && 0 <= j < |t.buckets[i]| ==> Hash(t.buckets[i][j]) == i
  }

  /** The table invariant: `N` buckets, entries placed by hash, entries are tokens that
      fit a node, and the counter is non-negative. */
  predicate Valid(t: Table) {
    && Placed(t)
    && (forall i, j :: 0 <= i < |t.buckets| && 0 <= j < |t.buckets[i]| ==> ValidToken(t.buckets[i][j]))
    && t.wordCount >= 0
  }

  /** The counter equals the number of stored entries. */
  predicate Consistent(t: Table) {
    t.wordCount == |Entries(t)|
  }

  /** One iteration of the load loop: a new node holding `w` becomes the head of chain
      `Hash(w)`, and the counter goes up by one. */
  function Insert(t: Table, w: Word): (u: Table)
    requires |t.buckets| == N
    ensures |u.buckets| == N
    ensures u.buckets[Hash(w)] == [w] + t.buckets[Hash(w)]
    ensures forall i :: 0 <= i < N && i != Hash(w) ==> u.buckets[i] == t.buckets[i]
    ensures u.wordCount == t.wordCount + 1
    ensures Valid(t) && ValidToken(w) ==> Valid(u)
  {
    var h := Hash(w);
    Table(t.buckets[h := [w] + t.buckets[h]], t.wordCount + 1)
  }

  /** A word is among the entries exactly when some chain holds it. */
  lemma {:induction false} BagMember(b: seq<seq<Word>>, e: Word)
    ensures e in Bag(b) <==> exists i :: 0 <= i < |b| && e in b[i]
    decreases |b|
  {
    if |b| > 0 {
      var b' := b[..|b| - 1];
      BagMember(b', e);
      if e in Bag(b) && e !in multiset(b[|b| - 1]) {
        var i :| 0 <= i < |b'| && e in b'[i];
        assert e in b[i];
      }
      if exists i :: 0 <= i < |b| && e in b[i] {
        var i :| 0 <= i < |b| && e in b[i];
        if i < |b'| {
          assert e in b'[i];
        }
      }
    }
  }

  /** Replacing one chain changes the entries by exactly the two chains' difference. */
  lemma {:induction false} BagUpdate(b: seq<seq<Word>>, h: nat, x: seq<Word>)
    requires h < |b|
    ensures Bag(b[h := x]) + multiset(b[h]) == Bag(b) + multiset(x)
    decreases |b|
  {
    var n := |b| - 1;
    var init := b[..n];
    assert Bag(b) == Bag(init) + multiset(b[n]);
    if h == n {
      assert b[h := x][..n] == init;
    } else {
      var init' := init[h := x];
      assert b[h := x][..n] == init';
      assert b[h := x][n] == b[n];
      assert init[h] == b[h];
      BagUpdate(init, h, x);
      var lhs, rhs := Bag(b[h := x]) + multiset(b[h]), Bag(b) + multiset(x);
      assert Bag(b[h := x]) == Bag(init') + multiset(b[n]);
      forall e
        ensures lhs[e] == rhs[e]
      {
        assert (Bag(init') + multiset(init[h]))[e] == (Bag(init) + multiset(x))[e];
      }
      assert lhs == rhs;
    }
  }

  /** Chains that are all empty hold no entries. */
  lemma {:induction false} BagAllEmpty(b: seq<seq<Word>>)
    requires forall i :: 0 <= i < |b| ==> b[i] == []
    ensures Bag(b) == multiset{}
    decreases |b|
  {
    if |b| > 0 {
      BagAllEmpty(b[..|b| - 1]);
    }
  }

  /** Inserting adds exactly one copy of the word to the entries: nothing is deduplicated
      and nothing is lost. */
  lemma InsertEntries(t: Table, w: Word)
    requires |t.buckets| == N
    ensures Entries(Insert(t, w)) == Entries(t) + multiset{w}
  {
    var h := Hash(w);
    assert Insert(t, w).buckets == t.buckets[h := [w] + t.buckets[h]];
    BagUpdate(t.buckets, h, [w] + t.buckets[h]);
    assert multiset([w] + t.buckets[h]) == multiset{w} + multiset(t.buckets[h]);
    var before, after, chain := Entries(t), Entries(Insert(t, w)), multiset(t.buckets[h]);
    assert after + chain == before + multiset{w} + chain;
    forall e
      ensures after[e] == (before + multiset{w})[e]
    {
      assert (after + chain)[e] == (before + multiset{w} + chain)[e];
    }
    assert after == before + multiset{w};
  }

  /** The fresh table is valid, holds nothing and its counter agrees with it. */
  lemma EmptyFacts()
    ensures Valid(Empty())
    ensures Entries(Empty()) == multiset{}
    ensures Consistent(Empty())
  {
    BagAllEmpty(Empty().buckets);
  }

  /** Insertion keeps the counter equal to the number of entries. */
  lemma InsertConsistent(t: Table, w: Word)
    requires |t.buckets| == N
    requires Consistent(t)
    ensures Consistent(Insert(t, w))
  {
    InsertEntries(t, w);
  }
}
