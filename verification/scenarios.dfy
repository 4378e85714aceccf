/** A concrete scenario of the dictionary, derived from the general lemmas: loading "apple",
    "Banana", "cherry", "apple" into the fresh table. */
module Scenarios {
  import opened CaseFold
  import opened Hashing
  import opened HashTable
  import opened Dictionary

  const Words: seq<Word> := ["apple", "Banana", "cherry", "apple"]

  lemma WordsAreTokens()
    ensures AllTokens(Words)
  {
  }

  /** The fresh table after loading `Words` with no allocation failure. */
  function Loaded(): LoadResult {
    WordsAreTokens();
    Load(Empty(), Tokens(Words), Unlimited)
  }

  /** The load succeeds and counts four words, the repeated "apple" twice. */
  lemma ScenarioSize()
    ensures Loaded().ok && Size(Loaded().table) == 4
  {
    WordsAreTokens();
    EmptyFacts();
    SizeAfterLoad(Empty(), Tokens(Words), Unlimited);
  }

  lemma AppleMatchesUpper()
    ensures EqualFold(Words[0], "APPLE")
  {
    assert LowerWord("APPLE") == "apple";
    assert LowerWord("apple") == "apple";
  }

  lemma BananaMatchesLower()
    ensures EqualFold(Words[1], "banana")
  {
    assert LowerWord("Banana") == "banana";
    assert LowerWord("banana") == "banana";
  }

  /** "APPLE" is found: lookup ignores case. */
  lemma ScenarioFoundUpper()
    ensures Check(Loaded().table, "APPLE")
  {
    WordsAreTokens();
    EmptyFacts();
    AppleMatchesUpper();
    CaseVariantsFound(Empty(), Words, 0, "APPLE");
  }

  /** "banana" is found although "Banana" was loaded. */
  lemma ScenarioFoundLower()
    ensures Check(Loaded().table, "banana")
  {
    WordsAreTokens();
    EmptyFacts();
    BananaMatchesLower();
    CaseVariantsFound(Empty(), Words, 1, "banana");
  }

  /** No loaded word equals "Durian" up to case: their first letters differ. */
  lemma DurianMatchesNoWord(e: Word)
    requires e in multiset(Words)
    ensures !EqualFold(e, "Durian")
  {
    assert e in Words;
    assert e[0] in "aBc";
    assert LowerWord("Durian")[0] == 'd';
  }

  /** "Durian" was never loaded and is not found. */
  lemma ScenarioNotFound()
    ensures !Check(Loaded().table, "Durian")
  {
    WordsAreTokens();
    EmptyFacts();
    CheckAfterLoad(Empty(), Words, "Durian");
    forall e | e in Entries(Empty()) + multiset(Words)
      ensures !EqualFold(e, "Durian")
    {
      DurianMatchesNoWord(e);
    }
  }

  /** After `unload` nothing is found, yet `size()` still reports 4: the counter is not
      reset. */
  lemma ScenarioUnload()
    ensures !Check(Unload(Loaded().table), "apple")
    ensures Size(Unload(Loaded().table)) == 4
  {
    ScenarioSize();
    EmptyFacts();
    var t := Loaded().table;
    assert Valid(t);
    UnloadReleasesAll(t, "apple");
  }
}
