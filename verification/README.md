# Spell-checker dictionary: a chained hash table of words

This project models the dictionary of a small spell checker, implemented in
`dictionary.c`. It is a fixed array of `N = 10000` buckets. Each bucket is a singly
linked chain of words, and a global `int word_count` counts insertions. It has five
operations:

- `hash` sums the ASCII-lowercased codes of a word's characters and reduces the sum
  modulo `N`.
- `load` reads whitespace-separated tokens from a file. Each token goes onto the front
  of the chain `hash(token)`, and the counter goes up by one.
- `check` scans the single chain `hash(word)`, comparing with `strcasecmp`.
- `size` returns the counter when it is positive, else 0.
- `unload` frees every node of every chain.

The model replaces the linked lists and the global array with an immutable value
`Table(buckets: seq<seq<Word>>, wordCount: int)`. `buckets[i]` is chain `i`, head
first. Each operation is a pure function:

- `Hash` and `Insert`.
- `Load`, a fold of `Insert` over an abstract token stream.
- `Check`, `Size` and `Unload`.

Four methods (`HashLoop`, `LoadLoop`, `CheckLoop`, `UnloadLoop`) follow the C loops
step by step. Each is proved to compute what the corresponding function computes.

The modules follow the program's structure:

- `CaseFold` models `tolower` and `strcasecmp` in the C locale. Only `'A'..'Z'` are
  folded.
- `Hashing` models `hash`.
- `HashTable` models the table state, the table invariant and one insertion.
- `Dictionary` models `load`, `check`, `size` and `unload`.
- `Scenarios` is a concrete four-word scenario.

The table invariant is `Valid`:

- there are `N` buckets;
- every entry sits in bucket `Hash(entry)`;
- every entry is a token of at most `LENGTH` characters;
- the counter is non-negative.

`Entries(t)` is the multiset of stored words. The central result is
`CheckIffStored`: on a valid table, `check(w)` holds exactly when some stored word
equals `w` up to ASCII case. It rests on two facts:

- `strcasecmp` returns 0 exactly for words equal up to case (`CaseCompareZeroIff`);
- words equal up to case hash alike (`EqualFoldSameHash`).

So the one chain that `check` scans is the only place such a word can be.

## Behaviour worth noting

- One might expect `unload` to reset the counter to 0. The code
  (`dictionary.c:131-154`) frees the nodes but never touches `word_count`. It also
  never sets `table[i]` back to NULL. The model follows the code:
  - `Unload` empties every bucket and keeps the counter, so `size()` after `unload`
    reports the old count (`UnloadReleasesAll`, `ScenarioUnload`).
  - A reload after `unload` reports the old count plus the new one
    (`ReloadAfterUnloadOvercounts`).
- `load` never clears the table first, so repeated loads accumulate
  (`LoadsAccumulate`).
- A failed allocation returns false. Every node inserted before it stays in place
  (`LoadEntries`).
- Nothing in the code bounds token length: a token longer than `LENGTH` overflows a
  stack buffer. The model therefore requires every token to fit
  (`ValidToken`).

## Model

| member | source | states |
|---|---|---|
| CaseFold.CaseCompareZeroIff | dictionary.c:39 | for NUL-free strings, `strcasecmp` returns 0 if and only if the two strings are equal after ASCII lower-casing (both directions) |
| Hashing.Hash | dictionary.c:51-65 | the bucket index of any word lies in `[0, N)` |
| Hashing.HashLoop | dictionary.c:51-65 | the loop (running total of `tolower` codes, then `% N`) yields the sum-of-folded-codes hash |
| Hashing.HashCaseInsensitive | dictionary.c:57-61 | a word and its lower-cased form hash to the same bucket |
| Hashing.EqualFoldSameHash | dictionary.c:57-61 | any two words equal up to ASCII case hash to the same bucket |
| Hashing.SumCodesPermutation | dictionary.c:57-61 | the summed codes depend only on the multiset of characters |
| Hashing.AnagramsCollide | dictionary.c:57-61 | words whose folded characters form the same multiset (anagrams) collide |
| Hashing.TeaEatCollide | dictionary.c:57-61 | "tea" and "Eat" land in the same bucket |
| HashTable.Insert | dictionary.c:98-109 | inserting prepends the word to chain `hash(word)`, leaves every other chain as it was, adds one to the counter, and preserves the table invariant (entries placed by hash) |
| HashTable.InsertEntries | dictionary.c:98-105 | one insertion adds exactly one copy of the word to the stored multiset: no deduplication, nothing lost |
| HashTable.EmptyFacts | dictionary.c:24-27 | the initial table (all chains NULL, counter 0) is valid, stores nothing, and its counter matches its contents |
| HashTable.InsertConsistent | dictionary.c:99-109 | an insertion keeps "counter = number of stored entries" |
| Dictionary.InsertAll | dictionary.c:83-110 | inserting a token stream keeps `N` buckets, raises the counter by the stream length, and preserves the invariant |
| Dictionary.InsertAllEntries | dictionary.c:83-110 | a stream of insertions adds exactly the stream's tokens to the stored multiset, duplicates included |
| Dictionary.Committed | dictionary.c:83-94 | a load inserts no more tokens than the stream holds, and none when the source cannot be opened |
| Dictionary.Load | dictionary.c:68-116 | an unopenable source gives false with the table unchanged; success holds exactly when every token was inserted; the counter grows by the number inserted; the invariant is preserved |
| Dictionary.LoadLoop | dictionary.c:68-116 | the read/allocate/prepend/count loop, with its two early `return false` exits, produces the same flag and table as `Load` and keeps the table valid |
| Dictionary.LoadEntries | dictionary.c:71-116 | after a load the table holds the earlier entries plus exactly the inserted prefix of the stream; an allocation failure keeps every entry inserted before it; an unopenable source adds nothing; counter/contents agreement is preserved |
| Dictionary.SizeAfterLoad | dictionary.c:83-128 | a successful load of K tokens raises `size()` by exactly K |
| Dictionary.UnavailableLoadKeepsTable | dictionary.c:71-77 | a load from an unopenable source returns false, leaves the table as it was, and a fresh table still has size 0 |
| Dictionary.SizeIsCounter | dictionary.c:119-128 | on every valid table `size()` equals the counter, and it is 0 on the initial table |
| Dictionary.LoadsAccumulate | dictionary.c:68-116 | loading stream `a` and then stream `b` with no unload in between gives the same flag and table as one load of `a + b`: nothing is cleared, so entries and counter accumulate |
| Dictionary.DuplicatesKept | dictionary.c:83-110 | loading a word twice stores two more copies and raises the size by two |
| Dictionary.CheckLoop | dictionary.c:30-48 | the cursor loop over chain `hash(word)` returns the same answer as the chain scan `Check` |
| Dictionary.ScanFinds | dictionary.c:36-47 | scanning a chain returns true if and only if some entry of it equals the word up to ASCII case |
| Dictionary.FoundIsStored | dictionary.c:30-48 | whenever `check(w)` returns true on a valid table, some stored word equals `w` up to ASCII case |
| Dictionary.StoredIsFound | dictionary.c:30-48 | any stored word equal to `w` up to ASCII case makes `check(w)` return true, because it can only sit in chain `hash(w)` |
| Dictionary.CheckIffStored | dictionary.c:30-48 | on a valid table, `check(w)` is true if and only if some stored word equals `w` up to ASCII case |
| Dictionary.CheckEmpty | dictionary.c:27-47 | nothing is found in the initial table |
| Dictionary.CheckAfterLoad | dictionary.c:30-116 | after a load, `check(w)` holds if and only if `w` matches, up to case, an earlier entry or one of the loaded tokens |
| Dictionary.CaseVariantsFound | dictionary.c:30-116 | every case variant of a loaded token is found |
| Dictionary.Unload | dictionary.c:131-154 | after `unload` the table stores nothing and `check` finds no word, the counter is left as it was (so `size()` does not drop to 0), and a valid table stays valid |
| Dictionary.UnloadLoop | dictionary.c:131-154 | the loop visits all `N` buckets, frees each chain node by node (exactly as many nodes as entries), returns true and leaves the table `Unload` describes |
| Dictionary.UnloadReleasesAll | dictionary.c:131-154 | after `unload` nothing is stored and nothing is found, the table is valid, `size()` is unchanged, and unloading again changes nothing |
| Dictionary.ReloadAfterUnloadOvercounts | dictionary.c:131-154 | since `unload` keeps the counter, the counter no longer matches the contents, and a reload reports old count + new count while holding only the new tokens |
| Scenarios.ScenarioSize | dictionary.c:83-128 | loading "apple", "Banana", "cherry", "apple" succeeds and `size()` is 4 |
| Scenarios.ScenarioFoundUpper | dictionary.c:30-47 | after that load, "APPLE" is found |
| Scenarios.ScenarioFoundLower | dictionary.c:30-47 | after that load, "banana" is found |
| Scenarios.ScenarioNotFound | dictionary.c:30-47 | after that load, "Durian" is not found |
| Scenarios.ScenarioUnload | dictionary.c:131-154 | after unloading that table "apple" is not found and `size()` still reports 4 |

## Left out

- File I/O (`fopen`, `fscanf`, `fclose`). The dictionary file is an abstract
  `Source`: either `Unavailable` (the `fopen` failure) or a sequence of tokens already
  split at white space.
- `malloc` and `free`. The chains are immutable sequences. An allocation failure is the
  `Memory` parameter `ExhaustedAt(k)`: the allocation for token index `k` returns NULL.
- Dictionary.Unload: the model treats the freed chains as empty. The code leaves
  `table[i]` pointing at freed nodes (`dictionary.c:131-151`). In the program, a
  `check` after `unload` walks freed nodes (`dictionary.c:33-44`). A `load` after
  `unload` links each new node onto a freed chain (`dictionary.c:99`). A second
  `unload` reads the dangling heads again and frees every node a second time, a
  double free (`dictionary.c:137-149`). All three are undefined behaviour, so
  `unload` is not safe to call twice. Three lemmas state facts that hold of the
  model only, not of the program:
  - `UnloadReleasesAll` and `ScenarioUnload` on lookups and contents after `unload`;
  - the idempotence clause `Unload(Unload(t)) == Unload(t)` of `UnloadReleasesAll`;
  - `ReloadAfterUnloadOvercounts` on contents after a reload.

  Their facts about the counter hold of the program too.
- Tokens longer than `LENGTH` overflow the read buffer. This is undefined behaviour,
  so `Load` and `LoadLoop` require every token to be `ValidToken`: 1 to `LENGTH`
  characters of 7-bit ASCII, with no NUL and no white space.
- The value `LENGTH = 45` is the usual one for this word-list format. `dictionary.h`
  defines it and is not part of this model. Nor is `cs50.h`.
- Characters are Dafny `char`, so their codes are never negative. Bytes above 127
  would be negative as a signed C `char`, and `tolower` of such a byte is undefined.
  This case is not modelled. Stored words are ASCII by the invariant. The lookup
  lemmas only require a query word to contain no NUL, which a C string cannot.
- `word_count` is an unbounded integer. Overflow past `INT_MAX` is not modelled, nor
  is the `long` running total of `hash` overflowing. Neither can happen for words of
  at most `LENGTH` ASCII characters and any realistic dictionary.
- The C hash loop re-evaluates `strlen(word)` on every iteration. That only affects
  running time, so `HashLoop` takes the length once.
