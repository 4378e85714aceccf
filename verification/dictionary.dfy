/** The dictionary operations: `load`, `check`, `size` and `unload` over the chained hash
    table. The functions state what each operation computes; the methods follow the
    loops of the program step by step and are proved to compute the same thing. */
module Dictionary {
  import opened CaseFold
  import opened Hashing
  import opened HashTable

  /** The word stream `load` reads, or a dictionary file that cannot be opened. */
  datatype Source = Unavailable | Tokens(words: seq<Word>)

  /** Whether node allocation succeeds: `ExhaustedAt(k)` makes the allocation for the
      token at index `k` return NULL, after `k` successful ones. */
  datatype Memory = Unlimited | ExhaustedAt(k: nat)

  /** The success flag `load` returns together with the table it leaves behind. */
  datatype LoadResult = LoadResult(ok: bool, table: Table)

  predicate AllTokens(ws: seq<Word>) {
    forall i :: 0 <= i < |ws| ==> ValidToken(ws[i])
  }

  /** Inserting the tokens one after another, in stream order. */
  function InsertAll(t: Table, ws: seq<Word>): (u: Table)
    requires |t.buckets| == N
    ensures |u.buckets| == N
    ensures u.wordCount == t.wordCount + |ws|
    ensures Valid(t) && AllTokens(ws) ==> Valid(u)
  {
    if |ws| == 0 then t else Insert(InsertAll(t, ws[..|ws| - 1]), ws[|ws| - 1])
  }

  /** How many tokens a load inserts before it stops. */
  function Committed(src: Source, mem: Memory): (c: nat)
    ensures src.Tokens? ==> c <= |src.words|
    ensures src.Unavailable? ==> c == 0
  {
    match src
    case Unavailable => 0
    case Tokens(ws) =>
      if mem.ExhaustedAt? && mem.k < |ws| then mem.k else |ws|
  }

  /** `load`: an unopenable source fails with the table untouched; otherwise tokens are
      inserted in order until the stream ends (success) or an allocation fails (failure,
      keeping everything inserted so far). The table is never cleared first. */
  function Load(t: Table, src: Source, mem: Memory): (r: LoadResult)
    requires |t.buckets| == N
    requires src.Tokens? ==> AllTokens(src.words)
    ensures src.Unavailable? ==> !r.ok && r.table == t
    ensures r.ok <==> src.Tokens? && Committed(src, mem) == |src.words|
    ensures |r.table.buckets| == N
    ensures r.table.wordCount == t.wordCount + Committed(src, mem)
    ensures Valid(t) ==> Valid(r.table)
  {
    match src
    case Unavailable => LoadResult(false, t)
    case Tokens(ws) =>
      var c := Committed(src, mem);
      LoadResult(c == |ws|, InsertAll(t, ws[..c]))
  }

  /** The load loop as written: read a token, allocate a node (or give up), prepend it to
      its chain, count it. */
  method LoadLoop(t: Table, src: Source, mem: Memory) returns (ok: bool, u: Table)
    requires Valid(t)
    requires src.Tokens? ==> AllTokens(src.words)
    ensures LoadResult(ok, u) == Load(t, src, mem)
    ensures Valid(u)
  {
    if src.Unavailable? {
      return false, t;
    }
    var ws := src.words;
    u := t;
    var i := 0;
    while i < |ws|
      invariant 0 <= i <= |ws|
      invariant mem.ExhaustedAt? ==> i <= mem.k
      invariant u == InsertAll(t, ws[..i])
      invariant Valid(u)
    {
      if mem.ExhaustedAt? && mem.k == i {
        return false, u;
      }
      assert ws[..i + 1][..i] == ws[..i];
      u := Insert(u, ws[i]);
      i := i + 1;
    }
    assert ws[..i] == ws;
    return true, u;
  }

  /** The chain scan of `check`: true at the first entry `strcasecmp` finds equal. */
  function Scan(chain: seq<Word>, w: Word): bool {
    if |chain| == 0 then false
    else if CaseCompare(chain[0], w) == 0 then true
    else Scan(chain[1..], w)
  }

  /** `check`: scan the one chain `Hash(w)`. */
  function Check(t: Table, w: Word): bool
    requires |t.buckets| == N
  {
    Scan(t.buckets[Hash(w)], w)
  }

  /** The check loop as written: a cursor walks the chain of `hash(word)`. */
  method CheckLoop(t: Table, w: Word) returns (found: bool)
    requires |t.buckets| == N
    ensures found == Check(t, w)
  {
    var h := HashLoop(w);
    var cursor := t.buckets[h];
    while cursor != []
      invariant Scan(cursor, w) == Check(t, w)
      decreases |cursor|
    {
      if CaseCompare(cursor[0], w) == 0 {
        return true;
      }
      cursor := cursor[1..];
    }
    return false;
  }

  /** `size`: the counter when it is positive, else 0. */
  function Size(t: Table): nat {
    if t.wordCount > 0 then t.wordCount else 0
  }

  /** `unload`: every chain is released, so nothing is stored and no query is found;
      the counter is left as it was. */
  function Unload(t: Table): (u: Table)
    ensures |u.buckets| == N
    ensures Entries(u) == multiset{}
    ensures forall w :: !Check(u, w)
    ensures u.wordCount == t.wordCount
    ensures Valid(t) ==> Valid(u)
  {
    var u := Table(seq(N, _ => []), t.wordCount);
    BagAllEmpty(u.buckets);
    u
  }

  /** The unload loop as written: visit all `N` buckets and free every node of each
      chain. `released` counts the nodes freed. */
  method UnloadLoop(t: Table) returns (ok: bool, u: Table, released: nat)
    requires |t.buckets| == N
    ensures ok
    ensures u == Unload(t)
    ensures released == |Entries(t)|
  {
    var buckets := t.buckets;
    released := 0;
    var i := 0;
    while i < N
      invariant 0 <= i <= N
      invariant |buckets| == N
      invariant forall j :: 0 <= j < i ==> buckets[j] == []
      invariant released == |Bag(t.buckets[..i])|
    {
      var pointer := t.buckets[i];
      var before := released;
      while pointer != []
        invariant released + |pointer| == before + |t.buckets[i]|
        decreases |pointer|
      {
        pointer := pointer[1..];
        released := released + 1;
      }
      buckets := buckets[i := []];
      assert t.buckets[..i + 1][..i] == t.buckets[..i];
      i := i + 1;
    }
    assert t.buckets[..N] == t.buckets;
    u := Table(buckets, t.wordCount);
    assert buckets == seq(N, _ => []);
    ok := true;
  }

  // ---------------------------------------------------------------------------
  // Lookup

  /** Scanning a chain finds `w` exactly when some entry equals it up to ASCII case. */
  lemma {:induction false} ScanFinds(chain: seq<Word>, w: Word)
    requires forall i :: 0 <= i < |chain| ==> NoNul(chain[i])
    requires NoNul(w)
    ensures Scan(chain, w) <==> exists i :: 0 <= i < |chain| && EqualFold(chain[i], w)
    decreases |chain|
  {
    if |chain| > 0 {
      CaseCompareZeroIff(chain[0], w);
      ScanFinds(chain[1..], w);
      if exists i :: 0 <= i < |chain| && EqualFold(chain[i], w) {
        var i :| 0 <= i < |chain| && EqualFold(chain[i], w);
        if i > 0 {
          assert EqualFold(chain[1..][i - 1], w);
        }
      }
    }
  }

  /** Every stored word is a C string: it holds no NUL. */
  lemma ChainNoNul(t: Table, h: nat)
    requires Valid(t)
    requires h < N
    ensures forall i :: 0 <= i < |t.buckets[h]| ==> NoNul(t.buckets[h][i])
  {
    forall i | 0 <= i < |t.buckets[h]|
      ensures NoNul(t.buckets[h][i])
    {
      assert ValidToken(t.buckets[h][i]);
    }
  }

  /** A hit of `check` is a stored word equal to the query up to case. */
  lemma FoundIsStored(t: Table, w: Word)
    requires Valid(t)
    requires NoNul(w)
    requires Check(t, w)
    ensures exists e :: e in Entries(t) && EqualFold(e, w)
  {
    var chain := t.buckets[Hash(w)];
    ChainNoNul(t, Hash(w));
    ScanFinds(chain, w);
    var i :| 0 <= i < |chain| && EqualFold(chain[i], w);
    BagMember(t.buckets, chain[i]);
  }

  /** A stored word equal to the query up to case is found: it can only sit in the one
      chain `check` scans. */
  lemma StoredIsFound(t: Table, w: Word, e: Word)
    requires Valid(t)
    requires NoNul(w)
    requires e in Entries(t) && EqualFold(e, w)
    ensures Check(t, w)
  {
    var h := Hash(w);
    BagMember(t.buckets, e);
    var b :| 0 <= b < |t.buckets| && e in t.buckets[b];
    var j :| 0 <= j < |t.buckets[b]| && t.buckets[b][j] == e;
    EqualFoldSameHash(e, w);
    assert b == h;
    ChainNoNul(t, h);
    ScanFinds(t.buckets[h], w);
  }

  /** The central property: on a valid table, `check(w)` holds exactly when some stored
      word equals `w` up to ASCII case. */
  lemma CheckIffStored(t: Table, w: Word)
    requires Valid(t)
    requires NoNul(w)
    ensures Check(t, w) <==> exists e :: e in Entries(t) && EqualFold(e, w)
  {
    if Check(t, w) {
      FoundIsStored(t, w);
    }
    if exists e :: e in Entries(t) && EqualFold(e, w) {
      var e :| e in Entries(t) && EqualFold(e, w);
      StoredIsFound(t, w, e);
    }
  }

  /** Nothing is found in the table the program starts with. */
  lemma CheckEmpty(w: Word)
    requires NoNul(w)
    ensures !Check(Empty(), w)
  {
    EmptyFacts();
    CheckIffStored(Empty(), w);
  }

  // ---------------------------------------------------------------------------
  // Loading

  /** Inserting a token sequence adds exactly those tokens, duplicates included. */
  lemma {:induction false} InsertAllEntries(t: Table, ws: seq<Word>)
    requires |t.buckets| == N
    ensures Entries(InsertAll(t, ws)) == Entries(t) + multiset(ws)
    decreases |ws|
  {
    if |ws| > 0 {
      var ws' := ws[..|ws| - 1];
      InsertAllEntries(t, ws');
      InsertEntries(InsertAll(t, ws'), ws[|ws| - 1]);
      assert ws == ws' + [ws[|ws| - 1]];
    }
  }

  /** What `load` leaves behind: the earlier entries plus exactly the committed prefix of
      the stream, and a counter grown by that prefix's length. A failed allocation keeps
      every entry inserted before it; an unopenable source adds nothing. */
  lemma LoadEntries(t: Table, src: Source, mem: Memory)
    requires |t.buckets| == N
    requires src.Tokens? ==> AllTokens(src.words)
    ensures src.Tokens? ==>
      Entries(Load(t, src, mem).table) == Entries(t) + multiset(src.words[..Committed(src, mem)])
    ensures src.Unavailable? ==> Entries(Load(t, src, mem).table) == Entries(t)
    ensures Consistent(t) ==> Consistent(Load(t, src, mem).table)
  {
    if src.Tokens? {
      InsertAllEntries(t, src.words[..Committed(src, mem)]);
    }
  }

  /** A successful load of `K` tokens grows `size()` by exactly `K`, duplicates counted
      one by one. */
  lemma SizeAfterLoad(t: Table, src: Source, mem: Memory)
    requires Valid(t)
    requires src.Tokens? ==> AllTokens(src.words)
    requires Load(t, src, mem).ok
    ensures Size(Load(t, src, mem).table) == Size(t) + |src.words|
  {
  }

  /** A load from an unopenable source changes nothing, so a fresh table still reports
      size 0. */
  lemma UnavailableLoadKeepsTable(t: Table, mem: Memory)
    requires |t.buckets| == N
    ensures Load(t, Unavailable, mem) == LoadResult(false, t)
    ensures Size(Load(Empty(), Unavailable, mem).table) == 0
  {
  }

  /** `size()` is the counter on every valid table, and 0 on the fresh one. */
  lemma SizeIsCounter(t: Table)
    requires Valid(t)
    ensures Size(t) == t.wordCount
    ensures Size(Empty()) == 0
  {
  }

  /** Nothing is cleared between loads: loading stream `a` and then stream `b` yields
      exactly what one load of `a + b` yields, flag and table alike, so entries and the
      counter accumulate. */
  lemma {:induction false} LoadsAccumulate(t: Table, a: seq<Word>, b: seq<Word>)
    requires |t.buckets| == N
    requires AllTokens(a) && AllTokens(b)
    ensures AllTokens(a + b)
    ensures Load(Load(t, Tokens(a), Unlimited).table, Tokens(b), Unlimited) == Load(t, Tokens(a + b), Unlimited)
    decreases |b|
  {
    assert a[..|a|] == a;
    assert b[..|b|] == b;
    assert (a + b)[..|a + b|] == a + b;
    var t1 := InsertAll(t, a);
    assert Load(t, Tokens(a), Unlimited).table == t1;
    assert Load(t1, Tokens(b), Unlimited).table == InsertAll(t1, b);
    assert Load(t, Tokens(a + b), Unlimited).table == InsertAll(t, a + b);
    if |b| == 0 {
      assert a + b == a;
    } else {
      var b' := b[..|b| - 1];
      LoadsAccumulate(t, a, b');
      assert b'[..|b'|] == b';
      assert (a + b')[..|a + b'|] == a + b';
      assert InsertAll(t1, b') == InsertAll(t, a + b');
      assert (a + b)[..|a + b| - 1] == a + b';
    }
  }

  /** No deduplication: loading a word twice stores two entries and counts two. */
  lemma DuplicatesKept(t: Table, w: Word)
    requires Valid(t)
    requires ValidToken(w)
    ensures var u := Load(t, Tokens([w, w]), Unlimited).table;
      && Entries(u)[w] == Entries(t)[w] + 2
      && Size(u) == Size(t) + 2
  {
    LoadEntries(t, Tokens([w, w]), Unlimited);
    assert [w, w][..2] == [w, w];
  }

  /** After loading a token stream into a valid table, `check(w)` holds exactly when `w`
      equals, up to ASCII case, a word stored before or one of the tokens. */
  lemma CheckAfterLoad(t: Table, ws: seq<Word>, w: Word)
    requires Valid(t)
    requires AllTokens(ws)
    requires NoNul(w)
    ensures Check(Load(t, Tokens(ws), Unlimited).table, w) <==>
      exists e :: e in Entries(t) + multiset(ws) && EqualFold(e, w)
  {
    var u := Load(t, Tokens(ws), Unlimited).table;
    LoadEntries(t, Tokens(ws), Unlimited);
    assert ws[..|ws|] == ws;
    CheckIffStored(u, w);
  }

  /** Every case variant of a loaded token is found. */
  lemma CaseVariantsFound(t: Table, ws: seq<Word>, i: nat, v: Word)
    requires Valid(t)
    requires AllTokens(ws)
    requires i < |ws|
    requires NoNul(v) && EqualFold(ws[i], v)
    ensures Check(Load(t, Tokens(ws), Unlimited).table, v)
  {
    CheckAfterLoad(t, ws, v);
    assert ws[i] in Entries(t) + multiset(ws);
  }

  // ---------------------------------------------------------------------------
  // Unloading

  /** `unload` releases every entry, leaves a valid table on which nothing is found, and
      keeps the counter: `size()` reports the same number as before. */
  lemma UnloadReleasesAll(t: Table, w: Word)
    requires Valid(t)
    requires NoNul(w)
    ensures Entries(Unload(t)) == multiset{}
    ensures Valid(Unload(t))
    ensures !Check(Unload(t), w)
    ensures Size(Unload(t)) == Size(t)
    ensures Unload(Unload(t)) == Unload(t)
  {
    BagAllEmpty(Unload(t).buckets);
    CheckIffStored(Unload(t), w);
  }

  /** Because the counter survives `unload`, a table that held entries is no longer
      consistent afterwards, and a reload over it reports the old count plus the new one
      while holding only the new tokens. */
  lemma ReloadAfterUnloadOvercounts(t: Table, ws: seq<Word>)
    requires Valid(t) && Consistent(t)
    requires |Entries(t)| > 0
    requires AllTokens(ws)
    ensures !Consistent(Unload(t))
    ensures var u := Load(Unload(t), Tokens(ws), Unlimited).table;
      && Entries(u) == multiset(ws)
      && Size(u) == |Entries(t)| + |ws|
  {
    BagAllEmpty(Unload(t).buckets);
    LoadEntries(Unload(t), Tokens(ws), Unlimited);
    assert ws[..|ws|] == ws;
  }
}
