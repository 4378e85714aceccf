/** ASCII case folding as `tolower` and `strcasecmp` perform it in the C locale:
    only 'A'..'Z' are folded, every other character is left alone. */
module CaseFold {

  /** A C string holds no NUL character: the first NUL would end it. */
  predicate NoNul(s: seq<char>) {
    forall i :: 0 <= i < |s| ==> s[i] != '\0'
  }

  /** Folds one character as `tolower` does in the C locale. */
  function Lower(c: char): char {
    if 'A' <= c <= 'Z' then (c as int + 32) as char else c
  }

  /** Every character of `s` folded with `Lower`. */
  function LowerWord(s: seq<char>): seq<char> {
    seq(|s|, i requires 0 <= i < |s| => Lower(s[i]))
  }

  /** Two strings are equal ignoring ASCII case. */
  predicate EqualFold(a: seq<char>, b: seq<char>) {
    LowerWord(a) == LowerWord(b)
  }

  /** The folded code of the first character, or 0 (the terminating NUL) once `s` is exhausted. */
  function HeadCode(s: seq<char>): int {
    if |s| == 0 then 0 else Lower(s[0]) as int
  }

  /** `strcasecmp`: walks both strings in step while their folded characters agree and
      are not the terminator, and returns the difference of the first folded pair that
      differs (0 when both strings end together). */
  function CaseCompare(a: seq<char>, b: seq<char>): int
    decreases |a|
  {
    var ca := HeadCode(a);
    var cb := HeadCode(b);
    if ca != cb || ca == 0 then ca - cb else CaseCompare(a[1..], b[1..])
  }

  /** Folding is idempotent, never yields an upper-case letter, keeps 7-bit ASCII in range
      and maps only NUL to NUL. */
  lemma LowerFacts(c: char)
    ensures Lower(Lower(c)) == Lower(c)
    ensures !('A' <= Lower(c) <= 'Z')
    ensures c as int < 128 ==> Lower(c) as int < 128
    ensures Lower(c) == '\0' <==> c == '\0'
  {
  }

  /** Folding a whole word twice is folding it once. */
  lemma LowerWordIdempotent(s: seq<char>)
    ensures LowerWord(LowerWord(s)) == LowerWord(s)
  {
    forall i | 0 <= i < |s|
      ensures LowerWord(LowerWord(s))[i] == LowerWord(s)[i]
    {
      LowerFacts(s[i]);
    }
  }

  /** Folding commutes with dropping the first character. */
  lemma LowerWordTail(s: seq<char>)
    requires |s| > 0
    ensures LowerWord(s) == [Lower(s[0])] + LowerWord(s[1..])
  {
  }

  /** `strcasecmp` reports equality exactly when the two C strings agree up to ASCII case. */
  lemma {:induction false} CaseCompareZeroIff(a: seq<char>, b: seq<char>)
    requires NoNul(a) && NoNul(b)
    ensures CaseCompare(a, b) == 0 <==> EqualFold(a, b)
    decreases |a|
  {
    if |a| == 0 && |b| == 0 {
    } else if |a| == 0 {
      LowerFacts(b[0]);
      assert |LowerWord(a)| != |LowerWord(b)|;
    } else if |b| == 0 {
      LowerFacts(a[0]);
      assert |LowerWord(a)| != |LowerWord(b)|;
    } else {
      LowerFacts(a[0]);
      LowerWordTail(a);
      LowerWordTail(b);
      if Lower(a[0]) != Lower(b[0]) {
        assert LowerWord(a)[0] != LowerWord(b)[0];
      } else {
        CaseCompareZeroIff(a[1..], b[1..]);
        if EqualFold(a, b) {
          assert LowerWord(a)[1..] == LowerWord(a[1..]);
          assert LowerWord(b)[1..] == LowerWord(b[1..]);
        }
      }
    }
  }
}
