/** Word-to-stress-index dictionaries, as the JSON objects and text files of
    the source hold them, and the key normalisation the lookups share. */
module StressDictionaries {
  import opened Wrappers
  import opened CaseMapping
  import Alphabet

  /** A dictionary maps a word to the index of its stressed letter. */
  type StressDictionary = map<string, int>

  /** `dict[key]`: `undefined` (None) for an absent key. */
  function Lookup(dict: StressDictionary, key: string): Option<int> {
    if key in dict then Some(dict[key]) else None
  }

  /** `.replace(/ё/g, 'е')`. */
  function FoldYo(s: string): string {
    seq(|s|, i requires 0 <= i < |s| => if s[i] == 'ё' then 'е' else s[i])
  }

  /** `normalizeWord`: lower case, then `ё` folded to `е`. */
  function NormalizeWord(word: string): (key: string)
    ensures |key| == |word|
    ensures forall i | 0 <= i < |key| :: key[i] != 'ё'
  {
    FoldYo(Lower(word))
  }

  /** Normalising twice is normalising once. */
  lemma {:induction false} NormalizeIsIdempotent(word: string)
    ensures NormalizeWord(NormalizeWord(word)) == NormalizeWord(word)
  {
    var key := NormalizeWord(word);
    forall i | 0 <= i < |key|
      ensures NormalizeWord(key)[i] == key[i]
    {
      assert LowerChar(key[i]) == key[i];
    }
  }

  /** Spellings that differ only in letter case or in `ё`/`е` share a key. */
  lemma NormalizeIgnoresCaseAndYo(w1: string, w2: string)
    requires |w1| == |w2|
    requires forall i | 0 <= i < |w1| ::
      LowerChar(w1[i]) == LowerChar(w2[i])
      || (LowerChar(w1[i]) in {'е', 'ё'} && LowerChar(w2[i]) in {'е', 'ё'})
    ensures NormalizeWord(w1) == NormalizeWord(w2)
  {
  }

  /** The fold of the first default service, whose pattern and replacement
      literals are stored mis-encoded: every occurrence, left to right, of
      the two characters U+0E31 U+0091 is replaced with U+0E30 U+0E15. */
  function FoldMisencoded(s: string): (r: string)
    ensures |r| == |s|
  {
    if |s| >= 2 && s[0] == '\U{0E31}' && s[1] == '\U{0091}' then
      ['\U{0E30}', '\U{0E15}'] + FoldMisencoded(s[2..])
    else if s == [] then []
    else [s[0]] + FoldMisencoded(s[1..])
  }

  /** The mis-encoded fold changes nothing in a string without U+0E31, in
      particular in any lower-cased Cyrillic word: it never folds `ё`. */
  lemma {:induction false} FoldMisencodedIsIdentity(s: string)
    requires forall i | 0 <= i < |s| :: s[i] != '\U{0E31}'
    ensures FoldMisencoded(s) == s
  {
    if s != [] {
      FoldMisencodedIsIdentity(s[1..]);
    }
  }

  /** Lower-casing never produces U+0E31 from a Latin or Cyrillic letter,
      so the key of a word written in those scripts is its lower case. */
  lemma MisencodedKeyOfCyrillicWord(word: string)
    requires forall i | 0 <= i < |word| :: word[i] < '\U{0460}'
    ensures FoldMisencoded(Lower(word)) == Lower(word)
  {
    FoldMisencodedIsIdentity(Lower(word));
  }

  /** The inline stress mark of both dynamic services: a character whose
      lower case is a vowel and which is its own upper case. */
  predicate IsStressedVowel(c: char) {
    Alphabet.IsVowel(LowerChar(c)) && IsUpperCase(c)
  }

  /** A mark is exactly the upper-case form of a vowel; lower-case vowels
      and upper-case consonants are never marks. */
  lemma StressedVowelIsUpperCaseVowel(c: char)
    ensures IsStressedVowel(c) <==> Alphabet.IsVowel(LowerChar(c)) && !Alphabet.IsVowel(c)
    ensures Alphabet.IsConsonant(LowerChar(c)) ==> !IsStressedVowel(c)
    ensures Alphabet.IsVowel(c) ==> IsStressedVowel(UpperChar(c))
  {
  }

  /** The positions at or after `from` that hold a mark, in ascending order. */
  function MarksFrom(word: string, from: nat): (r: seq<nat>)
    requires from <= |word|
    ensures forall k | 0 <= k < |r| :: from <= r[k] < |word| && IsStressedVowel(word[r[k]])
    ensures forall i | from <= i < |word| && IsStressedVowel(word[i]) :: i in r
    ensures forall j, k | 0 <= j < k < |r| :: r[j] < r[k]
    decreases |word| - from
  {
    if from == |word| then []
    else if IsStressedVowel(word[from]) then [from] + MarksFrom(word, from + 1)
    else MarksFrom(word, from + 1)
  }

  /** `word.split('').map(...).filter(isStressedVowel)`, as positions. */
  function Marks(word: string): seq<nat> {
    MarksFrom(word, 0)
  }

  /** `i` is the one and only mark of `word`. */
  predicate UniqueMark(word: string, i: int) {
    && 0 <= i < |word| && IsStressedVowel(word[i])
    && forall j | 0 <= j < |word| && j != i :: !IsStressedVowel(word[j])
  }

  /** Exactly one mark in the list means exactly one marked position. */
  lemma SingleMarkIsUniqueMark(word: string)
    ensures |Marks(word)| == 1 ==> UniqueMark(word, Marks(word)[0])
    ensures forall i | UniqueMark(word, i) :: Marks(word) == [i]
  {
    var m := Marks(word);
    forall i | UniqueMark(word, i)
      ensures m == [i]
    {
      assert i in m;
      OnlyValueOfAscendingSeq(m, i);
    }
  }

  lemma SecondOfAscending(m: seq<nat>)
    requires |m| > 1
    requires forall j, k | 0 <= j < k < |m| :: m[j] < m[k]
    ensures m[0] != m[1]
  {
  }

  /** An ascending sequence holding `i` and nothing else is `[i]`. */
  lemma OnlyValueOfAscendingSeq(m: seq<nat>, i: nat)
    requires i in m
    requires forall k | 0 <= k < |m| :: m[k] == i
    requires forall j, k | 0 <= j < k < |m| :: m[j] < m[k]
    ensures m == [i]
  {
    if |m| > 1 {
      SecondOfAscending(m);
      assert false;
    }
  }

  /** The mark list is empty exactly when no character is a mark. */
  lemma NoMarksIffNoStressedVowel(word: string)
    ensures Marks(word) == [] <==> forall k | 0 <= k < |word| :: !IsStressedVowel(word[k])
  {
    var m := Marks(word);
    if m != [] {
      assert IsStressedVowel(word[m[0]]);
    }
  }
}
