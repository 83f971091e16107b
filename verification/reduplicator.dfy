/** The reduplication engine: a word becomes a prefix, a paired vowel and
    the rest of the word after the chosen vowel. The stress dictionary that
    the source loads from a JSON file is a parameter. */
module Reduplicator {
  import opened Wrappers
  import opened Alphabet
  import opened CaseMapping
  import opened StressDictionaries

  const MinWordLength: nat := 3
  const Prefix: string := "ху"
  const SingleSyllableWordPrefix: string := "хуе"

  /** The vowel that replaces an unstressed vowel. */
  const DefaultVowelPairs: map<char, char> := map[
    'а' := 'е', 'е' := 'е', 'ё' := 'е', 'и' := 'е', 'о' := 'е',
    'у' := 'е', 'ы' := 'е', 'э' := 'е', 'ю' := 'е', 'я' := 'е']

  /** The vowel that replaces a stressed vowel. */
  const StressedVowelPairs: map<char, char> := map[
    'а' := 'я', 'е' := 'е', 'ё' := 'ё', 'и' := 'и', 'о' := 'ё',
    'у' := 'ю', 'ы' := 'и', 'э' := 'е', 'ю' := 'ю', 'я' := 'я']

  /** Both pair tables are total over the ten vowels and map into vowels. */
  lemma PairTablesAreTotal()
    ensures forall v :: v in DefaultVowelPairs <==> IsVowel(v)
    ensures forall v :: v in StressedVowelPairs <==> IsVowel(v)
    ensures forall v | v in DefaultVowelPairs :: DefaultVowelPairs[v] == 'е' && IsVowel(DefaultVowelPairs[v])
    ensures forall v | v in StressedVowelPairs :: IsVowel(StressedVowelPairs[v])
  {
  }

  /** The single-syllable prefix is the prefix followed by the pair of an
      unstressed vowel. */
  lemma SingleSyllablePrefixIsPrefixAndDefaultPair(v: char)
    requires IsVowel(v)
    ensures SingleSyllableWordPrefix == Prefix + [DefaultVowelPairs[v]]
  {
  }

  /** `getSyllableCount`: the number of vowels among the letters. */
  function SyllableCount(letters: string): nat {
    VowelsFrom(letters, 0)
  }

  /** The number of vowels in `letters[from..]`. */
  function VowelsFrom(letters: string, from: nat): nat
    decreases |letters| - from
  {
    if from >= |letters| then 0
    else (if IsVowel(letters[from]) then 1 else 0) + VowelsFrom(letters, from + 1)
  }

  /** The count is at most the length, and zero exactly for a word without
      vowels. */
  lemma {:induction false} VowelsFromCounts(letters: string, from: nat)
    ensures from <= |letters| ==> VowelsFrom(letters, from) <= |letters| - from
    ensures VowelsFrom(letters, from) == 0 <==> forall k | from <= k < |letters| :: !IsVowel(letters[k])
    decreases |letters| - from
  {
    if from < |letters| {
      VowelsFromCounts(letters, from + 1);
    }
  }

  /** Counting in `b` after a prefix `a` is counting in `b` alone. */
  lemma {:induction false} VowelsFromShift(a: string, b: string, j: nat)
    ensures VowelsFrom(a + b, |a| + j) == VowelsFrom(b, j)
    decreases |b| - j
  {
    if j < |b| {
      assert (a + b)[|a| + j] == b[j];
      VowelsFromShift(a, b, j + 1);
    }
  }

  lemma {:induction false} VowelsFromAppend(a: string, b: string, from: nat)
    requires from <= |a|
    ensures VowelsFrom(a + b, from) == VowelsFrom(a, from) + VowelsFrom(b, 0)
    decreases |a| - from
  {
    if from == |a| {
      VowelsFromShift(a, b, 0);
    } else {
      assert (a + b)[from] == a[from];
      VowelsFromAppend(a, b, from + 1);
    }
  }

  /** The vowels of a concatenation are those of both parts. */
  lemma SyllableCountAppend(a: string, b: string)
    ensures SyllableCount(a + b) == SyllableCount(a) + SyllableCount(b)
  {
    VowelsFromAppend(a, b, 0);
  }

  lemma SyllableCountIsVowelCount(letters: string)
    ensures SyllableCount(letters) <= |letters|
    ensures SyllableCount(letters) == 0 <==> forall k | 0 <= k < |letters| :: !IsVowel(letters[k])
  {
    VowelsFromCounts(letters, 0);
  }

  /** `getVowelPair`: the stressed pair when the stress is unknown or falls
      on this vowel, otherwise the default pair. */
  function GetVowelPair(vowel: char, vowelIdx: nat, knownStressedLetterIdx: Option<int>): (pair: char)
    requires IsVowel(vowel)
    ensures IsVowel(pair)
    ensures knownStressedLetterIdx.None? ==> pair == StressedVowelPairs[vowel]
    ensures knownStressedLetterIdx == Some(vowelIdx) ==> pair == StressedVowelPairs[vowel]
    ensures knownStressedLetterIdx.Some? && knownStressedLetterIdx != Some(vowelIdx) ==> pair == 'е'
  {
    if knownStressedLetterIdx.None? || knownStressedLetterIdx == Some(vowelIdx)
    then StressedVowelPairs[vowel]
    else DefaultVowelPairs[vowel]
  }

  /** Letter `i` may be replaced: it is a vowel, it is not the last letter,
      and it is either the known stressed letter or followed by a consonant. */
  predicate Qualifies(w: string, known: Option<int>, i: int) {
    0 <= i < |w| - 1 && IsVowel(w[i]) && (known == Some(i) || IsConsonant(w[i + 1]))
  }

  /** The first index at or after `from` that qualifies, if any. */
  function FirstSubstitutionPoint(w: string, known: Option<int>, from: nat): (r: Option<nat>)
    ensures r.Some? ==> from <= r.value && Qualifies(w, known, r.value)
    ensures r.Some? ==> forall j | from <= j < r.value :: !Qualifies(w, known, j)
    ensures r.None? ==> forall j | from <= j :: !Qualifies(w, known, j)
    decreases |w| - from
  {
    if from + 1 >= |w| then None
    else if Qualifies(w, known, from) then Some(from)
    else FirstSubstitutionPoint(w, known, from + 1)
  }

  /** The first qualifying index is the one `FirstSubstitutionPoint` finds. */
  lemma FirstSubstitutionPointIsUnique(w: string, known: Option<int>, i: int)
    requires Qualifies(w, known, i)
    requires forall j | 0 <= j < i :: !Qualifies(w, known, j)
    ensures FirstSubstitutionPoint(w, known, 0) == Some(i)
  {
  }

  /** What `reduplicate` returns for `word` under `dict`; None is `null`. */
  function Reduplication(dict: StressDictionary, word: string): Option<string> {
    if |word| < MinWordLength then None
    else
      var w := Lower(word);
      if SyllableCount(w) == 1 then Some(SingleSyllableWordPrefix + w)
      else
        var known := Lookup(dict, w);
        match FirstSubstitutionPoint(w, known, 0)
        case None => None
        case Some(i) => Some(Prefix + [GetVowelPair(w[i], i, known)] + w[i + 1..])
  }

  /** `reduplicate`: the left-to-right scan with its early return. */
  method Reduplicate(dict: StressDictionary, word: string) returns (r: Option<string>)
    ensures r == Reduplication(dict, word)
  {
    if |word| < MinWordLength {
      return None;
    }
    var w := Lower(word);
    var syllableCount := SyllableCount(w);
    if syllableCount == 1 {
      return Some(SingleSyllableWordPrefix + w);
    }
    var known := Lookup(dict, w);
    var i := 0;
    while i < |w| - 1
      invariant 0 <= i
      invariant forall j | 0 <= j < i :: !Qualifies(w, known, j)
    {
      var curLetter, nextLetter := w[i], w[i + 1];
      if IsVowel(curLetter) {
        if known == Some(i) || IsConsonant(nextLetter) {
          FirstSubstitutionPointIsUnique(w, known, i);
          return Some(Prefix + [GetVowelPair(curLetter, i, known)] + w[i + 1..]);
        }
      }
      i := i + 1;
    }
    assert FirstSubstitutionPoint(w, known, 0).None?;
    return None;
  }

  /** Words shorter than three letters are rejected. */
  lemma ShortWordsAreRejected(dict: StressDictionary, word: string)
    requires |word| < MinWordLength
    ensures Reduplication(dict, word) == None
  {
  }

  /** A word with exactly one vowel gets the single-syllable prefix. */
  lemma OneVowelWordsGetPrefix(dict: StressDictionary, word: string)
    requires |word| >= MinWordLength && SyllableCount(Lower(word)) == 1
    ensures Reduplication(dict, word) == Some("хуе" + Lower(word))
  {
  }

  /** A word without vowels is rejected. */
  lemma NoVowelWordsAreRejected(dict: StressDictionary, word: string)
    requires forall k | 0 <= k < |word| :: !IsVowel(LowerChar(word[k]))
    ensures Reduplication(dict, word) == None
  {
    var w := Lower(word);
    SyllableCountIsVowelCount(w);
  }

  /** The full shape of a result with two or more vowels: `ху`, the pair of
      the first qualifying vowel, and everything after that vowel; and no
      result exactly when no index qualifies. */
  lemma {:induction false} ManyVowelResult(dict: StressDictionary, word: string)
    requires |word| >= MinWordLength && SyllableCount(Lower(word)) != 1
    ensures var w := Lower(word); var known := Lookup(dict, w);
      match Reduplication(dict, word)
      case None => forall j :: !Qualifies(w, known, j)
      case Some(r) =>
        exists i ::
          && Qualifies(w, known, i)
          && (forall j | 0 <= j < i :: !Qualifies(w, known, j))
          && r == "ху" + [GetVowelPair(w[i], i, known)] + w[i + 1..]
  {
    var w := Lower(word); var known := Lookup(dict, w);
    match FirstSubstitutionPoint(w, known, 0)
    case None =>
    case Some(i) =>
      assert Qualifies(w, known, i);
  }

  /** The last letter is never replaced: every result ends with the last
      letter of the lower-cased word. */
  lemma ResultKeepsLastLetter(dict: StressDictionary, word: string)
    requires Reduplication(dict, word).Some?
    ensures var r, w := Reduplication(dict, word).value, Lower(word);
      |r| > 0 && r[|r| - 1] == w[|w| - 1]
  {
  }

  /** The result depends only on the lower-cased word. */
  lemma {:induction false} CaseDoesNotMatter(dict: StressDictionary, w1: string, w2: string)
    requires Lower(w1) == Lower(w2)
    ensures Reduplication(dict, w1) == Reduplication(dict, w2)
  {
    LowerIsIdempotent(w1);
    LowerIsIdempotent(w2);
  }

  /** Lower-casing leaves a word of table letters unchanged. */
  lemma LowerKeepsLowerCase(s: string)
    requires forall k | 0 <= k < |s| :: IsAlphabetLetter(s[k])
    ensures Lower(s) == s
  {
  }

  /** Dictionary-independent examples: a one-vowel word, a word without
      vowels, two short words, and two words scanned without a known stress. */
  lemma ExampleOneVowel()
    ensures Reduplication(map[], "кот") == Some("хуекот")
  {
    var w := Lower("кот");
    LowerKeepsLowerCase("кот");
    assert SyllableCount(w) == 1;
    assert SingleSyllableWordPrefix + w == "хуекот";
  }

  lemma ExamplesRejected()
    ensures Reduplication(map[], "птрт") == None
    ensures Reduplication(map[], "а") == None
    ensures Reduplication(map[], "ад") == None
  {
    NoVowelWordsAreRejected(map[], "птрт");
  }

  lemma ExampleUnknownStress(w: string)
    requires w == "дикси"
    ensures Reduplication(map[], w) == Some("хуикси")
  {
    DiksiScan(w);
    ScanWithoutStress(map[], w, 1);
    DiksiCut(w);
  }

  lemma ExampleUnknownStressFirstVowel(w: string)
    requires w == "кампьютер"
    ensures Reduplication(map[], w) == Some("хуямпьютер")
  {
    KampyuterScan(w);
    ScanWithoutStress(map[], w, 1);
    KampyuterCut(w);
  }

  lemma DiksiScan(w: string)
    requires w == "дикси"
    ensures Lower(w) == w && SyllableCount(w) == 2 && Qualifies(w, None, 1)
    ensures !Qualifies(w, None, 0)
  {
    LowerKeepsLowerCase(w);
    assert SyllableCount("дикси") == 2;
  }

  lemma KampyuterScan(w: string)
    requires w == "кампьютер"
    ensures Lower(w) == w && SyllableCount(w) == 3 && Qualifies(w, None, 1)
    ensures !Qualifies(w, None, 0)
  {
    LowerKeepsLowerCase(w);
    assert SyllableCount("кампьютер") == 3;
  }

  lemma DiksiCut(w: string)
    requires w == "дикси"
    ensures Prefix + [GetVowelPair(w[1], 1, None)] + w[2..] == "хуикси"
  {
    assert GetVowelPair(w[1], 1, None) == 'и';
    assert w[2..] == "кси";
  }

  lemma KampyuterCut(w: string)
    requires w == "кампьютер"
    ensures Prefix + [GetVowelPair(w[1], 1, None)] + w[2..] == "хуямпьютер"
  {
    assert GetVowelPair(w[1], 1, None) == 'я';
    assert w[2..] == "мпьютер";
  }

  /** A lower-case word of two or more vowels that is not in the dictionary
      is cut at its first qualifying letter. */
  lemma ScanWithoutStress(dict: StressDictionary, w: string, i: nat)
    requires |w| >= MinWordLength && Lower(w) == w && SyllableCount(w) != 1 && w !in dict
    requires Qualifies(w, None, i) && forall j | 0 <= j < i :: !Qualifies(w, None, j)
    ensures Reduplication(dict, w) == Some(Prefix + [GetVowelPair(w[i], i, None)] + w[i + 1..])
  {
    FirstSubstitutionPointIsUnique(w, None, i);
  }
}
