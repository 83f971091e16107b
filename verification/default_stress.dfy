/** The read-only stress service over the JSON dictionary, with the
    intended `ё` to `е` fold. The dictionary is loaded once and never
    changed, so the lookup is a function of it. */
module DefaultStressDictionaryManager {
  import opened Wrappers
  import opened CaseMapping
  import opened StressDictionaries

  /** `getStressedLetterIndex`: the stress index stored for the normalised
      word, `None` (undefined) when the dictionary has no such key. */
  function GetStressedLetterIndex(dict: StressDictionary, word: string): (r: Option<int>)
    ensures r.None? <==> NormalizeWord(word) !in dict
    ensures r.Some? ==> r.value == dict[NormalizeWord(word)]
  {
    Lookup(dict, NormalizeWord(word))
  }

  /** Spellings that differ only in letter case or in `ё`/`е` get the same
      answer. */
  lemma LookupIgnoresCaseAndYo(dict: StressDictionary, w1: string, w2: string)
    requires |w1| == |w2|
    requires forall i | 0 <= i < |w1| ::
      LowerChar(w1[i]) == LowerChar(w2[i])
      || (LowerChar(w1[i]) in {'е', 'ё'} && LowerChar(w2[i]) in {'е', 'ё'})
    ensures GetStressedLetterIndex(dict, w1) == GetStressedLetterIndex(dict, w2)
  {
    NormalizeIgnoresCaseAndYo(w1, w2);
  }

  /** A word spelled with `ё` is found under its `е` spelling. */
  lemma YoSpellingIsFound(dict: StressDictionary, word: string, idx: int)
    requires FoldYo(word) in dict && dict[FoldYo(word)] == idx
    requires Lower(word) == word
    ensures GetStressedLetterIndex(dict, word) == Some(idx)
  {
  }
}

/** The read-only stress service whose fold literal is stored mis-encoded
    (see `StressDictionaries.FoldMisencoded`). */
module DefaultStressManager {
  import opened Wrappers
  import opened CaseMapping
  import opened StressDictionaries
  import DefaultStressDictionaryManager

  /** `getStressedLetterIndex`: the stress index stored under the
      lower-cased word after the literal substitution. */
  function GetStressedLetterIndex(dict: StressDictionary, word: string): (r: Option<int>)
    ensures r.None? <==> FoldMisencoded(Lower(word)) !in dict
    ensures r.Some? ==> r.value == dict[FoldMisencoded(Lower(word))]
  {
    Lookup(dict, FoldMisencoded(Lower(word)))
  }

  /** Words that differ only in letter case get the same answer. */
  lemma LookupIgnoresCase(dict: StressDictionary, w1: string, w2: string)
    requires |w1| == |w2|
    requires forall i | 0 <= i < |w1| :: LowerChar(w1[i]) == LowerChar(w2[i])
    ensures GetStressedLetterIndex(dict, w1) == GetStressedLetterIndex(dict, w2)
  {
    assert Lower(w1) == Lower(w2);
  }

  /** On a Latin or Cyrillic word the substitution never applies: the key
      is the lower-cased word, so a `ё` spelling is not folded to `е`. */
  lemma CyrillicKeyIsLowerCase(dict: StressDictionary, word: string)
    requires forall i | 0 <= i < |word| :: word[i] < '\U{0460}'
    ensures GetStressedLetterIndex(dict, word) == Lookup(dict, Lower(word))
  {
    MisencodedKeyOfCyrillicWord(word);
  }

  /** Unlike the `ё`-folding service, this one misses `ёж` when only `еж`
      is stored. */
  lemma YoIsNotFolded(w: string)
    requires w == "ёж"
    ensures GetStressedLetterIndex(map["еж" := 0], w) == None
    ensures DefaultStressDictionaryManager.GetStressedLetterIndex(map["еж" := 0], w) == Some(0)
  {
    CyrillicKeyIsLowerCase(map["еж" := 0], w);
    assert Lower(w) == w;
    assert FoldYo(w) == "еж";
  }
}
