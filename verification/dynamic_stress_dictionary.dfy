/** The older stress service with a writable override layer. It saves a
    mark under the plain lower-cased word, and answers from the dictionary
    (after any save) under the mis-encoded fold. */
module DynamicStressDictionary {
  import opened Wrappers
  import opened CaseMapping
  import opened StressDictionaries
  import opened DynamicStress

  /** `wordLetters.some(isUpperCase)`: some character is its own upper case,
      which includes characters without case such as `-`. */
  predicate HasUpperCase(word: string) {
    exists i | 0 <= i < |word| :: IsUpperCase(word[i])
  }

  class DynamicStressDictionaryManager {
    var dict: StressDictionary
    var customDict: Option<StressDictionary>
    const customDictPath: Option<string>
    /** The custom dictionaries written to the custom file, oldest first. */
    ghost var written: seq<StressDictionary>

    ghost predicate Valid()
      reads this
    {
      && Overrides(dict, customDict)
      && (written != [] ==> customDict == Some(written[|written| - 1]))
    }

    /** `baseDict` is the parsed main dictionary, `customFile` the parsed
        custom file (`None` when no such file exists). */
    constructor(baseDict: StressDictionary, customDictionaryPath: Option<string>,
                customFile: Option<StressDictionary>)
      ensures Valid()
      ensures customDictPath == customDictionaryPath
      ensures customDict == (if IsConfigured(customDictionaryPath) then customFile else None)
      ensures dict == (if customDict.Some? then Merge(baseDict, customDict.value) else baseDict)
      ensures written == []
    {
      customDictPath := customDictionaryPath;
      written := [];
      if IsConfigured(customDictionaryPath) && customFile.Some? {
        customDict := customFile;
        dict := Merge(baseDict, customFile.value);
      } else {
        customDict := None;
        dict := baseDict;
      }
    }

    /** `getStressedLetterIndex`: a save is attempted when a custom path is
        configured and some character is upper case; the answer is then
        looked up in the possibly updated dictionary. */
    method GetStressedLetterIndex(word: string) returns (r: Option<int>)
      requires Valid()
      modifies this
      ensures Valid()
      ensures
        if IsConfigured(customDictPath) && HasUpperCase(word) && |Marks(word)| == 1 then
          && dict == old(dict)[Lower(word) := Marks(word)[0]]
          && customDict == Some(old(customDict).GetOr(map[])[Lower(word) := Marks(word)[0]])
          && written == old(written) + [customDict.value]
        else
          dict == old(dict) && customDict == old(customDict) && written == old(written)
      ensures r == Lookup(dict, FoldMisencoded(Lower(word)))
    {
      if IsConfigured(customDictPath) && HasUpperCase(word) {
        SaveCustomStress(word);
      }
      r := Lookup(dict, FoldMisencoded(Lower(word)));
    }

    /** `saveCustomStress`: nothing unless exactly one vowel is marked; then
        its position is stored under the lower-cased word in both
        dictionaries and the custom dictionary is written out. */
    method SaveCustomStress(word: string)
      requires Valid()
      modifies this
      ensures Valid()
      ensures
        if |Marks(word)| == 1 then
          && dict == old(dict)[Lower(word) := Marks(word)[0]]
          && customDict == Some(old(customDict).GetOr(map[])[Lower(word) := Marks(word)[0]])
          && written == old(written) + [customDict.value]
        else
          dict == old(dict) && customDict == old(customDict) && written == old(written)
    {
      var stressed := Marks(word);
      if |stressed| != 1 {
        return;
      }
      var key := Lower(word);
      var idx := stressed[0];
      if customDict.None? {
        customDict := Some(map[]);
      }
      var custom := customDict.value[key := idx];
      customDict := Some(custom);
      dict := dict[key := idx];
      written := written + [custom];
    }
  }

  /** Right after a save, a Latin or Cyrillic word gets its own mark back:
      the saved key and the lookup key coincide. */
  lemma SavedMarkIsReturned(dict: StressDictionary, word: string, i: nat)
    requires UniqueMark(word, i)
    requires forall k | 0 <= k < |word| :: word[k] < '\U{0460}'
    ensures HasUpperCase(word)
    ensures Lookup(dict[Lower(word) := i], FoldMisencoded(Lower(word))) == Some(i)
  {
    SingleMarkIsUniqueMark(word);
    MisencodedKeyOfCyrillicWord(word);
  }

  /** A hyphen counts as upper case, so `кот-ик` triggers a save attempt,
      which stores nothing because the word carries no mark. */
  lemma HyphenTriggersSaveAttempt(w: string)
    requires w == "кот-ик"
    ensures HasUpperCase(w)
    ensures Marks(w) == []
  {
    assert IsUpperCase(w[3]);
    assert forall k | 0 <= k < |w| :: !IsStressedVowel(w[k]);
    NoMarksIffNoStressedVowel(w);
  }
}
