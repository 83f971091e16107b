/** The stress service with a writable override layer: an upper-case vowel
    in the word is an inline stress mark, which wins over the dictionary
    and is recorded in both the merged dictionary and the custom one. */
module DynamicStress {
  import opened Wrappers
  import opened CaseMapping
  import opened StressDictionaries
  import LineParser

  /** A JavaScript path string is truthy when present and non-empty. */
  predicate IsConfigured(path: Option<string>) {
    path.Some? && path.value != ""
  }

  /** `Object.assign(dict, customDict)`: every custom entry is added and
      overrides the base entry with the same key. */
  function Merge<V>(base: map<string, V>, custom: map<string, V>): (m: map<string, V>)
    ensures forall k :: k in m <==> k in base || k in custom
    ensures forall k | k in custom :: m[k] == custom[k]
    ensures forall k | k in base && k !in custom :: m[k] == base[k]
  {
    base + custom
  }

  /** The dictionary of this service: the text dictionary read by
      `DictionaryReader.read`, which stores the `parseInt` of a line's
      digits and so `NaN` (None) for a line without digits, with the custom
      entries, which are indices, merged over it. */
  type LoadedDictionary = map<string, Option<int>>

  /** Custom entries as entries of the loaded dictionary. */
  function Lift(custom: StressDictionary): (m: LoadedDictionary)
    ensures forall k :: k in m <==> k in custom
    ensures forall k | k in custom :: m[k] == Some(custom[k])
  {
    map k | k in custom :: Some(custom[k])
  }

  /** What `dict[key]` evaluates to: `undefined` for an absent key, `NaN`
      for an entry read from a line without digits, or an index. */
  datatype StressValue = Undefined | NotANumber | Index(idx: int)

  function Entry(dict: LoadedDictionary, key: string): (v: StressValue)
    ensures v == Undefined <==> key !in dict
    ensures v == NotANumber <==> key in dict && dict[key].None?
    ensures key in dict && dict[key].Some? ==> v == Index(dict[key].value)
  {
    if key !in dict then Undefined
    else match dict[key]
      case None => NotANumber
      case Some(i) => Index(i)
  }

  /** The `{ stressIdx, isCustom }` record of `getStress`. */
  datatype StressInfo = StressInfo(stressIdx: StressValue, isCustom: bool)

  /** `getStress`: a unique inline mark wins; with no mark or several, the
      dictionary entry of the normalised word (possibly `undefined` or
      `NaN`). */
  function GetStress(dict: LoadedDictionary, word: string): (info: StressInfo)
    ensures info.isCustom ==> info.stressIdx.Index? && UniqueMark(word, info.stressIdx.idx)
    ensures forall i | UniqueMark(word, i) :: info == StressInfo(Index(i), true)
    ensures !info.isCustom ==> info.stressIdx == Entry(dict, NormalizeWord(word))
  {
    SingleMarkIsUniqueMark(word);
    var marks := Marks(word);
    if |marks| != 1 then StressInfo(Entry(dict, NormalizeWord(word)), false)
    else StressInfo(Index(marks[0]), true)
  }

  /** Every custom entry is also the merged dictionary's entry. */
  ghost predicate Overrides<V>(dict: map<string, V>, custom: Option<map<string, V>>) {
    custom.Some? ==> forall k | k in custom.value :: k in dict && dict[k] == custom.value[k]
  }

  class DynamicStressManager {
    var dict: LoadedDictionary
    var customDict: Option<StressDictionary>
    const customDictPath: Option<string>
    const isCustomDictionaryReadOnly: bool
    /** The custom dictionaries written to the custom file, oldest first. */
    ghost var written: seq<StressDictionary>

    /** The custom entries override the loaded ones, and the last write
        holds the current custom dictionary. */
    ghost predicate Valid()
      reads this
    {
      && (customDict.Some? ==> Overrides(dict, Some(Lift(customDict.value))))
      && (written != [] ==> customDict == Some(written[|written| - 1]))
    }

    /** `baseDict` is what `DictionaryReader.read` returns for the bundled
        text dictionary, `customFile` the parsed custom file (`None` when
        no such file exists). */
    constructor(baseDict: LineParser.ReadDictionary, customDictionaryPath: Option<string>,
                isReadOnly: bool, customFile: Option<StressDictionary>)
      ensures Valid()
      ensures customDictPath == customDictionaryPath
      ensures isCustomDictionaryReadOnly == isReadOnly
      ensures customDict == (if IsConfigured(customDictionaryPath) then customFile else None)
      ensures forall k :: k in dict <==> k in baseDict || (customDict.Some? && k in customDict.value)
      ensures customDict.Some? ==> forall k | k in customDict.value :: dict[k] == Some(customDict.value[k])
      ensures forall k | k in baseDict && (customDict.None? || k !in customDict.value) ::
        dict[k] == if baseDict[k].Some? then Some(baseDict[k].value as int) else None
      ensures written == []
    {
      customDictPath := customDictionaryPath;
      isCustomDictionaryReadOnly := isReadOnly;
      written := [];
      var base: LoadedDictionary := baseDict;
      if IsConfigured(customDictionaryPath) && customFile.Some? {
        customDict := customFile;
        dict := Merge(base, Lift(customFile.value));
      } else {
        customDict := None;
        dict := base;
      }
    }

    /** `getStressedLetterIndex`: the stress of `word`; a marked word on a
        writable configured custom dictionary is saved first. */
    method GetStressedLetterIndex(word: string) returns (r: StressValue)
      requires Valid()
      modifies this
      ensures Valid()
      ensures r == GetStress(old(dict), word).stressIdx
      ensures
        var info := GetStress(old(dict), word);
        if info.isCustom && IsConfigured(customDictPath) && !isCustomDictionaryReadOnly then
          var key := NormalizeWord(word);
          && dict == old(dict)[key := Some(info.stressIdx.idx)]
          && customDict == Some(old(customDict).GetOr(map[])[key := info.stressIdx.idx])
          && written == old(written) + [customDict.value]
        else
          dict == old(dict) && customDict == old(customDict) && written == old(written)
    {
      var info := GetStress(dict, word);
      if info.isCustom && IsConfigured(customDictPath) && !isCustomDictionaryReadOnly {
        SaveCustomStress(NormalizeWord(word), info.stressIdx.idx);
      }
      r := info.stressIdx;
    }

    /** `saveCustomStress`: one key set in both dictionaries, then the
        custom dictionary written out. */
    method SaveCustomStress(word: string, stressIdx: int)
      requires Valid()
      modifies this
      ensures Valid()
      ensures customDict == Some(old(customDict).GetOr(map[])[word := stressIdx])
      ensures dict == old(dict)[word := Some(stressIdx)]
      ensures written == old(written) + [customDict.value]
    {
      if customDict.None? {
        customDict := Some(map[]);
      }
      var custom := customDict.value[word := stressIdx];
      customDict := Some(custom);
      dict := dict[word := Some(stressIdx)];
      written := written + [custom];
    }
  }

  /** Once a marked word is saved, any later word with the same normal form
      and no unique mark of its own gets the saved index back, whatever the
      entry was before (absent or `NaN` included). */
  lemma SavedMarkIsFoundLater(dict: LoadedDictionary, word: string, later: string)
    requires GetStress(dict, word).isCustom
    requires NormalizeWord(later) == NormalizeWord(word)
    requires forall i :: !UniqueMark(later, i)
    ensures
      var idx := GetStress(dict, word).stressIdx;
      GetStress(dict[NormalizeWord(word) := Some(idx.idx)], later).stressIdx == idx
  {
  }

  /** `кОт` is marked on its second letter whatever the dictionary says,
      `кот` falls back to the dictionary, and so does `мАмА`, which carries
      two marks; a word that is absent is `undefined`, and one stored
      without digits is `NaN`. */
  lemma MarkExamples(w1: string, w2: string, w3: string)
    requires w1 == "кОт" && w2 == "кот" && w3 == "мАмА"
    ensures GetStress(map["кот" := Some(0)], w1) == StressInfo(Index(1), true)
    ensures GetStress(map["кот" := Some(0)], w2) == StressInfo(Index(0), false)
    ensures GetStress(map["мама" := Some(1)], w3) == StressInfo(Index(1), false)
    ensures GetStress(map[], w2) == StressInfo(Undefined, false)
    ensures GetStress(map["кот" := None], w2) == StressInfo(NotANumber, false)
  {
    assert UniqueMark(w1, 1);
    assert !IsStressedVowel(w2[0]) && !IsStressedVowel(w2[1]) && !IsStressedVowel(w2[2]);
    assert NormalizeWord(w2) == "кот";
    assert IsStressedVowel(w3[1]) && IsStressedVowel(w3[3]);
    assert NormalizeWord(w3) == "мама";
  }

  /** A line of the text dictionary without digits is read as `NaN`, and an
      unmarked lookup of that word answers `NaN`, not `undefined`. */
  lemma NaNEntryIsAnswered(line: string)
    requires line == "кот"
    ensures GetStress(LineParser.ParseText(LineParser.Start, line + "\n", true).result, line)
         == StressInfo(NotANumber, false)
  {
    LineParser.ParseLine(LineParser.Start, line, true);
    LettersOfLine(line);
    assert "" + line == line && "" + "" == "";
    assert LineParser.ParseInt("") == None;
    assert LineParser.ParseText(LineParser.Start, line + "\n", true).result == map[line := None];
    UnmarkedLine(line);
  }

  lemma LettersOfLine(line: string)
    requires line == "кот"
    ensures LineParser.Letters(line) == line && LineParser.DigitsOf(line) == ""
  {
    assert line[1..] == "от" && line[2..] == "т" && line[3..] == "";
    assert LineParser.Letters(line[2..]) == "т";
    assert LineParser.Letters(line[1..]) == "от";
    assert LineParser.DigitsOf(line[2..]) == "";
    assert LineParser.DigitsOf(line[1..]) == "";
  }

  lemma UnmarkedLine(line: string)
    requires line == "кот"
    ensures GetStress(map[line := None], line) == StressInfo(NotANumber, false)
  {
    assert !IsStressedVowel(line[0]) && !IsStressedVowel(line[1]) && !IsStressedVowel(line[2]);
    assert NormalizeWord(line) == line;
  }
}
