/** The `line` handler of the dictionary transformer. Each line of the
    source word list has the form `word|...|stress`, where the stress field
    marks the stressed letter with `'`. A valid line stores the word with
    the position of that mark; the handler counts processed, added and
    skipped lines. Reading the file, logging and writing the JSON result
    are outside the model. */
module DictTransformer {
  import opened Wrappers
  import Alphabet

  // String services of JavaScript that the handler uses.

  /** The characters `String.prototype.trim` removes: the white space and
      line terminators of ECMAScript. */
  predicate IsJsWhitespace(c: char) {
    c == '\t' || c == '\n' || c == '\U{B}' || c == '\U{C}' || c == '\r' || c == ' ' ||
    c == '\U{A0}' || c == '\U{1680}' || ('\U{2000}' <= c <= '\U{200A}') ||
    c == '\U{2028}' || c == '\U{2029}' || c == '\U{202F}' || c == '\U{205F}' ||
    c == '\U{3000}' || c == '\U{FEFF}'
  }

  /** `s` with its leading white space removed. */
  function TrimStart(s: string): (r: string)
    decreases |s|
  {
    if s != [] && IsJsWhitespace(s[0]) then TrimStart(s[1..]) else s
  }

  /** `TrimStart` keeps a suffix of `s` that is empty or starts with a
      non-white-space character, and what it drops is white space. */
  lemma {:induction false} TrimStartSpec(s: string)
    ensures |TrimStart(s)| <= |s| && TrimStart(s) == s[|s| - |TrimStart(s)|..]
    ensures TrimStart(s) == [] || !IsJsWhitespace(TrimStart(s)[0])
    ensures forall i | 0 <= i < |s| - |TrimStart(s)| :: IsJsWhitespace(s[i])
    decreases |s|
  {
    if s != [] && IsJsWhitespace(s[0]) {
      var t := TrimStart(s[1..]);
      TrimStartSpec(s[1..]);
      assert s[1..][|s| - 1 - |t|..] == s[|s| - |t|..];
      forall i | 0 < i < |s| - |t|
        ensures IsJsWhitespace(s[i])
      {
        assert s[i] == s[1..][i - 1];
      }
    }
  }

  /** `s` with its trailing white space removed. */
  function TrimEnd(s: string): (r: string)
    decreases |s|
  {
    if s != [] && IsJsWhitespace(s[|s| - 1]) then TrimEnd(s[..|s| - 1]) else s
  }

  /** `TrimEnd` keeps a prefix of `s` that is empty or ends with a
      non-white-space character, and what it drops is white space. */
  lemma {:induction false} TrimEndSpec(s: string)
    ensures |TrimEnd(s)| <= |s| && TrimEnd(s) == s[..|TrimEnd(s)|]
    ensures TrimEnd(s) == [] || !IsJsWhitespace(TrimEnd(s)[|TrimEnd(s)| - 1])
    ensures forall i | |TrimEnd(s)| <= i < |s| :: IsJsWhitespace(s[i])
    decreases |s|
  {
    if s != [] && IsJsWhitespace(s[|s| - 1]) {
      var t := TrimEnd(s[..|s| - 1]);
      TrimEndSpec(s[..|s| - 1]);
      assert s[..|s| - 1][..|t|] == s[..|t|];
      forall i | |t| <= i < |s| - 1
        ensures IsJsWhitespace(s[i])
      {
        assert s[i] == s[..|s| - 1][i];
      }
    }
  }

  /** `s.trim()`. */
  function Trim(s: string): string {
    TrimEnd(TrimStart(s))
  }

  /** A trimmed string neither starts nor ends with white space, so
      trimming twice is trimming once. */
  lemma TrimIdempotent(s: string)
    ensures Trim(s) == [] || (!IsJsWhitespace(Trim(s)[0]) && !IsJsWhitespace(Trim(s)[|Trim(s)| - 1]))
    ensures Trim(Trim(s)) == Trim(s)
  {
    var t := TrimStart(s);
    var r := TrimEnd(t);
    TrimStartSpec(s);
    TrimEndSpec(t);
    if r != [] {
      assert r[0] == t[0];
      assert TrimStart(r) == r;
      assert TrimEnd(r) == r;
    }
  }

  /** A string trims to nothing exactly when it is all white space. */
  lemma TrimBlank(s: string)
    ensures Trim(s) == [] <==> forall i | 0 <= i < |s| :: IsJsWhitespace(s[i])
  {
    var t := TrimStart(s);
    var a := |s| - |t|;
    TrimStartSpec(s);
    TrimEndSpec(t);
    if Trim(s) == [] {
      assert t == [];
    } else {
      assert s[a] == t[0];
    }
  }

  /** `s.split(sep)` for a one-character separator: the fields between
      the separators, always at least one. */
  function Split(s: string, sep: char): (parts: seq<string>)
    ensures |parts| >= 1
    decreases |s|
  {
    if s == [] then [""]
    else
      var rest := Split(s[1..], sep);
      if s[0] == sep then [""] + rest
      else [[s[0]] + rest[0]] + rest[1..]
  }

  /** `parts.join(sep)`. */
  function Join(parts: seq<string>, sep: char): string
    requires |parts| >= 1
    decreases |parts|
  {
    if |parts| == 1 then parts[0] else parts[0] + [sep] + Join(parts[1..], sep)
  }

  /** The number of occurrences of `c` in `s`. */
  function CountOf(s: string, c: char): nat
    decreases |s|
  {
    if s == [] then 0 else (if s[0] == c then 1 else 0) + CountOf(s[1..], c)
  }

  /** Joining the fields again gives back the string, no field holds the
      separator, and there is one field more than there are separators. */
  lemma {:induction false} SplitJoin(s: string, sep: char)
    ensures Join(Split(s, sep), sep) == s
    ensures forall k | 0 <= k < |Split(s, sep)| :: sep !in Split(s, sep)[k]
    ensures |Split(s, sep)| == CountOf(s, sep) + 1
    decreases |s|
  {
    if s != [] {
      var rest := Split(s[1..], sep);
      SplitJoin(s[1..], sep);
      if s[0] == sep {
        assert ([""] + rest)[1..] == rest;
        assert s == [sep] + s[1..];
      } else {
        var parts := [[s[0]] + rest[0]] + rest[1..];
        if |rest| == 1 {
          assert s == [s[0]] + s[1..];
        } else {
          assert parts[1..] == rest[1..];
          assert Join(rest, sep) == rest[0] + [sep] + Join(rest[1..], sep);
          assert s == [s[0]] + s[1..];
        }
        forall k | 0 <= k < |parts|
          ensures sep !in parts[k]
        {
          if k > 0 {
            assert parts[k] == rest[k];
          }
        }
      }
    }
  }

  /** `s.indexOf(c)`: the first position of `c` in `s`, or -1. */
  function IndexOf(s: string, c: char): (r: int)
    ensures -1 <= r < |s|
    ensures r == -1 <==> c !in s
    ensures r >= 0 ==> s[r] == c && c !in s[..r]
    decreases |s|
  {
    if s == [] then -1
    else if s[0] == c then 0
    else
      var k := IndexOf(s[1..], c);
      assert s == [s[0]] + s[1..];
      if k == -1 then -1
      else
        assert s[..k + 1] == [s[0]] + s[1..][..k];
        k + 1
  }

  // The handler.

  /** The mark of the stressed letter. */
  const StressChar: char := '\''

  /** The 33 letters and the hyphen. */
  const AllowedChars: seq<char> := Alphabet.AllLetters + ['-']

  /** The test applied to each character: the stress mark, or one of
      `AllowedChars`. */
  predicate IsWordChar(c: char) {
    c == StressChar || c in AllowedChars
  }

  /** `isWordToProcess`: `every` character passes `IsWordChar`, checked
      from the first; the empty word passes. */
  predicate IsWordToProcess(word: string)
    decreases |word|
  {
    word == [] || (IsWordChar(word[0]) && IsWordToProcess(word[1..]))
  }

  /** The character-by-character test holds exactly when every character
      passes. */
  lemma {:induction false} WordToProcessEvery(word: string)
    ensures IsWordToProcess(word) <==> forall i | 0 <= i < |word| :: IsWordChar(word[i])
    decreases |word|
  {
    if word != [] {
      WordToProcessEvery(word[1..]);
      assert forall i | 1 <= i < |word| :: word[i] == word[1..][i - 1];
    }
  }

  /** A word is processed exactly when it is made of Russian letters,
      hyphens and stress marks. */
  lemma WordToProcessLetters(word: string)
    ensures IsWordToProcess(word)
        <==> forall i | 0 <= i < |word| :: Alphabet.IsAlphabetLetter(word[i]) || word[i] == '-' || word[i] == '\''
  {
    WordToProcessEvery(word);
    forall c: char
      ensures IsWordChar(c) <==> Alphabet.IsAlphabetLetter(c) || c == '-' || c == '\''
    {
      Alphabet.LetterTestMatchesTable(c);
    }
  }

  /** `word.startsWith('*') ? word.substring(1) : word`. */
  function StripAsterisk(word: string): (r: string)
    ensures |word| > 0 && word[0] == '*' ==> r == word[1..]
    ensures (|word| == 0 || word[0] != '*') ==> r == word
  {
    if |word| > 0 && word[0] == '*' then word[1..] else word
  }

  /** What the handler makes of one line. */
  datatype LineOutcome =
    | Blank                              // empty after trimming: ignored
    | Malformed                          // no third field: `parts[2].trim()` throws
    | Skipped(word: string)              // a disallowed character, or no stress mark
    | Added(word: string, stressIdx: nat)

  /** The handler's decision for a line whose first and third fields,
      trimmed, are `word` and `stress`. */
  function ClassifyFields(word: string, stress: string): LineOutcome {
    var w := StripAsterisk(word);
    var stressedLetterIdx := IndexOf(stress, StressChar);
    if !IsWordToProcess(w) || stressedLetterIdx == -1 then Skipped(w)
    else Added(w, stressedLetterIdx)
  }

  /** The handler's decision for a line, read from its fields. */
  function ClassifyLine(line: string): LineOutcome {
    var trimmed := Trim(line);
    if trimmed == [] then Blank
    else
      var parts := Split(trimmed, '|');
      if |parts| < 3 then Malformed
      else ClassifyFields(Trim(parts[0]), Trim(parts[2]))
  }

  /** A line is blank exactly when it is all white space, and a non-blank
      line fails exactly when it holds fewer than two separators. */
  lemma ClassifyBlankOrMalformed(line: string)
    ensures ClassifyLine(line) == Blank <==> forall i | 0 <= i < |line| :: IsJsWhitespace(line[i])
    ensures ClassifyLine(line) == Malformed <==> Trim(line) != [] && CountOf(Trim(line), '|') < 2
  {
    TrimBlank(line);
    SplitJoin(Trim(line), '|');
  }

  /** An added line names a word of allowed characters, stripped of one
      leading `*`, and the stored value is the position of the first `'`
      in its third field. */
  lemma ClassifyAdded(line: string)
    requires ClassifyLine(line).Added?
    ensures var parts := Split(Trim(line), '|');
      var stress := Trim(parts[2]);
      var i := ClassifyLine(line).stressIdx;
      && |parts| >= 3
      && ClassifyLine(line).word == StripAsterisk(Trim(parts[0]))
      && IsWordToProcess(ClassifyLine(line).word)
      && i < |stress| && stress[i] == StressChar && StressChar !in stress[..i]
  {
    var parts := Split(Trim(line), '|');
    assert Trim(line) != [] && |parts| >= 3;
    var stress := Trim(parts[2]);
    var i := IndexOf(stress, StressChar);
    assert i != -1 && ClassifyLine(line) == Added(StripAsterisk(Trim(parts[0])), i);
  }

  /** A skipped line has a word with a disallowed character, or no `'`
      in its third field. */
  lemma ClassifySkipped(line: string)
    requires ClassifyLine(line).Skipped?
    ensures var parts := Split(Trim(line), '|');
      && |parts| >= 3
      && ClassifyLine(line).word == StripAsterisk(Trim(parts[0]))
      && (!IsWordToProcess(ClassifyLine(line).word) || StressChar !in Trim(parts[2]))
  {
    var parts := Split(Trim(line), '|');
    assert Trim(line) != [] && |parts| >= 3;
    var stress := Trim(parts[2]);
    assert ClassifyLine(line) == Skipped(StripAsterisk(Trim(parts[0])));
  }

  /** The counters and the map the handler updates. */
  datatype Tally = Tally(processed: nat, added: nat, skipped: nat, result: map<string, nat>)

  const Empty: Tally := Tally(0, 0, 0, map[])

  /** The error `parts[2].trim()` raises when there is no third field. */
  const UndefinedField: string := "Cannot read properties of undefined (reading 'trim')"

  /** What a line with outcome `o` does to the tally. */
  function Apply(t: Tally, o: LineOutcome): Result<Tally, string> {
    match o
    case Blank => Success(t)
    case Malformed => Failure(UndefinedField)
    case Skipped(_) => Success(t.(processed := t.processed + 1, skipped := t.skipped + 1))
    case Added(word, idx) =>
      Success(t.(processed := t.processed + 1, added := t.added + 1, result := t.result[word := idx]))
  }

  /** What one line does to the tally. */
  function Step(t: Tally, line: string): Result<Tally, string> {
    Apply(t, ClassifyLine(line))
  }

  /** The outcomes of the lines, in order. */
  function Outcomes(lines: seq<string>): (os: seq<LineOutcome>)
    ensures |os| == |lines|
  {
    seq(|lines|, i requires 0 <= i < |lines| => ClassifyLine(lines[i]))
  }

  /** The outcomes applied in order; the first failure stops the program. */
  function RunOutcomes(t: Tally, os: seq<LineOutcome>): Result<Tally, string>
    decreases |os|
  {
    if os == [] then Success(t)
    else match Apply(t, os[0])
      case Failure(e) => Failure(e)
      case Success(t') => RunOutcomes(t', os[1..])
  }

  /** The lines handled in order. */
  function Run(t: Tally, lines: seq<string>): Result<Tally, string> {
    RunOutcomes(t, Outcomes(lines))
  }

  /** Every line that is handled is counted once as added or as skipped;
      a blank line changes nothing. */
  lemma ApplyCounts(t: Tally, o: LineOutcome)
    requires Apply(t, o).Success?
    ensures var t' := Apply(t, o).value;
      && (o == Blank ==> t' == t)
      && (o != Blank ==> t'.processed == t.processed + 1)
      && t'.processed - t.processed == (t'.added - t.added) + (t'.skipped - t.skipped)
  {
  }

  /** Handling more outcomes is handling the first ones, then the others. */
  lemma {:induction false} RunOutcomesAppend(t: Tally, os: seq<LineOutcome>, more: seq<LineOutcome>)
    ensures RunOutcomes(t, os).Failure? ==> RunOutcomes(t, os + more) == RunOutcomes(t, os)
    ensures RunOutcomes(t, os).Success? ==> RunOutcomes(t, os + more) == RunOutcomes(RunOutcomes(t, os).value, more)
    decreases |os|
  {
    if os == [] {
      assert os + more == more;
    } else {
      assert (os + more)[0] == os[0];
      assert (os + more)[1..] == os[1..] + more;
      match Apply(t, os[0])
      case Failure(_) =>
      case Success(t') => RunOutcomesAppend(t', os[1..], more);
    }
  }

  /** Every line handled so far was added or skipped: a tally that starts
      with `processed == added + skipped` keeps it. */
  lemma {:induction false} RunKeepsBalance(t: Tally, lines: seq<string>)
    requires t.processed == t.added + t.skipped
    requires Run(t, lines).Success?
    ensures Run(t, lines).value.processed == Run(t, lines).value.added + Run(t, lines).value.skipped
  {
    OutcomesKeepBalance(t, Outcomes(lines));
  }

  lemma {:induction false} OutcomesKeepBalance(t: Tally, os: seq<LineOutcome>)
    requires t.processed == t.added + t.skipped
    requires RunOutcomes(t, os).Success?
    ensures RunOutcomes(t, os).value.processed == RunOutcomes(t, os).value.added + RunOutcomes(t, os).value.skipped
    decreases |os|
  {
    if os != [] {
      ApplyCounts(t, os[0]);
      OutcomesKeepBalance(Apply(t, os[0]).value, os[1..]);
    }
  }

  /** The last line for a word wins: after an added line, the word maps to
      its stress position whatever earlier lines stored, and no other word
      changes. */
  lemma LastAddedWins(t: Tally, os: seq<LineOutcome>, o: LineOutcome)
    requires o.Added?
    requires RunOutcomes(t, os).Success?
    ensures RunOutcomes(t, os + [o]).Success?
    ensures RunOutcomes(t, os + [o]).value.result == RunOutcomes(t, os).value.result[o.word := o.stressIdx]
  {
    RunOutcomesAppend(t, os, [o]);
    assert [o][1..] == [];
  }

  /** The handler's state: the three counters and the result map, updated
      in place for each line. */
  class LineHandler {
    var processed: nat
    var added: nat
    var skipped: nat
    var result: map<string, nat>

    function Current(): Tally
      reads this
    {
      Tally(processed, added, skipped, result)
    }

    ghost predicate Valid()
      reads this
    {
      processed == added + skipped
    }

    constructor()
      ensures Current() == Empty && Valid()
    {
      processed, added, skipped := 0, 0, 0;
      result := map[];
    }

    /** The `line` event: trim, skip a blank line, split on `|`, count the
        line, then skip or store its word. A line without a third field
        throws before anything is counted. */
    method OnLine(line: string) returns (r: Result<(), string>)
      requires Valid()
      modifies this
      ensures Valid()
      ensures Step(old(Current()), line).Success? ==> r == Success(()) && Current() == Step(old(Current()), line).value
      ensures Step(old(Current()), line).Failure? ==> r == Failure(UndefinedField) && Current() == old(Current())
    {
      var trimmed := Trim(line);
      if trimmed == [] {
        return Success(());
      }
      var parts := Split(trimmed, '|');
      var word := Trim(parts[0]);
      if |parts| < 3 {
        return Failure(UndefinedField);
      }
      var stress := Trim(parts[2]);
      processed := processed + 1;
      StoreWord(word, stress);
      return Success(());
    }

    /** The rest of the `line` event, once the line is counted: strip a
        leading `*`, then skip the word or store its stress position. */
    method StoreWord(word: string, stress: string)
      requires processed == added + skipped + 1
      modifies this
      ensures Valid()
      ensures ClassifyFields(word, stress).Skipped? ==>
        Current() == old(Current()).(skipped := old(skipped) + 1)
      ensures ClassifyFields(word, stress).Added? ==>
        Current() == old(Current()).(added := old(added) + 1,
                                     result := old(result)[ClassifyFields(word, stress).word := ClassifyFields(word, stress).stressIdx])
    {
      var word := word;
      if |word| > 0 && word[0] == '*' {
        word := word[1..];
      }
      if !IsWordToProcess(word) {
        skipped := skipped + 1;
        return;
      }
      var stressedLetterIdx := IndexOf(stress, StressChar);
      if stressedLetterIdx == -1 {
        skipped := skipped + 1;
        return;
      }
      result := result[word := stressedLetterIdx];
      added := added + 1;
    }
  }
}
