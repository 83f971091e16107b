/** The per-character line parser of the dictionary reader: letters go to
    the current word, digits to the current stress digits, and a line break
    (or the very last character of the file) stores the pair and starts a
    new line. */
module LineParser {
  import opened Wrappers
  import Encoding

  /** The reader's result; `None` is the `NaN` that `parseInt('')` gives. */
  type ReadDictionary = map<string, Option<nat>>

  /** The two accumulators and the map built so far. */
  datatype ParserState = ParserState(word: string, digits: string, result: ReadDictionary)

  const Start: ParserState := ParserState("", "", map[])

  predicate AllDigits(s: string) {
    forall i | 0 <= i < |s| :: Encoding.IsDigit(s[i])
  }

  /** The decimal value of a string of digits. */
  function DecimalValue(s: string): nat
    requires AllDigits(s)
  {
    if s == [] then 0
    else DecimalValue(s[..|s| - 1]) * 10 + (s[|s| - 1] as int - '0' as int)
  }

  /** `parseInt` on the accumulated digits, which are only ever decimal
      digits: `NaN` (None) for the empty string. */
  function ParseInt(s: string): (r: Option<nat>)
    ensures r.None? <==> s == [] || !AllDigits(s)
  {
    if s != [] && AllDigits(s) then Some(DecimalValue(s)) else None
  }

  /** A character's contribution to the current word. */
  function LetterPart(c: char): string {
    if Encoding.IsLetter(c) then [c] else []
  }

  /** A character's contribution to the current stress digits. */
  function DigitPart(c: char): string {
    if Encoding.IsDigit(c) then [c] else []
  }

  /** The letters of a line, in order. */
  function Letters(s: string): (r: string)
    ensures forall i | 0 <= i < |r| :: Encoding.IsLetter(r[i])
    ensures |r| <= |s|
  {
    if s == [] then [] else LetterPart(s[0]) + Letters(s[1..])
  }

  /** The digits of a line, in order. */
  function DigitsOf(s: string): (r: string)
    ensures AllDigits(r)
    ensures |r| <= |s|
  {
    if s == [] then [] else DigitPart(s[0]) + DigitsOf(s[1..])
  }

  /** One iteration of the character loop. */
  function StepChar(st: ParserState, c: char, isFileEndReached: bool): ParserState {
    var word := if Encoding.IsLetter(c) then st.word + [c] else st.word;
    var digits := if !Encoding.IsLetter(c) && Encoding.IsDigit(c) then st.digits + [c] else st.digits;
    if c == '\n' || isFileEndReached then ParserState("", "", st.result[word := ParseInt(digits)])
    else ParserState(word, digits, st.result)
  }

  /** The character loop over one decoded chunk; `isLastChunk` makes the
      last character of `s` end the final line. */
  function ParseText(st: ParserState, s: string, isLastChunk: bool): ParserState
    decreases |s|
  {
    if s == [] then st
    else ParseText(StepChar(st, s[0], isLastChunk && |s| == 1), s[1..], isLastChunk)
  }

  /** The accumulated digits are always decimal digits. */
  lemma {:induction false} DigitsStayDigits(st: ParserState, s: string, isLastChunk: bool)
    requires AllDigits(st.digits)
    ensures AllDigits(ParseText(st, s, isLastChunk).digits)
    decreases |s|
  {
    if s != [] {
      DigitsStayDigits(StepChar(st, s[0], isLastChunk && |s| == 1), s[1..], isLastChunk);
    }
  }

  /** Any character but a line break, away from the end of the file, only
      feeds the accumulators. */
  lemma StepOrdinaryChar(st: ParserState, c: char)
    requires c != '\n'
    ensures StepChar(st, c, false) == ParserState(st.word + LetterPart(c), st.digits + DigitPart(c), st.result)
  {
    assert Encoding.IsDigit(c) ==> !Encoding.IsLetter(c);
  }

  /** A line break, or the last character of the file, stores the pair. */
  lemma StepLineEnd(st: ParserState, c: char, isFileEndReached: bool)
    requires c == '\n' || isFileEndReached
    ensures StepChar(st, c, isFileEndReached)
         == ParserState("", "", st.result[st.word + LetterPart(c) := ParseInt(st.digits + DigitPart(c))])
  {
    assert Encoding.IsDigit(c) ==> !Encoding.IsLetter(c);
    assert st.word + [] == st.word && st.digits + [] == st.digits;
  }

  /** Moving the first character of a line into the accumulators. */
  lemma ShiftFirst(w: string, d: string, line: string)
    requires line != []
    ensures (w + LetterPart(line[0])) + Letters(line[1..]) == w + Letters(line)
    ensures (d + DigitPart(line[0])) + DigitsOf(line[1..]) == d + DigitsOf(line)
  {
    Regroup(w, LetterPart(line[0]), Letters(line[1..]), Letters(line));
    Regroup(d, DigitPart(line[0]), DigitsOf(line[1..]), DigitsOf(line));
  }

  lemma Regroup(x: string, a: string, b: string, ab: string)
    requires ab == a + b
    ensures (x + a) + b == x + ab
  {
  }

  /** A line ended by a line break stores the letters of the line (after
      those already accumulated) with the value of its digits; every other
      character is dropped, and both accumulators start empty again. */
  lemma {:induction false} ParseLine(st: ParserState, line: string, isLastChunk: bool)
    requires forall i | 0 <= i < |line| :: line[i] != '\n'
    ensures ParseText(st, line + "\n", isLastChunk)
         == ParserState("", "", st.result[st.word + Letters(line) := ParseInt(st.digits + DigitsOf(line))])
    decreases |line|
  {
    var s := line + "\n";
    if line == [] {
      assert s == "\n";
      StepLineEnd(st, '\n', isLastChunk);
    } else {
      assert s[0] == line[0] && s[1..] == line[1..] + "\n";
      StepOrdinaryChar(st, line[0]);
      ParseLine(StepChar(st, line[0], false), line[1..], isLastChunk);
      ShiftFirst(st.word, st.digits, line);
    }
  }

  /** The last line of the file needs no line break: its last character
      ends it. */
  lemma {:induction false} ParseLastLine(st: ParserState, line: string)
    requires line != []
    requires forall i | 0 <= i < |line| :: line[i] != '\n'
    ensures ParseText(st, line, true)
         == ParserState("", "", st.result[st.word + Letters(line) := ParseInt(st.digits + DigitsOf(line))])
    decreases |line|
  {
    if |line| == 1 {
      StepLineEnd(st, line[0], true);
      assert Letters(line) == LetterPart(line[0]) && DigitsOf(line) == DigitPart(line[0]);
    } else {
      StepOrdinaryChar(st, line[0]);
      ParseLastLine(StepChar(st, line[0], false), line[1..]);
      ShiftFirst(st.word, st.digits, line);
    }
  }

  /** Parsing `a + b` is parsing `a`, then `b`; only the end of the whole
      text can be the end of the file. */
  lemma {:induction false} ParseTextAppend(st: ParserState, a: string, b: string, isLastChunk: bool)
    ensures ParseText(st, a + b, isLastChunk)
         == ParseText(ParseText(st, a, isLastChunk && b == []), b, isLastChunk)
    decreases |a|
  {
    if a == [] {
      assert a + b == b;
    } else {
      assert (a + b)[0] == a[0] && (a + b)[1..] == a[1..] + b;
      ParseTextAppend(StepChar(st, a[0], isLastChunk && |a + b| == 1), a[1..], b, isLastChunk);
    }
  }

  /** A text that ends in a line break parses the same whether or not it
      ends the file. */
  lemma {:induction false} EndOfFileAfterLineBreak(st: ParserState, s: string)
    requires s != [] && s[|s| - 1] == '\n'
    ensures ParseText(st, s, true) == ParseText(st, s, false)
    decreases |s|
  {
    if |s| == 1 {
      assert ParseText(st, s, true) == StepChar(st, '\n', true);
    } else {
      EndOfFileAfterLineBreak(StepChar(st, s[0], false), s[1..]);
    }
  }

  /** Of two lines for the same word, the later one wins. */
  lemma LaterLineWins(res: ReadDictionary, line1: string, line2: string, isLastChunk: bool)
    requires forall i | 0 <= i < |line1| :: line1[i] != '\n'
    requires forall i | 0 <= i < |line2| :: line2[i] != '\n'
    requires Letters(line1) == Letters(line2)
    ensures ParseText(ParserState("", "", res), line1 + "\n" + line2 + "\n", isLastChunk).result
         == res[Letters(line2) := ParseInt(DigitsOf(line2))]
  {
    var st := ParserState("", "", res);
    var first, second := line1 + "\n", line2 + "\n";
    assert line1 + "\n" + line2 + "\n" == first + second;
    ParseTextAppend(st, first, second, isLastChunk);
    var mid := FreshLine(res, line1, false);
    var last := FreshLine(mid.result, line2, isLastChunk);
    Overwrite(res, Letters(line2), ParseInt(DigitsOf(line1)), ParseInt(DigitsOf(line2)));
  }

  lemma Overwrite(m: ReadDictionary, k: string, u: Option<nat>, v: Option<nat>)
    ensures m[k := u][k := v] == m[k := v]
  {
  }

  /** `ParseLine` from empty accumulators. */
  lemma FreshLine(res: ReadDictionary, line: string, isLastChunk: bool) returns (st: ParserState)
    requires forall i | 0 <= i < |line| :: line[i] != '\n'
    ensures st == ParserState("", "", res[Letters(line) := ParseInt(DigitsOf(line))])
    ensures ParseText(ParserState("", "", res), line + "\n", isLastChunk) == st
  {
    ParseLine(ParserState("", "", res), line, isLastChunk);
    assert "" + Letters(line) == Letters(line) && "" + DigitsOf(line) == DigitsOf(line);
    st := ParserState("", "", res[Letters(line) := ParseInt(DigitsOf(line))]);
  }
}
