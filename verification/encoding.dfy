/** The character codec: the 33 letters and the ten digits `1234567890`,
    in that order, are coded 0..42, one byte per character. */
module Encoding {
  import opened Wrappers
  import opened Utf8
  import Alphabet

  const Digits: string := "1234567890"

  /** `allCharacters`: the alphabet followed by the digits. */
  const AllCharacters: string := Alphabet.AllLetters + Digits

  /** `isDigit`. */
  predicate IsDigit(c: char) {
    '0' <= c <= '9'
  }

  /** `isLetter`: its lower bound is the Latin `a`, so the range also holds
      the Latin lower-case letters and everything up to the Cyrillic `я`,
      upper-case Cyrillic letters included. */
  predicate IsLetter(c: char) {
    'a' <= c <= 'я' || c == 'ё'
  }

  /** The letter test admits every letter of the alphabet, and more: the
      extra characters are exactly those from the Latin `a` up to just
      before the Cyrillic `а`, among them the Latin lower-case letters and
      the upper-case Cyrillic letters. Digits, upper-case Latin letters and
      the line feed stay out. */
  lemma LetterTestIsWiderThanAlphabet(c: char)
    ensures Alphabet.IsAlphabetLetter(c) ==> IsLetter(c)
    ensures IsLetter(c) && !Alphabet.IsAlphabetLetter(c) <==> 'a' <= c < 'а'
    ensures 'a' <= c <= 'z' || 'А' <= c <= 'Я' ==> IsLetter(c) && !Alphabet.IsAlphabetLetter(c)
    ensures IsDigit(c) || 'A' <= c <= 'Z' || c == '\n' ==> !IsLetter(c)
    ensures IsLetter('z') && !Alphabet.IsAlphabetLetter('z')
    ensures IsLetter('Я') && !Alphabet.IsAlphabetLetter('Я')
    ensures !IsLetter('\n') && !IsLetter('7') && !IsDigit('\n')
  {
  }

  /** A character the codec knows. */
  predicate IsEncodable(c: char) {
    Alphabet.IsAlphabetLetter(c) || IsDigit(c)
  }

  /** The code of a character, written independently of the table: the
      letters up to `е`, then `ё`, then the rest of the alphabet, then the
      digits `1`..`9` and finally `0`. */
  function CodeOf(c: char): (r: Option<nat>)
    ensures r.Some? <==> IsEncodable(c)
    ensures r.Some? ==> r.value < |AllCharacters|
  {
    if 'а' <= c <= 'е' then Some(c as int - 'а' as int)
    else if c == 'ё' then Some(6)
    else if 'ж' <= c <= 'я' then Some(c as int - 'а' as int + 1)
    else if '1' <= c <= '9' then Some(33 + (c as int - '1' as int))
    else if c == '0' then Some(42)
    else None
  }

  /** The character with code `k`, written independently of the table. */
  function CharOf(k: int): char
    requires 0 <= k < 43
  {
    if k < 6 then ('а' as int + k) as char
    else if k == 6 then 'ё'
    else if k < 33 then ('а' as int + k - 1) as char
    else if k < 42 then ('1' as int + k - 33) as char
    else '0'
  }

  /** The letters of the table follow the closed form ... */
  lemma LettersAreClosedForm()
    ensures |Alphabet.AllLetters| == 33
    ensures forall i | 0 <= i < 33 :: Alphabet.AllLetters[i] == CharOf(i)
  {
    assert Alphabet.AllLetters == seq(33, i requires 0 <= i < 33 => CharOf(i));
  }

  /** The alphabet holds 33 distinct letters: each has its own code. */
  lemma AlphabetSize()
    ensures |Alphabet.AllLetters| == 33 && Alphabet.Distinct(Alphabet.AllLetters)
  {
    LettersAreClosedForm();
    forall i, j | 0 <= i < j < 33
      ensures Alphabet.AllLetters[i] != Alphabet.AllLetters[j]
    {
      CodeOfCharOf(i);
      CodeOfCharOf(j);
    }
  }

  /** ... and so do the digits after them. */
  lemma DigitsAreClosedForm()
    ensures |Digits| == 10
    ensures forall i | 0 <= i < 10 :: Digits[i] == CharOf(33 + i)
  {
    assert Digits == seq(10, i requires 0 <= i < 10 => CharOf(33 + i));
  }

  /** Both closed forms agree with the table `allCharacters`. */
  lemma TableIsClosedForm()
    ensures |AllCharacters| == 43
    ensures forall i | 0 <= i < 43 :: AllCharacters[i] == CharOf(i)
  {
    LettersAreClosedForm();
    DigitsAreClosedForm();
    forall i | 0 <= i < 43
      ensures AllCharacters[i] == CharOf(i)
    {
      if i >= 33 {
        assert AllCharacters[i] == Digits[i - 33];
      }
    }
  }

  /** Code and character are mutually inverse over the 43 characters:
      every code is the code of its character, ... */
  lemma CodeOfCharOf(k: int)
    requires 0 <= k < 43
    ensures CodeOf(CharOf(k)) == Some(k)
  {
  }

  /** ... and every known character is the character of its code. */
  lemma CharOfCodeOf(c: char)
    requires IsEncodable(c)
    ensures CharOf(CodeOf(c).value) == c
  {
  }

  /** `isCodeOfLetter`: the hard-coded letter range. */
  predicate IsCodeOfLetter(code: int) {
    0 <= code <= 32
  }

  /** `isCodeOfDigit`: the hard-coded digit range. */
  predicate IsCodeOfDigit(code: int) {
    33 <= code <= 42
  }

  /** The hard-coded ranges hold exactly the codes of letters and digits,
      and never overlap. */
  lemma CodeRangesMatchTable(c: char)
    requires IsEncodable(c)
    ensures IsCodeOfLetter(CodeOf(c).value) <==> Alphabet.IsAlphabetLetter(c)
    ensures IsCodeOfDigit(CodeOf(c).value) <==> IsDigit(c)
    ensures !(IsCodeOfLetter(CodeOf(c).value) && IsCodeOfDigit(CodeOf(c).value))
  {
  }

  /** The digits are coded in the order `1`..`9`, `0`. */
  lemma DigitCodes(d: char)
    requires '1' <= d <= '9'
    ensures CodeOf(d) == Some(33 + (d as int - '1' as int))
    ensures CodeOf('0') == Some(42)
  {
  }

  /** The position of the first character at or after `from` that the
      codec does not know, if there is one. */
  function FirstUnknown(s: string, from: nat): (r: Option<nat>)
    requires from <= |s|
    ensures r.Some? ==> from <= r.value < |s| && !IsEncodable(s[r.value])
    ensures r.Some? ==> forall j | from <= j < r.value :: IsEncodable(s[j])
    ensures r.None? ==> forall j | from <= j < |s| :: IsEncodable(s[j])
    decreases |s| - from
  {
    if from == |s| then None
    else if !IsEncodable(s[from]) then Some(from)
    else FirstUnknown(s, from + 1)
  }

  /** `encode` as a value: the code of every character, or the first
      character the codec does not know. */
  function EncodeAll(s: string): (r: Result<seq<byte>, char>)
    ensures r.Success? <==> forall i | 0 <= i < |s| :: IsEncodable(s[i])
    ensures r.Success? ==> |r.value| == |s|
    ensures r.Failure? ==> exists i | 0 <= i < |s| ::
      s[i] == r.error && !IsEncodable(s[i]) && forall j | 0 <= j < i :: IsEncodable(s[j])
  {
    match FirstUnknown(s, 0)
    case Some(i) => Failure(s[i])
    case None => Success(seq(|s|, i requires 0 <= i < |s| => CodeOf(s[i]).value as byte))
  }

  /** `decodeOne` as a value: `''` for a null code, the character of a
      known code, a failure for any other code. */
  function DecodeCode(code: Option<int>): (r: Result<string, int>)
    ensures code.None? ==> r == Success([])
    ensures code.Some? ==> (r.Success? <==> 0 <= code.value < 43)
    ensures r.Success? && code.Some? ==> r.value == [CharOf(code.value)]
  {
    match code
    case None => Success([])
    case Some(c) => if 0 <= c < 43 then Success([CharOf(c)]) else Failure(c)
  }

  /** Decoding each byte of an encoding gives back the string. */
  lemma DecodeEncode(s: string)
    requires EncodeAll(s).Success?
    ensures forall i | 0 <= i < |s| :: DecodeCode(Some(EncodeAll(s).value[i] as int)) == Success([s[i]])
  {
    forall i | 0 <= i < |s|
      ensures DecodeCode(Some(EncodeAll(s).value[i] as int)) == Success([s[i]])
    {
      CharOfCodeOf(s[i]);
    }
  }

  /** The table-building loop over `chars`, which holds the 43 characters
      in code order: each character is stored at its code, and its code
      under it. */
  method BuildTables(chars: string) returns (table: array<char>, codes: map<char, nat>)
    requires |chars| == 43 && forall i | 0 <= i < 43 :: chars[i] == CharOf(i)
    ensures fresh(table) && table.Length == 43
    ensures forall k | 0 <= k < 43 :: table[k] == CharOf(k)
    ensures forall c :: c in codes <==> IsEncodable(c)
    ensures forall c | c in codes :: Some(codes[c]) == CodeOf(c)
  {
    table := new char[|chars|];
    codes := map[];
    for i := 0 to |chars|
      invariant forall j | 0 <= j < i :: table[j] == CharOf(j)
      invariant forall j | 0 <= j < i :: CharOf(j) in codes
      invariant forall c | c in codes :: Some(codes[c]) == CodeOf(c)
    {
      var letter := chars[i];
      CodeOfCharOf(i);
      codes := codes[letter := i];
      table[i] := letter;
    }
    forall c | IsEncodable(c)
      ensures c in codes
    {
      CharOfCodeOf(c);
    }
  }

  class EncodingManager {
    var charToCode: map<char, nat>
    const codeToChar: array<char>

    /** The two tables are the code function and its inverse. */
    ghost predicate Valid()
      reads this, codeToChar
    {
      && codeToChar.Length == 43
      && (forall k | 0 <= k < 43 :: codeToChar[k] == CharOf(k))
      && (forall c :: c in charToCode <==> IsEncodable(c))
      && (forall c | c in charToCode :: Some(charToCode[c]) == CodeOf(c))
    }

    /** Builds both tables from `allCharacters`. */
    constructor()
      ensures Valid()
    {
      TableIsClosedForm();
      var table, codes := BuildTables(AllCharacters);
      charToCode := codes;
      codeToChar := table;
    }

    /** `encode`: a fresh buffer holding the code of every character, or
        the first character the codec does not know. */
    method Encode(s: Option<string>) returns (r: Result<array<byte>, char>)
      requires Valid()
      ensures s.None? || s.value == [] ==> r.Success? && r.value.Length == 0
      ensures s.Some? && s.value != [] ==>
        (match EncodeAll(s.value)
         case Success(codes) => r.Success? && r.value[..] == codes
         case Failure(c) => r == Failure(c))
      ensures r.Success? ==> fresh(r.value)
    {
      if s.None? || s.value == [] {
        var empty := new byte[0];
        return Success(empty);
      }
      var str := s.value;
      var result := new byte[|str|];
      for i := 0 to |str|
        invariant forall j | 0 <= j < i :: IsEncodable(str[j])
        invariant forall j | 0 <= j < i :: result[j] as int == CodeOf(str[j]).value
      {
        var letter := str[i];
        if letter !in charToCode {
          EncodeAllFailsAt(str, i);
          return Failure(letter);
        }
        var code := charToCode[letter];
        result[i] := code as byte;
      }
      assert result[..] == EncodeAll(str).value;
      return Success(result);
    }

    /** `decodeOne`. */
    function DecodeOne(code: Option<int>): (r: Result<string, int>)
      requires Valid()
      reads this, codeToChar
      ensures r == DecodeCode(code)
    {
      match code
      case None => Success([])
      case Some(c) => if 0 <= c < codeToChar.Length then Success([codeToChar[c]]) else Failure(c)
    }
  }

  lemma EncodeAllFailsAt(s: string, i: nat)
    requires i < |s| && !IsEncodable(s[i])
    requires forall j | 0 <= j < i :: IsEncodable(s[j])
    ensures EncodeAll(s) == Failure(s[i])
  {
    var f := FirstUnknown(s, 0);
    assert f.Some? && f.value == i;
  }
}
