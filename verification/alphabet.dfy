/** The static letter tables of the Russian alphabet: vowels, consonants
    and all 33 letters. */
module Alphabet {

  const Vowels: seq<char> := "аеёиоуыэюя"
  const Consonants: seq<char> := "бвгджзйклмнпрстфхцчшщ"
  const AllLetters: seq<char> := "абвгдеёжзийклмнопрстуфхцчшщъыьэюя"

  /** Membership in the vowel table (`new Set(vowels).has(c)`), written
      out letter by letter; `VowelTestMatchesTable` ties it to the table. */
  predicate IsVowel(c: char) {
    c == 'а' || c == 'е' || c == 'ё' || c == 'и' || c == 'о' ||
    c == 'у' || c == 'ы' || c == 'э' || c == 'ю' || c == 'я'
  }

  /** Membership in the consonant table, written out letter by letter. */
  predicate IsConsonant(c: char) {
    c == 'б' || c == 'в' || c == 'г' || c == 'д' || c == 'ж' || c == 'з' || c == 'й' ||
    c == 'к' || c == 'л' || c == 'м' || c == 'н' || c == 'п' || c == 'р' || c == 'с' ||
    c == 'т' || c == 'ф' || c == 'х' || c == 'ц' || c == 'ч' || c == 'ш' || c == 'щ'
  }

  /** Membership in the full alphabet: the range `а`..`я` and `ё`. */
  predicate IsAlphabetLetter(c: char) {
    'а' <= c <= 'я' || c == 'ё'
  }

  lemma VowelTestMatchesTable(c: char)
    ensures IsVowel(c) <==> c in Vowels
  {
  }

  lemma ConsonantTestMatchesTable(c: char)
    ensures IsConsonant(c) <==> c in Consonants
  {
  }

  lemma LetterTestMatchesTable(c: char)
    ensures IsAlphabetLetter(c) <==> c in AllLetters
  {
  }

  predicate Distinct(s: seq<char>) {
    forall i, j | 0 <= i < j < |s| :: s[i] != s[j]
  }

  /** Each getter hands out a fresh copy (`slice()`), so whatever a caller
      does to the array it receives cannot reach the table. */
  method GetVowels() returns (a: array<char>)
    ensures fresh(a) && a[..] == Vowels
  {
    a := new char[|Vowels|](i requires 0 <= i < |Vowels| => Vowels[i]);
  }

  method GetConsonants() returns (a: array<char>)
    ensures fresh(a) && a[..] == Consonants
  {
    a := new char[|Consonants|](i requires 0 <= i < |Consonants| => Consonants[i]);
  }

  method GetAll() returns (a: array<char>)
    ensures fresh(a) && a[..] == AllLetters
  {
    a := new char[|AllLetters|](i requires 0 <= i < |AllLetters| => AllLetters[i]);
  }

  /** Each character of the table is above the one before it. */
  predicate Increasing(s: seq<char>) {
    forall i | 0 < i < |s| :: s[i - 1] < s[i]
  }

  lemma {:induction false} IncreasingApart(s: seq<char>, i: nat, j: nat)
    requires Increasing(s) && i < j < |s|
    ensures s[i] < s[j]
    decreases j - i
  {
    if i + 1 < j {
      IncreasingApart(s, i + 1, j);
    }
  }

  lemma IncreasingIsDistinct(s: seq<char>)
    requires Increasing(s)
    ensures Distinct(s)
  {
    forall i, j | 0 <= i < j < |s|
      ensures s[i] != s[j]
    {
      IncreasingApart(s, i, j);
    }
  }

  /** Ten distinct vowels and 21 distinct consonants. */
  lemma VowelTableSize()
    ensures |Vowels| == 10 && Distinct(Vowels)
    ensures |Consonants| == 21 && Distinct(Consonants)
  {
    assert Increasing(Consonants);
    IncreasingIsDistinct(Consonants);
  }

  /** Vowels and consonants are disjoint and both lie inside the alphabet. */
  lemma TablesAreDisjoint(c: char)
    ensures !(IsVowel(c) && IsConsonant(c))
    ensures IsVowel(c) || IsConsonant(c) ==> IsAlphabetLetter(c)
  {
  }

  /** The two signs `ъ` and `ь` are the only letters that are neither vowel
      nor consonant. */
  lemma SignsAreUnclassified(c: char)
    ensures IsAlphabetLetter(c) && !IsVowel(c) && !IsConsonant(c) <==> c == 'ъ' || c == 'ь'
  {
  }
}
