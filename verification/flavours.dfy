/** The flavour configurations of the later engine: a prefix, the vowel a
    stressed vowel pairs with, the vowel an unstressed one pairs with, and
    the prefix for one-syllable words. The engine that consumes them is not
    part of this model; only the constant data is. */
module Flavours {
  import opened Alphabet
  import Reduplicator

  datatype Flavour = Flavour(
    prefix: string,
    stressedVowelPairs: map<char, char>,
    defaultPairVowel: char,
    oneSyllableWordPrefix: string)

  /** The `ху` flavour. */
  const Hueficator: Flavour := Flavour(
    "ху",
    map['а' := 'я', 'е' := 'е', 'ё' := 'ё', 'и' := 'и', 'о' := 'ё',
        'у' := 'ю', 'ы' := 'и', 'э' := 'е', 'ю' := 'ю', 'я' := 'я'],
    'е',
    "хуе")

  /** The `хрен` flavour. */
  const Hrenoficator: Flavour := Flavour(
    "хрен",
    map['а' := 'а', 'е' := 'е', 'ё' := 'ё', 'и' := 'и', 'о' := 'о',
        'у' := 'у', 'ы' := 'ы', 'э' := 'э', 'ю' := 'ю', 'я' := 'я'],
    'о',
    "хрено")

  /** A usable configuration: the pair table is total over the ten vowels
      and maps into vowels, the default pair is a vowel, and the
      one-syllable prefix is the prefix followed by the default pair. */
  predicate WellFormed(f: Flavour) {
    && (forall v :: v in f.stressedVowelPairs <==> IsVowel(v))
    && (forall v | v in f.stressedVowelPairs :: IsVowel(f.stressedVowelPairs[v]))
    && IsVowel(f.defaultPairVowel)
    && f.oneSyllableWordPrefix == f.prefix + [f.defaultPairVowel]
  }

  lemma HueficatorIsWellFormed()
    ensures WellFormed(Hueficator)
    ensures Hueficator.oneSyllableWordPrefix == "ху" + "е"
  {
  }

  /** The `хрен` flavour is well formed; it pairs every vowel with itself. */
  lemma HrenoficatorIsWellFormed()
    ensures WellFormed(Hrenoficator)
    ensures Hrenoficator.oneSyllableWordPrefix == "хрен" + "о"
  {
    HrenoficatorPairsAreIdentity();
  }

  lemma HrenoficatorPairsAreIdentity()
    ensures forall v | v in Hrenoficator.stressedVowelPairs :: Hrenoficator.stressedVowelPairs[v] == v
    ensures forall v :: v in Hrenoficator.stressedVowelPairs <==> IsVowel(v)
  {
  }

  /** The `хрен` prefix holds exactly one vowel, so the one-syllable prefix
      `хрено` holds two. */
  lemma HrenoficatorPrefixVowels(p: string)
    requires p == Hrenoficator.prefix
    ensures Reduplicator.SyllableCount(p) == 1
    ensures Reduplicator.SyllableCount(p + [Hrenoficator.defaultPairVowel]) == 2
  {
    assert p == ['х', 'р', 'е', 'н'];
    assert Reduplicator.VowelsFrom(p, 2) == 1;
    Reduplicator.SyllableCountAppend(p, ['о']);
    assert Reduplicator.VowelsFrom(['о'], 0) == 1;
  }

  /** The `ху` flavour carries exactly the constants of the first engine. */
  lemma HueficatorMatchesFirstEngine()
    ensures Hueficator.prefix == Reduplicator.Prefix
    ensures Hueficator.stressedVowelPairs == Reduplicator.StressedVowelPairs
    ensures Hueficator.oneSyllableWordPrefix == Reduplicator.SingleSyllableWordPrefix
    ensures forall v | IsVowel(v) :: Reduplicator.DefaultVowelPairs[v] == Hueficator.defaultPairVowel
  {
  }
}
