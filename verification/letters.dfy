/** Letter normalisation: lower-casing and the table of accented letters (remap_letter). */
module Letters {

  /** `c in ascii_lowercase` for a one-character string. */
  predicate IsAsciiLower(c: char) { 'a' <= c <= 'z' }

  predicate IsAsciiUpper(c: char) { 'A' <= c <= 'Z' }

  /** KELVIN SIGN, the one character outside ASCII whose lower-case form is an ASCII letter. */
  const KelvinSign: char := '\U{212A}'

  /** ANGSTROM SIGN, whose lower-case form is the table key 'å'. */
  const AngstromSign: char := '\U{212B}'

  /** Capitals outside Latin-1 whose lower-case form is a table key: Ĩ, Ũ and Ẽ. */
  predicate IsExtendedCapital(c: char) {
    c == '\U{0128}' || c == '\U{0168}' || c == '\U{1EBC}'
  }

  /** Capitals of the Latin-1 supplement, À to Þ without the multiplication sign. */
  predicate IsLatin1Capital(c: char) {
    '\U{00C0}' <= c <= '\U{00DE}' && c != '\U{00D7}'
  }

  /**
   * `str.lower()` on one character, for every character whose lower-case form is an
   * ASCII letter or a key of MappedLetters. Any other character stands for itself.
   */
  function Lower(c: char): (l: char)
    ensures IsAsciiLower(l) <==> IsAsciiLower(c) || IsAsciiUpper(c) || c == KelvinSign
    ensures IsAsciiUpper(c) ==> l as int == c as int + 32
    ensures (!IsAsciiUpper(c) && !IsLatin1Capital(c) && !IsExtendedCapital(c)
             && c != KelvinSign && c != AngstromSign) ==> l == c
  {
    if IsAsciiUpper(c) || IsLatin1Capital(c) then (c as int + 32) as char
    else if IsExtendedCapital(c) then (c as int + 1) as char
    else if c == KelvinSign then 'k'
    else if c == AngstromSign then '\U{00E5}'
    else c
  }

  /** The accented letters and ç with the base letter each one stands for. */
  const MappedLetters: map<char, char> := map[
    '\U{00E1}' := 'a', // á
    '\U{00E2}' := 'a', // â
    '\U{00E3}' := 'a', // ã
    '\U{00E0}' := 'a', // à
    '\U{00E4}' := 'a', // ä
    '\U{00E5}' := 'a', // å
    '\U{00E9}' := 'e', // é
    '\U{00EA}' := 'e', // ê
    '\U{1EBD}' := 'e', // ẽ
    '\U{00E8}' := 'e', // è
    '\U{00ED}' := 'i', // í
    '\U{00EE}' := 'i', // î
    '\U{0129}' := 'i', // ĩ
    '\U{00EC}' := 'i', // ì
    '\U{00F3}' := 'o', // ó
    '\U{00F4}' := 'o', // ô
    '\U{00F5}' := 'o', // õ
    '\U{00F2}' := 'o', // ò
    '\U{00F6}' := 'o', // ö
    '\U{00FA}' := 'u', // ú
    '\U{00FB}' := 'u', // û
    '\U{0169}' := 'u', // ũ
    '\U{00F9}' := 'u', // ù
    '\U{00FC}' := 'u', // ü
    '\U{00E7}' := 'c'  // ç
  ]

  /** Small letters of the Latin-1 supplement, à to þ without the division sign. */
  predicate IsLatin1Small(c: char) {
    '\U{00E0}' <= c <= '\U{00FE}' && c != '\U{00F7}'
  }

  /** Every table key is a Latin-1 small letter or one of ĩ, ũ and ẽ. */
  lemma TableKeys(k: char)
    requires k in MappedLetters
    ensures IsLatin1Small(k) || k == '\U{0129}' || k == '\U{0169}' || k == '\U{1EBD}'
  {
  }

  /** The capital form of a table key. */
  function Capital(k: char): (u: char)
    requires k in MappedLetters
    ensures Lower(u) == k
  {
    TableKeys(k);
    if k == '\U{0129}' || k == '\U{0169}' || k == '\U{1EBD}' then (k as int - 1) as char
    else (k as int - 32) as char
  }

  /** Lower-case the letter, then replace it by its base letter when it is a table key. */
  function RemapLetter(letter: char): (r: char)
    ensures IsAsciiLower(letter) ==> r == letter
    ensures IsAsciiUpper(letter) ==> r as int == letter as int + 32
    ensures letter in MappedLetters ==> r == MappedLetters[letter]
    ensures IsAsciiLower(r) <==> IsAsciiLower(Lower(letter)) || Lower(letter) in MappedLetters
  {
    var lowered := Lower(letter);
    if lowered in MappedLetters then MappedLetters[lowered] else lowered
  }

  /** A table key lowers to itself, so it and its capital both remap to its base letter. */
  lemma RemapKey(k: char)
    requires k in MappedLetters
    ensures RemapLetter(k) == MappedLetters[k] && RemapLetter(Capital(k)) == MappedLetters[k]
  {
    TableKeys(k);
    assert Lower(k) == k;
  }

  /** Every table key is mapped to its base letter in either case. */
  lemma RemapTable()
    ensures forall k | k in MappedLetters ::
      RemapLetter(k) == MappedLetters[k] && RemapLetter(Capital(k)) == MappedLetters[k]
    ensures RemapLetter(AngstromSign) == 'a' && RemapLetter(KelvinSign) == 'k'
  {
    forall k | k in MappedLetters
      ensures RemapLetter(k) == MappedLetters[k] && RemapLetter(Capital(k)) == MappedLetters[k]
    {
      RemapKey(k);
    }
    RemapSigns();
  }

  /** The Angstrom sign lowers to the key å and the Kelvin sign to k. */
  lemma RemapSigns()
    ensures RemapLetter(AngstromSign) == 'a' && RemapLetter(KelvinSign) == 'k'
  {
    assert Lower(AngstromSign) == '\U{00E5}';
  }

  /** The characters that RemapLetter turns into a letter a..z are exactly the ASCII letters,
      the table keys, their capitals, and the two letter-like symbols. */
  lemma RemapLetterIsLetter(c: char)
    ensures IsAsciiLower(RemapLetter(c)) <==>
      IsAsciiLower(c) || IsAsciiUpper(c) || c in MappedLetters
      || (exists k | k in MappedLetters :: c == Capital(k))
      || c == KelvinSign || c == AngstromSign
  {
    if IsLatin1Capital(c) && Lower(c) in MappedLetters {
      assert c == Capital(Lower(c));
    } else if IsExtendedCapital(c) {
      assert c == Capital(Lower(c));
    }
  }
}
