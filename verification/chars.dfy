/**
 * Character classes used by the normalizer, the tokenizer and the trimming of documents.
 * The application relies on Python's Unicode tables: `str.isspace` (shared by the regex class
 * `\s`, `str.split()` and `str.strip()`) and `str.lower()`.
 */
module Chars {

  /** LATIN CAPITAL LETTER I WITH DOT ABOVE: the one character whose lower-case form is two characters. */
  const DottedCapitalI: char := '\U{0130}'
  /** COMBINING DOT ABOVE, the second character of the lower-case form of `DottedCapitalI`. */
  const CombiningDot: char := '\U{0307}'
  /** KELVIN SIGN, whose lower-case form is the Latin letter 'k'. */
  const KelvinSign: char := '\U{212A}'

  /** Python's whitespace: the characters for which `str.isspace()` holds. */
  predicate IsSpace(c: char) {
    || ('\t' <= c <= '\r')
    || ('\U{1C}' <= c <= '\U{1F}')
    || c == ' '
    || c == '\U{85}'
    || c == '\U{A0}'
    || c == '\U{1680}'
    || ('\U{2000}' <= c <= '\U{200A}')
    || c == '\U{2028}'
    || c == '\U{2029}'
    || c == '\U{202F}'
    || c == '\U{205F}'
    || c == '\U{3000}'
  }

  /** Lower-case Cyrillic 'а' through 'я' (U+0430 to U+044F). */
  predicate IsCyrillicLower(c: char) {
    '\U{0430}' <= c <= '\U{044F}'
  }

  /** The character class `[a-zа-яё0-9\s]` that survives normalization. */
  predicate IsAllowed(c: char) {
    || ('a' <= c <= 'z')
    || IsCyrillicLower(c)
    || c == '\U{0451}'
    || ('0' <= c <= '9')
    || IsSpace(c)
  }

  /** Characters whose lower-case form lies in the allowed class although they do not. */
  predicate FoldsIntoAlphabet(c: char) {
    || ('A' <= c <= 'Z')
    || ('\U{0410}' <= c <= '\U{042F}')
    || c == '\U{0401}'
    || c == KelvinSign
  }

  /** Latin capitals `A` to `Z` and the Cyrillic capitals U+0400 to U+042F. */
  predicate IsCapital(c: char) {
    ('A' <= c <= 'Z') || ('\U{0400}' <= c <= '\U{042F}')
  }

  /**
   * Upper-case form of the lower-case letters `a`-`z` and U+0430 to U+045F, written from the other side
   * of the Unicode case tables: `a`-`z` (U+0061..), `а`-`я` (U+0430..) and `ѐ`-`џ` (U+0450..)
   * become U+0041.., U+0410.. and U+0400..; every other character is returned unchanged.
   */
  function UpperChar(c: char): char {
    if 'a' <= c <= 'z' then (c as int - 0x20) as char
    else if '\U{0430}' <= c <= '\U{044F}' then (c as int - 0x20) as char
    else if '\U{0450}' <= c <= '\U{045F}' then (c as int - 0x50) as char
    else c
  }

  /**
   * Single-character lower-casing. Exact for `A`-`Z`, U+0400 to U+042F and the Kelvin sign;
   * every other character is returned unchanged.
   */
  function LowerChar(c: char): (r: char)
    ensures IsAllowed(r) <==> IsAllowed(c) || FoldsIntoAlphabet(c)
    ensures IsAllowed(c) ==> r == c
    ensures r == DottedCapitalI <==> c == DottedCapitalI
    ensures IsCapital(c) ==> r != c && UpperChar(r) == c
    ensures c == KelvinSign ==> r == 'k'
    ensures !IsCapital(r) && r != KelvinSign
  {
    if 'A' <= c <= 'Z' then (c as int + 32) as char
    else if '\U{0410}' <= c <= '\U{042F}' then (c as int + 0x20) as char
    else if '\U{0400}' <= c <= '\U{040F}' then (c as int + 0x50) as char
    else if c == KelvinSign then 'k'
    else c
  }

  /**
   * Every lower-case letter of the kept alphabet is the lower-case form of its capital, so
   * together with `LowerChar`'s contract each capital goes to its own letter and to no other.
   */
  lemma {:induction false} LowerCharOnto(c: char)
    requires ('a' <= c <= 'z') || IsCyrillicLower(c) || c == '\U{0451}'
    ensures IsCapital(UpperChar(c)) && LowerChar(UpperChar(c)) == c
  {
  }

  lemma {:induction false} LowerCharIdempotent(c: char)
    ensures LowerChar(LowerChar(c)) == LowerChar(c)
  {
  }
}
