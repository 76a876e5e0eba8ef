/** The data the normalizer is driven by: the equivalence tables and character
    sets of the constants module, and the Unicode character classes `\w` and `\s`
    of the regular-expression engine. None of their contents are modelled; they
    are parameters of every operation. */
module Tables {

  /** One item of an equivalence table: every string in `variants` is to be
      rewritten to `canonical`. */
  datatype Entry = Entry(canonical: string, variants: seq<string>)

  /** An equivalence table, in the iteration order of the dictionary it models. */
  type Table = seq<Entry>

  /** The model of the substitution engine covers non-empty variants only; what
      the regular-expression engine does with an empty alternative is not
      modelled. */
  predicate WellFormed(t: Table)
  {
    forall i, v :: 0 <= i < |t| && v in t[i].variants ==> v != []
  }

  /** `v` is listed as a variant by some entry of `t`. */
  ghost predicate Listed(t: Table, v: string)
  {
    exists i :: 0 <= i < |t| && v in t[i].variants
  }

  /** `v` is listed by entry `i` of `t` and by no later entry. */
  ghost predicate LastListedAt(t: Table, v: string, i: int)
  {
    && 0 <= i < |t|
    && v in t[i].variants
    && forall j :: i < j < |t| ==> v !in t[j].variants
  }

  /** Everything the normalizer reads besides its input text. */
  datatype Config = Config(
    characterMapping: Table,   // KASHMIRI_CHARACTER_MAPPING
    punctuationMap: Table,     // PUNCTUATION_MAP
    kashmiriEngDigits: Table,  // KASHMIRI_ENG_DIGITS_MAP
    engKashmiriDigits: Table,  // ENG_KASHMIRI_DIGITS_MAP
    punctuations: set<char>,   // KASHMIRI_PUNCTUATIONS
    diacritics: seq<char>,     // KASHMIRI_DIACRITICS
    isWordChar: char -> bool,  // the class \w
    isSpace: char -> bool)     // the class \s

  /** All four tables can be handed to the substitution engine. */
  predicate TablesWellFormed(c: Config)
  {
    && WellFormed(c.characterMapping)
    && WellFormed(c.punctuationMap)
    && WellFormed(c.kashmiriEngDigits)
    && WellFormed(c.engKashmiriDigits)
  }
}
