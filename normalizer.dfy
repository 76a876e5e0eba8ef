/** The `KashmiriNormalizer` pipeline: canonicalization, digit conversion,
    punctuation spacing, optional diacritic removal, and for post-processing the
    final-letter rule. Every stage is a pure string-to-string function. */
module Normalizer {
  import opened Tables
  import opened Replacer
  import opened PunctuationSpacing
  import opened PlatYe

  /** `_canonicalize`: the character table, then the punctuation table. Text in
      which no variant of either table occurs is already canonical and comes
      back unchanged. */
  function Canonicalize(text: string, c: Config): (r: string)
    requires TablesWellFormed(c)
    ensures NoVariantOccurs(c.characterMapping, text) && NoVariantOccurs(c.punctuationMap, text) ==> r == text
  {
    var r := Replaced(Replaced(text, c.characterMapping), c.punctuationMap);
    assert NoVariantOccurs(c.characterMapping, text) && NoVariantOccurs(c.punctuationMap, text) ==> r == text by {
      if NoVariantOccurs(c.characterMapping, text) && NoVariantOccurs(c.punctuationMap, text) {
        ReplacedNoOccurrence(text, c.characterMapping);
        ReplacedNoOccurrence(text, c.punctuationMap);
      }
    }
    r
  }

  /** `_replace_digits`: `toEnglish` selects `ENG_KASHMIRI_DIGITS_MAP`, its
      negation `KASHMIRI_ENG_DIGITS_MAP`. A text in which no digit of the
      selected table occurs comes back unchanged. */
  function ReplaceDigits(text: string, c: Config, toEnglish: bool): (r: string)
    requires TablesWellFormed(c)
    ensures toEnglish && NoVariantOccurs(c.engKashmiriDigits, text) ==> r == text
    ensures !toEnglish && NoVariantOccurs(c.kashmiriEngDigits, text) ==> r == text
  {
    var table := if !toEnglish then c.kashmiriEngDigits else c.engKashmiriDigits;
    var r := Replaced(text, table);
    assert NoVariantOccurs(table, text) ==> r == text by {
      if NoVariantOccurs(table, text) {
        ReplacedNoOccurrence(text, table);
      }
    }
    r
  }

  // ---------------------------------------------------------------------------
  // Diacritic removal: the table `{"": list(KASHMIRI_DIACRITICS)}`.
  // ---------------------------------------------------------------------------

  /** `list(KASHMIRI_DIACRITICS)`: each diacritic as a one-character variant. */
  function DiacriticVariants(d: seq<char>): (vs: seq<string>)
    ensures forall v :: v in vs <==> |v| == 1 && v[0] in d
  {
    var vs := seq(|d|, i requires 0 <= i < |d| => [d[i]]);
    assert forall v :: |v| == 1 && v[0] in d ==> v in vs by {
      forall v | |v| == 1 && v[0] in d ensures v in vs {
        var i :| 0 <= i < |d| && d[i] == v[0];
        assert vs[i] == v;
      }
    }
    vs
  }

  /** The degenerate table that maps every diacritic to the empty string. */
  function DiacriticTable(d: seq<char>): (t: Table)
    ensures WellFormed(t)
  {
    [Entry("", DiacriticVariants(d))]
  }

  /** How many characters of `text` are diacritics. */
  function Occurrences(text: string, d: seq<char>): nat
    decreases |text|
  {
    if text == [] then 0
    else (if text[0] in d then 1 else 0) + Occurrences(text[1..], d)
  }

  /** The text with its diacritics deleted and every other character kept, in
      order. */
  function Stripped(text: string, d: seq<char>): (r: string)
    ensures |r| == |text| - Occurrences(text, d)
    ensures forall k :: 0 <= k < |r| ==> r[k] !in d
    decreases |text|
  {
    if text == [] then []
    else
      var rest := Stripped(text[1..], d);
      if text[0] in d then rest
      else
        assert forall k :: 1 <= k < |rest| + 1 ==> ([text[0]] + rest)[k] == rest[k - 1];
        [text[0]] + rest
  }

  /** The flattened diacritic table: every one-character diacritic string, each
      mapped to the empty string. */
  lemma DiacriticLookup(d: seq<char>, v: string)
    ensures v in Flattened(DiacriticTable(d)).entries <==> |v| == 1 && v[0] in d
    ensures v in Flattened(DiacriticTable(d)).entries ==> Flattened(DiacriticTable(d)).entries[v] == []
  {
    var t := DiacriticTable(d);
    FlattenedLookup(t, v);
    if v in Flattened(t).entries {
      var i :| LastListedAt(t, v, i) && Flattened(t).entries[v] == t[i].canonical;
    }
  }

  /** The substitution engine run with the diacritic table deletes exactly the
      diacritics. */
  lemma {:induction false} DiacriticScan(text: string, d: seq<char>)
    ensures Replaced(text, DiacriticTable(d)) == Stripped(text, d)
    decreases |text|
  {
    var t := DiacriticTable(d);
    var lookup := Flattened(t).entries;
    if text != [] {
      ReplacedStep(text, t);
      DiacriticScan(text[1..], d);
      if text[0] in d {
        var v := [text[0]];
        DiacriticLookup(d, v);
        assert LongestAt(lookup, text, v) by {
          forall w | w in lookup && w <= text ensures |w| <= |v| {
            DiacriticLookup(d, w);
          }
        }
      } else {
        forall w | w in lookup ensures !(w <= text) {
          DiacriticLookup(d, w);
        }
      }
    }
  }

  /** `_removeDiacritics`: deletes every diacritic and nothing else, so the text
      shrinks by exactly the number of diacritics it held. */
  function RemoveDiacritics(text: string, c: Config): (r: string)
    ensures r == Stripped(text, c.diacritics)
    ensures |r| == |text| - Occurrences(text, c.diacritics)
  {
    DiacriticScan(text, c.diacritics);
    Replaced(text, DiacriticTable(c.diacritics))
  }

  // ---------------------------------------------------------------------------
  // The two entry points.
  // ---------------------------------------------------------------------------

  /** `normalize(text, removeDiacritics)`. */
  function Normalize(text: string, c: Config, removeDiacritics: bool): (r: string)
    requires TablesWellFormed(c)
    ensures removeDiacritics ==> forall k :: 0 <= k < |r| ==> r[k] !in c.diacritics
  {
    var canonical := Canonicalize(text, c);
    var digits := ReplaceDigits(canonical, c, true);
    var spaced := PunctuationSpaces(digits, c.punctuations, c.isSpace);
    if removeDiacritics then RemoveDiacritics(spaced, c) else spaced
  }

  /** `PostNormalize(text)`. */
  function PostNormalize(text: string, c: Config): (r: string)
    requires TablesWellFormed(c)
    ensures |r| == |Normalize(text, c, false)|
  {
    HandlePlatYe(Normalize(text, c, false), c.isWordChar)
  }

  /** The order of the stages: the character table, the punctuation table and the
      digit table towards Latin digits, then punctuation spacing; diacritic
      removal comes last and only on request; post-normalization is
      normalization without diacritic removal followed by the final-letter rule. */
  lemma NormalizeStages(text: string, c: Config)
    requires TablesWellFormed(c)
    ensures Normalize(text, c, false) == PunctuationSpaces(
      Replaced(Replaced(Replaced(text, c.characterMapping), c.punctuationMap), c.engKashmiriDigits),
      c.punctuations, c.isSpace)
    ensures Normalize(text, c, true) == Stripped(Normalize(text, c, false), c.diacritics)
    ensures PostNormalize(text, c) == HandlePlatYe(Normalize(text, c, false), c.isWordChar)
  {
  }

  /** Without diacritic removal, and when the space is not punctuation, the
      output obeys both spacing rules, and spacing it again changes nothing. */
  lemma NormalizeSpacing(text: string, c: Config)
    requires TablesWellFormed(c) && ' ' !in c.punctuations
    ensures TightBefore(Normalize(text, c, false), c.punctuations, c.isSpace)
    ensures SpacedAfter(Normalize(text, c, false), c.punctuations)
    ensures PunctuationSpaces(Normalize(text, c, false), c.punctuations, c.isSpace) == Normalize(text, c, false)
  {
    var digits := ReplaceDigits(Canonicalize(text, c), c, true);
    PunctuationSpacesRules(digits, c.punctuations, c.isSpace);
    PunctuationSpacesFixed(Normalize(text, c, false), c.punctuations, c.isSpace);
  }

  /** What the final-letter rule needs to keep the spacing rules: neither of its
      two letters is punctuation, and the class `\s` treats them alike. */
  predicate LettersNeutral(c: Config)
  {
    && Yeh !in c.punctuations && KashmiriYeh !in c.punctuations
    && c.isSpace(Yeh) == c.isSpace(KashmiriYeh)
  }

  /** The final-letter rule swaps one letter for another that is equally
      punctuation and whitespace, so it keeps both spacing rules. */
  lemma PlatYeKeepsSpacing(t: string, c: Config)
    requires LettersNeutral(c)
    requires TightBefore(t, c.punctuations, c.isSpace) && SpacedAfter(t, c.punctuations)
    ensures TightBefore(HandlePlatYe(t, c.isWordChar), c.punctuations, c.isSpace)
    ensures SpacedAfter(HandlePlatYe(t, c.isWordChar), c.punctuations)
  {
    var r := HandlePlatYe(t, c.isWordChar);
    assert forall j :: 0 <= j < |t| ==>
      && (r[j] in c.punctuations <==> t[j] in c.punctuations)
      && (c.isSpace(r[j]) <==> c.isSpace(t[j]))
      && (OpensWord(r[j], c.punctuations) <==> OpensWord(t[j], c.punctuations));
  }

  /** Post-normalized text obeys both spacing rules too. */
  lemma PostNormalizeSpacing(text: string, c: Config)
    requires TablesWellFormed(c) && ' ' !in c.punctuations && LettersNeutral(c)
    ensures TightBefore(PostNormalize(text, c), c.punctuations, c.isSpace)
    ensures SpacedAfter(PostNormalize(text, c), c.punctuations)
  {
    NormalizeSpacing(text, c);
    PlatYeKeepsSpacing(Normalize(text, c, false), c);
  }
}
