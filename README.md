# KashmiriNormalizer in Dafny

This project models `KashmiriNormalizer`, a rule-based normalizer for Kashmiri
text in Perso-Arabic script. The model covers the whole pipeline:

- **substitution engine** (`_replace`): turns an equivalence table
  (canonical form -> variants) into a variant -> canonical lookup, sorts the
  variants longest first, and rewrites every match in one left-to-right
  regular-expression pass;
- **canonicalization**: the character table, then the punctuation table;
- **digit conversion**: one of two digit tables, chosen by a flag;
- **punctuation spacing**, in two regular-expression passes:
  - insert a space after punctuation;
  - delete whitespace before punctuation;
- **optional diacritic removal**, done with a degenerate table that maps every
  diacritic to the empty string;
- **final-letter rule** (post-normalization only): rewrites U+0620 at a word
  boundary to U+06CD.

The modules follow the program's structure:

| file | module | models |
|---|---|---|
| `tables.dfy` | `Tables` | the tables and character classes the normalizer reads (all abstract parameters, collected in `Config`) |
| `replacer.dfy` | `Replacer` | `_replace` |
| `punctuation.dfy` | `PunctuationSpacing` | `_punctuation_spaces` |
| `plat_ye.dfy` | `PlatYe` | `_handlePlatYe` |
| `normalizer.dfy` | `Normalizer` | `_canonicalize`, `_replace_digits`, `_removeDiacritics`, `normalize`, `PostNormalize` |

`_replace` is written two ways:

- `Replacer.Replace` is a method that builds the dictionary in the source's nested loop.
- `Replacer.Replaced` is the function it is proved equal to. The pure compositions of `Normalizer` use this function.

Python's dictionary is modelled as a key order plus a map. Assigning to an
existing key keeps its place and replaces its value.

The regular-expression alternation is leftmost-first (`FirstMatch`). `regex.sub`
cuts the text into copied characters and replaced matches (`Pieces`), then
renders them (`Render`). The reference definition is the longest-match
segmentation, `Segmentation`. The scan is proved to be that segmentation, and
the segmentation is proved unique.

Pass two's `\s+(P)` is modelled with the backtracking of the greedy `\s+`
(`SpaceRun`, `Backtrack`). When no punctuation character is whitespace, a match
is exactly a whole whitespace run followed by punctuation (`MatchAtRun`).

Where the documentation and the code disagree, the model follows the code:

- **Pass one's exemptions.** Pass one's lookahead `[^P0-9 \n]` exempts only the
  space and the line feed, not all whitespace. A tab after punctuation therefore
  gets a space inserted before it (`OpensWord`).
- **The final-letter rule.** The pattern `\bؠ|ؠ\b` rewrites U+0620 at the start
  of a word as well as at its end. The method's doc comment names only the final
  position.
- **Digit direction.** `_replace_digits` with `toEnglish` true applies
  `ENG_KASHMIRI_DIGITS_MAP`, and `normalize` uses that default. What the table
  contains is not part of this model.

## Model

| member | source | states |
|---|---|---|
| Replacer.Replace | src/KashmiriNormalizer/normalizer.py:14-38 | the nested loop builds exactly the flattened lookup, an empty lookup returns the text, otherwise the result is the longest-first scan `Replaced` |
| Replacer.Replaced | src/KashmiriNormalizer/normalizer.py:21-37 | the output of `_replace` is the rendering of any longest-match segmentation of the text over the flattened lookup: each longest matching variant becomes its canonical form, every other character is copied |
| Replacer.Assign | src/KashmiriNormalizer/normalizer.py:19 | after `d[k] = v`, `k` maps to `v`, every other key keeps its value, a new key is appended to the order, an existing key keeps its place, and a duplicate-free order stays duplicate-free |
| Replacer.AssignAll | src/KashmiriNormalizer/normalizer.py:18-19 | after assigning every variant to the key, the keys are the old keys plus the variants, each variant maps to the key, other keys keep their values, and the order stays duplicate-free |
| Replacer.Flattened | src/KashmiriNormalizer/normalizer.py:16-19 | the flattened dictionary's order lists each key exactly once, and no key is empty when no variant is empty |
| Replacer.FlattenedKeys | src/KashmiriNormalizer/normalizer.py:16-19 | a string is a key of the flattened lookup if and only if some entry of the table lists it |
| Replacer.FlattenedLast | src/KashmiriNormalizer/normalizer.py:16-19 | a key maps to the canonical form of the last entry (in iteration order) that lists it |
| Replacer.FlattenedLookup | src/KashmiriNormalizer/normalizer.py:16-19 | both halves together: the keys are exactly the listed variants, each mapped to its last listing's canonical form |
| Replacer.SortByLength | src/KashmiriNormalizer/normalizer.py:23 | the sorted keys are a permutation of the keys (same multiset, same members), longest first |
| Replacer.InsertByLengthSorted | src/KashmiriNormalizer/normalizer.py:23 | inserting by length into a longest-first sequence keeps it longest first |
| Replacer.FirstMatch | src/KashmiriNormalizer/normalizer.py:25-27 | a match is an alternative that is a prefix of the text; no match means no alternative is a prefix |
| Replacer.FirstMatchIsLongest | src/KashmiriNormalizer/normalizer.py:22-25 | over a longest-first alternation the leftmost-first match is a longest matching alternative, so a longer variant is never split by a shorter one |
| Replacer.Pieces | src/KashmiriNormalizer/normalizer.py:35-37 | the scan's pieces concatenate back to the input and every replaced piece is a variant |
| Replacer.PiecesSegment | src/KashmiriNormalizer/normalizer.py:23-37 | the scan over the longest-first alternation is the longest-match segmentation of the text |
| Replacer.SegmentationUnique | src/KashmiriNormalizer/normalizer.py:35-37 | a text has at most one longest-match segmentation, so the scan is fully determined |
| Replacer.SegmentationSource | src/KashmiriNormalizer/normalizer.py:35-37 | a segmentation covers the text exactly, so unmatched characters are copied verbatim and in order, and every replaced piece has a lookup entry |
| Replacer.SegmentationExists | src/KashmiriNormalizer/normalizer.py:35-37 | every text has a longest-match segmentation |
| Replacer.RenderWithoutKeys | src/KashmiriNormalizer/normalizer.py:31-32 | with an empty lookup the only segmentation renders the text unchanged |
| Replacer.ReplacedStep | src/KashmiriNormalizer/normalizer.py:35-37 | at the front a longest matching variant becomes its canonical form and the scan resumes after the match on the input, so replacement text is never rescanned; with no match the first character is copied |
| Replacer.ReplacedMatchStep | src/KashmiriNormalizer/normalizer.py:35-36 | when the alternation matches at the front, the text starts with a key, and the output is that key's canonical form followed by the scan of the rest |
| Replacer.ReplacedCopyStep | src/KashmiriNormalizer/normalizer.py:35-37 | when the alternation matches nothing at the front, no key starts the text and its first character is copied |
| Replacer.ReplacedNoOccurrence | src/KashmiriNormalizer/normalizer.py:21-37 | if no variant occurs anywhere in the text, the output equals the input |
| Replacer.ReplacedNoVariants | src/KashmiriNormalizer/normalizer.py:21-32 | a table with no variants (for example an empty table) returns every text unchanged |
| Replacer.ReplacedVariant | src/KashmiriNormalizer/normalizer.py:16-37 | a variant on its own is rewritten to the canonical form of the last entry that lists it |
| PunctuationSpacing.InsertSpaces | src/KashmiriNormalizer/normalizer.py:44-52 | pass one keeps the first character, and afterwards every punctuation character is followed by the end, punctuation, an ASCII digit, a space or a line feed |
| PunctuationSpacing.InsertSpacesFixed | src/KashmiriNormalizer/normalizer.py:52 | pass one changes nothing in text that already has its spaces after punctuation |
| PunctuationSpacing.InsertSpacesVisible | src/KashmiriNormalizer/normalizer.py:44-52 | when the space is whitespace, pass one leaves the non-whitespace characters unchanged and in order |
| PunctuationSpacing.InsertSpacesEdits | src/KashmiriNormalizer/normalizer.py:44-52 | pass one only inserts spaces: deleting spaces from its output gives the input back, and the output is longer by exactly the number of boundaries with punctuation on the left and a word-opening character on the right |
| PunctuationSpacing.SpaceRun | src/KashmiriNormalizer/normalizer.py:49 | greedy `\s+` first takes the whole leading whitespace run, and the next character is not whitespace |
| PunctuationSpacing.Backtrack | src/KashmiriNormalizer/normalizer.py:49 | backtracking yields the longest prefix of the run that is followed by punctuation, or no match |
| PunctuationSpacing.MatchAt | src/KashmiriNormalizer/normalizer.py:49 | a match at the front is a non-empty whitespace prefix followed by punctuation; it is the longest such prefix, and 0 means there is none |
| PunctuationSpacing.MatchAtRun | src/KashmiriNormalizer/normalizer.py:49-50 | when punctuation and whitespace are disjoint, the pattern matches exactly when a whole whitespace run is followed by punctuation |
| PunctuationSpacing.RemoveSpaces | src/KashmiriNormalizer/normalizer.py:49-53 | pass two never empties a non-empty text |
| PunctuationSpacing.RemoveSpacesTight | src/KashmiriNormalizer/normalizer.py:49-53 | after pass two no whitespace character immediately precedes a punctuation character, for any punctuation set and whitespace class |
| PunctuationSpacing.RemoveSpacesSpacedAfter | src/KashmiriNormalizer/normalizer.py:52-53 | pass two keeps the property pass one established about what follows punctuation |
| PunctuationSpacing.RemoveSpacesFixed | src/KashmiriNormalizer/normalizer.py:53 | pass two changes nothing in text with no whitespace before punctuation |
| PunctuationSpacing.RemoveSpacesVisible | src/KashmiriNormalizer/normalizer.py:49-53 | pass two leaves the non-whitespace characters unchanged and in order |
| PunctuationSpacing.RemoveSpacesEdits | src/KashmiriNormalizer/normalizer.py:49-53 | pass two only deletes whitespace: its output is its input with some whitespace characters removed, all other characters kept in order |
| PunctuationSpacing.RemoveSpacesSplit | src/KashmiriNormalizer/normalizer.py:49-53 | no match of `\s+([P])` reaches across a point that whitespace does not end at: pass two of `a + b` is pass two of `a` followed by pass two of `b` whenever `a` is empty or ends in a non-whitespace character, for any punctuation set and whitespace class |
| PunctuationSpacing.RemoveSpacesKeeps | src/KashmiriNormalizer/normalizer.py:49-53 | pass two keeps a prefix that holds no punctuation and does not end in whitespace exactly as it is, and goes on with the rest as if the prefix were absent |
| PunctuationSpacing.PunctuationSpaces | src/KashmiriNormalizer/normalizer.py:40-54 | pass one, then pass two; the output never has whitespace right before punctuation (the other properties are in `PunctuationSpacesRules`, `PunctuationSpacesKeeps` and `PunctuationSpacesSplit`) |
| PunctuationSpacing.PunctuationSpacesRules | src/KashmiriNormalizer/normalizer.py:40-54 | the output of `_punctuation_spaces` has no whitespace before punctuation; when the space is not punctuation every punctuation character is followed by the end, punctuation, a digit, a space or a line feed; the edits are spaces inserted by pass one and whitespace deleted by pass two; when the space is whitespace the non-whitespace text is unchanged |
| PunctuationSpacing.PunctuationSpacesKeeps | src/KashmiriNormalizer/normalizer.py:40-54 | what pass two keeps: any prefix of pass one's output that holds no punctuation and does not end in whitespace appears unchanged at the front of the result, followed by pass two applied to the rest |
| PunctuationSpacing.PunctuationSpacesSplit | src/KashmiriNormalizer/normalizer.py:40-54 | cut pass one's output anywhere the left part is empty or ends in a non-whitespace character: the result is pass two of the left part followed by pass two of the right part, so, with `RemoveSpacesFixed`, every part that has no whitespace right before punctuation comes through unchanged |
| PunctuationSpacing.PunctuationSpacesFixed | src/KashmiriNormalizer/normalizer.py:40-54 | text that already obeys both spacing rules is returned unchanged |
| PunctuationSpacing.PunctuationSpacesIdempotent | src/KashmiriNormalizer/normalizer.py:52-53 | when the space is not punctuation, spacing punctuation twice gives the same text as spacing it once |
| PlatYe.HandlePlatYe | src/KashmiriNormalizer/normalizer.py:68-73 | the output has the length of the input |
| PlatYe.HandlePlatYeRule | src/KashmiriNormalizer/normalizer.py:71-73 | U+0620 with the text edge or a non-word character on at least one side becomes U+06CD; with word characters on both sides it stays; every other character is kept |
| PlatYe.HandlePlatYeIdempotent | src/KashmiriNormalizer/normalizer.py:71-73 | when both letters are word characters, applying the rule twice gives the same text as applying it once |
| Normalizer.Canonicalize | src/KashmiriNormalizer/normalizer.py:56-61 | the character table, then the punctuation table; text in which no variant of either table occurs comes back unchanged |
| Normalizer.ReplaceDigits | src/KashmiriNormalizer/normalizer.py:63-67 | the flag selects the digit table (`ENG_KASHMIRI_DIGITS_MAP` when true), and text with no digit of that table comes back unchanged |
| Normalizer.DiacriticVariants | src/KashmiriNormalizer/normalizer.py:77 | the variants of the diacritic table are exactly the one-character strings of the diacritics |
| Normalizer.DiacriticTable | src/KashmiriNormalizer/normalizer.py:77 | the diacritic table has no empty variant, so the substitution engine can use it |
| Normalizer.DiacriticLookup | src/KashmiriNormalizer/normalizer.py:77-78 | the flattened diacritic lookup maps exactly the one-character diacritics, each to the empty string |
| Normalizer.Stripped | src/KashmiriNormalizer/normalizer.py:75-78 | deleting the diacritics shortens the text by the number of diacritic occurrences and leaves no diacritic |
| Normalizer.DiacriticScan | src/KashmiriNormalizer/normalizer.py:75-78 | running the substitution engine on the diacritic table deletes exactly the diacritics and keeps every other character in order |
| Normalizer.RemoveDiacritics | src/KashmiriNormalizer/normalizer.py:75-78 | `_removeDiacritics` deletes exactly the diacritics, so the length drops by the number of diacritic occurrences |
| Normalizer.Normalize | src/KashmiriNormalizer/normalizer.py:80-101 | with the flag set, no diacritic remains in the output |
| Normalizer.NormalizeStages | src/KashmiriNormalizer/normalizer.py:95-118 | `normalize(t, false)` is punctuation spacing of the digit conversion toward Latin of the character and punctuation canonicalization; the flag adds diacritic removal last; `PostNormalize(t)` is the final-letter rule applied to `normalize(t, false)` |
| Normalizer.NormalizeSpacing | src/KashmiriNormalizer/normalizer.py:95-101 | when the space is not punctuation, the output of `normalize(t, false)` (no diacritic removal) obeys both spacing rules, and spacing it again changes nothing |
| Normalizer.PostNormalize | src/KashmiriNormalizer/normalizer.py:103-119 | post-normalization keeps the length of `normalize(t, false)` |
| Normalizer.PlatYeKeepsSpacing | src/KashmiriNormalizer/normalizer.py:117-118 | the final-letter rule keeps both spacing rules when neither letter is punctuation and `\s` treats them alike |
| Normalizer.PostNormalizeSpacing | src/KashmiriNormalizer/normalizer.py:117-118 | post-normalized text obeys both spacing rules under the same conditions |

## Left out

- The contents of `constants.py` are not part of this model: the four
  equivalence tables, `KASHMIRI_PUNCTUATIONS` and `KASHMIRI_DIACRITICS` are
  parameters (`Tables.Config`). Facts that depend on particular tables are not
  stated, for example a digit round trip or `canonicalize(c) == c` for a
  canonical form `c`.
- Unicode's `\w` and `\s`, which define `\b` and `\s+`, are abstract predicates
  (`Config.isWordChar`, `Config.isSpace`). They are not Unicode tables.
- `re.escape`, `re.compile` and the rebuilding of the pattern on every call are
  left out; the model states the matching semantics directly.
- The character classes of lines 45 and 49 are modelled as set membership.
  What an unescaped glyph would do to the class is not modelled.
- The `re.I` flag of lines 46 and 50 (case-insensitive matching of the
  punctuation class) is left out, because punctuation has no case. `re.M`
  has no effect on these patterns, because they contain no `^` or `$`.
- `Replacer.SortByLength` keeps equal-length keys in their original order, as
  Python's stable sort does, but its contract does not promise that order. For
  distinct keys of equal length at most one can match at a given position, so
  the result of the substitution does not depend on it.
- `KASHMIRI_DIACRITICS` is modelled as a sequence of single characters
  (`Config.diacritics`). If an element were a longer string,
  `list(KASHMIRI_DIACRITICS)` would make it a multi-character variant, and the
  model does not cover that case.
- Python's `str` is modelled as `seq<char>` of code points.
- `src/KashmiriNormalizer/__init__.py` only re-exports names. Its import of
  `TTSNormalizer`, which normalizer.py does not define, is an import-time defect
  and is not modelled.
- `Replace`'s empty-pattern test `if not regex_pattern` is modelled as the
  empty-lookup test, because a compiled pattern is always true.
- Empty variants are excluded (`Tables.WellFormed`). What the regular-expression
  engine does with an empty alternative is not modelled.
- PunctuationSpacing.PunctuationSpacesRules: what follows punctuation is
  promised only when the space is not punctuation, and the unchanged visible
  text only when the space is whitespace. Both are properties of the abstract
  punctuation set and whitespace class.
- PunctuationSpacing.PunctuationSpacesIdempotent: stated when the space is not
  punctuation.
- PunctuationSpacing.MatchAtRun: stated when the space is whitespace and no
  punctuation character is (`Separated`).
- PunctuationSpacing.InsertSpaces: the guarantee about what follows punctuation
  assumes the space is not itself punctuation.
- PlatYe.HandlePlatYeRule: stated for U+0620 being a word character, as it is in
  Unicode.
- PlatYe.HandlePlatYeIdempotent: stated for U+0620 and U+06CD being both word
  characters or both not.
- Normalizer.NormalizeSpacing: stated when the space is not punctuation, and
  only for `normalize(t, false)`. Diacritic removal runs after spacing, so
  with the flag set, deleting a diacritic can leave whitespace right before
  punctuation (a space, a fatha, a full stop becomes a space before the full
  stop).
- Normalizer.PostNormalizeSpacing: stated when the space is not punctuation,
  neither U+0620 nor U+06CD is punctuation, and `\s` treats the two alike
  (`LettersNeutral`).
- Normalizer.Normalize: its own contract covers only diacritic removal. The
  full composition is `Normalizer.NormalizeStages`.
- Normalizer.PostNormalize: its own contract covers only the length. The
  composition is `Normalizer.NormalizeStages` and the spacing is
  `Normalizer.PostNormalizeSpacing`.
- PunctuationSpacing.PunctuationSpaces: its own contract states only the
  no-whitespace-before-punctuation rule; the rest is stated by
  `PunctuationSpacing.PunctuationSpacesRules`,
  `PunctuationSpacing.PunctuationSpacesKeeps` and
  `PunctuationSpacing.PunctuationSpacesSplit`.
