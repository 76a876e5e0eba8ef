/** `_handlePlatYe`: the letter U+0620 is replaced by U+06CD wherever a word
    boundary stands right before it or right after it (the pattern `\bؠ|ؠ\b`).
    Every match is the one letter itself, and `\b` is judged on the input text,
    so each position is decided on its own. */
module PlatYe {

  /** U+0620, the letter the rule rewrites. */
  const Yeh: char := '\U{0620}'

  /** U+06CD, the letter it is rewritten to. */
  const KashmiriYeh: char := '\U{06CD}'

  /** Position `i` holds a word character; positions outside the text do not. */
  predicate WordAt(t: string, i: int, isWordChar: char -> bool)
  {
    0 <= i < |t| && isWordChar(t[i])
  }

  /** `\b` at the gap just before position `i` (`i == |t|` is the end). */
  predicate Boundary(t: string, i: int, isWordChar: char -> bool)
  {
    WordAt(t, i - 1, isWordChar) != WordAt(t, i, isWordChar)
  }

  /** `re.sub(r"\bؠ|ؠ\b", "ۍ", t)`. */
  function HandlePlatYe(t: string, isWordChar: char -> bool): (r: string)
    ensures |r| == |t|
  {
    seq(|t|, i requires 0 <= i < |t| =>
      if t[i] == Yeh && (Boundary(t, i, isWordChar) || Boundary(t, i + 1, isWordChar))
      then KashmiriYeh else t[i])
  }

  /** With U+0620 a word character: it is rewritten when the text ends or a
      non-word character stands on at least one side of it, and kept when word
      characters stand on both sides; every other character is kept. */
  lemma HandlePlatYeRule(t: string, isWordChar: char -> bool, i: int)
    requires isWordChar(Yeh)
    requires 0 <= i < |t|
    ensures t[i] == Yeh && (i == 0 || !isWordChar(t[i - 1]) || i == |t| - 1 || !isWordChar(t[i + 1]))
      ==> HandlePlatYe(t, isWordChar)[i] == KashmiriYeh
    ensures t[i] == Yeh && 0 < i < |t| - 1 && isWordChar(t[i - 1]) && isWordChar(t[i + 1])
      ==> HandlePlatYe(t, isWordChar)[i] == Yeh
    ensures t[i] != Yeh ==> HandlePlatYe(t, isWordChar)[i] == t[i]
  {
  }

  /** When both letters are word characters the rewrite does not move any
      boundary, so applying it twice gives the same text as applying it once. */
  lemma HandlePlatYeIdempotent(t: string, isWordChar: char -> bool)
    requires isWordChar(Yeh) == isWordChar(KashmiriYeh)
    ensures HandlePlatYe(HandlePlatYe(t, isWordChar), isWordChar) == HandlePlatYe(t, isWordChar)
  {
    var r := HandlePlatYe(t, isWordChar);
    assert forall j :: WordAt(r, j, isWordChar) == WordAt(t, j, isWordChar);
    assert forall j :: Boundary(r, j, isWordChar) == Boundary(t, j, isWordChar);
  }
}
