/** `_punctuation_spaces`: two regular-expression passes over the text. Pass one
    inserts a space after punctuation; pass two deletes whitespace before
    punctuation. `P` below is the set of punctuation characters and `\s` the
    whitespace class, given as `isSpace`. */
module PunctuationSpacing {

  predicate IsAsciiDigit(c: char)
  {
    '0' <= c <= '9'
  }

  /** The class `[^P0-9 \n]` of pass one's lookahead: a character that needs a
      space between it and punctuation before it. Only the space and the line
      feed are exempt, not whitespace in general. */
  predicate OpensWord(c: char, punct: set<char>)
  {
    c !in punct && !IsAsciiDigit(c) && c != ' ' && c != '\n'
  }

  /** Every punctuation character is followed by the end of the text, another
      punctuation character, an ASCII digit, a space or a line feed. */
  ghost predicate SpacedAfter(r: string, punct: set<char>)
  {
    forall i :: 0 <= i < |r| - 1 && r[i] in punct ==> !OpensWord(r[i + 1], punct)
  }

  /** No whitespace character immediately precedes a punctuation character. */
  ghost predicate TightBefore(r: string, punct: set<char>, isSpace: char -> bool)
  {
    forall i :: 0 < i < |r| && r[i] in punct ==> !isSpace(r[i - 1])
  }

  /** What the rules rely on of the character classes: the space is whitespace
      and no punctuation character is. */
  predicate Separated(punct: set<char>, isSpace: char -> bool)
  {
    isSpace(' ') && forall c :: c in punct ==> !isSpace(c)
  }

  /** The text with its whitespace characters dropped. */
  function Visible(t: string, isSpace: char -> bool): string
    decreases |t|
  {
    if t == [] then []
    else (if isSpace(t[0]) then [] else [t[0]]) + Visible(t[1..], isSpace)
  }

  lemma {:induction false} VisibleConcat(a: string, b: string, isSpace: char -> bool)
    ensures Visible(a + b, isSpace) == Visible(a, isSpace) + Visible(b, isSpace)
    decreases |a|
  {
    if a == [] {
      assert a + b == b;
    } else {
      assert (a + b)[0] == a[0] && (a + b)[1..] == a[1..] + b;
      VisibleConcat(a[1..], b, isSpace);
    }
  }

  /** Dropping a prefix made of whitespace does not change the visible text. */
  lemma {:induction false} VisibleSkipSpaces(t: string, k: nat, isSpace: char -> bool)
    requires k <= |t|
    requires forall j :: 0 <= j < k ==> isSpace(t[j])
    ensures Visible(t, isSpace) == Visible(t[k..], isSpace)
    decreases k
  {
    if k > 0 {
      VisibleSkipSpaces(t[1..], k - 1, isSpace);
      assert t[1..][k - 1..] == t[k..];
    }
  }

  /** The space character, the only character pass one inserts. */
  predicate IsBlank(c: char)
  {
    c == ' '
  }

  /** `short` is `long` with some characters deleted, each of which satisfies
      `gone`; the characters kept are unchanged and in order. */
  ghost predicate Dropped(short: string, long: string, gone: char -> bool)
    decreases |long|
  {
    if long == [] then short == []
    else
      || (short != [] && short[0] == long[0] && Dropped(short[1..], long[1..], gone))
      || (gone(long[0]) && Dropped(short, long[1..], gone))
  }

  lemma {:induction false} DroppedNothing(t: string, gone: char -> bool)
    ensures Dropped(t, t, gone)
    decreases |t|
  {
    if t != [] {
      DroppedNothing(t[1..], gone);
    }
  }

  /** Deleting a prefix whose characters all satisfy `gone` is allowed. */
  lemma {:induction false} DroppedPrefix(short: string, long: string, k: nat, gone: char -> bool)
    requires k <= |long|
    requires forall j :: 0 <= j < k ==> gone(long[j])
    requires Dropped(short, long[k..], gone)
    ensures Dropped(short, long, gone)
    decreases k
  {
    if k > 0 {
      DroppedPrefix(short, long[1..], k - 1, gone);
      assert long[1..][k - 1..] == long[k..];
    }
  }

  // ---------------------------------------------------------------------------
  // Pass one: `(?<=[P])(?=[^P0-9 \n])` replaced by a space.
  // ---------------------------------------------------------------------------

  /** A space is inserted at every boundary with punctuation on its left and a
      character that opens a word on its right. Both lookarounds see the
      original text, so every boundary is decided on the input. */
  function InsertSpaces(t: string, punct: set<char>): (r: string)
    ensures |t| > 0 ==> |r| > 0 && r[0] == t[0]
    ensures ' ' !in punct ==> SpacedAfter(r, punct)
    decreases |t|
  {
    if |t| < 2 then t
    else
      var gap := if t[0] in punct && OpensWord(t[1], punct) then " " else "";
      var rest := InsertSpaces(t[1..], punct);
      var r := [t[0]] + gap + rest;
      assert ' ' !in punct ==> SpacedAfter(r, punct) by {
        if ' ' !in punct {
          forall i | 0 <= i < |r| - 1 && r[i] in punct ensures !OpensWord(r[i + 1], punct) {
            if i >= |gap| + 1 {
              assert r[i] == rest[i - |gap| - 1] && r[i + 1] == rest[i - |gap|];
            }
          }
        }
      }
      r
  }

  lemma SpacedAfterSuffix(t: string, punct: set<char>, j: nat)
    requires SpacedAfter(t, punct) && j <= |t|
    ensures SpacedAfter(t[j..], punct)
  {
    forall i | 0 <= i < |t[j..]| - 1 && t[j..][i] in punct ensures !OpensWord(t[j..][i + 1], punct) {
      assert t[j..][i] == t[i + j] && t[j..][i + 1] == t[i + j + 1];
    }
  }

  /** Pass one changes nothing in a text that already has its spaces after
      punctuation. */
  lemma {:induction false} InsertSpacesFixed(t: string, punct: set<char>)
    requires SpacedAfter(t, punct)
    ensures InsertSpaces(t, punct) == t
    decreases |t|
  {
    if |t| >= 2 {
      SpacedAfterSuffix(t, punct, 1);
      InsertSpacesFixed(t[1..], punct);
      assert t == [t[0]] + t[1..];
    }
  }

  /** When the space is whitespace, pass one leaves the visible text unchanged. */
  lemma {:induction false} InsertSpacesVisible(t: string, punct: set<char>, isSpace: char -> bool)
    requires isSpace(' ')
    ensures Visible(InsertSpaces(t, punct), isSpace) == Visible(t, isSpace)
    decreases |t|
  {
    if |t| >= 2 {
      var gap := if t[0] in punct && OpensWord(t[1], punct) then " " else "";
      var rest := InsertSpaces(t[1..], punct);
      InsertSpacesVisible(t[1..], punct, isSpace);
      VisibleConcat([t[0]] + gap, rest, isSpace);
      VisibleConcat([t[0]], gap, isSpace);
      VisibleConcat([t[0]], t[1..], isSpace);
      assert t == [t[0]] + t[1..];
    }
  }

  /** The boundaries of `t` where pass one inserts a space: punctuation on the
      left, a character that opens a word on the right. */
  function Gaps(t: string, punct: set<char>): nat
    decreases |t|
  {
    if |t| < 2 then 0
    else (if t[0] in punct && OpensWord(t[1], punct) then 1 else 0) + Gaps(t[1..], punct)
  }

  /** Pass one only inserts spaces, exactly one per boundary that needs one:
      deleting the inserted spaces gives the input back. */
  lemma {:induction false} InsertSpacesEdits(t: string, punct: set<char>)
    ensures Dropped(t, InsertSpaces(t, punct), IsBlank)
    ensures |InsertSpaces(t, punct)| == |t| + Gaps(t, punct)
    decreases |t|
  {
    if |t| < 2 {
      DroppedNothing(t, IsBlank);
    } else {
      var gap := if t[0] in punct && OpensWord(t[1], punct) then " " else "";
      var rest := InsertSpaces(t[1..], punct);
      var r := [t[0]] + gap + rest;
      InsertSpacesEdits(t[1..], punct);
      if gap == "" {
        assert r[1..] == rest;
      } else {
        assert r[1..] == " " + rest;
        assert (" " + rest)[1..] == rest;
      }
    }
  }

  // ---------------------------------------------------------------------------
  // Pass two: `\s+([P])` replaced by the captured punctuation.
  // ---------------------------------------------------------------------------

  /** The length of the longest prefix of `t` made of whitespace: what the
      greedy `\s+` takes first. */
  function SpaceRun(t: string, isSpace: char -> bool): (n: nat)
    ensures n <= |t|
    ensures forall j :: 0 <= j < n ==> isSpace(t[j])
    ensures n < |t| ==> !isSpace(t[n])
    decreases |t|
  {
    if t != [] && isSpace(t[0]) then 1 + SpaceRun(t[1..], isSpace) else 0
  }

  /** The backtracking of `\s+` over the run `t[..n]`: the largest `k` in
      `1..n` whose next character `t[k]` is punctuation, or 0 if there is none. */
  function Backtrack(t: string, n: nat, punct: set<char>): (k: nat)
    ensures k <= n
    ensures k > 0 ==> k < |t| && t[k] in punct
    ensures forall j :: k < j <= n && j < |t| ==> t[j] !in punct
    decreases n
  {
    if n == 0 then 0
    else if n < |t| && t[n] in punct then n
    else Backtrack(t, n - 1, punct)
  }

  /** Where pass two's pattern matches at the start of `t`: the index of the
      captured punctuation character, or 0 if it does not match there. */
  function MatchAt(t: string, punct: set<char>, isSpace: char -> bool): (k: nat)
    ensures k > 0 ==> k < |t| && t[k] in punct && forall j :: 0 <= j < k ==> isSpace(t[j])
    ensures forall j :: k < j < |t| && (forall i :: 0 <= i < j ==> isSpace(t[i])) ==> t[j] !in punct
  {
    Backtrack(t, SpaceRun(t, isSpace), punct)
  }

  /** With punctuation and whitespace apart the pattern matches exactly a whole
      whitespace run that is followed by punctuation. */
  lemma MatchAtRun(t: string, punct: set<char>, isSpace: char -> bool)
    requires Separated(punct, isSpace)
    ensures var n := SpaceRun(t, isSpace);
      && (MatchAt(t, punct, isSpace) > 0 <==> 0 < n < |t| && t[n] in punct)
      && (MatchAt(t, punct, isSpace) > 0 ==> MatchAt(t, punct, isSpace) == n)
  {
  }

  /** Pass two: the scan of `regex.sub`, trying the pattern at each position. */
  function RemoveSpaces(t: string, punct: set<char>, isSpace: char -> bool): (r: string)
    ensures |t| > 0 ==> |r| > 0
    decreases |t|
  {
    if t == [] then []
    else
      var k := MatchAt(t, punct, isSpace);
      if k > 0 then [t[k]] + RemoveSpaces(t[k + 1..], punct, isSpace)
      else [t[0]] + RemoveSpaces(t[1..], punct, isSpace)
  }

  /** The first character of pass two's output. */
  lemma RemoveSpacesHead(t: string, punct: set<char>, isSpace: char -> bool)
    requires t != []
    ensures var k := MatchAt(t, punct, isSpace);
      RemoveSpaces(t, punct, isSpace)[0] == if k > 0 then t[k] else t[0]
  {
  }

  /** Dropping the first `p + 1` characters of a whitespace run shortens it by
      as much. */
  lemma {:induction false} SpaceRunSuffix(t: string, isSpace: char -> bool, p: nat)
    requires p < SpaceRun(t, isSpace)
    ensures SpaceRun(t[p + 1..], isSpace) == SpaceRun(t, isSpace) - p - 1
    decreases p
  {
    if p > 0 {
      SpaceRunSuffix(t[1..], isSpace, p - 1);
      assert t[1..][p..] == t[p + 1..];
    }
  }

  /** With no punctuation inside the leading whitespace run of `u` or right
      after it, pass two's output starts with a character that is not
      punctuation. */
  lemma RunHead(u: string, punct: set<char>, isSpace: char -> bool)
    requires u != []
    requires forall j :: 0 <= j <= SpaceRun(u, isSpace) && j < |u| ==> u[j] !in punct
    ensures RemoveSpaces(u, punct, isSpace)[0] !in punct
  {
  }

  /** After pass two no whitespace stands right before punctuation, whatever
      the two character classes are: backtracking takes the last punctuation
      character that ends a whitespace run, so whitespace left over is never
      followed by punctuation. */
  lemma {:induction false} RemoveSpacesTight(t: string, punct: set<char>, isSpace: char -> bool)
    ensures TightBefore(RemoveSpaces(t, punct, isSpace), punct, isSpace)
    decreases |t|
  {
    if t != [] {
      var n := SpaceRun(t, isSpace);
      var k := MatchAt(t, punct, isSpace);
      var u := t[k + 1..];
      var r := RemoveSpaces(t, punct, isSpace);
      var rest := RemoveSpaces(u, punct, isSpace);
      RemoveSpacesTight(u, punct, isSpace);
      assert r == [t[k]] + rest;
      if rest != [] && isSpace(t[k]) {
        assert k < n;
        SpaceRunSuffix(t, isSpace, k);
        forall j | 0 <= j <= SpaceRun(u, isSpace) && j < |u| ensures u[j] !in punct {
          assert u[j] == t[k + 1 + j];
        }
        RunHead(u, punct, isSpace);
      }
      forall i | 0 < i < |r| && r[i] in punct ensures !isSpace(r[i - 1]) {
        if i > 1 {
          assert r[i] == rest[i - 1] && r[i - 1] == rest[i - 2];
        }
      }
    }
  }

  lemma TightBeforeSuffix(t: string, punct: set<char>, isSpace: char -> bool, j: nat)
    requires TightBefore(t, punct, isSpace) && j <= |t|
    ensures TightBefore(t[j..], punct, isSpace)
  {
    forall i | 0 < i < |t[j..]| && t[j..][i] in punct ensures !isSpace(t[j..][i - 1]) {
      assert t[j..][i] == t[i + j] && t[j..][i - 1] == t[i + j - 1];
    }
  }

  /** Pass two keeps the spaces after punctuation that pass one made: it only
      deletes whitespace that punctuation follows. */
  lemma {:induction false} RemoveSpacesSpacedAfter(t: string, punct: set<char>, isSpace: char -> bool)
    requires SpacedAfter(t, punct)
    ensures SpacedAfter(RemoveSpaces(t, punct, isSpace), punct)
    decreases |t|
  {
    if t != [] {
      var k := MatchAt(t, punct, isSpace);
      var r := RemoveSpaces(t, punct, isSpace);
      var next := if k > 0 then k + 1 else 1;
      var rest := RemoveSpaces(t[next..], punct, isSpace);
      SpacedAfterSuffix(t, punct, next);
      RemoveSpacesSpacedAfter(t[next..], punct, isSpace);
      assert r == [r[0]] + rest;
      if rest != [] && r[0] in punct {
        RemoveSpacesHead(t[next..], punct, isSpace);
        assert r[0] == t[next - 1];
      }
      forall i | 0 <= i < |r| - 1 && r[i] in punct ensures !OpensWord(r[i + 1], punct) {
        if i > 0 {
          assert r[i] == rest[i - 1] && r[i + 1] == rest[i];
        }
      }
    }
  }

  /** Pass two changes nothing in a text without whitespace before punctuation. */
  lemma {:induction false} RemoveSpacesFixed(t: string, punct: set<char>, isSpace: char -> bool)
    requires TightBefore(t, punct, isSpace)
    ensures RemoveSpaces(t, punct, isSpace) == t
    decreases |t|
  {
    if t != [] {
      TightBeforeSuffix(t, punct, isSpace, 1);
      RemoveSpacesFixed(t[1..], punct, isSpace);
      assert t == [t[0]] + t[1..];
    }
  }

  /** Pass two leaves the visible text unchanged. */
  lemma {:induction false} RemoveSpacesVisible(t: string, punct: set<char>, isSpace: char -> bool)
    ensures Visible(RemoveSpaces(t, punct, isSpace), isSpace) == Visible(t, isSpace)
    decreases |t|
  {
    if t != [] {
      var k := MatchAt(t, punct, isSpace);
      var next := if k > 0 then k + 1 else 1;
      var rest := RemoveSpaces(t[next..], punct, isSpace);
      RemoveSpacesVisible(t[next..], punct, isSpace);
      VisibleConcat([t[next - 1]], rest, isSpace);
      VisibleConcat([t[next - 1]], t[next..], isSpace);
      assert t[next - 1..] == [t[next - 1]] + t[next..];
      VisibleSkipSpaces(t, next - 1, isSpace);
    }
  }

  /** Pass two only deletes whitespace: its output is its input with some
      whitespace characters removed, every other character kept in order. */
  lemma {:induction false} RemoveSpacesEdits(t: string, punct: set<char>, isSpace: char -> bool)
    ensures Dropped(RemoveSpaces(t, punct, isSpace), t, isSpace)
    decreases |t|
  {
    if t != [] {
      var k := MatchAt(t, punct, isSpace);
      var rest := RemoveSpaces(t[k + 1..], punct, isSpace);
      RemoveSpacesEdits(t[k + 1..], punct, isSpace);
      assert RemoveSpaces(t, punct, isSpace) == [t[k]] + rest;
      assert t[k..][1..] == t[k + 1..];
      assert Dropped([t[k]] + rest, t[k..], isSpace) by {
        assert ([t[k]] + rest)[1..] == rest;
      }
      DroppedPrefix([t[k]] + rest, t, k, isSpace);
    }
  }

  /** The leading whitespace run of a non-empty text that does not end in
      whitespace stays inside it, whatever follows. */
  lemma {:induction false} SpaceRunPrefix(a: string, b: string, isSpace: char -> bool)
    requires a != [] && !isSpace(a[|a| - 1])
    ensures SpaceRun(a + b, isSpace) == SpaceRun(a, isSpace) < |a|
    decreases |a|
  {
    if isSpace(a[0]) {
      assert |a| > 1;
      assert a[1..][|a[1..]| - 1] == a[|a| - 1];
      SpaceRunPrefix(a[1..], b, isSpace);
      assert (a + b)[1..] == a[1..] + b;
    }
  }

  /** Backtracking over a run that ends inside `a` only looks at `a`. */
  lemma {:induction false} BacktrackPrefix(a: string, b: string, n: nat, punct: set<char>)
    requires n < |a|
    ensures Backtrack(a + b, n, punct) == Backtrack(a, n, punct)
    decreases n
  {
    if n > 0 {
      assert (a + b)[n] == a[n];
      BacktrackPrefix(a, b, n - 1, punct);
    }
  }

  /** Where pass two's pattern matches at the start of `a + b`, for `a` not
      ending in whitespace: at the same place as in `a`, inside `a`. */
  lemma MatchAtPrefix(a: string, b: string, punct: set<char>, isSpace: char -> bool)
    requires a != [] && !isSpace(a[|a| - 1])
    ensures MatchAt(a + b, punct, isSpace) == MatchAt(a, punct, isSpace) < |a|
  {
    SpaceRunPrefix(a, b, isSpace);
    BacktrackPrefix(a, b, SpaceRun(a, isSpace), punct);
  }

  /** One step of pass two: it emits one character and goes on after it. */
  lemma RemoveSpacesStep(t: string, punct: set<char>, isSpace: char -> bool)
    requires t != []
    ensures var k := MatchAt(t, punct, isSpace);
      RemoveSpaces(t, punct, isSpace) == [t[k]] + RemoveSpaces(t[k + 1..], punct, isSpace)
  {
  }

  lemma CutConcat(a: string, b: string, k: nat)
    requires k < |a|
    ensures (a + b)[k] == a[k] && (a + b)[k + 1..] == a[k + 1..] + b
  {
  }

  lemma ConsConcat(x: char, l: string, r: string, whole: string, left: string)
    requires whole == [x] + (l + r) && left == [x] + l
    ensures whole == left + r
  {
  }

  /** A suffix of a text that does not end in whitespace is empty or does not
      end in whitespace either. */
  lemma SuffixEnd(a: string, i: nat, isSpace: char -> bool)
    requires i <= |a| && a != [] && !isSpace(a[|a| - 1])
    ensures a[i..] == [] || !isSpace(a[i..][|a[i..]| - 1])
  {
  }

  /** Pass two works on the two sides of a cut independently when the left
      side is empty or ends in something other than whitespace: no match of
      its pattern reaches across such a cut. */
  lemma {:induction false} RemoveSpacesSplit(a: string, b: string, punct: set<char>, isSpace: char -> bool)
    requires a == [] || !isSpace(a[|a| - 1])
    ensures RemoveSpaces(a + b, punct, isSpace) == RemoveSpaces(a, punct, isSpace) + RemoveSpaces(b, punct, isSpace)
    decreases |a|
  {
    if a == [] {
      assert a + b == b;
    } else {
      var k := MatchAt(a, punct, isSpace);
      MatchAtPrefix(a, b, punct, isSpace);
      var tail := a[k + 1..];
      SuffixEnd(a, k + 1, isSpace);
      CutConcat(a, b, k);
      RemoveSpacesSplit(tail, b, punct, isSpace);
      RemoveSpacesStep(a + b, punct, isSpace);
      RemoveSpacesStep(a, punct, isSpace);
      ConsConcat(a[k], RemoveSpaces(tail, punct, isSpace), RemoveSpaces(b, punct, isSpace),
                 RemoveSpaces(a + b, punct, isSpace), RemoveSpaces(a, punct, isSpace));
    }
  }

  /** Pass two keeps a prefix that holds no punctuation and does not end in
      whitespace exactly as it is and goes on with the rest as if the prefix
      were not there. */
  lemma RemoveSpacesKeeps(a: string, b: string, punct: set<char>, isSpace: char -> bool)
    requires forall j :: 0 <= j < |a| ==> a[j] !in punct
    requires a == [] || !isSpace(a[|a| - 1])
    ensures RemoveSpaces(a + b, punct, isSpace) == a + RemoveSpaces(b, punct, isSpace)
  {
    RemoveSpacesSplit(a, b, punct, isSpace);
    RemoveSpacesFixed(a, punct, isSpace);
  }

  // ---------------------------------------------------------------------------
  // Both passes.
  // ---------------------------------------------------------------------------

  /** `_punctuation_spaces`: pass one, then pass two. Its output never has
      whitespace right before punctuation; the other properties are in
      `PunctuationSpacesRules`, `PunctuationSpacesKeeps` and
      `PunctuationSpacesSplit`. */
  function PunctuationSpaces(t: string, punct: set<char>, isSpace: char -> bool): (r: string)
    ensures TightBefore(r, punct, isSpace)
  {
    RemoveSpacesTight(InsertSpaces(t, punct), punct, isSpace);
    RemoveSpaces(InsertSpaces(t, punct), punct, isSpace)
  }

  /** The output has no whitespace before punctuation; when the space is not
      punctuation, every punctuation character is followed by the end,
      punctuation, a digit, a space or a line feed; the only edits are spaces
      inserted by pass one and whitespace deleted by pass two, so when the space
      is whitespace the visible text is unchanged. */
  lemma PunctuationSpacesRules(t: string, punct: set<char>, isSpace: char -> bool)
    ensures TightBefore(PunctuationSpaces(t, punct, isSpace), punct, isSpace)
    ensures ' ' !in punct ==> SpacedAfter(PunctuationSpaces(t, punct, isSpace), punct)
    ensures Dropped(t, InsertSpaces(t, punct), IsBlank)
    ensures Dropped(PunctuationSpaces(t, punct, isSpace), InsertSpaces(t, punct), isSpace)
    ensures isSpace(' ') ==> Visible(PunctuationSpaces(t, punct, isSpace), isSpace) == Visible(t, isSpace)
  {
    var spaced := InsertSpaces(t, punct);
    RemoveSpacesTight(spaced, punct, isSpace);
    if ' ' !in punct {
      RemoveSpacesSpacedAfter(spaced, punct, isSpace);
    }
    InsertSpacesEdits(t, punct);
    RemoveSpacesEdits(spaced, punct, isSpace);
    RemoveSpacesVisible(spaced, punct, isSpace);
    if isSpace(' ') {
      InsertSpacesVisible(t, punct, isSpace);
    }
  }

  /** What pass two keeps of pass one's output: a prefix that holds no
      punctuation and does not end in whitespace comes through unchanged, and
      pass two goes on with the rest. */
  lemma PunctuationSpacesKeeps(t: string, punct: set<char>, isSpace: char -> bool, i: nat)
    requires i <= |InsertSpaces(t, punct)|
    requires forall j :: 0 <= j < i ==> InsertSpaces(t, punct)[j] !in punct
    requires i == 0 || !isSpace(InsertSpaces(t, punct)[i - 1])
    ensures PunctuationSpaces(t, punct, isSpace)
      == InsertSpaces(t, punct)[..i] + RemoveSpaces(InsertSpaces(t, punct)[i..], punct, isSpace)
  {
    var spaced := InsertSpaces(t, punct);
    RemoveSpacesKeeps(spaced[..i], spaced[i..], punct, isSpace);
    assert spaced[..i] + spaced[i..] == spaced;
  }

  /** Pass two of `_punctuation_spaces` treats the two sides of any cut in
      pass one's output independently when the left side is empty or ends in
      something other than whitespace. */
  lemma PunctuationSpacesSplit(t: string, punct: set<char>, isSpace: char -> bool, i: nat)
    requires i <= |InsertSpaces(t, punct)|
    requires i == 0 || !isSpace(InsertSpaces(t, punct)[i - 1])
    ensures PunctuationSpaces(t, punct, isSpace)
      == RemoveSpaces(InsertSpaces(t, punct)[..i], punct, isSpace) + RemoveSpaces(InsertSpaces(t, punct)[i..], punct, isSpace)
  {
    var spaced := InsertSpaces(t, punct);
    RemoveSpacesSplit(spaced[..i], spaced[i..], punct, isSpace);
    assert spaced[..i] + spaced[i..] == spaced;
  }

  /** A text that already obeys both rules is left as it is. */
  lemma PunctuationSpacesFixed(t: string, punct: set<char>, isSpace: char -> bool)
    requires SpacedAfter(t, punct) && TightBefore(t, punct, isSpace)
    ensures PunctuationSpaces(t, punct, isSpace) == t
  {
    InsertSpacesFixed(t, punct);
    RemoveSpacesFixed(t, punct, isSpace);
  }

  /** Spacing punctuation twice gives the same text as spacing it once. */
  lemma PunctuationSpacesIdempotent(t: string, punct: set<char>, isSpace: char -> bool)
    requires ' ' !in punct
    ensures PunctuationSpaces(PunctuationSpaces(t, punct, isSpace), punct, isSpace)
         == PunctuationSpaces(t, punct, isSpace)
  {
    PunctuationSpacesRules(t, punct, isSpace);
    PunctuationSpacesFixed(PunctuationSpaces(t, punct, isSpace), punct, isSpace);
  }
}
