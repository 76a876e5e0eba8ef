/** The multi-pattern substitution engine `_replace`: invert a table into a
    variant -> canonical dictionary, sort the variants longest first, join them
    into one alternation and substitute every match in a single left-to-right
    pass. */
module Replacer {
  import opened Tables

  datatype Option<T> = None | Some(value: T)

  /** A dictionary as the source language keeps it: its keys in insertion order
      and its key -> value entries. */
  datatype Dict = Dict(order: seq<string>, entries: map<string, string>)

  /** The order lists every key exactly once. */
  ghost predicate Coherent(d: Dict)
  {
    && (forall k :: k in d.order <==> k in d.entries)
    && (forall i, j :: 0 <= i < j < |d.order| ==> d.order[i] != d.order[j])
  }

  /** `d[k] = v`: a new key goes to the end of the order, an existing key keeps
      its place and gets the new value. */
  function Assign(d: Dict, k: string, v: string): (r: Dict)
    ensures Coherent(d) ==> Coherent(r)
    ensures k in r.entries && r.entries[k] == v
    ensures forall j :: j != k ==> (j in r.entries <==> j in d.entries)
    ensures forall j :: j != k && j in d.entries ==> r.entries[j] == d.entries[j]
    ensures k in d.entries ==> r.order == d.order
    ensures k !in d.entries ==> r.order == d.order + [k]
  {
    Dict(if k in d.entries then d.order else d.order + [k], d.entries[k := v])
  }

  /** `for letter in vs: d[letter] = key`. */
  function AssignAll(d: Dict, key: string, vs: seq<string>): (r: Dict)
    ensures Coherent(d) ==> Coherent(r)
    ensures forall k :: k in r.entries <==> k in d.entries || k in vs
    ensures forall k :: k in vs ==> r.entries[k] == key
    ensures forall k :: k in d.entries && k !in vs ==> r.entries[k] == d.entries[k]
    decreases |vs|
  {
    if vs == [] then d
    else
      assert vs == vs[..|vs| - 1] + [vs[|vs| - 1]];
      Assign(AssignAll(d, key, vs[..|vs| - 1]), vs[|vs| - 1], key)
  }

  /** The flattened lookup `flattenMap`, built entry by entry in table order. */
  function Flattened(t: Table): (d: Dict)
    ensures Coherent(d)
    ensures WellFormed(t) ==> forall k :: k in d.entries ==> k != []
    decreases |t|
  {
    if t == [] then Dict([], map[])
    else
      var e := t[|t| - 1];
      AssignAll(Flattened(t[..|t| - 1]), e.canonical, e.variants)
  }

  /** Dropping a last entry that does not list `v` does not change whether `v`
      is listed. */
  lemma ListedFront(t: Table, v: string)
    requires t != [] && v !in t[|t| - 1].variants
    ensures Listed(t, v) <==> Listed(t[..|t| - 1], v)
  {
    var front := t[..|t| - 1];
    if Listed(front, v) {
      var i :| 0 <= i < |front| && v in front[i].variants;
      assert t[i] == front[i];
    }
    if Listed(t, v) {
      var i :| 0 <= i < |t| && v in t[i].variants;
      assert front[i] == t[i];
    }
  }

  /** The flattened lookup has exactly the listed variants as keys. */
  lemma {:induction false} FlattenedKeys(t: Table, v: string)
    ensures v in Flattened(t).entries <==> Listed(t, v)
    decreases |t|
  {
    if t != [] {
      var n := |t| - 1;
      if v in t[n].variants {
        assert Listed(t, v);
      } else {
        FlattenedKeys(t[..n], v);
        FlattenedFront(t, v);
        ListedFront(t, v);
      }
    }
  }

  /** The last entry of a table only affects the variants it lists. */
  lemma FlattenedFront(t: Table, v: string)
    requires t != [] && v !in t[|t| - 1].variants
    ensures v in Flattened(t).entries <==> v in Flattened(t[..|t| - 1]).entries
    ensures v in Flattened(t).entries ==> Flattened(t).entries[v] == Flattened(t[..|t| - 1]).entries[v]
  {
  }

  /** A last listing in a prefix stays the last one when the next entry does
      not list the variant. */
  lemma LastListedExtend(t: Table, v: string, i: int)
    requires t != [] && v !in t[|t| - 1].variants
    requires LastListedAt(t[..|t| - 1], v, i)
    ensures LastListedAt(t, v, i)
  {
    var front := t[..|t| - 1];
    forall j | i < j < |t| ensures v !in t[j].variants {
      if j < |t| - 1 { assert t[j] == front[j]; }
    }
  }

  /** The flattened lookup maps each key to the canonical form of the last
      entry that lists it: a later entry overwrites an earlier one. */
  lemma {:induction false} FlattenedLast(t: Table, v: string) returns (i: int)
    requires v in Flattened(t).entries
    ensures LastListedAt(t, v, i) && Flattened(t).entries[v] == t[i].canonical
    decreases |t|
  {
    assert t != [];
    var n := |t| - 1;
    if v in t[n].variants {
      i := n;
    } else {
      FlattenedFront(t, v);
      i := FlattenedLast(t[..n], v);
      LastListedExtend(t, v, i);
      assert t[..n][i] == t[i];
    }
  }

  /** Both halves of the lookup's meaning. */
  lemma FlattenedLookup(t: Table, v: string)
    ensures v in Flattened(t).entries <==> Listed(t, v)
    ensures v in Flattened(t).entries ==>
      exists i :: LastListedAt(t, v, i) && Flattened(t).entries[v] == t[i].canonical
  {
    FlattenedKeys(t, v);
    if v in Flattened(t).entries {
      var i := FlattenedLast(t, v);
    }
  }

  /** Every element of `s` is at least as long as every later one. */
  ghost predicate LongestFirst(s: seq<string>)
  {
    forall i, j :: 0 <= i < j < |s| ==> |s[i]| >= |s[j]|
  }

  /** Inserts `v` before the first element that is not longer than it. */
  function InsertByLength(v: string, s: seq<string>): (r: seq<string>)
    ensures multiset(r) == multiset(s) + multiset{v}
    decreases |s|
  {
    if s == [] || |s[0]| <= |v| then [v] + s
    else
      assert s == [s[0]] + s[1..];
      [s[0]] + InsertByLength(v, s[1..])
  }

  /** Prepending an element at least as long as all others keeps a sequence
      longest first. */
  lemma LongestFirstCons(x: string, s: seq<string>)
    requires LongestFirst(s)
    requires forall y :: y in s ==> |y| <= |x|
    ensures LongestFirst([x] + s)
  {
    var r := [x] + s;
    forall i, j | 0 <= i < j < |r| ensures |r[i]| >= |r[j]| {
      assert r[j] == s[j - 1];
      if i > 0 { assert r[i] == s[i - 1]; }
    }
  }

  /** The head of a longest-first sequence is a longest element. */
  lemma LongestFirstHead(s: seq<string>)
    requires LongestFirst(s) && s != []
    ensures forall y :: y in s ==> |y| <= |s[0]|
  {
    forall y | y in s ensures |y| <= |s[0]| {
      var j :| 0 <= j < |s| && s[j] == y;
      if j > 0 { assert |s[0]| >= |s[j]|; }
    }
  }

  /** Inserting keeps every element within a common length bound. */
  lemma InsertByLengthBound(v: string, s: seq<string>, n: nat)
    requires |v| <= n
    requires forall y :: y in s ==> |y| <= n
    ensures forall y :: y in InsertByLength(v, s) ==> |y| <= n
  {
    var r := InsertByLength(v, s);
    forall y | y in r ensures |y| <= n {
      assert y in multiset(r);
      assert y == v || y in multiset(s);
    }
  }

  /** Inserting into a longest-first sequence keeps it longest first. */
  lemma {:induction false} InsertByLengthSorted(v: string, s: seq<string>)
    requires LongestFirst(s)
    ensures LongestFirst(InsertByLength(v, s))
    decreases |s|
  {
    if s == [] || |s[0]| <= |v| {
      if s != [] { LongestFirstHead(s); }
      LongestFirstCons(v, s);
    } else {
      LongestFirstHead(s);
      assert LongestFirst(s[1..]);
      InsertByLengthSorted(v, s[1..]);
      InsertByLengthBound(v, s[1..], |s[0]|);
      LongestFirstCons(s[0], InsertByLength(v, s[1..]));
    }
  }

  /** `sorted(keys, key=len, reverse=True)`: the same keys, longest first. */
  function SortByLength(s: seq<string>): (r: seq<string>)
    ensures multiset(r) == multiset(s)
    ensures forall v :: v in r <==> v in s
    ensures LongestFirst(r)
    decreases |s|
  {
    if s == [] then []
    else
      assert s == [s[0]] + s[1..];
      var r := InsertByLength(s[0], SortByLength(s[1..]));
      InsertByLengthSorted(s[0], SortByLength(s[1..]));
      assert forall v :: v in r <==> v in s by {
        forall v ensures v in r <==> v in s {
          assert v in r <==> v in multiset(r);
          assert v in s <==> v in multiset(s);
        }
      }
      r
  }

  /** The regular expression `alts[0]|alts[1]|...` tried at the start of `text`:
      the first alternative that matches there. */
  function FirstMatch(alts: seq<string>, text: string): (r: Option<string>)
    ensures r.Some? ==> r.value in alts && r.value <= text
    ensures r.None? ==> forall v :: v in alts ==> !(v <= text)
    decreases |alts|
  {
    if alts == [] then None
    else if alts[0] <= text then Some(alts[0])
    else
      assert alts == [alts[0]] + alts[1..];
      FirstMatch(alts[1..], text)
  }

  /** Over a longest-first alternation the first alternative that matches is a
      longest one that matches. */
  lemma {:induction false} FirstMatchIsLongest(alts: seq<string>, text: string)
    requires LongestFirst(alts)
    ensures FirstMatch(alts, text).Some? ==>
      forall w :: w in alts && w <= text ==> |w| <= |FirstMatch(alts, text).value|
    decreases |alts|
  {
    if alts != [] && !(alts[0] <= text) {
      FirstMatchIsLongest(alts[1..], text);
      forall w | w in alts && w <= text ensures w in alts[1..] {
        assert w != alts[0];
      }
    } else if alts != [] {
      forall w | w in alts ensures |w| <= |alts[0]| {
        var j :| 0 <= j < |alts| && alts[j] == w;
        if j > 0 { assert |alts[0]| >= |alts[j]|; }
      }
    }
  }

  /** One step of the substitution: a character copied through, or a matched
      variant that is replaced by its canonical form. */
  datatype Piece = Copy(c: char) | Swap(variant: string)

  /** The input text a piece consumes. */
  function Covered(p: Piece): string
  {
    match p
    case Copy(c) => [c]
    case Swap(v) => v
  }

  /** The input text a sequence of pieces consumes. */
  function Source(ps: seq<Piece>): string
    decreases |ps|
  {
    if ps == [] then [] else Covered(ps[0]) + Source(ps[1..])
  }

  /** Every replaced variant has an entry in `lookup`. */
  ghost predicate Known(ps: seq<Piece>, lookup: map<string, string>)
  {
    forall k :: 0 <= k < |ps| && ps[k].Swap? ==> ps[k].variant in lookup
  }

  /** The output text: copies as they are, matches replaced by `lookup[match]`. */
  function Render(ps: seq<Piece>, lookup: map<string, string>): string
    requires Known(ps, lookup)
    decreases |ps|
  {
    if ps == [] then []
    else
      var out := match ps[0] case Copy(c) => [c] case Swap(v) => lookup[v];
      assert Known(ps[1..], lookup) by {
        forall k | 0 <= k < |ps| - 1 && ps[1..][k].Swap? ensures ps[1..][k].variant in lookup {
          assert ps[1..][k] == ps[k + 1];
        }
      }
      out + Render(ps[1..], lookup)
  }

  /** The scan of `regex.sub`: at each position try the alternation; on a match
      consume it and continue after it, otherwise consume one character. The
      text a match is replaced with is never looked at again. */
  function Pieces(text: string, alts: seq<string>): (ps: seq<Piece>)
    requires forall v :: v in alts ==> v != []
    ensures Source(ps) == text
    ensures forall k :: 0 <= k < |ps| && ps[k].Swap? ==> ps[k].variant in alts
    decreases |text|
  {
    if text == [] then []
    else
      match FirstMatch(alts, text)
      case Some(v) =>
        assert text == v + text[|v|..];
        [Swap(v)] + Pieces(text[|v|..], alts)
      case None =>
        assert text == [text[0]] + text[1..];
        [Copy(text[0])] + Pieces(text[1..], alts)
  }

  /** The substitution `_replace(text, table)` as a value: the rendering of the
      text's longest-match segmentation over the flattened lookup (which is
      unique, see `SegmentationUnique`, and exists, see `SegmentationExists`). */
  function Replaced(text: string, table: Table): (r: string)
    requires WellFormed(table)
    ensures forall ps :: Segmentation(ps, text, Flattened(table).entries) ==>
      Known(ps, Flattened(table).entries) && r == Render(ps, Flattened(table).entries)
  {
    var flatten := Flattened(table);
    var r := if flatten.order == [] then text
      else Render(Pieces(text, SortByLength(flatten.order)), flatten.entries);
    assert forall ps :: Segmentation(ps, text, flatten.entries) ==>
      Known(ps, flatten.entries) && r == Render(ps, flatten.entries) by {
      forall ps | Segmentation(ps, text, flatten.entries)
        ensures Known(ps, flatten.entries) && r == Render(ps, flatten.entries)
      {
        SegmentationSource(ps, text, flatten.entries);
        if flatten.order == [] {
          assert forall k :: k !in flatten.entries;
          RenderWithoutKeys(ps, text, flatten.entries);
        } else {
          var alts := SortByLength(flatten.order);
          PiecesSegment(text, alts, flatten.entries);
          SegmentationUnique(Pieces(text, alts), ps, text, flatten.entries);
        }
      }
    }
    r
  }

  /** `_replace`: builds the flattened lookup in a nested loop, gives up on an
      empty lookup, otherwise sorts the variants and substitutes. */
  method Replace(text: string, table: Table) returns (r: string)
    requires WellFormed(table)
    ensures r == Replaced(text, table)
  {
    var flattenMap := Dict([], map[]);
    var i := 0;
    while i < |table|
      invariant 0 <= i <= |table|
      invariant flattenMap == Flattened(table[..i])
    {
      var key, value := table[i].canonical, table[i].variants;
      var j := 0;
      while j < |value|
        invariant 0 <= j <= |value|
        invariant flattenMap == AssignAll(Flattened(table[..i]), key, value[..j])
      {
        assert value[..j + 1][..j] == value[..j];
        flattenMap := Assign(flattenMap, value[j], key);
        j := j + 1;
      }
      assert value[..j] == value;
      assert table[..i + 1][..i] == table[..i];
      i := i + 1;
    }
    assert table[..i] == table;
    if flattenMap.order == [] {
      return text;
    }
    var sortedBadChars := SortByLength(flattenMap.order);
    r := Render(Pieces(text, sortedBadChars), flattenMap.entries);
  }

  // ---------------------------------------------------------------------------
  // Reference definition: the longest-match segmentation of the input.
  // ---------------------------------------------------------------------------

  /** `v` is a key of `lookup` that starts `text`, and no key that starts `text`
      is longer. */
  ghost predicate LongestAt(lookup: map<string, string>, text: string, v: string)
  {
    && v in lookup
    && v <= text
    && forall w :: w in lookup && w <= text ==> |w| <= |v|
  }

  /** No key of `lookup` starts `text`. */
  ghost predicate NoMatchAt(lookup: map<string, string>, text: string)
  {
    forall w :: w in lookup ==> !(w <= text)
  }

  /** `ps` cuts `text` from left to right into non-overlapping pieces: a longest
      matching key wherever some key matches, one character wherever none does. */
  ghost predicate Segmentation(ps: seq<Piece>, text: string, lookup: map<string, string>)
    decreases |ps|
  {
    if ps == [] then text == []
    else
      match ps[0]
      case Copy(c) =>
        && text != []
        && text[0] == c
        && NoMatchAt(lookup, text)
        && Segmentation(ps[1..], text[1..], lookup)
      case Swap(v) =>
        && v != []
        && LongestAt(lookup, text, v)
        && Segmentation(ps[1..], text[|v|..], lookup)
  }

  /** The segmentation of a text is unique: the scan is fully determined. */
  lemma {:induction false} SegmentationUnique(ps: seq<Piece>, qs: seq<Piece>, text: string, lookup: map<string, string>)
    requires Segmentation(ps, text, lookup)
    requires Segmentation(qs, text, lookup)
    ensures ps == qs
    decreases |ps|
  {
    if ps != [] && qs != [] {
      match ps[0]
      case Copy(c) =>
        assert qs[0].Copy?;
        SegmentationUnique(ps[1..], qs[1..], text[1..], lookup);
        assert ps == [ps[0]] + ps[1..] && qs == [qs[0]] + qs[1..];
      case Swap(v) =>
        assert qs[0].Swap?;
        var w := qs[0].variant;
        assert |v| == |w|;
        assert v == text[..|v|] == w;
        SegmentationUnique(ps[1..], qs[1..], text[|v|..], lookup);
        assert ps == [ps[0]] + ps[1..] && qs == [qs[0]] + qs[1..];
    } else if ps != [] || qs != [] {
      assert false;
    }
  }

  /** A segmentation covers the text exactly: the pieces, concatenated, give the
      input back, so every character outside a match is copied verbatim and in
      order. Every replaced piece has an entry in the lookup. */
  lemma {:induction false} SegmentationSource(ps: seq<Piece>, text: string, lookup: map<string, string>)
    requires Segmentation(ps, text, lookup)
    ensures Source(ps) == text
    ensures Known(ps, lookup)
    decreases |ps|
  {
    if ps != [] {
      var n := |Covered(ps[0])|;
      assert n <= |text| && text[..n] == Covered(ps[0]) by {
        if ps[0].Swap? { assert ps[0].variant <= text; }
      }
      SegmentationSource(ps[1..], text[n..], lookup);
      assert text == text[..n] + text[n..];
      forall k | 0 <= k < |ps| && ps[k].Swap? ensures ps[k].variant in lookup {
        if k > 0 { assert ps[k] == ps[1..][k - 1]; }
      }
    }
  }

  /** The regular-expression scan over a longest-first alternation of the keys
      is the longest-match segmentation. */
  lemma {:induction false} PiecesSegment(text: string, alts: seq<string>, lookup: map<string, string>)
    requires forall v :: v in alts ==> v != []
    requires forall v :: v in alts <==> v in lookup
    requires LongestFirst(alts)
    ensures Segmentation(Pieces(text, alts), text, lookup)
    decreases |text|
  {
    if text != [] {
      FirstMatchIsLongest(alts, text);
      match FirstMatch(alts, text)
      case Some(v) =>
        PiecesSegment(text[|v|..], alts, lookup);
        assert Pieces(text, alts)[1..] == Pieces(text[|v|..], alts);
      case None =>
        PiecesSegment(text[1..], alts, lookup);
        assert Pieces(text, alts)[1..] == Pieces(text[1..], alts);
    }
  }

  /** With no keys the only segmentation copies every character. */
  lemma {:induction false} RenderWithoutKeys(ps: seq<Piece>, text: string, lookup: map<string, string>)
    requires lookup == map[]
    requires Segmentation(ps, text, lookup)
    ensures Known(ps, lookup) && Render(ps, lookup) == text
    decreases |ps|
  {
    SegmentationSource(ps, text, lookup);
    if ps != [] {
      RenderWithoutKeys(ps[1..], text[1..], lookup);
      assert text == [text[0]] + text[1..];
    }
  }

  /** Every text has a longest-match segmentation over the flattened lookup. */
  lemma SegmentationExists(text: string, table: Table)
    requires WellFormed(table)
    ensures exists ps :: Segmentation(ps, text, Flattened(table).entries)
  {
    var flatten := Flattened(table);
    var alts := SortByLength(flatten.order);
    PiecesSegment(text, alts, flatten.entries);
  }

  /** One step of the scan: a longest matching variant at the front is replaced
      by its canonical form, which is emitted as it is; with no match the first
      character is copied. Either way the scan goes on with the rest of the
      input only. */
  lemma ReplacedStep(text: string, table: Table)
    requires WellFormed(table)
    requires text != []
    ensures forall v :: LongestAt(Flattened(table).entries, text, v) ==>
      Replaced(text, table) == Flattened(table).entries[v] + Replaced(text[|v|..], table)
    ensures NoMatchAt(Flattened(table).entries, text) ==>
      Replaced(text, table) == [text[0]] + Replaced(text[1..], table)
  {
    var flatten := Flattened(table);
    if flatten.order != [] {
      match FirstMatch(SortByLength(flatten.order), text)
      case Some(v) =>
        ReplacedMatchStep(text, table, v);
      case None =>
        ReplacedCopyStep(text, table);
    } else {
      assert forall k :: k !in flatten.entries;
    }
  }

  /** The step of the scan when the alternation matches `v` at the front. */
  lemma ReplacedMatchStep(text: string, table: Table, v: string)
    requires WellFormed(table)
    requires Flattened(table).order != []
    requires FirstMatch(SortByLength(Flattened(table).order), text) == Some(v)
    ensures !NoMatchAt(Flattened(table).entries, text)
    ensures forall w :: LongestAt(Flattened(table).entries, text, w) ==>
      Replaced(text, table) == Flattened(table).entries[w] + Replaced(text[|w|..], table)
  {
    var flatten := Flattened(table);
    var alts := SortByLength(flatten.order);
    FirstMatchIsLongest(alts, text);
    assert v in flatten.entries;
    assert Pieces(text, alts)[1..] == Pieces(text[|v|..], alts);
    assert Replaced(text, table) == flatten.entries[v] + Replaced(text[|v|..], table);
    forall w | LongestAt(flatten.entries, text, w) ensures w == v {
      assert |w| == |v|;
      assert w == text[..|w|] == v;
    }
  }

  /** The step of the scan when the alternation matches nothing at the front. */
  lemma ReplacedCopyStep(text: string, table: Table)
    requires WellFormed(table)
    requires text != []
    requires Flattened(table).order != []
    requires FirstMatch(SortByLength(Flattened(table).order), text) == None
    ensures NoMatchAt(Flattened(table).entries, text)
    ensures Replaced(text, table) == [text[0]] + Replaced(text[1..], table)
  {
    var alts := SortByLength(Flattened(table).order);
    assert Pieces(text, alts)[1..] == Pieces(text[1..], alts);
  }

  /** `v` appears somewhere in `text`. */
  ghost predicate OccursIn(v: string, text: string)
  {
    exists k :: 0 <= k <= |text| && v <= text[k..]
  }

  /** No variant of `table` occurs in `text`. */
  ghost predicate NoVariantOccurs(table: Table, text: string)
  {
    forall i, v :: 0 <= i < |table| && v in table[i].variants ==> !OccursIn(v, text)
  }

  /** Where no variant occurs, no key of the lookup starts the text, and no
      variant occurs in the rest of it. */
  lemma NoVariantOccursStep(table: Table, text: string)
    requires NoVariantOccurs(table, text)
    requires text != []
    ensures NoMatchAt(Flattened(table).entries, text)
    ensures NoVariantOccurs(table, text[1..])
  {
    forall w | w in Flattened(table).entries ensures !(w <= text) {
      FlattenedKeys(table, w);
      var i :| 0 <= i < |table| && w in table[i].variants;
      assert !OccursIn(w, text);
      assert text[0..] == text;
    }
    forall i, v | 0 <= i < |table| && v in table[i].variants ensures !OccursIn(v, text[1..]) {
      assert !OccursIn(v, text);
      forall k | 0 <= k <= |text[1..]| ensures !(v <= text[1..][k..]) {
        assert text[1..][k..] == text[k + 1..];
        assert !(v <= text[k + 1..]);
      }
    }
  }

  /** If no variant of the table occurs in the text, the text comes back unchanged. */
  lemma {:induction false} ReplacedNoOccurrence(text: string, table: Table)
    requires WellFormed(table)
    requires NoVariantOccurs(table, text)
    ensures Replaced(text, table) == text
    decreases |text|
  {
    if text != [] {
      NoVariantOccursStep(table, text);
      ReplacedStep(text, table);
      ReplacedNoOccurrence(text[1..], table);
      assert text == [text[0]] + text[1..];
    }
  }

  /** A table without variants (in particular an empty table) leaves every
      text unchanged. */
  lemma ReplacedNoVariants(text: string, table: Table)
    requires forall i :: 0 <= i < |table| ==> table[i].variants == []
    ensures WellFormed(table) && Replaced(text, table) == text
  {
    var flatten := Flattened(table);
    if flatten.order != [] {
      var k := flatten.order[0];
      FlattenedLookup(table, k);
    }
  }

  /** A variant on its own is rewritten to the canonical form of the last entry
      that lists it. */
  lemma ReplacedVariant(table: Table, v: string)
    requires WellFormed(table)
    requires Listed(table, v)
    ensures exists i :: LastListedAt(table, v, i) && Replaced(v, table) == table[i].canonical
  {
    var lookup := Flattened(table).entries;
    FlattenedLookup(table, v);
    var i :| LastListedAt(table, v, i) && lookup[v] == table[i].canonical;
    assert v != [];
    assert LongestAt(lookup, v, v) by {
      forall w | w in lookup && w <= v ensures |w| <= |v| { }
    }
    ReplacedStep(v, table);
    assert v[|v|..] == [];
  }
}
