/** The peg vocabulary: code pegs (colours placed in holes), hint pegs
    (the feedback) and the display order of hint pegs. */
module Pegs {

  datatype Option<T> = None | Some(value: T)

  /** A colour that can be placed in a hole of the secret or of a guess. */
  datatype CodePeg = Red | Green | Blue | Yellow | Orange | Purple

  /** `CodePeg.values()`: every colour, in declaration order. */
  const Palette: seq<CodePeg> := [Red, Green, Blue, Yellow, Orange, Purple]

  /** A hole of a row: empty (Java's null) or holding one code peg. */
  type Hole = Option<CodePeg>

  /** A feedback peg: right colour in the right hole, or right colour only. */
  datatype HintPeg = ColorAndPosition | ColorOnly

  /** The key of the hint comparator: exact matches sort first. */
  function Rank(h: HintPeg): nat
  {
    match h
    case ColorAndPosition => 0
    case ColorOnly => 1
  }

  predicate Distinct<T(==)>(xs: seq<T>)
  {
    forall i, j :: 0 <= i < j < |xs| ==> xs[i] != xs[j]
  }

  /** `n` copies of `x`. */
  function Repeat<T>(x: T, n: nat): seq<T>
  {
    seq(n, _ => x)
  }

  /** How many pegs of kind `h` the list holds. */
  function Count(s: seq<HintPeg>, h: HintPeg): nat
  {
    multiset(s)[h]
  }

  /** The list is in comparator order. */
  predicate SortedHints(s: seq<HintPeg>)
  {
    forall i, j :: 0 <= i < j < |s| ==> Rank(s[i]) <= Rank(s[j])
  }

  /** The hint list in comparator order: every exact-match peg, then every colour-only peg. */
  function SortHints(s: seq<HintPeg>): seq<HintPeg>
  {
    Repeat(ColorAndPosition, Count(s, ColorAndPosition)) + Repeat(ColorOnly, Count(s, ColorOnly))
  }

  lemma {:induction false} RepeatMultiset(x: HintPeg, n: nat)
    ensures multiset(Repeat(x, n))[x] == n
    ensures forall y :: y != x ==> multiset(Repeat(x, n))[y] == 0
  {
    if n > 0 {
      RepeatMultiset(x, n - 1);
      assert Repeat(x, n) == Repeat(x, n - 1) + [x];
    }
  }

  /** Sorting the hint list yields a sorted permutation of it. */
  lemma SortHintsCorrect(s: seq<HintPeg>)
    ensures SortedHints(SortHints(s))
    ensures multiset(SortHints(s)) == multiset(s)
  {
    var a, b := Count(s, ColorAndPosition), Count(s, ColorOnly);
    RepeatMultiset(ColorAndPosition, a);
    RepeatMultiset(ColorOnly, b);
    var m := multiset(SortHints(s));
    assert m[ColorAndPosition] == multiset(s)[ColorAndPosition];
    assert m[ColorOnly] == multiset(s)[ColorOnly];
    assert forall h :: m[h] == multiset(s)[h] by {
      forall h ensures m[h] == multiset(s)[h] {
        match h
        case ColorAndPosition =>
        case ColorOnly =>
      }
    }
  }

  /** A list never holds more pegs of one kind than pegs in all. */
  lemma CountAtMostLength(s: seq<HintPeg>, h: HintPeg)
    ensures Count(s, h) <= |s|
  {
  }

  /** In a sorted list, the leading run of exact-match pegs is all of them. */
  lemma LeadingRunCount(s: seq<HintPeg>, i: nat)
    requires SortedHints(s) && i <= |s|
    requires forall k :: 0 <= k < i ==> s[k] == ColorAndPosition
    requires i < |s| ==> s[i] != ColorAndPosition
    ensures s == Repeat(ColorAndPosition, i) + Repeat(ColorOnly, |s| - i)
    ensures Count(s, ColorAndPosition) == i
  {
    assert s == Repeat(ColorAndPosition, i) + Repeat(ColorOnly, |s| - i) by {
      forall k | i <= k < |s| ensures s[k] == ColorOnly {
        assert Rank(s[i]) <= Rank(s[k]) || k == i;
      }
    }
    RepeatMultiset(ColorAndPosition, i);
    RepeatMultiset(ColorOnly, |s| - i);
  }

  /** A sorted hint list is its own sorted form. */
  lemma SortedIsSortHints(s: seq<HintPeg>)
    requires SortedHints(s)
    ensures s == SortHints(s)
  {
    var i := 0;
    while i < |s| && s[i] == ColorAndPosition
      invariant i <= |s|
      invariant forall k :: 0 <= k < i ==> s[k] == ColorAndPosition
    {
      i := i + 1;
    }
    LeadingRunCount(s, i);
    RepeatMultiset(ColorAndPosition, i);
    RepeatMultiset(ColorOnly, |s| - i);
  }

  /** Two sorted hint lists holding the same pegs are equal, so the sorted
      form of a list is the only sorted permutation of it. */
  lemma SortedHintsUnique(a: seq<HintPeg>, b: seq<HintPeg>)
    requires SortedHints(a) && SortedHints(b) && multiset(a) == multiset(b)
    ensures a == b
  {
    SortedIsSortHints(a);
    SortedIsSortHints(b);
  }
}
