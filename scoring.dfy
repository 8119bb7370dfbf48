/** What the two-pass scoring of a guess against the secret computes, as
    functions of the two rows' holes, and what it means: exact matches are
    the holes that agree, and all hints together are, colour by colour, the
    smaller of the two counts. */
module Scoring {
  import opened Pegs

  /** Every hole of the row holds a peg. */
  predicate Complete(row: seq<Hole>)
  {
    forall i :: 0 <= i < |row| ==> row[i].Some?
  }

  /** The number of holes where guess and secret hold the same thing
      (two empty holes agree, as two null references compare equal). */
  function ExactMatches(g: seq<Hole>, s: seq<Hole>): nat
    requires |g| == |s|
  {
    if g == [] then 0 else (if g[0] == s[0] then 1 else 0) + ExactMatches(g[1..], s[1..])
  }

  /** The working copy of `a` once the first pass has consumed every hole
      where `a` and `b` agree. */
  function Consume(a: seq<Hole>, b: seq<Hole>): (r: seq<Hole>)
    requires |a| == |b|
    ensures |r| == |a|
    ensures forall i :: 0 <= i < |a| ==> r[i] == if a[i] == b[i] then None else a[i]
  {
    if a == [] then [] else [if a[0] == b[0] then None else a[0]] + Consume(a[1..], b[1..])
  }

  /** The first hole of `s` that holds colour `c`, if any. */
  function FirstIndexOf(s: seq<Hole>, c: CodePeg): (r: Option<nat>)
    ensures r.Some? ==> r.value < |s| && s[r.value] == Some(c)
    ensures r.Some? ==> forall k :: 0 <= k < r.value ==> s[k] != Some(c)
    ensures r.None? ==> forall k :: 0 <= k < |s| ==> s[k] != Some(c)
  {
    if s == [] then None
    else if s[0] == Some(c) then Some(0)
    else match FirstIndexOf(s[1..], c)
      case None => None
      case Some(k) => Some(k + 1)
  }

  /** The second pass: every remaining guess peg, in hole order, consumes the
      first remaining secret peg of its colour and earns a colour-only hint. */
  function ColorOnlyMatches(g: seq<Hole>, s: seq<Hole>): nat
    decreases |g|
  {
    if g == [] then 0
    else match g[0]
      case None => ColorOnlyMatches(g[1..], s)
      case Some(c) =>
        match FirstIndexOf(s, c)
        case None => ColorOnlyMatches(g[1..], s)
        case Some(k) => 1 + ColorOnlyMatches(g[1..], s[k := None])
  }

  /** The hint pegs `computeHints` appends, in the order it appends them. */
  function Score(g: seq<Hole>, s: seq<Hole>): seq<HintPeg>
    requires |g| == |s|
  {
    Repeat(ColorAndPosition, ExactMatches(g, s))
      + Repeat(ColorOnly, ColorOnlyMatches(Consume(g, s), Consume(s, g)))
  }

  // ---------------------------------------------------------------------
  // Reference definitions: colours of a row, counted.

  function ColorsOf(h: Hole): multiset<CodePeg>
  {
    match h
    case None => multiset{}
    case Some(c) => multiset{c}
  }

  /** The colours placed in a row, with multiplicity; empty holes add nothing. */
  function Colors(row: seq<Hole>): multiset<CodePeg>
  {
    if row == [] then multiset{} else ColorsOf(row[0]) + Colors(row[1..])
  }

  /** The colours of the holes where guess and secret hold the same colour. */
  function Agreed(g: seq<Hole>, s: seq<Hole>): multiset<CodePeg>
    requires |g| == |s|
  {
    if g == [] then multiset{}
    else (if g[0] == s[0] then ColorsOf(g[0]) else multiset{}) + Agreed(g[1..], s[1..])
  }

  /** The number of holes empty in both rows. */
  function BothEmpty(g: seq<Hole>, s: seq<Hole>): nat
    requires |g| == |s|
  {
    if g == [] then 0
    else (if g[0] == None && s[0] == None then 1 else 0) + BothEmpty(g[1..], s[1..])
  }

  /** The number of empty holes of a row. */
  function EmptyHoles(row: seq<Hole>): nat
  {
    if row == [] then 0 else (if row[0] == None then 1 else 0) + EmptyHoles(row[1..])
  }

  /** The number of holes of a row that hold colour `c`. */
  function CountOf(row: seq<Hole>, c: CodePeg): nat
  {
    if row == [] then 0 else (if row[0] == Some(c) then 1 else 0) + CountOf(row[1..], c)
  }

  function Min(a: nat, b: nat): nat
  {
    if a <= b then a else b
  }

  /** The sum, over the colours `cs`, of min(count in secret, count in guess). */
  function MinCountSum(cs: seq<CodePeg>, g: seq<Hole>, s: seq<Hole>): nat
  {
    if cs == [] then 0 else Min(CountOf(s, cs[0]), CountOf(g, cs[0])) + MinCountSum(cs[1..], g, s)
  }

  /** The sum, over the colours `cs`, of the multiplicities in `m`. */
  function Multiplicities(cs: seq<CodePeg>, m: multiset<CodePeg>): nat
  {
    if cs == [] then 0 else m[cs[0]] + Multiplicities(cs[1..], m)
  }

  // ---------------------------------------------------------------------
  // The first pass.

  /** The first pass removes exactly the agreed colours from each row. */
  lemma {:induction false} ConsumeSplitGuess(g: seq<Hole>, s: seq<Hole>)
    requires |g| == |s|
    ensures Colors(g) == Colors(Consume(g, s)) + Agreed(g, s)
  {
    if g != [] {
      var g', s' := g[1..], s[1..];
      ConsumeSplitGuess(g', s');
      var a0 := if g[0] == s[0] then ColorsOf(g[0]) else multiset{};
      assert ColorsOf(g[0]) == ColorsOf(Consume(g, s)[0]) + a0;
      calc {
        Colors(g);
        ColorsOf(g[0]) + Colors(g');
        ColorsOf(Consume(g, s)[0]) + a0 + (Colors(Consume(g', s')) + Agreed(g', s'));
        ColorsOf(Consume(g, s)[0]) + Colors(Consume(g', s')) + (a0 + Agreed(g', s'));
        Colors(Consume(g, s)) + Agreed(g, s);
      }
    }
  }

  /** The same for the secret's working copy. */
  lemma {:induction false} ConsumeSplitSecret(g: seq<Hole>, s: seq<Hole>)
    requires |g| == |s|
    ensures Colors(s) == Colors(Consume(s, g)) + Agreed(g, s)
  {
    if g != [] {
      var g', s' := g[1..], s[1..];
      ConsumeSplitSecret(g', s');
      var a0 := if g[0] == s[0] then ColorsOf(g[0]) else multiset{};
      assert ColorsOf(s[0]) == ColorsOf(Consume(s, g)[0]) + a0;
      calc {
        Colors(s);
        ColorsOf(s[0]) + Colors(s');
        ColorsOf(Consume(s, g)[0]) + a0 + (Colors(Consume(s', g')) + Agreed(g', s'));
        ColorsOf(Consume(s, g)[0]) + Colors(Consume(s', g')) + (a0 + Agreed(g', s'));
        Colors(Consume(s, g)) + Agreed(g, s);
      }
    }
  }

  /** The exact matches are the agreed colours plus the holes empty in both. */
  lemma {:induction false} ExactSplit(g: seq<Hole>, s: seq<Hole>)
    requires |g| == |s|
    ensures ExactMatches(g, s) == |Agreed(g, s)| + BothEmpty(g, s)
  {
    if g != [] {
      ExactSplit(g[1..], s[1..]);
    }
  }

  // ---------------------------------------------------------------------
  // The second pass is a maximum matching of colours.

  /** Consuming a hole that holds `c` removes one `c` from the row's colours. */
  lemma {:induction false} ColorsAfterConsume(s: seq<Hole>, k: nat, c: CodePeg)
    requires k < |s| && s[k] == Some(c)
    ensures Colors(s) == Colors(s[k := None]) + multiset{c}
  {
    if k > 0 {
      ColorsAfterConsume(s[1..], k - 1, c);
      assert s[k := None][1..] == s[1..][k - 1 := None];
    } else {
      assert s[k := None][1..] == s[1..];
    }
  }

  /** A colour absent from every hole is absent from the row's colours. */
  lemma {:induction false} ColorsAbsent(s: seq<Hole>, c: CodePeg)
    requires forall k :: 0 <= k < |s| ==> s[k] != Some(c)
    ensures c !in Colors(s)
  {
    if s != [] {
      ColorsAbsent(s[1..], c);
    }
  }

  /** The greedy second pass credits, colour by colour, the smaller of the
      two counts: its total is the size of the colours' intersection. */
  lemma {:induction false} GreedyIsMaximal(g: seq<Hole>, s: seq<Hole>)
    ensures ColorOnlyMatches(g, s) == |Colors(g) * Colors(s)|
    decreases |g|
  {
    if g == [] {
      assert Colors(g) * Colors(s) == multiset{};
    } else {
      match g[0]
      case None =>
        GreedyIsMaximal(g[1..], s);
        assert Colors(g) == Colors(g[1..]);
      case Some(c) =>
        match FirstIndexOf(s, c)
        case None =>
          GreedyIsMaximal(g[1..], s);
          ColorsAbsent(s, c);
          IntersectAbsent(c, Colors(g[1..]), Colors(s));
        case Some(k) =>
          GreedyIsMaximal(g[1..], s[k := None]);
          ColorsAfterConsume(s, k, c);
          IntersectPresent(c, Colors(g[1..]), Colors(s[k := None]));
    }
  }

  // ---------------------------------------------------------------------
  // Multiset arithmetic.

  /** A colour the other side lacks adds nothing to the intersection. */
  lemma IntersectAbsent(c: CodePeg, a: multiset<CodePeg>, b: multiset<CodePeg>)
    requires c !in b
    ensures (multiset{c} + a) * b == a * b
  {
  }

  /** A colour both sides hold once more adds one to the intersection. */
  lemma IntersectPresent(c: CodePeg, a: multiset<CodePeg>, b: multiset<CodePeg>)
    ensures |(multiset{c} + a) * (b + multiset{c})| == |a * b| + 1
  {
    assert (multiset{c} + a) * (b + multiset{c}) == a * b + multiset{c} by {
      assert forall x :: ((multiset{c} + a) * (b + multiset{c}))[x] == (a * b + multiset{c})[x];
    }
  }

  /** Adding the same colours to both sides adds them to the intersection. */
  lemma IntersectShift(a: multiset<CodePeg>, b: multiset<CodePeg>, m: multiset<CodePeg>)
    ensures (a + m) * (b + m) == a * b + m
  {
  }

  /** The intersection is no larger than either side. */
  lemma IntersectAtMost(a: multiset<CodePeg>, b: multiset<CodePeg>)
    ensures |a * b| <= |a|
  {
    assert a == a * b + (a - b) by {
      assert forall x :: a[x] == (a * b + (a - b))[x];
    }
  }

  lemma {:induction false} EmptyAndFilled(row: seq<Hole>)
    ensures |Colors(row)| + EmptyHoles(row) == |row|
  {
    if row != [] {
      EmptyAndFilled(row[1..]);
    }
  }

  lemma {:induction false} BothEmptyAtMost(g: seq<Hole>, s: seq<Hole>)
    requires |g| == |s|
    ensures BothEmpty(g, s) <= EmptyHoles(g)
    ensures Complete(g) ==> BothEmpty(g, s) == 0
  {
    if g != [] {
      BothEmptyAtMost(g[1..], s[1..]);
    }
  }

  // ---------------------------------------------------------------------
  // The scoring theorems.

  /** The number of exact-match hints is the number of agreeing holes. */
  lemma ScoreExact(g: seq<Hole>, s: seq<Hole>)
    requires |g| == |s|
    ensures Count(Score(g, s), ColorAndPosition) == ExactMatches(g, s)
    ensures Count(Score(g, s), ColorOnly) == |Score(g, s)| - ExactMatches(g, s)
  {
    RepeatMultiset(ColorAndPosition, ExactMatches(g, s));
    RepeatMultiset(ColorOnly, ColorOnlyMatches(Consume(g, s), Consume(s, g)));
  }

  /** All hints together are the colours the two rows share, counted with
      multiplicity, plus the holes empty in both (which pass 1 matches). */
  lemma ScoreTotal(g: seq<Hole>, s: seq<Hole>)
    requires |g| == |s|
    ensures |Score(g, s)| == |Colors(g) * Colors(s)| + BothEmpty(g, s)
  {
    ConsumeSplitGuess(g, s);
    ConsumeSplitSecret(g, s);
    ExactSplit(g, s);
    GreedyIsMaximal(Consume(g, s), Consume(s, g));
    IntersectShift(Colors(Consume(g, s)), Colors(Consume(s, g)), Agreed(g, s));
  }

  /** No peg is counted twice: a row never earns more hints than it has holes. */
  lemma ScoreBound(g: seq<Hole>, s: seq<Hole>)
    requires |g| == |s|
    ensures |Score(g, s)| <= |g|
  {
    ScoreTotal(g, s);
    IntersectAtMost(Colors(g), Colors(s));
    EmptyAndFilled(g);
    BothEmptyAtMost(g, s);
  }

  /** Every hole agrees exactly when the two rows are equal. */
  lemma {:induction false} AllExact(g: seq<Hole>, s: seq<Hole>)
    requires |g| == |s|
    ensures ExactMatches(g, s) <= |g|
    ensures ExactMatches(g, s) == |g| <==> g == s
  {
    if g != [] {
      AllExact(g[1..], s[1..]);
      if g[1..] == s[1..] && g[0] == s[0] {
        assert g == [g[0]] + g[1..] && s == [s[0]] + s[1..];
      }
    }
  }

  // ---------------------------------------------------------------------
  // The total, colour by colour.

  lemma {:induction false} ColorsCount(row: seq<Hole>, c: CodePeg)
    ensures Colors(row)[c] == CountOf(row, c)
  {
    if row != [] {
      ColorsCount(row[1..], c);
    }
  }

  lemma {:induction false} MultiplicitiesAdd(cs: seq<CodePeg>, a: multiset<CodePeg>, b: multiset<CodePeg>)
    ensures Multiplicities(cs, a + b) == Multiplicities(cs, a) + Multiplicities(cs, b)
  {
    if cs != [] {
      MultiplicitiesAdd(cs[1..], a, b);
    }
  }

  lemma {:induction false} MultiplicitiesSingle(cs: seq<CodePeg>, x: CodePeg)
    requires Distinct(cs)
    ensures Multiplicities(cs, multiset{x}) == if x in cs then 1 else 0
  {
    if cs != [] {
      MultiplicitiesSingle(cs[1..], x);
      assert x == cs[0] ==> x !in cs[1..];
    }
  }

  lemma {:induction false} MultiplicitiesEmpty(cs: seq<CodePeg>)
    ensures Multiplicities(cs, multiset{}) == 0
  {
    if cs != [] {
      MultiplicitiesEmpty(cs[1..]);
    }
  }

  /** Summing the multiplicities over a list of the colours gives the size. */
  lemma {:induction false} MultiplicitiesSize(cs: seq<CodePeg>, m: multiset<CodePeg>)
    requires Distinct(cs)
    requires forall x :: x in m ==> x in cs
    ensures Multiplicities(cs, m) == |m|
    decreases |m|
  {
    if m == multiset{} {
      MultiplicitiesEmpty(cs);
    } else {
      var x :| x in m;
      var m' := m - multiset{x};
      assert m == m' + multiset{x};
      MultiplicitiesSize(cs, m');
      MultiplicitiesAdd(cs, m', multiset{x});
      MultiplicitiesSingle(cs, x);
    }
  }

  lemma {:induction false} IntersectionByColor(cs: seq<CodePeg>, g: seq<Hole>, s: seq<Hole>)
    ensures Multiplicities(cs, Colors(g) * Colors(s)) == MinCountSum(cs, g, s)
  {
    if cs != [] {
      IntersectionByColor(cs[1..], g, s);
      ColorsCount(g, cs[0]);
      ColorsCount(s, cs[0]);
    }
  }

  lemma PaletteIsComplete(c: CodePeg)
    ensures c in Palette
  {
  }

  /** The colours two rows share, counted with multiplicity, are the sum
      over the palette of each colour's smaller count. */
  lemma SharedByColor(g: seq<Hole>, s: seq<Hole>)
    ensures |Colors(g) * Colors(s)| == MinCountSum(Palette, g, s)
  {
    forall x | x in Colors(g) * Colors(s) ensures x in Palette {
      PaletteIsComplete(x);
    }
    MultiplicitiesSize(Palette, Colors(g) * Colors(s));
    IntersectionByColor(Palette, g, s);
  }

  /** For a complete guess, the number of hints is the sum over all colours
      of min(count in secret, count in guess), which is at most the hole count. */
  lemma ScoreByColor(g: seq<Hole>, s: seq<Hole>)
    requires |g| == |s| && Complete(g)
    ensures |Score(g, s)| == MinCountSum(Palette, g, s) <= |g|
  {
    ScoreTotal(g, s);
    ScoreBound(g, s);
    BothEmptyAtMost(g, s);
    SharedByColor(g, s);
  }
}
