/** Two worked rows: the hints a concrete guess earns against a concrete
    secret, traced through both passes. */
module Scenarios {
  import opened Pegs
  import opened Scoring

  const R: Hole := Some(Red)
  const G: Hole := Some(Green)
  const B: Hole := Some(Blue)
  const Y: Hole := Some(Yellow)
  const P: Hole := Some(Purple)

  /** Secret red-green-blue-yellow, guess red-blue-green-purple: red is in
      place, blue and green are swapped, purple is absent. */
  lemma SwappedPair()
    ensures Score([R, B, G, P], [R, G, B, Y]) == [ColorAndPosition, ColorOnly, ColorOnly]
  {
    var g, s := [R, B, G, P], [R, G, B, Y];
    assert ExactMatches(g[3..], s[3..]) == 0;
    assert ExactMatches(g[2..], s[2..]) == 0;
    assert ExactMatches(g[1..], s[1..]) == 0;
    assert ExactMatches(g, s) == 1;
    var cg, cs := Consume(g, s), Consume(s, g);
    assert cg == [None, B, G, P] && cs == [None, G, B, Y];
    assert FirstIndexOf([None, None, None, Y], Purple) == None;
    assert ColorOnlyMatches([P], [None, None, None, Y]) == 0;
    assert FirstIndexOf([None, G, None, Y], Green) == Some(1);
    assert [G, P][1..] == [P] && [None, G, None, Y][1 := None] == [None, None, None, Y];
    assert ColorOnlyMatches([G, P], [None, G, None, Y]) == 1;
    assert FirstIndexOf(cs, Blue) == Some(2);
    assert [B, G, P][1..] == [G, P] && cs[2 := None] == [None, G, None, Y];
    assert ColorOnlyMatches([B, G, P], cs) == 2;
    assert cg[1..] == [B, G, P];
    assert ColorOnlyMatches(cg, cs) == 2;
  }

  /** Secret red-red-green-blue, guess red-green-red-blue: the first red and
      the blue are in place, and the guess's green and second red each find
      a peg of their colour among the secret's two holes left over, so the
      guess earns four hints. */
  lemma RepeatedColour()
    ensures Score([R, G, R, B], [R, R, G, B])
         == [ColorAndPosition, ColorAndPosition, ColorOnly, ColorOnly]
  {
    var g, s := [R, G, R, B], [R, R, G, B];
    assert ExactMatches(g[3..], s[3..]) == 1;
    assert ExactMatches(g[2..], s[2..]) == 1;
    assert ExactMatches(g[1..], s[1..]) == 1;
    assert ExactMatches(g, s) == 2;
    var cg, cs := Consume(g, s), Consume(s, g);
    assert cg == [None, G, R, None] && cs == [None, R, G, None];
    assert ColorOnlyMatches([None], [None, None, None, None]) == 0;
    assert FirstIndexOf([None, R, None, None], Red) == Some(1);
    assert [R, None][1..] == [None] && [None, R, None, None][1 := None] == [None, None, None, None];
    assert ColorOnlyMatches([R, None], [None, R, None, None]) == 1;
    assert FirstIndexOf(cs, Green) == Some(2);
    assert [G, R, None][1..] == [R, None] && cs[2 := None] == [None, R, None, None];
    assert ColorOnlyMatches([G, R, None], cs) == 2;
    assert cg[1..] == [G, R, None];
    assert ColorOnlyMatches(cg, cs) == 2;
  }
}
