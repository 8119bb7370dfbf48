/** An ongoing game: a board plus the cursor `currentGuess`, the index of
    the guess row being played, which moves from 0 up to `nbRows`. */
module Games {
  import opened Errors
  import opened Pegs
  import opened Scoring
  import opened Boards

  datatype GuessResult = TryAgain | GameOver | YouWon

  class Game {
    const nbHoles: nat
    const nbRows: nat
    const board: Board
    var currentGuess: nat

    /** The board's shape and the cursor's range. */
    ghost predicate Shape()
      reads this, board, board.guessRows, board.Repr
    {
      && this !in board.Repr
      && board.Valid() && board.RowsValid() && board.nbHoles == nbHoles && board.nbRows == nbRows
      && currentGuess <= nbRows
    }

    /** How far play has come on the rows other than the cursor's: every row
        before the cursor was scored without a win and the rows after it are
        unscored. */
    ghost predicate Played()
      requires Shape()
      reads this, board, board.guessRows, board.Repr
    {
      && (forall r :: 0 <= r < currentGuess ==> Count(board.rows[r].hintPegs, ColorAndPosition) < nbHoles)
      && (forall r :: currentGuess < r < nbRows ==> board.rows[r].hintPegs == [])
    }

    /** The game's invariant: besides the shape and the rows played, the row
        at the cursor is unscored or was won. */
    ghost predicate Valid()
      reads this, board, board.guessRows, board.Repr
    {
      && Shape() && Played()
      && (currentGuess < nbRows ==>
            || board.rows[currentGuess].hintPegs == []
            || Count(board.rows[currentGuess].hintPegs, ColorAndPosition) == nbHoles)
    }

    /** A game on a new, empty board, at its first row. */
    constructor (nbHoles: nat, nbRows: nat)
      ensures Valid() && this.nbHoles == nbHoles && this.nbRows == nbRows && currentGuess == 0
      ensures fresh(board) && fresh(board.Repr) && fresh(board.secretRow.codePegs)
      ensures forall r :: 0 <= r < nbRows ==> fresh(board.rows[r]) && fresh(board.rows[r].codePegs)
      ensures board.secretRow.Holes() == Repeat(None, nbHoles) && board.secretRow.hintPegs == []
      ensures forall r :: 0 <= r < nbRows ==>
                board.rows[r].Holes() == Repeat(None, nbHoles) && board.rows[r].hintPegs == []
    {
      this.nbHoles := nbHoles;
      this.nbRows := nbRows;
      board := new Board(nbHoles, nbRows);
      currentGuess := 0;
    }

    /** Sets the secret; a list of the wrong length is refused. */
    method SetSecret(codePegs: seq<Hole>) returns (o: Outcome)
      requires Valid()
      modifies board.secretRow.codePegs
      ensures Valid()
      ensures o == if |codePegs| == nbHoles then Done else Failed(WrongPegCount)
      ensures board.secretRow.Holes() == if o.Done? then codePegs else old(board.secretRow.Holes())
    {
      o := board.secretRow.SetCodePegs(codePegs);
    }

    /** Fills every hole of the secret with a colour of the palette, each
        chosen independently and arbitrarily. */
    method SetRandomSecret()
      requires Valid()
      modifies board.secretRow.codePegs
      ensures Valid()
      ensures |board.secretRow.Holes()| == nbHoles && Complete(board.secretRow.Holes())
      ensures forall i :: 0 <= i < nbHoles ==> board.secretRow.Holes()[i].value in Palette
    {
      var secret: seq<CodePeg> := [];
      var values := Palette;
      for i := 0 to nbHoles
        invariant |secret| == i
        invariant forall k :: 0 <= k < i ==> secret[k] in Palette
      {
        var pick :| 0 <= pick < |values|;
        secret := secret + [values[pick]];
      }
      var o := board.secretRow.SetCodePegs(seq(nbHoles, k requires 0 <= k < nbHoles => Some(secret[k])));
    }

    /** A copy of the secret's holes. */
    method GetSecret() returns (res: array<Hole>)
      requires Valid()
      ensures fresh(res) && res[..] == board.secretRow.Holes()
    {
      res := board.secretRow.GetCodePegs();
    }

    /** Puts `codePeg` into hole `holeIndex` of guess row `rowIndex`, which
        need not be the current row. */
    method SetGuess(rowIndex: int, holeIndex: int, codePeg: Hole) returns (o: Outcome)
      requires Valid()
      modifies if 0 <= rowIndex < nbRows then {board.rows[rowIndex].codePegs} else {}
      ensures Valid()
      ensures o == if rowIndex >= nbRows then Failed(RowIndexOutOfRange)
                   else if holeIndex >= nbHoles then Failed(HoleIndexOutOfRange)
                   else if rowIndex < 0 || holeIndex < 0 then Failed(ArrayIndexOutOfRange)
                   else Done
      ensures o.Done? ==> board.rows[rowIndex].Holes() == old(board.rows[rowIndex].Holes())[holeIndex := codePeg]
      ensures forall r :: 0 <= r < nbRows && (r != rowIndex || o.Failed?) ==>
                board.rows[r].Holes() == old(board.rows[r].Holes())
      ensures board.secretRow.Holes() == old(board.secretRow.Holes())
    {
      if rowIndex >= nbRows {
        return Failed(RowIndexOutOfRange);
      }
      if holeIndex >= nbHoles {
        return Failed(HoleIndexOutOfRange);
      }
      if rowIndex < 0 {
        return Failed(ArrayIndexOutOfRange);
      }
      var rows := board.GetGuessRows();
      o := rows[rowIndex].SetCodePeg(holeIndex, codePeg);
    }

    /** Whether every hole of guess row `rowIndex` holds a peg. */
    method IsRowComplete(rowIndex: int) returns (r: Result<bool>)
      requires Valid()
      ensures !(0 <= rowIndex < nbRows) ==> r == Err(ArrayIndexOutOfRange)
      ensures 0 <= rowIndex < nbRows ==> r.Ok? && (r.value <==> Complete(board.rows[rowIndex].Holes()))
    {
      if !(0 <= rowIndex < nbRows) {
        return Err(ArrayIndexOutOfRange);
      }
      var rows := board.GetGuessRows();
      var row := rows[rowIndex];
      for i := 0 to nbHoles
        invariant forall k :: 0 <= k < i ==> row.codePegs[k].Some?
      {
        var pegs := row.GetCodePegs();
        if pegs[i] == None {
          return Ok(false);
        }
      }
      return Ok(true);
    }

    /** Scores the current row against the secret and appends the hints to
        the row: exact matches first, then colour-only matches. Works on
        copies of both rows, so their holes keep their pegs. If the row fills
        up, the next hint overflows and scoring stops there. */
    method ComputeHints() returns (o: Outcome)
      requires Valid() && currentGuess < nbRows
      modifies board.rows[currentGuess]
      ensures board.Valid() && board.RowsValid()
      ensures var H, L := old(board.rows[currentGuess].hintPegs),
                          Score(old(board.rows[currentGuess].Holes()), old(board.secretRow.Holes()));
              && o == (if |H| + |L| <= nbHoles then Done else Failed(HintOverflow))
              && board.rows[currentGuess].hintPegs == if o.Done? then H + L else (H + L)[..nbHoles]
      ensures board.rows[currentGuess].Holes() == old(board.rows[currentGuess].Holes())
      ensures board.secretRow.Holes() == old(board.secretRow.Holes())
    {
      var rows := board.GetGuessRows();
      var guessRow := rows[currentGuess];
      var guessPegs := guessRow.GetCodePegs();
      var secretRow := board.secretRow;
      var secretPegs := secretRow.GetCodePegs();
      ghost var g, s, H := guessPegs[..], secretPegs[..], guessRow.hintPegs;
      ghost var L := Score(g, s);
      ghost var exact := Repeat(ColorAndPosition, ExactMatches(g, s));
      o := MarkExactMatches(guessRow, guessPegs, secretPegs);
      if o.Failed? {
        assert (H + L)[..nbHoles] == (H + exact)[..nbHoles];
        return;
      }
      assert guessRow.hintPegs == H + exact;
      o := MarkColorMatches(guessRow, guessPegs, secretPegs);
      assert H + L == H + exact + Repeat(ColorOnly, ColorOnlyMatches(Consume(g, s), Consume(s, g)));
    }

    /** Scores the current row and decides the outcome: a win when the row
        earned one exact-match hint per hole (the cursor then stays), and
        otherwise the cursor moves on and the game is over when it passes the
        last row. Fails when no row is left. */
    method ValidateGuess() returns (r: Result<GuessResult>)
      requires Valid()
      modifies this, if currentGuess < nbRows then {board.rows[currentGuess]} else {}
      ensures Valid()
      ensures old(currentGuess) == nbRows ==> r == Err(NoGuessesLeft) && currentGuess == nbRows
      ensures old(currentGuess) < nbRows ==>
                var row := board.rows[old(currentGuess)];
                var H, L := old(row.hintPegs), Score(row.Holes(), board.secretRow.Holes());
                if |H| + |L| > nbHoles then
                  && r == Err(HintOverflow) && row.hintPegs == (H + L)[..nbHoles] == H
                  && currentGuess == old(currentGuess)
                else
                  && row.hintPegs == H + L && r.Ok?
                  && (r.value == YouWon <==> Count(H + L, ColorAndPosition) == nbHoles)
                  && (r.value == YouWon ==> currentGuess == old(currentGuess))
                  && (r.value != YouWon ==> currentGuess == old(currentGuess) + 1)
                  && (r.value == GameOver <==> r.value != YouWon && currentGuess == nbRows)
      ensures old(currentGuess) < nbRows && old(board.rows[currentGuess].hintPegs) == [] ==>
                var row := board.rows[old(currentGuess)];
                && row.hintPegs == Score(row.Holes(), board.secretRow.Holes())
                && r.Ok? && (r.value == YouWon <==> row.Holes() == board.secretRow.Holes())
    {
      if currentGuess == nbRows {
        return Err(NoGuessesLeft);
      }
      ghost var row := board.rows[currentGuess];
      ghost var g, s, H := row.Holes(), board.secretRow.Holes(), row.hintPegs;
      ghost var L := Score(g, s);
      ScoreBound(g, s);
      CountAtMostLength(H, ColorAndPosition);
      var o := ComputeHints();
      assert forall r :: 0 <= r < nbRows && r != currentGuess ==>
        board.rows[r].hintPegs == old(board.rows[r].hintPegs);
      if o.Failed? {
        assert |H| == nbHoles && row.hintPegs == H;
        return Err(o.error);
      }
      assert row.hintPegs == H + L;
      ScoreExact(g, s);
      AllExact(g, s);
      var res := Decide();
      assert row.hintPegs == H + L && row.Holes() == g && board.secretRow.Holes() == s;
      return Ok(res);
    }

    /** The decision half of scoring, once the row at the cursor holds its
        hints: a win when it earned one exact-match hint per hole (the cursor
        then stays), and otherwise the cursor moves on and the game is over
        when it passes the last row. */
    method Decide() returns (res: GuessResult)
      requires Shape() && Played() && currentGuess < nbRows
      modifies this
      ensures Valid()
      ensures var exact := Count(board.rows[old(currentGuess)].hintPegs, ColorAndPosition);
              && (res == YouWon <==> exact == nbHoles)
              && currentGuess == (if res == YouWon then old(currentGuess) else old(currentGuess) + 1)
              && (res == GameOver <==> res != YouWon && currentGuess == nbRows)
    {
      var rows := board.GetGuessRows();
      var hintPegs := rows[currentGuess].GetHintPegs();
      var i := LeadingExactRun(hintPegs);
      CountAtMostLength(rows[currentGuess].hintPegs, ColorAndPosition);
      if i == nbHoles {
        return YouWon;
      }
      currentGuess := currentGuess + 1;
      if currentGuess == nbRows {
        return GameOver;
      }
      return TryAgain;
    }

    /** The hint pegs of guess row `rowIndex`, sorted for display. */
    method GetHints(rowIndex: int) returns (r: Result<seq<HintPeg>>)
      requires Valid()
      ensures !(0 <= rowIndex < nbRows) ==> r == Err(ArrayIndexOutOfRange)
      ensures 0 <= rowIndex < nbRows ==>
                && r.Ok? && SortedHints(r.value)
                && multiset(r.value) == multiset(board.rows[rowIndex].hintPegs)
    {
      if !(0 <= rowIndex < nbRows) {
        return Err(ArrayIndexOutOfRange);
      }
      var rows := board.GetGuessRows();
      var hints := rows[rowIndex].GetHintPegs();
      return Ok(hints);
    }

    /** The cursor: the index of the row being played, at most `nbRows`. */
    method GetCurrentGuess() returns (r: nat)
      requires Valid()
      ensures r == currentGuess && r <= nbRows
    {
      r := currentGuess;
    }
  }

  /** The loop of `validateGuess` over the sorted hints: the length of the
      leading run of exact-match pegs, which for a sorted list is the number
      of exact-match pegs. */
  method LeadingExactRun(hintPegs: seq<HintPeg>) returns (i: nat)
    requires SortedHints(hintPegs)
    ensures i == Count(hintPegs, ColorAndPosition)
  {
    i := 0;
    while i < |hintPegs|
      invariant i <= |hintPegs|
      invariant forall k :: 0 <= k < i ==> hintPegs[k] == ColorAndPosition
    {
      if hintPegs[i] != ColorAndPosition {
        break;
      }
      i := i + 1;
    }
    LeadingRunCount(hintPegs, i);
  }

  /** The first loop of `computeHints`: every hole where the two working
      copies agree earns an exact-match hint and is consumed in both. */
  method MarkExactMatches(row: Row, guessPegs: array<Hole>, secretPegs: array<Hole>) returns (o: Outcome)
    requires row.Valid() && guessPegs.Length == secretPegs.Length == row.nbHoles
    requires guessPegs != secretPegs
    modifies row, guessPegs, secretPegs
    ensures row.Valid()
    ensures var n, H := row.nbHoles, old(row.hintPegs);
            var E := Repeat(ColorAndPosition, ExactMatches(old(guessPegs[..]), old(secretPegs[..])));
            && o == (if |H| + |E| <= n then Done else Failed(HintOverflow))
            && row.hintPegs == (if o.Done? then H + E else (H + E)[..n])
    ensures o.Done? ==> guessPegs[..] == Consume(old(guessPegs[..]), old(secretPegs[..]))
    ensures o.Done? ==> secretPegs[..] == Consume(old(secretPegs[..]), old(guessPegs[..]))
  {
    ghost var g, s, H := guessPegs[..], secretPegs[..], row.hintPegs;
    ghost var exact := ExactMatches(g, s);
    ghost var e := 0;
    o := Done;
    for idx := 0 to row.nbHoles
      invariant row.Valid() && row.hintPegs == H + Repeat(ColorAndPosition, e)
      invariant e + ExactMatches(g[idx..], s[idx..]) == exact
      invariant o == Done
      invariant forall k :: 0 <= k < idx ==> guessPegs[k] == (if g[k] == s[k] then None else g[k])
      invariant forall k :: 0 <= k < idx ==> secretPegs[k] == (if g[k] == s[k] then None else s[k])
      invariant forall k :: idx <= k < row.nbHoles ==> guessPegs[k] == g[k] && secretPegs[k] == s[k]
    {
      assert g[idx..][1..] == g[idx + 1..] && s[idx..][1..] == s[idx + 1..];
      var guessPeg := guessPegs[idx];
      var secretPeg := secretPegs[idx];
      if secretPeg == guessPeg {
        o := row.AddHintPeg(ColorAndPosition);
        if o.Failed? {
          assert (H + Repeat(ColorAndPosition, exact))[..row.nbHoles] == H + Repeat(ColorAndPosition, e);
          return;
        }
        e := e + 1;
        secretPegs[idx] := None;
        guessPegs[idx] := None;
      }
    }
    assert g[row.nbHoles..] == [] && s[row.nbHoles..] == [];
    assert guessPegs[..] == Consume(g, s);
    assert secretPegs[..] == Consume(s, g);
  }

  /** The second loop of `computeHints`: every remaining guess peg, in hole
      order, looks for the first remaining secret peg of its colour; if there
      is one it earns a colour-only hint and both are consumed. */
  method MarkColorMatches(row: Row, guessPegs: array<Hole>, secretPegs: array<Hole>) returns (o: Outcome)
    requires row.Valid() && guessPegs.Length == secretPegs.Length == row.nbHoles
    requires guessPegs != secretPegs
    modifies row, guessPegs, secretPegs
    ensures row.Valid()
    ensures var n, H := row.nbHoles, old(row.hintPegs);
            var C := Repeat(ColorOnly, ColorOnlyMatches(old(guessPegs[..]), old(secretPegs[..])));
            && o == (if |H| + |C| <= n then Done else Failed(HintOverflow))
            && row.hintPegs == (if o.Done? then H + C else (H + C)[..n])
  {
    ghost var g, H := guessPegs[..], row.hintPegs;
    ghost var others := ColorOnlyMatches(g, secretPegs[..]);
    ghost var c := 0;
    o := Done;
    for guessIdx := 0 to row.nbHoles
      invariant o == Done
      invariant row.Valid() && row.hintPegs == H + Repeat(ColorOnly, c)
      invariant forall k :: guessIdx <= k < row.nbHoles ==> guessPegs[k] == g[k]
      invariant c + ColorOnlyMatches(g[guessIdx..], secretPegs[..]) == others
    {
      assert g[guessIdx..][1..] == g[guessIdx + 1..];
      var guessPeg := guessPegs[guessIdx];
      if guessPeg != None {
        ghost var before, hints := secretPegs[..], row.hintPegs;
        var secretIdx := 0;
        while secretIdx < row.nbHoles
          invariant 0 <= secretIdx <= row.nbHoles
          invariant forall k :: 0 <= k < secretIdx ==> secretPegs[k] != guessPeg
          invariant o == Done
          invariant secretPegs[..] == before && row.hintPegs == hints
          invariant forall k :: guessIdx <= k < row.nbHoles ==> guessPegs[k] == g[k]
        {
          var secretPeg := secretPegs[secretIdx];
          if secretPeg == guessPeg {
            assert FirstIndexOf(before, guessPeg.value) == Some(secretIdx);
            o := row.AddHintPeg(ColorOnly);
            if o.Failed? {
              assert (H + Repeat(ColorOnly, others))[..row.nbHoles] == H + Repeat(ColorOnly, c);
              return;
            }
            guessPegs[guessIdx] := None;
            secretPegs[secretIdx] := None;
            c := c + 1;
            break;
          }
          secretIdx := secretIdx + 1;
        }
      }
    }
    assert g[row.nbHoles..] == [];
    assert c == others;
  }
}
