/** The board: fixed-shape storage for one secret row and `nbRows` guess
    rows. A row keeps its code pegs in an array updated in place and its
    hint pegs in a list that only grows. */
module Boards {
  import opened Errors
  import opened Pegs

  /** One row: `nbHoles` ordered holes and an unordered list of hint pegs. */
  class Row {
    const nbHoles: nat
    const codePegs: array<Hole>
    var hintPegs: seq<HintPeg>

    /** The row's shape, and the bound on its hint pegs. */
    ghost predicate Valid()
      reads this
    {
      codePegs.Length == nbHoles && |hintPegs| <= nbHoles
    }

    /** The contents of the holes. */
    function Holes(): seq<Hole>
      reads codePegs
    {
      codePegs[..]
    }

    /** A row of `nbHoles` empty holes and no hint pegs. */
    constructor (nbHoles: nat)
      ensures Valid() && this.nbHoles == nbHoles && fresh(codePegs)
      ensures Holes() == Repeat(None, nbHoles) && hintPegs == []
    {
      this.nbHoles := nbHoles;
      codePegs := new Hole[nbHoles](_ => None);
      hintPegs := [];
      new;
      assert Holes() == Repeat(None, nbHoles);
    }

    /** A copy of the holes: the caller may change it without touching the row. */
    method GetCodePegs() returns (res: array<Hole>)
      requires Valid()
      ensures fresh(res) && res[..] == Holes()
    {
      res := new Hole[nbHoles];
      forall i | 0 <= i < nbHoles {
        res[i] := codePegs[i];
      }
    }

    /** Puts `codePeg` into hole `position`; any other position is out of the array. */
    method SetCodePeg(position: int, codePeg: Hole) returns (o: Outcome)
      requires Valid()
      modifies codePegs
      ensures o == if 0 <= position < nbHoles then Done else Failed(ArrayIndexOutOfRange)
      ensures Holes() == if o.Done? then old(Holes())[position := codePeg] else old(Holes())
    {
      if !(0 <= position < nbHoles) {
        return Failed(ArrayIndexOutOfRange);
      }
      codePegs[position] := codePeg;
      o := Done;
    }

    /** Copies `pegs` into the holes; a list of the wrong length is refused. */
    method SetCodePegs(pegs: seq<Hole>) returns (o: Outcome)
      requires Valid()
      modifies codePegs
      ensures o == if |pegs| == nbHoles then Done else Failed(WrongPegCount)
      ensures Holes() == if o.Done? then pegs else old(Holes())
    {
      if |pegs| != nbHoles {
        return Failed(WrongPegCount);
      }
      forall i | 0 <= i < nbHoles {
        codePegs[i] := pegs[i];
      }
      o := Done;
    }

    /** The hint pegs, sorted for display; the stored list is not reordered. */
    method GetHintPegs() returns (res: seq<HintPeg>)
      ensures SortedHints(res)
      ensures multiset(res) == multiset(hintPegs)
    {
      res := SortHints(hintPegs);
      SortHintsCorrect(hintPegs);
    }

    /** Appends one hint peg, unless the row already holds one per hole. */
    method AddHintPeg(hintPeg: HintPeg) returns (o: Outcome)
      requires Valid()
      modifies this
      ensures Valid()
      ensures o == if |old(hintPegs)| == nbHoles then Failed(HintOverflow) else Done
      ensures hintPegs == if o.Done? then old(hintPegs) + [hintPeg] else old(hintPegs)
    {
      if |hintPegs| == nbHoles {
        return Failed(HintOverflow);
      }
      hintPegs := hintPegs + [hintPeg];
      o := Done;
    }
  }

  /** The board: the secret row and the guess rows, all of one width. */
  class Board {
    const nbRows: nat
    ghost const nbHoles: nat
    const secretRow: Row
    const guessRows: array<Row?>
    /** The guess rows the board was built with; the array never changes. */
    ghost const rows: seq<Row>
    /** The objects the board is made of: the row array and the rows. */
    ghost const Repr: set<object>

    /** The shape of the board, and that no two rows share any storage. It
        reads only the board and its row array, so changing a row's hint
        pegs cannot break it. */
    ghost predicate Valid()
      reads this, guessRows
    {
      && guessRows in Repr && secretRow in Repr
      && (forall i :: 0 <= i < |rows| ==> rows[i] in Repr)
      && guessRows.Length == nbRows && |rows| == nbRows
      && (forall i :: 0 <= i < nbRows ==> guessRows[i] == rows[i])
      && secretRow.nbHoles == nbHoles && secretRow.codePegs.Length == nbHoles
      && (forall i :: 0 <= i < nbRows ==> rows[i].nbHoles == nbHoles && rows[i].codePegs.Length == nbHoles)
      && (forall i :: 0 <= i < nbRows ==> rows[i] != secretRow && rows[i].codePegs != secretRow.codePegs)
      && (forall i, j :: 0 <= i < j < nbRows ==> rows[i] != rows[j] && rows[i].codePegs != rows[j].codePegs)
    }

    /** Every row of the board keeps its own invariant. */
    ghost predicate RowsValid()
      requires Valid()
      reads this, guessRows, Repr
    {
      secretRow.Valid() && forall i :: 0 <= i < nbRows ==> rows[i].Valid()
    }

    /** A board whose `nbRows + 1` rows are all new, empty and `nbHoles` wide. */
    constructor (nbHoles: nat, nbRows: nat)
      ensures Valid() && RowsValid() && this.nbHoles == nbHoles && this.nbRows == nbRows
      ensures fresh(Repr) && fresh(secretRow.codePegs)
      ensures secretRow.Holes() == Repeat(None, nbHoles) && secretRow.hintPegs == []
      ensures forall i :: 0 <= i < nbRows ==> fresh(rows[i]) && fresh(rows[i].codePegs)
      ensures forall i :: 0 <= i < nbRows ==> rows[i].Holes() == Repeat(None, nbHoles) && rows[i].hintPegs == []
    {
      this.nbRows := nbRows;
      this.nbHoles := nbHoles;
      var secret := new Row(nbHoles);
      var guesses, made := NewGuessRows(nbHoles, nbRows);
      secretRow := secret;
      guessRows := guesses;
      rows := made;
      Repr := {secret, guesses} + set r | r in made;
    }

    /** A new array holding the board's own guess rows: changing a row
        obtained from it changes the board. */
    method GetGuessRows() returns (res: array<Row?>)
      requires Valid()
      ensures fresh(res) && res.Length == nbRows
      ensures forall i :: 0 <= i < nbRows ==> res[i] == rows[i]
    {
      res := new Row?[nbRows];
      forall i | 0 <= i < nbRows {
        res[i] := guessRows[i];
      }
    }
  }

  /** The guess-row array of a new board: `nbRows` new, distinct, empty rows
      of `nbHoles` holes each, filled in index order. */
  method NewGuessRows(nbHoles: nat, nbRows: nat) returns (guesses: array<Row?>, ghost made: seq<Row>)
    ensures fresh(guesses) && guesses.Length == nbRows && |made| == nbRows
    ensures forall k :: 0 <= k < nbRows ==> guesses[k] == made[k]
    ensures forall k :: 0 <= k < nbRows ==> fresh(made[k]) && fresh(made[k].codePegs)
    ensures forall k :: 0 <= k < nbRows ==> made[k].nbHoles == nbHoles && made[k].Valid()
    ensures forall k :: 0 <= k < nbRows ==> made[k].Holes() == Repeat(None, nbHoles) && made[k].hintPegs == []
    ensures forall j, k :: 0 <= j < k < nbRows ==> made[j] != made[k] && made[j].codePegs != made[k].codePegs
  {
    guesses := new Row?[nbRows];
    made := [];
    for i := 0 to nbRows
      invariant |made| == i
      invariant forall k :: 0 <= k < i ==> guesses[k] == made[k]
      invariant forall k :: 0 <= k < i ==> fresh(made[k]) && fresh(made[k].codePegs)
      invariant forall k :: 0 <= k < i ==> made[k].nbHoles == nbHoles && made[k].Valid()
      invariant forall k :: 0 <= k < i ==> made[k].Holes() == Repeat(None, nbHoles) && made[k].hintPegs == []
      invariant forall j, k :: 0 <= j < k < i ==> made[j] != made[k] && made[j].codePegs != made[k].codePegs
    {
      var row := new Row(nbHoles);
      guesses[i] := row;
      made := made + [row];
    }
  }
}
