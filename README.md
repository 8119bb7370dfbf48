# ColorSecret engine in Dafny

A model of the game engine of ColorSecret, a Mastermind-style code-breaking
game for Android: the board (`Board` and its nested `Row`) and the game state
machine (`Game`) with its two-pass scoring of a guess against the secret.

- `errors.dfy` (`Errors`): the exceptions the Java code throws, as values.
  A call that throws returns `Failed(e)` or `Err(e)`; one that returns
  normally returns `Done` or `Ok(v)`.
- `pegs.dfy` (`Pegs`): the code pegs (`CodePeg`, six colours, and the
  `Palette` that stands for `CodePeg.values()`), a hole as `Option<CodePeg>`
  (`None` is Java's `null`), the hint pegs, and their display order, in which
  exact-match pegs come first.
- `scoring.dfy` (`Scoring`): what `computeHints` computes, written as pure
  functions of the two rows' holes (`ExactMatches`, `Consume`, `FirstIndexOf`,
  `ColorOnlyMatches`, `Score`). Beside them is an independent reference
  definition: the colours of a row as a multiset, and the colour-by-colour sum
  of minimum counts. The theorems connect the two.
- `board.dfy` (`Boards`): the classes `Row` and `Board`. A row's code pegs
  are an array updated in place. Its hint pegs are a list that only grows.
  `Board.Valid` states the board's shape and that no two rows share a `Row`
  object or a hole array.
- `game.dfy` (`Games`): the class `Game`, with the cursor `currentGuess`.
  `Game.Valid` says the cursor is in `[0, nbRows]`. It also says that every
  row before the cursor was scored without a win, the row at the cursor is
  unscored or was won, and every row after it is unscored. `computeHints` is
  modelled as `ComputeHints`, a method that works on array copies. It runs its
  two loops as `MarkExactMatches` and `MarkColorMatches`, each proved against
  the `Scoring` function for its pass. The part of `validateGuess` after scoring
  is the method `Decide`.
- `scenarios.dfy` (`Scenarios`): two concrete rows traced through both passes.

Two behaviours of the code are modelled as written:

- Pass 1 compares with `==`. Two empty holes therefore agree and earn an
  exact-match hint. The colour theorems count them separately (`BothEmpty`).
- After a win the cursor stays put. Calling `validateGuess` again re-scores
  the won row. Its first new hint overflows the row (`Err(HintOverflow)`),
  and the hints already stored stay as they were.

Secret red-red-green-blue against guess red-green-red-blue is sometimes said
to earn three hints. The code awards four: two exact, and two colour-only,
for the guess's green and its second red. The model follows the code
(`Scenarios.RepeatedColour`).

## Model

| member | source | states |
|---|---|---|
| Boards.Row.constructor | src/org/jraf/android/colorsecret/model/Board.java:32-36 | a new row has `nbHoles` holes, all empty, in a new array, and no hint pegs |
| Boards.Row.GetCodePegs | src/org/jraf/android/colorsecret/model/Board.java:38-42 | the result is a new array equal element-wise to the holes, so changing it leaves the row alone |
| Boards.Row.SetCodePeg | src/org/jraf/android/colorsecret/model/Board.java:44-46 | a position in range replaces exactly that hole; any other position fails with an array-index error and changes nothing; only the hole array may change |
| Boards.Row.SetCodePegs | src/org/jraf/android/colorsecret/model/Board.java:48-53 | a list of the wrong length fails with an argument error and changes nothing; otherwise the holes equal the list |
| Boards.Row.GetHintPegs | src/org/jraf/android/colorsecret/model/Board.java:55-59 | the result is sorted with exact matches first and is a permutation of the stored hints, which it does not change |
| Boards.Row.AddHintPeg | src/org/jraf/android/colorsecret/model/Board.java:61-66 | a full row fails with an overflow and is unchanged; otherwise exactly one peg is appended; the hint count never exceeds `nbHoles` |
| Boards.Board.constructor | src/org/jraf/android/colorsecret/model/Board.java:72-79 | the board is valid with the given shape: one empty secret row and `nbRows` new, distinct, empty guess rows of width `nbHoles` |
| Boards.NewGuessRows | src/org/jraf/android/colorsecret/model/Board.java:75-78 | the loop filling the row array gives `nbRows` new rows, pairwise distinct and not sharing hole arrays, each empty and `nbHoles` wide |
| Boards.Board.GetGuessRows | src/org/jraf/android/colorsecret/model/Board.java:85-89 | the result is a new array of length `nbRows` holding the board's own row objects |
| Pegs.SortHintsCorrect | src/org/jraf/android/colorsecret/model/Board.java:55-59 | the sorted form of a hint list is sorted and is a permutation of it |
| Pegs.SortedHintsUnique | src/org/jraf/android/colorsecret/model/Board.java:55-59 | two sorted hint lists with the same pegs are equal, so the sorted result is determined by the stored hints |
| Pegs.SortedIsSortHints | src/org/jraf/android/colorsecret/model/Board.java:55-59 | a sorted hint list equals its own sorted form |
| Pegs.LeadingRunCount | src/org/jraf/android/colorsecret/model/Game.java:113-121 | in a sorted list, a leading run of exact-match pegs that ends at the first other peg holds every exact-match peg |
| Games.Game.constructor | src/org/jraf/android/colorsecret/model/Game.java:51-63 | a new game is valid, has the cursor at 0 and a new, empty board of the given shape |
| Games.Game.SetSecret | src/org/jraf/android/colorsecret/model/Game.java:69-71 | a wrong-length list fails and leaves the secret alone; otherwise the secret's holes equal the list |
| Games.Game.SetRandomSecret | src/org/jraf/android/colorsecret/model/Game.java:73-82 | the secret ends with `nbHoles` holes, every one holding a colour of the palette |
| Games.Game.GetSecret | src/org/jraf/android/colorsecret/model/Game.java:84-86 | the result is a new array equal to the secret's holes |
| Games.Game.SetGuess | src/org/jraf/android/colorsecret/model/Game.java:88-96 | `rowIndex >= nbRows` fails first, then `holeIndex >= nbHoles`, then a negative index; on success exactly that hole of that row changes; the other rows and the secret stay as they were |
| Games.Game.IsRowComplete | src/org/jraf/android/colorsecret/model/Game.java:98-106 | an out-of-range row fails; otherwise the answer is true if and only if every hole of the row holds a peg |
| Games.Game.ComputeHints | src/org/jraf/android/colorsecret/model/Game.java:135-177 | the row's hints become the old hints followed by `Score(guess, secret)`; on overflow they are that list cut at `nbHoles`; the holes of the guess and the secret keep their pegs |
| Games.MarkExactMatches | src/org/jraf/android/colorsecret/model/Game.java:141-151 | pass 1 appends one exact-match hint per agreeing hole, or the prefix up to the overflow; both working copies end up consumed as `Consume` says |
| Games.MarkColorMatches | src/org/jraf/android/colorsecret/model/Game.java:153-175 | pass 2 appends `ColorOnlyMatches` colour-only hints, each guess peg taking the first remaining secret peg of its colour, or the prefix up to the overflow |
| Games.Game.ValidateGuess | src/org/jraf/android/colorsecret/model/Game.java:108-130 | fails when no row is left; an overflow leaves the hints and the cursor unchanged; otherwise the row gets its score; it is a win exactly when there are `nbHoles` exact-match hints, and for a fresh row exactly when guess equals secret; a win keeps the cursor, anything else advances it by one; the result is game over exactly when the cursor reaches `nbRows`; the invariant is kept |
| Games.Game.Decide | src/org/jraf/android/colorsecret/model/Game.java:113-129 | after scoring, the outcome is a win exactly when the current row holds `nbHoles` exact-match hints; the cursor rules and the game-over rule; the game invariant is restored |
| Games.LeadingExactRun | src/org/jraf/android/colorsecret/model/Game.java:113-121 | the counting loop over the sorted hints returns the number of exact-match hints |
| Games.Game.GetHints | src/org/jraf/android/colorsecret/model/Game.java:179-181 | an out-of-range row fails; otherwise the result is the row's hints, sorted |
| Games.Game.GetCurrentGuess | src/org/jraf/android/colorsecret/model/Game.java:183-185 | the cursor, which is at most `nbRows` |
| Scoring.ExactMatches | src/org/jraf/android/colorsecret/model/Game.java:142-151 | a definition with no contract of its own: the number of holes where guess and secret hold the same thing; `Games.MarkExactMatches` is proved to append exactly this many hints, and `Scoring.ScoreExact` and `Scoring.AllExact` state what it means |
| Scoring.ColorOnlyMatches | src/org/jraf/android/colorsecret/model/Game.java:153-175 | a definition with no contract of its own: the greedy second pass over the consumed copies; `Games.MarkColorMatches` is proved to append exactly this many hints, and `Scoring.GreedyIsMaximal` states that it equals the shared colours counted with multiplicity |
| Scoring.Score | src/org/jraf/android/colorsecret/model/Game.java:135-177 | a definition with no contract of its own: the hint list `computeHints` appends, exact matches then colour-only matches; `Games.Game.ComputeHints` is proved to append it, and `Scoring.ScoreExact`, `Scoring.ScoreTotal`, `Scoring.ScoreBound` and `Scoring.ScoreByColor` state what it means |
| Pegs.SortHints | src/org/jraf/android/colorsecret/model/Board.java:55-59 | a definition with no contract of its own: the result of sorting the hint list; `Pegs.SortHintsCorrect` states that it is a sorted permutation, and `Pegs.SortedHintsUnique` that it is the only one |
| Scoring.Consume | src/org/jraf/android/colorsecret/model/Game.java:145-149 | after pass 1 a working copy keeps its length; a hole is empty where the two rows agreed and unchanged elsewhere |
| Scoring.FirstIndexOf | src/org/jraf/android/colorsecret/model/Game.java:163-173 | the search finds a hole of the colour with none before it, or reports that no hole has it |
| Scoring.ScoreExact | src/org/jraf/android/colorsecret/model/Game.java:142-151 | the number of exact-match hints equals the number of holes where guess and secret agree; the rest are colour-only |
| Scoring.AllExact | src/org/jraf/android/colorsecret/model/Game.java:142-151 | the agreeing holes are at most the hole count, and they are all of them if and only if guess equals secret |
| Scoring.GreedyIsMaximal | src/org/jraf/android/colorsecret/model/Game.java:155-175 | the greedy pass 2 matches exactly the colours the two working copies share, counted with multiplicity |
| Scoring.ScoreTotal | src/org/jraf/android/colorsecret/model/Game.java:142-175 | the number of hints is the size of the multiset intersection of the two rows' colours, plus the holes empty in both |
| Scoring.ScoreBound | src/org/jraf/android/colorsecret/model/Game.java:142-175 | no peg is counted twice: a row never earns more hints than it has holes |
| Scoring.SharedByColor | src/org/jraf/android/colorsecret/model/Game.java:155-175 | the shared colours number, summed over the palette, the smaller of each colour's two counts |
| Scoring.ScoreByColor | src/org/jraf/android/colorsecret/model/Game.java:142-175 | for a complete guess, the hints number the sum over all colours of the smaller of the two counts, which is at most the hole count |
| Scenarios.SwappedPair | src/org/jraf/android/colorsecret/model/Game.java:142-175 | secret red-green-blue-yellow against guess red-blue-green-purple earns one exact and two colour-only hints |
| Scenarios.RepeatedColour | src/org/jraf/android/colorsecret/model/Game.java:142-175 | secret red-red-green-blue against guess red-green-red-blue earns two exact and two colour-only hints |

## Left out

- `java.util.Random` in `setRandomSecret`: each hole gets an arbitrary colour of the palette, chosen without a generator. The model says nothing about distribution.
- `Log.d` debug logging in `setRandomSecret`: it has no effect on the state.
- `CodePeg`, `HintPeg` and `HintPeg.COMPARATOR`: their Java source is not among the modelled files, so they are defined here minimally: six colours, and a comparator that puts exact matches first. `Collections.sort` is modelled by its result, the sorted permutation, and not as a sorting algorithm.
- `Board.getSecretRow` and `Game.getBoard` are read as the fields `secretRow` and `board`. They return the stored objects, so no copy is involved.
- Boards.Board.constructor: sizes are `nat`, so the `NegativeArraySizeException` of a negative `nbHoles` or `nbRows` is not modelled. The same holds for `Boards.Row.constructor` and `Games.Game.constructor`.
- Boards.Row.SetCodePegs: the argument is a value sequence, not a caller-owned array. A `null` argument (a `NullPointerException`) and aliasing with the caller's array are not modelled. The same holds for `Games.Game.SetSecret`.
- Games.MarkColorMatches: it does not state what the working copies hold afterwards. `computeHints` discards them.
- Java `int` arithmetic: the only counters are the cursor and loop indices, and they stay within `[0, nbRows]` and `[0, nbHoles]`, so wrap-around cannot occur.
- Games.Game.ValidateGuess, Games.Game.ComputeHints and Games.Game.Decide are specified only on states that `Game`'s own methods reach, the states `Game.Valid` describes. Java's public `getBoard()` and public `Row.addHintPeg`, like `board.rows[r].AddHintPeg` here, let a caller put hints on rows directly and reach other states. The application's activity never does this.
- Concurrency: the engine is single-threaded, and so is the model.
