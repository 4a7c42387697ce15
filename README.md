# Game search and diagonal sudoku, modelled in Dafny

This project models two small programs. Both come from an AI coursework
repository.

**Isolation agent** (`p_isolation/game_agent.py`). `CustomPlayer` picks a move
in the board game Isolation. The pieces modelled are:

- the depth-limited `minimax` search and `alphabeta`, its alpha-beta pruning
  variant, each of which checks a clock on entry and raises `Timeout` when it
  runs low;
- the `get_move` driver, which searches at one fixed depth or deepens
  iteratively (depths 1, 2, 3, …) until the clock runs out;
- the integer heuristic `score_heuristic_3` and its helper `count_helper`.

The board is a finite game tree: each node carries its legal moves in order,
each with the node it leads to. The evaluator is a function parameter. Scores
are integers extended with -inf and +inf. The clock is the `timeLeft` field
of the player object. Each search call that passes its clock check uses up
one millisecond.

**Diagonal sudoku solver** (`p_sudoku/solution.py`). A board maps each of the
81 box names (`A1` … `I9`) to its string of remaining candidate digits. The
pieces modelled are:

- the unit and peer tables;
- the grid parser `grid_values` and the recorder `assign_value`;
- the propagation strategies `eliminate`, `only_choice` and `naked_twins`;
- the fixpoint loop `reduce_puzzle`;
- the backtracking `search` and `solve`.

Solutions are stated against one reference predicate, `IsSolution`: a digit in
every box, and no two peers with the same digit. Peers are boxes that share a
row, column, 3×3 square or main diagonal. Every strategy is proved to only
remove candidates, and never one that such a solution uses. `search` is
proved to succeed exactly when the board it is given has a solution.

Source files:

| file | modules |
|---|---|
| `scores.dfy` | `Scores`: the extended scores |
| `game_tree.dfy` | `GameTree`: moves, players, game trees, search results |
| `search.dfy` | `Search`: minimax and alpha-beta as pure folds, and the number of search calls each makes |
| `search_proofs.dfy` | `SearchProofs`: what minimax selects; alpha-beta agrees with minimax |
| `agent.dfy` | `Agent`: the `CustomPlayer` class with its clock and the iterative-deepening driver |
| `agent_proofs.dfy` | `AgentProofs`: properties of iterative deepening |
| `heuristic.dfy` | `Heuristic`: `count_helper` and `score_heuristic_3` |
| `sudoku_tables.dfy` | `SudokuTables`: `cross`, boxes, units, peers |
| `sudoku_values.dfy` | `SudokuValues`: boards, solutions, `grid_values`, `assign_value` |
| `sudoku_reduce.dfy` | `SudokuReduce`: `eliminate`, `only_choice` |
| `sudoku_twins.dfy` | `SudokuTwins`: `naked_twins` |
| `sudoku_search.dfy` | `SudokuSearch`: `reduce_puzzle`, `search`, `solve` |

## Model

| member | source | states |
|---|---|---|
| Scores.LtTotal | p_isolation/game_agent.py:314-315 | the strict score comparison used by both searches is a strict total order on -inf, the integers and +inf |
| Agent.CustomPlayer.constructor | p_isolation/game_agent.py:171-180 | the player keeps its depth, evaluator, iterative flag, method, threshold and student flag |
| Agent.CustomPlayer.Minimax | p_isolation/game_agent.py:303-321 | every call, at every depth, checks the clock against the threshold first (303-304); the search completes exactly when the clock covers every search call it makes; it then returns the minimax value and move and has used one millisecond per call; otherwise Timeout reaches the caller |
| Agent.CustomPlayer.AlphaBeta | p_isolation/game_agent.py:400-436 | the same for alpha-beta with window (alpha, beta), whose clock check is at 400-401: it completes exactly when the clock covers the calls the pruned search makes, and returns the alpha-beta value and move |
| Agent.CustomPlayer.SearchAt | p_isolation/game_agent.py:260-263 | one search by the configured method at a depth, with the same completion and clock guarantees |
| Agent.CustomPlayer.GetMove | p_isolation/game_agent.py:224-276 | a returned move is (-1,-1), one of the given legal moves or a legal move of the root, and when the given list is exactly the root's legal moves it is (-1,-1) or one of them; raises Timeout if the clock is already low; returns (-1,-1) with no legal moves; returns (3,3) for the student agent when legal; otherwise returns the move of the fixed-depth search, or (-1,-1) if it timed out; with iterative deepening it returns the kept best over exactly the depths the clock let complete; after the first clock check the time left is at least the threshold minus one, and exactly that after iterative deepening, which runs until a search times out |
| Search.Minimax | p_isolation/game_agent.py:306-321 | the returned move is (-1,-1) or one of the node's legal moves |
| Search.MinimaxFrom | p_isolation/game_agent.py:310-317 | the loop's result is the best it started with, or carries a legal move from the i-th on |
| Search.AlphaBeta | p_isolation/game_agent.py:403-436 | the returned move is (-1,-1) or one of the node's legal moves |
| Search.AlphaBetaFrom | p_isolation/game_agent.py:415-430 | the loop's result is the best it started with, or carries a legal move from the i-th on |
| SearchProofs.MinimaxSelectsFirstBest | p_isolation/game_agent.py:306-317 | at depth > 0 no child beats the returned score; the result is (initial ±inf, (-1,-1)) exactly when no child improves on ±inf, otherwise it is the first child reaching the best score, with that child's move |
| SearchProofs.MinimaxFromSelects | p_isolation/game_agent.py:310-317 | the loop over legal moves keeps the first strictly best child seen so far |
| SearchProofs.AlphaBetaBounded | p_isolation/game_agent.py:407-430 | for any window alpha < beta, the alpha-beta score is at most alpha when minimax is, equals minimax strictly inside the window, and is at least beta when minimax is (Knuth and Moore) |
| SearchProofs.RootMax | p_isolation/game_agent.py:415-422 | at a maximizing root with beta = +inf no cutoff happens and the alpha-beta loop gives the minimax loop's score and move |
| SearchProofs.RootMin | p_isolation/game_agent.py:423-430 | at a minimizing root with alpha = -inf the same holds |
| SearchProofs.AlphaBetaMatchesMinimax | p_isolation/game_agent.py:368-436 | with the default window (-inf, +inf), alpha-beta returns the same score and move as minimax at every depth |
| SearchProofs.AlphaBetaCostBound | p_isolation/game_agent.py:419-428 | the cutoffs only skip work: alpha-beta makes no more search calls than minimax at the same depth |
| AgentProofs.BestOverIsFirstMaximum | p_isolation/game_agent.py:257-267 | after depths 1..k the kept (score, move) scores at least as much as every completed depth; it is (-inf, (-1,-1)) or the result of the first depth to reach that score, a score above -inf |
| AgentProofs.AllLostKeepsNoMove | p_isolation/game_agent.py:238-267 | when every completed depth scores -inf, no depth replaces the initial best and the move returned is (-1,-1) |
| Agent.Searched | p_isolation/game_agent.py:260-263 | the move a search of either method returns from the root is (-1,-1) or a legal move of the root |
| Agent.BestOver | p_isolation/game_agent.py:257-267 | the kept result is the initial (-inf, (-1,-1)) or scores above -inf, and its move is (-1,-1) or a legal move of the root |
| Agent.Completed | p_isolation/game_agent.py:257-276 | the number of completed depths is zero or at most the budget of search calls plus one, since every search makes at least one call |
| AgentProofs.DeepeningNeverWorseThanDepthOne | p_isolation/game_agent.py:257-267 | the kept score is never below the depth-1 score |
| AgentProofs.SearchedAgree | p_isolation/game_agent.py:260-263 | the minimax and alphabeta methods return the same result at every depth |
| AgentProofs.BestOverAgree | p_isolation/game_agent.py:257-267 | iterative deepening keeps the same result with either method |
| AgentProofs.CompletedMonotone | p_isolation/game_agent.py:257-276 | more time never completes fewer depths |
| AgentProofs.AlphaBetaCompletesAtLeastAsDeep | p_isolation/game_agent.py:257-276 | with the same budget of search calls, alphabeta completes at least as many depths as minimax |
| AgentProofs.KeepsEarlierDepthMove | p_isolation/game_agent.py:264-266 | on a two-level tree, depth 2 completes with a lower score than depth 1, and the depth-1 move is the one kept |
| Heuristic.CountHelper | p_isolation/game_agent.py:59-83 | returns 0 when depth <= 0, otherwise the number of moves that are blank squares |
| Heuristic.ScoreHeuristic3 | p_isolation/game_agent.py:85-117 | the count of own moves on blank squares minus the count of the opponent's |
| Heuristic.Occurrences | p_isolation/game_agent.py:61-64 | the count never exceeds the number of moves |
| Heuristic.OccurrencesCountsBlankMoves | p_isolation/game_agent.py:61-64 | the count equals the number of moves that are blank, so it is at most the number of moves |
| Heuristic.AllBlankCountsEveryMove | p_isolation/game_agent.py:61-64 | when every move is onto a blank square, every move is counted |
| Heuristic.ComponentsCountNothing | p_isolation/game_agent.py:66-82 | a recursive call handed one coordinate pair counts nothing: its entries are integers, never squares |
| Heuristic.Without | p_isolation/game_agent.py:65 | the list without the move keeps every other blank square and no copy of the move |
| SudokuTables.Cross | p_sudoku/solution.py:5-7 | the cross product of A and B has |A|·|B| entries |
| SudokuTables.CrossAt | p_sudoku/solution.py:5-7 | entry i·|B|+j of the cross product is A[i]+B[j]: row-major order |
| SudokuTables.CrossMembers | p_sudoku/solution.py:5-7 | the members of the cross product are exactly the two-character strings with first character in A and second in B |
| SudokuTables.CrossDistinct | p_sudoku/solution.py:5-7 | the cross product of two repetition-free strings repeats nothing |
| SudokuTables.BoxesAreCross | p_sudoku/solution.py:9 | the boxes are the cross of the rows and columns |
| SudokuTables.BoxesShape | p_sudoku/solution.py:9 | 81 boxes without repetition: exactly the names row letter + column digit |
| SudokuTables.RowUnitsShape | p_sudoku/solution.py:11 | each row unit is 9 distinct boxes |
| SudokuTables.ColumnUnitsShape | p_sudoku/solution.py:12 | each column unit is 9 distinct boxes |
| SudokuTables.SquareUnitsShape | p_sudoku/solution.py:13 | each square unit is 9 distinct boxes |
| SudokuTables.DiagonalUnitsShape | p_sudoku/solution.py:14 | both diagonal units are 9 distinct boxes |
| SudokuTables.UnitList | p_sudoku/solution.py:16 | there are 29 units |
| SudokuTables.UnitShape | p_sudoku/solution.py:11-16 | every unit is 9 distinct boxes |
| SudokuTables.Units | p_sudoku/solution.py:17 | the units of s are exactly the units that contain s |
| SudokuTables.Peers | p_sudoku/solution.py:18 | the peers of s are exactly the other boxes sharing a unit with s; all are boxes |
| SudokuTables.PeerFacts | p_sudoku/solution.py:18 | a box is not its own peer, and being peers is symmetric |
| SudokuTables.UnitPeers | p_sudoku/solution.py:17-18 | two different boxes of one unit are peers |
| SudokuValues.Recorder.constructor | p_sudoku/solution.py:20 | the list of assignments starts empty |
| SudokuValues.Recorder.AssignValue | p_sudoku/solution.py:22-30 | the box gets the value; a snapshot of the new board is appended exactly when the value has length 1, and the list is otherwise unchanged |
| SudokuValues.GridValues | p_sudoku/solution.py:55-65 | fails exactly when the grid does not yield 81 kept characters; otherwise the board maps the i-th box to the i-th kept string |
| SudokuValues.Kept | p_sudoku/solution.py:55-65 | each kept string is all nine digits or a single digit |
| SudokuValues.KeptOfPlainGrid | p_sudoku/solution.py:58-62 | on a grid of digits and dots, each digit is kept as itself and each dot becomes all nine digits |
| SudokuValues.KeptSkips | p_sudoku/solution.py:58-62 | any other character is ignored |
| SudokuValues.ZipBoxes | p_sudoku/solution.py:65 | pairing the 81 strings with the boxes gives a board on exactly the boxes, in order |
| SudokuValues.Replace | p_sudoku/solution.py:82 | removing a one-character string removes exactly that character and keeps the others |
| SudokuValues.EraseAll | p_sudoku/solution.py:52 | removing a character class keeps exactly the characters not in it |
| SudokuValues.SolvedCountGrows | p_sudoku/solution.py:98-106 | if single-valued boxes stay single-valued, the count of single-valued boxes does not fall, and it rises if a new one appears |
| SudokuValues.TotalLengthShrinks | p_sudoku/solution.py:126-129 | boxes that lose candidates lower the total number of candidates |
| SudokuReduce.SolvedBoxes | p_sudoku/solution.py:78 | the list holds exactly the single-valued boxes |
| SudokuReduce.SolvedBoxesCount | p_sudoku/solution.py:98 | its length is the count of single-valued boxes |
| SudokuReduce.EmptyBoxes | p_sudoku/solution.py:108 | the list holds exactly the boxes without candidates |
| SudokuReduce.ClearPeers | p_sudoku/solution.py:80-82 | every peer of the box loses the box's digit, and no other box changes |
| SudokuReduce.Eliminate | p_sudoku/solution.py:77-83 | only peers of boxes solved at the start change and they only lose candidates; a solved box that keeps its digit has it in none of its peers; every removed candidate was the digit of a solved peer; no solution is lost |
| SudokuReduce.Places | p_sudoku/solution.py:88 | exactly the boxes of the unit whose candidates hold the digit |
| SudokuReduce.OnlyPlaceGetsDigit | p_sudoku/solution.py:88-90 | on a board with a solution, a digit's only place in a unit that a solution-keeping step leaves single-valued holds exactly that digit |
| SudokuReduce.ChooseInUnit | p_sudoku/solution.py:87-90 | every box that was a digit's only place in the unit at the start ends single-valued; boxes only change to one of their candidates; no solution is lost |
| SudokuReduce.OnlyChoice | p_sudoku/solution.py:85-91 | every box that was the only place of a digit in some unit becomes single-valued; boxes only change to one of their candidates; no solution is lost |
| SudokuTwins.Twins | p_sudoku/solution.py:48 | the twins are exactly the boxes of the unit holding that exact string |
| SudokuTwins.TwinsDistinct | p_sudoku/solution.py:48 | in a unit without repetition, the twins repeat no box |
| SudokuTwins.TwinsRuleOut | p_sudoku/solution.py:49-52 | when as many boxes hold a string as it is long, no other box of the unit takes one of its digits in any solution |
| SudokuTwins.EraseTwins | p_sudoku/solution.py:50-52 | boxes of the unit equal to the twin string are untouched, the others lose its characters, and boxes outside the unit are unchanged |
| SudokuTwins.EraseTwinsSound | p_sudoku/solution.py:49-52 | that erasure only removes candidates and loses no solution |
| SudokuTwins.TwinsInUnit | p_sudoku/solution.py:45-52 | one unit's pass only removes candidates, loses no solution, and leaves boxes outside the unit unchanged |
| SudokuTwins.NakedTwins | p_sudoku/solution.py:32-53 | the pass over columns and rows only removes candidates and loses no solution |
| SudokuSearch.PicksNarrows | p_sudoku/solution.py:90 | setting a box to one of its candidates only removes candidates |
| SudokuSearch.EmptyBoxUnsolvable | p_sudoku/solution.py:108-109 | a box left without candidates means the board had no solution |
| SudokuSearch.RoundGrows | p_sudoku/solution.py:98-104 | a round that empties no box does not lower the count of single-valued boxes |
| SudokuSearch.StalledRound | p_sudoku/solution.py:106 | a round that empties no box and adds no single-valued box leaves a board whose single digits are absent from their peers and on which only_choice has nothing left to do |
| SudokuSearch.ReducePuzzle | p_sudoku/solution.py:93-110 | terminates; returns False only when the board has no solution; otherwise the board only lost candidates, kept every solution, has no empty box, has no single digit repeated in a peer, and is an only_choice fixpoint |
| SudokuSearch.StrLessAsymmetric | p_sudoku/solution.py:124 | string order is asymmetric, hence irreflexive |
| SudokuSearch.StrLessTransitive | p_sudoku/solution.py:124 | string order is transitive |
| SudokuSearch.StrLessTotal | p_sudoku/solution.py:124 | string order is total |
| SudokuSearch.Fewest | p_sudoku/solution.py:124 | none exactly when no box has more than one candidate; otherwise a box with more than one candidate, minimal in (candidate count, name) order |
| SudokuSearch.FewestIsMinimum | p_sudoku/solution.py:124 | no box with more than one candidate comes before the chosen box in (candidate count, name) order: it is the minimum `min` returns |
| SudokuSearch.BranchShrinks | p_sudoku/solution.py:126-129 | fixing the chosen box to a candidate narrows the board and lowers its candidate total, so the recursion ends |
| SudokuSearch.BranchFails | p_sudoku/solution.py:126-131 | a branch that finds nothing rules its candidate out of every solution |
| SudokuSearch.Search | p_sudoku/solution.py:116-131 | a returned board narrows the input, has one candidate per box and no digit repeated among peers; no board is returned exactly when the input has no solution |
| SudokuSearch.SolvedBoardSolves | p_sudoku/solution.py:121-122 | a returned board read as a grid is a solution, and one the input allowed |
| SudokuSearch.GridDigits | p_sudoku/solution.py:55-65 | a parsed board holds only the digits 1-9 |
| SudokuSearch.Solve | p_sudoku/solution.py:112-113 | fails only when parsing fails; otherwise it solves exactly when the parsed board has a solution, and what it returns is such a solution |

## Left out

- `score_heuristic_1` is not modelled. It counts each player's moves one ply ahead through `forecast_move`, on board state the model does not have.
- `score_heuristic_2` is not modelled. It computes with square roots and floating-point distances to the centre.
- `custom_score` is not modelled as a link: the searches take any evaluator, and nothing ties `Heuristic.ScoreHeuristic3` to the evaluator a player is built with.
- Agent.CustomPlayer.constructor: the defaults of `__init__` (depth 3, `custom_score`, iterative, "minimax", threshold 10, not a student) are not modelled. Every argument is passed explicitly.
- Agent.CustomPlayer.constructor: the threshold is a float in the code and an integer number of milliseconds in the model, like the clock.
- The board class of the Isolation game is not part of this model. Legal moves, successor states and blank squares come from the game tree and from parameters.
- The symmetry skip of `alphabeta` (`find_symmetry`, `find_rotation`, the `visited_p` list and `num_moves`) is not modelled. The search is modelled as with `is_student` false. `find_rotation` is never called.
- The wall clock is not modelled. `time_left()` is read from the `timeLeft` field, which each search call that passes its check lowers by one millisecond.
- A `method` setting other than "minimax" or "alphabeta" is not modelled. With iterative deepening the code would then fail at game_agent.py:264 with an unbound `v`, an error the `Timeout` handler does not catch. At a fixed depth it would return (-1,-1).
- Agent.CustomPlayer.GetMove: the model follows the code, which replaces its best only when a completed depth scores strictly higher. It does not return the last completed depth's move.
- `display`, the `__main__` block, the speech recognizer and the second sudoku script are not modelled. They print, use a graphics library or use modules that are not part of this model.
- Dictionary iteration order is modelled as the order of the boxes. This is the insertion order `grid_values` gives. Peers are visited in an unspecified order, as Python's set iteration is.
- The model passes boards as values. In-place updates of the caller's dictionary are not modelled, and neither is aliasing between `values` and the boards `search` copies.
- `re.sub('[' + digits + ']', '', s)` is modelled as removing every character of `digits`. Characters that are special inside a regular-expression class do not occur in candidate strings.
- Float scores are modelled as integers extended with -inf and +inf. Scores are integer differences or infinities.
- SudokuReduce.Eliminate: the contract does not spell out the final board box by box. It states which boxes may change, what they lose and why, and that no solution is lost.
- SudokuReduce.ChooseInUnit: the contract does not say a digit's only place ends holding that digit. A later digit of the same unit can overwrite it: with candidates "12" and "23" and no other 1, 2 or 3 in the unit, digit 1 fixes the first box to "1", then 2 has one place left and fixes the second box to "2", though it was 3's only place. SudokuReduce.OnlyPlaceGetsDigit states what holds when the board has a solution.
- SudokuReduce.OnlyChoice: the contract states every box it must fix and that changes only pick candidates. It does not state the exact board, because a later unit can fix a box an earlier one relied on.
- SudokuTwins.NakedTwins: only soundness is stated (candidates only shrink, no solution lost). Which candidates are removed is stated one twin group at a time, by SudokuTwins.EraseTwins.
- SudokuTwins.TwinsInUnit: the contract does not list which twin groups fired. Each firing is described exactly by SudokuTwins.EraseTwins.
- SudokuSearch.Search: the contract does not say which solution is returned when several exist. The loop does try the candidates in string order and returns the first success.
- SudokuSearch.Search: needs a board whose candidates are digits. Every board `grid_values` builds is one.
