# Tornado sweeper deduction engine in Dafny

This project models the deduction engine of the tornado-sweeper agent. The
game is Minesweeper on a hexagonal N x N board: every cell has at most six
neighbours, at the offsets (-1,-1), (-1,0), (0,-1), (+1,+1), (+1,0) and
(0,+1). The model covers:

- **The game** (`game.dfy`, class `Games.Game`). It holds the world map,
  the cells in column-major order and the list of covered cells. It also
  holds the `gameOver`, `gameWon` and `satisfiable` flags.
- **The agent's knowledge board** (`agent.dfy`, class `Agents.Agent`).
  - Its state is a `char` view that starts all `'?'`, plus the lists
    `cells`, `unprovedCells`, `provedCells`, `uncoveredCells` and
    `tornadoCells`, and the counter `cellsWithFreeNeighbours`.
  - Its operations are `proveCell`, `setDanger`, the flood fill
    `uncoverNeighbours`, the single-point rules `isAFN`/`isAMN`, `SPS`,
    and the encoders `buildClause` and `buildKB`.
- **A cell** (`cell.dfy`, class `Cells.Cell`). It has fixed coordinates and
  a hint that `setHint` overwrites, depending on the agent type.
- **The DIMACS literal numbering** (`dimacs.dfy`, class
  `DimacsFormat.Dimacs`). It maps a literal and its `~` complement to
  opposite odd numbers.

The agent's methods are imperative Dafny over the same state as the
source. Each method is proved against a pure specification:

| specification | module | what it describes |
|---|---|---|
| `NeighbourCoords` | `Grid` | adjacency |
| `Dangers`, `Unknowns`, `AFN`, `AMN`, `FirstVerdict` | `Rules` | the single-point rules and the SPS scan |
| `Permutations`, `Negated`, `ClauseText`, `CellClause`, `Kb` | `Encoding` | clause and knowledge-base text |
| `Encode`, `EncodeAll` | `DimacsFormat` | the literal map |

The view is read as a grid of characters (`View()`). The world map is read
the same way (`World()`). `Rules.Consistent(view, world)` says that the
view shows nothing false. The lemmas prove four things:

- The rules and the flood fill are sound: on a consistent view, a cell that
  AFN or a revealed '0' shows safe is no tornado, and a cell that AMN
  flags is one.
- Every step of the agent keeps the view consistent with the world.
- The clause text has the shape the encoder promises.
- The DIMACS numbering keeps its pairing invariant.

Facts about the code that the model keeps as written:

- The negation count of `buildClause` is `unknowns - hint - flagged`
  (src/Agent.java:448). A clause saying that exactly `hint - flagged` of
  the unknown neighbours are tornadoes would need `unknowns - (hint -
  flagged)` negations. The two agree only when no neighbour is flagged.
  `Encoding.NegationCount` is the code's count.
- The clause enumerates all k! orderings of the literals
  (src/Agent.java:445-453), so the same term can appear more than once.
- Adjacency has six offsets (src/Agent.java:218-260).
- src/Game.java as given declares no `satisfiable` field and no
  `isSatisfiable` or `setSatisfiable` method, yet src/Agent.java:527, 573
  and 652-653 call them. The model adds a plain boolean flag with a
  getter and a setter, which starts false.
- On a 1 x 1 board, an agent of a type other than "P1" proves (0,0) twice
  (src/Agent.java:123-127). `provedCells` can then hold a cell twice, so the
  invariant speaks about membership only.

Java exceptions that the code can raise become an `Outcome` value:
`Ok(value)` or `IndexOutOfBounds`. The negation loop of `buildClause`
raises one when the negation count exceeds the number of unknown
neighbours.

## Model

| member | source | states |
|---|---|---|
| Cells.Cell.constructor | src/Cell.java:14-18 | stores x, y and hint exactly as given |
| Cells.Cell.GetHint | src/Cell.java:35-37 | returns the stored hint |
| Cells.Cell.SetHint | src/Cell.java:45-50 | stores h, except that 't' given to a "P1" agent is stored as '-'; x and y are constants and never change |
| Cells.StoredHint | src/Cell.java:45-50 | the stored hint is h or, only for 't', '-'; it differs from h exactly when the type is "P1" and h is 't' |
| Cells.Cell.ToString | src/Cell.java:26-28 | for a hint other than ' ', the text splits at spaces into the decimal x, the decimal y, "Hint:" and the hint, and x and y read back from it |
| Cells.CellText | src/Cell.java:27 | for a hint other than ' ', the text splits back at spaces into the decimal x, the decimal y, "Hint:" and the hint, and the coordinates parse back to x and y |
| Text.NumericValue | src/Agent.java:441 | Character.getNumericValue on ASCII: digits give 0..9, letters 10..35, anything else -1; a result 0..9 comes only from a digit |
| Text.DecimalRoundTrip | src/Cell.java:27 | the decimal text of an int is non-empty, made of digits after an optional '-', and parses back to the same int |
| Text.RemoveAll | src/DIMACS.java:80 | `replace("~", "")` leaves no '~', never lengthens the text, and changes nothing when there is no '~' |
| Lists.RemoveFirst | src/Agent.java:173 | ArrayList.remove(Object) shortens the list by one when the element is present and leaves it unchanged otherwise |
| Lists.RemoveFirstMultiset | src/Agent.java:173 | remove(Object) takes away exactly one occurrence |
| Lists.RemoveFirstMembers | src/Agent.java:173 | on a list without repetitions, remove(Object) keeps exactly the other elements, still without repetitions |
| Games.Game.constructor | src/Game.java:20-27 | keeps the map; the covered list equals the list of all cells; gameOver and gameWon start false (so does the added satisfiable flag); the cell invariant holds |
| Games.Game.PopulateCells | src/Game.java:32-40 | fills allCells column by column with a fresh cell for every (x, y) carrying board[y][x], and coveredCells with the same cells |
| Games.Game.CellIndex | src/Game.java:32-40 | the cell at (x, y) is allCells[x * N + y] |
| Games.Game.CellOnBoard | src/Game.java:35 | every cell of the game lies on the board and carries the map's character at its place |
| Games.Game.CellsOnBoard | src/Game.java:32-40 | all game cells are in bounds and no cell occurs twice |
| Games.Game.CheckGameWon | src/Game.java:73-86 | true exactly when every covered cell's map entry is 't', including when nothing is covered |
| Games.Game.UncoverCell | src/Game.java:49-65 | in bounds: returns the cell at (x, y), removes exactly it from coveredCells and sets the flags by UncoverFlags; out of range: returns null and changes nothing; allCells never changes |
| Games.UncoverFlags | src/Game.java:53-60 | 't' for a type other than "P2" ends the game and leaves gameWon as it was; otherwise, when only tornadoes remain covered, gameWon is set, and gameOver too unless the type is "P2"; no flag is ever reset |
| Games.Game.GetBoard | src/Game.java:93-95 | returns the map |
| Games.Game.IsGameOver | src/Game.java:102-104 | returns gameOver |
| Games.Game.IsGameWon | src/Game.java:112-114 | returns gameWon |
| Games.Game.SetGameOver | src/Game.java:121-123 | sets gameOver and changes nothing else |
| Games.Game.IsSatisfiable | src/Agent.java:652-653 | returns the satisfiable flag |
| Games.Game.SetSatisfiable | src/Agent.java:527 | sets the satisfiable flag and changes nothing else |
| Grid.NeighbourCoords | src/Agent.java:218-260 | the places getNeighbours visits, in its order: at most six, all in bounds |
| Grid.NeighbourExact | src/Agent.java:218-260 | a place is a neighbour exactly when it is in bounds and at one of the six offsets |
| Grid.NeighbourSound | src/Agent.java:218-260 | every neighbour is in bounds and at one of the six offsets |
| Grid.NeighbourComplete | src/Agent.java:218-260 | every in-bounds place at one of the six offsets is a neighbour |
| Grid.NeighbourSymmetric | src/Agent.java:218-260 | b is a neighbour of a exactly when a is a neighbour of b |
| Grid.CornerNeighbours | src/Agent.java:218-260 | on a board of at least two rows, (0,0) has exactly the three neighbours (1,1), (1,0) and (0,1) |
| Grid.NeighboursDistinct | src/Agent.java:218-260 | no neighbour is listed twice |
| Grid.Keep | src/Agent.java:222-257 | the guarded candidates that getCell finds are at most as many as the candidates, and all in bounds |
| Grid.Count | src/Agent.java:324-333 | a count of places never exceeds the number of places |
| Grid.CountZero | src/Agent.java:341-350 | the count is zero exactly when no listed place shows the character |
| Grid.RowMajor | src/Agent.java:109-117 | the row-major index y * N + x of a place is on the board and gives back x and y |
| Agents.Agent.constructor | src/Agent.java:45-60 | builds an all-'?' view with N*N row-major cells, all unproved, then runs proveHintCells: the agent's record is HintProof of that start and the game's is HintUncover of its record before; the invariant holds; when the world is well formed and neither proved place holds a tornado, the view is consistent with the world |
| Agents.Agent.InitBoard | src/Agent.java:94-104 | every entry of the view is '?' |
| Agents.Agent.InitCells | src/Agent.java:109-117 | N*N fresh cells in row-major order, all '?', without repetitions; unprovedCells equals cells |
| Agents.Agent.ProveHintCells | src/Agent.java:122-129 | the agent's record becomes HintProof of the old one and the game's HintUncover of the old one; the world and the cell list are unchanged; the invariant holds |
| Agents.HintProofCells | src/Agent.java:122-129 | proveHintCells appends (0,0) and then, unless the type is "P1", the centre cell (N/2, N/2) to both provedCells and uncoveredCells, and nothing else |
| Agents.HintConsistent | src/Agent.java:122-129 | when neither (0,0) nor, for types other than "P1", the centre holds a tornado, proveHintCells keeps the view consistent with a well-formed world |
| Rules.UnknownConsistent | src/Agent.java:94-100 | the all-'?' view the constructor starts from is consistent with any world |
| Agents.Agent.ProveAt | src/Agent.java:123-124 | getCell then proveCell at (x, y): the cell found is at (x, y) and shows the world's character there as setHint stores it; the agent's record moves by AfterProve and the game's by Uncovering at (x, y); the world is unchanged |
| Agents.Agent.GetCell | src/Agent.java:154-161 | returns the cell at (x, y) when it is on the board and null exactly when it is not |
| Agents.Agent.FindUnprovedCell | src/Agent.java:138-145 | returns an unproved cell at (x, y), and null exactly when no unproved cell is there |
| Agents.Agent.HasBeenExamined | src/Agent.java:203-210 | true exactly when a proved cell has the same coordinates |
| Agents.Agent.PlaceListed | src/Agent.java:203-210 | the coordinate test is the same as membership for the agent's own cells |
| Agents.Agent.SameCell | src/Agent.java:169 | the cell getCell finds at a cell's coordinates is that same cell |
| Agents.Agent.OnView | src/Agent.java:176 | every cell lies on the board and its hint is what the view shows at its place |
| Agents.Agent.ListedOnBoard | src/Agent.java:24-32 | every cell of the agent's lists lies on the board |
| Agents.Agent.GetNeighbours | src/Agent.java:218-260 | returns the agent's cells at exactly the neighbour places, in the source's order |
| Agents.Agent.AddNeighbour | src/Agent.java:222-227 | one guarded block: adds the cell at the candidate place when the guard holds and the place is on the board |
| Agents.Agent.GetTheNumberOfDangers | src/Agent.java:324-333 | the number of neighbours the view shows as '*' |
| Agents.Agent.GetTheNumberOfUnknown | src/Agent.java:341-350 | the number of neighbours the view shows as '?' |
| Agents.Agent.IsAFN | src/Agent.java:358-368 | true exactly when some neighbour with a hint has as many flagged neighbours as its hint's numeric value |
| Agents.Agent.IsAMN | src/Agent.java:376-386 | true exactly when some neighbour with a hint has as many unknown neighbours as getNumericValue(hint character - flagged count) |
| Rules.AFNAmongExists | src/Agent.java:360-367 | the isAFN loop finds a qualifying neighbour exactly when one exists |
| Rules.AMNAmongExists | src/Agent.java:378-385 | the isAMN loop finds a qualifying neighbour exactly when one exists |
| Rules.AFNSound | src/Agent.java:358-368 | on a view consistent with a well-formed world, an unknown cell for which AFN holds is not a tornado |
| Rules.AMNSound | src/Agent.java:376-386 | on a consistent view, an unknown cell for which AMN holds is a tornado |
| Rules.HintIsWorldDigit | src/Agent.java:362 | on a consistent view a shown hint is the world's digit and counts the tornadoes around it |
| Rules.TornadoSplit | src/Agent.java:324-350 | on a consistent view the tornadoes among some places are the flagged ones plus the hidden unknown ones |
| Rules.FirstVerdict | src/Agent.java:393-403 | the scan's verdict names a cell of the scanned range |
| Rules.FirstVerdictPasses | src/Agent.java:394-401 | a revealed cell passes AFN; a flagged one fails AFN and passes AMN |
| Rules.FirstVerdictFirst | src/Agent.java:393-403 | every cell before the verdict, or every cell when there is none, passes neither test |
| Rules.VerdictSound | src/Agent.java:391-408 | on a consistent view whose scanned cells are unknown, the revealed cell is no tornado and the flagged cell is one |
| Agents.Agent.SPS | src/Agent.java:391-408 | proves or flags the first unproved cell that isAFN or isAMN selects, and nothing else; with no such cell sets gameOver and changes nothing else; keeps the view consistent with the world |
| Agents.Agent.FirstSingle | src/Agent.java:393-403 | the scan loop returns the cell FirstVerdict names, and whether it is safe, or null when there is none |
| Agents.Agent.Act | src/Agent.java:395-407 | proves a safe cell, flags a dangerous one with the game untouched, or sets gameOver with nothing else changed |
| Agents.Agent.ScannedConsistent | src/Agent.java:391-408 | the step SPS makes keeps the view consistent with a well-formed world |
| Agents.Agent.UnprovedUnknown | src/Agent.java:26 | every unproved cell is on the board and shows '?' in the view |
| Agents.Agent.ProveCell | src/Agent.java:168-180 | the game uncovers the cell's place; the cell and the view show the stored hint; the cell moves from unprovedCells to the end of provedCells and uncoveredCells; the counter grows exactly when the hint is '0'; the invariant holds |
| Agents.Agent.UncoverPlace | src/Agent.java:170 | the game uncovers the cell's place and returns the world's character there; the agent is unchanged |
| Agents.Agent.RecordProved | src/Agent.java:171-179 | the agent's half of proveCell, as stated for ProveCell |
| Agents.Agent.SetDanger | src/Agent.java:187-195 | the cell and the view show '*'; the cell moves from unprovedCells to provedCells and tornadoCells; the counter and uncoveredCells are unchanged |
| Agents.Agent.RecordFlagged | src/Agent.java:189-194 | the body of setDanger once getCell has found the same cell, as stated for SetDanger |
| Agents.Agent.MovedValid | src/Agent.java:168-195 | moving one cell from unproved to proved, with its view entry rewritten, keeps the board invariant |
| Agents.Agent.GameMoveValid | src/Agent.java:170 | a move of the game alone keeps the agent's invariant |
| Agents.Agent.ViewAfterWrite | src/Agent.java:176 | writing the hint to board[y][x] changes the view at that place only |
| Rules.RevealConsistent | src/Agent.java:168-180 | revealing a cell that is no tornado keeps the view consistent |
| Rules.FlagConsistent | src/Agent.java:187-195 | flagging a tornado keeps the view consistent |
| Agents.Agent.UncoverNeighbours | src/Agent.java:265-316 | terminates; stops with the counter at zero or the game won; keeps the cells and the tornado list; ZeroProved: provedCells only grows at its end, by cells that were unproved and not yet proved, each next to a revealed '0' and added once; the view only fills unknown places; keeps the view consistent with the world |
| Agents.Agent.Round | src/Agent.java:267-314 | one pass: the same ZeroProved and view-growth facts, unproved cells only leave, and the counter plus the number of unproved cells strictly decreases; keeps the invariant and consistency |
| Agents.ZeroProvedChain | src/Agent.java:265-316 | two passes that each satisfy ZeroProved, the second on a grown view and from the unproved cells left by the first, together satisfy it from the start |
| Agents.Agent.HandledZero | src/Agent.java:314 | the counter drops by one and nothing else changes |
| Agents.Agent.CollectAdjacent | src/Agent.java:267-308 | collects, in order, the unproved cells at the neighbour places of each proved '0' cell |
| Agents.Agent.UnprovedAround | src/Agent.java:270-305 | the unproved cells at the six guarded places around one cell, in the source's order |
| Rules.AmongNeighbours | src/Agent.java:270-305 | every place found around a cell is unproved and one of its neighbours |
| Rules.CollectedZeroAdjacent | src/Agent.java:267-308 | every collected place is unproved, on the board and next to a '0' |
| Rules.ZeroNeighbourSafe | src/Agent.java:269-305 | on a consistent view, no neighbour of a revealed '0' is a tornado |
| Rules.ZeroAdjacentSafe | src/Agent.java:309-313 | on a consistent view, a cell next to a revealed '0' is no tornado |
| Agents.Agent.ProveAdjacent | src/Agent.java:309-313 | every collected cell is proved afterwards, and provedCells grows at its end only by collected cells not proved before, each once; hence ZeroProved; the view only fills unknown places; keeps the invariant and consistency |
| Agents.AddedZeroProved | src/Agent.java:309-313 | cells added once from a list of unproved cells next to a '0' satisfy ZeroProved, on any later view that extends the one they were collected on |
| Agents.Agent.ProveIfNew | src/Agent.java:310-312 | provedCells gains the cell at its end exactly when it was not yet proved, and is unchanged otherwise; unproved cells only leave; the view only fills unknown places; keeps consistency |
| Agents.Agent.RevealStep | src/Agent.java:310-312 | proving a cell next to a '0' grows the view and keeps it consistent with the world |
| Rules.ZeroAdjacentExtends | src/Agent.java:309-313 | a cell next to a revealed '0' stays so as the view grows |
| Encoding.Factorial | src/Agent.java:68-89 | n! is positive |
| Encoding.Insertions | src/Agent.java:81-85 | inserting the first element at every index 0..\|rp\| gives \|rp\|+1 lists |
| Encoding.InsertAtMultiset | src/Agent.java:83 | `p.add(index, firstElement)` adds exactly one occurrence |
| Encoding.PermutationsCount | src/Agent.java:68-89 | getPermutations of n items returns n! lists, one empty list for empty input |
| Encoding.PermutationsSound | src/Agent.java:68-89 | every returned list is a rearrangement of the input |
| Encoding.PermutationsComplete | src/Agent.java:68-89 | every rearrangement of the input is returned |
| Encoding.InsertEverywhereLength | src/Agent.java:80-87 | the loop over the recursive result yields \|rps\| * (m+1) lists |
| Encoding.Negated | src/Agent.java:448-453 | negating the first m literals keeps the length |
| Encoding.NegateStepClosed | src/Agent.java:448-453 | one pass of the negation loop turns the first j negations into the first j+1 |
| Encoding.RemoveAfterNegated | src/Agent.java:450 | remove(clause) drops the j-th literal, since the earlier ones now start with '~' |
| Encoding.NegatedShape | src/Agent.java:446-454 | after the loop exactly max(0, min(m, k)) literals are negated and the atoms are a rearrangement of the input |
| Encoding.FrontShape | src/Agent.java:448-453 | negating the first k literals by prepending gives k negated ones and the same atoms |
| Encoding.NegateFirst | src/Agent.java:448-453 | the negation loop on one permutation: IndexOutOfBounds when m exceeds its length, else the first m literals negated |
| Encoding.NegatedNone | src/Agent.java:448 | a count of zero or less negates nothing |
| Encoding.NegateLeading | src/Agent.java:446-454 | the loop over all permutations throws exactly when m exceeds the literal count, else negates each |
| Encoding.TermText | src/Agent.java:457-464 | a term's text is non-empty and ends with ')', and a term with literals starts with '(' |
| Encoding.AppendTerm | src/Agent.java:457-466 | appends one parenthesised term and '\|' |
| Encoding.TermClosed | src/Agent.java:463-464 | deleting the trailing '&' and appending ")" closes the term |
| Encoding.JoinTerminated | src/Agent.java:469 | for a non-empty list, the text with a separator after every part is the joined text plus one separator |
| Encoding.UnterminatedJoin | src/Agent.java:494-496 | deleting the last character of a non-empty separator-terminated text gives the joined text, and an empty text stays empty |
| Encoding.ClauseBuilder | src/Agent.java:456-471 | the builder loop yields the terms joined by '\|' |
| Encoding.ClauseFor | src/Agent.java:446-471 | negation loop and builder together: the clause text, or IndexOutOfBounds |
| Encoding.ClauseTextCases | src/Agent.java:446-471 | the clause text is IndexOutOfBounds when m exceeds the literal count, else the joined terms of the negated permutations |
| Encoding.ClauseShape | src/Agent.java:416-472 | for k literals and m <= k: k! terms, each a rearrangement of all literals with exactly max(0, m) negated |
| Encoding.TermShape | src/Agent.java:446-466 | one term names every literal once and has max(0, m) negations |
| Encoding.PositivePermutation | src/Agent.java:78 | a rearrangement of un-negated literals has no negated literal |
| Encoding.LiteralName | src/Agent.java:435 | "T" + x + y starts with 'T' and is not negated |
| Encoding.LiteralNameAmbiguous | src/Agent.java:435 | (1,11) and (11,1) both get "T111" |
| Encoding.LiteralNameInjective | src/Agent.java:435 | on boards of at most ten rows, two places with the same name are the same place |
| Encoding.LiteralNames | src/Agent.java:433-436 | one name per cell, in order |
| Agents.Literals | src/Agent.java:433-439 | the literal loop yields the names of the cells in order; Encoding.LiteralNameInjective and Encoding.LiteralNameAmbiguous say when those names identify the cells |
| Encoding.UnknownCoords | src/Agent.java:424-430 | the unknown neighbours: as many as the '?' count, each showing '?' |
| Agents.Agent.SplitNeighbours | src/Agent.java:424-430 | unknowns are exactly the neighbours showing '?', in order; the dangerous list holds only '*' cells |
| Agents.Agent.ClauseInputs | src/Agent.java:418-444 | the literals of the unknown neighbours and the negation count unknowns - hint value - flagged |
| Agents.Agent.BuildClause | src/Agent.java:416-472 | returns the cell's clause text, or IndexOutOfBounds |
| Encoding.CellClauseIs | src/Agent.java:416-472 | the cell's clause is the clause text of its literals and negation count |
| Encoding.CellClauseShape | src/Agent.java:416-472 | with unknown neighbours, the clause throws exactly when the count exceeds them, and otherwise starts with '(' |
| Encoding.ClausePart | src/Agent.java:482-490 | nothing for a cell without unknown neighbours, else one non-empty parenthesised clause, or the exception |
| Agents.Agent.KbPart | src/Agent.java:482-490 | one pass of the buildKB loop returns the cell's part |
| Agents.Agent.BuildKB | src/Agent.java:479-498 | returns the parts of the uncovered cells, in order, joined by '&', or the exception of the first clause that throws |
| Encoding.KbEmpty | src/Agent.java:479-498 | the knowledge base is "" exactly when no uncovered cell has an unknown neighbour |
| Encoding.KbPartsException | src/Agent.java:479-498 | buildKB throws exactly when some uncovered cell with unknown neighbours has a count above them |
| Encoding.KbNoException | src/Agent.java:479-498 | on a view consistent with a well-formed world, where the listed cells show hints, buildKB never throws |
| Encoding.KbPartsNonEmpty | src/Agent.java:484-488 | every collected part is non-empty |
| Encoding.KbPartsNone | src/Agent.java:479-498 | no parts exactly when no cell has an unknown neighbour |
| Encoding.KbPartsAbort | src/Agent.java:483 | once a clause throws, the whole throws |
| Encoding.JoinEmpty | src/Agent.java:494-497 | joined non-empty parts are "" exactly when there are none |
| DimacsFormat.ComplementInvolution | src/DIMACS.java:80-95 | the complement of a literal is a literal of the other sign, different from it, and its complement is the literal again |
| DimacsFormat.PairedKeys | src/DIMACS.java:79-81 | in a paired map a literal is a key exactly when its complement is |
| DimacsFormat.Encode | src/DIMACS.java:75-109 | after encoding, the literal is a key and no key is lost |
| DimacsFormat.EncodeFreshPositive | src/DIMACS.java:94-101 | a fresh positive l gets size+1 and "~"+l gets -(size+1); the map grows by two |
| DimacsFormat.EncodeFreshNegative | src/DIMACS.java:77-86 | a fresh "~v" gives v the number size+1 and "~v" -(size+1); the map grows by two |
| DimacsFormat.EncodeKnown | src/DIMACS.java:87-92 | re-encoding a mapped literal leaves the map unchanged |
| DimacsFormat.EncodeIdempotent | src/DIMACS.java:75-109 | encoding the same literal twice is the same as once |
| DimacsFormat.EncodeWf | src/DIMACS.java:75-109 | encoding keeps every key paired with its complement under the opposite number, numbers odd, bounded and distinct |
| DimacsFormat.EncodeAddsPair | src/DIMACS.java:84-85 | a fresh literal adds exactly it and its complement, numbered ±(size+1) |
| DimacsFormat.FreshExceeds | src/DIMACS.java:99 | every existing number is below the fresh one |
| DimacsFormat.FreshPaired | src/DIMACS.java:82-85 | adding a fresh pair keeps the pairing |
| DimacsFormat.PairSize | src/DIMACS.java:99-100 | adding a fresh pair grows the map by two |
| DimacsFormat.FreshNumbered | src/DIMACS.java:99-100 | adding a fresh pair keeps the numbers odd, bounded and signed by polarity |
| DimacsFormat.FreshInjective | src/DIMACS.java:84-85 | distinct literals keep distinct numbers |
| DimacsFormat.FreshDistinct | src/DIMACS.java:99-100 | an old number never equals the fresh one |
| DimacsFormat.EncodeAll | src/DIMACS.java:63-68 | encoding a sequence of literals loses no key |
| DimacsFormat.EncodeAllWf | src/DIMACS.java:63-68 | encodeLiterals keeps the numbering invariant |
| DimacsFormat.EncodeAllPaired | src/DIMACS.java:63-68 | after encodeLiterals every key is still paired with its complement |
| DimacsFormat.EncodeAllCovers | src/DIMACS.java:63-68 | afterwards every input literal and its complement are keys |
| DimacsFormat.Dimacs.constructor | src/DIMACS.java:20 | the map starts empty |
| DimacsFormat.Dimacs.EncodeLiteral | src/DIMACS.java:75-109 | updates the map in place to Encode of the old map |
| DimacsFormat.Dimacs.EncodeLiterals | src/DIMACS.java:63-68 | encodes each literal in order: the map becomes EncodeAll of the old map |
| DimacsFormat.Dimacs.GetLiterals | src/DIMACS.java:117-119 | returns the map |

## Left out

- src/A3main.java is not part of this model: argument parsing, world lookup and board printing.
- The game loops `playGame`, `playBasic`, `playBeginner` and `playIntermediateDNF`/`CNF`, and the unfinished "P5" branch, are left out. They only sequence the modelled operations and print.
- `SATWithDNF` and `SATWithCNF` are left out. They call the LogicNG parser, MiniSat and SAT4J, which cannot be seen.
- `DIMACS.buildDIMACS` and `DIMACS.getClause` are left out. They depend on LogicNG's CNF conversion and literal iterators, which cannot be seen. The model's map starts empty, where Java leaves it null until `buildDIMACS` runs.
- All console output (`verbose` printing, result messages, exception logging) is left out. So are the `FormulaFactory` and parser fields.
- Text.NumericValue covers ASCII code points only. For other code points, Java's getNumericValue may return values this model does not.
- Java's 32-bit `int` overflow is not modelled. Coordinates, counters, literal ids and the `hint - dangers` code-point arithmetic of isAMN are unbounded integers. On boards of realistic size they stay far from 2^31.
- Encoding.Permutations is a pure function. The Java method also empties the list it is given, which its only caller never reads again.
- The six guarded blocks of getNeighbours, and of each pass of uncoverNeighbours, are one loop over the six-row table `Grid.Candidates`. The guards and the order are the source's.
- The scan of SPS returns the cell it stops at (Agents.Agent.FirstSingle), and SPS then acts on it (Agents.Agent.Act). The source acts inside the loop and breaks, which has the same effect.
- Several source bodies are split into helper methods that run the same statements in the same order. buildClause becomes ClauseInputs, SplitNeighbours and ClauseFor. buildKB calls KbPart. uncoverNeighbours becomes Round, CollectAdjacent, ProveAdjacent and HandledZero. proveCell becomes UncoverPlace and RecordProved.
- Agents.Agent.constructor requires a board of at least one row. On an empty board `getCell(0, 0)` returns null, and the source fails with a NullPointerException, which is not modelled.
- The DIMACS branch at src/DIMACS.java:96-97 tests `literals.get(literal) != null` right after finding it null, so it never runs. DimacsFormat.Encode leaves it out.
- Agents.Agent.SplitNeighbours states only that its dangerous list holds '*' cells, not that it holds all of them. The list feeds only `dangerousLiterals`, which buildClause never reads.
