/**
  The agent: its own view of the board (every cell '?' until proved), the
  Cell objects of that view in row-major order, the lists that record
  which cells are unproved, proved, uncovered or flagged, and the counter
  of revealed '0' cells whose neighbours are still to be uncovered. It
  probes the game through uncoverCell and deduces with the single-point
  rules or by building a propositional knowledge base.
 */
module Agents {
  import opened Text
  import opened Lists
  import opened Grid
  import opened Rules
  import opened Encoding
  import opened Cells
  import opened Games

  /** The coordinates of a list of cells, in order. */
  function Coords(cs: seq<Cell>): (r: seq<Coord>)
    ensures |r| == |cs| && forall i :: 0 <= i < |cs| ==> r[i] == (cs[i].x, cs[i].y)
  {
    seq(|cs|, i requires 0 <= i < |cs| => (cs[i].x, cs[i].y))
  }

  lemma CoordsSnoc(cs: seq<Cell>, c: Cell)
    ensures Coords(cs + [c]) == Coords(cs) + [(c.x, c.y)]
  {
  }

  lemma CoordsAppend(a: seq<Cell>, b: seq<Cell>)
    ensures Coords(a + b) == Coords(a) + Coords(b)
  {
  }

  /** The cell c sits at index k of a row-by-row list of the cells of an n x n board. */
  predicate RowPlaced(c: Cell, k: int, n: int) {
    0 <= c.x < n && 0 <= c.y < n && Index(c.y, n, c.x) == k
  }

  /** Index y * n + x with 0 <= x < n determines (x, y). */
  lemma RowPlacedUnique(c: Cell, k: int, n: int, x: int, y: int)
    requires RowPlaced(c, k, n) && 0 <= x < n && k == y * n + x
    ensures c.x == x && c.y == y
  {
    IndexIsProduct(c.y, n, c.x);
    DivModUnique(k, n, c.y, c.x);
    DivModUnique(k, n, y, x);
  }

  /** What the agent records at one moment: its view, its cells, its lists and its counter. */
  datatype Memory = Memory(view: Grid, cells: seq<Cell>, unproved: seq<Cell>, proved: seq<Cell>,
                           uncovered: seq<Cell>, tornado: seq<Cell>, counter: int)

  /** What the game records at one moment besides its map: its cells, the covered ones and its flags. */
  datatype GameRecord = GameRecord(all: seq<Cell>, covered: seq<Cell>, over: bool, won: bool, satisfiable: bool)

  /**
    The agent's record after it proves the cell c, storing h for it on an
    n x n view: the view shows h at c's place, c moves from the unproved
    cells to the end of the proved and uncovered ones, and the counter
    grows when h is '0'.
   */
  function AfterProve(m: Memory, n: int, c: Cell, h: char): Memory
    requires IsSquare(m.view, n) && InBounds((c.x, c.y), n)
  {
    m.(view := Set(m.view, (c.x, c.y), h), unproved := RemoveFirst(m.unproved, c),
       proved := m.proved + [c], uncovered := m.uncovered + [c],
       counter := m.counter + (if h == '0' then 1 else 0))
  }

  /**
    The agent's record after it flags the cell c: the view shows '*' at
    c's place and c moves from the unproved cells to the end of the
    proved and tornado ones.
   */
  function AfterFlag(m: Memory, n: int, c: Cell): Memory
    requires IsSquare(m.view, n) && InBounds((c.x, c.y), n)
  {
    m.(view := Set(m.view, (c.x, c.y), '*'), unproved := RemoveFirst(m.unproved, c),
       proved := m.proved + [c], tornado := m.tornado + [c])
  }

  /**
    The game's record after uncoverCell at the place p of the n x n world
    w, for an agent of type t: the game's cell at p is no longer covered,
    and the flags are set from what the world shows at p and whether only
    tornadoes remain covered.
   */
  function Uncovering(g: GameRecord, w: Grid, n: int, p: Coord, t: string): GameRecord
    requires IsSquare(w, n) && InBounds(p, n) && 0 <= Index(p.0, n, p.1) < |g.all|
  {
    var covered := RemoveFirst(g.covered, g.all[Index(p.0, n, p.1)]);
    var flags := UncoverFlags(g.over, g.won, At(w, p), t, TornadoesOn(w, n, covered));
    g.(covered := covered, over := flags.0, won := flags.1)
  }

  /**
    The agent's record after proveHintCells from the record m, on the n x
    n world w, for an agent of type t: the cell at (0, 0) is proved with
    the hint the world shows there, and then, for every type but "P1",
    the cell at (n / 2, n / 2).
   */
  function HintProof(m: Memory, w: Grid, n: int, t: string): Memory
    requires n >= 1 && IsSquare(m.view, n) && IsSquare(w, n) && |m.cells| == n * n
    requires forall k :: 0 <= k < |m.cells| ==> RowPlaced(m.cells[k], k, n)
  {
    var k := n / 2;
    RowMajor(k, k, n);
    assert RowPlaced(m.cells[0], 0, n);
    assert RowPlaced(m.cells[k * n + k], k * n + k, n);
    var m1 := AfterProve(m, n, m.cells[0], StoredHint(At(w, (0, 0)), t));
    if t == "P1" then m1
    else AfterProve(m1, n, m.cells[k * n + k], StoredHint(At(w, (k, k)), t))
  }

  /**
    The game's record after proveHintCells from the record g: uncoverCell
    at (0, 0) and then, for every type but "P1", at (n / 2, n / 2).
   */
  function HintUncover(g: GameRecord, w: Grid, n: int, t: string): GameRecord
    requires n >= 1 && IsSquare(w, n) && |g.all| == n * n
  {
    var k := n / 2;
    RowMajor(0, 0, n);
    IndexIsProduct(0, n, 0);
    RowMajor(k, k, n);
    IndexIsProduct(k, n, k);
    var g1 := Uncovering(g, w, n, (0, 0), t);
    if t == "P1" then g1 else Uncovering(g1, w, n, (k, k), t)
  }

  /** Neither place that proveHintCells proves holds a tornado in the n x n world w. */
  predicate HintCellsSafe(w: Grid, n: int, t: string)
    requires IsSquare(w, n) && n >= 1
  {
    At(w, (0, 0)) != 't' && (t != "P1" ==> At(w, (n / 2, n / 2)) != 't')
  }

  /**
    proveHintCells keeps the view consistent with a well-formed world
    when neither place it proves holds a tornado.
   */
  lemma HintConsistent(m: Memory, w: Grid, n: int, t: string)
    requires n >= 1 && IsSquare(m.view, n) && IsSquare(w, n) && |m.cells| == n * n
    requires forall k :: 0 <= k < |m.cells| ==> RowPlaced(m.cells[k], k, n)
    requires WellFormedWorld(w, n) && Consistent(m.view, w, n) && HintCellsSafe(w, n, t)
    ensures Consistent(HintProof(m, w, n, t).view, w, n)
  {
    var k := n / 2;
    RowMajor(k, k, n);
    RowPlacedUnique(m.cells[0], 0, n, 0, 0);
    RevealConsistent(m.view, w, n, (0, 0));
    if t != "P1" {
      var m1 := AfterProve(m, n, m.cells[0], StoredHint(At(w, (0, 0)), t));
      RowPlacedUnique(m.cells[k * n + k], k * n + k, n, k, k);
      RevealConsistent(m1.view, w, n, (k, k));
    }
  }

  /**
    proveHintCells proves and uncovers the cell at (0, 0) and, for every
    type but "P1", the centre cell, in that order, and leaves every other
    cell unproved.
   */
  lemma HintProofCells(m: Memory, w: Grid, n: int, t: string)
    requires n >= 1 && IsSquare(m.view, n) && IsSquare(w, n) && |m.cells| == n * n
    requires forall k :: 0 <= k < |m.cells| ==> RowPlaced(m.cells[k], k, n)
    ensures n / 2 * n + n / 2 < n * n
    ensures var added := [m.cells[0]] + (if t == "P1" then [] else [m.cells[n / 2 * n + n / 2]]);
      HintProof(m, w, n, t).proved == m.proved + added && HintProof(m, w, n, t).uncovered == m.uncovered + added
  {
    RowMajor(n / 2, n / 2, n);
  }

  /**
    What the flood fill may add to the proved list: after grew from
    before at its end only, and every cell added since was unproved (in
    unproved) and not yet proved (not in before), sits next to a '0' of
    the view g, and was added once.
   */
  ghost predicate ZeroProved(g: Grid, n: int, before: seq<Cell>, unproved: seq<Cell>, after: seq<Cell>)
    requires IsSquare(g, n)
  {
    before <= after &&
    (forall c :: c in after[|before|..] ==> c in unproved && c !in before && ZeroAdjacent(g, n, (c.x, c.y))) &&
    NoDup(after[|before|..])
  }

  /**
    The list after grew from before at its end only, by cells of from,
    none of them in before and none added twice.
   */
  ghost predicate AddedOnce(before: seq<Cell>, after: seq<Cell>, from: seq<Cell>) {
    before <= after && AllIn(after[|before|..], from) && Apart(after[|before|..], before) &&
    NoDup(after[|before|..])
  }

  lemma AddedNone(before: seq<Cell>, from: seq<Cell>)
    ensures AddedOnce(before, before, from)
  {
    assert before[|before|..] == [];
  }

  /** One more step adds c, a cell of from not yet in the list, or nothing. */
  lemma AddedNext(p0: seq<Cell>, p1: seq<Cell>, p2: seq<Cell>, from: seq<Cell>, c: Cell)
    requires AddedOnce(p0, p1, from) && c in from
    requires p2 == p1 + (if c in p1 then [] else [c])
    ensures AddedOnce(p0, p2, from)
  {
    if c !in p1 {
      var a := p1[|p0|..];
      assert p2[|p0|..] == a + [c];
      assert p1 == p0 + a;
      NoDupAppend(a, [c]);
    }
  }

  /**
    Cells added from a list of unproved cells next to a '0' of the view
    g1 are what the flood fill may add, on any view g2 that grew from g1.
   */
  lemma AddedZeroProved(g1: Grid, g2: Grid, n: int, p0: seq<Cell>, u0: seq<Cell>, p1: seq<Cell>, from: seq<Cell>)
    requires Extends(g1, g2, n) && AddedOnce(p0, p1, from) && AllIn(from, u0)
    requires forall i :: 0 <= i < |from| ==> ZeroAdjacent(g1, n, (from[i].x, from[i].y))
    ensures ZeroProved(g2, n, p0, u0, p1)
  {
    forall c | c in p1[|p0|..]
      ensures c in u0 && ZeroAdjacent(g2, n, (c.x, c.y))
    {
      assert c in from;
      var i :| 0 <= i < |from| && from[i] == c;
      ZeroAdjacentExtends(g1, g2, n, (c.x, c.y));
    }
  }

  /** Nothing added: the proved list is unchanged. */
  lemma ZeroProvedNone(g: Grid, n: int, proved: seq<Cell>, unproved: seq<Cell>)
    requires IsSquare(g, n)
    ensures ZeroProved(g, n, proved, unproved, proved)
  {
    assert proved[|proved|..] == [];
  }

  /**
    Two stretches of the flood fill make one: the view only grew between
    them, and the cells unproved at the start of the second stretch were
    unproved at the start of the first and not proved at the start of
    the second.
   */
  lemma ZeroProvedChain(g1: Grid, g2: Grid, n: int, p0: seq<Cell>, u0: seq<Cell>, p1: seq<Cell>, u1: seq<Cell>, p2: seq<Cell>)
    requires Extends(g1, g2, n) && ZeroProved(g1, n, p0, u0, p1) && ZeroProved(g2, n, p1, u1, p2)
    requires AllIn(u1, u0) && Apart(u1, p1)
    ensures ZeroProved(g2, n, p0, u0, p2)
  {
    var a, b := p1[|p0|..], p2[|p1|..];
    assert p2[|p0|..] == a + b;
    forall c | c in a
      ensures ZeroAdjacent(g2, n, (c.x, c.y))
    {
      ZeroAdjacentExtends(g1, g2, n, (c.x, c.y));
    }
    forall c | c in b
      ensures c !in a && c !in p0
    {
      assert c in u1 && c !in p1;
      assert p1 == p0 + a;
    }
    NoDupAppend(a, b);
  }

  /** Every cell of cs is in ds. */
  ghost predicate AllIn(cs: seq<Cell>, ds: seq<Cell>) {
    forall c :: c in cs ==> c in ds
  }

  /** No cell of cs is in ds. */
  ghost predicate Apart(cs: seq<Cell>, ds: seq<Cell>) {
    forall c :: c in cs ==> c !in ds
  }

  lemma AllInTrans(a: seq<Cell>, b: seq<Cell>, c: seq<Cell>)
    requires AllIn(a, b) && AllIn(b, c)
    ensures AllIn(a, c)
  {
  }

  /** The first j + 1 cells are proved once the first j were and the list grew to hold cs[j]. */
  lemma ProvedAllNext(cs: seq<Cell>, j: int, p1: seq<Cell>, p2: seq<Cell>)
    requires 0 <= j < |cs| && AllIn(cs[..j], p1) && p1 <= p2 && cs[j] in p2
    ensures AllIn(cs[..j + 1], p2)
  {
    assert cs[..j + 1] == cs[..j] + [cs[j]];
    forall c | c in cs[..j]
      ensures c in p2
    {
      assert c in p1;
    }
  }

  /** The literal loops of buildClause: "T" + x + y for each cell, in order. */
  method Literals(cs: seq<Cell>) returns (literals: seq<string>)
    ensures literals == LiteralNames(Coords(cs))
  {
    literals := [];
    for i := 0 to |cs|
      invariant literals == LiteralNames(Coords(cs)[..i])
    {
      LiteralNamesNext(Coords(cs), i);
      literals := literals + [LiteralName((cs[i].x, cs[i].y))];
    }
    assert Coords(cs)[..|cs|] == Coords(cs);
  }

  class Agent {
    const agentType: string
    const verbose: bool
    const game: Game
    /** The agent's view, board[y, x]; a different array from the game's map. */
    const board: array2<char>
    const boardLength: int
    /** Every cell of the view, row by row: cells[y * N + x] is at (x, y). */
    var cells: seq<Cell>
    var unprovedCells: seq<Cell>
    var provedCells: seq<Cell>
    var uncoveredCells: seq<Cell>
    var tornadoCells: seq<Cell>
    /** Revealed '0' cells whose neighbours uncoverNeighbours has still to visit. */
    var cellsWithFreeNeighbours: int

    /**
      The board invariant: the cells lie row by row on the view and show
      what it shows; the unproved and proved cells split the cells between
      them; unproved cells show '?'; the agent's cells are not the game's.
     */
    ghost predicate Valid()
      reads this, board, cells, game, game.board, game.allCells
    {
      game.Valid() && boardLength == game.Size() &&
      board != game.board && Placement() &&
      (forall c {:trigger c in cells} :: c in cells ==> c !in game.allCells) &&
      (forall c {:trigger c in unprovedCells} :: c in unprovedCells ==> c in cells && c.hint == '?') &&
      (forall c {:trigger c in provedCells} :: c in provedCells ==> c in cells) &&
      (forall c {:trigger c in uncoveredCells} :: c in uncoveredCells ==> c in cells) &&
      (forall c {:trigger c in tornadoCells} :: c in tornadoCells ==> c in cells) &&
      (forall c {:trigger c in cells} :: c in cells ==> (c in unprovedCells <==> c !in provedCells)) &&
      NoDup(unprovedCells) &&
      cellsWithFreeNeighbours >= 0
    }

    /** The cells lie row by row on the view and show what it shows. */
    ghost predicate Placement()
      reads this, board, cells
    {
      board.Length0 == boardLength && board.Length1 == boardLength &&
      |cells| == boardLength * boardLength &&
      forall k :: 0 <= k < |cells| ==>
        RowPlaced(cells[k], k, boardLength) && cells[k].hint == board[cells[k].y, cells[k].x]
    }

    /** The view as rows of characters. */
    ghost function View(): (g: Grid)
      reads board
      requires board.Length0 == board.Length1
      ensures IsSquare(g, board.Length0)
      ensures forall c {:trigger At(g, c)} :: InBounds(c, board.Length0) ==> At(g, c) == board[c.1, c.0]
    {
      seq(board.Length0, y requires 0 <= y < board.Length0 reads board =>
        seq(board.Length1, x requires 0 <= x < board.Length1 reads board => board[y, x]))
    }

    /** The cell at (x, y) sits at index y * N + x. */
    lemma CellAtIndex(x: int, y: int)
      requires Placement() && InBounds((x, y), boardLength)
      ensures 0 <= y * boardLength + x < |cells|
      ensures cells[y * boardLength + x].x == x && cells[y * boardLength + x].y == y
    {
      RowMajor(x, y, boardLength);
      RowPlacedUnique(cells[y * boardLength + x], y * boardLength + x, boardLength, x, y);
    }

    /** A cell of the view lies on the board and shows the view's character there. */
    lemma OnView(c: Cell)
      requires Placement() && c in cells
      ensures InBounds((c.x, c.y), boardLength) && c.hint == At(View(), (c.x, c.y))
    {
      var k :| 0 <= k < |cells| && cells[k] == c;
    }

    /** Two cells of the view at the same place are the same cell. */
    lemma SameCell(c1: Cell, c2: Cell)
      requires Placement() && c1 in cells && c2 in cells && c1.x == c2.x && c1.y == c2.y
      ensures c1 == c2
    {
      var k1 :| 0 <= k1 < |cells| && cells[k1] == c1;
      var k2 :| 0 <= k2 < |cells| && cells[k2] == c2;
    }

    /** A cell of the view is listed in a sublist of cells exactly when its place is. */
    lemma PlaceListed(c: Cell, cs: seq<Cell>)
      requires Placement() && c in cells && forall d :: d in cs ==> d in cells
      ensures c in cs <==> (c.x, c.y) in Coords(cs)
    {
      if (c.x, c.y) in Coords(cs) {
        var i :| 0 <= i < |cs| && Coords(cs)[i] == (c.x, c.y);
        SameCell(c, cs[i]);
      }
    }

    /**
      Sets up the view of the game's board: all '?', one unproved cell per
      place, then proves the top-left cell and, for every agent type but
      "P1", the centre cell. An empty board would make getCell return
      null there and proveCell dereference it, hence the size bound. When
      neither proved place holds a tornado, the view starts consistent
      with a well-formed world.
     */
    constructor(agentType: string, verbose: bool, game: Game)
      requires game.Valid() && game.Size() >= 1
      modifies game
      ensures Valid() && this.agentType == agentType && this.verbose == verbose && this.game == game
      ensures boardLength == game.Size() && tornadoCells == []
      ensures Mem() == HintProof(Memory(Filled(boardLength, '?'), cells, cells, [], [], [], 0),
        game.World(), boardLength, agentType)
      ensures GameMem() == HintUncover(GameRecord(old(game.allCells), old(game.coveredCells),
        old(game.gameOver), old(game.gameWon), old(game.satisfiable)), game.World(), boardLength, agentType)
      ensures WellFormedWorld(game.World(), boardLength) && HintCellsSafe(game.World(), boardLength, agentType) ==>
        Consistent(View(), game.World(), boardLength)
    {
      this.agentType := agentType;
      this.verbose := verbose;
      this.game := game;
      var n := game.GetBoard().Length0;
      this.boardLength := n;
      this.board := new char[n, n];
      this.cells := [];
      this.unprovedCells := [];
      this.provedCells := [];
      this.tornadoCells := [];
      this.uncoveredCells := [];
      this.cellsWithFreeNeighbours := 0;
      new;
      InitBoard();
      InitCells();
      forall c | c in cells
        ensures c !in game.allCells
      {
      }
      SquareExt(View(), Filled(n, '?'), n);
      ghost var m0 := Mem();
      assert m0 == Memory(Filled(n, '?'), cells, cells, [], [], [], 0);
      assert GameMem() == GameRecord(old(game.allCells), old(game.coveredCells),
        old(game.gameOver), old(game.gameWon), old(game.satisfiable));
      ProveHintCells();
      HintProofCells(m0, game.World(), n, agentType);
      if WellFormedWorld(game.World(), n) && HintCellsSafe(game.World(), n, agentType) {
        UnknownConsistent(game.World(), n);
        HintConsistent(m0, game.World(), n, agentType);
      }
    }

    /**
      proveHintCells: proves (0, 0) and, unless the type is "P1", (N / 2,
      N / 2). The agent's and the game's records move as proveCell moves
      them, and the view stays consistent when neither place holds a
      tornado.
     */
    method ProveHintCells()
      requires Valid() && boardLength >= 1
      modifies this, board, cells, game
      ensures Valid() && cells == old(cells) && game.World() == old(game.World())
      ensures Mem() == HintProof(old(Mem()), game.World(), boardLength, agentType)
      ensures GameMem() == HintUncover(old(GameMem()), game.World(), boardLength, agentType)
    {
      ghost var m0, g0 := Mem(), GameMem();
      CellAtIndex(0, 0);
      var cell := ProveAt(0, 0);
      SameCell(cell, cells[0]);
      if agentType != "P1" {
        var k := boardLength / 2;
        CellAtIndex(k, k);
        cell := ProveAt(k, k);
        SameCell(cell, cells[k * boardLength + k]);
      }
    }

    /**
      getCell(x, y) followed by proveCell, as proveHintCells does for each
      of its cells: the cell shows the world's hint as setHint stores it,
      and the agent's and the game's records move as proveCell moves them.
     */
    method ProveAt(x: int, y: int) returns (cell: Cell)
      requires Valid() && InBounds((x, y), boardLength)
      modifies this, board, cells, game
      ensures Valid() && cells == old(cells) && game.World() == old(game.World())
      ensures cell in cells && cell.x == x && cell.y == y
      ensures cell.hint == StoredHint(At(game.World(), (x, y)), agentType)
      ensures Mem() == AfterProve(old(Mem()), boardLength, cell, cell.hint)
      ensures 0 <= Index(x, boardLength, y) < |old(GameMem()).all|
      ensures GameMem() == Uncovering(old(GameMem()), game.World(), boardLength, (x, y), agentType)
    {
      var found := GetCell(x, y);
      cell := found;
      ProveCell(cell);
    }

    /** getCell: the cell at (x, y), or null when no cell is there (off the board). */
    method GetCell(x: int, y: int) returns (r: Cell?)
      requires Placement()
      ensures r == null <==> (x, y) !in Coords(cells)
      ensures r == null <==> !InBounds((x, y), boardLength)
      ensures r != null ==> r in cells && r.x == x && r.y == y
    {
      for i := 0 to |cells|
        invariant forall k :: 0 <= k < i ==> Coords(cells)[k] != (x, y)
      {
        if cells[i].x == x && cells[i].y == y {
          assert Coords(cells)[i] == (x, y);
          return cells[i];
        }
      }
      if InBounds((x, y), boardLength) {
        CellAtIndex(x, y);
      }
      return null;
    }

    /** findUnprovedCell: the unproved cell at (x, y), or null when there is none. */
    method FindUnprovedCell(x: int, y: int) returns (r: Cell?)
      ensures r == null <==> (x, y) !in Coords(unprovedCells)
      ensures r != null ==> r in unprovedCells && r.x == x && r.y == y
    {
      for i := 0 to |unprovedCells|
        invariant forall k :: 0 <= k < i ==> Coords(unprovedCells)[k] != (x, y)
      {
        if unprovedCells[i].x == x && unprovedCells[i].y == y {
          assert Coords(unprovedCells)[i] == (x, y);
          return unprovedCells[i];
        }
      }
      return null;
    }

    /** hasBeenExamined: whether some proved cell is at the place of c. */
    method HasBeenExamined(c: Cell) returns (b: bool)
      ensures b <==> (c.x, c.y) in Coords(provedCells)
    {
      for i := 0 to |provedCells|
        invariant forall k :: 0 <= k < i ==> Coords(provedCells)[k] != (c.x, c.y)
      {
        if provedCells[i].x == c.x && provedCells[i].y == c.y {
          assert Coords(provedCells)[i] == (c.x, c.y);
          return true;
        }
      }
      return false;
    }

    /**
      getNeighbours: the cells of the view at the six offsets from the
      cell's place that lie on the board, in the source's order. The
      source writes out six guarded blocks; here they are the six rows
      of the table Candidates, visited in that order.
     */
    method GetNeighbours(cell: Cell) returns (neighbours: seq<Cell>)
      requires Placement()
      ensures Coords(neighbours) == NeighbourCoords(cell.x, cell.y, boardLength)
      ensures forall i :: 0 <= i < |neighbours| ==> neighbours[i] in cells
    {
      var x, y := cell.x, cell.y;
      var cands := Candidates(x, y, boardLength);
      neighbours := [];
      assert cands[..0] == [];
      for k := 0 to 6
        invariant Coords(neighbours) == Keep(cands[..k], boardLength)
        invariant forall i :: 0 <= i < |neighbours| ==> neighbours[i] in cells
      {
        neighbours := AddNeighbour(neighbours, cands, k);
      }
      assert cands[..6] == cands;
    }

    /**
      One of the six blocks of getNeighbours, for candidate k of the
      table Candidates: when its guard holds, the cell getCell finds at
      its place, if any, is appended; so the list holds what Keep makes
      of the first k + 1 candidates.
     */
    method AddNeighbour(neighbours: seq<Cell>, cands: seq<(bool, Coord)>, k: nat)
      returns (r: seq<Cell>)
      requires Placement() && k < |cands|
      requires Coords(neighbours) == Keep(cands[..k], boardLength)
      requires forall i :: 0 <= i < |neighbours| ==> neighbours[i] in cells
      ensures Coords(r) == Keep(cands[..k + 1], boardLength)
      ensures forall i :: 0 <= i < |r| ==> r[i] in cells
    {
      r := neighbours;
      var guard, x, y := cands[k].0, cands[k].1.0, cands[k].1.1;
      if guard {
        var neighbourCell := GetCell(x, y);
        if neighbourCell != null {
          r := r + [neighbourCell];
          CoordsSnoc(neighbours, neighbourCell);
        }
      }
      KeepSnoc(cands[..k + 1], boardLength);
      assert cands[..k + 1][..k] == cands[..k];
    }

    /** One more neighbour counted: the count over the first i + 1 places adds neighbour i when it shows ch. */
    lemma CountNext(neighbours: seq<Cell>, i: nat, ch: char)
      requires Placement() && i < |neighbours|
      requires forall j :: 0 <= j < |neighbours| ==> neighbours[j] in cells
      ensures AllInBounds(Coords(neighbours)[..i + 1], boardLength)
      ensures Count(View(), boardLength, Coords(neighbours)[..i + 1], ch)
        == Count(View(), boardLength, Coords(neighbours)[..i], ch) + (if neighbours[i].hint == ch then 1 else 0)
    {
      var nb := Coords(neighbours);
      forall j | 0 <= j < |neighbours|
        ensures InBounds(nb[j], boardLength) && neighbours[j].hint == At(View(), nb[j])
      {
        OnView(neighbours[j]);
      }
      assert nb[..i + 1][..i] == nb[..i];
    }

    /** getTheNumberOfDangers: how many neighbours of the cell the view shows flagged '*'. */
    method GetTheNumberOfDangers(cell: Cell) returns (nDangers: int)
      requires Placement()
      ensures nDangers == Dangers(View(), boardLength, (cell.x, cell.y))
    {
      nDangers := 0;
      var neighbours := GetNeighbours(cell);
      for i := 0 to |neighbours|
        invariant nDangers == Count(View(), boardLength, Coords(neighbours)[..i], '*')
      {
        CountNext(neighbours, i, '*');
        if neighbours[i].GetHint() == '*' {
          nDangers := nDangers + 1;
        }
      }
      assert Coords(neighbours)[..|neighbours|] == Coords(neighbours);
    }

    /** getTheNumberOfUnknown: how many neighbours of the cell the view still shows '?'. */
    method GetTheNumberOfUnknown(cell: Cell) returns (nUnknowns: int)
      requires Placement()
      ensures nUnknowns == Unknowns(View(), boardLength, (cell.x, cell.y))
    {
      nUnknowns := 0;
      var neighbours := GetNeighbours(cell);
      for i := 0 to |neighbours|
        invariant nUnknowns == Count(View(), boardLength, Coords(neighbours)[..i], '?')
      {
        CountNext(neighbours, i, '?');
        if neighbours[i].GetHint() == '?' {
          nUnknowns := nUnknowns + 1;
        }
      }
      assert Coords(neighbours)[..|neighbours|] == Coords(neighbours);
    }

    /**
      isAFN: some neighbour of the cell shows a hint whose numeric value
      equals the number of its own neighbours already flagged.
     */
    method IsAFN(cell: Cell) returns (b: bool)
      requires Placement()
      ensures b <==> AFN(View(), boardLength, (cell.x, cell.y))
    {
      var neighbours := GetNeighbours(cell);
      ghost var nb := Coords(neighbours);
      for i := 0 to |neighbours|
        invariant !AFNAmong(View(), boardLength, nb, i)
      {
        var neighbour := neighbours[i];
        OnView(neighbour);
        assert nb[i] == (neighbour.x, neighbour.y);
        if neighbour.GetHint() != '?' && neighbour.GetHint() != '*' {
          var nDangers := GetTheNumberOfDangers(neighbour);
          assert AFNAt(View(), boardLength, nb[i]) <==> nDangers == NumericValue(neighbour.GetHint() as int);
          if nDangers == NumericValue(neighbour.GetHint() as int) {
            assert AFNAmong(View(), boardLength, nb, i + 1);
            AFNAmongExists(View(), boardLength, nb, i + 1);
            AFNAmongExists(View(), boardLength, nb, |nb|);
            return true;
          }
        }
        assert !AFNAt(View(), boardLength, nb[i]);
      }
      return false;
    }

    /**
      isAMN: some neighbour of the cell has as many unknown neighbours as
      the numeric value of its hint character's code minus its flagged
      neighbours.
     */
    method IsAMN(cell: Cell) returns (b: bool)
      requires Placement()
      ensures b <==> AMN(View(), boardLength, (cell.x, cell.y))
    {
      var neighbours := GetNeighbours(cell);
      ghost var nb := Coords(neighbours);
      for i := 0 to |neighbours|
        invariant !AMNAmong(View(), boardLength, nb, i)
      {
        var neighbour := neighbours[i];
        OnView(neighbour);
        assert nb[i] == (neighbour.x, neighbour.y);
        if neighbour.GetHint() != '?' && neighbour.GetHint() != '*' {
          var nUnknowns := GetTheNumberOfUnknown(neighbour);
          var nDangers := GetTheNumberOfDangers(neighbour);
          assert AMNAt(View(), boardLength, nb[i]) <==> nUnknowns == NumericValue(neighbour.GetHint() as int - nDangers);
          if nUnknowns == NumericValue(neighbour.GetHint() as int - nDangers) {
            assert AMNAmong(View(), boardLength, nb, i + 1);
            AMNAmongExists(View(), boardLength, nb, i + 1);
            AMNAmongExists(View(), boardLength, nb, |nb|);
            return true;
          }
        }
        assert !AMNAt(View(), boardLength, nb[i]);
      }
      return false;
    }

    /**
      What SPS does, from the records m and g taken before it: with v the
      verdict of the scan over the unproved cells, the cell v names is
      proved, or flagged with the game untouched, or, when there is none,
      the game is over and nothing else changes.
     */
    ghost predicate Scanned(m: Memory, g: GameRecord)
      reads this, board, game, game.board, m.unproved
      requires IsSquare(m.view, boardLength)
    {
      var v := FirstVerdict(m.view, boardLength, Coords(m.unproved), 0);
      (v.Reveal? ==> Revealed(m, g, m.unproved[v.index])) &&
      (v.Flag? ==> Flagged(m, m.unproved[v.index]) && GameMem() == g) &&
      (v.NoVerdict? ==> board.Length0 == board.Length1 && Mem() == m && GameMem() == g.(over := true))
    }

    /**
      SPS, the single-point strategy: scans the unproved cells in order
      and stops at the first one that isAFN shows safe, which it proves,
      or that isAMN shows dangerous, which it flags; when no cell
      qualifies it ends the game. FirstVerdict is the scan's result.
      The source acts on the cell inside the scan and breaks at once;
      here the scan (FirstSingle) returns the cell and SPS acts on it,
      which does the same.
     */
    method SPS()
      requires Valid()
      modifies this, board, cells, game
      ensures Valid() && Scanned(old(Mem()), old(GameMem()))
      ensures WellFormedWorld(game.World(), boardLength) && Consistent(old(View()), game.World(), boardLength) ==>
        Consistent(View(), game.World(), boardLength)
    {
      UnprovedUnknown();
      ghost var m, g := Mem(), GameMem();
      var found, safe := FirstSingle();
      Act(found, safe);
      if WellFormedWorld(game.World(), boardLength) && Consistent(m.view, game.World(), boardLength) {
        ScannedConsistent(m, g);
      }
    }

    /** The unproved cells lie on the board, and the view shows each of them as '?'. */
    lemma UnprovedUnknown()
      requires Valid()
      ensures AllInBounds(Coords(unprovedCells), boardLength)
      ensures forall i :: 0 <= i < |unprovedCells| ==> At(View(), Coords(unprovedCells)[i]) == '?'
    {
      forall i | 0 <= i < |unprovedCells|
        ensures InBounds(Coords(unprovedCells)[i], boardLength) && At(View(), Coords(unprovedCells)[i]) == '?'
      {
        assert unprovedCells[i] in unprovedCells;
        OnView(unprovedCells[i]);
      }
    }

    /**
      SPS keeps the view consistent with a well-formed world: the scan
      runs over cells the view shows as '?', so the cell it proves is
      safe and shows the world's hint, and the cell it flags is a tornado.
     */
    lemma ScannedConsistent(m: Memory, g: GameRecord)
      requires board.Length0 == board.Length1 == boardLength && game.board.Length0 == game.board.Length1 == boardLength
      requires IsSquare(m.view, boardLength) && Scanned(m, g)
      requires AllInBounds(Coords(m.unproved), boardLength)
      requires forall i :: 0 <= i < |m.unproved| ==> At(m.view, Coords(m.unproved)[i]) == '?'
      requires WellFormedWorld(game.World(), boardLength) && Consistent(m.view, game.World(), boardLength)
      ensures Consistent(View(), game.World(), boardLength)
    {
      var w, cs := game.World(), Coords(m.unproved);
      VerdictSound(m.view, w, boardLength, cs);
      var v := FirstVerdict(m.view, boardLength, cs, 0);
      if v.Reveal? {
        var c := m.unproved[v.index];
        assert cs[v.index] == (c.x, c.y);
        assert c.hint == At(w, (c.x, c.y));
        RevealConsistent(m.view, w, boardLength, (c.x, c.y));
      } else if v.Flag? {
        var c := m.unproved[v.index];
        assert cs[v.index] == (c.x, c.y);
        FlagConsistent(m.view, w, boardLength, (c.x, c.y));
      }
    }

    /** What SPS does with the result of its scan: prove the cell, flag it, or end the game. */
    method Act(found: Cell?, safe: bool)
      requires Valid() && (found != null ==> found in cells)
      modifies this, board, cells, game
      ensures Valid()
      ensures found == null ==> Mem() == old(Mem()) && GameMem() == old(GameMem()).(over := true)
      ensures found != null && safe ==> Revealed(old(Mem()), old(GameMem()), found)
      ensures found != null && !safe ==> Flagged(old(Mem()), found) && GameMem() == old(GameMem())
    {
      if found == null {
        game.SetGameOver(true);
      } else if safe {
        ProveCell(found);
      } else {
        SetDanger(found);
      }
    }

    /**
      The scan of SPS: the first unproved cell for which isAFN holds, with
      safe set, or else the first for which isAMN holds, or null when
      there is none.
     */
    method FirstSingle() returns (found: Cell?, safe: bool)
      requires Valid()
      ensures var v := FirstVerdict(View(), boardLength, Coords(unprovedCells), 0);
        (found == null <==> v.NoVerdict?) &&
        (found != null ==> found in cells && found == unprovedCells[v.index] && (safe <==> v.Reveal?))
    {
      ghost var cs := Coords(unprovedCells);
      found, safe := null, false;
      for i := 0 to |unprovedCells|
        invariant found == null
        invariant FirstVerdict(View(), boardLength, cs, 0) == FirstVerdict(View(), boardLength, cs, i)
      {
        var cell := unprovedCells[i];
        assert cell in unprovedCells && cs[i] == (cell.x, cell.y);
        var afn := IsAFN(cell);
        if afn {
          return cell, true;
        }
        var amn := IsAMN(cell);
        if amn {
          return cell, false;
        }
      }
    }

    /** No unproved cell is proved. */
    lemma UnprovedApart()
      requires Valid()
      ensures Apart(unprovedCells, provedCells)
    {
    }

    /** The places of cells of the view lie on the board. */
    lemma ListedOnBoard(cs: seq<Cell>)
      requires Placement() && forall c {:trigger c in cs} :: c in cs ==> c in cells
      ensures AllInBounds(Coords(cs), boardLength)
    {
      forall i | 0 <= i < |cs|
        ensures InBounds(Coords(cs)[i], boardLength)
      {
        assert cs[i] in cs;
        OnView(cs[i]);
      }
    }

    /**
      uncoverNeighbours, the flood fill: while some revealed '0' is still
      to be handled and the game is not won, one round collects the
      unproved cells around every proved cell that shows '0' and proves
      each of them not proved yet, and counts one '0' as handled. A cell
      next to a '0' is safe, so on a view consistent with a well-formed
      world the view stays consistent.
     */
    method UncoverNeighbours()
      requires Valid()
      modifies this, board, cells, game
      ensures Valid() && cells == old(cells) && tornadoCells == old(tornadoCells)
      ensures cellsWithFreeNeighbours == 0 || game.gameWon
      ensures ZeroProved(View(), boardLength, old(provedCells), old(unprovedCells), provedCells)
      ensures Extends(old(View()), View(), boardLength)
      ensures WellFormedWorld(game.World(), boardLength) && Consistent(old(View()), game.World(), boardLength)
        ==> Consistent(View(), game.World(), boardLength)
    {
      ZeroProvedNone(View(), boardLength, provedCells, unprovedCells);
      while cellsWithFreeNeighbours != 0 && !game.IsGameWon()
        invariant Valid() && cells == old(cells) && tornadoCells == old(tornadoCells)
        invariant game.World() == old(game.World())
        invariant ZeroProved(View(), boardLength, old(provedCells), old(unprovedCells), provedCells)
        invariant AllIn(unprovedCells, old(unprovedCells))
        invariant Extends(old(View()), View(), boardLength)
        invariant WellFormedWorld(game.World(), boardLength) && Consistent(old(View()), game.World(), boardLength)
          ==> Consistent(View(), game.World(), boardLength)
        decreases cellsWithFreeNeighbours + |unprovedCells|
      {
        ghost var before, provedBefore, unprovedBefore := View(), provedCells, unprovedCells;
        UnprovedApart();
        Round();
        AllInTrans(unprovedCells, unprovedBefore, old(unprovedCells));
        ExtendsTrans(old(View()), before, View(), boardLength);
        ZeroProvedChain(before, View(), boardLength, old(provedCells), old(unprovedCells),
          provedBefore, unprovedBefore, provedCells);
      }
    }

    /**
      One round of the flood fill: collect the unproved cells around the
      proved '0' cells, prove each one not yet examined, and count one
      handled '0'.
     */
    method Round()
      requires Valid() && cellsWithFreeNeighbours != 0
      modifies this, board, cells, game
      ensures Valid() && cells == old(cells) && tornadoCells == old(tornadoCells)
      ensures game.World() == old(game.World())
      ensures ZeroProved(View(), boardLength, old(provedCells), old(unprovedCells), provedCells)
      ensures AllIn(unprovedCells, old(unprovedCells))
      ensures Extends(old(View()), View(), boardLength)
      ensures cellsWithFreeNeighbours + |unprovedCells| < old(cellsWithFreeNeighbours + |unprovedCells|)
      ensures WellFormedWorld(game.World(), boardLength) && Consistent(old(View()), game.World(), boardLength)
        ==> Consistent(View(), game.World(), boardLength)
    {
      var adjacentCells := CollectAdjacent();
      ProveAdjacent(adjacentCells);
      HandledZero();
    }

    /** The end of a round: one '0' fewer is waiting to be handled. */
    method HandledZero()
      requires Valid() && cellsWithFreeNeighbours != 0
      modifies this
      ensures Valid() && cellsWithFreeNeighbours == old(cellsWithFreeNeighbours) - 1
      ensures cells == old(cells) && unprovedCells == old(unprovedCells) && provedCells == old(provedCells)
      ensures uncoveredCells == old(uncoveredCells) && tornadoCells == old(tornadoCells)
    {
      cellsWithFreeNeighbours := cellsWithFreeNeighbours - 1;
    }

    /**
      The first loop of a round of uncoverNeighbours: for every proved
      cell that shows '0', in order, the unproved cells found around it.
     */
    method CollectAdjacent() returns (adjacentCells: seq<Cell>)
      requires Valid()
      ensures AllInBounds(Coords(provedCells), boardLength) && AllInBounds(Coords(unprovedCells), boardLength)
      ensures Coords(adjacentCells) == Collected(View(), boardLength, Coords(provedCells), Coords(unprovedCells))
      ensures forall i :: 0 <= i < |adjacentCells| ==> adjacentCells[i] in unprovedCells
      ensures forall i :: 0 <= i < |adjacentCells| ==>
        adjacentCells[i] in cells && ZeroAdjacent(View(), boardLength, (adjacentCells[i].x, adjacentCells[i].y))
    {
      ghost var ps, us := Coords(provedCells), Coords(unprovedCells);
      ListedOnBoard(provedCells);
      ListedOnBoard(unprovedCells);
      adjacentCells := [];
      for i := 0 to |provedCells|
        invariant Coords(adjacentCells) == Collected(View(), boardLength, ps[..i], us)
        invariant forall k :: 0 <= k < |adjacentCells| ==> adjacentCells[k] in unprovedCells
      {
        var cell := provedCells[i];
        assert cell in provedCells && ps[..i + 1][..i] == ps[..i];
        OnView(cell);
        if cell.GetHint() == '0' {
          var found := UnprovedAround(cell);
          CoordsAppend(adjacentCells, found);
          adjacentCells := adjacentCells + found;
        }
      }
      assert ps[..|provedCells|] == ps;
      forall i | 0 <= i < |adjacentCells|
        ensures adjacentCells[i] in cells && ZeroAdjacent(View(), boardLength, (adjacentCells[i].x, adjacentCells[i].y))
      {
        assert adjacentCells[i] in unprovedCells;
        assert Coords(adjacentCells)[i] in Collected(View(), boardLength, ps, us);
        CollectedZeroAdjacent(View(), boardLength, ps, us, Coords(adjacentCells)[i]);
      }
    }

    /**
      The six findUnprovedCell blocks of uncoverNeighbours for one cell:
      the unproved cells at the candidate places whose guard holds, in
      the order of the table Candidates.
     */
    method UnprovedAround(cell: Cell) returns (found: seq<Cell>)
      ensures Coords(found) == Among(Candidates(cell.x, cell.y, boardLength), Coords(unprovedCells))
      ensures forall i :: 0 <= i < |found| ==> found[i] in unprovedCells
    {
      var cands := Candidates(cell.x, cell.y, boardLength);
      found := [];
      assert cands[..0] == [];
      for k := 0 to 6
        invariant Coords(found) == Among(cands[..k], Coords(unprovedCells))
        invariant forall i :: 0 <= i < |found| ==> found[i] in unprovedCells
      {
        assert cands[..k + 1][..k] == cands[..k];
        if cands[k].0 {
          var adjacentCell := FindUnprovedCell(cands[k].1.0, cands[k].1.1);
          if adjacentCell != null {
            CoordsSnoc(found, adjacentCell);
            found := found + [adjacentCell];
          }
        }
      }
      assert cands[..6] == cands;
    }

    /**
      The second loop of a round of uncoverNeighbours: every collected
      cell not yet proved is proved, and no other cell. Each of them is
      next to a '0', so each is safe on a consistent view.
     */
    method ProveAdjacent(adjacentCells: seq<Cell>)
      requires Valid() && AllIn(adjacentCells, unprovedCells)
      requires forall i :: 0 <= i < |adjacentCells| ==>
        ZeroAdjacent(View(), boardLength, (adjacentCells[i].x, adjacentCells[i].y))
      modifies this, board, cells, game
      ensures Valid() && cells == old(cells) && tornadoCells == old(tornadoCells)
      ensures game.World() == old(game.World())
      ensures AllIn(adjacentCells, provedCells) && AddedOnce(old(provedCells), provedCells, adjacentCells)
      ensures ZeroProved(View(), boardLength, old(provedCells), old(unprovedCells), provedCells)
      ensures AllIn(unprovedCells, old(unprovedCells))
      ensures old(cellsWithFreeNeighbours) <= cellsWithFreeNeighbours
      ensures cellsWithFreeNeighbours + |unprovedCells| <= old(cellsWithFreeNeighbours + |unprovedCells|)
      ensures Extends(old(View()), View(), boardLength)
      ensures WellFormedWorld(game.World(), boardLength) && Consistent(old(View()), game.World(), boardLength)
        ==> Consistent(View(), game.World(), boardLength)
    {
      UnprovedApart();
      AddedNone(provedCells, adjacentCells);
      assert adjacentCells[..0] == [];
      for j := 0 to |adjacentCells|
        invariant Valid() && cells == old(cells) && tornadoCells == old(tornadoCells)
        invariant game.World() == old(game.World())
        invariant AllIn(adjacentCells[..j], provedCells) && AddedOnce(old(provedCells), provedCells, adjacentCells)
        invariant AllIn(unprovedCells, old(unprovedCells))
        invariant old(cellsWithFreeNeighbours) <= cellsWithFreeNeighbours
        invariant cellsWithFreeNeighbours + |unprovedCells| <= old(cellsWithFreeNeighbours + |unprovedCells|)
        invariant Extends(old(View()), View(), boardLength)
        invariant WellFormedWorld(game.World(), boardLength) && Consistent(old(View()), game.World(), boardLength)
          ==> Consistent(View(), game.World(), boardLength)
      {
        var adjacentCell := adjacentCells[j];
        assert adjacentCell in adjacentCells;
        ZeroAdjacentExtends(old(View()), View(), boardLength, (adjacentCell.x, adjacentCell.y));
        ghost var before, provedBefore, unprovedBefore := View(), provedCells, unprovedCells;
        ProveIfNew(adjacentCell);
        AllInTrans(unprovedCells, unprovedBefore, old(unprovedCells));
        ExtendsTrans(old(View()), before, View(), boardLength);
        ProvedAllNext(adjacentCells, j, provedBefore, provedCells);
        AddedNext(old(provedCells), provedBefore, provedCells, adjacentCells, adjacentCell);
      }
      assert adjacentCells[..|adjacentCells|] == adjacentCells;
      AddedZeroProved(old(View()), View(), boardLength, old(provedCells), old(unprovedCells), provedCells, adjacentCells);
    }

    /**
      One pass of the second loop: the cell is proved unless
      hasBeenExamined finds it among the proved cells. Only an unknown
      place of the view changes, and the cell, next to a '0', is safe.
     */
    method ProveIfNew(adjacentCell: Cell)
      requires Valid() && adjacentCell in cells
      requires ZeroAdjacent(View(), boardLength, (adjacentCell.x, adjacentCell.y))
      modifies this, board, cells, game
      ensures Valid() && cells == old(cells) && tornadoCells == old(tornadoCells)
      ensures game.World() == old(game.World())
      ensures provedCells == old(provedCells) + (if adjacentCell in old(provedCells) then [] else [adjacentCell])
      ensures AllIn(unprovedCells, old(unprovedCells))
      ensures old(cellsWithFreeNeighbours) <= cellsWithFreeNeighbours
      ensures cellsWithFreeNeighbours + |unprovedCells| <= old(cellsWithFreeNeighbours + |unprovedCells|)
      ensures Extends(old(View()), View(), boardLength)
      ensures WellFormedWorld(game.World(), boardLength) && Consistent(old(View()), game.World(), boardLength)
        ==> Consistent(View(), game.World(), boardLength)
    {
      var examined := HasBeenExamined(adjacentCell);
      PlaceListed(adjacentCell, provedCells);
      OnView(adjacentCell);
      if !examined {
        ghost var m, g := Mem(), GameMem();
        ProveCell(adjacentCell);
        RevealStep(m, adjacentCell);
        RemoveFirstMembers(m.unproved, adjacentCell);
      }
    }

    /**
      After proveCell of the unproved cell c next to a '0', from the
      record m taken before: the view only changed at c's unknown place,
      the counter plus the unproved cells did not grow, and a view
      consistent with a well-formed world stays consistent, c being safe.
     */
    lemma RevealStep(m: Memory, c: Cell)
      requires Placement() && c in m.unproved && 0 <= c.x < boardLength && 0 <= c.y < boardLength
      requires game.board.Length0 == game.board.Length1 == boardLength
      requires Recorded(m, c, game.board[c.y, c.x])
      requires At(m.view, (c.x, c.y)) == '?' && ZeroAdjacent(m.view, boardLength, (c.x, c.y))
      ensures Extends(m.view, View(), boardLength)
      ensures m.counter <= cellsWithFreeNeighbours
      ensures cellsWithFreeNeighbours + |unprovedCells| <= m.counter + |m.unproved|
      ensures WellFormedWorld(game.World(), boardLength) && Consistent(m.view, game.World(), boardLength)
        ==> Consistent(View(), game.World(), boardLength)
    {
      var p := (c.x, c.y);
      assert View() == Set(m.view, p, c.hint);
      SetExtends(m.view, boardLength, p, c.hint);
      var w := game.World();
      if WellFormedWorld(w, boardLength) && Consistent(m.view, w, boardLength) {
        ZeroAdjacentSafe(m.view, w, boardLength, p);
        assert c.hint == At(w, p);
        RevealConsistent(m.view, w, boardLength, p);
      }
    }

    /**
      buildClause: the literals "T" + x + y of the cell's unknown
      neighbours, every permutation of them with its first m literals
      negated, where m is the unknowns minus the hint's numeric value
      minus the flagged neighbours, rendered as a disjunction of
      conjunctions; or the exception get(j) throws when m exceeds the
      number of literals.
     */
    method BuildClause(cell: Cell) returns (r: Outcome<string>)
      requires Placement() && cell in cells
      ensures r == CellClause(View(), boardLength, (cell.x, cell.y))
    {
      var literals, m := ClauseInputs(cell);
      r := ClauseFor(literals, m);
      CellClauseIs(View(), boardLength, (cell.x, cell.y), literals, m);
    }

    /**
      The first half of buildClause: the literals of the cell's unknown
      neighbours, in order, and the count of literals to negate in each
      permutation: nUnknowns - nTornadoes - nDangers. The literals of the
      flagged neighbours are built as in the source and never used.
     */
    method ClauseInputs(cell: Cell) returns (literals: seq<string>, m: int)
      requires Placement() && cell in cells
      ensures literals == LiteralNames(UnknownCoords(View(), boardLength, NeighbourCoords(cell.x, cell.y, boardLength)))
      ensures m == NegationCount(View(), boardLength, (cell.x, cell.y))
    {
      OnView(cell);
      ghost var view, c := View(), (cell.x, cell.y);
      var neighbours := GetNeighbours(cell);
      var unknowns, dangerousNeighbours := SplitNeighbours(neighbours);
      assert View() == view;
      literals := Literals(unknowns);
      var dangerousLiterals := Literals(dangerousNeighbours);
      var nTornadoes := NumericValue(cell.GetHint() as int);
      var nUnknowns := |unknowns|;
      assert nUnknowns == Unknowns(view, boardLength, c);
      var nDangers := GetTheNumberOfDangers(cell);
      m := nUnknowns - nTornadoes - nDangers;
      assert View() == view;
    }

    /**
      The first loop of buildClause: the neighbours the view shows as '?'
      and those it shows flagged '*', each in order.
     */
    method SplitNeighbours(neighbours: seq<Cell>) returns (unknowns: seq<Cell>, dangerousNeighbours: seq<Cell>)
      requires Placement() && forall i :: 0 <= i < |neighbours| ==> neighbours[i] in cells
      ensures AllInBounds(Coords(neighbours), boardLength)
      ensures Coords(unknowns) == UnknownCoords(View(), boardLength, Coords(neighbours))
      ensures forall i :: 0 <= i < |dangerousNeighbours| ==> dangerousNeighbours[i].hint == '*'
    {
      ghost var nb, view := Coords(neighbours), View();
      ListedOnBoard(neighbours);
      unknowns, dangerousNeighbours := [], [];
      for i := 0 to |neighbours|
        invariant Coords(unknowns) == UnknownCoords(view, boardLength, nb[..i])
        invariant forall k :: 0 <= k < |dangerousNeighbours| ==> dangerousNeighbours[k].hint == '*'
      {
        var c := neighbours[i];
        OnView(c);
        UnknownCoordsNext(view, boardLength, nb, i);
        assert nb[i] == (c.x, c.y) && c.hint == At(view, nb[i]);
        if c.GetHint() == '*' {
          dangerousNeighbours := dangerousNeighbours + [c];
        } else if c.GetHint() == '?' {
          CoordsSnoc(unknowns, c);
          unknowns := unknowns + [c];
        }
      }
      assert nb[..|neighbours|] == nb;
    }

    /**
      buildKB: for each uncovered cell with an unknown neighbour, its
      clause in parentheses followed by '&', the last '&' deleted; an
      exception from any clause ends it.
     */
    method BuildKB() returns (r: Outcome<string>)
      requires Placement() && forall c {:trigger c in uncoveredCells} :: c in uncoveredCells ==> c in cells
      ensures AllInBounds(Coords(uncoveredCells), boardLength)
      ensures r == Kb(View(), boardLength, Coords(uncoveredCells))
    {
      ListedOnBoard(uncoveredCells);
      ghost var view, cs := View(), Coords(uncoveredCells);
      ghost var parts: seq<string> := [];
      var builder := "";
      assert cs[..0] == [];
      for i := 0 to |uncoveredCells|
        invariant View() == view
        invariant KbParts(view, boardLength, cs[..i]) == Ok(parts)
        invariant builder == Terminated(parts, '&')
      {
        var cell := uncoveredCells[i];
        assert cell in uncoveredCells && cs[i] == (cell.x, cell.y);
        KbPartsNext(view, boardLength, cs, i);
        var part := KbPart(cell);
        if part.IndexOutOfBounds? {
          KbPartsAbort(view, boardLength, cs, i + 1);
          return IndexOutOfBounds;
        }
        TerminatedAppend(parts, part.value, '&');
        if part.value != [] {
          builder := builder + part.value[0] + "&";
        }
        parts := parts + part.value;
      }
      assert cs[..|uncoveredCells|] == cs;
      UnterminatedJoin(parts, '&');
      if |builder| > 0 {
        builder := builder[..|builder| - 1];
      }
      return Ok(builder);
    }

    /**
      One pass of buildKB's loop: nothing for a cell with no unknown
      neighbour, otherwise "(" + buildClause(cell) + ")", or the exception
      buildClause throws. The source's test clause != "" compares
      references to a fresh string and always holds.
     */
    method KbPart(cell: Cell) returns (part: Outcome<seq<string>>)
      requires Placement() && cell in cells
      ensures InBounds((cell.x, cell.y), boardLength)
      ensures part == ClausePart(View(), boardLength, (cell.x, cell.y))
    {
      OnView(cell);
      var nUnknowns := GetTheNumberOfUnknown(cell);
      if nUnknowns > 0 {
        var clause := BuildClause(cell);
        if clause.IndexOutOfBounds? {
          return IndexOutOfBounds;
        }
        return Ok(["(" + clause.value + ")"]);
      }
      return Ok([]);
    }

    /** initBoard: every place of the view becomes '?'. */
    method InitBoard()
      requires board.Length0 == boardLength && board.Length1 == boardLength
      modifies board
      ensures forall y, x :: 0 <= y < boardLength && 0 <= x < boardLength ==> board[y, x] == '?'
    {
      for i := 0 to boardLength
        invariant forall y, x :: 0 <= y < boardLength && 0 <= x < i ==> board[y, x] == '?'
      {
        for j := 0 to boardLength
          invariant forall y, x :: 0 <= y < boardLength && 0 <= x < i ==> board[y, x] == '?'
          invariant forall y :: 0 <= y < j ==> board[y, i] == '?'
        {
          board[j, i] := '?';
        }
      }
    }

    /** initCells: one new '?' cell per place, row by row, each added to cells and unprovedCells. */
    method InitCells()
      requires boardLength >= 0 && cells == [] && unprovedCells == []
      modifies this
      ensures |cells| == boardLength * boardLength && unprovedCells == cells
      ensures forall k :: 0 <= k < |cells| ==> RowPlaced(cells[k], k, boardLength) && cells[k].hint == '?'
      ensures forall k :: 0 <= k < |cells| ==> fresh(cells[k])
      ensures NoDup(cells)
      ensures provedCells == old(provedCells) && uncoveredCells == old(uncoveredCells)
      ensures tornadoCells == old(tornadoCells) && cellsWithFreeNeighbours == old(cellsWithFreeNeighbours)
    {
      var n := boardLength;
      for i := 0 to n
        invariant |cells| == i * n && unprovedCells == cells
        invariant forall k :: 0 <= k < |cells| ==> RowPlaced(cells[k], k, n) && cells[k].hint == '?'
        invariant forall k :: 0 <= k < |cells| ==> fresh(cells[k])
        invariant NoDup(cells)
        invariant provedCells == old(provedCells) && uncoveredCells == old(uncoveredCells)
        invariant tornadoCells == old(tornadoCells) && cellsWithFreeNeighbours == old(cellsWithFreeNeighbours)
      {
        for j := 0 to n
          invariant |cells| == i * n + j && unprovedCells == cells
          invariant forall k :: 0 <= k < |cells| ==> RowPlaced(cells[k], k, n) && cells[k].hint == '?'
          invariant forall k :: 0 <= k < |cells| ==> fresh(cells[k])
          invariant NoDup(cells)
          invariant provedCells == old(provedCells) && uncoveredCells == old(uncoveredCells)
          invariant tornadoCells == old(tornadoCells) && cellsWithFreeNeighbours == old(cellsWithFreeNeighbours)
        {
          IndexIsProduct(i, n, j);
          var cell := new Cell(j, i, '?');
          cells := cells + [cell];
          unprovedCells := unprovedCells + [cell];
        }
        assert i * n + n == (i + 1) * n;
      }
    }

    /** The agent's record at this moment. */
    ghost function Mem(): (m: Memory)
      reads this, board
      requires board.Length0 == board.Length1
      ensures m.view == View() && m.cells == cells && m.unproved == unprovedCells
      ensures m.proved == provedCells && m.uncovered == uncoveredCells
      ensures m.tornado == tornadoCells && m.counter == cellsWithFreeNeighbours
    {
      Memory(View(), cells, unprovedCells, provedCells, uncoveredCells, tornadoCells, cellsWithFreeNeighbours)
    }

    /** The game's record at this moment. */
    ghost function GameMem(): (g: GameRecord)
      reads game
      ensures g.all == game.allCells && g.covered == game.coveredCells
      ensures g.over == game.gameOver && g.won == game.gameWon && g.satisfiable == game.satisfiable
    {
      GameRecord(game.allCells, game.coveredCells, game.gameOver, game.gameWon, game.satisfiable)
    }

    /**
      What proveCell does to the cell c, from the records m and g taken
      before: the game uncovers c's place and the agent records the
      hint the game's map shows there.
     */
    ghost predicate Revealed(m: Memory, g: GameRecord, c: Cell)
      reads this, board, c, game, game.board
    {
      0 <= c.x < boardLength && 0 <= c.y < boardLength &&
      game.board.Length0 == boardLength && game.board.Length1 == boardLength &&
      Recorded(m, c, game.board[c.y, c.x]) && GameUncovered(g, c)
    }

    /**
      The agent's side of proveCell for the cell c whose place shows h in
      the game, from the record m: c and the view show h as setHint
      stores it, c moves from the unproved cells to the proved and
      uncovered ones, and the counter grows exactly when the stored hint
      is '0'.
     */
    ghost predicate Recorded(m: Memory, c: Cell, h: char)
      reads this, board, c
    {
      0 <= c.x < boardLength && 0 <= c.y < boardLength &&
      board.Length0 == boardLength && board.Length1 == boardLength && IsSquare(m.view, boardLength) &&
      c.hint == StoredHint(h, agentType) && Mem() == AfterProve(m, boardLength, c, c.hint)
    }

    /**
      The game's side of proveCell for the cell c, from the record g: the
      game's cell at c's place is no longer covered and the flags are
      updated as uncoverCell does; nothing else of the game changes.
     */
    ghost predicate GameUncovered(g: GameRecord, c: Cell)
      reads game, game.board
    {
      var n := game.board.Length0;
      0 <= c.x < n && 0 <= c.y < n && game.board.Length1 == n &&
      0 <= Index(c.x, n, c.y) < |g.all| &&
      GameMem() == Uncovering(g, game.World(), n, (c.x, c.y), agentType)
    }

    /**
      What setDanger does to the cell c, from the record m: it and the
      view show '*', and c moves from the unproved cells to the proved
      and tornado ones.
     */
    ghost predicate Flagged(m: Memory, c: Cell)
      reads this, board, c
    {
      0 <= c.x < boardLength && 0 <= c.y < boardLength &&
      board.Length0 == boardLength && board.Length1 == boardLength && IsSquare(m.view, boardLength) &&
      c.hint == '*' && Mem() == AfterFlag(m, boardLength, c)
    }

    /** proveCell: uncovers the cell through the game and records what it shows. */
    method ProveCell(cell: Cell)
      requires Valid() && cell in cells
      modifies this, board, cell, game
      ensures Valid() && Revealed(old(Mem()), old(GameMem()), cell)
    {
      OnView(cell);
      var targetCell := GetCell(cell.x, cell.y);
      SameCell(cell, targetCell);
      var h := UncoverPlace(cell);
      RecordProved(cell, targetCell, h);
    }

    /** The game's half of proveCell: uncoverCell at the place of cell, returning the hint found there. */
    method UncoverPlace(cell: Cell) returns (h: char)
      requires Valid() && cell in cells
      modifies game
      ensures Valid() && Mem() == old(Mem()) && GameUncovered(old(GameMem()), cell)
      ensures 0 <= cell.x < boardLength && 0 <= cell.y < boardLength
      ensures game.board.Length0 == boardLength && game.board.Length1 == boardLength
      ensures h == game.board[cell.y, cell.x]
    {
      OnView(cell);
      ghost var m, g := Mem(), GameMem();
      var uncoveredCell := game.UncoverCell(cell.x, cell.y, agentType);
      game.TornadoesWorld(game.coveredCells);
      assert GameUncovered(g, cell);
      GameMoveValid();
      assert Mem() == m;
      h := uncoveredCell.GetHint();
    }

    /**
      The agent's half of proveCell, once the game has uncovered the place
      of cell (targetCell being the same cell, found by getCell): both
      store the hint h, the lists and the view record it, and the counter
      notes a '0'.
     */
    method RecordProved(cell: Cell, targetCell: Cell, h: char)
      requires Valid() && cell in cells && targetCell == cell
      modifies this, board, cell
      ensures Valid() && Recorded(old(Mem()), cell, h)
    {
      OnView(cell);
      cell.SetHint(h, agentType);
      targetCell.SetHint(h, agentType);
      RemoveFirstMembers(unprovedCells, cell);
      unprovedCells := RemoveFirst(unprovedCells, cell);
      provedCells := provedCells + [cell];
      uncoveredCells := uncoveredCells + [cell];
      board[cell.y, cell.x] := cell.GetHint();
      if cell.GetHint() == '0' {
        cellsWithFreeNeighbours := cellsWithFreeNeighbours + 1;
      }
      ViewAfterWrite(cell);
      MovedValid(cell);
    }

    /** setDanger: flags the cell as a tornado. */
    method SetDanger(cell: Cell)
      requires Valid() && cell in cells
      modifies this, board, cell
      ensures Valid() && Flagged(old(Mem()), cell)
    {
      OnView(cell);
      var targetCell := GetCell(cell.x, cell.y);
      SameCell(cell, targetCell);
      RecordFlagged(cell, targetCell);
    }

    /** The body of setDanger once getCell has found targetCell, the same cell. */
    method RecordFlagged(cell: Cell, targetCell: Cell)
      requires Valid() && cell in cells && targetCell == cell
      modifies this, board, cell
      ensures Valid() && Flagged(old(Mem()), cell)
    {
      OnView(cell);
      cell.SetHint('*', agentType);
      targetCell.SetHint('*', agentType);
      tornadoCells := tornadoCells + [cell];
      provedCells := provedCells + [cell];
      RemoveFirstMembers(unprovedCells, cell);
      unprovedCells := RemoveFirst(unprovedCells, cell);
      board[cell.y, cell.x] := cell.GetHint();
      ViewAfterWrite(cell);
      MovedValid(cell);
    }

    /**
      The invariant survives moving the cell c out of the unproved cells
      when only c's hint and its place on the view changed.
     */
    twostate lemma MovedValid(c: Cell)
      requires old(Valid()) && old(c in cells) && game.Valid()
      requires cells == old(cells) && game.allCells == old(game.allCells)
      requires unprovedCells == RemoveFirst<Cell>(old(unprovedCells), c)
      requires provedCells == old(provedCells) + [c]
      requires forall d :: d in uncoveredCells ==> d == c || d in old(uncoveredCells)
      requires forall d :: d in tornadoCells ==> d == c || d in old(tornadoCells)
      requires cellsWithFreeNeighbours >= old(cellsWithFreeNeighbours)
      requires forall d {:trigger d in cells} :: d in cells && d != c ==> d.hint == old(d.hint)
      requires board.Length0 == board.Length1 == boardLength && board[c.y, c.x] == c.hint
      requires forall y, x :: 0 <= y < boardLength && 0 <= x < boardLength && (x, y) != (c.x, c.y) ==>
        board[y, x] == old(board[y, x])
      ensures Valid()
    {
      RemoveFirstMembers(old(unprovedCells), c);
      var kc :| 0 <= kc < |cells| && cells[kc] == c;
      forall k | 0 <= k < |cells|
        ensures cells[k].hint == board[cells[k].y, cells[k].x]
      {
        if cells[k] != c {
          assert cells[k] in cells && k != kc;
          assert (cells[k].x, cells[k].y) != (c.x, c.y);
        }
      }
    }

    /** The invariant survives a game move that keeps the game's cells and changes nothing of the agent. */
    twostate lemma GameMoveValid()
      requires old(Valid()) && game.Valid() && game.allCells == old(game.allCells)
      requires unchanged(this, board) && forall c {:trigger c in cells} :: c in cells ==> c.hint == old(c.hint)
      ensures Valid()
    {
      forall k | 0 <= k < |cells|
        ensures cells[k].hint == board[cells[k].y, cells[k].x]
      {
        assert cells[k] in cells;
      }
    }

    /** After a write of the cell's hint to its place, the view changed there only. */
    twostate lemma ViewAfterWrite(c: Cell)
      requires board.Length0 == board.Length1 == boardLength && InBounds((c.x, c.y), boardLength)
      requires board[c.y, c.x] == c.hint
      requires forall y, x :: 0 <= y < boardLength && 0 <= x < boardLength && (x, y) != (c.x, c.y) ==>
        board[y, x] == old(board[y, x])
      ensures View() == Set(old(View()), (c.x, c.y), c.hint)
    {
      SquareExt(View(), Set(old(View()), (c.x, c.y), c.hint), boardLength);
    }
  }
}
