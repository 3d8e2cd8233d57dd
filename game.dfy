/**
  The game environment: a fixed square world map, every cell of it as a
  Cell object, the cells not yet uncovered, and the game's status flags.
 */
module Games {
  import opened Lists
  import opened Grid
  import opened Cells

  /**
    The flags after uncovering a cell whose world hint is h, given the
    flags before and whether only tornadoes remain covered afterwards.
   */
  function UncoverFlags(over: bool, won: bool, h: char, agentType: string, onlyTornadoes: bool): (r: (bool, bool))
    ensures (over ==> r.0) && (won ==> r.1)
    ensures h == 't' && agentType != "P2" ==> r.0 && r.1 == won
    ensures !(h == 't' && agentType != "P2") && onlyTornadoes ==> r.1 && (r.0 <==> over || agentType != "P2")
    ensures !(h == 't' && agentType != "P2") && !onlyTornadoes ==> r == (over, won)
  {
    if h == 't' && agentType != "P2" then (true, won)
    else if onlyTornadoes then (if agentType != "P2" then true else over, true)
    else (over, won)
  }

  /** The cell c sits at index k of a column-by-column list of the cells of an n x n board. */
  predicate Placed(c: Cell, k: int, n: int) {
    0 <= c.x < n && 0 <= c.y < n && Index(c.x, n, c.y) == k
  }

  /** Index x * n + y with 0 <= y < n determines (x, y). */
  lemma PlacedUnique(c: Cell, k: int, n: int, x: int, y: int)
    requires Placed(c, k, n) && 0 <= y < n && k == x * n + y
    ensures c.x == x && c.y == y
  {
    IndexIsProduct(c.x, n, c.y);
    DivModUnique(k, n, c.x, c.y);
    DivModUnique(k, n, x, y);
  }

  /** Every cell of cs lies on the map b and holds a tornado there (vacuously so for no cells). */
  predicate Tornadoes(b: array2<char>, cs: seq<Cell>)
    reads b
  {
    forall i :: 0 <= i < |cs| ==> 0 <= cs[i].y < b.Length0 && 0 <= cs[i].x < b.Length1 && b[cs[i].y, cs[i].x] == 't'
  }

  /** Every cell of cs lies on the n x n world w and holds a tornado there (vacuously so for no cells). */
  predicate TornadoesOn(w: Grid, n: int, cs: seq<Cell>)
    requires IsSquare(w, n)
  {
    forall i :: 0 <= i < |cs| ==> InBounds((cs[i].x, cs[i].y), n) && At(w, (cs[i].x, cs[i].y)) == 't'
  }

  class Game {
    /** The world map, board[y, x]. */
    const board: array2<char>
    /** Every cell, column by column: allCells[x * N + y] is at (x, y). */
    var allCells: seq<Cell>
    /** The cells not yet uncovered. */
    var coveredCells: seq<Cell>
    var gameOver: bool
    var gameWon: bool
    /** Whether the SAT strategy may continue; read and written by the agent. */
    var satisfiable: bool

    /** The side of the board. */
    function Size(): (n: int)
      ensures n == board.Length0
    {
      board.Length0
    }

    ghost predicate Valid()
      reads this, board, allCells
    {
      board.Length0 == board.Length1 &&
      |allCells| == Size() * Size() &&
      (forall k :: 0 <= k < |allCells| ==>
        Placed(allCells[k], k, Size()) && allCells[k].hint == board[allCells[k].y, allCells[k].x]) &&
      (forall c {:trigger c in coveredCells} :: c in coveredCells ==> c in allCells) &&
      NoDup(coveredCells)
    }

    /** The world map as rows of characters. */
    ghost function World(): (w: Grid)
      reads board
      requires board.Length0 == board.Length1
      ensures IsSquare(w, board.Length0)
      ensures forall c {:trigger At(w, c)} :: InBounds(c, board.Length0) ==> At(w, c) == board[c.1, c.0]
    {
      seq(board.Length0, y requires 0 <= y < board.Length0 reads board =>
        seq(board.Length1, x requires 0 <= x < board.Length1 reads board => board[y, x]))
    }

    /** The map holds tornadoes at the places of cs exactly when the world does. */
    lemma TornadoesWorld(cs: seq<Cell>)
      requires board.Length0 == board.Length1
      ensures Tornadoes(board, cs) <==> TornadoesOn(World(), Size(), cs)
    {
    }

    /** The cell of the world at (x, y) sits at index x * N + y of allCells. */
    lemma CellIndex(x: int, y: int)
      requires Valid() && InBounds((x, y), Size())
      ensures 0 <= x * Size() + y < |allCells|
      ensures allCells[x * Size() + y].x == x && allCells[x * Size() + y].y == y
    {
      RowMajor(y, x, Size());
      PlacedUnique(allCells[x * Size() + y], x * Size() + y, Size(), x, y);
    }

    /** A listed cell lies on the board and holds the world's entry there. */
    lemma CellOnBoard(c: Cell)
      requires Valid() && c in allCells
      ensures 0 <= c.x < Size() && 0 <= c.y < Size() && c.hint == board[c.y, c.x]
    {
      var k :| 0 <= k < |allCells| && allCells[k] == c;
    }

    /** Every cell lies on the board, and no cell is listed twice. */
    lemma CellsOnBoard()
      requires Valid()
      ensures forall k :: 0 <= k < |allCells| ==> InBounds((allCells[k].x, allCells[k].y), Size())
      ensures NoDup(allCells)
    {
    }

    /** Stores the map; every cell starts covered and both flags are false. */
    constructor(worldMap: array2<char>)
      requires worldMap.Length0 == worldMap.Length1
      ensures board == worldMap && Valid()
      ensures coveredCells == allCells
      ensures !gameOver && !gameWon && !satisfiable
      ensures forall k :: 0 <= k < |allCells| ==> fresh(allCells[k])
    {
      board := worldMap;
      gameOver := false;
      gameWon := false;
      satisfiable := false;
      allCells := [];
      coveredCells := [];
      new;
      PopulateCells();
    }

    /** populateCells: one new cell per coordinate, column by column, each added to both lists. */
    method PopulateCells()
      requires board.Length0 == board.Length1 && allCells == [] && coveredCells == []
      modifies this
      ensures Valid() && coveredCells == allCells
      ensures forall k :: 0 <= k < |allCells| ==> fresh(allCells[k])
      ensures gameOver == old(gameOver) && gameWon == old(gameWon) && satisfiable == old(satisfiable)
    {
      var n := board.Length0;
      for i := 0 to n
        invariant |allCells| == i * n && coveredCells == allCells
        invariant forall k :: 0 <= k < |allCells| ==>
          Placed(allCells[k], k, n) && allCells[k].hint == board[allCells[k].y, allCells[k].x]
        invariant forall k :: 0 <= k < |allCells| ==> fresh(allCells[k])
        invariant NoDup(allCells)
        invariant gameOver == old(gameOver) && gameWon == old(gameWon) && satisfiable == old(satisfiable)
      {
        for j := 0 to n
          invariant |allCells| == i * n + j && coveredCells == allCells
          invariant forall k :: 0 <= k < |allCells| ==>
            Placed(allCells[k], k, n) && allCells[k].hint == board[allCells[k].y, allCells[k].x]
          invariant forall k :: 0 <= k < |allCells| ==> fresh(allCells[k])
          invariant NoDup(allCells)
          invariant gameOver == old(gameOver) && gameWon == old(gameWon) && satisfiable == old(satisfiable)
        {
          IndexIsProduct(i, n, j);
          var cell := new Cell(i, j, board[j, i]);
          allCells := allCells + [cell];
          coveredCells := coveredCells + [cell];
        }
        assert i * n + n == (i + 1) * n;
      }
    }

    /** Only tornadoes remain covered (vacuously so when nothing is covered). */
    predicate OnlyTornadoesCovered()
      reads this, board
    {
      Tornadoes(board, coveredCells)
    }

    /** checkGameWon: true exactly when every covered cell's world entry is a tornado. */
    method CheckGameWon() returns (r: bool)
      requires Valid()
      ensures r <==> OnlyTornadoesCovered()
    {
      if |coveredCells| == 0 {
        return true;
      }
      for i := 0 to |coveredCells|
        invariant forall k :: 0 <= k < i ==>
          0 <= coveredCells[k].y < board.Length0 && 0 <= coveredCells[k].x < board.Length1 &&
          board[coveredCells[k].y, coveredCells[k].x] == 't'
      {
        var cell := coveredCells[i];
        assert cell in coveredCells;
        CellOnBoard(cell);
        if board[cell.y, cell.x] != 't' {
          return false;
        }
      }
      return true;
    }

    /**
      uncoverCell: for (x, y) on the board, removes that cell from the
      covered cells, updates the flags and returns the cell; off the board
      it returns null and changes nothing.
     */
    method UncoverCell(x: int, y: int, agentType: string) returns (r: Cell?)
      requires Valid()
      modifies this
      ensures Valid() && allCells == old(allCells) && satisfiable == old(satisfiable)
      ensures r == null <==> !InBounds((x, y), Size())
      ensures r == null ==> coveredCells == old(coveredCells) && gameOver == old(gameOver) && gameWon == old(gameWon)
      ensures r != null ==> r.x == x && r.y == y && r.hint == board[y, x]
      ensures r != null ==> 0 <= Index(x, Size(), y) < |allCells| && r == allCells[Index(x, Size(), y)]
      ensures r != null ==> coveredCells == RemoveFirst<Cell>(old(coveredCells), r)
      ensures r != null ==>
        (gameOver, gameWon) == UncoverFlags(old(gameOver), old(gameWon), board[y, x], agentType, OnlyTornadoesCovered())
    {
      var n := Size();
      var i := 0;
      while i < |allCells| && !(allCells[i].x == x && allCells[i].y == y)
        invariant 0 <= i <= |allCells|
        invariant forall k :: 0 <= k < i ==> !(allCells[k].x == x && allCells[k].y == y)
      {
        i := i + 1;
      }
      if i == |allCells| {
        if InBounds((x, y), n) {
          CellIndex(x, y);
        }
        return null;
      }
      var cell := allCells[i];
      IndexIsProduct(x, n, y);
      assert Placed(cell, i, n) && i == x * n + y;
      assert cell.hint == board[y, x];
      ghost var k := x * n + y;
      RemoveFirstMembers(coveredCells, cell);
      coveredCells := RemoveFirst(coveredCells, cell);
      if cell.GetHint() == 't' && agentType != "P2" {
        gameOver := true;
      } else {
        var won := CheckGameWon();
        if won {
          if agentType != "P2" {
            gameOver := true;
          }
          gameWon := true;
        }
      }
      return cell;
    }

    function GetBoard(): (b: array2<char>)
      ensures b == board
    {
      board
    }

    function IsGameOver(): (b: bool)
      reads this
      ensures b == gameOver
    {
      gameOver
    }

    function IsGameWon(): (b: bool)
      reads this
      ensures b == gameWon
    {
      gameWon
    }

    method SetGameOver(isGameOver: bool)
      modifies this
      ensures gameOver == isGameOver
      ensures allCells == old(allCells) && coveredCells == old(coveredCells)
      ensures gameWon == old(gameWon) && satisfiable == old(satisfiable)
    {
      gameOver := isGameOver;
    }

    function IsSatisfiable(): (b: bool)
      reads this
      ensures b == satisfiable
    {
      satisfiable
    }

    method SetSatisfiable(isSatisfiable: bool)
      modifies this
      ensures satisfiable == isSatisfiable
      ensures allCells == old(allCells) && coveredCells == old(coveredCells)
      ensures gameOver == old(gameOver) && gameWon == old(gameWon)
    {
      satisfiable := isSatisfiable;
    }
  }
}
