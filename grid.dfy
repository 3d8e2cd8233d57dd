/**
  The hexagonal board geometry of the tornado sweeper: coordinates, the six
  neighbour offsets used by Agent.getNeighbours, square character grids
  (the agent's view and the world map, indexed [y][x]) and counting over
  coordinate lists.
 */
module Grid {
  import opened Lists

  /** A cell coordinate (x, y): x is the column, y the row. */
  type Coord = (int, int)

  /** A board as rows of characters: g[y][x]. */
  type Grid = seq<seq<char>>

  predicate InBounds(c: Coord, n: int) {
    0 <= c.0 < n && 0 <= c.1 < n
  }

  /**
    b lies at one of the six offsets from a that the hex board uses:
    (-1,-1), (-1,0), (0,-1), (+1,+1), (+1,0), (0,+1).
   */
  predicate Adjacent(a: Coord, b: Coord) {
    var dx, dy := b.0 - a.0, b.1 - a.1;
    (dx == -1 && dy == -1) || (dx == -1 && dy == 0) || (dx == 0 && dy == -1)
    || (dx == 1 && dy == 1) || (dx == 1 && dy == 0) || (dx == 0 && dy == 1)
  }

  /**
    The six places getNeighbours looks at, in its order, each with the guard
    the source tests before calling getCell there.
   */
  function Candidates(x: int, y: int, n: int): seq<(bool, Coord)> {
    [ (x > 0 && y > 0, (x - 1, y - 1)), (x > 0, (x - 1, y)), (y > 0, (x, y - 1)),
      (x < n - 1 && y < n - 1, (x + 1, y + 1)), (x < n - 1, (x + 1, y)), (y < n - 1, (x, y + 1)) ]
  }

  /** The candidates whose guard holds and where getCell finds a cell (it is on the board). */
  function Keep(cands: seq<(bool, Coord)>, n: int): (r: seq<Coord>)
    ensures |r| <= |cands|
    ensures AllInBounds(r, n)
  {
    if cands == [] then []
    else KeepOne(cands[0], n) + Keep(cands[1..], n)
  }

  /** A candidate's place when its guard holds and it lies on the board, else nothing. */
  function KeepOne(cand: (bool, Coord), n: int): seq<Coord> {
    if cand.0 && InBounds(cand.1, n) then [cand.1] else []
  }

  /** The coordinates of the cells getNeighbours returns for (x, y) on an n x n board, in its order. */
  function NeighbourCoords(x: int, y: int, n: int): (r: seq<Coord>)
    ensures |r| <= 6
    ensures AllInBounds(r, n)
  {
    Keep(Candidates(x, y, n), n)
  }

  function CoordsOf(cands: seq<(bool, Coord)>): seq<Coord> {
    seq(|cands|, i requires 0 <= i < |cands| => cands[i].1)
  }

  lemma {:induction false} KeepMembers(cands: seq<(bool, Coord)>, n: int)
    requires NoDup(CoordsOf(cands))
    ensures forall c :: c in Keep(cands, n) <==> exists i :: 0 <= i < |cands| && cands[i].0 && InBounds(c, n) && cands[i].1 == c
    ensures NoDup(Keep(cands, n))
    decreases |cands|
  {
    if cands != [] {
      var coords := CoordsOf(cands);
      var tail := cands[1..];
      assert CoordsOf(tail) == coords[1..];
      KeepMembers(tail, n);
      forall c
        ensures c in Keep(cands, n) <==> exists i :: 0 <= i < |cands| && cands[i].0 && InBounds(c, n) && cands[i].1 == c
      {
        if c in Keep(tail, n) {
          var i :| 0 <= i < |tail| && tail[i].0 && InBounds(c, n) && tail[i].1 == c;
          assert cands[i + 1] == tail[i];
        }
        if exists i :: 0 <= i < |cands| && cands[i].0 && InBounds(c, n) && cands[i].1 == c {
          var i :| 0 <= i < |cands| && cands[i].0 && InBounds(c, n) && cands[i].1 == c;
          if i > 0 {
            assert tail[i - 1] == cands[i];
          }
        }
      }
      if cands[0].0 && InBounds(cands[0].1, n) {
        forall k | 0 <= k < |Keep(tail, n)|
          ensures Keep(tail, n)[k] != cands[0].1
        {
          var c := Keep(tail, n)[k];
          assert c in Keep(tail, n);
          var i :| 0 <= i < |tail| && tail[i].0 && InBounds(c, n) && tail[i].1 == c;
          assert coords[i + 1] == c && coords[0] == cands[0].1;
        }
      }
    }
  }

  /** Keep taken one candidate at a time from the front: the last candidate comes last. */
  lemma {:induction false} KeepSnoc(cands: seq<(bool, Coord)>, n: int)
    requires cands != []
    ensures Keep(cands, n) == Keep(cands[..|cands| - 1], n) + KeepOne(cands[|cands| - 1], n)
    decreases |cands|
  {
    if |cands| > 1 {
      var tail := cands[1..];
      KeepSnoc(tail, n);
      assert tail[..|tail| - 1] == cands[..|cands| - 1][1..];
      assert tail[|tail| - 1] == cands[|cands| - 1];
    } else {
      assert cands[1..] == [] && cands[..0] == [];
    }
  }

  lemma CandidatesDistinct(x: int, y: int, n: int)
    ensures NoDup(CoordsOf(Candidates(x, y, n)))
  {
    assert CoordsOf(Candidates(x, y, n)) == [(x - 1, y - 1), (x - 1, y), (x, y - 1), (x + 1, y + 1), (x + 1, y), (x, y + 1)];
  }

  /** getNeighbours never lists a cell twice. */
  lemma NeighboursDistinct(x: int, y: int, n: int)
    ensures NoDup(NeighbourCoords(x, y, n))
  {
    CandidatesDistinct(x, y, n);
    KeepMembers(Candidates(x, y, n), n);
  }

  /** getNeighbours lists exactly the on-board cells at the six offsets. */
  lemma NeighbourExact(x: int, y: int, n: int, c: Coord)
    ensures c in NeighbourCoords(x, y, n) <==> InBounds(c, n) && Adjacent((x, y), c)
  {
    if c in NeighbourCoords(x, y, n) {
      NeighbourSound(x, y, n, c);
    }
    if InBounds(c, n) && Adjacent((x, y), c) {
      NeighbourComplete(x, y, n, c);
    }
  }

  /** Every place getNeighbours lists is on the board at one of the six offsets. */
  lemma NeighbourSound(x: int, y: int, n: int, c: Coord)
    requires c in NeighbourCoords(x, y, n)
    ensures InBounds(c, n) && Adjacent((x, y), c)
  {
    var cands := Candidates(x, y, n);
    CandidatesDistinct(x, y, n);
    KeepMembers(cands, n);
    var i :| 0 <= i < |cands| && cands[i].0 && InBounds(c, n) && cands[i].1 == c;
    assert Adjacent((x, y), cands[i].1);
  }

  /** Every on-board place at one of the six offsets is listed by getNeighbours. */
  lemma NeighbourComplete(x: int, y: int, n: int, c: Coord)
    requires InBounds(c, n) && Adjacent((x, y), c)
    ensures c in NeighbourCoords(x, y, n)
  {
    var cands := Candidates(x, y, n);
    CandidatesDistinct(x, y, n);
    KeepMembers(cands, n);
    var i :=
      if c.0 == x - 1 && c.1 == y - 1 then 0
      else if c.0 == x - 1 then 1
      else if c.1 == y - 1 then 2
      else if c.0 == x + 1 && c.1 == y + 1 then 3
      else if c.0 == x + 1 then 4
      else 5;
    assert cands[i].0 && cands[i].1 == c;
  }

  /** Adjacency on the board is symmetric. */
  lemma NeighbourSymmetric(a: Coord, b: Coord, n: int)
    requires InBounds(a, n) && InBounds(b, n)
    ensures b in NeighbourCoords(a.0, a.1, n) <==> a in NeighbourCoords(b.0, b.1, n)
  {
    NeighbourExact(a.0, a.1, n, b);
    NeighbourExact(b.0, b.1, n, a);
  }

  /** The top-left corner of a board with at least two rows has exactly three neighbours. */
  lemma CornerNeighbours(n: int)
    requires n >= 2
    ensures NeighbourCoords(0, 0, n) == [(1, 1), (1, 0), (0, 1)]
  {
    var c := Candidates(0, 0, n);
    assert Keep(c[5..], n) == [(0, 1)];
    assert Keep(c[4..], n) == [(1, 0), (0, 1)];
    assert Keep(c[3..], n) == [(1, 1), (1, 0), (0, 1)];
    assert Keep(c[2..], n) == Keep(c[3..], n);
    assert Keep(c[1..], n) == Keep(c[2..], n);
  }

  /** Every coordinate in cs lies on the n x n board. */
  predicate AllInBounds(cs: seq<Coord>, n: int) {
    forall i :: 0 <= i < |cs| ==> InBounds(cs[i], n)
  }

  /** g is an n x n grid. */
  predicate IsSquare(g: Grid, n: int) {
    |g| == n && forall y :: 0 <= y < n ==> |g[y]| == n
  }

  function At(g: Grid, c: Coord): char
    requires 0 <= c.1 < |g| && 0 <= c.0 < |g[c.1]|
  {
    g[c.1][c.0]
  }

  /** g with the character at c replaced by ch. */
  function Set(g: Grid, c: Coord, ch: char): (r: Grid)
    requires 0 <= c.1 < |g| && 0 <= c.0 < |g[c.1]|
    ensures |r| == |g| && forall y :: 0 <= y < |g| ==> |r[y]| == |g[y]|
    ensures forall d: Coord {:trigger At(r, d)} :: 0 <= d.1 < |g| && 0 <= d.0 < |g[d.1]| ==> At(r, d) == if d == c then ch else At(g, d)
  {
    g[c.1 := g[c.1][c.0 := ch]]
  }

  /** The n x n grid that shows ch at every place. */
  function Filled(n: nat, ch: char): (g: Grid)
    ensures IsSquare(g, n) && forall c {:trigger At(g, c)} :: InBounds(c, n) ==> At(g, c) == ch
  {
    seq(n, _ => seq(n, _ => ch))
  }

  /** Two n x n grids that agree at every place are equal. */
  lemma SquareExt(a: Grid, b: Grid, n: int)
    requires IsSquare(a, n) && IsSquare(b, n)
    requires forall c :: InBounds(c, n) ==> At(a, c) == At(b, c)
    ensures a == b
  {
    forall y | 0 <= y < n
      ensures a[y] == b[y]
    {
      forall x | 0 <= x < n
        ensures a[y][x] == b[y][x]
      {
        assert At(a, (x, y)) == At(b, (x, y));
      }
    }
  }

  /** The number of coordinates in cs whose character in g is ch. */
  function Count(g: Grid, n: int, cs: seq<Coord>, ch: char): (k: nat)
    requires IsSquare(g, n) && AllInBounds(cs, n)
    ensures k <= |cs|
    decreases |cs|
  {
    if cs == [] then 0
    else Count(g, n, cs[..|cs| - 1], ch) + (if At(g, cs[|cs| - 1]) == ch then 1 else 0)
  }

  /** Count is zero exactly when no listed coordinate holds ch. */
  lemma {:induction false} CountZero(g: Grid, n: int, cs: seq<Coord>, ch: char)
    requires IsSquare(g, n) && AllInBounds(cs, n)
    ensures Count(g, n, cs, ch) == 0 <==> forall i :: 0 <= i < |cs| ==> At(g, cs[i]) != ch
    decreases |cs|
  {
    if cs != [] {
      CountZero(g, n, cs[..|cs| - 1], ch);
      assert forall i :: 0 <= i < |cs| - 1 ==> cs[..|cs| - 1][i] == cs[i];
    }
  }

  /**
    The list position of column col of row row on a board of side n,
    row * n + col, counted out row by row so that the invariants that
    mention it stay free of multiplication.
   */
  function Index(row: nat, n: int, col: int): int {
    if row == 0 then col else Index(row - 1, n, col) + n
  }

  lemma {:induction false} IndexIsProduct(row: nat, n: int, col: int)
    ensures Index(row, n, col) == row * n + col
  {
    if row > 0 {
      IndexIsProduct(row - 1, n, col);
    }
  }

  /** Row-major position of (x, y): the order in which Agent.initCells creates cells. */
  lemma RowMajor(x: int, y: int, n: int)
    requires 0 <= x < n && 0 <= y < n
    ensures 0 <= y * n + x < n * n
    ensures (y * n + x) % n == x && (y * n + x) / n == y
  {
    assert y * n + x < (y + 1) * n <= n * n by {
      assert (y + 1) * n == y * n + n;
      assert y + 1 <= n;
      MulMono(y + 1, n, n);
    }
    DivModUnique(y * n + x, n, y, x);
  }

  /** The coordinates of a row-major position lie on the board. */
  lemma FromRowMajor(k: int, n: int)
    requires 0 < n && 0 <= k < n * n
    ensures 0 <= k % n < n && 0 <= k / n < n
    ensures (k / n) * n + k % n == k
  {
    if k / n >= n {
      MulMono(n, k / n, n);
    }
  }

  lemma MulMono(a: int, b: int, n: int)
    requires 0 <= a <= b && 0 <= n
    ensures a * n <= b * n
  {
    assert b * n - a * n == (b - a) * n;
  }

  lemma DivModUnique(k: int, n: int, q: int, r: int)
    requires 0 < n && 0 <= r < n && k == q * n + r
    ensures k / n == q && k % n == r
  {
    var q', r' := k / n, k % n;
    assert k == q' * n + r';
    assert (q - q') * n == r' - r;
    if q - q' >= 1 {
      MulMono(1, q - q', n);
    } else if q' - q >= 1 {
      MulMono(1, q' - q, n);
    }
  }
}
