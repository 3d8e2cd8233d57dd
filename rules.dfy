/**
  The single-point rules of the agent, stated over its view of the board
  (a Grid of '?' unknown, '*' flagged, or the revealed hint characters),
  and the facts that make them sound: a revealed hint equals the number
  of tornadoes among the cell's six neighbours.
 */
module Rules {
  import opened Text
  import opened Grid

  /** getTheNumberOfDangers: the neighbours of c flagged '*'. */
  function Dangers(g: Grid, n: int, c: Coord): nat
    requires IsSquare(g, n)
  {
    Count(g, n, NeighbourCoords(c.0, c.1, n), '*')
  }

  /** getTheNumberOfUnknown: the neighbours of c still '?'. */
  function Unknowns(g: Grid, n: int, c: Coord): nat
    requires IsSquare(g, n)
  {
    Count(g, n, NeighbourCoords(c.0, c.1, n), '?')
  }

  /** A cell whose view character is neither '?' nor '*': the rules read it as a hint. */
  predicate IsHintChar(ch: char) {
    ch != '?' && ch != '*'
  }

  /** The test isAFN applies to one neighbour p: its flagged neighbours already account for its hint. */
  predicate AFNAt(g: Grid, n: int, p: Coord)
    requires IsSquare(g, n) && InBounds(p, n)
  {
    IsHintChar(At(g, p)) && Dangers(g, n, p) == NumericValue(At(g, p) as int)
  }

  /**
    The test isAMN applies to one neighbour p. As in the source, the
    danger count is subtracted from the hint character's code before the
    numeric value is taken.
   */
  predicate AMNAt(g: Grid, n: int, p: Coord)
    requires IsSquare(g, n) && InBounds(p, n)
  {
    IsHintChar(At(g, p)) && Unknowns(g, n, p) == NumericValue(At(g, p) as int - Dangers(g, n, p))
  }

  /**
    isAFN(c): some neighbour of c passes the AFN test, the neighbours
    taken in getNeighbours' order (AFNAmongExists gives the plain
    existential form).
   */
  predicate AFN(g: Grid, n: int, c: Coord)
    requires IsSquare(g, n)
  {
    var nb := NeighbourCoords(c.0, c.1, n);
    AFNAmong(g, n, nb, |nb|)
  }

  /** isAMN(c): some neighbour of c passes the AMN test. */
  predicate AMN(g: Grid, n: int, c: Coord)
    requires IsSquare(g, n)
  {
    var nb := NeighbourCoords(c.0, c.1, n);
    AMNAmong(g, n, nb, |nb|)
  }

  /** Some of the first k places of ps passes the AFN test (the scan isAFN makes, one place at a time). */
  predicate AFNAmong(g: Grid, n: int, ps: seq<Coord>, k: nat)
    requires IsSquare(g, n) && AllInBounds(ps, n) && k <= |ps|
  {
    k > 0 && (AFNAmong(g, n, ps, k - 1) || AFNAt(g, n, ps[k - 1]))
  }

  /** Some of the first k places of ps passes the AMN test. */
  predicate AMNAmong(g: Grid, n: int, ps: seq<Coord>, k: nat)
    requires IsSquare(g, n) && AllInBounds(ps, n) && k <= |ps|
  {
    k > 0 && (AMNAmong(g, n, ps, k - 1) || AMNAt(g, n, ps[k - 1]))
  }

  /** The AFN scan over the first k places finds one exactly when one of them passes. */
  lemma {:induction false} AFNAmongExists(g: Grid, n: int, ps: seq<Coord>, k: nat)
    requires IsSquare(g, n) && AllInBounds(ps, n) && k <= |ps|
    ensures AFNAmong(g, n, ps, k) <==> exists i :: 0 <= i < k && AFNAt(g, n, ps[i])
    decreases k
  {
    if k > 0 {
      AFNAmongExists(g, n, ps, k - 1);
      if !AFNAt(g, n, ps[k - 1]) && exists i :: 0 <= i < k && AFNAt(g, n, ps[i]) {
        var i :| 0 <= i < k && AFNAt(g, n, ps[i]);
        assert i < k - 1;
      }
    }
  }

  /** The AMN scan over the first k places finds one exactly when one of them passes. */
  lemma {:induction false} AMNAmongExists(g: Grid, n: int, ps: seq<Coord>, k: nat)
    requires IsSquare(g, n) && AllInBounds(ps, n) && k <= |ps|
    ensures AMNAmong(g, n, ps, k) <==> exists i :: 0 <= i < k && AMNAt(g, n, ps[i])
    decreases k
  {
    if k > 0 {
      AMNAmongExists(g, n, ps, k - 1);
      if !AMNAt(g, n, ps[k - 1]) && exists i :: 0 <= i < k && AMNAt(g, n, ps[i]) {
        var i :| 0 <= i < k && AMNAt(g, n, ps[i]);
        assert i < k - 1;
      }
    }
  }

  /** What one call of SPS decides: prove cs[index], flag cs[index], or give up. */
  datatype Verdict = Reveal(index: nat) | Flag(index: nat) | NoVerdict

  /**
    The verdict of SPS scanning the unproved cells cs from position i on:
    the first cell where AFN or AMN holds is revealed when AFN holds for
    it and flagged otherwise.
   */
  function FirstVerdict(g: Grid, n: int, cs: seq<Coord>, i: nat): (v: Verdict)
    requires IsSquare(g, n)
    ensures !v.NoVerdict? ==> i <= v.index < |cs|
    decreases |cs| - i
  {
    if i >= |cs| then NoVerdict
    else if AFN(g, n, cs[i]) then Reveal(i)
    else if AMN(g, n, cs[i]) then Flag(i)
    else FirstVerdict(g, n, cs, i + 1)
  }

  /** The cell the verdict names passes the test of its kind: AFN for a reveal, AMN but not AFN for a flag. */
  lemma {:induction false} FirstVerdictPasses(g: Grid, n: int, cs: seq<Coord>, i: nat)
    requires IsSquare(g, n)
    ensures var v := FirstVerdict(g, n, cs, i);
      (v.Reveal? ==> AFN(g, n, cs[v.index])) &&
      (v.Flag? ==> !AFN(g, n, cs[v.index]) && AMN(g, n, cs[v.index]))
    decreases |cs| - i
  {
    if i < |cs| && !AFN(g, n, cs[i]) && !AMN(g, n, cs[i]) {
      FirstVerdictPasses(g, n, cs, i + 1);
    }
  }

  /** Every cell the scan passes over before the verdict, or all of them when there is none, passes neither test. */
  lemma {:induction false} FirstVerdictFirst(g: Grid, n: int, cs: seq<Coord>, i: nat, j: nat)
    requires IsSquare(g, n) && i <= j < |cs|
    requires FirstVerdict(g, n, cs, i).NoVerdict? || j < FirstVerdict(g, n, cs, i).index
    ensures !AFN(g, n, cs[j]) && !AMN(g, n, cs[j])
    decreases j - i
  {
    if i < j {
      FirstVerdictFirst(g, n, cs, i + 1, j);
    }
  }

  /**
    The world map: every cell is a tornado 't' or carries the digit that
    counts the tornadoes among its six neighbours.
   */
  ghost predicate WellFormedWorld(w: Grid, n: int) {
    IsSquare(w, n) &&
    forall c {:trigger At(w, c)} :: InBounds(c, n) ==>
      At(w, c) == 't' || (IsDigit(At(w, c)) && NumericValue(At(w, c) as int) == Count(w, n, NeighbourCoords(c.0, c.1, n), 't'))
  }

  /**
    The agent's view g agrees with the world w: every cell is unknown,
    flagged on a tornado, or shows the world's hint of a safe cell.
   */
  ghost predicate Consistent(g: Grid, w: Grid, n: int) {
    IsSquare(g, n) && IsSquare(w, n) &&
    forall c :: InBounds(c, n) ==>
      At(g, c) == '?' || (At(g, c) == '*' && At(w, c) == 't') || (At(g, c) == At(w, c) && IsHintChar(At(w, c)) && At(w, c) != 't')
  }

  /** The cells of cs that are unknown in g and hold a tornado in w. */
  function Hidden(g: Grid, w: Grid, n: int, cs: seq<Coord>): nat
    requires IsSquare(g, n) && IsSquare(w, n) && AllInBounds(cs, n)
    decreases |cs|
  {
    if cs == [] then 0
    else Hidden(g, w, n, cs[..|cs| - 1]) + (if At(g, cs[|cs| - 1]) == '?' && At(w, cs[|cs| - 1]) == 't' then 1 else 0)
  }

  /** On a consistent view, the tornadoes among cs are the flagged ones plus the hidden ones. */
  lemma {:induction false} TornadoSplit(g: Grid, w: Grid, n: int, cs: seq<Coord>)
    requires Consistent(g, w, n) && AllInBounds(cs, n)
    ensures Count(w, n, cs, 't') == Count(g, n, cs, '*') + Hidden(g, w, n, cs)
    ensures Hidden(g, w, n, cs) <= Count(g, n, cs, '?')
    decreases |cs|
  {
    if cs != [] {
      TornadoSplit(g, w, n, cs[..|cs| - 1]);
    }
  }

  /** No hidden tornado among cs: every unknown cell of cs is safe. */
  lemma {:induction false} NoneHidden(g: Grid, w: Grid, n: int, cs: seq<Coord>)
    requires IsSquare(g, n) && IsSquare(w, n) && AllInBounds(cs, n)
    requires Hidden(g, w, n, cs) == 0
    ensures forall i :: 0 <= i < |cs| && At(g, cs[i]) == '?' ==> At(w, cs[i]) != 't'
    decreases |cs|
  {
    if cs != [] {
      NoneHidden(g, w, n, cs[..|cs| - 1]);
      assert forall i :: 0 <= i < |cs| - 1 ==> cs[..|cs| - 1][i] == cs[i];
    }
  }

  /** As many hidden tornadoes as unknown cells among cs: every unknown cell of cs is a tornado. */
  lemma {:induction false} AllHidden(g: Grid, w: Grid, n: int, cs: seq<Coord>)
    requires IsSquare(g, n) && IsSquare(w, n) && AllInBounds(cs, n)
    requires Hidden(g, w, n, cs) == Count(g, n, cs, '?')
    ensures forall i :: 0 <= i < |cs| && At(g, cs[i]) == '?' ==> At(w, cs[i]) == 't'
    decreases |cs|
  {
    if cs != [] {
      HiddenAtMostUnknown(g, w, n, cs[..|cs| - 1]);
      AllHidden(g, w, n, cs[..|cs| - 1]);
      assert forall i :: 0 <= i < |cs| - 1 ==> cs[..|cs| - 1][i] == cs[i];
    }
  }

  lemma {:induction false} HiddenAtMostUnknown(g: Grid, w: Grid, n: int, cs: seq<Coord>)
    requires IsSquare(g, n) && IsSquare(w, n) && AllInBounds(cs, n)
    ensures Hidden(g, w, n, cs) <= Count(g, n, cs, '?')
    decreases |cs|
  {
    if cs != [] {
      HiddenAtMostUnknown(g, w, n, cs[..|cs| - 1]);
    }
  }

  /** A hint character that a consistent view shows is the world's digit for that cell. */
  lemma HintIsWorldDigit(g: Grid, w: Grid, n: int, p: Coord)
    requires WellFormedWorld(w, n) && Consistent(g, w, n) && InBounds(p, n) && IsHintChar(At(g, p))
    ensures At(g, p) == At(w, p) && IsDigit(At(w, p))
    ensures NumericValue(At(g, p) as int) == Count(w, n, NeighbourCoords(p.0, p.1, n), 't')
  {
  }

  /** If c is listed among p's neighbours, p is listed among c's. */
  lemma NeighbourIndex(p: Coord, c: Coord, n: int) returns (j: nat)
    requires InBounds(c, n) && p in NeighbourCoords(c.0, c.1, n)
    ensures j < |NeighbourCoords(p.0, p.1, n)| && NeighbourCoords(p.0, p.1, n)[j] == c
  {
    NeighbourSymmetric(p, c, n);
    var nb := NeighbourCoords(p.0, p.1, n);
    j :| 0 <= j < |nb| && nb[j] == c;
  }

  /**
    Soundness of AFN: on a view consistent with a well-formed world, an
    unknown cell for which isAFN holds is not a tornado.
   */
  lemma AFNSound(g: Grid, w: Grid, n: int, c: Coord)
    requires WellFormedWorld(w, n) && Consistent(g, w, n)
    requires InBounds(c, n) && At(g, c) == '?' && AFN(g, n, c)
    ensures At(w, c) != 't'
  {
    var nb := NeighbourCoords(c.0, c.1, n);
    AFNAmongExists(g, n, nb, |nb|);
    var i :| 0 <= i < |nb| && AFNAt(g, n, nb[i]);
    var p := nb[i];
    HintIsWorldDigit(g, w, n, p);
    var around := NeighbourCoords(p.0, p.1, n);
    TornadoSplit(g, w, n, around);
    NoneHidden(g, w, n, around);
    var j := NeighbourIndex(p, c, n);
  }

  /**
    Soundness of AMN: on a view consistent with a well-formed world, an
    unknown cell for which isAMN holds is a tornado.
   */
  lemma AMNSound(g: Grid, w: Grid, n: int, c: Coord)
    requires WellFormedWorld(w, n) && Consistent(g, w, n)
    requires InBounds(c, n) && At(g, c) == '?' && AMN(g, n, c)
    ensures At(w, c) == 't'
  {
    var nb := NeighbourCoords(c.0, c.1, n);
    AMNAmongExists(g, n, nb, |nb|);
    var i :| 0 <= i < |nb| && AMNAt(g, n, nb[i]);
    var p := nb[i];
    HintIsWorldDigit(g, w, n, p);
    var around := NeighbourCoords(p.0, p.1, n);
    TornadoSplit(g, w, n, around);
    var h := Count(w, n, around, 't');
    var d := Dangers(g, n, p);
    assert At(g, p) as int == '0' as int + h;
    assert Unknowns(g, n, p) == h - d;
    AllHidden(g, w, n, around);
    var j := NeighbourIndex(p, c, n);
  }

  /**
    The flood fill's premise: every neighbour of a cell the view shows as
    '0' is safe.
   */
  lemma ZeroNeighbourSafe(g: Grid, w: Grid, n: int, p: Coord, c: Coord)
    requires WellFormedWorld(w, n) && Consistent(g, w, n)
    requires InBounds(p, n) && At(g, p) == '0' && c in NeighbourCoords(p.0, p.1, n)
    ensures At(w, c) != 't'
  {
    var around := NeighbourCoords(p.0, p.1, n);
    HintIsWorldDigit(g, w, n, p);
    CountZero(w, n, around, 't');
  }

  /** Some neighbour of c shows '0' on the view: the premise on which uncoverNeighbours proves c. */
  predicate ZeroAdjacent(g: Grid, n: int, c: Coord)
    requires IsSquare(g, n)
  {
    var nb := NeighbourCoords(c.0, c.1, n);
    exists i :: 0 <= i < |nb| && At(g, nb[i]) == '0'
  }

  /** On a consistent view, a cell next to one that shows '0' is safe. */
  lemma ZeroAdjacentSafe(g: Grid, w: Grid, n: int, c: Coord)
    requires WellFormedWorld(w, n) && Consistent(g, w, n) && InBounds(c, n) && ZeroAdjacent(g, n, c)
    ensures At(w, c) != 't'
  {
    var nb := NeighbourCoords(c.0, c.1, n);
    var i :| 0 <= i < |nb| && At(g, nb[i]) == '0';
    NeighbourSymmetric(c, nb[i], n);
    ZeroNeighbourSafe(g, w, n, nb[i], c);
  }

  /** g2 grows g1: every place g1 shows as other than '?' shows the same in g2. */
  ghost predicate Extends(g1: Grid, g2: Grid, n: int) {
    IsSquare(g1, n) && IsSquare(g2, n) &&
    forall q {:trigger At(g2, q)} :: InBounds(q, n) && At(g1, q) != '?' ==> At(g2, q) == At(g1, q)
  }

  /** Writing over an unknown place grows the view. */
  lemma SetExtends(g: Grid, n: int, d: Coord, ch: char)
    requires IsSquare(g, n) && InBounds(d, n) && At(g, d) == '?'
    ensures Extends(g, Set(g, d, ch), n)
  {
  }

  lemma ExtendsTrans(g1: Grid, g2: Grid, g3: Grid, n: int)
    requires Extends(g1, g2, n) && Extends(g2, g3, n)
    ensures Extends(g1, g3, n)
  {
    forall q | InBounds(q, n) && At(g1, q) != '?'
      ensures At(g3, q) == At(g1, q)
    {
      assert At(g2, q) == At(g1, q);
    }
  }

  /** A '0' once shown stays shown, so ZeroAdjacent survives growth of the view. */
  lemma ZeroAdjacentExtends(g1: Grid, g2: Grid, n: int, c: Coord)
    requires Extends(g1, g2, n) && ZeroAdjacent(g1, n, c)
    ensures ZeroAdjacent(g2, n, c)
  {
    var nb := NeighbourCoords(c.0, c.1, n);
    var i :| 0 <= i < |nb| && At(g1, nb[i]) == '0';
    assert At(g2, nb[i]) == '0';
  }

  /**
    The candidate places whose guard holds and that are listed in us, in
    order: what the six findUnprovedCell blocks of uncoverNeighbours find
    around one cell when us are the unproved places.
   */
  function Among(cands: seq<(bool, Coord)>, us: seq<Coord>): seq<Coord>
    decreases |cands|
  {
    if cands == [] then []
    else
      var last := cands[|cands| - 1];
      Among(cands[..|cands| - 1], us) + (if last.0 && last.1 in us then [last.1] else [])
  }

  /** What Among finds is listed in us and is one of the candidates whose guard holds. */
  lemma {:induction false} AmongMembers(cands: seq<(bool, Coord)>, us: seq<Coord>, c: Coord) returns (i: nat)
    requires c in Among(cands, us)
    ensures c in us && i < |cands| && cands[i].0 && cands[i].1 == c
    decreases |cands|
  {
    var front := cands[..|cands| - 1];
    if c in Among(front, us) {
      i := AmongMembers(front, us, c);
    } else {
      i := |cands| - 1;
    }
  }

  /** Around a cell, what Among finds among the candidates of Candidates are neighbours of the cell. */
  lemma AmongNeighbours(x: int, y: int, n: int, us: seq<Coord>, c: Coord)
    requires AllInBounds(us, n) && c in Among(Candidates(x, y, n), us)
    ensures c in us && c in NeighbourCoords(x, y, n)
  {
    var cands := Candidates(x, y, n);
    var i := AmongMembers(cands, us, c);
    var j :| 0 <= j < |us| && us[j] == c;
    assert Adjacent((x, y), cands[i].1);
    NeighbourComplete(x, y, n, c);
  }

  /**
    The places one round of uncoverNeighbours collects: for each proved
    place of ps that the view shows as '0', in order, its candidate places
    listed among the unproved places us.
   */
  function Collected(g: Grid, n: int, ps: seq<Coord>, us: seq<Coord>): seq<Coord>
    requires IsSquare(g, n) && AllInBounds(ps, n)
    decreases |ps|
  {
    if ps == [] then []
    else
      var p := ps[|ps| - 1];
      Collected(g, n, ps[..|ps| - 1], us) + (if At(g, p) == '0' then Among(Candidates(p.0, p.1, n), us) else [])
  }

  /** Every collected place is unproved and has a neighbour that shows '0'. */
  lemma {:induction false} CollectedZeroAdjacent(g: Grid, n: int, ps: seq<Coord>, us: seq<Coord>, c: Coord)
    requires IsSquare(g, n) && AllInBounds(ps, n) && AllInBounds(us, n) && c in Collected(g, n, ps, us)
    ensures c in us && InBounds(c, n) && ZeroAdjacent(g, n, c)
    decreases |ps|
  {
    var front := ps[..|ps| - 1];
    var p := ps[|ps| - 1];
    if c in Collected(g, n, front, us) {
      CollectedZeroAdjacent(g, n, front, us, c);
    } else {
      AmongNeighbours(p.0, p.1, n, us, c);
      var j :| 0 <= j < |us| && us[j] == c;
      NeighbourSymmetric(p, c, n);
      var nb := NeighbourCoords(c.0, c.1, n);
      var k :| 0 <= k < |nb| && nb[k] == p;
    }
  }

  /** A view that shows nothing yet is consistent with every world. */
  lemma UnknownConsistent(w: Grid, n: nat)
    requires IsSquare(w, n)
    ensures Consistent(Filled(n, '?'), w, n)
  {
  }

  /** Revealing the world's hint of a safe cell keeps the view consistent. */
  lemma RevealConsistent(g: Grid, w: Grid, n: int, c: Coord)
    requires WellFormedWorld(w, n) && Consistent(g, w, n) && InBounds(c, n) && At(w, c) != 't'
    ensures Consistent(Set(g, c, At(w, c)), w, n)
  {
  }

  /** Flagging a tornado keeps the view consistent. */
  lemma FlagConsistent(g: Grid, w: Grid, n: int, c: Coord)
    requires Consistent(g, w, n) && InBounds(c, n) && At(w, c) == 't'
    ensures Consistent(Set(g, c, '*'), w, n)
  {
  }

  /**
    The verdict of one SPS scan over unknown cells is right: a revealed
    cell is safe, a flagged cell is a tornado.
   */
  lemma VerdictSound(g: Grid, w: Grid, n: int, cs: seq<Coord>)
    requires WellFormedWorld(w, n) && Consistent(g, w, n)
    requires AllInBounds(cs, n) && forall i :: 0 <= i < |cs| ==> At(g, cs[i]) == '?'
    ensures FirstVerdict(g, n, cs, 0).Reveal? ==> At(w, cs[FirstVerdict(g, n, cs, 0).index]) != 't'
    ensures FirstVerdict(g, n, cs, 0).Flag? ==> At(w, cs[FirstVerdict(g, n, cs, 0).index]) == 't'
  {
    var v := FirstVerdict(g, n, cs, 0);
    FirstVerdictPasses(g, n, cs, 0);
    if v.Reveal? {
      AFNSound(g, w, n, cs[v.index]);
    } else if v.Flag? {
      AMNSound(g, w, n, cs[v.index]);
    }
  }
}
