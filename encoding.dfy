/**
  The propositional encoding the agent builds for its SAT strategies:
  the permutations of a literal list (getPermutations), the negation of
  the first m literals of each permutation, the text of a clause (a
  disjunction of conjunctive terms) and of the knowledge base (a
  conjunction of clauses).
 */
module Encoding {
  import opened Text
  import opened Grid
  import opened Rules
  import opened Lists

  /** A computation that either yields a value or throws IndexOutOfBoundsException. */
  datatype Outcome<T> = Ok(value: T) | IndexOutOfBounds

  function Factorial(n: nat): (r: nat)
    ensures r >= 1
  {
    if n == 0 then 1 else n * Factorial(n - 1)
  }

  // ---------------------------------------------------------------------
  // getPermutations
  // ---------------------------------------------------------------------

  /** p.add(i, x) on a copy of s. */
  function InsertAt<T>(s: seq<T>, i: nat, x: T): (r: seq<T>)
    requires i <= |s|
    ensures |r| == |s| + 1 && r[i] == x
  {
    s[..i] + [x] + s[i..]
  }

  lemma InsertAtMultiset<T>(s: seq<T>, i: nat, x: T)
    requires i <= |s|
    ensures multiset(InsertAt(s, i, x)) == multiset(s) + multiset{x}
  {
    assert s == s[..i] + s[i..];
  }

  /** The copies of rp with x added at index 0, 1, ..., |rp|, in that order. */
  function Insertions<T>(x: T, rp: seq<T>): (r: seq<seq<T>>)
    ensures |r| == |rp| + 1
    ensures forall i :: 0 <= i < |r| ==> r[i] == InsertAt(rp, i, x)
  {
    seq(|rp| + 1, i requires 0 <= i <= |rp| => InsertAt(rp, i, x))
  }

  /** The inner loops of getPermutations: the insertions of x into each list of rps, in order. */
  function InsertEverywhere<T>(x: T, rps: seq<seq<T>>): seq<seq<T>>
    decreases |rps|
  {
    if rps == [] then [] else Insertions(x, rps[0]) + InsertEverywhere(x, rps[1..])
  }

  /**
    getPermutations: the empty list has the single empty permutation;
    otherwise the first element is inserted at every position of every
    permutation of the rest.
   */
  function Permutations<T>(s: seq<T>): seq<seq<T>>
    decreases |s|
  {
    if s == [] then [[]] else InsertEverywhere(s[0], Permutations(s[1..]))
  }

  lemma {:induction false} InsertEverywhereLength<T>(x: T, rps: seq<seq<T>>, m: nat)
    requires forall j :: 0 <= j < |rps| ==> |rps[j]| == m
    ensures |InsertEverywhere(x, rps)| == |rps| * (m + 1)
    decreases |rps|
  {
    if rps != [] {
      var k := |rps| - 1;
      assert forall j :: 0 <= j < |rps[1..]| ==> rps[1..][j] == rps[j + 1];
      InsertEverywhereLength(x, rps[1..], m);
      assert |InsertEverywhere(x, rps)| == (m + 1) + k * (m + 1);
      assert (k + 1) * (m + 1) == k * (m + 1) + (m + 1);
    }
  }

  /** Where a list produced by the insertion loops comes from. */
  lemma {:induction false} InsertEverywhereSource<T>(x: T, rps: seq<seq<T>>, p: seq<T>) returns (j: nat, i: nat)
    requires p in InsertEverywhere(x, rps)
    ensures j < |rps| && i <= |rps[j]| && p == InsertAt(rps[j], i, x)
    decreases |rps|
  {
    assert rps != [];
    var here := Insertions(x, rps[0]);
    var rest := InsertEverywhere(x, rps[1..]);
    assert InsertEverywhere(x, rps) == here + rest;
    if p in here {
      var k :| 0 <= k < |here| && here[k] == p;
      j, i := 0, k;
    } else {
      assert p in rest;
      var j', i' := InsertEverywhereSource(x, rps[1..], p);
      assert rps[1..][j'] == rps[j' + 1];
      j, i := j' + 1, i';
    }
  }

  /** Every insertion into every list is produced by the insertion loops. */
  lemma {:induction false} InsertEverywhereHas<T>(x: T, rps: seq<seq<T>>, j: nat, i: nat)
    requires j < |rps| && i <= |rps[j]|
    ensures InsertAt(rps[j], i, x) in InsertEverywhere(x, rps)
    decreases |rps|
  {
    if j == 0 {
      assert Insertions(x, rps[0])[i] == InsertAt(rps[j], i, x);
    } else {
      InsertEverywhereHas(x, rps[1..], j - 1, i);
    }
  }

  /** getPermutations on a list of n items returns n! lists. */
  lemma {:induction false} PermutationsCount<T>(s: seq<T>)
    ensures |Permutations(s)| == Factorial(|s|)
    decreases |s|
  {
    if s != [] {
      var k := |s| - 1;
      PermutationsCount(s[1..]);
      PermutationsSound(s[1..]);
      var rps := Permutations(s[1..]);
      assert forall j :: 0 <= j < |rps| ==> |rps[j]| == k by {
        forall j | 0 <= j < |rps|
          ensures |rps[j]| == k
        {
          assert rps[j] in rps;
        }
      }
      InsertEverywhereLength(s[0], rps, k);
      assert |Permutations(s)| == Factorial(k) * (k + 1);
      assert Factorial(|s|) == (k + 1) * Factorial(k);
    }
  }

  /** Every list getPermutations returns is a rearrangement of its input, so it has the input's length. */
  lemma {:induction false} PermutationsSound<T>(s: seq<T>)
    ensures forall p :: p in Permutations(s) ==> multiset(p) == multiset(s) && |p| == |s|
    decreases |s|
  {
    if s != [] {
      PermutationsSound(s[1..]);
      var rps := Permutations(s[1..]);
      assert Permutations(s) == InsertEverywhere(s[0], rps);
      assert s == [s[0]] + s[1..];
      forall p | p in Permutations(s)
        ensures multiset(p) == multiset(s) && |p| == |s|
      {
        var j, i := InsertEverywhereSource(s[0], rps, p);
        assert rps[j] in rps;
        InsertAtMultiset(rps[j], i, s[0]);
        assert |p| == |multiset(p)|;
      }
    } else {
      assert Permutations(s) == [[]];
    }
  }

  /** Every rearrangement of the input is among the lists getPermutations returns. */
  lemma {:induction false} PermutationsComplete<T>(s: seq<T>, p: seq<T>)
    requires multiset(p) == multiset(s)
    ensures p in Permutations(s)
    decreases |s|
  {
    if s == [] {
      assert |p| == |multiset(p)| == 0;
    } else {
      var x := s[0];
      assert s == [x] + s[1..];
      assert x in multiset(p);
      var i :| 0 <= i < |p| && p[i] == x;
      var rest := p[..i] + p[i + 1..];
      assert p == p[..i] + [x] + p[i + 1..];
      assert multiset(p) == multiset(p[..i]) + multiset{x} + multiset(p[i + 1..]);
      assert multiset(rest) == multiset(p[..i]) + multiset(p[i + 1..]);
      assert multiset(s) == multiset{x} + multiset(s[1..]);
      assert multiset(rest) == multiset(p) - multiset{x};
      assert multiset(s[1..]) == multiset(s) - multiset{x};
      PermutationsComplete(s[1..], rest);
      var rps := Permutations(s[1..]);
      var j :| 0 <= j < |rps| && rps[j] == rest;
      assert InsertAt(rest, i, x) == p;
      InsertEverywhereHas(x, rps, j, i);
      assert Permutations(s) == InsertEverywhere(x, rps);
    }
  }

  // ---------------------------------------------------------------------
  // Negating the first literals of a permutation
  // ---------------------------------------------------------------------

  /** The negation of a literal: "~" prefixed. */
  function Neg(l: string): (r: string)
    ensures StartsWith(r, '~') && r[1..] == l
  {
    "~" + l
  }

  /** A literal without the negation prefix, as every generated literal name is. */
  predicate Positive(l: string) {
    !StartsWith(l, '~')
  }

  predicate AllPositive(s: seq<string>) {
    forall i :: 0 <= i < |s| ==> Positive(s[i])
  }

  function NegateAll(s: seq<string>): (r: seq<string>)
    ensures |r| == |s| && forall i :: 0 <= i < |s| ==> r[i] == Neg(s[i])
  {
    seq(|s|, i requires 0 <= i < |s| => Neg(s[i]))
  }

  function Reverse<T>(s: seq<T>): (r: seq<T>)
    ensures |r| == |s| && forall i :: 0 <= i < |s| ==> r[i] == s[|s| - 1 - i]
  {
    seq(|s|, i requires 0 <= i < |s| => s[|s| - 1 - i])
  }

  /**
    One pass of the negation loop at index j: the literal at j is removed
    (its first occurrence) and re-added, negated, at the front.
   */
  function NegateStep(p: seq<string>, j: nat): seq<string>
    requires j < |p|
  {
    [Neg(p[j])] + RemoveFirst(p, p[j])
  }

  /**
    The permutation after the first m passes, in closed form: the negated
    first m literals in reverse order, then the untouched rest. The count
    is capped at the list's length (a larger count makes the loop throw).
   */
  function Negated(p: seq<string>, m: int): (r: seq<string>)
    ensures |r| == |p|
  {
    if m <= 0 then p
    else if m >= |p| then Reverse(NegateAll(p))
    else Reverse(NegateAll(p[..m])) + p[m..]
  }

  /** With no literal to negate the permutation is untouched. */
  lemma NegatedNone(p: seq<string>, m: int)
    requires m <= 0
    ensures Negated(p, 0) == p && Negated(p, m) == p
  {
  }

  /**
    The pass at index j turns the closed form after j passes into the
    closed form after j + 1 passes.
   */
  lemma NegateStepClosed(p: seq<string>, j: nat)
    requires AllPositive(p) && j < |p|
    ensures |Negated(p, j)| == |p| && Negated(p, j)[j] == p[j]
    ensures NegateStep(Negated(p, j), j) == Negated(p, j + 1)
  {
    var q := Negated(p, j);
    var front := Reverse(NegateAll(p[..j]));
    assert q == front + p[j..] by {
      if j == 0 {
        assert front == [];
      }
    }
    RemoveAfterNegated(front, p[j..]);
    assert p[j..] == [p[j]] + p[j + 1..];
    var r := NegateStep(q, j);
    assert r == [Neg(p[j])] + front + p[j + 1..];
    var front' := Reverse(NegateAll(p[..j + 1]));
    assert front' == [Neg(p[j])] + front;
    if j + 1 == |p| {
      assert p[..j + 1] == p;
    }
  }

  lemma {:induction false} RemoveAfterNegated(front: seq<string>, rest: seq<string>)
    requires forall i :: 0 <= i < |front| ==> StartsWith(front[i], '~')
    requires |rest| > 0 && Positive(rest[0])
    ensures RemoveFirst(front + rest, rest[0]) == front + rest[1..]
    decreases |front|
  {
    if front == [] {
      assert front + rest == rest;
    } else {
      RemoveAfterNegated(front[1..], rest);
      assert (front + rest)[1..] == front[1..] + rest;
      assert [front[0]] + (front[1..] + rest[1..]) == front + rest[1..];
    }
  }

  /** The number of negated literals in a term. */
  function NegativeCount(t: seq<string>): (k: nat)
    ensures k <= |t|
    decreases |t|
  {
    if t == [] then 0 else NegativeCount(t[..|t| - 1]) + (if StartsWith(t[|t| - 1], '~') then 1 else 0)
  }

  /** A literal with its negation prefix, if any, removed. */
  function Atom(l: string): string {
    if StartsWith(l, '~') then l[1..] else l
  }

  function Atoms(t: seq<string>): (r: seq<string>)
    ensures |r| == |t| && forall i :: 0 <= i < |t| ==> r[i] == Atom(t[i])
  {
    seq(|t|, i requires 0 <= i < |t| => Atom(t[i]))
  }

  lemma {:induction false} NegativeCountAppend(a: seq<string>, b: seq<string>)
    ensures NegativeCount(a + b) == NegativeCount(a) + NegativeCount(b)
    decreases |b|
  {
    if b == [] {
      assert a + b == a;
    } else {
      NegativeCountAppend(a, b[..|b| - 1]);
      assert (a + b)[..|a + b| - 1] == a + b[..|b| - 1];
    }
  }

  lemma {:induction false} NegativeCountAll(t: seq<string>, neg: bool)
    requires forall i :: 0 <= i < |t| ==> StartsWith(t[i], '~') == neg
    ensures NegativeCount(t) == if neg then |t| else 0
    decreases |t|
  {
    if t != [] {
      NegativeCountAll(t[..|t| - 1], neg);
    }
  }

  /**
    After the first m passes over a permutation of positive literals, the
    term holds exactly max(0, min(m, |p|)) negated literals, and its atoms
    are the permutation's literals, each exactly as often as before.
   */
  lemma NegatedShape(p: seq<string>, m: int)
    requires AllPositive(p)
    ensures NegativeCount(Negated(p, m)) == if m <= 0 then 0 else if m >= |p| then |p| else m
    ensures multiset(Atoms(Negated(p, m))) == multiset(p)
  {
    var k := if m <= 0 then 0 else if m >= |p| then |p| else m;
    FrontShape(p, k);
    if m <= 0 {
      assert p[..0] == [] && p[0..] == p;
      assert Reverse(NegateAll(p[..0])) + p[0..] == p;
    } else if m >= |p| {
      assert p[..k] == p && p[k..] == [];
      assert Reverse(NegateAll(p[..k])) + p[k..] == Negated(p, m);
    }
  }

  /** The closed form with k literals negated: k negations, and the same atoms as p. */
  lemma FrontShape(p: seq<string>, k: nat)
    requires AllPositive(p) && k <= |p|
    ensures NegativeCount(Reverse(NegateAll(p[..k])) + p[k..]) == k
    ensures multiset(Atoms(Reverse(NegateAll(p[..k])) + p[k..])) == multiset(p)
  {
    var front := Reverse(NegateAll(p[..k]));
    var r := front + p[k..];
    NegativeCountAll(front, true);
    NegativeCountAll(p[k..], false);
    NegativeCountAppend(front, p[k..]);
    assert Atoms(front) == Reverse(p[..k]);
    ReverseMultiset(p[..k]);
    assert Atoms(r) == Atoms(front) + Atoms(p[k..]);
    assert Atoms(p[k..]) == p[k..];
    assert p == p[..k] + p[k..];
  }

  lemma {:induction false} ReverseMultiset<T>(s: seq<T>)
    ensures multiset(Reverse(s)) == multiset(s)
    decreases |s|
  {
    if s != [] {
      ReverseMultiset(s[1..]);
      assert Reverse(s) == Reverse(s[1..]) + [s[0]];
      assert s == [s[0]] + s[1..];
    }
  }

  // ---------------------------------------------------------------------
  // Clause and knowledge-base text
  // ---------------------------------------------------------------------

  /** The parts separated by sep (what a StringBuilder loop that appends part and sep, then deletes the last character, produces). */
  function Join(parts: seq<string>, sep: char): string
    decreases |parts|
  {
    if |parts| == 0 then ""
    else if |parts| == 1 then parts[0]
    else Join(parts[..|parts| - 1], sep) + [sep] + parts[|parts| - 1]
  }

  /** Each part followed by sep: what the StringBuilder holds before its last character is deleted. */
  function Terminated(parts: seq<string>, sep: char): (r: string)
    ensures |r| >= |parts|
    decreases |parts|
  {
    if parts == [] then "" else Terminated(parts[..|parts| - 1], sep) + parts[|parts| - 1] + [sep]
  }

  lemma TerminatedSnoc(parts: seq<string>, x: string, sep: char)
    ensures Terminated(parts + [x], sep) == Terminated(parts, sep) + x + [sep]
  {
    assert (parts + [x])[..|parts|] == parts;
  }

  /** Appending at most one more part. */
  lemma TerminatedAppend(parts: seq<string>, more: seq<string>, sep: char)
    requires |more| <= 1
    ensures Terminated(parts + more, sep) == if more == [] then Terminated(parts, sep) else Terminated(parts, sep) + more[0] + [sep]
  {
    if more == [] {
      assert parts + more == parts;
    } else {
      assert more == [more[0]];
      TerminatedSnoc(parts, more[0], sep);
    }
  }

  /** One more append of a part and the separator. */
  lemma TerminatedNext(parts: seq<string>, j: nat, sep: char)
    requires j < |parts|
    ensures Terminated(parts[..j + 1], sep) == Terminated(parts[..j], sep) + parts[j] + [sep]
  {
    assert parts[..j + 1][..j] == parts[..j];
  }

  /** deleteCharAt(length() - 1) undoes the last append of one character. */
  lemma DropLast<T>(s: seq<T>, c: T)
    ensures (s + [c])[..|s + [c]| - 1] == s
  {
  }

  /** Closing one term: deleting the last character of b and appending ")" gives the term's text. */
  lemma TermClosed(before: string, t: seq<string>, b: string)
    requires b == before + "(" + Terminated(t, '&')
    ensures b[..|b| - 1] + ")" == before + TermText(t)
  {
    if t == [] {
      assert b == before + ['('];
      DropLast(before, '(');
    } else {
      JoinTerminated(t, '&');
      var front := before + "(" + Join(t, '&');
      assert b == front + ['&'];
      DropLast(front, '&');
    }
  }

  /** Deleting the final separator of the terminated parts leaves the parts joined by it. */
  lemma {:induction false} JoinTerminated(parts: seq<string>, sep: char)
    requires parts != []
    ensures Terminated(parts, sep) == Join(parts, sep) + [sep]
    decreases |parts|
  {
    if |parts| > 1 {
      JoinTerminated(parts[..|parts| - 1], sep);
    }
  }

  /**
    One term of a clause: "(" then the literals joined by '&', then ")".
    An empty term deletes its own "(" and leaves only ")".
   */
  function TermText(t: seq<string>): (r: string)
    ensures |r| > 0 && r[|r| - 1] == ')'
    ensures t != [] ==> r[0] == '('
  {
    if t == [] then ")" else "(" + Join(t, '&') + ")"
  }

  /** The text of each term. */
  function TermTexts(qs: seq<seq<string>>): (r: seq<string>)
    ensures |r| == |qs| && forall i :: 0 <= i < |qs| ==> r[i] == TermText(qs[i])
  {
    seq(|qs|, i requires 0 <= i < |qs| => TermText(qs[i]))
  }

  /** Every permutation with its first m literals negated. */
  function NegatedEach(ps: seq<seq<string>>, m: int): (r: seq<seq<string>>)
    ensures |r| == |ps| && forall i :: 0 <= i < |ps| ==> r[i] == Negated(ps[i], m)
  {
    seq(|ps|, i requires 0 <= i < |ps| => Negated(ps[i], m))
  }

  /**
    The second half of buildClause, from the literal list and the
    negation count: getPermutations, the negation loop and the formula
    loop.
   */
  method ClauseFor(literals: seq<string>, m: int) returns (r: Outcome<string>)
    requires AllPositive(literals)
    ensures r == ClauseText(literals, m)
  {
    var permutedClauses := Permutations(literals);
    PermutationsShapes(literals);
    var negated := NegateLeading(permutedClauses, m);
    ClauseTextCases(literals, m);
    if negated.IndexOutOfBounds? {
      return IndexOutOfBounds;
    }
    var text := ClauseBuilder(negated.value);
    return Ok(text);
  }

  /**
    The negation loop of buildClause: in each permutation, in turn, the
    first m literals are negated one pass at a time. A permutation
    shorter than m makes get(j) throw, and since all have the same
    length the first one already does.
   */
  method NegateLeading(ps: seq<seq<string>>, m: int) returns (r: Outcome<seq<seq<string>>>)
    requires |ps| > 0 && forall i :: 0 <= i < |ps| ==> AllPositive(ps[i]) && |ps[i]| == |ps[0]|
    ensures r.IndexOutOfBounds? <==> m > |ps[0]|
    ensures r.Ok? ==> r.value == NegatedEach(ps, m)
  {
    var permutedClauses := ps;
    for i := 0 to |permutedClauses|
      invariant |permutedClauses| == |ps|
      invariant forall k :: 0 <= k < i ==> permutedClauses[k] == Negated(ps[k], m)
      invariant forall k :: i <= k < |ps| ==> permutedClauses[k] == ps[k]
      invariant i > 0 ==> m <= |ps[0]|
    {
      var negated := NegateFirst(permutedClauses[i], m);
      if negated.IndexOutOfBounds? {
        return IndexOutOfBounds;
      }
      permutedClauses := permutedClauses[i := negated.value];
    }
    forall k | 0 <= k < |ps|
      ensures permutedClauses[k] == NegatedEach(ps, m)[k]
    {
    }
    assert permutedClauses == NegatedEach(ps, m);
    return Ok(permutedClauses);
  }

  /**
    The inner negation loop for one permutation p: each pass j < m takes
    the literal at j out and puts it back negated at the front.
   */
  method NegateFirst(p: seq<string>, m: int) returns (r: Outcome<seq<string>>)
    requires AllPositive(p)
    ensures r == if m > |p| then IndexOutOfBounds else Ok(Negated(p, m))
  {
    var permutedClause := p;
    var j := 0;
    while j < m
      invariant 0 <= j <= (if m <= 0 then 0 else m) && j <= |p|
      invariant permutedClause == Negated(p, j)
    {
      if j >= |permutedClause| {
        return IndexOutOfBounds;
      }
      NegateStepClosed(p, j);
      permutedClause := NegateStep(permutedClause, j);
      j := j + 1;
    }
    if m <= 0 {
      NegatedNone(p, m);
    }
    return Ok(permutedClause);
  }

  /**
    The formula loop of buildClause: each term is "(" and its literals
    each followed by '&', the last character deleted, then ")" and '|';
    at the end the last '|' is deleted.
   */
  method ClauseBuilder(permutedClauses: seq<seq<string>>) returns (text: string)
    requires |permutedClauses| > 0
    ensures text == Join(TermTexts(permutedClauses), '|')
  {
    var builder := "";
    ghost var terms := TermTexts(permutedClauses);
    for i := 0 to |permutedClauses|
      invariant builder == Terminated(terms[..i], '|')
    {
      builder := AppendTerm(builder, permutedClauses[i]);
      TerminatedNext(terms, i, '|');
    }
    assert terms[..|permutedClauses|] == terms;
    JoinTerminated(terms, '|');
    text := builder[..|builder| - 1];
  }

  /**
    One pass of the formula loop: "(", each literal followed by '&', the
    last character deleted, then ")" and '|'.
   */
  method AppendTerm(builder: string, permutedClause: seq<string>) returns (b: string)
    ensures b == builder + TermText(permutedClause) + "|"
  {
    b := builder + "(";
    for j := 0 to |permutedClause|
      invariant b == builder + "(" + Terminated(permutedClause[..j], '&')
    {
      TerminatedNext(permutedClause, j, '&');
      b := b + permutedClause[j] + "&";
    }
    assert permutedClause[..|permutedClause|] == permutedClause;
    TermClosed(builder, permutedClause, b);
    b := b[..|b| - 1];
    b := b + ")" + "|";
  }

  /**
    The permutations of positive literals are a non-empty list of lists
    of positive literals, all as long as the input.
   */
  lemma PermutationsShapes(lits: seq<string>)
    requires AllPositive(lits)
    ensures |Permutations(lits)| > 0
    ensures forall i :: 0 <= i < |Permutations(lits)| ==>
      AllPositive(Permutations(lits)[i]) && |Permutations(lits)[i]| == |lits|
  {
    PermutationsCount(lits);
    PermutationsSound(lits);
    forall i | 0 <= i < |Permutations(lits)|
      ensures AllPositive(Permutations(lits)[i]) && |Permutations(lits)[i]| == |lits|
    {
      assert Permutations(lits)[i] in Permutations(lits);
      PositivePermutation(lits, Permutations(lits)[i]);
    }
  }

  /** The terms of the clause over the literals lits, each permutation's first m literals negated. */
  function Terms(lits: seq<string>, m: int): (r: seq<string>)
    ensures |r| == |Permutations(lits)|
  {
    var ps := Permutations(lits);
    seq(|ps|, i requires 0 <= i < |ps| => TermText(Negated(ps[i], m)))
  }

  /** Deleting the last character, if any, of the terminated parts leaves them joined. */
  lemma UnterminatedJoin(parts: seq<string>, sep: char)
    ensures var t := Terminated(parts, sep); (if |t| > 0 then t[..|t| - 1] else t) == Join(parts, sep)
  {
    if parts != [] {
      JoinTerminated(parts, sep);
    }
  }

  /** The clause text in the two cases of the negation loop. */
  lemma ClauseTextCases(lits: seq<string>, m: int)
    ensures m > |lits| ==> ClauseText(lits, m) == IndexOutOfBounds
    ensures m <= |lits| ==> ClauseText(lits, m) == Ok(Join(TermTexts(NegatedEach(Permutations(lits), m)), '|'))
  {
    assert Terms(lits, m) == TermTexts(NegatedEach(Permutations(lits), m));
  }

  /**
    The text of buildClause over the literal list lits with negation count
    m: the terms joined by '|', or the exception the negation loop throws
    when m exceeds the number of literals.
   */
  function ClauseText(lits: seq<string>, m: int): Outcome<string> {
    if m > |lits| then IndexOutOfBounds else Ok(Join(Terms(lits, m), '|'))
  }

  /**
    The shape buildClause promises over k positive literals with negation
    count m <= k: k! terms, each the text of some rearrangement of the
    literals with exactly max(0, m) of them negated.
   */
  lemma ClauseShape(lits: seq<string>, m: int)
    requires AllPositive(lits) && m <= |lits|
    ensures ClauseText(lits, m).Ok?
    ensures |Terms(lits, m)| == Factorial(|lits|)
    ensures forall i :: 0 <= i < |Terms(lits, m)| ==>
      exists t :: Terms(lits, m)[i] == TermText(t) && |t| == |lits| &&
        multiset(Atoms(t)) == multiset(lits) && NegativeCount(t) == (if m < 0 then 0 else m)
  {
    PermutationsCount(lits);
    forall i | 0 <= i < |Terms(lits, m)|
      ensures exists t :: Terms(lits, m)[i] == TermText(t) && |t| == |lits| &&
        multiset(Atoms(t)) == multiset(lits) && NegativeCount(t) == (if m < 0 then 0 else m)
    {
      var t := TermShape(lits, m, i);
    }
  }

  /** The i-th term of the clause and the literal list it renders. */
  lemma TermShape(lits: seq<string>, m: int, i: nat) returns (t: seq<string>)
    requires AllPositive(lits) && m <= |lits| && i < |Terms(lits, m)|
    ensures Terms(lits, m)[i] == TermText(t) && |t| == |lits|
    ensures multiset(Atoms(t)) == multiset(lits) && NegativeCount(t) == (if m < 0 then 0 else m)
  {
    var ps := Permutations(lits);
    var p := ps[i];
    assert p in ps;
    PermutationsSound(lits);
    PositivePermutation(lits, p);
    NegatedShape(p, m);
    t := Negated(p, m);
  }

  lemma PositivePermutation(lits: seq<string>, p: seq<string>)
    requires AllPositive(lits) && multiset(p) == multiset(lits)
    ensures AllPositive(p)
  {
    forall i | 0 <= i < |p|
      ensures Positive(p[i])
    {
      assert p[i] in multiset(lits);
      var j :| 0 <= j < |lits| && lits[j] == p[i];
    }
  }

  /** The name of the propositional variable for the cell at c: "T" + x + y. */
  function LiteralName(c: Coord): (r: string)
    ensures |r| > 1 && r[0] == 'T' && Positive(r)
  {
    DecimalRoundTrip(c.0);
    "T" + Decimal(c.0) + Decimal(c.1)
  }

  /** Once a coordinate reaches 10 two cells can share a variable name. */
  lemma LiteralNameAmbiguous()
    ensures LiteralName((1, 11)) == LiteralName((11, 1)) == "T111"
  {
    assert NatDigits(11) == NatDigits(1) + [DigitChar(1)];
  }

  /** On boards of at most ten rows every cell has its own variable name. */
  lemma LiteralNameInjective(a: Coord, b: Coord)
    requires InBounds(a, 10) && InBounds(b, 10) && LiteralName(a) == LiteralName(b)
    ensures a == b
  {
    assert LiteralName(a)[1] == LiteralName(b)[1];
    assert LiteralName(a)[2] == LiteralName(b)[2];
  }

  /** The cells of cs that g shows as '?', in order. */
  function UnknownCoords(g: Grid, n: int, cs: seq<Coord>): (r: seq<Coord>)
    requires IsSquare(g, n) && AllInBounds(cs, n)
    ensures AllInBounds(r, n) && |r| == Count(g, n, cs, '?')
    ensures forall i :: 0 <= i < |r| ==> At(g, r[i]) == '?'
    decreases |cs|
  {
    if cs == [] then []
    else UnknownCoords(g, n, cs[..|cs| - 1]) + (if At(g, cs[|cs| - 1]) == '?' then [cs[|cs| - 1]] else [])
  }

  function LiteralNames(cs: seq<Coord>): (r: seq<string>)
    ensures |r| == |cs| && AllPositive(r)
    ensures forall i :: 0 <= i < |cs| ==> r[i] == LiteralName(cs[i])
  {
    seq(|cs|, i requires 0 <= i < |cs| => LiteralName(cs[i]))
  }

  /** The unknown places among the first i + 1 of cs: those among the first i, then cs[i] if g shows it as '?'. */
  lemma UnknownCoordsNext(g: Grid, n: int, cs: seq<Coord>, i: nat)
    requires IsSquare(g, n) && AllInBounds(cs, n) && i < |cs|
    ensures AllInBounds(cs[..i], n) && AllInBounds(cs[..i + 1], n)
    ensures UnknownCoords(g, n, cs[..i + 1]) ==
      UnknownCoords(g, n, cs[..i]) + (if At(g, cs[i]) == '?' then [cs[i]] else [])
  {
    assert cs[..i + 1][..i] == cs[..i];
  }

  lemma LiteralNamesNext(cs: seq<Coord>, i: nat)
    requires i < |cs|
    ensures LiteralNames(cs[..i + 1]) == LiteralNames(cs[..i]) + [LiteralName(cs[i])]
  {
  }

  /** buildClause's negation count: unknowns minus the hint's numeric value minus the flagged neighbours. */
  function NegationCount(g: Grid, n: int, c: Coord): int
    requires IsSquare(g, n) && InBounds(c, n)
  {
    Unknowns(g, n, c) - NumericValue(At(g, c) as int) - Dangers(g, n, c)
  }

  /** buildClause for the cell at c of the view g. */
  function CellClause(g: Grid, n: int, c: Coord): Outcome<string>
    requires IsSquare(g, n) && InBounds(c, n)
  {
    ClauseText(LiteralNames(UnknownCoords(g, n, NeighbourCoords(c.0, c.1, n))), NegationCount(g, n, c))
  }

  /** The clause text of the cell's literals and negation count is the cell's clause. */
  lemma CellClauseIs(g: Grid, n: int, c: Coord, lits: seq<string>, m: int)
    requires IsSquare(g, n) && InBounds(c, n)
    requires lits == LiteralNames(UnknownCoords(g, n, NeighbourCoords(c.0, c.1, n))) && m == NegationCount(g, n, c)
    ensures CellClause(g, n, c) == ClauseText(lits, m)
  {
  }

  /**
    The parenthesised clauses buildKB collects over the uncovered cells cs:
    one for each cell with an unknown neighbour, in order; an exception
    from any clause aborts the whole.
   */
  function KbParts(g: Grid, n: int, cs: seq<Coord>): Outcome<seq<string>>
    requires IsSquare(g, n) && AllInBounds(cs, n)
    decreases |cs|
  {
    if cs == [] then Ok([])
    else
      match KbParts(g, n, cs[..|cs| - 1])
      case IndexOutOfBounds => IndexOutOfBounds
      case Ok(parts) =>
        match ClausePart(g, n, cs[|cs| - 1])
        case IndexOutOfBounds => IndexOutOfBounds
        case Ok(part) => Ok(parts + part)
  }

  /**
    What one uncovered cell contributes to buildKB: nothing when it has no
    unknown neighbour, otherwise its clause in parentheses, or the
    exception its clause throws.
   */
  function ClausePart(g: Grid, n: int, c: Coord): (r: Outcome<seq<string>>)
    requires IsSquare(g, n) && InBounds(c, n)
    ensures r.IndexOutOfBounds? <==> Unknowns(g, n, c) > 0 && NegationCount(g, n, c) > Unknowns(g, n, c)
    ensures r.Ok? ==> (r.value == [] <==> Unknowns(g, n, c) == 0)
    ensures r.Ok? ==> |r.value| <= 1 && forall i :: 0 <= i < |r.value| ==> |r.value[i]| > 0
  {
    if Unknowns(g, n, c) == 0 then Ok([])
    else
      CellClauseShape(g, n, c);
      match CellClause(g, n, c)
      case IndexOutOfBounds => IndexOutOfBounds
      case Ok(clause) => Ok(["(" + clause + ")"])
  }

  /** buildKB: the collected clauses joined by '&'. */
  function Kb(g: Grid, n: int, cs: seq<Coord>): Outcome<string>
    requires IsSquare(g, n) && AllInBounds(cs, n)
  {
    match KbParts(g, n, cs)
    case IndexOutOfBounds => IndexOutOfBounds
    case Ok(parts) => Ok(Join(parts, '&'))
  }

  lemma {:induction false} JoinEmpty(parts: seq<string>, sep: char)
    requires forall i :: 0 <= i < |parts| ==> |parts[i]| > 0
    ensures Join(parts, sep) == "" <==> parts == []
  {
  }

  /** The clause of a cell with unknown neighbours is a non-empty text, or the exception exactly when the count exceeds them. */
  lemma CellClauseShape(g: Grid, n: int, c: Coord)
    requires IsSquare(g, n) && InBounds(c, n) && Unknowns(g, n, c) > 0
    ensures CellClause(g, n, c).IndexOutOfBounds? <==> NegationCount(g, n, c) > Unknowns(g, n, c)
    ensures CellClause(g, n, c).Ok? ==> |CellClause(g, n, c).value| > 0 && CellClause(g, n, c).value[0] == '('
  {
    var lits := LiteralNames(UnknownCoords(g, n, NeighbourCoords(c.0, c.1, n)));
    var m := NegationCount(g, n, c);
    if m <= |lits| {
      PermutationsCount(lits);
      var ts := Terms(lits, m);
      var ps := Permutations(lits);
      assert ps[0] in ps;
      JoinHead(ts, '|');
    }
  }

  lemma {:induction false} JoinHead(parts: seq<string>, sep: char)
    requires |parts| > 0 && |parts[0]| > 0
    ensures |Join(parts, sep)| > 0 && Join(parts, sep)[0] == parts[0][0]
    decreases |parts|
  {
    if |parts| > 1 {
      JoinHead(parts[..|parts| - 1], sep);
    }
  }

  /** Once the parts of a prefix throw, so do the parts of the whole list. */
  lemma {:induction false} KbPartsAbort(g: Grid, n: int, cs: seq<Coord>, i: nat)
    requires IsSquare(g, n) && AllInBounds(cs, n) && i <= |cs| && KbParts(g, n, cs[..i]).IndexOutOfBounds?
    ensures KbParts(g, n, cs).IndexOutOfBounds?
    decreases |cs| - i
  {
    if i == |cs| {
      assert cs[..i] == cs;
    } else {
      assert cs[..i + 1][..i] == cs[..i];
      KbPartsAbort(g, n, cs, i + 1);
    }
  }

  /** The parts of the first i + 1 cells: those of the first i, then the part of cell i. */
  lemma KbPartsNext(g: Grid, n: int, cs: seq<Coord>, i: nat)
    requires IsSquare(g, n) && AllInBounds(cs, n) && i < |cs|
    ensures AllInBounds(cs[..i], n) && AllInBounds(cs[..i + 1], n)
    ensures KbParts(g, n, cs[..i + 1]) ==
      match KbParts(g, n, cs[..i])
      case IndexOutOfBounds => IndexOutOfBounds
      case Ok(parts) =>
        match ClausePart(g, n, cs[i])
        case IndexOutOfBounds => IndexOutOfBounds
        case Ok(part) => Ok(parts + part)
  {
    assert cs[..i + 1][..i] == cs[..i];
  }

  /**
    buildKB returns "" exactly when no uncovered cell has an unknown
    neighbour (a clause that throws makes the whole throw, so it never
    yields "").
   */
  lemma {:induction false} KbEmpty(g: Grid, n: int, cs: seq<Coord>)
    requires IsSquare(g, n) && AllInBounds(cs, n)
    ensures Kb(g, n, cs) == Ok("") <==> NoUnknownNeighbours(g, n, cs)
  {
    KbPartsException(g, n, cs);
    if KbParts(g, n, cs).Ok? {
      KbPartsNonEmpty(g, n, cs);
      KbPartsNone(g, n, cs);
      JoinEmpty(KbParts(g, n, cs).value, '&');
    } else {
      var i :| 0 <= i < |cs| && Unknowns(g, n, cs[i]) > 0 && NegationCount(g, n, cs[i]) > Unknowns(g, n, cs[i]);
    }
  }

  /**
    The collected parts throw exactly when some cell of cs with an unknown
    neighbour has a negation count above its unknowns.
   */
  lemma {:induction false} KbPartsException(g: Grid, n: int, cs: seq<Coord>)
    requires IsSquare(g, n) && AllInBounds(cs, n)
    ensures KbParts(g, n, cs).IndexOutOfBounds? <==> SomeClauseThrows(g, n, cs)
    decreases |cs|
  {
    if cs != [] {
      KbPartsException(g, n, cs[..|cs| - 1]);
      SomeClauseThrowsInit(g, n, cs);
    }
  }

  /** Some cell of cs has an unknown neighbour and a negation count above its unknowns. */
  predicate SomeClauseThrows(g: Grid, n: int, cs: seq<Coord>)
    requires IsSquare(g, n) && AllInBounds(cs, n)
  {
    exists i :: 0 <= i < |cs| && Unknowns(g, n, cs[i]) > 0 && NegationCount(g, n, cs[i]) > Unknowns(g, n, cs[i])
  }

  lemma SomeClauseThrowsInit(g: Grid, n: int, cs: seq<Coord>)
    requires IsSquare(g, n) && AllInBounds(cs, n) && cs != []
    ensures SomeClauseThrows(g, n, cs) <==>
      SomeClauseThrows(g, n, cs[..|cs| - 1]) ||
      (Unknowns(g, n, cs[|cs| - 1]) > 0 && NegationCount(g, n, cs[|cs| - 1]) > Unknowns(g, n, cs[|cs| - 1]))
  {
    var init := cs[..|cs| - 1];
    assert forall i :: 0 <= i < |init| ==> init[i] == cs[i];
  }

  /** Every collected part is a parenthesised, hence non-empty, clause. */
  lemma {:induction false} KbPartsNonEmpty(g: Grid, n: int, cs: seq<Coord>)
    requires IsSquare(g, n) && AllInBounds(cs, n) && KbParts(g, n, cs).Ok?
    ensures forall i :: 0 <= i < |KbParts(g, n, cs).value| ==> |KbParts(g, n, cs).value[i]| > 0
    decreases |cs|
  {
    if cs != [] {
      var init := cs[..|cs| - 1];
      KbPartsNonEmpty(g, n, init);
    }
  }

  /** There are no parts exactly when no cell of cs has an unknown neighbour. */
  lemma {:induction false} KbPartsNone(g: Grid, n: int, cs: seq<Coord>)
    requires IsSquare(g, n) && AllInBounds(cs, n) && KbParts(g, n, cs).Ok?
    ensures KbParts(g, n, cs).value == [] <==> NoUnknownNeighbours(g, n, cs)
    decreases |cs|
  {
    if cs != [] {
      var init := cs[..|cs| - 1];
      KbPartsNone(g, n, init);
      NoUnknownNeighboursInit(g, n, cs);
    }
  }

  /** No cell of cs has an unknown neighbour. */
  predicate NoUnknownNeighbours(g: Grid, n: int, cs: seq<Coord>)
    requires IsSquare(g, n) && AllInBounds(cs, n)
  {
    forall i :: 0 <= i < |cs| ==> Unknowns(g, n, cs[i]) == 0
  }

  lemma NoUnknownNeighboursInit(g: Grid, n: int, cs: seq<Coord>)
    requires IsSquare(g, n) && AllInBounds(cs, n) && cs != []
    ensures NoUnknownNeighbours(g, n, cs) <==>
      NoUnknownNeighbours(g, n, cs[..|cs| - 1]) && Unknowns(g, n, cs[|cs| - 1]) == 0
  {
    var init := cs[..|cs| - 1];
    assert forall i :: 0 <= i < |init| ==> init[i] == cs[i];
  }

  /**
    On a view consistent with a well-formed world, where every listed
    cell shows a revealed hint, buildKB never throws: a hint is a digit,
    so the negation count cannot exceed the unknowns.
   */
  lemma KbNoException(g: Grid, w: Grid, n: int, cs: seq<Coord>)
    requires WellFormedWorld(w, n) && Consistent(g, w, n) && AllInBounds(cs, n)
    requires forall i :: 0 <= i < |cs| ==> IsHintChar(At(g, cs[i]))
    ensures Kb(g, n, cs).Ok?
  {
    KbPartsException(g, n, cs);
    forall i | 0 <= i < |cs|
      ensures NegationCount(g, n, cs[i]) <= Unknowns(g, n, cs[i])
    {
      HintIsWorldDigit(g, w, n, cs[i]);
    }
  }
}
