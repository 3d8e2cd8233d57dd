/**
  The DIMACS numbering of literals used by the CNF strategy: each literal
  name is mapped to an integer, a variable to a positive number and its
  negation "~v" to the opposite number.
 */
module DimacsFormat {
  import opened Text

  function Abs(i: int): nat {
    if i < 0 then -i else i
  }

  /** A literal name: a variable without '~', possibly preceded by one '~'. */
  predicate IsLiteral(l: string) {
    if StartsWith(l, '~') then '~' !in l[1..] else '~' !in l
  }

  /** The opposite literal: "~v" for v, and v for "~v". */
  function Complement(l: string): string {
    if StartsWith(l, '~') then RemoveAll(l, '~') else "~" + l
  }

  /** Complement is an involution on literal names, without fixed points. */
  lemma ComplementInvolution(l: string)
    requires IsLiteral(l)
    ensures IsLiteral(Complement(l)) && Complement(Complement(l)) == l && Complement(l) != l
    ensures StartsWith(Complement(l), '~') <==> !StartsWith(l, '~')
  {
    if StartsWith(l, '~') {
      assert l == "~" + l[1..];
      assert RemoveAll(l, '~') == RemoveAll(l[1..], '~') == l[1..];
    } else {
      assert ("~" + l)[1..] == l;
      assert RemoveAll("~" + l, '~') == RemoveAll(l, '~') == l;
    }
  }

  /** Every key is a literal whose complement is a key with the opposite number. */
  predicate Paired(m: map<string, int>) {
    // Triggering on Complement(k) rather than on k in m avoids a matching
    // loop through Complement(Complement(k)).
    forall k {:trigger Complement(k)} :: k in m ==> IsLiteral(k) && Complement(k) in m && m[Complement(k)] == -m[k]
  }

  /** Numbers are odd, non-zero, at most the map's size, and negative exactly for negative literals. */
  predicate Numbered(m: map<string, int>) {
    forall k :: k in m ==> 0 < Abs(m[k]) <= |m| && Abs(m[k]) % 2 == 1 && (StartsWith(k, '~') <==> m[k] < 0)
  }

  /** Distinct literals have distinct numbers. */
  predicate Injective(m: map<string, int>) {
    forall k1, k2 :: k1 in m && k2 in m && m[k1] == m[k2] ==> k1 == k2
  }

  /**
    The numbering invariant: literals come in complementary pairs with
    opposite, odd, distinct numbers bounded by the map's size.
   */
  predicate Wf(m: map<string, int>) {
    Paired(m) && Numbered(m) && Injective(m) && |m| % 2 == 0
  }

  /**
    encodeLiteral on the map m. The source tests twice whether a positive
    literal is mapped; the inner test repeats the outer one and never
    succeeds, so it is left out here.
   */
  function Encode(m: map<string, int>, l: string): (r: map<string, int>)
    ensures l in r && m.Keys <= r.Keys
  {
    if StartsWith(l, '~') then
      var pos := RemoveAll(l, '~');
      if l !in m then
        if pos in m then m[l := -m[pos]]
        else
          var id := |m| + 1;
          m[pos := id][l := -id]
      else if pos !in m then m[l := -m[l]]
      else m
    else
      var neg := "~" + l;
      if l !in m then
        var id := |m| + 1;
        m[l := id][neg := -id]
      else if neg !in m then m[neg := -m[l]]
      else m
  }

  /** encodeLiterals: each literal encoded in turn. */
  function EncodeAll(m: map<string, int>, ls: seq<string>): (r: map<string, int>)
    ensures m.Keys <= r.Keys
    decreases |ls|
  {
    if ls == [] then m else Encode(EncodeAll(m, ls[..|ls| - 1]), ls[|ls| - 1])
  }

  /** Every number in a well-formed map is below the next fresh number. */
  lemma FreshExceeds(m: map<string, int>)
    requires Wf(m)
    ensures forall k :: k in m ==> Abs(m[k]) < |m| + 1
  {
  }

  /** In a paired map, a literal is a key exactly when its complement is. */
  lemma PairedKeys(m: map<string, int>, l: string)
    requires Paired(m) && IsLiteral(l)
    ensures l in m <==> Complement(l) in m
  {
    ComplementInvolution(l);
    if Complement(l) in m {
      assert Complement(Complement(l)) in m;
    }
  }

  /**
    A fresh positive literal l gets |m| + 1 and "~" + l gets -(|m| + 1);
    the map grows by exactly these two entries.
   */
  lemma EncodeFreshPositive(m: map<string, int>, l: string)
    requires Paired(m) && IsLiteral(l) && !StartsWith(l, '~') && l !in m
    ensures Encode(m, l) == m[l := |m| + 1]["~" + l := -(|m| + 1)]
    ensures |Encode(m, l)| == |m| + 2
  {
    PairedKeys(m, l);
    assert "~" + l !in m;
  }

  /**
    A fresh negative literal "~v" gives v the number |m| + 1 and "~v" the
    number -(|m| + 1); the map grows by exactly these two entries.
   */
  lemma EncodeFreshNegative(m: map<string, int>, l: string)
    requires Paired(m) && IsLiteral(l) && StartsWith(l, '~') && l !in m
    ensures Encode(m, l) == m[Complement(l) := |m| + 1][l := -(|m| + 1)]
    ensures Complement(l) !in m && |Encode(m, l)| == |m| + 2
  {
    PairedKeys(m, l);
    ComplementInvolution(l);
  }

  /** Encoding a literal that is already mapped changes nothing. */
  lemma EncodeKnown(m: map<string, int>, l: string)
    requires Paired(m) && IsLiteral(l) && l in m
    ensures Encode(m, l) == m
  {
    assert Complement(l) in m;
  }

  /** Encoding preserves the numbering invariant. */
  lemma EncodeWf(m: map<string, int>, l: string)
    requires Wf(m) && IsLiteral(l)
    ensures Wf(Encode(m, l))
  {
    if l in m {
      EncodeKnown(m, l);
    } else {
      EncodeAddsPair(m, l);
      var r := Encode(m, l);
      FreshPaired(m, l, r);
      FreshNumbered(m, l, r);
      FreshInjective(m, l, r);
      assert |r| % 2 == 0 by {
        EvenStep(|m|);
      }
    }
  }

  /** Encoding a fresh literal adds it and its complement, numbered |m| + 1. */
  lemma EncodeAddsPair(m: map<string, int>, l: string)
    requires Paired(m) && IsLiteral(l) && l !in m
    ensures AddsPair(m, l, Encode(m, l))
  {
    ComplementInvolution(l);
    PairedKeys(m, l);
    if StartsWith(l, '~') {
      EncodeFreshNegative(m, l);
    } else {
      EncodeFreshPositive(m, l);
    }
  }

  lemma EvenStep(a: int)
    requires a % 2 == 0
    ensures (a + 2) % 2 == 0
  {
  }

  /** What adding a fresh complementary pair to m gives r. */
  predicate AddsPair(m: map<string, int>, l: string, r: map<string, int>) {
    l !in m && Complement(l) !in m && l != Complement(l)
    && r.Keys == m.Keys + {l, Complement(l)}
    && (forall k :: k in m ==> r[k] == m[k])
    && r[l] == (if StartsWith(l, '~') then -(|m| + 1) else |m| + 1)
    && r[Complement(l)] == -r[l]
  }

  lemma FreshPaired(m: map<string, int>, l: string, r: map<string, int>)
    requires Paired(m) && IsLiteral(l) && AddsPair(m, l, r)
    ensures Paired(r)
  {
    ComplementInvolution(l);
    forall k | k in r
      ensures IsLiteral(k) && Complement(k) in r && r[Complement(k)] == -r[k]
    {
      if k != l && k != Complement(l) {
        assert k in m;
        assert Complement(k) in m;
      }
    }
  }

  lemma PairSize(m: map<string, int>, l: string, r: map<string, int>)
    requires AddsPair(m, l, r)
    ensures |r| == |m| + 2
  {
    var c := Complement(l);
    assert r.Keys == m.Keys + {l} + {c};
    assert |m.Keys + {l}| == |m.Keys| + 1;
    assert |r.Keys| == |m.Keys + {l}| + 1;
  }

  lemma FreshNumbered(m: map<string, int>, l: string, r: map<string, int>)
    requires Numbered(m) && |m| % 2 == 0 && IsLiteral(l) && AddsPair(m, l, r)
    ensures Numbered(r) && |r| == |m| + 2
  {
    PairSize(m, l, r);
    forall k | k in r
      ensures 0 < Abs(r[k]) <= |r| && Abs(r[k]) % 2 == 1 && (StartsWith(k, '~') <==> r[k] < 0)
    {
      FreshNumberedAt(m, l, r, k);
    }
  }

  lemma FreshNumberedAt(m: map<string, int>, l: string, r: map<string, int>, k: string)
    requires Numbered(m) && |m| % 2 == 0 && IsLiteral(l) && AddsPair(m, l, r) && k in r
    ensures 0 < Abs(r[k]) <= |m| + 2 && Abs(r[k]) % 2 == 1 && (StartsWith(k, '~') <==> r[k] < 0)
  {
    if k == l || k == Complement(l) {
      ComplementInvolution(l);
      var id := |m| + 1;
      assert id % 2 == 1;
      assert Abs(r[k]) == id;
    } else {
      assert k in m && r[k] == m[k];
    }
  }

  lemma FreshInjective(m: map<string, int>, l: string, r: map<string, int>)
    requires Numbered(m) && Injective(m) && AddsPair(m, l, r)
    ensures Injective(r)
  {
    forall k1, k2 | k1 in r && k2 in r && k1 != k2
      ensures r[k1] != r[k2]
    {
      FreshDistinct(m, l, r, k1, k2);
    }
  }

  /** Two distinct keys of r keep distinct numbers: old numbers stay below the fresh one. */
  lemma FreshDistinct(m: map<string, int>, l: string, r: map<string, int>, k1: string, k2: string)
    requires Numbered(m) && AddsPair(m, l, r) && k1 in r && k2 in r && k1 != k2
    requires k1 in m && k2 in m ==> m[k1] != m[k2]
    ensures r[k1] != r[k2]
  {
    if k1 in m && k2 !in m {
      assert Abs(r[k1]) <= |m| < Abs(r[k2]);
    } else if k2 in m && k1 !in m {
      assert Abs(r[k2]) <= |m| < Abs(r[k1]);
    }
  }

  /** Encoding is idempotent. */
  lemma EncodeIdempotent(m: map<string, int>, l: string)
    requires Wf(m) && IsLiteral(l)
    ensures Encode(Encode(m, l), l) == Encode(m, l)
  {
    EncodeWf(m, l);
    EncodeKnown(Encode(m, l), l);
  }

  /** encodeLiterals on literal names preserves the numbering invariant. */
  lemma {:induction false} EncodeAllWf(m: map<string, int>, ls: seq<string>)
    requires Wf(m) && forall i :: 0 <= i < |ls| ==> IsLiteral(ls[i])
    ensures Wf(EncodeAll(m, ls))
    decreases |ls|
  {
    if ls != [] {
      EncodeAllWf(m, ls[..|ls| - 1]);
      EncodeWf(EncodeAll(m, ls[..|ls| - 1]), ls[|ls| - 1]);
    }
  }

  /** The pairing part of the invariant, on its own. */
  lemma EncodeAllPaired(m: map<string, int>, ls: seq<string>)
    requires Wf(m) && forall i :: 0 <= i < |ls| ==> IsLiteral(ls[i])
    ensures Paired(EncodeAll(m, ls))
  {
    EncodeAllWf(m, ls);
  }

  /**
    After encodeLiterals on literal names, every input literal and its
    complement are keys.
   */
  lemma {:induction false} EncodeAllCovers(m: map<string, int>, ls: seq<string>)
    requires Wf(m) && forall i :: 0 <= i < |ls| ==> IsLiteral(ls[i])
    ensures forall i :: 0 <= i < |ls| ==> ls[i] in EncodeAll(m, ls) && Complement(ls[i]) in EncodeAll(m, ls)
    decreases |ls|
  {
    if ls != [] {
      var init := ls[..|ls| - 1];
      var l := ls[|ls| - 1];
      EncodeAllCovers(m, init);
      EncodeAllPaired(m, init);
      EncodeAllPaired(m, ls);
      CoversSnoc(EncodeAll(m, init), init, l);
      assert ls == init + [l];
    }
  }

  /** Encoding one more literal keeps the earlier literals and their complements as keys and adds l's. */
  lemma CoversSnoc(before: map<string, int>, init: seq<string>, l: string)
    requires Paired(before) && IsLiteral(l) && Paired(Encode(before, l))
    requires forall i :: 0 <= i < |init| ==> init[i] in before && Complement(init[i]) in before
    ensures forall i :: 0 <= i < |init| + 1 ==> (init + [l])[i] in Encode(before, l) && Complement((init + [l])[i]) in Encode(before, l)
  {
    var after := Encode(before, l);
    PairedKeys(after, l);
    forall i | 0 <= i < |init| + 1
      ensures (init + [l])[i] in after && Complement((init + [l])[i]) in after
    {
      if i < |init| {
        assert (init + [l])[i] == init[i];
      }
    }
  }

  /** The literal map of the CNF encoder. */
  class Dimacs {
    var literals: map<string, int>

    /** An encoder with no literal numbered yet. */
    constructor()
      ensures literals == map[]
    {
      literals := map[];
    }

    /** encodeLiteral: gives literal (and its complement) numbers if it has none yet. */
    method EncodeLiteral(literal: string)
      modifies this
      ensures literals == Encode(old(literals), literal)
    {
      if StartsWith(literal, '~') {
        if literal !in literals {
          var positiveLiteral := RemoveAll(literal, '~');
          if positiveLiteral in literals {
            literals := literals[literal := literals[positiveLiteral] * -1];
          } else {
            literals := literals[positiveLiteral := |literals| + 1];
            literals := literals[literal := literals[positiveLiteral] * -1];
          }
        } else {
          var positiveLiteral := RemoveAll(literal, '~');
          if positiveLiteral !in literals {
            literals := literals[literal := literals[literal] * -1];
          }
        }
      } else {
        if literal !in literals {
          var negativeLiteral := "~" + literal;
          literals := literals[literal := |literals| + 1];
          literals := literals[negativeLiteral := literals[literal] * -1];
        } else {
          var negativeLiteral := "~" + literal;
          if negativeLiteral !in literals {
            literals := literals[negativeLiteral := literals[literal] * -1];
          }
        }
      }
    }

    /** encodeLiterals: encodes each literal in iteration order. */
    method EncodeLiterals(ls: seq<string>)
      modifies this
      ensures literals == EncodeAll(old(literals), ls)
    {
      for i := 0 to |ls|
        invariant literals == EncodeAll(old(literals), ls[..i])
      {
        assert ls[..i + 1][..i] == ls[..i];
        EncodeLiteral(ls[i]);
      }
      assert ls[..|ls|] == ls;
    }

    function GetLiterals(): (m: map<string, int>)
      reads this
      ensures m == literals
    {
      literals
    }
  }
}
