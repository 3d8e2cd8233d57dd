/**
  The two ArrayList operations the tornado sweeper relies on for its cell
  lists: membership without repetition, and remove(Object), which drops
  the first element equal to its argument (for cells: the same object).
 */
module Lists {

  /** No element occurs twice. */
  predicate NoDup<T(==)>(s: seq<T>) {
    forall i, j :: 0 <= i < j < |s| ==> s[i] != s[j]
  }

  /** ArrayList.remove(Object): the list without the first element equal to x. */
  function RemoveFirst<T(==)>(s: seq<T>, x: T): (r: seq<T>)
    ensures x in s ==> |r| == |s| - 1
    ensures x !in s ==> r == s
    decreases |s|
  {
    if s == [] then []
    else if s[0] == x then s[1..]
    else [s[0]] + RemoveFirst(s[1..], x)
  }

  /** remove(Object) takes away exactly one occurrence of x, if there is one. */
  lemma {:induction false} RemoveFirstMultiset<T>(s: seq<T>, x: T)
    ensures multiset(RemoveFirst(s, x)) == multiset(s) - multiset{x}
    decreases |s|
  {
    if s != [] {
      assert s == [s[0]] + s[1..];
      if s[0] != x {
        RemoveFirstMultiset(s[1..], x);
      }
    }
  }

  /** On a list without repetitions, remove(Object) leaves exactly the other elements, still without repetitions. */
  lemma RemoveFirstMembers<T>(s: seq<T>, x: T)
    requires NoDup(s)
    ensures forall y :: y in RemoveFirst(s, x) <==> y in s && y != x
    ensures NoDup(RemoveFirst(s, x))
  {
    RemoveFirstMultiset(s, x);
    NoDupMultiset(s);
    var r := RemoveFirst(s, x);
    forall y
      ensures y in r <==> y in s && y != x
    {
      assert y in r <==> y in multiset(r);
      assert y in s <==> y in multiset(s);
    }
    CountsNoDup(r);
  }

  /** A sequence in which every element occurs at most once has no repetitions. */
  lemma CountsNoDup<T>(r: seq<T>)
    requires forall y :: multiset(r)[y] <= 1
    ensures NoDup(r)
  {
    forall i, j | 0 <= i < j < |r|
      ensures r[i] != r[j]
    {
      assert r == r[..j] + [r[j]] + r[j + 1..];
      assert r[..j][i] == r[i];
      assert multiset(r)[r[i]] >= multiset(r[..j])[r[i]] + multiset{r[j]}[r[i]];
    }
  }

  /** Two lists without repetitions and without a common element join into one without repetitions. */
  lemma NoDupAppend<T>(a: seq<T>, b: seq<T>)
    requires NoDup(a) && NoDup(b) && forall x :: x in b ==> x !in a
    ensures NoDup(a + b)
  {
    forall i, j | 0 <= i < j < |a + b|
      ensures (a + b)[i] != (a + b)[j]
    {
      if j < |a| {
        assert (a + b)[i] == a[i] && (a + b)[j] == a[j];
      } else if i < |a| {
        assert (a + b)[i] == a[i] && (a + b)[j] == b[j - |a|] && b[j - |a|] in b;
      } else {
        assert (a + b)[i] == b[i - |a|] && (a + b)[j] == b[j - |a|];
      }
    }
  }

  /** Without repetitions, every element occurs exactly once. */
  lemma {:induction false} NoDupMultiset<T>(s: seq<T>)
    requires NoDup(s)
    ensures forall y :: y in s ==> multiset(s)[y] == 1
    decreases |s|
  {
    if s != [] {
      NoDupMultiset(s[1..]);
      assert s == [s[0]] + s[1..];
      assert s[0] !in s[1..];
    }
  }
}
