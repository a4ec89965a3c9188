/** Lists without repetitions, as `dict.fromkeys` and membership tests before appending give them. */
module Sequences {

  lemma ConcatIsAssociative<T>(a: seq<T>, b: seq<T>, c: seq<T>)
    ensures a + (b + c) == a + b + c
  {
  }

  /** The first occurrence of each element, in order. */
  function Distinct<T(==)>(s: seq<T>): seq<T> {
    if s == [] then []
    else
      var init := s[..|s| - 1];
      if s[|s| - 1] in init then Distinct(init) else Distinct(init) + [s[|s| - 1]]
  }

  lemma DistinctAppend<T>(s: seq<T>, e: T)
    ensures Distinct(s + [e]) == if e in s then Distinct(s) else Distinct(s) + [e]
  {
    assert (s + [e])[..|s|] == s;
  }

  lemma {:induction false} DistinctConcat<T>(s: seq<T>, t: seq<T>)
    requires forall e :: e in s ==> e !in t
    ensures Distinct(s + t) == Distinct(s) + Distinct(t)
  {
    if t == [] {
      assert s + t == s;
    } else {
      var init, last := t[..|t| - 1], t[|t| - 1];
      DistinctConcat(s, init);
      DistinctAppend(s + init, last);
      assert s + init + [last] == s + t;
    }
  }

  lemma {:induction false} DistinctMembers<T>(s: seq<T>)
    ensures forall e :: e in Distinct(s) <==> e in s
    ensures forall i, j :: 0 <= i < j < |Distinct(s)| ==> Distinct(s)[i] != Distinct(s)[j]
  {
    if s != [] {
      DistinctMembers(s[..|s| - 1]);
      assert s == s[..|s| - 1] + [s[|s| - 1]];
    }
  }
}
