// Facts about sequences of anything.
module Sequences {

  ghost predicate Distinct<T>(s: seq<T>) {
    forall i, j :: 0 <= i < j < |s| ==> s[i] != s[j]
  }

  lemma DistinctConcat<T>(a: seq<T>, b: seq<T>)
    requires Distinct(a) && Distinct(b) && forall x :: x in a ==> x !in b
    ensures Distinct(a + b)
  {
    forall i, j | 0 <= i < j < |a + b| ensures (a + b)[i] != (a + b)[j] {
      if i < |a| <= j {
        assert a[i] in a && b[j - |a|] in b;
      }
    }
  }

  function Flat<T>(parts: seq<seq<T>>): seq<T> {
    if parts == [] then [] else Flat(parts[..|parts| - 1]) + parts[|parts| - 1]
  }

  lemma FlatNone<T>(parts: seq<seq<T>>)
    requires parts == []
    ensures Flat(parts) == []
  {
  }

  lemma FlatSnoc<T>(parts: seq<seq<T>>, p: seq<T>)
    ensures Flat(parts + [p]) == Flat(parts) + p
  {
  }

  lemma {:induction false} FlatCons<T>(p: seq<T>, parts: seq<seq<T>>)
    ensures Flat([p] + parts) == p + Flat(parts)
  {
    if parts == [] {
      assert Flat([p]) == Flat<T>([]) + p;
      assert [p] + parts == [p];
    } else {
      var front, last := parts[..|parts| - 1], parts[|parts| - 1];
      FlatCons(p, front);
      FlatSnoc([p] + front, last);
      assert [p] + front + [last] == [p] + parts;
      assert p + Flat(front) + last == p + (Flat(front) + last);
    }
  }

  lemma ConsAppend<T>(p: T, x: seq<T>, y: seq<T>)
    ensures [p] + x + y == [p] + (x + y)
  {
  }
}
