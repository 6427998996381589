/** Finite sets: sizes and largest elements. */
module Sets {
  lemma {:induction false} SubsetIsSmaller<T>(a: set<T>, b: set<T>)
    requires a <= b
    ensures |a| <= |b|
  {
    if a != {} {
      var x :| x in a;
      SubsetIsSmaller(a - {x}, b - {x});
    }
  }

  ghost function Member<T>(s: set<T>): (x: T)
    requires |s| > 0
    ensures x in s
  {
    var x :| x in s;
    x
  }

  lemma {:induction false} SomeLargest(s: set<int>)
    requires |s| > 0
    ensures exists x :: x in s && forall y :: y in s ==> y <= x
  {
    var x := Member(s);
    var rest := s - {x};
    if |rest| == 0 {
      assert s == {x};
    } else {
      SomeLargest(rest);
      var top :| top in rest && forall y :: y in rest ==> y <= top;
      assert forall y :: y in s ==> y == x || y in rest;
      if x > top { assert x in s; } else { assert top in s; }
    }
  }

  function Largest(s: set<int>, default: int): (p: int)
    ensures if |s| == 0 then p == default else p in s && forall x :: x in s ==> x <= p
  {
    if |s| == 0 then default
    else
      SomeLargest(s);
      var x :| x in s && forall y :: y in s ==> y <= x;
      x
  }
}
