/** Extremes of finite sets of integers. */
module IntSets {

  /** A non-empty set has an element (stated so that `:|` can pick one). */
  lemma HasElement(s: set<int>)
    requires s != {}
    ensures exists y :: y in s
  {
    assert (forall y :: y !in s) ==> s == {};
  }

  /** The largest element of a finite non-empty set of integers. */
  lemma MaxOf(s: set<int>) returns (x: int)
    requires s != {}
    ensures x in s && forall y :: y in s ==> y <= x
    decreases |s|
  {
    HasElement(s);
    var y :| y in s;
    if s == {y} {
      x := y;
    } else {
      var z := MaxOf(s - {y});
      x := if z < y then y else z;
      forall w | w in s ensures w <= x {
        if w != y { assert w in s - {y}; }
      }
    }
  }

  /** The smallest element of a finite non-empty set of integers. */
  lemma MinOf(s: set<int>) returns (x: int)
    requires s != {}
    ensures x in s && forall y :: y in s ==> x <= y
    decreases |s|
  {
    HasElement(s);
    var y :| y in s;
    if s == {y} {
      x := y;
    } else {
      var z := MinOf(s - {y});
      x := if y < z then y else z;
      forall w | w in s ensures x <= w {
        if w != y { assert w in s - {y}; }
      }
    }
  }
}
