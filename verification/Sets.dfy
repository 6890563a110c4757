/** Finite sets: intervals of integers, sizes and a choice that depends on the set alone. */
module Sets {
  /** The integers from low to high - 1. */
  function Interval(low: int, high: int): (hs: set<int>)
    ensures forall h :: h in hs <==> low <= h < high
    ensures low <= high ==> |hs| == high - low
    decreases high - low
  {
    if low >= high then {} else Interval(low, high - 1) + {high - 1}
  }

  lemma SubsetSize<T>(a: set<T>, b: set<T>)
    requires a <= b
    ensures |a| <= |b|
  {
    assert b == a + (b - a);
  }

  /** Some element, always the same one for the same set. */
  ghost function Pick<T>(s: set<T>): (x: T)
    requires s != {}
    ensures x in s
  {
    var x :| x in s;
    x
  }
}
