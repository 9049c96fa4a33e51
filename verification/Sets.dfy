/** Facts about finite sets. */
module Sets {

  ghost function Pick<T>(s: set<T>): (x: T)
    requires s != {}
    ensures x in s
  {
    var x :| x in s; x
  }

  /** A larger part leaves fewer over. */
  lemma FewerLeft<T>(all: set<T>, small: set<T>, large: set<T>)
    requires small <= large <= all && small != large
    ensures |all - large| < |all - small|
  {
    assert all - small == (all - large) + (large - small);
    assert large == small + (large - small);
  }
}
