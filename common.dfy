/** Small shared datatypes and facts. */
module Options {

  /** A value that may be absent: the model of an operation that throws or finds nothing. */
  datatype Option<+T> = None | Some(value: T)
}

/** Facts about finite sets used by termination arguments. */
module SetFacts {

  /** A proper subset has fewer elements. */
  lemma StrictSubsetSmaller<T>(a: set<T>, b: set<T>)
    requires a < b
    ensures |a| < |b|
  {
    assert b == a + (b - a) && a * (b - a) == {};
    assert b - a != {} by {
      assert (b - a == {}) ==> b == a;
    }
  }
}
