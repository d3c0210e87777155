/** Facts about finite sets that the other modules share. */
module Sets {
  /** A non-empty set has an element, so that `:|` can pick one. */
  lemma SetHasElement<T>(s: set<T>)
    requires s != {}
    ensures exists t :: t in s
  {
    if forall t :: t !in s { assert false; }
  }

  /** The same for integers. Instantiated at int, the generic lemma's witness
      is a boxed value, and the verifier does not reliably unbox it to meet an
      integer `:|`; stated for int, the witness needs no conversion. */
  lemma IntSetHasElement(s: set<int>)
    requires s != {}
    ensures exists x :: x in s
  {
    if forall x :: x !in s { assert false; }
  }
}
