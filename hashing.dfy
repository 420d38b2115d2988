/** The one property the ledger trusts its digest for. */
module Hashing {

  /** `f` never maps two different inputs to the same output. SHA-256 is only
      believed to behave like this (collision resistance); every lemma that
      needs it takes it as a hypothesis, nothing assumes it. */
  ghost predicate Injective<A(!new), B>(f: A -> B)
  {
    forall x, y :: f(x) == f(y) ==> x == y
  }
}
