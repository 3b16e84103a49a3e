/**
 * A row of page elements that each may carry the `active` class (the tier
 * cards, the FAQ items), as one flag per element in document order.
 */
module Flags {

  /** The positions of the elements that carry the class. */
  function ActiveIndices(flags: seq<bool>): set<nat> {
    set j: nat | j < |flags| && flags[j]
  }

  /** Two rows of the same length are equal when the same positions are active. */
  lemma FlagsFromActiveIndices(a: seq<bool>, b: seq<bool>)
    requires |a| == |b| && ActiveIndices(a) == ActiveIndices(b)
    ensures a == b
  {
    forall j | 0 <= j < |a| ensures a[j] == b[j] {
      assert a[j] <==> j in ActiveIndices(a);
      assert b[j] <==> j in ActiveIndices(b);
    }
  }
}
