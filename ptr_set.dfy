/**
 * `set_of_ptr_contains` and `are_set_of_ptr_equal`: sets of shared pointers
 * compared by the values pointed to. A pointer is `Some(value)`, and the
 * null pointer is `None`.
 */
module PointerSet {
  import opened Wrappers

  /**
   * `set_of_ptr_contains(s, p)`: some element of `s` points to a value equal
   * to the one `p` points to; a null `p` is found only when `s` holds null.
   */
  function SetOfPtrContains<T(==)>(s: set<Option<T>>, p: Option<T>): (r: bool)
    ensures r <==> p in s
    ensures p.None? ==> (r <==> None in s)
  {
    if p.None? then None in s
    else exists q :: q in s && q.Some? && q.value == p.value
  }

  /** A subset as large as its superset is the whole superset. */
  lemma SubsetSameSize<T>(a: set<T>, b: set<T>)
    requires a <= b && |a| == |b|
    ensures a == b
  {
    var extra := b - a;
    assert b == a + extra;
    assert a * extra == {};
    assert |extra| == 0;
  }

  /**
   * `are_set_of_ptr_equal(a, b)`: the sets have the same size and every
   * element of `a` has a counterpart of equal value in `b`.
   */
  function AreSetOfPtrEqual<T(==)>(a: set<Option<T>>, b: set<Option<T>>): (r: bool)
    ensures r <==> a == b
  {
    var contained := forall p :: p in a ==> SetOfPtrContains(b, p);
    if contained && |a| == |b| then SubsetSameSize(a, b); true else false
  }

  /** The comparison does not depend on the order of its arguments. */
  lemma AreSetOfPtrEqualSymmetric<T>(a: set<Option<T>>, b: set<Option<T>>)
    ensures AreSetOfPtrEqual(a, b) == AreSetOfPtrEqual(b, a)
  {
  }

  /** Every set equals itself. */
  lemma AreSetOfPtrEqualReflexive<T>(a: set<Option<T>>)
    ensures AreSetOfPtrEqual(a, a)
  {
  }

  /** Sets that differ in size are never equal, by value or otherwise. */
  lemma AreSetOfPtrEqualSize<T>(a: set<Option<T>>, b: set<Option<T>>)
    requires |a| != |b|
    ensures !AreSetOfPtrEqual(a, b)
  {
  }

  // ---------------------------------------------------------------------------
  // The cases the tests check

  /** Integers 0..3, without and then with a null pointer. */
  lemma SetOfPtrContainsInt()
    ensures forall p: Option<int> :: !SetOfPtrContains({}, p)
    ensures var s := {Some(0), Some(1), Some(2), Some(3)};
      SetOfPtrContains(s, Some(0)) && SetOfPtrContains(s, Some(1))
      && !SetOfPtrContains(s, Some(4)) && !SetOfPtrContains(s, None)
    ensures var s := {Some(0), Some(1), Some(2), Some(3), None};
      SetOfPtrContains(s, None) && SetOfPtrContains(s, Some(0))
      && SetOfPtrContains(s, Some(1)) && !SetOfPtrContains(s, Some(4))
  {
  }

  /** Strings are compared whole: a prefix or a near match is not contained. */
  lemma SetOfPtrContainsString()
    ensures var s := {Some("a"), Some("Barro"), Some("String with spaces"),
                      Some("I count him braver who overcomes his desires than him who conquers his enemies, "
                           + "for the hardest victory is over self. ― Aristotle")};
      SetOfPtrContains(s, Some("a")) && SetOfPtrContains(s, Some("Barro"))
      && !SetOfPtrContains(s, Some("Stringwithspaces"))
      && !SetOfPtrContains(s, Some("Barr")) && !SetOfPtrContains(s, Some("4"))
  {
    var s: set<Option<string>> := {Some("a"), Some("Barro"), Some("String with spaces"),
                      Some("I count him braver who overcomes his desires than him who conquers his enemies, "
                           + "for the hardest victory is over self. ― Aristotle")};
    assert Some("Barr") !in s by {
      assert |"Barr"| == 4;
    }
    assert Some("Stringwithspaces") !in s by {
      assert "Stringwithspaces"[6] != "String with spaces"[6];
    }
  }

  /** The sets built up by the equality test, compared in both directions. */
  lemma AreSetOfPtrEqualInt()
    ensures AreSetOfPtrEqual<int>({}, {})
    ensures !AreSetOfPtrEqual({Some(0), Some(1), Some(2)}, {})
    ensures AreSetOfPtrEqual({Some(0), Some(1), Some(2)}, {Some(0), Some(1), Some(2)})
    ensures !AreSetOfPtrEqual({Some(0), Some(1), Some(2), Some(3)}, {Some(0), Some(1), Some(2)})
    ensures !AreSetOfPtrEqual({Some(0), Some(1), Some(2), Some(3)}, {Some(0), Some(1), Some(2), Some(4)})
    ensures !AreSetOfPtrEqual({Some(0), Some(1), Some(2), Some(3), None},
                              {Some(0), Some(1), Some(2), Some(4), Some(3)})
    ensures AreSetOfPtrEqual({Some(0), Some(1), Some(2), Some(3), None, Some(4)},
                             {Some(0), Some(1), Some(2), Some(4), Some(3), None})
  {
    assert Some(3) !in {Some(0), Some(1), Some(2), Some(4)};
    assert None !in {Some(0), Some(1), Some(2), Some(4), Some(3)};
  }
}
