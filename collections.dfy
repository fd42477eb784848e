/** Small facts about Dafny's built-in collections used by the loops of the model. */
module Collections {

  /** A non-empty set has an element to pick. */
  lemma NonEmptyHasElement(s: set<int>)
    requires s != {}
    ensures exists x :: x in s
  {
    if forall x :: x !in s {
      assert false;
    }
  }

  /** The elements of a sequence of ids, as a set. */
  function Elems(s: seq<int>): (r: set<int>)
    ensures forall x :: x in r <==> x in s
  {
    set x | x in s
  }
}
