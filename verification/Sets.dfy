/** A fact about sets that the verifier does not find by itself. */
module Sets {
  lemma Inhabited(s: set<int>)
    ensures s == {} || exists x :: x in s
  {
    if forall x :: x !in s { assert s == {}; }
  }
}
