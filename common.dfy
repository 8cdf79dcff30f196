/** Small wrapper types shared by the other modules: Python's `None` and raised errors. */
module Common {

  /** A nullable value (`Optional[...]` in the source). */
  datatype Option<+T> = None | Some(value: T)

  /** A value, or the error the source would raise instead. */
  datatype Result<+T, +E> = Ok(value: T) | Err(error: E)

  function Max(a: int, b: int): int { if a < b then b else a }

  function Min(a: int, b: int): int { if a < b then a else b }

  /** A non-empty set has a member: what lets a loop pick the next element to visit. */
  lemma NonEmptyHasMember(s: set<int>)
    requires s != {}
    ensures exists x :: x in s
  {
    if forall x :: x !in s {
      assert false;
    }
  }
}
