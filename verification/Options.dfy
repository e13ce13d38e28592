/** The usual optional value, and optional sequences put together piece by piece. */
module Options {
  datatype Option<+T> = None | Some(value: T)

  function Prepend<T>(front: seq<T>, more: Option<seq<T>>): Option<seq<T>> {
    match more case Some(m) => Some(front + m) case None => None
  }

  lemma PrependTwice<T>(a: seq<T>, b: seq<T>, more: Option<seq<T>>)
    ensures Prepend([], more) == more && Prepend(a, Prepend(b, more)) == Prepend(a + b, more)
  {
    if more.Some? {
      assert a + b + more.value == a + (b + more.value);
      assert [] + more.value == more.value;
    }
  }

  lemma PrependEnds<T>(front: seq<T>)
    ensures Prepend(front, Some([])) == Some(front) && Prepend(front, None) == None
  {
    assert front + [] == front;
  }
}
