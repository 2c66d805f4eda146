/** Small shared definitions: an optional value, and two facts about
    sequence concatenation the proofs use. */
module Common {

  datatype Option<T> = None | Some(value: T)

  /** A concatenation is empty exactly when both parts are. */
  lemma ConcatEmpty<T>(a: seq<T>, b: seq<T>)
    ensures a + b == [] <==> a == [] && b == []
  {
    assert |a + b| == |a| + |b|;
  }

  /** Concatenation is associative. */
  lemma AppendAssoc<T>(a: seq<T>, b: seq<T>, c: seq<T>)
    ensures a + b + c == a + (b + c)
  {
  }
}
