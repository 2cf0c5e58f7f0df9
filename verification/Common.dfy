/** Definitions shared by several components. */
module Common {

  datatype Option<+T> = None | Some(value: T)

  /* The concatenation of a list of chunks. */
  function Flatten<T>(chunks: seq<seq<T>>): seq<T> {
    if |chunks| == 0 then [] else chunks[0] + Flatten(chunks[1..])
  }

  lemma {:induction false} FlattenAppend<T>(chunks: seq<seq<T>>, more: seq<seq<T>>)
    ensures Flatten(chunks + more) == Flatten(chunks) + Flatten(more)
  {
    if |chunks| == 0 {
      assert chunks + more == more;
    } else {
      assert (chunks + more)[1..] == chunks[1..] + more;
      FlattenAppend(chunks[1..], more);
    }
  }

  lemma FlattenOne<T>(chunk: seq<T>)
    ensures Flatten([chunk]) == chunk
  {
    assert [chunk][1..] == [] && chunk + [] == chunk;
  }

  lemma FlattenTwo<T>(a: seq<T>, b: seq<T>)
    ensures Flatten([a, b]) == a + b
  {
    assert [a] + [b] == [a, b];
    FlattenAppend([a], [b]);
    FlattenOne(a);
    FlattenOne(b);
  }
}
