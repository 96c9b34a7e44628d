// Small things that several components share.
module Common {
  import opened BitStrings

  datatype Option<T> = None | Some(value: T)

  /** The bytes of a stream that was cut into chunks. */
  function Flatten(chunks: seq<Bytes>): Bytes {
    if chunks == [] then [] else Flatten(chunks[..|chunks| - 1]) + chunks[|chunks| - 1]
  }

  lemma {:induction false} FlattenFirst(chunks: seq<Bytes>)
    requires chunks != []
    ensures Flatten(chunks) == chunks[0] + Flatten(chunks[1..])
  {
    var n := |chunks| - 1;
    if n == 0 {
      assert chunks[..0] == [] && chunks[1..] == [];
    } else {
      assert Flatten(chunks) == Flatten(chunks[..n]) + chunks[n];
      assert Flatten(chunks[1..]) == Flatten(chunks[1..][..n - 1]) + chunks[n];
      FlattenFirst(chunks[..n]);
      assert chunks[..n][1..] == chunks[1..][..n - 1];
      hide Flatten;
      assert chunks[0] + Flatten(chunks[1..][..n - 1]) + chunks[n]
          == chunks[0] + (Flatten(chunks[1..][..n - 1]) + chunks[n]);
    }
  }
}
