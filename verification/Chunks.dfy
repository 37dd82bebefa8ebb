/** Input that arrives in pieces. */
module Chunks {
  import opened Unicode

  /** The pieces put back together. */
  function Join<T>(chunks: seq<seq<T>>): seq<T> {
    if chunks == [] then [] else Join(chunks[..|chunks| - 1]) + chunks[|chunks| - 1]
  }

  lemma JoinNothing<T>(chunks: seq<seq<T>>)
    ensures chunks[..0] == [] && Join(chunks[..0]) == []
  {}

  lemma JoinNext<T>(chunks: seq<seq<T>>, i: nat)
    requires i < |chunks|
    ensures Join(chunks[..i + 1]) == Join(chunks[..i]) + chunks[i]
  {
    assert chunks[..i + 1][..i] == chunks[..i];
  }

  lemma {:induction false} JoinSplit<T>(chunks: seq<seq<T>>, i: nat)
    requires i <= |chunks|
    ensures Join(chunks) == Join(chunks[..i]) + Join(chunks[i..])
    decreases |chunks|
  {
    var n := |chunks| - 1;
    if i == |chunks| {
      assert chunks[..i] == chunks && chunks[i..] == [];
    } else {
      JoinSplit(chunks[..n], i);
      assert chunks[..n][..i] == chunks[..i] && chunks[..n][i..] == chunks[i..][..n - i];
      Associative(Join(chunks[..i]), Join(chunks[i..][..n - i]), chunks[n]);
    }
  }

  lemma JoinFirst<T>(chunks: seq<seq<T>>)
    requires chunks != []
    ensures Join(chunks) == chunks[0] + Join(chunks[1..])
  {
    JoinSplit(chunks, 1);
    assert chunks[..1] == [chunks[0]] && [chunks[0]][..0] == [];
  }
}
