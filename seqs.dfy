/**
 Small sequence vocabulary shared by the pipeline: an optional value, and the
 in-order concatenation of a list of pieces (used both to glue text chunks back
 together and to join the per-chunk audio into one blob).
 */
module Seqs {

  datatype Option<+T> = None | Some(value: T)

  /** The pieces of `ss`, joined in order. */
  function Concat<T>(ss: seq<seq<T>>): seq<T>
  {
    if ss == [] then [] else ss[0] + Concat(ss[1..])
  }

  /** The sum of the lengths of the pieces. */
  function TotalLength<T>(ss: seq<seq<T>>): nat
  {
    if ss == [] then 0 else |ss[0]| + TotalLength(ss[1..])
  }

  /** Joining loses and duplicates nothing: the result is as long as all pieces together. */
  lemma {:induction false} ConcatLength<T>(ss: seq<seq<T>>)
    ensures |Concat(ss)| == TotalLength(ss)
  {
    if ss != [] {
      ConcatLength(ss[1..]);
    }
  }

  /** Piece j sits in the join right after the pieces before it, so the join keeps the pieces' order. */
  lemma {:induction false} PieceAt<T>(ss: seq<seq<T>>, j: nat)
    requires j < |ss|
    ensures TotalLength(ss[..j]) + |ss[j]| <= |Concat(ss)|
    ensures Concat(ss)[TotalLength(ss[..j])..TotalLength(ss[..j]) + |ss[j]|] == ss[j]
    decreases j
  {
    ConcatLength(ss);
    var whole := Concat(ss);
    assert whole == ss[0] + Concat(ss[1..]);
    if j == 0 {
      assert ss[..0] == [];
      assert whole[..|ss[0]|] == ss[0];
    } else {
      var rest := ss[1..];
      PieceAt(rest, j - 1);
      var before := TotalLength(rest[..j - 1]);
      assert rest[..j - 1] == ss[..j][1..];
      assert TotalLength(ss[..j]) == |ss[0]| + before;
      assert rest[j - 1] == ss[j];
      var offset := |ss[0]| + before;
      assert whole[offset..offset + |ss[j]|] == Concat(rest)[before..before + |ss[j]|];
    }
  }
}
