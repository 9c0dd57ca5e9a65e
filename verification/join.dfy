/**
 * Joining strings in order, the way an accumulator that starts empty and is
 * extended with `+=` builds its text: the last piece is appended last. The
 * offsets say where each piece lands in the joined text.
 */
module Pieces {

  /** The pieces of `ss` concatenated in order. */
  function Join(ss: seq<string>): (r: string)
    decreases |ss|
  {
    if ss == [] then [] else Join(ss[..|ss| - 1]) + ss[|ss| - 1]
  }

  /** Where the `i`-th piece starts in `Join(ss)`. */
  function Offset(ss: seq<string>, i: nat): (o: nat)
    requires i <= |ss|
  {
    |Join(ss[..i])|
  }

  /** The sum of the lengths of the pieces, added up from the front. */
  function TotalLength(ss: seq<string>): (n: nat)
    decreases |ss|
  {
    if ss == [] then 0 else |ss[0]| + TotalLength(ss[1..])
  }

  /** Appending one more piece extends the joined text by exactly that piece. */
  lemma JoinAppend(ss: seq<string>, s: string)
    ensures Join(ss + [s]) == Join(ss) + s
  {
    assert (ss + [s])[..|ss|] == ss;
  }

  /** Joining a prefix of the pieces gives a prefix of the joined text. */
  lemma {:induction false} JoinPrefix(ss: seq<string>, i: nat)
    requires i <= |ss|
    ensures Join(ss[..i]) <= Join(ss)
    decreases |ss|
  {
    if i < |ss| {
      var init := ss[..|ss| - 1];
      JoinPrefix(init, i);
      assert init[..i] == ss[..i];
      assert Join(ss) == Join(init) + ss[|ss| - 1];
    } else {
      assert ss[..i] == ss;
    }
  }

  /** The `i`-th piece occupies `[Offset(ss, i), Offset(ss, i + 1))` of the joined text, unchanged. */
  lemma PieceAt(ss: seq<string>, i: nat)
    requires i < |ss|
    ensures Offset(ss, i) + |ss[i]| == Offset(ss, i + 1) <= |Join(ss)|
    ensures Join(ss)[Offset(ss, i)..Offset(ss, i + 1)] == ss[i]
  {
    assert ss[..i + 1] == ss[..i] + [ss[i]];
    JoinAppend(ss[..i], ss[i]);
    JoinPrefix(ss, i + 1);
    var j := Join(ss[..i + 1]);
    assert j == Join(ss[..i]) + ss[i];
    assert Join(ss)[..|j|] == j;
    assert j[Offset(ss, i)..] == ss[i];
  }

  /** Offsets never decrease along the list. */
  lemma {:induction false} OffsetMonotone(ss: seq<string>, i: nat, j: nat)
    requires i <= j <= |ss|
    ensures Offset(ss, i) <= Offset(ss, j)
    decreases j - i
  {
    if i < j {
      PieceAt(ss, i);
      OffsetMonotone(ss, i + 1, j);
    }
  }

  /** An earlier piece ends no later than a later piece starts: pieces neither overlap nor swap. */
  lemma PiecesInOrder(ss: seq<string>, i: nat, j: nat)
    requires i < j <= |ss|
    ensures Offset(ss, i) + |ss[i]| <= Offset(ss, j)
  {
    PieceAt(ss, i);
    OffsetMonotone(ss, i + 1, j);
  }

  /** The joined text is exactly as long as all the pieces together. */
  lemma {:induction false} JoinLength(ss: seq<string>)
    ensures |Join(ss)| == TotalLength(ss)
    decreases |ss|
  {
    if ss != [] {
      JoinLength(ss[1..]);
      JoinFront(ss);
    }
  }

  /** Joining can also be read from the front: the first piece, then the rest joined. */
  lemma {:induction false} JoinFront(ss: seq<string>)
    requires ss != []
    ensures Join(ss) == ss[0] + Join(ss[1..])
    decreases |ss|
  {
    if |ss| > 1 {
      var init := ss[..|ss| - 1];
      JoinFront(init);
      assert init[1..] == ss[1..][..|ss[1..]| - 1];
      assert ss[1..][|ss[1..]| - 1] == ss[|ss| - 1];
    } else {
      assert ss[..0] == [];
      assert ss[1..] == [];
    }
  }

  /** Two pieces join to their concatenation. */
  lemma JoinTwo(s: string, t: string)
    ensures Join([s, t]) == s + t
  {
    assert [s, t][..1] == [s];
    assert [s][..0] == [];
    assert Join([s]) == [] + s == s;
  }

  /** A slice of a slice is a slice of the whole. */
  lemma SliceOfSlice(s: string, lo: nat, hi: nat, i: nat, j: nat)
    requires lo <= hi <= |s| && i <= j <= hi - lo
    ensures s[lo..hi][i..j] == s[lo + i..lo + j]
  {
    forall k | 0 <= k < j - i ensures s[lo..hi][i..j][k] == s[lo + i..lo + j][k] {
      assert s[lo..hi][i..j][k] == s[lo..hi][i + k] == s[lo + i + k];
    }
  }
}
