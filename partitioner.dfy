/**
 The hydropathy partitioner: each filtered residue, in order, is looked up
 in the hydropathy scale, and its score goes to the hydrophobic bucket when
 it is at least zero and to the hydrophilic bucket otherwise. There is one
 entry per occurrence, never one per distinct code.
 */
module Partitioner {
  import opened Tables

  /** Every residue of `s` has a hydropathy score, so the lookup never fails. */
  predicate Scored(s: seq<char>)
  {
    forall i :: 0 <= i < |s| ==> s[i] in Hydropathy
  }

  /** The score of every residue of `s`, in order. */
  function Scores(s: seq<char>): (r: seq<int>)
    requires Scored(s)
    ensures |r| == |s|
    ensures forall i :: 0 <= i < |s| ==> r[i] == Hydropathy[s[i]]
  {
    if s == [] then [] else Scores(s[..|s| - 1]) + [Score(s[|s| - 1])]
  }

  /** The hydrophobic bucket: the non-negative scores, one per occurrence, in order. */
  function Hydrophobic(s: seq<char>): (r: seq<int>)
    requires Scored(s)
    ensures |r| <= |s|
    ensures forall k :: 0 <= k < |r| ==> r[k] >= 0
  {
    if s == [] then []
    else
      var v := Score(s[|s| - 1]);
      Hydrophobic(s[..|s| - 1]) + (if v >= 0 then [v] else [])
  }

  /** The hydrophilic bucket: the negative scores, one per occurrence, in order. */
  function Hydrophilic(s: seq<char>): (r: seq<int>)
    requires Scored(s)
    ensures |r| <= |s|
    ensures forall k :: 0 <= k < |r| ==> r[k] < 0
  {
    if s == [] then []
    else
      var v := Score(s[|s| - 1]);
      Hydrophilic(s[..|s| - 1]) + (if v >= 0 then [] else [v])
  }

  /** The partition loop: appends each residue's score to the bucket its sign selects. */
  method Partition(sequence: seq<char>) returns (hydrophobic: seq<int>, hydrophilic: seq<int>)
    requires Scored(sequence)
    ensures hydrophobic == Hydrophobic(sequence)
    ensures hydrophilic == Hydrophilic(sequence)
    ensures |hydrophobic| + |hydrophilic| == |sequence|
  {
    hydrophobic, hydrophilic := [], [];
    var i := 0;
    while i < |sequence|
      invariant 0 <= i <= |sequence|
      invariant hydrophobic == Hydrophobic(sequence[..i])
      invariant hydrophilic == Hydrophilic(sequence[..i])
    {
      var aa := sequence[i];
      if Hydropathy[aa] >= 0 {
        hydrophobic := hydrophobic + [Hydropathy[aa]];
      } else {
        hydrophilic := hydrophilic + [Hydropathy[aa]];
      }
      assert sequence[..i + 1][..i] == sequence[..i];
      i := i + 1;
    }
    assert sequence[..i] == sequence;
    PartitionConservesLength(sequence);
  }

  /** Every occurrence lands in exactly one bucket. */
  lemma {:induction false} PartitionConservesLength(s: seq<char>)
    requires Scored(s)
    ensures |Hydrophobic(s)| + |Hydrophilic(s)| == |s|
  {
    if s != [] {
      PartitionConservesLength(s[..|s| - 1]);
    }
  }

  /** Together the buckets hold exactly the residues' scores: none lost, none invented. */
  lemma {:induction false} PartitionKeepsScores(s: seq<char>)
    requires Scored(s)
    ensures multiset(Hydrophobic(s)) + multiset(Hydrophilic(s)) == multiset(Scores(s))
  {
    if s != [] {
      PartitionKeepsScores(s[..|s| - 1]);
    }
  }

  /** The buckets keep sequence order: partitioning a concatenation concatenates the buckets. */
  lemma {:induction false} PartitionAppend(a: seq<char>, b: seq<char>)
    requires Scored(a) && Scored(b)
    ensures Scored(a + b)
    ensures Hydrophobic(a + b) == Hydrophobic(a) + Hydrophobic(b)
    ensures Hydrophilic(a + b) == Hydrophilic(a) + Hydrophilic(b)
    decreases |b|
  {
    if b == [] {
      assert a + b == a;
    } else {
      var b' := b[..|b| - 1];
      assert (a + b)[..|a + b| - 1] == a + b';
      assert (a + b)[|a + b| - 1] == b[|b| - 1];
      PartitionAppend(a, b');
    }
  }

  /** The positions of `s` that hold one of the seven hydrophobic codes. */
  function HydrophobicPositions(s: seq<char>): set<nat>
  {
    set i: nat | i < |s| && s[i] in HydrophobicCodes
  }

  /** The positions of `s` that hold any other character. */
  function HydrophilicPositions(s: seq<char>): set<nat>
  {
    set i: nat | i < |s| && s[i] !in HydrophobicCodes
  }

  /** Appending one character adds its position to exactly one of the two position sets. */
  lemma PositionsGrow(s: seq<char>)
    requires s != []
    ensures var n := |s| - 1;
      && HydrophobicPositions(s) == HydrophobicPositions(s[..n]) + (if s[n] in HydrophobicCodes then {n} else {})
      && HydrophilicPositions(s) == HydrophilicPositions(s[..n]) + (if s[n] in HydrophobicCodes then {} else {n})
  {
    var n := |s| - 1;
    assert forall i :: 0 <= i < n ==> s[..n][i] == s[i];
  }

  /**
   The hydrophobic bucket holds one entry for each occurrence of the seven
   hydrophobic codes, and the hydrophilic bucket one for each occurrence of
   the other thirteen.
   */
  lemma {:induction false} BucketSizesByCode(s: seq<char>)
    requires Scored(s)
    ensures |Hydrophobic(s)| == |HydrophobicPositions(s)|
    ensures |Hydrophilic(s)| == |HydrophilicPositions(s)|
  {
    if s != [] {
      var n := |s| - 1;
      BucketSizesByCode(s[..n]);
      HydrophobicCodesAreNonNegative(s[n]);
      PositionsGrow(s);
      assert n !in HydrophobicPositions(s[..n]);
      assert n !in HydrophilicPositions(s[..n]);
    }
  }
}
