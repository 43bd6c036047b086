/**
 The script's analysis from the raw text to the three derived datasets:
 strip, filter, count, partition. Reading the file and drawing the two
 charts are left to the caller; `raw` stands for the file's contents.
 */
module Pipeline {
  import opened Tables
  import opened Classifier
  import opened Partitioner

  /** Runs the four steps in the script's order and returns what the charts are drawn from. */
  method Analyze(raw: seq<char>)
    returns (sequence: seq<char>, counts: map<char, nat>, hydrophobic: seq<int>, hydrophilic: seq<int>)
    ensures sequence == Filtered(raw)
    ensures |sequence| <= |raw|
    ensures forall k :: 0 <= k < |sequence| ==> IsResidue(sequence[k])
    ensures forall c :: c in counts ==> IsResidue(c) && counts[c] == multiset(sequence)[c] >= 1
    ensures forall c :: IsResidue(c) ==> (c in counts <==> c in multiset(raw))
    ensures Total(counts) == |sequence|
    ensures hydrophobic == Hydrophobic(sequence) && hydrophilic == Hydrophilic(sequence)
    ensures |hydrophobic| + |hydrophilic| == |sequence|
    ensures forall k :: 0 <= k < |hydrophobic| ==> hydrophobic[k] >= 0
    ensures forall k :: 0 <= k < |hydrophilic| ==> hydrophilic[k] < 0
  {
    var seqChars := Strip(raw);
    sequence := Filter(seqChars);
    StripIsInvisibleToFilter(raw);
    counts := Count(sequence);
    forall c | IsResidue(c) ensures c in counts <==> c in multiset(raw) {
      FilteredOccurrences(raw, c);
    }
    TablesShareKeys();
    hydrophobic, hydrophilic := Partition(sequence);
  }

  /** A run of valid codes is kept whole. */
  lemma ScenarioPlainResidues()
    ensures Filtered("AACG") == "AACG"
  {
    assert IsResidue('A') && IsResidue('C') && IsResidue('G');
    FilteredOfResidues("AACG");
  }

  /** Counting "AACG" gives A:2, C:1, G:1. */
  lemma ScenarioPlainCounts()
    ensures Tally("AACG") == map['A' := 2, 'C' := 1, 'G' := 1]
  {
    assert "AACG"[..3] == "AAC";
    assert "AAC"[..2] == "AA";
    assert "AA"[..1] == "A";
    assert Tally("A") == map['A' := 1];
    assert Tally("AA") == map['A' := 2];
    assert Tally("AAC") == map['A' := 2, 'C' := 1];
  }

  /** Of "XYZ123" only 'Y' (tyrosine) is a catalog code. */
  lemma ScenarioMostlyInvalid()
    ensures Filtered("XYZ123") == "Y"
  {
    assert !IsResidue('X') && IsResidue('Y') && !IsResidue('Z');
    assert !IsResidue('1') && !IsResidue('2') && !IsResidue('3');
    FilteredAppend("XY", "Z123");
    FilteredOfNonResidues("Z123");
    FilteredAppend("X", "Y");
    FilteredOfNonResidues("X");
    assert "XYZ123" == "XY" + "Z123";
    assert "XY" == "X" + "Y";
  }

  /** Tyrosine scores -1.3, so it is counted once and goes to the hydrophilic bucket. */
  lemma ScenarioTyrosine()
    ensures Tally("Y") == map['Y' := 1]
    ensures Hydrophobic("Y") == [] && Hydrophilic("Y") == [-13]
  {
  }

  /** Padding whitespace is stripped. */
  lemma ScenarioPaddedStrip()
    ensures Strip("  AI ") == "AI"
  {
    assert IsSpace(' ') && !IsSpace('A') && !IsSpace('I');
    assert "  AI " == "  " + "AI" + " ";
    StripRemovesPadding("  ", "AI", " ");
  }

  /** After stripping, alanine and isoleucine are the residues kept. */
  lemma ScenarioPadded()
    ensures Filtered("  AI ") == "AI"
  {
    assert IsResidue('A') && IsResidue('I');
    FilteredOfResidues("AI");
    ScenarioPaddedStrip();
    StripIsInvisibleToFilter("  AI ");
  }

  /** Alanine (1.8) and isoleucine (4.5) both go to the hydrophobic bucket. */
  lemma ScenarioHydrophobicPair()
    ensures Hydrophobic("AI") == [18, 45] && Hydrophilic("AI") == []
  {
    assert "AI"[..1] == "A";
  }

  /** Aspartate alone: one entry, in the hydrophilic bucket. */
  lemma ScenarioSingleAspartate()
    ensures Filtered("D") == "D"
    ensures Hydrophobic("D") == [] && Hydrophilic("D") == [-35]
  {
  }

  /** Lower-case input is dropped, not upper-cased. */
  lemma ScenarioLowercase(s: seq<char>)
    requires forall i :: 0 <= i < |s| ==> 'a' <= s[i] <= 'z'
    ensures Filtered(s) == [] && Tally(Filtered(s)) == map[]
  {
    forall i | 0 <= i < |s| ensures !IsResidue(s[i]) {
      LowercaseIsNotResidue(s[i]);
    }
    FilteredOfNonResidues(s);
  }
}
