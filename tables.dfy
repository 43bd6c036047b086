/**
 The two constant lookup tables of the Cas9 composition analysis: the
 one-letter amino-acid catalog with its three-letter names, and the
 Kyte-Doolittle hydropathy scale. Scores are kept as exact integers in
 tenths (1.8 is 18, -3.5 is -35); every entry of the scale has one
 decimal place, so nothing is rounded.
 */
module Tables {

  /** The 20 standard one-letter residue codes and their three-letter names. */
  const Catalog: map<char, string> := map[
    'A' := "Ala", 'C' := "Cys", 'D' := "Asp", 'E' := "Glu", 'F' := "Phe",
    'G' := "Gly", 'H' := "His", 'I' := "Ile", 'K' := "Lys", 'L' := "Leu",
    'M' := "Met", 'N' := "Asn", 'P' := "Pro", 'Q' := "Gln", 'R' := "Arg",
    'S' := "Ser", 'T' := "Thr", 'V' := "Val", 'W' := "Trp", 'Y' := "Tyr"
  ]

  /** Kyte-Doolittle hydropathy, in tenths. */
  const Hydropathy: map<char, int> := map[
    'A' := 18,  'C' := 25,  'D' := -35, 'E' := -35, 'F' := 28,
    'G' := -4,  'H' := -32, 'I' := 45,  'K' := -39, 'L' := 38,
    'M' := 19,  'N' := -35, 'P' := -16, 'Q' := -35, 'R' := -45,
    'S' := -8,  'T' := -7,  'V' := 42,  'W' := -9,  'Y' := -13
  ]

  /** The codes written out, in the catalog's order. */
  const Codes: seq<char> := "ACDEFGHIKLMNPQRSTVWY"

  /** The codes whose hydropathy is not negative. */
  const HydrophobicCodes: set<char> := {'A', 'C', 'F', 'I', 'L', 'M', 'V'}

  /** A character survives the residue filter exactly when it is a catalog key. */
  predicate IsResidue(c: char)
  {
    c in Catalog
  }

  /** The hydropathy score of a code the scale knows. */
  function Score(c: char): int
    requires c in Hydropathy
  {
    Hydropathy[c]
  }

  /** The catalog holds exactly the 20 listed codes, no two alike. */
  lemma CatalogIsTheTwentyCodes()
    ensures forall c :: IsResidue(c) <==> c in Codes
    ensures |Codes| == 20
    ensures forall i, j :: 0 <= i < j < |Codes| ==> Codes[i] != Codes[j]
  {
  }

  /**
   Both tables have the same keys, so every lookup of a filtered residue,
   in the name table or in the hydropathy scale, is defined.
   */
  lemma TablesShareKeys()
    ensures Catalog.Keys == Hydropathy.Keys
    ensures forall c :: IsResidue(c) <==> c in Hydropathy
  {
  }

  /** Membership is case-sensitive: no lower-case letter is a residue code. */
  lemma LowercaseIsNotResidue(c: char)
    requires 'a' <= c <= 'z'
    ensures !IsResidue(c)
  {
  }

  /**
   The sign of the scale splits the catalog into seven hydrophobic codes and
   thirteen hydrophilic ones; no entry is exactly zero.
   */
  lemma HydrophobicCodesAreNonNegative(c: char)
    requires c in Hydropathy
    ensures Score(c) >= 0 <==> c in HydrophobicCodes
    ensures Score(c) != 0
  {
  }
}
