/**
 The residue classifier: whitespace stripping of the raw text, the filter
 loop that keeps catalog codes in order, and the frequency count that
 `collections.Counter` builds from the filtered residues.
 */
module Classifier {
  import opened Tables

  // ---------------------------------------------------------------------
  // Stripping
  // ---------------------------------------------------------------------

  /** The characters Python's `str.strip()` removes (`str.isspace`). */
  predicate IsSpace(c: char)
  {
    || '\t' <= c <= '\r'
    || '\U{1C}' <= c <= '\U{1F}'
    || c == ' ' || c == '\U{85}' || c == '\U{A0}' || c == '\U{1680}'
    || '\U{2000}' <= c <= '\U{200A}'
    || c == '\U{2028}' || c == '\U{2029}' || c == '\U{202F}'
    || c == '\U{205F}' || c == '\U{3000}'
  }

  /** Drops the leading whitespace: what is left is a suffix of `s`. */
  function TrimStart(s: seq<char>): (r: seq<char>)
    ensures |r| <= |s| && r == s[|s| - |r|..]
    ensures forall i :: 0 <= i < |s| - |r| ==> IsSpace(s[i])
    ensures r == [] || !IsSpace(r[0])
  {
    if s != [] && IsSpace(s[0]) then TrimStart(s[1..]) else s
  }

  /** Drops the trailing whitespace: what is left is a prefix of `s`. */
  function TrimEnd(s: seq<char>): (r: seq<char>)
    ensures |r| <= |s| && r == s[..|r|]
    ensures forall i :: |r| <= i < |s| ==> IsSpace(s[i])
    ensures r == [] || !IsSpace(r[|r| - 1])
  {
    if s != [] && IsSpace(s[|s| - 1]) then TrimEnd(s[..|s| - 1]) else s
  }

  /**
   `str.strip()` with no argument: the result neither starts nor ends with
   whitespace; `StripIsSlice` says where in `s` it lies.
   */
  function Strip(s: seq<char>): (r: seq<char>)
    ensures |r| <= |s|
    ensures r == [] || (!IsSpace(r[0]) && !IsSpace(r[|r| - 1]))
  {
    var t := TrimStart(s);
    TrimEnd(t)
  }

  /** A prefix of a suffix of `s` is a slice of `s`, and what follows it in `s` follows it in the suffix. */
  lemma SliceOfSuffix(s: seq<char>, t: seq<char>, u: seq<char>)
    requires |t| <= |s| && t == s[|s| - |t|..]
    requires |u| <= |t| && u == t[..|u|]
    ensures |s| - |t| + |u| <= |s| && u == s[|s| - |t|..|s| - |t| + |u|]
    ensures forall i :: |s| - |t| + |u| <= i < |s| ==> s[i] == t[i - (|s| - |t|)]
  {
  }

  /**
   What `Strip` keeps is the slice of `s` that starts after the leading
   whitespace, and everything of `s` outside that slice is whitespace.
   */
  lemma StripIsSlice(s: seq<char>)
    ensures var k, r := |s| - |TrimStart(s)|, Strip(s);
      && k + |r| <= |s| && r == s[k..k + |r|]
      && (forall i :: 0 <= i < k ==> IsSpace(s[i]))
      && (forall i :: k + |r| <= i < |s| ==> IsSpace(s[i]))
  {
    var t := TrimStart(s);
    SliceOfSuffix(s, t, TrimEnd(t));
  }

  /** Leading whitespace in front of a part that does not start with whitespace is dropped. */
  lemma {:induction false} TrimStartDropsLead(lead: seq<char>, rest: seq<char>)
    requires forall i :: 0 <= i < |lead| ==> IsSpace(lead[i])
    requires rest == [] || !IsSpace(rest[0])
    ensures TrimStart(lead + rest) == rest
  {
    if lead == [] {
      assert lead + rest == rest;
    } else {
      assert (lead + rest)[1..] == lead[1..] + rest;
      TrimStartDropsLead(lead[1..], rest);
    }
  }

  /** Trailing whitespace behind a part that does not end with whitespace is dropped. */
  lemma {:induction false} TrimEndDropsTrail(rest: seq<char>, trail: seq<char>)
    requires forall i :: 0 <= i < |trail| ==> IsSpace(trail[i])
    requires rest == [] || !IsSpace(rest[|rest| - 1])
    ensures TrimEnd(rest + trail) == rest
    decreases |trail|
  {
    if trail == [] {
      assert rest + trail == rest;
    } else {
      var n := |trail| - 1;
      assert (rest + trail)[..|rest + trail| - 1] == rest + trail[..n];
      TrimEndDropsTrail(rest, trail[..n]);
    }
  }

  /**
   Stripping returns exactly the part between the whitespace padding, when
   that part neither starts nor ends with whitespace.
   */
  lemma StripRemovesPadding(lead: seq<char>, core: seq<char>, trail: seq<char>)
    requires forall i :: 0 <= i < |lead| ==> IsSpace(lead[i])
    requires forall i :: 0 <= i < |trail| ==> IsSpace(trail[i])
    requires core == [] || (!IsSpace(core[0]) && !IsSpace(core[|core| - 1]))
    ensures Strip(lead + core + trail) == core
  {
    if core == [] {
      assert lead + core + trail == lead + trail;
      forall i | 0 <= i < |lead + trail| ensures IsSpace((lead + trail)[i]) {
        if i >= |lead| {
          assert (lead + trail)[i] == trail[i - |lead|];
        }
      }
      TrimStartDropsLead(lead + trail, []);
      assert lead + trail + [] == lead + trail;
      TrimEndDropsTrail([], []);
    } else {
      assert lead + core + trail == lead + (core + trail);
      TrimStartDropsLead(lead, core + trail);
      TrimEndDropsTrail(core, trail);
    }
  }

  // ---------------------------------------------------------------------
  // Filtering
  // ---------------------------------------------------------------------

  /** The residues among `s`, in order: what the filter loop appends. */
  function Filtered(s: seq<char>): (r: seq<char>)
    ensures |r| <= |s|
    ensures forall k :: 0 <= k < |r| ==> IsResidue(r[k])
  {
    if s == [] then []
    else
      var c := s[|s| - 1];
      Filtered(s[..|s| - 1]) + (if IsResidue(c) then [c] else [])
  }

  /** The filter loop: walks the raw characters and appends each catalog key. */
  method Filter(raw: seq<char>) returns (sequence: seq<char>)
    ensures sequence == Filtered(raw)
  {
    sequence := [];
    var i := 0;
    while i < |raw|
      invariant 0 <= i <= |raw|
      invariant sequence == Filtered(raw[..i])
    {
      var aa := raw[i];
      if IsResidue(aa) {
        sequence := sequence + [aa];
      }
      assert raw[..i + 1][..i] == raw[..i];
      i := i + 1;
    }
    assert raw[..i] == raw;
  }

  /** Filtering distributes over concatenation: each part keeps its own residues, in order. */
  lemma {:induction false} FilteredAppend(a: seq<char>, b: seq<char>)
    ensures Filtered(a + b) == Filtered(a) + Filtered(b)
    decreases |b|
  {
    if b == [] {
      assert a + b == a;
    } else {
      var b' := b[..|b| - 1];
      assert (a + b)[..|a + b| - 1] == a + b';
      FilteredAppend(a, b');
    }
  }

  /** A character that is not a residue contributes nothing. */
  lemma {:induction false} FilteredOfNonResidues(s: seq<char>)
    requires forall i :: 0 <= i < |s| ==> !IsResidue(s[i])
    ensures Filtered(s) == []
  {
    if s != [] {
      FilteredOfNonResidues(s[..|s| - 1]);
    }
  }

  /** A sequence of residues passes the filter unchanged, so filtering twice is filtering once. */
  lemma {:induction false} FilteredOfResidues(s: seq<char>)
    requires forall i :: 0 <= i < |s| ==> IsResidue(s[i])
    ensures Filtered(s) == s
  {
    if s != [] {
      FilteredOfResidues(s[..|s| - 1]);
    }
  }

  lemma FilteredIdempotent(s: seq<char>)
    ensures Filtered(Filtered(s)) == Filtered(s)
  {
    FilteredOfResidues(Filtered(s));
  }

  /**
   Exactly the catalog characters survive: each residue code occurs in the
   filtered sequence as often as in the input, and no other character occurs.
   */
  lemma {:induction false} FilteredOccurrences(s: seq<char>, c: char)
    ensures multiset(Filtered(s))[c] == if IsResidue(c) then multiset(s)[c] else 0
  {
    if s != [] {
      var p, x := s[..|s| - 1], s[|s| - 1];
      FilteredOccurrences(p, c);
      assert s == p + [x];
    }
  }

  /**
   The positions of `s` that the filter keeps, in increasing order: the
   k-th filtered residue is the character at the k-th kept position, and
   every residue position is kept.
   */
  ghost function RetainedPositions(s: seq<char>): (r: seq<nat>)
    ensures |r| == |Filtered(s)|
    ensures forall k :: 0 <= k < |r| ==> r[k] < |s| && Filtered(s)[k] == s[r[k]]
    ensures forall k, l :: 0 <= k < l < |r| ==> r[k] < r[l]
    ensures forall i :: 0 <= i < |s| && IsResidue(s[i]) ==> i in r
  {
    if s == [] then []
    else
      var n := |s| - 1;
      RetainedPositions(s[..n]) + (if IsResidue(s[n]) then [n] else [])
  }

  /** No whitespace character is a residue code. */
  lemma SpaceIsNotResidue(c: char)
    requires IsSpace(c)
    ensures !IsResidue(c)
  {
  }

  /** Filtering drops a run of whitespace completely. */
  lemma FilteredOfSpaces(s: seq<char>)
    requires forall i :: 0 <= i < |s| ==> IsSpace(s[i])
    ensures Filtered(s) == []
  {
    forall i | 0 <= i < |s| ensures !IsResidue(s[i]) {
      SpaceIsNotResidue(s[i]);
    }
    FilteredOfNonResidues(s);
  }

  /** Dropping leading whitespace does not change the filter's result. */
  lemma TrimStartIsInvisibleToFilter(s: seq<char>)
    ensures Filtered(TrimStart(s)) == Filtered(s)
  {
    var t := TrimStart(s);
    var lead := s[..|s| - |t|];
    assert s == lead + t;
    FilteredOfSpaces(lead);
    FilteredAppend(lead, t);
  }

  /** Dropping trailing whitespace does not change the filter's result. */
  lemma TrimEndIsInvisibleToFilter(s: seq<char>)
    ensures Filtered(TrimEnd(s)) == Filtered(s)
  {
    var u := TrimEnd(s);
    var tail := s[|u|..];
    assert s == u + tail;
    FilteredOfSpaces(tail);
    FilteredAppend(u, tail);
  }

  /** Stripping never changes the filter's result: whitespace is never a residue. */
  lemma StripIsInvisibleToFilter(s: seq<char>)
    ensures Filtered(Strip(s)) == Filtered(s)
  {
    TrimStartIsInvisibleToFilter(s);
    TrimEndIsInvisibleToFilter(TrimStart(s));
  }

  // ---------------------------------------------------------------------
  // Counting
  // ---------------------------------------------------------------------

  /**
   The map `Counter(s)` builds: each element, in order, bumps its count
   (starting from 0 when it is not yet a key).
   */
  function Tally(s: seq<char>): (r: map<char, nat>)
    ensures forall c :: c in r ==> c in s && r[c] >= 1
  {
    if s == [] then map[]
    else
      var m, c := Tally(s[..|s| - 1]), s[|s| - 1];
      m[c := (if c in m then m[c] else 0) + 1]
  }

  /** The sum of all values of a count map. */
  ghost function Total(m: map<char, nat>): nat
    decreases |m|
  {
    if m.Keys == {} then 0
    else
      var k :| k in m.Keys;
      assert |(m - {k}).Keys| == |m.Keys - {k}|;
      m[k] + Total(m - {k})
  }

  /** The sum does not depend on which key is taken first. */
  lemma {:induction false} TotalRemove(m: map<char, nat>, k: char)
    requires k in m
    ensures Total(m) == m[k] + Total(m - {k})
    decreases |m|
  {
    var j :| j in m.Keys && Total(m) == m[j] + Total(m - {j});
    if j != k {
      assert |(m - {j}).Keys| == |m.Keys - {j}|;
      assert |(m - {k}).Keys| == |m.Keys - {k}|;
      TotalRemove(m - {j}, k);
      TotalRemove(m - {k}, j);
      assert m - {j} - {k} == m - {k} - {j};
    }
  }

  /** Bumping one count raises the total by one. */
  lemma TotalBump(m: map<char, nat>, c: char)
    ensures Total(m[c := (if c in m then m[c] else 0) + 1]) == Total(m) + 1
  {
    var m' := m[c := (if c in m then m[c] else 0) + 1];
    TotalRemove(m', c);
    if c in m {
      TotalRemove(m, c);
      assert m' - {c} == m - {c};
    } else {
      assert m' - {c} == m;
    }
  }

  /**
   The count map is the multiset of the sequence: its keys are exactly the
   elements that occur, and each value is that element's number of
   occurrences, so no key has count zero.
   */
  lemma {:induction false} TallyIsOccurrences(s: seq<char>)
    ensures forall c :: c in Tally(s) <==> c in multiset(s)
    ensures forall c :: c in Tally(s) ==> Tally(s)[c] == multiset(s)[c] >= 1
  {
    if s != [] {
      var p, x := s[..|s| - 1], s[|s| - 1];
      TallyIsOccurrences(p);
      assert s == p + [x];
    }
  }

  /** The counts add up to the length of the counted sequence. */
  lemma {:induction false} TallyTotal(s: seq<char>)
    ensures Total(Tally(s)) == |s|
  {
    if s != [] {
      TallyTotal(s[..|s| - 1]);
      TotalBump(Tally(s[..|s| - 1]), s[|s| - 1]);
    }
  }

  /** Counting a filtered sequence yields only catalog codes as keys. */
  lemma TallyOfFilteredKeys(raw: seq<char>)
    ensures forall c :: c in Tally(Filtered(raw)) ==> IsResidue(c)
  {
    TallyIsOccurrences(Filtered(raw));
  }

  /** `Counter(sequence)`: one pass that bumps the count of each residue in turn. */
  method Count(sequence: seq<char>) returns (counts: map<char, nat>)
    ensures counts == Tally(sequence)
    ensures forall c :: c in counts <==> c in multiset(sequence)
    ensures forall c :: c in counts ==> counts[c] == multiset(sequence)[c] >= 1
    ensures Total(counts) == |sequence|
  {
    counts := map[];
    var i := 0;
    while i < |sequence|
      invariant 0 <= i <= |sequence|
      invariant counts == Tally(sequence[..i])
    {
      var aa := sequence[i];
      var n := if aa in counts then counts[aa] else 0;
      counts := counts[aa := n + 1];
      assert sequence[..i + 1][..i] == sequence[..i];
      i := i + 1;
    }
    assert sequence[..i] == sequence;
    TallyIsOccurrences(sequence);
    TallyTotal(sequence);
  }
}
