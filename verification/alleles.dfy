/** Allele canonicalisation of Scripts/compare.py: `map_alleles` (flip to
    the strand that carries A, then order the pair), `map_column` (the
    strand-independent variant identifier built from it) and
    `filter_invalid_alleles`. */
module Alleles {
  import opened Wrappers
  import opened Strings
  import opened Seqs
  import Utils

  // ---------------------------------------------------------------------
  // map_alleles
  // ---------------------------------------------------------------------

  /** `allele_dict`: T, C and G onto their complement; anything else is a
      `KeyError`. */
  function Complement(c: char): (r: Option<char>)
    ensures r.Some? <==> c in {'T', 'C', 'G'}
  {
    if c == 'T' then Some('A')
    else if c == 'C' then Some('G')
    else if c == 'G' then Some('C')
    else None
  }

  /** A character the flip accepts once upper-cased. */
  predicate Flippable(c: char)
  {
    Upper(c) in {'T', 'C', 'G'}
  }

  /** `''.join([allele_dict[elem.upper()] for elem in s])`. */
  function FlipStrand(s: string): (r: Option<string>)
    ensures r.Some? <==> forall i :: 0 <= i < |s| ==> Flippable(s[i])
    ensures r.Some? ==> |r.value| == |s|
    ensures r.Some? ==> forall i :: 0 <= i < |s| ==> Complement(Upper(s[i])) == Some(r.value[i])
  {
    if |s| == 0 then Some("")
    else
      var c :- Complement(Upper(s[0]));
      var rest :- FlipStrand(s[1..]);
      assert forall i :: 1 <= i < |s| ==> s[i] == s[1..][i - 1];
      Some([c] + rest)
  }

  /** `'A' in a1 + a2 or 'a' in a1 + a2`: the pair is already on the A strand. */
  predicate OnAStrand(a1: string, a2: string)
  {
    'A' in a1 + a2 || 'a' in a1 + a2
  }

  /** `sorted([a1, a2])`. */
  function SortPair(a1: string, a2: string): (r: (string, string))
    ensures LexLe(r.0, r.1)
    ensures r == (a1, a2) || r == (a2, a1)
  {
    LexLeTotal(a1, a2);
    if LexLess(a2, a1) then (a2, a1) else (a1, a2)
  }

  /** `map_alleles`: pairs without A are flipped base by base (a base other
      than T, C or G is a `KeyError`), then the two alleles are ordered. */
  function MapAlleles(a1: string, a2: string): (r: Option<(string, string)>)
    ensures OnAStrand(a1, a2) ==> r == Some(SortPair(a1, a2))
    ensures r.None? <==> !OnAStrand(a1, a2) && !(FlipStrand(a1).Some? && FlipStrand(a2).Some?)
    ensures !OnAStrand(a1, a2) && r.Some? ==>
      FlipStrand(a1).Some? && FlipStrand(a2).Some? && r.value == SortPair(FlipStrand(a1).value, FlipStrand(a2).value)
    ensures r.Some? ==> LexLe(r.value.0, r.value.1)
    ensures r.Some? ==> (|r.value.0| == |a1| && |r.value.1| == |a2|) || (|r.value.0| == |a2| && |r.value.1| == |a1|)
  {
    if OnAStrand(a1, a2) then Some(SortPair(a1, a2))
    else
      var f1 :- FlipStrand(a1);
      var f2 :- FlipStrand(a2);
      Some(SortPair(f1, f2))
  }

  lemma SortPairSymmetric(a: string, b: string)
    ensures SortPair(a, b) == SortPair(b, a)
  {
    if a != b {
      LexLeTotal(a, b);
      if LexLe(a, b) && LexLe(b, a) {
        LexLeAntisymmetric(a, b);
      }
    }
  }

  lemma SortPairSorted(a: string, b: string)
    requires LexLe(a, b)
    ensures SortPair(a, b) == (a, b)
  {
    if LexLess(b, a) {
      LexLeAntisymmetric(a, b);
    }
  }

  lemma ContainsConcatSwap(a: string, b: string, c: char)
    ensures c in a + b <==> c in b + a
  {
    if c in a + b {
      var i :| 0 <= i < |a + b| && (a + b)[i] == c;
      if i < |a| {
        assert (b + a)[|b| + i] == c;
      } else {
        assert (b + a)[i - |a|] == c;
      }
    }
    if c in b + a {
      var i :| 0 <= i < |b + a| && (b + a)[i] == c;
      if i < |b| {
        assert (a + b)[|a| + i] == c;
      } else {
        assert (a + b)[i - |b|] == c;
      }
    }
  }

  /** The canonical pair does not depend on which allele is called the
      reference. */
  lemma MapAllelesSymmetric(a1: string, a2: string)
    ensures MapAlleles(a1, a2) == MapAlleles(a2, a1)
  {
    ContainsConcatSwap(a1, a2, 'A');
    ContainsConcatSwap(a1, a2, 'a');
    SortPairSymmetric(a1, a2);
    if !OnAStrand(a1, a2) && FlipStrand(a1).Some? && FlipStrand(a2).Some? {
      SortPairSymmetric(FlipStrand(a1).value, FlipStrand(a2).value);
    }
  }

  /** Some base of the pair is A, a, T or t. */
  predicate HasAOrT(a1: string, a2: string)
  {
    OnAStrand(a1, a2) || 'T' in a1 + a2 || 't' in a1 + a2
  }

  /** A flipped T is an A. */
  lemma FlippedTIsA(s: string)
    requires FlipStrand(s).Some?
    requires 'T' in s || 't' in s
    ensures 'A' in FlipStrand(s).value
  {
    var i :| 0 <= i < |s| && (s[i] == 'T' || s[i] == 't');
    assert FlipStrand(s).value[i] == 'A';
  }

  lemma InConcat(a: string, b: string, c: char)
    ensures c in a + b <==> c in a || c in b
  {
    if c in a + b {
      var i :| 0 <= i < |a + b| && (a + b)[i] == c;
      if i >= |a| {
        assert b[i - |a|] == c;
      }
    }
    if c in b {
      var i :| 0 <= i < |b| && b[i] == c;
      assert (a + b)[|a| + i] == c;
    }
  }

  /** Canonicalising a canonical pair changes nothing whenever the pair has
      an A or a T: the result then lies on the A strand. */
  lemma MapAllelesIdempotent(a1: string, a2: string)
    requires HasAOrT(a1, a2)
    requires MapAlleles(a1, a2).Some?
    ensures var r := MapAlleles(a1, a2).value; MapAlleles(r.0, r.1) == MapAlleles(a1, a2)
  {
    var r := MapAlleles(a1, a2).value;
    InConcat(a1, a2, 'A');
    InConcat(a1, a2, 'a');
    InConcat(a1, a2, 'T');
    InConcat(a1, a2, 't');
    InConcat(r.0, r.1, 'A');
    InConcat(r.0, r.1, 'a');
    if !OnAStrand(a1, a2) {
      var f1, f2 := FlipStrand(a1).value, FlipStrand(a2).value;
      if 'T' in a1 || 't' in a1 {
        FlippedTIsA(a1);
      } else {
        FlippedTIsA(a2);
      }
      assert 'A' in f1 || 'A' in f2;
    }
    assert OnAStrand(r.0, r.1);
    SortPairSorted(r.0, r.1);
  }

  /** `s` upper-cased (ASCII). */
  function UpperString(s: string): (r: string)
    ensures |r| == |s| && forall i :: 0 <= i < |s| ==> r[i] == Upper(s[i])
  {
    if |s| == 0 then "" else [Upper(s[0])] + UpperString(s[1..])
  }

  /** Only the bases C and G, in either case. */
  predicate OnlyCG(s: string)
  {
    forall i :: 0 <= i < |s| ==> Upper(s[i]) in {'C', 'G'}
  }

  /** On C/G-only alleles the flip is an involution up to upper-casing. */
  lemma FlipTwiceCG(s: string)
    requires OnlyCG(s)
    ensures FlipStrand(s).Some? && OnlyCG(FlipStrand(s).value)
    ensures FlipStrand(FlipStrand(s).value) == Some(UpperString(s))
  {
    assert forall i :: 0 <= i < |s| ==> Flippable(s[i]);
    var t := FlipStrand(s).value;
    forall i | 0 <= i < |t|
      ensures Upper(t[i]) == t[i] && t[i] in {'C', 'G'}
    {
      FlipCG(s[i], t[i]);
    }
    var u := FlipStrand(t).value;
    forall i | 0 <= i < |s|
      ensures u[i] == UpperString(s)[i]
    {
      FlipCG(s[i], t[i]);
    }
  }

  /** One C/G character flipped twice comes back upper-cased. */
  lemma FlipCG(c: char, d: char)
    requires Upper(c) in {'C', 'G'}
    requires Complement(Upper(c)) == Some(d)
    ensures d in {'C', 'G'} && Upper(d) == d && Complement(d) == Some(Upper(c))
  {
  }

  /** A pair of C/G-only alleles is not a fixed point: a second application
      flips it back to the upper-cased original pair. */
  lemma MapAllelesFlipsBackCG(a1: string, a2: string)
    requires OnlyCG(a1) && OnlyCG(a2)
    ensures MapAlleles(a1, a2).Some?
    ensures var r := MapAlleles(a1, a2).value;
      MapAlleles(r.0, r.1) == Some(SortPair(UpperString(a1), UpperString(a2)))
  {
    InConcat(a1, a2, 'A');
    InConcat(a1, a2, 'a');
    assert !OnAStrand(a1, a2);
    FlipTwiceCG(a1);
    FlipTwiceCG(a2);
    var f1, f2 := FlipStrand(a1).value, FlipStrand(a2).value;
    var r := MapAlleles(a1, a2).value;
    assert r == SortPair(f1, f2);
    InConcat(f1, f2, 'A');
    InConcat(f1, f2, 'a');
    assert !OnAStrand(f1, f2);
    SortPairSymmetric(f1, f2);
    SortPairSymmetric(UpperString(a1), UpperString(a2));
    assert MapAlleles(f1, f2) == Some(SortPair(UpperString(a1), UpperString(a2)));
    MapAllelesSymmetric(f1, f2);
  }

  /** Checks one flip by its characters. */
  lemma FlipExample(s: string, t: string)
    requires |s| == |t|
    requires forall i :: 0 <= i < |s| ==> Complement(Upper(s[i])) == Some(t[i])
    ensures FlipStrand(s) == Some(t)
  {
    var r := FlipStrand(s);
    assert r.Some?;
    assert r.value == t;
  }

  /** The pair C / CG is canonicalised to G / GC and back again. */
  lemma MapAllelesNotIdempotentExample()
    ensures MapAlleles("C", "CG") == Some(("G", "GC"))
    ensures MapAlleles("G", "GC") == Some(("C", "CG"))
  {
    FlipExample("C", "G");
    FlipExample("CG", "GC");
    FlipExample("G", "C");
    FlipExample("GC", "CG");
    assert LexLess("G", "GC");
    assert LexLess("C", "CG");
  }

  /** Characters outside A, C, G, T (in either case) in a pair without A
      make `map_alleles` raise. */
  lemma MapAllelesRejectsUnknownBase()
    ensures MapAlleles("-", "T") == None
    ensures MapAlleles("N", "C") == None
  {
    assert !Flippable('-');
    assert !Flippable('N');
  }

  // ---------------------------------------------------------------------
  // map_column
  // ---------------------------------------------------------------------

  /** The identifier `map_column` gives one variant: its alleles
      canonicalised, then formatted as by `create_variant_column`. */
  function CanonicalId(v: Utils.Variant): (r: Option<string>)
    ensures r.Some? <==> MapAlleles(v.ref, v.alt).Some?
  {
    var pair :- MapAlleles(v.ref, v.alt);
    Some(Utils.VariantId(Utils.Variant(v.chrom, v.pos, pair.0, pair.1)))
  }

  /** The canonical identifier splits back into the variant's chromosome,
      its position as text and the A-strand allele pair, in order. */
  lemma CanonicalIdParsesBack(v: Utils.Variant)
    requires MapAlleles(v.ref, v.alt).Some?
    requires var p := MapAlleles(v.ref, v.alt).value; Utils.Parsable(Utils.Variant(v.chrom, v.pos, p.0, p.1))
    ensures var p := MapAlleles(v.ref, v.alt).value;
      Utils.ParseVariantId(CanonicalId(v).value) == Some([v.chrom, IntToString(v.pos), p.0, p.1])
  {
    var p := MapAlleles(v.ref, v.alt).value;
    Utils.ParseVariantIdInverse(Utils.Variant(v.chrom, v.pos, p.0, p.1));
  }

  /** `map_column`: the canonical identifier of every row; an empty table
      stays empty, and one unmappable row makes the whole call raise. */
  function MapColumn(rows: seq<Utils.Variant>): (r: Option<seq<string>>)
    ensures r.Some? <==> forall i :: 0 <= i < |rows| ==> CanonicalId(rows[i]).Some?
    ensures r.Some? ==> |r.value| == |rows|
    ensures r.Some? ==> forall i :: 0 <= i < |rows| ==> Some(r.value[i]) == CanonicalId(rows[i])
  {
    if |rows| == 0 then Some([])
    else
      var head, rest := CanonicalId(rows[0]), MapColumn(rows[1..]);
      assert forall j :: 0 <= j < |rows| - 1 ==> rows[1..][j] == rows[j + 1];
      if head.None? || rest.None? then None
      else
        var r := [head.value] + rest.value;
        assert forall j :: 0 <= j < |rows| - 1 ==> r[j + 1] == rest.value[j];
        Some(r)
  }

  /** Two variants with the same position and alleles in swapped roles get
      the same canonical identifier. */
  lemma CanonicalIdIgnoresOrientation(chrom: string, pos: int, ref: string, alt: string)
    ensures CanonicalId(Utils.Variant(chrom, pos, ref, alt)) == CanonicalId(Utils.Variant(chrom, pos, alt, ref))
  {
    MapAllelesSymmetric(ref, alt);
  }

  /** A reverse-strand report of an A/C variant (T/G) matches it. */
  lemma CanonicalIdStrandExample()
    ensures CanonicalId(Utils.Variant("1", 100, "T", "G")) == CanonicalId(Utils.Variant("1", 100, "A", "C"))
  {
    FlipExample("T", "A");
    FlipExample("G", "C");
    assert LexLess("A", "C");
    assert 'A' in "A" + "C";
  }

  // ---------------------------------------------------------------------
  // filter_invalid_alleles
  // ---------------------------------------------------------------------

  predicate IsBase(c: char)
  {
    c in {'a', 'c', 'g', 't', 'A', 'C', 'G', 'T'}
  }

  predicate AllBases(s: string)
  {
    |s| > 0 && forall i :: 0 <= i < |s| ==> IsBase(s[i])
  }

  /** `re.match('^[acgtACGT]+$', s)`: one or more bases, where Python's `$`
      also accepts a single newline ending the string. */
  function MatchesBases(s: string): (m: bool)
    ensures m <==> |s| > 0 && IsBase(s[0]) && forall i :: 0 <= i < |s| ==> IsBase(s[i]) || (i == |s| - 1 && s[i] == '\n')
  {
    AllBases(s) || (|s| >= 2 && s[|s| - 1] == '\n' && AllBases(s[..|s| - 1]))
  }

  /** `filter_invalid_alleles` as written: the second mask re-tests the
      reference allele, so the alternative allele is never checked. */
  function FilterInvalidAllelesAsWritten(rows: seq<Utils.Variant>): (r: seq<Utils.Variant>)
    ensures forall v :: v in r <==> v in rows && MatchesBases(v.ref)
  {
    Filter(rows, (v: Utils.Variant) => MatchesBases(v.ref) && MatchesBases(v.ref))
  }

  /** `filter_invalid_alleles` as its documentation intends: both alleles
      must consist of bases. */
  function FilterInvalidAlleles(rows: seq<Utils.Variant>): (r: seq<Utils.Variant>)
    ensures forall v :: v in r <==> v in rows && MatchesBases(v.ref) && MatchesBases(v.alt)
  {
    Filter(rows, (v: Utils.Variant) => MatchesBases(v.ref) && MatchesBases(v.alt))
  }

  /** Both filters keep the input order: filtering a concatenation filters
      each part. */
  lemma FilterInvalidAllelesOrdered(a: seq<Utils.Variant>, b: seq<Utils.Variant>)
    ensures FilterInvalidAlleles(a + b) == FilterInvalidAlleles(a) + FilterInvalidAlleles(b)
    ensures FilterInvalidAllelesAsWritten(a + b) == FilterInvalidAllelesAsWritten(a) + FilterInvalidAllelesAsWritten(b)
  {
    FilterConcat(a, b, (v: Utils.Variant) => MatchesBases(v.ref) && MatchesBases(v.alt));
    FilterConcat(a, b, (v: Utils.Variant) => MatchesBases(v.ref) && MatchesBases(v.ref));
  }

  /** A deletion written with '-' as its alternative allele passes the
      filter as written, and is removed by the intended one. */
  lemma FilterInvalidAllelesMissesAlt()
    ensures FilterInvalidAllelesAsWritten([Utils.Variant("1", 100, "A", "-")]) == [Utils.Variant("1", 100, "A", "-")]
    ensures FilterInvalidAlleles([Utils.Variant("1", 100, "A", "-")]) == []
  {
    var v := Utils.Variant("1", 100, "A", "-");
    assert MatchesBases("A") by {
      assert IsBase("A"[0]);
    }
    assert !MatchesBases("-") by {
      assert !IsBase("-"[0]);
    }
    FilterAllOrNone([v], (v: Utils.Variant) => MatchesBases(v.ref) && MatchesBases(v.ref));
    FilterAllOrNone([v], (v: Utils.Variant) => MatchesBases(v.ref) && MatchesBases(v.alt));
  }

  /** Python's `$` lets a trailing newline through. */
  lemma MatchesBasesTrailingNewline()
    ensures MatchesBases("ACG\n")
    ensures !MatchesBases("\n")
    ensures !MatchesBases("")
  {
    assert "ACG\n"[..3] == "ACG";
    assert AllBases("ACG") by {
      assert IsBase("ACG"[0]) && IsBase("ACG"[1]) && IsBase("ACG"[2]);
    }
    assert !AllBases("\n") by {
      assert !IsBase("\n"[0]);
    }
  }
}
