/** The pure steps of `extract_ld_variants` in Scripts/compare.py: when a
    locus is worth an LD computation and with how many threads, and how the
    correlation table the external tool writes becomes links from the
    locus' variants to catalog variants, with r² per link. The external
    tool itself is a parameter: its output table is an input here. */
module Ld {
  import opened Wrappers
  import opened Strings
  import opened Seqs
  import Utils
  import Alleles

  /** A row of the grouped variant table: the variant identifier, the locus
      it was grouped into and that locus' LD window. */
  datatype LocusRow = LocusRow(variant: string, locusId: string, rmin: int, rmax: int)

  /** What the LD computation of one locus is run with. */
  datatype Plan = Plan(rmin: int, rmax: int, threads: int)

  /** Whether the locus is skipped or computed. */
  datatype Decision = Skip | Run(plan: Plan)

  datatype LdError = NoLeadRow(locus: string) | UnparsableId(rsid: string) | UnmappableAlleles(rsid: string)

  function Members(rows: seq<LocusRow>, locus: string): (ms: seq<LocusRow>)
    ensures forall m :: m in ms <==> m in rows && m.locusId == locus
  {
    Filter(rows, (r: LocusRow) => r.locusId == locus)
  }

  /** Some row, in the locus or not, is the variant that names the locus. */
  predicate HasLeadRow(rows: seq<LocusRow>, locus: string)
  {
    exists r :: r in rows && r.variant == locus
  }

  function Min(a: int, b: int): int
  {
    if a <= b then a else b
  }

  /** The skip tests and the thread cap, in the order of the source: a
      locus with at most one member is skipped; the chromosome lookup on
      the lead row raises when no row is the locus' variant; a locus whose
      first row has a single-position window is skipped; otherwise the
      tool runs over the window of the locus' first row with no more
      threads than the locus has members. */
  function LdPlan(rows: seq<LocusRow>, locus: string, configured: int): (r: Result<Decision, LdError>)
    ensures r.Failure? <==> |Members(rows, locus)| >= 2 && !HasLeadRow(rows, locus)
    ensures r.Failure? ==> r.error == NoLeadRow(locus)
    ensures r.Success? && r.value.Run? ==> |Members(rows, locus)| >= 2 && HasLeadRow(rows, locus)
    ensures r == Success(Skip) <==>
      |Members(rows, locus)| <= 1 || (HasLeadRow(rows, locus) && Members(rows, locus)[0].rmin == Members(rows, locus)[0].rmax)
    ensures r.Success? && r.value.Run? ==>
      r.value.plan.rmin == Members(rows, locus)[0].rmin && r.value.plan.rmax == Members(rows, locus)[0].rmax
      && r.value.plan.rmin != r.value.plan.rmax
    ensures r.Success? && r.value.Run? ==>
      r.value.plan.threads <= |Members(rows, locus)| && r.value.plan.threads <= configured
      && (r.value.plan.threads == configured || r.value.plan.threads == |Members(rows, locus)|)
  {
    var ms := Members(rows, locus);
    if |ms| <= 1 then Success(Skip)
    else if !HasLeadRow(rows, locus) then Failure(NoLeadRow(locus))
    else if ms[0].rmax == ms[0].rmin then Success(Skip)
    else Success(Run(Plan(ms[0].rmin, ms[0].rmax, Min(configured, |ms|))))
  }

  /** A locus with fewer than two members is never computed, and never
      reaches the lead-row lookup. */
  lemma LdPlanSkipsSingletons(rows: seq<LocusRow>, locus: string, configured: int)
    requires |Members(rows, locus)| <= 1
    ensures LdPlan(rows, locus, configured) == Success(Skip)
  {
  }

  /** With enough members the thread count is the configured one, and with
      more threads configured than members it is the member count. */
  lemma LdPlanThreads(rows: seq<LocusRow>, locus: string, configured: int)
    requires LdPlan(rows, locus, configured).Success? && LdPlan(rows, locus, configured).value.Run?
    ensures configured <= |Members(rows, locus)| ==> LdPlan(rows, locus, configured).value.plan.threads == configured
    ensures configured > |Members(rows, locus)| ==> LdPlan(rows, locus, configured).value.plan.threads == |Members(rows, locus)|
  {
  }

  /** A row of the summary statistics: identifier and position. */
  datatype SummaryRow = SummaryRow(variant: string, pos: int)

  /** The catalog variants the locus may link to: those inside its window. */
  function Pool(summary: seq<SummaryRow>, plan: Plan): (pool: set<string>)
    ensures forall id :: id in pool <==> exists s :: s in summary && s.variant == id && plan.rmin <= s.pos <= plan.rmax
  {
    set s | s in summary && plan.rmin <= s.pos <= plan.rmax :: s.variant
  }

  /** The locus' own variant identifiers. */
  function MemberIds(rows: seq<LocusRow>, locus: string): (ids: set<string>)
    ensures forall id :: id in ids <==> exists m :: m in rows && m.locusId == locus && m.variant == id
  {
    set m | m in rows && m.locusId == locus :: m.variant
  }

  // ---------------------------------------------------------------------
  // The correlation table
  // ---------------------------------------------------------------------

  /** One row of the tool's table: two variant identifiers and their
      correlation. */
  datatype LdPair = LdPair(rsid1: string, rsid2: string, correlation: real)

  function Swap(p: LdPair): (q: LdPair)
    ensures q.rsid1 == p.rsid2 && q.rsid2 == p.rsid1 && q.correlation == p.correlation
  {
    LdPair(p.rsid2, p.rsid1, p.correlation)
  }

  /** The table followed by a copy with the two identifier columns renamed
      into each other. */
  function Symmetrize(table: seq<LdPair>): (sym: seq<LdPair>)
    ensures |sym| == 2 * |table|
    ensures forall p :: p in table ==> p in sym && Swap(p) in sym
    ensures forall q :: q in sym ==> q in table || Swap(q) in table
  {
    var swapped := seq(|table|, i requires 0 <= i < |table| => Swap(table[i]));
    assert forall q :: q in swapped ==> Swap(q) in table;
    assert forall i :: 0 <= i < |table| ==> Swap(table[i]) == swapped[i];
    table + swapped
  }

  /** After symmetrisation every link appears in both directions with the
      same correlation. */
  lemma SymmetrizeIsSymmetric(table: seq<LdPair>)
    ensures forall q :: q in Symmetrize(table) ==> Swap(q) in Symmetrize(table)
  {
  }

  /** A table row with its second identifier split back into fields. */
  datatype Parsed = Parsed(pair: LdPair, chrom: string, pos: string, ref: string, alt: string)

  /** Splitting one second identifier; fewer than four fields raise. */
  function ParseRow(p: LdPair): (r: Result<Parsed, LdError>)
    ensures r.Success? <==> Utils.ParseVariantId(p.rsid2).Some?
    ensures r.Success? ==> r.value.pair == p && Utils.ParseVariantId(p.rsid2) == Some([r.value.chrom, r.value.pos, r.value.ref, r.value.alt])
  {
    var fs := Utils.ParseVariantId(p.rsid2);
    if fs.None? then Failure(UnparsableId(p.rsid2))
    else
      assert fs.value == [fs.value[0], fs.value[1], fs.value[2], fs.value[3]];
      Success(Parsed(p, fs.value[0], fs.value[1], fs.value[2], fs.value[3]))
  }

  /** `map_column` on parsed fields: the identifier of the variant with its
      alleles on the A strand and in order, the position kept as text. */
  function CanonicalFromFields(chrom: string, pos: string, ref: string, alt: string): (r: Option<string>)
    ensures r.Some? <==> Alleles.MapAlleles(ref, alt).Some?
  {
    var pair :- Alleles.MapAlleles(ref, alt);
    Some("chr" + Join([chrom, pos, pair.0, pair.1], '_'))
  }

  /** An identifier written by `create_variant_column` and split back here
      maps to the same canonical identifier as the variant itself. */
  lemma CanonicalFromParsedId(v: Utils.Variant)
    requires Utils.Parsable(v)
    ensures var fs := Utils.ParseVariantId(Utils.VariantId(v));
      && fs.Some?
      && CanonicalFromFields(fs.value[0], fs.value[1], fs.value[2], fs.value[3]) == Alleles.CanonicalId(v)
  {
    Utils.ParseVariantIdInverse(v);
  }

  /** `ld["correlation"] * ld["correlation"]`. */
  function Square(c: real): real
  {
    c * c
  }

  /** A link from a locus variant to a catalog variant. */
  datatype LdLink = LdLink(rsid1: string, rsid2: string, rsid2Map: string, r2: real)

  /** Mapping one parsed row and attaching its squared correlation; a
      base outside A, C, G, T raises. */
  function LinkOf(x: Parsed): (r: Result<LdLink, LdError>)
    ensures r.Success? <==> Alleles.MapAlleles(x.ref, x.alt).Some?
    ensures r.Success? ==> r.value.rsid1 == x.pair.rsid1 && r.value.rsid2 == x.pair.rsid2
    ensures r.Success? ==> Some(r.value.rsid2Map) == CanonicalFromFields(x.chrom, x.pos, x.ref, x.alt)
    ensures r.Success? ==> r.value.r2 == x.pair.correlation * x.pair.correlation
  {
    var id := CanonicalFromFields(x.chrom, x.pos, x.ref, x.alt);
    if id.None? then Failure(UnmappableAlleles(x.pair.rsid2))
    else Success(LdLink(x.pair.rsid1, x.pair.rsid2, id.value, Square(x.pair.correlation)))
  }

  /** The table-to-links part of `extract_ld_variants`: symmetrise, split
      the second identifiers, keep rows whose first identifier is one of
      the locus' variants, map the second to its canonical identifier and
      keep rows whose mapped identifier is in the pool. */
  function ExtractLinks(table: seq<LdPair>, members: set<string>, pool: set<string>): (r: Result<seq<LdLink>, LdError>)
    ensures r.Success? ==> |r.value| <= 2 * |table|
  {
    var parsed :- Traverse(Symmetrize(table), ParseRow);
    var mine := Filter(parsed, (x: Parsed) => x.pair.rsid1 in members);
    var mapped :- Traverse(mine, LinkOf);
    Success(Filter(mapped, (l: LdLink) => l.rsid2Map in pool))
  }

  /** Every link starts at a locus variant, ends at a pooled variant, and
      comes from the symmetrised table with r² the square of its
      correlation. */
  lemma ExtractLinksSound(table: seq<LdPair>, members: set<string>, pool: set<string>, l: LdLink)
    requires ExtractLinks(table, members, pool).Success?
    requires l in ExtractLinks(table, members, pool).value
    ensures l.rsid1 in members && l.rsid2Map in pool
    ensures exists q :: q in Symmetrize(table) && q.rsid1 == l.rsid1 && q.rsid2 == l.rsid2 && l.r2 == Square(q.correlation)
  {
    var sym := Symmetrize(table);
    var parsed := Traverse(sym, ParseRow).value;
    var mine := Filter(parsed, (x: Parsed) => x.pair.rsid1 in members);
    var mapped := Traverse(mine, LinkOf).value;
    assert ExtractLinks(table, members, pool).value == Filter(mapped, (l: LdLink) => l.rsid2Map in pool);
    assert l in mapped;
    TraverseMembers(mine, LinkOf);
    var x :| x in mine && LinkOf(x) == Success(l);
    assert x in parsed;
    TraverseMembers(sym, ParseRow);
    var q :| q in sym && ParseRow(q) == Success(x);
  }

  /** Every qualifying orientation of every table row becomes a link. */
  lemma ExtractLinksComplete(table: seq<LdPair>, members: set<string>, pool: set<string>, p: LdPair, id: string)
    requires ExtractLinks(table, members, pool).Success?
    requires p in table || Swap(p) in table
    requires p.rsid1 in members && id in pool
    requires Utils.ParseVariantId(p.rsid2).Some?
    requires var fs := Utils.ParseVariantId(p.rsid2).value; CanonicalFromFields(fs[0], fs[1], fs[2], fs[3]) == Some(id)
    ensures LdLink(p.rsid1, p.rsid2, id, Square(p.correlation)) in ExtractLinks(table, members, pool).value
  {
    var sym := Symmetrize(table);
    assert p in sym;
    var parsed := Traverse(sym, ParseRow).value;
    TraverseMembers(sym, ParseRow);
    var x := ParseRow(p).value;
    assert x in parsed;
    var mine := Filter(parsed, (x: Parsed) => x.pair.rsid1 in members);
    assert x in mine;
    var mapped := Traverse(mine, LinkOf).value;
    TraverseMembers(mine, LinkOf);
    assert LinkOf(x).value in mapped;
    assert LinkOf(x).value == LdLink(p.rsid1, p.rsid2, id, Square(p.correlation));
  }

  /** What the step needs to run through: every symmetrised row's second
      identifier splits into four fields, and the rows of the locus' own
      variants carry alleles that map. */
  predicate Linkable(table: seq<LdPair>, members: set<string>)
  {
    forall q :: q in Symmetrize(table) ==>
      && Utils.ParseVariantId(q.rsid2).Some?
      && (q.rsid1 in members ==>
            var fs := Utils.ParseVariantId(q.rsid2).value; Alleles.MapAlleles(fs[2], fs[3]).Some?)
  }

  /** The step raises exactly when some identifier does not split or some
      row of the locus carries a base `map_alleles` cannot flip. */
  lemma ExtractLinksSucceeds(table: seq<LdPair>, members: set<string>, pool: set<string>)
    ensures ExtractLinks(table, members, pool).Success? <==> Linkable(table, members)
  {
    if Linkable(table, members) {
      LinkableRunsThrough(table, members, pool);
    }
    if ExtractLinks(table, members, pool).Success? {
      RunThroughIsLinkable(table, members, pool);
    }
  }

  lemma LinkableRunsThrough(table: seq<LdPair>, members: set<string>, pool: set<string>)
    requires Linkable(table, members)
    ensures ExtractLinks(table, members, pool).Success?
  {
    RowsRunThrough(Symmetrize(table), members);
  }

  /** The two traversals of the step succeed on rows that all split and
      whose locus rows all map. */
  lemma RowsRunThrough(sym: seq<LdPair>, members: set<string>)
    requires forall q :: q in sym ==>
      && Utils.ParseVariantId(q.rsid2).Some?
      && (q.rsid1 in members ==>
            var fs := Utils.ParseVariantId(q.rsid2).value; Alleles.MapAlleles(fs[2], fs[3]).Some?)
    ensures Traverse(sym, ParseRow).Success?
    ensures Traverse(Filter(Traverse(sym, ParseRow).value, (x: Parsed) => x.pair.rsid1 in members), LinkOf).Success?
  {
    RowsParse(sym);
    ParsedRowsLink(sym, Traverse(sym, ParseRow).value, members);
  }

  lemma RowsParse(sym: seq<LdPair>)
    requires forall q :: q in sym ==> Utils.ParseVariantId(q.rsid2).Some?
    ensures Traverse(sym, ParseRow).Success?
  {
    forall i | 0 <= i < |sym|
      ensures ParseRow(sym[i]).Success?
    {
      assert sym[i] in sym;
    }
  }

  lemma ParsedRowsLink(sym: seq<LdPair>, parsed: seq<Parsed>, members: set<string>)
    requires forall q :: q in sym ==>
      && Utils.ParseVariantId(q.rsid2).Some?
      && (q.rsid1 in members ==>
            var fs := Utils.ParseVariantId(q.rsid2).value; Alleles.MapAlleles(fs[2], fs[3]).Some?)
    requires Traverse(sym, ParseRow) == Success(parsed)
    ensures Traverse(Filter(parsed, (x: Parsed) => x.pair.rsid1 in members), LinkOf).Success?
  {
    var mine := Filter(parsed, (x: Parsed) => x.pair.rsid1 in members);
    forall i | 0 <= i < |mine|
      ensures LinkOf(mine[i]).Success?
    {
      assert mine[i] in parsed;
      var j :| 0 <= j < |parsed| && parsed[j] == mine[i];
      assert sym[j] in sym;
      ParsedLinks(sym[j], mine[i], members);
    }
  }

  lemma RunThroughIsLinkable(table: seq<LdPair>, members: set<string>, pool: set<string>)
    requires ExtractLinks(table, members, pool).Success?
    ensures Linkable(table, members)
  {
    var sym := Symmetrize(table);
    var parsed := Traverse(sym, ParseRow).value;
    TraverseMembers(sym, ParseRow);
    var mine := Filter(parsed, (x: Parsed) => x.pair.rsid1 in members);
    TraverseMembers(mine, LinkOf);
    forall q | q in sym
      ensures Utils.ParseVariantId(q.rsid2).Some?
      ensures q.rsid1 in members ==>
        var fs := Utils.ParseVariantId(q.rsid2).value; Alleles.MapAlleles(fs[2], fs[3]).Some?
    {
      var x := ParseRow(q).value;
      assert x in parsed;
      if q.rsid1 in members {
        assert x in mine;
      }
    }
  }

  /** A parsed row of a locus variant whose alleles map links. */
  lemma ParsedLinks(q: LdPair, x: Parsed, members: set<string>)
    requires Utils.ParseVariantId(q.rsid2).Some?
    requires q.rsid1 in members ==>
      var fs := Utils.ParseVariantId(q.rsid2).value; Alleles.MapAlleles(fs[2], fs[3]).Some?
    requires ParseRow(q) == Success(x)
    requires x.pair.rsid1 in members
    ensures LinkOf(x).Success?
  {
  }

  /** A table row whose second identifier does not split into four fields
      makes the whole step raise, whatever the locus. */
  lemma ExtractLinksRejectsUnparsable(table: seq<LdPair>, members: set<string>, pool: set<string>, p: LdPair)
    requires p in table
    requires Utils.ParseVariantId(p.rsid2).None?
    ensures ExtractLinks(table, members, pool).Failure?
  {
    var sym := Symmetrize(table);
    var k :| 0 <= k < |sym| && sym[k] == p;
    assert !Utils.ParseVariantId(sym[k].rsid2).Some?;
  }
}
