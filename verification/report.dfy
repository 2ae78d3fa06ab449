/** The aggregation of `create_top_level_report` in Scripts/compare.py: one
    summary row per locus, with its span, lead-variant values, credible set,
    functional variants and previously reported traits, split into a strict
    and a relaxed group and, when EFO codes are given, into specific and
    other traits. Lists are kept as sequences; their joining into
    `;`-separated text with `{:.3g}` numbers is formatting. */
module Report {
  import opened Wrappers
  import opened Seqs
  import Utils

  /** The annotation columns of the lead variant. */
  datatype Annotation = Annotation(enrichment: string, gene: string, consequence: string)

  /** What the report carries when the annotation step was skipped. */
  const NoAnnotation := Annotation("", "", "")

  /** One row of the variant report. `chrom`, `pos` and `pval` are the
      columns every report has; `stats` holds the other numeric columns by
      label (beta, allele frequencies); missing cells are `None`. */
  datatype ReportRow = ReportRow(
    locusId: string, variant: string, chrom: string, pos: int, pval: real,
    stats: map<string, real>, r2ToLead: Option<real>,
    csId: Option<string>, csProb: real, functional: Option<string>,
    traitId: Option<string>, traitName: Option<string>, annotation: Option<Annotation>)

  datatype ReportError =
    | MissingColumnKey(key: string)
    | MissingColumn(column: string)
    | EmptyLocus(locus: string)
    | NoLeadRow(locus: string)

  // ---------------------------------------------------------------------
  // Strict groups
  // ---------------------------------------------------------------------

  /** The grouping method decides what the strict group of a locus is. */
  datatype Grouping = Cred | LdGroup | Simple

  function GroupingOf(name: string): (g: Grouping)
    ensures g == Cred <==> name == "cred"
    ensures g == LdGroup <==> name == "ld"
  {
    if name == "cred" then Cred else if name == "ld" then LdGroup else Simple
  }

  /** Credible-set membership for `cred`; significance and LD to the lead
      for `ld`; significance alone otherwise. A missing r² is never at
      least the threshold. */
  predicate InStrict(r: ReportRow, g: Grouping, thr: real, strictR2: real)
  {
    match g
    case Cred => r.csId.Some?
    case LdGroup => r.pval <= thr && r.r2ToLead.Some? && r.r2ToLead.value >= strictR2
    case Simple => r.pval <= thr
  }

  function StrictGroup(rows: seq<ReportRow>, g: Grouping, thr: real, strictR2: real): (sg: seq<ReportRow>)
    ensures |sg| <= |rows|
    ensures forall r :: r in sg <==> r in rows && InStrict(r, g, thr, strictR2)
  {
    Filter(rows, (r: ReportRow) => InStrict(r, g, thr, strictR2))
  }

  /** The `ld` strict group is a sub-selection of the `simple` one. */
  lemma StrictLdWithinSimple(rows: seq<ReportRow>, thr: real, strictR2: real)
    ensures forall r :: r in StrictGroup(rows, LdGroup, thr, strictR2) ==> r in StrictGroup(rows, Simple, thr, strictR2)
  {
  }

  // ---------------------------------------------------------------------
  // Loci and spans
  // ---------------------------------------------------------------------

  function LocusRows(rows: seq<ReportRow>, locus: string): (lr: seq<ReportRow>)
    ensures |lr| <= |rows|
    ensures forall r :: r in lr <==> r in rows && r.locusId == locus
  {
    Filter(rows, (r: ReportRow) => r.locusId == locus)
  }

  function LocusIdOf(r: ReportRow): string
  {
    r.locusId
  }

  /** `df["locus_id"].unique()`: every locus once, in order of first
      appearance. */
  function UniqueLoci(rows: seq<ReportRow>): (ls: seq<string>)
    ensures forall i, j :: 0 <= i < j < |ls| ==> ls[i] != ls[j]
  {
    Dedup(Map(rows, LocusIdOf))
  }

  /** The loci listed are exactly the loci of the rows, each with at least
      one row, in order of first appearance. */
  lemma UniqueLociMembers(rows: seq<ReportRow>)
    ensures forall l :: l in UniqueLoci(rows) <==> exists r :: r in rows && r.locusId == l
    ensures forall l :: l in UniqueLoci(rows) ==> |LocusRows(rows, l)| > 0
    ensures forall i, j :: 0 <= i < j < |UniqueLoci(rows)| ==>
      IndexOf(Map(rows, LocusIdOf), UniqueLoci(rows)[i]) < IndexOf(Map(rows, LocusIdOf), UniqueLoci(rows)[j])
  {
    MapMembers(rows, LocusIdOf);
    DedupFirstAppearance(Map(rows, LocusIdOf));
    forall l | l in UniqueLoci(rows)
      ensures |LocusRows(rows, l)| > 0
    {
      var r :| r in rows && r.locusId == l;
      assert r in LocusRows(rows, l);
    }
  }

  /** `np.amin` of the positions. */
  function MinPos(rs: seq<ReportRow>): (m: int)
    requires |rs| > 0
    ensures forall r :: r in rs ==> m <= r.pos
    ensures exists r :: r in rs && r.pos == m
  {
    if |rs| == 1 then rs[0].pos
    else
      var rest := MinPos(rs[1..]);
      assert forall r :: r in rs ==> r == rs[0] || r in rs[1..];
      if rs[0].pos <= rest then rs[0].pos else rest
  }

  /** `np.amax` of the positions. */
  function MaxPos(rs: seq<ReportRow>): (m: int)
    requires |rs| > 0
    ensures forall r :: r in rs ==> r.pos <= m
    ensures exists r :: r in rs && r.pos == m
  {
    if |rs| == 1 then rs[0].pos
    else
      var rest := MaxPos(rs[1..]);
      assert forall r :: r in rs ==> r == rs[0] || r in rs[1..];
      if rest <= rs[0].pos then rs[0].pos else rest
  }

  // ---------------------------------------------------------------------
  // The lead variant
  // ---------------------------------------------------------------------

  /** `rs[i]` is the first row whose variant is `locus`. */
  predicate FirstLeadAt(rs: seq<ReportRow>, locus: string, i: int)
  {
    0 <= i < |rs| && rs[i].variant == locus && forall j :: 0 <= j < i ==> rs[j].variant != locus
  }

  /** The row of the lead variant, which names the locus; `.values[0]`
      takes the first. */
  function FirstLead(rs: seq<ReportRow>, locus: string): (r: Option<ReportRow>)
    ensures r.None? <==> forall x :: x in rs ==> x.variant != locus
    ensures r.Some? ==> exists i :: FirstLeadAt(rs, locus, i) && rs[i] == r.value
    ensures forall i :: FirstLeadAt(rs, locus, i) ==> r == Some(rs[i])
  {
    if |rs| == 0 then None
    else if rs[0].variant == locus then
      assert FirstLeadAt(rs, locus, 0);
      Some(rs[0])
    else
      var rest := FirstLead(rs[1..], locus);
      assert forall x :: x in rs ==> x == rs[0] || x in rs[1..];
      if rest.Some? then
        var i :| FirstLeadAt(rs[1..], locus, i) && rs[1..][i] == rest.value;
        assert FirstLeadAt(rs, locus, i + 1) by {
          forall j | 0 <= j < i + 1
            ensures rs[j].variant != locus
          {
            if j > 0 {
              assert rs[j] == rs[1..][j - 1];
            }
          }
        }
        rest
      else rest
  }

  /** The annotation of the lead row, or empty text when the lead row or
      the annotation columns are missing (the `try` falls back). */
  function LeadAnnotation(rs: seq<ReportRow>, locus: string): (a: Annotation)
    ensures a != NoAnnotation ==> exists x :: x in rs && x.variant == locus && x.annotation == Some(a)
    ensures (forall x :: x in rs ==> x.variant != locus) ==> a == NoAnnotation
    ensures forall i :: FirstLeadAt(rs, locus, i) && rs[i].annotation.Some? ==> a == rs[i].annotation.value
    ensures forall i :: FirstLeadAt(rs, locus, i) && rs[i].annotation.None? ==> a == NoAnnotation
  {
    match FirstLead(rs, locus)
    case None => NoAnnotation
    case Some(lead) => if lead.annotation.Some? then lead.annotation.value else NoAnnotation
  }

  /** The lead values of the top-level row. */
  datatype Lead = Lead(pval: real, beta: real, af: real, afCases: real, afControls: real)

  /** `columns[key]`, a `KeyError` when the dictionary has no such key. */
  function ColumnKey(columns: map<string, string>, key: string): (r: Result<string, ReportError>)
    ensures r.Success? <==> key in columns
    ensures r.Success? ==> r.value == columns[key]
    ensures r.Failure? ==> r.error == MissingColumnKey(key)
  {
    if key in columns then Success(columns[key]) else Failure(MissingColumnKey(key))
  }

  /** A numeric column of the lead row, through the column dictionary. */
  function Stat(columns: map<string, string>, lead: ReportRow, key: string): (r: Result<real, ReportError>)
    ensures r.Success? <==> key in columns && columns[key] in lead.stats
    ensures r.Success? ==> r.value == lead.stats[columns[key]]
  {
    var column :- ColumnKey(columns, key);
    if column in lead.stats then Success(lead.stats[column]) else Failure(MissingColumn(column))
  }

  /** The dictionary names the numeric column `key` and the lead row has it. */
  predicate HasStat(columns: map<string, string>, lead: ReportRow, key: string)
  {
    key in columns && columns[key] in lead.stats
  }

  /** Beta and the three allele frequencies can all be read. */
  predicate HasStats(columns: map<string, string>, lead: ReportRow)
  {
    && HasStat(columns, lead, "beta") && HasStat(columns, lead, "af")
    && HasStat(columns, lead, "af_cases") && HasStat(columns, lead, "af_controls")
  }

  /** The five lead values, read in the order of the source: the p-value
      key, the lead row, then beta and the three allele frequencies. */
  function LeadValues(columns: map<string, string>, rs: seq<ReportRow>, locus: string): (r: Result<Lead, ReportError>)
    ensures r.Success? <==> "pval" in columns && FirstLead(rs, locus).Some? && HasStats(columns, FirstLead(rs, locus).value)
    ensures r.Success? ==> (var lead := FirstLead(rs, locus).value;
      r.value == Lead(lead.pval, lead.stats[columns["beta"]], lead.stats[columns["af"]],
                      lead.stats[columns["af_cases"]], lead.stats[columns["af_controls"]]))
  {
    var _ :- ColumnKey(columns, "pval");
    var lead :- if FirstLead(rs, locus).Some? then Success(FirstLead(rs, locus).value) else Failure(NoLeadRow(locus));
    var beta :- Stat(columns, lead, "beta");
    var af :- Stat(columns, lead, "af");
    var afCases :- Stat(columns, lead, "af_cases");
    var afControls :- Stat(columns, lead, "af_controls");
    Success(Lead(lead.pval, beta, af, afCases, afControls))
  }

  // ---------------------------------------------------------------------
  // Credible set and functional variants
  // ---------------------------------------------------------------------

  function CredEntry(r: ReportRow): (string, real)
  {
    (r.variant, r.csProb)
  }

  /** The (variant, probability) pairs of the credible-set rows, without
      repeats. */
  function CredibleSet(rs: seq<ReportRow>): (cs: seq<(string, real)>)
    ensures forall i, j :: 0 <= i < j < |cs| ==> cs[i] != cs[j]
  {
    Dedup(Map(Filter(rs, (r: ReportRow) => r.csId.Some?), CredEntry))
  }

  lemma CredibleSetMembers(rs: seq<ReportRow>)
    ensures forall e :: e in CredibleSet(rs) <==> exists r :: r in rs && r.csId.Some? && e == (r.variant, r.csProb)
  {
    MapMembers(Filter(rs, (r: ReportRow) => r.csId.Some?), CredEntry);
  }

  function FunctionalEntry(r: ReportRow): (string, string, Option<real>)
    requires r.functional.Some?
  {
    (r.variant, r.functional.value, r.r2ToLead)
  }

  function StrictFunctionalEntry(r: ReportRow): (string, string)
    requires r.functional.Some?
  {
    (r.variant, r.functional.value)
  }

  function FunctionalRows(rs: seq<ReportRow>): (fr: seq<ReportRow>)
    ensures forall r :: r in fr <==> r in rs && r.functional.Some?
  {
    Filter(rs, (r: ReportRow) => r.functional.Some?)
  }

  /** The relaxed functional list: (variant, category, r²) of the locus rows
      with a functional category, without repeats; empty when the report
      has no functional column. */
  function FunctionalRelaxed(rs: seq<ReportRow>, hasFunctional: bool): (fs: seq<(string, string, Option<real>)>)
    ensures !hasFunctional ==> fs == []
    ensures forall i, j :: 0 <= i < j < |fs| ==> fs[i] != fs[j]
    ensures forall e :: e in fs ==> exists r :: r in rs && r.functional.Some? && e == FunctionalEntry(r)
    ensures hasFunctional ==> forall r :: r in rs && r.functional.Some? ==> FunctionalEntry(r) in fs
  {
    if !hasFunctional then []
    else
      var fr := FunctionalRows(rs);
      var es := seq(|fr|, i requires 0 <= i < |fr| => FunctionalEntry(fr[i]));
      assert forall e :: e in es ==> exists r :: r in rs && r.functional.Some? && e == FunctionalEntry(r) by {
        forall e | e in es
          ensures exists r :: r in rs && r.functional.Some? && e == FunctionalEntry(r)
        {
          var i :| 0 <= i < |es| && es[i] == e;
          assert fr[i] in fr;
        }
      }
      forall r | r in rs && r.functional.Some?
        ensures FunctionalEntry(r) in es
      {
        var i :| 0 <= i < |fr| && fr[i] == r;
        assert es[i] == FunctionalEntry(r);
      }
      Dedup(es)
  }

  /** The strict functional list: (variant, category) of the strict-group
      rows with a functional category, without repeats. */
  function FunctionalStrict(strict: seq<ReportRow>, hasFunctional: bool): (fs: seq<(string, string)>)
    ensures !hasFunctional ==> fs == []
    ensures forall i, j :: 0 <= i < j < |fs| ==> fs[i] != fs[j]
    ensures forall e :: e in fs ==> exists r :: r in strict && r.functional.Some? && e == StrictFunctionalEntry(r)
    ensures hasFunctional ==> forall r :: r in strict && r.functional.Some? ==> StrictFunctionalEntry(r) in fs
  {
    if !hasFunctional then []
    else
      var fr := FunctionalRows(strict);
      var es := seq(|fr|, i requires 0 <= i < |fr| => StrictFunctionalEntry(fr[i]));
      assert forall e :: e in es ==> exists r :: r in strict && r.functional.Some? && e == StrictFunctionalEntry(r) by {
        forall e | e in es
          ensures exists r :: r in strict && r.functional.Some? && e == StrictFunctionalEntry(r)
        {
          var i :| 0 <= i < |es| && es[i] == e;
          assert fr[i] in fr;
        }
      }
      forall r | r in strict && r.functional.Some?
        ensures StrictFunctionalEntry(r) in es
      {
        var i :| 0 <= i < |fr| && fr[i] == r;
        assert es[i] == StrictFunctionalEntry(r);
      }
      Dedup(es)
  }

  // ---------------------------------------------------------------------
  // Previously reported traits
  // ---------------------------------------------------------------------

  /** A (trait, trait name, r² to lead) triple of a report row. */
  datatype TraitHit = TraitHit(traitId: Option<string>, traitName: Option<string>, r2: Option<real>)

  function HitOf(r: ReportRow): TraitHit
  {
    TraitHit(r.traitId, r.traitName, r.r2ToLead)
  }

  /** `a` sorts no later than `b` when sorting by r² descending with missing
      values last. */
  predicate Ranks(a: Option<real>, b: Option<real>)
  {
    b.None? || (a.Some? && a.value >= b.value)
  }

  lemma RanksTotal(a: Option<real>, b: Option<real>)
    ensures Ranks(a, b) || Ranks(b, a)
  {
  }

  lemma RanksTransitive(a: Option<real>, b: Option<real>, c: Option<real>)
    requires Ranks(a, b) && Ranks(b, c)
    ensures Ranks(a, c)
  {
  }

  predicate SortedByRank(s: seq<TraitHit>)
  {
    forall i, j :: 0 <= i < j < |s| ==> Ranks(s[i].r2, s[j].r2)
  }

  function InsertByRank(h: TraitHit, s: seq<TraitHit>): (r: seq<TraitHit>)
    requires SortedByRank(s)
    ensures SortedByRank(r)
    ensures multiset(r) == multiset(s) + multiset{h}
    ensures r[0] == h || (|s| > 0 && r[0] == s[0])
  {
    if |s| == 0 then [h]
    else if Ranks(h.r2, s[0].r2) then
      assert forall j :: 0 <= j < |s| ==> Ranks(h.r2, s[j].r2) by {
        forall j | 0 <= j < |s|
          ensures Ranks(h.r2, s[j].r2)
        {
          if j > 0 {
            RanksTransitive(h.r2, s[0].r2, s[j].r2);
          }
        }
      }
      [h] + s
    else
      var rest := InsertByRank(h, s[1..]);
      RanksTotal(h.r2, s[0].r2);
      assert s == [s[0]] + s[1..];
      assert forall j :: 0 <= j < |rest| ==> Ranks(s[0].r2, rest[j].r2) by {
        assert rest[0] == h || rest[0] == s[1];
        forall j | 0 <= j < |rest|
          ensures Ranks(s[0].r2, rest[j].r2)
        {
          if j > 0 {
            RanksTransitive(s[0].r2, rest[0].r2, rest[j].r2);
          }
        }
      }
      [s[0]] + rest
  }

  /** `sort_values(by="r2_to_lead", ascending=False)`. */
  function SortByRank(s: seq<TraitHit>): (r: seq<TraitHit>)
    ensures SortedByRank(r)
    ensures multiset(r) == multiset(s)
  {
    if |s| == 0 then []
    else
      assert s == [s[0]] + s[1..];
      InsertByRank(s[0], SortByRank(s[1..]))
  }

  function TraitKey(h: TraitHit): (Option<string>, Option<string>)
  {
    (h.traitId, h.traitName)
  }

  predicate Complete(h: TraitHit)
  {
    h.traitId.Some? && h.traitName.Some? && h.r2.Some?
  }

  /** Sort by r² descending, keep the first triple of every
      (trait, trait name), then drop triples with a missing value. */
  function TraitList(hits: seq<TraitHit>): (ts: seq<TraitHit>)
    ensures |ts| <= |hits|
    ensures forall t :: t in ts ==> Complete(t)
  {
    var sorted := SortByRank(hits);
    assert |sorted| == |hits| by {
      assert |multiset(sorted)| == |multiset(hits)|;
    }
    Filter(KeepFirst(sorted, TraitKey, {}), (h: TraitHit) => Complete(h))
  }

  /** The kept triple of a key ranks at least as high as every triple with
      that key. */
  lemma {:induction false} KeptRanksFirst(hits: seq<TraitHit>, t: TraitHit, h: TraitHit)
    requires t in KeepFirst(SortByRank(hits), TraitKey, {})
    requires h in hits && TraitKey(h) == TraitKey(t)
    ensures Ranks(t.r2, h.r2)
  {
    var sorted := SortByRank(hits);
    KeepFirstEarliest(sorted, TraitKey, {}, t);
    var i :| FirstOfKey(sorted, TraitKey, t, i);
    assert h in multiset(sorted);
    var j :| 0 <= j < |sorted| && sorted[j] == h;
    assert !(j < i);
    if j == i {
      assert h == t;
    }
  }

  /** One triple per (trait, trait name): the one with the highest r², and
      only if it has every value. */
  lemma TraitListProperties(hits: seq<TraitHit>)
    ensures forall a, b :: a in TraitList(hits) && b in TraitList(hits) && TraitKey(a) == TraitKey(b) ==> a == b
    ensures forall t, h :: t in TraitList(hits) && h in hits && TraitKey(h) == TraitKey(t) ==> Ranks(t.r2, h.r2)
    ensures forall t :: t in TraitList(hits) ==> t in hits
  {
    var sorted := SortByRank(hits);
    var kept := KeepFirst(sorted, TraitKey, {});
    KeepFirstDistinct(sorted, TraitKey, {});
    forall a, b | a in TraitList(hits) && b in TraitList(hits) && TraitKey(a) == TraitKey(b)
      ensures a == b
    {
      var i :| 0 <= i < |kept| && kept[i] == a;
      var j :| 0 <= j < |kept| && kept[j] == b;
    }
    forall t, h | t in TraitList(hits) && h in hits && TraitKey(h) == TraitKey(t)
      ensures Ranks(t.r2, h.r2)
    {
      KeptRanksFirst(hits, t, h);
    }
    forall t | t in TraitList(hits)
      ensures t in hits
    {
      KeepFirstSubset(sorted, TraitKey, {}, t);
      assert t in multiset(sorted);
    }
  }

  /** A (trait, trait name) appears exactly when both are present and one
      of its triples has an r². */
  lemma TraitListComplete(hits: seq<TraitHit>, h: TraitHit)
    requires h in hits && Complete(h)
    ensures exists t :: t in TraitList(hits) && TraitKey(t) == TraitKey(h)
  {
    var sorted := SortByRank(hits);
    assert h in multiset(sorted);
    KeepFirstCovers(sorted, TraitKey, {}, h);
    var t :| t in KeepFirst(sorted, TraitKey, {}) && TraitKey(t) == TraitKey(h);
    KeptRanksFirst(hits, t, h);
  }

  // ---------------------------------------------------------------------
  // EFO partition
  // ---------------------------------------------------------------------

  /** `trait.isin(efo_traits)`; a missing trait is never in the list. */
  predicate IsSpecific(t: TraitHit, efo: seq<string>)
  {
    t.traitId.Some? && t.traitId.value in efo
  }

  function OtherTraits(ts: seq<TraitHit>, efo: seq<string>): (os: seq<TraitHit>)
    ensures forall t :: t in os <==> t in ts && !IsSpecific(t, efo)
  {
    Filter(ts, (t: TraitHit) => !IsSpecific(t, efo))
  }

  /** The specific list exists only when EFO codes were given. */
  function SpecificTraits(ts: seq<TraitHit>, efo: seq<string>): (sp: Option<seq<TraitHit>>)
    ensures sp.Some? <==> |efo| > 0
    ensures sp.Some? ==> forall t :: t in sp.value <==> t in ts && IsSpecific(t, efo)
  {
    if |efo| == 0 then None else Some(Filter(ts, (t: TraitHit) => IsSpecific(t, efo)))
  }

  /** With EFO codes the two lists split the traits between them; without,
      every trait is "other". */
  lemma EfoPartition(ts: seq<TraitHit>, efo: seq<string>)
    ensures |efo| > 0 ==> multiset(SpecificTraits(ts, efo).value) + multiset(OtherTraits(ts, efo)) == multiset(ts)
    ensures |efo| == 0 ==> OtherTraits(ts, efo) == ts
  {
    if |efo| > 0 {
      FilterPartition(ts, (t: TraitHit) => IsSpecific(t, efo), (t: TraitHit) => !IsSpecific(t, efo));
    } else {
      FilterAllOrNone(ts, (t: TraitHit) => !IsSpecific(t, efo));
    }
  }

  // ---------------------------------------------------------------------
  // The top-level report
  // ---------------------------------------------------------------------

  /** One row of the top-level report. */
  datatype TopRow = TopRow(
    locusId: string, chrom: string, start: int, end: int,
    annotation: Annotation, lead: Lead,
    credibleSet: seq<(string, real)>,
    functionalStrict: seq<(string, string)>,
    functionalRelaxed: seq<(string, string, Option<real>)>,
    foundStrict: seq<TraitHit>, foundRelaxed: seq<TraitHit>,
    specificStrict: Option<seq<TraitHit>>, specificRelaxed: Option<seq<TraitHit>>)

  /** The arguments of one report: EFO codes, column dictionary, grouping,
      significance and strict r² thresholds, and whether the report has a
      functional-category column. */
  datatype Settings = Settings(
    efo: seq<string>, columns: map<string, string>, grouping: Grouping,
    thr: real, strictR2: real, hasFunctional: bool)

  /** The body of the loop over loci, with its lookups in source order: the
      p-value column for a significance-based strict group, the chromosome
      of the first row, the position span, then the lead values. */
  function LocusReport(rows: seq<ReportRow>, locus: string, cfg: Settings): (r: Result<TopRow, ReportError>)
    ensures r.Success? ==> |LocusRows(rows, locus)| > 0
    ensures r.Success? ==> r.value.locusId == locus && r.value.chrom == LocusRows(rows, locus)[0].chrom
    ensures r.Success? ==> r.value.start <= r.value.end
    ensures r.Success? ==> forall x :: x in LocusRows(rows, locus) ==> r.value.start <= x.pos <= r.value.end
    ensures r.Success? ==> exists x :: x in LocusRows(rows, locus) && x.pos == r.value.start
    ensures r.Success? ==> exists x :: x in LocusRows(rows, locus) && x.pos == r.value.end
    ensures r.Success? ==> (r.value.specificRelaxed.Some? <==> |cfg.efo| > 0)
  {
    var lr := LocusRows(rows, locus);
    var _ :- if cfg.grouping == Cred then Success("") else ColumnKey(cfg.columns, "pval");
    var _ :- ColumnKey(cfg.columns, "chrom");
    if |lr| == 0 then Failure(EmptyLocus(locus))
    else
      var _ :- ColumnKey(cfg.columns, "pos");
      var lead :- LeadValues(cfg.columns, lr, locus);
      Success(RowOf(lr, LocusStrict(rows, locus, cfg), locus, cfg, lead))
  }

  /** The strict group of the locus a report row is built from. */
  function LocusStrict(rows: seq<ReportRow>, locus: string, cfg: Settings): seq<ReportRow>
  {
    StrictGroup(LocusRows(rows, locus), cfg.grouping, cfg.thr, cfg.strictR2)
  }

  /** The row of a locus with rows `lr`, strict group `strict` and lead
      values `lead`. */
  function RowOf(lr: seq<ReportRow>, strict: seq<ReportRow>, locus: string, cfg: Settings, lead: Lead): TopRow
    requires |lr| > 0
  {
    var relaxedTraits := TraitList(Map(lr, HitOf));
    var strictTraits := TraitList(Map(strict, HitOf));
    TopRow(
      locus, lr[0].chrom, MinPos(lr), MaxPos(lr),
      LeadAnnotation(lr, locus), lead,
      CredibleSet(lr),
      FunctionalStrict(strict, cfg.hasFunctional),
      FunctionalRelaxed(lr, cfg.hasFunctional),
      OtherTraits(strictTraits, cfg.efo), OtherTraits(relaxedTraits, cfg.efo),
      SpecificTraits(strictTraits, cfg.efo), SpecificTraits(relaxedTraits, cfg.efo))
  }

  /** A successful locus row is the row built from the locus' rows, strict
      group and lead values. */
  lemma LocusReportIsRow(rows: seq<ReportRow>, locus: string, cfg: Settings)
    requires LocusReport(rows, locus, cfg).Success?
    ensures |LocusRows(rows, locus)| > 0 && LeadValues(cfg.columns, LocusRows(rows, locus), locus).Success?
    ensures LocusReport(rows, locus, cfg).value
      == RowOf(LocusRows(rows, locus), LocusStrict(rows, locus, cfg), locus, cfg, LeadValues(cfg.columns, LocusRows(rows, locus), locus).value)
  {
  }

  /** The row of a locus reports its first lead row: the p-value, beta and
      allele frequencies through the column dictionary, and its annotation
      or empty text. The credible set is exactly the (variant, probability)
      pairs of the locus' credible-set rows, and with a functional column
      the two functional lists are exactly the entries of the locus' and of
      the strict group's functional rows. */
  lemma LocusReportLead(rows: seq<ReportRow>, locus: string, cfg: Settings)
    requires LocusReport(rows, locus, cfg).Success?
    ensures var lr := LocusRows(rows, locus);
      && FirstLead(lr, locus).Some?
      && HasStats(cfg.columns, FirstLead(lr, locus).value)
    ensures var lr := LocusRows(rows, locus);
      var lead := FirstLead(lr, locus).value;
      var row := LocusReport(rows, locus, cfg).value;
      && lead in lr && lead.variant == locus
      && row.lead == Lead(lead.pval, lead.stats[cfg.columns["beta"]], lead.stats[cfg.columns["af"]],
                          lead.stats[cfg.columns["af_cases"]], lead.stats[cfg.columns["af_controls"]])
      && row.annotation == (if lead.annotation.Some? then lead.annotation.value else NoAnnotation)
    ensures var row := LocusReport(rows, locus, cfg).value;
      forall e :: e in row.credibleSet <==> exists x :: x in LocusRows(rows, locus) && x.csId.Some? && e == (x.variant, x.csProb)
    ensures var row := LocusReport(rows, locus, cfg).value;
      cfg.hasFunctional ==> forall e :: e in row.functionalRelaxed <==>
        exists x :: x in LocusRows(rows, locus) && x.functional.Some? && e == FunctionalEntry(x)
    ensures var row := LocusReport(rows, locus, cfg).value;
      cfg.hasFunctional ==> forall e :: e in row.functionalStrict <==>
        exists x :: x in LocusStrict(rows, locus, cfg) && x.functional.Some? && e == StrictFunctionalEntry(x)
  {
    var lr := LocusRows(rows, locus);
    var strict := LocusStrict(rows, locus, cfg);
    var row := LocusReport(rows, locus, cfg).value;
    LocusReportIsRow(rows, locus, cfg);
    assert row.lead == LeadValues(cfg.columns, lr, locus).value;
    assert row.annotation == LeadAnnotation(lr, locus);
    assert row.credibleSet == CredibleSet(lr);
    assert row.functionalRelaxed == FunctionalRelaxed(lr, cfg.hasFunctional);
    assert row.functionalStrict == FunctionalStrict(strict, cfg.hasFunctional);
    var i :| FirstLeadAt(lr, locus, i) && lr[i] == FirstLead(lr, locus).value;
    assert lr[i] in lr;
    CredibleSetMembers(lr);
  }

  /** A trait list of one side of the EFO split, built from `rs`: its
      triples are complete, on that side and taken from rows of `rs`; it
      has one triple per (trait, trait name); and every complete triple of
      a row on that side has its key in the list, with an r² at least as
      high. */
  lemma TraitSide(rs: seq<ReportRow>, efo: seq<string>, specific: bool, side: seq<TraitHit>)
    requires forall t :: t in side <==> t in TraitList(Map(rs, HitOf)) && IsSpecific(t, efo) == specific
    ensures forall t :: t in side ==> Complete(t) && IsSpecific(t, efo) == specific && exists x :: x in rs && HitOf(x) == t
    ensures forall a, b :: a in side && b in side && TraitKey(a) == TraitKey(b) ==> a == b
    ensures forall x :: x in rs && Complete(HitOf(x)) && IsSpecific(HitOf(x), efo) == specific ==>
      exists t :: t in side && TraitKey(t) == TraitKey(HitOf(x)) && Ranks(t.r2, HitOf(x).r2)
  {
    var hits := Map(rs, HitOf);
    TraitListProperties(hits);
    MapMembers(rs, HitOf);
    forall x | x in rs && Complete(HitOf(x)) && IsSpecific(HitOf(x), efo) == specific
      ensures exists t :: t in side && TraitKey(t) == TraitKey(HitOf(x)) && Ranks(t.r2, HitOf(x).r2)
    {
      assert HitOf(x) in hits;
      TraitListComplete(hits, HitOf(x));
      var t :| t in TraitList(hits) && TraitKey(t) == TraitKey(HitOf(x));
      assert t.traitId == HitOf(x).traitId;
      assert t in side;
    }
  }

  /** Every triple found in the strict group is found, under the same key
      and with at least the same r², among the locus' triples on the same
      side of the EFO split. */
  lemma TraitSideNested(strict: seq<ReportRow>, rs: seq<ReportRow>, efo: seq<string>, specific: bool,
                        strictSide: seq<TraitHit>, side: seq<TraitHit>)
    requires forall x :: x in strict ==> x in rs
    requires forall t :: t in strictSide <==> t in TraitList(Map(strict, HitOf)) && IsSpecific(t, efo) == specific
    requires forall t :: t in side <==> t in TraitList(Map(rs, HitOf)) && IsSpecific(t, efo) == specific
    ensures forall t :: t in strictSide ==> exists u :: u in side && TraitKey(u) == TraitKey(t) && Ranks(u.r2, t.r2)
  {
    TraitSide(strict, efo, specific, strictSide);
    TraitSide(rs, efo, specific, side);
    forall t | t in strictSide
      ensures exists u :: u in side && TraitKey(u) == TraitKey(t) && Ranks(u.r2, t.r2)
    {
      var x :| x in strict && HitOf(x) == t;
      assert x in rs;
    }
  }

  /** The four trait lists of a locus row, as built from its rows. */
  lemma LocusReportTraitLists(rows: seq<ReportRow>, locus: string, cfg: Settings)
    requires LocusReport(rows, locus, cfg).Success?
    ensures var row := LocusReport(rows, locus, cfg).value;
      var relaxedTraits := TraitList(Map(LocusRows(rows, locus), HitOf));
      var strictTraits := TraitList(Map(LocusStrict(rows, locus, cfg), HitOf));
      && row.foundStrict == OtherTraits(strictTraits, cfg.efo)
      && row.foundRelaxed == OtherTraits(relaxedTraits, cfg.efo)
      && row.specificStrict == SpecificTraits(strictTraits, cfg.efo)
      && row.specificRelaxed == SpecificTraits(relaxedTraits, cfg.efo)
  {
    LocusReportIsRow(rows, locus, cfg);
  }

  /** The found-association lists of a locus row: the strict list holds
      complete triples of strict-group rows whose trait is not among the
      EFO codes, one per (trait, trait name), and every such key of a
      strict-group row is in it; each of its keys is also in the relaxed
      list with at least the same r². The relaxed list is the same over
      all the locus' rows, and the specific lists mirror both with traits
      among the EFO codes. */
  lemma LocusReportTraits(rows: seq<ReportRow>, locus: string, cfg: Settings)
    requires LocusReport(rows, locus, cfg).Success?
    ensures var row := LocusReport(rows, locus, cfg).value;
      var strict := LocusStrict(rows, locus, cfg);
      && (forall t :: t in row.foundStrict ==> Complete(t) && !IsSpecific(t, cfg.efo) && exists x :: x in strict && HitOf(x) == t)
      && (forall a, b :: a in row.foundStrict && b in row.foundStrict && TraitKey(a) == TraitKey(b) ==> a == b)
      && (forall x :: x in strict && Complete(HitOf(x)) && !IsSpecific(HitOf(x), cfg.efo) ==>
            exists t :: t in row.foundStrict && TraitKey(t) == TraitKey(HitOf(x)) && Ranks(t.r2, HitOf(x).r2))
      && (forall t :: t in row.foundStrict ==> exists u :: u in row.foundRelaxed && TraitKey(u) == TraitKey(t) && Ranks(u.r2, t.r2))
    ensures var row := LocusReport(rows, locus, cfg).value;
      var lr := LocusRows(rows, locus);
      && (forall t :: t in row.foundRelaxed ==> Complete(t) && !IsSpecific(t, cfg.efo) && exists x :: x in lr && HitOf(x) == t)
      && (forall a, b :: a in row.foundRelaxed && b in row.foundRelaxed && TraitKey(a) == TraitKey(b) ==> a == b)
      && (forall x :: x in lr && Complete(HitOf(x)) && !IsSpecific(HitOf(x), cfg.efo) ==>
            exists t :: t in row.foundRelaxed && TraitKey(t) == TraitKey(HitOf(x)) && Ranks(t.r2, HitOf(x).r2))
    ensures var row := LocusReport(rows, locus, cfg).value;
      var strict := LocusStrict(rows, locus, cfg);
      row.specificStrict.Some? && row.specificRelaxed.Some? ==>
      && (forall t :: t in row.specificStrict.value ==> Complete(t) && IsSpecific(t, cfg.efo) && exists x :: x in strict && HitOf(x) == t)
      && (forall x :: x in strict && Complete(HitOf(x)) && IsSpecific(HitOf(x), cfg.efo) ==>
            exists t :: t in row.specificStrict.value && TraitKey(t) == TraitKey(HitOf(x)))
      && (forall t :: t in row.specificStrict.value ==>
            exists u :: u in row.specificRelaxed.value && TraitKey(u) == TraitKey(t) && Ranks(u.r2, t.r2))
  {
    var lr := LocusRows(rows, locus);
    var strict := LocusStrict(rows, locus, cfg);
    var row := LocusReport(rows, locus, cfg).value;
    LocusReportTraitLists(rows, locus, cfg);
    TraitSide(strict, cfg.efo, false, row.foundStrict);
    TraitSide(lr, cfg.efo, false, row.foundRelaxed);
    TraitSideNested(strict, lr, cfg.efo, false, row.foundStrict, row.foundRelaxed);
    if row.specificStrict.Some? && row.specificRelaxed.Some? {
      TraitSide(strict, cfg.efo, true, row.specificStrict.value);
      TraitSideNested(strict, lr, cfg.efo, true, row.specificStrict.value, row.specificRelaxed.value);
    }
  }

  /** `create_top_level_report`: one row per locus, in order of first
      appearance; an empty report gives an empty table. */
  function TopLevelReport(rows: seq<ReportRow>, cfg: Settings): (r: Result<seq<TopRow>, ReportError>)
    ensures |rows| == 0 ==> r == Success([])
  {
    Traverse(UniqueLoci(rows), (locus: string) => LocusReport(rows, locus, cfg))
  }

  /** A successful report has exactly one row per distinct locus, in order
      of first appearance, each spanning every position of its locus. */
  lemma TopLevelReportShape(rows: seq<ReportRow>, cfg: Settings)
    requires TopLevelReport(rows, cfg).Success?
    ensures var out := TopLevelReport(rows, cfg).value;
      && |out| == |UniqueLoci(rows)|
      && (forall i :: 0 <= i < |out| ==> out[i].locusId == UniqueLoci(rows)[i])
      && (forall i, j :: 0 <= i < j < |out| ==> out[i].locusId != out[j].locusId)
      && (forall i :: 0 <= i < |out| ==> out[i].start <= out[i].end)
      && (forall i, x :: 0 <= i < |out| && x in rows && x.locusId == out[i].locusId ==> out[i].start <= x.pos <= out[i].end)
  {
    var loci := UniqueLoci(rows);
    var out := TopLevelReport(rows, cfg).value;
    forall i | 0 <= i < |out|
      ensures LocusReport(rows, loci[i], cfg) == Success(out[i])
    {
    }
    forall i, x | 0 <= i < |out| && x in rows && x.locusId == out[i].locusId
      ensures out[i].start <= x.pos <= out[i].end
    {
      assert x in LocusRows(rows, loci[i]);
    }
  }

  /** Every locus of the report is covered: `create_top_level_report`
      succeeds as soon as the column dictionary has every key it reads and
      every locus has its lead row with the numeric lead columns. */
  lemma TopLevelReportSucceeds(rows: seq<ReportRow>, cfg: Settings)
    requires "chrom" in cfg.columns && "pos" in cfg.columns && "pval" in cfg.columns
    requires forall l :: l in UniqueLoci(rows) ==>
      FirstLead(LocusRows(rows, l), l).Some? && HasStats(cfg.columns, FirstLead(LocusRows(rows, l), l).value)
    ensures TopLevelReport(rows, cfg).Success?
  {
    var loci := UniqueLoci(rows);
    UniqueLociMembers(rows);
    forall i | 0 <= i < |loci|
      ensures LocusReport(rows, loci[i], cfg).Success?
    {
      assert loci[i] in loci;
    }
  }

  // ---------------------------------------------------------------------
  // The column dictionary of the command line
  // ---------------------------------------------------------------------

  /** `columns_from_arguments` as written has no key for beta or the allele
      frequencies, so every non-empty report raises: at the lead p-value
      when the lead row is missing, at `columns["beta"]` otherwise. */
  lemma TopLevelReportFailsWithFiveColumns(rows: seq<ReportRow>, labels: seq<string>, cfg: Settings)
    requires |rows| > 0
    requires Utils.ColumnsFromArguments(labels).Some?
    requires cfg.columns == Utils.ColumnsFromArguments(labels).value
    ensures TopLevelReport(rows, cfg).Failure?
  {
    var loci := UniqueLoci(rows);
    UniqueLociMembers(rows);
    assert rows[0] in rows;
    var l := loci[0];
    assert "beta" !in cfg.columns;
    assert LeadValues(cfg.columns, LocusRows(rows, l), l).Failure?;
    assert LocusReport(rows, l, cfg).Failure?;
  }

  const ReportKeys: set<string> := {"chrom", "pos", "ref", "alt", "pval", "beta", "af", "af_cases", "af_controls"}

  /** The dictionary the nine `--column-labels` (CHROM POS REF ALT PVAL
      BETA AF AF_CASE AF_CONTROL) call for: the five keys of
      `columns_from_arguments` and the four the report reads. */
  function ReportColumns(labels: seq<string>): (r: map<string, string>)
    requires |labels| == 9
    ensures forall k :: k in r <==> k in ReportKeys
    ensures forall k :: k in Utils.ColumnsFromArguments(labels).value ==> k in r && r[k] == Utils.ColumnsFromArguments(labels).value[k]
  {
    map["chrom" := labels[0], "pos" := labels[1], "ref" := labels[2], "alt" := labels[3], "pval" := labels[4],
        "beta" := labels[5], "af" := labels[6], "af_cases" := labels[7], "af_controls" := labels[8]]
  }

  /** With the nine-key dictionary the lead values are found exactly when
      the lead row exists and has the four numeric columns. */
  lemma ReportColumnsSupplyLead(labels: seq<string>, rs: seq<ReportRow>, locus: string)
    requires |labels| == 9
    ensures var lead := FirstLead(rs, locus);
      LeadValues(ReportColumns(labels), rs, locus).Success?
      <==> lead.Some? && HasLeadColumns(labels, lead.value)
  {
    var cols := ReportColumns(labels);
    assert cols["beta"] == labels[5] && cols["af"] == labels[6];
    assert cols["af_cases"] == labels[7] && cols["af_controls"] == labels[8];
    assert "pval" in cols;
  }

  /** The lead row has the columns the last four labels name. */
  predicate HasLeadColumns(labels: seq<string>, x: ReportRow)
    requires |labels| == 9
  {
    labels[5] in x.stats && labels[6] in x.stats && labels[7] in x.stats && labels[8] in x.stats
  }

  /** The report `main` writes, with the nine-key dictionary. */
  function TopReportFromArguments(rows: seq<ReportRow>, labels: seq<string>, efo: seq<string>, grouping: string,
                                  thr: real, strictR2: real, hasFunctional: bool): (r: Result<seq<TopRow>, ReportError>)
    requires |labels| == 9
    ensures |rows| == 0 ==> r == Success([])
  {
    TopLevelReport(rows, Settings(efo, ReportColumns(labels), GroupingOf(grouping), thr, strictR2, hasFunctional))
  }

  /** With the nine-key dictionary every locus whose lead row carries the
      numeric columns gets its row. */
  lemma TopReportFromArgumentsSucceeds(rows: seq<ReportRow>, labels: seq<string>, efo: seq<string>, grouping: string,
                                       thr: real, strictR2: real, hasFunctional: bool)
    requires |labels| == 9
    requires forall l :: l in UniqueLoci(rows) ==>
      FirstLead(LocusRows(rows, l), l).Some? && HasLeadColumns(labels, FirstLead(LocusRows(rows, l), l).value)
    ensures TopReportFromArguments(rows, labels, efo, grouping, thr, strictR2, hasFunctional).Success?
  {
    var cfg := Settings(efo, ReportColumns(labels), GroupingOf(grouping), thr, strictR2, hasFunctional);
    forall l | l in UniqueLoci(rows)
      ensures HasStats(cfg.columns, FirstLead(LocusRows(rows, l), l).value)
    {
      ReportColumnsSupplyLead(labels, LocusRows(rows, l), l);
    }
    TopLevelReportSucceeds(rows, cfg);
  }
}
