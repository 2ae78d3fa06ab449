/** Indel reconciliation of Scripts/compare.py: the catalog writes an
    insertion or deletion with '-' for the missing allele and a position one
    base later than the local summary statistics, which write the shared
    leading base. `solve_indels` rewrites such a catalog row from the local
    variant it matches; `load_api_summaries` keeps the other rows as they
    are and appends the solved ones. */
module Indels {
  import opened Wrappers
  import opened Seqs
  import Utils

  /** One catalog association: its variant fields and everything else
      (trait, p-value, study, ...) as opaque text. */
  datatype Association = Association(chrom: string, pos: int, ref: string, alt: string, info: map<string, string>)

  /** Python's `s[1:]`, which is empty for the empty string. */
  function Tail(s: string): (r: string)
    ensures |s| > 0 ==> r == s[1..]
    ensures |s| == 0 ==> r == ""
  {
    if |s| == 0 then "" else s[1..]
  }

  /** The local alleles `(ref, alt)` explain the catalog alleles `(a1, a2)`:
      an insertion ('-' as reference) whose local reference is the single
      leading base and whose local alternative is that base followed by the
      inserted text, or a deletion ('-' as alternative) the other way round. */
  predicate Explains(a1: string, a2: string, ref: string, alt: string)
  {
    || (a1 == "-" && |ref| == 1 && Tail(alt) == a2)
    || (a1 != "-" && a2 == "-" && |alt| == 1 && Tail(ref) == a1)
  }

  /** The four allele tests of `solve_indels` for one local candidate with
      alleles `(b1, b2)`: the alleles it assigns, in either orientation, or
      `None` when neither orientation explains the catalog row. */
  function MatchIndel(a1: string, a2: string, b1: string, b2: string): (r: Option<(string, string)>)
    ensures r.Some? ==> Explains(a1, a2, r.value.0, r.value.1)
    ensures r.Some? ==> r.value == (b1, b2) || r.value == (b2, b1)
    ensures r.None? <==> !Explains(a1, a2, b1, b2) && !Explains(a1, a2, b2, b1)
  {
    if a1 == "-" then
      if |b1| == 1 && Tail(b2) == a2 then Some((b1, b2))
      else if |b2| == 1 && Tail(b1) == a2 then Some((b2, b1))
      else None
    else if a2 == "-" then
      if |b1| == 1 && Tail(b2) == a1 then Some((b2, b1))
      else if |b2| == 1 && Tail(b1) == a1 then Some((b1, b2))
      else None
    else None
  }

  /** A local variant is a candidate for a catalog row when it sits on the
      same chromosome one base earlier. */
  predicate Candidate(h: Association, v: Utils.Variant)
  {
    v.chrom == h.chrom && v.pos == h.pos - 1
  }

  /** The catalog row rewritten with the local variant's position and the
      matched alleles (`indel_helper`). */
  function Rewrite(h: Association, v: Utils.Variant, alleles: (string, string)): (r: Association)
    ensures r.info == h.info
  {
    Association(v.chrom, v.pos, alleles.0, alleles.1, h.info)
  }

  /** A candidate that matches. */
  predicate Solves(h: Association, v: Utils.Variant)
  {
    Candidate(h, v) && MatchIndel(h.ref, h.alt, v.ref, v.alt).Some?
  }

  /** `locals[i]` is the first local variant in table order that solves `h`. */
  predicate FirstSolver(h: Association, locals: seq<Utils.Variant>, i: int)
  {
    0 <= i < |locals| && Solves(h, locals[i]) && forall j :: 0 <= j < i ==> !Solves(h, locals[j])
  }

  /** The inner loop of `solve_indels` for one catalog row: the first
      matching candidate in table order decides (`break`). */
  function SolveIndel(h: Association, locals: seq<Utils.Variant>): (r: Option<Association>)
    ensures r.None? <==> forall i :: 0 <= i < |locals| ==> !Solves(h, locals[i])
    ensures r.Some? ==> exists i :: FirstSolver(h, locals, i) && r.value == Rewrite(h, locals[i], MatchIndel(h.ref, h.alt, locals[i].ref, locals[i].alt).value)
  {
    if |locals| == 0 then None
    else if Solves(h, locals[0]) then
      Some(Rewrite(h, locals[0], MatchIndel(h.ref, h.alt, locals[0].ref, locals[0].alt).value))
    else
      var r := SolveIndel(h, locals[1..]);
      assert forall i :: 1 <= i < |locals| ==> locals[i] == locals[1..][i - 1];
      if r.Some? then
        var i :| FirstSolver(h, locals[1..], i) && r.value == Rewrite(h, locals[1..][i], MatchIndel(h.ref, h.alt, locals[1..][i].ref, locals[1..][i].alt).value);
        assert FirstSolver(h, locals, i + 1) by {
          forall j | 0 <= j < i + 1
            ensures !Solves(h, locals[j])
          {
            if j > 0 {
              assert locals[j] == locals[1..][j - 1];
            }
          }
        }
        r
      else r
  }

  /** A solved row moves one base to the left on the same chromosome, takes
      alleles that explain the catalog's, and keeps every other field. */
  lemma SolveIndelShape(h: Association, locals: seq<Utils.Variant>)
    requires SolveIndel(h, locals).Some?
    ensures var r := SolveIndel(h, locals).value;
      && r.chrom == h.chrom && r.pos == h.pos - 1 && r.info == h.info
      && Explains(h.ref, h.alt, r.ref, r.alt)
      && (h.ref == "-" ==> |r.ref| == 1 && Tail(r.alt) == h.alt)
      && (h.ref != "-" && h.alt == "-" ==> |r.alt| == 1 && Tail(r.ref) == h.ref)
  {
  }

  /** `solve_indels`: at most one output row per catalog row, in order;
      rows that no local variant explains are dropped. */
  function SolveIndels(hits: seq<Association>, locals: seq<Utils.Variant>): (out: seq<Association>)
    ensures |out| <= |hits|
  {
    if |hits| == 0 then []
    else
      var rest := SolveIndels(hits[1..], locals);
      match SolveIndel(hits[0], locals)
      case Some(r) => [r] + rest
      case None => rest
  }

  /** Every output row solves some catalog row, and every catalog row that
      can be solved appears solved. */
  lemma {:induction false} SolveIndelsMembers(hits: seq<Association>, locals: seq<Utils.Variant>)
    ensures forall o :: o in SolveIndels(hits, locals) ==> exists h :: h in hits && SolveIndel(h, locals) == Some(o)
    ensures forall h :: h in hits && SolveIndel(h, locals).Some? ==> SolveIndel(h, locals).value in SolveIndels(hits, locals)
    decreases |hits|
  {
    if |hits| > 0 {
      var rest := SolveIndels(hits[1..], locals);
      SolveIndelsMembers(hits[1..], locals);
      var out := SolveIndels(hits, locals);
      assert out == (if SolveIndel(hits[0], locals).Some? then [SolveIndel(hits[0], locals).value] + rest else rest);
      forall o | o in out
        ensures exists h :: h in hits && SolveIndel(h, locals) == Some(o)
      {
        if o !in rest {
          assert SolveIndel(hits[0], locals) == Some(o);
          assert hits[0] in hits;
        } else {
          var h :| h in hits[1..] && SolveIndel(h, locals) == Some(o);
          assert h in hits;
        }
      }
      forall h | h in hits && SolveIndel(h, locals).Some?
        ensures SolveIndel(h, locals).value in out
      {
        if h != hits[0] {
          assert h in hits[1..];
        }
      }
    }
  }

  /** Solving distributes over concatenation of the catalog rows. */
  lemma {:induction false} SolveIndelsConcat(a: seq<Association>, b: seq<Association>, locals: seq<Utils.Variant>)
    ensures SolveIndels(a + b, locals) == SolveIndels(a, locals) + SolveIndels(b, locals)
    decreases |a|
  {
    if |a| == 0 {
      assert a + b == b;
    } else {
      assert (a + b)[0] == a[0];
      assert (a + b)[1..] == a[1..] + b;
      SolveIndelsConcat(a[1..], b, locals);
    }
  }

  /** The example of the source comment: the catalog insertion -/TCGA at
      101 is the local T/TTCGA at 100. */
  lemma SolveIndelExample(info: map<string, string>)
    ensures SolveIndel(Association("1", 101, "-", "TCGA", info), [Utils.Variant("1", 100, "T", "TTCGA")])
         == Some(Association("1", 100, "T", "TTCGA", info))
  {
    assert Tail("TTCGA") == "TCGA";
  }

  /** A row whose alleles are both real is never rewritten. */
  lemma SolveIndelNeedsDash(h: Association, locals: seq<Utils.Variant>)
    requires h.ref != "-" && h.alt != "-"
    ensures SolveIndel(h, locals).None?
  {
  }

  // ---------------------------------------------------------------------
  // The indel split of load_api_summaries
  // ---------------------------------------------------------------------

  predicate IsIndel(h: Association)
  {
    h.ref == "-" || h.alt == "-"
  }

  /** The catalog rows after indel reconciliation: the rows without '-'
      unchanged and in order, followed by the solved indel rows. */
  function ResolveIndels(hits: seq<Association>, locals: seq<Utils.Variant>): (out: seq<Association>)
    ensures |out| <= |hits|
  {
    var plain := Filter(hits, (h: Association) => !IsIndel(h));
    var indels := Filter(hits, IsIndel);
    PartitionSize(hits);
    plain + SolveIndels(indels, locals)
  }

  lemma {:induction false} PartitionSize(hits: seq<Association>)
    ensures |Filter(hits, (h: Association) => !IsIndel(h))| + |Filter(hits, IsIndel)| == |hits|
    decreases |hits|
  {
    if |hits| > 0 {
      PartitionSize(hits[1..]);
    }
  }

  /** Every row without '-' survives unchanged, every output row either is
      such a row or solves an indel row, and nothing without '-' is lost. */
  lemma ResolveIndelsShape(hits: seq<Association>, locals: seq<Utils.Variant>)
    ensures var out := ResolveIndels(hits, locals);
      && Filter(hits, (h: Association) => !IsIndel(h)) <= out
      && (forall o :: o in out ==> (o in hits && !IsIndel(o)) || exists h :: h in hits && IsIndel(h) && SolveIndel(h, locals) == Some(o))
      && (forall h :: h in hits && IsIndel(h) && SolveIndel(h, locals).Some? ==> SolveIndel(h, locals).value in out)
  {
    var plain := Filter(hits, (h: Association) => !IsIndel(h));
    var indels := Filter(hits, IsIndel);
    var out := plain + SolveIndels(indels, locals);
    assert out == ResolveIndels(hits, locals);
    SolveIndelsMembers(indels, locals);
    forall o | o in out
      ensures (o in hits && !IsIndel(o)) || exists h :: h in hits && IsIndel(h) && SolveIndel(h, locals) == Some(o)
    {
      if o !in plain {
        assert o in SolveIndels(indels, locals);
      }
    }
  }
}
