/** Closed genomic intervals and the per-chromosome interval merger
    (`Region`, `Region.overlaps` and `prune_regions` of
    Scripts/autoreporting_utils.py), plus the padded query windows that
    `load_api_summaries` (Scripts/compare.py) builds before merging. */
module Regions {
  import opened Wrappers
  import opened Strings

  /** A closed interval [start, end] on one chromosome. */
  datatype Region = Region(chrom: string, start: int, end: int)

  /** Raised by `overlaps` for a region whose end lies before its start. */
  datatype RegionError = InvalidRegion(region: Region)

  predicate Valid(r: Region)
  {
    r.start <= r.end
  }

  predicate AllValid(rs: seq<Region>)
  {
    forall r :: r in rs ==> Valid(r)
  }

  /** Position `p` of chromosome `c` lies inside `r`. */
  predicate Contains(r: Region, c: string, p: int)
  {
    r.chrom == c && r.start <= p <= r.end
  }

  /** Some region of `rs` contains position `p` of chromosome `c`. */
  ghost predicate Covered(rs: seq<Region>, c: string, p: int)
  {
    exists r :: r in rs && Contains(r, c, p)
  }

  function Min(a: int, b: int): int
  {
    if a <= b then a else b
  }

  function Max(a: int, b: int): int
  {
    if a <= b then b else a
  }

  /** The region spanning `a` and `b`, kept on `a`'s chromosome. */
  function Merge(a: Region, b: Region): Region
  {
    Region(a.chrom, Min(a.start, b.start), Max(a.end, b.end))
  }

  /** `Region.overlaps`: both regions are checked for validity (this one
      first), then two regions overlap when they share a position. */
  function Overlaps(a: Region, b: Region): (r: Result<bool, RegionError>)
    ensures r.Failure? <==> !Valid(a) || !Valid(b)
    ensures r.Failure? ==> r.error == InvalidRegion(if Valid(a) then b else a)
    ensures r.Success? ==> (r.value <==> exists p :: Contains(a, a.chrom, p) && Contains(b, a.chrom, p))
  {
    if a.end < a.start then Failure(InvalidRegion(a))
    else if b.end < b.start then Failure(InvalidRegion(b))
    else if a.chrom == b.chrom && a.start <= b.end && b.start <= a.end then
      var p := Max(a.start, b.start);
      assert Contains(a, a.chrom, p) && Contains(b, a.chrom, p);
      Success(true)
    else
      Success(false)
  }

  /** On valid regions `overlaps` is symmetric and reflexive, is false
      across chromosomes, and counts a shared endpoint as an overlap. */
  lemma OverlapsProperties(a: Region, b: Region)
    requires Valid(a) && Valid(b)
    ensures Overlaps(a, b) == Overlaps(b, a)
    ensures Overlaps(a, a) == Success(true)
    ensures a.chrom != b.chrom ==> Overlaps(a, b) == Success(false)
    ensures a.chrom == b.chrom && a.end == b.start ==> Overlaps(a, b) == Success(true)
  {
  }

  // ---------------------------------------------------------------------
  // Sorting one chromosome's regions by start (Python's stable `sorted`)
  // ---------------------------------------------------------------------

  predicate SortedByStart(rs: seq<Region>)
  {
    forall i, j :: 0 <= i < j < |rs| ==> rs[i].start <= rs[j].start
  }

  function InsertByStart(r: Region, rs: seq<Region>): (out: seq<Region>)
    requires SortedByStart(rs)
    ensures SortedByStart(out)
    ensures multiset(out) == multiset(rs) + multiset{r}
    ensures out[0] == r || (|rs| > 0 && out[0] == rs[0])
  {
    if |rs| == 0 || r.start <= rs[0].start then [r] + rs
    else
      var tail := InsertByStart(r, rs[1..]);
      assert rs == [rs[0]] + rs[1..];
      assert rs[0].start <= tail[0].start;
      [rs[0]] + tail
  }

  /** `sorted(c_regions, key=lambda x: x.start)`, stable on equal starts. */
  function SortByStart(rs: seq<Region>): (out: seq<Region>)
    ensures SortedByStart(out)
    ensures multiset(out) == multiset(rs)
  {
    if |rs| == 0 then []
    else
      assert rs == [rs[0]] + rs[1..];
      InsertByStart(rs[0], SortByStart(rs[1..]))
  }

  lemma SortByStartSameElements(rs: seq<Region>)
    ensures |SortByStart(rs)| == |rs|
    ensures forall r :: r in SortByStart(rs) <==> r in rs
  {
    var sorted := SortByStart(rs);
    assert |sorted| == |multiset(sorted)| == |multiset(rs)| == |rs|;
    forall r
      ensures r in sorted <==> r in rs
    {
      assert r in sorted <==> r in multiset(sorted);
      assert r in rs <==> r in multiset(rs);
    }
  }

  lemma {:induction false} SortSortedIsIdentity(rs: seq<Region>)
    requires SortedByStart(rs)
    ensures SortByStart(rs) == rs
  {
    if |rs| > 0 {
      SortSortedIsIdentity(rs[1..]);
      assert rs == [rs[0]] + rs[1..];
    }
  }

  // ---------------------------------------------------------------------
  // The sweep over one chromosome's sorted regions
  // ---------------------------------------------------------------------

  /** Regions are ordered and strictly apart: each ends before the next starts. */
  predicate Separated(rs: seq<Region>)
  {
    forall i, j :: 0 <= i < j < |rs| ==> rs[i].end < rs[j].start
  }

  /** The inner loop of `prune_regions`: `cur` is the open output region
      (`out[-1]`); every following region either overlaps it and widens it,
      or closes it and becomes the new open region. */
  function Sweep(cur: Region, rest: seq<Region>): (r: Result<seq<Region>, RegionError>)
    ensures r.Success? <==> (|rest| == 0 || Valid(cur)) && AllValid(rest)
    decreases |rest|
  {
    if |rest| == 0 then Success([cur])
    else
      assert rest == [rest[0]] + rest[1..];
      var overlap :- Overlaps(cur, rest[0]);
      if overlap then
        Sweep(Merge(cur, rest[0]), rest[1..])
      else
        var tail :- Sweep(rest[0], rest[1..]);
        Success([cur] + tail)
  }

  lemma CoveredConcat(a: seq<Region>, b: seq<Region>, c: string, p: int)
    ensures Covered(a + b, c, p) <==> Covered(a, c, p) || Covered(b, c, p)
  {
    if Covered(a + b, c, p) {
      var r :| r in a + b && Contains(r, c, p);
      assert r in a || r in b;
    }
    if Covered(a, c, p) {
      var r :| r in a && Contains(r, c, p);
      assert r in a + b;
    }
    if Covered(b, c, p) {
      var r :| r in b && Contains(r, c, p);
      assert r in a + b;
    }
  }

  lemma CoveredSingle(r: Region, c: string, p: int)
    ensures Covered([r], c, p) <==> Contains(r, c, p)
  {
    if Contains(r, c, p) {
      assert r in [r];
    }
  }

  /** Coverage depends only on which regions occur, not on their order. */
  lemma CoveredSameElements(a: seq<Region>, b: seq<Region>, c: string, p: int)
    requires forall r :: r in a <==> r in b
    ensures Covered(a, c, p) <==> Covered(b, c, p)
  {
  }

  /** What the sweep of one chromosome starts from: valid regions of one
      chromosome, the rest sorted by start and none starting before `cur`. */
  predicate SweepReady(cur: Region, rest: seq<Region>)
  {
    && Valid(cur) && AllValid(rest) && SortedByStart(rest)
    && (forall r :: r in rest ==> r.chrom == cur.chrom && cur.start <= r.start)
  }

  lemma SweepReadyStep(cur: Region, rest: seq<Region>)
    requires SweepReady(cur, rest) && |rest| > 0
    ensures SweepReady(rest[0], rest[1..])
    ensures SweepReady(Merge(cur, rest[0]), rest[1..])
    ensures Merge(cur, rest[0]).start == cur.start
  {
    assert rest[0] in rest;
    forall r | r in rest[1..]
      ensures r in rest && rest[0].start <= r.start
    {
      var j :| 0 <= j < |rest[1..]| && rest[1..][j] == r;
      assert rest[j + 1] == r;
    }
  }

  /** Merging an overlapping successor covers exactly what the two covered. */
  lemma MergeCovers(a: Region, b: Region, c: string, p: int)
    requires Valid(a) && Valid(b) && a.chrom == b.chrom
    requires a.start <= b.start <= a.end
    ensures Contains(Merge(a, b), c, p) <==> Contains(a, c, p) || Contains(b, c, p)
  {
  }

  lemma SeparatedCons(r: Region, rs: seq<Region>)
    requires Separated(rs) && AllValid(rs)
    requires |rs| > 0 ==> r.end < rs[0].start
    ensures Separated([r] + rs)
  {
    var out := [r] + rs;
    forall i, j | 0 <= i < j < |out|
      ensures out[i].end < out[j].start
    {
      if i == 0 && j > 1 {
        assert rs[0] in rs;
        assert out[j] == rs[j - 1];
      }
    }
  }

  /** On sorted, valid input of one chromosome the sweep produces valid,
      strictly separated regions of that chromosome, the first one starting
      where the input starts. */
  lemma {:induction false} SweepShape(cur: Region, rest: seq<Region>)
    requires SweepReady(cur, rest)
    ensures Sweep(cur, rest).Success?
    ensures var out := Sweep(cur, rest).value;
      && |out| >= 1 && out[0].start == cur.start
      && AllValid(out)
      && (forall r :: r in out ==> r.chrom == cur.chrom)
      && Separated(out)
    decreases |rest|
  {
    if |rest| > 0 {
      SweepReadyStep(cur, rest);
      var next := rest[0];
      if next.start <= cur.end {
        assert Overlaps(cur, next) == Success(true) by {
          assert Contains(cur, cur.chrom, next.start) && Contains(next, cur.chrom, next.start);
        }
        SweepShape(Merge(cur, next), rest[1..]);
      } else {
        assert Overlaps(cur, next) == Success(false);
        SweepShape(next, rest[1..]);
        SeparatedCons(cur, Sweep(next, rest[1..]).value);
      }
    }
  }

  /** The sweep covers exactly the positions its input covers. */
  lemma {:induction false} SweepCovers(cur: Region, rest: seq<Region>)
    requires SweepReady(cur, rest)
    ensures Sweep(cur, rest).Success?
    ensures forall p :: Covered(Sweep(cur, rest).value, cur.chrom, p) <==> Covered([cur] + rest, cur.chrom, p)
    decreases |rest|
  {
    var c := cur.chrom;
    if |rest| > 0 {
      SweepReadyStep(cur, rest);
      var next := rest[0];
      assert rest == [next] + rest[1..];
      if next.start <= cur.end {
        assert Overlaps(cur, next) == Success(true) by {
          assert Contains(cur, c, next.start) && Contains(next, c, next.start);
        }
        var merged := Merge(cur, next);
        SweepCovers(merged, rest[1..]);
        forall p
          ensures Covered(Sweep(cur, rest).value, c, p) <==> Covered([cur] + rest, c, p)
        {
          MergeCovers(cur, next, c, p);
          CoveredConcat([merged], rest[1..], c, p);
          CoveredSingle(merged, c, p);
          CoveredConcat([cur], rest, c, p);
          CoveredSingle(cur, c, p);
          CoveredConcat([next], rest[1..], c, p);
          CoveredSingle(next, c, p);
        }
      } else {
        assert Overlaps(cur, next) == Success(false);
        SweepCovers(next, rest[1..]);
        var tail := Sweep(next, rest[1..]).value;
        forall p
          ensures Covered(Sweep(cur, rest).value, c, p) <==> Covered([cur] + rest, c, p)
        {
          CoveredConcat([cur], tail, c, p);
          CoveredConcat([cur], rest, c, p);
        }
      }
    }
  }

  // ---------------------------------------------------------------------
  // Partition by chromosome, in sorted chromosome order
  // ---------------------------------------------------------------------

  /** The regions of chromosome `c`, in input order (`cdict[c]`). */
  function OnChrom(rs: seq<Region>, c: string): (out: seq<Region>)
    ensures forall r :: r in out <==> r in rs && r.chrom == c
  {
    if |rs| == 0 then []
    else (if rs[0].chrom == c then [rs[0]] else []) + OnChrom(rs[1..], c)
  }

  /** The chromosomes that occur in `rs`. */
  function Chroms(rs: seq<Region>): set<string>
  {
    set r | r in rs :: r.chrom
  }

  predicate StrictlySorted(cs: seq<string>)
  {
    forall i, j :: 0 <= i < j < |cs| ==> LexLess(cs[i], cs[j])
  }

  lemma LexLessTransitive(a: string, b: string, c: string)
    requires LexLess(a, b) && LexLess(b, c)
    ensures LexLess(a, c)
  {
    LexLeTransitive(a, b, c);
    if a == c {
      LexLeAntisymmetric(a, b);
    }
  }

  lemma PrependStrictlySorted(c: string, cs: seq<string>)
    requires StrictlySorted(cs)
    requires |cs| == 0 || LexLess(c, cs[0])
    ensures StrictlySorted([c] + cs)
  {
    forall j | 0 < j < |cs|
      ensures LexLess(c, cs[j])
    {
      LexLessTransitive(c, cs[0], cs[j]);
    }
  }

  function InsertChrom(c: string, cs: seq<string>): (out: seq<string>)
    requires StrictlySorted(cs)
    ensures StrictlySorted(out)
    ensures forall x :: x in out <==> x in cs || x == c
  {
    if |cs| == 0 then [c]
    else if c == cs[0] then cs
    else if LexLe(c, cs[0]) then
      PrependStrictlySorted(c, cs);
      [c] + cs
    else
      LexLeTotal(c, cs[0]);
      var tail := InsertChrom(c, cs[1..]);
      assert |tail| > 0 && tail[0] in tail;
      PrependStrictlySorted(cs[0], tail);
      [cs[0]] + tail
  }

  /** `sorted(set(r.chrom for r in regions))`. */
  function SortedChroms(rs: seq<Region>): (cs: seq<string>)
    ensures StrictlySorted(cs)
    ensures forall c :: c in cs <==> c in Chroms(rs)
  {
    if |rs| == 0 then []
    else
      assert rs == [rs[0]] + rs[1..];
      InsertChrom(rs[0].chrom, SortedChroms(rs[1..]))
  }

  /** A strictly sorted list is determined by its elements. */
  lemma {:induction false} StrictlySortedUnique(a: seq<string>, b: seq<string>)
    requires StrictlySorted(a) && StrictlySorted(b)
    requires forall x :: x in a <==> x in b
    ensures a == b
    decreases |a|
  {
    if |a| > 0 {
      assert a[0] in b;
      assert |b| > 0 && b[0] in a;
      if a[0] != b[0] {
        var i :| 0 <= i < |a| && a[i] == b[0];
        var j :| 0 <= j < |b| && b[j] == a[0];
        assert LexLess(a[0], b[0]) && LexLess(b[0], a[0]);
        LexLeAntisymmetric(a[0], b[0]);
      }
      forall x
        ensures x in a[1..] <==> x in b[1..]
      {
        if x in a[1..] {
          var k :| 0 <= k < |a[1..]| && a[1..][k] == x;
          assert a[k + 1] == x && x != a[0];
          assert x in a;
          var j :| 0 <= j < |b| && b[j] == x;
          assert j != 0 && b[1..][j - 1] == x;
        }
        if x in b[1..] {
          var k :| 0 <= k < |b[1..]| && b[1..][k] == x;
          assert b[k + 1] == x && x != b[0];
          assert x in b;
          var i :| 0 <= i < |a| && a[i] == x;
          assert i != 0 && a[1..][i - 1] == x;
        }
      }
      StrictlySortedUnique(a[1..], b[1..]);
      assert a == [a[0]] + a[1..] && b == [b[0]] + b[1..];
    } else {
      NonEmptyHasFirst(b);
    }
  }

  lemma NonEmptyHasFirst<T>(s: seq<T>)
    ensures |s| > 0 ==> s[0] in s
  {
  }

  lemma ChromsHaveRegions(rs: seq<Region>, cs: seq<string>)
    requires forall c :: c in cs ==> c in Chroms(rs)
    ensures forall c :: c in cs ==> OnChrom(rs, c) != []
  {
    forall c | c in cs
      ensures OnChrom(rs, c) != []
    {
      var r :| r in rs && r.chrom == c;
      assert r in OnChrom(rs, c);
    }
  }

  /** The merged output of one chromosome: its regions sorted by start and
      swept, the first one compared with itself. */
  function Block(rs: seq<Region>, c: string): Result<seq<Region>, RegionError>
    requires OnChrom(rs, c) != []
  {
    var sorted := SortByStart(OnChrom(rs, c));
    SortByStartSameElements(OnChrom(rs, c));
    Sweep(sorted[0], sorted)
  }

  /** The outer loop of `prune_regions` over the chromosomes `cs`. */
  function PruneBlocks(cs: seq<string>, rs: seq<Region>): Result<seq<Region>, RegionError>
    requires forall c :: c in cs ==> OnChrom(rs, c) != []
  {
    if |cs| == 0 then Success([])
    else
      var block :- Block(rs, cs[0]);
      var rest :- PruneBlocks(cs[1..], rs);
      Success(block + rest)
  }

  /** `prune_regions`: merge overlapping regions chromosome by chromosome.
      It raises exactly when some input region is invalid, because every
      region is passed to `overlaps` at least once. */
  function PruneRegions(rs: seq<Region>): (r: Result<seq<Region>, RegionError>)
    ensures r.Success? <==> AllValid(rs)
  {
    var cs := SortedChroms(rs);
    ChromsHaveRegions(rs, cs);
    PruneBlocksSucceeds(cs, rs);
    PruneBlocks(cs, rs)
  }

  lemma BlockSucceeds(rs: seq<Region>, c: string)
    requires OnChrom(rs, c) != []
    ensures Block(rs, c).Success? <==> forall r :: r in rs && r.chrom == c ==> Valid(r)
  {
    var sorted := SortByStart(OnChrom(rs, c));
    SortByStartSameElements(OnChrom(rs, c));
    assert sorted[0] in sorted;
    assert Block(rs, c) == Sweep(sorted[0], sorted);
  }

  lemma {:induction false} PruneBlocksSucceeds(cs: seq<string>, rs: seq<Region>)
    requires forall c :: c in cs ==> OnChrom(rs, c) != []
    requires forall c :: c in cs <==> c in Chroms(rs)
    ensures PruneBlocks(cs, rs).Success? <==> AllValid(rs)
  {
    PruneBlocksSucceedsOn(cs, rs);
    if !AllValid(rs) {
      var r :| r in rs && !Valid(r);
      assert r.chrom in cs;
    }
  }

  lemma {:induction false} PruneBlocksSucceedsOn(cs: seq<string>, rs: seq<Region>)
    requires forall c :: c in cs ==> OnChrom(rs, c) != []
    ensures PruneBlocks(cs, rs).Success? <==>
      forall r :: r in rs && r.chrom in cs ==> Valid(r)
    decreases |cs|
  {
    if |cs| > 0 {
      BlockSucceeds(rs, cs[0]);
      PruneBlocksSucceedsOn(cs[1..], rs);
      assert forall x :: x in cs <==> x == cs[0] || x in cs[1..];
    }
  }

  // ---------------------------------------------------------------------
  // The shape of the output
  // ---------------------------------------------------------------------

  /** Chromosome blocks in sorted order; inside a block, regions in
      ascending order with a gap between consecutive ones. */
  predicate Canonical(rs: seq<Region>)
  {
    && AllValid(rs)
    && (forall i, j :: 0 <= i < j < |rs| ==> LexLe(rs[i].chrom, rs[j].chrom))
    && (forall i, j :: 0 <= i < j < |rs| && rs[i].chrom == rs[j].chrom ==> rs[i].end < rs[j].start)
  }

  /** No two regions of a canonical list overlap. */
  lemma CanonicalIsDisjoint(rs: seq<Region>)
    requires Canonical(rs)
    ensures forall i, j :: 0 <= i < |rs| && 0 <= j < |rs| && i != j ==> Overlaps(rs[i], rs[j]) == Success(false)
  {
    forall i, j | 0 <= i < |rs| && 0 <= j < |rs| && i != j
      ensures Overlaps(rs[i], rs[j]) == Success(false)
    {
      assert rs[i] in rs && rs[j] in rs;
    }
  }

  /** Only the regions of chromosome `c` cover positions of `c`. */
  lemma CoveredOnChrom(rs: seq<Region>, c: string, p: int)
    ensures Covered(OnChrom(rs, c), c, p) <==> Covered(rs, c, p)
  {
    if Covered(rs, c, p) {
      var r :| r in rs && Contains(r, c, p);
      assert r in OnChrom(rs, c);
    }
  }

  /** The block of `c` starts its sweep from sorted, valid regions of `c`. */
  lemma BlockReady(rs: seq<Region>, c: string)
    requires OnChrom(rs, c) != []
    requires AllValid(rs)
    ensures var sorted := SortByStart(OnChrom(rs, c));
      && |sorted| > 0 && sorted[0].chrom == c
      && SweepReady(sorted[0], sorted)
      && Block(rs, c) == Sweep(sorted[0], sorted)
      && (forall p :: Covered(sorted, c, p) <==> Covered(rs, c, p))
  {
    var on := OnChrom(rs, c);
    var sorted := SortByStart(on);
    SortByStartSameElements(on);
    assert sorted[0] in sorted;
    forall r | r in sorted
      ensures r.chrom == c && sorted[0].start <= r.start
    {
      var j :| 0 <= j < |sorted| && sorted[j] == r;
    }
    forall p
      ensures Covered(sorted, c, p) <==> Covered(rs, c, p)
    {
      CoveredSameElements(sorted, on, c, p);
      CoveredOnChrom(rs, c, p);
    }
  }

  lemma BlockShape(rs: seq<Region>, c: string)
    requires OnChrom(rs, c) != []
    requires AllValid(rs)
    ensures Block(rs, c).Success?
    ensures var out := Block(rs, c).value;
      && |out| >= 1 && AllValid(out)
      && (forall r :: r in out ==> r.chrom == c)
      && Separated(out)
      && (forall p :: Covered(out, c, p) <==> Covered(rs, c, p))
  {
    BlockReady(rs, c);
    var sorted := SortByStart(OnChrom(rs, c));
    SweepShape(sorted[0], sorted);
    SweepCovers(sorted[0], sorted);
    forall p
      ensures Covered(Block(rs, c).value, c, p) <==> Covered(rs, c, p)
    {
      CoveredConcat([sorted[0]], sorted, c, p);
      CoveredSingle(sorted[0], c, p);
    }
  }

  /** A separated block of chromosome `c` followed by a canonical list of
      later chromosomes is canonical. */
  lemma CanonicalConcat(block: seq<Region>, rest: seq<Region>, c: string)
    requires AllValid(block) && Separated(block)
    requires forall r :: r in block ==> r.chrom == c
    requires Canonical(rest)
    requires forall r :: r in rest ==> LexLess(c, r.chrom)
    ensures Canonical(block + rest)
  {
    var out := block + rest;
    forall i, j | 0 <= i < j < |out|
      ensures LexLe(out[i].chrom, out[j].chrom)
      ensures out[i].chrom == out[j].chrom ==> out[i].end < out[j].start
    {
      if j < |block| {
        assert out[i] == block[i] && out[j] == block[j];
        assert block[i] in block && block[j] in block;
        LexLeReflexive(c);
      } else if i < |block| {
        assert out[i] == block[i] && block[i] in block;
        assert out[j] == rest[j - |block|] && rest[j - |block|] in rest;
      } else {
        assert out[i] == rest[i - |block|] && out[j] == rest[j - |block|];
      }
    }
  }

  lemma {:induction false} PruneBlocksShape(cs: seq<string>, rs: seq<Region>)
    requires forall c :: c in cs ==> OnChrom(rs, c) != []
    requires StrictlySorted(cs)
    requires AllValid(rs)
    ensures PruneBlocks(cs, rs).Success?
    ensures Canonical(PruneBlocks(cs, rs).value)
    ensures forall r :: r in PruneBlocks(cs, rs).value ==> r.chrom in cs
    decreases |cs|
  {
    PruneBlocksSucceedsOn(cs, rs);
    if |cs| > 0 {
      var c := cs[0];
      BlockShape(rs, c);
      PruneBlocksShape(cs[1..], rs);
      var block := Block(rs, c).value;
      var rest := PruneBlocks(cs[1..], rs).value;
      assert PruneBlocks(cs, rs).value == block + rest;
      forall r | r in rest
        ensures LexLess(c, r.chrom)
      {
        var j :| 0 <= j < |cs[1..]| && cs[1..][j] == r.chrom;
        assert cs[j + 1] == r.chrom;
      }
      CanonicalConcat(block, rest, c);
    }
  }

  lemma {:induction false} PruneBlocksCovers(cs: seq<string>, rs: seq<Region>)
    requires forall c :: c in cs ==> OnChrom(rs, c) != []
    requires AllValid(rs)
    ensures PruneBlocks(cs, rs).Success?
    ensures forall c, p :: Covered(PruneBlocks(cs, rs).value, c, p) <==> c in cs && Covered(rs, c, p)
    decreases |cs|
  {
    PruneBlocksSucceedsOn(cs, rs);
    if |cs| > 0 {
      BlockShape(rs, cs[0]);
      PruneBlocksCovers(cs[1..], rs);
      var block := Block(rs, cs[0]).value;
      var rest := PruneBlocks(cs[1..], rs).value;
      assert PruneBlocks(cs, rs).value == block + rest;
      forall c, p
        ensures Covered(block + rest, c, p) <==> c in cs && Covered(rs, c, p)
      {
        CoveredConcat(block, rest, c, p);
        if Covered(block, c, p) {
          var r :| r in block && Contains(r, c, p);
        }
        assert c in cs <==> c == cs[0] || c in cs[1..];
      }
    }
  }

  /** `prune_regions` on valid input: the output is canonical (hence
      pairwise non-overlapping) and covers exactly the positions the input
      covers, chromosome by chromosome. */
  lemma PruneRegionsShape(rs: seq<Region>)
    requires AllValid(rs)
    ensures PruneRegions(rs).Success?
    ensures Canonical(PruneRegions(rs).value)
    ensures forall c, p :: Covered(PruneRegions(rs).value, c, p) <==> Covered(rs, c, p)
    ensures forall r :: r in PruneRegions(rs).value ==> r.chrom in Chroms(rs)
  {
    var cs := SortedChroms(rs);
    ChromsHaveRegions(rs, cs);
    PruneBlocksShape(cs, rs);
    PruneBlocksCovers(cs, rs);
    forall c, p | Covered(rs, c, p)
      ensures c in cs
    {
      var r :| r in rs && Contains(r, c, p);
    }
  }

  // ---------------------------------------------------------------------
  // Canonical lists are fixed points, so pruning is idempotent
  // ---------------------------------------------------------------------

  lemma {:induction false} OnChromConcat(a: seq<Region>, b: seq<Region>, c: string)
    ensures OnChrom(a + b, c) == OnChrom(a, c) + OnChrom(b, c)
    decreases |a|
  {
    if |a| == 0 {
      assert a + b == b;
    } else {
      assert (a + b)[0] == a[0];
      assert (a + b)[1..] == a[1..] + b;
      OnChromConcat(a[1..], b, c);
    }
  }

  lemma {:induction false} OnChromAll(rs: seq<Region>, c: string)
    requires forall r :: r in rs ==> r.chrom == c
    ensures OnChrom(rs, c) == rs
    decreases |rs|
  {
    if |rs| > 0 {
      assert rs[0] in rs;
      OnChromAll(rs[1..], c);
      assert rs == [rs[0]] + rs[1..];
    }
  }

  lemma {:induction false} OnChromNone(rs: seq<Region>, c: string)
    requires forall r :: r in rs ==> r.chrom != c
    ensures OnChrom(rs, c) == []
    decreases |rs|
  {
    if |rs| > 0 {
      assert rs[0] in rs;
      OnChromNone(rs[1..], c);
    }
  }

  lemma {:induction false} SweepSeparated(cur: Region, rest: seq<Region>)
    requires Valid(cur) && AllValid(rest)
    requires forall r :: r in rest ==> r.chrom == cur.chrom
    requires Separated([cur] + rest)
    ensures Sweep(cur, rest) == Success([cur] + rest)
    decreases |rest|
  {
    if |rest| > 0 {
      var s := [cur] + rest;
      assert s[0] == cur && s[1] == rest[0];
      assert rest[0] in rest;
      assert Overlaps(cur, rest[0]) == Success(false);
      assert rest == [rest[0]] + rest[1..];
      assert Separated(rest) by {
        forall i, j | 0 <= i < j < |rest|
          ensures rest[i].end < rest[j].start
        {
          assert rest[i] == s[i + 1] && rest[j] == s[j + 1];
        }
      }
      forall r | r in rest[1..]
        ensures r in rest
      {
      }
      SweepSeparated(rest[0], rest[1..]);
    } else {
      assert [cur] + rest == [cur];
    }
  }

  lemma BlockOfRun(rs: seq<Region>, c: string)
    requires |rs| >= 1 && AllValid(rs) && Separated(rs)
    requires forall r :: r in rs ==> r.chrom == c
    ensures OnChrom(rs, c) == rs
    ensures Block(rs, c) == Success(rs)
  {
    OnChromAll(rs, c);
    assert SortedByStart(rs) by {
      forall i, j | 0 <= i < j < |rs|
        ensures rs[i].start <= rs[j].start
      {
        assert rs[i] in rs;
      }
    }
    SortSortedIsIdentity(rs);
    var first := rs[0];
    assert first in rs && Valid(first);
    assert Overlaps(first, first) == Success(true) by {
      assert Contains(first, first.chrom, first.start);
    }
    assert Region(first.chrom, Min(first.start, first.start), Max(first.end, first.end)) == first;
    assert rs == [first] + rs[1..];
    SweepSeparated(first, rs[1..]);
  }

  lemma {:induction false} PruneBlocksCongruent(cs: seq<string>, a: seq<Region>, b: seq<Region>)
    requires forall c :: c in cs ==> OnChrom(a, c) != [] && OnChrom(a, c) == OnChrom(b, c)
    ensures PruneBlocks(cs, a) == PruneBlocks(cs, b)
    decreases |cs|
  {
    if |cs| > 0 {
      PruneBlocksCongruent(cs[1..], a, b);
    }
  }

  /** The leading run of a canonical list: valid, separated regions of its
      first chromosome. */
  lemma CanonicalRun(rs: seq<Region>)
    requires Canonical(rs) && |rs| > 0
    ensures var c := rs[0].chrom; var run := rs[..RunLength(rs, c)];
      && |run| >= 1 && AllValid(run) && Separated(run)
      && (forall r :: r in run ==> r.chrom == c)
  {
    var c := rs[0].chrom;
    var k := RunLength(rs, c);
    var run := rs[..k];
    forall r | r in run
      ensures r.chrom == c && Valid(r)
    {
      var j :| 0 <= j < |run| && run[j] == r;
      assert rs[j] == r && r in rs;
    }
    forall i, j | 0 <= i < j < |run|
      ensures run[i].end < run[j].start
    {
      assert run[i] == rs[i] && run[j] == rs[j];
    }
  }

  /** What follows the leading run of a canonical list lies on later
      chromosomes only. */
  lemma CanonicalRestLater(rs: seq<Region>)
    requires Canonical(rs) && |rs| > 0
    ensures var c := rs[0].chrom;
      forall r :: r in rs[RunLength(rs, c)..] ==> LexLess(c, r.chrom)
  {
    var c := rs[0].chrom;
    var k := RunLength(rs, c);
    forall r | r in rs[k..]
      ensures LexLess(c, r.chrom)
    {
      var j :| 0 <= j < |rs[k..]| && rs[k..][j] == r;
      assert rs[k + j] == r;
      assert LexLe(rs[0].chrom, rs[k].chrom);
      assert LexLe(rs[k].chrom, rs[k + j].chrom) by {
        if j > 0 {
          assert LexLe(rs[k].chrom, rs[k + j].chrom);
        } else {
          LexLeReflexive(rs[k].chrom);
        }
      }
      if r.chrom == c {
        LexLeAntisymmetric(rs[k].chrom, c);
      }
    }
  }

  /** Every suffix of a canonical list is canonical. */
  lemma CanonicalSuffix(rs: seq<Region>, k: nat)
    requires Canonical(rs) && k <= |rs|
    ensures Canonical(rs[k..])
  {
    var others := rs[k..];
    forall r | r in others
      ensures Valid(r)
    {
      var j :| 0 <= j < |others| && others[j] == r;
      assert rs[k + j] == r && r in rs;
    }
    forall i, j | 0 <= i < j < |others|
      ensures LexLe(others[i].chrom, others[j].chrom)
      ensures others[i].chrom == others[j].chrom ==> others[i].end < others[j].start
    {
      assert others[i] == rs[k + i] && others[j] == rs[k + j];
    }
  }

  /** The chromosomes of a run of `c` followed by later chromosomes. */
  lemma ChromsAfterRun(run: seq<Region>, others: seq<Region>, c: string)
    requires |run| > 0
    requires forall r :: r in run ==> r.chrom == c
    requires forall r :: r in others ==> LexLess(c, r.chrom)
    ensures SortedChroms(run + others) == [c] + SortedChroms(others)
  {
    var rs := run + others;
    var csRest := SortedChroms(others);
    forall x | x in csRest
      ensures LexLess(c, x)
    {
      var r :| r in others && r.chrom == x;
    }
    PrependStrictlySorted(c, csRest);
    assert run[0] in run && rs[0] == run[0];
    forall x
      ensures x in SortedChroms(rs) <==> x in [c] + csRest
    {
      if x in Chroms(rs) && x != c {
        var r :| r in rs && r.chrom == x;
        assert r !in run;
        assert r in others;
      }
      if x in csRest {
        var r :| r in others && r.chrom == x;
        assert r in rs;
      }
      assert rs[0] in rs;
    }
    StrictlySortedUnique(SortedChroms(rs), [c] + csRest);
  }

  /** Pruning a run of `c` followed by later chromosomes that pruning leaves
      alone leaves the whole list alone. */
  lemma PruneAfterRun(run: seq<Region>, others: seq<Region>, c: string)
    requires |run| > 0 && AllValid(run) && Separated(run)
    requires forall r :: r in run ==> r.chrom == c
    requires forall r :: r in others ==> LexLess(c, r.chrom)
    requires PruneRegions(others) == Success(others)
    ensures PruneRegions(run + others) == Success(run + others)
  {
    var rs := run + others;
    var csRest := SortedChroms(others);
    ChromsAfterRun(run, others, c);
    OnChromConcat(run, others, c);
    OnChromNone(others, c);
    BlockOfRun(run, c);
    assert OnChrom(rs, c) == run;
    ChromsHaveRegions(others, csRest);
    forall x | x in csRest
      ensures OnChrom(others, x) != [] && OnChrom(others, x) == OnChrom(rs, x)
    {
      OnChromConcat(run, others, x);
      var r :| r in others && r.chrom == x;
      OnChromNone(run, x);
    }
    ChromsHaveRegions(rs, SortedChroms(rs));
    PruneBlocksCongruent(csRest, others, rs);
    assert ([c] + csRest)[1..] == csRest;
  }

  /** A canonical list is left unchanged by `prune_regions`. */
  lemma {:induction false} CanonicalIsFixpoint(rs: seq<Region>)
    requires Canonical(rs)
    ensures PruneRegions(rs) == Success(rs)
    decreases |rs|
  {
    if |rs| == 0 {
      assert SortedChroms(rs) == [];
    } else {
      var c := rs[0].chrom;
      var k := RunLength(rs, c);
      var run, others := rs[..k], rs[k..];
      assert rs == run + others;
      assert PruneRegions(others) == Success(others) by {
        CanonicalSuffix(rs, k);
        CanonicalIsFixpoint(others);
      }
      assert PruneRegions(run + others) == Success(run + others) by {
        CanonicalRun(rs);
        CanonicalRestLater(rs);
        PruneAfterRun(run, others, c);
      }
    }
  }

  /** The length of the leading run of regions on chromosome `c`. */
  function RunLength(rs: seq<Region>, c: string): (k: nat)
    ensures k <= |rs|
    ensures forall i :: 0 <= i < k ==> rs[i].chrom == c
    ensures k < |rs| ==> rs[k].chrom != c
    ensures |rs| > 0 && rs[0].chrom == c ==> k >= 1
  {
    if |rs| == 0 || rs[0].chrom != c then 0 else 1 + RunLength(rs[1..], c)
  }

  /** `prune_regions(prune_regions(x)) == prune_regions(x)`. */
  lemma PruneRegionsIdempotent(rs: seq<Region>)
    requires AllValid(rs)
    ensures PruneRegions(rs).Success?
    ensures PruneRegions(PruneRegions(rs).value) == PruneRegions(rs)
  {
    PruneRegionsShape(rs);
    CanonicalIsFixpoint(PruneRegions(rs).value);
  }

  // ---------------------------------------------------------------------
  // Padded query windows of `load_api_summaries`
  // ---------------------------------------------------------------------

  /** The window `[pos - pad*1000, pos + pad*1000]` around one variant,
      with the lower bound clipped at 0 (`clip(lower=0)`). */
  function PaddedWindow(chrom: string, pos: int, pad: int): (r: Region)
    ensures r.chrom == chrom
    ensures pad >= 0 && pos >= 0 ==> Valid(r) && Contains(r, chrom, pos)
    ensures pad < 0 ==> !Valid(r)
    ensures r.start >= 0
    ensures forall c, p :: Contains(r, c, p) <==> c == chrom && 0 <= p && pos - pad * 1000 <= p <= pos + pad * 1000
  {
    Region(chrom, Max(pos - pad * 1000, 0), pos + pad * 1000)
  }

  datatype Locus = Locus(chrom: string, pos: int)

  function Windows(vs: seq<Locus>, pad: int): (ws: seq<Region>)
    ensures |ws| == |vs|
    ensures forall i :: 0 <= i < |vs| ==> ws[i] == PaddedWindow(vs[i].chrom, vs[i].pos, pad)
  {
    if |vs| == 0 then [] else [PaddedWindow(vs[0].chrom, vs[0].pos, pad)] + Windows(vs[1..], pad)
  }

  /** The merged catalog query regions for the variants `vs`. */
  function QueryRegions(vs: seq<Locus>, pad: int): (r: Result<seq<Region>, RegionError>)
    ensures r.Success? <==> forall i :: 0 <= i < |vs| ==> Valid(PaddedWindow(vs[i].chrom, vs[i].pos, pad))
  {
    PruneRegions(Windows(vs, pad))
  }

  /** Every position a window covers lies in the window of some variant. */
  lemma WindowsCovered(vs: seq<Locus>, pad: int, c: string, p: int)
    requires Covered(Windows(vs, pad), c, p)
    ensures exists i :: 0 <= i < |vs| && Contains(PaddedWindow(vs[i].chrom, vs[i].pos, pad), c, p)
  {
    var ws := Windows(vs, pad);
    var r :| r in ws && Contains(r, c, p);
    var i :| 0 <= i < |ws| && ws[i] == r;
    assert Contains(PaddedWindow(vs[i].chrom, vs[i].pos, pad), c, p);
  }

  lemma WindowsValid(vs: seq<Locus>, pad: int)
    requires pad >= 0
    requires forall i :: 0 <= i < |vs| ==> vs[i].pos >= 0
    ensures AllValid(Windows(vs, pad))
    ensures forall i :: 0 <= i < |vs| ==> Covered(Windows(vs, pad), vs[i].chrom, vs[i].pos)
  {
    var ws := Windows(vs, pad);
    forall r | r in ws
      ensures Valid(r)
    {
      var i :| 0 <= i < |ws| && ws[i] == r;
    }
    forall i | 0 <= i < |vs|
      ensures Covered(ws, vs[i].chrom, vs[i].pos)
    {
      assert ws[i] in ws && Contains(ws[i], vs[i].chrom, vs[i].pos);
    }
  }

  /** With a non-negative padding every variant position is queried, the
      queried regions do not overlap, and every queried position lies in
      the window of some variant. */
  lemma QueryRegionsCoverVariants(vs: seq<Locus>, pad: int)
    requires pad >= 0
    requires forall i :: 0 <= i < |vs| ==> vs[i].pos >= 0
    ensures QueryRegions(vs, pad).Success?
    ensures Canonical(QueryRegions(vs, pad).value)
    ensures forall i :: 0 <= i < |vs| ==> Covered(QueryRegions(vs, pad).value, vs[i].chrom, vs[i].pos)
    ensures forall c, p :: Covered(QueryRegions(vs, pad).value, c, p) ==>
      exists i :: 0 <= i < |vs| && Contains(PaddedWindow(vs[i].chrom, vs[i].pos, pad), c, p)
  {
    var ws := Windows(vs, pad);
    WindowsValid(vs, pad);
    PruneRegionsShape(ws);
    var out := PruneRegions(ws).value;
    assert QueryRegions(vs, pad).value == out;
    forall c, p | Covered(out, c, p)
      ensures exists i :: 0 <= i < |vs| && Contains(PaddedWindow(vs[i].chrom, vs[i].pos, pad), c, p)
    {
      WindowsCovered(vs, pad, c, p);
    }
  }

  /** A negative padding makes every window invalid, so the merge raises. */
  lemma QueryRegionsNegativePad(vs: seq<Locus>, pad: int)
    requires pad < 0 && |vs| > 0
    ensures QueryRegions(vs, pad).Failure?
  {
    assert Windows(vs, pad)[0] in Windows(vs, pad);
  }

  // ---------------------------------------------------------------------
  // The cases of testing/test_utils.py, on the List[Region] signature
  // ---------------------------------------------------------------------

  lemma PruneRegionsEmpty()
    ensures PruneRegions([]) == Success([])
  {
    CanonicalIsFixpoint([]);
  }

  lemma PruneRegionsSingle()
    ensures PruneRegions([Region("1", 10, 20)]) == Success([Region("1", 10, 20)])
  {
    CanonicalIsFixpoint([Region("1", 10, 20)]);
  }

  /** Regions that do not overlap are returned unchanged. */
  lemma PruneRegionsKeepsApart()
    ensures PruneRegions([Region("1", 10, 20), Region("1", 30, 40)])
         == Success([Region("1", 10, 20), Region("1", 30, 40)])
  {
    var x := [Region("1", 10, 20), Region("1", 30, 40)];
    assert Canonical(x) by {
      LexLeReflexive("1");
    }
    CanonicalIsFixpoint(x);
  }

  /** Regions of different chromosomes are never merged. */
  lemma PruneRegionsKeepsChromosomes()
    ensures PruneRegions([Region("1", 10, 40), Region("2", 20, 30)])
         == Success([Region("1", 10, 40), Region("2", 20, 30)])
  {
    var x := [Region("1", 10, 40), Region("2", 20, 30)];
    assert Canonical(x) by {
      assert LexLe("1", "2");
    }
    CanonicalIsFixpoint(x);
  }

  /** Nested and partially overlapping regions merge into one, in either
      input order. */
  lemma PruneRegionsMerges()
    ensures PruneRegions([Region("1", 10, 40), Region("1", 20, 30)]) == Success([Region("1", 10, 40)])
    ensures PruneRegions([Region("1", 10, 30), Region("1", 15, 40)]) == Success([Region("1", 10, 40)])
    ensures PruneRegions([Region("1", 15, 30), Region("1", 10, 40)]) == Success([Region("1", 10, 40)])
  {
    MergesPair(Region("1", 10, 40), Region("1", 20, 30));
    MergesPair(Region("1", 10, 30), Region("1", 15, 40));
    MergesPair(Region("1", 15, 30), Region("1", 10, 40));
  }

  /** The sweep of two overlapping regions sorted by start yields their span. */
  lemma PairSweep(s0: Region, s1: Region)
    requires Valid(s0) && Valid(s1) && s0.chrom == s1.chrom
    requires s0.start <= s1.start <= s0.end
    ensures Sweep(s0, [s0, s1]) == Success([Merge(s0, s1)])
  {
    var c := s0.chrom;
    assert Overlaps(s0, s1) == Success(true) by {
      assert Contains(s0, c, s1.start) && Contains(s1, c, s1.start);
    }
    assert Sweep(Merge(s0, s1), []) == Success([Merge(s0, s1)]);
    assert Sweep(s0, [s1]) == Success([Merge(s0, s1)]);
    assert Overlaps(s0, s0) == Success(true) by {
      assert Contains(s0, c, s0.start);
    }
    assert Merge(s0, s0) == s0;
    assert [s0, s1][1..] == [s1];
  }

  /** The block of two overlapping regions of one chromosome is their span. */
  lemma PairBlock(a: Region, b: Region)
    requires Valid(a) && Valid(b) && a.chrom == b.chrom
    requires a.start <= b.end && b.start <= a.end
    ensures OnChrom([a, b], a.chrom) != []
    ensures Block([a, b], a.chrom) == Success([Region(a.chrom, Min(a.start, b.start), Max(a.end, b.end))])
  {
    var x := [a, b];
    OnChromAll(x, a.chrom);
    assert SortByStart([b]) == [b];
    if a.start <= b.start {
      assert SortByStart(x) == [a, b];
      PairSweep(a, b);
    } else {
      assert SortByStart(x) == [b, a];
      PairSweep(b, a);
    }
  }

  /** Two overlapping valid regions of one chromosome prune to their span. */
  lemma MergesPair(a: Region, b: Region)
    requires Valid(a) && Valid(b) && a.chrom == b.chrom
    requires a.start <= b.end && b.start <= a.end
    ensures PruneRegions([a, b]) == Success([Region(a.chrom, Min(a.start, b.start), Max(a.end, b.end))])
  {
    var x := [a, b];
    var c := a.chrom;
    var span := Region(c, Min(a.start, b.start), Max(a.end, b.end));
    assert SortedChroms(x) == [c] by {
      assert SortedChroms([b]) == [c];
    }
    PairBlock(a, b);
    assert [c][1..] == [];
    assert PruneBlocks([], x) == Success([]);
    assert [span] + [] == [span];
    assert PruneRegions(x) == PruneBlocks([c], x);
  }

  /** The "nested" case as literally written in the tests builds the region
      [30, 20], whose end precedes its start, so `overlaps` raises. */
  lemma PruneRegionsRejectsInvalid()
    ensures PruneRegions([Region("1", 10, 40), Region("1", 30, 20)]).Failure?
  {
  }
}
