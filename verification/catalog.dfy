/** The pure helpers of Scripts/gwcatalog_api.py: reading an EFO code off a
    trait URI, cutting a list into request-sized chunks, flattening API
    pages, reading alleles off Ensembl records, splitting multi-trait
    catalog rows, and the row filter of the local catalog. */
module Catalog {
  import opened Wrappers
  import opened Strings
  import opened Seqs

  /** A table cell that may hold text or something else (a missing value,
      a number). */
  datatype Cell = Text(s: string) | Other

  // ---------------------------------------------------------------------
  // parse_efo
  // ---------------------------------------------------------------------

  /** The EFO code of a trait URI: the text after its last '/', or "NAN"
      when the cell is not text. */
  function ParseEfo(code: Cell): (r: string)
    ensures code.Other? ==> r == "NAN"
    ensures code.Text? ==> '/' !in r && |r| <= |code.s| && code.s[|code.s| - |r|..] == r
    ensures code.Text? ==> r == code.s || code.s[|code.s| - |r| - 1] == '/'
  {
    match code
    case Other => "NAN"
    case Text(s) => LastPiece(s, '/')
  }

  /** The code is recovered from any URI that ends in "/" and the code. */
  lemma ParseEfoOfUri(prefix: string, efo: string)
    requires '/' !in efo
    ensures ParseEfo(Text(prefix + "/" + efo)) == efo
  {
    LastPieceAfter(prefix, efo, '/');
  }

  lemma ParseEfoExample()
    ensures ParseEfo(Text("asd/EFO_CODE")) == "EFO_CODE"
  {
    assert "asd/EFO_CODE" == "asd" + "/" + "EFO_CODE";
    ParseEfoOfUri("asd", "EFO_CODE");
  }

  // ---------------------------------------------------------------------
  // in_chunks
  // ---------------------------------------------------------------------

  function Min(a: int, b: int): int
  {
    if a <= b then a else b
  }

  /** The chunk a comprehension step at `pos` produces: `lst[pos:pos+size]`. */
  function Slice<T>(lst: seq<T>, pos: nat, size: nat): seq<T>
    requires pos <= |lst|
  {
    lst[pos..Min(pos + size, |lst|)]
  }

  /** Consecutive chunks of `size` elements; the last may be shorter. */
  function Chunks<T>(lst: seq<T>, size: nat): (r: seq<seq<T>>)
    requires size > 0
    ensures forall i :: 0 <= i < |r| ==> 0 < |r[i]| <= size
    ensures forall i :: 0 <= i < |r| - 1 ==> |r[i]| == size
    decreases |lst|
  {
    if |lst| == 0 then []
    else if |lst| <= size then [lst]
    else [lst[..size]] + Chunks(lst[size..], size)
  }

  /** Joining the chunks back gives the list. */
  lemma {:induction false} ChunksFlatten<T>(lst: seq<T>, size: nat)
    requires size > 0
    ensures Flatten(Chunks(lst, size)) == lst
    decreases |lst|
  {
    if |lst| > size {
      ChunksFlatten(lst[size..], size);
      assert Chunks(lst, size)[1..] == Chunks(lst[size..], size);
      assert lst == lst[..size] + lst[size..];
    } else if |lst| > 0 {
      assert Chunks(lst, size) == [lst];
      assert Flatten([lst]) == lst + Flatten([lst][1..]);
    }
  }

  /** The comprehension of `in_chunks` from position `pos` on: one slice
      at every position of `range(pos, len(lst), size)`. */
  function SlicesFrom<T>(lst: seq<T>, pos: nat, size: nat): seq<seq<T>>
    requires size > 0
    decreases |lst| - pos
  {
    if pos >= |lst| then [] else [Slice(lst, pos, size)] + SlicesFrom(lst, pos + size, size)
  }

  /** The recursive chunking agrees with the comprehension. */
  lemma {:induction false} ChunksAreSlices<T>(lst: seq<T>, pos: nat, size: nat)
    requires size > 0 && pos <= |lst|
    ensures Chunks(lst[pos..], size) == SlicesFrom(lst, pos, size)
    decreases |lst| - pos
  {
    var t := lst[pos..];
    if |t| > size {
      assert t[size..] == lst[pos + size..];
      assert Slice(lst, pos, size) == t[..size];
      ChunksAreSlices(lst, pos + size, size);
    } else if |t| > 0 {
      assert Slice(lst, pos, size) == t;
      assert SlicesFrom(lst, pos + size, size) == [];
    }
  }

  /** `in_chunks`: a step of zero raises, a negative step gives no chunks
      (the range is empty), a positive one cuts the list into chunks that
      join back to it. */
  function InChunks<T>(lst: seq<T>, size: int): (r: Option<seq<seq<T>>>)
    ensures r.None? <==> size == 0
    ensures size < 0 ==> r == Some([])
    ensures size > 0 ==> r.Some? && Flatten(r.value) == lst
    ensures size > 0 ==> forall i :: 0 <= i < |r.value| ==> 0 < |r.value[i]| <= size
    ensures size > 0 ==> forall i :: 0 <= i < |r.value| - 1 ==> |r.value[i]| == size
  {
    if size == 0 then None
    else if size < 0 then Some([])
    else
      ChunksFlatten(lst, size);
      ChunksAreSlices(lst, 0, size);
      assert lst[0..] == lst;
      Some(SlicesFrom(lst, 0, size))
  }

  // ---------------------------------------------------------------------
  // parse_output
  // ---------------------------------------------------------------------

  /** A JSON object as its entries in insertion order. */
  type Dict<V> = seq<(string, V)>

  function Values<V>(d: Dict<V>): (vs: seq<V>)
    ensures |vs| == |d| && forall i :: 0 <= i < |d| ==> vs[i] == d[i].1
  {
    Map(d, (e: (string, V)) => e.1)
  }

  /** `parse_output`: the values of every object, objects in order and
      values in key order. */
  function ParseOutput<V>(ds: seq<Dict<V>>): (rows: seq<V>)
    ensures |ds| == 0 ==> rows == []
    ensures |ds| > 0 ==> Values(ds[0]) <= rows
    ensures |ds| == 1 ==> rows == Values(ds[0])
  {
    Flatten(Map(ds, Values))
  }

  /** Exactly the values of the objects end up in the output. */
  lemma ParseOutputMembers<V>(ds: seq<Dict<V>>)
    ensures forall v :: v in ParseOutput(ds) <==> exists i, j :: 0 <= i < |ds| && 0 <= j < |ds[i]| && ds[i][j].1 == v
  {
    var vs := Map(ds, Values);
    FlattenMembers(vs);
    forall v
      ensures v in ParseOutput(ds) <==> exists i, j :: 0 <= i < |ds| && 0 <= j < |ds[i]| && ds[i][j].1 == v
    {
      if v in ParseOutput(ds) {
        var i :| 0 <= i < |vs| && v in vs[i];
        var j :| 0 <= j < |vs[i]| && vs[i][j] == v;
        assert ds[i][j].1 == v;
      }
      if exists i, j :: 0 <= i < |ds| && 0 <= j < |ds[i]| && ds[i][j].1 == v {
        var i, j :| 0 <= i < |ds| && 0 <= j < |ds[i]| && ds[i][j].1 == v;
        assert vs[i][j] == v;
      }
    }
  }

  /** Pages can be parsed one at a time and the results appended. */
  lemma ParseOutputConcat<V>(a: seq<Dict<V>>, b: seq<Dict<V>>)
    ensures ParseOutput(a + b) == ParseOutput(a) + ParseOutput(b)
  {
    assert Map(a + b, Values) == Map(a, Values) + Map(b, Values);
    FlattenConcat(Map(a, Values), Map(b, Values));
  }

  // ---------------------------------------------------------------------
  // parse_ensembl
  // ---------------------------------------------------------------------

  /** An Ensembl variation record: the allele strings of its mappings. */
  datatype EnsemblRecord = EnsemblRecord(mappings: seq<string>)

  /** The alleles read for one identifier. */
  datatype RsidAlleles = RsidAlleles(rsid: string, ref: string, alt: string)

  /** The index errors a record can raise: no mapping, or an allele string
      without a '/'. */
  datatype EnsemblError = NoMapping(rsid: string) | SingleAllele(rsid: string)

  /** One record: the first mapping's allele string split on '/', its
      second piece taken as reference and its first as alternative. */
  function ParseRecord(entry: (string, EnsemblRecord)): (r: Result<RsidAlleles, EnsemblError>)
    ensures r.Success? <==> |entry.1.mappings| > 0 && '/' in entry.1.mappings[0]
    ensures r.Success? ==> r.value.rsid == entry.0
    ensures r.Success? ==> '/' !in r.value.ref && '/' !in r.value.alt
    ensures r.Success? ==> FirstPiece(entry.1.mappings[0], '/') == r.value.alt
  {
    var (key, record) := entry;
    if |record.mappings| == 0 then Failure(NoMapping(key))
    else
      var alleles := Split(record.mappings[0], '/');
      if |alleles| < 2 then Failure(SingleAllele(key))
      else Success(RsidAlleles(key, alleles[1], alleles[0]))
  }

  /** `parse_ensembl`: every record in order; the first bad one raises. */
  function ParseEnsembl(json: Dict<EnsemblRecord>): (r: Result<seq<RsidAlleles>, EnsemblError>)
    ensures r.Success? <==> forall i :: 0 <= i < |json| ==> |json[i].1.mappings| > 0 && '/' in json[i].1.mappings[0]
    ensures r.Success? ==> |r.value| == |json| && forall i :: 0 <= i < |json| ==> r.value[i].rsid == json[i].0
  {
    Traverse(json, ParseRecord)
  }

  /** A record is read off the pieces of its first allele string. */
  lemma ParseRecordOfPieces(rsid: string, s: string, others: seq<string>)
    requires |Split(s, '/')| >= 2
    ensures ParseRecord((rsid, EnsemblRecord([s] + others))) == Success(RsidAlleles(rsid, Split(s, '/')[1], Split(s, '/')[0]))
  {
    assert ([s] + others)[0] == s;
  }

  /** A record whose first allele string joins alleles with '/' yields
      the second allele as reference and the first as alternative,
      whatever alleles follow. */
  lemma ParseRecordOfAlleles(rsid: string, alleles: seq<string>, others: seq<string>)
    requires |alleles| >= 2
    requires forall i :: 0 <= i < |alleles| ==> '/' !in alleles[i]
    ensures ParseRecord((rsid, EnsemblRecord([Join(alleles, '/')] + others))) == Success(RsidAlleles(rsid, alleles[1], alleles[0]))
  {
    SplitJoin(alleles, '/');
    ParseRecordOfPieces(rsid, Join(alleles, '/'), others);
  }

  // ---------------------------------------------------------------------
  // split_traits
  // ---------------------------------------------------------------------

  /** A catalog row: its mapped trait and trait URI cells and the other
      columns. */
  datatype TraitRow = TraitRow(mappedTrait: Cell, uri: Cell, info: map<string, string>)

  const TraitColumn := "MAPPED_TRAIT"
  const UriColumn := "MAPPED_TRAIT_URI"

  /** A row with a comma in its URI whose trait cell is not text raises
      (text methods on a non-text value). */
  datatype SplitError = TraitNotText(info: map<string, string>)

  /** The row has several URIs. */
  predicate MultiTrait(row: TraitRow)
  {
    row.uri.Text? && ',' in row.uri.s
  }

  /** Each piece stripped of surrounding whitespace. */
  function StripPieces(ps: seq<string>): (r: seq<string>)
    ensures |r| == |ps| && forall i :: 0 <= i < |ps| ==> r[i] == Strip(ps[i])
  {
    Map(ps, Strip)
  }

  /** The `i`-th pair of stripped pieces as a row with the other columns
      copied. */
  function Pair(row: TraitRow, traits: seq<string>, efos: seq<string>): (rs: seq<TraitRow>)
    ensures |rs| == Min(|traits|, |efos|)
    ensures forall i :: 0 <= i < |rs| ==> rs[i] == TraitRow(Text(traits[i]), Text(efos[i]), row.info)
  {
    seq(Min(|traits|, |efos|), i requires 0 <= i < Min(|traits|, |efos|) => TraitRow(Text(traits[i]), Text(efos[i]), row.info))
  }

  /** One row of `split_traits`: a row with several URIs becomes one row
      per (trait, URI) pair of the stripped comma-separated pieces, as
      many as the shorter list; any other row is kept as it is. */
  function SplitRow(row: TraitRow): (r: Result<seq<TraitRow>, SplitError>)
    ensures !MultiTrait(row) ==> r == Success([row])
    ensures r.Failure? <==> MultiTrait(row) && row.mappedTrait.Other?
    ensures r.Success? ==> |r.value| >= 1
    ensures r.Success? ==> forall i :: 0 <= i < |r.value| ==> r.value[i].info == row.info
  {
    if !MultiTrait(row) then Success([row])
    else if row.mappedTrait.Other? then Failure(TraitNotText(row.info))
    else
      var efos := StripPieces(Split(row.uri.s, ','));
      var traits := StripPieces(Split(row.mappedTrait.s, ','));
      Success(Pair(row, traits, efos))
  }

  /** `split_traits`: nothing when a trait column is missing, otherwise
      every row split in order. */
  function SplitTraits(columns: set<string>, rows: seq<TraitRow>): (r: Result<Option<seq<TraitRow>>, SplitError>)
    ensures (TraitColumn !in columns || UriColumn !in columns) ==> r == Success(None)
    ensures r.Failure? <==> TraitColumn in columns && UriColumn in columns && exists i :: 0 <= i < |rows| && MultiTrait(rows[i]) && rows[i].mappedTrait.Other?
  {
    if TraitColumn !in columns || UriColumn !in columns then Success(None)
    else
      var parts :- Traverse(rows, SplitRow);
      Success(Some(Flatten(parts)))
  }

  /** The expansion of a multi-trait row: the `i`-th output row carries the
      `i`-th stripped trait and URI. */
  lemma SplitRowPieces(row: TraitRow)
    requires MultiTrait(row) && row.mappedTrait.Text?
    ensures var efos := Split(row.uri.s, ','); var traits := Split(row.mappedTrait.s, ',');
      && |efos| >= 2
      && |SplitRow(row).value| == Min(|traits|, |efos|)
      && forall i :: 0 <= i < |SplitRow(row).value| ==> SplitRow(row).value[i] == TraitRow(Text(Strip(traits[i])), Text(Strip(efos[i])), row.info)
  {
  }

  /** A text without whitespace is its own strip. */
  lemma StripPlain(t: string)
    requires forall i :: 0 <= i < |t| ==> t[i] !in Whitespace
    ensures Strip(t) == t
  {
    assert LStrip(t, Whitespace) == t;
    assert RStrip(t, Whitespace) == t;
  }

  lemma StripPiecesPlain(ps: seq<string>)
    requires forall i, j :: 0 <= i < |ps| && 0 <= j < |ps[i]| ==> ps[i][j] !in Whitespace
    ensures StripPieces(ps) == ps
  {
    forall i | 0 <= i < |ps|
      ensures StripPieces(ps)[i] == ps[i]
    {
      StripPlain(ps[i]);
    }
  }

  /** Text made of pieces without commas or whitespace. */
  predicate PlainPieces(ps: seq<string>)
  {
    forall i, j :: 0 <= i < |ps| && 0 <= j < |ps[i]| ==> ps[i][j] != ',' && ps[i][j] !in Whitespace
  }

  /** A row whose trait and URI cells join several plain pieces with
      commas splits into the pairs of those pieces. */
  lemma SplitRowOfJoined(traits: seq<string>, uris: seq<string>, info: map<string, string>)
    requires |traits| >= 1 && |uris| >= 2
    requires PlainPieces(traits) && PlainPieces(uris)
    ensures SplitRow(TraitRow(Text(Join(traits, ',')), Text(Join(uris, ',')), info))
         == Success(Pair(TraitRow(Text(Join(traits, ',')), Text(Join(uris, ',')), info), traits, uris))
  {
    var row := TraitRow(Text(Join(traits, ',')), Text(Join(uris, ',')), info);
    SplitJoin(traits, ',');
    SplitJoin(uris, ',');
    StripPiecesPlain(traits);
    StripPiecesPlain(uris);
    assert |Split(row.uri.s, ',')| >= 2;
  }

  /** A letter or digit is neither the separator nor whitespace. */
  lemma AlnumIsPlain(c: char)
    requires 'A' <= c <= 'Z' || 'a' <= c <= 'z' || '0' <= c <= '9'
    ensures c != ',' && c !in Whitespace
  {
  }

  /** Two one-letter (or one-digit) pieces are plain. */
  lemma PlainLetters(a: char, b: char)
    requires 'A' <= a <= 'Z' || 'a' <= a <= 'z' || '0' <= a <= '9'
    requires 'A' <= b <= 'Z' || 'a' <= b <= 'z' || '0' <= b <= '9'
    ensures PlainPieces([[a], [b]])
  {
    AlnumIsPlain(a);
    AlnumIsPlain(b);
    var ps := [[a], [b]];
    forall i, j | 0 <= i < |ps| && 0 <= j < |ps[i]|
      ensures ps[i][j] != ',' && ps[i][j] !in Whitespace
    {
      assert ps[i][j] == a || ps[i][j] == b;
    }
  }

  /** A row with two comma-separated traits and URIs becomes two rows. */
  lemma SplitRowExample(info: map<string, string>, t: string, u: string, t1: string, t2: string, u1: string, u2: string)
    requires t == t1 + [','] + t2 && u == u1 + [','] + u2
    requires PlainPieces([t1, t2]) && PlainPieces([u1, u2])
    ensures SplitRow(TraitRow(Text(t), Text(u), info)) == Success([TraitRow(Text(t1), Text(u1), info), TraitRow(Text(t2), Text(u2), info)])
  {
    var row := TraitRow(Text(t), Text(u), info);
    JoinTwo(t1, t2, ',');
    JoinTwo(u1, u2, ',');
    SplitRowOfJoined([t1, t2], [u1, u2], info);
    PairTwo(row, t1, t2, u1, u2);
  }

  lemma PairTwo(row: TraitRow, t1: string, t2: string, u1: string, u2: string)
    ensures Pair(row, [t1, t2], [u1, u2]) == [TraitRow(Text(t1), Text(u1), row.info), TraitRow(Text(t2), Text(u2), row.info)]
  {
    var rs := Pair(row, [t1, t2], [u1, u2]);
    assert rs[0] == TraitRow(Text(t1), Text(u1), row.info);
    assert rs[1] == TraitRow(Text(t2), Text(u2), row.info);
  }

  /** The table of four variants with traits A, "B,C", "D,E" and F becomes
      six rows, the second and third variant repeated once each. */
  lemma SplitTraitsExample(i1: map<string, string>, i2: map<string, string>, i3: map<string, string>, i4: map<string, string>)
    ensures SplitTraits({"variant", TraitColumn, UriColumn},
              [TraitRow(Text("A"), Text("1"), i1), TraitRow(Text("B,C"), Text("2,3"), i2),
               TraitRow(Text("D,E"), Text("4,5"), i3), TraitRow(Text("F"), Text("6"), i4)])
         == Success(Some([TraitRow(Text("A"), Text("1"), i1), TraitRow(Text("B"), Text("2"), i2),
                          TraitRow(Text("C"), Text("3"), i2), TraitRow(Text("D"), Text("4"), i3),
                          TraitRow(Text("E"), Text("5"), i3), TraitRow(Text("F"), Text("6"), i4)]))
  {
    var rows := [TraitRow(Text("A"), Text("1"), i1), TraitRow(Text("B,C"), Text("2,3"), i2),
                 TraitRow(Text("D,E"), Text("4,5"), i3), TraitRow(Text("F"), Text("6"), i4)];
    var p0 := [TraitRow(Text("A"), Text("1"), i1)];
    var p1 := [TraitRow(Text("B"), Text("2"), i2), TraitRow(Text("C"), Text("3"), i2)];
    var p2 := [TraitRow(Text("D"), Text("4"), i3), TraitRow(Text("E"), Text("5"), i3)];
    var p3 := [TraitRow(Text("F"), Text("6"), i4)];
    assert SplitRow(rows[0]) == Success(p0) by {
      assert !MultiTrait(rows[0]);
    }
    assert SplitRow(rows[1]) == Success(p1) by {
      PlainLetters('B', 'C');
      PlainLetters('2', '3');
      SplitRowExample(i2, "B,C", "2,3", "B", "C", "2", "3");
    }
    assert SplitRow(rows[2]) == Success(p2) by {
      PlainLetters('D', 'E');
      PlainLetters('4', '5');
      SplitRowExample(i3, "D,E", "4,5", "D", "E", "4", "5");
    }
    assert SplitRow(rows[3]) == Success(p3) by {
      assert !MultiTrait(rows[3]);
    }
    SplitTraitsFour({"variant", TraitColumn, UriColumn}, rows[0], rows[1], rows[2], rows[3], p0, p1, p2, p3);
    assert rows == [rows[0], rows[1], rows[2], rows[3]];
    ConcatOfFour(p0[0], p1[0], p1[1], p2[0], p2[1], p3[0]);
  }

  /** Splitting a four-row table from the splits of its rows. */
  lemma SplitTraitsFour(columns: set<string>, r0: TraitRow, r1: TraitRow, r2: TraitRow, r3: TraitRow,
                        q0: seq<TraitRow>, q1: seq<TraitRow>, q2: seq<TraitRow>, q3: seq<TraitRow>)
    requires TraitColumn in columns && UriColumn in columns
    requires SplitRow(r0) == Success(q0) && SplitRow(r1) == Success(q1)
    requires SplitRow(r2) == Success(q2) && SplitRow(r3) == Success(q3)
    ensures SplitTraits(columns, [r0, r1, r2, r3]) == Success(Some(q0 + q1 + q2 + q3))
  {
    var rows := [r0, r1, r2, r3];
    var parts := [q0, q1, q2, q3];
    forall i | 0 <= i < 4
      ensures SplitRow(rows[i]) == Success(parts[i])
    {
      if i == 0 {
      } else if i == 1 {
      } else if i == 2 {
      } else {
      }
    }
    TraverseOfValues(rows, SplitRow, parts);
    FlattenFour(q0, q1, q2, q3);
  }

  lemma FlattenFour<T>(a: seq<T>, b: seq<T>, c: seq<T>, d: seq<T>)
    ensures Flatten([a, b, c, d]) == a + b + c + d
  {
    assert [a, b, c, d][1..] == [b, c, d];
    assert [b, c, d][1..] == [c, d];
    assert [c, d][1..] == [d];
    assert Flatten([d]) == d + Flatten([d][1..]);
    assert Flatten([c, d]) == c + d;
    assert Flatten([b, c, d]) == b + (c + d);
  }

  lemma ConcatOfFour<T>(a: T, b: T, c: T, d: T, e: T, f: T)
    ensures [a] + [b, c] + [d, e] + [f] == [a, b, c, d, e, f]
  {
  }

  /** No row is lost: every input row contributes at least one output
      row, and every output row carries the other columns of an input
      row. */
  lemma {:induction false} SplitTraitsKeepsRows(columns: set<string>, rows: seq<TraitRow>)
    requires SplitTraits(columns, rows).Success?
    requires TraitColumn in columns && UriColumn in columns
    ensures var out := SplitTraits(columns, rows).value;
      && out.Some? && |out.value| >= |rows|
      && forall o :: o in out.value ==> exists row :: row in rows && o.info == row.info
  {
    var parts := Traverse(rows, SplitRow).value;
    assert SplitTraits(columns, rows).value == Some(Flatten(parts));
    FlattenLength(parts);
    FlattenMembers(parts);
    forall o: TraitRow | o in Flatten(parts)
      ensures exists row: TraitRow :: row in rows && o.info == row.info
    {
      var i :| 0 <= i < |parts| && o in parts[i];
      assert SplitRow(rows[i]) == Success(parts[i]);
      assert rows[i] in rows;
    }
  }

  /** A flattening of non-empty lists is at least as long as the number
      of lists. */
  lemma {:induction false} FlattenLength<T>(ss: seq<seq<T>>)
    requires forall i :: 0 <= i < |ss| ==> |ss[i]| >= 1
    ensures |Flatten(ss)| >= |ss|
    decreases |ss|
  {
    if |ss| > 0 {
      FlattenLength(ss[1..]);
    }
  }

  /** A table without multi-trait rows comes back unchanged. */
  lemma {:induction false} SplitTraitsSingle(columns: set<string>, rows: seq<TraitRow>)
    requires TraitColumn in columns && UriColumn in columns
    requires forall i :: 0 <= i < |rows| ==> !MultiTrait(rows[i])
    ensures SplitTraits(columns, rows) == Success(Some(rows))
    decreases |rows|
  {
    var parts := Traverse(rows, SplitRow).value;
    assert forall i :: 0 <= i < |rows| ==> parts[i] == [rows[i]];
    FlattenSingletons(parts, rows);
  }

  lemma {:induction false} FlattenSingletons<T>(ss: seq<seq<T>>, xs: seq<T>)
    requires |ss| == |xs|
    requires forall i :: 0 <= i < |ss| ==> ss[i] == [xs[i]]
    ensures Flatten(ss) == xs
    decreases |ss|
  {
    if |ss| > 0 {
      FlattenSingletons(ss[1..], xs[1..]);
      assert xs == [xs[0]] + xs[1..];
    }
  }

  // ---------------------------------------------------------------------
  // The filter of LocalDB.get_associations
  // ---------------------------------------------------------------------

  /** A row of the local catalog after loading: chromosome, position,
      p-value and the variant identifier text. */
  datatype CatalogEntry = CatalogEntry(chrId: string, chrPos: int, pvalue: real, snps: string)

  /** The chromosome, window and significance tests. */
  predicate InQuery(e: CatalogEntry, chrom: string, start: int, end: int, pval: real)
  {
    e.chrId == chrom && start <= e.chrPos <= end && e.pvalue <= pval
  }

  /** An identifier naming a variant-by-variant interaction. */
  predicate Interaction(snps: string)
  {
    HasSubstring(snps, " x ")
  }

  /** The identifiers sent on to Ensembl: those of the rows passing the
      tests, in table order, without interactions. */
  function QueryRsids(db: seq<CatalogEntry>, chrom: string, start: int, end: int, pval: real): (rsids: seq<string>)
    ensures |rsids| <= |db|
    ensures forall s :: s in rsids <==> !Interaction(s) && exists e :: e in db && InQuery(e, chrom, start, end, pval) && e.snps == s
  {
    var rows := Filter(db, (e: CatalogEntry) => InQuery(e, chrom, start, end, pval));
    var ids := Map(rows, (e: CatalogEntry) => e.snps);
    MapMembers(rows, (e: CatalogEntry) => e.snps);
    Filter(ids, (s: string) => !Interaction(s))
  }

  /** Widening the window or relaxing the threshold never loses an
      identifier. */
  lemma QueryRsidsMonotone(db: seq<CatalogEntry>, chrom: string, start: int, end: int, pval: real, start': int, end': int, pval': real)
    requires start' <= start && end <= end' && pval <= pval'
    ensures forall s :: s in QueryRsids(db, chrom, start, end, pval) ==> s in QueryRsids(db, chrom, start', end', pval')
  {
  }
}
