# autoreporting core in Dafny

A Dafny model of the sequential logic that the autoreporting pipeline builds its
locus reports on. The pipeline compares genome-wide significant variants with
previously reported associations, from the GWAS Catalog or a custom resource,
and summarises each locus. The model covers three source files:

- `Scripts/autoreporting_utils.py`:
  - genomic regions and the `overlaps` test;
  - the per-chromosome sort-and-sweep merge `prune_regions`;
  - the variant identifier `chr{chrom}_{pos}_{ref}_{alt}` and its parse-back;
  - `df_replace_value`, `columns_from_arguments` and `filebasename`.
- `Scripts/compare.py`:
  - `map_alleles` and `map_column`, which canonicalise alleles to the A strand;
  - `solve_indels` and `indel_helper`, which reconcile `-`-notation indels with a local variant one base earlier;
  - `filter_invalid_alleles`;
  - the query windows of `load_api_summaries`;
  - the pure steps of `extract_ld_variants`: skip tests, thread cap, symmetrisation, parse-back and r²;
  - the aggregation in `create_top_level_report`.
- `Scripts/gwcatalog_api.py`:
  - the retry loop of `try_request` / `try_request_post`;
  - the fallback of `get_trait_name`;
  - `parse_efo`, `in_chunks`, `parse_output`, `parse_ensembl` and `split_traits`;
  - the row filter of `LocalDB.get_associations`.

Modules, one file each:

| file | module | contents |
|---|---|---|
| `wrappers.dfy` | `Wrappers` | `Option` and `Result` |
| `strings.dfy` | `Strings` | Python's `split`, `join`, `strip` and `pop` on strings, lexicographic order, integer formatting |
| `seqs.dfy` | `Seqs` | filter, flatten, traverse, dedup and keep-first over sequences |
| `regions.dfy` | `Regions` | `Region`, `overlaps`, `prune_regions`, query windows |
| `utils.dfy` | `Utils` | the remaining helpers of `autoreporting_utils.py` |
| `alleles.dfy` | `Alleles` | `map_alleles`, `map_column`, `filter_invalid_alleles` |
| `indels.dfy` | `Indels` | `solve_indels` and the indel split of `load_api_summaries` |
| `ld.dfy` | `Ld` | the pure parts of `extract_ld_variants` |
| `report.dfy` | `Report` | `create_top_level_report` |
| `retrieval.dfy` | `Retrieval` | `try_request` and `get_trait_name` |
| `catalog.dfy` | `Catalog` | the parsing helpers and local catalog filter of `gwcatalog_api.py` |

Conventions:

- Exceptions in the source become `Failure`, or `None` where a failure carries no information. That covers an invalid region, an unknown base, an identifier with fewer than four fields, a missing dictionary key and a trait cell that is not text.
- The server behind `try_request` is a parameter: `server(i)` is the outcome of the `i`-th request.
- Tables are sequences of records with only the columns the code reads; the other columns ride along in an `info` map.
- A cell that is not a string is `Other`.

## Model

| member | source | states |
|---|---|---|
| Regions.Overlaps | Scripts/autoreporting_utils.py:128-139 | fails iff either region has end < start, reporting the first invalid one; otherwise true iff the two closed intervals share a position on the same chromosome |
| Regions.OverlapsProperties | Scripts/autoreporting_utils.py:128-139 | on valid regions: symmetric, reflexive, false across chromosomes, and a shared endpoint counts as overlap |
| Regions.SortByStart | Scripts/autoreporting_utils.py:154 | the result is ordered by start and is a permutation of the input |
| Regions.SortSortedIsIdentity | Scripts/autoreporting_utils.py:154 | sorting a sequence already ordered by start (with a stable insertion) changes nothing |
| Regions.SortedChroms | Scripts/autoreporting_utils.py:150-151 | the chromosomes of the input, each once, in strictly increasing lexicographic order |
| Regions.StrictlySortedUnique | Scripts/autoreporting_utils.py:150-151 | two strictly sorted sequences with the same elements are equal, so the chromosome order is determined |
| Regions.Sweep | Scripts/autoreporting_utils.py:155-162 | the sweep fails iff some compared region is invalid |
| Regions.SweepShape | Scripts/autoreporting_utils.py:155-162 | on valid, start-ordered regions of one chromosome the sweep yields valid regions that keep the first start and are separated (next start > previous end) |
| Regions.SweepCovers | Scripts/autoreporting_utils.py:155-162 | the sweep covers exactly the positions its input covers |
| Regions.SweepSeparated | Scripts/autoreporting_utils.py:155-162 | regions that are already separated pass through the sweep unchanged |
| Regions.PruneRegions | Scripts/autoreporting_utils.py:141-163 | fails iff some input region is invalid |
| Regions.PruneRegionsShape | Scripts/autoreporting_utils.py:141-163 | the output is canonical: chromosome blocks in sorted order, and within a block valid, start-ordered regions with next.start > prev.end. On every chromosome it covers exactly the input's positions, and it names only input chromosomes |
| Regions.CanonicalIsDisjoint | Scripts/autoreporting_utils.py:141-163 | any two distinct regions of a canonical list do not overlap |
| Regions.CanonicalIsFixpoint | Scripts/autoreporting_utils.py:141-163 | a canonical list is returned unchanged |
| Regions.PruneRegionsIdempotent | Scripts/autoreporting_utils.py:141-163 | pruning a pruned list gives the same list |
| Regions.MergesPair | Scripts/autoreporting_utils.py:155-162 | two overlapping regions of one chromosome merge into their hull |
| Regions.PruneRegionsEmpty | testing/test_utils.py:18-23 | no regions give no regions |
| Regions.PruneRegionsSingle | testing/test_utils.py:24-28 | a single region is returned unchanged |
| Regions.PruneRegionsKeepsApart | testing/test_utils.py:29-33 | disjoint regions on one chromosome stay apart |
| Regions.PruneRegionsKeepsChromosomes | testing/test_utils.py:34-38 | overlapping positions on different chromosomes stay separate |
| Regions.PruneRegionsRejectsInvalid | testing/test_utils.py:39-43 | the test's nested case, whose second region is (30, 20), is rejected because that region is invalid |
| Regions.PruneRegionsMerges | testing/test_utils.py:44-58 | nested and partly overlapping pairs, in either order, merge to (10, 40) |
| Regions.PaddedWindow | Scripts/compare.py:209-212 | the window covers exactly the positions p ≥ 0 on the variant's chromosome with pos - pad·1000 ≤ p ≤ pos + pad·1000. It never starts below 0; with pad and pos ≥ 0 it is valid and contains pos, and with pad < 0 it is invalid |
| Regions.Windows | Scripts/compare.py:205-212 | one padded window per variant, in order |
| Regions.WindowsValid | Scripts/compare.py:205-212 | with pad ≥ 0 every window is valid and the windows cover every variant |
| Regions.QueryRegionsCoverVariants | Scripts/compare.py:205-213 | the merged query regions are canonical, cover every variant, and cover only positions inside some variant's window |
| Regions.QueryRegionsNegativePad | Scripts/compare.py:209-213 | a negative padding makes the merge raise for any non-empty input |
| Regions.QueryRegions | Scripts/compare.py:205-213 | the query regions exist iff every variant's padded window is a valid region; otherwise the merge raises |
| Utils.FileBaseName | Scripts/autoreporting_utils.py:11-14 | "" for ""; otherwise the longest '.'-free prefix of the file name, the part after the last '/' (or the whole path without one) |
| Utils.FileStartUnique | Scripts/autoreporting_utils.py:11-14 | the file name's start is unique, so the result is determined |
| Utils.FileBaseNameForms | Scripts/autoreporting_utils.py:11-14 | name, name.ext and dir/name all give name |
| Utils.FileBaseNameOfPath | Scripts/autoreporting_utils.py:11-14 | dir/name.ext gives name |
| Utils.ReplaceValue | Scripts/autoreporting_utils.py:16-28 | fails iff the column is missing. Otherwise it changes exactly the cells of that column equal to value, into replace_with, and keeps the other columns, the row count and the column set |
| Utils.ReplaceValueRoundTrip | Scripts/autoreporting_utils.py:16-28 | when replace_with does not occur in the column, replacing back restores the table. Scripts/compare.py:388-390 uses the same pattern, 23 to X on one table and X to 23 on another |
| Utils.ReplaceValueIdempotent | Scripts/autoreporting_utils.py:16-28 | after a replacement the value no longer occurs in the column and a second replacement changes nothing |
| Utils.CreateVariantColumn | Scripts/autoreporting_utils.py:31-38 | None iff the table is empty; otherwise one identifier per row, the row's own |
| Utils.VariantIdExample | testing/test_utils.py:9-15 | ("1", 1234, "CGC", "TTC") becomes "chr1_1234_CGC_TTC" |
| Utils.VariantId | Scripts/autoreporting_utils.py:31-38 | the identifier is "chr", chrom, position, ref and alt joined by '_' |
| Utils.ParseVariantId | Scripts/compare.py:319-322 | a parsed identifier has four fields and none contains '_' |
| Utils.ParseVariantIdInverse | Scripts/compare.py:319-322 | parsing an identifier built by create_variant_column recovers chrom, pos, ref and alt, provided no field contains '_', chrom does not start with c/h/r and alt does not end with c/h/r |
| Utils.ColumnsFromArguments | Scripts/autoreporting_utils.py:166-177 | defined iff there are at least five labels; maps exactly chrom, pos, ref, alt and pval to labels 0..4 |
| Utils.ColumnsFromArgumentsIgnoresExtra | Scripts/autoreporting_utils.py:166-177 | labels after the fifth do not matter |
| Alleles.Complement | Scripts/compare.py:19 | defined exactly on T, C and G |
| Alleles.FlipStrand | Scripts/compare.py:23-24 | defined iff every character upper-cases to T, C or G; the result has the same length and is the complement of the upper-cased input, position by position |
| Alleles.SortPair | Scripts/compare.py:26 | the pair in lexicographic order, a permutation of the input |
| Alleles.MapAlleles | Scripts/compare.py:14-26 | with A or a present the inputs are only sorted. Otherwise the result is the sorted pair of the two complemented alleles (every base upper-cased, then T to A, C to G, G to C), and the call fails iff a flip meets another character. The result is sorted and keeps the two lengths |
| Alleles.MapAllelesSymmetric | Scripts/compare.py:14-26 | map_alleles(a, b) == map_alleles(b, a) |
| Alleles.MapAllelesIdempotent | Scripts/compare.py:14-26 | when the input holds A/a or T/t, re-applying to the result gives the same pair |
| Alleles.MapAllelesFlipsBackCG | Scripts/compare.py:14-26 | pure C/G pairs flip back on a second application, to the sorted upper-cased input |
| Alleles.MapAllelesNotIdempotentExample | Scripts/compare.py:14-26 | ("C", "CG") maps to ("G", "GC"), which maps back to ("C", "CG") |
| Alleles.MapAllelesRejectsUnknownBase | Scripts/compare.py:19-24 | '-' or 'N' among flipped alleles is a KeyError |
| Alleles.CanonicalId | Scripts/compare.py:28-37 | defined iff map_alleles is defined on the row's alleles |
| Alleles.CanonicalIdParsesBack | Scripts/compare.py:28-37 | the canonical identifier splits back into the chromosome, the position and the A-strand allele pair, when those fields survive the round trip |
| Alleles.MapColumn | Scripts/compare.py:28-37 | defined iff every row maps; then one canonical identifier per row, the row's own |
| Alleles.CanonicalIdIgnoresOrientation | Scripts/compare.py:28-37 | swapping ref and alt does not change the canonical identifier |
| Alleles.CanonicalIdStrandExample | Scripts/compare.py:14-37 | T/G and A/C on the same position get the same identifier |
| Alleles.FilterInvalidAllelesAsWritten | Scripts/compare.py:336-348 | keeps exactly the rows whose ref matches ^[acgtACGT]+$, and does not check alt |
| Alleles.FilterInvalidAlleles | Scripts/compare.py:336-343 | keeps exactly the rows whose ref and alt both match ^[acgtACGT]+$ |
| Alleles.FilterInvalidAllelesOrdered | Scripts/compare.py:347 | both filters keep the input order: filtering a concatenation filters each part |
| Alleles.FilterInvalidAllelesMissesAlt | Scripts/compare.py:345-346 | ("A", "-") passes the filter as written and is removed by the intended one |
| Alleles.MatchesBasesTrailingNewline | Scripts/compare.py:344-345 | re.match's $ accepts one trailing newline; the empty string does not match |
| Alleles.MatchesBases | Scripts/compare.py:344-346 | `^[acgtACGT]+$` matches iff the text is one or more bases, optionally followed by a single trailing newline |
| Indels.MatchIndel | Scripts/compare.py:62-79 | the four allele tests: a result explains the reported indel (one allele of length 1, the other's tail equal to the reported allele) and is the local pair in one of its orders; none iff neither order explains it |
| Indels.Rewrite | Scripts/compare.py:39-44 | indel_helper changes chrom, pos, ref and alt only; the other fields are kept |
| Indels.SolveIndel | Scripts/compare.py:50-79 | none iff no local variant on the same chromosome one position earlier explains the row; otherwise the rewrite by the first that does (the break) |
| Indels.SolveIndelShape | Scripts/compare.py:52-79 | a solved row moves to pos - 1 on the same chromosome. For ref '-' its ref has length 1 and the tail of its alt is the reported alt; for alt '-' symmetrically |
| Indels.SolveIndelExample | Scripts/compare.py:56 | (101, -, TCGA) against local (100, T, TTCGA) becomes (100, T, TTCGA) |
| Indels.SolveIndelNeedsDash | Scripts/compare.py:62-79 | a row with neither allele '-' is never solved |
| Indels.SolveIndels | Scripts/compare.py:46-81 | at most one output row per input row |
| Indels.SolveIndelsMembers | Scripts/compare.py:46-81 | every output is the solution of some input, and every solvable input's solution is in the output |
| Indels.SolveIndelsConcat | Scripts/compare.py:50 | rows are handled independently and in order |
| Indels.ResolveIndels | Scripts/compare.py:229-232 | no more rows than reported |
| Indels.ResolveIndelsShape | Scripts/compare.py:229-232 | the non-indel rows come first, in order. Every other row is the solution of an indel row, and every solvable indel row's solution is present |
| Indels.IsIndel | Scripts/compare.py:229 | the indel mask: ref or alt is '-'. Rows outside it are never solved (Indels.SolveIndelNeedsDash) |
| Ld.LdPlan | Scripts/compare.py:264-274 | a locus with at most one member is skipped. Otherwise the lead-row lookup raises iff no row is the locus' variant, and then the locus is skipped iff its first row's window has rmin == rmax. A computed locus runs over exactly its first row's window, with the configured thread count or the member count, whichever is smaller |
| Ld.LdPlanSkipsSingletons | Scripts/compare.py:264-265 | loci with at most one member are skipped, before the lead-row lookup can raise |
| Ld.LdPlanThreads | Scripts/compare.py:274 | threads = min(configured, member count) |
| Ld.Pool | Scripts/compare.py:296 | the catalog variants inside the window |
| Ld.MemberIds | Scripts/compare.py:295 | the locus' own variants |
| Ld.Symmetrize | Scripts/compare.py:316-318 | twice as many rows; every row appears in both orientations with the same correlation, and nothing else appears |
| Ld.SymmetrizeIsSymmetric | Scripts/compare.py:316-318 | the symmetrised table is closed under swapping |
| Ld.ParseRow | Scripts/compare.py:319-322 | succeeds iff the second identifier has at least four '_'-fields after the strip; the first four are the parsed ones |
| Ld.CanonicalFromFields | Scripts/compare.py:325 | defined iff map_alleles is defined on the parsed alleles |
| Ld.CanonicalFromParsedId | Scripts/compare.py:319-325 | an identifier written by create_variant_column and parsed back maps to the variant's canonical identifier |
| Ld.LinkOf | Scripts/compare.py:325-328 | succeeds iff the alleles map; then it keeps both identifiers, attaches the canonical identifier and r² = correlation² |
| Ld.ExtractLinks | Scripts/compare.py:313-328 | at most two links per table row; when it succeeds is stated by Ld.ExtractLinksSucceeds |
| Ld.ExtractLinksSound | Scripts/compare.py:316-328 | every link starts at a locus variant, ends at a pooled variant, and comes from a row of the symmetrised table whose squared correlation is its r² |
| Ld.ExtractLinksComplete | Scripts/compare.py:316-328 | every orientation of a row from a locus variant to a pooled variant becomes a link |
| Ld.ExtractLinksRejectsUnparsable | Scripts/compare.py:319-322 | one identifier with fewer than four fields makes the step raise |
| Ld.ExtractLinksSucceeds | Scripts/compare.py:313-328 | the step succeeds iff every symmetrised second identifier has four fields and every row starting at a locus variant carries alleles map_alleles can flip; otherwise it raises |
| Report.GroupingOf | Scripts/compare.py:125-131 | "cred" and "ld" select their modes; anything else is the simple mode |
| Report.StrictGroup | Scripts/compare.py:124-131 | the locus rows meeting the mode's test: cs_id present; or pval ≤ thr and r2 ≥ strict r2; or pval ≤ thr |
| Report.StrictLdWithinSimple | Scripts/compare.py:129-131 | the ld strict group is within the simple one |
| Report.LocusRows | Scripts/compare.py:122 | exactly the rows of the locus |
| Report.UniqueLoci | Scripts/compare.py:116 | distinct locus ids |
| Report.UniqueLociMembers | Scripts/compare.py:116 | exactly the locus ids of the rows, in order of first appearance, each with rows |
| Report.MinPos | Scripts/compare.py:135 | the least position of the rows |
| Report.MaxPos | Scripts/compare.py:136 | the greatest position of the rows |
| Report.FirstLead | Scripts/compare.py:149 | none iff no row is the lead variant; otherwise the row at the first index whose variant is the locus |
| Report.LeadAnnotation | Scripts/compare.py:138-148 | the annotation of the first lead row; empty strings when that row has no annotation columns or no row is the lead variant |
| Report.ColumnKey | Scripts/compare.py:149-153 | a column-dictionary lookup, failing with the missing key |
| Report.LeadValues | Scripts/compare.py:149-158 | succeeds iff pval is a key, a lead row exists and has the four numeric columns; then it holds that row's values |
| Report.CredibleSet | Scripts/compare.py:161-162 | duplicate-free |
| Report.CredibleSetMembers | Scripts/compare.py:161-162 | exactly the (variant, cs_prob) pairs of rows with a cs_id |
| Report.FunctionalRelaxed | Scripts/compare.py:163-173 | empty without a functional column. Otherwise duplicate-free, and an entry is present iff it is the (variant, category, r²) of a row with a functional category |
| Report.FunctionalStrict | Scripts/compare.py:166-172 | empty without a functional column. Otherwise duplicate-free, and an entry is present iff it is the (variant, category) of a strict-group row with a functional category |
| Report.SortByRank | Scripts/compare.py:177 | a permutation of the hits ordered by descending r2, with missing values last |
| Report.TraitList | Scripts/compare.py:175-186 | no longer than the hits, and every entry has trait, name and r2 |
| Report.TraitListProperties | Scripts/compare.py:175-186 | one entry per (trait, trait_name); each entry is an input hit and ranks at least as high as every hit with its key |
| Report.TraitListComplete | Scripts/compare.py:175-186 | every complete hit's key appears in the list |
| Report.OtherTraits | Scripts/compare.py:188-189 | exactly the listed traits outside the EFO allow-list |
| Report.SpecificTraits | Scripts/compare.py:194-198 | present iff EFO codes were given; then exactly the listed traits on the allow-list |
| Report.EfoPartition | Scripts/compare.py:188-198 | specific and other traits partition the list (as multisets); with no codes, other is the whole list |
| Report.LocusReport | Scripts/compare.py:118-199 | a locus row carries its id and the chromosome of its first row. Its start and end are the least and greatest positions of the locus, and specific lists exist iff codes were given |
| Report.LocusReportLead | Scripts/compare.py:137-173 | a locus row reports its first lead row: the p-value, beta and the three allele frequencies read through the column dictionary, and that row's annotation or empty strings. Its credible set holds exactly the (variant, cs_prob) pairs of credible-set rows, and with a functional column its two functional lists hold exactly the entries of the locus' and of the strict group's functional rows |
| Report.TraitSide | Scripts/compare.py:175-189 | one side of the EFO split of a trait list holds complete triples of that side taken from the rows, one per (trait, trait name); every complete triple of a row on that side has its key in the list with at least its r² |
| Report.TraitSideNested | Scripts/compare.py:175-189 | a key found in the strict group is found on the same side over a superset of rows, with at least the same r² |
| Report.LocusReportTraits | Scripts/compare.py:175-198 | found_associations_strict holds, once per (trait, trait name), the complete triples of strict-group rows whose trait is not among the EFO codes, and every such key of a strict-group row is in it. Each of its keys is in found_associations_relaxed with at least the same r². The relaxed list has the same properties over all the locus' rows, and the specific lists mirror both for traits among the codes |
| Report.TopLevelReport | Scripts/compare.py:110-114 | an empty report gives an empty table |
| Report.TopLevelReportShape | Scripts/compare.py:113-201 | one row per distinct locus, in first-appearance order, each spanning all positions of its locus |
| Report.TopLevelReportSucceeds | Scripts/compare.py:118-199 | with the needed keys and a lead row with numeric columns for every locus, the report is produced |
| Report.TopLevelReportFailsWithFiveColumns | Scripts/compare.py:149-153 | with the dictionary columns_from_arguments builds, every non-empty report raises |
| Report.ReportColumns | Scripts/compare.py:486 | the nine-key dictionary extends the five keys columns_from_arguments gives with beta, af, af_cases and af_controls |
| Report.ReportColumnsSupplyLead | Scripts/compare.py:149-158 | with the nine-key dictionary the lead values exist iff the lead row exists and has the four columns the labels name |
| Report.TopReportFromArguments | Scripts/compare.py:521-522 | an empty report gives an empty table |
| Report.TopReportFromArgumentsSucceeds | Scripts/compare.py:521-522 | with the nine-key dictionary every report whose loci have complete lead rows is produced |
| Retrieval.Budget | Scripts/gwcatalog_api.py:51-58 | at most max(timeout, 2) requests |
| Retrieval.Outcome | Scripts/gwcatalog_api.py:62-64 | a response is returned iff the last status is 200 |
| Retrieval.TryRequest | Scripts/gwcatalog_api.py:43-64 | between 1 and max(timeout, 2) requests. Every request but the last got a status outside 200/400/404, and stopping before the budget means a final status or an exception. The result is the last response iff its status is 200. try_request_post at lines 66-87 is the same loop |
| Retrieval.AlwaysBusy | testing/test_gwcat.py:47-56 | a server that always answers 500 is asked exactly 5 times and nothing is returned |
| Retrieval.BusyWithTimeoutOne | Scripts/gwcatalog_api.py:51-58 | a timeout below two still makes a second request |
| Retrieval.NotFoundAtOnce | Scripts/gwcatalog_api.py:50-52 | a 404 ends after one request with nothing returned |
| Retrieval.AnswersOnThirdCall | Scripts/gwcatalog_api.py:52-58 | busy twice and then 200 means three requests and that response |
| Retrieval.GetTraitName | Scripts/gwcatalog_api.py:34-41 | the first of the five calls that does not ask for another try decides: a 200 gives its trait name, and an exception, 400 or 404 gives "NA". Five busy answers give "NA", and any other name comes from a 200 answer |
| Catalog.ParseEfo | Scripts/gwcatalog_api.py:146-151 | "NAN" for a non-string; otherwise the suffix after the last '/', which contains no '/' |
| Catalog.ParseEfoOfUri | Scripts/gwcatalog_api.py:146-151 | prefix/efo gives efo |
| Catalog.ParseEfoExample | testing/test_gwcat.py:166-177 | "asd/EFO_CODE" gives "EFO_CODE" |
| Catalog.Chunks | Scripts/gwcatalog_api.py:153-154 | chunks are non-empty and at most size long, and all but the last are exactly size long |
| Catalog.ChunksFlatten | Scripts/gwcatalog_api.py:153-154 | concatenating the chunks gives the list back |
| Catalog.ChunksAreSlices | Scripts/gwcatalog_api.py:153-154 | the recursive chunking equals the slices lst[pos:pos+size] for pos in range(0, len, size) |
| Catalog.InChunks | Scripts/gwcatalog_api.py:153-154 | size 0 raises (range step 0); a negative size gives no chunks; a positive size gives non-empty chunks of at most size, all but the last full, that concatenate to the list |
| Catalog.ParseOutputMembers | Scripts/gwcatalog_api.py:27-32 | the rows are exactly the values of the dictionaries |
| Catalog.ParseOutputConcat | Scripts/gwcatalog_api.py:27-32 | values come out in dictionary order |
| Catalog.ParseOutput | Scripts/gwcatalog_api.py:27-32 | no dictionaries give no rows; the first dictionary's values are a prefix of the rows, and a single dictionary gives exactly its values |
| Catalog.ParseRecord | Scripts/gwcatalog_api.py:158-163 | succeeds iff there is a first mapping and its allele string has a '/'. Then the rsid is the key, alt is the piece before the first '/', and neither allele contains '/' |
| Catalog.ParseRecordOfAlleles | Scripts/gwcatalog_api.py:159-163 | an allele string a0/a1/... gives ref = a1 and alt = a0 |
| Catalog.ParseEnsembl | Scripts/gwcatalog_api.py:156-164 | succeeds iff every record parses; then one output per key, in order, with its rsid |
| Catalog.SplitRow | Scripts/gwcatalog_api.py:198-211 | a row whose URI is not a string or has no comma comes back unchanged. A comma row with a non-string trait raises. Every output keeps the other fields |
| Catalog.SplitRowPieces | Scripts/gwcatalog_api.py:200-207 | a comma row expands into zip-length rows of stripped (trait, uri) pairs, in order |
| Catalog.SplitRowOfJoined | Scripts/gwcatalog_api.py:200-207 | joined traits and URIs without surrounding spaces split back into their pairs |
| Catalog.SplitTraits | Scripts/gwcatalog_api.py:188-213 | None when either trait column is missing; fails iff some comma row has a non-string trait |
| Catalog.SplitTraitsKeepsRows | Scripts/gwcatalog_api.py:198-212 | no row is lost and every output row carries an input row's fields |
| Catalog.SplitTraitsSingle | Scripts/gwcatalog_api.py:198-212 | a table without comma rows comes back unchanged |
| Catalog.SplitTraitsExample | testing/test_gwcat.py:192-202 | the four-row test table (A, B,C, D,E, F) becomes the six single-trait rows |
| Catalog.QueryRsids | Scripts/gwcatalog_api.py:233-238 | exactly the SNPS of entries with the chromosome, start ≤ pos ≤ end and p ≤ pval, except those containing " x " |
| Catalog.QueryRsidsMonotone | Scripts/gwcatalog_api.py:233-238 | widening the range or raising the p-value bound loses no rsid |

## Left out

- The HTTP requests, `time.sleep` and the logging prints of `gwcatalog_api.py` are left out; the server is a function parameter. `try_request_post` is the same loop as `try_request` and shares its model.
- `SummaryApi`, `GwasApi` and the Ensembl batching loop `ensembl_request` are left out. They are network clients; only their parsing helpers (`parse_ensembl`, `in_chunks`, `parse_output`) are modelled.
- `LocalDB.__init__` is left out. It reads a CSV and coerces columns to numbers. The model starts from entries with a numeric position and p-value.
- In `LocalDB.get_associations`, the step after the rsid filter is left out: merging with the Ensembl answer, renaming columns and setting `code = 20`. These are table plumbing around the modelled `split_traits` and `parse_efo`.
- `parse_float` and all `{:.3g}` formatting are left out. They are float-to-text formatting; lists are kept as sequences.
- All subprocess calls to plink and ldstore, file checks, CSV reads and writes, and temporary-file removal in `extract_ld_variants` and `compare` are left out.
- The `ThreadPool` fan-out is left out, because it is concurrency.
- The pysam and gzip loaders and `Scripts/annotate.py` are left out, because they are foreign-library I/O.
- The argument parsing of the `__main__` blocks is left out, except for the column dictionary it builds.
- `compare` itself is left out. It is driver code: merges, the code filter `[9, 14, 15, 16, 17, 18]` and `get_trait` fan-out.
- `prune_regions` is modelled on its `List[Region]` signature. The DataFrame call sites (Scripts/compare.py:213, 250) and the unit test use an older signature. The test's `min`/`max` expectations appear as `Region(chrom, start, end)` values in the test lemmas.
- The unit test for `try_request` targets a newer version that raises instead of returning `None`. The model follows Scripts/gwcatalog_api.py:43-64, which returns `None` on every failure; the five-call count of the busy case agrees.
- Ld.ExtractLinks: pandas inner merges are modelled as membership tests, so the link multiplicity that duplicate keys would cause is not modelled.
- Ld.ExtractLinks: the file-existence errors and the empty-table early return are not modelled.
- Report.SortByRank: the model sorts by insertion, whereas pandas' default quicksort leaves ties in an unspecified order. Among rows with equal r2, the model may keep a different one than pandas, so only the ranking and the one-per-key property are stated.
- Report.CredibleSet: the `drop_duplicates` over the two-column frame is modelled as deduplication of (variant, cs_prob) pairs. Floating point is modelled as `real`.
- Retrieval.TryRequest: the response body is reduced to its status and trait name.
- Alleles.MapAlleles: a KeyError on an unknown base is modelled as `None` rather than as a precondition, so callers see it.
- Re-applying `map_alleles` does not always reproduce its result. Pure C/G pairs flip back (Alleles.MapAllelesFlipsBackCG), so canonicalisation is idempotent only when A/a or T/t occurs. The model follows the code.
- Catalog.SplitTraits: the output is a sequence of records, not a DataFrame rebuilt with `from_records`. Its column set is the input's.
- Regions.Overlaps: exceptions carry the offending region, not the message text.

## Findings

| source | as written | input that shows it | evidently intended | confidence | as-written member | corrected member |
|---|---|---|---|---|---|---|
| Scripts/compare.py:149-153 | `create_top_level_report` reads `columns["beta"]`, `columns["af"]`, `columns["af_cases"]` and `columns["af_controls"]`. The dictionary comes from `columns_from_arguments` (Scripts/compare.py:521, Scripts/autoreporting_utils.py:166-177), which has only chrom, pos, ref, alt and pval | any non-empty report: the lookup of `columns["beta"]`, or of the lead p-value when the lead row is missing, raises | a dictionary built from all nine `--column-labels`, so that lead beta and allele frequencies are found | not executed | Report.TopLevelReportFailsWithFiveColumns | Report.TopReportFromArgumentsSucceeds |
| Scripts/compare.py:346 | the second mask tests `columns["ref"]` again, so alt is never checked | a row with ref "A" and alt "-" is kept | both ref and alt must match `^[acgtACGT]+$`, as the docstring says | not executed | Alleles.FilterInvalidAllelesMissesAlt | Alleles.FilterInvalidAlleles |
