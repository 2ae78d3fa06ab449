/** The small table helpers of Scripts/autoreporting_utils.py:
    `filebasename`, `df_replace_value`, `create_variant_column` (and the
    parsing of its identifiers back into fields that Scripts/compare.py
    does for LD partners) and `columns_from_arguments`. */
module Utils {
  import opened Wrappers
  import opened Strings

  // ---------------------------------------------------------------------
  // filebasename
  // ---------------------------------------------------------------------

  /** `path[k..]` is the file name: `k` follows the last '/' of the path,
      or is 0 when there is none. */
  predicate FileStart(path: string, k: int)
  {
    0 <= k <= |path| && (k == 0 || path[k - 1] == '/') && '/' !in path[k..]
  }

  /** `filebasename`: the file name after the last '/', cut at its first
      '.'; the empty path gives the empty name. */
  function FileBaseName(path: string): (r: string)
    ensures '/' !in r && '.' !in r
    ensures path == "" ==> r == ""
    ensures |r| <= |path|
    ensures path != "" ==> exists k ::
      FileStart(path, k) && k + |r| <= |path| && path[k..k + |r|] == r && (k + |r| == |path| || path[k + |r|] == '.')
  {
    if path == "" then ""
    else
      var file := LastPiece(path, '/');
      var r := FirstPiece(file, '.');
      var k := |path| - |file|;
      assert path[k..] == file;
      assert path[k..k + |r|] == file[..|r|];
      assert FileStart(path, k);
      r
  }

  /** The file start is unique, so the contract above determines the name. */
  lemma FileStartUnique(path: string, k: int, j: int)
    requires FileStart(path, k) && FileStart(path, j)
    ensures k == j
  {
    assert forall i :: k <= i < |path| ==> path[i] != '/' by {
      forall i | k <= i < |path|
        ensures path[i] != '/'
      {
        assert path[i] == path[k..][i - k];
      }
    }
    assert forall i :: j <= i < |path| ==> path[i] != '/' by {
      forall i | j <= i < |path|
        ensures path[i] != '/'
      {
        assert path[i] == path[j..][i - j];
      }
    }
  }

  /** A bare name, a name with extensions and a name under a directory all
      give the name. */
  lemma FileBaseNameForms(dir: string, name: string, ext: string)
    requires name != "" && '/' !in name && '.' !in name && '/' !in ext
    ensures FileBaseName(name) == name
    ensures FileBaseName(name + "." + ext) == name
    ensures FileBaseName(dir + "/" + name) == name
  {
    SplitNoSeparator(name, '/');
    SplitNoSeparator(name, '.');
    var file := name + "." + ext;
    assert '/' !in file by {
      forall i | 0 <= i < |file|
        ensures file[i] != '/'
      {
        if i < |name| {
          assert file[i] == name[i];
        } else if i > |name| {
          assert file[i] == ext[i - |name| - 1];
        }
      }
    }
    SplitNoSeparator(file, '/');
    assert file == name + ['.'] + ext;
    FirstPieceBefore(name, ext, '.');
    assert dir + "/" + name == dir + ['/'] + name;
    LastPieceAfter(dir, name, '/');
  }

  /** The name part of `dir/name.ext...` is `name`, whatever the directory
      and however many extensions follow. */
  lemma FileBaseNameOfPath(dir: string, name: string, ext: string)
    requires '/' !in name && '.' !in name && '/' !in ext
    ensures FileBaseName(dir + "/" + name + "." + ext) == name
  {
    var file := name + "." + ext;
    assert '/' !in file by {
      forall i | 0 <= i < |file|
        ensures file[i] != '/'
      {
        if i < |name| {
          assert file[i] == name[i];
        } else if i > |name| {
          assert file[i] == ext[i - |name| - 1];
        }
      }
    }
    assert dir + "/" + name + "." + ext == dir + ['/'] + file;
    LastPieceAfter(dir, file, '/');
    assert file == name + ['.'] + ext;
    FirstPieceBefore(name, ext, '.');
  }

  // ---------------------------------------------------------------------
  // df_replace_value
  // ---------------------------------------------------------------------

  /** One table row: column name to cell text. */
  type Row = map<string, string>

  /** A table whose every row has exactly the columns `columns`. */
  datatype Frame = Frame(columns: set<string>, rows: seq<Row>)

  predicate WellFormed(f: Frame)
  {
    forall i :: 0 <= i < |f.rows| ==> f.rows[i].Keys == f.columns
  }

  function ReplaceInRows(rows: seq<Row>, column: string, value: string, with: string): (out: seq<Row>)
    requires forall i :: 0 <= i < |rows| ==> column in rows[i]
    ensures |out| == |rows|
    ensures forall i :: 0 <= i < |rows| ==>
      && out[i].Keys == rows[i].Keys
      && (forall k :: k in rows[i] && k != column ==> out[i][k] == rows[i][k])
      && out[i][column] == (if rows[i][column] == value then with else rows[i][column])
  {
    seq(|rows|, i requires 0 <= i < |rows| => ReplaceInRow(rows[i], column, value, with))
  }

  /** One row with its `column` cell replaced when it equals `value`. */
  function ReplaceInRow(row: Row, column: string, value: string, with: string): (out: Row)
    requires column in row
    ensures out.Keys == row.Keys
    ensures forall k :: k in row && k != column ==> out[k] == row[k]
    ensures out[column] == (if row[column] == value then with else row[column])
  {
    row[column := if row[column] == value then with else row[column]]
  }

  /** `df_replace_value` with `regex=False`: every cell of `column` equal to
      `value` becomes `with`; a missing column is a `KeyError`. */
  function ReplaceValue(f: Frame, column: string, value: string, with: string): (r: Option<Frame>)
    requires WellFormed(f)
    ensures r.Some? <==> column in f.columns
    ensures r.Some? ==> WellFormed(r.value) && r.value.columns == f.columns && |r.value.rows| == |f.rows|
    ensures r.Some? ==> forall i, k :: 0 <= i < |f.rows| && k in f.columns && k != column ==>
      r.value.rows[i][k] == f.rows[i][k]
    ensures r.Some? ==> forall i :: 0 <= i < |f.rows| ==>
      r.value.rows[i][column] == (if f.rows[i][column] == value then with else f.rows[i][column])
  {
    if column !in f.columns then None
    else Some(Frame(f.columns, ReplaceInRows(f.rows, column, value, with)))
  }

  /** `column` holds no cell equal to `x`. */
  predicate Absent(f: Frame, column: string, x: string)
    requires WellFormed(f) && column in f.columns
  {
    forall i :: 0 <= i < |f.rows| ==> f.rows[i][column] != x
  }

  /** Replacing "23" by "X" and back restores the table when "X" did not
      occur in the column beforehand: the chromosome relabelling around the
      catalog query loses nothing. */
  lemma ReplaceValueRoundTrip(f: Frame, column: string, value: string, with: string)
    requires WellFormed(f) && column in f.columns
    requires Absent(f, column, with)
    ensures ReplaceValue(f, column, value, with).Some?
    ensures ReplaceValue(ReplaceValue(f, column, value, with).value, column, with, value) == Some(f)
  {
    var g := ReplaceValue(f, column, value, with).value;
    var h := ReplaceValue(g, column, with, value).value;
    assert |h.rows| == |f.rows|;
    forall i | 0 <= i < |f.rows|
      ensures h.rows[i] == f.rows[i]
    {
      assert h.rows[i].Keys == f.rows[i].Keys;
      forall k | k in f.rows[i]
        ensures h.rows[i][k] == f.rows[i][k]
      {
      }
    }
    assert h.rows == f.rows;
  }

  /** Replacing a value that is not its own replacement twice changes
      nothing the second time. */
  lemma ReplaceValueIdempotent(f: Frame, column: string, value: string, with: string)
    requires WellFormed(f) && column in f.columns
    requires value != with
    ensures ReplaceValue(f, column, value, with).Some?
    ensures var g := ReplaceValue(f, column, value, with).value;
      Absent(g, column, value) && ReplaceValue(g, column, value, with) == Some(g)
  {
    var g := ReplaceValue(f, column, value, with).value;
    var h := ReplaceValue(g, column, value, with).value;
    forall i | 0 <= i < |g.rows|
      ensures h.rows[i] == g.rows[i]
    {
      assert h.rows[i].Keys == g.rows[i].Keys;
      forall k | k in g.rows[i]
        ensures h.rows[i][k] == g.rows[i][k]
      {
      }
    }
    assert h.rows == g.rows;
  }

  // ---------------------------------------------------------------------
  // create_variant_column and its inverse
  // ---------------------------------------------------------------------

  /** The four fields that identify a variant. */
  datatype Variant = Variant(chrom: string, pos: int, ref: string, alt: string)

  /** `"chr{}_{}_{}_{}".format(chrom, pos, ref, alt)`. */
  function VariantId(v: Variant): (id: string)
    ensures "chr" <= id
    ensures id == "chr" + v.chrom + "_" + IntToString(v.pos) + "_" + v.ref + "_" + v.alt
  {
    JoinFour(v.chrom, IntToString(v.pos), v.ref, v.alt, '_');
    "chr" + Join([v.chrom, IntToString(v.pos), v.ref, v.alt], '_')
  }

  /** `create_variant_column`: one identifier per row, `None` for an empty
      table. */
  function CreateVariantColumn(rows: seq<Variant>): (r: Option<seq<string>>)
    ensures r.None? <==> |rows| == 0
    ensures r.Some? ==> |r.value| == |rows| && forall i :: 0 <= i < |rows| ==> r.value[i] == VariantId(rows[i])
  {
    if |rows| == 0 then None else Some(seq(|rows|, i requires 0 <= i < |rows| => VariantId(rows[i])))
  }

  /** The characters `str.strip("chr")` removes. */
  const ChrChars: set<char> := {'c', 'h', 'r'}

  /** The fields of an identifier as read back at Scripts/compare.py:319-322:
      strip the characters c, h and r from both ends, split on '_' and take
      the first four pieces; fewer than four pieces is an `IndexError`. */
  function ParseVariantId(id: string): (r: Option<seq<string>>)
    ensures r.Some? ==> |r.value| == 4 && forall i :: 0 <= i < 4 ==> '_' !in r.value[i]
  {
    var pieces := Split(StripChars(id, ChrChars), '_');
    if |pieces| < 4 then None else Some(pieces[..4])
  }

  /** Fields that survive the round trip: no '_' inside, and no c, h or r
      where the strip could reach it (the start of the chromosome, the end
      of the alternative allele). */
  predicate Parsable(v: Variant)
  {
    && '_' !in v.chrom && '_' !in v.ref && '_' !in v.alt
    && (|v.chrom| == 0 || v.chrom[0] !in ChrChars)
    && (|v.alt| == 0 || v.alt[|v.alt| - 1] !in ChrChars)
  }

  lemma IntToStringHasNoUnderscore(n: int)
    ensures '_' !in IntToString(n)
    ensures forall i :: 0 <= i < |IntToString(n)| ==> IntToString(n)[i] !in ChrChars
  {
    var s := IntToString(n);
    forall i | 0 <= i < |s|
      ensures s[i] != '_' && s[i] !in ChrChars
    {
      assert IsDigit(s[i]) || s[i] == '-';
    }
  }

  /** Stripping "chr" off the front of a body that starts and ends outside
      the stripped characters gives the body back. */
  lemma StripChrPrefix(body: string)
    requires |body| > 0 && body[0] !in ChrChars && body[|body| - 1] !in ChrChars
    ensures StripChars("chr" + body, ChrChars) == body
  {
    LStripPrefix("chr", body, ChrChars);
  }

  /** The strip removes exactly the "chr" prefix of an identifier. */
  lemma StripVariantId(v: Variant)
    requires Parsable(v)
    ensures StripChars(VariantId(v), ChrChars) == Join([v.chrom, IntToString(v.pos), v.ref, v.alt], '_')
  {
    var p := IntToString(v.pos);
    var body := Join([v.chrom, p, v.ref, v.alt], '_');
    JoinFour(v.chrom, p, v.ref, v.alt, '_');
    assert body[0] !in ChrChars by {
      if |v.chrom| > 0 {
        assert body[0] == v.chrom[0];
      }
    }
    assert body[|body| - 1] !in ChrChars by {
      if |v.alt| > 0 {
        assert body[|body| - 1] == v.alt[|v.alt| - 1];
      }
    }
    StripChrPrefix(body);
  }

  /** The joined fields of a parsable variant split back into them. */
  lemma SplitVariantBody(v: Variant)
    requires Parsable(v)
    ensures Split(Join([v.chrom, IntToString(v.pos), v.ref, v.alt], '_'), '_') == [v.chrom, IntToString(v.pos), v.ref, v.alt]
  {
    IntToStringHasNoUnderscore(v.pos);
    SplitJoin([v.chrom, IntToString(v.pos), v.ref, v.alt], '_');
  }

  /** Reading an identifier back gives its fields, position as text. */
  lemma ParseVariantIdInverse(v: Variant)
    requires Parsable(v)
    ensures ParseVariantId(VariantId(v)) == Some([v.chrom, IntToString(v.pos), v.ref, v.alt])
  {
    var fields := [v.chrom, IntToString(v.pos), v.ref, v.alt];
    StripVariantId(v);
    SplitVariantBody(v);
    ParseVariantIdOf(VariantId(v), fields);
  }

  lemma ParseVariantIdOf(id: string, fields: seq<string>)
    requires |fields| == 4 && Split(StripChars(id, ChrChars), '_') == fields
    ensures ParseVariantId(id) == Some(fields)
  {
    assert fields[..4] == fields;
  }

  /** The identifier the tests expect for chromosome 1, position 1234. */
  lemma VariantIdExample()
    ensures VariantId(Variant("1", 1234, "CGC", "TTC")) == "chr1_1234_CGC_TTC"
    ensures CreateVariantColumn([Variant("1", 1234, "CGC", "TTC")]) == Some(["chr1_1234_CGC_TTC"])
  {
    var v := Variant("1", 1234, "CGC", "TTC");
    assert VariantId(v) == "chr1_1234_CGC_TTC" by {
      assert IntToString(1234) == "1234" by {
        assert NatToString(1) == "1";
        assert NatToString(12) == "12";
        assert NatToString(123) == "123";
      }
      JoinFour("1", "1234", "CGC", "TTC", '_');
    }
    var column := CreateVariantColumn([v]).value;
    assert |column| == 1 && column[0] == VariantId(v);
    assert column == ["chr1_1234_CGC_TTC"];
  }

  // ---------------------------------------------------------------------
  // columns_from_arguments
  // ---------------------------------------------------------------------

  /** `columns_from_arguments`: the first five labels become the columns
      chrom, pos, ref, alt and pval; fewer labels is an `IndexError`. */
  function ColumnsFromArguments(labels: seq<string>): (r: Option<map<string, string>>)
    ensures r.Some? <==> |labels| >= 5
    ensures r.Some? ==> r.value.Keys == {"chrom", "pos", "ref", "alt", "pval"}
    ensures r.Some? ==> (r.value["chrom"] == labels[0] && r.value["pos"] == labels[1]
      && r.value["ref"] == labels[2] && r.value["alt"] == labels[3] && r.value["pval"] == labels[4])
  {
    if |labels| < 5 then None
    else Some(map["chrom" := labels[0], "pos" := labels[1], "ref" := labels[2],
                  "alt" := labels[3], "pval" := labels[4]])
  }

  /** Labels after the fifth are ignored. */
  lemma ColumnsFromArgumentsIgnoresExtra(labels: seq<string>)
    requires |labels| >= 5
    ensures ColumnsFromArguments(labels) == ColumnsFromArguments(labels[..5])
  {
  }
}
