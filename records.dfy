/** The publication records of the spreadsheet and the year normalisation
    done right after reading it (dashboard.py lines 10-12). */
module Records {
  import opened Wrappers
  import opened Seqs

  /** The `Páginas` cell. The pipeline never looks inside it: it only takes
      part in the whole-row equality that de-duplicates the table. */
  datatype Pages = Pages(cell: string)

  /** One spreadsheet row with the six columns the dashboard uses:
      `Repositório`, `Título`, `Autor`, `Ano`, `Palavras-chave encontradas`
      (None stands for a NaN cell) and `Páginas`. The year column has type
      `Y`: the raw cell before loading, an `int` afterwards. */
  datatype Row<Y> = Row(
    repo: string,
    title: string,
    author: string,
    year: Y,
    keywordsRaw: Option<string>,
    pages: Pages)

  /** A loaded record: its year has been parsed into an integer. */
  type Record = Row<int>

  /** `row` with its year cell replaced by the parsed year `y`. */
  function WithYear<Y>(row: Row<Y>, y: int): Record {
    Row(row.repo, row.title, row.author, y, row.keywordsRaw, row.pages)
  }

  /** `parse` recognises the row's year cell. */
  function YearParses<Y(!new)>(parse: Y -> Option<int>): Row<Y> -> bool {
    (row: Row<Y>) => parse(row.year).Some?
  }

  /** Lines 10-12: `pd.to_datetime(..., errors="coerce").dt.year` gives each
      row an optional year (here the parameter `parse`), `dropna` drops the
      rows without one and `astype(int)` stores the rest as integers. */
  function Load<Y(!new)>(rows: seq<Row<Y>>, parse: Y -> Option<int>): (loaded: seq<Record>)
    ensures |loaded| == |Filter(rows, YearParses(parse))|
    decreases |rows|
  {
    if rows == [] then []
    else
      var head := match parse(rows[0].year)
        case Some(y) => [WithYear(rows[0], y)]
        case None => [];
      head + Load(rows[1..], parse)
  }

  /** Loading works row by row: the loaded rows keep their source order. */
  lemma {:induction false} LoadConcat<Y(!new)>(a: seq<Row<Y>>, b: seq<Row<Y>>, parse: Y -> Option<int>)
    ensures Load(a + b, parse) == Load(a, parse) + Load(b, parse)
    decreases |a|
  {
    if a == [] {
      assert a + b == b;
    } else {
      assert (a + b)[0] == a[0];
      assert (a + b)[1..] == a[1..] + b;
      LoadConcat(a[1..], b, parse);
    }
  }

  /** A single row survives, with its parsed year, exactly when its year parses. */
  lemma LoadSingle<Y(!new)>(row: Row<Y>, parse: Y -> Option<int>)
    ensures parse(row.year).Some? ==> Load([row], parse) == [WithYear(row, parse(row.year).value)]
    ensures parse(row.year).None? ==> Load([row], parse) == []
  {
    assert [row][1..] == [];
  }

  /** Every row whose year parses is loaded, carrying the parsed year. */
  lemma {:induction false} LoadKeepsParsed<Y(!new)>(rows: seq<Row<Y>>, parse: Y -> Option<int>, i: nat)
    requires i < |rows| && parse(rows[i].year).Some?
    ensures WithYear(rows[i], parse(rows[i].year).value) in Load(rows, parse)
    decreases |rows|
  {
    if i > 0 {
      LoadKeepsParsed(rows[1..], parse, i - 1);
    }
  }

  /** Every loaded record comes from a source row whose year parses to the
      record's year; nothing else about the row changes. */
  lemma {:induction false} LoadProvenance<Y(!new)>(rows: seq<Row<Y>>, parse: Y -> Option<int>, r: Record)
    requires r in Load(rows, parse)
    ensures exists i :: 0 <= i < |rows| && parse(rows[i].year) == Some(r.year) && r == WithYear(rows[i], r.year)
    decreases |rows|
  {
    var head := match parse(rows[0].year)
      case Some(y) => [WithYear(rows[0], y)]
      case None => [];
    assert Load(rows, parse) == head + Load(rows[1..], parse);
    if r in head {
      assert parse(rows[0].year) == Some(r.year) && r == WithYear(rows[0], r.year);
    } else {
      LoadProvenance(rows[1..], parse, r);
      var i :| 0 <= i < |rows[1..]| && parse(rows[1..][i].year) == Some(r.year) && r == WithYear(rows[1..][i], r.year);
      assert rows[i + 1] == rows[1..][i];
    }
  }
}
