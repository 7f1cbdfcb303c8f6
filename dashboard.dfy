/** The whole dashboard as a function of the spreadsheet: the index built
    once at start-up (dashboard.py lines 10-23 and 37-52) and the callback
    `atualizar_grafico` (lines 112-149) that answers every change of the
    three controls with a chart and a table. */
module Dashboard {
  import opened Wrappers
  import opened Seqs
  import opened Ordering
  import opened Records
  import opened Keywords
  import opened Aggregate

  /** The three figures the callback can draw: the "no data" placeholder
      (`px.scatter` with only a title), a line chart and a grouped bar chart. */
  datatype ChartKind = NoData | Line | Bar

  /** A figure: its kind and the grouped rows it plots. */
  datatype Chart = Chart(kind: ChartKind, data: seq<Group>)

  /** Lines 122-141: the placeholder when nothing is grouped, otherwise a
      line chart for the radio value "linha" and a bar chart for any other
      value. Every kind plots the grouped rows unchanged. */
  function ChooseChart(grouped: seq<Group>, tipo: string): (c: Chart)
    ensures c.data == grouped
    ensures c.kind == NoData <==> grouped == []
    ensures c.kind == Line <==> grouped != [] && tipo == "linha"
    ensures c.kind == Bar <==> grouped != [] && tipo != "linha"
  {
    if grouped == [] then Chart(NoData, grouped)
    else if tipo == "linha" then Chart(Line, grouped)
    else Chart(Bar, grouped)
  }

  /** The six original columns of an expanded row: its record without the
      exploded keyword. */
  function RecordOf(f: Fact): Record {
    f.rec
  }

  /** Lines 146-147: the selected rows projected onto the six original
      columns, later exact duplicates dropped. No two table rows are equal,
      every selected row's projection is in the table and nothing else is. */
  function Table(selected: seq<Fact>): (t: seq<Record>)
    ensures Distinct(t)
    ensures forall r :: r in t <==> exists f :: f in selected && f.rec == r
    ensures |t| <= |selected|
  {
    var projected := Map(RecordOf, selected);
    forall r | r in projected ensures exists f :: f in selected && f.rec == r {
      MapSource(RecordOf, selected, r);
    }
    forall f | f in selected ensures f.rec in projected {
      MapMember(RecordOf, selected, f);
    }
    Dedup(projected)
  }

  /** The table keeps, from the projected rows, the first copy of each row
      and the order in which the first copies occur. */
  lemma TableOrder(selected: seq<Fact>, i: nat, j: nat)
    requires i < j < |Table(selected)|
    ensures var projected := Map(RecordOf, selected);
            FirstIndex(projected, Table(selected)[i]) < FirstIndex(projected, Table(selected)[j])
  {
    DedupFirstOccurrenceOrder(Map(RecordOf, selected), i, j);
  }

  /** The table is a subsequence of the projected selected rows. */
  lemma TableIsSubsequence(selected: seq<Fact>)
    ensures IsSubsequence(Table(selected), Map(RecordOf, selected))
  {
    DedupIsSubsequence(Map(RecordOf, selected));
  }

  /** What the callback returns: the figure and the table rows. */
  datatype View = View(chart: Chart, table: seq<Record>)

  /** Lines 112-149: select, group, choose the chart and build the table.
      The chart counts keyword hits, so its counts add up to the selected
      rows; the table lists distinct records, so it never has more rows. */
  function Update(facts: seq<Fact>, keywords: Option<seq<string>>, repos: seq<string>, tipo: string): (v: View)
    ensures SumCounts(v.chart.data) == |SelectFacts(facts, keywords, repos)|
    ensures |v.table| <= SumCounts(v.chart.data)
    ensures v.chart.kind == NoData <==> v.table == []
  {
    var selected := SelectFacts(facts, keywords, repos);
    var grouped := GroupCounts(selected);
    GroupTotal(selected);
    GroupEmpty(selected);
    View(ChooseChart(grouped, tipo), Table(selected))
  }

  /** Unticking every repository always shows the placeholder and an empty
      table: an empty repository selection, unlike an empty keyword
      selection, filters everything out. */
  lemma NoRepoView(facts: seq<Fact>, keywords: Option<seq<string>>, tipo: string)
    ensures Update(facts, keywords, [], tipo) == View(Chart(NoData, []), [])
  {
    NoRepoSelectsNothing(facts, keywords);
  }

  /** The page as first shown (no keyword, every repository ticked) groups
      every expanded row and tabulates every distinct record. */
  lemma InitialView(facts: seq<Fact>, tipo: string)
    ensures var v := Update(facts, None, RepoOptions(facts), tipo);
            SumCounts(v.chart.data) == |facts| && v.table == Table(facts)
  {
    DefaultSelectsAll(facts);
  }

  /** The index the layout is built from. */
  datatype Index = Index(
    facts: seq<Fact>,
    freq: map<string, nat>,
    keywordOptions: seq<string>,
    repoOptions: seq<string>)

  /** Lines 10-23 and 37-52: load the rows, expand the keywords, count them
      and list the dropdown and checklist options. Every option of the
      keyword dropdown has a count of at least one. */
  function BuildIndex<Y(!new)>(rows: seq<Row<Y>>, parse: Y -> Option<int>): (ix: Index)
    ensures IsFreqOf(ix.freq, ix.facts)
    ensures StrictlySorted(ix.keywordOptions) && StrictlySorted(ix.repoOptions)
    ensures forall k :: k in ix.keywordOptions ==> k in ix.freq && ix.freq[k] >= 1
  {
    var facts := Expand(Load(rows, parse));
    var freq := KeywordFreq(facts);
    var opts := KeywordOptions(facts);
    forall k | k in opts ensures freq[k] >= 1 {
      OptionCounted(facts, k);
    }
    Index(facts, freq, opts, RepoOptions(facts))
  }

  /** A keyword that occurs in the frame is counted at least once. */
  lemma OptionCounted(facts: seq<Fact>, k: string)
    requires k in KeywordFreq(facts)
    ensures KeywordFreq(facts)[k] >= 1
  {
    MapSource(KeywordOf, facts, k);
    CountWhereZero(facts, HasKeyword(k));
  }

  /** No row whose year does not parse reaches the index: every expanded row
      carries a record of a source row whose year parses to the record's
      year, with every other field of that row unchanged. */
  lemma IndexProvenance<Y(!new)>(rows: seq<Row<Y>>, parse: Y -> Option<int>, f: Fact)
    requires f in BuildIndex(rows, parse).facts
    ensures exists i :: 0 <= i < |rows| && parse(rows[i].year) == Some(f.rec.year) && f.rec == WithYear(rows[i], f.rec.year)
  {
    ExpandMembership(Load(rows, parse), f);
    LoadProvenance(rows, parse, f.rec);
  }
}
