/** A worked page session over three publications: two of repository A
    from 2020, one tagged with keywords ML and AI, the other with AI
    alone, and one of repository B from 2021 without keywords. */
module Scenario {
  import opened Wrappers
  import opened Seqs
  import opened Text
  import opened Records
  import opened Keywords
  import opened Aggregate
  import opened Dashboard

  /** The three publications up to the actual strings: `ml` and `ai` are
      two different non-empty keywords, `repoA` and `repoB` two different
      repositories; the first keyword cell reads "ML, AI". */
  ghost predicate Publications(a: Record, b: Record, c: Record, ml: string, ai: string, repoA: string, repoB: string) {
    && IsTrimmed(ml) && IsTrimmed(ai) && ',' !in ml && ',' !in ai
    && ml != ai && ml != "" && ai != "" && repoA != repoB
    && a.repo == repoA && a.year == 2020 && a.keywordsRaw == Some(ml + [','] + [' '] + ai)
    && b.repo == repoA && b.year == 2020 && b.keywordsRaw == Some(ai)
    && c.repo == repoB && c.year == 2021 && c.keywordsRaw == None
  }

  /** The expanded frame: ML and AI rows for the first publication, one AI
      row for the second, one "" row for the third. */
  lemma Frame(a: Record, b: Record, c: Record, ml: string, ai: string, repoA: string, repoB: string)
    requires Publications(a, b, c, ml, ai, repoA, repoB)
    ensures Expand([a, b, c]) == [Fact(a, ml), Fact(a, ai), Fact(b, ai), Fact(c, "")]
  {
    FirstPublication(a, ml, ai);
    OneToken(b, ai);
    MissingKeywordsYieldOneRow(c);
    FlatMapThree(ExpandRecord, a, b, c);
    FourInBlocks(Fact(a, ml), Fact(a, ai), Fact(b, ai), Fact(c, ""));
  }

  lemma FourInBlocks<T>(w: T, x: T, y: T, z: T)
    ensures [w, x] + [y] + [z] == [w, x, y, z]
  {
  }

  lemma FirstPublication(a: Record, ml: string, ai: string)
    requires IsTrimmed(ml) && IsTrimmed(ai) && ',' !in ml && ',' !in ai
    requires a.keywordsRaw == Some(ml + [','] + [' '] + ai)
    ensures ExpandRecord(a) == [Fact(a, ml), Fact(a, ai)]
  {
    assert AllSpace([' ']);
    TwoTokens(ml, [' '], ai);
    ExpandTwo(a, ml, ai);
  }

  /** The first publication differs from the second: its keyword cell is longer. */
  lemma Different(a: Record, b: Record, c: Record, ml: string, ai: string, repoA: string, repoB: string)
    requires Publications(a, b, c, ml, ai, repoA, repoB)
    ensures a != b && a != c && b != c
  {
    assert |ml + [','] + [' '] + ai| > |ai|;
  }

  /** Picking AI with both repositories ticked: two hits in repository A in
      2020 and two table rows. */
  lemma PickAI(a: Record, b: Record, c: Record, ml: string, ai: string, repoA: string, repoB: string, tipo: string)
    requires Publications(a, b, c, ml, ai, repoA, repoB)
    ensures var v := Update(Expand([a, b, c]), Some([ai]), [repoA, repoB], tipo);
            v.chart.data == [Group(2020, repoA, 2)] && v.table == [a, b]
  {
    Frame(a, b, c, ml, ai, repoA, repoB);
    Different(a, b, c, ml, ai, repoA, repoB);
    SelectAI(a, b, c, ml, ai, repoA, repoB);
    ViewOfTwo(Fact(a, ai), Fact(b, ai), 2020, repoA);
  }

  lemma SelectAI(a: Record, b: Record, c: Record, ml: string, ai: string, repoA: string, repoB: string)
    requires ml != ai && ai != "" && a.repo == repoA && b.repo == repoA && c.repo == repoB
    ensures SelectFacts([Fact(a, ml), Fact(a, ai), Fact(b, ai), Fact(c, "")], Some([ai]), [repoA, repoB])
         == [Fact(a, ai), Fact(b, ai)]
  {
    var f1, f2, f3, f4 := Fact(a, ml), Fact(a, ai), Fact(b, ai), Fact(c, "");
    var p := IsSelected(Some([ai]), [repoA, repoB]);
    SelectOnePass([f1, f2, f3, f4], Some([ai]), [repoA, repoB]);
    assert !p(f1) && p(f2) && p(f3) && !p(f4);
    MiddleTwo(f1, f2, f3, f4, p);
  }

  lemma MiddleTwo<T(!new)>(w: T, x: T, y: T, z: T, p: T -> bool)
    requires !p(w) && p(x) && p(y) && !p(z)
    ensures Filter([w, x, y, z], p) == [x, y]
  {
    calc {
      Filter([w, x, y, z], p);
    ==  { FilterCons(w, [x, y, z], p); assert [w, x, y, z] == [w] + [x, y, z]; }
      Filter([x, y, z], p);
    ==  { FilterCons(x, [y, z], p); assert [x, y, z] == [x] + [y, z]; }
      [x] + Filter([y, z], p);
    ==  { FilterCons(y, [z], p); assert [y, z] == [y] + [z]; }
      [x, y] + Filter([z], p);
    ==  { FilterCons(z, [], p); assert [z] == [z] + []; }
      [x, y] + Filter([], p);
    ==
      [x, y];
    }
  }

  /** Two selected rows of one key and of two different records. */
  lemma ViewOfTwo(f: Fact, g: Fact, y: int, r: string)
    requires f.rec != g.rec
    requires f.rec.year == y && g.rec.year == y && f.rec.repo == r && g.rec.repo == r
    ensures GroupCounts([f, g]) == [Group(y, r, 2)]
    ensures Table([f, g]) == [f.rec, g.rec]
  {
    SingleKeyGroups([f, g], y, r);
    assert Map(RecordOf, [f, g]) == [f.rec, g.rec];
    TwoRecords(f.rec, g.rec);
  }

  /** Picking ML and AI with only repository A ticked: three hits, because
      the first publication is counted once per keyword, but still only two
      table rows. */
  lemma PickMLAndAI(a: Record, b: Record, c: Record, ml: string, ai: string, repoA: string, repoB: string, tipo: string)
    requires Publications(a, b, c, ml, ai, repoA, repoB)
    ensures var v := Update(Expand([a, b, c]), Some([ml, ai]), [repoA], tipo);
            v.chart.data == [Group(2020, repoA, 3)] && v.table == [a, b]
  {
    Frame(a, b, c, ml, ai, repoA, repoB);
    Different(a, b, c, ml, ai, repoA, repoB);
    SelectMLAndAI(a, b, c, ml, ai, repoA, repoB);
    ViewOfThree(Fact(a, ml), Fact(a, ai), Fact(b, ai), 2020, repoA);
  }

  lemma SelectMLAndAI(a: Record, b: Record, c: Record, ml: string, ai: string, repoA: string, repoB: string)
    requires a.repo == repoA && b.repo == repoA && c.repo == repoB && repoA != repoB
    ensures SelectFacts([Fact(a, ml), Fact(a, ai), Fact(b, ai), Fact(c, "")], Some([ml, ai]), [repoA])
         == [Fact(a, ml), Fact(a, ai), Fact(b, ai)]
  {
    var f1, f2, f3, f4 := Fact(a, ml), Fact(a, ai), Fact(b, ai), Fact(c, "");
    var p := IsSelected(Some([ml, ai]), [repoA]);
    SelectOnePass([f1, f2, f3, f4], Some([ml, ai]), [repoA]);
    assert p(f1) && p(f2) && p(f3) && !p(f4);
    FirstThree(f1, f2, f3, f4, p);
  }

  lemma FirstThree<T(!new)>(w: T, x: T, y: T, z: T, p: T -> bool)
    requires p(w) && p(x) && p(y) && !p(z)
    ensures Filter([w, x, y, z], p) == [w, x, y]
  {
    calc {
      Filter([w, x, y, z], p);
    ==  { FilterCons(w, [x, y, z], p); assert [w, x, y, z] == [w] + [x, y, z]; }
      [w] + Filter([x, y, z], p);
    ==  { FilterCons(x, [y, z], p); assert [x, y, z] == [x] + [y, z]; }
      [w, x] + Filter([y, z], p);
    ==  { FilterCons(y, [z], p); assert [y, z] == [y] + [z]; }
      [w, x, y] + Filter([z], p);
    ==  { FilterCons(z, [], p); assert [z] == [z] + []; }
      [w, x, y] + Filter([], p);
    ==
      [w, x, y];
    }
  }

  /** Three selected rows of one key, the first two of the same record. */
  lemma ViewOfThree(f: Fact, g: Fact, h: Fact, y: int, r: string)
    requires f.rec == g.rec && f.rec != h.rec
    requires f.rec.year == y && h.rec.year == y && f.rec.repo == r && h.rec.repo == r
    ensures GroupCounts([f, g, h]) == [Group(y, r, 3)]
    ensures Table([f, g, h]) == [f.rec, h.rec]
  {
    SingleKeyGroups([f, g, h], y, r);
    assert Map(RecordOf, [f, g, h]) == [f.rec, f.rec, h.rec];
    TwoRecordsRepeated(f.rec, h.rec);
  }

  /** No keyword and only repository B: its one publication, counted once. */
  lemma OnlyRepoB(a: Record, b: Record, c: Record, ml: string, ai: string, repoA: string, repoB: string, tipo: string)
    requires Publications(a, b, c, ml, ai, repoA, repoB)
    ensures var v := Update(Expand([a, b, c]), None, [repoB], tipo);
            v.chart.data == [Group(2021, repoB, 1)] && v.table == [c]
  {
    Frame(a, b, c, ml, ai, repoA, repoB);
    SelectRepoB(a, b, c, ml, ai, repoA, repoB);
    var f := Fact(c, "");
    SingleKeyGroups([f], 2021, repoB);
    assert Map(RecordOf, [f]) == [c];
    assert Dedup([c]) == [c] by {
      assert [c][..0] == [];
    }
  }

  lemma SelectRepoB(a: Record, b: Record, c: Record, ml: string, ai: string, repoA: string, repoB: string)
    requires a.repo == repoA && b.repo == repoA && c.repo == repoB && repoA != repoB
    ensures SelectFacts([Fact(a, ml), Fact(a, ai), Fact(b, ai), Fact(c, "")], None, [repoB]) == [Fact(c, "")]
  {
    var f1, f2, f3, f4 := Fact(a, ml), Fact(a, ai), Fact(b, ai), Fact(c, "");
    var p := InRepos([repoB]);
    assert !p(f1) && !p(f2) && !p(f3) && p(f4);
    LastOnly(f1, f2, f3, f4, p);
  }

  lemma LastOnly<T(!new)>(w: T, x: T, y: T, z: T, p: T -> bool)
    requires !p(w) && !p(x) && !p(y) && p(z)
    ensures Filter([w, x, y, z], p) == [z]
  {
    calc {
      Filter([w, x, y, z], p);
    ==  { FilterCons(w, [x, y, z], p); assert [w, x, y, z] == [w] + [x, y, z]; }
      Filter([x, y, z], p);
    ==  { FilterCons(x, [y, z], p); assert [x, y, z] == [x] + [y, z]; }
      Filter([y, z], p);
    ==  { FilterCons(y, [z], p); assert [y, z] == [y] + [z]; }
      Filter([z], p);
    ==  { FilterCons(z, [], p); assert [z] == [z] + []; }
      [z] + Filter([], p);
    ==
      [z];
    }
  }

  lemma TwoRecords(a: Record, b: Record)
    requires a != b
    ensures Dedup([a, b]) == [a, b]
  {
    assert [a, b][..1] == [a] && [a][..0] == [];
  }

  lemma TwoRecordsRepeated(a: Record, b: Record)
    requires a != b
    ensures Dedup([a, a, b]) == [a, b]
  {
    assert [a, a, b][..2] == [a, a] && [a, a][..1] == [a] && [a][..0] == [];
  }
}
