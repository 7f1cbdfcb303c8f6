/** The keyword expansion and the facet index computed once at start-up
    (dashboard.py lines 18-23, 37-38 and 50-52). */
module Keywords {
  import opened Wrappers
  import opened Seqs
  import opened Text
  import opened Ordering
  import opened Records

  /** One row of `df_exploded`: a record, all six original columns intact,
      together with one keyword of its `Palavras-chave` column. */
  datatype Fact = Fact(rec: Record, keyword: string)

  function KeywordOf(f: Fact): string { f.keyword }

  function RepoOf(f: Fact): string { f.rec.repo }

  /** Line 18, `fillna("")`: a missing keyword cell reads as the empty string. */
  function KeywordText(r: Record): string {
    r.keywordsRaw.GetOr("")
  }

  /** Lines 18 and 20 on one cell: `str.split(r",\s*")`, then `str.strip()`
      of every piece. */
  function Tokens(text: string): (ts: seq<string>)
    ensures |ts| == 1 + CountChar(text, ',')
  {
    Map(Strip, SplitCommaSpace(text))
  }

  /** No token starts or ends with whitespace. */
  lemma TokensTrimmed(text: string, i: nat)
    requires i < |Tokens(text)|
    ensures IsTrimmed(Tokens(text)[i])
  {
  }

  /** Each token is the stripped piece of the plain comma split at the same
      position: the whitespace that `,\s*` swallows is whitespace `strip()`
      would remove anyway. */
  lemma TokensBySplitComma(text: string, i: nat)
    requires i < |Tokens(text)|
    ensures Tokens(text)[i] == Strip(SplitComma(text)[i])
  {
    StripSplitEquivalence(text);
    var b := SplitComma(text);
    var m := Map(Strip, b);
    assert Tokens(text) == m;
    assert m[i] == Strip(b[i]);
  }

  /** Lines 18-20 on one record: `explode` turns the token list into one
      row per token, in token order, each carrying the whole record. */
  function ExpandRecord(r: Record): (fs: seq<Fact>)
    ensures |fs| == |Tokens(KeywordText(r))|
    ensures forall i :: 0 <= i < |fs| ==> fs[i].rec == r && fs[i].keyword == Tokens(KeywordText(r))[i]
  {
    Map((k: string) => Fact(r, k), Tokens(KeywordText(r)))
  }

  /** Every keyword of the expanded frame is stripped. */
  lemma ExpandRecordTrimmed(r: Record, f: Fact)
    requires f in ExpandRecord(r)
    ensures f.rec == r && IsTrimmed(f.keyword)
  {
    var fs := ExpandRecord(r);
    var i :| 0 <= i < |fs| && fs[i] == f;
    TokensTrimmed(KeywordText(r), i);
  }

  /** A record yields one row more than its keyword cell has commas. */
  lemma ExpandRecordSize(r: Record)
    ensures |ExpandRecord(r)| == 1 + CountChar(KeywordText(r), ',')
  {
  }

  /** A NaN or empty keyword cell still yields exactly one row, with keyword "". */
  lemma MissingKeywordsYieldOneRow(r: Record)
    requires r.keywordsRaw == None || r.keywordsRaw == Some("")
    ensures ExpandRecord(r) == [Fact(r, "")]
  {
    assert KeywordText(r) == "";
    var fs := ExpandRecord(r);
    assert |fs| == 1;
    TokensBySplitComma("", 0);
    assert fs[0].keyword == Strip(SplitComma("")[0]) == Strip("");
  }

  /** A cell holding two keywords separated by a comma and any whitespace
      yields exactly those two keywords, in order. */
  lemma TwoTokens(w1: string, sp: string, w2: string)
    requires IsTrimmed(w1) && IsTrimmed(w2) && ',' !in w1 && ',' !in w2
    requires AllSpace(sp)
    ensures Tokens(w1 + [','] + sp + w2) == [w1, w2]
  {
    SplitTwo(w1, sp, w2);
    TokensOfPair(w1 + [','] + sp + w2, w1, sp + w2);
    StripTrimmed(w1);
    StripAfterSpaces(sp, w2);
  }

  lemma TokensOfPair(text: string, a: string, b: string)
    requires SplitComma(text) == [a, b]
    ensures Tokens(text) == [Strip(a), Strip(b)]
  {
    StripSplitEquivalence(text);
    var m := Map(Strip, [a, b]);
    assert Tokens(text) == m;
    assert |m| == 2 && m[0] == Strip(a) && m[1] == Strip(b);
    PairOf(m, Strip(a), Strip(b));
  }

  lemma SplitTwo(w1: string, sp: string, w2: string)
    requires ',' !in w1 && ',' !in w2 && AllSpace(sp)
    ensures SplitComma(w1 + [','] + sp + w2) == [w1, sp + w2]
  {
    var u := sp + w2;
    var t := [','] + u;
    assert w1 + [','] + sp + w2 == w1 + t;
    SpacesHaveNoComma(sp);
    assert ',' !in u;
    SplitCommaPrefix(u, "");
    assert u + "" == u;
    assert SplitComma(u) == [u];
    assert t[0] == ',' && t[1..] == u;
    assert SplitComma(t) == [""] + [u];
    SplitCommaPrefix(w1, t);
    assert w1 + "" == w1;
  }

  /** A keyword repeated inside one cell is kept twice, not merged. */
  lemma DuplicateKeywordsKept(r: Record, w: string, sp: string)
    requires IsTrimmed(w) && ',' !in w && AllSpace(sp)
    requires r.keywordsRaw == Some(w + [','] + sp + w)
    ensures ExpandRecord(r) == [Fact(r, w), Fact(r, w)]
  {
    TwoTokens(w, sp, w);
    ExpandTwo(r, w, w);
  }

  lemma ExpandTwo(r: Record, w1: string, w2: string)
    requires Tokens(KeywordText(r)) == [w1, w2]
    ensures ExpandRecord(r) == [Fact(r, w1), Fact(r, w2)]
  {
    PairOf(ExpandRecord(r), Fact(r, w1), Fact(r, w2));
  }

  /** A cell with a single keyword and no comma yields that keyword alone. */
  lemma OneToken(r: Record, w: string)
    requires IsTrimmed(w) && ',' !in w && r.keywordsRaw == Some(w)
    ensures ExpandRecord(r) == [Fact(r, w)]
  {
    SplitCommaPrefix(w, "");
    assert w + "" == w;
    assert SplitComma(w) == [w];
    TokensBySplitComma(w, 0);
    StripTrimmed(w);
    var fs := ExpandRecord(r);
    assert |fs| == 1 && fs[0] == Fact(r, w);
  }

  /** Line 19 on the whole frame: every record's rows, records in order
      (`Seqs.FlatMapConcat` states that the frame order is kept). */
  function Expand(recs: seq<Record>): seq<Fact> {
    FlatMap(ExpandRecord, recs)
  }

  /** A row of the expanded frame is one of the rows its own record expands
      to, and every record contributes all of its rows. */
  lemma {:induction false} ExpandMembership(recs: seq<Record>, f: Fact)
    ensures f in Expand(recs) <==> f.rec in recs && f in ExpandRecord(f.rec)
    decreases |recs|
  {
    if recs != [] {
      ExpandMembership(recs[1..], f);
      var head := ExpandRecord(recs[0]);
      assert Expand(recs) == head + Expand(recs[1..]);
      assert f in head ==> f.rec == recs[0];
      assert f.rec in recs <==> f.rec == recs[0] || f.rec in recs[1..];
    }
  }

  /** The frame has exactly one row per keyword token of every record, so
      at least one row per record. */
  lemma {:induction false} ExpandSize(recs: seq<Record>)
    ensures |Expand(recs)| == |recs| + TotalCommas(recs)
    decreases |recs|
  {
    if recs != [] {
      ExpandSize(recs[1..]);
      ExpandRecordSize(recs[0]);
      assert Expand(recs) == ExpandRecord(recs[0]) + Expand(recs[1..]);
    }
  }

  /** The number of commas over all keyword cells. */
  function TotalCommas(recs: seq<Record>): nat
    decreases |recs|
  {
    if recs == [] then 0 else CountChar(KeywordText(recs[0]), ',') + TotalCommas(recs[1..])
  }

  function HasKeyword(k: string): Fact -> bool {
    (f: Fact) => f.keyword == k
  }

  function KeywordIn(ks: seq<string>): Fact -> bool {
    (f: Fact) => f.keyword in ks
  }

  /** `freq` counts the keywords of `facts`: its keys are exactly the
      keywords that occur, each mapped to the number of rows carrying it. */
  ghost predicate IsFreqOf(freq: map<string, nat>, facts: seq<Fact>) {
    && (forall k :: k in freq <==> k in Map(KeywordOf, facts))
    && (forall k :: k in freq ==> freq[k] == CountWhere(facts, HasKeyword(k)))
  }

  /** Line 23, `value_counts().to_dict()`: each keyword of the expanded
      frame, "" included, mapped to the number of rows that carry it. */
  function KeywordFreq(facts: seq<Fact>): (freq: map<string, nat>)
    ensures IsFreqOf(freq, facts)
    decreases |facts|
  {
    if facts == [] then map[]
    else
      var m := KeywordFreq(facts[1..]);
      FreqStep(facts, m, Bump(m, facts[0].keyword));
      Bump(m, facts[0].keyword)
  }

  /** `freq` after counting one more row with keyword `k`. */
  function Bump(freq: map<string, nat>, k: string): map<string, nat> {
    freq[k := if k in freq then freq[k] + 1 else 1]
  }

  /** Counting one more row bumps the count of its keyword only. */
  lemma FreqStep(facts: seq<Fact>, m: map<string, nat>, m': map<string, nat>)
    requires facts != [] && IsFreqOf(m, facts[1..])
    requires m' == Bump(m, facts[0].keyword)
    ensures IsFreqOf(m', facts)
  {
    forall j ensures j in m' <==> j in Map(KeywordOf, facts) {
      FreqStepKey(facts, m, m', j);
    }
    forall j | j in m' ensures m'[j] == CountWhere(facts, HasKeyword(j)) {
      FreqStepCount(facts, m, m', j);
    }
  }

  lemma FreqStepKey(facts: seq<Fact>, m: map<string, nat>, m': map<string, nat>, j: string)
    requires facts != [] && IsFreqOf(m, facts[1..])
    requires m' == Bump(m, facts[0].keyword)
    ensures j in m' <==> j in Map(KeywordOf, facts)
  {
    assert Map(KeywordOf, facts) == [facts[0].keyword] + Map(KeywordOf, facts[1..]);
  }

  lemma FreqStepCount(facts: seq<Fact>, m: map<string, nat>, m': map<string, nat>, j: string)
    requires facts != [] && IsFreqOf(m, facts[1..])
    requires m' == Bump(m, facts[0].keyword)
    ensures j in m' ==> m'[j] == CountWhere(facts, HasKeyword(j))
  {
    var rest, k := facts[1..], facts[0].keyword;
    if j == k && k !in m {
      AbsentKeywordCount(rest, m, k);
    }
  }

  lemma AbsentKeywordCount(facts: seq<Fact>, m: map<string, nat>, j: string)
    requires IsFreqOf(m, facts) && j !in m
    ensures CountWhere(facts, HasKeyword(j)) == 0
  {
    forall f | f in facts ensures f.keyword != j {
      MapMember(KeywordOf, facts, f);
    }
    CountWhereZero(facts, HasKeyword(j));
  }

  /** Lines 37-38 iterate over `sorted(palavra_freq.keys())`. */
  function KeywordOptions(facts: seq<Fact>): (opts: seq<string>)
    ensures StrictlySorted(opts)
    ensures forall k :: k in opts <==> k in KeywordFreq(facts)
  {
    SortedDistinct(Map(KeywordOf, facts))
  }

  /** Lines 50-52: `sorted(df_exploded["Repositório"].unique())`, both the
      checklist options and its default selection. */
  function RepoOptions(facts: seq<Fact>): (opts: seq<string>)
    ensures StrictlySorted(opts)
    ensures forall r :: r in opts <==> exists f :: f in facts && f.rec.repo == r
  {
    var repos := Map(RepoOf, facts);
    assert forall r :: r in repos ==> exists f :: f in facts && f.rec.repo == r by {
      forall r | r in repos ensures exists f :: f in facts && f.rec.repo == r {
        MapSource(RepoOf, facts, r);
      }
    }
    assert forall f :: f in facts ==> f.rec.repo in repos by {
      forall f | f in facts ensures f.rec.repo in repos {
        MapMember(RepoOf, facts, f);
      }
    }
    SortedDistinct(repos)
  }

  /** The counts of a list of keywords. */
  function SumFreq(freq: map<string, nat>, keys: seq<string>): nat
    requires forall k :: k in keys ==> k in freq
    decreases |keys|
  {
    if keys == [] then 0 else freq[keys[0]] + SumFreq(freq, keys[1..])
  }

  /** The counts of the dropdown's keywords add up to the number of rows of
      the expanded frame: every row is counted once, under its own keyword. */
  lemma FreqTotal(facts: seq<Fact>)
    ensures SumFreq(KeywordFreq(facts), KeywordOptions(facts)) == |facts|
  {
    var freq, opts := KeywordFreq(facts), KeywordOptions(facts);
    SumFreqCounts(facts, freq, opts);
    forall f | f in facts ensures KeywordIn(opts)(f) {
      MapMember(KeywordOf, facts, f);
    }
    FilterAll(facts, KeywordIn(opts));
    CountWhereFilter(facts, KeywordIn(opts));
  }

  lemma {:induction false} SumFreqCounts(facts: seq<Fact>, freq: map<string, nat>, keys: seq<string>)
    requires StrictlySorted(keys)
    requires forall k :: k in keys ==> k in freq && freq[k] == CountWhere(facts, HasKeyword(k))
    ensures SumFreq(freq, keys) == CountWhere(facts, KeywordIn(keys))
    decreases |keys|
  {
    if keys == [] {
      CountWhereZero(facts, KeywordIn(keys));
    } else {
      var k, rest := keys[0], keys[1..];
      assert keys == [k] + rest;
      assert StrictlySorted(rest);
      SumFreqCounts(facts, freq, rest);
      assert k !in rest by {
        if k in rest {
          var j :| 0 <= j < |rest| && rest[j] == k;
          assert StrLess(keys[0], keys[j + 1]);
          StrLessIrreflexive(k);
        }
      }
      CountSplit(facts, k, rest);
    }
  }

  /** Counting rows whose keyword is `k` or in `ks` adds up, for `k` not in `ks`. */
  lemma {:induction false} CountSplit(facts: seq<Fact>, k: string, ks: seq<string>)
    requires k !in ks
    ensures CountWhere(facts, KeywordIn([k] + ks))
         == CountWhere(facts, HasKeyword(k)) + CountWhere(facts, KeywordIn(ks))
    decreases |facts|
  {
    if facts != [] {
      CountSplit(facts[1..], k, ks);
    }
  }
}
