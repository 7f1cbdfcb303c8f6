/** The callback's row selection and its group-by count
    (dashboard.py lines 113-119). */
module Aggregate {
  import opened Wrappers
  import opened Seqs
  import opened Ordering
  import opened Keywords

  /** Python's truth value of the keyword dropdown: both `None` (nothing
      picked yet) and `[]` (selection cleared) are false. */
  predicate KeywordsChosen(keywords: Option<seq<string>>) {
    keywords.Some? && keywords.value != []
  }

  function InRepos(repos: seq<string>): Fact -> bool {
    (f: Fact) => f.rec.repo in repos
  }

  /** Whether one expanded row passes both filters of the callback. */
  predicate Selected(keywords: Option<seq<string>>, repos: seq<string>, f: Fact) {
    f.rec.repo in repos && (KeywordsChosen(keywords) ==> f.keyword in keywords.value)
  }

  function IsSelected(keywords: Option<seq<string>>, repos: seq<string>): Fact -> bool {
    (f: Fact) => Selected(keywords, repos, f)
  }

  /** Lines 113-116: keep the rows of the ticked repositories, then, only
      when some keyword is picked, the rows carrying a picked keyword. */
  function SelectFacts(facts: seq<Fact>, keywords: Option<seq<string>>, repos: seq<string>): (sel: seq<Fact>)
    ensures forall f :: f in sel <==> f in facts && Selected(keywords, repos, f)
  {
    var byRepo := Filter(facts, InRepos(repos));
    if KeywordsChosen(keywords) then Filter(byRepo, KeywordIn(keywords.value)) else byRepo
  }

  /** The two filters in a row are one pass over the rows with the combined
      test, so the selected rows keep the frame order. */
  lemma SelectOnePass(facts: seq<Fact>, keywords: Option<seq<string>>, repos: seq<string>)
    ensures SelectFacts(facts, keywords, repos) == Filter(facts, IsSelected(keywords, repos))
  {
    if KeywordsChosen(keywords) {
      FilterFilter(facts, InRepos(repos), KeywordIn(keywords.value), IsSelected(keywords, repos));
    } else {
      FilterSame(facts, InRepos(repos), IsSelected(keywords, repos));
    }
  }

  /** The selected rows are a subsequence of the expanded frame. */
  lemma SelectIsSubsequence(facts: seq<Fact>, keywords: Option<seq<string>>, repos: seq<string>)
    ensures IsSubsequence(SelectFacts(facts, keywords, repos), facts)
  {
    SelectOnePass(facts, keywords, repos);
    FilterIsSubsequence(facts, IsSelected(keywords, repos));
  }

  /** With no repository ticked nothing is selected, whatever the keywords. */
  lemma NoRepoSelectsNothing(facts: seq<Fact>, keywords: Option<seq<string>>)
    ensures SelectFacts(facts, keywords, []) == []
  {
    FilterNone(facts, InRepos([]));
  }

  /** With no keyword picked, absent or cleared, only the repository filter
      applies: the opposite of an empty repository selection. */
  lemma NoKeywordIsRepoFilter(facts: seq<Fact>, keywords: Option<seq<string>>, repos: seq<string>)
    requires keywords == None || keywords == Some([])
    ensures SelectFacts(facts, keywords, repos) == Filter(facts, InRepos(repos))
    ensures forall f :: f in SelectFacts(facts, keywords, repos) <==> f in facts && f.rec.repo in repos
  {
  }

  /** The initial state of the page (no keyword, every repository ticked)
      selects the whole expanded frame. */
  lemma DefaultSelectsAll(facts: seq<Fact>)
    ensures SelectFacts(facts, None, RepoOptions(facts)) == facts
  {
    FilterAll(facts, InRepos(RepoOptions(facts)));
  }

  /** One row of `df_grouped`: a (year, repository) pair and its row count. */
  datatype Group = Group(year: int, repo: string, count: nat)

  /** The order `groupby` sorts its keys in: year, then repository. */
  predicate KeyLess(y1: int, r1: string, y2: int, r2: string) {
    y1 < y2 || (y1 == y2 && StrLess(r1, r2))
  }

  predicate GroupLess(g: Group, h: Group) {
    KeyLess(g.year, g.repo, h.year, h.repo)
  }

  lemma KeyLessIrreflexive(y: int, r: string)
    ensures !KeyLess(y, r, y, r)
  {
    StrLessIrreflexive(r);
  }

  lemma KeyLessTransitive(y1: int, r1: string, y2: int, r2: string, y3: int, r3: string)
    requires KeyLess(y1, r1, y2, r2) && KeyLess(y2, r2, y3, r3)
    ensures KeyLess(y1, r1, y3, r3)
  {
    if y1 == y2 && y2 == y3 {
      StrLessTransitive(r1, r2, r3);
    }
  }

  lemma KeyLessTotal(y1: int, r1: string, y2: int, r2: string)
    requires y1 != y2 || r1 != r2
    ensures KeyLess(y1, r1, y2, r2) || KeyLess(y2, r2, y1, r1)
  {
    if y1 == y2 {
      StrLessTotal(r1, r2);
    }
  }

  /** Strictly ascending by key, hence one entry per key. */
  ghost predicate GroupsSorted(gs: seq<Group>) {
    forall i, j :: 0 <= i < j < |gs| ==> GroupLess(gs[i], gs[j])
  }

  function AtKey(y: int, r: string): Fact -> bool {
    (f: Fact) => f.rec.year == y && f.rec.repo == r
  }

  /** The number of rows with year `y` and repository `r`. */
  function CountKey(facts: seq<Fact>, y: int, r: string): nat {
    CountWhere(facts, AtKey(y, r))
  }

  /** The count an entry list records for key (`y`, `r`); 0 without an entry. */
  function Lookup(gs: seq<Group>, y: int, r: string): nat
    decreases |gs|
  {
    if gs == [] then 0
    else if gs[0].year == y && gs[0].repo == r then gs[0].count
    else Lookup(gs[1..], y, r)
  }

  /** Counts one more row with key (`y`, `r`): bumps its entry, or inserts a
      new entry with count 1 where the key order puts it. */
  function AddHit(gs: seq<Group>, y: int, r: string): (res: seq<Group>)
    ensures res != []
    decreases |gs|
  {
    if gs == [] then [Group(y, r, 1)]
    else if gs[0].year == y && gs[0].repo == r then [gs[0].(count := gs[0].count + 1)] + gs[1..]
    else if KeyLess(y, r, gs[0].year, gs[0].repo) then [Group(y, r, 1)] + gs
    else [gs[0]] + AddHit(gs[1..], y, r)
  }

  /** `gs` is the group-by count of `facts`: sorted by key, no empty group,
      and every key mapped to its number of rows. */
  ghost predicate IsGroupingOf(gs: seq<Group>, facts: seq<Fact>) {
    && GroupsSorted(gs)
    && (forall i :: 0 <= i < |gs| ==> gs[i].count >= 1)
    && (forall y, r :: Lookup(gs, y, r) == CountKey(facts, y, r))
  }

  /** Line 119: `groupby(["Ano", "Repositório"]).size().reset_index()`. */
  function GroupCounts(facts: seq<Fact>): (gs: seq<Group>)
    ensures IsGroupingOf(gs, facts)
    decreases |facts|
  {
    if facts == [] then []
    else
      var gs := GroupCounts(facts[1..]);
      GroupStep(facts, gs);
      AddHit(gs, facts[0].rec.year, facts[0].rec.repo)
  }

  /** Counting one more row keeps the entry list a grouping. */
  lemma GroupStep(facts: seq<Fact>, gs: seq<Group>)
    requires facts != [] && IsGroupingOf(gs, facts[1..])
    ensures IsGroupingOf(AddHit(gs, facts[0].rec.year, facts[0].rec.repo), facts)
  {
    var y, r := facts[0].rec.year, facts[0].rec.repo;
    AddHitSorted(gs, y, r);
    AddHitPositive(gs, y, r);
    forall y2, r2 ensures Lookup(AddHit(gs, y, r), y2, r2) == CountKey(facts, y2, r2) {
      AddHitLookup(gs, y, r, y2, r2);
    }
  }

  /** A key below the first entry of a sorted list has no entry. */
  lemma {:induction false} LookupBelow(gs: seq<Group>, y: int, r: string)
    requires GroupsSorted(gs) && gs != [] && KeyLess(y, r, gs[0].year, gs[0].repo)
    ensures Lookup(gs, y, r) == 0
    decreases |gs|
  {
    KeyLessIrreflexive(y, r);
    if |gs| > 1 {
      KeyLessTransitive(y, r, gs[0].year, gs[0].repo, gs[1].year, gs[1].repo);
      LookupBelow(gs[1..], y, r);
    }
  }

  /** Counting a hit adds one to its own key and leaves every other key alone. */
  lemma {:induction false} AddHitLookup(gs: seq<Group>, y: int, r: string, y2: int, r2: string)
    requires GroupsSorted(gs)
    ensures Lookup(AddHit(gs, y, r), y2, r2) == Lookup(gs, y2, r2) + (if y2 == y && r2 == r then 1 else 0)
    decreases |gs|
  {
    if gs == [] {
    } else if gs[0].year == y && gs[0].repo == r {
      var g := gs[0].(count := gs[0].count + 1);
      assert ([g] + gs[1..])[1..] == gs[1..];
    } else if KeyLess(y, r, gs[0].year, gs[0].repo) {
      assert ([Group(y, r, 1)] + gs)[1..] == gs;
      if y2 == y && r2 == r {
        LookupBelow(gs, y, r);
      }
    } else {
      var rest := AddHit(gs[1..], y, r);
      assert ([gs[0]] + rest)[1..] == rest;
      AddHitLookup(gs[1..], y, r, y2, r2);
    }
  }

  /** The first entry after counting a hit carries the hit's key or the old first key. */
  lemma AddHitHead(gs: seq<Group>, y: int, r: string)
    ensures var h := AddHit(gs, y, r)[0];
            (h.year == y && h.repo == r) || (gs != [] && h.year == gs[0].year && h.repo == gs[0].repo)
  {
  }

  /** Counting a hit keeps the entries sorted. */
  lemma {:induction false} AddHitSorted(gs: seq<Group>, y: int, r: string)
    requires GroupsSorted(gs)
    ensures GroupsSorted(AddHit(gs, y, r))
    decreases |gs|
  {
    if gs == [] {
    } else if gs[0].year == y && gs[0].repo == r {
      var res := AddHit(gs, y, r);
      forall i, j | 0 <= i < j < |res| ensures GroupLess(res[i], res[j]) {
        assert GroupLess(gs[i], gs[j]);
      }
    } else if KeyLess(y, r, gs[0].year, gs[0].repo) {
      var res := AddHit(gs, y, r);
      forall i, j | 0 <= i < j < |res| ensures GroupLess(res[i], res[j]) {
        if i == 0 {
          if j > 1 {
            KeyLessTransitive(y, r, gs[0].year, gs[0].repo, gs[j - 1].year, gs[j - 1].repo);
          }
        } else {
          assert res[i] == gs[i - 1] && res[j] == gs[j - 1];
        }
      }
    } else {
      KeyLessTotal(y, r, gs[0].year, gs[0].repo);
      var rest := AddHit(gs[1..], y, r);
      AddHitSorted(gs[1..], y, r);
      AddHitHead(gs[1..], y, r);
      ConsSorted(gs[0], rest);
    }
  }

  /** An entry below the head of a sorted list can go in front of it. */
  lemma ConsSorted(g: Group, rest: seq<Group>)
    requires GroupsSorted(rest) && rest != [] && GroupLess(g, rest[0])
    ensures GroupsSorted([g] + rest)
  {
    var res := [g] + rest;
    forall i, j | 0 <= i < j < |res| ensures GroupLess(res[i], res[j]) {
      if i == 0 {
        if j > 1 {
          KeyLessTransitive(g.year, g.repo, rest[0].year, rest[0].repo, rest[j - 1].year, rest[j - 1].repo);
        }
      } else {
        assert res[i] == rest[i - 1] && res[j] == rest[j - 1];
      }
    }
  }

  /** Counting a hit never leaves an empty group. */
  lemma {:induction false} AddHitPositive(gs: seq<Group>, y: int, r: string)
    requires forall i :: 0 <= i < |gs| ==> gs[i].count >= 1
    ensures forall i :: 0 <= i < |AddHit(gs, y, r)| ==> AddHit(gs, y, r)[i].count >= 1
    decreases |gs|
  {
    if gs != [] && !(gs[0].year == y && gs[0].repo == r) && !KeyLess(y, r, gs[0].year, gs[0].repo) {
      AddHitPositive(gs[1..], y, r);
      var rest := AddHit(gs[1..], y, r);
      forall i | 0 <= i < |[gs[0]] + rest| ensures ([gs[0]] + rest)[i].count >= 1 {
        if i > 0 {
          assert ([gs[0]] + rest)[i] == rest[i - 1];
        }
      }
    }
  }
  /** In a sorted list the lookup of an entry's own key finds that entry. */
  lemma {:induction false} LookupAt(gs: seq<Group>, i: nat)
    requires GroupsSorted(gs) && i < |gs|
    ensures Lookup(gs, gs[i].year, gs[i].repo) == gs[i].count
    decreases |gs|
  {
    if i > 0 {
      assert GroupLess(gs[0], gs[i]);
      KeyLessIrreflexive(gs[i].year, gs[i].repo);
      assert gs[1..][i - 1] == gs[i];
      LookupAt(gs[1..], i - 1);
    }
  }

  /** A key with a positive lookup has an entry. */
  lemma {:induction false} LookupFound(gs: seq<Group>, y: int, r: string)
    requires Lookup(gs, y, r) > 0
    ensures exists i :: 0 <= i < |gs| && gs[i].year == y && gs[i].repo == r
    decreases |gs|
  {
    if !(gs[0].year == y && gs[0].repo == r) {
      LookupFound(gs[1..], y, r);
      var i :| 0 <= i < |gs[1..]| && gs[1..][i].year == y && gs[1..][i].repo == r;
      assert gs[i + 1] == gs[1..][i];
    }
  }

  /** Sorted entries never share a key. */
  lemma SortedKeysDistinct(gs: seq<Group>, i: nat, j: nat)
    requires GroupsSorted(gs) && i < |gs| && j < |gs| && i != j
    ensures gs[i].year != gs[j].year || gs[i].repo != gs[j].repo
  {
    KeyLessIrreflexive(gs[i].year, gs[i].repo);
    if i < j {
      assert GroupLess(gs[i], gs[j]);
    } else {
      assert GroupLess(gs[j], gs[i]);
    }
  }

  /** Every entry of the group-by counts the rows with its key, at least one. */
  lemma GroupEntryCount(facts: seq<Fact>, i: nat)
    requires i < |GroupCounts(facts)|
    ensures var g := GroupCounts(facts)[i];
            g.count == CountKey(facts, g.year, g.repo) && g.count >= 1
  {
    LookupAt(GroupCounts(facts), i);
  }

  /** There is an entry for a (year, repository) pair exactly when some row
      has that pair, and never two (`SortedKeysDistinct`). */
  lemma GroupKeyPresent(facts: seq<Fact>, y: int, r: string)
    ensures (exists i :: 0 <= i < |GroupCounts(facts)| && GroupCounts(facts)[i].year == y && GroupCounts(facts)[i].repo == r)
        <==> CountKey(facts, y, r) > 0
  {
    var gs := GroupCounts(facts);
    if CountKey(facts, y, r) > 0 {
      LookupFound(gs, y, r);
    }
    if exists i :: 0 <= i < |gs| && gs[i].year == y && gs[i].repo == r {
      var i :| 0 <= i < |gs| && gs[i].year == y && gs[i].repo == r;
      GroupEntryCount(facts, i);
    }
  }

  /** Every selected row is counted under its own (year, repository) entry. */
  lemma GroupCovers(facts: seq<Fact>, f: Fact)
    requires f in facts
    ensures exists i :: 0 <= i < |GroupCounts(facts)| && GroupCounts(facts)[i].year == f.rec.year && GroupCounts(facts)[i].repo == f.rec.repo
  {
    CountWhereZero(facts, AtKey(f.rec.year, f.rec.repo));
    GroupKeyPresent(facts, f.rec.year, f.rec.repo);
  }

  /** The grouping of a list of rows is unique: any sorted entry list with
      positive counts that counts every key as `facts` does is the one
      `GroupCounts` builds. */
  lemma GroupingUnique(gs: seq<Group>, facts: seq<Fact>)
    requires IsGroupingOf(gs, facts)
    ensures gs == GroupCounts(facts)
  {
    SortedGroupsUnique(gs, GroupCounts(facts));
  }

  /** Two sorted entry lists with positive counts and the same lookups are equal. */
  lemma {:induction false} SortedGroupsUnique(a: seq<Group>, b: seq<Group>)
    requires GroupsSorted(a) && GroupsSorted(b)
    requires forall i :: 0 <= i < |a| ==> a[i].count >= 1
    requires forall i :: 0 <= i < |b| ==> b[i].count >= 1
    requires forall y, r :: Lookup(a, y, r) == Lookup(b, y, r)
    ensures a == b
    decreases |a|
  {
    if a != [] {
      LookupAt(a, 0);
    }
    if b != [] {
      LookupAt(b, 0);
    }
    if a != [] && b != [] {
      if a[0].year != b[0].year || a[0].repo != b[0].repo {
        KeyLessTotal(a[0].year, a[0].repo, b[0].year, b[0].repo);
        if KeyLess(a[0].year, a[0].repo, b[0].year, b[0].repo) {
          LookupBelow(b, a[0].year, a[0].repo);
        } else {
          LookupBelow(a, b[0].year, b[0].repo);
        }
      } else {
        forall y, r ensures Lookup(a[1..], y, r) == Lookup(b[1..], y, r) {
          TailLookup(a, y, r);
          TailLookup(b, y, r);
        }
        SortedTail(a);
        SortedTail(b);
        SortedGroupsUnique(a[1..], b[1..]);
        assert a == [a[0]] + a[1..] && b == [b[0]] + b[1..];
      }
    }
  }

  /** The tail of a sorted entry list is sorted. */
  lemma SortedTail(gs: seq<Group>)
    requires GroupsSorted(gs) && gs != []
    ensures GroupsSorted(gs[1..])
  {
    forall i, j | 0 <= i < j < |gs[1..]| ensures GroupLess(gs[1..][i], gs[1..][j]) {
      assert gs[1..][i] == gs[i + 1] && gs[1..][j] == gs[j + 1];
    }
  }

  /** Dropping the first entry of a sorted list forgets its key only. */
  lemma TailLookup(gs: seq<Group>, y: int, r: string)
    requires GroupsSorted(gs) && gs != []
    ensures Lookup(gs[1..], y, r) == if y == gs[0].year && r == gs[0].repo then 0 else Lookup(gs, y, r)
  {
    if y == gs[0].year && r == gs[0].repo && |gs| > 1 {
      assert GroupLess(gs[0], gs[1]);
      SortedTail(gs);
      assert gs[1..][0] == gs[1];
      LookupBelow(gs[1..], y, r);
    }
  }

  /** The sum of the counts of an entry list. */
  function SumCounts(gs: seq<Group>): nat
    decreases |gs|
  {
    if gs == [] then 0 else gs[0].count + SumCounts(gs[1..])
  }

  lemma {:induction false} AddHitSum(gs: seq<Group>, y: int, r: string)
    ensures SumCounts(AddHit(gs, y, r)) == SumCounts(gs) + 1
    decreases |gs|
  {
    if gs != [] && !(gs[0].year == y && gs[0].repo == r) && !KeyLess(y, r, gs[0].year, gs[0].repo) {
      var rest := AddHit(gs[1..], y, r);
      assert ([gs[0]] + rest)[1..] == rest;
      AddHitSum(gs[1..], y, r);
    } else if gs != [] && gs[0].year == y && gs[0].repo == r {
      var g := gs[0].(count := gs[0].count + 1);
      assert ([g] + gs[1..])[1..] == gs[1..];
    } else if gs != [] {
      assert ([Group(y, r, 1)] + gs)[1..] == gs;
    }
  }

  /** The counts add up to the number of rows grouped: the group-by
      partitions the rows by key. */
  lemma {:induction false} GroupTotal(facts: seq<Fact>)
    ensures SumCounts(GroupCounts(facts)) == |facts|
    decreases |facts|
  {
    if facts != [] {
      GroupTotal(facts[1..]);
      AddHitSum(GroupCounts(facts[1..]), facts[0].rec.year, facts[0].rec.repo);
    }
  }

  /** There are no groups exactly when there are no rows. */
  lemma GroupEmpty(facts: seq<Fact>)
    ensures GroupCounts(facts) == [] <==> facts == []
  {
    GroupTotal(facts);
  }
  /** Rows that all share one key form a single group counting all of them. */
  lemma {:induction false} SingleKeyGroups(facts: seq<Fact>, y: int, r: string)
    requires facts != []
    requires forall f :: f in facts ==> f.rec.year == y && f.rec.repo == r
    ensures GroupCounts(facts) == [Group(y, r, |facts|)]
    decreases |facts|
  {
    assert facts[0] in facts;
    if |facts| > 1 {
      assert forall f :: f in facts[1..] ==> f in facts;
      SingleKeyGroups(facts[1..], y, r);
      var g := Group(y, r, |facts| - 1);
      assert AddHit([g], y, r) == [g.(count := g.count + 1)] + [g][1..];
    }
  }
}
