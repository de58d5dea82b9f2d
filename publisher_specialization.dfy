/** scripts/publisher_specialization.py: the table of article counts per
    publisher domain and topic, its `Total_Count` column, the five busiest
    domains and the topics 0-4 that occur. */
module PublisherSpecialization {
  import opened Wrappers
  import opened Strings
  import opened Ranking
  import opened News
  import opened Tally

  /** `TOP_N_PUBLISHERS` and `TOPICS_TO_PLOT`. */
  const TopN: nat := 5
  const TopicsToPlot: nat := 5

  /** The two columns the pivot reads from one row. */
  datatype Article = Article(domain: string, topic: nat)

  /** The rows `groupby` and `value_counts` see: a null domain or topic drops
      the row from the grouping. */
  function ArticlesOf(rows: seq<NewsRecord>): (r: seq<Article>)
    ensures |r| <= |rows|
  {
    if rows == [] then []
    else
      var row := rows[0];
      (if row.publisherDomain.Some? && row.nmfTopicId.Some?
       then [Article(row.publisherDomain.value, row.nmfTopicId.value)] else [])
      + ArticlesOf(rows[1..])
  }

  /** The grouping sees the rows one by one: each row with a domain and a topic
      gives exactly one article, in row order, and the others give none. */
  lemma {:induction false} ArticlesOfAppend(a: seq<NewsRecord>, b: seq<NewsRecord>)
    ensures ArticlesOf(a + b) == ArticlesOf(a) + ArticlesOf(b)
  {
    if a != [] {
      var row := a[0];
      var head := if row.publisherDomain.Some? && row.nmfTopicId.Some?
        then [Article(row.publisherDomain.value, row.nmfTopicId.value)] else [];
      assert (a + b)[0] == row;
      assert (a + b)[1..] == a[1..] + b;
      ArticlesOfAppend(a[1..], b);
      calc {
        ArticlesOf(a + b);
        head + ArticlesOf(a[1..] + b);
        head + (ArticlesOf(a[1..]) + ArticlesOf(b));
        (head + ArticlesOf(a[1..])) + ArticlesOf(b);
        ArticlesOf(a) + ArticlesOf(b);
      }
    } else {
      assert a + b == b;
    }
  }

  /** The grouping sees exactly the rows with both a domain and a topic. */
  lemma {:induction false} ArticlesOfMembers(rows: seq<NewsRecord>)
    ensures forall a :: a in ArticlesOf(rows) <==>
      exists row :: row in rows && row.publisherDomain == Some(a.domain) && row.nmfTopicId == Some(a.topic)
  {
    if rows != [] {
      ArticlesOfMembers(rows[1..]);
      assert forall x :: x in rows <==> x == rows[0] || x in rows[1..];
    }
  }

  lemma ArticlesOfRow(row: NewsRecord)
    ensures ArticlesOf([row]) ==
      if row.publisherDomain.Some? && row.nmfTopicId.Some?
      then [Article(row.publisherDomain.value, row.nmfTopicId.value)] else []
  {
    assert [row][1..] == [];
  }

  /** The number of articles of domain `d` on topic `t`. */
  function Count(arts: seq<Article>, d: string, t: nat): nat
  {
    if arts == [] then 0
    else (if arts[0] == Article(d, t) then 1 else 0) + Count(arts[1..], d, t)
  }

  /** The number of articles of domain `d`. */
  function DomainCount(arts: seq<Article>, d: string): nat
  {
    if arts == [] then 0
    else (if arts[0].domain == d then 1 else 0) + DomainCount(arts[1..], d)
  }

  /** A count is the multiplicity of the (domain, topic) pair; a pair that never
      occurs counts 0. */
  lemma {:induction false} CountIsMultiplicity(arts: seq<Article>, d: string, t: nat)
    ensures Count(arts, d, t) == multiset(arts)[Article(d, t)]
    ensures Count(arts, d, t) == 0 <==> Article(d, t) !in arts
  {
    if arts != [] {
      CountIsMultiplicity(arts[1..], d, t);
      assert arts == [arts[0]] + arts[1..];
    }
  }

  predicate AscendingStrings(s: seq<string>)
  {
    forall i, j :: 0 <= i < j < |s| ==> LexLess(s[i], s[j])
  }

  predicate AscendingNats(s: seq<nat>)
  {
    forall i, j :: 0 <= i < j < |s| ==> s[i] < s[j]
  }

  function InsertDomain(d: string, s: seq<string>): (r: seq<string>)
    requires AscendingStrings(s)
    ensures AscendingStrings(r)
    ensures forall x :: x in r <==> x == d || x in s
  {
    if s == [] then [d]
    else if d == s[0] then s
    else if LexLess(d, s[0]) then
      forall j | 0 < j < |s| ensures LexLess(d, s[j]) {
        LexLessTransitive(d, s[0], s[j]);
      }
      [d] + s
    else
      LexLessTotal(d, s[0]);
      var rest := InsertDomain(d, s[1..]);
      assert forall x :: x in s <==> x == s[0] || x in s[1..];
      forall j | 0 <= j < |rest| ensures LexLess(s[0], rest[j]) {
        assert rest[j] in rest;
        if rest[j] != d {
          var k :| 0 <= k < |s[1..]| && s[1..][k] == rest[j];
          assert s[k + 1] == rest[j];
        }
      }
      [s[0]] + rest
  }

  function InsertTopic(t: nat, s: seq<nat>): (r: seq<nat>)
    requires AscendingNats(s)
    ensures AscendingNats(r)
    ensures forall x :: x in r <==> x == t || x in s
  {
    if s == [] then [t]
    else if t == s[0] then s
    else if t < s[0] then [t] + s
    else
      var rest := InsertTopic(t, s[1..]);
      assert forall x :: x in s <==> x == s[0] || x in s[1..];
      forall j | 0 <= j < |rest| ensures s[0] < rest[j] {
        assert rest[j] in rest;
        if rest[j] != t {
          var k :| 0 <= k < |s[1..]| && s[1..][k] == rest[j];
          assert s[k + 1] == rest[j];
        }
      }
      [s[0]] + rest
  }

  /** The row labels of the pivot: the domains that occur, in `groupby`'s
      ascending order. */
  function Domains(arts: seq<Article>): (r: seq<string>)
    ensures AscendingStrings(r)
    ensures forall d :: d in r <==> exists a :: a in arts && a.domain == d
  {
    if arts == [] then []
    else
      assert forall a :: a in arts <==> a == arts[0] || a in arts[1..];
      InsertDomain(arts[0].domain, Domains(arts[1..]))
  }

  /** The topic columns `unstack` creates: the topic ids that occur, ascending. */
  function TopicIds(arts: seq<Article>): (r: seq<nat>)
    ensures AscendingNats(r)
    ensures forall t :: t in r <==> exists a :: a in arts && a.topic == t
  {
    if arts == [] then []
    else
      assert forall a :: a in arts <==> a == arts[0] || a in arts[1..];
      InsertTopic(arts[0].topic, TopicIds(arts[1..]))
  }

  /** One row of the pivot: domain `d`'s count under each topic column. */
  function CountRow(arts: seq<Article>, d: string, topics: seq<nat>): seq<nat>
  {
    seq(|topics|, c requires 0 <= c < |topics| => Count(arts, d, topics[c]))
  }

  /** `groupby(...).value_counts().unstack(fill_value=0)` (line 26). */
  function CountCells(arts: seq<Article>, domains: seq<string>, topics: seq<nat>): seq<seq<nat>>
  {
    seq(|domains|, r requires 0 <= r < |domains| => CountRow(arts, domains[r], topics))
  }

  function Sum(s: seq<nat>): nat
  {
    if s == [] then 0 else s[0] + Sum(s[1..])
  }

  /** `sum(axis=1)` over the topic columns (line 29). */
  function RowSums(cells: seq<seq<nat>>): (r: seq<nat>)
    ensures |r| == |cells|
  {
    seq(|cells|, i requires 0 <= i < |cells| => Sum(cells[i]))
  }

  /** The pivot table of line 26, which line 29 extends in place with its
      `Total_Count` column. */
  class PivotTable {
    var domains: seq<string>
    var topics: seq<nat>
    var cells: seq<seq<nat>>
    var totalCount: Option<seq<nat>>

    predicate Valid()
      reads this
    {
      && |cells| == |domains|
      && (forall r :: 0 <= r < |cells| ==> |cells[r]| == |topics|)
      && (totalCount.Some? ==> |totalCount.value| == |domains|)
    }

    /** Line 26: one row per domain, one column per topic. */
    constructor (arts: seq<Article>)
      ensures domains == Domains(arts) && topics == TopicIds(arts)
      ensures cells == CountCells(arts, domains, topics)
      ensures totalCount == None
      ensures Valid()
    {
      var ds := Domains(arts);
      var ts := TopicIds(arts);
      domains := ds;
      topics := ts;
      cells := CountCells(arts, ds, ts);
      totalCount := None;
    }

    /** Line 29: adds `Total_Count`, the sum of each row's topic columns. */
    method AddTotalCount()
      requires Valid() && totalCount.None?
      modifies this
      ensures domains == old(domains) && topics == old(topics) && cells == old(cells)
      ensures totalCount == Some(RowSums(cells))
      ensures Valid()
    {
      totalCount := Some(RowSums(cells));
    }
  }

  function TopicSum(arts: seq<Article>, d: string, ts: seq<nat>): nat
  {
    if ts == [] then 0 else Count(arts, d, ts[0]) + TopicSum(arts, d, ts[1..])
  }

  lemma {:induction false} TopicSumCons(a: Article, rest: seq<Article>, d: string, ts: seq<nat>)
    ensures TopicSum([a] + rest, d, ts) ==
      TopicSum(rest, d, ts) + (if a.domain == d then Occurrences(ts, a.topic) else 0)
  {
    if ts != [] {
      TopicSumCons(a, rest, d, ts[1..]);
      assert ([a] + rest)[1..] == rest;
    }
  }

  /** Summing a domain's counts over the topic columns gives its article count,
      when the columns are distinct and cover every topic. */
  lemma {:induction false} TopicSumIsDomainCount(arts: seq<Article>, d: string, ts: seq<nat>)
    requires AscendingNats(ts)
    requires forall a :: a in arts ==> a.topic in ts
    ensures TopicSum(arts, d, ts) == DomainCount(arts, d)
  {
    if arts == [] {
      ZeroCounts(d, ts);
    } else {
      assert arts == [arts[0]] + arts[1..];
      TopicSumIsDomainCount(arts[1..], d, ts);
      TopicSumCons(arts[0], arts[1..], d, ts);
      OccurrencesAscending(ts, arts[0].topic);
    }
  }

  lemma {:induction false} ZeroCounts(d: string, ts: seq<nat>)
    ensures TopicSum([], d, ts) == 0
  {
    if ts != [] { ZeroCounts(d, ts[1..]); }
  }

  lemma {:induction false} SumCountRow(arts: seq<Article>, d: string, ts: seq<nat>)
    ensures Sum(CountRow(arts, d, ts)) == TopicSum(arts, d, ts)
  {
    if ts != [] {
      assert CountRow(arts, d, ts)[1..] == CountRow(arts, d, ts[1..]);
      SumCountRow(arts, d, ts[1..]);
    }
  }

  /** `Total_Count` of a domain's row is its number of articles: the sum runs
      over every topic column, topics 5 and above included. */
  lemma TotalCountIsDomainCount(arts: seq<Article>, r: nat)
    requires r < |Domains(arts)|
    ensures RowSums(CountCells(arts, Domains(arts), TopicIds(arts)))[r] == DomainCount(arts, Domains(arts)[r])
  {
    var d := Domains(arts)[r];
    var ts := TopicIds(arts);
    SumCountRow(arts, d, ts);
    TopicSumIsDomainCount(arts, d, ts);
  }

  /** Keys whose ascending stable order is descending total, ties in row order. */
  function Negated(totals: seq<nat>): (k: seq<real>)
    ensures |k| == |totals|
  {
    seq(|totals|, i requires 0 <= i < |totals| => -(totals[i] as real))
  }

  /** `nlargest(TOP_N_PUBLISHERS, columns='Total_Count')` (line 32): the row
      positions of the largest totals, largest first, ties in row order. */
  function TopPublishers(totals: seq<nat>): (sel: seq<nat>)
    ensures |sel| == (if TopN < |totals| then TopN else |totals|)
    ensures forall i :: 0 <= i < |sel| ==> sel[i] < |totals|
  {
    var a := ArgSort(Negated(totals));
    a[..if TopN < |totals| then TopN else |totals|]
  }

  /** At most five distinct rows are selected, in descending total; no row
      left out has a larger total than a selected one, and among equal totals
      the earlier row wins. */
  lemma TopPublishersSpec(totals: seq<nat>)
    ensures var sel := TopPublishers(totals);
      && |sel| == (if TopN < |totals| then TopN else |totals|)
      && (forall i :: 0 <= i < |sel| ==> sel[i] < |totals|)
      && (forall i, j :: 0 <= i < j < |sel| ==>
            sel[i] != sel[j] && totals[sel[i]] >= totals[sel[j]] &&
            (totals[sel[i]] == totals[sel[j]] ==> sel[i] < sel[j]))
      && (forall p, i :: 0 <= p < |totals| && p !in sel && 0 <= i < |sel| ==>
            totals[p] <= totals[sel[i]] && (totals[p] == totals[sel[i]] ==> sel[i] < p))
  {
    var keys := Negated(totals);
    var a := ArgSort(keys);
    var sel := TopPublishers(totals);
    assert forall q :: 0 <= q < |sel| ==> a[q] == sel[q];
    forall i, j | 0 <= i < j < |sel|
      ensures sel[i] != sel[j] && totals[sel[i]] >= totals[sel[j]] &&
              (totals[sel[i]] == totals[sel[j]] ==> sel[i] < sel[j])
    {
      assert Before(keys, a[i], a[j]);
    }
    forall p, i | 0 <= p < |totals| && p !in sel && 0 <= i < |sel|
      ensures totals[p] <= totals[sel[i]] && (totals[p] == totals[sel[i]] ==> sel[i] < p)
    {
      assert p in a;
      var q :| 0 <= q < |a| && a[q] == p;
      assert q >= |sel|;
      assert Before(keys, a[i], a[q]);
    }
  }

  /** `[i for i in range(n) if i in columns]` (line 35). */
  function IncludedTopics(topics: seq<nat>, n: nat): (r: seq<nat>)
    ensures AscendingNats(r)
    ensures forall t :: t in r <==> t < n && t in topics
  {
    if n == 0 then []
    else
      var r := IncludedTopics(topics, n - 1);
      assert forall i :: 0 <= i < |r| ==> r[i] in r;
      r + (if n - 1 in topics then [n - 1] else [])
  }

  function PositionOf(s: seq<nat>, x: nat): (i: nat)
    requires x in s
    ensures i < |s| && s[i] == x
  {
    if s[0] == x then 0 else 1 + PositionOf(s[1..], x)
  }

  /** The labels of the selected rows, in selection order. */
  function Pick(labels: seq<string>, sel: seq<nat>): (r: seq<string>)
    requires forall i :: 0 <= i < |sel| ==> sel[i] < |labels|
    ensures |r| == |sel| && forall i :: 0 <= i < |sel| ==> r[i] == labels[sel[i]]
  {
    seq(|sel|, i requires 0 <= i < |sel| => labels[sel[i]])
  }

  /** `plot_df` (line 36): the selected rows, in selection order, restricted to
      the included topic columns. */
  datatype PlotFrame = PlotFrame(domains: seq<string>, topics: seq<nat>, cells: seq<seq<nat>>)

  function PlotOf(domains: seq<string>, topics: seq<nat>, cells: seq<seq<nat>>, sel: seq<nat>, included: seq<nat>): PlotFrame
    requires |cells| == |domains| && forall r :: 0 <= r < |cells| ==> |cells[r]| == |topics|
    requires forall i :: 0 <= i < |sel| ==> sel[i] < |domains|
    requires forall t :: t in included ==> t in topics
  {
    PlotFrame(
      Pick(domains, sel),
      included,
      seq(|sel|, i requires 0 <= i < |sel| =>
        seq(|included|, c requires 0 <= c < |included| => cells[sel[i]][PositionOf(topics, included[c])])))
  }

  /** Lines 26-36 as one function of the articles. The plotted columns are
      exactly the topics 0-4 that occur, ascending, and each plotted cell is the
      number of articles of that domain on that topic. */
  function Specialisation(arts: seq<Article>): (p: PlotFrame)
    ensures AscendingNats(p.topics)
    ensures forall t :: t in p.topics <==> t < TopicsToPlot && exists a :: a in arts && a.topic == t
    ensures |p.cells| == |p.domains|
    ensures forall i :: 0 <= i < |p.cells| ==> |p.cells[i]| == |p.topics|
    ensures forall i, c :: 0 <= i < |p.cells| && 0 <= c < |p.topics| ==>
      p.cells[i][c] == Count(arts, p.domains[i], p.topics[c])
  {
    var domains := Domains(arts);
    var topics := TopicIds(arts);
    var cells := CountCells(arts, domains, topics);
    var sel := TopPublishers(RowSums(cells));
    TopPublishersSpec(RowSums(cells));
    PlotOf(domains, topics, cells, sel, IncludedTopics(topics, TopicsToPlot))
  }

  /** Distinct rows of an ascending label column carry distinct labels. */
  lemma SelectedLabelsDistinct(labels: seq<string>, sel: seq<nat>, chosen: seq<string>)
    requires AscendingStrings(labels)
    requires forall i :: 0 <= i < |sel| ==> sel[i] < |labels|
    requires forall i, j :: 0 <= i < j < |sel| ==> sel[i] != sel[j]
    requires |chosen| == |sel| && forall i :: 0 <= i < |sel| ==> chosen[i] == labels[sel[i]]
    ensures forall i, j :: 0 <= i < j < |chosen| ==> chosen[i] != chosen[j]
  {
    forall i, j | 0 <= i < j < |sel| ensures labels[sel[i]] != labels[sel[j]] {
      LexLessIrreflexive(labels[sel[i]]);
      if sel[i] < sel[j] {
        assert LexLess(labels[sel[i]], labels[sel[j]]);
      } else {
        assert LexLess(labels[sel[j]], labels[sel[i]]);
      }
    }
  }

  /** Selecting rows of an ascending label column by their totals picks at most
      five distinct labels in descending total, and no label left out has a
      larger total than a picked one. */
  lemma TopLabelsSpec(labels: seq<string>, totals: seq<nat>)
    requires AscendingStrings(labels) && |totals| == |labels|
    ensures var sel := TopPublishers(totals);
      var chosen := Pick(labels, sel);
      && |chosen| == (if TopN < |labels| then TopN else |labels|)
      && (forall i, j :: 0 <= i < j < |chosen| ==>
            chosen[i] != chosen[j] && totals[sel[i]] >= totals[sel[j]])
      && (forall q, i :: 0 <= q < |labels| && labels[q] !in chosen && 0 <= i < |chosen| ==>
            totals[q] <= totals[sel[i]])
  {
    var sel := TopPublishers(totals);
    var chosen := Pick(labels, sel);
    TopPublishersSpec(totals);
    SelectedLabelsDistinct(labels, sel, chosen);
    forall q, i | 0 <= q < |labels| && labels[q] !in chosen && 0 <= i < |chosen|
      ensures totals[q] <= totals[sel[i]]
    {
      forall k | 0 <= k < |sel| ensures sel[k] != q {
        assert chosen[k] in chosen;
      }
    }
  }

  /** The plotted rows: at most five distinct domains in descending article
      count, and no domain left out has more articles than a plotted one. */
  lemma PlotRowsSpec(arts: seq<Article>)
    ensures var p := Specialisation(arts);
      var all := Domains(arts);
      && |p.domains| == (if TopN < |all| then TopN else |all|)
      && (forall i :: 0 <= i < |p.domains| ==> p.domains[i] in all)
      && (forall i, j :: 0 <= i < j < |p.domains| ==>
            p.domains[i] != p.domains[j] && DomainCount(arts, p.domains[i]) >= DomainCount(arts, p.domains[j]))
      && (forall d, i :: d in all && d !in p.domains && 0 <= i < |p.domains| ==>
            DomainCount(arts, d) <= DomainCount(arts, p.domains[i]))
  {
    var domains := Domains(arts);
    var totals := RowSums(CountCells(arts, domains, TopicIds(arts)));
    forall r | 0 <= r < |domains| ensures totals[r] == DomainCount(arts, domains[r]) {
      TotalCountIsDomainCount(arts, r);
    }
    var sel := TopPublishers(totals);
    var chosen := Pick(domains, sel);
    TopLabelsSpec(domains, totals);
    assert Specialisation(arts).domains == chosen;
    forall i | 0 <= i < |chosen|
      ensures chosen[i] in domains && DomainCount(arts, chosen[i]) == totals[sel[i]]
    {
    }
    forall d, i | d in domains && d !in chosen && 0 <= i < |chosen|
      ensures DomainCount(arts, d) <= DomainCount(arts, chosen[i])
    {
      var q :| 0 <= q < |domains| && domains[q] == d;
    }
  }

  /** How `run_publisher_specialization` ends: the topic-assigned table is
      missing, or the frame to plot. */
  datatype SpecialisationRun = TopicDataMissing | Specialised(plot: PlotFrame)

  /** `run_publisher_specialization` up to the frame it plots (lines 11-36). */
  method RunPublisherSpecialization(df: Option<seq<NewsRecord>>) returns (outcome: SpecialisationRun)
    ensures df.None? ==> outcome == TopicDataMissing
    ensures df.Some? ==> outcome == Specialised(Specialisation(ArticlesOf(df.value)))
  {
    if df.None? {
      return TopicDataMissing;
    }
    var arts := ArticlesOf(df.value);
    var table := new PivotTable(arts);
    table.AddTotalCount();
    var totals := table.totalCount.value;
    var sel := TopPublishers(totals);
    TopPublishersSpec(totals);
    var included := IncludedTopics(table.topics, TopicsToPlot);
    return Specialised(PlotOf(table.domains, table.topics, table.cells, sel, included));
  }
}
