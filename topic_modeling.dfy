/** scripts/topic_modeling.py: the keywords reported for each fitted topic
    (`display_topics`) and the assignment of each headline's dominant topic. The
    fitting itself (vectorizer, NMF) is an input: the topic-word weights, the
    vocabulary and the document-topic weights arrive as parameters. */
module TopicModeling {
  import opened Wrappers
  import opened Ranking
  import opened News

  /** `N_TOPICS`, `NO_TOP_WORDS` and `SAMPLE_SIZE`. */
  const NTopics: nat := 10
  const NoTopWords: nat := 8
  const SampleSize: nat := 50000

  /** Python's `s[:stop:-1]` for a negative `stop`: from the last element down
      to, and excluding, position `len(s) + stop`; a `stop` before the start
      means "down to the first element". */
  function BackwardsTo<T>(s: seq<T>, stop: int): seq<T>
    requires stop < 0
  {
    var end := if |s| + stop < 0 then -1 else |s| + stop;
    seq(|s| - 1 - end, i requires 0 <= i < |s| - 1 - end => s[|s| - 1 - i])
  }

  /** `topic.argsort()[:-no_top_words - 1:-1]` (line 21). */
  function TopWordIndices(weights: seq<real>, k: nat): seq<nat>
  {
    BackwardsTo(ArgSort(weights), -1 - k as int)
  }

  /** The slice yields `min(k, n)` distinct word positions, heaviest first, and
      no word left out weighs more than one chosen. */
  lemma TopWordIndicesSpec(weights: seq<real>, k: nat)
    ensures var r := TopWordIndices(weights, k);
      && |r| == (if k < |weights| then k else |weights|)
      && (forall i :: 0 <= i < |r| ==> r[i] < |weights|)
      && (forall i, j :: 0 <= i < j < |r| ==> r[i] != r[j] && weights[r[i]] >= weights[r[j]])
      && (forall p, i :: 0 <= p < |weights| && p !in r && 0 <= i < |r| ==> weights[p] <= weights[r[i]])
  {
    var a := ArgSort(weights);
    var r := TopWordIndices(weights, k);
    var n := |weights|;
    assert |r| == (if k < n then k else n);
    assert forall i :: 0 <= i < |r| ==> r[i] == a[n - 1 - i];
    assert forall q :: n - |r| <= q < n ==> a[q] == r[n - 1 - q];
    forall p, i | 0 <= p < n && p !in r && 0 <= i < |r| ensures weights[p] <= weights[r[i]] {
      assert p in a;
      var q :| 0 <= q < n && a[q] == p;
      assert q < n - |r|;
      assert Before(weights, a[q], a[n - 1 - i]);
    }
  }

  /** `[feature_names[i] for i in top_words_idx]` (line 22). */
  function TopWords(weights: seq<real>, featureNames: seq<string>, k: nat): (r: seq<string>)
    requires |weights| == |featureNames|
    ensures |r| == (if k < |featureNames| then k else |featureNames|)
    ensures |r| == |TopWordIndices(weights, k)|
    ensures forall i :: 0 <= i < |r| ==>
      TopWordIndices(weights, k)[i] < |featureNames| && r[i] == featureNames[TopWordIndices(weights, k)[i]]
    ensures forall w :: w in r ==> w in featureNames
  {
    var idx := TopWordIndices(weights, k);
    TopWordIndicesSpec(weights, k);
    seq(|idx|, i requires 0 <= i < |idx| => featureNames[idx[i]])
  }

  /** The dictionary `display_topics` returns: the keys `0 .. n-1`, each topic's
      position mapped to `min(k, vocabulary size)` of its top words. */
  function TopicKeywords(components: seq<seq<real>>, featureNames: seq<string>, k: nat): (m: map<nat, seq<string>>)
    requires forall t :: 0 <= t < |components| ==> |components[t]| == |featureNames|
    ensures forall t: nat :: t in m <==> t < |components|
    ensures forall t: nat :: t < |components| ==> m[t] == TopWords(components[t], featureNames, k)
    ensures forall t: nat :: t < |components| ==>
      |m[t]| == (if k < |featureNames| then k else |featureNames|) &&
      forall w :: w in m[t] ==> w in featureNames
  {
    KeywordsBelow(AllTopWords(components, featureNames, k), |components|)
  }

  /** Every topic's top words, in topic order. */
  function AllTopWords(components: seq<seq<real>>, featureNames: seq<string>, k: nat): (r: seq<seq<string>>)
    requires forall t :: 0 <= t < |components| ==> |components[t]| == |featureNames|
    ensures |r| == |components|
    ensures forall t :: 0 <= t < |r| ==> r[t] == TopWords(components[t], featureNames, k)
  {
    seq(|components|, t requires 0 <= t < |components| => TopWords(components[t], featureNames, k))
  }

  /** The entries of the first `n` topics. */
  function KeywordsBelow(words: seq<seq<string>>, n: nat): map<nat, seq<string>>
    requires n <= |words|
  {
    map t: nat | t < n :: words[t]
  }

  /** One more topic adds exactly its own entry. */
  lemma KeywordsBelowStep(words: seq<seq<string>>, n: nat)
    requires n < |words|
    ensures KeywordsBelow(words, n + 1) == KeywordsBelow(words, n)[n := words[n]]
  {
    assert KeywordsBelow(words, n + 1).Keys == KeywordsBelow(words, n)[n := words[n]].Keys;
  }

  /** `display_topics` (lines 16-25): one entry per topic, filled in topic order. */
  method DisplayTopics(components: seq<seq<real>>, featureNames: seq<string>, noTopWords: nat)
    returns (topicKeywords: map<nat, seq<string>>)
    requires forall t :: 0 <= t < |components| ==> |components[t]| == |featureNames|
    ensures topicKeywords == TopicKeywords(components, featureNames, noTopWords)
  {
    topicKeywords := map[];
    ghost var words := AllTopWords(components, featureNames, noTopWords);
    assert topicKeywords == KeywordsBelow(words, 0);
    for topicIdx := 0 to |components|
      invariant topicKeywords == KeywordsBelow(words, topicIdx)
    {
      var topWords := TopWords(components[topicIdx], featureNames, noTopWords);
      KeywordsBelowStep(words, topicIdx);
      topicKeywords := topicKeywords[topicIdx := topWords];
    }
  }

  /** `full_doc_topic_matrix.argmax(axis=1)` (line 86): for each headline the
      first topic of largest weight. */
  function DominantTopics(docTopics: seq<seq<real>>): (r: seq<nat>)
    requires forall d :: 0 <= d < |docTopics| ==> |docTopics[d]| == NTopics
    ensures |r| == |docTopics|
    ensures forall d :: 0 <= d < |r| ==> r[d] < NTopics
    ensures forall d :: 0 <= d < |r| ==>
      (forall t :: 0 <= t < NTopics ==> docTopics[d][t] <= docTopics[d][r[d]]) &&
      (forall t :: 0 <= t < r[d] ==> docTopics[d][t] < docTopics[d][r[d]])
  {
    seq(|docTopics|, d requires 0 <= d < |docTopics| => FirstMax(docTopics[d]))
  }

  function WithTopics(rows: seq<NewsRecord>, topics: seq<nat>): (r: seq<NewsRecord>)
    requires |topics| == |rows|
    ensures |r| == |rows|
    ensures forall i :: 0 <= i < |r| ==> r[i] == rows[i].(nmfTopicId := Some(topics[i]))
  {
    seq(|rows|, i requires 0 <= i < |rows| => rows[i].(nmfTopicId := Some(topics[i])))
  }

  /** Line 86: the `nmf_topic_id` column is set on every row of the table. */
  method AssignDominantTopics(df: NewsTable, docTopics: seq<seq<real>>)
    requires |docTopics| == |df.rows|
    requires forall d :: 0 <= d < |docTopics| ==> |docTopics[d]| == NTopics
    modifies df
    ensures df.rows == WithTopics(old(df.rows), DominantTopics(docTopics))
    ensures forall i :: 0 <= i < |df.rows| ==>
      df.rows[i].nmfTopicId.Some? && df.rows[i].nmfTopicId.value < NTopics
  {
    df.rows := WithTopics(df.rows, DominantTopics(docTopics));
  }

  /** How `run_topic_modeling` ends: the cleaned table is missing, the table is
      smaller than the sample (`df.sample` raises `ValueError`), or the topics
      were reported and assigned. */
  datatype TopicRun = CleanedDataMissing | SampleLargerThanData | TopicsAssigned(keywords: map<nat, seq<string>>)

  /** `run_topic_modeling` (lines 27-90). `components`, `featureNames` and
      `docTopics` are what the fitted vectorizer and NMF model produce. */
  method RunTopicModeling(df: Option<NewsTable>, components: seq<seq<real>>, featureNames: seq<string>,
                          docTopics: seq<seq<real>>) returns (outcome: TopicRun)
    requires |components| == NTopics
    requires forall t :: 0 <= t < |components| ==> |components[t]| == |featureNames|
    requires df.Some? ==> |docTopics| == |df.value.rows|
    requires forall d :: 0 <= d < |docTopics| ==> |docTopics[d]| == NTopics
    modifies if df.Some? then {df.value} else {}
    ensures df.None? ==> outcome == CleanedDataMissing
    ensures df.Some? && |old(df.value.rows)| < SampleSize ==>
      outcome == SampleLargerThanData && df.value.rows == old(df.value.rows)
    ensures df.Some? && |old(df.value.rows)| >= SampleSize ==>
      && outcome == TopicsAssigned(TopicKeywords(components, featureNames, NoTopWords))
      && df.value.rows == WithTopics(old(df.value.rows), DominantTopics(docTopics))
  {
    if df.None? {
      return CleanedDataMissing;
    }
    var table := df.value;
    if |table.rows| < SampleSize {
      return SampleLargerThanData;
    }
    var keywords := DisplayTopics(components, featureNames, NoTopWords);
    AssignDominantTopics(table, docTopics);
    return TopicsAssigned(keywords);
  }
}
