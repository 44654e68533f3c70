/** The pipeline orchestrator (`classify_sentences`): normalize, embed, take
    the cluster assignment, pick representatives, group the original
    sentences by cluster and key each group by the summary of its
    representative. The embedding model, the similarity measure and the
    summarizer are parameters; the cluster assignment is an input aligned with
    the sentences, and `order` is the order in which Python iterates over the
    distinct cluster ids. */
module Classify {
  import opened Collections
  import opened Text
  import Preprocess
  import Labeling

  /** The models the pipeline is run with. */
  datatype Stages<!E> = Stages(
    normalizer: Preprocess.Normalizer,
    embed: string -> E,
    similarity: (seq<E>, E) -> real,
    summarize: string -> string)

  /** What is summarized for a cluster id that has no representative. */
  const NoRepresentative: string := "No representative sentence"

  /** The original sentences assigned to cluster `c`, in input order. */
  function Group(sentences: seq<string>, clusterLabels: seq<int>, c: int): seq<string>
    requires |clusterLabels| <= |sentences|
  {
    Select(sentences, IndicesOf(clusterLabels, c))
  }

  /** `clusters`: one group per distinct cluster id. */
  function Groups(sentences: seq<string>, clusterLabels: seq<int>): map<int, seq<string>>
    requires |clusterLabels| <= |sentences|
  {
    map c | c in Elems(clusterLabels) :: Group(sentences, clusterLabels, c)
  }

  /** The intent label of cluster `c`: the summary of its representative, or of
      the fixed fallback text when it has none (`representatives.get`). */
  function Label(representatives: map<int, string>, summarize: string -> string, c: int): string
  {
    summarize(if c in representatives then representatives[c] else NoRepresentative)
  }

  /** The intents after visiting the ids of `order` in turn: each visit stores
      the cluster's group under its label, replacing whatever an earlier
      cluster stored there. */
  function AssembleIntents(order: seq<int>, clusters: map<int, seq<string>>,
                           representatives: map<int, string>, summarize: string -> string)
    : map<string, seq<string>>
    requires forall k :: 0 <= k < |order| ==> order[k] in clusters
  {
    if order == [] then map[]
    else
      var last := order[|order| - 1];
      AssembleIntents(order[..|order| - 1], clusters, representatives, summarize)
        [Label(representatives, summarize, last) := clusters[last]]
  }

  /** The normalized corpus. */
  function NormalizeAll(sentences: seq<string>, nz: Preprocess.Normalizer): seq<string>
  {
    seq(|sentences|, i requires 0 <= i < |sentences| => Preprocess.NormalizeSentence(sentences[i], nz))
  }

  /** `get_embeddings`: one embedding per normalized sentence. */
  function Embeddings<E>(preprocessed: seq<string>, embed: string -> E): seq<E>
  {
    seq(|preprocessed|, i requires 0 <= i < |preprocessed| => embed(preprocessed[i]))
  }

  /** The representative of every cluster id of the assignment. */
  function Representatives<E>(sentences: seq<string>, clusterLabels: seq<int>, stages: Stages<E>)
    : map<int, string>
    requires |clusterLabels| <= |sentences|
  {
    var embeddings := Embeddings(NormalizeAll(sentences, stages.normalizer), stages.embed);
    map c | c in Elems(clusterLabels) ::
      Labeling.Representative(sentences, embeddings, clusterLabels, c, stages.similarity)
  }

  /** What `classify_sentences` returns, stage by stage. */
  function Classification<E>(sentences: seq<string>, clusterLabels: seq<int>,
                             order: seq<int>, stages: Stages<E>): map<string, seq<string>>
    requires |clusterLabels| == |sentences|
    requires IsEnumeration(order, Elems(clusterLabels))
  {
    if sentences == [] then map[]
    else
      AssembleIntents(order, Groups(sentences, clusterLabels),
                      Representatives(sentences, clusterLabels, stages), stages.summarize)
  }

  /** `classify_sentences`. Empty input returns no intents before any stage
      runs. Otherwise every intent is exactly one cluster's group of original
      sentences, and there are at most as many intents as distinct cluster ids
      (fewer when two clusters' summaries collide). */
  method ClassifySentences<E>(sentences: seq<string>, clusterLabels: seq<int>,
                              order: seq<int>, stages: Stages<E>)
    returns (intents: map<string, seq<string>>)
    requires |clusterLabels| == |sentences|
    requires IsEnumeration(order, Elems(clusterLabels))
    ensures sentences == [] ==> intents == map[]
    ensures intents == Classification(sentences, clusterLabels, order, stages)
    ensures |intents| <= |Elems(clusterLabels)|
    ensures forall s :: s in intents ==>
      exists c :: c in clusterLabels && intents[s] == Group(sentences, clusterLabels, c)
  {
    if sentences == [] {
      return map[];
    }

    var preprocessed := Preprocess.PreprocessSentences(sentences, stages.normalizer);
    var embeddings := Embeddings(preprocessed, stages.embed);
    var representatives := Labeling.GetLabels(sentences, embeddings, clusterLabels, order, stages.similarity);
    var clusters := GroupByCluster(sentences, clusterLabels);
    intents := CollectIntents(order, clusters, representatives, stages.summarize);

    assert preprocessed == NormalizeAll(sentences, stages.normalizer);
    RepresentativesAgree(sentences, clusterLabels, stages, representatives);
    EnumerationLength(order, Elems(clusterLabels));
    IntentCount(order, clusters, representatives, stages.summarize);
    IntentsAreGroups(order, clusters, representatives, stages.summarize);
  }

  /** Representatives computed from the normalized corpus, one per distinct
      cluster id, are the ones `Representatives` describes. */
  lemma RepresentativesAgree<E>(sentences: seq<string>, clusterLabels: seq<int>, stages: Stages<E>,
                                representatives: map<int, string>)
    requires |clusterLabels| <= |sentences|
    requires representatives.Keys == Elems(clusterLabels)
    requires forall c :: c in representatives ==>
      representatives[c] == Labeling.Representative(sentences,
        Embeddings(NormalizeAll(sentences, stages.normalizer), stages.embed), clusterLabels, c, stages.similarity)
    ensures representatives == Representatives(sentences, clusterLabels, stages)
  {
    MapsAgree(representatives, Representatives(sentences, clusterLabels, stages));
  }

  /** The grouping loop of `classify_sentences`: start with an empty list per
      distinct id, then append every sentence, in input order, to the list of
      its own id. */
  method GroupByCluster(sentences: seq<string>, clusterLabels: seq<int>)
    returns (clusters: map<int, seq<string>>)
    requires |clusterLabels| <= |sentences|
    ensures clusters == Groups(sentences, clusterLabels)
  {
    clusters := map c | c in Elems(clusterLabels) :: [];
    for i := 0 to |clusterLabels|
      invariant clusters.Keys == Elems(clusterLabels)
      invariant forall c :: c in clusters ==> clusters[c] == Group(sentences, clusterLabels[..i], c)
    {
      var clusterId := clusterLabels[i];
      assert clusterId in Elems(clusterLabels);
      GroupStep(sentences, clusterLabels, i);
      clusters := clusters[clusterId := clusters[clusterId] + [sentences[i]]];
    }
    assert clusterLabels[..|clusterLabels|] == clusterLabels;
  }

  /** The intents loop of `classify_sentences`: visit the ids in `order`
      and store each group under the summary of its representative, so that a
      later id overwrites an earlier one with the same summary. */
  method CollectIntents(order: seq<int>, clusters: map<int, seq<string>>,
                        representatives: map<int, string>, summarize: string -> string)
    returns (intents: map<string, seq<string>>)
    requires forall k :: 0 <= k < |order| ==> order[k] in clusters
    ensures intents == AssembleIntents(order, clusters, representatives, summarize)
  {
    intents := map[];
    for n := 0 to |order|
      invariant intents == AssembleIntents(order[..n], clusters, representatives, summarize)
    {
      var clusterId := order[n];
      var representativeSentence := if clusterId in representatives then representatives[clusterId] else NoRepresentative;
      var summary := summarize(representativeSentence);
      assert order[..n + 1][..n] == order[..n];
      intents := intents[summary := clusters[clusterId]];
    }
    assert order[..|order|] == order;
  }

  /** Appending sentence `i` to the group of its own cluster, and to no other,
      extends the grouping of the first `i` sentences to the first `i + 1`. */
  lemma GroupStep(sentences: seq<string>, clusterLabels: seq<int>, i: nat)
    requires |clusterLabels| <= |sentences| && i < |clusterLabels|
    ensures forall c :: (Group(sentences, clusterLabels[..i + 1], c) ==
      Group(sentences, clusterLabels[..i], c) + (if clusterLabels[i] == c then [sentences[i]] else []))
  {
    assert clusterLabels[..i + 1][..i] == clusterLabels[..i];
  }

  /** Sentence `i` lands in the group of its own cluster id, at the position of
      `i` among that cluster's indices, and in no other group. */
  lemma SentenceInOwnGroupOnly(sentences: seq<string>, clusterLabels: seq<int>, i: nat)
    requires |clusterLabels| <= |sentences| && i < |clusterLabels|
    ensures exists k :: (0 <= k < |IndicesOf(clusterLabels, clusterLabels[i])|
      && IndicesOf(clusterLabels, clusterLabels[i])[k] == i
      && Group(sentences, clusterLabels, clusterLabels[i])[k] == sentences[i])
    ensures forall c :: c != clusterLabels[i] ==> i !in IndicesOf(clusterLabels, c)
  {
    var idx := IndicesOf(clusterLabels, clusterLabels[i]);
    var k :| 0 <= k < |idx| && idx[k] == i;
  }

  /** The keys of the grouping are exactly the distinct cluster ids, every
      group is non-empty, and each group lists its members in input order. */
  lemma GroupsCoverIds(sentences: seq<string>, clusterLabels: seq<int>)
    requires |clusterLabels| <= |sentences|
    ensures Groups(sentences, clusterLabels).Keys == Elems(clusterLabels)
    ensures forall c :: c in Groups(sentences, clusterLabels) ==> Groups(sentences, clusterLabels)[c] != []
    ensures forall c :: c in Groups(sentences, clusterLabels) ==> Increasing(IndicesOf(clusterLabels, c))
  {
    forall c | c in Elems(clusterLabels) ensures Group(sentences, clusterLabels, c) != [] {
      IndicesOfNonEmpty(clusterLabels, c);
    }
  }

  /** The summed size of the groups listed in `order`. */
  function TotalSize(order: seq<int>, clusters: map<int, seq<string>>): nat
    requires forall k :: 0 <= k < |order| ==> order[k] in clusters
  {
    if order == [] then 0 else |clusters[order[0]]| + TotalSize(order[1..], clusters)
  }

  /** The number of sentences assigned to each id of `order`, summed. */
  function SumCounts(order: seq<int>, clusterLabels: seq<int>): nat
  {
    if order == [] then 0 else |IndicesOf(clusterLabels, order[0])| + SumCounts(order[1..], clusterLabels)
  }

  lemma {:induction false} SumCountsEmpty(order: seq<int>)
    ensures SumCounts(order, []) == 0
  {
    if order != [] {
      SumCountsEmpty(order[1..]);
    }
  }

  /** One more label adds one to the count of its own id, which `order` lists at most once. */
  lemma {:induction false} SumCountsAppend(order: seq<int>, clusterLabels: seq<int>, x: int)
    requires NoDup(order)
    ensures SumCounts(order, clusterLabels + [x]) == SumCounts(order, clusterLabels) + (if x in order then 1 else 0)
  {
    if order != [] {
      assert (clusterLabels + [x])[..|clusterLabels|] == clusterLabels;
      var rest := order[1..];
      assert NoDup(rest) by {
        forall i, j | 0 <= i < j < |rest| ensures rest[i] != rest[j] {
          assert rest[i] == order[i + 1] && rest[j] == order[j + 1];
        }
      }
      if order[0] == x {
        assert forall k :: 0 <= k < |rest| ==> rest[k] == order[k + 1] != order[0];
        assert x !in rest;
      } else {
        assert x in order <==> x in rest;
      }
      SumCountsAppend(rest, clusterLabels, x);
    }
  }

  /** Counting, over an enumeration of the ids, how many labels carry each id
      counts every clusterId once. */
  lemma {:induction false} SumCountsTotal(order: seq<int>, clusterLabels: seq<int>)
    requires NoDup(order)
    requires Elems(clusterLabels) <= Elems(order)
    ensures SumCounts(order, clusterLabels) == |clusterLabels|
  {
    if clusterLabels == [] {
      SumCountsEmpty(order);
    } else {
      var n := |clusterLabels| - 1;
      var p := clusterLabels[..n];
      var x := clusterLabels[n];
      assert clusterLabels == p + [x];
      assert x in Elems(clusterLabels);
      assert Elems(p) <= Elems(clusterLabels);
      SumCountsTotal(order, p);
      SumCountsAppend(order, p, x);
    }
  }

  lemma {:induction false} TotalSizeOfGroups(order: seq<int>, sentences: seq<string>, clusterLabels: seq<int>)
    requires |clusterLabels| <= |sentences|
    requires forall k :: 0 <= k < |order| ==> order[k] in Elems(clusterLabels)
    ensures TotalSize(order, Groups(sentences, clusterLabels)) == SumCounts(order, clusterLabels)
  {
    if order != [] {
      TotalSizeOfGroups(order[1..], sentences, clusterLabels);
    }
  }

  /** The groups form a partition of the input: their sizes add up to the
      number of sentences. */
  lemma GroupsPartition(sentences: seq<string>, clusterLabels: seq<int>, order: seq<int>)
    requires |clusterLabels| == |sentences|
    requires IsEnumeration(order, Elems(clusterLabels))
    ensures TotalSize(order, Groups(sentences, clusterLabels)) == |sentences|
  {
    assert forall k :: 0 <= k < |order| ==> order[k] in Elems(order);
    TotalSizeOfGroups(order, sentences, clusterLabels);
    SumCountsTotal(order, clusterLabels);
  }

  /** A summary is an intent exactly when some visited cluster produces it. */
  lemma {:induction false} IntentKeys(order: seq<int>, clusters: map<int, seq<string>>,
                                      representatives: map<int, string>, summarize: string -> string)
    requires forall k :: 0 <= k < |order| ==> order[k] in clusters
    ensures forall s :: s in AssembleIntents(order, clusters, representatives, summarize) <==>
      exists k :: 0 <= k < |order| && Label(representatives, summarize, order[k]) == s
  {
    if order != [] {
      var n := |order| - 1;
      var p := order[..n];
      IntentKeys(p, clusters, representatives, summarize);
      var last := Label(representatives, summarize, order[n]);
      var m := AssembleIntents(order, clusters, representatives, summarize);
      forall s | s in m
        ensures exists k :: 0 <= k < |order| && Label(representatives, summarize, order[k]) == s
      {
        if s != last {
          assert s in AssembleIntents(p, clusters, representatives, summarize);
          var k :| 0 <= k < |p| && Label(representatives, summarize, p[k]) == s;
          assert order[k] == p[k];
        }
      }
      forall s | exists k :: 0 <= k < |order| && Label(representatives, summarize, order[k]) == s
        ensures s in m
      {
        var k :| 0 <= k < |order| && Label(representatives, summarize, order[k]) == s;
        if k < n {
          assert p[k] == order[k];
          assert s in AssembleIntents(p, clusters, representatives, summarize);
        }
      }
    }
  }

  /** Every intent holds the group of the LAST visited cluster that produces
      its summary: later clusters overwrite earlier ones. */
  lemma {:induction false} LastClusterWins(order: seq<int>, clusters: map<int, seq<string>>,
                                           representatives: map<int, string>, summarize: string -> string)
    requires forall k :: 0 <= k < |order| ==> order[k] in clusters
    ensures forall s :: s in AssembleIntents(order, clusters, representatives, summarize) ==>
      exists k :: 0 <= k < |order| && Label(representatives, summarize, order[k]) == s
        && AssembleIntents(order, clusters, representatives, summarize)[s] == clusters[order[k]]
        && forall k' :: k < k' < |order| ==> Label(representatives, summarize, order[k']) != s
  {
    if order != [] {
      var n := |order| - 1;
      var p := order[..n];
      LastClusterWins(p, clusters, representatives, summarize);
      var last := Label(representatives, summarize, order[n]);
      var prev := AssembleIntents(p, clusters, representatives, summarize);
      var m := AssembleIntents(order, clusters, representatives, summarize);
      forall s | s in m
        ensures exists k :: (0 <= k < |order| && Label(representatives, summarize, order[k]) == s
          && m[s] == clusters[order[k]]
          && forall k' :: k < k' < |order| ==> Label(representatives, summarize, order[k']) != s)
      {
        if s == last {
          assert Label(representatives, summarize, order[n]) == s && m[s] == clusters[order[n]];
        } else {
          assert s in prev && m[s] == prev[s];
          LaterVisit(order, clusters, representatives, summarize, s);
        }
      }
    }
  }

  /** The step of `LastClusterWins` for a summary the final visit does not
      produce: the witness for the prefix is a witness for the whole order. */
  lemma LaterVisit(order: seq<int>, clusters: map<int, seq<string>>,
                   representatives: map<int, string>, summarize: string -> string, s: string)
    requires order != []
    requires forall k :: 0 <= k < |order| ==> order[k] in clusters
    requires Label(representatives, summarize, order[|order| - 1]) != s
    requires s in AssembleIntents(order[..|order| - 1], clusters, representatives, summarize)
    requires var p := order[..|order| - 1];
      exists k :: 0 <= k < |p| && Label(representatives, summarize, p[k]) == s
        && AssembleIntents(p, clusters, representatives, summarize)[s] == clusters[p[k]]
        && forall k' :: k < k' < |p| ==> Label(representatives, summarize, p[k']) != s
    ensures exists k :: (0 <= k < |order| && Label(representatives, summarize, order[k]) == s
      && AssembleIntents(order[..|order| - 1], clusters, representatives, summarize)[s] == clusters[order[k]]
      && forall k' :: k < k' < |order| ==> Label(representatives, summarize, order[k']) != s)
  {
    var n := |order| - 1;
    var p := order[..n];
    var k :| 0 <= k < |p| && Label(representatives, summarize, p[k]) == s
      && AssembleIntents(p, clusters, representatives, summarize)[s] == clusters[p[k]]
      && forall k' :: k < k' < |p| ==> Label(representatives, summarize, p[k']) != s;
    assert order[k] == p[k];
    forall k' | k < k' < |order| ensures Label(representatives, summarize, order[k']) != s {
      if k' < n { assert order[k'] == p[k']; }
    }
  }

  /** Every intent holds exactly one visited cluster's group; groups are never merged. */
  lemma IntentsAreGroups(order: seq<int>, clusters: map<int, seq<string>>,
                         representatives: map<int, string>, summarize: string -> string)
    requires forall k :: 0 <= k < |order| ==> order[k] in clusters
    ensures forall s :: s in AssembleIntents(order, clusters, representatives, summarize) ==>
      exists c :: c in order && AssembleIntents(order, clusters, representatives, summarize)[s] == clusters[c]
  {
    LastClusterWins(order, clusters, representatives, summarize);
    var m := AssembleIntents(order, clusters, representatives, summarize);
    forall s | s in m ensures exists c :: c in order && m[s] == clusters[c] {
      var k :| 0 <= k < |order| && m[s] == clusters[order[k]];
      assert order[k] in order;
    }
  }

  /** Two clusters visited in the order `a`, `b` whose summaries coincide give a
      single intent, holding the group of `b`. */
  lemma CollisionKeepsLater(a: int, b: int, clusters: map<int, seq<string>>,
                            representatives: map<int, string>, summarize: string -> string)
    requires a in clusters && b in clusters
    requires Label(representatives, summarize, a) == Label(representatives, summarize, b)
    ensures AssembleIntents([a, b], clusters, representatives, summarize) ==
      map[Label(representatives, summarize, b) := clusters[b]]
  {
    assert [a, b][..1] == [a];
    assert [a][..0] == [];
    assert AssembleIntents([a], clusters, representatives, summarize)
      == map[Label(representatives, summarize, a) := clusters[a]];
  }

  /** There are never more intents than visited clusters, and exactly as many
      when the clusters' labels are pairwise distinct. */
  lemma {:induction false} IntentCount(order: seq<int>, clusters: map<int, seq<string>>,
                                       representatives: map<int, string>, summarize: string -> string)
    requires forall k :: 0 <= k < |order| ==> order[k] in clusters
    ensures |AssembleIntents(order, clusters, representatives, summarize)| <= |order|
    ensures (forall i, j :: 0 <= i < j < |order| ==>
               Label(representatives, summarize, order[i]) != Label(representatives, summarize, order[j]))
            ==> |AssembleIntents(order, clusters, representatives, summarize)| == |order|
  {
    if order != [] {
      var n := |order| - 1;
      var p := order[..n];
      IntentCount(p, clusters, representatives, summarize);
      var prev := AssembleIntents(p, clusters, representatives, summarize);
      var last := Label(representatives, summarize, order[n]);
      if (forall i, j :: 0 <= i < j < |order| ==>
            Label(representatives, summarize, order[i]) != Label(representatives, summarize, order[j])) {
        IntentKeys(p, clusters, representatives, summarize);
        assert forall i, j :: 0 <= i < j < |p| ==>
          Label(representatives, summarize, p[i]) != Label(representatives, summarize, p[j]) by {
          forall i, j | 0 <= i < j < |p|
            ensures Label(representatives, summarize, p[i]) != Label(representatives, summarize, p[j])
          {
            assert p[i] == order[i] && p[j] == order[j];
          }
        }
        assert last !in prev by {
          forall k | 0 <= k < |p| ensures Label(representatives, summarize, p[k]) != last {
            assert p[k] == order[k];
          }
        }
      }
    }
  }

  /** A cluster id with no representative is labelled by summarizing the fixed
      fallback text. */
  lemma FallbackLabel(representatives: map<int, string>, summarize: string -> string, c: int)
    requires c !in representatives
    ensures Label(representatives, summarize, c) == summarize("No representative sentence")
  {
  }

  /** In a full run every cluster id has a representative, so the fallback is
      never summarized. */
  lemma EveryIdHasRepresentative<E>(sentences: seq<string>, clusterLabels: seq<int>, stages: Stages<E>, i: nat)
    requires |clusterLabels| <= |sentences| && i < |clusterLabels|
    ensures clusterLabels[i] in Representatives(sentences, clusterLabels, stages)
    ensures Label(Representatives(sentences, clusterLabels, stages), stages.summarize, clusterLabels[i]) ==
      stages.summarize(Representatives(sentences, clusterLabels, stages)[clusterLabels[i]])
  {
    assert clusterLabels[i] in Elems(clusterLabels);
  }
}
