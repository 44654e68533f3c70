/** The representative selector (`get_labels`): for every cluster id, the
    member sentence whose embedding is most similar to the cluster's centroid.
    Embeddings are values of an arbitrary type `E`; `similarity(members, e)`
    stands for the cosine similarity between the centroid of the member
    embeddings and the embedding `e`. */
module Labeling {
  import opened Collections
  import opened Text

  /** `np.argmax`: the position of the first maximum. */
  function ArgMax(xs: seq<real>): (k: nat)
    requires |xs| > 0
    ensures k < |xs|
    ensures forall j :: 0 <= j < |xs| ==> xs[j] <= xs[k]
    ensures forall j :: 0 <= j < k ==> xs[j] < xs[k]
  {
    if |xs| == 1 then 0
    else
      var k := ArgMax(xs[..|xs| - 1]);
      if xs[|xs| - 1] > xs[k] then |xs| - 1 else k
  }

  /** The similarities of a cluster's members to its centroid, in member order
      (`cosine_similarity([centroid], cluster_embeddings)`). */
  function MemberScores<E>(embeddings: seq<E>, clusterLabels: seq<int>, c: int,
                           similarity: (seq<E>, E) -> real): (r: seq<real>)
    requires |clusterLabels| <= |embeddings|
  {
    var members := Select(embeddings, IndicesOf(clusterLabels, c));
    seq(|members|, k requires 0 <= k < |members| => similarity(members, members[k]))
  }

  /** The score of sentence `j` as a candidate representative of cluster `c`. */
  function Score<E>(embeddings: seq<E>, clusterLabels: seq<int>, c: int,
                    similarity: (seq<E>, E) -> real, j: nat): real
    requires |clusterLabels| <= |embeddings| && j < |embeddings|
  {
    similarity(Select(embeddings, IndicesOf(clusterLabels, c)), embeddings[j])
  }

  /** The index of the representative of cluster `c`
      (`cluster_indices[closest_idx]`). */
  function ClosestMember<E>(embeddings: seq<E>, clusterLabels: seq<int>, c: int,
                            similarity: (seq<E>, E) -> real): (j: nat)
    requires |clusterLabels| <= |embeddings|
    requires c in clusterLabels
    ensures j < |clusterLabels| && clusterLabels[j] == c
  {
    var idx := IndicesOf(clusterLabels, c);
    IndicesOfNonEmpty(clusterLabels, c);
    idx[ArgMax(MemberScores(embeddings, clusterLabels, c, similarity))]
  }

  /** The representative sentence of cluster `c`, stripped. */
  function Representative<E>(sentences: seq<string>, embeddings: seq<E>, clusterLabels: seq<int>,
                             c: int, similarity: (seq<E>, E) -> real): string
    requires |clusterLabels| <= |sentences| && |clusterLabels| <= |embeddings|
    requires c in clusterLabels
  {
    Strip(sentences[ClosestMember(embeddings, clusterLabels, c, similarity)])
  }

  /** `get_labels`: one entry per distinct cluster id, holding the stripped
      sentence of that cluster's closest member. `order` is the order in which
      Python happens to iterate over `set(cluster_labels)`; every distinct id
      appears in it once. */
  method GetLabels<E>(sentences: seq<string>, embeddings: seq<E>, clusterLabels: seq<int>,
                      order: seq<int>, similarity: (seq<E>, E) -> real)
    returns (representatives: map<int, string>)
    requires |clusterLabels| <= |sentences| && |clusterLabels| <= |embeddings|
    requires IsEnumeration(order, Elems(clusterLabels))
    ensures representatives.Keys == Elems(clusterLabels)
    ensures forall c :: c in representatives ==>
      representatives[c] == Representative(sentences, embeddings, clusterLabels, c, similarity)
  {
    representatives := map[];
    for n := 0 to |order|
      invariant representatives.Keys == Elems(order[..n])
      invariant forall c :: c in representatives ==> c in clusterLabels
      invariant forall c :: c in representatives ==>
        representatives[c] == Representative(sentences, embeddings, clusterLabels, c, similarity)
    {
      var clusterId := order[n];
      assert clusterId in Elems(order);
      var sentence := SelectRepresentative(sentences, embeddings, clusterLabels, clusterId, similarity);
      representatives := representatives[clusterId := sentence];
      assert order[..n + 1] == order[..n] + [clusterId];
    }
    assert order[..|order|] == order;
  }

  /** One iteration of `get_labels`: gather the cluster's indices, score its
      members against the centroid, and take the stripped sentence of the
      first best-scoring member. */
  method SelectRepresentative<E>(sentences: seq<string>, embeddings: seq<E>, clusterLabels: seq<int>,
                                 clusterId: int, similarity: (seq<E>, E) -> real)
    returns (sentence: string)
    requires |clusterLabels| <= |sentences| && |clusterLabels| <= |embeddings|
    requires clusterId in clusterLabels
    ensures sentence == Representative(sentences, embeddings, clusterLabels, clusterId, similarity)
  {
    var clusterIndices := IndicesOf(clusterLabels, clusterId);
    IndicesOfNonEmpty(clusterLabels, clusterId);
    var closestIdx := ArgMax(MemberScores(embeddings, clusterLabels, clusterId, similarity));
    sentence := Strip(sentences[clusterIndices[closestIdx]]);
  }

  /** The representative is a member of its own cluster, scores at least as
      high as every other member, and strictly higher than every member that
      comes before it (the first maximum wins a tie). */
  lemma ClosestMemberIsFirstMax<E>(embeddings: seq<E>, clusterLabels: seq<int>, c: int,
                                   similarity: (seq<E>, E) -> real)
    requires |clusterLabels| <= |embeddings|
    requires c in clusterLabels
    ensures var j := ClosestMember(embeddings, clusterLabels, c, similarity);
      && j < |clusterLabels| && clusterLabels[j] == c
      && (forall i :: 0 <= i < |clusterLabels| && clusterLabels[i] == c ==>
            Score(embeddings, clusterLabels, c, similarity, i) <= Score(embeddings, clusterLabels, c, similarity, j))
      && (forall i :: 0 <= i < j && clusterLabels[i] == c ==>
            Score(embeddings, clusterLabels, c, similarity, i) < Score(embeddings, clusterLabels, c, similarity, j))
  {
    var idx := IndicesOf(clusterLabels, c);
    var xs := MemberScores(embeddings, clusterLabels, c, similarity);
    IndicesOfNonEmpty(clusterLabels, c);
    var a := ArgMax(xs);
    var j := idx[a];
    assert j == ClosestMember(embeddings, clusterLabels, c, similarity);
    ScoreAt(embeddings, clusterLabels, c, similarity, a);
    forall i | 0 <= i < |clusterLabels| && clusterLabels[i] == c
      ensures Score(embeddings, clusterLabels, c, similarity, i) <= Score(embeddings, clusterLabels, c, similarity, j)
      ensures i < j ==> Score(embeddings, clusterLabels, c, similarity, i) < Score(embeddings, clusterLabels, c, similarity, j)
    {
      assert i in idx;
      var m :| 0 <= m < |idx| && idx[m] == i;
      ScoreAt(embeddings, clusterLabels, c, similarity, m);
      if i < j {
        assert m < a;
      }
    }
  }

  /** The `m`-th member score is the score of the `m`-th member. */
  lemma ScoreAt<E>(embeddings: seq<E>, clusterLabels: seq<int>, c: int,
                   similarity: (seq<E>, E) -> real, m: nat)
    requires |clusterLabels| <= |embeddings|
    requires m < |IndicesOf(clusterLabels, c)|
    ensures m < |MemberScores(embeddings, clusterLabels, c, similarity)|
    ensures MemberScores(embeddings, clusterLabels, c, similarity)[m] ==
      Score(embeddings, clusterLabels, c, similarity, IndicesOf(clusterLabels, c)[m])
  {
  }

  /** A cluster with a single member is represented by that member's sentence, stripped. */
  lemma SingletonRepresentative<E>(sentences: seq<string>, embeddings: seq<E>, clusterLabels: seq<int>,
                                   similarity: (seq<E>, E) -> real, j: nat)
    requires |clusterLabels| <= |sentences| && |clusterLabels| <= |embeddings|
    requires j < |clusterLabels|
    requires forall i :: 0 <= i < |clusterLabels| && clusterLabels[i] == clusterLabels[j] ==> i == j
    ensures Representative(sentences, embeddings, clusterLabels, clusterLabels[j], similarity) == Strip(sentences[j])
  {
    SingletonIndices(clusterLabels, clusterLabels[j], j);
  }

  /** Every representative is the stripped sentence of a member of its own
      cluster, and carries no leading or trailing whitespace. */
  lemma RepresentativeFromOwnCluster<E>(sentences: seq<string>, embeddings: seq<E>, clusterLabels: seq<int>,
                                        c: int, similarity: (seq<E>, E) -> real)
    requires |clusterLabels| <= |sentences| && |clusterLabels| <= |embeddings|
    requires c in clusterLabels
    ensures var r := Representative(sentences, embeddings, clusterLabels, c, similarity);
      && (exists j :: 0 <= j < |clusterLabels| && clusterLabels[j] == c && r == Strip(sentences[j]))
      && IsStripped(r)
  {
    var j := ClosestMember(embeddings, clusterLabels, c, similarity);
    assert clusterLabels[j] == c;
  }
}
