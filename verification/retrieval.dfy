/**
 * Retrieval result shaping: the collection's nearest-first hits become the
 * chunk texts and their similarity scores `1 - distance`, in the same order.
 * Distances are modelled as exact reals, not as floating point.
 */
module Retrieval {
  import opened Collaborators

  function Similarity(distance: real): real {
    1.0 - distance
  }

  /** The similarity list: one score per distance, position by position. */
  function Similarities(distances: seq<real>): (sims: seq<real>)
    ensures |sims| == |distances|
    ensures forall i :: 0 <= i < |distances| ==> sims[i] == Similarity(distances[i])
  {
    if |distances| == 0 then []
    else [Similarity(distances[0])] + Similarities(distances[1..])
  }

  ghost predicate Ascending(xs: seq<real>) {
    forall i, j :: 0 <= i < j < |xs| ==> xs[i] <= xs[j]
  }

  ghost predicate Descending(xs: seq<real>) {
    forall i, j :: 0 <= i < j < |xs| ==> xs[i] >= xs[j]
  }

  /** Distance 0 scores 1, and a larger distance always scores strictly less. */
  lemma SimilarityAnchoredAndDecreasing(d1: real, d2: real)
    ensures Similarity(0.0) == 1.0
    ensures d1 < d2 <==> Similarity(d1) > Similarity(d2)
  {
  }

  /** Cosine distances in [0, 2] give similarities in [-1, 1]. */
  lemma SimilarityBounds(d: real)
    requires 0.0 <= d <= 2.0
    ensures -1.0 <= Similarity(d) <= 1.0
  {
  }

  /** Nearest-first hits come out most-similar-first, so no re-sorting is
      needed; and the converse holds as well. */
  lemma NearestFirstIsMostSimilarFirst(distances: seq<real>)
    ensures Ascending(distances) <==> Descending(Similarities(distances))
  {
  }

  /** Scores determine distances: converting back recovers the input. */
  lemma SimilaritiesInvertible(distances: seq<real>)
    ensures Similarities(Similarities(distances)) == distances
  {
  }

  /** What `retrieve_relevant_chunks` returns: chunk texts and their scores. */
  datatype Retrieved = Retrieved(chunks: seq<string>, similarities: seq<real>)

  function Documents(hits: seq<Hit>): (docs: seq<string>)
    ensures |docs| == |hits|
  {
    seq(|hits|, i requires 0 <= i < |hits| => hits[i].document)
  }

  function Distances(hits: seq<Hit>): (ds: seq<real>)
    ensures |ds| == |hits|
  {
    seq(|hits|, i requires 0 <= i < |hits| => hits[i].distance)
  }

  /** `retrieve_relevant_chunks(query, model, collection, n)`: embeds the query,
      asks the collection for `n` hits, and pairs each returned chunk with its
      similarity, keeping the collection's order and length. */
  function RetrieveRelevantChunks(svc: Services, query: string, n: nat): (r: Retrieved)
    ensures var hits := svc.search(svc.embed(query), n);
      && |r.chunks| == |r.similarities| == |hits|
      && forall i :: 0 <= i < |hits| ==>
           r.chunks[i] == hits[i].document && r.similarities[i] == 1.0 - hits[i].distance
  {
    var hits := svc.search(svc.embed(query), n);
    Retrieved(Documents(hits), Similarities(Distances(hits)))
  }
}
