/**
 `recommend(movie)`: resolve the title to a position, rank that position's
 similarity row, keep the slice [1:6] of the ranking and map each kept
 position back to its title and poster.
 */
module Recommender {
  import opened Wrappers
  import opened Catalog
  import opened Ranking

  /** The similarity matrix: row q holds the score of every position against position q. */
  type Similarity = seq<seq<Score>>

  /** A poster image URL, or the placeholder URL the poster service falls back to. */
  type Url = string

  /** The loaded data: the matrix is N by N, where N is the number of movies. */
  predicate Loaded(movies: Table, similarity: Similarity)
  {
    && |similarity| == |movies|
    && forall q :: 0 <= q < |similarity| ==> |similarity[q]| == |movies|
  }

  /**
   The positions `recommend` shows for `query`, in display order: nothing when
   no title matches (the IndexError branch), otherwise the picks of the first
   matching position's row.
   */
  function Selection(movies: Table, similarity: Similarity, query: string): (r: seq<nat>)
    requires Loaded(movies, similarity)
    ensures forall k :: 0 <= k < |r| ==> r[k] < |movies|
    ensures |r| <= 5
    ensures Resolve(movies, query).None? ==> r == []
    ensures Resolve(movies, query).Some? ==> |r| == Min(5, |movies| - 1)
  {
    match Resolve(movies, query)
    case None => []
    case Some(q) => Picks(similarity[q])
  }

  /**
   The loop of `recommend`: one title and one poster per selected position, in
   ranked order, so that entry k of both lists describes the same movie.
   `fetchPoster` stands for the poster service.
   */
  method Recommend(movies: Table, similarity: Similarity, fetchPoster: MovieId -> Url, query: string)
    returns (names: seq<string>, posters: seq<Url>)
    requires Loaded(movies, similarity)
    ensures |names| == |posters| == |Selection(movies, similarity, query)| <= 5
    ensures forall k :: 0 <= k < |names| ==>
      var movie := movies[Selection(movies, similarity, query)[k]];
      names[k] == movie.title && posters[k] == fetchPoster(movie.movieId)
    ensures names == [] <==> Resolve(movies, query).None? || |movies| == 1
  {
    var picks := Selection(movies, similarity, query);
    names, posters := [], [];
    var k := 0;
    while k < |picks|
      invariant k <= |picks|
      invariant |names| == |posters| == k
      invariant forall j :: 0 <= j < k ==>
        names[j] == movies[picks[j]].title && posters[j] == fetchPoster(movies[picks[j]].movieId)
    {
      var movie := movies[picks[k]];
      names := names + [movie.title];
      posters := posters + [fetchPoster(movie.movieId)];
      k := k + 1;
    }
  }

  /**
   When the matched movie scores strictly highest against itself, it is not among
   its own recommendations.
   */
  lemma SelectionOmitsQuery(movies: Table, similarity: Similarity, query: string, q: nat)
    requires Loaded(movies, similarity)
    requires Resolve(movies, query) == Some(q)
    requires forall p :: 0 <= p < |movies| && p != q ==> similarity[q][p] < similarity[q][q]
    ensures q !in Selection(movies, similarity, query)
  {
  }

  /**
   Four movies A, B, C, D whose row for A is [1.0, 0.9, 0.9, 0.1]: A is the head
   and is dropped, B and C tie and keep table order, and D comes last.
   */
  lemma TieKeepsTableOrder(similarity: Similarity)
    requires |similarity| == 4
    requires similarity[0] == [1.0, 0.9, 0.9, 0.1]
    requires forall q :: 0 <= q < 4 ==> |similarity[q]| == 4
    ensures Selection([Movie(0, "A"), Movie(1, "B"), Movie(2, "C"), Movie(3, "D")], similarity, "A") == [1, 2, 3]
  {
    var movies := [Movie(0, "A"), Movie(1, "B"), Movie(2, "C"), Movie(3, "D")];
    assert Resolve(movies, "A") == Some(0);
    var row := similarity[0];
    SelfExcludedWhenStrictMaximum(row, 0);
    var picks := Picks(row);
    assert |picks| == 3;
    assert forall k :: 0 <= k < 3 ==> picks[k] in {1, 2, 3};
    assert Ahead(At(row, picks[0]), At(row, picks[1]));
    assert Ahead(At(row, picks[1]), At(row, picks[2]));
  }

  /** A title absent from the table yields no recommendations at all. */
  lemma UnknownTitleRecommendsNothing(similarity: Similarity)
    requires |similarity| == 4
    requires forall q :: 0 <= q < 4 ==> |similarity[q]| == 4
    ensures Selection([Movie(0, "A"), Movie(1, "B"), Movie(2, "C"), Movie(3, "D")], similarity, "Z") == []
  {
  }
}
