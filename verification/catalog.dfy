/**
 The movie table: rows of (movie id, title) addressed by position, and the
 title lookup `movies[movies['title'] == movie].index[0]` of `recommend`.
 */
module Catalog {
  import opened Wrappers

  /** The external TMDB identifier handed to the poster service. */
  type MovieId = int

  /** One row of the movie table. */
  datatype Movie = Movie(movieId: MovieId, title: string)

  /** The movie table in stored order; the row at position p carries the label p. */
  type Table = seq<Movie>

  /** Strictly ascending positions. */
  predicate Ascending(s: seq<nat>)
  {
    forall i, j :: 0 <= i < j < |s| ==> s[i] < s[j]
  }

  /**
   The boolean-mask filter `movies['title'] == query`, restricted to positions
   `from` and later: every matching position, each once, in table order.
   */
  function MatchesFrom(movies: Table, query: string, from: nat): (r: seq<nat>)
    requires from <= |movies|
    ensures Ascending(r)
    ensures forall k :: 0 <= k < |r| ==> from <= r[k] < |movies| && movies[r[k]].title == query
    ensures forall p :: from <= p < |movies| && movies[p].title == query ==> p in r
    decreases |movies| - from
  {
    if from == |movies| then []
    else if movies[from].title == query then [from] + MatchesFrom(movies, query, from + 1)
    else MatchesFrom(movies, query, from + 1)
  }

  /** The index of the filtered frame: all positions whose title is exactly `query`. */
  function Matches(movies: Table, query: string): seq<nat>
  {
    MatchesFrom(movies, query, 0)
  }

  /**
   `.index[0]` of the filtered frame: the first matching position, or None where
   the source raises IndexError on an empty index.
   */
  function Resolve(movies: Table, query: string): (r: Option<nat>)
    ensures r.Some? ==> r.value < |movies| && movies[r.value].title == query
    ensures r.Some? ==> forall p :: 0 <= p < r.value ==> movies[p].title != query
    ensures r.None? <==> forall p :: 0 <= p < |movies| ==> movies[p].title != query
  {
    var m := Matches(movies, query);
    if |m| == 0 then None
    else
      Some(m[0])
  }
}
