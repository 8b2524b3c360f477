# Cinematch recommendation lookup, modelled in Dafny

The Cinematch app shows five movies similar to a title the user picks. Its
logic lives in `recommend`. It finds the first row of the movie table whose
title is exactly the query. It takes that row of the precomputed similarity
matrix and enumerates it into (position, score) pairs. Python's stable `sorted`
orders them by descending score. The slice `[1:6]` drops the first-ranked pair,
which is expected to be the movie itself, and keeps the next five. Each kept
position becomes a title and a poster URL. A title that matches no row raises
`IndexError`, and `recommend` catches it and returns two empty lists.

The model has four modules:

- `Wrappers` (`wrappers.dfy`): `Option` and `Min`.
- `Catalog` (`catalog.dfy`): the movie table and the title lookup. `MatchesFrom` is the boolean-mask
  filter. `Resolve` is its `.index[0]`, with `None` in place of the `IndexError`.
- `Ranking` (`ranking.dfy`): `enumerate`, the stable descending sort (an
  insertion sort, `SortDescending`), the ranking `Rank`, the `[1:6]` window
  `Picks`, and the first-ranked position `Head`.
- `Recommender` (`recommender.dfy`): `Selection` joins lookup and ranking.
  `Recommend` is the loop that builds the two aligned lists. The poster service
  is the parameter `fetchPoster`, a total function.

Scores are `real`, because only their order matters. The ranking order is the
predicate `Ranking.Ahead`. An entry is ahead of another when its score is
higher, or when the scores are equal and its position is smaller. Stability
means exactly this, because `enumerate` lists positions in ascending order.

The code drops the head of the ranking, not the query's own position.
`Ranking.SelfExcludedWhenStrictMaximum` shows that the query is excluded when
its self-score is strictly highest in its row. `Ranking.QueryKeptOnTopTie`
shows a row where it is not excluded: an earlier position
ties with the query at the top, so that position is dropped and the query is
recommended to itself.

## Model

| member | source | states |
|---|---|---|
| Catalog.MatchesFrom | app.py:51 | the title mask yields every position whose title equals the query, each exactly once, in ascending table order, and nothing else |
| Catalog.Resolve | app.py:51 | the lookup gives the smallest position whose title equals the query. It gives None (the IndexError case) exactly when no title matches |
| Ranking.Enumerate | app.py:53 | `list(enumerate(distances))` has one entry per position, positions strictly ascending, each with its own score, covering every position |
| Ranking.Window | app.py:53 | Python's slice `s[lo:hi]`: its length is min(hi, len) - lo, or zero when that is not positive, and entry k is `s[lo + k]` |
| Ranking.Insert | app.py:53 | inserting an entry into a ranking adds that entry and keeps the rest, as a multiset |
| Ranking.SortDescending | app.py:53 | the sort is a permutation of its input |
| Ranking.InsertRanked | app.py:53 | inserting an entry whose position precedes every position of a ranked sequence keeps the sequence ranked |
| Ranking.SortRanked | app.py:53 | stability: sorting entries whose positions ascend yields descending score, with ties in ascending position |
| Ranking.RankIsPermutation | app.py:53 | any reordering of `enumerate(row)` has length N, pairs each position with its own score, and misses no position |
| Ranking.Rank | app.py:53 | the ranking of a row is a permutation of positions 0..N-1. Each is paired with its score, the order is descending by score with ties by ascending position, and no position repeats |
| Ranking.Head | app.py:53 | the first-ranked position is in range and ranks ahead of every other position: highest score, earliest among equals |
| Ranking.Picks | app.py:53 | the slice keeps min(5, N-1) positions for N >= 1 (none for N = 0). They are in range and pairwise distinct, any two are in ranking order, and the first-ranked position is never among them |
| Ranking.PicksFollowRank | app.py:53 | pick k is the position ranked k + 1: the slice `[1:6]` skips the first-ranked entry and keeps the ones after it in order |
| Ranking.PicksNonIncreasing | app.py:53 | adjacent picks have non-increasing scores, and equal scores appear in ascending position |
| Ranking.PicksAreBest | app.py:53 | any position other than the head that is not picked ranks behind every pick: the picks are the best five after the head |
| Ranking.SelfExcludedWhenStrictMaximum | app.py:52-53 | when the query's self-score beats every other score of its row, the query is not picked |
| Ranking.QueryKeptOnTopTie | app.py:53 | in the row [1.0, 1.0] of position 1, position 0 is dropped and the query position 1 is the one pick |
| Recommender.Selection | app.py:50-53 | the shown positions are in range and at most five. There are none when the title is unknown, and min(5, N-1) when it resolves |
| Recommender.Recommend | app.py:55-63 | names and posters have equal length, at most five. Entry k of each describes the k-th selected movie in ranked order. Both are empty exactly when the title is unknown or the table has one movie |
| Recommender.SelectionOmitsQuery | app.py:51-53 | a resolved movie whose self-score is strictly highest in its row is not among its own recommendations |
| Recommender.TieKeepsTableOrder | app.py:51-53 | with titles A, B, C, D and A's row [1.0, 0.9, 0.9, 0.1], the recommendations for A are B, C, D in that order |
| Recommender.UnknownTitleRecommendsNothing | app.py:62-63 | a title absent from the table yields the empty selection |

## Left out

- `fetch_poster` (app.py:26-46) calls the TMDB API over HTTP and reads a secret. It is the total function parameter `fetchPoster`. Its fallback from errors to placeholder URLs is exception plumbing inside it.
- `local_css` and the page configuration (app.py:7-23) are file I/O and page setup.
- Data loading (app.py:66-73) unpickles files from disk. It is the precondition `Recommender.Loaded`: the matrix is N by N, where N is the number of movies. Since that precondition holds, the `IndexError` that `movies.iloc` would raise for a position past the table is not modelled.
- The page rendering (app.py:76-99) only displays results. `Recommender.Recommend` states the bound of five that its five columns rely on.
- Catalog.Resolve assumes the frame has its default index, where the label of each row equals its position. `.index[0]` returns a label, and the model treats that label as the row's position.
- The number of recommendations is fixed by the slice `[1:6]`; nothing parameterises it.
- Floating-point scores (NaN, rounding) are not modelled. Scores are real numbers under their usual total order.
