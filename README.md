# Steam game recommender: a Dafny model

The repository trains and serves an item-to-item game recommender built on the
Steam 200k behaviour log. Each line of the log is (user, game, behaviour, hours).
The model covers four parts:

- **The rating matrix** (`get_ratings_df`, `src/train.py:15-36`). The training
  script keeps the "play" rows. It divides each row's hours by the user's total
  play hours, and that total is taken before repeated rows are removed. It then
  blanks every repeated (user, game) row but the first, drops the undefined
  rows, and pivots to a game x user matrix with missing cells set to 0.
- **The game catalog** (`src/train.py:65`). These are the distinct game ids of
  the whole log, in order of first appearance.
- **The recommender object** (`RecommenderSystem`, present in both
  `src/train.py:43-57` and `app/main.py:16-30`). `recommend_items` ranks the
  queried game's similarity column best first, drops the game itself and keeps
  the first `n`. An unknown game gets a message string instead. `list_games`
  returns the catalog.
- **The catalog search** of the web application (`app/main.py:109-111`). It
  keeps the catalog entries whose lower-cased name contains the lower-cased
  pattern.

The files are:

- `collections.dfy` (module `Collections`) holds order-preserving filtering and
  the first-appearance `unique` of a sequence.
- `train.dfy` (module `Train`) holds the training script. `get_ratings_df` is an
  imperative method over an array that stands for the play frame. The blanked
  rows of the deduplication pass are `None`, and a 0/0 rating is `NaN`. The
  method is proved equal to `RatingsMatrix`, a specification function. The
  properties of the matrix are proved as lemmas about that function.
- `recommender.dfy` (module `Recommender`) holds the recommender object. Its
  fields are set once and never updated, so it is an immutable value. The
  similarity table is an input, a map from column label to (row label ->
  score).
- `app.dfy` (module `App`) holds the search filter.

Hours, totals and ratings are `real`, so every division and sum is exact.

pandas' default `sort_values` does not promise an order for equal scores, so
the model leaves that order open and states only that scores never increase.

## Model

| member | source | states |
|---|---|---|
| Collections.Filter | app/main.py:111 | boolean-mask selection keeps exactly the elements that satisfy the mask and never lengthens the sequence |
| Train.PlayEvents | src/train.py:16 | exactly the log rows whose behaviour is "play" are kept |
| Train.PlayEventsMultiplicity | src/train.py:16 | each play row is kept as many times as it occurs in the log, and any other row never |
| Train.PlayEventsConcat | src/train.py:16 | the filter works row by row in log order: filtering a concatenation concatenates the filtered parts |
| Train.PlayEventsSingle | src/train.py:16 | a single row is kept exactly when its behaviour is "play" |
| Train.UserTotalSingle | src/train.py:17 | a one-row log totals that row's hours for the row's user and 0 for any other user; with `Train.UserTotalConcat` this makes the total the groupby sum of the user's hours |
| Train.UserTotalConcat | src/train.py:17 | the per-user sum of hours over a log made of two parts is the sum of the parts' totals |
| Train.OtherUsersTotal | src/train.py:17 | only a user's own rows count in that user's total, so a user with no rows totals 0 |
| Train.NonNegativeTotal | src/train.py:17 | with no negative hours in the log no user's total is negative |
| Train.RatingOf | src/train.py:21 | `hours / total` is NaN exactly when the total is 0, is the quotient hours / total otherwise, and lies in [0, 1] when 0 <= hours <= total |
| Train.Rated | src/train.py:19-21 | after the merge and the division there is one row per play event, with the event's user and game, and its rating is NaN exactly when that user's total is 0 and otherwise the event's hours divided by that user's total over all play rows |
| Train.NonPlayIgnored | src/train.py:16 | inserting a row whose behaviour is not "play" anywhere in the log leaves the rating matrix unchanged |
| Train.RatingsSumToOne | src/train.py:17-21 | a user's ratings over all their play rows, repeats included, sum to exactly 1 when the user's total is not 0 |
| Train.RatingInUnitInterval | src/train.py:17-21 | a row's rating is NaN exactly when its user's total is 0; with non-negative hours every defined rating lies in [0, 1] |
| Train.UsersWithDuplicates | src/train.py:24-29 | the loop over the distinct users returns exactly the users who repeat a game, each once, in order of first appearance in the frame |
| Train.DropUserDuplicates | src/train.py:31-33 | blanking one user's rows whose game was already seen turns the frame into the partly deduplicated frame that also covers that user, and leaves the other rows alone |
| Train.DropDuplicates | src/train.py:30-33 | after the overwrite loop over the users with repeats, the frame is the deduplicated frame: every repeated (user, game) row is blanked and every other row is kept |
| Train.Deduplicated | src/train.py:30-33 | the overwrite keeps the frame's length and no row is partly changed: each is kept as it was or blanked whole |
| Train.DeduplicatedUniqueKeys | src/train.py:23-33 | after deduplication no two remaining rows share a (user, game) pair |
| Train.DeduplicatedKeepsFirst | src/train.py:30-33 | every (user, game) pair of the frame survives in the row of its first occurrence, with that row's rating unchanged |
| Train.DeduplicatedSparesOtherUsers | src/train.py:28-33 | the rows of a user who never repeats a game are left untouched |
| Train.DeduplicatedSum | src/train.py:30-33 | after deduplication a user's remaining ratings sum to the sum over all their rows minus the sum over their repeated rows |
| Train.DropNa | src/train.py:34 | exactly the present rows with a defined rating are kept, and pairs that were unique stay unique |
| Train.DropNaSum | src/train.py:34 | dropping the undefined rows does not change a user's sum of defined ratings |
| Train.CellValue | src/train.py:35 | a cell holds the rating of the row with that (game, user) pair, or 0 when there is none |
| Train.RowOf | src/train.py:35 | a row of the pivot has one cell per user column, holding that user's rating of the game or 0 |
| Train.Pivot | src/train.py:35 | the matrix has one row per game and, in every row, one column per user of the remaining rows; each row's rating sits in its cell and every other cell is 0 |
| Train.RatingEntries | src/train.py:15-34 | the rows that reach the pivot are exactly the first row of each (user, game) pair whose user's total is not 0, with rating hours / total; no pair occurs twice |
| Train.SurvivingRatingsShare | src/train.py:17-34 | a user's ratings that reach the pivot sum to 1 minus the ratings of their discarded repeats, because the total was taken before deduplication |
| Train.SurvivingRatingsSumToOne | src/train.py:17-34 | for a user with a non-zero total and no repeated game, the ratings that reach the pivot sum to exactly 1 (`Train.Pivot` then puts each in its own cell) |
| Train.MatrixHoldsFirstRating | src/train.py:15-35 | the cell of the first play row of a pair whose user's total is not 0 holds hours / total |
| Train.MatrixRows | src/train.py:35 | a game has a matrix row exactly when some play row of it belongs to a user whose total is not 0 |
| Train.MatrixColumns | src/train.py:35 | a user has a column, in every row, exactly when the user has a play row and a non-zero total |
| Train.MatrixCellOrigin | src/train.py:15-35 | a non-zero cell holds hours / total of the first play row of its (game, user) pair |
| Train.PivotZeroFill | src/train.py:35 | `fillna(0)`: a pivot cell whose (game, user) pair no remaining row holds is 0 |
| Train.MatrixZeroFill | src/train.py:35 | a cell whose (game, user) pair has no play row is 0 |
| Train.TwoGamesExample | src/train.py:15-36 | a user with 10 hours on A, 30 hours on B and a purchase row gets 0.25 for A and 0.75 for B |
| Train.RepeatedRowExample | src/train.py:17-33 | when A is played twice, for 10 and 30 hours, only the first row is kept and its rating is 10/40 = 0.25 |
| Train.RatingsMatrix | src/train.py:15-36 | the matrix `get_ratings_df` returns, as a function of the raw log; every row has the same user columns |
| Train.GetRatingsDf | src/train.py:15-36 | the imperative pipeline (filter, rate, find the users with repeats, blank the repeats in place, dropna, pivot) returns the matrix `RatingsMatrix` specifies |
| Train.Catalog | src/train.py:65 | the catalog has no duplicates, holds every game id of the log whatever its behaviour and nothing else, and lists them in order of first appearance |
| Collections.Distinct | src/train.py:65 | `unique` has no duplicates, keeps exactly the elements of its input and orders them by first appearance |
| Recommender.Build | src/train.py:65-66 | the stored game list is the catalog of the log: no duplicates, exactly the game ids of the log, in order of first appearance |
| Recommender.SortDescending | app/main.py:23 | the sorted column lists every label once, each with its own score, and scores never increase |
| Recommender.DropLabel | app/main.py:24 | `drop` keeps exactly the entries whose label is not the dropped one; it is `Collections.Filter` on that mask, so it keeps their order and multiplicity |
| Recommender.DropLabelKeepsOrder | app/main.py:24 | `drop` keeps a descending series descending and its labels distinct |
| Recommender.DropLabelLength | app/main.py:24 | `drop` of an absent label changes nothing, and of a label present once removes exactly one entry |
| Recommender.Head | app/main.py:25 | `head(n)` is the prefix of length min(n, length) |
| Recommender.RankingOfOthers | app/main.py:23-24 | after the sort and the drop, the series ranks every other label of the column exactly once, best first, without the queried game |
| Recommender.HeadIsTop | app/main.py:25 | the first n entries of such a ranking are a top-n list: no omitted label scores above an included one |
| Recommender.RankingHead | app/main.py:23-25 | the sort, drop and head chain yields min(n, others) entries: other labels with their scores, each once, non-increasing, none omitted that beats one included |
| Recommender.RecommendItems | src/train.py:48-54 | the message "Item <id> not found in the dataset." comes back exactly when the game is not a column of the table or is missing from its own column; otherwise a top-n list of the other games |
| Recommender.ListGames | app/main.py:29-30 | the stored catalog is returned unchanged, in the same order |
| App.LowerChar | app/main.py:109 | a character is lower case afterwards; an ASCII capital moves to its small letter and anything else is unchanged |
| App.Lower | app/main.py:109-111 | the string keeps its length, has no ASCII capitals afterwards, and only its capitals change |
| App.LowerIdempotent | app/main.py:109-111 | lower-casing twice is lower-casing once |
| App.SearchGames | app/main.py:109-111 | a catalog entry is in the result exactly when its lower-cased name contains the lower-cased pattern |
| App.SearchEmptyPattern | app/main.py:109-111 | the empty pattern returns the whole catalog |
| App.SearchCaseInsensitive | app/main.py:109-111 | a pattern and its lower-cased form find the same entries |
| App.SearchNarrowing | app/main.py:109-111 | a longer pattern that contains a shorter one finds a subset of what the shorter one finds |
| App.SearchKeepsCatalogOrder | app/main.py:110-111 | over a catalog without repeats, the matches are distinct and in catalog order |
| App.SearchMultiplicity | app/main.py:110-111 | a matching entry comes back as often as the catalog lists it, and a non-matching one never |

## Left out

- Loading the CSV log (`get_steam_data`, `src/train.py:6-14`) is file I/O. The log is an input sequence of events here.
- The cosine similarity (`get_similarity`, `src/train.py:38-41`) is numerical library code. The similarity table is an input map.
- Pickling with joblib (`src/train.py:45-46, 62, 66, 72`; `app/main.py:18-19, 35`) is foreign serialisation. The object's fields are given values.
- The FastAPI routes and the HTML they build (`app/main.py:12-13, 38-195`) are left out. This includes the `/recommend` handler, which calls `.keys()` on the not-found message and fails there.
- Train.RatingOf: the model treats every zero total as NaN. A zero total with non-zero hours needs negative hours in the log. pandas then yields an infinite rating, which `dropna` keeps. The model drops that row instead.
- Floating-point rounding is not modelled. Hours and ratings are exact reals, so the sums are exactly 1 only in that setting.
- Recommender.SortDescending: the order of equal scores is left open, like pandas' default sort. Because of that the sort, and with it `RecommendItems`, is a ghost function: it specifies the result and does not compute one tie order.
- Recommender.RecommendItems: `n` is a natural number. A negative `n`, where pandas' `head` drops entries from the end, is not modelled.
- App.SearchGames: `str.contains` reads its pattern as a regular expression. The model requires a pattern without regular-expression syntax and tests plain substring containment.
- App.Lower: only ASCII capitals are lower-cased. The Unicode case mappings of `str.lower` are not modelled.
- The row and column order of the pivot is not modelled. The matrix is a map from game to (user -> rating).
- The pandas column bookkeeping is not modelled: the merge, the renames and drops of columns, and the float type the user column takes after the overwrite with missing values. The model carries the user, game and rating of each row and nothing else.
