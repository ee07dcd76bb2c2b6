# Minesweeper annotator and genre ranking, in Dafny

This project models the two in-memory pieces of the TechnicalChallenge
repository and proves what they compute.

- **Board annotator** (`minesweeper.py`). `create_sanitize_board` checks that
  every cell is 0 or 1 and turns each 1 into the mine marker 9.
  `count_mines` counts the mines among the up to eight in-bounds neighbours
  of a cell. `create_counted_board` rejects boards whose rows differ in
  length. It then keeps each 9 and replaces every other cell with its count.
  Module `Minesweeper` (`minesweeper.dfy`) holds the model. Errors are a
  `Result`: `InvalidBoard` stands for `ValueError` and `OutOfBounds` for
  `IndexError`.
- **Genre ranking**. `best_in_genre` (`movies.py`) and the filter/reduce
  lines of `movies_poo.py` keep the series whose comma-separated genre field
  lists the requested genre. They then fold the list down to the record with
  the smallest key `(-rating, name)`: the highest rating first, then the
  alphabetically first name, then the earliest position. The modules are:
  - `Records` (`records.dfy`): the raw JSON record. Each field is either
    absent or holds a value of its expected type.
  - `Text` (`text.dfy`): `str.split(", ")`, `", ".join` and ASCII `str.lower`.
  - `Ranking` (`ranking.dfy`): the filter comprehension and the
    `functools.reduce` fold, both generic. It also holds Python's string and
    tuple order.
  - `Movies` (`movies.dfy`): the case-insensitive variant of `movies.py`.
    It has defaults for missing fields and the "not found" sentinel.
    `SortKey` is the tuple of movies.py:74, and `DisplayName` is the
    `get('name', 'Unknown')` of movies.py:78.
  - `MoviesPoo` (`movies_poo.dfy`): the `Movie` tuple, the exact-match
    filter and the reduction without a fallback. `MovieKey` is the tuple of
    movies_poo.py:41.

The modelled parts of all three files are pure list transformations, so the
whole model is functions and lemmas. The paging loops that fetch the records
are I/O and are left out. The `Movies` object of `movies_poo.py` sets `_movies`
once in `__init__` and never changes it. It is therefore modelled as the
list value that `LoadMovies` returns.

Where the code and its prose description differ, the model follows the code:

- `create_sanitize_board` does not check that the board is rectangular.
  Ragged boards of 0s and 1s are accepted and come back ragged.
- `count_mines` takes its column bound from the first row only. On a ragged
  board, a neighbour in a shorter row passes the bounds test, and reading it
  raises `IndexError`. The model returns `OutOfBounds` in that case.
- An empty board passes `create_counted_board` and gives `[]`.
- The page loop never stops at `total_pages`. That loop is not modelled.

## Model

| member | source | states |
|---|---|---|
| `Minesweeper.Sanitize` | minesweeper.py:18-21 | Fails with `InvalidBoard` exactly when some cell is not 0 or 1. Otherwise the shape is kept, 1 becomes 9, 0 stays 0, and the result holds only 0s and 9s. |
| `Minesweeper.SanitizeKeepsMinePositions` | minesweeper.py:21 | The mines of the sanitised board are exactly the input's 1s, and its empty cells are exactly the input's 0s. |
| `Minesweeper.SanitizeAcceptsRagged` | minesweeper.py:18 | A ragged 0/1 board is accepted and returned with its ragged shape. |
| `Minesweeper.CountMines` | minesweeper.py:38-46 | Succeeds exactly when `(i, j)` lies in `[0, rows) x [0, len(board[0]))` and every neighbour that passes the bounds test can be read; otherwise `OutOfBounds`, always so on an empty board. A count is at most 8. |
| `Minesweeper.RectangularIsReadable` | minesweeper.py:38-46 | On a rectangular board every neighbour that passes the bounds test can be read, so `count_mines` fails only outside the grid. |
| `Minesweeper.CountFromIsCardinality` | minesweeper.py:44-46 | The sum over the offsets from position `k` on equals the number of distinct mine cells those offsets reach. |
| `Minesweeper.CountMinesIsNeighbourMines` | minesweeper.py:39-46 | The count equals the number of mines among the in-bounds cells at distance one in each direction. The cell itself is never among them. |
| `Minesweeper.SingleMine` | minesweeper.py:39-46 | On a rectangular board with a single mine, a cell adjacent to the mine counts 1 and every other non-mine cell counts 0. |
| `Minesweeper.Annotate` | minesweeper.py:61-67 | Fails with `InvalidBoard` exactly when row lengths differ. Otherwise the shape is kept, a 9 stays 9, and every other cell becomes its `count_mines`. An output cell is 9 exactly when the input cell is 9. Every output cell is between 0 and 9. |
| `Minesweeper.AnnotateRejectsRagged` | minesweeper.py:61-63 | The ragged board that sanitising lets through is rejected by annotation. |
| `Minesweeper.AnnotateAllZero` | minesweeper.py:65-67 | A rectangular all-zero board annotates to itself. |
| `Minesweeper.PipelineKeepsMines` | minesweeper.py:21-67 | On a rectangular 0/1 board both stages succeed, and the mines of the result are exactly the input's 1s. |
| `Minesweeper.ExampleSanitizes` | minesweeper.py:72 | The driver's board sanitises to mines at (0,1), (1,2), (2,1), (2,3), (3,0) and (3,1). |
| `Minesweeper.ExampleCounts` | minesweeper.py:72 | The driver's sanitised board annotates to `[[1,9,2,1],[2,3,9,2],[3,9,4,9],[9,9,3,1]]`. |
| `Text.Split` | movies.py:68 | `str.split(", ")` gives at least one piece, and the first piece is a prefix of the input. |
| `Text.JoinSplit` | movies_poo.py:21 | Joining the pieces with `", "` gives back the original genre string. |
| `Text.SplitPiecesHaveNoSeparator` | movies.py:68 | No piece contains `", "`: every occurrence was cut. |
| `Text.SplitWithoutSeparator` | movies.py:68 | A string without `", "` splits into itself alone. |
| `Text.LowerChar` | movies.py:68 | A folded character is never an upper-case ASCII letter. A capital becomes the small letter at the same place in the alphabet, and every other character is kept. |
| `Text.LowerCharSameIgnoringCase` | movies.py:68 | Two characters fold to the same character exactly when they are equal or are a capital and its own small letter. |
| `Text.Lower` | movies.py:68 | `str.lower` keeps the length. Each output character agrees with the input character up to case and is not a capital. |
| `Text.LowerSameIgnoringCase` | movies.py:68 | Two strings lower to the same string exactly when they have equal length and agree position by position up to case. |
| `Text.LowerIdempotent` | movies.py:68 | Lowering twice is lowering once. |
| `Ranking.LexLessTransitive` | movies.py:74 | Python's string `<` is transitive. |
| `Ranking.LexLessTotal` | movies.py:74 | Any two distinct strings are ordered by Python's string `<`. |
| `Ranking.KeyLess` | movies.py:74 | Tuple `<` on `(-rating, name)`: a smaller first component decides, a larger one rules it out, and with equal names only the first component counts. |
| `Ranking.Pick` | movies.py:74 | The `reduce` lambda returns one of its two arguments, whose key is no larger than either. On equal keys it keeps `best`. |
| `Ranking.Filter` | movies.py:68 | The comprehension keeps exactly the elements that pass the test. It is empty exactly when none passes, and it is never longer than its input. |
| `Ranking.FilterConcat` | movies.py:68 | Filtering a concatenation is concatenating the filtered parts, so the input order is kept. |
| `Ranking.Reduce` | movies.py:73-76 | The fold without an initial value returns an element of its non-empty input. |
| `Ranking.ReduceIsFirstMinimal` | movies.py:73-76 | The fold returns the element at the first position of the smallest `(-rating, name)` key. Every element has a key at least as large, and every earlier element a strictly larger one. |
| `Ranking.ReduceIsMinimal` | movies.py:74 | No element has a strictly smaller key than the fold's result. |
| `Ranking.ReduceKeyOrderIndependent` | movies.py:73-76 | Two lists with the same elements, in any order or repetition, give winners with the same key. |
| `Movies.BestInGenre` | movies.py:52-78 | With no matching record the result is the sentinel. Otherwise it is the display name of a matching record. |
| `Movies.FilterByGenre` | movies.py:68 | Keeps exactly the records whose `", "`-split genre (`"Unknown"` when missing) holds the genre, ignoring case. It is empty exactly when no record matches. |
| `Movies.FilterByGenreKeepsOrder` | movies.py:68 | The genre filter keeps the records' original order. |
| `Movies.MatchIgnoresCase` | movies.py:68 | Two queries that lower to the same string match the same records. |
| `Movies.MissingGenreIsUnknown` | movies.py:68 | A record without a genre matches exactly the queries that lower to `"unknown"`. |
| `Movies.NoMatchGivesSentinel` | movies.py:70-71 | With no matching record the result is "No TV series found for the given genre.", and nothing fails. |
| `Movies.BestInGenreIsTopRated` | movies.py:73-78 | With a match, the result is the display name of a matching record (`'Unknown'` when the name is missing). Its rating (0 when missing) is at least every matching rating. Among matching records of that rating, no name (`''` when missing) is alphabetically smaller. |
| `Movies.BestInGenreIsEarliest` | movies.py:73-78 | The result comes from the first filtered record of smallest key, so on equal keys the earlier record wins. |
| `Movies.BestInGenreOrderIndependent` | movies.py:68-76 | Reordering the input changes neither whether a match exists nor the winner's key. |
| `MoviesPoo.ToMovie` | movies_poo.py:21 | Fails exactly when a field is missing. Otherwise name and rating are copied. The genre becomes a non-empty list of labels that contain no `", "` and join back to the original string with `", "`, which is exactly its `split(", ")`. |
| `MoviesPoo.LoadMovies` | movies_poo.py:21 | Fails exactly when some record lacks a field. Otherwise it gives one movie per record, in order. |
| `MoviesPoo.FilterExact` | movies_poo.py:40 | Keeps exactly the movies whose label list contains the genre as an exact, case-sensitive element. |
| `MoviesPoo.FilterExactKeepsOrder` | movies_poo.py:40 | The exact filter keeps the movies' original order: filtering a concatenation concatenates the filtered parts. |
| `MoviesPoo.BestMovie` | movies_poo.py:41 | Returns a filtered movie whose rating is at least every filtered rating. Among filtered movies of that rating, no name is alphabetically smaller. |
| `MoviesPoo.BestMovieIsEarliest` | movies_poo.py:41 | The result is the first filtered movie of smallest key, so on equal keys the earlier movie is kept. |
| `MoviesPoo.ExactMatchMatchesIgnoringCase` | movies_poo.py:40 | A movie whose labels hold the genre comes from a record that the case-insensitive filter of `movies.py` also keeps. |
| `MoviesPoo.ExactMatchIsCaseSensitive` | movies_poo.py:40 | A label that differs only in case is dropped by the exact filter and kept by the case-insensitive one. |

## Left out

- `fetch_all_movie_data` (movies.py:7-50) and `Movies.request_movies` (movies_poo.py:24-34): the HTTP requests, JSON decoding and the translation of their errors are I/O. The model takes the list of records as a parameter.
- Parsing `imdb_rating` with `float(...)` is not modelled: the rating is an already-parsed `real`. Floating-point rounding and NaN are not captured.
- `str.lower` folds only ASCII `A`-`Z`. Full Unicode case mapping is not modelled.
- The `isinstance` checks (minesweeper.py:18 and 61, movies.py:65-66) hold by construction in the typed model. Python's `True`/`False` counting as cells 1/0 is not modelled either.
- A field that is present but holds `null` or a value of the wrong type is not modelled, because `Option` cannot express it. The source then raises: `None.split` in movies.py:68, `float(None)` in movies.py:74 and movies_poo.py:41, a `None` name compared on tied ratings, and the same in movies_poo.py:21.
- The model keeps the error class (`ValueError`, `IndexError`, `KeyError`) but not the message text.
- The `main` functions' printing and top-level `except` clauses are not modelled. Only the driver's example board (minesweeper.py:72) and the filter and reduce lines of movies_poo.py:40-41 are.
- `MoviesPoo.BestMovie`: an empty filtered list is a precondition. The source's `reduce` raises a `TypeError` there, and nothing catches it.
- `Movies.BestInGenreOrderIndependent`: only the winner's key is order-independent, not the returned name. A record with no name and a record named `''` share the key name `''` but display as `'Unknown'` and `''`, so arrival order decides between them.
