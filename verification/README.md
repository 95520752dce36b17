# Steam game-usage queries, modelled in Dafny

The repository serves five read-only queries over pre-built game-usage tables
(playtime per genre, reviews per year, sentiment per year). Each query filters
one table by a key, groups, aggregates with a pandas reduction (`sum`,
`idxmax`, `value_counts`) and returns either a "not found" message or the
aggregate. This project models the five queries of `main.py` as pure Dafny
functions over a table given as a `seq` of row records. Each function's
contract states what the aggregate means.

Modules:

- `Text` (`text.dfy`): ASCII lower-casing. Genre matching is case-insensitive.
- `Replies` (`replies.dfy`): `Reply<K, V>` is either `NotFound(key)` or
  `Found(value)`. The source returns "not found" as an ordinary payload, not
  as an error.
- `Aggregates` (`aggregates.dfy`): the pandas primitives, each defined once:
  - `Count`: occurrences of a value.
  - `ArgMax`: `idxmax`.
  - `Tally`: `value_counts` before sorting.
  - `Get`: `dict.get(c, 0)`.
  - `TopK` and `MostCommon`: `value_counts().head(k)`.
- `Playtime` (`playtime.dfy`): `PlayTimeGenre` and `UserForGenre`. The
  group-by-year sum `HoursByYear` is a list in ascending year order.
- `Reviews` (`reviews.dfy`): `UsersRecommend` and `UsersNotRecommend`. Both
  return a top-3 `Ranked` list, specified by the predicate `IsTopRanking`.
- `Sentiment` (`sentiment.dfy`): `SentimentAnalysis`.

Each query is stated against a reference definition computed directly over the
table. Examples: `GenreHours`, `UserYearHours`, `ReviewCount`,
`NegativeCount` and `CodeCount`. The pipeline of filter, group and aggregate is
proved to agree with these definitions.

Tie-breaks. pandas documents `idxmax` as returning the first maximal position.
`ArgMax` does the same and its contract says so. The query contracts state only
maximality. The order among equal counts in `value_counts` is left open: any
maximal choice meets `IsTopRanking`.

Behaviour of `main.py` that the contracts make explicit:

- A year with fewer than three distinct titles gets fewer than three ranking
  entries, because the code takes `head(3)` of `value_counts`
  (`main.py:132`, `main.py:174-177`).
- `UsersNotRecommend` answers "no records" only when the year has no row at
  all (`main.py:164-167`); the not-recommended filter comes afterwards. A
  year whose reviews all recommend the game therefore gets an empty list.
- The Negative, Neutral and Positive counts add up to the year's number of
  reviews only when every sentiment code of the year is 0, 1 or 2
  (`main.py:224-226` reads only those three codes); `SplitCoversYear` carries
  that hypothesis.
- `UsersRecommend` does not filter on a recommend flag (`main.py:126`). Its
  table is taken to hold recommended reviews only.

## Model

| member | source | states |
|---|---|---|
| Text.Lower | main.py:33 | the lower-cased string has the same length and contains no upper-case letter |
| Text.LowerCharEqualIff | main.py:33-35 | two characters lower-case to the same character exactly when they are equal or an ASCII upper-case letter and its lower-case form |
| Text.LowerEqualIff | main.py:33-35 | two strings have equal lower-cased forms exactly when they have the same length and agree position by position up to the case of ASCII letters |
| Text.LowerIdempotent | main.py:33-35 | lower-casing an already lower-cased genre changes nothing |
| Aggregates.Count | main.py:132 | an occurrence count is positive exactly when the value occurs |
| Aggregates.ArgMax | main.py:43 | `idxmax` returns a position holding the maximum, and no earlier position holds the maximum |
| Aggregates.Tally | main.py:132 | `value_counts` has one bucket per distinct value, each with that value's true number of occurrences, and covers every value that occurs |
| Aggregates.Get | main.py:224-226 | `dict.get(c, 0)` gives 0 for a value without a bucket |
| Aggregates.GetAt | main.py:222-226 | in a tally, the lookup of a bucket's value returns that bucket's count |
| Aggregates.TopK | main.py:132 | `head(k)` of the sorted counts keeps min(k, distinct values) buckets of the tally, each value once, counts non-increasing, and omits no bucket with a larger count than the last one kept |
| Aggregates.TopOfTally | main.py:132 | cutting the sorted `value_counts` down to its first k buckets lists min(k, distinct values) values, each once with its true number of occurrences, and leaves out no value more frequent than the last one listed |
| Aggregates.MostCommon | main.py:174-177 | `value_counts().head(k)` lists min(k, distinct values) values of the column, each with its true count, most frequent first, and omits no value more frequent than the last one listed |
| Playtime.Select | main.py:33-35 | the genre filter keeps exactly the rows whose lower-cased genre equals the lower-cased request, each with all of its copies, and no other row |
| Playtime.OfUser | main.py:87 | the user filter keeps exactly the rows of that user, each with all of its copies, and no other row |
| Playtime.HoursByYear | main.py:40 | the group-by-year sum has one line per year that occurs, in ascending year order; each line holds that year's summed playtime, and the lines add up to the total playtime |
| Playtime.Add | main.py:90-91 | adding a row's playtime to the per-year table changes only that year's sum and keeps the years ascending |
| Playtime.PlayTimeGenre | main.py:32-45 | "does not exist" for the requested genre exactly when no row has that genre in any case; otherwise a year in which the genre has a row, whose summed playtime is at least that of every year the genre occurs in |
| Playtime.BestYear | main.py:40-43 | the year `idxmax` picks from the group-by has the largest sum among the years present |
| Playtime.UserForGenre | main.py:74-97 | "does not exist" exactly when no row has the genre; otherwise the user owns a row of the genre whose playtime no row of the genre exceeds, and the breakdown lists that user's years in the genre in strictly ascending order, each with the user's summed playtime, adding up to the user's total in the genre |
| Playtime.Breakdown | main.py:87-94 | the per-year breakdown of one user's genre rows has exactly the years that user has a row of the genre in, each summed correctly, with the user's total as their sum |
| Playtime.GenreCaseInsensitive | main.py:35 | requests for genres that differ only in letter case get the same year and the same user breakdown |
| Playtime.ActionScenario | main.py:40-45 | action rows of 500 hours in 2012 and 100 hours in 2010, with the request "Action", give 2012 |
| Reviews.YearTitles | main.py:126 | the year filter's title column is empty exactly when the year has no review, and holds exactly the titles reviewed that year |
| Reviews.YearTitlesCount | main.py:126-132 | a title's count in the year's title column equals its number of reviews that year |
| Reviews.NegativeTitles | main.py:170-171 | the not-recommended filter holds exactly the titles with a not-recommended review that year |
| Reviews.NegativeTitlesCount | main.py:170-176 | a title's count in that column equals its number of not-recommended reviews that year |
| Reviews.TopTitles | main.py:132-135 | the numbered `head(k)` is a top-k ranking: ranks 1, 2, ..., one line per title, true counts, counts non-increasing, no more frequent title left out |
| Reviews.UsersRecommend | main.py:124-135 | "no records" for the year exactly when the year has no review; otherwise a top-3 ranking of the year's titles by number of reviews, each count equal to the title's reviews that year |
| Reviews.UsersNotRecommend | main.py:163-185 | "no records" exactly when the year has no review at all; otherwise a top-3 ranking of the year's titles by not-recommended reviews, each count equal to the title's not-recommended reviews that year |
| Reviews.AllRecommendedGivesEmpty | main.py:164-183 | a year whose reviews all recommend the game gets an empty ranking, not the "no records" message |
| Sentiment.YearCodes | main.py:214-216 | the year's code column is empty exactly when the year has no review |
| Sentiment.YearCodesCount | main.py:214-220 | each code occurs in the year's code column as often as the year has reviews with that code |
| Sentiment.SentimentAnalysis | main.py:213-226 | "no records" for the year exactly when the year has no review; otherwise Negative, Neutral and Positive are the numbers of that year's reviews with codes 0, 1 and 2, 0 when a code is absent |
| Sentiment.CodesPartitionYear | main.py:219-226 | when all of a year's codes are 0, 1 or 2, the three code counts add up to the year's number of reviews |
| Sentiment.SplitCoversYear | main.py:219-226 | under the same condition, Negative + Neutral + Positive of the answer equals the year's number of reviews |
| Sentiment.Scenario2018 | main.py:219-226 | 2018 reviews with codes 0, 0, 1, 2, 2, 2 give Negative 2, Neutral 1, Positive 3 |
| Sentiment.AbsentYear | main.py:214-217 | a year with no reviews gives the "no records" answer carrying that year |

## Left out

- Loading the tables with `pd.read_parquet` (`main.py:32,74,124,163,213`) is I/O. Each query takes its table as a parameter instead.
- FastAPI route registration and the `uvicorn.run` blocks are server plumbing.
- Response text is not modelled. This covers the f-strings, `genre.capitalize()` and the Python sets that wrap the strings at lines 95, 135 and 182. Answers are the structured `Reply`, `TopUser`, `Ranked` and `Split` values.
- Text.Lower: lower-cases ASCII letters only, because Python's `str.lower` follows the full Unicode case tables, which the model does not include.
- Integer width is not modelled. `playtime_forever`, its group-by sums (`main.py:40`, `main.py:90-91`) and the `value_counts` counts are int64 in pandas, and a sum wraps at 2^63. Playtimes, sums and counts here are unbounded integers, so int64 overflow is not represented.
- Missing values are not modelled. pandas drops NaN titles in `value_counts`, and a NaN genre never matches. Every cell here holds a value.
- A duplicated row label is not modelled. With one, `genres.loc[label]` (`main.py:84`) would return several rows. The model takes the row at the maximal position.
- Column types are not modelled. A year column stored as text would never equal the integer parameter. Years here are integers.
- The docstring examples (`main.py:26-29,67-71,119-122,158-161,208-211`) depend on data files that are not part of this model.
- Repeated calls return the same answer because every query is a pure function of its table and key. No separate lemma states this.
