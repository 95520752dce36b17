/** The two year-keyed ranking queries: the three titles with the most
    (recommended) reviews in a year (`UsersRecommend`) and the three titles with
    the most not-recommended reviews in a year (`UsersNotRecommend`). */
module Reviews {
  import opened Aggregates
  import opened Replies

  /** A row of the recommended-reviews table: a review of `title` in `year`. */
  datatype ReviewRow = ReviewRow(title: string, year: int)

  /** A row of the reviews table that carries the recommend flag. */
  datatype VerdictRow = VerdictRow(title: string, year: int, recommend: bool)

  /** One line of a ranking: rank (from 1), title and its number of reviews. */
  datatype Ranked = Ranked(rank: nat, title: string, count: nat)

  /** The titles of the reviews of `year`, in table order. */
  function YearTitles(rows: seq<ReviewRow>, year: int): (ts: seq<string>)
    ensures |ts| == 0 <==> forall row :: row in rows ==> row.year != year
    ensures forall t :: t in ts <==> ReviewRow(t, year) in rows
  {
    if |rows| == 0 then []
    else
      assert rows == [rows[0]] + rows[1..];
      if rows[0].year == year then [rows[0].title] + YearTitles(rows[1..], year)
      else YearTitles(rows[1..], year)
  }

  /** The titles of the not-recommended reviews of `year`, in table order. */
  function NegativeTitles(rows: seq<VerdictRow>, year: int): (ts: seq<string>)
    ensures forall t :: t in ts <==> VerdictRow(t, year, false) in rows
  {
    if |rows| == 0 then []
    else
      assert rows == [rows[0]] + rows[1..];
      if rows[0].year == year && !rows[0].recommend then [rows[0].title] + NegativeTitles(rows[1..], year)
      else NegativeTitles(rows[1..], year)
  }

  /** Number of reviews of `title` in `year` (reference count over the table). */
  function ReviewCount(rows: seq<ReviewRow>, year: int, title: string): nat
  {
    if |rows| == 0 then 0
    else (if rows[0] == ReviewRow(title, year) then 1 else 0) + ReviewCount(rows[1..], year, title)
  }

  /** Number of not-recommended reviews of `title` in `year`. */
  function NegativeCount(rows: seq<VerdictRow>, year: int, title: string): nat
  {
    if |rows| == 0 then 0
    else (if rows[0] == VerdictRow(title, year, false) then 1 else 0) + NegativeCount(rows[1..], year, title)
  }

  /** A title's occurrences in the year's title column are its reviews that year. */
  lemma {:induction false} YearTitlesCount(rows: seq<ReviewRow>, year: int)
    ensures forall t :: Count(YearTitles(rows, year), t) == ReviewCount(rows, year, t)
  {
    if |rows| > 0 {
      YearTitlesCount(rows[1..], year);
    }
  }

  /** A title's occurrences in the year's not-recommended title column are its
      not-recommended reviews that year. */
  lemma {:induction false} NegativeTitlesCount(rows: seq<VerdictRow>, year: int)
    ensures forall t :: Count(NegativeTitles(rows, year), t) == NegativeCount(rows, year, t)
  {
    if |rows| > 0 {
      NegativeTitlesCount(rows[1..], year);
    }
  }

  function Titles(v: seq<Ranked>): set<string>
  {
    set i | 0 <= i < |v| :: v[i].title
  }

  /** Ranks run 1, 2, ... down the list. */
  ghost predicate RanksFromOne(v: seq<Ranked>)
  {
    forall i :: 0 <= i < |v| ==> v[i].rank == i + 1
  }

  /** Each listed title occurs in the pool, exactly as often as its line says. */
  ghost predicate TrueCounts(v: seq<Ranked>, pool: seq<string>)
  {
    forall i :: 0 <= i < |v| ==> v[i].title in pool && v[i].count == Count(pool, v[i].title)
  }

  ghost predicate DistinctTitles(v: seq<Ranked>)
  {
    forall i, j :: 0 <= i < j < |v| ==> v[i].title != v[j].title
  }

  ghost predicate CountsNonIncreasing(v: seq<Ranked>)
  {
    forall i, j :: 0 <= i < j < |v| ==> v[j].count <= v[i].count
  }

  /** No title of the pool that is left out occurs more often than the last
      one listed. */
  ghost predicate NoneLargerLeftOut(v: seq<Ranked>, pool: seq<string>)
  {
    |v| > 0 ==> forall t :: t in pool && t !in Titles(v) ==> Count(pool, t) <= v[|v| - 1].count
  }

  /** `v` is the top-`k` ranking of the titles in `pool` by how often they
      occur: min(k, number of distinct titles) lines, ranked 1, 2, ... in
      order, one per title, each with its true number of occurrences, counts
      never increasing, and no title left out that occurs more often than the
      last one listed. */
  ghost predicate IsTopRanking(v: seq<Ranked>, pool: seq<string>, k: nat)
  {
    && |v| == Min(k, |set t | t in pool|)
    && RanksFromOne(v)
    && TrueCounts(v, pool)
    && DistinctTitles(v)
    && CountsNonIncreasing(v)
    && NoneLargerLeftOut(v, pool)
  }

  /** Numbers the buckets 1, 2, ... in order. */
  function Rank(top: seq<Bucket<string>>): (v: seq<Ranked>)
    ensures |v| == |top|
    ensures forall i :: 0 <= i < |v| ==> v[i] == Ranked(i + 1, top[i].value, top[i].count)
  {
    seq(|top|, i requires 0 <= i < |top| => Ranked(i + 1, top[i].value, top[i].count))
  }

  lemma RankKeepsCounts(pool: seq<string>, top: seq<Bucket<string>>, v: seq<Ranked>)
    requires |v| == |top|
    requires forall i :: 0 <= i < |v| ==> v[i] == Ranked(i + 1, top[i].value, top[i].count)
    requires forall i :: 0 <= i < |top| ==> top[i].value in pool && top[i].count == Count(pool, top[i].value)
    requires forall i, j :: 0 <= i < j < |top| ==> top[i].value != top[j].value
    requires NonIncreasing(top)
    ensures RanksFromOne(v) && TrueCounts(v, pool) && DistinctTitles(v) && CountsNonIncreasing(v)
  {
  }

  lemma RankKeepsLeftOut(pool: seq<string>, top: seq<Bucket<string>>, v: seq<Ranked>)
    requires |v| == |top|
    requires forall i :: 0 <= i < |v| ==> v[i] == Ranked(i + 1, top[i].value, top[i].count)
    requires |top| > 0 ==> forall x :: x in pool && x !in Values(top) ==> Count(pool, x) <= top[|top| - 1].count
    ensures NoneLargerLeftOut(v, pool)
  {
  }

  /** The top `k` of the pool, numbered from 1: `value_counts().head(k)` as the
      source lists it. */
  function TopTitles(pool: seq<string>, k: nat): (v: seq<Ranked>)
    ensures IsTopRanking(v, pool, k)
  {
    var top := MostCommon(pool, k);
    var v := Rank(top);
    RankKeepsCounts(pool, top, v);
    RankKeepsLeftOut(pool, top, v);
    v
  }

  /** `UsersRecommend`: the three most reviewed titles of `year`, or the "no
      records" answer when the year has no reviews. */
  function UsersRecommend(rows: seq<ReviewRow>, year: int): (r: Reply<int, seq<Ranked>>)
    ensures r.NotFound? <==> forall row :: row in rows ==> row.year != year
    ensures r.NotFound? ==> r.key == year
    ensures r.Found? ==> IsTopRanking(r.value, YearTitles(rows, year), 3)
    ensures r.Found? ==> forall i :: 0 <= i < |r.value| ==> r.value[i].count == ReviewCount(rows, year, r.value[i].title)
  {
    var pool := YearTitles(rows, year);
    if |pool| == 0 then NotFound(year)
    else
      YearTitlesCount(rows, year);
      Found(TopTitles(pool, 3))
  }

  /** `UsersNotRecommend`: the three titles of `year` with the most
      not-recommended reviews. The "no records" answer depends only on whether
      the year has any reviews at all, recommended or not. */
  function UsersNotRecommend(rows: seq<VerdictRow>, year: int): (r: Reply<int, seq<Ranked>>)
    ensures r.NotFound? <==> forall row :: row in rows ==> row.year != year
    ensures r.NotFound? ==> r.key == year
    ensures r.Found? ==> IsTopRanking(r.value, NegativeTitles(rows, year), 3)
    ensures r.Found? ==> forall i :: 0 <= i < |r.value| ==> r.value[i].count == NegativeCount(rows, year, r.value[i].title)
  {
    if forall row :: row in rows ==> row.year != year then NotFound(year)
    else
      NegativeTitlesCount(rows, year);
      Found(TopTitles(NegativeTitles(rows, year), 3))
  }

  /** A year whose reviews are all recommendations gets an empty ranking, not
      the "no records" answer. */
  lemma AllRecommendedGivesEmpty(rows: seq<VerdictRow>, year: int)
    requires exists row :: row in rows && row.year == year
    requires forall row :: row in rows && row.year == year ==> row.recommend
    ensures UsersNotRecommend(rows, year) == Found([])
  {
  }
}
