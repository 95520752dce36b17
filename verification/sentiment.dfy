/** The year-keyed sentiment summary (`sentiment_analysis`): how many of a
    year's reviews carry each sentiment code, 0 for negative, 1 for neutral and
    2 for positive. */
module Sentiment {
  import opened Aggregates
  import opened Replies

  /** A row of the sentiment table: one review's year and sentiment code. */
  datatype SentimentRow = SentimentRow(year: int, code: int)

  /** The answer: the number of negative, neutral and positive reviews. */
  datatype Split = Split(negative: nat, neutral: nat, positive: nat)

  /** The sentiment codes of the reviews of `year`, in table order. */
  function YearCodes(rows: seq<SentimentRow>, year: int): (cs: seq<int>)
    ensures |cs| == 0 <==> forall row :: row in rows ==> row.year != year
  {
    if |rows| == 0 then []
    else
      assert rows == [rows[0]] + rows[1..];
      if rows[0].year == year then [rows[0].code] + YearCodes(rows[1..], year)
      else YearCodes(rows[1..], year)
  }

  /** Number of reviews of `year` with sentiment `code` (reference count). */
  function CodeCount(rows: seq<SentimentRow>, year: int, code: int): nat
  {
    if |rows| == 0 then 0
    else (if rows[0] == SentimentRow(year, code) then 1 else 0) + CodeCount(rows[1..], year, code)
  }

  /** Number of reviews of `year`. */
  function YearRows(rows: seq<SentimentRow>, year: int): nat
  {
    if |rows| == 0 then 0
    else (if rows[0].year == year then 1 else 0) + YearRows(rows[1..], year)
  }

  lemma {:induction false} YearCodesCount(rows: seq<SentimentRow>, year: int, code: int)
    ensures Count(YearCodes(rows, year), code) == CodeCount(rows, year, code)
  {
    if |rows| > 0 {
      YearCodesCount(rows[1..], year, code);
    }
  }

  /** `sentiment_analysis`: the "no records" answer when the year has no
      reviews, otherwise the count of each of the three codes among the year's
      reviews, 0 for a code that does not occur. */
  function SentimentAnalysis(rows: seq<SentimentRow>, year: int): (r: Reply<int, Split>)
    ensures r.NotFound? <==> forall row :: row in rows ==> row.year != year
    ensures r.NotFound? ==> r.key == year
    ensures r.Found? ==> r.value.negative == CodeCount(rows, year, 0)
    ensures r.Found? ==> r.value.neutral == CodeCount(rows, year, 1)
    ensures r.Found? ==> r.value.positive == CodeCount(rows, year, 2)
  {
    var codes := YearCodes(rows, year);
    if |codes| == 0 then NotFound(year)
    else
      var t := Tally(codes);
      YearCodesCount(rows, year, 0);
      YearCodesCount(rows, year, 1);
      YearCodesCount(rows, year, 2);
      Found(Split(Get(t, 0), Get(t, 1), Get(t, 2)))
  }

  /** When every code of the year is 0, 1 or 2, the three code counts add up to
      the year's number of reviews. */
  lemma {:induction false} CodesPartitionYear(rows: seq<SentimentRow>, year: int)
    requires forall row :: row in rows && row.year == year ==> 0 <= row.code <= 2
    ensures CodeCount(rows, year, 0) + CodeCount(rows, year, 1) + CodeCount(rows, year, 2) == YearRows(rows, year)
  {
    if |rows| > 0 {
      assert forall row :: row in rows[1..] ==> row in rows;
      CodesPartitionYear(rows[1..], year);
    }
  }

  /** The three counts of an answer add up to the year's number of reviews
      when all of its codes are 0, 1 or 2. */
  lemma SplitCoversYear(rows: seq<SentimentRow>, year: int)
    requires forall row :: row in rows && row.year == year ==> 0 <= row.code <= 2
    ensures SentimentAnalysis(rows, year).Found? ==>
              var s := SentimentAnalysis(rows, year).value;
              s.negative + s.neutral + s.positive == YearRows(rows, year)
  {
    CodesPartitionYear(rows, year);
  }

  /** Six reviews of 2018 with codes 0, 0, 1, 2, 2, 2 give two negative, one
      neutral and three positive. */
  lemma Scenario2018()
    ensures SentimentAnalysis([SentimentRow(2018, 0), SentimentRow(2018, 0), SentimentRow(2018, 1),
                               SentimentRow(2018, 2), SentimentRow(2018, 2), SentimentRow(2018, 2)], 2018)
            == Found(Split(2, 1, 3))
  {
    var rows := [SentimentRow(2018, 0), SentimentRow(2018, 0), SentimentRow(2018, 1),
                 SentimentRow(2018, 2), SentimentRow(2018, 2), SentimentRow(2018, 2)];
    assert rows[0] in rows;
    assert CodeCount(rows, 2018, 0) == 2;
    assert CodeCount(rows, 2018, 1) == 1;
    assert CodeCount(rows, 2018, 2) == 3;
  }

  /** A year without reviews gets the "no records" answer for that year. */
  lemma AbsentYear(rows: seq<SentimentRow>, year: int)
    requires forall row :: row in rows ==> row.year != year
    ensures SentimentAnalysis(rows, year) == NotFound(year)
  {
  }
}
