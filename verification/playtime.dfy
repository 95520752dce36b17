/** The two genre-keyed queries: the year with the most playtime for a genre
    (`PlayTimeGenre`) and the user with the longest single playtime in a genre,
    together with that user's playtime per year (`UserForGenre`). Both tables
    have the same columns, so one row type serves both. */
module Playtime {
  import opened Text
  import opened Aggregates
  import opened Replies

  /** One row of the genre/playtime tables. */
  datatype PlayRow = PlayRow(genre: string, year: int, user: string, playtime: int)

  /** One line of a group-by-year sum. */
  datatype YearHours = YearHours(year: int, hours: int)

  /** The answer of `UserForGenre`: the user and their playtime per year. */
  datatype TopUser = TopUser(user: string, hours: seq<YearHours>)

  // ---------------------------------------------------------------------------
  // Reference sums, stated directly over the table

  /** Playtime of the rows whose lower-cased genre is `key` and whose year is `year`. */
  function GenreHours(rows: seq<PlayRow>, key: string, year: int): int
  {
    if |rows| == 0 then 0
    else (if Lower(rows[0].genre) == key && rows[0].year == year then rows[0].playtime else 0)
         + GenreHours(rows[1..], key, year)
  }

  /** Playtime of `user`'s rows in genre `key` and year `year`. */
  function UserYearHours(rows: seq<PlayRow>, key: string, user: string, year: int): int
  {
    if |rows| == 0 then 0
    else (if Lower(rows[0].genre) == key && rows[0].user == user && rows[0].year == year
          then rows[0].playtime else 0)
         + UserYearHours(rows[1..], key, user, year)
  }

  /** Playtime of all of `user`'s rows in genre `key`. */
  function UserHours(rows: seq<PlayRow>, key: string, user: string): int
  {
    if |rows| == 0 then 0
    else (if Lower(rows[0].genre) == key && rows[0].user == user then rows[0].playtime else 0)
         + UserHours(rows[1..], key, user)
  }

  /** Some row of genre `key` lies in `year`. */
  ghost predicate GenreHasYear(rows: seq<PlayRow>, key: string, year: int)
  {
    exists row :: row in rows && Lower(row.genre) == key && row.year == year
  }

  // ---------------------------------------------------------------------------
  // Filters

  /** The rows whose lower-cased genre equals `key`, in table order. */
  function Select(rows: seq<PlayRow>, key: string): (m: seq<PlayRow>)
    ensures forall row :: row in m <==> row in rows && Lower(row.genre) == key
    ensures forall row :: multiset(m)[row] == if Lower(row.genre) == key then multiset(rows)[row] else 0
  {
    if |rows| == 0 then []
    else
      assert rows == [rows[0]] + rows[1..];
      if Lower(rows[0].genre) == key then [rows[0]] + Select(rows[1..], key)
      else Select(rows[1..], key)
  }

  /** The rows of `user`, in table order. */
  function OfUser(rows: seq<PlayRow>, user: string): (m: seq<PlayRow>)
    ensures forall row :: row in m <==> row in rows && row.user == user
    ensures forall row :: multiset(m)[row] == if row.user == user then multiset(rows)[row] else 0
  {
    if |rows| == 0 then []
    else
      assert rows == [rows[0]] + rows[1..];
      if rows[0].user == user then [rows[0]] + OfUser(rows[1..], user)
      else OfUser(rows[1..], user)
  }

  function Playtimes(rows: seq<PlayRow>): (ps: seq<int>)
    ensures |ps| == |rows|
    ensures forall i :: 0 <= i < |rows| ==> ps[i] == rows[i].playtime
  {
    seq(|rows|, i requires 0 <= i < |rows| => rows[i].playtime)
  }

  function HoursColumn(g: seq<YearHours>): (hs: seq<int>)
    ensures |hs| == |g|
    ensures forall i :: 0 <= i < |g| ==> hs[i] == g[i].hours
  {
    seq(|g|, i requires 0 <= i < |g| => g[i].hours)
  }

  // ---------------------------------------------------------------------------
  // Group by year, summing playtime

  /** The years some row lies in. */
  function Years(rows: seq<PlayRow>): set<int>
  {
    if |rows| == 0 then {} else {rows[0].year} + Years(rows[1..])
  }

  /** The summed playtime of the rows of `year`. */
  function HoursIn(rows: seq<PlayRow>, year: int): int
  {
    if |rows| == 0 then 0
    else (if rows[0].year == year then rows[0].playtime else 0) + HoursIn(rows[1..], year)
  }

  /** The summed playtime of all rows. */
  function Playtime(rows: seq<PlayRow>): int
  {
    if |rows| == 0 then 0 else rows[0].playtime + Playtime(rows[1..])
  }

  /** The years that have a line in `g`. */
  function YearsOf(g: seq<YearHours>): (ys: set<int>)
    ensures forall i :: 0 <= i < |g| ==> g[i].year in ys
  {
    if |g| == 0 then {} else {g[0].year} + YearsOf(g[1..])
  }

  /** Lines in strictly ascending year order, so each year has at most one line. */
  ghost predicate Ascending(g: seq<YearHours>)
  {
    forall i, j :: 0 <= i < j < |g| ==> g[i].year < g[j].year
  }

  /** The hours on the line of `year`, or 0 when there is none. */
  function Lookup(g: seq<YearHours>, year: int): int
  {
    if |g| == 0 then 0
    else if g[0].year == year then g[0].hours
    else Lookup(g[1..], year)
  }

  /** The hours over all lines. */
  function Total(g: seq<YearHours>): int
  {
    if |g| == 0 then 0 else g[0].hours + Total(g[1..])
  }

  lemma {:induction false} YearsOfIndex(g: seq<YearHours>, year: int)
    requires year in YearsOf(g)
    ensures exists i :: 0 <= i < |g| && g[i].year == year
  {
    if g[0].year != year {
      YearsOfIndex(g[1..], year);
      var i :| 0 <= i < |g[1..]| && g[1..][i].year == year;
      assert g[i + 1].year == year;
    }
  }

  /** In an ascending table, `Lookup` reads the line of that year. */
  lemma {:induction false} LookupAt(g: seq<YearHours>, i: nat)
    requires Ascending(g) && i < |g|
    ensures Lookup(g, g[i].year) == g[i].hours
  {
    if i > 0 {
      assert g[1..][i - 1] == g[i];
      LookupAt(g[1..], i - 1);
    }
  }

  lemma {:induction false} LookupAbsent(g: seq<YearHours>, year: int)
    requires year !in YearsOf(g)
    ensures Lookup(g, year) == 0
  {
    if |g| > 0 {
      LookupAbsent(g[1..], year);
    }
  }

  /** Adds `hours` to the line of `year`, creating the line in its ordered
      place when the year is new. */
  function Add(g: seq<YearHours>, year: int, hours: int): (r: seq<YearHours>)
    requires Ascending(g)
    ensures Ascending(r)
    ensures YearsOf(r) == YearsOf(g) + {year}
    ensures forall y :: Lookup(r, y) == Lookup(g, y) + (if y == year then hours else 0)
    ensures Total(r) == Total(g) + hours
  {
    if |g| == 0 then [YearHours(year, hours)]
    else if year < g[0].year then
      assert year !in YearsOf(g) by {
        if year in YearsOf(g) {
          YearsOfIndex(g, year);
        }
      }
      LookupAbsent(g, year);
      [YearHours(year, hours)] + g
    else if year == g[0].year then [YearHours(year, g[0].hours + hours)] + g[1..]
    else
      var r := [g[0]] + Add(g[1..], year, hours);
      assert Ascending(r) by {
        forall i, j | 0 <= i < j < |r| ensures r[i].year < r[j].year {
          if i == 0 {
            assert r[j].year in YearsOf(g[1..]) + {year};
            if r[j].year in YearsOf(g[1..]) {
              YearsOfIndex(g[1..], r[j].year);
            }
          }
        }
      }
      r
  }

  /** `groupby('year')['playtime_forever'].sum()`: one line per year that
      occurs, in ascending year order, holding that year's summed playtime. */
  function HoursByYear(rows: seq<PlayRow>): (g: seq<YearHours>)
    ensures Ascending(g)
    ensures YearsOf(g) == Years(rows)
    ensures forall y :: Lookup(g, y) == HoursIn(rows, y)
    ensures Total(g) == Playtime(rows)
  {
    if |rows| == 0 then []
    else Add(HoursByYear(rows[1..]), rows[0].year, rows[0].playtime)
  }

  /** Each line of the group-by holds the summed playtime of its year. */
  lemma HoursByYearAt(rows: seq<PlayRow>, i: nat)
    requires i < |HoursByYear(rows)|
    ensures HoursByYear(rows)[i].hours == HoursIn(rows, HoursByYear(rows)[i].year)
  {
    LookupAt(HoursByYear(rows), i);
  }

  lemma {:induction false} YearsIndex(rows: seq<PlayRow>, year: int)
    ensures year in Years(rows) <==> exists row :: row in rows && row.year == year
  {
    if |rows| > 0 {
      YearsIndex(rows[1..], year);
      assert rows == [rows[0]] + rows[1..];
    }
  }

  // ---------------------------------------------------------------------------
  // The filtered pipelines agree with the reference sums

  lemma {:induction false} SelectHours(rows: seq<PlayRow>, key: string, year: int)
    ensures HoursIn(Select(rows, key), year) == GenreHours(rows, key, year)
  {
    if |rows| > 0 {
      SelectHours(rows[1..], key, year);
    }
  }

  lemma {:induction false} UserSelectHours(rows: seq<PlayRow>, key: string, user: string, year: int)
    ensures HoursIn(OfUser(Select(rows, key), user), year) == UserYearHours(rows, key, user, year)
  {
    if |rows| > 0 {
      UserSelectHours(rows[1..], key, user, year);
      var r := rows[0];
      if Lower(r.genre) == key && r.user == user {
        assert OfUser(Select(rows, key), user) == [r] + OfUser(Select(rows[1..], key), user);
      } else if Lower(r.genre) == key {
        assert OfUser(Select(rows, key), user) == OfUser(Select(rows[1..], key), user);
      }
    }
  }

  lemma {:induction false} UserSelectTotal(rows: seq<PlayRow>, key: string, user: string)
    ensures Playtime(OfUser(Select(rows, key), user)) == UserHours(rows, key, user)
  {
    if |rows| > 0 {
      UserSelectTotal(rows[1..], key, user);
      var r := rows[0];
      if Lower(r.genre) == key && r.user == user {
        assert OfUser(Select(rows, key), user) == [r] + OfUser(Select(rows[1..], key), user);
      } else if Lower(r.genre) == key {
        assert OfUser(Select(rows, key), user) == OfUser(Select(rows[1..], key), user);
      }
    }
  }

  // ---------------------------------------------------------------------------
  // The queries

  /** Every year that occurs among `rows` has no more summed playtime than the
      year on line `i` of their group-by, when `i` is where `ArgMax` points. */
  lemma BestYear(rows: seq<PlayRow>, i: nat)
    requires |HoursByYear(rows)| > 0 && i == ArgMax(HoursColumn(HoursByYear(rows)))
    ensures forall row :: row in rows ==> HoursIn(rows, row.year) <= HoursIn(rows, HoursByYear(rows)[i].year)
  {
    var g := HoursByYear(rows);
    LookupAt(g, i);
    forall row | row in rows ensures HoursIn(rows, row.year) <= HoursIn(rows, g[i].year) {
      YearsIndex(rows, row.year);
      YearsOfIndex(g, row.year);
      var j :| 0 <= j < |g| && g[j].year == row.year;
      LookupAt(g, j);
      assert HoursColumn(g)[j] <= HoursColumn(g)[i];
    }
  }

  /** `PlayTimeGenre`: the year whose summed playtime in the requested genre is
      largest, or the "does not exist" answer when no row has that genre. */
  function PlayTimeGenre(rows: seq<PlayRow>, genre: string): (r: Reply<string, int>)
    ensures r.NotFound? <==> forall row :: row in rows ==> Lower(row.genre) != Lower(genre)
    ensures r.NotFound? ==> r.key == genre
    ensures r.Found? ==> GenreHasYear(rows, Lower(genre), r.value)
    ensures r.Found? ==> forall row :: row in rows && Lower(row.genre) == Lower(genre) ==>
              GenreHours(rows, Lower(genre), row.year) <= GenreHours(rows, Lower(genre), r.value)
  {
    var key := Lower(genre);
    var m := Select(rows, key);
    if |m| == 0 then NotFound(genre)
    else
      var g := HoursByYear(m);
      YearsIndex(m, m[0].year);
      var i := ArgMax(HoursColumn(g));
      BestYear(m, i);
      YearsIndex(m, g[i].year);
      SelectHours(rows, key, g[i].year);
      assert forall row :: row in rows && Lower(row.genre) == key ==>
               GenreHours(rows, key, row.year) <= GenreHours(rows, key, g[i].year) by {
        forall row | row in rows && Lower(row.genre) == key
          ensures GenreHours(rows, key, row.year) <= GenreHours(rows, key, g[i].year)
        {
          SelectHours(rows, key, row.year);
        }
      }
      Found(g[i].year)
  }

  /** `user` owns a row of genre `key` whose playtime no row of that genre exceeds. */
  ghost predicate LongestSession(rows: seq<PlayRow>, key: string, user: string)
  {
    exists row :: row in rows && Lower(row.genre) == key && row.user == user &&
      forall other :: other in rows && Lower(other.genre) == key ==> other.playtime <= row.playtime
  }

  /** `user` has a row of genre `key` in `year`. */
  ghost predicate UserHasYear(rows: seq<PlayRow>, key: string, user: string, year: int)
  {
    exists row :: row in rows && Lower(row.genre) == key && row.user == user && row.year == year
  }

  /** The per-year breakdown of `user`'s playtime in genre `key`: ascending
      years, exactly the years the user has a row of the genre in, each with the
      user's summed playtime for it, adding up to the user's total. */
  lemma Breakdown(rows: seq<PlayRow>, key: string, user: string)
    ensures Ascending(HoursByYear(OfUser(Select(rows, key), user)))
    ensures forall y :: y in YearsOf(HoursByYear(OfUser(Select(rows, key), user))) <==> UserHasYear(rows, key, user, y)
    ensures forall i :: 0 <= i < |HoursByYear(OfUser(Select(rows, key), user))| ==>
              HoursByYear(OfUser(Select(rows, key), user))[i].hours
              == UserYearHours(rows, key, user, HoursByYear(OfUser(Select(rows, key), user))[i].year)
    ensures Total(HoursByYear(OfUser(Select(rows, key), user))) == UserHours(rows, key, user)
  {
    var mine := OfUser(Select(rows, key), user);
    var g := HoursByYear(mine);
    forall y ensures y in YearsOf(g) <==> UserHasYear(rows, key, user, y) {
      YearsIndex(mine, y);
    }
    forall i | 0 <= i < |g| ensures g[i].hours == UserYearHours(rows, key, user, g[i].year) {
      LookupAt(g, i);
      UserSelectHours(rows, key, user, g[i].year);
    }
    UserSelectTotal(rows, key, user);
  }

  /** `UserForGenre`: the user on the row with the longest playtime in the
      requested genre, with that user's playtime in the genre per year. */
  function UserForGenre(rows: seq<PlayRow>, genre: string): (r: Reply<string, TopUser>)
    ensures r.NotFound? <==> forall row :: row in rows ==> Lower(row.genre) != Lower(genre)
    ensures r.NotFound? ==> r.key == genre
    ensures r.Found? ==> LongestSession(rows, Lower(genre), r.value.user)
    ensures r.Found? ==> Ascending(r.value.hours)
    ensures r.Found? ==> forall y :: y in YearsOf(r.value.hours) <==> UserHasYear(rows, Lower(genre), r.value.user, y)
    ensures r.Found? ==> forall i :: 0 <= i < |r.value.hours| ==>
              r.value.hours[i].hours == UserYearHours(rows, Lower(genre), r.value.user, r.value.hours[i].year)
    ensures r.Found? ==> Total(r.value.hours) == UserHours(rows, Lower(genre), r.value.user)
  {
    var key := Lower(genre);
    var m := Select(rows, key);
    if |m| == 0 then NotFound(genre)
    else
      var i := ArgMax(Playtimes(m));
      var user := m[i].user;
      assert forall other :: other in rows && Lower(other.genre) == key ==> other.playtime <= m[i].playtime by {
        forall other | other in rows && Lower(other.genre) == key ensures other.playtime <= m[i].playtime {
          var j :| 0 <= j < |m| && m[j] == other;
          assert Playtimes(m)[j] <= Playtimes(m)[i];
        }
      }
      assert m[i] in m;
      Breakdown(rows, key, user);
      Found(TopUser(user, HoursByYear(OfUser(m, user))))
  }

  /** Genres that differ only in letter case get the same answer. */
  lemma GenreCaseInsensitive(rows: seq<PlayRow>, a: string, b: string)
    requires SameIgnoringCase(a, b)
    ensures PlayTimeGenre(rows, a).Found? <==> PlayTimeGenre(rows, b).Found?
    ensures PlayTimeGenre(rows, a).Found? ==> PlayTimeGenre(rows, a).value == PlayTimeGenre(rows, b).value
    ensures UserForGenre(rows, a).Found? <==> UserForGenre(rows, b).Found?
    ensures UserForGenre(rows, a).Found? ==> UserForGenre(rows, a).value == UserForGenre(rows, b).value
  {
    LowerEqualIff(a, b);
  }

  /** Two "action" rows, 500 hours in 2012 and 100 in 2010: asking for "Action"
      gives 2012. */
  lemma ActionScenario()
    ensures PlayTimeGenre([PlayRow("action", 2012, "u", 500), PlayRow("action", 2010, "u", 100)], "Action")
            == Found(2012)
  {
  }
}
