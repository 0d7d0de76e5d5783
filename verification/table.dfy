/**
 The genre table: one row per genre of the universe, with the number of movies
 of the genre, their overall revenue, the revenue per movie and the average
 rating. The columns are computed separately and then zipped into rows.
 */
module GenreTable {
  import opened Movies
  import opened GenreUniverse
  import opened GenreStats

  /** One row of the table; the total rating is not a column of it. */
  datatype GenreRow = GenreRow(
    genre: string,
    movieCount: nat,
    overallRevenue: real,
    revenuePerMovie: real,
    averageRating: real)

  function Min(a: int, b: int): int
  {
    if a <= b then a else b
  }

  /**
   Row i is built from entry i of every column. Like Python's `zip`, the table is as
   long as the shortest column; surplus entries are dropped.
   */
  function Zip(genres: seq<string>, counts: seq<nat>, revenues: seq<real>,
               perMovie: seq<real>, ratings: seq<real>): (t: seq<GenreRow>)
    ensures |t| == Min(Min(Min(|genres|, |counts|), Min(|revenues|, |perMovie|)), |ratings|)
    ensures forall i :: 0 <= i < |t| ==>
              t[i] == GenreRow(genres[i], counts[i], revenues[i], perMovie[i], ratings[i])
  {
    if |genres| == 0 || |counts| == 0 || |revenues| == 0 || |perMovie| == 0 || |ratings| == 0 then []
    else
      [GenreRow(genres[0], counts[0], revenues[0], perMovie[0], ratings[0])]
      + Zip(genres[1..], counts[1..], revenues[1..], perMovie[1..], ratings[1..])
  }

  /** The genre column of a table. */
  function GenreColumn(t: seq<GenreRow>): (r: seq<string>)
  {
    if |t| == 0 then [] else [t[0].genre] + GenreColumn(t[1..])
  }

  /** Zipping columns of one length and reading the genre column back returns the genres unchanged. */
  lemma {:induction false} ZipKeepsGenreColumn(genres: seq<string>, counts: seq<nat>, revenues: seq<real>,
                                               perMovie: seq<real>, ratings: seq<real>)
    requires |counts| == |genres| && |revenues| == |genres| && |perMovie| == |genres| && |ratings| == |genres|
    ensures GenreColumn(Zip(genres, counts, revenues, perMovie, ratings)) == genres
    decreases |genres|
  {
    if |genres| > 0 {
      ZipKeepsGenreColumn(genres[1..], counts[1..], revenues[1..], perMovie[1..], ratings[1..]);
    }
  }

  /** The row holds the true statistics of its genre over `movies`, averages as exact quotients. */
  predicate RowDescribes(movies: seq<Movie>, row: GenreRow)
  {
    && row.movieCount >= 1
    && row.movieCount == MovieCount(movies, row.genre)
    && row.overallRevenue == Total(Containing(movies, row.genre), Revenue)
    && row.revenuePerMovie == Mean(Containing(movies, row.genre), Revenue)
    && row.averageRating == Mean(Containing(movies, row.genre), Rating)
  }

  /** No two rows share a genre. */
  predicate GenresDistinct(t: seq<GenreRow>)
  {
    forall i, j :: 0 <= i < j < |t| ==> t[i].genre != t[j].genre
  }

  /** Some row of the table is about genre `g`. */
  predicate HasRow(t: seq<GenreRow>, g: string)
  {
    exists i :: 0 <= i < |t| && t[i].genre == g
  }

  /**
   The table is a genre table of `movies`: one row for each observed genre and no
   other, each row carrying that genre's statistics.
   */
  ghost predicate Describes(movies: seq<Movie>, t: seq<GenreRow>)
  {
    && GenresDistinct(t)
    && (forall g :: HasRow(t, g) <==> Observed(movies, g))
    && (forall i :: 0 <= i < |t| ==> RowDescribes(movies, t[i]))
  }

  /** Builds the genre table: universe, scan, averages, zip. */
  method CreateGenresTable(movies: seq<Movie>) returns (table: seq<GenreRow>)
    ensures Describes(movies, table)
    ensures |table| == |set g | g in Flatten(movies)|
  {
    var genres := Universe(movies);
    var nOfMovies, genreRevenue, totalRating := ScanGenres(movies, genres);
    ObservedGenresHaveMovies(movies, genres, nOfMovies);
    var revenuePerMovie := Quotients(genreRevenue, nOfMovies);
    var averageRating := Quotients(totalRating, nOfMovies);
    table := Zip(genres, nOfMovies, genreRevenue, revenuePerMovie, averageRating);
    ZippedRowsDescribe(movies, genres, nOfMovies, genreRevenue, totalRating, revenuePerMovie, averageRating);
    ZippedGenresMatch(movies, genres, table);
    DistinctCount(genres, Flatten(movies));
  }

  /** Columns holding the scan's tallies and their exact quotients zip into rows that describe their genres. */
  lemma ZippedRowsDescribe(movies: seq<Movie>, genres: seq<string>, nOfMovies: seq<nat>,
                           genreRevenue: seq<real>, totalRating: seq<real>,
                           revenuePerMovie: seq<real>, averageRating: seq<real>)
    requires |nOfMovies| == |genres| && |genreRevenue| == |genres| && |totalRating| == |genres|
    requires forall i :: 0 <= i < |genres| ==>
               TalliesFor(movies, genres[i], nOfMovies[i], genreRevenue[i], totalRating[i])
    requires forall i :: 0 <= i < |genres| ==> nOfMovies[i] >= 1
    requires revenuePerMovie == Quotients(genreRevenue, nOfMovies)
    requires averageRating == Quotients(totalRating, nOfMovies)
    ensures var t := Zip(genres, nOfMovies, genreRevenue, revenuePerMovie, averageRating);
            forall i :: 0 <= i < |t| ==> RowDescribes(movies, t[i])
  {
    QuotientsAreMeans(movies, genres, nOfMovies, genreRevenue, Revenue);
    QuotientsAreMeans(movies, genres, nOfMovies, totalRating, Rating);
    var table := Zip(genres, nOfMovies, genreRevenue, revenuePerMovie, averageRating);
    forall i | 0 <= i < |table| ensures RowDescribes(movies, table[i]) {
      assert table[i] == GenreRow(genres[i], nOfMovies[i], genreRevenue[i], revenuePerMovie[i], averageRating[i]);
    }
  }

  /** A table whose genre column is the universe has one row per observed genre, and no two alike. */
  lemma ZippedGenresMatch(movies: seq<Movie>, genres: seq<string>, table: seq<GenreRow>)
    requires Distinct(genres)
    requires forall g :: g in genres <==> Observed(movies, g)
    requires |table| == |genres|
    requires forall i :: 0 <= i < |table| ==> table[i].genre == genres[i]
    ensures GenresDistinct(table)
    ensures forall g :: HasRow(table, g) <==> Observed(movies, g)
  {
    forall g ensures HasRow(table, g) <==> g in genres {
      if g in genres {
        var i :| 0 <= i < |genres| && genres[i] == g;
        assert table[i].genre == g;
      }
    }
  }

  /** A duplicate-free list holding exactly the labels of `s` is as long as the set of those labels. */
  lemma DistinctCount(genres: seq<string>, s: seq<string>)
    requires Distinct(genres)
    requires forall g :: g in genres <==> g in s
    ensures |genres| == |set g | g in s|
  {
    assert (set g | g in s) == (set g | g in genres);
    DistinctCardinality(genres);
  }

  lemma {:induction false} DistinctCardinality(genres: seq<string>)
    requires Distinct(genres)
    ensures |set g | g in genres| == |genres|
  {
    if |genres| > 0 {
      var rest := genres[1..];
      DistinctCardinality(rest);
      assert (set g | g in genres) == {genres[0]} + (set g | g in rest);
      assert genres[0] !in rest;
    }
  }

  /**
   When every movie's rating lies in [lo, hi], every row's average rating does too;
   the same holds of revenue per movie for revenues in [lo, hi].
   */
  lemma AveragesWithinBounds(movies: seq<Movie>, t: seq<GenreRow>, f: Measure, lo: real, hi: real)
    requires Describes(movies, t)
    requires forall k :: 0 <= k < |movies| ==> lo <= Value(movies[k], f) <= hi
    ensures forall i :: 0 <= i < |t| ==>
              lo <= (if f == Revenue then t[i].revenuePerMovie else t[i].averageRating) <= hi
  {
    forall i | 0 <= i < |t|
      ensures lo <= (if f == Revenue then t[i].revenuePerMovie else t[i].averageRating) <= hi
    {
      var ms := Containing(movies, t[i].genre);
      forall k | 0 <= k < |ms| ensures lo <= Value(ms[k], f) <= hi {
        assert ms[k] in ms;
      }
      MeanWithinBounds(ms, f, lo, hi);
    }
  }
}
