/**
 The per-genre scan and the averages. For every genre the source walks over all
 movies, and for each movie whose genre list holds the genre it adds one to the
 count and the movie's revenue and rating to two running sums. The averages are
 then each sum divided by the count.
 */
module GenreStats {
  import opened Movies

  /** `n`, `revenue` and `rating` are the count and the two totals of genre `g` over `movies`. */
  predicate TalliesFor(movies: seq<Movie>, g: string, n: nat, revenue: real, rating: real)
  {
    && n == MovieCount(movies, g)
    && revenue == Total(Containing(movies, g), Revenue)
    && rating == Total(Containing(movies, g), Rating)
  }

  /**
   The nested scan: entry i of each output column is the count, the revenue total and
   the rating total of `genres[i]`, accumulated over the movies that contain it.
   */
  method ScanGenres(movies: seq<Movie>, genres: seq<string>)
    returns (nOfMovies: seq<nat>, genreRevenue: seq<real>, totalRating: seq<real>)
    ensures |nOfMovies| == |genres| && |genreRevenue| == |genres| && |totalRating| == |genres|
    ensures forall i :: 0 <= i < |genres| ==>
              TalliesFor(movies, genres[i], nOfMovies[i], genreRevenue[i], totalRating[i])
  {
    nOfMovies, genreRevenue, totalRating := [], [], [];
    for i := 0 to |genres|
      invariant |nOfMovies| == i && |genreRevenue| == i && |totalRating| == i
      invariant forall k :: 0 <= k < i ==>
                  TalliesFor(movies, genres[k], nOfMovies[k], genreRevenue[k], totalRating[k])
    {
      // Each of the three entries of genre i starts at zero.
      nOfMovies := nOfMovies + [0];
      genreRevenue := genreRevenue + [0.0];
      totalRating := totalRating + [0.0];
      for j := 0 to |movies|
        invariant |nOfMovies| == i + 1 && |genreRevenue| == i + 1 && |totalRating| == i + 1
        invariant forall k :: 0 <= k < i ==>
                    TalliesFor(movies, genres[k], nOfMovies[k], genreRevenue[k], totalRating[k])
        invariant TalliesFor(movies[..j], genres[i], nOfMovies[i], genreRevenue[i], totalRating[i])
      {
        assert movies[..j + 1] == movies[..j] + [movies[j]];
        CountedOncePerMovie(movies[..j], movies[j], genres[i]);
        if genres[i] in movies[j].genres {
          nOfMovies := nOfMovies[i := nOfMovies[i] + 1];
          genreRevenue := genreRevenue[i := genreRevenue[i] + movies[j].revenue];
          totalRating := totalRating[i := totalRating[i] + movies[j].rating];
        }
      }
      assert movies[..|movies|] == movies;
    }
  }

  /**
   Entry i of the result is `sums[i]` divided by `counts[i]`, exactly. The source
   indexes `counts` by the positions of `sums` and divides by each count, so it
   needs that many counts, none of them zero.
   */
  function Quotients(sums: seq<real>, counts: seq<nat>): (r: seq<real>)
    requires |sums| <= |counts|
    requires forall i :: 0 <= i < |sums| ==> counts[i] > 0
    ensures |r| == |sums|
    ensures forall i :: 0 <= i < |r| ==> r[i] == sums[i] / (counts[i] as real)
  {
    seq(|sums|, i requires 0 <= i < |sums| => sums[i] / (counts[i] as real))
  }

  /**
   Dividing the scan's totals by the scan's counts gives, for every genre, the mean
   of the column over exactly the movies that list that genre.
   */
  lemma QuotientsAreMeans(movies: seq<Movie>, genres: seq<string>, counts: seq<nat>, sums: seq<real>, f: Measure)
    requires |counts| == |genres| && |sums| == |genres|
    requires forall i :: 0 <= i < |genres| ==> counts[i] >= 1 && counts[i] == |Containing(movies, genres[i])|
    requires forall i :: 0 <= i < |genres| ==> sums[i] == Total(Containing(movies, genres[i]), f)
    ensures var r := Quotients(sums, counts);
            forall i :: 0 <= i < |r| ==> r[i] == Mean(Containing(movies, genres[i]), f)
  {
  }

  /** Every genre of the universe has at least one movie, so its averages are defined. */
  lemma ObservedGenresHaveMovies(movies: seq<Movie>, genres: seq<string>, nOfMovies: seq<nat>)
    requires |nOfMovies| == |genres|
    requires forall i :: 0 <= i < |genres| ==> Observed(movies, genres[i])
    requires forall i :: 0 <= i < |genres| ==> nOfMovies[i] == MovieCount(movies, genres[i])
    ensures forall i :: 0 <= i < |genres| ==> nOfMovies[i] >= 1
  {
    forall i | 0 <= i < |genres| ensures nOfMovies[i] >= 1 {
      ObservedIffCounted(movies, genres[i]);
    }
  }
}
