/**
 The movie dataset after loading: one record per movie, its genre list already
 parsed into a sequence of labels, and the two numeric columns the genre table
 aggregates. This module also fixes the reference meaning of "the movies of a
 genre" and of their totals, as a filter followed by a fold.
 */
module Movies {

  /** One row of the dataset. A label may, in principle, occur more than once in `genres`. */
  datatype Movie = Movie(genres: seq<string>, revenue: real, rating: real)

  /** The numeric columns that are summed per genre. */
  datatype Measure = Revenue | Rating

  function Value(m: Movie, f: Measure): real
  {
    match f
    case Revenue => m.revenue
    case Rating => m.rating
  }

  /** The membership test of the scan: the label occurs in the movie's genre list. */
  predicate HasGenre(m: Movie, g: string)
  {
    g in m.genres
  }

  /** Some movie of the dataset lists genre `g`. */
  predicate Observed(movies: seq<Movie>, g: string)
  {
    exists i :: 0 <= i < |movies| && HasGenre(movies[i], g)
  }

  /** The movies that list genre `g`, in dataset order (the filter). */
  function Containing(movies: seq<Movie>, g: string): (r: seq<Movie>)
    ensures |r| <= |movies|
    ensures forall m :: m in r ==> m in movies && HasGenre(m, g)
  {
    if |movies| == 0 then []
    else (if HasGenre(movies[0], g) then [movies[0]] else []) + Containing(movies[1..], g)
  }

  /** The sum of one numeric column over a sequence of movies (the fold). */
  function Total(ms: seq<Movie>, f: Measure): real
  {
    if |ms| == 0 then 0.0 else Value(ms[0], f) + Total(ms[1..], f)
  }

  /** The mean of one numeric column over a non-empty sequence of movies, as an exact quotient. */
  function Mean(ms: seq<Movie>, f: Measure): real
    requires |ms| > 0
  {
    Total(ms, f) / (|ms| as real)
  }

  /** Number of movies that list genre `g`; a movie counts once however often it lists `g`. */
  function MovieCount(movies: seq<Movie>, g: string): nat
  {
    |Containing(movies, g)|
  }

  /** The indices of the movies that list `g`: an independent description of the filter. */
  function IndicesWith(movies: seq<Movie>, g: string): set<int>
  {
    set i | 0 <= i < |movies| && HasGenre(movies[i], g)
  }

  lemma {:induction false} ContainingAppend(a: seq<Movie>, b: seq<Movie>, g: string)
    ensures Containing(a + b, g) == Containing(a, g) + Containing(b, g)
  {
    if |a| == 0 {
      assert a + b == b;
    } else {
      assert (a + b)[1..] == a[1..] + b;
      ContainingAppend(a[1..], b, g);
    }
  }

  lemma {:induction false} TotalAppend(a: seq<Movie>, b: seq<Movie>, f: Measure)
    ensures Total(a + b, f) == Total(a, f) + Total(b, f)
  {
    if |a| == 0 {
      assert a + b == b;
    } else {
      assert (a + b)[1..] == a[1..] + b;
      TotalAppend(a[1..], b, f);
    }
  }

  /** Extending the dataset by one movie adds that movie to the filter exactly when it lists `g`. */
  lemma ContainingSnoc(movies: seq<Movie>, m: Movie, g: string)
    ensures Containing(movies + [m], g) == Containing(movies, g) + (if HasGenre(m, g) then [m] else [])
  {
    ContainingAppend(movies, [m], g);
    assert Containing([m], g) == (if HasGenre(m, g) then [m] else []) + Containing([], g);
  }

  /**
   One more movie adds one to the count when it lists `g` -- once, even when it lists
   `g` several times -- and adds its revenue and rating to the totals; a movie without
   `g` contributes nothing.
   */
  lemma CountedOncePerMovie(movies: seq<Movie>, m: Movie, g: string)
    ensures MovieCount(movies + [m], g) == MovieCount(movies, g) + (if HasGenre(m, g) then 1 else 0)
    ensures forall f :: Total(Containing(movies + [m], g), f)
                        == Total(Containing(movies, g), f) + (if HasGenre(m, g) then Value(m, f) else 0.0)
  {
    ContainingSnoc(movies, m, g);
    forall f
      ensures Total(Containing(movies + [m], g), f)
              == Total(Containing(movies, g), f) + (if HasGenre(m, g) then Value(m, f) else 0.0)
    {
      var single := if HasGenre(m, g) then [m] else [];
      TotalAppend(Containing(movies, g), single, f);
      assert Total(single, f) == (if HasGenre(m, g) then Value(m, f) else 0.0) by {
        if HasGenre(m, g) {
          assert single[1..] == [];
        }
      }
    }
  }

  /** The count is the number of movie indices whose genre list holds `g`. */
  lemma {:induction false} MovieCountIsIndexCount(movies: seq<Movie>, g: string)
    ensures MovieCount(movies, g) == |IndicesWith(movies, g)|
    decreases |movies|
  {
    if |movies| == 0 {
      assert IndicesWith(movies, g) == {};
    } else {
      var front := movies[..|movies| - 1];
      var last := movies[|movies| - 1];
      assert movies == front + [last];
      MovieCountIsIndexCount(front, g);
      CountedOncePerMovie(front, last, g);
      if HasGenre(last, g) {
        assert IndicesWith(movies, g) == IndicesWith(front, g) + {|front|};
      } else {
        assert IndicesWith(movies, g) == IndicesWith(front, g);
      }
    }
  }

  /** A non-empty dataset observes `g` when its first movie lists `g` or the rest observes it. */
  lemma ObservedCons(movies: seq<Movie>)
    requires |movies| > 0
    ensures forall g :: Observed(movies, g) <==> HasGenre(movies[0], g) || Observed(movies[1..], g)
  {
    forall g ensures Observed(movies, g) ==> HasGenre(movies[0], g) || Observed(movies[1..], g) {
      if Observed(movies, g) && !HasGenre(movies[0], g) {
        var i :| 0 <= i < |movies| && HasGenre(movies[i], g);
        assert movies[1..][i - 1] == movies[i];
      }
    }
    forall g ensures Observed(movies[1..], g) ==> Observed(movies, g) {
      if Observed(movies[1..], g) {
        var i :| 0 <= i < |movies[1..]| && HasGenre(movies[1..][i], g);
        assert movies[i + 1] == movies[1..][i];
      }
    }
  }

  /** A genre has at least one movie exactly when some movie lists it. */
  lemma {:induction false} ObservedIffCounted(movies: seq<Movie>, g: string)
    ensures Observed(movies, g) <==> MovieCount(movies, g) >= 1
    decreases |movies|
  {
    if |movies| > 0 {
      ObservedIffCounted(movies[1..], g);
      ObservedCons(movies);
    }
  }

  /** When every value of a column lies in [lo, hi], the total lies between n * lo and n * hi. */
  lemma {:induction false} TotalWithinBounds(ms: seq<Movie>, f: Measure, lo: real, hi: real)
    requires forall i :: 0 <= i < |ms| ==> lo <= Value(ms[i], f) <= hi
    ensures (|ms| as real) * lo <= Total(ms, f) <= (|ms| as real) * hi
  {
    if |ms| > 0 {
      TotalWithinBounds(ms[1..], f, lo, hi);
      assert lo <= Value(ms[0], f) <= hi;
    }
  }

  /** When every value of a column lies in [lo, hi], so does the mean over a non-empty sequence. */
  lemma MeanWithinBounds(ms: seq<Movie>, f: Measure, lo: real, hi: real)
    requires |ms| > 0
    requires forall i :: 0 <= i < |ms| ==> lo <= Value(ms[i], f) <= hi
    ensures lo <= Mean(ms, f) <= hi
  {
    TotalWithinBounds(ms, f, lo, hi);
    var n := |ms| as real;
    var mean := Total(ms, f) / n;
    assert mean * n == Total(ms, f);
    assert lo * n <= mean * n <= hi * n;
  }

  /**
   Three movies listing ["Action"], ["Action", "Drama"] and ["Drama"], with revenues
   100, 200 and 300: the middle movie counts towards both genres.
   */
  lemma TwoGenreExample()
    ensures var ms := [Movie(["Action"], 100.0, 0.0), Movie(["Action", "Drama"], 200.0, 0.0),
                       Movie(["Drama"], 300.0, 0.0)];
            && MovieCount(ms, "Action") == 2 && Total(Containing(ms, "Action"), Revenue) == 300.0
            && MovieCount(ms, "Drama") == 2 && Total(Containing(ms, "Drama"), Revenue) == 500.0
  {
    var ms := [Movie(["Action"], 100.0, 0.0), Movie(["Action", "Drama"], 200.0, 0.0),
               Movie(["Drama"], 300.0, 0.0)];
    assert ms[1..][1..] == [ms[2]];
    assert Containing(ms, "Action") == [ms[0], ms[1]];
    assert Containing(ms, "Drama") == [ms[1], ms[2]];
  }
}
