/**
 The genre universe: every label that occurs in some movie's genre list, each
 once. The source flattens all genre lists into one list, collects that list
 into a set, and turns the set back into a list whose order is not specified.
 */
module GenreUniverse {
  import opened Movies

  /** No label occurs twice. */
  predicate Distinct(s: seq<string>)
  {
    forall i, j :: 0 <= i < j < |s| ==> s[i] != s[j]
  }

  /** All genre lists concatenated in dataset order; repetitions are kept. */
  function Flatten(movies: seq<Movie>): (r: seq<string>)
    ensures forall g :: g in r <==> Observed(movies, g)
  {
    if |movies| == 0 then []
    else
      var rest := Flatten(movies[1..]);
      ObservedCons(movies);
      movies[0].genres + rest
  }

  /** The set of genres, built by adding every label of the flattened list in turn. */
  method GenreSet(movies: seq<Movie>) returns (s: set<string>)
    ensures forall g :: g in s <==> Observed(movies, g)
  {
    var listOfGenres := Flatten(movies);
    s := {};
    for k := 0 to |listOfGenres|
      invariant forall g :: g in s <==> g in listOfGenres[..k]
    {
      assert listOfGenres[..k + 1] == listOfGenres[..k] + [listOfGenres[k]];
      s := s + {listOfGenres[k]};
    }
    assert listOfGenres[..|listOfGenres|] == listOfGenres;
  }

  /** Lists the elements of a set, each once, in an order the caller may not rely on. */
  method ListOfSet(s: set<string>) returns (r: seq<string>)
    ensures Distinct(r)
    ensures forall g :: g in r <==> g in s
    ensures |r| == |s|
  {
    r := [];
    var rest := s;
    while rest != {}
      invariant forall g :: g in s <==> g in rest || g in r
      invariant forall g :: g in rest ==> g !in r
      invariant Distinct(r)
      invariant |r| + |rest| == |s|
      decreases |rest|
    {
      var g :| g in rest;
      r := r + [g];
      rest := rest - {g};
    }
  }

  /** The genre universe as the list the per-genre scan walks through. */
  method Universe(movies: seq<Movie>) returns (genres: seq<string>)
    ensures Distinct(genres)
    ensures forall g :: g in genres <==> Observed(movies, g)
  {
    var setOfGenres := GenreSet(movies);
    genres := ListOfSet(setOfGenres);
  }
}
