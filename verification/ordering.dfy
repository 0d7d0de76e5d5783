/**
 Re-ordering the genre table by one of its metric columns, ascending. The chart
 code sorts the table by revenue per movie, and then sorts that result again by
 overall revenue. A sort moves whole rows: a genre and its statistics stay
 together, and no row is added or lost.
 */
module RowOrder {
  import opened Movies
  import opened GenreTable

  /** The metric columns the table is sorted by. */
  datatype Metric = RevenuePerMovie | OverallRevenue

  function Key(row: GenreRow, m: Metric): real
  {
    match m
    case RevenuePerMovie => row.revenuePerMovie
    case OverallRevenue => row.overallRevenue
  }

  /** The metric column is non-decreasing from each row to the next. */
  predicate SortedBy(t: seq<GenreRow>, m: Metric)
  {
    forall i :: 0 < i < |t| ==> Key(t[i - 1], m) <= Key(t[i], m)
  }

  /** In a sorted table every row's key is at most the key of every row below it. */
  lemma {:induction false} SortedPairwise(t: seq<GenreRow>, m: Metric)
    requires SortedBy(t, m)
    ensures forall i, j :: 0 <= i < j < |t| ==> Key(t[i], m) <= Key(t[j], m)
  {
    if |t| > 1 {
      SortedPairwise(t[1..], m);
      forall j | 1 <= j < |t| ensures Key(t[0], m) <= Key(t[j], m) {
        assert Key(t[0], m) <= Key(t[1], m);
        if j > 1 {
          assert t[1..][0] == t[1] && t[1..][j - 1] == t[j];
        }
      }
      forall i, j | 1 <= i < j < |t| ensures Key(t[i], m) <= Key(t[j], m) {
        assert t[1..][i - 1] == t[i] && t[1..][j - 1] == t[j];
      }
    }
  }

  /** Puts `x` into a sorted table in front of the first row whose key is not smaller. */
  function Insert(x: GenreRow, t: seq<GenreRow>, m: Metric): (r: seq<GenreRow>)
    requires SortedBy(t, m)
    ensures SortedBy(r, m)
    ensures multiset(r) == multiset(t) + multiset{x}
    // The new first row is either `x` or the old first row.
    ensures r[0] == x || r[0] == t[0]
  {
    if |t| == 0 || Key(x, m) <= Key(t[0], m) then
      [x] + t
    else
      var rest := Insert(x, t[1..], m);
      assert t == [t[0]] + t[1..];
      [t[0]] + rest
  }

  /** The table ordered ascending by metric `m`: a sorted permutation of its rows. */
  function SortValues(t: seq<GenreRow>, m: Metric): (r: seq<GenreRow>)
    ensures SortedBy(r, m)
    ensures multiset(r) == multiset(t)
  {
    if |t| == 0 then []
    else
      assert t == [t[0]] + t[1..];
      Insert(t[0], SortValues(t[1..], m), m)
  }

  /** The two orders the charts are drawn in: by revenue per movie, then that re-sorted by overall revenue. */
  function ChartOrders(t: seq<GenreRow>): (r: (seq<GenreRow>, seq<GenreRow>))
    ensures SortedBy(r.0, RevenuePerMovie) && multiset(r.0) == multiset(t)
    ensures SortedBy(r.1, OverallRevenue) && multiset(r.1) == multiset(t)
  {
    var first := SortValues(t, RevenuePerMovie);
    (first, SortValues(first, OverallRevenue))
  }

  /**
   Two tables that hold the same rows and are both sorted by metric `m` agree on
   the metric column position by position; only rows with equal values can sit
   in different places. So whatever order a sort gives to ties, the column it
   sorted by comes out the same.
   */
  lemma {:induction false} SortedPermutationsAgreeOnKeys(a: seq<GenreRow>, b: seq<GenreRow>, m: Metric)
    requires SortedBy(a, m) && SortedBy(b, m)
    requires multiset(a) == multiset(b)
    ensures |a| == |b|
    ensures forall i :: 0 <= i < |a| ==> Key(a[i], m) == Key(b[i], m)
    decreases |a|
  {
    assert |a| == |multiset(a)| == |multiset(b)| == |b|;
    if |a| > 0 {
      var j := FirstKeysAgree(a, b, m);
      var rest := b[..j] + b[j + 1..];
      RemoveKeepsSorted(b, j, m);
      RemoveOne(b, j);
      assert a == [a[0]] + a[1..];
      assert multiset(a[1..]) == multiset(rest);
      SortedTail(a, m);
      SortedPermutationsAgreeOnKeys(a[1..], rest, m);
      KeysAfterRemoval(a, b, j, m);
    }
  }

  /** The rows below the first of a sorted table are sorted. */
  lemma SortedTail(t: seq<GenreRow>, m: Metric)
    requires |t| > 0 && SortedBy(t, m)
    ensures SortedBy(t[1..], m)
  {
    forall i | 0 < i < |t[1..]| ensures Key(t[1..][i - 1], m) <= Key(t[1..][i], m) {
      assert t[1..][i - 1] == t[i] && t[1..][i] == t[i + 1];
    }
  }

  /**
   The inductive step: when a[0] sits at place j of b and the rest of a agrees in keys
   with b without place j, then a and b agree in keys everywhere.
   */
  lemma KeysAfterRemoval(a: seq<GenreRow>, b: seq<GenreRow>, j: int, m: Metric)
    requires |a| == |b| && 0 <= j < |b|
    requires SortedBy(b, m)
    requires Key(a[0], m) == Key(b[0], m) == Key(b[j], m)
    requires var rest := b[..j] + b[j + 1..];
             forall i :: 0 <= i < |a| - 1 ==> Key(a[1..][i], m) == Key(rest[i], m)
    ensures forall i :: 0 <= i < |a| ==> Key(a[i], m) == Key(b[i], m)
  {
    var rest := b[..j] + b[j + 1..];
    SortedPairwise(b, m);
    forall i | 1 <= i < |a| ensures Key(a[i], m) == Key(b[i], m) {
      assert Key(a[i], m) == Key(rest[i - 1], m) by { assert a[1..][i - 1] == a[i]; }
      if i <= j {
        // b[i - 1] and b[i] lie between b[0] and b[j], whose keys agree.
        assert rest[i - 1] == b[i - 1];
        assert Key(b[0], m) <= Key(b[i - 1], m) <= Key(b[i], m) <= Key(b[j], m);
      } else {
        assert rest[i - 1] == b[i];
      }
    }
  }

  /** Two sorted tables with the same rows start with the same key, and b holds a[0] at a place with that key. */
  lemma FirstKeysAgree(a: seq<GenreRow>, b: seq<GenreRow>, m: Metric) returns (j: int)
    requires |a| > 0
    requires SortedBy(a, m) && SortedBy(b, m)
    requires multiset(a) == multiset(b)
    ensures 0 <= j < |b| && b[j] == a[0]
    ensures Key(a[0], m) == Key(b[0], m) == Key(b[j], m)
  {
    SortedPairwise(a, m);
    SortedPairwise(b, m);
    assert a[0] in multiset(b);
    j :| 0 <= j < |b| && b[j] == a[0];
    assert b[0] in multiset(a);
    var k :| 0 <= k < |a| && a[k] == b[0];
    assert Key(a[0], m) <= Key(a[k], m);
  }

  /** Dropping one row of a sorted table leaves it sorted. */
  lemma RemoveKeepsSorted(b: seq<GenreRow>, j: int, m: Metric)
    requires 0 <= j < |b|
    requires SortedBy(b, m)
    ensures SortedBy(b[..j] + b[j + 1..], m)
  {
    var rest := b[..j] + b[j + 1..];
    forall i | 0 < i < |rest| ensures Key(rest[i - 1], m) <= Key(rest[i], m) {
      if i < j {
        assert rest[i - 1] == b[i - 1] && rest[i] == b[i];
      } else if i == j {
        assert rest[i - 1] == b[i - 1] && rest[i] == b[i + 1];
        assert Key(b[i - 1], m) <= Key(b[i], m) <= Key(b[i + 1], m);
      } else {
        assert rest[i - 1] == b[i] && rest[i] == b[i + 1];
      }
    }
  }

  /** Dropping the row at place j takes exactly that row out of the table's multiset. */
  lemma RemoveOne(b: seq<GenreRow>, j: int)
    requires 0 <= j < |b|
    ensures multiset(b[..j] + b[j + 1..]) == multiset(b) - multiset{b[j]}
  {
    assert b == b[..j] + [b[j]] + b[j + 1..];
  }

  /**
   Sorting a table already sorted by the metric leaves the metric column as it was.
   The rows themselves may move only among ties, which pandas' unstable sort may do.
   */
  lemma SortedKeepsKeys(t: seq<GenreRow>, m: Metric)
    requires SortedBy(t, m)
    ensures |SortValues(t, m)| == |t|
    ensures forall i :: 0 <= i < |t| ==> Key(SortValues(t, m)[i], m) == Key(t[i], m)
  {
    SortedPermutationsAgreeOnKeys(SortValues(t, m), t, m);
  }

  /** With no two equal values in the metric column, sorting an already sorted table changes nothing. */
  lemma StrictlySortedIsFixedPoint(t: seq<GenreRow>, m: Metric)
    requires forall i :: 0 < i < |t| ==> Key(t[i - 1], m) < Key(t[i], m)
    ensures SortValues(t, m) == t
  {
    StrictlySortedIsUnique(t, SortValues(t, m), m);
  }

  /** With no two equal values, every sorted table holding the rows of `t` is `t` itself. */
  lemma StrictlySortedIsUnique(t: seq<GenreRow>, r: seq<GenreRow>, m: Metric)
    requires forall i :: 0 < i < |t| ==> Key(t[i - 1], m) < Key(t[i], m)
    requires SortedBy(r, m)
    requires multiset(r) == multiset(t)
    ensures r == t
  {
    SortedPermutationsAgreeOnKeys(t, r, m);
    SortedStrictPairwise(t, m);
    forall i | 0 <= i < |t| ensures r[i] == t[i] {
      assert r[i] in multiset(t);
      var k :| 0 <= k < |t| && t[k] == r[i];
      assert Key(t[k], m) == Key(t[i], m);
    }
  }

  lemma {:induction false} SortedStrictPairwise(t: seq<GenreRow>, m: Metric)
    requires forall i :: 0 < i < |t| ==> Key(t[i - 1], m) < Key(t[i], m)
    ensures forall i, j :: 0 <= i < j < |t| ==> Key(t[i], m) < Key(t[j], m)
  {
    if |t| > 1 {
      SortedStrictPairwise(t[1..], m);
      forall i, j | 0 <= i < j < |t| ensures Key(t[i], m) < Key(t[j], m) {
        if i == 0 {
          if j > 1 {
            assert t[1..][0] == t[1] && t[1..][j - 1] == t[j];
          }
        } else {
          assert t[1..][i - 1] == t[i] && t[1..][j - 1] == t[j];
        }
      }
    }
  }

  /** Sorting keeps the genres of a table distinct; this rests only on the sort being a permutation. */
  lemma SortKeepsGenresDistinct(t: seq<GenreRow>, m: Metric)
    requires GenresDistinct(t)
    ensures GenresDistinct(SortValues(t, m))
  {
    PermutationKeepsGenresDistinct(t, SortValues(t, m));
  }

  /**
   A sorted table is still a genre table of the same movies: every row keeps its
   genre together with that genre's count, totals and averages.
   */
  lemma SortKeepsDescription(movies: seq<Movie>, t: seq<GenreRow>, m: Metric)
    requires Describes(movies, t)
    ensures Describes(movies, SortValues(t, m))
  {
    PermutationKeepsDescription(movies, t, SortValues(t, m));
  }

  /** Any re-ordering of a genre table's whole rows is a genre table of the same movies. */
  lemma PermutationKeepsDescription(movies: seq<Movie>, t: seq<GenreRow>, r: seq<GenreRow>)
    requires Describes(movies, t)
    requires multiset(r) == multiset(t)
    ensures Describes(movies, r)
  {
    PermutationKeepsGenresDistinct(t, r);
    forall i | 0 <= i < |r| ensures RowDescribes(movies, r[i]) {
      assert r[i] in multiset(t);
      var k :| 0 <= k < |t| && t[k] == r[i];
    }
    forall g ensures HasRow(r, g) <==> HasRow(t, g) {
      if HasRow(r, g) {
        var i :| 0 <= i < |r| && r[i].genre == g;
        assert r[i] in multiset(t);
        var k :| 0 <= k < |t| && t[k] == r[i];
      }
      if HasRow(t, g) {
        var k :| 0 <= k < |t| && t[k].genre == g;
        assert t[k] in multiset(r);
        var i :| 0 <= i < |r| && r[i] == t[k];
      }
    }
  }

  /** Rows with distinct genres stay distinct under any re-ordering. */
  lemma PermutationKeepsGenresDistinct(t: seq<GenreRow>, r: seq<GenreRow>)
    requires GenresDistinct(t)
    requires multiset(r) == multiset(t)
    ensures GenresDistinct(r)
  {
    forall i, j | 0 <= i < j < |r| ensures r[i].genre != r[j].genre {
      if r[i].genre == r[j].genre {
        assert r[i] in multiset(t);
        assert r[j] in multiset(t);
        var k :| 0 <= k < |t| && t[k] == r[i];
        var l :| 0 <= l < |t| && t[l] == r[j];
        if r[i] == r[j] {
          TwoPlacesCountTwice(r, i, j);
          AtMostOnce(t, r[i]);
          assert false;
        } else {
          assert false;
        }
      }
    }
  }

  /** A row that sits at two places of a table occurs in it at least twice. */
  lemma TwoPlacesCountTwice(s: seq<GenreRow>, i: int, j: int)
    requires 0 <= i < j < |s| && s[i] == s[j]
    ensures multiset(s)[s[i]] >= 2
  {
    assert s == s[..j] + s[j..];
    assert s[i] == s[..j][i];
    assert s[j] == s[j..][0];
    assert multiset(s) == multiset(s[..j]) + multiset(s[j..]);
  }

  /** In a table with distinct genres no row occurs twice. */
  lemma {:induction false} AtMostOnce(s: seq<GenreRow>, x: GenreRow)
    requires GenresDistinct(s)
    ensures multiset(s)[x] <= 1
  {
    if |s| > 0 {
      assert s == [s[0]] + s[1..];
      AtMostOnce(s[1..], x);
      if x == s[0] {
        forall k | 0 <= k < |s[1..]| ensures s[1..][k] != x {
          assert s[1..][k] == s[k + 1];
        }
        assert x !in s[1..];
      }
    }
  }

  /** Both chart orders are genre tables of the same movies. */
  lemma ChartOrdersDescribe(movies: seq<Movie>, t: seq<GenreRow>)
    requires Describes(movies, t)
    ensures Describes(movies, ChartOrders(t).0) && Describes(movies, ChartOrders(t).1)
  {
    SortKeepsDescription(movies, t, RevenuePerMovie);
    SortKeepsDescription(movies, SortValues(t, RevenuePerMovie), OverallRevenue);
  }
}
