/** Route decoding and tour fitness of app/TSP/TSP_citys.py.  A candidate
    solution is a vector of random keys, one per city; sorting the keys
    (argsort) gives the visiting order, and the fitness of a candidate is the
    length of the closed tour in that order, read from a distance matrix. */
module Tsp {
  import opened Wrappers

  // ----- argsort -----

  /** Index i sorts before index j: a smaller key, or an equal key and a smaller index. */
  predicate Before(keys: seq<real>, i: nat, j: nat)
    requires i < |keys| && j < |keys|
  {
    keys[i] < keys[j] || (keys[i] == keys[j] && i < j)
  }

  predicate InRange(p: seq<nat>, n: nat)
  {
    forall k :: 0 <= k < |p| ==> p[k] < n
  }

  /** Every earlier index of p sorts before every later one. */
  predicate SortedBy(keys: seq<real>, p: seq<nat>)
    requires InRange(p, |keys|)
  {
    forall a, b :: 0 <= a < b < |p| ==> Before(keys, p[a], p[b])
  }

  /** 0, 1, ..., n-1. */
  function Indices(n: nat): (r: seq<nat>)
    ensures |r| == n
  {
    if n == 0 then [] else Indices(n - 1) + [n - 1]
  }

  lemma {:induction false} IndicesMember(n: nat, x: nat)
    ensures x in multiset(Indices(n)) <==> x < n
  {
    if n > 0 {
      IndicesMember(n - 1, x);
    }
  }

  /** Insert index j behind every index of t whose key is at most keys[j]. */
  function Insert(keys: seq<real>, t: seq<nat>, j: nat): (r: seq<nat>)
    requires InRange(t, |keys|) && j < |keys|
    ensures |r| == |t| + 1 && InRange(r, |keys|)
    ensures multiset(r) == multiset(t) + multiset{j}
  {
    if |t| == 0 then [j]
    else
      var n := |t| - 1;
      assert t == t[..n] + [t[n]];
      if keys[t[n]] <= keys[j] then t + [j] else Insert(keys, t[..n], j) + [t[n]]
  }

  /** The argsort of keys[..n], built by inserting one index after the other. */
  function ArgSortPrefix(keys: seq<real>, n: nat): (p: seq<nat>)
    requires n <= |keys|
    ensures |p| == n && InRange(p, |keys|)
    ensures multiset(p) == multiset(Indices(n))
  {
    if n == 0 then [] else Insert(keys, ArgSortPrefix(keys, n - 1), n - 1)
  }

  /** `argsort(keys)`. */
  function ArgSort(keys: seq<real>): (p: seq<nat>)
    ensures |p| == |keys| && InRange(p, |keys|)
  {
    ArgSortPrefix(keys, |keys|)
  }

  lemma {:induction false} InsertSorted(keys: seq<real>, t: seq<nat>, j: nat)
    requires InRange(t, |keys|) && j < |keys| && SortedBy(keys, t)
    requires forall k :: 0 <= k < |t| ==> t[k] < j
    ensures SortedBy(keys, Insert(keys, t, j))
  {
    if |t| > 0 {
      var n := |t| - 1;
      if keys[t[n]] <= keys[j] {
        var r := t + [j];
        forall a, b | 0 <= a < b < |r| ensures Before(keys, r[a], r[b]) {
          if b == n + 1 && a < n {
            assert Before(keys, t[a], t[n]);
          }
        }
      } else {
        var s := Insert(keys, t[..n], j);
        InsertSorted(keys, t[..n], j);
        var r := s + [t[n]];
        forall a | 0 <= a < |s| ensures Before(keys, s[a], t[n]) {
          assert s[a] in multiset(s);
          if s[a] != j {
            assert s[a] in multiset(t[..n]);
            var a' :| 0 <= a' < n && t[..n][a'] == s[a];
            assert Before(keys, t[a'], t[n]);
          }
        }
        assert forall a, b :: 0 <= a < b < |r| ==> Before(keys, r[a], r[b]);
      }
    }
  }

  /** The argsort of keys[..n] holds only indices below n. */
  lemma PrefixBelow(keys: seq<real>, n: nat)
    requires n <= |keys|
    ensures forall k :: 0 <= k < n ==> ArgSortPrefix(keys, n)[k] < n
  {
    var p := ArgSortPrefix(keys, n);
    forall k | 0 <= k < |p| ensures p[k] < n {
      assert p[k] in multiset(p);
      IndicesMember(n, p[k]);
    }
  }

  lemma {:induction false} ArgSortPrefixSorted(keys: seq<real>, n: nat)
    requires n <= |keys|
    ensures SortedBy(keys, ArgSortPrefix(keys, n))
  {
    if n > 0 {
      ArgSortPrefixSorted(keys, n - 1);
      InsertNextSorted(keys, ArgSortPrefix(keys, n - 1), n - 1);
    }
  }

  /** Inserting the next index j into a sorted arrangement of 0..j-1 keeps it sorted. */
  lemma InsertNextSorted(keys: seq<real>, t: seq<nat>, j: nat)
    requires j < |keys| && |t| == j && InRange(t, |keys|) && SortedBy(keys, t)
    requires multiset(t) == multiset(Indices(j))
    ensures SortedBy(keys, Insert(keys, t, j))
  {
    forall k | 0 <= k < |t| ensures t[k] < j {
      assert t[k] in multiset(t);
      IndicesMember(j, t[k]);
    }
    InsertSorted(keys, t, j);
  }

  /** argsort is a sorting permutation: each index 0..n-1 exactly once, keys non-decreasing
      along it, and equal keys in index order. */
  lemma ArgSortSorts(keys: seq<real>)
    ensures var p := ArgSort(keys);
      multiset(p) == multiset(Indices(|keys|)) &&
      (forall k :: 0 <= k < |p| - 1 ==> keys[p[k]] <= keys[p[k + 1]]) &&
      (forall a, b :: 0 <= a < b < |p| ==> p[a] != p[b]) &&
      (forall a, b :: 0 <= a < b < |p| && keys[p[a]] == keys[p[b]] ==> p[a] < p[b])
  {
    ArgSortPrefixSorted(keys, |keys|);
    var p := ArgSort(keys);
    forall k | 0 <= k < |p| - 1 ensures keys[p[k]] <= keys[p[k + 1]] {
      assert Before(keys, p[k], p[k + 1]);
    }
  }

  // ----- gbest2route -----

  /** The closed route and the cities along it. */
  datatype Route<C> = Route(route: seq<nat>, routeCitys: seq<C>)

  /** `gbest2route(gbest, citys)`: argsort the keys, repeat the first city at the
      end, and index the cities along the route; a route index beyond the
      cities raises IndexError. */
  function Gbest2Route<C>(gbest: seq<real>, citys: seq<C>): (r: Result<Route<C>>)
    ensures r.Ok? <==> |gbest| <= |citys|
    ensures r.Err? ==> r.error == IndexError
    ensures r.Ok? ==> var n := |gbest|;
      |r.value.route| == (if n == 0 then 0 else n + 1) &&
      (n > 0 ==> r.value.route[..n] == ArgSort(gbest) && r.value.route[n] == r.value.route[0]) &&
      |r.value.routeCitys| == |r.value.route| &&
      forall k :: 0 <= k < |r.value.route| ==> r.value.route[k] < |citys| && r.value.routeCitys[k] == citys[r.value.route[k]]
  {
    var p := ArgSort(gbest);
    var route := p + p[..if |p| == 0 then 0 else 1];
    RouteBounds(gbest, |citys|);
    if forall k :: 0 <= k < |route| ==> route[k] < |citys| then
      assert |route| > 0 ==> route[..|p|] == p;
      Ok(Route(route, seq(|route|, k requires 0 <= k < |route| => citys[route[k]])))
    else Err(IndexError)
  }

  /** The route stays within the cities exactly when there are at least as many cities as keys. */
  lemma RouteBounds(gbest: seq<real>, nc: nat)
    ensures var p := ArgSort(gbest); var route := p + p[..if |p| == 0 then 0 else 1];
      (forall k :: 0 <= k < |route| ==> route[k] < nc) <==> |gbest| <= nc
  {
    var p := ArgSort(gbest);
    var route := p + p[..if |p| == 0 then 0 else 1];
    if |gbest| <= nc {
      PrefixBelow(gbest, |gbest|);
      forall k | 0 <= k < |route| ensures route[k] < nc {
        if k >= |p| {
          assert route[k] == p[0];
        }
      }
    } else {
      var k := LastIndexPosition(gbest);
      assert route[k] == |gbest| - 1;
    }
  }

  /** The largest index |keys| - 1 appears somewhere in the argsort. */
  lemma LastIndexPosition(keys: seq<real>) returns (k: nat)
    requires |keys| > 0
    ensures k < |ArgSort(keys)| && ArgSort(keys)[k] == |keys| - 1
  {
    var p := ArgSort(keys);
    IndicesMember(|keys|, |keys| - 1);
    assert |keys| - 1 in multiset(p);
    k :| 0 <= k < |p| && p[k] == |keys| - 1;
  }

  /** The route is a tour: its first n entries visit every city once, in
      non-decreasing key order, and it ends where it starts. */
  lemma RouteIsSortedTour<C>(gbest: seq<real>, citys: seq<C>)
    requires |gbest| > 0 && Gbest2Route(gbest, citys).Ok?
    ensures var route, n := Gbest2Route(gbest, citys).value.route, |gbest|;
      multiset(route[..n]) == multiset(Indices(n)) && route[n] == route[0] &&
      forall k :: 0 <= k < n - 1 ==> gbest[route[k]] <= gbest[route[k + 1]]
  {
    ArgSortSorts(gbest);
  }

  // ----- tour length -----

  /** D is an n by n matrix. */
  predicate IsSquare(D: seq<seq<real>>, n: nat)
  {
    |D| == n && forall i :: 0 <= i < n ==> |D[i]| == n
  }

  /** The length of the open path along p: the sum of D[p[i], p[i+1]]. */
  function PathLength(D: seq<seq<real>>, p: seq<nat>): real
    requires IsSquare(D, |D|) && InRange(p, |D|)
  {
    if |p| < 2 then 0.0
    else
      var n := |p| - 1;
      PathLength(D, p[..n]) + D[p[n - 1]][p[n]]
  }

  /** What `fitness` computes for one row: D[idx[-1], idx[0]] plus the sum of D[idx[i], idx[i+1]]. */
  function TourLength(D: seq<seq<real>>, idx: seq<nat>): real
    requires IsSquare(D, |D|) && InRange(idx, |D|) && |idx| > 0
  {
    D[idx[|idx| - 1]][idx[0]] + PathLength(D, idx)
  }

  lemma {:induction false} PathLengthCons(D: seq<seq<real>>, x: nat, p: seq<nat>)
    requires IsSquare(D, |D|) && InRange(p, |D|) && x < |D| && |p| > 0
    ensures PathLength(D, [x] + p) == D[x][p[0]] + PathLength(D, p)
  {
    var q := [x] + p;
    if |p| > 1 {
      var n := |p| - 1;
      assert q[..|q| - 1] == [x] + p[..n];
      PathLengthCons(D, x, p[..n]);
    } else {
      assert q[..1] == [x];
    }
  }

  /** The closed-tour sum is the open path along the tour with its first city repeated at the end. */
  lemma TourIsClosedPath(D: seq<seq<real>>, idx: seq<nat>)
    requires IsSquare(D, |D|) && InRange(idx, |D|) && |idx| > 0
    ensures InRange(idx + [idx[0]], |D|)
    ensures TourLength(D, idx) == PathLength(D, idx + [idx[0]])
  {
    assert (idx + [idx[0]])[..|idx|] == idx;
  }

  /** A closed tour has the same length whichever city it starts from. */
  lemma TourRotation(D: seq<seq<real>>, idx: seq<nat>)
    requires IsSquare(D, |D|) && InRange(idx, |D|) && |idx| > 0
    ensures InRange(idx[1..] + [idx[0]], |D|)
    ensures TourLength(D, idx[1..] + [idx[0]]) == TourLength(D, idx)
  {
    var rot := idx[1..] + [idx[0]];
    if |idx| > 1 {
      assert rot[..|rot| - 1] == idx[1..];
      assert idx == [idx[0]] + idx[1..];
      PathLengthCons(D, idx[0], idx[1..]);
    }
  }

  /** The fitness of a key vector is the length of the route `gbest2route` decodes from it. */
  lemma FitnessIsRouteLength<C>(D: seq<seq<real>>, gbest: seq<real>, citys: seq<C>)
    requires IsSquare(D, |D|) && 0 < |gbest| <= |D| && Gbest2Route(gbest, citys).Ok?
    ensures var route := Gbest2Route(gbest, citys).value.route;
      InRange(route, |D|) && TourLength(D, ArgSort(gbest)) == PathLength(D, route)
  {
    var p := ArgSort(gbest);
    var route := Gbest2Route(gbest, citys).value.route;
    var n := |gbest|;
    assert route == route[..n] + [route[n]];
    TourIsClosedPath(D, p);
  }

  /** Each row has `width` keys. */
  predicate Rows(x: seq<seq<real>>, width: nat)
  {
    forall r :: 0 <= r < |x| ==> |x[r]| == width
  }

  /** The problem: the cities and the distance matrix between them. */
  class TravellingSalesmanProblem {
    var citys: seq<seq<real>>
    var D: seq<seq<real>>

    predicate Valid()
      reads this
    {
      IsSquare(D, |citys|)
    }

    /** `__init__`: the cities, and an all-zero n by n distance matrix. */
    constructor (citys: seq<seq<real>>)
      ensures Valid() && this.citys == citys
      ensures forall i, j :: 0 <= i < |citys| && 0 <= j < |citys| ==> D[i][j] == 0.0
    {
      this.citys := citys;
      D := seq(|citys|, _ => seq(|citys|, _ => 0.0));
    }

    /** `fitness(x)`: for every row of keys, the length of the closed tour its
        argsort describes.  An empty row has no last index, and keys beyond
        the cities index outside D: both raise IndexError. */
    method Fitness(x: seq<seq<real>>, width: nat) returns (r: Result<seq<real>>)
      requires Valid() && Rows(x, width)
      ensures r.Err? <==> width == 0 || (|x| > 0 && width > |D|)
      ensures r.Err? ==> r.error == IndexError
      ensures r.Ok? ==> |r.value| == |x|
      ensures r.Ok? ==> forall row :: 0 <= row < |x| ==>
        InRange(ArgSort(x[row]), |D|) && r.value[row] == TourLength(D, ArgSort(x[row]))
    {
      if width == 0 || (|x| > 0 && width > |D|) {
        return Err(IndexError);
      }
      var index := ArgSortRows(x, width, |D|);
      var distance := TourLengths(D, index, width);
      return Ok(distance);
    }
  }

  /** The body of `fitness` once the rows are sorted: the closing leg of every
      row, then the legs i -> i+1 added column by column. */
  method TourLengths(D: seq<seq<real>>, index: seq<seq<nat>>, width: nat) returns (distance: seq<real>)
    requires IsSquare(D, |D|) && width > 0
    requires forall q :: 0 <= q < |index| ==> |index[q]| == width && InRange(index[q], |D|)
    ensures |distance| == |index|
    ensures forall q :: 0 <= q < |index| ==> distance[q] == TourLength(D, index[q])
  {
    var acc := new real[|index|];
    for row := 0 to |index|
      invariant forall q :: 0 <= q < row ==> acc[q] == PartialTour(D, index[q], 0)
    {
      acc[row] := D[index[row][width - 1]][index[row][0]];
    }
    for i := 0 to width - 1
      invariant forall q :: 0 <= q < |index| ==> acc[q] == PartialTour(D, index[q], i)
    {
      AddLeg(D, acc, index, width, i);
    }
    forall q | 0 <= q < |index| ensures acc[q] == TourLength(D, index[q]) {
      assert index[q][..width] == index[q];
    }
    distance := acc[..];
  }

  /** `argsort(x, axis=-1)`. */
  function ArgSortRows(x: seq<seq<real>>, width: nat, n: nat): (index: seq<seq<nat>>)
    requires Rows(x, width) && (|x| > 0 ==> width <= n)
    ensures |index| == |x|
    ensures forall q :: 0 <= q < |x| ==> index[q] == ArgSort(x[q]) && |index[q]| == width && InRange(index[q], n)
  {
    seq(|x|, row requires 0 <= row < |x| => ArgSort(x[row]))
  }

  /** The tour total after the closing leg and the first i legs. */
  function PartialTour(D: seq<seq<real>>, idx: seq<nat>, i: nat): real
    requires IsSquare(D, |D|) && InRange(idx, |D|) && i < |idx|
  {
    D[idx[|idx| - 1]][idx[0]] + PathLength(D, idx[..i + 1])
  }

  /** One step of the loop of `fitness`: `distance = distance + D[index[:, i], index[:, i+1]]`. */
  method AddLeg(D: seq<seq<real>>, distance: array<real>, index: seq<seq<nat>>, width: nat, i: nat)
    requires IsSquare(D, |D|) && distance.Length == |index| && i + 1 < width
    requires forall q :: 0 <= q < |index| ==> |index[q]| == width && InRange(index[q], |D|)
    requires forall q :: 0 <= q < |index| ==> distance[q] == PartialTour(D, index[q], i)
    modifies distance
    ensures forall q :: 0 <= q < |index| ==> distance[q] == PartialTour(D, index[q], i + 1)
  {
    for row := 0 to |index|
      invariant forall q :: 0 <= q < row ==> distance[q] == PartialTour(D, index[q], i + 1)
      invariant forall q :: row <= q < |index| ==> distance[q] == PartialTour(D, index[q], i)
    {
      assert index[row][..i + 2][..i + 1] == index[row][..i + 1];
      distance[row] := distance[row] + D[index[row][i]][index[row][i + 1]];
    }
  }
}
