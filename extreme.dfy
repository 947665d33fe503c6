/** The extreme-node test and the masked smoothing of the `Estimator` of
    test/test_extreme.py.  Each edge (a, b) compares the density at its two
    ends and gives one endpoint a "min" mark and the other a "max" mark; a
    node is extreme when all its marks fall on the same side, and smoothing
    never touches an extreme node. */
module Extreme {

  /** The mesh as the estimator sees it: the number of nodes and the edge list. */
  datatype Mesh = Mesh(nn: nat, edges: seq<(nat, nat)>)

  predicate ValidMesh(m: Mesh)
  {
    forall i :: 0 <= i < |m.edges| ==> m.edges[i].0 < m.nn && m.edges[i].1 < m.nn
  }

  // ----- marks of one edge -----

  /** `isSmall`: the density grows from the first end to the second. */
  predicate IsSmall(rho: seq<real>, e: (nat, nat))
    requires e.0 < |rho| && e.1 < |rho|
  {
    rho[e.0] < rho[e.1]
  }

  /** The edge gives v a min mark: v is the first end of a growing edge or the second end of any other. */
  predicate MarksMin(rho: seq<real>, e: (nat, nat), v: nat)
    requires e.0 < |rho| && e.1 < |rho|
  {
    (IsSmall(rho, e) && e.0 == v) || (!IsSmall(rho, e) && e.1 == v)
  }

  /** The edge gives v a max mark: v is the second end of a growing edge or the first end of any other. */
  predicate MarksMax(rho: seq<real>, e: (nat, nat), v: nat)
    requires e.0 < |rho| && e.1 < |rho|
  {
    (IsSmall(rho, e) && e.1 == v) || (!IsSmall(rho, e) && e.0 == v)
  }

  predicate EdgesIn(edges: seq<(nat, nat)>, n: nat)
  {
    forall i :: 0 <= i < |edges| ==> edges[i].0 < n && edges[i].1 < n
  }

  // ----- counts -----

  /** The number of min marks v receives, i.e. `-minv[v]`. */
  function MinMarks(rho: seq<real>, edges: seq<(nat, nat)>, v: nat): nat
    requires EdgesIn(edges, |rho|)
  {
    if |edges| == 0 then 0
    else
      var n := |edges| - 1;
      MinMarks(rho, edges[..n], v) + (if MarksMin(rho, edges[n], v) then 1 else 0)
  }

  /** The number of max marks v receives, i.e. `maxv[v]`. */
  function MaxMarks(rho: seq<real>, edges: seq<(nat, nat)>, v: nat): nat
    requires EdgesIn(edges, |rho|)
  {
    if |edges| == 0 then 0
    else
      var n := |edges| - 1;
      MaxMarks(rho, edges[..n], v) + (if MarksMax(rho, edges[n], v) then 1 else 0)
  }

  /** The number of edge ends at v: the row sum of `node_to_node` on a mesh without repeated edges. */
  function Degree(edges: seq<(nat, nat)>, v: nat): nat
  {
    if |edges| == 0 then 0
    else
      var n := |edges| - 1;
      Degree(edges[..n], v) + (if edges[n].0 == v then 1 else 0) + (if edges[n].1 == v then 1 else 0)
  }

  /** Counting over one more edge adds that edge's marks. */
  lemma MarksStep(rho: seq<real>, edges: seq<(nat, nat)>, i: nat, v: nat)
    requires EdgesIn(edges, |rho|) && i < |edges|
    ensures EdgesIn(edges[..i], |rho|) && EdgesIn(edges[..i + 1], |rho|)
    ensures MinMarks(rho, edges[..i + 1], v) == MinMarks(rho, edges[..i], v) + (if MarksMin(rho, edges[i], v) then 1 else 0)
    ensures MaxMarks(rho, edges[..i + 1], v) == MaxMarks(rho, edges[..i], v) + (if MarksMax(rho, edges[i], v) then 1 else 0)
  {
    assert edges[..i + 1][..i] == edges[..i];
  }

  /** The test of `is_extreme_node`: |minv[v]| == V[v] or |maxv[v]| == V[v]. */
  predicate IsExtreme(rho: seq<real>, edges: seq<(nat, nat)>, v: nat)
    requires EdgesIn(edges, |rho|)
  {
    MinMarks(rho, edges, v) == Degree(edges, v) || MaxMarks(rho, edges, v) == Degree(edges, v)
  }

  /** The flags `is_extreme_node` returns, one per node. */
  function ExtremeMask(rho: seq<real>, m: Mesh): (flag: seq<bool>)
    requires ValidMesh(m) && |rho| == m.nn
    ensures |flag| == m.nn
  {
    seq(m.nn, v requires 0 <= v < m.nn => IsExtreme(rho, m.edges, v))
  }

  // ----- properties of the marks -----

  /** Every edge end is one mark: for every node, -minv[v] + maxv[v] is the degree. */
  lemma {:induction false} MarksSplitDegree(rho: seq<real>, edges: seq<(nat, nat)>, v: nat)
    requires EdgesIn(edges, |rho|)
    ensures MinMarks(rho, edges, v) + MaxMarks(rho, edges, v) == Degree(edges, v)
  {
    if |edges| > 0 {
      MarksSplitDegree(rho, edges[..|edges| - 1], v);
    }
  }

  /** The marks of one edge: the smaller end gets min and the larger max; on a tie
      the first end gets max and the second min. */
  lemma EdgeMarks(rho: seq<real>, a: nat, b: nat)
    requires a < |rho| && b < |rho| && a != b
    ensures rho[a] < rho[b] ==> MarksMin(rho, (a, b), a) && MarksMax(rho, (a, b), b)
    ensures rho[a] < rho[b] ==> !MarksMax(rho, (a, b), a) && !MarksMin(rho, (a, b), b)
    ensures rho[a] >= rho[b] ==> MarksMax(rho, (a, b), a) && MarksMin(rho, (a, b), b)
    ensures rho[a] >= rho[b] ==> !MarksMin(rho, (a, b), a) && !MarksMax(rho, (a, b), b)
  {
  }

  /** No max mark at v exactly when no edge gives v one. */
  lemma {:induction false} NoMaxMarks(rho: seq<real>, edges: seq<(nat, nat)>, v: nat)
    requires EdgesIn(edges, |rho|)
    ensures MaxMarks(rho, edges, v) == 0 <==> forall i :: 0 <= i < |edges| ==> !MarksMax(rho, edges[i], v)
  {
    if |edges| > 0 {
      var n := |edges| - 1;
      NoMaxMarks(rho, edges[..n], v);
      assert forall i :: 0 <= i < n ==> edges[..n][i] == edges[i];
    }
  }

  /** No min mark at v exactly when no edge gives v one. */
  lemma {:induction false} NoMinMarks(rho: seq<real>, edges: seq<(nat, nat)>, v: nat)
    requires EdgesIn(edges, |rho|)
    ensures MinMarks(rho, edges, v) == 0 <==> forall i :: 0 <= i < |edges| ==> !MarksMin(rho, edges[i], v)
  {
    if |edges| > 0 {
      var n := |edges| - 1;
      NoMinMarks(rho, edges[..n], v);
      assert forall i :: 0 <= i < n ==> edges[..n][i] == edges[i];
    }
  }

  /** A node is extreme exactly when every edge marks it on the same side
      (all min or all max); in particular a node on no edge is extreme. */
  lemma ExtremeIffOneSided(rho: seq<real>, edges: seq<(nat, nat)>, v: nat)
    requires EdgesIn(edges, |rho|)
    ensures IsExtreme(rho, edges, v) <==>
      (forall i :: 0 <= i < |edges| ==> !MarksMax(rho, edges[i], v)) ||
      (forall i :: 0 <= i < |edges| ==> !MarksMin(rho, edges[i], v))
    ensures Degree(edges, v) == 0 ==> IsExtreme(rho, edges, v)
  {
    MarksSplitDegree(rho, edges, v);
    NoMaxMarks(rho, edges, v);
    NoMinMarks(rho, edges, v);
  }

  // ----- smoothing -----

  /** One pass of `smooth_rho`: non-extreme nodes take the averaged value, extreme ones keep theirs. */
  function SmoothStep(rho: seq<real>, extreme: seq<bool>, averaged: seq<real>): (r: seq<real>)
    requires |extreme| == |rho| == |averaged|
    ensures |r| == |rho|
  {
    seq(|rho|, v requires 0 <= v < |rho| => if extreme[v] then rho[v] else averaged[v])
  }

  /** The estimator's state: the mesh and the density, one value per node. */
  class Estimator {
    var mesh: Mesh
    var rho: array<real>

    predicate Valid()
      reads this
    {
      ValidMesh(mesh) && rho.Length == mesh.nn
    }

    /** `__init__`, without the indicator `eta` (floating-point numerics). */
    constructor (rho: array<real>, mesh: Mesh)
      requires ValidMesh(mesh) && rho.Length == mesh.nn
      ensures Valid() && this.rho == rho && this.mesh == mesh
    {
      this.rho := rho;
      this.mesh := mesh;
    }

    /** `is_extreme_node`: add -1 to minv and +1 to maxv at the ends each edge marks,
        then compare the counters with the degree. */
    method IsExtremeNode() returns (flag: seq<bool>)
      requires Valid()
      ensures flag == ExtremeMask(rho[..], mesh)
    {
      var r := rho[..];
      var edges := mesh.edges;
      var nn := mesh.nn;
      var minv := new int[nn](_ => 0);
      var maxv := new int[nn](_ => 0);
      for i := 0 to |edges|
        invariant forall v :: 0 <= v < nn ==> minv[v] == -(MinMarks(r, edges[..i], v) as int)
        invariant forall v :: 0 <= v < nn ==> maxv[v] == MaxMarks(r, edges[..i], v)
      {
        var (a, b) := edges[i];
        forall v | 0 <= v < nn
          ensures MinMarks(r, edges[..i + 1], v) == MinMarks(r, edges[..i], v) + (if MarksMin(r, edges[i], v) then 1 else 0)
          ensures MaxMarks(r, edges[..i + 1], v) == MaxMarks(r, edges[..i], v) + (if MarksMax(r, edges[i], v) then 1 else 0)
        {
          MarksStep(r, edges, i, v);
        }
        if r[a] < r[b] {
          minv[a] := minv[a] - 1;
          maxv[b] := maxv[b] + 1;
        } else {
          minv[b] := minv[b] - 1;
          maxv[a] := maxv[a] + 1;
        }
      }
      assert edges[..|edges|] == edges;
      flag := seq(nn, v requires 0 <= v < nn reads minv, maxv =>
        -minv[v] == Degree(edges, v) || maxv[v] == Degree(edges, v));
    }

    /** The masked update of `smooth_rho`: two passes, each overwriting the
        non-extreme nodes with the value the averaging gives for the current
        density.  The averaging (cell means weighted by inverse areas) is a
        parameter. */
    method SmoothRho(average: seq<real> -> seq<real>)
      requires Valid()
      requires forall r: seq<real> :: |average(r)| == |r|
      modifies rho
      ensures Valid()
      ensures var extreme := ExtremeMask(old(rho[..]), mesh);
        var once := SmoothStep(old(rho[..]), extreme, average(old(rho[..])));
        rho[..] == SmoothStep(once, extreme, average(once))
      ensures forall v :: 0 <= v < mesh.nn && IsExtreme(old(rho[..]), mesh.edges, v) ==> rho[v] == old(rho[v])
    {
      var extreme := IsExtremeNode();
      ghost var r0 := rho[..];
      for pass := 0 to 2
        invariant rho[..] == if pass == 0 then r0 else if pass == 1 then SmoothStep(r0, extreme, average(r0))
          else SmoothStep(SmoothStep(r0, extreme, average(r0)), extreme, average(SmoothStep(r0, extreme, average(r0))))
      {
        ghost var before := rho[..];
        var averaged := average(rho[..]);
        for v := 0 to rho.Length
          invariant forall u :: 0 <= u < v ==> rho[u] == SmoothStep(before, extreme, averaged)[u]
          invariant forall u :: v <= u < rho.Length ==> rho[u] == before[u]
        {
          if !extreme[v] {
            rho[v] := averaged[v];
          }
        }
        assert rho[..] == SmoothStep(before, extreme, averaged);
      }
    }
  }
}
