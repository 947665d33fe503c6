/** The degree-of-freedom manager `RTDof2d` of
    fealpy/functionspace/RaviartThomasFiniteElementSpace2d.py: DoF counts of the
    order-p Raviart-Thomas space on a triangle mesh, the edge and cell DoF tables,
    and the boundary DoFs.  Edge DoFs come first, numbered edge by edge; the
    interior DoFs of the cells follow, numbered cell by cell. */
module RTDof {
  import opened Wrappers
  import opened SeqUtil
  import opened FunctionSpace

  /** The mesh topology the DoF manager reads: cells as vertex triples, edges as
      vertex pairs (stored direction: from entry 0 to entry 1), the three edges
      of each cell in local order, and the indices of the boundary edges. */
  datatype Mesh = Mesh(
    cell: seq<seq<nat>>,
    edge: seq<seq<nat>>,
    cellToEdge: seq<seq<nat>>,
    boundaryEdges: seq<nat>)

  predicate ValidMesh(m: Mesh)
  {
    && |m.cellToEdge| == |m.cell|
    && (forall c :: 0 <= c < |m.cell| ==> |m.cell[c]| == 3 && |m.cellToEdge[c]| == 3)
    && (forall c, i :: 0 <= c < |m.cell| && 0 <= i < 3 ==> m.cellToEdge[c][i] < |m.edge|)
    && (forall e :: 0 <= e < |m.edge| ==> |m.edge[e]| == 2)
    && (forall t :: 0 <= t < |m.boundaryEdges| ==> m.boundaryEdges[t] < |m.edge|)
  }

  /** DoFs on each edge. */
  function Edof(p: nat): nat { p + 1 }

  /** DoFs inside each cell. */
  function Cdof(p: nat): nat { (p + 1) * p }

  /** All DoFs of a cell. */
  function Ldof(p: nat): nat { (p + 1) * (p + 3) }

  /** `number_of_local_dofs(doftype)`; None for a doftype the method does not know. */
  function NumberOfLocalDofs(p: nat, doftype: DofType): Option<nat>
  {
    if doftype == Named("all") then Some(Ldof(p))
    else if doftype in {Named("cell"), OfDim(2)} then Some(Cdof(p))
    else if doftype in {Named("face"), Named("edge"), OfDim(1)} then Some(Edof(p))
    else if doftype in {Named("node"), OfDim(0)} then Some(0)
    else None
  }

  /** The local counts are fixed by p, and the cell's DoFs are its three edges' plus its interior ones. */
  lemma LocalDofCounts(p: nat)
    ensures NumberOfLocalDofs(p, Named("all")) == Some((p + 1) * (p + 3))
    ensures NumberOfLocalDofs(p, Named("cell")) == NumberOfLocalDofs(p, OfDim(2)) == Some(p * (p + 1))
    ensures NumberOfLocalDofs(p, Named("edge")) == NumberOfLocalDofs(p, Named("face")) == Some(p + 1)
    ensures NumberOfLocalDofs(p, OfDim(1)) == Some(p + 1)
    ensures NumberOfLocalDofs(p, Named("node")) == NumberOfLocalDofs(p, OfDim(0)) == Some(0)
    ensures Ldof(p) == 3 * Edof(p) + Cdof(p)
    ensures forall s :: s !in {"all", "cell", "face", "edge", "node"} ==> NumberOfLocalDofs(p, Named(s)) == None
    ensures forall d :: d !in {0, 1, 2} ==> NumberOfLocalDofs(p, OfDim(d)) == None
  {
    LdofSplit(p);
  }

  /** A row of `cell_to_dof` is three edge blocks and one interior block. */
  lemma LdofSplit(p: nat)
    ensures Ldof(p) == 3 * Edof(p) + Cdof(p)
  {
    assert (p + 1) * (p + 3) == 3 * (p + 1) + (p + 1) * p;
  }

  /** `number_of_global_dofs`: NE edge blocks followed by NC interior blocks. */
  function NumberOfGlobalDofs(m: Mesh, p: nat): nat
  {
    |m.edge| * Edof(p) + |m.cell| * Cdof(p)
  }

  /** `edge_to_dof`: arange(NE*edof) reshaped to (NE, edof). */
  function EdgeToDof(ne: nat, edof: nat): (e2d: seq<seq<nat>>)
    ensures |e2d| == ne
    ensures forall e :: 0 <= e < ne ==> |e2d[e]| == edof
  {
    seq(ne, e => seq(edof, k => e * edof + k))
  }

  /** Edge blocks are pairwise disjoint and together cover exactly [0, NE*edof):
      every entry lies in the range and every DoF of the range is in exactly one slot. */
  lemma EdgeToDofPartition(ne: nat, edof: nat)
    ensures forall e, k :: 0 <= e < ne && 0 <= k < edof ==> EdgeToDof(ne, edof)[e][k] < ne * edof
    ensures forall d :: 0 <= d < ne * edof ==>
      0 <= d / edof < ne && EdgeToDof(ne, edof)[d / edof][d % edof] == d
    ensures forall e, k, e', k' ::
      (0 <= e < ne && 0 <= k < edof && 0 <= e' < ne && 0 <= k' < edof &&
       EdgeToDof(ne, edof)[e][k] == EdgeToDof(ne, edof)[e'][k']) ==> e == e' && k == k'
  {
    var e2d := EdgeToDof(ne, edof);
    forall e, k | 0 <= e < ne && 0 <= k < edof ensures e2d[e][k] < ne * edof {
      MulBound(e, ne, k, edof);
    }
    forall d | 0 <= d < ne * edof ensures 0 <= d / edof < ne && e2d[d / edof][d % edof] == d {
      DivBound(d, ne, edof);
    }
    forall e, k, e', k' | 0 <= e < ne && 0 <= k < edof && 0 <= e' < ne && 0 <= k' < edof &&
      e2d[e][k] == e2d[e'][k']
      ensures e == e' && k == k'
    {
      MulInjective(e, k, e', k', edof);
    }
  }

  /** Local vertex compared against an edge's second stored vertex, per local edge (s = [1, 0, 0]). */
  function LocalVertex(i: nat): nat
    requires i < 3
  {
    [1, 0, 0][i]
  }

  /** The cell traverses its local edge i against the edge's stored direction. */
  predicate Flipped(m: Mesh, c: nat, i: nat)
    requires ValidMesh(m) && c < |m.cell| && i < 3
  {
    m.cell[c][LocalVertex(i)] == m.edge[m.cellToEdge[c][i]][1]
  }

  /** Block i of a row of `cell_to_dof`: the DoFs of the cell's local edge i, read backwards when flipped. */
  function EdgeBlock(m: Mesh, p: nat, c: nat, i: nat): (b: seq<nat>)
    requires ValidMesh(m) && c < |m.cell| && i < 3
    ensures |b| == Edof(p)
  {
    var block := EdgeToDof(|m.edge|, Edof(p))[m.cellToEdge[c][i]];
    if Flipped(m, c, i) then Reverse(block) else block
  }

  /** The interior DoFs of cell c: row c of arange(NE*edof, gdof) reshaped to (NC, cdof). */
  function InteriorBlock(m: Mesh, p: nat, c: nat): (b: seq<nat>)
    ensures |b| == Cdof(p)
  {
    seq(Cdof(p), k => |m.edge| * Edof(p) + c * Cdof(p) + k)
  }

  /** Row c of `cell_to_dof`: the edge blocks in local edge order, then the interior block. */
  function CellRow(m: Mesh, p: nat, c: nat): (row: seq<nat>)
    requires ValidMesh(m) && c < |m.cell|
    ensures |row| == Ldof(p)
  {
    LdofSplit(p);
    EdgeBlock(m, p, c, 0) + EdgeBlock(m, p, c, 1) + EdgeBlock(m, p, c, 2) + InteriorBlock(m, p, c)
  }

  /** The global number at offset k of local edge i of cell c, after orientation correction. */
  function EdgeEntry(m: Mesh, p: nat, c: nat, i: nat, k: nat, flip: bool): nat
    requires ValidMesh(m) && c < |m.cell| && i < 3 && k < Edof(p)
  {
    var e := m.cellToEdge[c][i];
    if flip then e * Edof(p) + (Edof(p) - 1 - k) else e * Edof(p) + k
  }

  lemma EdgeBlockAt(m: Mesh, p: nat, c: nat, i: nat, k: nat)
    requires ValidMesh(m) && c < |m.cell| && i < 3 && k < Edof(p)
    ensures EdgeBlock(m, p, c, i)[k] == EdgeEntry(m, p, c, i, k, Flipped(m, c, i))
  {
    var w := Edof(p);
    var block := EdgeToDof(|m.edge|, w)[m.cellToEdge[c][i]];
    if Flipped(m, c, i) {
      assert Reverse(block)[k] == block[w - 1 - k];
    }
  }

  /** The entries of row c, position by position. */
  lemma CellRowAt(m: Mesh, p: nat, c: nat, i: nat, k: nat)
    requires ValidMesh(m) && c < |m.cell| && i < 3 && k < Edof(p)
    ensures i * Edof(p) + k < 3 * Edof(p)
    ensures CellRow(m, p, c)[i * Edof(p) + k] == EdgeEntry(m, p, c, i, k, Flipped(m, c, i))
  {
    EdgeBlockAt(m, p, c, i, k);
    var b0, b1, b2 := EdgeBlock(m, p, c, 0), EdgeBlock(m, p, c, 1), EdgeBlock(m, p, c, 2);
    assert CellRow(m, p, c) == b0 + b1 + b2 + InteriorBlock(m, p, c);
    BlockAt(b0, b1, b2, InteriorBlock(m, p, c), Edof(p), i, k);
  }

  /** Entry i*w + k of three blocks of width w followed by a tail is entry k of block i. */
  lemma BlockAt<T>(b0: seq<T>, b1: seq<T>, b2: seq<T>, tail: seq<T>, w: nat, i: nat, k: nat)
    requires |b0| == |b1| == |b2| == w && i < 3 && k < w
    ensures i * w + k < 3 * w
    ensures (b0 + b1 + b2 + tail)[i * w + k] == (if i == 0 then b0 else if i == 1 then b1 else b2)[k]
  {
    var row := b0 + b1 + b2 + tail;
    if i == 0 {
      assert row[k] == b0[k];
    } else if i == 1 {
      assert i * w + k == w + k;
      assert row[w + k] == b1[k];
    } else {
      assert i * w + k == 2 * w + k;
      assert row[2 * w + k] == b2[k];
    }
  }

  lemma CellRowInteriorAt(m: Mesh, p: nat, c: nat, k: nat)
    requires ValidMesh(m) && c < |m.cell| && k < Cdof(p)
    ensures 3 * Edof(p) + k < Ldof(p)
    ensures CellRow(m, p, c)[3 * Edof(p) + k] == |m.edge| * Edof(p) + c * Cdof(p) + k
  {
    LdofSplit(p);
    var row := CellRow(m, p, c);
    assert row == EdgeBlock(m, p, c, 0) + EdgeBlock(m, p, c, 1) + EdgeBlock(m, p, c, 2) + InteriorBlock(m, p, c);
  }

  /** State of an edge column of the table after the first n local edges have been corrected. */
  function Stage(m: Mesh, p: nat, c: nat, j: nat, n: nat): nat
    requires ValidMesh(m) && c < |m.cell|
  {
    var i, k := j / Edof(p), j % Edof(p);
    if i < 3 then EdgeEntry(m, p, c, i, k, i < n && Flipped(m, c, i)) else 0
  }

  /** A column j < 3*edof lies in local edge block j / edof < 3. */
  lemma EdgeColumn(p: nat, j: nat)
    requires j < 3 * Edof(p)
    ensures j / Edof(p) < 3 && j == (j / Edof(p)) * Edof(p) + j % Edof(p)
  {
  }

  /** The local edge i and the offset k of edge column j: j == i*edof + k. */
  lemma EdgeSlot(p: nat, j: nat) returns (i: nat, k: nat)
    requires j < 3 * Edof(p)
    ensures i < 3 && k < Edof(p) && j == i * Edof(p) + k
  {
    i, k := j / Edof(p), j % Edof(p);
  }

  lemma StageAt(m: Mesh, p: nat, c: nat, i: nat, k: nat, n: nat)
    requires ValidMesh(m) && c < |m.cell| && i < 3 && k < Edof(p)
    ensures i * Edof(p) + k < 3 * Edof(p)
    ensures Stage(m, p, c, i * Edof(p) + k, n) == EdgeEntry(m, p, c, i, k, i < n && Flipped(m, c, i))
  {
    MulBound(i, 3, k, Edof(p));
    DivMod(i, k, Edof(p));
  }

  /** `cell_to_dof`: fill the edge columns from the edge table, reverse the
      block of every (cell, local edge) pair the cell traverses against the
      edge's direction, then fill the interior columns.  A mesh without cells
      fails with ValueError: the interior range is then reshaped to (0, -1),
      whose free extent NumPy cannot infer. */
  method CellToDof(m: Mesh, p: nat) returns (r: Result<array2<nat>>)
    requires ValidMesh(m)
    ensures r.Err? <==> |m.cell| == 0
    ensures r.Err? ==> r.error == ValueError
    ensures r.Ok? ==> fresh(r.value)
    ensures r.Ok? ==> r.value.Length0 == |m.cell| && r.value.Length1 == Ldof(p)
    ensures r.Ok? ==> forall c, j :: 0 <= c < |m.cell| && 0 <= j < Ldof(p) ==> r.value[c, j] == CellRow(m, p, c)[j]
  {
    if |m.cell| == 0 {
      return Err(ValueError);
    }
    var c2d := FillCellToDof(m, p);
    r := Ok(c2d);
  }

  /** The three stages of `cell_to_dof` on a fresh NC × ldof array. */
  method FillCellToDof(m: Mesh, p: nat) returns (c2d: array2<nat>)
    requires ValidMesh(m)
    ensures fresh(c2d)
    ensures c2d.Length0 == |m.cell| && c2d.Length1 == Ldof(p)
    ensures forall c, j :: 0 <= c < |m.cell| && 0 <= j < Ldof(p) ==> c2d[c, j] == CellRow(m, p, c)[j]
  {
    var nc, edof := |m.cell|, Edof(p);
    LdofSplit(p);
    c2d := new nat[nc, Ldof(p)];
    FillEdgeColumns(m, p, c2d);
    for i := 0 to 3
      invariant forall c, j :: 0 <= c < nc && 0 <= j < 3 * edof ==> c2d[c, j] == Stage(m, p, c, j, i)
    {
      FlipLocalEdge(m, p, c2d, i);
    }
    FillInteriorColumns(m, p, c2d);
    forall c, j | 0 <= c < nc && 0 <= j < Ldof(p) ensures c2d[c, j] == CellRow(m, p, c)[j] {
      if j < 3 * edof {
        FinalStage(m, p, c, j);
      } else {
        CellRowInteriorAt(m, p, c, j - 3 * edof);
      }
    }
  }

  /** After all three local edges are corrected, the edge columns are the cell row. */
  lemma FinalStage(m: Mesh, p: nat, c: nat, j: nat)
    requires ValidMesh(m) && c < |m.cell| && j < 3 * Edof(p)
    ensures j < Ldof(p) && Stage(m, p, c, j, 3) == CellRow(m, p, c)[j]
  {
    LdofSplit(p);
    var i, k := EdgeSlot(p, j);
    StageAt(m, p, c, i, k, 3);
    CellRowAt(m, p, c, i, k);
  }

  /** One pass of the `for i in range(3)` loop: every flagged row has block i reversed. */
  method FlipLocalEdge(m: Mesh, p: nat, c2d: array2<nat>, i: nat)
    requires ValidMesh(m) && i < 3
    requires c2d.Length0 == |m.cell| && c2d.Length1 == Ldof(p)
    requires forall c, j :: 0 <= c < |m.cell| && 0 <= j < 3 * Edof(p) ==> c2d[c, j] == Stage(m, p, c, j, i)
    modifies c2d
    ensures forall c, j :: 0 <= c < |m.cell| && 0 <= j < 3 * Edof(p) ==> c2d[c, j] == Stage(m, p, c, j, i + 1)
  {
    var nc, edof := |m.cell|, Edof(p);
    for c := 0 to nc
      invariant forall c', j :: 0 <= c' < c && 0 <= j < 3 * edof ==> c2d[c', j] == Stage(m, p, c', j, i + 1)
      invariant forall c', j :: c <= c' < nc && 0 <= j < 3 * edof ==> c2d[c', j] == Stage(m, p, c', j, i)
    {
      if Flipped(m, c, i) {
        FlipBlock(m, p, c2d, c, i);
      } else {
        forall j | 0 <= j < 3 * edof ensures Stage(m, p, c, j, i + 1) == Stage(m, p, c, j, i) {
          StageNext(m, p, c, i, j);
        }
      }
    }
  }

  /** Correcting local edge i changes only block i, which it reverses when the edge is flipped. */
  lemma StageNext(m: Mesh, p: nat, c: nat, i: nat, j: nat)
    requires ValidMesh(m) && c < |m.cell| && i < 3 && j < 3 * Edof(p)
    ensures var w := Edof(p); i * w <= j < i * w + w && Flipped(m, c, i) ==>
      Stage(m, p, c, j, i + 1) == EdgeEntry(m, p, c, i, w - 1 - (j - i * w), false)
    ensures var w := Edof(p); !(i * w <= j < i * w + w && Flipped(m, c, i)) ==>
      Stage(m, p, c, j, i + 1) == Stage(m, p, c, j, i)
  {
    var w := Edof(p);
    EdgeColumn(p, j);
    var i', k' := j / w, j % w;
    StageAt(m, p, c, i', k', i);
    StageAt(m, p, c, i', k', i + 1);
    if i * w <= j < i * w + w {
      DivMod(i, j - i * w, w);
    }
  }

  /** c2d[:, :3*edof] = e2dof[c2e].reshape(NC, 3*edof): column j of row c holds
      entry j % edof of the block of local edge j / edof. */
  method FillEdgeColumns(m: Mesh, p: nat, c2d: array2<nat>)
    requires ValidMesh(m)
    requires c2d.Length0 == |m.cell| && c2d.Length1 == Ldof(p)
    modifies c2d
    ensures forall c, j :: 0 <= c < |m.cell| && 0 <= j < 3 * Edof(p) ==> c2d[c, j] == Stage(m, p, c, j, 0)
  {
    for c := 0 to |m.cell|
      invariant forall c', j :: 0 <= c' < c && 0 <= j < 3 * Edof(p) ==> c2d[c', j] == Stage(m, p, c', j, 0)
    {
      FillEdgeRow(m, p, c2d, c);
    }
  }

  /** Row c of the edge columns; the other rows are left as they are. */
  method FillEdgeRow(m: Mesh, p: nat, c2d: array2<nat>, c: nat)
    requires ValidMesh(m) && c < |m.cell|
    requires c2d.Length0 == |m.cell| && c2d.Length1 == Ldof(p)
    modifies c2d
    ensures forall j :: 0 <= j < 3 * Edof(p) ==> c2d[c, j] == Stage(m, p, c, j, 0)
    ensures forall c', j :: 0 <= c' < c2d.Length0 && 0 <= j < c2d.Length1 && c' != c ==> c2d[c', j] == old(c2d[c', j])
  {
    var edof := Edof(p);
    LdofSplit(p);
    var e2dof := EdgeToDof(|m.edge|, edof);
    for j := 0 to 3 * edof
      invariant forall j' :: 0 <= j' < j ==> c2d[c, j'] == Stage(m, p, c, j', 0)
      invariant forall c', j' :: 0 <= c' < c2d.Length0 && 0 <= j' < c2d.Length1 && c' != c ==> c2d[c', j'] == old(c2d[c', j'])
    {
      StageZero(m, p, c, j);
      c2d[c, j] := e2dof[m.cellToEdge[c][j / edof]][j % edof];
    }
  }

  /** Before any flip, edge column j of row c is entry j % edof of the block of local edge j / edof. */
  lemma StageZero(m: Mesh, p: nat, c: nat, j: nat)
    requires ValidMesh(m) && c < |m.cell| && j < 3 * Edof(p)
    ensures j / Edof(p) < 3 && j % Edof(p) < Edof(p)
    ensures Stage(m, p, c, j, 0) == EdgeToDof(|m.edge|, Edof(p))[m.cellToEdge[c][j / Edof(p)]][j % Edof(p)]
  {
    EdgeColumn(p, j);
  }

  /** c2d[:, 3*edof:] = arange(NE*edof, gdof).reshape(NC, -1); the edge columns are left as they are. */
  method FillInteriorColumns(m: Mesh, p: nat, c2d: array2<nat>)
    requires ValidMesh(m)
    requires c2d.Length0 == |m.cell| && c2d.Length1 == Ldof(p)
    modifies c2d
    ensures forall c, j :: 0 <= c < |m.cell| && 0 <= j < 3 * Edof(p) ==> c2d[c, j] == old(c2d[c, j])
    ensures forall c, j :: 0 <= c < |m.cell| && 3 * Edof(p) <= j < Ldof(p) ==>
      c2d[c, j] == |m.edge| * Edof(p) + c * Cdof(p) + (j - 3 * Edof(p))
  {
    var ne, edof, cdof := |m.edge|, Edof(p), Cdof(p);
    LdofSplit(p);
    for c := 0 to |m.cell|
      invariant forall c', j :: 0 <= c' < |m.cell| && 0 <= j < 3 * edof ==> c2d[c', j] == old(c2d[c', j])
      invariant forall c', j :: 0 <= c' < c && 3 * edof <= j < Ldof(p) ==> c2d[c', j] == ne * edof + c' * cdof + (j - 3 * edof)
    {
      for j := 3 * edof to Ldof(p)
        invariant forall c', j' :: 0 <= c' < |m.cell| && 0 <= j' < 3 * edof ==> c2d[c', j'] == old(c2d[c', j'])
        invariant forall c', j' :: 0 <= c' < c && 3 * edof <= j' < Ldof(p) ==> c2d[c', j'] == ne * edof + c' * cdof + (j' - 3 * edof)
        invariant forall j' :: 3 * edof <= j' < j ==> c2d[c, j'] == ne * edof + c * cdof + (j' - 3 * edof)
      {
        c2d[c, j] := ne * edof + c * cdof + (j - 3 * edof);
      }
    }
  }

  /** Reverse block i of row c in place (one `bm.flip` of a flagged row). */
  method FlipBlock(m: Mesh, p: nat, c2d: array2<nat>, c: nat, i: nat)
    requires ValidMesh(m) && c < |m.cell| && i < 3 && Flipped(m, c, i)
    requires c2d.Length0 == |m.cell| && c2d.Length1 == Ldof(p)
    requires forall j :: 0 <= j < 3 * Edof(p) ==> c2d[c, j] == Stage(m, p, c, j, i)
    modifies c2d
    ensures forall j :: 0 <= j < 3 * Edof(p) ==> c2d[c, j] == Stage(m, p, c, j, i + 1)
    ensures forall c', j :: 0 <= c' < c2d.Length0 && 0 <= j < c2d.Length1 && c' != c ==> c2d[c', j] == old(c2d[c', j])
  {
    var edof := Edof(p);
    LdofSplit(p);
    var base := i * edof;
    MulBound(i, 3, edof - 1, edof);
    ReverseSegment(c2d, c, base, edof);
    forall j | 0 <= j < 3 * edof ensures c2d[c, j] == Stage(m, p, c, j, i + 1) {
      if base <= j < base + edof {
        StageAt(m, p, c, i, edof - 1 - (j - base), i);
      }
      StageNext(m, p, c, i, j);
    }
  }

  /** Reverse the w entries of row c starting at column base, in place; nothing else changes. */
  method ReverseSegment(a: array2<nat>, c: nat, base: nat, w: nat)
    requires c < a.Length0 && base + w <= a.Length1
    modifies a
    ensures forall j :: base <= j < base + w ==> a[c, j] == old(a[c, base + w - 1 - (j - base)])
    ensures forall c', j :: 0 <= c' < a.Length0 && 0 <= j < a.Length1 && !(c' == c && base <= j < base + w) ==>
      a[c', j] == old(a[c', j])
  {
    var block := seq(w, k requires 0 <= k < w reads a => a[c, base + k]);
    for j := base to base + w
      invariant forall j' :: base <= j' < j ==> a[c, j'] == block[w - 1 - (j' - base)]
      invariant forall c', j' :: 0 <= c' < a.Length0 && 0 <= j' < a.Length1 && !(c' == c && base <= j' < j) ==>
        a[c', j'] == old(a[c', j'])
    {
      a[c, j] := block[w - 1 - (j - base)];
    }
  }

  /** Row c, block i, written against the edge table: the block of edge c2e[c][i],
      read backwards exactly when cell[c][s[i]] == edge[c2e[c][i]][1]. */
  lemma CellRowOrientation(m: Mesh, p: nat, c: nat, i: nat, k: nat)
    requires ValidMesh(m) && c < |m.cell| && i < 3 && k < Edof(p)
    ensures i * Edof(p) + k < Ldof(p)
    ensures var e, e2d := m.cellToEdge[c][i], EdgeToDof(|m.edge|, Edof(p));
      CellRow(m, p, c)[i * Edof(p) + k] ==
        if m.cell[c][LocalVertex(i)] == m.edge[e][1] then e2d[e][Edof(p) - 1 - k] else e2d[e][k]
  {
    CellRowAt(m, p, c, i, k);
    LdofSplit(p);
  }

  /** Every edge entry is an edge DoF: below NE*edof. */
  lemma EdgeEntryBound(m: Mesh, p: nat, c: nat, i: nat, k: nat, flip: bool)
    requires ValidMesh(m) && c < |m.cell| && i < 3 && k < Edof(p)
    ensures EdgeEntry(m, p, c, i, k, flip) < |m.edge| * Edof(p)
  {
    MulBound(m.cellToEdge[c][i], |m.edge|, if flip then Edof(p) - 1 - k else k, Edof(p));
  }

  /** Every entry of `cell_to_dof` is a global DoF number: below gdof. */
  lemma CellRowBounded(m: Mesh, p: nat, c: nat, j: nat)
    requires ValidMesh(m) && c < |m.cell| && j < Ldof(p)
    ensures CellRow(m, p, c)[j] < NumberOfGlobalDofs(m, p)
  {
    LdofSplit(p);
    if j < 3 * Edof(p) {
      var i, k := EdgeSlot(p, j);
      CellRowAt(m, p, c, i, k);
      EdgeEntryBound(m, p, c, i, k, Flipped(m, c, i));
      MulMono(0, |m.cell|, Cdof(p));
    } else {
      CellRowInteriorAt(m, p, c, j - 3 * Edof(p));
      MulBound(c, |m.cell|, j - 3 * Edof(p), Cdof(p));
    }
  }

  /** Edge columns hold edge DoFs (below NE*edof); interior columns hold cell DoFs (at or above it). */
  lemma CellRowKinds(m: Mesh, p: nat, c: nat, j: nat)
    requires ValidMesh(m) && c < |m.cell| && j < Ldof(p)
    ensures j < 3 * Edof(p) <==> CellRow(m, p, c)[j] < |m.edge| * Edof(p)
  {
    LdofSplit(p);
    if j < 3 * Edof(p) {
      var i, k := EdgeSlot(p, j);
      CellRowAt(m, p, c, i, k);
      EdgeEntryBound(m, p, c, i, k, Flipped(m, c, i));
    } else {
      CellRowInteriorAt(m, p, c, j - 3 * Edof(p));
      MulMono(0, c, Cdof(p));
    }
  }

  /** Interior DoFs belong to one cell and one slot only. */
  lemma InteriorDofsUnique(m: Mesh, p: nat, c: nat, k: nat, c': nat, k': nat)
    requires ValidMesh(m) && c < |m.cell| && c' < |m.cell| && k < Cdof(p) && k' < Cdof(p)
    requires CellRow(m, p, c)[3 * Edof(p) + k] == CellRow(m, p, c')[3 * Edof(p) + k']
    ensures c == c' && k == k'
  {
    CellRowInteriorAt(m, p, c, k);
    CellRowInteriorAt(m, p, c', k');
    MulInjective(c, k, c', k', Cdof(p));
  }

  /** Two cells sharing an edge see the same set of DoFs on it, whichever way each traverses it. */
  lemma SharedEdgeSameDofs(m: Mesh, p: nat, c: nat, i: nat, c': nat, i': nat)
    requires ValidMesh(m) && c < |m.cell| && c' < |m.cell| && i < 3 && i' < 3
    requires m.cellToEdge[c][i] == m.cellToEdge[c'][i']
    ensures forall x :: x in EdgeBlock(m, p, c, i) <==> x in EdgeBlock(m, p, c', i')
  {
    var block := EdgeToDof(|m.edge|, Edof(p))[m.cellToEdge[c][i]];
    ReverseSameElements(block);
  }

  lemma ReverseSameElements<T>(s: seq<T>)
    ensures forall x :: x in Reverse(s) <==> x in s
  {
    forall x | x in s ensures x in Reverse(s) {
      var k :| 0 <= k < |s| && s[k] == x;
      assert Reverse(s)[|s| - 1 - k] == x;
    }
  }

  /** The whole table as a value: row c is CellRow(m, p, c). */
  function CellTable(m: Mesh, p: nat): (t: seq<seq<nat>>)
    requires ValidMesh(m)
    ensures |t| == |m.cell|
    ensures forall c :: 0 <= c < |t| ==> t[c] == CellRow(m, p, c)
    ensures forall c, j :: 0 <= c < |t| && 0 <= j < |t[c]| ==> t[c][j] < NumberOfGlobalDofs(m, p)
  {
    forall c, j | 0 <= c < |m.cell| && 0 <= j < Ldof(p) ensures CellRow(m, p, c)[j] < NumberOfGlobalDofs(m, p) {
      CellRowBounded(m, p, c, j);
    }
    seq(|m.cell|, c requires 0 <= c < |m.cell| => CellRow(m, p, c))
  }

  /** `boundary_dof`: the DoF blocks of the boundary edges, flattened in boundary-edge order. */
  function BoundaryDof(m: Mesh, p: nat): seq<nat>
    requires ValidMesh(m)
  {
    Flatten(BoundaryBlocks(m, p))
  }

  /** `edge_to_dof(index=eidx)`: the DoF blocks of the boundary edges, one row per boundary edge. */
  function BoundaryBlocks(m: Mesh, p: nat): (rows: seq<seq<nat>>)
    requires ValidMesh(m)
    ensures |rows| == |m.boundaryEdges|
    ensures forall t :: 0 <= t < |rows| ==> rows[t] == EdgeToDof(|m.edge|, Edof(p))[m.boundaryEdges[t]]
  {
    var e2d := EdgeToDof(|m.edge|, Edof(p));
    seq(|m.boundaryEdges|, t requires 0 <= t < |m.boundaryEdges| => e2d[m.boundaryEdges[t]])
  }

  /** Entry k of boundary edge t sits at position t*edof + k and is that edge's k-th DoF. */
  lemma BoundaryDofAt(m: Mesh, p: nat, t: nat, k: nat)
    requires ValidMesh(m) && t < |m.boundaryEdges| && k < Edof(p)
    ensures |BoundaryDof(m, p)| == |m.boundaryEdges| * Edof(p)
    ensures t * Edof(p) + k < |BoundaryDof(m, p)|
    ensures BoundaryDof(m, p)[t * Edof(p) + k] == m.boundaryEdges[t] * Edof(p) + k
  {
    FlattenUniformAt(BoundaryBlocks(m, p), Edof(p), t, k);
  }

  /** A DoF is a boundary DoF exactly when it is an edge DoF of a boundary edge. */
  lemma BoundaryDofMember(m: Mesh, p: nat, d: nat)
    requires ValidMesh(m)
    ensures d in BoundaryDof(m, p) <==> d < |m.edge| * Edof(p) && d / Edof(p) in m.boundaryEdges
  {
    var be := m.boundaryEdges;
    var rows := BoundaryBlocks(m, p);
    FlattenMember(rows, d);
    if d in BoundaryDof(m, p) {
      var t :| 0 <= t < |be| && d in rows[t];
      BoundaryDofFromBlock(m, p, be[t], d);
    }
    if d < |m.edge| * Edof(p) && d / Edof(p) in be {
      var t :| 0 <= t < |be| && be[t] == d / Edof(p);
      BlockFromBoundaryDof(m, p, be[t], d);
      assert d in rows[t];
    }
  }

  lemma BlockFromBoundaryDof(m: Mesh, p: nat, e: nat, d: nat)
    requires ValidMesh(m) && e < |m.edge| && d / Edof(p) == e
    ensures d in EdgeToDof(|m.edge|, Edof(p))[e]
  {
    var edof := Edof(p);
    var k := d % edof;
    assert d == e * edof + k;
    assert EdgeToDof(|m.edge|, edof)[e][k] == d;
  }

  lemma BoundaryDofFromBlock(m: Mesh, p: nat, e: nat, d: nat)
    requires ValidMesh(m) && e < |m.edge|
    requires d in EdgeToDof(|m.edge|, Edof(p))[e]
    ensures d < |m.edge| * Edof(p) && d / Edof(p) == e
  {
    var edof := Edof(p);
    var k :| 0 <= k < edof && EdgeToDof(|m.edge|, edof)[e][k] == d;
    DivMod(e, k, edof);
    MulBound(e, |m.edge|, k, edof);
  }

  /** The `is_boundary_dof` mask as a function of the mesh: flag d is set iff d is in `boundary_dof`. */
  function BoundaryMask(m: Mesh, p: nat): (mask: seq<bool>)
    requires ValidMesh(m)
    ensures |mask| == NumberOfGlobalDofs(m, p)
  {
    seq(NumberOfGlobalDofs(m, p), d => d in BoundaryDof(m, p))
  }

  /** The mask is true exactly at the DoFs of boundary edges; interior-cell DoFs are never flagged. */
  lemma BoundaryMaskExact(m: Mesh, p: nat, d: nat)
    requires ValidMesh(m) && d < NumberOfGlobalDofs(m, p)
    ensures BoundaryMask(m, p)[d] <==> d < |m.edge| * Edof(p) && d / Edof(p) in m.boundaryEdges
    ensures d >= |m.edge| * Edof(p) ==> !BoundaryMask(m, p)[d]
  {
    BoundaryDofMember(m, p, d);
  }

  /** `is_boundary_dof`: a zero-initialised flag array of length gdof, set to true at every boundary DoF. */
  method IsBoundaryDof(m: Mesh, p: nat) returns (flag: seq<bool>)
    requires ValidMesh(m)
    ensures flag == BoundaryMask(m, p)
  {
    var bddof := BoundaryDof(m, p);
    var gdof := NumberOfGlobalDofs(m, p);
    var a := new bool[gdof](_ => false);
    MulMono(0, |m.cell|, Cdof(p));
    assert |m.edge| * Edof(p) <= gdof;
    for t := 0 to |bddof|
      invariant forall d :: 0 <= d < gdof ==> a[d] == (exists q :: 0 <= q < t && bddof[q] == d)
    {
      BoundaryDofMember(m, p, bddof[t]);
      assert bddof[t] < gdof;
      a[bddof[t]] := true;
    }
    flag := a[..];
  }

  /** `RTFiniteElementSpace2d` seen as a scalar space: its counts, and a boundary
      query that ignores `threshold` and `method` and returns the DoF manager's mask. */
  function RTSpace(m: Mesh, p: nat): (s: ScalarSpace)
    requires ValidMesh(m)
    ensures s.gdof == NumberOfGlobalDofs(m, p)
    ensures forall t, meth :: s.boundaryMask(t, meth) == BoundaryMask(m, p)
    ensures ValidScalarSpace(s)
  {
    ScalarSpace(NumberOfGlobalDofs(m, p), d => NumberOfLocalDofs(p, d), (t, meth) => BoundaryMask(m, p))
  }
}
