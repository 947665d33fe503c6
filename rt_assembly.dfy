/** The scatter structure of the assemblers of `RTFiniteElementSpace2d`
    (fealpy/functionspace/RaviartThomasFiniteElementSpace2d.py): how the local
    values of each cell reach the global vector or matrix through the
    cell-to-DoF table.  The local values themselves (quadrature sums of basis
    products) are inputs; only the index bookkeeping is modelled.

    - `source_vector` accumulates with `add.at`: repeated DoFs add up.
    - `mass_matrix` builds a CSR matrix from (I, J, V) triplets: repeated
      (row, column) pairs add up.
    - `set_neumann_bc` assigns with `vec[edge2dof] = ...`: a DoF written twice
      keeps the last value. */
module RTAssembly {
  import opened Wrappers
  import opened SeqUtil
  import opened RTDof

  // ----- accumulation: np.add.at -----

  /** The sum of vals[t] over the positions t with idx[t] == g. */
  function SumAt(idx: seq<nat>, vals: seq<real>, g: nat): real
    requires |idx| == |vals|
    decreases |idx|
  {
    if |idx| == 0 then 0.0
    else
      var n := |idx| - 1;
      SumAt(idx[..n], vals[..n], g) + (if idx[n] == g then vals[n] else 0.0)
  }

  /** np.add.at(base, idx, vals) as a value: the pairs are added one after the other. */
  function AddAll(base: seq<real>, idx: seq<nat>, vals: seq<real>): (r: seq<real>)
    requires |idx| == |vals|
    requires forall t :: 0 <= t < |idx| ==> idx[t] < |base|
    ensures |r| == |base|
    decreases |idx|
  {
    if |idx| == 0 then base
    else
      var n := |idx| - 1;
      var r := AddAll(base, idx[..n], vals[..n]);
      r[idx[n] := r[idx[n]] + vals[n]]
  }

  /** Each entry receives the sum of all values aimed at it, repeats included. */
  lemma {:induction false} AddAllAt(base: seq<real>, idx: seq<nat>, vals: seq<real>, g: nat)
    requires |idx| == |vals|
    requires forall t :: 0 <= t < |idx| ==> idx[t] < |base|
    requires g < |base|
    ensures AddAll(base, idx, vals)[g] == base[g] + SumAt(idx, vals, g)
    decreases |idx|
  {
    if |idx| > 0 {
      var n := |idx| - 1;
      AddAllAt(base, idx[..n], vals[..n], g);
    }
  }

  /** Nothing is lost or created: the total grows by the sum of the values. */
  lemma {:induction false} AddAllTotal(base: seq<real>, idx: seq<nat>, vals: seq<real>)
    requires |idx| == |vals|
    requires forall t :: 0 <= t < |idx| ==> idx[t] < |base|
    ensures Sum(AddAll(base, idx, vals)) == Sum(base) + Sum(vals)
    decreases |idx|
  {
    if |idx| > 0 {
      var n := |idx| - 1;
      AddAllTotal(base, idx[..n], vals[..n]);
      SumUpdate(AddAll(base, idx[..n], vals[..n]), idx[n], vals[n]);
      assert vals == vals[..n] + [vals[n]];
      SumAppend(vals[..n], [vals[n]]);
    }
  }

  /** `np.add.at(vec, idx, vals)`, in place. */
  method AddAt(vec: array<real>, idx: seq<nat>, vals: seq<real>)
    requires |idx| == |vals|
    requires forall t :: 0 <= t < |idx| ==> idx[t] < vec.Length
    modifies vec
    ensures vec[..] == AddAll(old(vec[..]), idx, vals)
  {
    for t := 0 to |idx|
      invariant vec[..] == AddAll(old(vec[..]), idx[..t], vals[..t])
    {
      assert idx[..t + 1][..t] == idx[..t] && vals[..t + 1][..t] == vals[..t];
      vec[idx[t]] := vec[idx[t]] + vals[t];
    }
    assert idx[..|idx|] == idx && vals[..|vals|] == vals;
  }

  /** The table `cell_to_dof` flattened in C order, as `add.at` reads it. */
  function FlatTable(m: Mesh, p: nat): (idx: seq<nat>)
    requires ValidMesh(m)
    ensures |idx| == |m.cell| * Ldof(p)
    ensures forall t :: 0 <= t < |idx| ==> idx[t] < NumberOfGlobalDofs(m, p)
  {
    var table := CellTable(m, p);
    FlattenUniformLength(table, Ldof(p));
    var idx := Flatten<nat>(table);
    forall t | 0 <= t < |idx| ensures idx[t] < NumberOfGlobalDofs(m, p) {
      FlattenMember(table, idx[t]);
    }
    idx
  }

  /** `source_vector`: `vec = zeros(gdof)`, then `add.at(vec, c2d, val)` with the
      local load values `val` of shape (NC, ldof).  Entry g is the sum of
      val[c][l] over every (c, l) with c2d[c][l] == g, and the total load is kept.
      A mesh without cells fails with ValueError in `cell_to_dof`. */
  method SourceVector(m: Mesh, p: nat, val: seq<seq<real>>) returns (r: Result<seq<real>>)
    requires ValidMesh(m)
    requires |val| == |m.cell| && forall c :: 0 <= c < |val| ==> |val[c]| == Ldof(p)
    ensures r.Err? <==> |m.cell| == 0
    ensures r.Err? ==> r.error == ValueError
    ensures r.Ok? ==> |r.value| == NumberOfGlobalDofs(m, p)
    ensures |Flatten(val)| == |FlatTable(m, p)|
    ensures r.Ok? ==> forall g :: 0 <= g < |r.value| ==> r.value[g] == SumAt(FlatTable(m, p), Flatten(val), g)
    ensures r.Ok? ==> Sum(r.value) == Sum(Flatten(val))
  {
    FlattenUniformLength(val, Ldof(p));
    if |m.cell| == 0 {
      return Err(ValueError);
    }
    var vec := Accumulate(m, p, val);
    r := Ok(vec);
  }

  /** The `add.at` step of `source_vector` on a zero vector of length gdof. */
  method Accumulate(m: Mesh, p: nat, val: seq<seq<real>>) returns (vec: seq<real>)
    requires ValidMesh(m)
    requires |val| == |m.cell| && forall c :: 0 <= c < |val| ==> |val[c]| == Ldof(p)
    ensures |vec| == NumberOfGlobalDofs(m, p)
    ensures |Flatten(val)| == |FlatTable(m, p)|
    ensures forall g :: 0 <= g < |vec| ==> vec[g] == SumAt(FlatTable(m, p), Flatten(val), g)
    ensures Sum(vec) == Sum(Flatten(val))
  {
    var gdof := NumberOfGlobalDofs(m, p);
    var idx, vals := FlatTable(m, p), Flatten(val);
    FlattenUniformLength(val, Ldof(p));
    var a := new real[gdof](_ => 0.0);
    ghost var zeros := a[..];
    assert zeros == seq(gdof, _ => 0.0);
    AddAt(a, idx, vals);
    vec := a[..];
    forall g | 0 <= g < gdof ensures vec[g] == SumAt(idx, vals, g) {
      AddAllAt(zeros, idx, vals, g);
    }
    AddAllTotal(zeros, idx, vals);
    SumZeros(gdof);
  }

  // ----- duplicate summation: csr_matrix((V, (I, J))) -----

  /** One (row, column, value) triplet of a COO listing. */
  datatype Triplet = Triplet(row: nat, col: nat, val: real)

  /** The matrix entry (i, j) that `csr_matrix` builds from a triplet listing:
      the values of all triplets at (i, j), summed. */
  function CooEntry(ts: seq<Triplet>, i: nat, j: nat): real
    decreases |ts|
  {
    if |ts| == 0 then 0.0
    else
      var n := |ts| - 1;
      CooEntry(ts[..n], i, j) + (if ts[n].row == i && ts[n].col == j then ts[n].val else 0.0)
  }

  lemma {:induction false} CooEntryAppend(a: seq<Triplet>, b: seq<Triplet>, i: nat, j: nat)
    ensures CooEntry(a + b, i, j) == CooEntry(a, i, j) + CooEntry(b, i, j)
    decreases |b|
  {
    if |b| > 0 {
      var n := |b| - 1;
      assert (a + b)[..|a + b| - 1] == a + b[..n];
      CooEntryAppend(a, b[..n], i, j);
    } else {
      assert a + b == a;
    }
  }

  /** Triplets of one cell: (c2d[c][l], c2d[c][d], mass[c][l][d]) for l, d < ldof, in C order. */
  function CellTriplets(row: seq<nat>, mc: seq<seq<real>>): (ts: seq<Triplet>)
    requires |mc| == |row| && forall l :: 0 <= l < |mc| ==> |mc[l]| == |row|
  {
    Flatten(Lines(row, mc, |row|))
  }

  function LineTriplets(row: seq<nat>, mc: seq<seq<real>>, l: nat): (ts: seq<Triplet>)
    requires |mc| == |row| && forall l :: 0 <= l < |mc| ==> |mc[l]| == |row|
    requires l < |row|
  {
    seq(|row|, d requires 0 <= d < |row| => Triplet(row[l], row[d], mc[l][d]))
  }

  /** The contribution of local pair (l, d) of one cell to entry (i, j). */
  function Contrib(row: seq<nat>, mc: seq<seq<real>>, i: nat, j: nat, l: nat, d: nat): real
  {
    if l < |row| && d < |row| && l < |mc| && d < |mc[l]| && row[l] == i && row[d] == j then mc[l][d] else 0.0
  }

  /** Sum over d < n of Contrib(l, d): one local row of the cell. */
  function LineSum(row: seq<nat>, mc: seq<seq<real>>, i: nat, j: nat, l: nat, n: nat): real
  {
    if n == 0 then 0.0 else LineSum(row, mc, i, j, l, n - 1) + Contrib(row, mc, i, j, l, n - 1)
  }

  /** Sum over l < n of Contrib(l, d): one local column of the cell. */
  function ColumnSum(row: seq<nat>, mc: seq<seq<real>>, i: nat, j: nat, d: nat, n: nat): real
  {
    if n == 0 then 0.0 else ColumnSum(row, mc, i, j, d, n - 1) + Contrib(row, mc, i, j, n - 1, d)
  }

  /** Sum over l < a of the rows' sums over d < b. */
  function ByRows(row: seq<nat>, mc: seq<seq<real>>, i: nat, j: nat, a: nat, b: nat): real
  {
    if a == 0 then 0.0 else ByRows(row, mc, i, j, a - 1, b) + LineSum(row, mc, i, j, a - 1, b)
  }

  /** Sum over d < b of the columns' sums over l < a. */
  function ByColumns(row: seq<nat>, mc: seq<seq<real>>, i: nat, j: nat, b: nat, a: nat): real
  {
    if b == 0 then 0.0 else ByColumns(row, mc, i, j, b - 1, a) + ColumnSum(row, mc, i, j, b - 1, a)
  }

  /** What one cell adds to entry (i, j): the sum of mass[c][l][d] over the local
      pairs (l, d) with c2d[c][l] == i and c2d[c][d] == j. */
  function CellEntry(row: seq<nat>, mc: seq<seq<real>>, i: nat, j: nat): real
  {
    ByRows(row, mc, i, j, |row|, |row|)
  }

  lemma {:induction false} ByColumnsStep(row: seq<nat>, mc: seq<seq<real>>, i: nat, j: nat, b: nat, a: nat)
    ensures ByColumns(row, mc, i, j, b, a + 1) == ByColumns(row, mc, i, j, b, a) + LineSum(row, mc, i, j, a, b)
  {
    if b > 0 { ByColumnsStep(row, mc, i, j, b - 1, a); }
  }

  /** A double sum over a rectangle can be taken in either order. */
  lemma {:induction false} RowsColumnsSwap(row: seq<nat>, mc: seq<seq<real>>, i: nat, j: nat, a: nat, b: nat)
    ensures ByRows(row, mc, i, j, a, b) == ByColumns(row, mc, i, j, b, a)
  {
    if a == 0 {
      ColumnsOfNothing(row, mc, i, j, b);
    } else {
      RowsColumnsSwap(row, mc, i, j, a - 1, b);
      ByColumnsStep(row, mc, i, j, b, a - 1);
    }
  }

  lemma {:induction false} ColumnsOfNothing(row: seq<nat>, mc: seq<seq<real>>, i: nat, j: nat, b: nat)
    ensures ByColumns(row, mc, i, j, b, 0) == 0.0
  {
    if b > 0 { ColumnsOfNothing(row, mc, i, j, b - 1); }
  }

  /** With a symmetric local matrix, column d of entry (i, j) is row d of entry (j, i). */
  lemma {:induction false} ColumnIsTransposedLine(row: seq<nat>, mc: seq<seq<real>>, i: nat, j: nat, d: nat, n: nat)
    requires |mc| == |row| && forall l :: 0 <= l < |mc| ==> |mc[l]| == |row|
    requires forall l, d :: 0 <= l < |row| && 0 <= d < |row| ==> mc[l][d] == mc[d][l]
    ensures ColumnSum(row, mc, i, j, d, n) == LineSum(row, mc, j, i, d, n)
  {
    if n > 0 { ColumnIsTransposedLine(row, mc, i, j, d, n - 1); }
  }

  lemma {:induction false} ColumnsAreTransposedRows(row: seq<nat>, mc: seq<seq<real>>, i: nat, j: nat, b: nat, a: nat)
    requires |mc| == |row| && forall l :: 0 <= l < |mc| ==> |mc[l]| == |row|
    requires forall l, d :: 0 <= l < |row| && 0 <= d < |row| ==> mc[l][d] == mc[d][l]
    ensures ByColumns(row, mc, i, j, b, a) == ByRows(row, mc, j, i, b, a)
  {
    if b > 0 {
      ColumnsAreTransposedRows(row, mc, i, j, b - 1, a);
      ColumnIsTransposedLine(row, mc, i, j, b - 1, a);
    }
  }

  /** A symmetric local matrix makes a symmetric cell contribution. */
  lemma CellEntrySymmetric(row: seq<nat>, mc: seq<seq<real>>, i: nat, j: nat)
    requires |mc| == |row| && forall l :: 0 <= l < |mc| ==> |mc[l]| == |row|
    requires forall l, d :: 0 <= l < |row| && 0 <= d < |row| ==> mc[l][d] == mc[d][l]
    ensures CellEntry(row, mc, i, j) == CellEntry(row, mc, j, i)
  {
    RowsColumnsSwap(row, mc, i, j, |row|, |row|);
    ColumnsAreTransposedRows(row, mc, i, j, |row|, |row|);
  }

  lemma {:induction false} LineEntry(row: seq<nat>, mc: seq<seq<real>>, l: nat, n: nat, i: nat, j: nat)
    requires |mc| == |row| && forall l :: 0 <= l < |mc| ==> |mc[l]| == |row|
    requires l < |row| && n <= |row|
    ensures CooEntry(LineTriplets(row, mc, l)[..n], i, j) == LineSum(row, mc, i, j, l, n)
  {
    if n > 0 {
      assert LineTriplets(row, mc, l)[..n][..n - 1] == LineTriplets(row, mc, l)[..n - 1];
      LineEntry(row, mc, l, n - 1, i, j);
    }
  }

  /** The first n local rows of a cell, as triplet lines. */
  function Lines(row: seq<nat>, mc: seq<seq<real>>, n: nat): (lines: seq<seq<Triplet>>)
    requires |mc| == |row| && forall l :: 0 <= l < |mc| ==> |mc[l]| == |row|
    requires n <= |row|
    ensures |lines| == n
    ensures forall l :: 0 <= l < n ==> lines[l] == LineTriplets(row, mc, l)
  {
    seq(n, l requires 0 <= l < n => LineTriplets(row, mc, l))
  }

  lemma {:induction false} LinesEntry(row: seq<nat>, mc: seq<seq<real>>, n: nat, i: nat, j: nat)
    requires |mc| == |row| && forall l :: 0 <= l < |mc| ==> |mc[l]| == |row|
    requires n <= |row|
    ensures CooEntry(Flatten(Lines(row, mc, n)), i, j) == ByRows(row, mc, i, j, n, |row|)
  {
    if n > 0 {
      var lines := Lines(row, mc, n);
      assert lines[..n - 1] == Lines(row, mc, n - 1);
      LinesEntry(row, mc, n - 1, i, j);
      CooEntryAppend(Flatten(lines[..n - 1]), lines[n - 1], i, j);
      assert LineTriplets(row, mc, n - 1)[..|row|] == LineTriplets(row, mc, n - 1);
      LineEntry(row, mc, n - 1, |row|, i, j);
    }
  }

  /** The triplets of one cell contribute exactly CellEntry to entry (i, j). */
  lemma CellTripletsSum(row: seq<nat>, mc: seq<seq<real>>, i: nat, j: nat)
    requires |mc| == |row| && forall l :: 0 <= l < |mc| ==> |mc[l]| == |row|
    ensures CooEntry(CellTriplets(row, mc), i, j) == CellEntry(row, mc, i, j)
  {
    LinesEntry(row, mc, |row|, i, j);
  }

  /** A listing of (gdof x gdof) triplets and the matrix `csr_matrix` makes of it. */
  datatype SparseMatrix = SparseMatrix(size: nat, triplets: seq<Triplet>)

  function Entry(a: SparseMatrix, i: nat, j: nat): real
  {
    CooEntry(a.triplets, i, j)
  }

  /** The local mass matrices of shape (NC, ldof, ldof) fit the mesh. */
  predicate MassShaped(m: Mesh, p: nat, mass: seq<seq<seq<real>>>)
  {
    && |mass| == |m.cell|
    && (forall c :: 0 <= c < |mass| ==> |mass[c]| == Ldof(p))
    && (forall c, l :: 0 <= c < |mass| && 0 <= l < |mass[c]| ==> |mass[c][l]| == Ldof(p))
  }

  /** `mass_matrix`: I = c2d[:, :, None], J = c2d[:, None, :] broadcast to the shape
      of the local matrices, flattened with the values and handed to `csr_matrix`. */
  function MassMatrix(m: Mesh, p: nat, mass: seq<seq<seq<real>>>): (a: SparseMatrix)
    requires ValidMesh(m) && MassShaped(m, p, mass)
    ensures a.size == NumberOfGlobalDofs(m, p)
  {
    SparseMatrix(NumberOfGlobalDofs(m, p), Flatten(MassBlocks(m, p, mass, |m.cell|)))
  }

  /** The triplet blocks of the first n cells. */
  function MassBlocks(m: Mesh, p: nat, mass: seq<seq<seq<real>>>, n: nat): (blocks: seq<seq<Triplet>>)
    requires ValidMesh(m) && MassShaped(m, p, mass) && n <= |m.cell|
    ensures |blocks| == n
    ensures forall c :: 0 <= c < n ==> blocks[c] == CellTriplets(CellRow(m, p, c), mass[c])
  {
    seq(n, c requires 0 <= c < n => CellTriplets(CellRow(m, p, c), mass[c]))
  }

  /** The sum over cells c < n of their contributions to entry (i, j). */
  function CellsEntry(m: Mesh, p: nat, mass: seq<seq<seq<real>>>, i: nat, j: nat, n: nat): real
    requires ValidMesh(m) && MassShaped(m, p, mass) && n <= |m.cell|
  {
    if n == 0 then 0.0 else CellsEntry(m, p, mass, i, j, n - 1) + CellEntry(CellRow(m, p, n - 1), mass[n - 1], i, j)
  }

  lemma {:induction false} MassPrefixEntry(m: Mesh, p: nat, mass: seq<seq<seq<real>>>, n: nat, i: nat, j: nat)
    requires ValidMesh(m) && MassShaped(m, p, mass) && n <= |m.cell|
    ensures CooEntry(Flatten(MassBlocks(m, p, mass, n)), i, j) == CellsEntry(m, p, mass, i, j, n)
  {
    if n > 0 {
      var blocks := MassBlocks(m, p, mass, n);
      assert blocks[..n - 1] == MassBlocks(m, p, mass, n - 1);
      MassPrefixEntry(m, p, mass, n - 1, i, j);
      CooEntryAppend(Flatten(blocks[..n - 1]), blocks[n - 1], i, j);
      CellTripletsSum(CellRow(m, p, n - 1), mass[n - 1], i, j);
    }
  }

  /** Duplicates are summed: entry (i, j) of the mass matrix is the sum over cells c
      and local pairs (l, d) with c2d[c][l] == i and c2d[c][d] == j of mass[c][l][d]. */
  lemma MassMatrixEntry(m: Mesh, p: nat, mass: seq<seq<seq<real>>>, i: nat, j: nat)
    requires ValidMesh(m) && MassShaped(m, p, mass)
    ensures Entry(MassMatrix(m, p, mass), i, j) == CellsEntry(m, p, mass, i, j, |m.cell|)
  {
    MassPrefixEntry(m, p, mass, |m.cell|, i, j);
  }

  lemma {:induction false} CellsEntrySymmetric(m: Mesh, p: nat, mass: seq<seq<seq<real>>>, i: nat, j: nat, n: nat)
    requires ValidMesh(m) && MassShaped(m, p, mass) && n <= |m.cell|
    requires forall c, l, d :: 0 <= c < |mass| && 0 <= l < Ldof(p) && 0 <= d < Ldof(p) ==> mass[c][l][d] == mass[c][d][l]
    ensures CellsEntry(m, p, mass, i, j, n) == CellsEntry(m, p, mass, j, i, n)
  {
    if n > 0 {
      CellsEntrySymmetric(m, p, mass, i, j, n - 1);
      CellEntrySymmetric(CellRow(m, p, n - 1), mass[n - 1], i, j);
    }
  }

  /** Symmetric local mass matrices assemble into a symmetric global matrix. */
  lemma MassMatrixSymmetric(m: Mesh, p: nat, mass: seq<seq<seq<real>>>, i: nat, j: nat)
    requires ValidMesh(m) && MassShaped(m, p, mass)
    requires forall c, l, d :: 0 <= c < |mass| && 0 <= l < Ldof(p) && 0 <= d < Ldof(p) ==> mass[c][l][d] == mass[c][d][l]
    ensures Entry(MassMatrix(m, p, mass), i, j) == Entry(MassMatrix(m, p, mass), j, i)
  {
    MassMatrixEntry(m, p, mass, i, j);
    MassMatrixEntry(m, p, mass, j, i);
    CellsEntrySymmetric(m, p, mass, i, j, |m.cell|);
  }

  // ----- assignment: vec[idx] = vals -----

  /** `base[idx] = vals` as a value: the pairs are written one after the other, so the last write wins. */
  function AssignAll(base: seq<real>, idx: seq<nat>, vals: seq<real>): (r: seq<real>)
    requires |idx| == |vals|
    requires forall t :: 0 <= t < |idx| ==> idx[t] < |base|
    ensures |r| == |base|
    decreases |idx|
  {
    if |idx| == 0 then base
    else
      var n := |idx| - 1;
      AssignAll(base, idx[..n], vals[..n])[idx[n] := vals[n]]
  }

  /** Entries not addressed keep their value. */
  lemma {:induction false} AssignAllOutside(base: seq<real>, idx: seq<nat>, vals: seq<real>, g: nat)
    requires |idx| == |vals|
    requires forall t :: 0 <= t < |idx| ==> idx[t] < |base|
    requires g < |base| && g !in idx
    ensures AssignAll(base, idx, vals)[g] == base[g]
    decreases |idx|
  {
    if |idx| > 0 {
      var n := |idx| - 1;
      assert g != idx[n];
      AssignAllOutside(base, idx[..n], vals[..n], g);
    }
  }

  /** With distinct indices every addressed entry holds its own value, not a sum. */
  lemma {:induction false} AssignAllAt(base: seq<real>, idx: seq<nat>, vals: seq<real>, t: nat)
    requires |idx| == |vals|
    requires forall s :: 0 <= s < |idx| ==> idx[s] < |base|
    requires forall s, s' :: 0 <= s < s' < |idx| ==> idx[s] != idx[s']
    requires t < |idx|
    ensures AssignAll(base, idx, vals)[idx[t]] == vals[t]
    decreases |idx|
  {
    var n := |idx| - 1;
    if t < n {
      AssignAllAt(base, idx[..n], vals[..n], t);
    }
  }

  /** `vec[idx] = vals`, in place. */
  method AssignAt(vec: array<real>, idx: seq<nat>, vals: seq<real>)
    requires |idx| == |vals|
    requires forall t :: 0 <= t < |idx| ==> idx[t] < vec.Length
    modifies vec
    ensures vec[..] == AssignAll(old(vec[..]), idx, vals)
  {
    for t := 0 to |idx|
      invariant vec[..] == AssignAll(old(vec[..]), idx[..t], vals[..t])
    {
      assert idx[..t + 1][..t] == idx[..t] && vals[..t + 1][..t] == vals[..t];
      vec[idx[t]] := vals[t];
    }
    assert idx[..|idx|] == idx && vals[..|vals|] == vals;
  }

  /** The Neumann load vector as a value: zeros, then the boundary edges' values written at their DoFs. */
  function NeumannVector(m: Mesh, p: nat, gval: seq<seq<real>>): (vec: seq<real>)
    requires ValidMesh(m)
    requires |gval| == |m.boundaryEdges| && forall t :: 0 <= t < |gval| ==> |gval[t]| == Edof(p)
    ensures |vec| == NumberOfGlobalDofs(m, p)
  {
    BoundaryDofBounded(m, p);
    FlattenUniformLength(gval, Edof(p));
    AssignAll(seq(NumberOfGlobalDofs(m, p), _ => 0.0), BoundaryDof(m, p), Flatten(gval))
  }

  lemma BoundaryDofBounded(m: Mesh, p: nat)
    requires ValidMesh(m)
    ensures |BoundaryDof(m, p)| == |m.boundaryEdges| * Edof(p)
    ensures forall t :: 0 <= t < |BoundaryDof(m, p)| ==> BoundaryDof(m, p)[t] < NumberOfGlobalDofs(m, p)
  {
    FlattenUniformLength(BoundaryBlocks(m, p), Edof(p));
    forall t | 0 <= t < |BoundaryDof(m, p)| ensures BoundaryDof(m, p)[t] < NumberOfGlobalDofs(m, p) {
      BoundaryDofMember(m, p, BoundaryDof(m, p)[t]);
    }
  }

  /** `set_neumann_bc`: `vec = zeros(gdof)`, then `vec[edge2dof] = gval` with the local
      boundary values `gval` of shape (number of boundary edges, edof).  Only boundary
      DoFs are written; every other entry stays zero. */
  method SetNeumannBC(m: Mesh, p: nat, gval: seq<seq<real>>) returns (vec: seq<real>)
    requires ValidMesh(m)
    requires |gval| == |m.boundaryEdges| && forall t :: 0 <= t < |gval| ==> |gval[t]| == Edof(p)
    ensures vec == NeumannVector(m, p, gval)
    ensures forall d :: 0 <= d < |vec| && !BoundaryMask(m, p)[d] ==> vec[d] == 0.0
  {
    var gdof := NumberOfGlobalDofs(m, p);
    BoundaryDofBounded(m, p);
    FlattenUniformLength(gval, Edof(p));
    var a := new real[gdof](_ => 0.0);
    assert a[..] == seq(gdof, _ => 0.0);
    AssignAt(a, BoundaryDof(m, p), Flatten(gval));
    vec := a[..];
    forall d | 0 <= d < gdof && !BoundaryMask(m, p)[d] ensures vec[d] == 0.0 {
      AssignAllOutside(seq(gdof, _ => 0.0), BoundaryDof(m, p), Flatten(gval), d);
    }
  }

  /** Position s of `boundary_dof` is offset s % edof of boundary edge s / edof. */
  lemma BoundaryDofPosition(m: Mesh, p: nat, s: nat)
    requires ValidMesh(m) && s < |BoundaryDof(m, p)|
    ensures s / Edof(p) < |m.boundaryEdges| && s == (s / Edof(p)) * Edof(p) + s % Edof(p)
    ensures BoundaryDof(m, p)[s] == m.boundaryEdges[s / Edof(p)] * Edof(p) + s % Edof(p)
  {
    BoundaryDofBounded(m, p);
    DivBound(s, |m.boundaryEdges|, Edof(p));
    BoundaryDofAt(m, p, s / Edof(p), s % Edof(p));
  }

  /** Boundary DoFs are pairwise distinct when the boundary edges are. */
  lemma BoundaryDofDistinct(m: Mesh, p: nat, s: nat, s': nat)
    requires ValidMesh(m)
    requires forall t, t' :: 0 <= t < t' < |m.boundaryEdges| ==> m.boundaryEdges[t] != m.boundaryEdges[t']
    requires s < s' < |BoundaryDof(m, p)|
    ensures BoundaryDof(m, p)[s] != BoundaryDof(m, p)[s']
  {
    var w, be := Edof(p), m.boundaryEdges;
    BoundaryDofPosition(m, p, s);
    BoundaryDofPosition(m, p, s');
    PositionsDiffer(be, s, s', w);
  }

  lemma PositionsDiffer(be: seq<nat>, s: nat, s': nat, w: nat)
    requires forall t, t' :: 0 <= t < t' < |be| ==> be[t] != be[t']
    requires w > 0 && s < s'
    requires s / w < |be| && s' / w < |be|
    requires s == (s / w) * w + s % w && s' == (s' / w) * w + s' % w
    ensures be[s / w] * w + s % w != be[s' / w] * w + s' % w
  {
    var t, k, t', k' := s / w, s % w, s' / w, s' % w;
    if be[t] * w + k == be[t'] * w + k' {
      MulInjective(be[t], k, be[t'], k', w);
    }
  }

  /** Each boundary DoF holds the value computed for it (assignment, not accumulation). */
  lemma NeumannAt(m: Mesh, p: nat, gval: seq<seq<real>>, t: nat, k: nat)
    requires ValidMesh(m)
    requires |gval| == |m.boundaryEdges| && forall t :: 0 <= t < |gval| ==> |gval[t]| == Edof(p)
    requires forall t, t' :: 0 <= t < t' < |m.boundaryEdges| ==> m.boundaryEdges[t] != m.boundaryEdges[t']
    requires t < |m.boundaryEdges| && k < Edof(p)
    ensures m.boundaryEdges[t] * Edof(p) + k < NumberOfGlobalDofs(m, p)
    ensures NeumannVector(m, p, gval)[m.boundaryEdges[t] * Edof(p) + k] == gval[t][k]
  {
    var gdof := NumberOfGlobalDofs(m, p);
    BoundaryDofBounded(m, p);
    BoundaryDofAt(m, p, t, k);
    FlattenUniformAt(gval, Edof(p), t, k);
    forall s, s' | 0 <= s < s' < |BoundaryDof(m, p)| ensures BoundaryDof(m, p)[s] != BoundaryDof(m, p)[s'] {
      BoundaryDofDistinct(m, p, s, s');
    }
    AssignAllAt(seq(gdof, _ => 0.0), BoundaryDof(m, p), Flatten(gval), t * Edof(p) + k);
  }
}
