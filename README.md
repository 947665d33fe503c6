# fealpy index bookkeeping in Dafny

This project models the integer bookkeeping that sits around fealpy's numerics:

- **Raviart–Thomas DoF manager** (`RTDof2d`): the local and global DoF counts for order `p`, the contiguous edge numbering, the cell-to-DoF table with its orientation flips, and the boundary flags.
- **Raviart–Thomas scatter rules.** `source_vector` accumulates duplicate indices (`add.at`). `mass_matrix` sums duplicate (row, column) pairs the way `csr_matrix` does. `set_neumann_bc` assigns.
- **`TensorFunctionSpace`:**
  - the shape/priority parsing and the DoF count scaling;
  - the entity dispatch;
  - the lift of a scalar boundary mask to the tensor layout (DoF-major or component-major);
  - the masked writes of `boundary_interpolate`.
- **The base `FunctionSpace`:** `array` (zero-filled DoF values) and `function`.
- **The extreme-node test and masked smoothing** of the `Estimator` in `test/test_extreme.py`.
- **TSP:** the random-key route decoding (`gbest2route`) and the closed-tour fitness.
- **The screen mesher of `app/svads3d`:**
  - the tag-to-id inverse map;
  - the node compaction of `_partmeshing`;
  - the de-duplicated Dirichlet data of `_get_didx_dval`;
  - the overlap/non-overlap classification of `meshing`;
  - the camera ring pairing of `ground_mark_board`.

Floating-point values appear only as opaque `real`s. The model never computes a basis function, a quadrature or a distance.

## Files

Each file is one module:

- **`wrappers.dfy`** (`Wrappers`): `Option`, `Result` and the Python exception kinds.
- **`seq_util.dfy`** (`SeqUtil`): sums, products, `Flatten`, `Reverse`, and small arithmetic lemmas.
- **`function_space.dfy`** (`FunctionSpace`):
  - the base space's `array`/`function`;
  - the `ScalarSpace` record. It stands for the abstract scalar space: its global DoF count, its local counts and its `is_boundary_dof` mask.
- **`rt_dof.dfy`** (`RTDof`): `RTDof2d`.
- **`rt_assembly.dfy`** (`RTAssembly`): the scatter structure of `source_vector`, `mass_matrix` and `set_neumann_bc`.
- **`tensor_space.dfy`** (`TensorSpaces`): `TensorFunctionSpace`.
- **`extreme.dfy`** (`Extreme`): the `Estimator` class.
- **`tsp.dfy`** (`Tsp`): `gbest2route` and the `TravellingSalesmanProblem` class.
- **`screen.dfy`** (`Screen`): the `Screen` class and its index helpers.

## Form of the model

- **In place where the source is in place.** Code that changes state in place is modelled in imperative Dafny, proved against specification functions:
  - `cell_to_dof` fills an `array2`;
  - `is_boundary_dof` sets flags;
  - `add.at` and the Neumann assignment write arrays;
  - `boundary_interpolate` writes `uh` in place;
  - `is_extreme_node` counts into two arrays;
  - `smooth_rho` overwrites `rho` twice;
  - `fitness` accumulates row distances;
  - `_partmeshing` and the `tag2nid` construction fill maps;
  - `meshing` appends to the four record lists of the `Screen` object.
- **Functions where the source is pure.** Pure code is modelled as functions: counts, dispatch, masks, argsort and route decoding.
- **Inputs.** Each external input is a parameter:
  - the mesh;
  - gmsh's node tags and element tags (`Region`: the triangle tags of each surface, the cameras and the boundary-edge node tags of a part);
  - the camera projection `f0`;
  - the midpoint map of `ground_mark_board`;
  - the averaging operator of `smooth_rho`;
  - the evaluated `gd` of `boundary_interpolate`.

## Model

| member | source | states |
|---|---|---|
| `RTDof.NumberOfLocalDofs` | fealpy/functionspace/RaviartThomasFiniteElementSpace2d.py:29-38 | defines the local count per doftype in the source's branch order, None for a doftype no branch names |
| `RTDof.NumberOfGlobalDofs` | fealpy/functionspace/RaviartThomasFiniteElementSpace2d.py:40-45 | defines gdof as NE·edof + NC·cdof |
| `RTDof.LocalDofCounts` | fealpy/functionspace/RaviartThomasFiniteElementSpace2d.py:29-38 | 'all' gives (p+1)(p+3), 'cell'/2 gives p(p+1), 'edge'/'face'/1 gives p+1, 'node'/0 gives 0; all = 3·edge + cell; any other doftype gives nothing |
| `RTDof.EdgeToDof` | fealpy/functionspace/RaviartThomasFiniteElementSpace2d.py:47-50 | NE rows of edof entries each |
| `RTDof.EdgeToDofPartition` | fealpy/functionspace/RaviartThomasFiniteElementSpace2d.py:47-50 | every entry is below NE·edof, every d below NE·edof sits at (d / edof, d % edof), and no two positions share an entry: the edge blocks are disjoint and cover [0, NE·edof) |
| `RTDof.CellRow` | fealpy/functionspace/RaviartThomasFiniteElementSpace2d.py:52-76 | row c of `cell_to_dof` has ldof entries: the blocks of the cell's three edges (each reversed when the cell runs against the edge), then the cell's interior block |
| `RTDof.CellRowOrientation` | fealpy/functionspace/RaviartThomasFiniteElementSpace2d.py:66-73 | slot k of block i of row c is entry edof-1-k of the block of edge c2e[c,i] when cell[c, s[i]] == edge[c2e[c,i], 1] with s = [1, 0, 0], and entry k otherwise |
| `RTDof.CellRowInteriorAt` | fealpy/functionspace/RaviartThomasFiniteElementSpace2d.py:75 | interior slot k of row c holds NE·edof + c·cdof + k |
| `RTDof.CellRowBounded` | fealpy/functionspace/RaviartThomasFiniteElementSpace2d.py:52-76 | every entry of the cell-to-DoF table is below gdof |
| `RTDof.CellRowKinds` | fealpy/functionspace/RaviartThomasFiniteElementSpace2d.py:66-75 | a slot is an edge slot exactly when its entry is an edge DoF (below NE·edof) |
| `RTDof.InteriorDofsUnique` | fealpy/functionspace/RaviartThomasFiniteElementSpace2d.py:75 | two interior slots hold the same DoF only if they are the same slot of the same cell |
| `RTDof.SharedEdgeSameDofs` | fealpy/functionspace/RaviartThomasFiniteElementSpace2d.py:66-73 | two cells on a common edge hold the same DoFs for it, whatever their orientation |
| `RTDof.CellTable` | fealpy/functionspace/RaviartThomasFiniteElementSpace2d.py:52-76 | NC rows, row c is the cell row of c, all entries below gdof |
| `RTDof.CellToDof` | fealpy/functionspace/RaviartThomasFiniteElementSpace2d.py:52-76 | a mesh without cells raises ValueError (line 75 reshapes an empty range to (NC, -1) = (0, -1)); otherwise the new NC × ldof array holds the cell rows: edge blocks, flips, interior DoFs |
| `RTDof.FillCellToDof` | fealpy/functionspace/RaviartThomasFiniteElementSpace2d.py:66-75 | the three stages of `cell_to_dof` on a fresh NC × ldof array leave the cell rows |
| `RTDof.FillEdgeColumns` | fealpy/functionspace/RaviartThomasFiniteElementSpace2d.py:68 | the first 3·edof columns of each row hold the blocks of the cell's three edges |
| `RTDof.FlipBlock` | fealpy/functionspace/RaviartThomasFiniteElementSpace2d.py:69-73 | reverses block i of row c and changes no other row |
| `RTDof.FillInteriorColumns` | fealpy/functionspace/RaviartThomasFiniteElementSpace2d.py:75 | the remaining columns hold the cell's interior DoFs and the edge columns are unchanged |
| `RTDof.BoundaryBlocks` | fealpy/functionspace/RaviartThomasFiniteElementSpace2d.py:82-85 | one edge-DoF block per boundary edge, in boundary order |
| `RTDof.BoundaryDof` | fealpy/functionspace/RaviartThomasFiniteElementSpace2d.py:82-85 | defines `boundary_dof` as the boundary edges' DoF blocks flattened in boundary-edge order |
| `RTDof.BoundaryDofAt` | fealpy/functionspace/RaviartThomasFiniteElementSpace2d.py:82-85 | `boundary_dof` has (number of boundary edges)·edof entries and position t·edof + k holds boundaryEdges[t]·edof + k |
| `RTDof.BoundaryDofMember` | fealpy/functionspace/RaviartThomasFiniteElementSpace2d.py:82-85 | d is a boundary DoF exactly when it is an edge DoF whose edge d / edof is a boundary edge |
| `RTDof.BoundaryMask` | fealpy/functionspace/RaviartThomasFiniteElementSpace2d.py:87-94 | gdof flags; flag d is set exactly when d is in `boundary_dof` |
| `RTDof.BoundaryMaskExact` | fealpy/functionspace/RaviartThomasFiniteElementSpace2d.py:87-94 | the flag of d is true exactly at DoFs of boundary edges; interior-cell DoFs are never flagged |
| `RTDof.IsBoundaryDof` | fealpy/functionspace/RaviartThomasFiniteElementSpace2d.py:87-94 | the flags the method sets are the boundary mask (length gdof) |
| `RTDof.RTSpace` | fealpy/functionspace/RaviartThomasFiniteElementSpace2d.py:251-252 | the space's mask ignores threshold and method, and its gdof is the DoF manager's |
| `RTAssembly.AddAll` | fealpy/functionspace/RaviartThomasFiniteElementSpace2d.py:349 | `add.at` as a value: the (index, value) pairs are added one after the other, and the vector keeps its length |
| `RTAssembly.AddAllAt` | fealpy/functionspace/RaviartThomasFiniteElementSpace2d.py:349 | after `add.at`, vec[g] is its old value plus the sum of all values whose index is g |
| `RTAssembly.AddAllTotal` | fealpy/functionspace/RaviartThomasFiniteElementSpace2d.py:349 | `add.at` adds the total of the values to the total of the vector |
| `RTAssembly.AddAt` | fealpy/functionspace/RaviartThomasFiniteElementSpace2d.py:349 | the array loop leaves the vector `add.at` describes |
| `RTAssembly.SourceVector` | fealpy/functionspace/RaviartThomasFiniteElementSpace2d.py:335-352 | a mesh without cells raises ValueError inside `cell_to_dof`; otherwise vec has gdof entries, vec[g] is the sum of val[c,l] over all (c,l) with c2d[c,l] = g, and the total is the total of val |
| `RTAssembly.Accumulate` | fealpy/functionspace/RaviartThomasFiniteElementSpace2d.py:348-349 | `add.at` into a zero vector of gdof entries gives, at g, the sum of the values whose table entry is g, and keeps the total |
| `RTAssembly.CooEntry` | fealpy/functionspace/RaviartThomasFiniteElementSpace2d.py:306 | defines entry (i, j) of the matrix `csr_matrix` builds from a triplet list: the sum of the values of all triplets at (i, j) |
| `RTAssembly.CooEntryAppend` | fealpy/functionspace/RaviartThomasFiniteElementSpace2d.py:306 | duplicate (I, J) pairs add up: the entry of concatenated triplet lists is the sum of the entries |
| `RTAssembly.CellTripletsSum` | fealpy/functionspace/RaviartThomasFiniteElementSpace2d.py:304-306 | the entry (i, j) from one cell is the sum of mass[l][d] over the local pairs with c2d[l] = i and c2d[d] = j |
| `RTAssembly.MassMatrix` | fealpy/functionspace/RaviartThomasFiniteElementSpace2d.py:306 | the assembled matrix is gdof × gdof |
| `RTAssembly.MassBlocks` | fealpy/functionspace/RaviartThomasFiniteElementSpace2d.py:302-306 | one triplet block per cell, block c holding (c2d[c,l], c2d[c,d], mass[c,l,d]) for every local pair in C order |
| `RTAssembly.MassMatrixEntry` | fealpy/functionspace/RaviartThomasFiniteElementSpace2d.py:304-306 | entry (i, j) of M is the cell-by-cell sum of the local contributions that map to (i, j) |
| `RTAssembly.MassMatrixSymmetric` | fealpy/functionspace/RaviartThomasFiniteElementSpace2d.py:302-306 | symmetric local matrices assemble into a symmetric M |
| `RTAssembly.AssignAll` | fealpy/functionspace/RaviartThomasFiniteElementSpace2d.py:393 | indexed assignment as a value: the pairs are written one after the other, so a repeated index keeps the last value; the length is kept |
| `RTAssembly.AssignAllOutside` | fealpy/functionspace/RaviartThomasFiniteElementSpace2d.py:393 | an indexed assignment leaves every position outside the index list as it was |
| `RTAssembly.AssignAllAt` | fealpy/functionspace/RaviartThomasFiniteElementSpace2d.py:393 | with distinct indices, position idx[t] holds vals[t] (assignment, not accumulation) |
| `RTAssembly.AssignAt` | fealpy/functionspace/RaviartThomasFiniteElementSpace2d.py:393 | the array loop leaves the vector the indexed assignment describes |
| `RTAssembly.BoundaryDofBounded` | fealpy/functionspace/RaviartThomasFiniteElementSpace2d.py:382 | every boundary-edge DoF is below gdof |
| `RTAssembly.BoundaryDofDistinct` | fealpy/functionspace/RaviartThomasFiniteElementSpace2d.py:382 | distinct boundary edges give pairwise distinct DoFs |
| `RTAssembly.NeumannAt` | fealpy/functionspace/RaviartThomasFiniteElementSpace2d.py:392-393 | DoF k of boundary edge t receives gval[t][k] |
| `RTAssembly.NeumannVector` | fealpy/functionspace/RaviartThomasFiniteElementSpace2d.py:392-393 | gdof entries: zeros with the boundary edges' local values assigned at their DoFs |
| `RTAssembly.SetNeumannBC` | fealpy/functionspace/RaviartThomasFiniteElementSpace2d.py:376-395 | the method's vector is the Neumann vector, and every DoF outside the boundary mask stays 0 |
| `FunctionSpace.ArrayShape` | fealpy/experimental/functionspace/space.py:37-47 | the shape is (GDOF,) for no dim or 0, (GDOF, n) for an int n > 0, (GDOF, *dim) for a tuple |
| `FunctionSpace.Array` | fealpy/experimental/functionspace/space.py:37-47 | the array has that shape, as many entries as its shape's product, all zero |
| `FunctionSpace.NewFunction` | fealpy/experimental/functionspace/space.py:49-63 | given data is wrapped unchanged; without data the values are the zero array of the requested shape |
| `FunctionSpace.ZeroScalarFunction` | fealpy/experimental/functionspace/space.py:61-63 | `function()` of a scalar space is GDOF zeros |
| `TensorSpaces.NewTensorSpace` | fealpy/functionspace/tensor_space.py:14-38 | succeeds exactly when len(shape) ≥ 2 and an end is -1, else ValueError; a leading -1 (also when both ends are -1) gives shape[1:] and no DoF priority, else shape[:-1] with DoF priority |
| `TensorSpaces.ShapeReassembles` | fealpy/functionspace/tensor_space.py:26-36 | the parsed DoF shape and priority give back the original shape |
| `TensorSpaces.ShapeRoundTrip` | fealpy/functionspace/tensor_space.py:26-36 | parsing a built shape recovers the DoF shape and priority, except for a priority shape whose first extent is -1 (the leading -1 wins) |
| `TensorSpaces.DofNumel` | fealpy/functionspace/tensor_space.py:52-53 | defines `dof_numel` as the product of the DoF shape, an unbounded integer that may be negative |
| `TensorSpaces.NumberOfGlobalDofs` | fealpy/functionspace/tensor_space.py:59-60 | defines gdof as dof_numel times the scalar gdof |
| `TensorSpaces.NumberOfLocalDofs` | fealpy/functionspace/tensor_space.py:62-63 | dof_numel times the scalar count; an unknown doftype fails |
| `TensorSpaces.SelectRows` | fealpy/functionspace/tensor_space.py:115 | a full slice keeps the table; an index list selects its rows, with negative indices wrapping, and an out-of-range index raises IndexError |
| `TensorSpaces.EntityToDof` | fealpy/functionspace/tensor_space.py:112-121 | TD selects cells, then TD-1 faces, then 1 edges, checked in that order; any other etype raises ValueError |
| `TensorSpaces.Transpose` | fealpy/functionspace/tensor_space.py:261 | n rows, each as long as the table; row k is column k of the table |
| `TensorSpaces.LayoutAt` | fealpy/functionspace/tensor_space.py:152-157 | the flat layout of an m × n table has m·n entries; entry (i, k) is at k·m + i with DoF priority and at i·n + k without |
| `TensorSpaces.LayoutsTransposed` | fealpy/functionspace/tensor_space.py:260-263 | the DoF-major layout at i·n + k equals the component-major layout at k·m + i (m rows) |
| `TensorSpaces.Lift` | fealpy/functionspace/tensor_space.py:149-157 | the corrected lift succeeds exactly when the DoF shape has no negative extent, else ValueError |
| `TensorSpaces.LiftAsWrittenRefusesMatrixShape` | fealpy/functionspace/tensor_space.py:153-156 | for shape (2, 2, -1) the reshape as written raises ValueError while the corrected lift succeeds |
| `TensorSpaces.LiftAsWritten` | fealpy/functionspace/tensor_space.py:149-157 | the None/callable branch as written: ValueError for two or more DoF axes, for a negative extent, and for one axis over a scalar space without DoFs; otherwise each scalar flag repeated for every component in the space's layout |
| `TensorSpaces.LiftAsWrittenAgreesOnVectors` | fealpy/functionspace/tensor_space.py:152-157 | with a one-axis DoF shape the lift as written and the corrected lift agree when the scalar space has DoFs; with none, the reshape as written raises ValueError where the corrected lift gives the empty mask |
| `TensorSpaces.IsBoundaryDof` | fealpy/functionspace/tensor_space.py:138-222 | `is_boundary_dof` by branch: a boolean tensor of gdof flags is returned, any other tensor raises ValueError; None/callable lift the scalar mask; an 'interp' tuple checks its length (AssertionError), refuses an empty concatenation (ValueError) and joins the component masks; 'centroid' is not modelled; any other method or threshold raises ValueError |
| `TensorSpaces.TensorThresholdPassThrough` | fealpy/functionspace/tensor_space.py:143-148 | a tensor threshold is returned unchanged exactly when it is boolean of length gdof; otherwise ValueError |
| `TensorSpaces.IsBoundaryDofLength` | fealpy/functionspace/tensor_space.py:138-222 | every mask `is_boundary_dof` returns has the tensor space's gdof entries |
| `TensorSpaces.LiftedMaskAt` | fealpy/functionspace/tensor_space.py:149-157 | for a None/callable threshold, flat index k·sgdof + i (DoF priority) or i·dof_numel + k (otherwise) holds scalar_mask[i] |
| `TensorSpaces.ComponentMasks` | fealpy/functionspace/tensor_space.py:212 | one scalar mask per 'interp' threshold, each of sgdof flags |
| `TensorSpaces.InterpMask` | fealpy/functionspace/tensor_space.py:213-216 | the 'interp' concatenation: the component masks one after the other with DoF priority, or for each scalar DoF the components' flags at it |
| `TensorSpaces.InterpMaskIsLayout` | fealpy/functionspace/tensor_space.py:213-216 | the 'interp' concatenations are the layout of the per-DoF component flags |
| `TensorSpaces.InterpMaskAt` | fealpy/functionspace/tensor_space.py:209-219 | with len(threshold) = dof_numel, entry k·sgdof + i (DoF priority) or i·n + k (otherwise) is mask_k[i] |
| `TensorSpaces.InterpOfEqualThresholds` | fealpy/functionspace/tensor_space.py:209-219 | 'interp' with one threshold repeated for every component gives the None/callable lift of that threshold, except where `concatenate` gets an empty list and raises ValueError |
| `TensorSpaces.SetAtCompact` | fealpy/functionspace/tensor_space.py:264 | `set_at` with the masked values of a full vector is the masked write of that vector |
| `TensorSpaces.MaskedWriteIdempotent` | fealpy/functionspace/tensor_space.py:243 | writing the same masked values twice is writing them once |
| `TensorSpaces.CompactDofMajor` | fealpy/functionspace/tensor_space.py:263-264 | selecting the DoF-major values of the lifted scalar mask selects the masked rows of the callable's table |
| `TensorSpaces.CompactComponentMajor` | fealpy/functionspace/tensor_space.py:260-264 | the same holds for the transposed (component-major) values |
| `TensorSpaces.CountLayout` | fealpy/functionspace/tensor_space.py:348-353 | the lifted mask selects exactly as many entries as the masked values of the callable supply |
| `TensorSpaces.Interpolation` | fealpy/functionspace/tensor_space.py:225-355 | `boundary_interpolate` as a value, branch by branch: a number raises ValueError, a tensor gd checks its length and writes at the mask, a callable gd writes its values at the boundary points in the space's layout, with the errors of each branch |
| `TensorSpaces.InterpolationPlan` | fealpy/functionspace/tensor_space.py:225-355 | for each successful call, the mask and a target of the same length: the values gd gives each tensor DoF; the errors of each branch in the source's order |
| `TensorSpaces.InterpolationFollowsPlan` | fealpy/functionspace/tensor_space.py:225-355 | `boundary_interpolate` either fails with the plan's error (or IndexError when uh's length differs), or writes the plan's target exactly at the plan's mask over uh (zeros when uh is None) and returns that mask |
| `TensorSpaces.LiftedFollowsPlan` | fealpy/functionspace/tensor_space.py:246-251 | for a callable gd with a None/callable threshold, the result is the masked write of the callable's values in the space's layout |
| `TensorSpaces.InterpolationIdempotent` | fealpy/functionspace/tensor_space.py:234-244 | interpolating again into the result gives the same result |
| `TensorSpaces.CallablePlanTarget` | fealpy/functionspace/tensor_space.py:253-265 | for a callable gd, whatever the threshold, a successful call writes gd's table in the space's layout |
| `TensorSpaces.CallableValueAt` | fealpy/functionspace/tensor_space.py:253-265 | for a callable gd, each masked flat position (k·sgdof + i with DoF priority, i·n + k without) holds gd's value for DoF i, component k |
| `TensorSpaces.WriteMasked` | fealpy/functionspace/tensor_space.py:243 | the loop writes target exactly at masked positions and keeps the others |
| `TensorSpaces.BoundaryInterpolate` | fealpy/functionspace/tensor_space.py:225-355 | fails exactly when the specification fails and with its error, leaving uh untouched; otherwise uh (or a fresh zero array when uh is None) holds the specified values, and the mask is returned |
| `Extreme.MinMarks` | test/test_extreme.py:41-45 | defines -minv[v]: the number of edges whose smaller end (rho strictly smaller) is v at edge[:,0], or whose end edge[:,1] is v when not strictly smaller |
| `Extreme.MaxMarks` | test/test_extreme.py:41-47 | defines maxv[v]: the number of edges that mark v at the other end |
| `Extreme.IsExtreme` | test/test_extreme.py:48-51 | defines the test abs(minv[v]) == V[v] or abs(maxv[v]) == V[v], with V the edge-end count |
| `Extreme.ExtremeMask` | test/test_extreme.py:35-52 | one flag per node, the extreme test at that node |
| `Extreme.MarksSplitDegree` | test/test_extreme.py:41-47 | every edge end is one mark: -minv[v] + maxv[v] is the number of edge ends at v |
| `Extreme.EdgeMarks` | test/test_extreme.py:41-47 | on rho[a] < rho[b], a gets the min mark and b the max mark; on a tie or the reverse, a gets max and b min |
| `Extreme.NoMaxMarks` | test/test_extreme.py:46-47 | maxv[v] = 0 exactly when no edge gives v a max mark |
| `Extreme.NoMinMarks` | test/test_extreme.py:44-45 | minv[v] = 0 exactly when no edge gives v a min mark |
| `Extreme.ExtremeIffOneSided` | test/test_extreme.py:48-51 | a node is extreme exactly when all its edges mark it on one side; a node on no edge is extreme |
| `Extreme.Estimator.constructor` | test/test_extreme.py:10-12 | the estimator holds the given density and mesh |
| `Extreme.Estimator.IsExtremeNode` | test/test_extreme.py:35-52 | the counting loop returns the extreme mask: for every node, whether abs(minv) or abs(maxv) equals its edge-end count |
| `Extreme.SmoothStep` | test/test_extreme.py:64-67 | one pass keeps the length and writes the averaged value at every non-extreme node, keeping rho at the extreme ones |
| `Extreme.Estimator.SmoothRho` | test/test_extreme.py:54-67 | rho ends as two smoothing passes of the old rho, and every extreme node keeps its old value |
| `Tsp.ArgSort` | app/TSP/TSP_citys.py:412 | the argsort has one index per key, each below the number of keys |
| `Tsp.ArgSortSorts` | app/TSP/TSP_citys.py:412 | argsort is a permutation of 0..n-1 with non-decreasing keys, ties in index order |
| `Tsp.Gbest2Route` | app/TSP/TSP_citys.py:411-415 | succeeds exactly when every index is a city; the route is the argsort followed by its first index; route_citys[k] = citys[route[k]] |
| `Tsp.RouteBounds` | app/TSP/TSP_citys.py:413-414 | every route index is below the number of cities exactly when the key vector is not longer than the city list |
| `Tsp.RouteIsSortedTour` | app/TSP/TSP_citys.py:411-413 | the route's first n indices are a permutation of 0..n-1 in non-decreasing key order, and its last index is its first |
| `Tsp.TourLength` | app/TSP/TSP_citys.py:449-452 | defines the fitness of one row: D[idx[-1], idx[0]] plus the legs D[idx[i], idx[i+1]] |
| `Tsp.TourIsClosedPath` | app/TSP/TSP_citys.py:449-452 | the fitness sum D[idx[n-1], idx[0]] + Σ D[idx[i], idx[i+1]] is the length of the path that returns to its start |
| `Tsp.TourRotation` | app/TSP/TSP_citys.py:449-452 | rotating the tour's start does not change its length |
| `Tsp.FitnessIsRouteLength` | app/TSP/TSP_citys.py:447-453 | the fitness of a key vector is the length of the closed route `gbest2route` decodes from it |
| `Tsp.ArgSortRows` | app/TSP/TSP_citys.py:448 | one argsort per row, each a row of width indices into D |
| `Tsp.TourLengths` | app/TSP/TSP_citys.py:449-453 | for rows of indices into D, each entry is the closing leg plus every leg i -> i+1 of its row, i.e. the closed-tour length |
| `Tsp.AddLeg` | app/TSP/TSP_citys.py:450-452 | one loop step adds leg i of every row to its partial tour |
| `Tsp.TravellingSalesmanProblem.constructor` | app/TSP/TSP_citys.py:443-445 | stores the cities and an n × n all-zero D |
| `Tsp.TravellingSalesmanProblem.Fitness` | app/TSP/TSP_citys.py:447-453 | one value per row, the closed-tour length of the row's argsort; an empty row or one longer than D raises IndexError |
| `Screen.Unique` | app/svads3d/screen.py:313 | the unique values are exactly the values of the input |
| `Screen.UniqueIncreasing` | app/svads3d/screen.py:313 | `np.unique` is strictly increasing |
| `Screen.Dedup` | app/svads3d/screen.py:299-300 | `np.unique` with return_index, then `dval[uniqueidx]`: as many values as unique indices |
| `Screen.DedupFirstOccurrence` | app/svads3d/screen.py:299-300 | de-duplicated didx is strictly increasing with the same values, and dval[k] is the value at the first occurrence of didx[k] |
| `Screen.DidxDval` | app/svads3d/screen.py:282-301 | defines `_get_didx_dval`: IndexError for a missing camera or a tag outside a map, ValueError with no boundary edge, otherwise the de-duplicated renumbered nodes and their values |
| `Screen.DidxDvalSpec` | app/svads3d/screen.py:282-301 | fails exactly on a missing camera, no boundary edge or an index outside tag2nid/nidxmap; otherwise didx is the sorted set of renumbered boundary nodes, each with the projected value of its first occurrence |
| `Screen.TagTable` | app/svads3d/screen.py:366-367 | a table of the given size; entry t is the position of the last occurrence of t among the tags, 0 where t does not occur |
| `Screen.Tag2Nid` | app/svads3d/screen.py:366-367 | succeeds exactly when every tag is below 2·NN, else IndexError |
| `Screen.Tag2NidRange` | app/svads3d/screen.py:366-367 | every entry of tag2nid is a node id below NN |
| `Screen.Tag2NidInverse` | app/svads3d/screen.py:365-367 | with distinct tags, tag2nid[nid2tag[i]] = i for every node i |
| `Screen.BuildTag2Nid` | app/svads3d/screen.py:366-367 | the array fill leaves the specified inverse map (or its IndexError) |
| `Screen.CompactPart` | app/svads3d/screen.py:310-318 | on the joined tag list: succeeds exactly when the tags come in triples and all are in tag2nid; ValueError for a broken triple, IndexError for a bad tag |
| `Screen.PartMesh` | app/svads3d/screen.py:309-318 | succeeds exactly when the part has a surface, the joined tags come in triples and all are in tag2nid; ValueError for no surfaces (the empty `concatenate`) or a broken triple, IndexError for a bad tag; on success it is the compaction of the joined tags |
| `Screen.NidxMap` | app/svads3d/screen.py:314-315 | a map of nn entries; entry v is the position of v in idx, 0 where v is not used |
| `Screen.NidxMapInverse` | app/svads3d/screen.py:314-315 | nidxmap[idx[k]] = k, and idx[nidxmap[v]] = v for every used node v |
| `Screen.CellIdsUsed` | app/svads3d/screen.py:311-313 | v is in idx exactly when some cell entry is v |
| `Screen.CompactPartRenumbers` | app/svads3d/screen.py:310-318 | idx is the sorted set of used nodes, nidxmap inverts it, every new cell entry is below len(idx), points back to its old node and keeps its coordinates |
| `Screen.PartMeshing` | app/svads3d/screen.py:303-318 | the imperative join and compaction of the surfaces gives the specified sub-mesh or error, ValueError for a part without surfaces |
| `Screen.BuildNidxMap` | app/svads3d/screen.py:314-315 | the array fill yields the map zero everywhere except nidxmap[idx[k]] = k |
| `Screen.Renumber` | app/svads3d/screen.py:316 | each cell entry is replaced by its nidxmap value |
| `Screen.RegionPart` | app/svads3d/screen.py:371-396 | defines one step of a `meshing` loop: two cameras give an overlap record, any other number a non-overlap record for the first camera, after the part mesh and (for ellipsoid parts) the Dirichlet data of each camera |
| `Screen.RegionPartShape` | app/svads3d/screen.py:371-396 | a part with two cameras becomes an overlap record with cam0/cam1, any other a non-overlap record for its first camera (none raises IndexError); a part with a camera but no surfaces raises ValueError; the mesh is the compacted sub-mesh; ellipsoid parts carry one Dirichlet set per camera, ground parts none |
| `Screen.RegionParts` | app/svads3d/screen.py:371-396 | one record or error per region |
| `Screen.Classify` | app/svads3d/screen.py:371-396 | succeeds exactly when every region does; the first list holds only overlap records, the second only non-overlap ones, together one per region |
| `Screen.ClassifyErrorStays` | app/svads3d/screen.py:371-396 | once a region fails, the walk keeps that first error |
| `Screen.ClassifyByKind` | app/svads3d/screen.py:371-396 | every region's record lands in the list of its kind |
| `Screen.WalkParts` | app/svads3d/screen.py:371-396 | the loop appends each record to its list and stops with the first error, as the classification specifies |
| `Screen.MeshingRecords` | app/svads3d/screen.py:361-396 | defines the records of the whole `meshing` call: the tag map, then the ground regions classified, then the ellipsoid regions, the first error deciding |
| `Screen.Screen.constructor` | app/svads3d/screen.py:111-114 | the four record lists start empty |
| `Screen.Screen.AppendParts` | app/svads3d/screen.py:371-382 | one loop appends the classified records to the ground (or ellipsoid) lists and leaves the other two lists as they were |
| `Screen.Screen.Meshing` | app/svads3d/screen.py:326-396 | fails exactly when the records fail; otherwise each of the four lists grows by its records, ground then ellipsoid |
| `Screen.MarkRow` | app/svads3d/screen.py:127-133 | the marks of camera i and its right neighbour: they exist exactly when both cameras exist and the neighbour's list is as long as camera i's (or has one point and camera i none); ValueError exactly when the in-place `+=` cannot broadcast, IndexError otherwise; mark j pairs point j of both lists |
| `Screen.MarkBoard` | app/svads3d/screen.py:124-133 | the marks of the first n pairs in order; the board is built exactly when every one of those pairs succeeds |
| `Screen.MarkBoardPairs` | app/svads3d/screen.py:126-133 | every mark point pairs camera i with its ring neighbour (i+1) mod 6, and its points come from the same row j of camera i's right features and the neighbour's left features |
| `Screen.MarkBoardCount` | app/svads3d/screen.py:132-133 | there is one mark point per right feature point of each camera |
| `Screen.MarkBoardStops` | app/svads3d/screen.py:126-133 | a camera pair that fails decides the result of the whole board |
| `Screen.MarkBoardFirstError` | app/svads3d/screen.py:124-133 | the board fails with the error of the first pair that fails |
| `Screen.MarkBoardNeedsSixCameras` | app/svads3d/screen.py:126-129 | with fewer than six cameras the board fails, with IndexError when every pair of existing cameras succeeds |
| `Screen.GroundMarkBoard` | app/svads3d/screen.py:120-134 | the loop builds the board of the six ring pairs or fails with the error of the first failing pair; with fewer than six cameras it always fails |

## Left out

- Floating-point numerics are not modelled, because they are einsum arithmetic over basis values and quadrature the model does not have. This covers:
  - the RT basis functions (`basis`, `div_basis`, `edge_basis`);
  - the values of the local mass, divergence and source integrals;
  - `div_matrix` and `L2_error`;
  - `compute_eta`, `is_uniform` and the averaged density of `smooth_rho`;
  - `calD`;
  - the projection and midpoints in `ground_mark_board`.

  The local values enter as parameters of type `real`, and the averaging and projections enter as function parameters.
- The abstract methods of the base `FunctionSpace` (`basis`, `value`, the counters, `cell_to_dof`, `interpolate`) have no bodies, so they stay abstract. The scalar space is a record of its global DoF count, its local counts and its boundary mask.
- The following parts of `TensorFunctionSpace` are not modelled, because their bodies are not in the model or they are numerics:
  - `basis`, `grad_basis`, `value`, `grad_value`;
  - `cell_to_dof`/`face_to_dof`/`edge_to_dof` (taken as given tables);
  - `interpolation_points`;
  - the scalar `interpolate`.
- The 'centroid' branches of `is_boundary_dof` and `boundary_interpolate` become a `NotModelled` error. They depend on opaque callables, and their tuple-length tests disagree between the 2-D and 3-D cases.
- `boundary_interpolate` with a non-boolean tensor threshold ends in `NotModelled`. The source indexes `uh` with integer indices there, which this model does not cover. The 'interp' branch of `boundary_interpolate` ends in `NotModelled` too, because its values come from per-component point evaluations.
- In the tensor-`gd` branch, `gd` is its list of values. A `Function` argument is treated the same way.
- `TensorSpaces.IsBoundaryDof`, `TensorSpaces.Interpolation`, `TensorSpaces.InterpolationPlan` and `TensorSpaces.BoundaryInterpolate` follow the corrected lift `TensorSpaces.Lift` of the Findings table, not the reshape as written. For a DoF shape of two or more axes, or one axis over a scalar space without DoFs, the source raises ValueError in the None/callable branch where these members give a mask and a write. `TensorSpaces.LiftAsWritten` models the reshape as written.
- `TensorSpaces.IsBoundaryDofLength`, `TensorSpaces.LiftedMaskAt`, `TensorSpaces.InterpolationFollowsPlan`, `TensorSpaces.LiftedFollowsPlan`, `TensorSpaces.CallablePlanTarget`, `TensorSpaces.CallableValueAt`, `TensorSpaces.InterpolationIdempotent` and `TensorSpaces.InterpOfEqualThresholds` are stated about those corrected members, so in the cases above they describe the intended program, not the one written. In particular `TensorSpaces.InterpOfEqualThresholds` equates 'interp' with the corrected None/callable lift, and for two or more axes, or one axis over a scalar space without DoFs, the source's None/callable branch raises ValueError instead.
- `RTDof.CellTable`: the table as a value is empty for a mesh without cells. `cell_to_dof` raises ValueError there, which `RTDof.CellToDof` and `RTAssembly.SourceVector` model.
- `RTAssembly.MassMatrix`: for a mesh without cells it gives the empty gdof × gdof matrix, where `mass_matrix` raises ValueError inside `cell_to_dof`. `RTAssembly.MassMatrixEntry` and `RTAssembly.MassMatrixSymmetric` inherit this.
- `RTAssembly.FlatTable`: like `RTDof.CellTable`, it is empty for a mesh without cells.
- `is_extreme_node` allocates its counters with `np.int`, which recent NumPy releases no longer define. The model takes the plain integer type that was meant.
- `Extreme.Estimator.IsExtremeNode`: V (the row sum of `node_to_node`) is modelled as a flat per-node vector, the number of edge ends at the node. When `node_to_node` is a scipy sparse matrix, `np.sum` along axis 1 gives an NN × 1 matrix, and comparing that with the NN-vectors `minv`, `maxv` broadcasts to NN × NN; the model takes the flat vector that was meant. The edge-end count and the row sum agree on meshes without repeated edges, which is what a triangulation's edge list is.
- `TensorSpaces.SelectRows` and `TensorSpaces.EntityToDof`: the index is a full slice or a list of integers. A single integer, a boolean mask and a stepped or bounded slice, which NumPy indexing also accepts, are not modelled.
- The counter signs `minv[v] ≤ 0` and `maxv[v] ≥ 0` hold by construction: the counters are the negated and plain counts (`nat`) of the loop invariant.
- `Tsp.ArgSortSorts`: NumPy's default argsort is not stable. The model fixes the stable order, which is one of the orders NumPy may return, so the tie clause is a property of the model only.
- The optimiser runners, random initialisation, `printroute` and the city tables of the TSP application are out of scope (randomness and plotting).
- Everything gmsh does in `meshing` is replaced by inputs: geometry construction, `partition`, mesh generation, node and element queries, boundary queries. The source reshapes `get_nodes` into an NN × 3 array; the model takes the node list directly.
- `Screen.Screen.Meshing`: on an error the source has already appended the records of the regions before it. The model's contract states the lists only on success.
- Also out of scope in screen.py: `optimize` (external optimiser, printing, the mutable counter), `sphere_to_self` (fsolve), the uv and harmonic-map steps, the camera projections and `display`.
- The `TriangleMesh` object that `_partmeshing` builds is its node list and its cell list.

## Findings

| source | as written | input that shows it | evidently intended | confidence | as-written member | corrected member |
|---|---|---|---|---|---|---|
| fealpy/functionspace/tensor_space.py:153-156 | the scalar mask is reshaped to `(-1,) * dof_ndim + (scalar_gdof,)` (or `(scalar_gdof,) + (-1,) * dof_ndim`), so NumPy refuses it whenever the DoF shape has two or more axes, and also for one axis when scalar_gdof is 0 | shape (2, 2, -1): reshape gets two unknown extents and raises ValueError; a one-axis DoF shape over a scalar space without DoFs: the empty mask reshaped to (-1, 0) or (0, -1) fixes no extent and raises ValueError | reshape to `(1,) * dof_ndim`, so the broadcast repeats each scalar flag for every component, as the one-axis case does | not executed | `TensorSpaces.LiftAsWrittenRefusesMatrixShape`, `TensorSpaces.LiftAsWrittenAgreesOnVectors` | `TensorSpaces.Lift` |
