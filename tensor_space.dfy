/** The tensor-valued wrapper `TensorFunctionSpace` of
    fealpy/functionspace/tensor_space.py.  A tensor space takes a scalar space
    and a shape holding one -1; each scalar DoF carries `dof_numel` components.
    The position of the -1 fixes the layout of the flattened DoF vector:

    - -1 last (`dof_priority` true): component-major, entry k*sgdof + i is
      component k at scalar DoF i;
    - -1 first (`dof_priority` false): DoF-major, entry i*numel + k is
      component k at scalar DoF i. */
module TensorSpaces {
  import opened Wrappers
  import opened SeqUtil
  import opened FunctionSpace

  /** The state `__init__` leaves: the scalar space, the given shape, and the
      shape and priority parsed from it. */
  datatype TensorFunctionSpace = TensorFunctionSpace(
    scalar: ScalarSpace,
    shape: seq<int>,
    dofShape: seq<int>,
    dofPriority: bool)

  // ----- construction -----

  /** `__init__`: a shape of fewer than two entries is refused; a leading -1
      gives a DoF-major space, otherwise a trailing -1 gives a component-major
      one; without either the shape is refused. */
  function NewTensorSpace(scalar: ScalarSpace, shape: seq<int>): (r: Result<TensorFunctionSpace>)
    ensures r.Ok? <==> |shape| >= 2 && (shape[0] == -1 || shape[|shape| - 1] == -1)
    ensures r.Err? ==> r.error == ValueError
    ensures r.Ok? ==> r.value.scalar == scalar && r.value.shape == shape
    ensures r.Ok? && shape[0] == -1 ==> r.value.dofShape == shape[1..] && !r.value.dofPriority
    ensures r.Ok? && shape[0] != -1 ==> r.value.dofShape == shape[..|shape| - 1] && r.value.dofPriority
  {
    if |shape| < 2 then Err(ValueError)
    else if shape[0] == -1 then Ok(TensorFunctionSpace(scalar, shape, shape[1..], false))
    else if shape[|shape| - 1] == -1 then Ok(TensorFunctionSpace(scalar, shape, shape[..|shape| - 1], true))
    else Err(ValueError)
  }

  /** The shape that asks for DoF shape `dofShape` with the given priority. */
  function ShapeOf(dofShape: seq<int>, priority: bool): seq<int>
  {
    if priority then dofShape + [-1] else [-1] + dofShape
  }

  /** Every accepted shape is the DoF shape with the -1 put back where the priority says. */
  lemma ShapeReassembles(scalar: ScalarSpace, shape: seq<int>)
    requires NewTensorSpace(scalar, shape).Ok?
    ensures var ts := NewTensorSpace(scalar, shape).value; shape == ShapeOf(ts.dofShape, ts.dofPriority)
  {
    var ts := NewTensorSpace(scalar, shape).value;
    if ts.dofPriority {
      assert shape == shape[..|shape| - 1] + [shape[|shape| - 1]];
    } else {
      assert shape == [shape[0]] + shape[1..];
    }
  }

  /** Parsing the shape built from a DoF shape gives that DoF shape and priority
      back, except when a component-major shape also starts with -1: the leading
      -1 wins. */
  lemma ShapeRoundTrip(scalar: ScalarSpace, dofShape: seq<int>, priority: bool)
    requires |dofShape| >= 1
    ensures NewTensorSpace(scalar, ShapeOf(dofShape, priority)).Ok?
    ensures var ts := NewTensorSpace(scalar, ShapeOf(dofShape, priority)).value;
      (ts.dofShape == dofShape && ts.dofPriority == priority) <==> !(priority && dofShape[0] == -1)
  {
    var shape := ShapeOf(dofShape, priority);
    if priority {
      assert shape[..|shape| - 1] == dofShape;
    } else {
      assert shape[1..] == dofShape;
    }
  }

  // ----- counts -----

  /** `dof_numel`: the product of the DoF shape (a Python int, so possibly negative). */
  function DofNumel(ts: TensorFunctionSpace): int
  {
    Prod(ts.dofShape)
  }

  /** `number_of_global_dofs`: dof_numel times the scalar space's global count. */
  function NumberOfGlobalDofs(ts: TensorFunctionSpace): int
  {
    DofNumel(ts) * ts.scalar.gdof
  }

  /** `number_of_local_dofs(doftype)`: dof_numel times the scalar count; where the
      scalar space returns nothing, `int * None` raises TypeError. */
  function NumberOfLocalDofs(ts: TensorFunctionSpace, doftype: DofType): (r: Result<int>)
    ensures r.Err? <==> ts.scalar.localDofs(doftype).None?
    ensures r.Err? ==> r.error == TypeError
    ensures r.Ok? ==> r.value == DofNumel(ts) * ts.scalar.localDofs(doftype).value
  {
    match ts.scalar.localDofs(doftype)
    case None => Err(TypeError)
    case Some(n) => Ok(DofNumel(ts) * n)
  }

  /** The default `doftype` of `number_of_local_dofs`. */
  const DefaultDofType: DofType := Named("cell")

  // ----- entity dispatch -----

  /** An `index` argument: the whole table (`slice(None)`) or an integer index array. */
  datatype Index = All | Indices(idx: seq<int>)

  /** Python's reading of a possibly negative index into a table of length n. */
  function Wrap(i: int, n: nat): int
  {
    if i < 0 then n + i else i
  }

  /** `table[index]`: an index array picks rows (negative indices count from
      the end); an index outside [-n, n) raises IndexError. */
  function SelectRows<T>(table: seq<T>, index: Index): (r: Result<seq<T>>)
    ensures index.All? ==> r == Ok(table)
    ensures r.Err? ==> r.error == IndexError
    ensures index.Indices? ==> (r.Ok? <==> forall t :: 0 <= t < |index.idx| ==> -|table| <= index.idx[t] < |table|)
    ensures index.Indices? && r.Ok? ==> (|r.value| == |index.idx| &&
      forall t :: 0 <= t < |index.idx| ==> r.value[t] == table[Wrap(index.idx[t], |table|)])
  {
    match index
    case All => Ok(table)
    case Indices(idx) =>
      if forall t :: 0 <= t < |idx| ==> -|table| <= idx[t] < |table|
      then Ok(seq(|idx|, t requires 0 <= t < |idx| => table[Wrap(idx[t], |table|)]))
      else Err(IndexError)
  }

  /** `entity_to_dof(etype, index)`: the cell table when etype is the top dimension
      TD, else the face table when it is TD-1, else the edge table when it is 1;
      any other etype raises ValueError.  The three tables are those the scalar
      space's relations give after `to_tensor_dof`. */
  function EntityToDof(td: int, etype: int, cellToDof: seq<seq<int>>, faceToDof: seq<seq<int>>,
    edgeToDof: seq<seq<int>>, index: Index): (r: Result<seq<seq<int>>>)
    ensures r == Err(ValueError) <==> etype != td && etype != td - 1 && etype != 1
    ensures etype == td ==> r == SelectRows(cellToDof, index)
    ensures etype != td && etype == td - 1 ==> r == SelectRows(faceToDof, index)
    ensures etype != td && etype != td - 1 && etype == 1 ==> r == SelectRows(edgeToDof, index)
  {
    if etype == td then SelectRows(cellToDof, index)
    else if etype == td - 1 then SelectRows(faceToDof, index)
    else if etype == 1 then SelectRows(edgeToDof, index)
    else Err(ValueError)
  }

  // ----- layouts -----

  /** A table with one row per scalar DoF and one column per component. */
  predicate IsTable<T>(table: seq<seq<T>>, n: nat)
  {
    forall i :: 0 <= i < |table| ==> |table[i]| == n
  }

  /** Column k of a table. */
  function Column<T>(table: seq<seq<T>>, n: nat, k: nat): (col: seq<T>)
    requires IsTable(table, n) && k < n
    ensures |col| == |table|
  {
    seq(|table|, i requires 0 <= i < |table| => table[i][k])
  }

  /** Columns become rows: Transpose(table, n)[k][i] == table[i][k]. */
  function Transpose<T>(table: seq<seq<T>>, n: nat): (tr: seq<seq<T>>)
    requires IsTable(table, n)
    ensures |tr| == n && IsTable(tr, |table|)
    ensures forall k :: 0 <= k < n ==> tr[k] == Column(table, n, k)
  {
    seq(n, k requires 0 <= k < n => Column(table, n, k))
  }

  /** The flat DoF vector of a (scalar DoF, component) table: component-major
      (`table.T.reshape(-1)`) with priority, DoF-major (`table.reshape(-1)`) without. */
  function Layout<T>(table: seq<seq<T>>, n: nat, priority: bool): seq<T>
    requires IsTable(table, n)
  {
    if priority then Flatten(Transpose(table, n)) else Flatten(table)
  }

  /** The flat position of component k of scalar DoF i among sgdof scalar DoFs
      with n components: k*sgdof + i component-major, i*n + k DoF-major. */
  function LayoutIndex(priority: bool, sgdof: nat, n: nat, i: nat, k: nat): nat
  {
    if priority then k * sgdof + i else i * n + k
  }

  /** Where component k of scalar DoF i sits in each layout. */
  lemma LayoutAt<T>(table: seq<seq<T>>, n: nat, priority: bool, i: nat, k: nat)
    requires IsTable(table, n) && i < |table| && k < n
    ensures |Layout(table, n, priority)| == |table| * n
    ensures priority ==> k * |table| + i < |table| * n && Layout(table, n, priority)[k * |table| + i] == table[i][k]
    ensures !priority ==> i * n + k < |table| * n && Layout(table, n, priority)[i * n + k] == table[i][k]
  {
    if priority {
      FlattenUniformAt(Transpose(table, n), |table|, k, i);
      assert n * |table| == |table| * n;
    } else {
      FlattenUniformAt(table, n, i, k);
    }
  }

  /** The two layouts hold the same entries, transposed: DoF-major position
      i*n + k is component-major position k*sgdof + i. */
  lemma LayoutsTransposed<T>(table: seq<seq<T>>, n: nat, i: nat, k: nat)
    requires IsTable(table, n) && i < |table| && k < n
    ensures |Layout(table, n, false)| == |table| * n == |Layout(table, n, true)|
    ensures i * n + k < |table| * n && k * |table| + i < |table| * n
    ensures Layout(table, n, false)[i * n + k] == Layout(table, n, true)[k * |table| + i]
  {
    LayoutAt(table, n, false, i, k);
    LayoutAt(table, n, true, i, k);
  }

  /** The scalar mask broadcast to every component: row i repeats mask[i] n times. */
  function Broadcast(mask: seq<bool>, n: nat): (table: seq<seq<bool>>)
    ensures |table| == |mask| && IsTable(table, n)
  {
    seq(|mask|, i requires 0 <= i < |mask| => seq(n, _ => mask[i]))
  }

  /** Per-component masks as a (scalar DoF, component) table. */
  function Components(masks: seq<seq<bool>>, sgdof: nat): (table: seq<seq<bool>>)
    requires IsTable(masks, sgdof)
    ensures |table| == sgdof && IsTable(table, |masks|)
  {
    Transpose(masks, sgdof)
  }

  // ----- is_boundary_dof -----

  /** The `threshold` argument: None, a callable, a tensor (boolean or not), a
      tuple of per-component thresholds, or anything else. */
  datatype Threshold =
    | NoThreshold
    | Callable(pred: Predicate)
    | BoolTensor(flags: seq<bool>)
    | IntTensor(entries: seq<int>)
    | Tuple(items: seq<Option<Predicate>>)
    | OtherThreshold

  predicate NonNegativeShape(ts: TensorFunctionSpace)
  {
    forall t :: 0 <= t < |ts.dofShape| ==> ts.dofShape[t] >= 0
  }

  /** The None/callable branch as written: the scalar mask is reshaped to
      (-1,)*ndim + (sgdof,) (or (sgdof,) + (-1,)*ndim), which NumPy refuses
      as soon as there are two unknown extents, or when the one unknown extent
      sits beside a known extent sgdof = 0 (a size-0 array fixes no extent), and
      then broadcast to the DoF shape, which it refuses for a negative extent. */
  function LiftAsWritten(ts: TensorFunctionSpace, mask: seq<bool>): (r: Result<seq<bool>>)
  {
    if |ts.dofShape| >= 2 || !NonNegativeShape(ts) || (|ts.dofShape| == 1 && ts.scalar.gdof == 0) then Err(ValueError)
    else
      ProdNonneg(ts.dofShape);
      Ok(Layout(Broadcast(mask, DofNumel(ts) as nat), DofNumel(ts) as nat, ts.dofPriority))
  }

  /** The None/callable branch with the reshape to (1,)*ndim + (sgdof,) (or
      (sgdof,) + (1,)*ndim) that the broadcast needs: each scalar flag is
      repeated for every component in the space's layout. */
  function Lift(ts: TensorFunctionSpace, mask: seq<bool>): (r: Result<seq<bool>>)
    ensures r.Ok? <==> NonNegativeShape(ts)
    ensures r.Err? ==> r.error == ValueError
  {
    if !NonNegativeShape(ts) then Err(ValueError)
    else
      ProdNonneg(ts.dofShape);
      Ok(Layout(Broadcast(mask, DofNumel(ts) as nat), DofNumel(ts) as nat, ts.dofPriority))
  }

  /** The as-written reshape refuses every DoF shape of two or more axes, such as
      the 2 x 2 shape of a matrix-valued space that the corrected lift handles. */
  lemma LiftAsWrittenRefusesMatrixShape(scalar: ScalarSpace, mask: seq<bool>)
    ensures NewTensorSpace(scalar, [2, 2, -1]).Ok?
    ensures var ts := NewTensorSpace(scalar, [2, 2, -1]).value;
      LiftAsWritten(ts, mask) == Err(ValueError) && Lift(ts, mask).Ok?
  {
    var ts := NewTensorSpace(scalar, [2, 2, -1]).value;
    assert ts.dofShape == [2, 2];
  }

  /** For a vector-valued space (one axis) the two agree as long as the scalar
      space has DoFs; on a scalar space without DoFs the as-written reshape
      fails where the corrected lift gives the empty mask. */
  lemma LiftAsWrittenAgreesOnVectors(ts: TensorFunctionSpace, mask: seq<bool>)
    requires |ts.dofShape| == 1
    ensures ts.scalar.gdof > 0 ==> LiftAsWritten(ts, mask) == Lift(ts, mask)
    ensures ts.scalar.gdof == 0 ==> LiftAsWritten(ts, mask) == Err(ValueError)
    ensures ts.scalar.gdof == 0 && NonNegativeShape(ts) && |mask| == 0 ==> Lift(ts, mask) == Ok([])
  {
    if ts.scalar.gdof == 0 && NonNegativeShape(ts) && |mask| == 0 {
      ProdNonneg(ts.dofShape);
      FlatLength(Broadcast(mask, DofNumel(ts) as nat), DofNumel(ts) as nat, ts.dofPriority);
    }
  }

  /** `is_boundary_dof(threshold, method)`. */
  function IsBoundaryDof(ts: TensorFunctionSpace, threshold: Threshold, meth: Method): (r: Result<seq<bool>>)
    requires ValidScalarSpace(ts.scalar)
  {
    match threshold
    case BoolTensor(flags) => if |flags| == NumberOfGlobalDofs(ts) then Ok(flags) else Err(ValueError)
    case IntTensor(_) => Err(ValueError)
    case NoThreshold => Lift(ts, ts.scalar.boundaryMask(None, meth))
    case Callable(f) => Lift(ts, ts.scalar.boundaryMask(Some(f), meth))
    case Tuple(items) =>
      if meth == Centroid then Err(NotModelled)
      else if meth == Interp then
        if DofNumel(ts) != |items| then Err(AssertionError)
        else if InterpNothingToJoin(ts, items) then Err(ValueError)
        else Ok(InterpMask(ts, items))
      else Err(ValueError)
    case OtherThreshold => Err(ValueError)
  }

  /** `concatenate` refuses an empty list of arrays: component-major joins one
      array per threshold, DoF-major one array per scalar DoF. */
  predicate InterpNothingToJoin(ts: TensorFunctionSpace, items: seq<Option<Predicate>>)
  {
    if ts.dofPriority then |items| == 0 else ts.scalar.gdof == 0
  }

  /** The masks of the 'interp' thresholds, one per component. */
  function ComponentMasks(ts: TensorFunctionSpace, items: seq<Option<Predicate>>): (masks: seq<seq<bool>>)
    requires ValidScalarSpace(ts.scalar)
    ensures |masks| == |items| && IsTable(masks, ts.scalar.gdof)
    ensures forall k :: 0 <= k < |items| ==> masks[k] == ts.scalar.boundaryMask(items[k], Interp)
  {
    seq(|items|, k requires 0 <= k < |items| => ts.scalar.boundaryMask(items[k], Interp))
  }

  /** The 'interp' branch as written: component-major concatenates the component
      masks; DoF-major concatenates, for each scalar DoF i, the array of the
      components' flags at i (row i of the transposed masks). */
  function InterpMask(ts: TensorFunctionSpace, items: seq<Option<Predicate>>): seq<bool>
    requires ValidScalarSpace(ts.scalar)
  {
    var masks := ComponentMasks(ts, items);
    if ts.dofPriority then Flatten(masks) else Flatten(Transpose(masks, ts.scalar.gdof))
  }

  /** The 'interp' mask is the layout of the component masks. */
  lemma InterpMaskIsLayout(ts: TensorFunctionSpace, items: seq<Option<Predicate>>)
    requires ValidScalarSpace(ts.scalar)
    ensures InterpMask(ts, items) == Layout(Components(ComponentMasks(ts, items), ts.scalar.gdof), |items|, ts.dofPriority)
  {
    var sg, n := ts.scalar.gdof, |items|;
    var masks := ComponentMasks(ts, items);
    var comps := Components(masks, sg);
    if ts.dofPriority {
      forall k | 0 <= k < n ensures Transpose(comps, n)[k] == masks[k] {}
      assert Transpose(comps, n) == masks;
    }
  }

  /** A tensor threshold is handed back when it is a boolean mask of length gdof, and refused otherwise. */
  lemma TensorThresholdPassThrough(ts: TensorFunctionSpace, threshold: Threshold, meth: Method)
    requires ValidScalarSpace(ts.scalar)
    requires threshold.BoolTensor? || threshold.IntTensor?
    ensures IsBoundaryDof(ts, threshold, meth).Ok? <==> threshold.BoolTensor? && |threshold.flags| == NumberOfGlobalDofs(ts)
    ensures IsBoundaryDof(ts, threshold, meth).Ok? ==> IsBoundaryDof(ts, threshold, meth).value == threshold.flags
    ensures IsBoundaryDof(ts, threshold, meth).Err? ==> IsBoundaryDof(ts, threshold, meth).error == ValueError
  {
  }

  /** Every mask the query returns has one flag per tensor DoF. */
  lemma IsBoundaryDofLength(ts: TensorFunctionSpace, threshold: Threshold, meth: Method)
    requires ValidScalarSpace(ts.scalar)
    requires IsBoundaryDof(ts, threshold, meth).Ok?
    ensures |IsBoundaryDof(ts, threshold, meth).value| == NumberOfGlobalDofs(ts)
  {
    match threshold
    case NoThreshold => LiftLength(ts, ts.scalar.boundaryMask(None, meth));
    case Callable(f) => LiftLength(ts, ts.scalar.boundaryMask(Some(f), meth));
    case Tuple(items) => InterpMaskLength(ts, items);
    case BoolTensor(_) =>
  }

  /** A lifted scalar mask has one flag per tensor DoF. */
  lemma LiftLength(ts: TensorFunctionSpace, mask: seq<bool>)
    requires NonNegativeShape(ts) && |mask| == ts.scalar.gdof
    ensures Lift(ts, mask).Ok? && |Lift(ts, mask).value| == NumberOfGlobalDofs(ts)
  {
    ProdNonneg(ts.dofShape);
    var n := DofNumel(ts) as nat;
    FlatLength(Broadcast(mask, n), n, ts.dofPriority);
    assert |mask| * n == n * |mask|;
  }

  /** The 'interp' mask has one flag per scalar DoF and component. */
  lemma InterpMaskLength(ts: TensorFunctionSpace, items: seq<Option<Predicate>>)
    requires ValidScalarSpace(ts.scalar)
    ensures |InterpMask(ts, items)| == ts.scalar.gdof * |items|
  {
    InterpMaskIsLayout(ts, items);
    FlatLength(Components(ComponentMasks(ts, items), ts.scalar.gdof), |items|, ts.dofPriority);
  }

  lemma FlatLength<T>(table: seq<seq<T>>, n: nat, priority: bool)
    requires IsTable(table, n)
    ensures |Layout(table, n, priority)| == |table| * n
  {
    if priority {
      FlattenUniformLength(Transpose(table, n), |table|);
    } else {
      FlattenUniformLength(table, n);
    }
  }

  /** With a None or callable threshold, every component of scalar DoF i carries
      the scalar flag of i: at k*sgdof + i with priority, at i*numel + k without. */
  lemma LiftedMaskAt(ts: TensorFunctionSpace, pred: Option<Predicate>, meth: Method, i: nat, k: nat)
    requires ValidScalarSpace(ts.scalar) && NonNegativeShape(ts)
    requires i < ts.scalar.gdof && k < DofNumel(ts)
    ensures var r := IsBoundaryDof(ts, if pred.None? then NoThreshold else Callable(pred.value), meth);
      var sg, n, smask := ts.scalar.gdof, DofNumel(ts), ts.scalar.boundaryMask(pred, meth);
      r.Ok? && |r.value| == sg * n &&
      (ts.dofPriority ==> k * sg + i < |r.value| && r.value[k * sg + i] == smask[i]) &&
      (!ts.dofPriority ==> i * n + k < |r.value| && r.value[i * n + k] == smask[i])
  {
    var smask := ts.scalar.boundaryMask(pred, meth);
    LayoutAt(Broadcast(smask, DofNumel(ts) as nat), DofNumel(ts) as nat, ts.dofPriority, i, k);
  }

  /** In 'interp' mode component k of scalar DoF i carries the flag of the k-th threshold's mask at i. */
  lemma InterpMaskAt(ts: TensorFunctionSpace, items: seq<Option<Predicate>>, i: nat, k: nat)
    requires ValidScalarSpace(ts.scalar) && DofNumel(ts) == |items|
    requires i < ts.scalar.gdof && k < |items|
    ensures var r := IsBoundaryDof(ts, Tuple(items), Interp);
      var sg, n, mk := ts.scalar.gdof, |items|, ts.scalar.boundaryMask(items[k], Interp);
      r.Ok? && |r.value| == sg * n &&
      (ts.dofPriority ==> k * sg + i < |r.value| && r.value[k * sg + i] == mk[i]) &&
      (!ts.dofPriority ==> i * n + k < |r.value| && r.value[i * n + k] == mk[i])
  {
    InterpMaskIsLayout(ts, items);
    LayoutAt(Components(ComponentMasks(ts, items), ts.scalar.gdof), |items|, ts.dofPriority, i, k);
  }

  /** 'interp' with the same threshold for every component gives the lifted mask
      of that threshold, unless `concatenate` has nothing to join. */
  lemma InterpOfEqualThresholds(ts: TensorFunctionSpace, pred: Option<Predicate>, items: seq<Option<Predicate>>)
    requires ValidScalarSpace(ts.scalar) && NonNegativeShape(ts)
    requires DofNumel(ts) == |items| && forall k :: 0 <= k < |items| ==> items[k] == pred
    requires ts.scalar.boundaryMask(pred, Interp) == ts.scalar.boundaryMask(pred, NoMethod)
    ensures InterpNothingToJoin(ts, items) ==> IsBoundaryDof(ts, Tuple(items), Interp) == Err(ValueError)
    ensures !InterpNothingToJoin(ts, items) ==>
      IsBoundaryDof(ts, Tuple(items), Interp) ==
      IsBoundaryDof(ts, if pred.None? then NoThreshold else Callable(pred.value), NoMethod)
  {
    var sg, n := ts.scalar.gdof, |items|;
    var comps := Components(ComponentMasks(ts, items), sg);
    var lifted := Broadcast(ts.scalar.boundaryMask(pred, NoMethod), n);
    InterpMaskIsLayout(ts, items);
    forall i | 0 <= i < sg ensures comps[i] == lifted[i] {}
    assert comps == lifted;
  }

  // ----- boundary_interpolate -----

  /** The `gd` argument: a tensor (or Function) of tensor DoF values; a callable,
      given by its values at the scalar space's interpolation points (row i:
      the last axis of gd at point i, `width` entries); or a plain number, which
      the code refuses. */
  datatype Gd = GdTensor(values: seq<real>) | GdCallable(width: nat, table: seq<seq<real>>) | GdNumber(x: real)

  /** A callable's values form an array: every row has the same width. */
  predicate ValidGd(gd: Gd)
  {
    gd.GdCallable? ==> IsTable(gd.table, gd.width)
  }

  /** The number of set flags. */
  function Count(mask: seq<bool>): nat
  {
    if |mask| == 0 then 0 else Count(mask[..|mask| - 1]) + (if mask[|mask| - 1] then 1 else 0)
  }

  /** `full[mask]`: the entries at set flags, in order. */
  function Compact<T>(full: seq<T>, mask: seq<bool>): (c: seq<T>)
    requires |full| == |mask|
    ensures |c| == Count(mask)
  {
    if |mask| == 0 then []
    else
      var n := |mask| - 1;
      Compact(full[..n], mask[..n]) + (if mask[n] then [full[n]] else [])
  }

  /** `set_at(base, mask, vals)`: the k-th set flag receives vals[k]; the other entries keep their value. */
  function SetAt<T>(base: seq<T>, mask: seq<bool>, vals: seq<T>): (r: seq<T>)
    requires |base| == |mask| && |vals| == Count(mask)
    ensures |r| == |base|
  {
    if |mask| == 0 then []
    else
      var n := |mask| - 1;
      if mask[n] then SetAt(base[..n], mask[..n], vals[..|vals| - 1]) + [vals[|vals| - 1]]
      else SetAt(base[..n], mask[..n], vals) + [base[n]]
  }

  /** The positional write `base[mask] = full[mask]`. */
  function MaskedWrite<T>(base: seq<T>, mask: seq<bool>, full: seq<T>): (r: seq<T>)
    requires |base| == |mask| == |full|
    ensures |r| == |base|
  {
    seq(|base|, q requires 0 <= q < |base| => if mask[q] then full[q] else base[q])
  }

  /** Compacting and then scattering with the same mask is the positional write. */
  lemma {:induction false} SetAtCompact<T>(base: seq<T>, mask: seq<bool>, full: seq<T>)
    requires |base| == |mask| == |full|
    ensures SetAt(base, mask, Compact(full, mask)) == MaskedWrite(base, mask, full)
  {
    if |mask| > 0 {
      var n := |mask| - 1;
      var c := Compact(full, mask);
      var c0 := Compact(full[..n], mask[..n]);
      SetAtCompact(base[..n], mask[..n], full[..n]);
      if mask[n] {
        assert c == c0 + [full[n]];
        assert c[..|c| - 1] == c0 && c[|c| - 1] == full[n];
        assert SetAt(base, mask, c) == SetAt(base[..n], mask[..n], c0) + [full[n]];
      } else {
        assert c == c0 + [];
        assert c == c0;
        assert SetAt(base, mask, c) == SetAt(base[..n], mask[..n], c0) + [base[n]];
      }
      assert MaskedWrite(base, mask, full) == MaskedWrite(base[..n], mask[..n], full[..n]) + [MaskedWrite(base, mask, full)[n]];
    }
  }

  /** Writing the same values at the same mask a second time changes nothing. */
  lemma MaskedWriteIdempotent<T>(base: seq<T>, mask: seq<bool>, full: seq<T>)
    requires |base| == |mask| == |full|
    ensures MaskedWrite(MaskedWrite(base, mask, full), mask, full) == MaskedWrite(base, mask, full)
  {
  }

  lemma {:induction false} CompactAppend<T>(a: seq<T>, ma: seq<bool>, b: seq<T>, mb: seq<bool>)
    requires |a| == |ma| && |b| == |mb|
    ensures Compact(a + b, ma + mb) == Compact(a, ma) + Compact(b, mb)
    decreases |b|
  {
    if |b| == 0 {
      assert a + b == a && ma + mb == ma;
    } else {
      var n := |b| - 1;
      var ab, mab := a + b, ma + mb;
      assert ab[..|a| + n] == a + b[..n] && mab[..|ma| + n] == ma + mb[..n];
      assert ab[|a| + n] == b[n] && mab[|ma| + n] == mb[n];
      var tail := if mb[n] then [b[n]] else [];
      assert Compact(ab, mab) == Compact(a + b[..n], ma + mb[..n]) + tail;
      assert Compact(b, mb) == Compact(b[..n], mb[..n]) + tail;
      CompactAppend(a, ma, b[..n], mb[..n]);
      assert Compact(ab, mab) == Compact(a, ma) + (Compact(b[..n], mb[..n]) + tail);
    }
  }

  /** Compacting a concatenation of rows with a concatenation of row masks compacts row by row. */
  lemma {:induction false} CompactRows<T>(rows: seq<seq<T>>, mrows: seq<seq<bool>>, target: seq<seq<T>>)
    requires |rows| == |mrows| == |target|
    requires forall r :: 0 <= r < |rows| ==> |rows[r]| == |mrows[r]| && Compact(rows[r], mrows[r]) == target[r]
    ensures |Flatten(rows)| == |Flatten(mrows)|
    ensures Compact(Flatten(rows), Flatten(mrows)) == Flatten(target)
    decreases |rows|
  {
    if |rows| > 0 {
      var n := |rows| - 1;
      CompactRows(rows[..n], mrows[..n], target[..n]);
      CompactAppend(Flatten(rows[..n]), Flatten(mrows[..n]), rows[n], mrows[n]);
    }
  }

  /** Compacting a column is taking the column of the compacted rows. */
  lemma {:induction false} CompactColumn<T>(table: seq<seq<T>>, n: nat, mask: seq<bool>, k: nat)
    requires IsTable(table, n) && |table| == |mask| && k < n
    ensures IsTable(Compact(table, mask), n)
    ensures Compact(Column(table, n, k), mask) == Column(Compact(table, mask), n, k)
  {
    CompactKeepsTable(table, n, mask);
    if |mask| > 0 {
      var m := |mask| - 1;
      CompactColumn(table[..m], n, mask[..m], k);
      CompactKeepsTable(table[..m], n, mask[..m]);
      assert Column(table, n, k)[..m] == Column(table[..m], n, k);
    }
  }

  lemma {:induction false} CompactKeepsTable<T>(table: seq<seq<T>>, n: nat, mask: seq<bool>)
    requires IsTable(table, n) && |table| == |mask|
    ensures IsTable(Compact(table, mask), n)
  {
    if |mask| > 0 {
      var m := |mask| - 1;
      CompactKeepsTable(table[..m], n, mask[..m]);
    }
  }

  /** A row of all-set or all-clear flags. */
  lemma {:induction false} CompactUniform<T>(row: seq<T>, b: bool)
    ensures Compact(row, seq(|row|, _ => b)) == if b then row else []
  {
    if |row| > 0 {
      var m := |row| - 1;
      assert seq(|row|, _ => b)[..m] == seq(m, _ => b);
      CompactUniform(row[..m], b);
    }
  }

  /** DoF-major: the values at the flagged points, flattened, are the DoF-major layout compacted by the lifted mask. */
  lemma {:induction false} CompactDofMajor(table: seq<seq<real>>, n: nat, mask: seq<bool>)
    requires IsTable(table, n) && |table| == |mask|
    ensures |Flatten(table)| == |Flatten(Broadcast(mask, n))|
    ensures Compact(Flatten(table), Flatten(Broadcast(mask, n))) == Flatten(Compact(table, mask))
  {
    var rows := Broadcast(mask, n);
    var target := seq(|table|, i requires 0 <= i < |table| => if mask[i] then table[i] else []);
    forall i | 0 <= i < |table| ensures Compact(table[i], rows[i]) == target[i] {
      assert rows[i] == seq(|table[i]|, _ => mask[i]);
      CompactUniform(table[i], mask[i]);
    }
    CompactRows(table, rows, target);
    FlattenSelected(table, mask, target);
  }

  lemma {:induction false} FlattenSelected(table: seq<seq<real>>, mask: seq<bool>, target: seq<seq<real>>)
    requires |table| == |mask| == |target|
    requires forall i :: 0 <= i < |table| ==> target[i] == if mask[i] then table[i] else []
    ensures Flatten(target) == Flatten(Compact(table, mask))
  {
    if |table| > 0 {
      var m := |table| - 1;
      FlattenSelected(table[..m], mask[..m], target[..m]);
      if mask[m] {
        FlattenAppend(Compact(table[..m], mask[..m]), table[m]);
      } else {
        assert target[m] == [];
        assert target == target[..m] + [target[m]];
        FlattenAppend(target[..m], target[m]);
        assert Compact(table, mask) == Compact(table[..m], mask[..m]) + [];
        assert Compact(table, mask) == Compact(table[..m], mask[..m]);
        assert Flatten(target) == Flatten(target[..m]) + [];
        assert Flatten(target) == Flatten(target[..m]);
      }
    }
  }

  /** Component-major: the transposed values at the flagged points, flattened, are the
      component-major layout compacted by the lifted mask. */
  lemma CompactComponentMajor(table: seq<seq<real>>, n: nat, mask: seq<bool>)
    requires IsTable(table, n) && |table| == |mask|
    ensures IsTable(Compact(table, mask), n)
    ensures |Flatten(Transpose(table, n))| == |Flatten(Transpose(Broadcast(mask, n), n))|
    ensures Compact(Flatten(Transpose(table, n)), Flatten(Transpose(Broadcast(mask, n), n))) ==
      Flatten(Transpose(Compact(table, mask), n))
  {
    CompactKeepsTable(table, n, mask);
    var rows, mrows, target := Transpose(table, n), Transpose(Broadcast(mask, n), n), Transpose(Compact(table, mask), n);
    forall k | 0 <= k < n ensures |rows[k]| == |mrows[k]| && Compact(rows[k], mrows[k]) == target[k] {
      assert mrows[k] == mask;
      CompactColumn(table, n, mask, k);
    }
    CompactRows(rows, mrows, target);
  }

  /** The flags set in a lifted mask: numel for each flagged scalar DoF. */
  lemma CountLayout(table: seq<seq<real>>, n: nat, mask: seq<bool>, priority: bool)
    requires IsTable(table, n) && |table| == |mask|
    ensures IsTable(Compact(table, mask), n)
    ensures Count(Layout(Broadcast(mask, n), n, priority)) == |Layout(Compact(table, mask), n, priority)|
  {
    CompactKeepsTable(table, n, mask);
    FlatLength(table, n, priority);
    FlatLength(Broadcast(mask, n), n, priority);
    if priority {
      CompactComponentMajor(table, n, mask);
    } else {
      CompactDofMajor(table, n, mask);
    }
  }

  /** `boundary_interpolate` returns the written vector and the mask it used. */
  datatype Interpolated = Interpolated(values: seq<real>, mask: seq<bool>)

  /** The vector written into: the given `uh`, or the zero function of the space. */
  function Base(uh: Option<seq<real>>, gdof: nat): seq<real>
  {
    if uh.None? then seq(gdof, _ => 0.0) else uh.value
  }

  /** `isTensorBDof` for a tensor gd: a tensor threshold must have gdof entries and
      is used as it is; otherwise the space's own boundary query decides. */
  function TensorGdMask(ts: TensorFunctionSpace, threshold: Threshold, meth: Method): Result<seq<bool>>
    requires ValidScalarSpace(ts.scalar)
  {
    match threshold
    case BoolTensor(flags) => if |flags| != NumberOfGlobalDofs(ts) then Err(AssertionError) else Ok(flags)
    case IntTensor(entries) => if |entries| != NumberOfGlobalDofs(ts) then Err(AssertionError) else Err(NotModelled)
    case _ => IsBoundaryDof(ts, threshold, meth)
  }

  /** `boundary_interpolate(gd, uh, threshold, method)` as the code computes it. */
  function Interpolation(ts: TensorFunctionSpace, gd: Gd, uh: Option<seq<real>>, threshold: Threshold, meth: Method): Result<Interpolated>
    requires ValidScalarSpace(ts.scalar) && ValidGd(gd)
  {
    match gd
    case GdNumber(_) => Err(ValueError)
    case GdTensor(v) =>
      if |v| != NumberOfGlobalDofs(ts) then Err(AssertionError)
      else
        (match TensorGdMask(ts, threshold, meth)
         case Err(e) => Err(e)
         case Ok(mask) =>
           var base := Base(uh, |v|);
           if |base| != |mask| || |v| != |mask| then Err(IndexError)
           else Ok(Interpolated(MaskedWrite(base, mask, v), mask)))
    case GdCallable(w, table) =>
      match threshold
      case NoThreshold => LiftedInterpolation(ts, w, table, uh, None, meth)
      case Callable(f) => LiftedInterpolation(ts, w, table, uh, Some(f), meth)
      case BoolTensor(flags) =>
        if |flags| != NumberOfGlobalDofs(ts) then Err(AssertionError)
        else if w != DofNumel(ts) then Err(AssertionError)
        else
          var full := Layout(table, w, ts.dofPriority);
          var base := Base(uh, |flags|);
          if |full| != |flags| || |base| != |flags| then Err(IndexError)
          else Ok(Interpolated(SetAt(base, flags, Compact(full, flags)), flags))
      case IntTensor(entries) => if |entries| != NumberOfGlobalDofs(ts) then Err(AssertionError) else Err(NotModelled)
      case Tuple(_) => if meth == Centroid || meth == Interp then Err(NotModelled) else Err(ValueError)
      case OtherThreshold => Err(ValueError)
  }

  /** The callable-gd branch with a None or callable threshold: gd at the scalar
      boundary points (`ipoints[isScalarBDof]`), transposed when component-major
      and flattened, scattered by `set_at` under the tensor mask. */
  function LiftedInterpolation(ts: TensorFunctionSpace, w: nat, table: seq<seq<real>>, uh: Option<seq<real>>,
    pred: Option<Predicate>, meth: Method): Result<Interpolated>
    requires ValidScalarSpace(ts.scalar) && IsTable(table, w)
  {
    var smask := ts.scalar.boundaryMask(pred, meth);
    if |table| != |smask| then Err(IndexError)
    else if w != DofNumel(ts) then Err(AssertionError)
    else
      match IsBoundaryDof(ts, if pred.None? then NoThreshold else Callable(pred.value), meth)
      case Err(e) => Err(e)
      case Ok(mask) =>
        var picked := Compact(table, smask);
        CompactKeepsTable(table, w, smask);
        var vals := Layout(picked, w, ts.dofPriority);
        var base := Base(uh, |mask|);
        if |base| != |mask| then Err(IndexError)
        else
          CountLayout(table, w, smask, ts.dofPriority);
          Ok(Interpolated(SetAt(base, mask, vals), mask))
  }

  /** What every successful call writes, read positionally: the mask and, for
      each tensor DoF, the value gd gives it (for a callable gd, in the space's layout). */
  datatype WritePlan = WritePlan(mask: seq<bool>, target: seq<real>)

  function InterpolationPlan(ts: TensorFunctionSpace, gd: Gd, threshold: Threshold, meth: Method): (r: Result<WritePlan>)
    requires ValidScalarSpace(ts.scalar) && ValidGd(gd)
    ensures r.Ok? ==> |r.value.mask| == |r.value.target|
  {
    match gd
    case GdNumber(_) => Err(ValueError)
    case GdTensor(v) =>
      if |v| != NumberOfGlobalDofs(ts) then Err(AssertionError)
      else
        (match TensorGdMask(ts, threshold, meth)
         case Err(e) => Err(e)
         case Ok(mask) => if |v| != |mask| then Err(IndexError) else Ok(WritePlan(mask, v)))
    case GdCallable(w, table) =>
      var full := Layout(table, w, ts.dofPriority);
      match threshold
      case NoThreshold => LiftedPlan(ts, w, table, None, meth)
      case Callable(f) => LiftedPlan(ts, w, table, Some(f), meth)
      case BoolTensor(flags) =>
        if |flags| != NumberOfGlobalDofs(ts) then Err(AssertionError)
        else if w != DofNumel(ts) then Err(AssertionError)
        else if |full| != |flags| then Err(IndexError)
        else Ok(WritePlan(flags, full))
      case IntTensor(entries) => if |entries| != NumberOfGlobalDofs(ts) then Err(AssertionError) else Err(NotModelled)
      case Tuple(_) => if meth == Centroid || meth == Interp then Err(NotModelled) else Err(ValueError)
      case OtherThreshold => Err(ValueError)
  }

  function LiftedPlan(ts: TensorFunctionSpace, w: nat, table: seq<seq<real>>, pred: Option<Predicate>, meth: Method): (r: Result<WritePlan>)
    requires ValidScalarSpace(ts.scalar) && IsTable(table, w)
    ensures r.Ok? ==> |r.value.mask| == |r.value.target|
  {
    var smask := ts.scalar.boundaryMask(pred, meth);
    if |table| != |smask| then Err(IndexError)
    else if w != DofNumel(ts) then Err(AssertionError)
    else
      match IsBoundaryDof(ts, if pred.None? then NoThreshold else Callable(pred.value), meth)
      case Err(e) => Err(e)
      case Ok(mask) =>
        FlatLength(table, w, ts.dofPriority);
        FlatLength(Broadcast(smask, w), w, ts.dofPriority);
        Ok(WritePlan(mask, Layout(table, w, ts.dofPriority)))
  }

  /** The code's result is the positional write of the plan into `uh` (or into the zero
      function): masked entries take gd's value, the others keep theirs. */
  lemma InterpolationFollowsPlan(ts: TensorFunctionSpace, gd: Gd, uh: Option<seq<real>>, threshold: Threshold, meth: Method)
    requires ValidScalarSpace(ts.scalar) && ValidGd(gd)
    ensures var r, plan := Interpolation(ts, gd, uh, threshold, meth), InterpolationPlan(ts, gd, threshold, meth);
      match plan
      case Err(e) => r == Err(e)
      case Ok(pl) =>
        var base := Base(uh, |pl.mask|);
        if |base| != |pl.mask| then r == Err(IndexError)
        else r == Ok(Interpolated(MaskedWrite(base, pl.mask, pl.target), pl.mask))
  {
    match gd
    case GdNumber(_) =>
    case GdTensor(v) =>
    case GdCallable(w, table) =>
      match threshold
      case NoThreshold => LiftedFollowsPlan(ts, w, table, uh, None, meth);
      case Callable(f) => LiftedFollowsPlan(ts, w, table, uh, Some(f), meth);
      case BoolTensor(flags) =>
        if |flags| == NumberOfGlobalDofs(ts) && w == DofNumel(ts) {
          var full := Layout(table, w, ts.dofPriority);
          var base := Base(uh, |flags|);
          if |full| == |flags| && |base| == |flags| { SetAtCompact(base, flags, full); }
        }
      case IntTensor(_) =>
      case Tuple(_) =>
      case OtherThreshold =>
  }

  lemma LiftedFollowsPlan(ts: TensorFunctionSpace, w: nat, table: seq<seq<real>>, uh: Option<seq<real>>, pred: Option<Predicate>, meth: Method)
    requires ValidScalarSpace(ts.scalar) && IsTable(table, w)
    ensures var r, plan := LiftedInterpolation(ts, w, table, uh, pred, meth), LiftedPlan(ts, w, table, pred, meth);
      match plan
      case Err(e) => r == Err(e)
      case Ok(pl) =>
        var base := Base(uh, |pl.mask|);
        if |base| != |pl.mask| then r == Err(IndexError)
        else r == Ok(Interpolated(MaskedWrite(base, pl.mask, pl.target), pl.mask))
  {
    var smask := ts.scalar.boundaryMask(pred, meth);
    var th := if pred.None? then NoThreshold else Callable(pred.value);
    if |table| == |smask| && w == DofNumel(ts) && IsBoundaryDof(ts, th, meth).Ok? {
      var mask := IsBoundaryDof(ts, th, meth).value;
      assert mask == Layout(Broadcast(smask, w), w, ts.dofPriority);
      var base := Base(uh, |mask|);
      CompactKeepsTable(table, w, smask);
      FlatLength(table, w, ts.dofPriority);
      FlatLength(Broadcast(smask, w), w, ts.dofPriority);
      if |base| == |mask| {
        var full := Layout(table, w, ts.dofPriority);
        if ts.dofPriority { CompactComponentMajor(table, w, smask); } else { CompactDofMajor(table, w, smask); }
        assert Compact(full, mask) == Layout(Compact(table, smask), w, ts.dofPriority);
        SetAtCompact(base, mask, full);
      }
    }
  }

  /** Calling again with the returned vector as `uh` writes nothing new and returns the same mask. */
  lemma InterpolationIdempotent(ts: TensorFunctionSpace, gd: Gd, uh: Option<seq<real>>, threshold: Threshold, meth: Method)
    requires ValidScalarSpace(ts.scalar) && ValidGd(gd)
    requires Interpolation(ts, gd, uh, threshold, meth).Ok?
    ensures var r := Interpolation(ts, gd, uh, threshold, meth).value;
      Interpolation(ts, gd, Some(r.values), threshold, meth) == Ok(r)
  {
    InterpolationFollowsPlan(ts, gd, uh, threshold, meth);
    var r := Interpolation(ts, gd, uh, threshold, meth).value;
    InterpolationFollowsPlan(ts, gd, Some(r.values), threshold, meth);
    var pl := InterpolationPlan(ts, gd, threshold, meth).value;
    MaskedWriteIdempotent(Base(uh, |pl.mask|), pl.mask, pl.target);
  }

  /** With a callable gd, a set flag at component k of scalar DoF i receives
      component k of gd at interpolation point i, in either layout. */
  lemma CallableValueAt(ts: TensorFunctionSpace, gd: Gd, uh: Option<seq<real>>, threshold: Threshold, meth: Method,
    res: Interpolated, i: nat, k: nat)
    requires ValidScalarSpace(ts.scalar) && ValidGd(gd) && gd.GdCallable?
    requires Interpolation(ts, gd, uh, threshold, meth) == Ok(res)
    requires i < |gd.table| && k < gd.width
    ensures var q := LayoutIndex(ts.dofPriority, |gd.table|, gd.width, i, k);
      q < |res.values| && q < |res.mask| && (res.mask[q] ==> res.values[q] == gd.table[i][k])
  {
    var plan := InterpolationPlan(ts, gd, threshold, meth);
    InterpolationFollowsPlan(ts, gd, uh, threshold, meth);
    assert plan.Ok?;
    var pl := plan.value;
    CallablePlanTarget(ts, gd, threshold, meth);
    assert res.values == MaskedWrite(Base(uh, |pl.mask|), pl.mask, pl.target) && res.mask == pl.mask;
    LayoutAt(gd.table, gd.width, ts.dofPriority, i, k);
  }

  /** With a callable gd, what a successful plan writes is gd's table in the space's layout. */
  lemma CallablePlanTarget(ts: TensorFunctionSpace, gd: Gd, threshold: Threshold, meth: Method)
    requires ValidScalarSpace(ts.scalar) && ValidGd(gd) && gd.GdCallable?
    ensures var plan := InterpolationPlan(ts, gd, threshold, meth);
      plan.Ok? ==> plan.value.target == Layout(gd.table, gd.width, ts.dofPriority)
  {
    var plan := InterpolationPlan(ts, gd, threshold, meth);
    if plan.Ok? && (threshold.NoThreshold? || threshold.Callable?) {
      var pred := if threshold.NoThreshold? then None else Some(threshold.pred);
      assert plan == LiftedPlan(ts, gd.width, gd.table, pred, meth);
    }
  }

  /** The outcome of the in-place call: the array written (the caller's `uh` or a new one) and the mask. */
  datatype Written = Written(uh: array<real>, mask: seq<bool>)

  /** `boundary_interpolate`, in place: `uh[isTensorBDof] = gd[...]` on the caller's
      array, or on a fresh zero function when `uh` is None. */
  method BoundaryInterpolate(ts: TensorFunctionSpace, gd: Gd, uh: array?<real>, threshold: Threshold, meth: Method)
    returns (r: Result<Written>)
    requires ValidScalarSpace(ts.scalar) && ValidGd(gd)
    modifies uh
    ensures var spec := Interpolation(ts, gd, if uh == null then None else Some(old(uh[..])), threshold, meth);
      (r.Err? <==> spec.Err?) && (r.Err? ==> r.error == spec.error) &&
      (r.Ok? ==> r.value.uh[..] == spec.value.values && r.value.mask == spec.value.mask)
    ensures r.Ok? && uh != null ==> r.value.uh == uh
    ensures r.Ok? && uh == null ==> fresh(r.value.uh)
    ensures r.Err? && uh != null ==> uh[..] == old(uh[..])
  {
    ghost var prior := if uh == null then None else Some(uh[..]);
    InterpolationFollowsPlan(ts, gd, prior, threshold, meth);
    var plan := InterpolationPlan(ts, gd, threshold, meth);
    if plan.Err? {
      return Err(plan.error);
    }
    var mask, target := plan.value.mask, plan.value.target;
    var out: array<real>;
    if uh == null {
      out := new real[|mask|](_ => 0.0);
    } else {
      if uh.Length != |mask| {
        return Err(IndexError);
      }
      out := uh;
    }
    assert out[..] == Base(prior, |mask|);
    WriteMasked(out, mask, target);
    r := Ok(Written(out, mask));
  }

  /** The loop behind `uh[mask] = values[mask]`. */
  method WriteMasked(out: array<real>, mask: seq<bool>, target: seq<real>)
    requires out.Length == |mask| == |target|
    modifies out
    ensures out[..] == MaskedWrite(old(out[..]), mask, target)
  {
    ghost var base := out[..];
    for q := 0 to |mask|
      invariant forall j :: 0 <= j < q ==> out[j] == if mask[j] then target[j] else base[j]
      invariant forall j :: q <= j < out.Length ==> out[j] == base[j]
    {
      if mask[q] {
        out[q] := target[q];
      }
    }
    assert out[..] == MaskedWrite(base, mask, target);
  }
}
