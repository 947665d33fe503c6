/** The base `FunctionSpace` of fealpy/experimental/functionspace/space.py.

    The base class only declares its counters, relationships and boundary query
    (they raise NotImplementedError until a subclass supplies them) and implements
    `array` and `function` on top of `number_of_global_dofs`.  Here a concrete
    space is the record `ScalarSpace` of exactly the members the tensor wrapper
    consumes; `Array` and `NewFunction` take the space's global DoF count. */
module FunctionSpace {
  import opened Wrappers
  import opened SeqUtil

  /** The `doftype` argument of `number_of_local_dofs`: a name such as 'cell'
      or a topological dimension such as 2. */
  datatype DofType = Named(name: string) | OfDim(dim: int)

  /** A user-supplied callable passed as a threshold; only its identity matters here. */
  datatype Predicate = Predicate(id: nat)

  /** The `method` keyword of the boundary queries. */
  datatype Method = NoMethod | Centroid | Interp | OtherMethod(name: string)

  /** What a concrete scalar space supplies: its global DoF count, its local DoF
      counts per `doftype` (None where the space returns nothing), and its
      `is_boundary_dof(threshold, method)` mask for a None or callable threshold. */
  datatype ScalarSpace = ScalarSpace(
    gdof: nat,
    localDofs: DofType -> Option<nat>,
    boundaryMask: (Option<Predicate>, Method) -> seq<bool>)

  /** Every boundary mask of the space has one flag per global DoF. */
  ghost predicate ValidScalarSpace(s: ScalarSpace)
  {
    forall t, m :: |s.boundaryMask(t, m)| == s.gdof
  }

  /** The `dim` argument: None (or 0) for scalar DoFs, an int for vector DoFs,
      a tuple for tensor DoFs. */
  datatype Dim = NoDim | IntDim(n: nat) | ShapeDim(s: seq<nat>)

  /** A DoF array: its shape and its entries in C order. */
  datatype DofArray = DofArray(shape: seq<nat>, data: seq<real>)

  /** An element of a space: the space (known here by its global DoF count) and its DoF values. */
  datatype Function = Function(gdof: nat, values: DofArray)

  /** Shape (GDOF, *dim) of the DoF array. */
  function ArrayShape(gdof: nat, dim: Dim): (shape: seq<nat>)
    ensures |shape| >= 1 && shape[0] == gdof
    ensures dim == NoDim || dim == IntDim(0) ==> shape == [gdof]
    ensures dim.IntDim? && dim.n > 0 ==> shape == [gdof, dim.n]
    ensures dim.ShapeDim? ==> shape[1..] == dim.s
  {
    match dim
    case NoDim => [gdof]
    case IntDim(n) => if n == 0 then [gdof] else [gdof, n]
    case ShapeDim(s) => [gdof] + s
  }

  /** `FunctionSpace.array`: a zero-filled DoF array shaped (GDOF, *dim). */
  function Array(gdof: nat, dim: Dim): (a: DofArray)
    ensures a.shape == ArrayShape(gdof, dim)
    ensures |a.data| == Prod(a.shape)
    ensures forall i :: 0 <= i < |a.data| ==> a.data[i] == 0.0
  {
    var shape := ArrayShape(gdof, dim);
    ProdNonneg(shape);
    DofArray(shape, seq(Prod(shape), _ => 0.0))
  }

  /** `FunctionSpace.function`: wraps the given data unchanged, or the zero array when none is given. */
  function NewFunction(gdof: nat, data: Option<DofArray>, dim: Dim): (f: Function)
    ensures f.gdof == gdof
    ensures data.Some? ==> f.values == data.value
    ensures data.None? ==> f.values.shape == ArrayShape(gdof, dim)
    ensures data.None? ==> forall i :: 0 <= i < |f.values.data| ==> f.values.data[i] == 0.0
  {
    if data.None? then Function(gdof, Array(gdof, dim)) else Function(gdof, data.value)
  }

  /** The zero function of a scalar space holds exactly GDOF zeros. */
  lemma ZeroScalarFunction(gdof: nat)
    ensures NewFunction(gdof, None, NoDim).values.data == seq(gdof, _ => 0.0)
  {
    var a := NewFunction(gdof, None, NoDim).values;
    assert a.shape == [gdof];
    assert Prod([gdof]) == Prod([]) * gdof;
  }
}
