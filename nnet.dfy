/**
 * The shape and bookkeeping logic of the neural-network operators
 * (odin/nnet/base.py), with tensors abstracted to their shape tuples:
 * parameter creation, the attribute recording and input wrapping of NNOps,
 * the PReLU shared axes, and the output shape of a sliced operator.
 */
module NNet {
  import opened Wrappers

  /** A shape as the backend reports it: a size per axis, None when unknown. */
  type Dims = seq<Option<nat>>

  function Product(s: seq<nat>): nat
  {
    if s == [] then 1 else Product(s[..|s| - 1]) * s[|s| - 1]
  }

  // ---------------------------------------------------------------- attribute recording

  /**
   * A value assigned to an attribute of an operator. The primitive ones
   * (strings, numbers, None, lists such as the footprint, an NNConfig) are
   * the ones recorded for pickling; parameters and tensors are not.
   */
  datatype Value =
    | NoneValue
    | Primitive(text: string)
    | Footprint(shapes: seq<Dims>)
    | Configuration
    | Param(shape: seq<nat>)

  predicate IsPrimitive(v: Value)
  {
    !v.Param?
  }

  const ArgumentsName := "_arguments"
  const ConfigurationName := "_configuration"
  const FootprintName := "_footprint"

  /** An input or output of apply: one tensor, or a list of them. */
  datatype Input<+T> = Single(x: T) | Many(xs: seq<T>)

  function Items<T>(i: Input<T>): seq<T>
  {
    match i
    case Single(x) => [x]
    case Many(xs) => xs
  }

  /** The IndexError apply raises when an unconfigured operator is given an empty list. */
  datatype ApplyError = EmptyInput

  /** The state of an NNOps that the model keeps: its attributes and the recorded arguments. */
  class Ops {
    var attributes: map<string, Value>
    var arguments: map<string, Value>

    /**
     * No assignment to `_arguments` is recorded, and every recorded value is
     * primitive. A recorded value stays recorded when the attribute is later
     * assigned a non-primitive value.
     */
    ghost predicate Valid()
      reads this
    {
      ArgumentsName !in arguments
      && forall n :: n in arguments ==> IsPrimitive(arguments[n])
    }

    /** NNOps.__init__(name): the name, the empty configuration and transpose pass through __setattr__. */
    constructor (name: string)
      ensures Valid()
      ensures attributes == map["name" := Primitive(name), ConfigurationName := NoneValue, "_transpose_ops" := NoneValue]
      ensures arguments == attributes
    {
      attributes := map["name" := Primitive(name), ConfigurationName := NoneValue, "_transpose_ops" := NoneValue];
      arguments := attributes;
    }

    /** NNOps.__setattr__: every assignment sets the attribute; a primitive one is also recorded. */
    method SetAttr(name: string, value: Value)
      requires Valid()
      modifies this
      ensures Valid()
      ensures attributes == old(attributes)[name := value]
      ensures arguments == if name != ArgumentsName && IsPrimitive(value)
        then old(arguments)[name := value] else old(arguments)
    {
      if name != ArgumentsName && IsPrimitive(value) {
        arguments := arguments[name := value];
      }
      attributes := attributes[name := value];
    }

    /** Whether the operator has been initialised: its configuration is set. */
    predicate Configured()
      reads this
    {
      ConfigurationName in attributes && attributes[ConfigurationName] != NoneValue
    }

    /**
     * NNOps.apply: a single input is wrapped into a list and its one output
     * unwrapped; a list gives one output per element. The first call stores
     * the configuration, and the first footprint is kept. Before the
     * configuration exists the initialiser is handed the one input, so an
     * empty list raises there and nothing is recorded.
     */
    method Apply<T, U>(x: Input<T>, f: T -> U, footprint: seq<Dims>) returns (r: Result<Input<U>, ApplyError>)
      requires Valid()
      modifies this
      ensures Valid()
      ensures r.Err? <==> Items(x) == [] && !old(Configured())
      ensures r.Err? ==> r.error == EmptyInput && attributes == old(attributes) && arguments == old(arguments)
      ensures r.Ok? ==> (r.value.Single? <==> x.Single?)
      ensures r.Ok? ==> |Items(r.value)| == |Items(x)| && forall i :: 0 <= i < |Items(x)| ==> Items(r.value)[i] == f(Items(x)[i])
      ensures r.Ok? ==> Configured()
      ensures old(Configured()) ==> attributes[ConfigurationName] == old(attributes[ConfigurationName])
      ensures r.Ok? ==> FootprintName in attributes
      ensures old(FootprintName in attributes) ==> attributes[FootprintName] == old(attributes[FootprintName])
      ensures r.Ok? && old(FootprintName !in attributes) ==> attributes[FootprintName] == Footprint(footprint)
    {
      var items := Items(x);
      if !Configured() {
        if items == [] {
          return Err(EmptyInput);
        }
        SetAttr(ConfigurationName, Configuration);
      }
      if FootprintName !in attributes {
        SetAttr(FootprintName, Footprint(footprint));
      }
      var out := seq(|items|, i requires 0 <= i < |items| => f(items[i]));
      if x.Single? {
        r := Ok(Single(out[0]));
      } else {
        r := Ok(Many(out));
      }
    }
  }

  // ---------------------------------------------------------------- create_params

  datatype ParamError =
    | NonPositiveDim(shape: seq<int>)
    | ShapeMismatch(given: seq<nat>, expected: seq<nat>)
    | NdimMismatch(givenRank: nat, expectedRank: nat)
    | InconsistentShapes
    | NoSpec
    | ScalarStack

  /** What an initialiser spec evaluated to: a numpy array, a shared variable or an expression. */
  datatype SpecKind = ArrayValue | TrainableVariable | Expression
  datatype Spec = Spec(kind: SpecKind, shape: seq<nat>)

  /** The dimension check of create_params: every size must be positive. */
  function CheckShape(shape: seq<int>): (r: Result<seq<nat>, ParamError>)
    ensures r.Ok? <==> forall i :: 0 <= i < |shape| ==> shape[i] > 0
    ensures r.Ok? ==> r.value == shape
    ensures r.Err? ==> r.error == NonPositiveDim(shape)
  {
    if exists i :: 0 <= i < |shape| && shape[i] <= 0 then Err(NonPositiveDim(shape))
    else Ok(shape)
  }

  /**
   * _initialize_param: an array or a shared variable must have the expected
   * shape, an expression the expected number of dimensions; the expected
   * shape is what it returns.
   */
  function InitializeParam(spec: Spec, shape: seq<nat>): (r: Result<seq<nat>, ParamError>)
    ensures r.Ok? ==> r.value == shape
    ensures r.Ok? <==> if spec.kind == Expression then |spec.shape| == |shape| else spec.shape == shape
  {
    match spec.kind
    case Expression => if |spec.shape| != |shape| then Err(NdimMismatch(|spec.shape|, |shape|)) else Ok(shape)
    case _ => if spec.shape != shape then Err(ShapeMismatch(spec.shape, shape)) else Ok(shape)
  }

  /** The shapes _initialize_param returns for each spec, or its first error. */
  function InitializeAll(specs: seq<Spec>, shape: seq<nat>): (r: Result<seq<seq<nat>>, ParamError>)
    ensures r.Ok? ==> |r.value| == |specs| && forall i :: 0 <= i < |specs| ==> r.value[i] == shape
    ensures r.Ok? <==> forall i :: 0 <= i < |specs| ==> InitializeParam(specs[i], shape).Ok?
  {
    if specs == [] then Ok([])
    else
      match InitializeParam(specs[0], shape)
      case Err(e) => Err(e)
      case Ok(s) =>
        match InitializeAll(specs[1..], shape)
        case Err(e) => Err(e)
        case Ok(rest) =>
          assert forall i :: 1 <= i < |specs| ==> specs[i] == specs[1..][i - 1];
          Ok([s] + rest)
  }

  /** list(set(shapes)): the single shape they share, or an error for more than one or none. */
  function CommonShape(shapes: seq<seq<nat>>): (r: Result<seq<nat>, ParamError>)
    ensures shapes == [] ==> r == Err(NoSpec)
    ensures shapes != [] ==> (r.Ok? <==> forall i :: 0 <= i < |shapes| ==> shapes[i] == shapes[0])
    ensures r.Ok? ==> r.value == shapes[0] && r.value in shapes
    ensures r.Err? && shapes != [] ==> r.error == InconsistentShapes
  {
    if shapes == [] then Err(NoSpec)
    else if exists i :: 0 <= i < |shapes| && shapes[i] != shapes[0] then Err(InconsistentShapes)
    else Ok(shapes[0])
  }

  /** The consistency check cannot fail: every returned shape is the expected one. */
  lemma CommonShapeOfInitialized(specs: seq<Spec>, shape: seq<nat>)
    requires specs != [] && InitializeAll(specs, shape).Ok?
    ensures CommonShape(InitializeAll(specs, shape).value) == Ok(shape)
  {
    var shapes := InitializeAll(specs, shape).value;
    assert shapes[0] == shape;
  }

  /**
   * nb copies stacked along the last axis: the last size, or the only one,
   * times nb. A shape without axes has no last axis to stack along.
   */
  function StackedShape(shape: seq<nat>, nb: nat): (r: Result<seq<nat>, ParamError>)
    ensures r.Ok? <==> shape != []
  {
    if shape == [] then Err(ScalarStack)
    else if |shape| == 1 then Ok([shape[0] * nb])
    else Ok(shape[..|shape| - 1] + [shape[|shape| - 1] * nb])
  }

  /** Stacking keeps the rank and the leading sizes, and multiplies the number of elements by nb. */
  lemma StackedShapeSpec(shape: seq<nat>, nb: nat)
    requires shape != []
    ensures var r := StackedShape(shape, nb).value;
      |r| == |shape|
      && r[..|r| - 1] == shape[..|shape| - 1]
      && r[|r| - 1] == shape[|shape| - 1] * nb
      && Product(r) == Product(shape) * nb
  {
    var n := |shape| - 1;
    var r := StackedShape(shape, nb).value;
    assert r[..n] == shape[..n];
    assert Product(r) == Product(shape[..n]) * (shape[n] * nb);
  }

  /** A single copy is left as it is. */
  lemma StackedByOne(shape: seq<nat>)
    requires shape != []
    ensures StackedShape(shape, 1) == Ok(shape)
  {
    StackedShapeSpec(shape, 1);
    var n := |shape| - 1;
    assert shape == shape[..n] + [shape[n]];
  }

  /**
   * The shape create_params gives its parameter: after the dimension check
   * and the per-spec checks, arrays (and several shared variables) are
   * concatenated along the last axis, one shared variable is used as it is,
   * and expressions are concatenated with the shape computed from nb_params.
   */
  function CreatedShape(specs: seq<Spec>, shape: seq<int>): (r: Result<seq<nat>, ParamError>)
    ensures r.Ok? ==> CheckShape(shape).Ok? && specs != [] && InitializeAll(specs, shape).Ok?
  {
    match CheckShape(shape)
    case Err(e) => Err(e)
    case Ok(dims) =>
      match InitializeAll(specs, dims)
      case Err(e) => Err(e)
      case Ok(shapes) =>
        match CommonShape(shapes)
        case Err(e) => Err(e)
        case Ok(common) =>
          if specs[0].kind == TrainableVariable && |specs| == 1 then Ok(common)
          else StackedShape(common, |specs|)
  }

  /**
   * A parameter is created exactly when its sizes are positive, every spec
   * fits the shape, and there is an axis to stack along (a lone shared
   * variable needs none); whichever branch is taken, its shape is then the
   * stacked one.
   */
  lemma CreatedShapeSpec(specs: seq<Spec>, shape: seq<int>)
    ensures CreatedShape(specs, shape).Ok?
      <==> (forall i :: 0 <= i < |shape| ==> shape[i] > 0) && specs != []
           && (forall i :: 0 <= i < |specs| ==> InitializeParam(specs[i], shape).Ok?)
           && (shape != [] || (specs[0].kind == TrainableVariable && |specs| == 1))
    ensures CreatedShape(specs, shape).Ok? && shape != [] ==> CreatedShape(specs, shape) == StackedShape(shape, |specs|)
  {
    if CheckShape(shape).Ok? && specs != [] && InitializeAll(specs, shape).Ok? {
      CommonShapeOfInitialized(specs, shape);
      if shape != [] && specs[0].kind == TrainableVariable && |specs| == 1 {
        StackedByOne(shape);
      }
    }
  }

  /** NNConfig: the parameters it created, by name. */
  class Config {
    var variables: map<string, seq<nat>>

    constructor ()
      ensures variables == map[]
    {
      variables := map[];
    }

    /**
     * create_params: computes the parameter's shape, then records it under
     * its name (replacing any earlier one) and assigns it to the operator.
     */
    method CreateParams(specs: seq<Spec>, shape: seq<int>, name: string, ops: Ops) returns (r: Result<seq<nat>, ParamError>)
      requires ops.Valid()
      modifies this, ops
      ensures ops.Valid()
      ensures r == CreatedShape(specs, shape)
      ensures r.Ok? ==>
        variables == old(variables)[name := r.value]
        && ops.attributes == old(ops.attributes)[name := Param(r.value)]
        && ops.arguments == old(ops.arguments)
      ensures r.Err? ==>
        variables == old(variables) && ops.attributes == old(ops.attributes)
        && ops.arguments == old(ops.arguments)
    {
      r := CreatedShape(specs, shape);
      if r.Ok? {
        variables := variables[name := r.value];
        ops.SetAttr(name, Param(r.value));
      }
    }
  }

  // ---------------------------------------------------------------- PReLU

  /** The shared_axes argument: 'auto', 'all', one axis, or a tuple of axes. */
  datatype SharedAxes = Auto | All | Axis(a: int) | Axes(axes: seq<int>)

  function Range(lo: int, hi: int): (r: seq<int>)
    ensures |r| == if lo <= hi then hi - lo else 0
    ensures forall i :: 0 <= i < |r| ==> r[i] == lo + i
    decreases hi - lo
  {
    if lo >= hi then [] else [lo] + Range(lo + 1, hi)
  }

  lemma RangeMembers(lo: int, hi: int)
    ensures forall a :: a in Range(lo, hi) <==> lo <= a < hi
  {
    var r := Range(lo, hi);
    forall a | lo <= a < hi ensures a in r {
      assert r[a - lo] == a;
    }
  }

  /** The shared axes for an input of rank n. */
  function NormaliseAxes(s: SharedAxes, n: nat): (r: seq<int>)
    ensures s == Auto ==> forall a :: a in r <==> a == 0 || 2 <= a < n
    ensures s == All ==> forall a :: a in r <==> 0 <= a < n
    ensures s.Axis? ==> r == [s.a]
    ensures s.Axes? ==> r == s.axes
  {
    match s
    case Auto => RangeMembers(2, n); [0] + Range(2, n)
    case All => RangeMembers(0, n); Range(0, n)
    case Axis(a) => [a]
    case Axes(axes) => axes
  }

  datatype AlphaError = UnknownSize

  /** The sizes of the input at the axes that are not shared, in order. */
  function Unshared(shape: Dims, axes: seq<int>): (r: Dims)
  {
    if shape == [] then []
    else
      var n := |shape| - 1;
      Unshared(shape[..n], axes) + (if n in axes then [] else [shape[n]])
  }

  predicate AllKnown(u: Dims)
  {
    forall i :: 0 <= i < |u| ==> u[i] != None
  }

  /** The shape of alpha: the unshared sizes, which must all be known. */
  function AlphaShape(shape: Dims, axes: seq<int>): (r: Result<seq<nat>, AlphaError>)
    ensures var u := Unshared(shape, axes);
      (r.Ok? <==> AllKnown(u))
      && (r.Ok? ==> |r.value| == |u| && forall i :: 0 <= i < |u| ==> u[i] == Some(r.value[i]))
  {
    var u := Unshared(shape, axes);
    if AllKnown(u) then Ok(seq(|u|, i requires 0 <= i < |u| => u[i].value))
    else Err(UnknownSize)
  }

  /** The docstring example: an input of (20, 3, 28, 28) sharing axes (0, 3) has alpha of shape (3, 28). */
  lemma AlphaShapeExample()
    ensures AlphaShape([Some(20), Some(3), Some(28), Some(28)], NormaliseAxes(Axes([0, 3]), 4)) == Ok([3, 28])
  {
    var s: Dims := [Some(20), Some(3), Some(28), Some(28)];
    assert s[..3] == [Some(20), Some(3), Some(28)];
    assert s[..3][..2] == [Some(20), Some(3)];
    assert s[..3][..2][..1] == [Some(20)];
    assert [Some(20)][..0] == [];
    assert Unshared([Some(20)], [0, 3]) == [];
    assert Unshared([Some(20), Some(3)], [0, 3]) == [Some(3)];
    assert Unshared([Some(20), Some(3), Some(28)], [0, 3]) == [Some(3), Some(28)];
    assert Unshared(s, [0, 3]) == [Some(3), Some(28)];
    var r := AlphaShape(s, [0, 3]);
    assert r.Ok? && |r.value| == 2 && r.value[0] == 3 && r.value[1] == 28;
    assert r.value == [3, 28];
    assert NormaliseAxes(Axes([0, 3]), 4) == [0, 3];
  }

  /** An entry of a dimshuffle pattern: a broadcast axis ('x') or an axis of alpha. */
  datatype PatternEntry = Broadcast | AlphaAxis(k: nat)

  /** The number of axes below n that are not shared. */
  function CountUnshared(n: nat, axes: seq<int>): nat
  {
    if n == 0 then 0 else CountUnshared(n - 1, axes) + (if n - 1 in axes then 0 else 1)
  }

  /** The pattern for an input of rank n: 'x' at each shared axis, the next alpha axis elsewhere. */
  function Pattern(n: nat, axes: seq<int>): (r: seq<PatternEntry>)
    ensures |r| == n
  {
    if n == 0 then []
    else Pattern(n - 1, axes) + [if n - 1 in axes then Broadcast else AlphaAxis(CountUnshared(n - 1, axes))]
  }

  lemma {:induction false} PatternAt(n: nat, axes: seq<int>, a: nat)
    requires a < n
    ensures Pattern(n, axes)[a] == if a in axes then Broadcast else AlphaAxis(CountUnshared(a, axes))
  {
    if a < n - 1 {
      PatternAt(n - 1, axes, a);
    }
  }

  lemma {:induction false} UnsharedAt(shape: Dims, axes: seq<int>, a: nat)
    requires a < |shape| && a !in axes
    ensures |Unshared(shape, axes)| == CountUnshared(|shape|, axes)
    ensures CountUnshared(a, axes) < |Unshared(shape, axes)|
    ensures Unshared(shape, axes)[CountUnshared(a, axes)] == shape[a]
  {
    var n := |shape| - 1;
    if a < n {
      UnsharedAt(shape[..n], axes, a);
    } else {
      UnsharedLength(shape[..n], axes);
    }
  }

  lemma {:induction false} UnsharedLength(shape: Dims, axes: seq<int>)
    ensures |Unshared(shape, axes)| == CountUnshared(|shape|, axes)
  {
    if shape != [] {
      UnsharedLength(shape[..|shape| - 1], axes);
    }
  }

  /**
   * Each shared axis is broadcast; the other axes take the axes of alpha
   * 0, 1, 2, ... in order, and each takes the alpha axis whose size is that
   * input axis's size.
   */
  lemma PatternSpec(shape: Dims, axes: seq<int>)
    ensures var p := Pattern(|shape|, axes);
      var u := Unshared(shape, axes);
      |u| == CountUnshared(|shape|, axes)
      && forall a :: 0 <= a < |shape| ==>
           (p[a] == Broadcast <==> a in axes)
           && (a !in axes ==>
                 p[a] == AlphaAxis(CountUnshared(a, axes))
                 && CountUnshared(a, axes) < |u| && u[CountUnshared(a, axes)] == shape[a])
  {
    UnsharedLength(shape, axes);
    forall a | 0 <= a < |shape|
      ensures Pattern(|shape|, axes)[a] == if a in axes then Broadcast else AlphaAxis(CountUnshared(a, axes))
      ensures a !in axes ==>
        CountUnshared(a, axes) < |Unshared(shape, axes)| && Unshared(shape, axes)[CountUnshared(a, axes)] == shape[a]
    {
      PatternAt(|shape|, axes, a);
      if a !in axes {
        UnsharedAt(shape, axes, a);
      }
    }
  }

  /** The alpha axes of the pattern run 0, 1, 2, ... without gaps. */
  lemma PatternConsecutive(n: nat, axes: seq<int>, a: nat, b: nat)
    requires a < b < n && a !in axes && b !in axes
    requires forall c :: a < c < b ==> c in axes
    ensures Pattern(n, axes)[a] == AlphaAxis(CountUnshared(a, axes))
    ensures Pattern(n, axes)[b] == AlphaAxis(CountUnshared(a, axes) + 1)
  {
    PatternAt(n, axes, a);
    PatternAt(n, axes, b);
    CountUnsharedGap(axes, a, b);
  }

  lemma {:induction false} CountUnsharedGap(axes: seq<int>, a: nat, b: nat)
    requires a < b && a !in axes
    requires forall c :: a < c < b ==> c in axes
    ensures CountUnshared(b, axes) == CountUnshared(a, axes) + 1
  {
    if b > a + 1 {
      CountUnsharedGap(axes, a, b - 1);
    }
  }

  lemma {:induction false} CountUnsharedBelow(n: nat, axes: seq<int>, a: nat)
    requires a < n && a !in axes
    ensures CountUnshared(a, axes) < CountUnshared(n, axes)
  {
    if a < n - 1 {
      CountUnsharedBelow(n - 1, axes, a);
    }
  }

  /** The StopIteration of next(axes) once the axes of alpha run out. */
  datatype PatternError = AlphaAxesExhausted

  /**
   * The pattern PReLU _apply builds for an input of rank n when alpha has
   * alphaRank axes: each unshared input axis draws the next axis from
   * iter(range(ndim(alpha))), so an input with more unshared axes than
   * alpha has raises StopIteration.
   */
  function PReLUPattern(n: nat, axes: seq<int>, alphaRank: nat): (r: Result<seq<PatternEntry>, PatternError>)
    ensures r.Err? <==> CountUnshared(n, axes) > alphaRank
    ensures r.Ok? ==> |r.value| == n && forall a :: 0 <= a < n ==> (r.value[a] == Broadcast <==> a in axes)
    ensures r.Ok? ==> forall a :: 0 <= a < n && r.value[a].AlphaAxis? ==> r.value[a].k < alphaRank
  {
    if CountUnshared(n, axes) > alphaRank then Err(AlphaAxesExhausted)
    else
      PatternAlphaBelow(n, axes);
      Ok(Pattern(n, axes))
  }

  /** Every alpha axis the pattern names lies below the number of unshared axes. */
  lemma PatternAlphaBelow(n: nat, axes: seq<int>)
    ensures forall a :: 0 <= a < n ==> (Pattern(n, axes)[a] == Broadcast <==> a in axes)
    ensures forall a :: 0 <= a < n && Pattern(n, axes)[a].AlphaAxis? ==> Pattern(n, axes)[a].k < CountUnshared(n, axes)
  {
    forall a | 0 <= a < n
      ensures Pattern(n, axes)[a] == Broadcast <==> a in axes
      ensures Pattern(n, axes)[a].AlphaAxis? ==> Pattern(n, axes)[a].k < CountUnshared(n, axes)
    {
      PatternAt(n, axes, a);
      if a !in axes {
        CountUnsharedBelow(n, axes, a);
      }
    }
  }

  /**
   * Applied to an input of the rank alpha was created for, the pattern
   * never runs out of alpha axes and uses each of them.
   */
  lemma PatternFitsAlpha(shape: Dims, axes: seq<int>)
    requires AlphaShape(shape, axes).Ok?
    ensures PReLUPattern(|shape|, axes, |AlphaShape(shape, axes).value|) == Ok(Pattern(|shape|, axes))
    ensures CountUnshared(|shape|, axes) == |AlphaShape(shape, axes).value|
  {
    UnsharedLength(shape, axes);
  }

  /**
   * With 'auto' settled on an input of rank 2, axes (0,) are shared and
   * alpha has one axis; a later input of rank 3 runs out of alpha axes at
   * axis 2.
   */
  lemma PatternExhaustedExample()
    ensures NormaliseAxes(Auto, 2) == [0]
    ensures AlphaShape([Some(8), Some(5)], [0]) == Ok([5])
    ensures PReLUPattern(2, [0], 1) == Ok([Broadcast, AlphaAxis(0)])
    ensures PReLUPattern(3, [0], 1) == Err(AlphaAxesExhausted)
  {
    var s: Dims := [Some(8), Some(5)];
    assert s[..1] == [Some(8)] && [Some(8)][..0] == [];
    assert Unshared(s, [0]) == [Some(5)];
    assert CountUnshared(2, [0]) == 1;
    assert CountUnshared(1, [0]) == 0 && CountUnshared(3, [0]) == 2;
    var r := AlphaShape(s, [0]);
    assert r.Ok? && |r.value| == 1 && r.value[0] == 5;
    assert r.value == [5];
    assert Pattern(1, [0]) == [Broadcast];
    assert Pattern(2, [0]) == [Broadcast, AlphaAxis(0)];
  }

  // ---------------------------------------------------------------- slicing

  /** An element of the slice tuple: an integer index or a slice object. */
  datatype Index = At(i: int) | Slice(start: Option<int>, stop: Option<int>, step: Option<int>)

  datatype SliceError = TooManyIndices | ZeroStep

  function StepOf(idx: Index): int
    requires idx.Slice?
  {
    if idx.step == None then 1 else idx.step.value
  }

  /** One bound of slice.indices(length), clamped as Python does for the sign of the step. */
  function Bound(v: Option<int>, default: int, step: int, length: nat): (r: int)
    ensures v != None ==> (if step < 0 then -1 else 0) <= r <= (if step < 0 then length - 1 else length)
  {
    match v
    case None => default
    case Some(x) =>
      var y := if x < 0 then x + length else x;
      if y < 0 then (if step < 0 then -1 else 0)
      else if y >= length then (if step < 0 then length - 1 else length)
      else y
  }

  /** slice.indices(length): the start and stop. */
  function Indices(idx: Index, length: nat): (r: (int, int))
    requires idx.Slice? && StepOf(idx) != 0
  {
    var step := StepOf(idx);
    (Bound(idx.start, if step < 0 then length - 1 else 0, step, length),
     Bound(idx.stop, if step < 0 then -1 else length, step, length))
  }

  /** The number of elements a slice selects from an axis of that length. */
  function SliceLength(idx: Index, length: nat): (r: nat)
    requires idx.Slice? && StepOf(idx) != 0
  {
    var (start, stop) := Indices(idx, length);
    var step := StepOf(idx);
    if step > 0 then (if start >= stop then 0 else (stop - start - 1) / step + 1)
    else (if stop >= start then 0 else (start - stop - 1) / (-step) + 1)
  }

  /** The length counts the positions start, start + step, ... strictly before stop. */
  lemma SliceLengthCounts(idx: Index, length: nat)
    requires idx.Slice? && StepOf(idx) > 0
    ensures var (start, stop) := Indices(idx, length);
      var n := SliceLength(idx, length);
      (n > 0 ==> start + (n - 1) * StepOf(idx) < stop) && start + n * StepOf(idx) >= stop
  {
    var (start, stop) := Indices(idx, length);
    var step := StepOf(idx);
    if start < stop {
      var q := (stop - start - 1) / step;
      var m := (stop - start - 1) % step;
      assert stop - start - 1 == q * step + m;
      assert start + (q + 1) * step == start + q * step + step;
    }
  }

  /** The rank of the sliced tensor: one axis per slice, plus the axes beyond the slice tuple. */
  function SlicedRank(shape: Dims, index: seq<Index>): nat
    requires |index| <= |shape|
  {
    |shape| - |index| + CountSlices(index)
  }

  function CountSlices(index: seq<Index>): nat
  {
    if index == [] then 0 else CountSlices(index[..|index| - 1]) + (if index[|index| - 1].Slice? then 1 else 0)
  }

  /** The new size of one axis as the loop body computes it: None to drop it. */
  function AxisAsWritten(dim: Option<nat>, idx: Index): (r: Option<Option<nat>>)
    requires idx.Slice? && dim != None ==> StepOf(idx) != 0
  {
    if idx.At? then None
    else if dim != None then
      var (start, stop) := Indices(idx, dim.value);
      if stop - start > 0 then Some(Some(stop - start)) else None
    else Some(None)
  }

  /** The sizes kept by the loop over zip(shape, slice). */
  function KeptAsWritten(dims: Dims, index: seq<Index>): (r: Dims)
    requires |dims| == |index| && NoZeroStepOnKnown(dims, index)
  {
    if index == [] then []
    else
      var n := |index| - 1;
      var a := AxisAsWritten(dims[n], index[n]);
      KeptAsWritten(dims[..n], index[..n]) + (if a == None then [] else [a.value])
  }

  predicate NoZeroStep(index: seq<Index>)
  {
    forall i :: 0 <= i < |index| && index[i].Slice? ==> StepOf(index[i]) != 0
  }

  /**
   * No slice with step 0 falls on an axis of known size: only there does
   * the loop call slice.indices, which rejects a zero step.
   */
  predicate NoZeroStepOnKnown(dims: Dims, index: seq<Index>)
    requires |index| <= |dims|
  {
    forall i :: 0 <= i < |index| && index[i].Slice? && dims[i] != None ==> StepOf(index[i]) != 0
  }

  /**
   * The shape NNSliceOps._apply records: the kept sizes, followed by the
   * axes beyond the slice tuple when fewer sizes than the sliced rank were
   * kept. Indexing with too many indices fails first; a zero step fails in
   * slice.indices on an axis of known size, and an axis of unknown size
   * stays None whatever its slice.
   */
  function SliceShapeAsWritten(shape: Dims, index: seq<Index>): (r: Result<Dims, SliceError>)
    ensures r.Ok? <==> |index| <= |shape| && NoZeroStepOnKnown(shape, index)
    ensures |index| > |shape| ==> r == Err(TooManyIndices)
    ensures |index| <= |shape| && r.Err? ==> r == Err(ZeroStep)
    ensures r.Ok? ==> |r.value| <= SlicedRank(shape, index)
  {
    if |index| > |shape| then Err(TooManyIndices)
    else if !NoZeroStepOnKnown(shape, index) then Err(ZeroStep)
    else
      var kept := KeptAsWritten(shape[..|index|], index);
      KeptAsWrittenLength(shape[..|index|], index);
      if |kept| < SlicedRank(shape, index) then Ok(kept + shape[|index|..]) else Ok(kept)
  }

  /** The loop of NNSliceOps._apply over zip(shape, slice), appending to the new shape. */
  method SliceOutputShape(shape: Dims, index: seq<Index>) returns (r: Result<Dims, SliceError>)
    ensures r == SliceShapeAsWritten(shape, index)
  {
    if |index| > |shape| {
      return Err(TooManyIndices);
    }
    var newShape: Dims := [];
    for i := 0 to |index|
      invariant NoZeroStepOnKnown(shape[..i], index[..i])
      invariant newShape == KeptAsWritten(shape[..i], index[..i])
    {
      assert shape[..i + 1][..i] == shape[..i] && index[..i + 1][..i] == index[..i];
      var dim := shape[i];
      var idx := index[i];
      if idx.At? {
        // an integer index removes the axis
      } else if dim != None {
        if StepOf(idx) == 0 {
          // slice.indices rejects a zero step
          assert !NoZeroStepOnKnown(shape, index) by {
            assert index[i].Slice? && shape[i] != None && StepOf(index[i]) == 0;
          }
          return Err(ZeroStep);
        }
        var (start, stop) := Indices(idx, dim.value);
        if stop - start > 0 {
          newShape := newShape + [Some(stop - start)];
        }
      } else {
        newShape := newShape + [None];
      }
    }
    assert shape[..|index|][..|index|] == shape[..|index|] && index[..|index|] == index;
    if |newShape| < SlicedRank(shape, index) {
      newShape := newShape + shape[|index|..];
    }
    r := Ok(newShape);
  }

  /** The kept sizes never outnumber the slices. */
  lemma {:induction false} KeptAsWrittenLength(dims: Dims, index: seq<Index>)
    requires |dims| == |index| && NoZeroStepOnKnown(dims, index)
    ensures |KeptAsWritten(dims, index)| <= CountSlices(index)
  {
    if index != [] {
      var n := |index| - 1;
      KeptAsWrittenLength(dims[..n], index[..n]);
    }
  }

  /** When the slice tuple is shorter than the shape, the axes beyond it are appended unchanged. */
  lemma SliceShapeAppendsRest(shape: Dims, index: seq<Index>)
    requires |index| < |shape| && NoZeroStepOnKnown(shape, index)
    ensures SliceShapeAsWritten(shape, index) == Ok(KeptAsWritten(shape[..|index|], index) + shape[|index|..])
  {
    KeptAsWrittenLength(shape[..|index|], index);
  }

  /** The size of one axis of the sliced tensor: None when the axis disappears. */
  function AxisShape(dim: Option<nat>, idx: Index): (r: Option<Option<nat>>)
    requires idx.Slice? ==> StepOf(idx) != 0
    ensures r == None <==> idx.At?
  {
    if idx.At? then None
    else if dim != None then Some(Some(SliceLength(idx, dim.value)))
    else Some(None)
  }

  function KeptShape(dims: Dims, index: seq<Index>): (r: Dims)
    requires |dims| == |index| && NoZeroStep(index)
  {
    if index == [] then []
    else
      var n := |index| - 1;
      var a := AxisShape(dims[n], index[n]);
      KeptShape(dims[..n], index[..n]) + (if a == None then [] else [a.value])
  }

  /**
   * The shape of the sliced tensor: the slice lengths, the step included,
   * empty axes kept, so that it has exactly the rank of the sliced tensor.
   */
  function SliceShape(shape: Dims, index: seq<Index>): (r: Result<Dims, SliceError>)
    ensures r.Ok? <==> |index| <= |shape| && NoZeroStep(index)
    ensures |index| > |shape| ==> r == Err(TooManyIndices)
    ensures r.Ok? ==> |r.value| == SlicedRank(shape, index) && r.value[CountSlices(index)..] == shape[|index|..]
  {
    if |index| > |shape| then Err(TooManyIndices)
    else if !NoZeroStep(index) then Err(ZeroStep)
    else
      KeptShapeLength(shape[..|index|], index);
      Ok(KeptShape(shape[..|index|], index) + shape[|index|..])
  }

  lemma {:induction false} KeptShapeLength(dims: Dims, index: seq<Index>)
    requires |dims| == |index| && NoZeroStep(index)
    ensures |KeptShape(dims, index)| == CountSlices(index)
  {
    if index != [] {
      var n := |index| - 1;
      KeptShapeLength(dims[..n], index[..n]);
    }
  }

  /** Where every slice has step 1 and selects something, the recorded shape is the true one. */
  lemma {:induction false} AsWrittenAgrees(dims: Dims, index: seq<Index>)
    requires |dims| == |index| && NoZeroStep(index)
    requires forall i :: 0 <= i < |index| && index[i].Slice? ==>
      StepOf(index[i]) == 1 && (dims[i] != None ==> SliceLength(index[i], dims[i].value) > 0)
    ensures KeptAsWritten(dims, index) == KeptShape(dims, index)
  {
    if index != [] {
      var n := |index| - 1;
      AsWrittenAgrees(dims[..n], index[..n]);
    }
  }

  /**
   * Where every slice has step 1 and selects something from each known size,
   * the whole recorded shape is the true one.
   */
  lemma AsWrittenAgreesShape(shape: Dims, index: seq<Index>)
    requires |index| <= |shape| && NoZeroStep(index)
    requires forall i :: 0 <= i < |index| && index[i].Slice? ==>
      StepOf(index[i]) == 1 && (shape[i] != None ==> SliceLength(index[i], shape[i].value) > 0)
    ensures SliceShapeAsWritten(shape, index) == SliceShape(shape, index)
  {
    var dims := shape[..|index|];
    assert forall i :: 0 <= i < |index| ==> dims[i] == shape[i];
    AsWrittenAgrees(dims, index);
    KeptShapeLength(dims, index);
    var kept := KeptShape(dims, index);
    if |index| == |shape| {
      assert shape[|index|..] == [] && kept + shape[|index|..] == kept;
    }
  }

  /**
   * A slice with step 2 over 10 elements is recorded as 10 long, but selects
   * 5; the reversing slice ::-1 over 5 elements is recorded as -5 long, so
   * its axis is dropped, but selects all 5.
   */
  lemma SliceStepIgnored()
    ensures SliceShapeAsWritten([Some(10)], [Slice(Some(0), Some(10), Some(2))]) == Ok([Some(10)])
    ensures SliceShape([Some(10)], [Slice(Some(0), Some(10), Some(2))]) == Ok([Some(5)])
    ensures SliceShapeAsWritten([Some(5)], [Slice(None, None, Some(-1))]) == Ok([])
    ensures SliceShape([Some(5)], [Slice(None, None, Some(-1))]) == Ok([Some(5)])
  {
    ReversedSlice();
    var shape: Dims := [Some(10)];
    var index := [Slice(Some(0), Some(10), Some(2))];
    assert shape[..1] == shape && shape[1..] == [] && index[..0] == [];
    assert CountSlices(index) == 1;
    assert NoZeroStep(index);
    assert KeptAsWritten(shape, index) == [Some(10)];
    assert KeptShape(shape, index) == [Some(5)];
    assert KeptShape(shape[..1], index) + shape[1..] == [Some(5)];
  }

  lemma ReversedSlice()
    ensures SliceShapeAsWritten([Some(5)], [Slice(None, None, Some(-1))]) == Ok([])
    ensures SliceShape([Some(5)], [Slice(None, None, Some(-1))]) == Ok([Some(5)])
  {
    var shape: Dims := [Some(5)];
    var index := [Slice(None, None, Some(-1))];
    assert shape[..1] == shape && shape[1..] == [] && index[..0] == [];
    assert NoZeroStep(index);
    assert CountSlices(index) == 1;
    assert Indices(index[0], 5) == (4, -1);
    assert KeptAsWritten(shape, index) == [];
    assert KeptShape(shape, index) == [Some(5)];
    assert KeptShape(shape[..1], index) + shape[1..] == [Some(5)];
  }

  /**
   * A zero step on an axis of unknown size never reaches slice.indices: the
   * axis is recorded as None. On an axis of known size it raises.
   */
  lemma ZeroStepOnUnknownKept()
    ensures SliceShapeAsWritten([None, Some(3)], [Slice(None, None, Some(0))]) == Ok([None, Some(3)])
    ensures SliceShapeAsWritten([Some(4), Some(3)], [Slice(None, None, Some(0))]) == Err(ZeroStep)
  {
    var shape: Dims := [None, Some(3)];
    var index := [Slice(None, None, Some(0))];
    assert shape[..1] == [None] && shape[1..] == [Some(3)] && index[..0] == [];
    assert CountSlices(index) == 1;
    assert NoZeroStepOnKnown(shape, index);
    assert KeptAsWritten([None], index) == [None];
    assert SlicedRank(shape, index) == 2;
    assert KeptAsWritten(shape[..1], index) + shape[1..] == [None, Some(3)];
    var known: Dims := [Some(4), Some(3)];
    assert !NoZeroStepOnKnown(known, index) by {
      assert index[0].Slice? && known[0] != None && StepOf(index[0]) == 0;
    }
  }

  /** An empty slice drops its axis from the recorded shape, though the tensor keeps it with size 0. */
  lemma EmptySliceDropped()
    ensures SliceShapeAsWritten([Some(5), Some(3)], [Slice(Some(2), Some(2), None)]) == Ok([Some(3)])
    ensures SliceShape([Some(5), Some(3)], [Slice(Some(2), Some(2), None)]) == Ok([Some(0), Some(3)])
  {
    var shape: Dims := [Some(5), Some(3)];
    var index := [Slice(Some(2), Some(2), None)];
    assert shape[..1] == [Some(5)] && shape[1..] == [Some(3)] && index[..0] == [];
    assert CountSlices(index) == 1;
    assert NoZeroStep(index);
    assert KeptAsWritten([Some(5)], index) == [];
    assert KeptShape([Some(5)], index) == [Some(0)];
    assert KeptAsWritten(shape[..1], index) + shape[1..] == [Some(3)];
    assert KeptShape(shape[..1], index) + shape[1..] == [Some(0), Some(3)];
  }
}
