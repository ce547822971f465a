/**
 * The bookkeeping parts of the theano backend helpers
 * (odin/backend/theano/helpers.py): order-preserving de-duplication,
 * shape sanitisation around shape inference, device-target naming and the
 * naming, scoping and registry of created variables.
 */
module Helpers {
  import opened Wrappers
  import Decimal
  import Stats

  // ---------------------------------------------------------------- _unique

  /** The keys of the items of s, in order. */
  function KeySeq<T, K>(s: seq<T>, key: T -> K): (r: seq<K>)
    ensures |r| == |s| && forall i :: 0 <= i < |s| ==> r[i] == key(s[i])
  {
    seq(|s|, i requires 0 <= i < |s| => key(s[i]))
  }

  /** The items of s whose key was not seen among the items before them. */
  function DedupBy<T, K(==)>(s: seq<T>, key: T -> K): seq<T>
  {
    if s == [] then []
    else
      var n := |s| - 1;
      if key(s[n]) in KeySeq(s[..n], key) then DedupBy(s[..n], key) else DedupBy(s[..n], key) + [s[n]]
  }

  /** The position of the first item of s whose key is v. */
  function FirstIndex<T, K(==)>(s: seq<T>, key: T -> K, v: K): (i: nat)
    requires v in KeySeq(s, key)
    ensures i < |s| && key(s[i]) == v
    ensures forall j :: 0 <= j < i ==> key(s[j]) != v
  {
    var n := |s| - 1;
    if v in KeySeq(s[..n], key) then
      assert KeySeq(s[..n], key) == KeySeq(s, key)[..n];
      FirstIndex(s[..n], key, v)
    else
      assert forall j :: 0 <= j < n ==> KeySeq(s[..n], key)[j] == key(s[j]);
      n
  }

  function Identity<T>(x: T): T { x }

  /** _unique(seq): a loop over the items with a set of the items seen so far. */
  method Unique<T(==)>(s: seq<T>) returns (r: seq<T>)
    ensures r == DedupBy(s, Identity)
  {
    r := [];
    var seen: set<T> := {};
    for i := 0 to |s|
      invariant r == DedupBy(s[..i], Identity)
      invariant forall v :: v in seen <==> v in s[..i]
    {
      assert s[..i + 1][..i] == s[..i];
      assert KeySeq(s[..i], Identity) == s[..i];
      if s[i] !in seen {
        seen := seen + {s[i]};
        r := r + [s[i]];
      }
    }
    assert s[..|s|] == s;
  }

  /** _unique(seq, key): the same loop over the key values of the items. */
  method UniqueBy<T, K(==)>(s: seq<T>, key: T -> K) returns (r: seq<T>)
    ensures r == DedupBy(s, key)
  {
    r := [];
    var seen: set<K> := {};
    for i := 0 to |s|
      invariant r == DedupBy(s[..i], key)
      invariant forall v :: v in seen ==> v in KeySeq(s[..i], key)
      invariant forall v :: v in KeySeq(s[..i], key) ==> v in seen
    {
      assert s[..i + 1][..i] == s[..i];
      var val := key(s[i]);
      assert KeySeq(s[..i + 1], key) == KeySeq(s[..i], key) + [val];
      assert DedupBy(s[..i + 1], key) == if val in KeySeq(s[..i], key) then r else r + [s[i]];
      if val !in seen {
        seen := seen + {val};
        r := r + [s[i]];
      }
    }
    assert s[..|s|] == s;
  }

  /**
   * The de-duplicated items have pairwise distinct keys, cover every key of
   * the input, and are the first items with their keys, in input order.
   */
  lemma {:induction false} DedupBySpec<T, K>(s: seq<T>, key: T -> K)
    ensures var r := DedupBy(s, key);
      (forall i, j :: 0 <= i < j < |r| ==> key(r[i]) != key(r[j]))
      && (forall v :: v in KeySeq(r, key) <==> v in KeySeq(s, key))
      && (forall i :: 0 <= i < |r| ==>
            key(r[i]) in KeySeq(s, key) && r[i] == s[FirstIndex(s, key, key(r[i]))])
      && (forall i, j :: 0 <= i < j < |r| ==>
            FirstIndex(s, key, key(r[i])) < FirstIndex(s, key, key(r[j])))
  {
    if s != [] {
      var n := |s| - 1;
      var p := s[..n];
      DedupBySpec(p, key);
      var q := DedupBy(p, key);
      assert KeySeq(s, key) == KeySeq(p, key) + [key(s[n])];
      forall v | v in KeySeq(p, key) ensures FirstIndex(s, key, v) == FirstIndex(p, key, v) && s[FirstIndex(p, key, v)] == p[FirstIndex(p, key, v)] {
      }
      if key(s[n]) !in KeySeq(p, key) {
        var r := q + [s[n]];
        assert KeySeq(r, key) == KeySeq(q, key) + [key(s[n])];
        forall i | 0 <= i < |q| ensures FirstIndex(s, key, key(r[i])) < n {
          assert r[i] == q[i];
        }
      }
    }
  }

  /** The doctest (1, 2, 1, 3) gives (1, 2, 3). */
  lemma UniqueExample()
    ensures DedupBy([1, 2, 1, 3], Identity) == [1, 2, 3]
  {
    var s := [1, 2, 1, 3];
    assert s[..3][..2][..1] == [1] && s[..3][..2] == [1, 2] && s[..3] == [1, 2, 1];
    assert DedupBy([1], Identity) == [1];
    assert KeySeq([1], Identity) == [1];
    assert DedupBy([1, 2], Identity) == [1, 2];
    assert KeySeq([1, 2], Identity) == [1, 2];
    assert DedupBy([1, 2, 1], Identity) == [1, 2];
    assert KeySeq([1, 2, 1], Identity) == [1, 2, 1];
  }

  /** The doctest with key=len keeps 'cat' and 'mouse' out of 'cat', 'mouse', 'dog', 'hen'. */
  lemma UniqueByLenExample()
    ensures DedupBy(["cat", "mouse", "dog", "hen"], (w: string) => |w|) == ["cat", "mouse"]
  {
    var w := ["cat", "mouse", "dog", "hen"];
    var len := (w: string) => |w|;
    assert w[..3][..2][..1] == ["cat"] && w[..3][..2] == ["cat", "mouse"] && w[..3] == ["cat", "mouse", "dog"];
    assert KeySeq(["cat", "mouse"], len) == [3, 5];
    assert KeySeq(["cat", "mouse", "dog"], len) == [3, 5, 3];
  }

  // ---------------------------------------------------------------- auto_infer_shape

  /** A dimension of a shape: a size, or None when unknown. */
  type Shape = seq<Option<int>>

  /** The dummy input allocated for a shape: unknown or negative sizes become 0. */
  function AllocShape(shape: Shape): (r: seq<nat>)
    ensures |r| == |shape|
    ensures forall i :: 0 <= i < |shape| ==>
      (r[i] == 0 <==> shape[i] == None || shape[i].value <= 0)
      && (shape[i] != None && shape[i].value >= 0 ==> r[i] == shape[i].value)
  {
    seq(|shape|, i requires 0 <= i < |shape| =>
      match shape[i]
      case None => 0
      case Some(s) => if s < 0 then 0 else s)
  }

  /** The reported output shape: zero sizes become None. */
  function ReportShape(dims: seq<nat>): (r: Shape)
    ensures |r| == |dims|
    ensures forall i :: 0 <= i < |dims| ==>
      (r[i] == None <==> dims[i] == 0) && (r[i] != None ==> r[i].value == dims[i])
  {
    seq(|dims|, i requires 0 <= i < |dims| => if dims[i] == 0 then None else Some(dims[i]))
  }

  /** Positive sizes survive allocation and reporting; every other size comes back as None. */
  lemma ReportAllocShape(shape: Shape)
    ensures var r := ReportShape(AllocShape(shape));
      |r| == |shape|
      && forall i :: 0 <= i < |shape| ==>
           r[i] == (if shape[i] != None && shape[i].value > 0 then shape[i] else None)
  {
    var a := AllocShape(shape);
    var r := ReportShape(a);
    forall i | 0 <= i < |shape|
      ensures r[i] == (if shape[i] != None && shape[i].value > 0 then shape[i] else None)
    {
      if shape[i] != None && shape[i].value > 0 {
        assert a[i] == shape[i].value;
      }
    }
  }

  // ---------------------------------------------------------------- _check_target

  /** The target argument: None, a number, or any other value (given by its str()). */
  datatype Target = NoTarget | Number(x: real) | Other(text: string)

  datatype TargetError = ZeroDivision

  /** The device name for target: None without multigpu, otherwise 'dev<k>' or str(target). */
  function CheckTarget(multigpu: bool, nprocessors: nat, target: Target): (r: Result<Option<string>, TargetError>)
    ensures !multigpu ==> r == Ok(None)
    ensures multigpu && target == NoTarget ==> r == Ok(Some("dev0"))
    ensures multigpu && target.Other? ==> r == Ok(Some(target.text))
    ensures multigpu && target.Number? ==> (r.Err? <==> nprocessors == 0)
  {
    if !multigpu then Ok(None)
    else
      match target
      case NoTarget => Ok(Some("dev0"))
      case Number(x) => if nprocessors == 0 then Err(ZeroDivision) else Ok(Some("dev" + Decimal.Text(Stats.Truncate(x) % nprocessors)))
      case Other(text) => Ok(Some(text))
  }

  /** A numeric target names one of the devices 0 .. nprocessors - 1: the one int(x) wraps to. */
  lemma CheckTargetDevice(nprocessors: nat, x: real)
    requires nprocessors > 0
    ensures var r := CheckTarget(true, nprocessors, Number(x));
      r.Ok? && r.value.Some? && |r.value.value| >= 3 && r.value.value[..3] == "dev"
      && var k := Decimal.FromDigits(Decimal.TextDigits(r.value.value[3..]));
         k < nprocessors && k == Stats.Truncate(x) % nprocessors
  {
    var k := Stats.Truncate(x) % nprocessors;
    var name := "dev" + Decimal.Text(k);
    assert name[3..] == Decimal.Text(k);
    Decimal.TextRoundTrip(k);
  }

  // ---------------------------------------------------------------- variables

  /** A created variable, with its value abstracted to its shape and contents. */
  datatype Variable = Variable(name: string, shape: seq<nat>, value: seq<real>)

  datatype VariableError = ShapeMismatch(existing: seq<nat>, given: seq<nat>)

  /** 'VAR_%d' % id */
  function AutoName(id: nat): (r: string)
    ensures |r| > 4 && r[..4] == "VAR_" && r[4..] == Decimal.Text(id)
  {
    "VAR_" + Decimal.Text(id)
  }

  /** Distinct ids give distinct automatic names. */
  lemma AutoNameInjective(a: nat, b: nat)
    requires a != b
    ensures AutoName(a) != AutoName(b)
  {
    Decimal.TextRoundTrip(a);
    Decimal.TextRoundTrip(b);
    assert AutoName(a)[4..] == Decimal.Text(a);
    assert AutoName(b)[4..] == Decimal.Text(b);
  }

  /** The name under a scope: 'scope/name', or the name itself at top level. */
  function ScopedName(scope: string, name: string): (r: string)
    ensures scope == "" ==> r == name
    ensures scope != "" ==> |r| == |scope| + 1 + |name| && r[..|scope|] == scope && r[|scope|] == '/' && r[|scope| + 1..] == name
  {
    if |scope| > 0 then scope + "/" + name else name
  }

  /**
   * The registry step of variable() for a full name: a registered variable
   * of another shape is refused and nothing changes; one of the same shape
   * takes the new value; otherwise a new variable is registered.
   */
  function Register(created: map<string, Variable>, full: string, shape: seq<nat>, value: seq<real>)
    : (o: (Result<Variable, VariableError>, map<string, Variable>))
    ensures o.0.Err? <==> full in created && created[full].shape != shape
    ensures o.0.Err? ==> o.0.error == ShapeMismatch(created[full].shape, shape) && o.1 == created
    ensures o.0.Ok? ==> o.1 == created[full := o.0.value] && o.0.value.shape == shape && o.0.value.value == value
    ensures o.0.Ok? && full in created ==> o.0.value.name == created[full].name
    ensures full !in created ==> o.0 == Ok(Variable(full, shape, value))
    ensures (forall n :: n in created ==> created[n].name == n) ==>
      && (forall n :: n in o.1 ==> o.1[n].name == n)
      && (o.0.Ok? ==> o.0.value.name == full)
  {
    if full in created then
      var v := created[full];
      if v.shape != shape then (Err(ShapeMismatch(v.shape, shape)), created)
      else (Ok(v.(value := value)), created[full := v.(value := value)])
    else (Ok(Variable(full, shape, value)), created[full := Variable(full, shape, value)])
  }

  /**
   * The module state behind variable() and variable_scope(): the current
   * scope, the next automatic id and the registry of created variables.
   */
  class Registry {
    var scope: string
    var nextId: nat
    var created: map<string, Variable>

    /** Every registered variable is registered under its own name. */
    ghost predicate Valid()
      reads this
    {
      forall n :: n in created ==> created[n].name == n
    }

    constructor ()
      ensures Valid()
      ensures scope == "" && nextId == 0 && created == map[]
    {
      scope := "";
      nextId := 0;
      created := map[];
    }

    /** Entering variable_scope(s): the previous scope is returned for the exit. */
    method EnterScope(s: string) returns (saved: string)
      modifies this`scope
      ensures saved == old(scope) && scope == s
    {
      saved := scope;
      scope := s;
    }

    /** Leaving variable_scope: the previous scope comes back. */
    method ExitScope(saved: string)
      modifies this`scope
      ensures scope == saved
    {
      scope := saved;
    }

    /**
     * variable(value, name): names an unnamed variable 'VAR_<id>' and
     * advances the id (even when the registry step then raises), prefixes
     * the current scope, then performs the registry step for that name.
     */
    method NewVariable(shape: seq<nat>, value: seq<real>, name: Option<string>) returns (r: Result<Variable, VariableError>)
      requires Valid()
      modifies this`nextId, this`created
      ensures Valid()
      ensures name == None ==> nextId == old(nextId) + 1
      ensures name != None ==> nextId == old(nextId)
      ensures (r, created) == Register(old(created), ScopedName(scope, if name == None then AutoName(old(nextId)) else name.value), shape, value)
      ensures r.Ok? ==> r.value.name == ScopedName(scope, if name == None then AutoName(old(nextId)) else name.value)
    {
      var base: string;
      if name == None {
        base := AutoName(nextId);
        nextId := nextId + 1;
      } else {
        base := name.value;
      }
      var full := ScopedName(scope, base);
      if full in created {
        var v := created[full];
        if v.shape != shape {
          return Err(ShapeMismatch(v.shape, shape));
        }
        v := v.(value := value);
        created := created[full := v];
        return Ok(v);
      }
      var v := Variable(full, shape, value);
      created := created[full := v];
      r := Ok(v);
    }

    /**
     * variable() inside `with variable_scope(s)`: the previous scope comes
     * back after a normal exit only. The context manager has no finally, so
     * when variable() raises, the scope stays s.
     */
    method NewVariableInScope(s: string, shape: seq<nat>, value: seq<real>, name: Option<string>)
      returns (r: Result<Variable, VariableError>)
      requires Valid()
      modifies this`scope, this`nextId, this`created
      ensures Valid()
      ensures r.Ok? ==> scope == old(scope)
      ensures r.Err? ==> scope == s
      ensures name == None ==> nextId == old(nextId) + 1
      ensures name != None ==> nextId == old(nextId)
      ensures (r, created) == Register(old(created), ScopedName(s, if name == None then AutoName(old(nextId)) else name.value), shape, value)
      ensures r.Ok? ==> r.value.name == ScopedName(s, if name == None then AutoName(old(nextId)) else name.value)
    {
      var saved := EnterScope(s);
      r := NewVariable(shape, value, name);
      if r.Err? {
        return;
      }
      ExitScope(saved);
    }

    /** The same with the scope restored in a finally clause: the previous scope comes back however the call ends. */
    method NewVariableInScopeRestoring(s: string, shape: seq<nat>, value: seq<real>, name: Option<string>)
      returns (r: Result<Variable, VariableError>)
      requires Valid()
      modifies this`scope, this`nextId, this`created
      ensures Valid()
      ensures scope == old(scope)
      ensures name == None ==> nextId == old(nextId) + 1
      ensures name != None ==> nextId == old(nextId)
      ensures (r, created) == Register(old(created), ScopedName(s, if name == None then AutoName(old(nextId)) else name.value), shape, value)
      ensures r.Ok? ==> r.value.name == ScopedName(s, if name == None then AutoName(old(nextId)) else name.value)
    {
      var saved := EnterScope(s);
      r := NewVariable(shape, value, name);
      ExitScope(saved);
    }
  }

  /**
   * Creating 'w' of shape (2,) under scope 'layer', then 'w' of shape (3,)
   * under the same scope: the second call raises, and the current scope is
   * left at 'layer' instead of going back to the top level.
   */
  method ScopeLeakExample() returns (first: Result<Variable, VariableError>, second: Result<Variable, VariableError>, after: string)
    ensures first.Ok? && second == Err(ShapeMismatch([2], [3])) && after == "layer"
  {
    var reg := new Registry();
    first := reg.NewVariableInScope("layer", [2], [0.0, 0.0], Some("w"));
    second := reg.NewVariableInScope("layer", [3], [0.0, 0.0, 0.0], Some("w"));
    after := reg.scope;
  }

  /** The same two calls with the scope restored in a finally clause leave the top-level scope current. */
  method ScopeRestoredExample() returns (first: Result<Variable, VariableError>, second: Result<Variable, VariableError>, after: string)
    ensures first.Ok? && second == Err(ShapeMismatch([2], [3])) && after == ""
  {
    var reg := new Registry();
    first := reg.NewVariableInScopeRestoring("layer", [2], [0.0, 0.0], Some("w"));
    second := reg.NewVariableInScopeRestoring("layer", [3], [0.0, 0.0, 0.0], Some("w"));
    after := reg.scope;
  }

  /** Two unnamed variables created one after the other at the same scope get different names. */
  lemma AutoNamesDiffer(scope: string, id: nat)
    ensures ScopedName(scope, AutoName(id)) != ScopedName(scope, AutoName(id + 1))
  {
    AutoNameInjective(id, id + 1);
    var a := ScopedName(scope, AutoName(id));
    var b := ScopedName(scope, AutoName(id + 1));
    if scope != "" {
      assert a[|scope| + 1..] == AutoName(id);
      assert b[|scope| + 1..] == AutoName(id + 1);
    }
  }
}
