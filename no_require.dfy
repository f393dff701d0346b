/**
 * The module registry of noRequire.js: `define(name, deps, callback)` runs
 * a module's callback once its dependencies are registered and stores the
 * result under the module's name in the global `amdList`.
 *
 * A callback is not run here: it is a function from the exports of its
 * dependencies to what calling it does (returns an export or throws).
 */
module NoRequire {
  import opened JsValues

  /** What a module callback returns: a primitive, or an object (always truthy). */
  datatype Export = Primitive(v: Value) | Object(id: nat)

  predicate IsTruthy(e: Export)
  {
    e.Object? || Truthy(e.v)
  }

  /** The effect of calling a module callback. */
  datatype Outcome = Returns(result: Export) | Throws(error: Value)

  /** An argument of `define`: an array of names, a function, or any other value. */
  datatype Arg = Names(items: seq<Value>) | Callback(f: seq<Export> -> Outcome) | Plain(v: Value)

  /** `amdList[k]` is truthy. */
  predicate Has(amdList: map<string, Export>, k: string)
  {
    k in amdList && IsTruthy(amdList[k])
  }

  /** The outcome of one `define`: what it threw, if anything, and the registry after it. */
  datatype Defined = Defined(thrown: Option<JsError>, amdList: map<string, Export>)

  /** The dependency list a call uses and the argument it treats as the callback. */
  function DepsOf(deps: Arg): seq<Value>
  {
    if deps.Names? then deps.items else []
  }

  function CallbackOf(deps: Arg, callback: Arg): Arg
  {
    if deps.Names? then callback else deps
  }

  /** `deps.map(e => amdList[e])`. */
  function DepExports(amdList: map<string, Export>, ds: seq<Value>): (r: seq<Export>)
    requires forall i :: 0 <= i < |ds| ==> JsString(ds[i]) in amdList
    ensures |r| == |ds|
    ensures forall i :: 0 <= i < |ds| ==> r[i] == amdList[JsString(ds[i])]
  {
    seq(|ds|, i requires 0 <= i < |ds| => amdList[JsString(ds[i])])
  }

  /** Some listed dependency is not registered (`deps.some(e => !amdList[e])`). */
  function MissingDependency(amdList: map<string, Export>, ds: seq<Value>): (r: bool)
    ensures r <==> exists i :: 0 <= i < |ds| && !Has(amdList, JsString(ds[i]))
  {
    Any(ds, e => !Has(amdList, JsString(e)))
  }

  /** The messages `define` throws. */
  function NameRequired(): Value
  {
    Str("name required when using noRequire.")
  }

  function AlreadyLoaded(name: string): Value
  {
    Str(name + " already loaded.")
  }

  function DependenciesFirstError(name: string): Value
  {
    Str(name + " dependencies must be loaded first.")
  }

  /** `define(name, deps, callback)` on the registry `amdList`. */
  function DefineStep(amdList: map<string, Export>, name: Value, deps: Arg, callback: Arg): Defined
  {
    if !name.Str? || name.s == [] then
      Defined(Some(Thrown(NameRequired())), amdList)
    else if Has(amdList, name.s) then
      Defined(Some(Thrown(AlreadyLoaded(name.s))), amdList)
    else
      RunModule(amdList, name.s, DepsOf(deps), CallbackOf(deps, callback))
  }

  /** The rest of `define` once the name is known to be new: the dependency check and the call. */
  function RunModule(amdList: map<string, Export>, name: string, ds: seq<Value>, cb: Arg): Defined
  {
    if |ds| > 0 && MissingDependency(amdList, ds) then
      Defined(Some(Thrown(DependenciesFirstError(name))), amdList)
    else if !cb.Callback? then
      Defined(Some(TypeError), amdList)
    else
      Store(amdList, name, cb.f(DepExports(amdList, ds)))
  }

  /** What the callback's outcome does to the registry. */
  function Store(amdList: map<string, Export>, name: string, o: Outcome): Defined
  {
    match o
    case Throws(x) => Defined(Some(Thrown(x)), amdList)
    case Returns(e) => Defined(None, amdList[name := if IsTruthy(e) then e else Primitive(Bool(true))])
  }

  /** An empty or non-string name is refused and nothing is registered. */
  lemma AnonymousRejected(amdList: map<string, Export>, name: Value, deps: Arg, callback: Arg)
    requires !name.Str? || name.s == []
    ensures DefineStep(amdList, name, deps, callback)
            == Defined(Some(Thrown(NameRequired())), amdList)
  {
  }

  /** A name that is already registered is refused and its entry is kept. */
  lemma DuplicateRejected(amdList: map<string, Export>, name: string, deps: Arg, callback: Arg)
    requires name != [] && Has(amdList, name)
    ensures DefineStep(amdList, Str(name), deps, callback)
            == Defined(Some(Thrown(AlreadyLoaded(name))), amdList)
  {
  }

  /** A dependency that is not registered refuses the call and nothing is registered. */
  lemma MissingDependencyRejected(amdList: map<string, Export>, name: string, deps: seq<Value>, callback: Arg, i: nat)
    requires name != [] && !Has(amdList, name)
    requires i < |deps| && !Has(amdList, JsString(deps[i]))
    ensures DefineStep(amdList, Str(name), Names(deps), callback)
            == Defined(Some(Thrown(DependenciesFirstError(name))), amdList)
  {
  }

  /** A second argument that is not an array is the callback, and there are no dependencies. */
  lemma NonArrayIsCallback(amdList: map<string, Export>, name: Value, deps: Arg, callback: Arg)
    requires !deps.Names?
    ensures DefineStep(amdList, name, deps, callback) == DefineStep(amdList, name, Names([]), deps)
  {
  }

  /**
   * A call that does not throw registers `name` and nothing else: with the
   * callback's result, or `true` when that result is falsy.
   */
  lemma SuccessRegistersName(amdList: map<string, Export>, name: Value, deps: Arg, callback: Arg)
    ensures var d := DefineStep(amdList, name, deps, callback);
      d.thrown.None? ==>
        && name.Str? && name.s != [] && !Has(amdList, name.s)
        && (forall e :: e in DepsOf(deps) ==> Has(amdList, JsString(e)))
        && CallbackOf(deps, callback).Callback?
        && CallbackOf(deps, callback).f(DepExports(amdList, DepsOf(deps))).Returns?
        && var e := CallbackOf(deps, callback).f(DepExports(amdList, DepsOf(deps))).result;
           d.amdList == amdList[name.s := if IsTruthy(e) then e else Primitive(Bool(true))]
    ensures var d := DefineStep(amdList, name, deps, callback);
      d.thrown.Some? ==> d.amdList == amdList
  {
  }

  /** Every registered module's dependencies were registered before it. */
  ghost predicate DependenciesFirst(order: seq<string>, needs: map<string, seq<string>>)
  {
    forall i :: 0 <= i < |order| ==>
      (order[i] in needs && forall d :: d in needs[order[i]] ==> d in order[..i])
  }

  /**
   * Every stored export is truthy, the registered names are the ones in
   * the registration order, and each came after its dependencies.
   */
  ghost predicate RegistryInvariant(amdList: map<string, Export>, order: seq<string>, needs: map<string, seq<string>>)
  {
    && (forall k :: k in amdList ==> IsTruthy(amdList[k]))
    && (forall k :: k in amdList <==> k in order)
    && DependenciesFirst(order, needs)
  }

  /** The global `amdList`, with the registration order and each module's dependencies as ghost state. */
  class Registry {
    var amdList: map<string, Export>
    ghost var order: seq<string>
    ghost var needs: map<string, seq<string>>

    ghost predicate Valid()
      reads this
    {
      RegistryInvariant(amdList, order, needs)
    }

    /** `var amdList = []`. */
    constructor()
      ensures amdList == map[] && Valid()
    {
      amdList := map[];
      order := [];
      needs := map[];
    }

    /** `define(name, deps, callback)`, with its early exits. */
    method Define(name: Value, deps: Arg, callback: Arg) returns (thrown: Option<JsError>)
      requires Valid()
      modifies this
      ensures Defined(thrown, amdList) == DefineStep(old(amdList), name, deps, callback)
      ensures thrown.None? ==> order == old(order) + [name.s]
      ensures thrown.Some? ==> order == old(order)
      ensures Valid()
    {
      if !name.Str? || name.s == [] {
        return Some(Thrown(NameRequired()));
      }
      if name.s in amdList && IsTruthy(amdList[name.s]) {
        return Some(Thrown(AlreadyLoaded(name.s)));
      }
      thrown := Run(name.s, DepsOf(deps), CallbackOf(deps, callback));
    }

    /** The dependency check, the callback call and the store, for a name not yet registered. */
    method Run(name: string, ds: seq<Value>, cb: Arg) returns (thrown: Option<JsError>)
      requires Valid() && !Has(amdList, name)
      modifies this
      ensures Defined(thrown, amdList) == RunModule(old(amdList), name, ds, cb)
      ensures thrown.None? ==> order == old(order) + [name]
      ensures thrown.Some? ==> order == old(order)
      ensures Valid()
    {
      if |ds| > 0 {
        var missing := MissingDependency(amdList, ds);
        if missing {
          return Some(Thrown(DependenciesFirstError(name)));
        }
      }
      assert forall i :: 0 <= i < |ds| ==> Has(amdList, JsString(ds[i]));
      if !cb.Callback? {
        return Some(TypeError);
      }
      var outcome := cb.f(DepExports(amdList, ds));
      if outcome.Throws? {
        return Some(Thrown(outcome.error));
      }
      var e := outcome.result;
      if !IsTruthy(e) {
        e := Primitive(Bool(true));
      }
      RegisterKeepsInvariant(amdList, order, needs, name, ds, e);
      amdList := amdList[name := e];
      order := order + [name];
      needs := needs[name := DepNames(ds)];
      return None;
    }
  }

  function DepNames(ds: seq<Value>): (r: seq<string>)
    ensures |r| == |ds|
    ensures forall i :: 0 <= i < |ds| ==> r[i] == JsString(ds[i])
  {
    seq(|ds|, i requires 0 <= i < |ds| => JsString(ds[i]))
  }

  /** Storing a truthy export for a new module whose dependencies are registered keeps the invariant. */
  lemma RegisterKeepsInvariant(amdList: map<string, Export>, order: seq<string>, needs: map<string, seq<string>>,
                               name: string, ds: seq<Value>, e: Export)
    requires RegistryInvariant(amdList, order, needs)
    requires !Has(amdList, name) && IsTruthy(e)
    requires forall i :: 0 <= i < |ds| ==> Has(amdList, JsString(ds[i]))
    ensures RegistryInvariant(amdList[name := e], order + [name], needs[name := DepNames(ds)])
  {
    RegisterAfterDependencies(order, needs, name, ds);
  }

  /** Registering a module whose dependencies are all registered keeps dependencies first. */
  lemma RegisterAfterDependencies(order: seq<string>, needs: map<string, seq<string>>, name: string, ds: seq<Value>)
    requires DependenciesFirst(order, needs) && name !in order
    requires forall i :: 0 <= i < |ds| ==> JsString(ds[i]) in order
    ensures DependenciesFirst(order + [name], needs[name := DepNames(ds)])
  {
    var order', needs' := order + [name], needs[name := DepNames(ds)];
    forall i | 0 <= i < |order'|
      ensures order'[i] in needs' && forall d :: d in needs'[order'[i]] ==> d in order'[..i]
    {
      if i < |order| {
        assert order'[..i] == order[..i];
        assert order'[i] == order[i] != name;
      } else {
        assert order'[..i] == order;
      }
    }
  }
}
