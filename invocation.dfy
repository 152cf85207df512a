/** What calling through the resolver produces: `method`, `resolveMethodParameters`,
    `closure` and the two deferred wrappers, as functions of the runtime, the
    container and the names made so far. The imperative versions in the
    `Service` module are proved to compute exactly these outcomes. */
module Invocation {
  import opened Wrappers
  import opened Php
  import opened Resolution

  datatype Visibility = Public | Protected | Private

  /** What `ReflectionClass::getMethod` reports about a method. */
  datatype MethodDecl = MethodDecl(params: seq<Param>, visibility: Visibility)

  /** The parts of the PHP runtime the resolver reaches:
      - `classes`: the names `class_exists` accepts (classes only);
      - `reflectable`: the names `new ReflectionClass` accepts, which
        include interfaces and traits as well;
      - `methods`: the methods each class declares or inherits, by class and
        method name;
      - `call`: `call_user_func_array([$class, $method], $args)`, which fails
        for a method the caller may not access;
      - `invoke`: `ReflectionMethod::invokeArgs` on a method made accessible. */
  datatype Runtime = Runtime(
    classes: set<string>,
    reflectable: set<string>,
    methods: map<(string, string), MethodDecl>,
    call: (Value, string, seq<Value>) -> Result<Value, Exception>,
    invoke: (Value, string, seq<Value>) -> Result<Value, Exception>)

  const ReflectionError: string := "ReflectionException"

  /** `new ReflectionClass($v)`: an object's own class, or a string naming a
      class, interface or trait; anything else throws. */
  function ClassOf(rt: Runtime, v: Value): (r: Result<string, Exception>)
    ensures r.Err? ==> r.error.cls == ReflectionError
    ensures r.Ok? <==> v.Object? || (v.Str? && v.s in rt.reflectable)
  {
    match v
    case Object(cls, _) => Ok(cls)
    case Str(s) =>
      if s in rt.reflectable then Ok(s)
      else Err(Exception(ReflectionError, "Class " + s + " does not exist"))
    case _ => Err(Exception(ReflectionError, "Class does not exist"))
  }

  /** `getMethod($method)` on the reflected class. */
  function GetMethod(rt: Runtime, cls: string, name: string): (r: Result<MethodDecl, Exception>)
    ensures r.Ok? <==> (cls, name) in rt.methods
    ensures r.Ok? ==> r.value == rt.methods[(cls, name)]
    ensures r.Err? ==> r.error.cls == ReflectionError
  {
    if (cls, name) in rt.methods then Ok(rt.methods[(cls, name)])
    else Err(Exception(ReflectionError, "Method " + cls + "::" + name + "() does not exist"))
  }

  /** The class `method` reflects: a string target is first passed to `make`,
      and the class of what that returns is reflected; an object target is
      reflected as it is. */
  function ReflectedClass(rt: Runtime, reg: Registry, target: Value, made: seq<string>): Traced<string>
  {
    if target.Str? then
      var made' := made + [target.s];
      match reg.produce(made, target.s)
      case Err(e) => Traced(Err(e), made')
      case Ok(v) => Traced(ClassOf(rt, v), made')
    else
      Traced(ClassOf(rt, target), made)
  }

  /** A reflected method with the arguments `resolve` produced for it. */
  datatype Prepared = Prepared(decl: MethodDecl, args: seq<Value>)

  /** Lines 130-134 of `method`: reflect, look the method up, resolve its
      parameters; the arguments are the resolved values in insertion order. */
  function Prepare(rt: Runtime, reg: Registry, target: Value, name: string, known: PhpArray, made: seq<string>)
    : Traced<Prepared>
  {
    var c := ReflectedClass(rt, reg, target, made);
    match c.result
    case Err(e) => Traced(Err(e), c.made)
    case Ok(cls) =>
      match GetMethod(rt, cls, name)
      case Err(e) => Traced(Err(e), c.made)
      case Ok(decl) =>
        var r := Resolved(decl.params, known, rt.classes, reg, c.made);
        match r.result
        case Err(e) => Traced(Err(e), r.made)
        case Ok(resolved) => Traced(Ok(Prepared(decl, Values(resolved))), r.made)
  }

  /** The result of the try/catch in `method`, and whether the reflected
      method is left accessible afterwards. */
  datatype Attempt = Attempt(result: Result<Value, Exception>, leftAccessible: bool)

  /** The try/catch: a normal call that succeeds is returned with no retry;
      a failure is rethrown unless scope calls are forced on a private or
      protected method; a forced retry passes the same arguments to
      `invokeArgs` and returns what it returns. The flag is reset only after
      a retry that returns. */
  function Dispatch(rt: Runtime, target: Value, name: string, visibility: Visibility, args: seq<Value>, force: bool)
    : Attempt
  {
    match rt.call(target, name, args)
    case Ok(v) => Attempt(Ok(v), false)
    case Err(e) =>
      if force && (visibility == Private || visibility == Protected) then
        match rt.invoke(target, name, args)
        case Ok(v) => Attempt(Ok(v), false)
        case Err(e') => Attempt(Err(e'), true)
      else
        Attempt(Err(e), false)
  }

  /** The outcome of one call of `method`. */
  datatype Called = Called(result: Result<Value, Exception>, made: seq<string>, leftAccessible: bool)

  function MethodOutcome(
    rt: Runtime, reg: Registry, target: Value, name: string, known: PhpArray, force: bool, made: seq<string>)
    : Called
  {
    var p := Prepare(rt, reg, target, name, known, made);
    match p.result
    case Err(e) => Called(Err(e), p.made, false)
    case Ok(prep) =>
      var a := Dispatch(rt, target, name, prep.decl.visibility, prep.args, force);
      Called(a.result, p.made, a.leftAccessible)
  }

  /** The accessible flag stays set only after a forced retry of a private or
      protected method, when both the normal call and the retry threw. */
  lemma LeftAccessibleOnlyAfterFailedRetry(
    rt: Runtime, reg: Registry, target: Value, name: string, known: PhpArray, force: bool, made: seq<string>)
    ensures var o := MethodOutcome(rt, reg, target, name, known, force, made);
      var p := Prepare(rt, reg, target, name, known, made);
      o.leftAccessible <==>
        && p.result.Ok?
        && force
        && p.result.value.decl.visibility != Public
        && rt.call(target, name, p.result.value.args).Err?
        && rt.invoke(target, name, p.result.value.args).Err?
    ensures var o := MethodOutcome(rt, reg, target, name, known, force, made);
      o.leftAccessible ==> o.result.Err?
  {
  }

  /** `make` is called for a string target before anything else, and only
      then; an object target is reflected without calling `make`. After that
      `make` is called once per resolvable parameter, in order. */
  lemma PrepareMakes(rt: Runtime, reg: Registry, target: Value, name: string, known: PhpArray, made: seq<string>)
    requires Prepare(rt, reg, target, name, known, made).result.Ok?
    ensures var p := Prepare(rt, reg, target, name, known, made);
      var cls := ReflectedClass(rt, reg, target, made).result.value;
      var decl := rt.methods[(cls, name)];
      var base := if target.Str? then made + [target.s] else made;
      && (cls, name) in rt.methods
      && p.result.value.decl == decl
      && p.made == base + Names(Wanted(decl.params, known, rt.classes, reg.bindings))
      && p.result.value.args == Values(Resolved(decl.params, known, rt.classes, reg, base).result.value)
  {
    var c := ReflectedClass(rt, reg, target, made);
    var decl := rt.methods[(c.result.value, name)];
    ResolvedOk(decl.params, known, rt.classes, reg, c.made);
  }

  /** `new ReflectionMethod($class, $method)` followed by `resolve`: a string
      names the class directly here, so `make` is not called for it. */
  function MethodParameters(rt: Runtime, reg: Registry, target: Value, name: string, known: PhpArray, made: seq<string>)
    : Traced<PhpArray>
  {
    match ClassOf(rt, target)
    case Err(e) => Traced(Err(e), made)
    case Ok(cls) =>
      match GetMethod(rt, cls, name)
      case Err(e) => Traced(Err(e), made)
      case Ok(decl) => Resolved(decl.params, known, rt.classes, reg, made)
  }

  /** A closure: its declared parameters and what calling it with a list of
      arguments does. */
  datatype ClosureValue = ClosureValue(params: seq<Param>, body: seq<Value> -> Result<Value, Exception>)

  /** `closure`: resolve the closure's parameters, then call it with the
      resolved values in insertion order. */
  function ClosureOutcome(rt: Runtime, reg: Registry, f: ClosureValue, known: PhpArray, made: seq<string>)
    : Traced<Value>
  {
    var r := Resolved(f.params, known, rt.classes, reg, made);
    match r.result
    case Err(e) => Traced(Err(e), r.made)
    case Ok(resolved) => Traced(f.body(Values(resolved)), r.made)
  }

  /** The closures `methodToClosure` and `makeClosure` return: they capture
      the target and method name, or the closure, and nothing else. */
  datatype Deferred =
    | MethodClosure(target: Value, name: string)
    | ResolvingClosure(f: ClosureValue)

  /** Calling a deferred closure with some arguments: the arguments, as a
      list, are the known values, and everything is resolved afresh. */
  function DeferredOutcome(rt: Runtime, reg: Registry, d: Deferred, args: seq<Value>, made: seq<string>): Called
  {
    match d
    case MethodClosure(target, name) => MethodOutcome(rt, reg, target, name, ListOf(args), false, made)
    case ResolvingClosure(f) =>
      var c := ClosureOutcome(rt, reg, f, ListOf(args), made);
      Called(c.result, c.made, false)
  }

  /** A closure made by `methodToClosure` never forces scope calls: a failed
      call is rethrown as it is and no method is left accessible. */
  lemma MethodClosureNeverForces(rt: Runtime, reg: Registry, target: Value, name: string, args: seq<Value>, made: seq<string>)
    ensures var o := DeferredOutcome(rt, reg, MethodClosure(target, name), args, made);
      var p := Prepare(rt, reg, target, name, ListOf(args), made);
      && !o.leftAccessible
      && (p.result.Ok? ==> o.result == rt.call(target, name, p.result.value.args))
  {
    LeftAccessibleOnlyAfterFailedRetry(rt, reg, target, name, ListOf(args), false, made);
  }

  /** A closure made by `makeClosure` calls the closure with its call-time
      arguments first, in order, followed by the made values, in declaration
      order; a failing `make` is what the call throws. */
  lemma ResolvingClosureArguments(rt: Runtime, reg: Registry, f: ClosureValue, args: seq<Value>, made: seq<string>)
    ensures var r := Resolved(f.params, ListOf(args), rt.classes, reg, made);
      var d := DeferredOutcome(rt, reg, ResolvingClosure(f), args, made);
      && d.made == r.made
      && !d.leftAccessible
      && (r.result.Err? ==> d.result == Err(r.result.error))
    ensures var r := Resolved(f.params, ListOf(args), rt.classes, reg, made);
      var ws := Wanted(f.params, ListOf(args), rt.classes, reg.bindings);
      r.result.Ok? ==>
        var vals := Values(r.result.value);
        && DeferredOutcome(rt, reg, ResolvingClosure(f), args, made).result == f.body(vals)
        && |vals| == |args| + |ws|
        && vals[..|args|] == args
        && forall i | |args| <= i < |vals| ::
             reg.produce(made + Names(ws)[..i - |args|], ws[i - |args|].name) == Ok(vals[i])
  {
    var r := Resolved(f.params, ListOf(args), rt.classes, reg, made);
    if r.result.Ok? {
      var known := ListOf(args);
      ResolvedOk(f.params, known, rt.classes, reg, made);
      var out := r.result.value;
      var vals := Values(out);
      assert vals[..|args|] == Values(out[..|known|]);
      forall i | |args| <= i < |vals| ensures vals[i] == out[|known| + (i - |args|)].value {
      }
    }
  }
}
