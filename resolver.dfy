/** The resolver as objects: the container whose `make` log grows, the
    reflected method whose accessible flag `method` changes, and the
    `Resolver` whose methods run the source's loop and try/catch. Each
    method is proved to produce what the functions of `Resolution` and
    `Invocation` describe. */
module Service {
  import opened Wrappers
  import opened Php
  import opened Resolution
  import opened Invocation

  /** The IoC container: what it binds and makes, and every name passed to
      `make` so far. */
  class Container {
    const registry: Registry
    var made: seq<string>

    constructor (registry: Registry)
      ensures this.registry == registry && made == []
    {
      this.registry := registry;
      made := [];
    }

    /** `make($name)`: what the registry yields after the names made so far. */
    method Make(name: string) returns (r: Result<Value, Exception>)
      modifies this
      ensures made == old(made) + [name]
      ensures r == registry.produce(old(made), name)
    {
      r := registry.produce(made, name);
      made := made + [name];
    }
  }

  /** A `ReflectionMethod`: the reflected declaration and its accessible flag. */
  class ReflectedMethod {
    const name: string
    const decl: MethodDecl
    var accessible: bool

    constructor (name: string, decl: MethodDecl)
      ensures this.name == name && this.decl == decl && !accessible
    {
      this.name := name;
      this.decl := decl;
      accessible := false;
    }

    method SetAccessible(b: bool)
      modifies this
      ensures accessible == b
    {
      accessible := b;
    }

    /** `invokeArgs`: a private or protected method can be invoked only while
        it is accessible. */
    method InvokeArgs(rt: Runtime, target: Value, args: seq<Value>) returns (r: Result<Value, Exception>)
      ensures decl.visibility == Public || accessible ==> r == rt.invoke(target, name, args)
      ensures decl.visibility != Public && !accessible ==> r.Err? && r.error.cls == ReflectionError
    {
      if decl.visibility == Public || accessible {
        r := rt.invoke(target, name, args);
      } else {
        r := Err(Exception(ReflectionError, "Trying to invoke non-public method " + name));
      }
    }
  }

  class Resolver {
    const app: Container
    const rt: Runtime

    constructor (app: Container, rt: Runtime)
      ensures this.app == app && this.rt == rt
    {
      this.app := app;
      this.rt := rt;
    }

    /** `resolve`: one pass over the parameters, storing `make`'s result at
        each position `isResolvable` names, and stopping at the first
        exception. */
    method Resolve(ps: seq<Param>, params: PhpArray) returns (r: Result<PhpArray, Exception>)
      modifies app
      ensures Traced(r, app.made) == Resolved(ps, params, rt.classes, app.registry, old(app.made))
    {
      var out := params;
      ghost var ws: seq<Request> := [];
      ghost var vs: seq<Value> := [];
      for i := 0 to |ps|
        invariant ws == Wanted(ps[..i], params, rt.classes, app.registry.bindings)
        invariant |vs| == |ws|
        invariant MakeAll(Names(ws), app.registry.produce, old(app.made)) == Traced(Ok(vs), app.made)
        invariant out == params + Entries(ws, vs)
      {
        WantedStep(ps, i, params, rt.classes, app.registry.bindings);
        // Everything stored so far sits at an earlier position.
        ResolvableAtLaterPosition(ps, i, params, rt.classes, app.registry.bindings, vs);
        var registryName := IsResolvable(ps[i], IntKey(i), out, rt.classes, app.registry.bindings);
        if registryName.Some? && Truthy(registryName.value) {
          var name := registryName.value;
          assert NameToMake(ps[i], i, params, rt.classes, app.registry.bindings) == Some(name);
          ghost var log := app.made;
          var made := app.Make(name);
          if made.Err? {
            MakeStepFails(ps, i, params, rt.classes, app.registry, vs, name, old(app.made), log);
            r := Err(made.error);
            return;
          }
          MakeStepSucceeds(ws, vs, i, name, app.registry.produce, old(app.made), log);
          ghost var stored := Entry(IntKey(i), made.value);
          // The position is not yet a key, so the store appends.
          assert out + [stored] == params + (Entries(ws, vs) + [stored]);
          out := Store(out, IntKey(i), made.value);
          ws := ws + [Request(i, name)];
          vs := vs + [made.value];
        } else {
          assert NameToMake(ps[i], i, params, rt.classes, app.registry.bindings) == None;
        }
      }
      assert ps[..|ps|] == ps;
      ResolvedFromSteps(ps, params, rt.classes, app.registry, vs, old(app.made), app.made);
      r := Ok(out);
    }

    /** `resolveMethodParameters`: reflect the method, then resolve it. */
    method ResolveMethodParameters(target: Value, name: string, params: PhpArray)
      returns (r: Result<PhpArray, Exception>)
      modifies app
      ensures Traced(r, app.made) == MethodParameters(rt, app.registry, target, name, params, old(app.made))
    {
      var cls := ClassOf(rt, target);
      if cls.Err? {
        return Err(cls.error);
      }
      var decl := GetMethod(rt, cls.value, name);
      if decl.Err? {
        return Err(decl.error);
      }
      r := Resolve(decl.value.params, params);
    }

    /** `method`: reflect, resolve, call; on failure, retry through reflection
        when scope calls are forced on a private or protected method. The
        ghost `handle` is the reflected method, so its final flag can be
        stated; it is created by this call and visible to no other. */
    method Method(target: Value, name: string, params: PhpArray, force: bool)
      returns (r: Result<Value, Exception>, ghost handle: ReflectedMethod?)
      modifies app
      ensures var o := MethodOutcome(rt, app.registry, target, name, params, force, old(app.made));
        && r == o.result
        && app.made == o.made
        && (handle != null ==> fresh(handle) && handle.accessible == o.leftAccessible)
        && (handle == null ==> !o.leftAccessible)
    {
      handle := null;
      var cls: Result<string, Exception>;
      if target.Str? {
        var made := app.Make(target.s);
        cls := if made.Ok? then ClassOf(rt, made.value) else Err(made.error);
      } else {
        cls := ClassOf(rt, target);
      }
      if cls.Err? {
        return Err(cls.error), null;
      }
      var decl := GetMethod(rt, cls.value, name);
      if decl.Err? {
        return Err(decl.error), null;
      }
      var reflection := new ReflectedMethod(name, decl.value);
      handle := reflection;
      var resolved := Resolve(reflection.decl.params, params);
      if resolved.Err? {
        r := Err(resolved.error);
        return;
      }
      var args := Values(resolved.value);
      r := rt.call(target, name, args);
      if r.Err? {
        if force && (reflection.decl.visibility == Private || reflection.decl.visibility == Protected) {
          reflection.SetAccessible(true);
          r := reflection.InvokeArgs(rt, target, args);
          if r.Err? {
            return;
          }
          reflection.SetAccessible(false);
        }
      }
    }

    /** `methodToClosure`: a closure over the target and the method name. */
    method MethodToClosure(target: Value, name: string) returns (d: Deferred)
      ensures d.MethodClosure? && d.target == target && d.name == name
    {
      d := MethodClosure(target, name);
    }

    /** `closure`: resolve the closure's parameters, then call it. */
    method Closure(f: ClosureValue, params: PhpArray) returns (r: Result<Value, Exception>)
      modifies app
      ensures Traced(r, app.made) == ClosureOutcome(rt, app.registry, f, params, old(app.made))
    {
      var resolved := Resolve(f.params, params);
      if resolved.Err? {
        return Err(resolved.error);
      }
      r := f.body(Values(resolved.value));
    }

    /** `makeClosure`: a closure over the given closure. */
    method MakeClosure(f: ClosureValue) returns (d: Deferred)
      ensures d.ResolvingClosure? && d.f == f
    {
      d := ResolvingClosure(f);
    }

    /** Calling a closure returned by `methodToClosure` or `makeClosure`:
        its arguments become the known values of a fresh resolution. */
    method CallDeferred(d: Deferred, args: seq<Value>) returns (r: Result<Value, Exception>)
      modifies app
      ensures var o := DeferredOutcome(rt, app.registry, d, args, old(app.made));
        r == o.result && app.made == o.made
    {
      match d
      case MethodClosure(target, name) =>
        ghost var handle;
        r, handle := Method(target, name, ListOf(args), false);
      case ResolvingClosure(f) =>
        r := Closure(f, ListOf(args));
    }
  }
}
