/** The situations the resolver's own tests exercise, and one they do not,
    stated over the model with parameters printed the way reflection prints
    them. The tests use the class `LaravelCommode\Resolver\ResolverTest` and
    the parameter names `integer`, `test` and `emptyValue`; the lemmas hold
    for any class name and any parameter names. */
module Scenarios {
  import opened Wrappers
  import opened Php
  import opened Resolution
  import opened Invocation
  import Signature

  /** A parameter name: word characters only. */
  predicate IsName(s: string) {
    forall m | 0 <= m < |s| :: Signature.IsWord(s[m])
  }

  /** A class name as a type hint prints it: word characters and backslashes,
      not starting with a digit. */
  predicate IsClassName(s: string) {
    && 1 <= |s|
    && !IsDigit(s[0])
    && forall m | 0 <= m < |s| :: Signature.IsTypeChar(s[m])
  }

  /** `$name`, or `$name = NULL` when optional, at position `pos`. */
  function Untyped(pos: nat, name: string, optional: bool): Param {
    Param(Signature.Render(Signature.ParamShape(pos, optional, None, false, name, "NULL")), false)
  }

  /** `Cls $name`, or `Cls $name = null` when optional, at position `pos`. */
  function Typed(pos: nat, cls: string, name: string, optional: bool): Param {
    Param(Signature.Render(Signature.ParamShape(pos, optional, Some(cls), optional, name, "NULL")), false)
  }

  lemma NameHasNoBracket(name: string)
    requires IsName(name)
    ensures Signature.NoBracket(name)
  {
  }

  /** Reflection finds no type in an untyped parameter. */
  lemma UntypedToken(pos: nat, name: string, optional: bool)
    requires IsName(name)
    ensures Signature.TypeToken(Untyped(pos, name, optional).printed) == None
  {
    NameHasNoBracket(name);
    NameHasNoBracket("NULL");
    Signature.TokenOfRendered(Signature.ParamShape(pos, optional, None, false, name, "NULL"));
  }

  /** Reflection finds the class name in a typed parameter. */
  lemma TypedToken(pos: nat, cls: string, name: string, optional: bool)
    requires IsClassName(cls) && IsName(name)
    ensures Signature.TypeToken(Typed(pos, cls, name, optional).printed) == Some(cls)
  {
    NameHasNoBracket(name);
    NameHasNoBracket("NULL");
    Signature.TokenOfRendered(Signature.ParamShape(pos, optional, Some(cls), optional, name, "NULL"));
  }

  /** The pattern is not anchored to the parameter's own tag. An untyped
      optional parameter whose printed default holds text shaped like a tag,
      as `function ($x = '[ <a> Cls')` prints, has a token: the attempt at
      the parameter's `[` fails on `$`, and the pattern then matches inside
      the default. */
  lemma DefaultTextYieldsToken(pos: nat, name: string, word: string, cls: string)
    requires IsName(name) && 1 <= |word| && IsName(word) && IsClassName(cls)
    ensures Signature.TypeToken(DefaultShadow(pos, name, word, cls).printed) == Some(cls)
  {
    var p := Signature.ParamShape(pos, true, None, false, name, "'" + "[ <" + word + "> " + cls + "'");
    var mid := "$" + name + " = " + "'";
    var rest := cls + "'" + " ]";
    ShadowAfterTag(p, cls, word);
    Signature.PrefixHasNoBracket(pos);
    NameHasNoBracket(name);
    Signature.NoBracketConcat("$", name);
    Signature.NoBracketConcat("$" + name, " = ");
    Signature.NoBracketConcat("$" + name + " = ", "'");
    assert rest[|cls|] == '\'';
    Signature.RunEndIs(rest, 0, Signature.IsTypeChar, |cls|);
    assert rest[..|cls|] == cls;
    Signature.TokenAfterFailedTag(
      "Parameter #" + Signature.Decimal(pos) + " ", "optional", Signature.AfterTag(p), mid, word, rest);
  }

  /** What follows the tag of `$name = '[ <word> Cls'`. */
  lemma ShadowAfterTag(p: Signature.ParamShape, cls: string, word: string)
    requires p.optional && p.typeName.None?
    requires p.defaultText == "'" + "[ <" + word + "> " + cls + "'"
    ensures Signature.AfterTag(p) == ("$" + p.name + " = " + "'") + "[ <" + word + "> " + (cls + "'" + " ]")
  {
  }

  /** `$name = '[ <word> Cls'`: an untyped optional parameter whose default
      text is a tag followed by a class name. */
  function DefaultShadow(pos: nat, name: string, word: string, cls: string): Param {
    Param(Signature.Render(Signature.ParamShape(pos, true, None, false, name, "'" + "[ <" + word + "> " + cls + "'")), false)
  }

  /** An untyped parameter is never made. */
  lemma UntypedNotMade(pos: nat, name: string, optional: bool, known: seq<Entry>, classes: set<string>, bindings: set<string>)
    requires IsName(name)
    ensures NameToMake(Untyped(pos, name, optional), pos, known, classes, bindings) == None
  {
    UntypedToken(pos, name, optional);
  }

  /** A parameter typed with an existing class, at a position not known, is
      made under that class name. */
  lemma TypedMade(
    pos: nat, cls: string, name: string, optional: bool, known: seq<Entry>, classes: set<string>, bindings: set<string>)
    requires IsClassName(cls) && IsName(name)
    requires cls in classes && !KeyExists(known, IntKey(pos))
    ensures NameToMake(Typed(pos, cls, name, optional), pos, known, classes, bindings) == Some(cls)
  {
    TypedToken(pos, cls, name, optional);
    assert Truthy(cls) by {
      assert cls[0] != '0';
    }
  }

  /** The untyped `$name = '[ <word> Cls'`, at a position not known, is made
      as `Cls` when that class exists or is bound. */
  lemma DefaultShadowMade(
    pos: nat, name: string, word: string, cls: string, known: seq<Entry>, classes: set<string>, bindings: set<string>)
    requires IsName(name) && 1 <= |word| && IsName(word) && IsClassName(cls)
    requires (cls in classes || cls in bindings) && !KeyExists(known, IntKey(pos))
    ensures NameToMake(DefaultShadow(pos, name, word, cls), pos, known, classes, bindings) == Some(cls)
  {
    DefaultTextYieldsToken(pos, name, word, cls);
    assert Truthy(cls) by {
      assert cls[0] != '0';
    }
  }

  /** The names in `function ($integer, ResolverTest $test = null, $emptyValue = null)`.
      `cls` is the name reflection prints for the hint: the fully qualified
      `LaravelCommode\Resolver\ResolverTest`, which the tests' `make` expects. */
  datatype TestNames = TestNames(cls: string, first: string, second: string, third: string)

  predicate ValidNames(n: TestNames) {
    IsClassName(n.cls) && IsName(n.first) && IsName(n.second) && IsName(n.third)
  }

  /** The parameter list of the tested closure (without the third parameter)
      and of the tested methods (with it). */
  function TestParams(n: TestNames, withThird: bool): seq<Param> {
    [Untyped(0, n.first, false), Typed(1, n.cls, n.second, true)]
    + if withThird then [Untyped(2, n.third, true)] else []
  }

  /** With one value known, only the typed parameter is made, and the
      arguments are the known value followed by what the container made. */
  lemma ResolvedTestParams(
    n: TestNames, classes: set<string>, reg: Registry, v: Value, obj: Value, made: seq<string>, withThird: bool)
    requires ValidNames(n)
    requires n.cls in classes
    requires reg.produce(made, n.cls) == Ok(obj)
    ensures Resolved(TestParams(n, withThird), ListOf([v]), classes, reg, made)
      == Traced(Ok(ListOf([v, obj])), made + [n.cls])
  {
    var ps := TestParams(n, withThird);
    var known := ListOf([v]);
    assert !KeyExists(known, IntKey(1));
    TypedMade(1, n.cls, n.second, true, known, classes, reg.bindings);
    forall i | 0 <= i < |ps| && i != 1 ensures NameToMake(ps[i], i, known, classes, reg.bindings).None? {
      if i == 0 {
        UntypedNotMade(0, n.first, false, known, classes, reg.bindings);
      } else {
        UntypedNotMade(2, n.third, true, known, classes, reg.bindings);
      }
    }
    ResolvedSingle(ps, known, classes, reg, made, 1, n.cls, obj);
    assert known + [Entry(IntKey(1), obj)] == ListOf([v, obj]);
  }

  /** `closure($closureResolved, [$testValue])` calls the closure with the
      test value and the made test case; the closure `makeClosure` returns,
      called with the test value, does the same. */
  lemma ClosureResolvedScenario(
    n: TestNames, rt: Runtime, reg: Registry, body: seq<Value> -> Result<Value, Exception>,
    v: Value, obj: Value, made: seq<string>)
    requires ValidNames(n)
    requires n.cls in rt.classes
    requires reg.produce(made, n.cls) == Ok(obj)
    ensures var f := ClosureValue(TestParams(n, false), body);
      && ClosureOutcome(rt, reg, f, ListOf([v]), made) == Traced(body([v, obj]), made + [n.cls])
      && DeferredOutcome(rt, reg, ResolvingClosure(f), [v], made) == Called(body([v, obj]), made + [n.cls], false)
  {
    ResolvedTestParams(n, rt.classes, reg, v, obj, made, false);
  }

  /** `closure($closureNoArgs)` and `closure($closureSimple, [$testValue])`:
      nothing to make, so the closure gets the known values as they are and
      the container is not asked for anything. */
  lemma ClosureWithoutResolution(
    rt: Runtime, reg: Registry, body: seq<Value> -> Result<Value, Exception>, name: string, v: Value, made: seq<string>)
    requires IsName(name)
    ensures ClosureOutcome(rt, reg, ClosureValue([], body), [], made) == Traced(body([]), made)
    ensures ClosureOutcome(rt, reg, ClosureValue([Untyped(0, name, false)], body), ListOf([v]), made)
      == Traced(body([v]), made)
  {
    ResolvedNothingToMake([], [], rt.classes, reg, made);
    assert Values([]) == [];
    var ps := [Untyped(0, name, false)];
    var known := ListOf([v]);
    assert known[0].key == IntKey(0);
    assert NameToMake(ps[0], 0, known, rt.classes, reg.bindings) == None;
    ResolvedNothingToMake(ps, known, rt.classes, reg, made);
  }

  /** The runtime the method tests run in: the test case `self` declares a
      public and a protected method with the tested parameters, both
      returning their first two arguments as a list; calling the protected
      one from outside fails. */
  ghost predicate TestRuntime(n: TestNames, rt: Runtime, self: Value, v: Value, public: string, protected: string) {
    && self.Object? && self.cls == n.cls
    && n.cls in rt.classes
    && (n.cls, public) in rt.methods
    && rt.methods[(n.cls, public)] == MethodDecl(TestParams(n, true), Public)
    && (n.cls, protected) in rt.methods
    && rt.methods[(n.cls, protected)] == MethodDecl(TestParams(n, true), Protected)
    && rt.call(self, public, [v, self]) == Ok(List([v, self]))
    && rt.call(self, protected, [v, self]).Err?
    && rt.invoke(self, protected, [v, self]) == Ok(List([v, self]))
  }

  /** The method tests, with `injectionTesting` as `public` and
      `scopeInjectionTesting` as `protected`: the public method is resolved
      and called; the protected one succeeds only with forced scope calls and
      otherwise the call's exception comes back; the closure from
      `methodToClosure` behaves as the plain call; `resolveMethodParameters`
      returns the arguments the method gets. */
  lemma MethodScenarios(
    n: TestNames, rt: Runtime, reg: Registry, self: Value, v: Value, made: seq<string>, public: string, protected: string)
    requires ValidNames(n)
    requires TestRuntime(n, rt, self, v, public, protected)
    requires reg.produce(made, n.cls) == Ok(self)
    ensures MethodOutcome(rt, reg, self, public, ListOf([v]), false, made)
      == Called(Ok(List([v, self])), made + [n.cls], false)
    ensures MethodOutcome(rt, reg, self, protected, ListOf([v]), true, made)
      == Called(Ok(List([v, self])), made + [n.cls], false)
    ensures var o := MethodOutcome(rt, reg, self, protected, ListOf([v]), false, made);
      o.result.Err? && o.result == rt.call(self, protected, [v, self]) && !o.leftAccessible
    ensures DeferredOutcome(rt, reg, MethodClosure(self, public), [v], made)
      == Called(Ok(List([v, self])), made + [n.cls], false)
    ensures MethodParameters(rt, reg, self, public, ListOf([v]), made)
      == Traced(Ok(ListOf([v, self])), made + [n.cls])
  {
    ResolvedTestParams(n, rt.classes, reg, v, self, made, true);
    assert Values(ListOf([v, self])) == [v, self];
  }

  /** The arguments are the resolved values in insertion order, whatever
      their keys: with `[1 => $v]` known for `function (Cls $a, $b)`, the made
      object is stored under key 0 after the known entry, so the closure
      receives `$v` as `$a` and the object as `$b`. Lists of known values, as
      the deferred wrappers pass, do not run into this (`ResolvedPositional`). */
  lemma ArgumentsFollowInsertionOrder(
    cls: string, a: string, b: string, classes: set<string>, reg: Registry, v: Value, obj: Value, made: seq<string>)
    requires IsClassName(cls) && IsName(a) && IsName(b)
    requires cls in classes
    requires reg.produce(made, cls) == Ok(obj)
    ensures Resolved([Typed(0, cls, a, false), Untyped(1, b, false)], [Entry(IntKey(1), v)], classes, reg, made)
      == Traced(Ok([Entry(IntKey(1), v), Entry(IntKey(0), obj)]), made + [cls])
    ensures Values([Entry(IntKey(1), v), Entry(IntKey(0), obj)]) == [v, obj]
  {
    var ps := [Typed(0, cls, a, false), Untyped(1, b, false)];
    var known: PhpArray := [Entry(IntKey(1), v)];
    assert !KeyExists(known, IntKey(0));
    TypedMade(0, cls, a, false, known, classes, reg.bindings);
    UntypedNotMade(1, b, false, known, classes, reg.bindings);
    ResolvedSingle(ps, known, classes, reg, made, 0, cls, obj);
    assert known + [Entry(IntKey(0), obj)] == [Entry(IntKey(1), v), Entry(IntKey(0), obj)];
  }

  /** One known value followed by one made entry. */
  lemma OneKnownThenMade(v: Value, e: Entry)
    ensures ListOf([v]) + [e] == [Entry(IntKey(0), v), e]
  {
    assert ListOf([v]) == [Entry(IntKey(0), v)];
  }

  /** `function ($a, $b = null, Cls $c)`, as reflection prints it: a required
      parameter follows `$b`, so `$b` prints as required, with no default. */
  function GapParams(cls: string, a: string, b: string, c: string): seq<Param> {
    [Untyped(0, a, false), Untyped(1, b, false), Typed(2, cls, c, false)]
  }

  /** With `[$v]` known, only `$c` is made, and its entry is stored under
      key 2 right after `$v`. */
  lemma GapResolved(
    cls: string, a: string, b: string, c: string, classes: set<string>, reg: Registry,
    v: Value, obj: Value, made: seq<string>)
    requires IsClassName(cls) && IsName(a) && IsName(b) && IsName(c)
    requires cls in classes
    requires reg.produce(made, cls) == Ok(obj)
    ensures Resolved(GapParams(cls, a, b, c), ListOf([v]), classes, reg, made)
      == Traced(Ok([Entry(IntKey(0), v), Entry(IntKey(2), obj)]), made + [cls])
  {
    var ps := GapParams(cls, a, b, c);
    var known := ListOf([v]);
    assert !KeyExists(known, IntKey(2));
    TypedMade(2, cls, c, false, known, classes, reg.bindings);
    forall i | 0 <= i < |ps| && i != 2 ensures NameToMake(ps[i], i, known, classes, reg.bindings).None? {
      if i == 0 {
        UntypedNotMade(0, a, false, known, classes, reg.bindings);
      } else {
        UntypedNotMade(1, b, false, known, classes, reg.bindings);
      }
    }
    ResolvedSingle(ps, known, classes, reg, made, 2, cls, obj);
    OneKnownThenMade(v, Entry(IntKey(2), obj));
  }

  /** A plain list of known values is no protection against a gap: a closure
      from `makeClosure` over `function ($a, $b = null, Cls $c)`, called with
      `$v` alone, passes the made object second, so the closure receives it
      as `$b` and nothing as `$c`. */
  lemma DeferredArgumentFillsGap(
    cls: string, a: string, b: string, c: string, rt: Runtime, reg: Registry,
    body: seq<Value> -> Result<Value, Exception>, v: Value, obj: Value, made: seq<string>)
    requires IsClassName(cls) && IsName(a) && IsName(b) && IsName(c)
    requires cls in rt.classes
    requires reg.produce(made, cls) == Ok(obj)
    ensures DeferredOutcome(rt, reg, ResolvingClosure(ClosureValue(GapParams(cls, a, b, c), body)), [v], made)
      == Called(body([v, obj]), made + [cls], false)
  {
    GapResolved(cls, a, b, c, rt.classes, reg, v, obj, made);
    assert Values([Entry(IntKey(0), v), Entry(IntKey(2), obj)]) == [v, obj];
  }
}
