# Resolver: argument injection from a Laravel IoC container

`LaravelCommode\Resolver\Resolver` calls closures and class methods. It fills
in arguments the caller did not supply by asking the Laravel application
container to `make` them. This project models that class and proves what it
does:

- **isResolvable**: for one reflected parameter, decides whether the
  container should supply it. If so, it returns the type name read off the
  parameter's printed form. The predicate is modelled on:
  - the known-argument array;
  - the regular expression applied to `ReflectionParameter::__toString`;
  - `isArray()`;
  - `class_exists` and the container's `bound`.
- **resolve**: makes one left-to-right pass over the parameters. For each
  position `isResolvable` names, it stores `make(name)` into a PHP array.
  Stores into a new key append and nothing is renumbered.
- **method**: reflects the target, resolves its parameters and calls it. When
  the normal call throws, scope calls are forced and the method is private or
  protected, it retries through reflection after making the method
  accessible.
- **resolveMethodParameters**, **closure**, **methodToClosure** and
  **makeClosure**: the deferred closures use their call-time arguments as the
  known values and resolve again on every call.

The outside world is a set of values and oracles:

- the container is `Registry`: the names it has bound, and what `make`
  yields for a name given the names made before it;
- the PHP runtime is `Runtime`: the names `class_exists` accepts, the
  names reflection accepts (interfaces and traits too), the methods each
  class declares or inherits, with their parameters and visibility, the normal call and
  `ReflectionMethod::invokeArgs`;
- a closure is its reflected parameters and a function from arguments to a
  result or exception;
- every exception is a value in a `Result`.

Module layout:

- `Wrappers` holds `Option` and `Result`.
- `Php` holds PHP values and ordered PHP arrays: `array_key_exists`,
  assignment, `func_get_args` and the argument list
  `call_user_func_array` builds.
- `Signature` holds the type-token regex and the printed form of a
  parameter.
- `Resolution` holds `isResolvable` and the specification of `resolve`:
  - `Wanted` lists the positions to make, in order;
  - `MakeAll` calls `make` in turn and stops at the first exception;
  - `Resolved` is the resulting array, or the exception.
- `Invocation` holds the specifications of `method`, `closure` and the
  deferred closures.
- `Service` holds the three classes:
  - `Container`, whose `made` log grows with each `make`;
  - `ReflectedMethod`, with its `accessible` flag;
  - `Resolver`, whose methods run the source's loop and try/catch and are
    proved equal to those specifications.
- `Scenarios` holds the situations in the resolver's tests. Each one is
  proved for any class name and any parameter names, with parameters printed
  the way reflection prints them.

### Behaviour worth knowing

- **The accessible flag after a failed retry.** A scoped bypass would restore
  the flag on every way out of the retry. The code has no `finally`
  (Resolver.php:140-142), so a retry that throws leaves the flag set.
  - `Invocation.LeftAccessibleOnlyAfterFailedRetry` gives the exact
    condition.
  - `Service.Resolver.Method` exposes the flag through its ghost `handle`.
  - Every call reflects the method afresh, so the handle is fresh and no
    later call sees the flag.
- **Key order of the arguments.** One might expect the resolved arguments
  to be put in positional order before the call. The code passes the
  array's values in insertion order, whatever their keys (Resolver.php:137
  and 177).
  - `Scenarios.ArgumentsFollowInsertionOrder` shows a closure that receives
    its arguments swapped when a later position is known and an earlier one
    is made.
  - A plain list of known values, as the deferred closures pass, does not
    protect against this. `Resolution.ResolvedPositional` proves that the
    result is again a list exactly when the made positions follow the given
    values without a gap.
  - `Scenarios.DeferredArgumentFillsGap` shows the gap case. A closure from
    `makeClosure` over `function ($a, $b = null, Cls $c)`, called with `$v`
    alone, receives the made object as `$b`.
- **The pattern is not anchored to the parameter's own tag.** `preg_match`
  takes the leftmost match anywhere in the printed parameter
  (Resolver.php:66). An untyped parameter with a string default shaped like
  a tag, as in `function ($x = '[ <a> Cls')`, therefore gets the token
  `Cls`.
  - `Scenarios.DefaultTextYieldsToken` proves this.
  - `Scenarios.DefaultShadowMade` proves that the name `resolve` makes for
    `$x` is then `Cls`, when that class exists or is bound.
  - `Signature.TokenOfRendered` excludes such defaults by its requires.

## Model

| member | source | states |
|---|---|---|
| Php.KeyExists | src/LaravelCommode/Resolver/Resolver.php:59 | `array_key_exists`: some entry has the key, whatever its value (null included) |
| Php.Lookup | src/LaravelCommode/Resolver/Resolver.php:59 | a lookup finds a value exactly when `array_key_exists` holds, null values included |
| Php.Store | src/LaravelCommode/Resolver/Resolver.php:96 | `$params[$key] = v` replaces an existing key's value where it stands, or appends a new entry at the end |
| Php.StoreLookup | src/LaravelCommode/Resolver/Resolver.php:96 | after the store the key maps to the new value and every other key to its old value |
| Php.Values | src/LaravelCommode/Resolver/Resolver.php:137 | the positional argument list `call_user_func_array` builds from an array: its values in insertion order, keys ignored |
| Php.ListOf | src/LaravelCommode/Resolver/Resolver.php:162 | `func_get_args()` is the list keyed 0..n-1 and its values are the arguments in order |
| Signature.RunEnd | src/LaravelCommode/Resolver/Resolver.php:66 | a maximal run of characters from a class (`\w`, `[\w\\]`) ends at the first character outside it |
| Signature.MatchAtMeaning | src/LaravelCommode/Resolver/Resolver.php:66 | a match attempt at position i captures tok iff `[`, blank, `<`, one or more word characters, `>`, blank and then a non-extensible run tok of type characters stand at i |
| Signature.FindMatch | src/LaravelCommode/Resolver/Resolver.php:66 | the start found is the leftmost one where an attempt succeeds; none exists before it |
| Signature.TypeToken | src/LaravelCommode/Resolver/Resolver.php:66-70 | `$matches[1]` of the leftmost match of the pattern on the printed parameter, or none where `count($matches) < 1` |
| Signature.TypeTokenMeaning | src/LaravelCommode/Resolver/Resolver.php:66-70 | the token is the capture of the leftmost match; there is no token iff the pattern matches nowhere |
| Signature.Render | src/LaravelCommode/Resolver/Resolver.php:66 | `(string) $parameter`: `Parameter #n [ <required> ` or `<optional> `, the type and `or NULL ` if any, `$name`, ` = default` if optional, ` ]` |
| Signature.TokenOfRendered | src/LaravelCommode/Resolver/Resolver.php:66 | reading the token from a printed parameter `Parameter #n [ <required/optional> Type $name ... ]` gives its declared type, and none when it is untyped, provided the type is made of `[\w\\]` characters and neither the name nor the printed default contains a `[` |
| Resolution.IsResolvable | src/LaravelCommode/Resolver/Resolver.php:54-83 | None when the key is known (even with a null value), when there is no token or the parameter is `array`; otherwise Some(token) iff the class exists or is bound |
| Resolution.NameToMake | src/LaravelCommode/Resolver/Resolver.php:95 | the name `resolve` makes for a position: the result of `isResolvable`, when the assignment in the `if` reads as true |
| Resolution.Wanted | src/LaravelCommode/Resolver/Resolver.php:94-95 | the positions, in declaration order, whose name to make is defined, with that name |
| Resolution.WantedMeaning | src/LaravelCommode/Resolver/Resolver.php:94-97 | the positions made are exactly those whose `isResolvable` result PHP reads as true, each once, in increasing order, with that name |
| Resolution.WantedStep | src/LaravelCommode/Resolver/Resolver.php:94-97 | one more loop iteration adds at most that position's request, at the end |
| Resolution.WantedExtends | src/LaravelCommode/Resolver/Resolver.php:94 | a longer parameter list only adds requests after those of its prefix |
| Resolution.ResolvableAtLaterPosition | src/LaravelCommode/Resolver/Resolver.php:95 | the entries stored earlier in the loop do not change what `isResolvable` answers for the current position |
| Resolution.MakeAll | src/LaravelCommode/Resolver/Resolver.php:96 | `make` called on each name in turn, each seeing the names made before it, stopping at the first exception |
| Resolution.MakeAllAppend | src/LaravelCommode/Resolver/Resolver.php:94-97 | making a + b is making a and then, only if that succeeded, b after it |
| Resolution.MakeAllSucceeds | src/LaravelCommode/Resolver/Resolver.php:96 | on success `make` was called once per name in order, and the j-th value is what it gave after the j earlier calls |
| Resolution.MakeAllFails | src/LaravelCommode/Resolver/Resolver.php:96 | on failure some call j threw that exception, every earlier call succeeded, and no later call happened |
| Resolution.AppendedWellFormed | src/LaravelCommode/Resolver/Resolver.php:96 | appending the made entries never duplicates a key |
| Resolution.Resolved | src/LaravelCommode/Resolver/Resolver.php:92-101 | what `resolve` returns: the known array followed by one entry per wanted position holding its made value, or the first exception, with the names made |
| Resolution.ResolvedOk | src/LaravelCommode/Resolver/Resolver.php:92-101 | on success the known entries come first, unchanged and in order, then one entry per request holding what `make` returned; the log grew by exactly the requested names |
| Resolution.ResolvedFails | src/LaravelCommode/Resolver/Resolver.php:94-97 | on failure `resolve` throws the first failing `make`'s exception, having made only the names up to that one |
| Resolution.ResolvedKeepsKnown | src/LaravelCommode/Resolver/Resolver.php:92-101 | every known key still maps to its known value: nothing known is overwritten or removed |
| Resolution.ResolvedKeys | src/LaravelCommode/Resolver/Resolver.php:92-101 | a key is in the output iff it was known or is a position that was made |
| Resolution.ResolvedNothingToMake | src/LaravelCommode/Resolver/Resolver.php:92-101 | with nothing to make (no parameters included) the output is the known array and `make` is not called |
| Resolution.WantedAfterList | src/LaravelCommode/Resolver/Resolver.php:94-97 | with a list of n known values and every later position resolvable, exactly the positions n, n+1, ... are made, in order |
| Resolution.ResolvedPositional | src/LaravelCommode/Resolver/Resolver.php:92-101 | with a list of known values, they come first in the output's values, and the output is keyed 0..m-1 iff the made positions follow the list with no gap |
| Resolution.ResolvedSingle | src/LaravelCommode/Resolver/Resolver.php:92-101 | with one resolvable position, the output is the known array plus that position's made value, after one `make` |
| Invocation.ClassOf | src/LaravelCommode/Resolver/Resolver.php:130 | `new ReflectionClass` succeeds iff given an object or the name of a class, interface or trait, and fails with `ReflectionException` otherwise |
| Invocation.ReflectedClass | src/LaravelCommode/Resolver/Resolver.php:130 | a string target is passed to `make` and the class of what it returns is reflected; an object is reflected as it is |
| Invocation.GetMethod | src/LaravelCommode/Resolver/Resolver.php:132 | `getMethod` finds the method iff the class declares or inherits it, and otherwise throws `ReflectionException` |
| Invocation.Prepare | src/LaravelCommode/Resolver/Resolver.php:130-134 | reflect, look the method up, resolve its parameters; the arguments are the resolved values in insertion order |
| Invocation.PrepareMakes | src/LaravelCommode/Resolver/Resolver.php:130-134 | a string target is made once before anything else and an object target not at all; then the method's resolvable parameters are made and their values become the arguments |
| Invocation.Dispatch | src/LaravelCommode/Resolver/Resolver.php:136-147 | a successful call is returned with no retry; a failure is rethrown unless scope calls are forced on a private or protected method; then `invokeArgs` with the same arguments is returned, and the flag is reset only if it returns |
| Invocation.MethodOutcome | src/LaravelCommode/Resolver/Resolver.php:128-150 | one call of `method`: the prepared call dispatched, or the first exception of reflection or `make`, with the names made and the final flag |
| Invocation.LeftAccessibleOnlyAfterFailedRetry | src/LaravelCommode/Resolver/Resolver.php:139-143 | the method is left accessible iff the retry was taken and threw, and then the call throws |
| Invocation.MethodParameters | src/LaravelCommode/Resolver/Resolver.php:112-115 | `new ReflectionMethod` on the target, then `resolve` on its parameters |
| Invocation.ClosureOutcome | src/LaravelCommode/Resolver/Resolver.php:173-178 | the closure applied to its resolved values in insertion order, or the first `make` exception |
| Invocation.DeferredOutcome | src/LaravelCommode/Resolver/Resolver.php:161-163 | a call of a deferred closure: `method` with `func_get_args()` and no forcing, or `closure` with `func_get_args()` (lines 188-190) |
| Invocation.MethodClosureNeverForces | src/LaravelCommode/Resolver/Resolver.php:159-164 | a closure from `methodToClosure` never forces scope calls: its call's failure comes back as it is and nothing is left accessible |
| Invocation.ResolvingClosureArguments | src/LaravelCommode/Resolver/Resolver.php:186-191 | a closure from `makeClosure` calls the closure with its call-time arguments first, in order, then the made values in declaration order, each what its `make` returned; a failing `make` is what the call throws |
| Service.Container.Make | src/LaravelCommode/Resolver/Resolver.php:96 | `make` appends the name to the log and returns what the registry yields after the earlier names |
| Service.ReflectedMethod.SetAccessible | src/LaravelCommode/Resolver/Resolver.php:140 | sets the accessible flag |
| Service.ReflectedMethod.InvokeArgs | src/LaravelCommode/Resolver/Resolver.php:141 | invokes a public or accessible method, and otherwise throws `ReflectionException` |
| Service.Resolver.constructor | src/LaravelCommode/Resolver/Resolver.php:36-42 | keeps the given container |
| Service.Resolver.Resolve | src/LaravelCommode/Resolver/Resolver.php:92-101 | the loop returns exactly `Resolved` and leaves the container's log as `Resolved` says |
| Service.Resolver.ResolveMethodParameters | src/LaravelCommode/Resolver/Resolver.php:112-115 | reflects the class directly (no `make`) and resolves the method's parameters |
| Service.Resolver.Method | src/LaravelCommode/Resolver/Resolver.php:128-150 | result and `make` log are `MethodOutcome`'s; the freshly reflected method is left accessible exactly when `MethodOutcome` says |
| Service.Resolver.MethodToClosure | src/LaravelCommode/Resolver/Resolver.php:159-164 | the closure captures only the target and the method name |
| Service.Resolver.Closure | src/LaravelCommode/Resolver/Resolver.php:173-178 | the result is the closure applied to the resolved values, or the first `make` exception |
| Service.Resolver.MakeClosure | src/LaravelCommode/Resolver/Resolver.php:186-191 | the closure captures only the given closure |
| Service.Resolver.CallDeferred | src/LaravelCommode/Resolver/Resolver.php:161-163 | calling a deferred closure resolves afresh with its arguments as the known list (also lines 188-190) |
| Scenarios.DefaultTextYieldsToken | src/LaravelCommode/Resolver/Resolver.php:66-70 | an untyped optional parameter printed as `$x = '[ <word> Cls'` yields the token `Cls`: the attempt at its own `[` fails and the pattern matches inside the default |
| Scenarios.DefaultShadowMade | src/LaravelCommode/Resolver/Resolver.php:54-83 | such a parameter, at a position not known, is made as `Cls` whenever `Cls` exists or is bound |
| Scenarios.UntypedToken | tests/LaravelCommode/Resolver/ResolverTest.php:70 | an untyped parameter such as `$integer` has no type token |
| Scenarios.TypedToken | tests/LaravelCommode/Resolver/ResolverTest.php:74 | a class-typed parameter such as `ResolverTest $test = null` yields as token the name reflection prints for the hint, the fully qualified `LaravelCommode\Resolver\ResolverTest` that the tests' `make` expects (line 48) |
| Scenarios.ResolvedTestParams | tests/LaravelCommode/Resolver/ResolverTest.php:74-80 | with `[$testValue]` known, `($integer, ResolverTest $test = null[, $emptyValue = null])` resolves to `[$testValue, make(cls)]` after one `make`, where cls is the hint's fully qualified name |
| Scenarios.ClosureResolvedScenario | tests/LaravelCommode/Resolver/ResolverTest.php:80-84 | `closure` and the `makeClosure` closure both call the closure with `[$testValue, $this]` |
| Scenarios.ClosureWithoutResolution | tests/LaravelCommode/Resolver/ResolverTest.php:78-79 | with nothing to resolve, the closure gets the known values unchanged and `make` is not called |
| Scenarios.MethodScenarios | tests/LaravelCommode/Resolver/ResolverTest.php:96-109 | public method returns `[$testValue, $this]`; protected method does so only when forced, and otherwise its call's exception comes back; `methodToClosure` and `resolveMethodParameters` agree |
| Scenarios.GapResolved | src/LaravelCommode/Resolver/Resolver.php:92-101 | with `[$v]` known for `($a, $b = null, Cls $c)`, the output is `[0 => $v, 2 => make(Cls)]` after one `make` |
| Scenarios.DeferredArgumentFillsGap | src/LaravelCommode/Resolver/Resolver.php:186-191 | the `makeClosure` closure over that function, called with `$v`, calls it with `[$v, make(Cls)]`, so `$b` gets the object |
| Scenarios.ArgumentsFollowInsertionOrder | src/LaravelCommode/Resolver/Resolver.php:177 | with `[1 => $v]` known for `(Cls $a, $b)`, the made object is stored after `$v` under key 0, so the closure receives `$v` as `$a` |

## Left out

- `ResolverServiceProvider` and `ResolverFacade`: container registration and
  a facade accessor, with no logic of their own.
- The `app()` fallback of the constructor (Resolver.php:41): the model's
  constructor always takes the container.
- The Laravel container itself: `bound` is a set of names, and `make` is an
  oracle. Each `make` result may depend on the names made before it.
  `make` calling back into the resolver is not modelled.
- `class_exists` and the names reflection accepts are two sets of names.
  Autoloading and its side effects are not modelled.
- The bodies of called methods and closures, and `invokeArgs`, are oracles.
  PHP's warnings, errors and exceptions are not told apart: every failure of
  the normal call is one the `catch` receives, as the resolver's tests
  assume.
- Named arguments: PHP 8 `call_user_func_array` treats string keys as
  parameter names. The model passes values in insertion order for every
  key, which is what PHP does before version 8.
- Class and method names are compared exactly. PHP matches both without
  regard to case in `class_exists`, `ReflectionClass`, `getMethod` and
  calls; that is not modelled.
- The printed parameter is the form PHP 5 and 7 print: required or
  optional, with or without a type, `or NULL` (which is also how PHP 7
  prints a nullable `?Type`), and a default. By-reference and variadic
  markers are left out. PHP 8 prints a nullable hint as `?Type`, even for
  `Type $x = null`, so the pattern captures nothing there; PHP 8's printing
  is not modelled.
- Integer keys are unbounded. PHP's platform integer range is not modelled.
- Service.Resolver.Method: the accessible flag is stated for the reflected
  method this call creates, through a ghost out-parameter. Reflection objects
  are not shared between calls, so no other state holds the flag.
