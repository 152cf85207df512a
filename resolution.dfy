/** Which parameters the resolver fills from the container, and what
    `resolve` produces: the known entries, unchanged and in their order,
    followed by one entry per resolvable position, in declaration order,
    each holding what `make` returned for that position's type. */
module Resolution {
  import opened Wrappers
  import opened Php
  import Signature

  /** What reflection reports about one formal parameter: its printed form
      (`ReflectionParameter::__toString`) and `ReflectionParameter::isArray`. */
  datatype Param = Param(printed: string, isArray: bool)

  /** The container as the resolver consults it: the names `bound` answers
      true for, and what `make` yields for a name, given the names made
      before it (so singletons, counters and failures can depend on history). */
  datatype Registry = Registry(
    bindings: set<string>,
    produce: (seq<string>, string) -> Result<Value, Exception>)

  /** The outcome of a step that may call `make`: its value or exception, and
      every name passed to `make` up to then, in order. */
  datatype Traced<+T> = Traced(result: Result<T, Exception>, made: seq<string>)

  /** `isResolvable`: the type name to ask the container for, or None where
      the source returns `false`. `classes` stands for `class_exists`.
      Once the pattern has matched, `$matches[1]` exists and is a string, so
      the source's checks of that reduce to `!isArray()`. */
  function IsResolvable(p: Param, key: Key, params: seq<Entry>, classes: set<string>, bindings: set<string>)
    : (r: Option<string>)
    ensures KeyExists(params, key) ==> r == None
    ensures Signature.TypeToken(p.printed) == None || p.isArray ==> r == None
    ensures r.Some? <==>
      && !KeyExists(params, key)
      && Signature.TypeToken(p.printed).Some?
      && !p.isArray
      && (Signature.TypeToken(p.printed).value in classes || Signature.TypeToken(p.printed).value in bindings)
    ensures r.Some? ==> Signature.TypeToken(p.printed) == Some(r.value)
  {
    if KeyExists(params, key) then None
    else
      match Signature.TypeToken(p.printed)
      case None => None
      case Some(name) =>
        var canBeCreated := !p.isArray;
        var existsOrBound := name in classes || name in bindings;
        if canBeCreated && existsOrBound then Some(name) else None
  }

  /** The name `resolve` passes to `make` for position `i`: the result of
      `isResolvable`, when PHP reads that string as true. */
  function NameToMake(p: Param, i: nat, params: seq<Entry>, classes: set<string>, bindings: set<string>)
    : Option<string>
  {
    match IsResolvable(p, IntKey(i), params, classes, bindings)
    case Some(name) => if Truthy(name) then Some(name) else None
    case None => None
  }

  /** A position to fill and the name to make for it. */
  datatype Request = Request(pos: nat, name: string)

  /** For each declared position, the name `resolve` would make for it. */
  function Candidates(ps: seq<Param>, known: seq<Entry>, classes: set<string>, bindings: set<string>)
    : (cs: seq<Option<string>>)
    ensures |cs| == |ps|
  {
    seq(|ps|, i requires 0 <= i < |ps| => NameToMake(ps[i], i, known, classes, bindings))
  }

  /** The positions of a candidate list that hold a name, in order, with it. */
  function Requests(cs: seq<Option<string>>): seq<Request>
  {
    if cs == [] then []
    else
      var i := |cs| - 1;
      Requests(cs[..i])
      + match cs[i]
        case Some(name) => [Request(i, name)]
        case None => []
  }

  /** The positions to fill from the container, in declaration order. */
  function Wanted(ps: seq<Param>, known: seq<Entry>, classes: set<string>, bindings: set<string>)
    : seq<Request>
  {
    Requests(Candidates(ps, known, classes, bindings))
  }

  function Names(ws: seq<Request>): (names: seq<string>)
    ensures |names| == |ws|
  {
    seq(|ws|, j requires 0 <= j < |ws| => ws[j].name)
  }

  /** The requests of a candidate list are those of all but its last
      candidate, followed by the last one's request, if any. */
  lemma RequestsLast(cs: seq<Option<string>>)
    requires cs != []
    ensures var i := |cs| - 1;
      Requests(cs) == Requests(cs[..i]) + match cs[i] case Some(name) => [Request(i, name)] case None => []
  {
  }

  /** Every request names a position that holds that name. */
  lemma {:induction false} RequestsSound(cs: seq<Option<string>>)
    ensures var ws := Requests(cs);
      forall j | 0 <= j < |ws| :: ws[j].pos < |cs| && cs[ws[j].pos] == Some(ws[j].name)
  {
    if cs != [] {
      var i := |cs| - 1;
      var front := Requests(cs[..i]);
      var ws := Requests(cs);
      RequestsLast(cs);
      RequestsSound(cs[..i]);
      forall j | 0 <= j < |ws| ensures ws[j].pos < |cs| && cs[ws[j].pos] == Some(ws[j].name) {
        if j < |front| {
          assert ws[j] == front[j];
          assert cs[..i][front[j].pos] == cs[front[j].pos];
        }
      }
    }
  }

  /** Request positions strictly increase. */
  lemma {:induction false} RequestsIncreasing(cs: seq<Option<string>>)
    ensures var ws := Requests(cs);
      forall j, l | 0 <= j < l < |ws| :: ws[j].pos < ws[l].pos
  {
    if cs != [] {
      var i := |cs| - 1;
      var front := Requests(cs[..i]);
      var ws := Requests(cs);
      RequestsLast(cs);
      RequestsIncreasing(cs[..i]);
      RequestsSound(cs[..i]);
      forall j, l | 0 <= j < l < |ws| ensures ws[j].pos < ws[l].pos {
        assert ws[j] == front[j];
        if l < |front| {
          assert ws[l] == front[l];
        }
      }
    }
  }

  /** Every position that holds a name is requested. */
  lemma {:induction false} RequestsComplete(cs: seq<Option<string>>)
    ensures var ws := Requests(cs);
      forall i | 0 <= i < |cs| && cs[i].Some? :: exists j | 0 <= j < |ws| :: ws[j].pos == i
  {
    if cs != [] {
      var i := |cs| - 1;
      var front := Requests(cs[..i]);
      var ws := Requests(cs);
      RequestsLast(cs);
      RequestsComplete(cs[..i]);
      forall i' | 0 <= i' < |cs| && cs[i'].Some? ensures exists j | 0 <= j < |ws| :: ws[j].pos == i' {
        if i' < i {
          assert cs[..i][i'] == cs[i'];
          var j :| 0 <= j < |front| && front[j].pos == i';
          assert ws[j] == front[j];
        } else {
          assert ws[|ws| - 1].pos == i';
        }
      }
    }
  }

  /** The requests are the positions whose name to make is defined, each once,
      in increasing order, with that name. */
  lemma WantedMeaning(ps: seq<Param>, known: seq<Entry>, classes: set<string>, bindings: set<string>)
    ensures var ws := Wanted(ps, known, classes, bindings);
      && (forall j | 0 <= j < |ws| ::
            ws[j].pos < |ps| && NameToMake(ps[ws[j].pos], ws[j].pos, known, classes, bindings) == Some(ws[j].name))
      && (forall j, l | 0 <= j < l < |ws| :: ws[j].pos < ws[l].pos)
      && (forall i | 0 <= i < |ps| && NameToMake(ps[i], i, known, classes, bindings).Some? ::
            exists j | 0 <= j < |ws| :: ws[j].pos == i)
  {
    var cs := Candidates(ps, known, classes, bindings);
    RequestsSound(cs);
    RequestsIncreasing(cs);
    RequestsComplete(cs);
    forall i | 0 <= i < |ps| && NameToMake(ps[i], i, known, classes, bindings).Some?
      ensures exists j | 0 <= j < |Wanted(ps, known, classes, bindings)| :: Wanted(ps, known, classes, bindings)[j].pos == i
    {
      assert cs[i].Some?;
      var ws := Requests(cs);
      var j :| 0 <= j < |ws| && ws[j].pos == i;
      assert Wanted(ps, known, classes, bindings)[j].pos == i;
    }
  }

  /** Without any name there is nothing to request. */
  lemma {:induction false} RequestsNone(cs: seq<Option<string>>)
    requires forall i | 0 <= i < |cs| :: cs[i].None?
    ensures Requests(cs) == []
  {
    if cs != [] {
      RequestsNone(cs[..|cs| - 1]);
    }
  }

  /** When the first `g` positions hold no name and every later one does,
      the requests are exactly the positions from `g` on, in order. */
  lemma {:induction false} RequestsFrom(cs: seq<Option<string>>, g: nat)
    requires g <= |cs|
    requires forall i | 0 <= i < g :: cs[i].None?
    requires forall i | g <= i < |cs| :: cs[i].Some?
    ensures |Requests(cs)| == |cs| - g
    ensures forall j | 0 <= j < |cs| - g :: Requests(cs)[j] == Request(g + j, cs[g + j].value)
  {
    if |cs| == g {
      RequestsNone(cs);
    } else {
      var i := |cs| - 1;
      RequestsFrom(cs[..i], g);
    }
  }

  /** Looking at one more parameter adds at most its own request at the end. */
  lemma WantedStep(ps: seq<Param>, i: nat, known: seq<Entry>, classes: set<string>, bindings: set<string>)
    requires i < |ps|
    ensures Wanted(ps[..i + 1], known, classes, bindings) ==
      Wanted(ps[..i], known, classes, bindings)
      + match NameToMake(ps[i], i, known, classes, bindings)
        case Some(name) => [Request(i, name)]
        case None => []
  {
    var cs := Candidates(ps[..i + 1], known, classes, bindings);
    assert cs[..i] == Candidates(ps[..i], known, classes, bindings);
    assert cs[i] == NameToMake(ps[i], i, known, classes, bindings);
  }

  /** Making a prefix that fails is making the whole sequence. */
  lemma MakeAllPrefixFails(
    names: seq<string>, n: nat, produce: (seq<string>, string) -> Result<Value, Exception>, made: seq<string>)
    requires n <= |names|
    requires MakeAll(names[..n], produce, made).result.Err?
    ensures MakeAll(names, produce, made) == MakeAll(names[..n], produce, made)
  {
    MakeAllAppend(names[..n], names[n..], produce, made);
    assert names[..n] + names[n..] == names;
  }

  /** Looking at fewer candidates only drops requests from the end. */
  lemma {:induction false} RequestsExtends(cs: seq<Option<string>>, n: nat)
    requires n <= |cs|
    ensures |Requests(cs[..n])| <= |Requests(cs)| && Requests(cs)[..|Requests(cs[..n])|] == Requests(cs[..n])
  {
    if n < |cs| {
      var i := |cs| - 1;
      assert cs[..i][..n] == cs[..n];
      RequestsExtends(cs[..i], n);
    } else {
      assert cs[..n] == cs;
    }
  }

  /** Declaring more parameters only adds requests after the earlier ones. */
  lemma WantedExtends(ps: seq<Param>, n: nat, known: seq<Entry>, classes: set<string>, bindings: set<string>)
    requires n <= |ps|
    ensures var front := Wanted(ps[..n], known, classes, bindings);
      |front| <= |Wanted(ps, known, classes, bindings)| && Wanted(ps, known, classes, bindings)[..|front|] == front
  {
    var cs := Candidates(ps, known, classes, bindings);
    assert Candidates(ps[..n], known, classes, bindings) == cs[..n];
    RequestsExtends(cs, n);
  }

  /** Calls `make` once per name, in order, and stops at the first failure. */
  function MakeAll(names: seq<string>, produce: (seq<string>, string) -> Result<Value, Exception>, made: seq<string>)
    : Traced<seq<Value>>
  {
    if names == [] then Traced(Ok([]), made)
    else
      match produce(made, names[0])
      case Err(e) => Traced(Err(e), made + [names[0]])
      case Ok(v) =>
        var rest := MakeAll(names[1..], produce, made + [names[0]]);
        match rest.result
        case Ok(vs) => Traced(Ok([v] + vs), rest.made)
        case Err(e) => Traced(Err(e), rest.made)
  }

  /** Making a sequence of names is making the first part and, if that did
      not fail, making the rest after it. */
  lemma {:induction false} MakeAllAppend(
    a: seq<string>, b: seq<string>, produce: (seq<string>, string) -> Result<Value, Exception>, made: seq<string>)
    ensures MakeAll(a + b, produce, made) ==
      var front := MakeAll(a, produce, made);
      match front.result
      case Err(_) => front
      case Ok(vs) =>
        var back := MakeAll(b, produce, front.made);
        match back.result
        case Ok(ws) => Traced(Ok(vs + ws), back.made)
        case Err(_) => back
  {
    if a != [] {
      assert (a + b)[0] == a[0] && (a + b)[1..] == a[1..] + b;
      if produce(made, a[0]).Ok? {
        MakeAllAppend(a[1..], b, produce, made + [a[0]]);
        var vs := MakeAll(a[1..], produce, made + [a[0]]);
        if vs.result.Ok? {
          var back := MakeAll(b, produce, vs.made);
          if back.result.Ok? {
            assert [produce(made, a[0]).value] + (vs.result.value + back.result.value)
                == ([produce(made, a[0]).value] + vs.result.value) + back.result.value;
          }
        }
      }
    } else {
      assert a + b == b;
      var back := MakeAll(b, produce, made);
      if back.result.Ok? {
        assert [] + back.result.value == back.result.value;
      }
    }
  }

  /** On success `make` was called once per name, in order, and the j-th value
      is what the j-th call returned. */
  lemma {:induction false} MakeAllSucceeds(
    names: seq<string>, produce: (seq<string>, string) -> Result<Value, Exception>, made: seq<string>)
    requires MakeAll(names, produce, made).result.Ok?
    ensures var t := MakeAll(names, produce, made);
      && t.made == made + names
      && |t.result.value| == |names|
      && forall j | 0 <= j < |names| :: produce(made + names[..j], names[j]) == Ok(t.result.value[j])
  {
    if names != [] {
      var made' := made + [names[0]];
      MakeAllSucceeds(names[1..], produce, made');
      var t := MakeAll(names, produce, made);
      assert made' + names[1..] == made + names;
      forall j | 1 <= j < |names|
        ensures produce(made + names[..j], names[j]) == Ok(t.result.value[j])
      {
        assert made' + names[1..][..j - 1] == made + names[..j];
      }
      assert made + names[..0] == made;
    }
  }

  /** The j-th call failed with the exception of `t`, every earlier call
      succeeded, and no call came after it. */
  ghost predicate FailsAt(
    names: seq<string>, produce: (seq<string>, string) -> Result<Value, Exception>, made: seq<string>,
    j: nat, t: Traced<seq<Value>>)
    requires j < |names|
  {
    && t.result.Err?
    && t.made == made + names[..j + 1]
    && produce(made + names[..j], names[j]) == Err(t.result.error)
    && forall l | 0 <= l < j :: produce(made + names[..l], names[l]).Ok?
  }

  /** On failure the calls so far succeeded, the last one failed with the
      exception that is returned, and no further call was made. */
  lemma {:induction false} MakeAllFails(
    names: seq<string>, produce: (seq<string>, string) -> Result<Value, Exception>, made: seq<string>)
    requires MakeAll(names, produce, made).result.Err?
    ensures exists j | 0 <= j < |names| :: FailsAt(names, produce, made, j, MakeAll(names, produce, made))
  {
    var t := MakeAll(names, produce, made);
    var made' := made + [names[0]];
    var tail := names[1..];
    assert made + names[..0] == made;
    if produce(made, names[0]).Ok? {
      var rest := MakeAll(tail, produce, made');
      assert t == rest;
      MakeAllFails(tail, produce, made');
      var j :| 0 <= j < |tail| && FailsAt(tail, produce, made', j, rest);
      // Positions in `tail` are one less than in `names`.
      forall l | 0 <= l <= |tail| ensures made' + tail[..l] == made + names[..l + 1] {
        assert names[..l + 1] == [names[0]] + tail[..l];
      }
      forall l | 0 <= l < j + 1 ensures produce(made + names[..l], names[l]).Ok? {
        if l > 0 {
          assert names[l] == tail[l - 1];
        }
      }
      assert FailsAt(names, produce, made, j + 1, t);
    } else {
      assert FailsAt(names, produce, made, 0, t);
    }
  }

  /** The entries `resolve` appends: each request's position with its value. */
  function Entries(ws: seq<Request>, vs: seq<Value>): seq<Entry>
    requires |ws| == |vs|
  {
    seq(|ws|, j requires 0 <= j < |ws| => Entry(IntKey(ws[j].pos), vs[j]))
  }

  /** Appending the made entries to the known ones keeps every key unique. */
  lemma AppendedWellFormed(ps: seq<Param>, known: PhpArray, classes: set<string>, bindings: set<string>, vs: seq<Value>)
    requires |vs| == |Wanted(ps, known, classes, bindings)|
    ensures WellFormed(known + Entries(Wanted(ps, known, classes, bindings), vs))
  {
    var ws := Wanted(ps, known, classes, bindings);
    var es := Entries(ws, vs);
    WantedMeaning(ps, known, classes, bindings);
    forall j | 0 <= j < |ws| ensures !KeyExists(known, es[j].key) {
      assert NameToMake(ps[ws[j].pos], ws[j].pos, known, classes, bindings).Some?;
    }
    var a := known + es;
    forall i, j | 0 <= i < j < |a| ensures a[i].key != a[j].key {
      if j >= |known| {
        assert a[j] == es[j - |known|];
        if i < |known| {
          assert KeyExists(known, a[i].key);
        } else {
          assert a[i] == es[i - |known|];
        }
      }
    }
  }

  /** What `resolve` computes: the known entries followed by one made entry
      per wanted position, or the first exception `make` threw. */
  function Resolved(ps: seq<Param>, known: PhpArray, classes: set<string>, reg: Registry, made: seq<string>)
    : Traced<PhpArray>
  {
    var ws := Wanted(ps, known, classes, reg.bindings);
    var t := MakeAll(Names(ws), reg.produce, made);
    match t.result
    case Err(e) => Traced(Err(e), t.made)
    case Ok(vs) =>
      MakeAllSucceeds(Names(ws), reg.produce, made);
      AppendedWellFormed(ps, known, classes, reg.bindings, vs);
      var out: PhpArray := known + Entries(ws, vs);
      Traced(Ok(out), t.made)
  }

  /** On success the known entries come first, unchanged and in their order,
      followed by one entry per request, in declaration order, holding what
      the matching `make` call returned; `make` was called once per request. */
  lemma ResolvedOk(ps: seq<Param>, known: PhpArray, classes: set<string>, reg: Registry, made: seq<string>)
    requires Resolved(ps, known, classes, reg, made).result.Ok?
    ensures var ws := Wanted(ps, known, classes, reg.bindings);
      var r := Resolved(ps, known, classes, reg, made);
      var out := r.result.value;
      && r.made == made + Names(ws)
      && |out| == |known| + |ws|
      && out[..|known|] == known
      && forall j | 0 <= j < |ws| ::
           && out[|known| + j].key == IntKey(ws[j].pos)
           && reg.produce(made + Names(ws)[..j], ws[j].name) == Ok(out[|known| + j].value)
  {
    var ws := Wanted(ps, known, classes, reg.bindings);
    MakeAllSucceeds(Names(ws), reg.produce, made);
  }

  /** On failure `resolve` throws what the first failing `make` threw, after
      every earlier request was made successfully and none after it. */
  lemma ResolvedFails(ps: seq<Param>, known: PhpArray, classes: set<string>, reg: Registry, made: seq<string>)
    requires Resolved(ps, known, classes, reg, made).result.Err?
    ensures var names := Names(Wanted(ps, known, classes, reg.bindings));
      var t := MakeAll(names, reg.produce, made);
      && Resolved(ps, known, classes, reg, made) == Traced(Err(t.result.error), t.made)
      && exists j | 0 <= j < |names| :: FailsAt(names, reg.produce, made, j, t)
  {
    var names := Names(Wanted(ps, known, classes, reg.bindings));
    MakeAllFails(names, reg.produce, made);
  }

  /** A known key keeps its value: `resolve` never overwrites or removes it. */
  lemma ResolvedKeepsKnown(ps: seq<Param>, known: PhpArray, classes: set<string>, reg: Registry, made: seq<string>)
    requires Resolved(ps, known, classes, reg, made).result.Ok?
    ensures var out := Resolved(ps, known, classes, reg, made).result.value;
      forall k | KeyExists(known, k) :: Lookup(out, k) == Lookup(known, k)
  {
    var out := Resolved(ps, known, classes, reg, made).result.value;
    ResolvedOk(ps, known, classes, reg, made);
    forall k | KeyExists(known, k) ensures Lookup(out, k) == Lookup(known, k) {
      var i :| 0 <= i < |known| && known[i].key == k;
      assert out[i] == known[i];
      LookupAt(out, i);
      LookupAt(known, i);
    }
  }

  /** The keys of the known entries followed by entries keyed by the
      requested positions. */
  lemma KeysAfterAppend(known: seq<Entry>, ws: seq<Request>, out: seq<Entry>, k: Key)
    requires |out| == |known| + |ws|
    requires out[..|known|] == known
    requires forall j | 0 <= j < |ws| :: out[|known| + j].key == IntKey(ws[j].pos)
    ensures KeyExists(out, k) <==>
      KeyExists(known, k) || (k.IntKey? && exists j | 0 <= j < |ws| :: ws[j].pos == k.i)
  {
    if KeyExists(out, k) {
      var i :| 0 <= i < |out| && out[i].key == k;
      if i < |known| {
        assert known[i] == out[i];
      } else {
        assert out[|known| + (i - |known|)].key == IntKey(ws[i - |known|].pos);
      }
    }
    if KeyExists(known, k) {
      var i :| 0 <= i < |known| && known[i].key == k;
      assert out[i] == known[i];
    } else if k.IntKey? && exists j | 0 <= j < |ws| :: ws[j].pos == k.i {
      var j :| 0 <= j < |ws| && ws[j].pos == k.i;
      assert out[|known| + j].key == k;
    }
  }

  /** The keys of the result are the known keys plus the positions that have
      a name to make, and nothing else. */
  lemma ResolvedKeys(ps: seq<Param>, known: PhpArray, classes: set<string>, reg: Registry, made: seq<string>)
    requires Resolved(ps, known, classes, reg, made).result.Ok?
    ensures var out := Resolved(ps, known, classes, reg, made).result.value;
      forall k :: KeyExists(out, k) <==>
        || KeyExists(known, k)
        || (k.IntKey? && 0 <= k.i < |ps| && NameToMake(ps[k.i], k.i, known, classes, reg.bindings).Some?)
  {
    var ws := Wanted(ps, known, classes, reg.bindings);
    var out := Resolved(ps, known, classes, reg, made).result.value;
    ResolvedOk(ps, known, classes, reg, made);
    WantedMeaning(ps, known, classes, reg.bindings);
    forall k ensures KeyExists(out, k) <==>
        || KeyExists(known, k)
        || (k.IntKey? && 0 <= k.i < |ps| && NameToMake(ps[k.i], k.i, known, classes, reg.bindings).Some?)
    {
      KeysAfterAppend(known, ws, out, k);
      if k.IntKey? && exists j | 0 <= j < |ws| :: ws[j].pos == k.i {
        var j :| 0 <= j < |ws| && ws[j].pos == k.i;
        assert 0 <= k.i < |ps| && NameToMake(ps[k.i], k.i, known, classes, reg.bindings).Some?;
      }
    }
  }

  /** When no position has a name to make (no parameters, or every one known,
      untyped or unresolvable) the known array comes back as it was and
      `make` is not called. */
  lemma ResolvedNothingToMake(ps: seq<Param>, known: PhpArray, classes: set<string>, reg: Registry, made: seq<string>)
    requires forall i | 0 <= i < |ps| :: NameToMake(ps[i], i, known, classes, reg.bindings).None?
    ensures Resolved(ps, known, classes, reg, made) == Traced(Ok(known), made)
  {
    var ws := Wanted(ps, known, classes, reg.bindings);
    var cs := Candidates(ps, known, classes, reg.bindings);
    RequestsNone(cs);
    assert known + Entries(ws, []) == known;
  }

  /** With a plain list of known values and every later position resolvable,
      the requests are exactly the positions after the list, in order. */
  lemma WantedAfterList(ps: seq<Param>, given: seq<Value>, classes: set<string>, bindings: set<string>)
    requires forall i | |given| <= i < |ps| :: NameToMake(ps[i], i, ListOf(given), classes, bindings).Some?
    ensures var ws := Wanted(ps, ListOf(given), classes, bindings);
      && |ws| == (if |given| <= |ps| then |ps| - |given| else 0)
      && forall j | 0 <= j < |ws| :: ws[j].pos == |given| + j
  {
    var known := ListOf(given);
    var cs := Candidates(ps, known, classes, bindings);
    var g := if |given| <= |ps| then |given| else |ps|;
    forall i | 0 <= i < g ensures cs[i].None? {
      assert known[i].key == IntKey(i);
    }
    RequestsFrom(cs, g);
  }

  /** A list of n entries followed by entries keyed n, n+1, ... is a list. */
  lemma ListAfterList(given: seq<Value>, ws: seq<Request>, out: seq<Entry>)
    requires |out| == |given| + |ws|
    requires out[..|given|] == ListOf(given)
    requires forall j | 0 <= j < |ws| :: out[|given| + j].key == IntKey(ws[j].pos)
    requires forall j | 0 <= j < |ws| :: ws[j].pos == |given| + j
    ensures forall i | 0 <= i < |out| :: out[i].key == IntKey(i)
    ensures Values(out)[..|given|] == given
  {
    forall i | 0 <= i < |out| ensures out[i].key == IntKey(i) {
      if i < |given| {
        assert out[i] == out[..|given|][i];
      } else {
        assert out[|given| + (i - |given|)].key == IntKey(ws[i - |given|].pos);
      }
    }
    assert Values(out)[..|given|] == Values(out[..|given|]);
  }

  /** A list of n entries followed by entries keyed by the requested
      positions is a list exactly when those positions are n, n+1, ... */
  lemma ListKeysIff(given: seq<Value>, ws: seq<Request>, out: seq<Entry>)
    requires |out| == |given| + |ws|
    requires out[..|given|] == ListOf(given)
    requires forall j | 0 <= j < |ws| :: out[|given| + j].key == IntKey(ws[j].pos)
    ensures Values(out)[..|given|] == given
    ensures (forall i | 0 <= i < |out| :: out[i].key == IntKey(i)) <==>
      (forall j | 0 <= j < |ws| :: ws[j].pos == |given| + j)
  {
    if forall j | 0 <= j < |ws| :: ws[j].pos == |given| + j {
      ListAfterList(given, ws, out);
    } else {
      var j :| 0 <= j < |ws| && ws[j].pos != |given| + j;
      assert out[|given| + j].key != IntKey(|given| + j);
    }
    assert Values(out)[..|given|] == Values(out[..|given|]);
  }

  /** When the known values are a plain list (the arguments a wrapper
      receives), they come first in the result, and the result is again a
      list, keyed 0, 1, 2, ..., exactly when the made positions follow the
      list without a gap. Only then does passing its values in insertion
      order give each parameter the value stored for it. */
  lemma ResolvedPositional(ps: seq<Param>, given: seq<Value>, classes: set<string>, reg: Registry, made: seq<string>)
    requires Resolved(ps, ListOf(given), classes, reg, made).result.Ok?
    ensures var out := Resolved(ps, ListOf(given), classes, reg, made).result.value;
      var ws := Wanted(ps, ListOf(given), classes, reg.bindings);
      && Values(out)[..|given|] == given
      && ((forall i | 0 <= i < |out| :: out[i].key == IntKey(i)) <==>
          (forall j | 0 <= j < |ws| :: ws[j].pos == |given| + j))
  {
    var known := ListOf(given);
    var ws := Wanted(ps, known, classes, reg.bindings);
    ResolvedOk(ps, known, classes, reg, made);
    var out := Resolved(ps, known, classes, reg, made).result.value;
    ListKeysIff(given, ws, out);
  }

  /** Entries stored for earlier positions do not change whether the key of
      a later position is present. */
  lemma EntriesBelow(known: seq<Entry>, ws: seq<Request>, vs: seq<Value>, i: nat)
    requires |ws| == |vs|
    requires forall j | 0 <= j < |ws| :: ws[j].pos < i
    ensures KeyExists(known + Entries(ws, vs), IntKey(i)) <==> KeyExists(known, IntKey(i))
  {
    var out := known + Entries(ws, vs);
    if KeyExists(out, IntKey(i)) {
      var k :| 0 <= k < |out| && out[k].key == IntKey(i);
      if k >= |known| {
        assert false;
      }
    }
    if KeyExists(known, IntKey(i)) {
      var k :| 0 <= k < |known| && known[k].key == IntKey(i);
      assert out[k] == known[k];
    }
  }

  /** One step of `resolve` that makes a name and succeeds extends the
      requests, the values and the log by one. */
  lemma MakeStepSucceeds(
    ws: seq<Request>, vs: seq<Value>, i: nat, name: string,
    produce: (seq<string>, string) -> Result<Value, Exception>, made: seq<string>, log: seq<string>)
    requires |ws| == |vs|
    requires MakeAll(Names(ws), produce, made) == Traced(Ok(vs), log)
    requires produce(log, name).Ok?
    ensures MakeAll(Names(ws + [Request(i, name)]), produce, made)
      == Traced(Ok(vs + [produce(log, name).value]), log + [name])
    ensures Entries(ws + [Request(i, name)], vs + [produce(log, name).value])
      == Entries(ws, vs) + [Entry(IntKey(i), produce(log, name).value)]
  {
    MakeAllAppend(Names(ws), [name], produce, made);
    assert Names(ws + [Request(i, name)]) == Names(ws) + [name];
    var v := produce(log, name).value;
    assert [name][1..] == [];
    assert MakeAll([name][1..], produce, log + [name]) == Traced(Ok([]), log + [name]);
    assert [v] + [] == [v];
    assert MakeAll([name], produce, log) == Traced(Ok([v]), log + [name]);
  }

  /** One step of `resolve` whose `make` throws ends the whole resolution
      with that exception. */
  lemma MakeStepFails(
    ps: seq<Param>, i: nat, known: PhpArray, classes: set<string>, reg: Registry,
    vs: seq<Value>, name: string, made: seq<string>, log: seq<string>)
    requires i < |ps|
    requires NameToMake(ps[i], i, known, classes, reg.bindings) == Some(name)
    requires |vs| == |Wanted(ps[..i], known, classes, reg.bindings)|
    requires MakeAll(Names(Wanted(ps[..i], known, classes, reg.bindings)), reg.produce, made) == Traced(Ok(vs), log)
    requires reg.produce(log, name).Err?
    ensures Resolved(ps, known, classes, reg, made) == Traced(Err(reg.produce(log, name).error), log + [name])
  {
    var ws := Wanted(ps[..i], known, classes, reg.bindings);
    var front := ws + [Request(i, name)];
    WantedStep(ps, i, known, classes, reg.bindings);
    MakeAllAppend(Names(ws), [name], reg.produce, made);
    assert Names(front) == Names(ws) + [name];
    WantedExtends(ps, i + 1, known, classes, reg.bindings);
    var all := Names(Wanted(ps, known, classes, reg.bindings));
    assert all[..|front|] == Names(front);
    MakeAllPrefixFails(all, |front|, reg.produce, made);
  }

  /** When every request was made successfully, `resolve` returns the known
      entries followed by the made ones. */
  lemma ResolvedFromSteps(
    ps: seq<Param>, known: PhpArray, classes: set<string>, reg: Registry,
    vs: seq<Value>, made: seq<string>, log: seq<string>)
    requires |vs| == |Wanted(ps, known, classes, reg.bindings)|
    requires MakeAll(Names(Wanted(ps, known, classes, reg.bindings)), reg.produce, made) == Traced(Ok(vs), log)
    ensures WellFormed(known + Entries(Wanted(ps, known, classes, reg.bindings), vs))
    ensures Resolved(ps, known, classes, reg, made)
      == Traced(Ok(known + Entries(Wanted(ps, known, classes, reg.bindings), vs)), log)
  {
    AppendedWellFormed(ps, known, classes, reg.bindings, vs);
  }

  /** While `resolve` is at position i, the array it has built so far gives
      `isResolvable` the same answer there as the array it started from:
      everything it stored sits at an earlier position. */
  lemma ResolvableAtLaterPosition(
    ps: seq<Param>, i: nat, known: PhpArray, classes: set<string>, bindings: set<string>, vs: seq<Value>)
    requires i < |ps|
    requires |vs| == |Wanted(ps[..i], known, classes, bindings)|
    ensures IsResolvable(ps[i], IntKey(i), known + Entries(Wanted(ps[..i], known, classes, bindings), vs), classes, bindings)
      == IsResolvable(ps[i], IntKey(i), known, classes, bindings)
  {
    WantedMeaning(ps[..i], known, classes, bindings);
    EntriesBelow(known, Wanted(ps[..i], known, classes, bindings), vs, i);
  }

  /** Strictly increasing positions spread at least one apart. */
  lemma {:induction false} PositionsSpread(ws: seq<Request>)
    requires forall j, l | 0 <= j < l < |ws| :: ws[j].pos < ws[l].pos
    ensures |ws| > 0 ==> ws[0].pos + |ws| - 1 <= ws[|ws| - 1].pos
  {
    if |ws| > 1 {
      PositionsSpread(ws[..|ws| - 1]);
      assert ws[..|ws| - 1][|ws| - 2] == ws[|ws| - 2];
    }
  }

  /** When exactly one position has a name to make, `resolve` makes it once
      and appends its value under that position. */
  lemma ResolvedSingle(
    ps: seq<Param>, known: PhpArray, classes: set<string>, reg: Registry, made: seq<string>,
    k: nat, name: string, obj: Value)
    requires k < |ps|
    requires NameToMake(ps[k], k, known, classes, reg.bindings) == Some(name)
    requires forall i | 0 <= i < |ps| && i != k :: NameToMake(ps[i], i, known, classes, reg.bindings).None?
    requires reg.produce(made, name) == Ok(obj)
    ensures WellFormed(known + [Entry(IntKey(k), obj)])
    ensures Resolved(ps, known, classes, reg, made) == Traced(Ok(known + [Entry(IntKey(k), obj)]), made + [name])
  {
    var ws := Wanted(ps, known, classes, reg.bindings);
    WantedMeaning(ps, known, classes, reg.bindings);
    var j :| 0 <= j < |ws| && ws[j].pos == k;
    PositionsSpread(ws);
    assert ws[0].pos == k && ws[|ws| - 1].pos == k;
    assert ws == [] + [Request(k, name)];
    assert MakeAll(Names([]), reg.produce, made) == Traced(Ok([]), made);
    MakeStepSucceeds([], [], k, name, reg.produce, made, made);
    assert [] + [obj] == [obj];
    assert Entries(ws, [obj]) == [Entry(IntKey(k), obj)];
    ResolvedFromSteps(ps, known, classes, reg, [obj], made, made + [name]);
  }
}
