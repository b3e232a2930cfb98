/** The graph core as mutable state: modules, inputs, outputs and hyperparameters held in
    arenas of one `Graph` object, named in its `Scope`, wired and valued in place by its
    methods, with the calls of the module hooks (`_update`, `_compile`, `_forward`) recorded in
    a ghost log. */
module Graphs {
  import opened Base
  import opened OrderedSets
  import opened Scopes
  import opened Nets
  import opened NetOps
  import opened FanOuts
  import opened Walks
  import opened EvalOrder
  import opened Values
  import opened Registrations

  /** A call of a module hook: `_update` after a hyperparameter the module depends on is set,
      `_compile` before its first forward computation, `_forward` for each one. */
  datatype Event = Updated(m: nat) | Compiled(m: nat) | Forwarded(m: nat)

  /** `e` names an element of the arenas of `n`. */
  predicate InArena<V>(n: Net<V>, e: Elem)
  {
    match e
    case Mod(m) => m < |n.modules|
    case In(i) => i < |n.inputs|
    case Out(o) => o < |n.outputs|
    case Hyp(h) => h < |n.hyperps|
  }

  /** The scope names exactly the elements of the arenas. */
  ghost predicate Registered<V>(n: Net<V>, names: map<Elem, string>)
  {
    forall e :: e in names <==> InArena(n, e)
  }

  /** Hook calls are about modules of the graph, a module is compiled exactly when its
      `_compile` hook has run, and that hook runs at most once per module. */
  ghost predicate LogOk<V>(n: Net<V>, log: seq<Event>)
  {
    && (forall k :: 0 <= k < |log| ==> log[k].m < |n.modules|)
    && (forall m :: 0 <= m < |n.modules| ==> (n.modules[m].compiled <==> Compiled(m) in log))
    && (forall a, b :: 0 <= a < b < |log| && log[a].Compiled? ==> log[a] != log[b])
  }

  /** The name prefix of a new module (`kind` "M") or hyperparameter (`kind` "H"): the kind,
      a dot, the given name or else the class name `base`, and a dash. */
  function NamePrefix(kind: string, name: Option<string>, base: string): string
  {
    kind + "." + (if name.Some? then name.value else base) + "-"
  }

  /** The scope still names exactly the arena elements after a change that keeps the arena
      sizes. */
  lemma RegisteredKept<V>(n: Net<V>, n2: Net<V>, names: map<Elem, string>)
    requires Registered(n, names)
    requires |n2.modules| == |n.modules| && |n2.inputs| == |n.inputs|
    requires |n2.outputs| == |n.outputs| && |n2.hyperps| == |n.hyperps|
    ensures Registered(n2, names)
  {
    forall e ensures InArena(n2, e) == InArena(n, e) {
    }
  }

  /** The bookkeeping of `Valid` survives a change that keeps the modules and the arena sizes. */
  lemma BookkeepingKept<V>(n: Net<V>, n2: Net<V>, names: map<Elem, string>, log: seq<Event>)
    requires Registered(n, names) && LogOk(n, log)
    requires n2.modules == n.modules && |n2.inputs| == |n.inputs|
    requires |n2.outputs| == |n.outputs| && |n2.hyperps| == |n.hyperps|
    ensures Registered(n2, names) && LogOk(n2, log)
  {
    RegisteredKept(n, n2, names);
  }

  /** Appending a hook call other than `_compile` keeps the log consistent. */
  lemma LogSnoc<V>(n: Net<V>, log: seq<Event>, e: Event)
    requires LogOk(n, log) && !e.Compiled? && e.m < |n.modules|
    ensures LogOk(n, log + [e])
  {
    forall m | 0 <= m < |n.modules| ensures Compiled(m) in log + [e] <==> Compiled(m) in log {
    }
  }

  /** An input has an output exactly when some output lists it. */
  lemma InputLinked<V>(n: Net<V>, i: nat)
    requires WellFormed(n) && i < |n.inputs|
    ensures n.inputs[i].fromOutput.Some? <==> exists o: nat :: o < |n.outputs| && i in n.outputs[o].toInputs
  {
    assert InputOk(n, i);
    forall o: nat | o < |n.outputs| && i in n.outputs[o].toInputs ensures n.inputs[i].fromOutput == Some(o) {
      SymmetricLinks(n, i, o);
    }
  }

  /** An output lists an input exactly when that input names it. */
  lemma OutputLinked<V>(n: Net<V>, o: nat)
    requires WellFormed(n) && o < |n.outputs|
    ensures NoDup(n.outputs[o].toInputs)
    ensures forall i: nat :: i in n.outputs[o].toInputs <==> i < |n.inputs| && n.inputs[i].fromOutput == Some(o)
  {
    assert OutputOk(n, o);
    forall i: nat | i < |n.inputs| && n.inputs[i].fromOutput == Some(o) ensures i in n.outputs[o].toInputs {
      SymmetricLinks(n, i, o);
    }
  }

  /** The `_update` calls made after a hyperparameter is set, one per dependent, in order. */
  function Notified(ms: seq<nat>): (r: seq<Event>)
    ensures |r| == |ms| && forall k :: 0 <= k < |r| ==> r[k] == Updated(ms[k])
  {
    seq(|ms|, k requires 0 <= k < |ms| => Updated(ms[k]))
  }

  /** Each dependent is notified, and only once when it is listed once. */
  lemma NotifiedFacts(ms: seq<nat>)
    ensures forall m :: Updated(m) in Notified(ms) <==> m in ms
    ensures NoDup(ms) ==> NoDup(Notified(ms))
  {
    forall m | m in ms ensures Updated(m) in Notified(ms) {
      var k :| 0 <= k < |ms| && ms[k] == m;
      assert Notified(ms)[k] == Updated(m);
    }
  }

  /** The hook calls of one forward computation of `m`: `_compile` unless `m` was already
      compiled, then `_forward`. */
  function RunEvents(m: nat, wasCompiled: bool): seq<Event>
  {
    (if wasCompiled then [] else [Compiled(m)]) + [Forwarded(m)]
  }

  /** The graph with module `m` marked compiled. */
  function WithCompiled<V>(n: Net<V>, m: nat): (r: Net<V>)
    requires m < |n.modules|
    ensures SameShape(n, r) && OnlyTouched(n, r, m)
  {
    n.(modules := n.modules[m := n.modules[m].(compiled := true)])
  }

  /** Compiling an uncompiled module and logging it keeps the log consistent. */
  lemma LogCompile<V>(n: Net<V>, log: seq<Event>, m: nat)
    requires LogOk(n, log) && m < |n.modules| && !n.modules[m].compiled
    ensures LogOk(WithCompiled(n, m), log + [Compiled(m)])
  {
    var n2 := WithCompiled(n, m);
    var log2 := log + [Compiled(m)];
    forall a, b | 0 <= a < b < |log2| && log2[a].Compiled? ensures log2[a] != log2[b] {
      if b == |log| {
        assert log2[a] == log[a] && log[a] in log;
      }
    }
  }

  /** The inputs given values, in the order given. */
  function InputIds<V>(kv: seq<(nat, V)>): (r: seq<nat>)
    ensures |r| == |kv| && forall k :: 0 <= k < |kv| ==> r[k] == kv[k].0
  {
    seq(|kv|, k requires 0 <= k < |kv| => kv[k].0)
  }

  /** The modules whose `_forward` hook the calls in `events` ran, in order. */
  function ForwardedModules(events: seq<Event>): (r: seq<nat>)
    ensures |r| <= |events|
  {
    if events == [] then []
    else
      var last := events[|events| - 1];
      ForwardedModules(events[..|events| - 1]) + (if last.Forwarded? then [last.m] else [])
  }

  /** One forward computation of `m` runs the `_forward` hook of `m` and of no other module. */
  lemma {:induction false} ForwardedRun(events: seq<Event>, m: nat, wasCompiled: bool)
    ensures ForwardedModules(events + RunEvents(m, wasCompiled)) == ForwardedModules(events) + [m]
  {
    var e := events + RunEvents(m, wasCompiled);
    assert e[..|e| - 1] == events + (if wasCompiled then [] else [Compiled(m)]);
    if !wasCompiled {
      assert e[..|e| - 1][..|e| - 2] == events;
    }
  }

  /** The `_forward` calls after a prefix `log0` of the log, once more modules have run. */
  lemma ForwardedSuffix(log0: seq<Event>, log: seq<Event>, m: nat, wasCompiled: bool)
    requires |log0| <= |log|
    ensures ForwardedModules((log + RunEvents(m, wasCompiled))[|log0|..]) == ForwardedModules(log[|log0|..]) + [m]
  {
    assert (log + RunEvents(m, wasCompiled))[|log0|..] == log[|log0|..] + RunEvents(m, wasCompiled);
    ForwardedRun(log[|log0|..], m, wasCompiled);
  }

  class Graph<V> {
    var net: Net<V>
    const scope: Scope
    ghost var log: seq<Event>

    ghost predicate Valid()
      reads this, scope
    {
      && WellFormed(net) && scope.Valid()
      && Registered(net, scope.elemToName)
      && LogOk(net, log)
    }

    /** An empty graph with a scope of its own. */
    constructor ()
      ensures Valid() && fresh(scope)
      ensures net == Net([], [], [], []) && log == []
      ensures scope.nameToElem == map[] && scope.elemToName == map[]
    {
      net := Net([], [], [], []);
      scope := new Scope();
      log := [];
    }

    /** The name of an element of the graph; every element has one. */
    function GetName(e: Elem): (r: Result<string>)
      requires Valid()
      reads this, scope
      ensures r.Ok? <==> InArena(net, e)
      ensures r.Ok? ==> scope.GetElem(r.value) == Ok(e)
    {
      scope.GetName(e)
    }

    /** `Module.__init__`: a new module without ports or roles, named with the first unused
        name for its prefix. */
    method NewModule(name: Option<string>, base: string) returns (m: nat, mname: string)
      requires Valid()
      modifies this, scope
      ensures Valid()
      ensures m == |old(net.modules)| && net == WithModule(old(net)) && log == old(log)
      ensures mname !in old(scope.nameToElem)
      ensures exists i :: (mname == Candidate(NamePrefix("M", name, base), i)
                           && FirstUnused(old(scope.nameToElem).Keys, NamePrefix("M", name, base), i))
      ensures scope.nameToElem == old(scope.nameToElem)[mname := Mod(m)]
      ensures scope.elemToName == old(scope.elemToName)[Mod(m) := mname]
      ensures GetName(Mod(m)) == Ok(mname)
    {
      ghost var i;
      mname, i := scope.GetUnusedName(NamePrefix("M", name, base));
      m := |net.modules|;
      var out := scope.Register(mname, Mod(m));
      ModuleWellFormed(net);
      net := WithModule(net);
    }

    /** `Hyperparameter.__init__`: a new unset hyperparameter without dependents, named with
        the first unused name for its prefix. */
    method NewHyperparameter(name: Option<string>, base: string) returns (h: nat, hname: string)
      requires Valid()
      modifies this, scope
      ensures Valid()
      ensures h == |old(net.hyperps)| && net == WithHyperp(old(net)) && log == old(log)
      ensures hname !in old(scope.nameToElem)
      ensures exists i :: (hname == Candidate(NamePrefix("H", name, base), i)
                           && FirstUnused(old(scope.nameToElem).Keys, NamePrefix("H", name, base), i))
      ensures scope.nameToElem == old(scope.nameToElem)[hname := Hyp(h)]
      ensures scope.elemToName == old(scope.elemToName)[Hyp(h) := hname]
      ensures GetName(Hyp(h)) == Ok(hname)
    {
      ghost var i;
      hname, i := scope.GetUnusedName(NamePrefix("H", name, base));
      h := |net.hyperps|;
      var out := scope.Register(hname, Hyp(h));
      HyperpWellFormed(net);
      net := WithHyperp(net);
    }

    /** `Module._register_input`: a new unconnected input of `m` under `local`, named after
        its module; fails when `m` already has an input `local` or the name is taken, and then
        changes nothing. */
    method RegisterInput(m: nat, local: string) returns (out: Outcome)
      requires Valid() && m < |net.modules|
      modifies this, scope
      ensures Valid() && log == old(log)
      ensures Mod(m) in old(scope.elemToName)
      ensures out == if local in Names(old(net.modules[m].inputs)) then Failure(DuplicateRole)
        else if PortName(old(scope.elemToName)[Mod(m)], "I", local) in old(scope.nameToElem) then Failure(DuplicateName)
        else Pass
      ensures out.Failure? ==> net == old(net) && scope.nameToElem == old(scope.nameToElem) && scope.elemToName == old(scope.elemToName)
      ensures out.Pass? ==> net == WithInput(old(net), m, local)
      ensures out.Pass? ==> scope.nameToElem == old(scope.nameToElem)[PortName(old(scope.elemToName)[Mod(m)], "I", local) := In(|old(net.inputs)|)]
      ensures RegState(net, scope.nameToElem, scope.elemToName, out)
           == AddPort(RegState(old(net), old(scope.nameToElem), old(scope.elemToName), Pass), m, old(scope.elemToName)[Mod(m)], true, local)
    {
      assert InArena(net, Mod(m));
      if local in Names(net.modules[m].inputs) {
        return Failure(DuplicateRole);
      }
      var i := |net.inputs|;
      out := scope.Register(PortName(scope.elemToName[Mod(m)], "I", local), In(i));
      if out.Failure? {
        return;
      }
      InputWellFormed(net, m, local);
      net := WithInput(net, m, local);
    }

    /** `Module._register_output`: a new unconnected output of `m` under `local`, named after
        its module; fails when `m` already has an output `local` or the name is taken, and
        then changes nothing. */
    method RegisterOutput(m: nat, local: string) returns (out: Outcome)
      requires Valid() && m < |net.modules|
      modifies this, scope
      ensures Valid() && log == old(log)
      ensures Mod(m) in old(scope.elemToName)
      ensures out == if local in Names(old(net.modules[m].outputs)) then Failure(DuplicateRole)
        else if PortName(old(scope.elemToName)[Mod(m)], "O", local) in old(scope.nameToElem) then Failure(DuplicateName)
        else Pass
      ensures out.Failure? ==> net == old(net) && scope.nameToElem == old(scope.nameToElem) && scope.elemToName == old(scope.elemToName)
      ensures out.Pass? ==> net == WithOutput(old(net), m, local)
      ensures out.Pass? ==> scope.nameToElem == old(scope.nameToElem)[PortName(old(scope.elemToName)[Mod(m)], "O", local) := Out(|old(net.outputs)|)]
      ensures RegState(net, scope.nameToElem, scope.elemToName, out)
           == AddPort(RegState(old(net), old(scope.nameToElem), old(scope.elemToName), Pass), m, old(scope.elemToName)[Mod(m)], false, local)
    {
      assert InArena(net, Mod(m));
      if local in Names(net.modules[m].outputs) {
        return Failure(DuplicateRole);
      }
      var o := |net.outputs|;
      out := scope.Register(PortName(scope.elemToName[Mod(m)], "O", local), Out(o));
      if out.Failure? {
        return;
      }
      OutputWellFormed(net, m, local);
      net := WithOutput(net, m, local);
    }

    /** `Module._register_hyperparameter`: `m` depends on `h` under `role`, and `h` lists `m`
        among its dependents (once); fails when `m` already has the role, changing nothing. */
    method RegisterHyperparameter(m: nat, h: nat, role: string) returns (out: Outcome)
      requires Valid() && m < |net.modules| && h < |net.hyperps|
      modifies this
      ensures Valid() && log == old(log)
      ensures out == if role in Names(old(net.modules[m].hyperps)) then Failure(DuplicateRole) else Pass
      ensures out.Failure? ==> net == old(net)
      ensures out.Pass? ==> net == WithDependency(old(net), m, h, role)
      ensures RegState(net, scope.nameToElem, scope.elemToName, out)
           == AddDependency(RegState(old(net), scope.nameToElem, scope.elemToName, Pass), m, h, role)
    {
      if role in Names(net.modules[m].hyperps) {
        return Failure(DuplicateRole);
      }
      DependencyWellFormed(net, m, h, role);
      net := WithDependency(net, m, h, role);
      out := Pass;
    }

    /** `Input.is_connected`: whether some output feeds `i`. */
    function InputIsConnected(i: nat): (r: bool)
      requires Valid() && i < |net.inputs|
      reads this, scope
      ensures r <==> exists o: nat :: o < |net.outputs| && i in net.outputs[o].toInputs
    {
      InputLinked(net, i);
      net.inputs[i].fromOutput.Some?
    }

    /** `Input.get_connected_output`: the output that lists `i`, if any. */
    function GetConnectedOutput(i: nat): (r: Option<nat>)
      requires Valid() && i < |net.inputs|
      reads this, scope
      ensures r.Some? ==> r.value < |net.outputs| && i in net.outputs[r.value].toInputs
      ensures r.None? ==> forall o: nat :: o < |net.outputs| ==> i !in net.outputs[o].toInputs
    {
      InputLinked(net, i);
      assert InputOk(net, i);
      net.inputs[i].fromOutput
    }

    /** `Output.is_connected`: whether `o` feeds some input. */
    function OutputIsConnected(o: nat): (r: bool)
      requires Valid() && o < |net.outputs|
      reads this, scope
      ensures r <==> exists i: nat :: i < |net.inputs| && net.inputs[i].fromOutput == Some(o)
    {
      OutputLinked(net, o);
      assert |net.outputs[o].toInputs| > 0 ==> net.outputs[o].toInputs[0] in net.outputs[o].toInputs;
      |net.outputs[o].toInputs| > 0
    }

    /** `Output.get_connected_inputs`: the inputs fed by `o`, each once, in connection order. */
    function GetConnectedInputs(o: nat): (r: seq<nat>)
      requires Valid() && o < |net.outputs|
      reads this, scope
      ensures NoDup(r)
      ensures forall i: nat :: i in r <==> i < |net.inputs| && net.inputs[i].fromOutput == Some(o)
    {
      OutputLinked(net, o);
      net.outputs[o].toInputs
    }

    /** `Input.get_module`: the module that owns `i`, which lists `i` among its inputs. */
    function InputModule(i: nat): (r: nat)
      requires Valid() && i < |net.inputs|
      reads this, scope
      ensures r < |net.modules| && i in Ids(net.modules[r].inputs)
    {
      assert InputOk(net, i);
      net.inputs[i].owner
    }

    /** `Output.get_module`: the module that owns `o`, which lists `o` among its outputs. */
    function OutputModule(o: nat): (r: nat)
      requires Valid() && o < |net.outputs|
      reads this, scope
      ensures r < |net.modules| && o in Ids(net.modules[r].outputs)
    {
      assert OutputOk(net, o);
      net.outputs[o].owner
    }

    /** `Input.connect` (and `Output.connect`): `i` takes `o` as its output and `o` lists `i`
        last; fails when `i` already has an output, changing nothing. */
    method Connect(i: nat, o: nat) returns (out: Outcome)
      requires Valid() && i < |net.inputs| && o < |net.outputs|
      modifies this
      ensures Valid() && log == old(log)
      ensures out == if old(net.inputs[i].fromOutput).Some? then Failure(AlreadyConnected) else Pass
      ensures out.Failure? ==> net == old(net)
      ensures out.Pass? ==> net == WithConnection(old(net), i, o)
      ensures out.Pass? ==> GetConnectedOutput(i) == Some(o) && GetConnectedInputs(o) == old(net.outputs[o].toInputs) + [i]
    {
      if net.inputs[i].fromOutput.Some? {
        return Failure(AlreadyConnected);
      }
      ConnectWellFormed(net, i, o);
      BookkeepingKept(net, WithConnection(net, i, o), scope.elemToName, log);
      net := WithConnection(net, i, o);
      out := Pass;
    }

    /** `Input.disconnect`: `i` loses its output, which stops listing it; fails when `i` has no
        output, changing nothing. */
    method Disconnect(i: nat) returns (out: Outcome)
      requires Valid() && i < |net.inputs|
      modifies this
      ensures Valid() && log == old(log)
      ensures out == if old(net.inputs[i].fromOutput).None? then Failure(NotConnected) else Pass
      ensures out.Failure? ==> net == old(net)
      ensures out.Pass? ==> (old(net.inputs[i].fromOutput.value) < |old(net.outputs)|
                             && net == WithoutConnection(old(net), i))
      ensures out.Pass? ==> (!InputIsConnected(i)
                             && GetConnectedInputs(old(net.inputs[i].fromOutput.value))
                                == Remove(old(net.outputs[net.inputs[i].fromOutput.value].toInputs), i))
    {
      assert InputOk(net, i);
      if net.inputs[i].fromOutput.None? {
        return Failure(NotConnected);
      }
      DisconnectWellFormed(net, i);
      BookkeepingKept(net, WithoutConnection(net, i), scope.elemToName, log);
      net := WithoutConnection(net, i);
      out := Pass;
    }

    /** `Input.reroute_connected_output`: the output of `i` moves to `j`. Fails with nothing
        changed when `i` has no output; fails after disconnecting `i` when `j` (other than `i`)
        already has an output. */
    method RerouteConnectedOutput(i: nat, j: nat) returns (out: Outcome)
      requires Valid() && i < |net.inputs| && j < |net.inputs|
      modifies this
      ensures Valid() && log == old(log)
      ensures old(net.inputs[i].fromOutput).None? ==> out == Failure(NotConnected) && net == old(net)
      ensures old(net.inputs[i].fromOutput).Some? ==>
        && old(net.inputs[i].fromOutput.value) < |old(net.outputs)|
        && out == (if i != j && old(net.inputs[j].fromOutput).Some? then Failure(AlreadyConnected) else Pass)
        && net == (if out.Pass? then WithConnection(WithoutConnection(old(net), i), j, old(net.inputs[i].fromOutput.value))
                   else WithoutConnection(old(net), i))
      ensures out.Pass? ==> (net.inputs[j].fromOutput == old(net.inputs[i].fromOutput)
                             && (i != j ==> net.inputs[i].fromOutput.None?))
    {
      assert InputOk(net, i);
      var old_o := net.inputs[i].fromOutput;
      out := Disconnect(i);
      if out.Failure? {
        return;
      }
      out := Connect(j, old_o.value);
    }

    /** `Hyperparameter.is_set`. */
    function IsSet(h: nat): bool
      requires h < |net.hyperps|
      reads this
    {
      net.hyperps[h].val.Some?
    }

    /** `Hyperparameter.get_val`: the value of a set hyperparameter; fails when it is unset. */
    function GetVal(h: nat): (r: Result<V>)
      requires h < |net.hyperps|
      reads this
      ensures r.Ok? <==> IsSet(h)
      ensures r.Fail? ==> r.error == NotSet
    {
      if net.hyperps[h].val.Some? then Ok(net.hyperps[h].val.value) else Fail(NotSet)
    }

    /** `Hyperparameter.set_val`: assigns `v` once; fails when `h` is already set, or when the
        value check (its verdict is `accepted`) rejects `v`, changing nothing. On success each
        dependent module is notified once, in registration order. */
    method SetVal(h: nat, v: V, accepted: bool) returns (out: Outcome)
      requires Valid() && h < |net.hyperps|
      modifies this
      ensures Valid()
      ensures out == if old(IsSet(h)) then Failure(AlreadySet) else if !accepted then Failure(InvalidValue) else Pass
      ensures out.Failure? ==> net == old(net) && log == old(log)
      ensures out.Pass? ==> net == WithHyperpValue(old(net), h, v) && GetVal(h) == Ok(v)
      ensures out.Pass? ==> log == old(log) + Notified(old(net.hyperps[h].dependents))
      ensures out.Pass? ==> (NoDup(log[|old(log)|..])
                             && forall m :: Updated(m) in log[|old(log)|..] <==> m in old(net.hyperps[h].dependents))
    {
      if net.hyperps[h].val.Some? {
        return Failure(AlreadySet);
      }
      if !accepted {
        return Failure(InvalidValue);
      }
      SameShapeWellFormed(net, WithHyperpValue(net, h, v));
      BookkeepingKept(net, WithHyperpValue(net, h, v), scope.elemToName, log);
      net := WithHyperpValue(net, h, v);
      out := Pass;
      var deps := net.hyperps[h].dependents;
      assert HyperpOk(net, h);
      ghost var log0 := log;
      var k := 0;
      while k < |deps|
        invariant 0 <= k <= |deps|
        invariant Valid() && log == log0 + Notified(deps[..k])
        invariant net == WithHyperpValue(old(net), h, v)
        invariant forall q :: 0 <= q < |deps| ==> deps[q] < |net.modules|
      {
        LogSnoc(net, log, Updated(deps[k]));
        assert deps[..k + 1] == deps[..k] + [deps[k]];
        log := log + [Updated(deps[k])];
        k := k + 1;
      }
      assert deps[..k] == deps;
      assert log[|old(log)|..] == Notified(deps);
      NotifiedFacts(deps);
    }

    /** The body of the fan-out loops: `i` is disconnected and, when `dest` names an output,
        connected to it. */
    method MoveInput(i: nat, dest: Option<nat>)
      requires Valid() && i < |net.inputs| && net.inputs[i].fromOutput.Some?
      requires dest.Some? ==> dest.value < |net.outputs|
      modifies this
      ensures Valid() && log == old(log)
      ensures net == Moved(old(net), i, dest)
    {
      var r := Disconnect(i);
      if dest.Some? {
        r := Connect(i, dest.value);
      }
    }

    /** `Output.disconnect_all` as written: it walks the fan-out list of `o` by position while
        each step removes the input it reads, so only the inputs at even positions are
        disconnected and those at odd positions stay connected to `o`. */
    method DisconnectAll(o: nat)
      requires Valid() && o < |net.outputs|
      modifies this
      ensures Valid() && log == old(log)
      ensures Rewired(old(net), net, o, None, EvenPositions(old(net.outputs[o].toInputs)), OddPositions(old(net.outputs[o].toInputs)))
    {
      ghost var n0 := net;
      ghost var L := net.outputs[o].toInputs;
      assert OutputOk(net, o);
      RewiredStart(net, o, None);
      var t := 0;
      while t < |net.outputs[o].toInputs|
        invariant Valid() && log == old(log) && 2 * t <= |L| + 1
        invariant Rewired(n0, net, o, None, LiveGone(L, t), LiveKept(L, t))
        decreases |L| - t
      {
        LiveLength(L, t);
        LiveNext(o, None, t, n0, L);
        t := t + 1;
      }
      LiveLength(L, t);
    }

    /** One step of the walk of `disconnect_all` and `reroute_all_connected_inputs` as
        written: the input at position `t` of the live fan-out list of `o` is moved. */
    method LiveNext(o: nat, dest: Option<nat>, t: nat, ghost n0: Net<V>, ghost L: seq<nat>)
      requires Valid() && NoDup(L) && 2 * t < |L|
      requires dest.Some? ==> dest.value < |net.outputs|
      requires Rewired(n0, net, o, dest, LiveGone(L, t), LiveKept(L, t))
      modifies this
      ensures Valid() && log == old(log)
      ensures Rewired(n0, net, o, dest, LiveGone(L, t + 1), LiveKept(L, t + 1))
    {
      LiveStep(n0, net, o, dest, L, t);
      var ix := net.outputs[o].toInputs[t];
      MoveInput(ix, dest);
    }

    /** `Output.disconnect_all` as evidently intended: walking a copy of the fan-out list
        disconnects every input fed by `o`, leaving `o` unconnected. */
    method DisconnectAllSnapshot(o: nat)
      requires Valid() && o < |net.outputs|
      modifies this
      ensures Valid() && log == old(log)
      ensures Rewired(old(net), net, o, None, old(net.outputs[o].toInputs), [])
      ensures !OutputIsConnected(o)
    {
      ghost var n0 := net;
      var L := net.outputs[o].toInputs;
      assert OutputOk(net, o);
      RewiredStart(net, o, None);
      var t := 0;
      while t < |L|
        invariant Valid() && log == old(log) && t <= |L|
        invariant Rewired(n0, net, o, None, L[..t], L[t..])
      {
        SnapshotStep(n0, net, o, None, L, t);
        MoveInput(L[t], None);
        t := t + 1;
      }
      assert L[..t] == L;
    }

    /** `Output.reroute_all_connected_inputs` as written: like `disconnect_all`, only the
        inputs at even positions of the fan-out list of `o` are moved to `o2`, appended to its
        list in that order; those at odd positions stay with `o`. */
    method RerouteAllConnectedInputs(o: nat, o2: nat)
      requires Valid() && o < |net.outputs| && o2 < |net.outputs| && o2 != o
      modifies this
      ensures Valid() && log == old(log)
      ensures Rewired(old(net), net, o, Some(o2), EvenPositions(old(net.outputs[o].toInputs)), OddPositions(old(net.outputs[o].toInputs)))
    {
      ghost var n0 := net;
      ghost var L := net.outputs[o].toInputs;
      assert OutputOk(net, o);
      RewiredStart(net, o, Some(o2));
      var t := 0;
      while t < |net.outputs[o].toInputs|
        invariant Valid() && log == old(log) && 2 * t <= |L| + 1
        invariant Rewired(n0, net, o, Some(o2), LiveGone(L, t), LiveKept(L, t))
        decreases |L| - t
      {
        LiveLength(L, t);
        LiveNext(o, Some(o2), t, n0, L);
        t := t + 1;
      }
      LiveLength(L, t);
    }

    /** `Output.reroute_all_connected_inputs` as evidently intended: walking a copy of the
        fan-out list moves every input fed by `o` to `o2`, in order, leaving `o` unconnected. */
    method RerouteAllSnapshot(o: nat, o2: nat)
      requires Valid() && o < |net.outputs| && o2 < |net.outputs| && o2 != o
      modifies this
      ensures Valid() && log == old(log)
      ensures Rewired(old(net), net, o, Some(o2), old(net.outputs[o].toInputs), [])
      ensures !OutputIsConnected(o)
    {
      ghost var n0 := net;
      var L := net.outputs[o].toInputs;
      assert OutputOk(net, o);
      RewiredStart(net, o, Some(o2));
      var t := 0;
      while t < |L|
        invariant Valid() && log == old(log) && t <= |L|
        invariant Rewired(n0, net, o, Some(o2), L[..t], L[t..])
      {
        SnapshotStep(n0, net, o, Some(o2), L, t);
        MoveInput(L[t], Some(o2));
        t := t + 1;
      }
      assert L[..t] == L;
    }

    /** `Module._register`: registers the inputs, then the outputs, then the hyperparameter
        roles, in order, stopping at the first registration that fails. When all succeed, the
        module's roles are extended by exactly the given names. */
    method Register(m: nat, inputNames: seq<string>, outputNames: seq<string>, hyps: seq<(string, nat)>) returns (out: Outcome)
      requires Valid() && m < |net.modules|
      requires forall q :: 0 <= q < |hyps| ==> hyps[q].1 < |net.hyperps|
      modifies this, scope
      ensures Valid() && log == old(log) && |net.modules| == |old(net.modules)|
      ensures out.Failure? ==> out.error == DuplicateRole || out.error == DuplicateName
      ensures out.Pass? ==> Names(net.modules[m].inputs) == Names(old(net.modules[m].inputs)) + inputNames
      ensures out.Pass? ==> Names(net.modules[m].outputs) == Names(old(net.modules[m].outputs)) + outputNames
      ensures out.Pass? ==> net.modules[m].hyperps == old(net.modules[m].hyperps) + hyps
      ensures Mod(m) in old(scope.elemToName)
      ensures RegState(net, scope.nameToElem, scope.elemToName, out)
           == RegisterAll(RegState(old(net), old(scope.nameToElem), old(scope.elemToName), Pass), m,
                          old(scope.elemToName)[Mod(m)], inputNames, outputNames, hyps)
    {
      out := RegisterInputs(m, inputNames);
      if out.Failure? {
        return;
      }
      out := RegisterOutputs(m, outputNames);
      if out.Failure? {
        return;
      }
      out := RegisterHyperparameters(m, hyps);
    }

    /** The first loop of `Module._register`. */
    method RegisterInputs(m: nat, names: seq<string>) returns (out: Outcome)
      requires Valid() && m < |net.modules|
      modifies this, scope
      ensures Valid() && log == old(log) && |net.modules| == |old(net.modules)| && |net.hyperps| == |old(net.hyperps)|
      ensures out.Failure? ==> out.error == DuplicateRole || out.error == DuplicateName
      ensures out.Pass? ==> Names(net.modules[m].inputs) == Names(old(net.modules[m].inputs)) + names
      ensures net.modules[m].outputs == old(net.modules[m].outputs) && net.modules[m].hyperps == old(net.modules[m].hyperps)
      ensures Mod(m) in old(scope.elemToName) && Mod(m) in scope.elemToName
      ensures scope.elemToName[Mod(m)] == old(scope.elemToName)[Mod(m)]
      ensures RegState(net, scope.nameToElem, scope.elemToName, out)
           == AddPorts(RegState(old(net), old(scope.nameToElem), old(scope.elemToName), Pass), m, old(scope.elemToName)[Mod(m)], true, names)
    {
      assert InArena(net, Mod(m));
      ghost var s0 := RegState(net, scope.nameToElem, scope.elemToName, Pass);
      ghost var mname := scope.elemToName[Mod(m)];
      var k := 0;
      out := Pass;
      while k < |names|
        invariant k <= |names| && Valid() && log == old(log) && |net.modules| == |old(net.modules)|
        invariant |net.hyperps| == |old(net.hyperps)| && out == Pass
        invariant net.modules[m].outputs == old(net.modules[m].outputs) && net.modules[m].hyperps == old(net.modules[m].hyperps)
        invariant Mod(m) in scope.elemToName && scope.elemToName[Mod(m)] == mname
        invariant RegState(net, scope.nameToElem, scope.elemToName, out) == AddPorts(s0, m, mname, true, names[..k])
      {
        assert names[..k + 1][..k] == names[..k];
        out := RegisterInput(m, names[k]);
        if out.Failure? {
          AddPortsStuck(s0, m, mname, true, names, k + 1);
          break;
        }
        k := k + 1;
      }
      if out.Pass? {
        assert names[..k] == names;
        AddPortsPass(s0, m, mname, true, names);
      }
    }

    /** The second loop of `Module._register`. */
    method RegisterOutputs(m: nat, names: seq<string>) returns (out: Outcome)
      requires Valid() && m < |net.modules|
      modifies this, scope
      ensures Valid() && log == old(log) && |net.modules| == |old(net.modules)| && |net.hyperps| == |old(net.hyperps)|
      ensures out.Failure? ==> out.error == DuplicateRole || out.error == DuplicateName
      ensures out.Pass? ==> Names(net.modules[m].outputs) == Names(old(net.modules[m].outputs)) + names
      ensures net.modules[m].inputs == old(net.modules[m].inputs) && net.modules[m].hyperps == old(net.modules[m].hyperps)
      ensures Mod(m) in old(scope.elemToName) && Mod(m) in scope.elemToName
      ensures scope.elemToName[Mod(m)] == old(scope.elemToName)[Mod(m)]
      ensures RegState(net, scope.nameToElem, scope.elemToName, out)
           == AddPorts(RegState(old(net), old(scope.nameToElem), old(scope.elemToName), Pass), m, old(scope.elemToName)[Mod(m)], false, names)
    {
      assert InArena(net, Mod(m));
      ghost var s0 := RegState(net, scope.nameToElem, scope.elemToName, Pass);
      ghost var mname := scope.elemToName[Mod(m)];
      var k := 0;
      out := Pass;
      while k < |names|
        invariant k <= |names| && Valid() && log == old(log) && |net.modules| == |old(net.modules)|
        invariant |net.hyperps| == |old(net.hyperps)| && out == Pass
        invariant net.modules[m].inputs == old(net.modules[m].inputs) && net.modules[m].hyperps == old(net.modules[m].hyperps)
        invariant Mod(m) in scope.elemToName && scope.elemToName[Mod(m)] == mname
        invariant RegState(net, scope.nameToElem, scope.elemToName, out) == AddPorts(s0, m, mname, false, names[..k])
      {
        assert names[..k + 1][..k] == names[..k];
        out := RegisterOutput(m, names[k]);
        if out.Failure? {
          AddPortsStuck(s0, m, mname, false, names, k + 1);
          break;
        }
        k := k + 1;
      }
      if out.Pass? {
        assert names[..k] == names;
        AddPortsPass(s0, m, mname, false, names);
      }
    }

    /** The third loop of `Module._register`. */
    method RegisterHyperparameters(m: nat, hyps: seq<(string, nat)>) returns (out: Outcome)
      requires Valid() && m < |net.modules|
      requires forall q :: 0 <= q < |hyps| ==> hyps[q].1 < |net.hyperps|
      modifies this
      ensures Valid() && log == old(log) && |net.modules| == |old(net.modules)|
      ensures out.Failure? ==> out.error == DuplicateRole
      ensures out.Pass? ==> net.modules[m].hyperps == old(net.modules[m].hyperps) + hyps
      ensures net.modules[m].inputs == old(net.modules[m].inputs) && net.modules[m].outputs == old(net.modules[m].outputs)
      ensures RegState(net, scope.nameToElem, scope.elemToName, out)
           == AddDependencies(RegState(old(net), scope.nameToElem, scope.elemToName, Pass), m, hyps)
    {
      ghost var s0 := RegState(net, scope.nameToElem, scope.elemToName, Pass);
      var k := 0;
      out := Pass;
      while k < |hyps|
        invariant k <= |hyps| && Valid() && log == old(log) && |net.modules| == |old(net.modules)|
        invariant |net.hyperps| == |old(net.hyperps)| && out == Pass
        invariant net.modules[m].inputs == old(net.modules[m].inputs) && net.modules[m].outputs == old(net.modules[m].outputs)
        invariant RegState(net, scope.nameToElem, scope.elemToName, out) == AddDependencies(s0, m, hyps[..k])
      {
        assert hyps[..k + 1][..k] == hyps[..k];
        out := RegisterHyperparameter(m, hyps[k].1, hyps[k].0);
        if out.Failure? {
          AddDependenciesStuck(s0, m, hyps, k + 1);
          break;
        }
        k := k + 1;
      }
      if out.Pass? {
        assert hyps[..k] == hyps;
        AddDependenciesPass(s0, m, hyps);
      }
    }

    /** `Module._get_input_values`: each input name of `m` mapped to the value of its input;
        fails when an input has no value. */
    function GetInputValues(m: nat): (r: Result<map<string, V>>)
      requires Valid() && m < |net.modules|
      reads this, scope
      ensures forall k :: 0 <= k < |net.modules[m].inputs| ==> net.modules[m].inputs[k].1 < |net.inputs|
      ensures r.Fail? <==> exists k :: 0 <= k < |net.modules[m].inputs| && net.inputs[net.modules[m].inputs[k].1].val.None?
      ensures r.Fail? ==> r.error == MissingValue
      ensures r.Ok? ==> forall name :: name in r.value <==> name in Names(net.modules[m].inputs)
      ensures r.Ok? ==> forall k :: 0 <= k < |net.modules[m].inputs| ==>
                net.modules[m].inputs[k].0 in r.value
                && Some(r.value[net.modules[m].inputs[k].0]) == net.inputs[net.modules[m].inputs[k].1].val
    {
      assert ModuleOk(net, m);
      ValuesOf(net.modules[m].inputs, InputVals(net))
    }

    /** `Module._get_hyperp_values`: each hyperparameter role of `m` mapped to the value of its
        hyperparameter; fails when one is unset. */
    function GetHyperpValues(m: nat): (r: Result<map<string, V>>)
      requires Valid() && m < |net.modules|
      reads this, scope
      ensures forall k :: 0 <= k < |net.modules[m].hyperps| ==> net.modules[m].hyperps[k].1 < |net.hyperps|
      ensures r.Fail? <==> exists k :: 0 <= k < |net.modules[m].hyperps| && !IsSet(net.modules[m].hyperps[k].1)
      ensures r.Fail? ==> r.error == MissingValue
      ensures r.Ok? ==> forall name :: name in r.value <==> name in Names(net.modules[m].hyperps)
      ensures r.Ok? ==> forall k :: 0 <= k < |net.modules[m].hyperps| ==>
                net.modules[m].hyperps[k].0 in r.value
                && Ok(r.value[net.modules[m].hyperps[k].0]) == GetVal(net.modules[m].hyperps[k].1)
    {
      assert ModuleOk(net, m);
      ValuesOf(net.modules[m].hyperps, HyperpVals(net))
    }

    /** `Module._set_output_values`: gives each named output of `m` its value, in order; fails
        at the first name that is not an output of `m`, keeping the assignments before it. */
    method SetOutputValues(m: nat, vals: seq<(string, V)>) returns (out: Outcome)
      requires Valid() && m < |net.modules|
      modifies this
      ensures Valid() && log == old(log)
      ensures out == if KnownPrefix(old(net.modules[m].outputs), vals) == |vals| then Pass else Failure(UnknownName)
      ensures OutputsAssigned(old(net), net, m, vals[..KnownPrefix(old(net.modules[m].outputs), vals)])
    {
      ghost var n0 := net;
      ghost var f := KnownPrefix(net.modules[m].outputs, vals);
      AssignedStart(net, m, vals);
      var k := 0;
      out := Pass;
      while k < |vals|
        invariant k <= f && log == old(log) && m < |net.modules| && out == Pass
        invariant OutputsAssigned(n0, net, m, vals[..k])
      {
        var q := IndexOf(net.modules[m].outputs, vals[k].0);
        if q.None? {
          assert k == f;
          out := Failure(UnknownName);
          break;
        }
        AssignStep(n0, net, m, vals, k, q.value);
        net := WithOutputValue(net, net.modules[m].outputs[q.value].1, vals[k].1);
        k := k + 1;
      }
      assert k == f;
      AssignedValid(n0, net, m, vals[..k]);
    }

    /** What `Valid` needs after writing output values. */
    lemma AssignedValid(n0: Net<V>, n: Net<V>, m: nat, vals: seq<(string, V)>)
      requires WellFormed(n0) && Registered(n0, scope.elemToName) && LogOk(n0, log)
      requires m < |n0.modules| && OutputsAssigned(n0, n, m, vals)
      ensures WellFormed(n) && Registered(n, scope.elemToName) && LogOk(n, log)
    {
      assert SameShape(n0, n);
      SameShapeWellFormed(n0, n);
      BookkeepingKept(n0, n, scope.elemToName, log);
    }

    /** `Module.forward`: compiles `m` the first time only, then runs its forward hook. */
    method ModuleForward(m: nat)
      requires Valid() && m < |net.modules|
      modifies this
      ensures Valid()
      ensures net == WithCompiled(old(net), m)
      ensures log == old(log) + RunEvents(m, old(net.modules[m].compiled))
    {
      if !net.modules[m].compiled {
        LogCompile(net, log, m);
        SameShapeWellFormed(net, WithCompiled(net, m));
        RegisteredKept(net, WithCompiled(net, m), scope.elemToName);
        log := log + [Compiled(m)];
        net := WithCompiled(net, m);
      } else {
        assert net == WithCompiled(net, m);
      }
      LogSnoc(net, log, Forwarded(m));
      log := log + [Forwarded(m)];
    }
  
    /** The inner loop of `forward`: every input fed by output `o` receives the value of `o`. */
    method FeedInputs(o: nat)
      requires Valid() && o < |net.outputs|
      modifies this
      ensures Valid() && log == old(log)
      ensures FedAll(old(net), net, o)
    {
      ghost var n0 := net;
      var targets := net.outputs[o].toInputs;
      FedPrefixStart(net, o);
      var u := 0;
      while u < |targets|
        invariant u <= |targets| && log == old(log)
        invariant FedPrefix(n0, net, o, u)
      {
        FedPrefixStep(n0, net, o, u);
        net := WithInputValue(net, targets[u], net.outputs[o].val);
        u := u + 1;
      }
      FedPrefixDone(n0, net, o);
      SameShapeWellFormed(n0, net);
      BookkeepingKept(n0, net, scope.elemToName, log);
    }

    /** The outer loop of `forward` for one module: each output of `m`, in role order,
        passes its value to the inputs it feeds; an output that feeds an input but has no
        value stops the loop with the missing-attribute error. */
    method PropagateFrom(m: nat) returns (out: Outcome)
      requires Valid() && m < |net.modules|
      modifies this
      ensures Valid() && log == old(log)
      ensures OnlyTouched(old(net), net, m) && net.outputs == old(net.outputs)
      ensures out == if exists k :: 0 <= k < |old(net.modules[m].outputs)| && MissingOutput(old(net), old(net.modules[m].outputs[k].1))
                     then Failure(MissingValue) else Pass
      ensures out.Pass? ==> Propagated(net, m)
    {
      ghost var n0 := net;
      var rs := net.modules[m].outputs;
      assert ModuleOk(net, m);
      OnlyTouchedRefl(net, m);
      var t := 0;
      out := Pass;
      while t < |rs|
        invariant t <= |rs| && out == Pass && log == old(log) && Valid()
        invariant OnlyTouched(n0, net, m) && net.outputs == n0.outputs && net.modules == n0.modules
        invariant forall q :: 0 <= q < t ==> OutputPropagated(net, rs[q].1) && !MissingOutput(n0, rs[q].1)
      {
        var o := rs[t].1;
        if |net.outputs[o].toInputs| > 0 && net.outputs[o].val.None? {
          out := Failure(MissingValue);
          break;
        }
        ghost var pre := net;
        FeedInputs(o);
        FedAllFacts(pre, net, o);
        OnlyTouchedTrans(n0, pre, net, m);
        forall q | 0 <= q < t ensures rs[q].1 != o {
          assert Ids(rs)[q] == rs[q].1 && Ids(rs)[t] == o;
        }
        t := t + 1;
      }
    }

    /** One module's turn in `forward`: its `Module.forward` (compile once, then the forward
        hook, which reads the module's input and hyperparameter values and writes its
        outputs), then propagation of its outputs. Fails with the `KeyError` of
        `_set_output_values` when the hook names an output `m` does not have, and with the
        missing-attribute error when an output that feeds an input still has no value. */
    method RunModule(m: nat, hook: Hook<V>) returns (out: Outcome)
      requires Valid() && m < |net.modules|
      modifies this
      ensures Valid()
      ensures log == old(log) + RunEvents(m, old(net.modules[m].compiled))
      ensures OnlyTouched(old(net), net, m) && net.modules[m].compiled
      ensures forall x :: 0 <= x < |old(net.modules)| && old(net.modules[x].compiled) ==> net.modules[x].compiled
      ensures OutputsWritten(old(net), net, m, Written(old(net), m, hook))
      ensures out == TurnOutcome(old(net), net, m, hook)
      ensures out.Pass? ==> Propagated(net, m)
    {
      ghost var n0 := net;
      ModuleForward(m);
      ghost var n1 := net;
      assert ModuleOk(n0, m);
      ViewsKept(n0, n1, m, hook);
      var vals := hook(m, InputView(net, m), HyperpView(net, m));
      out := WriteOutputs(m, vals);
      OnlyTouchedTrans(n0, n1, net, m);
    }

    /** The rest of a module's turn once its forward hook has produced `vals`: the writes of
        `_set_output_values`, then propagation of the outputs of `m` to the inputs they feed. */
    method WriteOutputs(m: nat, vals: seq<(string, V)>) returns (out: Outcome)
      requires Valid() && m < |net.modules|
      modifies this
      ensures Valid() && log == old(log) && net.modules == old(net.modules)
      ensures OnlyTouched(old(net), net, m)
      ensures OutputsWritten(old(net), net, m, vals[..KnownPrefix(old(net.modules[m].outputs), vals)])
      ensures out == if KnownPrefix(old(net.modules[m].outputs), vals) < |vals| then Failure(UnknownName)
                     else if exists k :: 0 <= k < |net.modules[m].outputs| && MissingOutput(net, net.modules[m].outputs[k].1)
                     then Failure(MissingValue)
                     else Pass
      ensures out.Pass? ==> Propagated(net, m)
    {
      ghost var n1 := net;
      out := SetOutputValues(m, vals);
      ghost var n2 := net;
      AssignedOnlyTouched(n1, n2, m, vals[..KnownPrefix(n1.modules[m].outputs, vals)]);
      AssignedWritten(n1, n2, m, vals[..KnownPrefix(n1.modules[m].outputs, vals)]);
      if out.Failure? {
        return;
      }
      out := PropagateFrom(m);
      OnlyTouchedTrans(n1, n2, net, m);
    }

    /** Every module of `order`, in turn, computes and propagates its outputs; stops at the
        first module that fails. */
    method RunModules(order: seq<nat>, hook: Hook<V>) returns (out: Outcome)
      requires Valid() && forall p :: 0 <= p < |order| ==> order[p] < |net.modules|
      modifies this
      ensures Valid() && SameShape(old(net), net) && |old(log)| <= |log|
      ensures out.Failure? ==> out.error in {UnknownName, MissingValue}
      ensures out.Pass? ==> ForwardedModules(log[|old(log)|..]) == order
      ensures out.Pass? ==> RunInv(old(net), net, order, |order|) && Computed(old(net), net, order, |order|, hook)
    {
      ghost var n0 := net;
      RunStart(net, order);
      ComputedStart(net, order, hook);
      assert log[|old(log)|..] == [];
      var j := 0;
      out := Pass;
      while j < |order|
        invariant j <= |order| && out == Pass && Valid()
        invariant |old(log)| <= |log| && ForwardedModules(log[|old(log)|..]) == order[..j]
        invariant RunInv(n0, net, order, j) && Computed(n0, net, order, j, hook)
      {
        ForwardedSuffix(old(log), log, order[j], net.modules[order[j]].compiled);
        assert order[..j + 1] == order[..j] + [order[j]];
        out := RunNext(order, j, hook, n0);
        if out.Failure? {
          break;
        }
        j := j + 1;
      }
      if out.Pass? {
        assert order[..j] == order;
      }
    }

    /** The `j`-th turn of `RunModules`: runs `order[j]` and keeps the run invariants. */
    method RunNext(order: seq<nat>, j: nat, hook: Hook<V>, ghost n0: Net<V>)
      returns (out: Outcome)
      requires Valid() && j < |order| && order[j] < |net.modules| && RunInv(n0, net, order, j)
      requires Computed(n0, net, order, j, hook) && WellFormed(n0)
      modifies this
      ensures Valid() && SameShape(n0, net)
      ensures log == old(log) + RunEvents(order[j], old(net.modules[order[j]].compiled))
      ensures out.Failure? ==> out.error in {UnknownName, MissingValue}
      ensures out.Pass? ==> RunInv(n0, net, order, j + 1) && Computed(n0, net, order, j + 1, hook)
    {
      ghost var pre := net;
      out := RunModule(order[j], hook);
      if out.Pass? {
        RunStep(n0, pre, net, order, j);
        ComputedStep(n0, pre, net, order, j, hook);
      } else {
        SameShapeTrans(n0, pre, net);
      }
    }

    /** The graph-level `forward`: gives each listed input its value (a later entry for the
        same input wins), then runs the modules in `moduleSeq`, or else in the order computed
        from the graph and the given inputs, each computing its outputs with `hook` from the
        values it reads at its turn and propagating them. A module that runs once and whose
        inputs no module at or after its turn feeds ends up holding what its hook writes from
        the final values of its inputs. */
    method Forward(inputToVal: seq<(nat, V)>, moduleSeq: Option<seq<nat>>, hook: Hook<V>)
      returns (out: Outcome, order: seq<nat>)
      requires Valid()
      requires forall k :: 0 <= k < |inputToVal| ==> inputToVal[k].0 < |net.inputs|
      requires moduleSeq.Some? ==> forall p :: 0 <= p < |moduleSeq.value| ==> moduleSeq.value[p] < |net.modules|
      modifies this
      ensures Valid() && SameShape(old(net), net) && |old(log)| <= |log|
      ensures moduleSeq.Some? ==> order == moduleSeq.value
      ensures moduleSeq.None? ==> NoDup(order)
      ensures moduleSeq.None? ==> forall j :: 0 <= j < |order| ==>
                ReadyAfter(old(net), InputIds(inputToVal), order[..j], order[j])
      ensures moduleSeq.None? ==> forall m :: (0 <= m < |old(net.modules)| && 0 < |old(net.modules[m].inputs)|
                && ReadyAfter(old(net), InputIds(inputToVal), order, m)) ==> m in order
      ensures out.Failure? ==> out.error in {UnknownName, MissingValue}
      ensures out.Pass? ==> ForwardedModules(log[|old(log)|..]) == order
      ensures out.Pass? ==> forall p :: 0 <= p < |order| ==> Propagated(net, order[p]) && net.modules[order[p]].compiled
      ensures out.Pass? ==> forall i: nat ::
                (i < |net.inputs| && forall p :: 0 <= p < |order| ==> !FedFrom(old(net), i, order[p]))
                ==> net.inputs[i].val == Assigned(old(net.inputs[i].val), LastValue(inputToVal, i))
      ensures forall p :: 0 <= p < |order| ==> order[p] < |net.modules|
      ensures out.Pass? && NoDup(order) ==>
                forall p :: 0 <= p < |order| && (forall q :: p <= q < |order| ==> !FeedsModule(old(net), order[q], order[p])) ==>
                  OutputsWritten(old(net), net, order[p], Written(net, order[p], hook))
    {
      ghost var n0 := net;
      order := ModuleOrder(inputToVal, moduleSeq);
      SetInputValues(inputToVal);
      ghost var n1 := net;
      out := RunModules(order, hook);
      SameShapeTrans(n0, n1, net);
      if out.Pass? && NoDup(order) {
        ComputedEnd(n0, n1, net, order, hook);
      }
      if out.Pass? {
        SeedsKept(n0, n1, net, order, inputToVal);
      }
    }

    /** The modules `forward` runs: `moduleSeq` when given, otherwise the order computed from
        the graph and the inputs given values. */
    method ModuleOrder(inputToVal: seq<(nat, V)>, moduleSeq: Option<seq<nat>>) returns (order: seq<nat>)
      requires Valid()
      requires forall k :: 0 <= k < |inputToVal| ==> inputToVal[k].0 < |net.inputs|
      requires moduleSeq.Some? ==> forall p :: 0 <= p < |moduleSeq.value| ==> moduleSeq.value[p] < |net.modules|
      ensures forall p :: 0 <= p < |order| ==> order[p] < |net.modules|
      ensures moduleSeq.Some? ==> order == moduleSeq.value
      ensures moduleSeq.None? ==> NoDup(order)
      ensures moduleSeq.None? ==> forall j :: 0 <= j < |order| ==>
                ReadyAfter(net, InputIds(inputToVal), order[..j], order[j])
      ensures moduleSeq.None? ==> forall m :: (0 <= m < |net.modules| && 0 < |net.modules[m].inputs|
                && ReadyAfter(net, InputIds(inputToVal), order, m)) ==> m in order
    {
      if moduleSeq.Some? {
        order := moduleSeq.value;
      } else {
        var ins := InputIds(inputToVal);
        assert PortsOk(net, InPorts(ins));
        order := DetermineModuleEvalSeq(net, ins);
      }
    }

    /** The first loop of `forward`: each listed input receives its value, in order. */
    method SetInputValues(vals: seq<(nat, V)>)
      requires Valid() && forall k :: 0 <= k < |vals| ==> vals[k].0 < |net.inputs|
      modifies this
      ensures Valid() && log == old(log) && SameShape(old(net), net)
      ensures InputsAssigned(old(net), net, vals)
    {
      ghost var n0 := net;
      InputsAssignedStart(net, vals);
      var k := 0;
      while k < |vals|
        invariant k <= |vals| && log == old(log)
        invariant InputsAssigned(n0, net, vals[..k])
      {
        InputsAssignedStep(n0, net, vals, k);
        net := WithInputValue(net, vals[k].0, Some(vals[k].1));
        k := k + 1;
      }
      assert vals[..k] == vals;
      assert SameShape(n0, net);
      SameShapeWellFormed(n0, net);
      BookkeepingKept(n0, net, scope.elemToName, log);
    }
}
}
