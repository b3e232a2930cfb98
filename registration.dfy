/** What `Module._register` does to the graph and the scope, as functions on values: the
    registration of each input, output and hyperparameter role, and the loops over them that
    stop at the first failure. */
module Registrations {
  import opened Base
  import opened OrderedSets
  import opened Scopes
  import opened Nets
  import opened NetOps

  /** The name of a port: its module's name, the port kind ("I" or "O") and its local name,
      joined by dots. */
  function PortName(moduleName: string, kind: string, local: string): string
  {
    moduleName + "." + kind + "." + local
  }

  /** What `Module._register` works on: the graph, the scope's two maps, and the outcome of
      the registrations so far. */
  datatype RegState<V> = RegState(net: Net<V>, names: map<string, Elem>, elems: map<Elem, string>, out: Outcome)

  /** The kind that port names carry: "I" for inputs, "O" for outputs. */
  function PortKind(isInput: bool): string
  {
    if isInput then "I" else "O"
  }

  /** The input (`isInput`) or output roles of module `m`. */
  function PortRoles<V>(n: Net<V>, m: nat, isInput: bool): Roles
    requires m < |n.modules|
  {
    if isInput then n.modules[m].inputs else n.modules[m].outputs
  }

  /** The names that the ports `locals` of a module named `mname` get. */
  function PortNames(mname: string, isInput: bool, locals: seq<string>): (r: seq<string>)
    ensures |r| == |locals| && forall k :: 0 <= k < |locals| ==> r[k] == PortName(mname, PortKind(isInput), locals[k])
  {
    seq(|locals|, k requires 0 <= k < |locals| => PortName(mname, PortKind(isInput), locals[k]))
  }

  /** `_register_input` (`isInput`) or `_register_output` of the port `local` on module `m`,
      named `mname`: it fails when `m` already has such a port `local`, or else when the
      port's name is taken, and then changes nothing; otherwise the graph gets a new
      unconnected port of `m` and the scope names it. */
  function AddPort<V>(s: RegState<V>, m: nat, mname: string, isInput: bool, local: string): (r: RegState<V>)
    requires m < |s.net.modules|
    ensures |r.net.modules| == |s.net.modules| && |r.net.hyperps| == |s.net.hyperps|
    ensures r.out == Pass <==>
              local !in Names(PortRoles(s.net, m, isInput)) && PortName(mname, PortKind(isInput), local) !in s.names
    ensures local in Names(PortRoles(s.net, m, isInput)) ==> r.out == Failure(DuplicateRole)
    ensures r.out.Failure? ==> r.net == s.net && r.names == s.names && r.elems == s.elems
    ensures r.out.Pass? ==> Names(PortRoles(r.net, m, isInput)) == Names(PortRoles(s.net, m, isInput)) + [local]
    ensures r.out.Pass? ==> var name := PortName(mname, PortKind(isInput), local);
              name in r.names && r.names[name] in r.elems && r.elems[r.names[name]] == name
    ensures PortRoles(r.net, m, !isInput) == PortRoles(s.net, m, !isInput)
    ensures r.net.modules[m].hyperps == s.net.modules[m].hyperps
  {
    var name := PortName(mname, PortKind(isInput), local);
    if local in Names(PortRoles(s.net, m, isInput)) then s.(out := Failure(DuplicateRole))
    else if name in s.names then s.(out := Failure(DuplicateName))
    else if isInput then
      RolesAppend(s.net.modules[m].inputs, (local, |s.net.inputs|));
      RegState(WithInput(s.net, m, local), s.names[name := In(|s.net.inputs|)], s.elems[In(|s.net.inputs|) := name], Pass)
    else
      RolesAppend(s.net.modules[m].outputs, (local, |s.net.outputs|));
      RegState(WithOutput(s.net, m, local), s.names[name := Out(|s.net.outputs|)], s.elems[Out(|s.net.outputs|) := name], Pass)
  }

  /** A loop of `Module._register` over the ports `locals` of `m`, from the state `s`: each
      registered in turn, up to and including the first that fails. */
  function AddPorts<V>(s: RegState<V>, m: nat, mname: string, isInput: bool, locals: seq<string>): (r: RegState<V>)
    requires m < |s.net.modules|
    ensures |r.net.modules| == |s.net.modules| && |r.net.hyperps| == |s.net.hyperps|
    ensures PortRoles(r.net, m, !isInput) == PortRoles(s.net, m, !isInput)
    ensures r.net.modules[m].hyperps == s.net.modules[m].hyperps
    decreases |locals|
  {
    if locals == [] then s
    else
      var r := AddPorts(s, m, mname, isInput, locals[..|locals| - 1]);
      if r.out.Failure? then r else AddPort(r, m, mname, isInput, locals[|locals| - 1])
  }

  /** `_register_hyperparameter` of `h` under `role` on module `m`: it fails when `m` already
      has the role, changing nothing; otherwise `m` depends on `h` under `role`. The scope is
      not involved. */
  function AddDependency<V>(s: RegState<V>, m: nat, h: nat, role: string): (r: RegState<V>)
    requires m < |s.net.modules| && h < |s.net.hyperps|
    ensures |r.net.modules| == |s.net.modules| && |r.net.hyperps| == |s.net.hyperps|
    ensures r.out == Pass <==> role !in Names(s.net.modules[m].hyperps)
    ensures r.out.Failure? ==> r.out == Failure(DuplicateRole) && r.net == s.net
    ensures r.out.Pass? ==> r.net.modules[m].hyperps == s.net.modules[m].hyperps + [(role, h)]
    ensures r.out.Pass? ==> m in r.net.hyperps[h].dependents
    ensures r.names == s.names && r.elems == s.elems
    ensures r.net.modules[m].inputs == s.net.modules[m].inputs && r.net.modules[m].outputs == s.net.modules[m].outputs
  {
    if role in Names(s.net.modules[m].hyperps) then s.(out := Failure(DuplicateRole))
    else s.(net := WithDependency(s.net, m, h, role), out := Pass)
  }

  /** The last loop of `Module._register`, over the roles `hyps` of `m`: each registered in
      turn, up to and including the first that fails. */
  function AddDependencies<V>(s: RegState<V>, m: nat, hyps: seq<(string, nat)>): (r: RegState<V>)
    requires m < |s.net.modules| && forall q :: 0 <= q < |hyps| ==> hyps[q].1 < |s.net.hyperps|
    ensures |r.net.modules| == |s.net.modules| && |r.net.hyperps| == |s.net.hyperps|
    ensures r.names == s.names && r.elems == s.elems
    ensures r.net.modules[m].inputs == s.net.modules[m].inputs && r.net.modules[m].outputs == s.net.modules[m].outputs
    decreases |hyps|
  {
    if hyps == [] then s
    else
      var r := AddDependencies(s, m, hyps[..|hyps| - 1]);
      if r.out.Failure? then r else AddDependency(r, m, hyps[|hyps| - 1].1, hyps[|hyps| - 1].0)
  }

  /** `Module._register`: the inputs, then the outputs, then the hyperparameter roles, ending
      at the first registration that fails. */
  function RegisterAll<V>(s: RegState<V>, m: nat, mname: string, ins: seq<string>, outs: seq<string>,
                          hyps: seq<(string, nat)>): (r: RegState<V>)
    requires m < |s.net.modules| && forall q :: 0 <= q < |hyps| ==> hyps[q].1 < |s.net.hyperps|
    ensures |r.net.modules| == |s.net.modules|
    ensures r.out.Pass? ==> Names(r.net.modules[m].inputs) == Names(s.net.modules[m].inputs) + ins
    ensures r.out.Pass? ==> Names(r.net.modules[m].outputs) == Names(s.net.modules[m].outputs) + outs
    ensures r.out.Pass? ==> r.net.modules[m].hyperps == s.net.modules[m].hyperps + hyps
    ensures r.out.Pass? ==> forall x :: x in r.names <==>
              x in s.names || x in PortNames(mname, true, ins) || x in PortNames(mname, false, outs)
  {
    var a := AddPorts(s, m, mname, true, ins);
    AddPortsPass(s, m, mname, true, ins);
    if a.out.Failure? then a
    else
      var b := AddPorts(a, m, mname, false, outs);
      AddPortsPass(a, m, mname, false, outs);
      if b.out.Failure? then b
      else
        AddDependenciesPass(b, m, hyps);
        AddDependencies(b, m, hyps)
  }

  /** After a failure the remaining ports change nothing. */
  lemma {:induction false} AddPortsStuck<V>(s: RegState<V>, m: nat, mname: string, isInput: bool, locals: seq<string>, j: nat)
    requires m < |s.net.modules| && j <= |locals|
    requires AddPorts(s, m, mname, isInput, locals[..j]).out.Failure?
    ensures AddPorts(s, m, mname, isInput, locals) == AddPorts(s, m, mname, isInput, locals[..j])
    decreases |locals|
  {
    if j < |locals| {
      var p := locals[..|locals| - 1];
      assert p[..j] == locals[..j];
      AddPortsStuck(s, m, mname, isInput, p, j);
    } else {
      assert locals[..j] == locals;
    }
  }

  /** After a failure the remaining roles change nothing. */
  lemma {:induction false} AddDependenciesStuck<V>(s: RegState<V>, m: nat, hyps: seq<(string, nat)>, j: nat)
    requires m < |s.net.modules| && forall q :: 0 <= q < |hyps| ==> hyps[q].1 < |s.net.hyperps|
    requires j <= |hyps| && AddDependencies(s, m, hyps[..j]).out.Failure?
    ensures AddDependencies(s, m, hyps) == AddDependencies(s, m, hyps[..j])
    decreases |hyps|
  {
    if j < |hyps| {
      var p := hyps[..|hyps| - 1];
      assert p[..j] == hyps[..j];
      AddDependenciesStuck(s, m, p, j);
    } else {
      assert hyps[..j] == hyps;
    }
  }

  /** Ports with different local names of the same module and kind get different names. */
  lemma PortNameInjective(mname: string, kind: string, x: string, y: string)
    requires PortName(mname, kind, x) == PortName(mname, kind, y)
    ensures x == y
  {
    var p := mname + "." + kind + ".";
    assert PortName(mname, kind, x) == p + x && PortName(mname, kind, y) == p + y;
    assert x == (p + x)[|p|..] && y == (p + y)[|p|..];
  }

  /** The names of concatenated roles are the concatenated names. */
  lemma NamesConcat(a: Roles, b: Roles)
    ensures Names(a + b) == Names(a) + Names(b)
  {
  }

  /** When every port is registered, the module's roles of that kind are extended by exactly
      `locals`, and the scope by exactly their port names. */
  lemma {:induction false} AddPortsPass<V>(s: RegState<V>, m: nat, mname: string, isInput: bool, locals: seq<string>)
    requires m < |s.net.modules|
    ensures var r := AddPorts(s, m, mname, isInput, locals);
      r.out.Pass? ==>
        && Names(PortRoles(r.net, m, isInput)) == Names(PortRoles(s.net, m, isInput)) + locals
        && forall x :: x in r.names <==> x in s.names || x in PortNames(mname, isInput, locals)
    decreases |locals|
  {
    if locals != [] {
      var L := |locals| - 1;
      var p, x := locals[..L], locals[L];
      AddPortsPass(s, m, mname, isInput, p);
      var r := AddPorts(s, m, mname, isInput, p);
      if r.out.Pass? {
        RolesAppend(PortRoles(r.net, m, isInput), (x, if isInput then |r.net.inputs| else |r.net.outputs|));
        assert locals == p + [x];
        assert PortNames(mname, isInput, locals) == PortNames(mname, isInput, p) + [PortName(mname, PortKind(isInput), x)];
      }
    }
  }

  /** No local name of `locals` is already a port of that kind of `m` or repeats an earlier
      one, and no port name is already taken in `s`. */
  ghost predicate FreshPorts<V>(s: RegState<V>, m: nat, mname: string, isInput: bool, locals: seq<string>)
    requires m < |s.net.modules|
  {
    forall k :: 0 <= k < |locals| ==>
      && locals[k] !in Names(PortRoles(s.net, m, isInput)) && locals[k] !in locals[..k]
      && PortName(mname, PortKind(isInput), locals[k]) !in s.names
  }

  /** Registering the ports `locals` succeeds exactly when they are fresh. */
  lemma {:induction false} AddPortsOutcome<V>(s: RegState<V>, m: nat, mname: string, isInput: bool, locals: seq<string>)
    requires m < |s.net.modules| && s.out == Pass
    ensures AddPorts(s, m, mname, isInput, locals).out == Pass <==> FreshPorts(s, m, mname, isInput, locals)
    decreases |locals|
  {
    if locals != [] {
      var L := |locals| - 1;
      AddPortsOutcome(s, m, mname, isInput, locals[..L]);
      FreshPortsSnoc(s, m, mname, isInput, locals);
      if AddPorts(s, m, mname, isInput, locals[..L]).out.Pass? {
        AddPortLast(s, m, mname, isInput, locals[..L], locals[L]);
      }
    }
  }

  /** Ports are fresh exactly when all but the last are, and the last is fresh after them. */
  lemma FreshPortsSnoc<V>(s: RegState<V>, m: nat, mname: string, isInput: bool, locals: seq<string>)
    requires m < |s.net.modules| && locals != []
    ensures var L := |locals| - 1; var x := locals[L];
      FreshPorts(s, m, mname, isInput, locals) <==>
        && FreshPorts(s, m, mname, isInput, locals[..L])
        && x !in Names(PortRoles(s.net, m, isInput)) && x !in locals[..L]
        && PortName(mname, PortKind(isInput), x) !in s.names
  {
    var L := |locals| - 1;
    assert forall k :: 0 <= k < L ==> locals[..L][k] == locals[k] && locals[..L][..k] == locals[..k];
  }

  /** After fresh ports were registered, one more port is registered exactly when its local
      name is neither a port of `m` of that kind before nor one of those ports, and its port
      name was not taken before. */
  lemma AddPortLast<V>(s: RegState<V>, m: nat, mname: string, isInput: bool, p: seq<string>, x: string)
    requires m < |s.net.modules| && AddPorts(s, m, mname, isInput, p).out.Pass?
    ensures AddPort(AddPorts(s, m, mname, isInput, p), m, mname, isInput, x).out == Pass <==>
      x !in Names(PortRoles(s.net, m, isInput)) && x !in p && PortName(mname, PortKind(isInput), x) !in s.names
  {
    AddPortsPass(s, m, mname, isInput, p);
    var name := PortName(mname, PortKind(isInput), x);
    if x !in p {
      forall k | 0 <= k < |p| ensures PortNames(mname, isInput, p)[k] != name {
        if PortNames(mname, isInput, p)[k] == name {
          PortNameInjective(mname, PortKind(isInput), p[k], x);
        }
      }
    } else {
      var k :| 0 <= k < |p| && p[k] == x;
      assert PortNames(mname, isInput, p)[k] == name;
    }
  }

  /** When every role is registered, the module's roles are extended by exactly `hyps`. */
  lemma {:induction false} AddDependenciesPass<V>(s: RegState<V>, m: nat, hyps: seq<(string, nat)>)
    requires m < |s.net.modules| && forall q :: 0 <= q < |hyps| ==> hyps[q].1 < |s.net.hyperps|
    ensures var r := AddDependencies(s, m, hyps);
      r.out.Pass? ==> r.net.modules[m].hyperps == s.net.modules[m].hyperps + hyps
    decreases |hyps|
  {
    if hyps != [] {
      var p := hyps[..|hyps| - 1];
      AddDependenciesPass(s, m, p);
      assert hyps == p + [hyps[|hyps| - 1]];
    }
  }

  /** Registering the roles `hyps` succeeds exactly when no role is already one of `m` and
      no role is repeated. */
  lemma {:induction false} AddDependenciesOutcome<V>(s: RegState<V>, m: nat, hyps: seq<(string, nat)>)
    requires m < |s.net.modules| && forall q :: 0 <= q < |hyps| ==> hyps[q].1 < |s.net.hyperps|
    requires s.out == Pass
    ensures AddDependencies(s, m, hyps).out == Pass <==>
      NoDup(Names(hyps)) && forall k :: 0 <= k < |hyps| ==> hyps[k].0 !in Names(s.net.modules[m].hyperps)
    decreases |hyps|
  {
    if hyps != [] {
      var L := |hyps| - 1;
      var p, x := hyps[..L], hyps[L];
      AddDependenciesOutcome(s, m, p);
      AddDependenciesPass(s, m, p);
      assert hyps == p + [x];
      RolesAppend(p, x);
      NoDupSnoc(Names(p), x.0);
      var r := AddDependencies(s, m, p);
      if r.out.Pass? {
        NamesConcat(s.net.modules[m].hyperps, p);
      }
    }
  }

  /** A sequence extended by one element has no repetitions exactly when the sequence has
      none and does not hold the element. */
  lemma NoDupSnoc<T>(a: seq<T>, x: T)
    ensures NoDup(a + [x]) <==> NoDup(a) && x !in a
  {
    if NoDup(a + [x]) {
      assert forall i :: 0 <= i < |a| ==> a[i] == (a + [x])[i];
      assert forall i :: 0 <= i < |a| ==> (a + [x])[i] != (a + [x])[|a|];
    }
  }

}
