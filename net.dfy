/** The state of a computation graph as a value: modules, inputs, outputs and
    hyperparameters kept in arenas and referring to each other by index, the well-formedness
    invariant that keeps those references symmetric, and the state changes of the graph
    core as functions on that value. */
module Nets {
  import opened Base
  import opened OrderedSets

  /** An insertion-ordered dictionary from local role names to arena ids. */
  type Roles = seq<(string, nat)>

  function Names(d: Roles): (r: seq<string>)
    ensures |r| == |d|
  {
    seq(|d|, k requires 0 <= k < |d| => d[k].0)
  }

  function Ids(d: Roles): (r: seq<nat>)
    ensures |r| == |d|
  {
    seq(|d|, k requires 0 <= k < |d| => d[k].1)
  }

  /** The position of `name` among the keys of `d`, if it is one. */
  function IndexOf(d: Roles, name: string): (r: Option<nat>)
    ensures r.None? <==> name !in Names(d)
    ensures r.Some? ==> r.value < |d| && d[r.value].0 == name
  {
    if d == [] then None
    else
      assert Names(d) == [d[0].0] + Names(d[1..]);
      if d[0].0 == name then Some(0)
      else
        var r := IndexOf(d[1..], name);
        if r.None? then None else Some(r.value + 1)
  }

  lemma RolesAppend(d: Roles, p: (string, nat))
    ensures Names(d + [p]) == Names(d) + [p.0]
    ensures Ids(d + [p]) == Ids(d) + [p.1]
  {
  }

  /** A module's ports and hyperparameter roles, each keyed by its local name, and whether
      its compile hook has run. */
  datatype ModuleRec = ModuleRec(inputs: Roles, outputs: Roles, hyperps: Roles, compiled: bool)

  /** An input: its owning module, the output it is connected to, and its current value. */
  datatype InputRec<V> = InputRec(owner: nat, fromOutput: Option<nat>, val: Option<V>)

  /** An output: its owning module, the inputs it feeds in connection order, and its value. */
  datatype OutputRec<V> = OutputRec(owner: nat, toInputs: seq<nat>, val: Option<V>)

  /** A hyperparameter: its value once assigned, and the modules depending on it. */
  datatype HyperpRec<V> = HyperpRec(val: Option<V>, dependents: seq<nat>)

  datatype Net<V> = Net(
    modules: seq<ModuleRec>,
    inputs: seq<InputRec<V>>,
    outputs: seq<OutputRec<V>>,
    hyperps: seq<HyperpRec<V>>)

  // ---------------------------------------------------------------------------------
  // Well-formedness

  ghost predicate ModuleOk<V>(n: Net<V>, m: nat)
    requires m < |n.modules|
  {
    var r := n.modules[m];
    && NoDup(Names(r.inputs)) && NoDup(Names(r.outputs)) && NoDup(Names(r.hyperps))
    && NoDup(Ids(r.inputs)) && NoDup(Ids(r.outputs))
    && (forall k :: 0 <= k < |r.inputs| ==> r.inputs[k].1 < |n.inputs| && n.inputs[r.inputs[k].1].owner == m)
    && (forall k :: 0 <= k < |r.outputs| ==> r.outputs[k].1 < |n.outputs| && n.outputs[r.outputs[k].1].owner == m)
    && (forall k :: 0 <= k < |r.hyperps| ==> r.hyperps[k].1 < |n.hyperps| && m in n.hyperps[r.hyperps[k].1].dependents)
  }

  ghost predicate InputOk<V>(n: Net<V>, i: nat)
    requires i < |n.inputs|
  {
    var x := n.inputs[i];
    && x.owner < |n.modules| && i in Ids(n.modules[x.owner].inputs)
    && (x.fromOutput.Some? ==> x.fromOutput.value < |n.outputs| && i in n.outputs[x.fromOutput.value].toInputs)
  }

  ghost predicate OutputOk<V>(n: Net<V>, o: nat)
    requires o < |n.outputs|
  {
    var y := n.outputs[o];
    && y.owner < |n.modules| && o in Ids(n.modules[y.owner].outputs)
    && NoDup(y.toInputs)
    && (forall k :: 0 <= k < |y.toInputs| ==> y.toInputs[k] < |n.inputs| && n.inputs[y.toInputs[k]].fromOutput == Some(o))
  }

  ghost predicate HyperpOk<V>(n: Net<V>, h: nat)
    requires h < |n.hyperps|
  {
    var z := n.hyperps[h];
    && NoDup(z.dependents)
    && (forall k :: 0 <= k < |z.dependents| ==> z.dependents[k] < |n.modules| && h in Ids(n.modules[z.dependents[k]].hyperps))
  }

  /** Every reference is in range; a module's ports name it as their owner and are listed in
      its roles; an input's output lists it and an output's inputs name it back, without
      duplicates; a hyperparameter's dependents hold it in a role and vice versa. */
  ghost predicate WellFormed<V>(n: Net<V>)
  {
    && (forall m :: 0 <= m < |n.modules| ==> ModuleOk(n, m))
    && (forall i :: 0 <= i < |n.inputs| ==> InputOk(n, i))
    && (forall o :: 0 <= o < |n.outputs| ==> OutputOk(n, o))
    && (forall h :: 0 <= h < |n.hyperps| ==> HyperpOk(n, h))
  }

  /** Every port belongs to a module of the graph. */
  predicate PortsOwned<V>(n: Net<V>)
  {
    && (forall i :: 0 <= i < |n.inputs| ==> n.inputs[i].owner < |n.modules|)
    && (forall o :: 0 <= o < |n.outputs| ==> n.outputs[o].owner < |n.modules|)
  }

  lemma WellFormedPortsOwned<V>(n: Net<V>)
    requires WellFormed(n)
    ensures PortsOwned(n)
  {
    forall i | 0 <= i < |n.inputs| ensures n.inputs[i].owner < |n.modules| {
      assert InputOk(n, i);
    }
    forall o | 0 <= o < |n.outputs| ensures n.outputs[o].owner < |n.modules| {
      assert OutputOk(n, o);
    }
  }

  /** The connection relation read from either side is the same relation, and no output
      lists an input twice. */
  lemma SymmetricLinks<V>(n: Net<V>, i: nat, o: nat)
    requires WellFormed(n) && i < |n.inputs| && o < |n.outputs|
    ensures i in n.outputs[o].toInputs <==> n.inputs[i].fromOutput == Some(o)
    ensures NoDup(n.outputs[o].toInputs)
  {
    assert InputOk(n, i) && OutputOk(n, o);
  }

  /** `n` and `n2` differ at most in values and compiled flags. */
  ghost predicate SameShape<V>(n: Net<V>, n2: Net<V>)
  {
    && |n.modules| == |n2.modules| && |n.inputs| == |n2.inputs|
    && |n.outputs| == |n2.outputs| && |n.hyperps| == |n2.hyperps|
    && (forall m :: 0 <= m < |n.modules| ==>
          n.modules[m].(compiled := false) == n2.modules[m].(compiled := false))
    && (forall i :: 0 <= i < |n.inputs| ==> n.inputs[i].(val := None) == n2.inputs[i].(val := None))
    && (forall o :: 0 <= o < |n.outputs| ==> n.outputs[o].(val := None) == n2.outputs[o].(val := None))
    && (forall h :: 0 <= h < |n.hyperps| ==> n.hyperps[h].dependents == n2.hyperps[h].dependents)
  }

  /** Values and compiled flags play no part in well-formedness. */
  lemma SameShapeWellFormed<V>(n: Net<V>, n2: Net<V>)
    requires WellFormed(n) && SameShape(n, n2)
    ensures WellFormed(n2)
  {
    forall m | 0 <= m < |n2.modules| ensures ModuleOk(n2, m) {
      assert ModuleOk(n, m);
      assert n.modules[m].inputs == n2.modules[m].inputs;
      assert n.modules[m].outputs == n2.modules[m].outputs;
      assert n.modules[m].hyperps == n2.modules[m].hyperps;
      forall k | 0 <= k < |n.modules[m].inputs| ensures n2.inputs[n.modules[m].inputs[k].1].owner == m {
        var i := n.modules[m].inputs[k].1;
        assert n.inputs[i].(val := None) == n2.inputs[i].(val := None);
      }
      forall k | 0 <= k < |n.modules[m].outputs| ensures n2.outputs[n.modules[m].outputs[k].1].owner == m {
        var o := n.modules[m].outputs[k].1;
        assert n.outputs[o].(val := None) == n2.outputs[o].(val := None);
      }
    }
    forall i | 0 <= i < |n2.inputs| ensures InputOk(n2, i) {
      assert InputOk(n, i);
      assert n.inputs[i].(val := None) == n2.inputs[i].(val := None);
      var m := n.inputs[i].owner;
      assert n.modules[m].(compiled := false) == n2.modules[m].(compiled := false);
      var f := n.inputs[i].fromOutput;
      if f.Some? {
        assert n.outputs[f.value].(val := None) == n2.outputs[f.value].(val := None);
      }
    }
    forall o | 0 <= o < |n2.outputs| ensures OutputOk(n2, o) {
      assert OutputOk(n, o);
      assert n.outputs[o].(val := None) == n2.outputs[o].(val := None);
      var m := n.outputs[o].owner;
      assert n.modules[m].(compiled := false) == n2.modules[m].(compiled := false);
      forall k | 0 <= k < |n.outputs[o].toInputs|
        ensures n2.inputs[n.outputs[o].toInputs[k]].fromOutput == Some(o)
      {
        var i := n.outputs[o].toInputs[k];
        assert n.inputs[i].(val := None) == n2.inputs[i].(val := None);
      }
    }
    forall h | 0 <= h < |n2.hyperps| ensures HyperpOk(n2, h) {
      assert HyperpOk(n, h);
      forall k | 0 <= k < |n.hyperps[h].dependents|
        ensures n2.hyperps[h].dependents[k] < |n2.modules|
        ensures h in Ids(n2.modules[n2.hyperps[h].dependents[k]].hyperps)
      {
        var m := n.hyperps[h].dependents[k];
        assert n.modules[m].(compiled := false) == n2.modules[m].(compiled := false);
      }
    }
  }
}
