/** The graph functions that collect modules from ports and walk the graph:
    `extract_unique_modules`, `traverse_backward` and `traverse_forward`. */
module Walks {
  import opened Base
  import opened OrderedSets
  import opened Nets
  import opened Traversals

  /** An input or an output of the graph, by arena id. */
  datatype Port = InPort(i: nat) | OutPort(o: nat)

  predicate PortOk<V>(n: Net<V>, p: Port)
  {
    match p
    case InPort(i) => i < |n.inputs|
    case OutPort(o) => o < |n.outputs|
  }

  predicate PortsOk<V>(n: Net<V>, ps: seq<Port>)
  {
    forall k :: 0 <= k < |ps| ==> PortOk(n, ps[k])
  }

  /** The module a port belongs to. */
  function Owner<V>(n: Net<V>, p: Port): nat
    requires PortOk(n, p)
  {
    match p
    case InPort(i) => n.inputs[i].owner
    case OutPort(o) => n.outputs[o].owner
  }

  function Owners<V>(n: Net<V>, ps: seq<Port>): (r: seq<nat>)
    requires PortsOk(n, ps)
    ensures |r| == |ps| && forall k :: 0 <= k < |ps| ==> r[k] == Owner(n, ps[k])
  {
    seq(|ps|, k requires 0 <= k < |ps| => Owner(n, ps[k]))
  }

  function InPorts(ids: seq<nat>): (r: seq<Port>)
    ensures |r| == |ids| && forall k :: 0 <= k < |ids| ==> r[k] == InPort(ids[k])
  {
    seq(|ids|, k requires 0 <= k < |ids| => InPort(ids[k]))
  }

  function OutPorts(os: seq<nat>): (r: seq<Port>)
    ensures |r| == |os| && forall k :: 0 <= k < |os| ==> r[k] == OutPort(os[k])
  {
    seq(|os|, k requires 0 <= k < |os| => OutPort(os[k]))
  }

  /** The modules of the ports `ps`, each once, in order of first occurrence. */
  function UniqueOwners<V>(n: Net<V>, ps: seq<Port>): seq<nat>
    requires PortsOk(n, ps)
  {
    AddAll([], Owners(n, ps))
  }

  /** `extract_unique_modules`: the modules of the given ports, without repetition, in the
      order their first port appears. */
  method ExtractUniqueModules<V>(n: Net<V>, ps: seq<Port>) returns (ms: seq<nat>)
    requires WellFormed(n) && PortsOk(n, ps)
    ensures ms == UniqueOwners(n, ps)
    ensures NoDup(ms)
    ensures forall m :: m in ms <==> exists k :: 0 <= k < |ps| && Owner(n, ps[k]) == m
    ensures forall j :: 0 <= j < |ms| ==> ms[j] < |n.modules|
  {
    var s := new OrderedSet<nat>();
    s.Update(Owners(n, ps));
    ms := s.items;
    WellFormedPortsOwned(n);
    UniqueOwnersFacts(n, ps);
  }

  lemma UniqueOwnersFacts<V>(n: Net<V>, ps: seq<Port>)
    requires PortsOwned(n) && PortsOk(n, ps)
    ensures NoDup(UniqueOwners(n, ps))
    ensures forall m :: m in UniqueOwners(n, ps) <==> exists k :: 0 <= k < |ps| && Owner(n, ps[k]) == m
    ensures forall j :: 0 <= j < |UniqueOwners(n, ps)| ==> UniqueOwners(n, ps)[j] < |n.modules|
  {
    var os := Owners(n, ps);
    forall m | m in os ensures exists k :: 0 <= k < |ps| && Owner(n, ps[k]) == m {
      var k :| 0 <= k < |os| && os[k] == m;
    }
    forall k | 0 <= k < |os| ensures os[k] < |n.modules| {
      match ps[k]
      case InPort(i) =>
      case OutPort(o) =>
    }
    var ms := UniqueOwners(n, ps);
    forall j | 0 <= j < |ms| ensures ms[j] < |n.modules| {
      assert ms[j] in os;
      var k :| 0 <= k < |os| && os[k] == ms[j];
    }
  }

  // ---------------------------------------------------------------------------------
  // Neighbours

  /** Output `o` is in range and belongs to module `x`. */
  predicate OutputOf<V>(n: Net<V>, o: nat, x: nat)
  {
    o < |n.outputs| && n.outputs[o].owner == x
  }

  /** Input `i` is connected to an output of module `x`. */
  predicate FedFrom<V>(n: Net<V>, i: nat, x: nat)
  {
    i < |n.inputs| && n.inputs[i].fromOutput.Some? && OutputOf(n, n.inputs[i].fromOutput.value, x)
  }

  /** For each input role in `rs`, in order, the module feeding it; unconnected inputs
      contribute nothing. */
  function Upstream<V>(n: Net<V>, rs: Roles): (r: seq<nat>)
    ensures forall x :: x in r <==> exists k :: 0 <= k < |rs| && FedFrom(n, rs[k].1, x)
    decreases |rs|
  {
    if rs == [] then []
    else
      var i := rs[0].1;
      var here := if i < |n.inputs| && n.inputs[i].fromOutput.Some? && n.inputs[i].fromOutput.value < |n.outputs|
                  then [n.outputs[n.inputs[i].fromOutput.value].owner] else [];
      var r := here + Upstream(n, rs[1..]);
      assert forall k :: 0 <= k < |rs| - 1 ==> rs[1..][k] == rs[k + 1];
      assert forall x :: x in here <==> FedFrom(n, rs[0].1, x);
      r
  }

  /** The modules owning the inputs `ids`, in order (ids out of range are skipped). */
  function InputOwners<V>(n: Net<V>, ids: seq<nat>): (r: seq<nat>)
    ensures forall x :: x in r <==> exists k :: 0 <= k < |ids| && ids[k] < |n.inputs| && n.inputs[ids[k]].owner == x
    decreases |ids|
  {
    if ids == [] then []
    else
      var r := (if ids[0] < |n.inputs| then [n.inputs[ids[0]].owner] else []) + InputOwners(n, ids[1..]);
      assert forall k :: 0 <= k < |ids| - 1 ==> ids[1..][k] == ids[k + 1];
      r
  }

  /** For each output role in `rs`, in order, the modules of the inputs it feeds, in
      connection order. */
  function Downstream<V>(n: Net<V>, rs: Roles): (r: seq<nat>)
    ensures forall x :: x in r <==>
      exists k, i :: 0 <= k < |rs| && rs[k].1 < |n.outputs| && i in n.outputs[rs[k].1].toInputs
        && i < |n.inputs| && n.inputs[i].owner == x
    decreases |rs|
  {
    if rs == [] then []
    else
      var o := rs[0].1;
      var here := if o < |n.outputs| then InputOwners(n, n.outputs[o].toInputs) else [];
      var r := here + Downstream(n, rs[1..]);
      assert forall k :: 0 <= k < |rs| - 1 ==> rs[1..][k] == rs[k + 1];
      assert forall x :: x in here ==>
        exists i :: o < |n.outputs| && i in n.outputs[o].toInputs && i < |n.inputs| && n.inputs[i].owner == x;
      r
  }

  /** Each module's predecessors, as `traverse_backward` scans them. */
  function PredsTable<V>(n: Net<V>): (t: seq<seq<nat>>)
    ensures |t| == |n.modules|
  {
    seq(|n.modules|, m requires 0 <= m < |n.modules| => Upstream(n, n.modules[m].inputs))
  }

  /** Each module's successors, as `traverse_forward` scans them. */
  function SuccsTable<V>(n: Net<V>): (t: seq<seq<nat>>)
    ensures |t| == |n.modules|
  {
    seq(|n.modules|, m requires 0 <= m < |n.modules| => Downstream(n, n.modules[m].outputs))
  }

  /** In a well-formed graph, `x` precedes `m` exactly when an input of `m` is connected to an
      output of `x`. */
  lemma PredsMeaning<V>(n: Net<V>, m: nat, x: nat)
    requires WellFormed(n) && m < |n.modules|
    ensures x in Next(PredsTable(n), m) <==>
      exists i :: 0 <= i < |n.inputs| && n.inputs[i].owner == m && FedFrom(n, i, x)
  {
    var rs := n.modules[m].inputs;
    assert ModuleOk(n, m);
    if x in Next(PredsTable(n), m) {
      var k :| 0 <= k < |rs| && FedFrom(n, rs[k].1, x);
      assert n.inputs[rs[k].1].owner == m;
    }
    if exists i :: 0 <= i < |n.inputs| && n.inputs[i].owner == m && FedFrom(n, i, x) {
      var i :| 0 <= i < |n.inputs| && n.inputs[i].owner == m && FedFrom(n, i, x);
      assert InputOk(n, i);
      assert i in Ids(rs);
      var k :| 0 <= k < |rs| && Ids(rs)[k] == i;
      assert FedFrom(n, rs[k].1, x);
    }
  }

  /** In a well-formed graph, `x` succeeds `m` exactly when an output of `m` is connected to
      an input of `x`. */
  lemma SuccsMeaning<V>(n: Net<V>, m: nat, x: nat)
    requires WellFormed(n) && m < |n.modules|
    ensures x in Next(SuccsTable(n), m) <==>
      exists i :: 0 <= i < |n.inputs| && n.inputs[i].owner == x && FedFrom(n, i, m)
  {
    var rs := n.modules[m].outputs;
    assert ModuleOk(n, m);
    if x in Next(SuccsTable(n), m) {
      var k, i :| 0 <= k < |rs| && rs[k].1 < |n.outputs| && i in n.outputs[rs[k].1].toInputs
        && i < |n.inputs| && n.inputs[i].owner == x;
      SymmetricLinks(n, i, rs[k].1);
      assert FedFrom(n, i, m);
    }
    if exists i :: 0 <= i < |n.inputs| && n.inputs[i].owner == x && FedFrom(n, i, m) {
      var i :| 0 <= i < |n.inputs| && n.inputs[i].owner == x && FedFrom(n, i, m);
      var o := n.inputs[i].fromOutput.value;
      assert OutputOk(n, o);
      assert o in Ids(rs);
      var k :| 0 <= k < |rs| && Ids(rs)[k] == o;
      SymmetricLinks(n, i, o);
    }
  }

  /** Neighbours of modules are modules. */
  lemma TablesBounded<V>(n: Net<V>)
    requires WellFormed(n)
    ensures forall m, x :: 0 <= m < |n.modules| && x in Next(PredsTable(n), m) ==> x < |n.modules|
    ensures forall m, x :: 0 <= m < |n.modules| && x in Next(SuccsTable(n), m) ==> x < |n.modules|
  {
    forall m, x | 0 <= m < |n.modules| && x in Next(PredsTable(n), m) ensures x < |n.modules| {
      PredsMeaning(n, m, x);
      var i :| 0 <= i < |n.inputs| && n.inputs[i].owner == m && FedFrom(n, i, x);
      assert OutputOk(n, n.inputs[i].fromOutput.value);
    }
    forall m, x | 0 <= m < |n.modules| && x in Next(SuccsTable(n), m) ensures x < |n.modules| {
      SuccsMeaning(n, m, x);
      var i :| 0 <= i < |n.inputs| && n.inputs[i].owner == x && FedFrom(n, i, m);
      assert InputOk(n, i);
    }
  }

  // ---------------------------------------------------------------------------------
  // Traversals

  /** The breadth-first order in which `traverse_backward` visits modules from those of
      `outs` when nothing stops it; `once` starts its memo with the seeds. */
  function BackwardOrder<V>(n: Net<V>, outs: seq<nat>, once: bool): seq<nat>
    requires PortsOk(n, OutPorts(outs))
  {
    BfsOrder(UniqueOwners(n, OutPorts(outs)), PredsTable(n), once, |n.modules|)
  }

  /** The breadth-first order in which `traverse_forward` visits modules from those of `ins`
      when nothing stops it; `once` starts its memo with the seeds. */
  function ForwardOrder<V>(n: Net<V>, ins: seq<nat>, once: bool): seq<nat>
    requires PortsOk(n, InPorts(ins))
  {
    BfsOrder(UniqueOwners(n, InPorts(ins)), SuccsTable(n), once, |n.modules|)
  }

  /** `traverse_backward` as written: from the modules of `outs`, towards inputs, ending after
      the first module `stop` marks. A seed module that feeds another seed is visited a second
      time, after all the seeds. */
  method TraverseBackward<V>(n: Net<V>, outs: seq<nat>, stop: seq<bool>) returns (visited: seq<nat>, stopped: bool)
    requires WellFormed(n) && PortsOk(n, OutPorts(outs))
    ensures Walk(UniqueOwners(n, OutPorts(outs)), PredsTable(n), stop, visited, stopped)
    ensures forall j :: 0 <= j < |visited| ==> visited[j] < |n.modules|
    ensures !stopped ==> forall j, x :: 0 <= j < |visited| && x in Next(PredsTable(n), visited[j]) ==>
      x in visited[|UniqueOwners(n, OutPorts(outs))|..]
    ensures visited <= BackwardOrder(n, outs, false)
    ensures !stopped ==> visited == BackwardOrder(n, outs, false)
  {
    var seeds := ExtractUniqueModules(n, OutPorts(outs));
    TablesBounded(n);
    visited, stopped := Traverse(seeds, PredsTable(n), stop, |n.modules|, false);
  }

  /** `traverse_backward` with its memo started with the seed modules, so that each module is
      visited once. */
  method TraverseBackwardOnce<V>(n: Net<V>, outs: seq<nat>, stop: seq<bool>) returns (visited: seq<nat>, stopped: bool)
    requires WellFormed(n) && PortsOk(n, OutPorts(outs))
    ensures Walk(UniqueOwners(n, OutPorts(outs)), PredsTable(n), stop, visited, stopped)
    ensures forall j :: 0 <= j < |visited| ==> visited[j] < |n.modules|
    ensures NoDup(visited)
    ensures visited <= BackwardOrder(n, outs, true)
    ensures !stopped ==> visited == BackwardOrder(n, outs, true)
  {
    var seeds := ExtractUniqueModules(n, OutPorts(outs));
    TablesBounded(n);
    visited, stopped := Traverse(seeds, PredsTable(n), stop, |n.modules|, true);
  }

  /** `traverse_forward` as written: from the modules of `ins`, towards outputs, ending after
      the first module `stop` marks. A seed module fed by another seed is visited a second
      time, after all the seeds. */
  method TraverseForward<V>(n: Net<V>, ins: seq<nat>, stop: seq<bool>) returns (visited: seq<nat>, stopped: bool)
    requires WellFormed(n) && PortsOk(n, InPorts(ins))
    ensures Walk(UniqueOwners(n, InPorts(ins)), SuccsTable(n), stop, visited, stopped)
    ensures forall j :: 0 <= j < |visited| ==> visited[j] < |n.modules|
    ensures !stopped ==> forall j, x :: 0 <= j < |visited| && x in Next(SuccsTable(n), visited[j]) ==>
      x in visited[|UniqueOwners(n, InPorts(ins))|..]
    ensures visited <= ForwardOrder(n, ins, false)
    ensures !stopped ==> visited == ForwardOrder(n, ins, false)
  {
    var seeds := ExtractUniqueModules(n, InPorts(ins));
    TablesBounded(n);
    visited, stopped := Traverse(seeds, SuccsTable(n), stop, |n.modules|, false);
  }

  /** `traverse_forward` with its memo started with the seed modules, so that each module is
      visited once. */
  method TraverseForwardOnce<V>(n: Net<V>, ins: seq<nat>, stop: seq<bool>) returns (visited: seq<nat>, stopped: bool)
    requires WellFormed(n) && PortsOk(n, InPorts(ins))
    ensures Walk(UniqueOwners(n, InPorts(ins)), SuccsTable(n), stop, visited, stopped)
    ensures forall j :: 0 <= j < |visited| ==> visited[j] < |n.modules|
    ensures NoDup(visited)
    ensures visited <= ForwardOrder(n, ins, true)
    ensures !stopped ==> visited == ForwardOrder(n, ins, true)
  {
    var seeds := ExtractUniqueModules(n, InPorts(ins));
    TablesBounded(n);
    visited, stopped := Traverse(seeds, SuccsTable(n), stop, |n.modules|, true);
  }
}
