/** Two-module graphs on which the traversals, as written, apply their visitor to a starting
    module twice (so that `get_unconnected_inputs` and `get_unconnected_outputs` list a port
    twice), while the variants whose memo starts with the starting modules do not. */
module WalkScenarios {
  import opened Base
  import opened OrderedSets
  import opened Nets
  import opened Traversals
  import opened Walks
  import opened Queries

  /** Module `A` (0) and module `B` (1), each with an input `in` and an output `out`; the
      output of `A` (output 0) feeds the input of `B` (input 0); the input of `A` (input 1)
      and the output of `B` (output 1) are unconnected. */
  function Chain(): (n: Net<int>)
    ensures |n.modules| == 2 && |n.inputs| == 2 && |n.outputs| == 2
  {
    Net(
      [ModuleRec([("in", 1)], [("out", 0)], [], false), ModuleRec([("in", 0)], [("out", 1)], [], false)],
      [InputRec(1, Some(0), None), InputRec(0, None, None)],
      [OutputRec(0, [0], None), OutputRec(1, [], None)],
      [])
  }

  lemma ChainModuleOk(m: nat)
    requires m < 2
    ensures ModuleOk(Chain(), m)
  {
    var r := Chain().modules[m];
    assert Ids(r.inputs) == [1 - m] && Ids(r.outputs) == [m] && Ids(r.hyperps) == [];
    assert Names(r.inputs) == ["in"] && Names(r.outputs) == ["out"] && Names(r.hyperps) == [];
  }

  lemma ChainPortsOk(p: nat)
    requires p < 2
    ensures InputOk(Chain(), p) && OutputOk(Chain(), p)
  {
    var n := Chain();
    assert Ids(n.modules[0].inputs) == [1] && Ids(n.modules[0].outputs) == [0];
    assert Ids(n.modules[1].inputs) == [0] && Ids(n.modules[1].outputs) == [1];
  }

  lemma ChainWellFormed()
    ensures WellFormed(Chain())
  {
    forall k: nat | k < 2 ensures ModuleOk(Chain(), k) && InputOk(Chain(), k) && OutputOk(Chain(), k) {
      ChainModuleOk(k);
      ChainPortsOk(k);
    }
  }

  /** Collecting two distinct modules keeps both, in order. */
  lemma TwoUnique(a: nat, b: nat)
    requires a != b
    ensures AddAll([], [a, b]) == [a, b]
  {
    assert [a, b][1..] == [b];
    assert [b][1..] == [];
    assert Added([a], b) == [a, b];
    assert AddAll([a], [b]) == [a, b];
  }

  /** A duplicate-free sequence starting with `0, 1` holds neither again. */
  lemma ThirdDiffers(s: seq<nat>)
    requires NoDup(s) && 2 < |s| && s[0] == 0 && s[1] == 1
    ensures s[2] != 0 && s[2] != 1
  {
  }

  /** The walks below start at `A` and `B`, in that order. */
  lemma ChainSeeds()
    ensures PortsOk(Chain(), OutPorts([0, 1])) && UniqueOwners(Chain(), OutPorts([0, 1])) == [0, 1]
    ensures PortsOk(Chain(), InPorts([1, 0])) && UniqueOwners(Chain(), InPorts([1, 0])) == [0, 1]
  {
    var n := Chain();
    assert OutPorts([0, 1]) == [OutPort(0), OutPort(1)];
    assert Owners(n, OutPorts([0, 1])) == [0, 1];
    assert InPorts([1, 0]) == [InPort(1), InPort(0)];
    assert Owners(n, InPorts([1, 0])) == [0, 1];
    TwoUnique(0, 1);
  }

  /** A walk from two seeds `a` and `b` that nothing stops, in which `x` is a neighbour of a
      seed and every neighbour is found after the seeds, visits `x` after the seeds. */
  lemma NeighbourAfterSeeds(next: seq<seq<nat>>, visited: seq<nat>, stopped: bool, a: nat, b: nat, x: nat)
    requires Walk([a, b], next, [], visited, stopped)
    requires !stopped ==> forall j, y :: 0 <= j < |visited| && y in Next(next, visited[j]) ==> y in visited[2..]
    requires x in Next(next, a) || x in Next(next, b)
    ensures 2 < |visited| && visited[0] == a && visited[1] == b && x in visited[2..]
  {
    assert !stopped;
    assert visited[0] == a && visited[1] == b;
    if x in Next(next, a) {
      assert x in visited[2..];
    } else {
      assert x in Next(next, visited[1]);
      assert x in visited[2..];
    }
  }

  /** In the chain, `B` is fed by `A`. */
  lemma ChainLink()
    ensures 1 in Next(SuccsTable(Chain()), 0) && 0 in Next(PredsTable(Chain()), 1)
  {
    var n := Chain();
    ChainWellFormed();
    SuccsMeaning(n, 0, 1);
    PredsMeaning(n, 1, 0);
    assert FedFrom(n, 0, 0);
  }

  /** The only unconnected input of the chain is that of `A`, and the only unconnected
      output is that of `B`. */
  lemma ChainFreePorts(p: nat)
    ensures p < |Chain().inputs| && Chain().inputs[p].fromOutput.None? <==> p == 1
    ensures p < |Chain().outputs| && Chain().outputs[p].toInputs == [] <==> p == 1
  {
  }

  /** Walking backward from the outputs of `A` and `B` starts at `A` and `B`, finds `A` again
      as the module feeding `B`, and so visits `A` twice. */
  method BackwardRevisitsSeed() returns (visited: seq<nat>)
    ensures 2 < |visited| && visited[0] == 0 && 0 in visited[2..]
    ensures !NoDup(visited)
  {
    ChainWellFormed();
    ChainSeeds();
    ChainLink();
    var stopped;
    visited, stopped := TraverseBackward(Chain(), [0, 1], []);
    NeighbourAfterSeeds(PredsTable(Chain()), visited, stopped, 0, 1, 0);
    var j :| 2 <= j < |visited| && visited[j] == 0;
    assert visited[0] == visited[j];
  }

  /** Walking forward from the inputs of `A` and `B` starts at `A` and `B`, finds `B` again
      as the module fed by `A`, and so visits `B` twice. */
  method ForwardRevisitsSeed() returns (visited: seq<nat>)
    ensures 2 < |visited| && visited[1] == 1 && 1 in visited[2..]
    ensures !NoDup(visited)
  {
    ChainWellFormed();
    ChainSeeds();
    ChainLink();
    var stopped;
    visited, stopped := TraverseForward(Chain(), [1, 0], []);
    NeighbourAfterSeeds(SuccsTable(Chain()), visited, stopped, 0, 1, 1);
    var j :| 2 <= j < |visited| && visited[j] == 1;
    assert visited[1] == visited[j];
  }

  /** A walk from the seeds `0, 1` that nothing stops, visits nothing twice and stays below
      module 2 visits exactly the seeds. */
  lemma SeedsOnly(next: seq<seq<nat>>, visited: seq<nat>, stopped: bool)
    requires Walk([0, 1], next, [], visited, stopped) && NoDup(visited)
    requires forall j :: 0 <= j < |visited| ==> visited[j] < 2
    ensures visited == [0, 1]
  {
    assert !stopped;
    assert visited[0] == 0 && visited[1] == 1;
    if 2 < |visited| {
      ThirdDiffers(visited);
    }
    assert visited == [0, 1];
  }

  /** The corrected backward walk on the same graph visits exactly `A` and `B`, once each. */
  method BackwardOnceVisitsEach() returns (visited: seq<nat>)
    ensures visited == [0, 1]
  {
    ChainWellFormed();
    ChainSeeds();
    var stopped;
    visited, stopped := TraverseBackwardOnce(Chain(), [0, 1], []);
    SeedsOnly(PredsTable(Chain()), visited, stopped);
  }

  /** `get_unconnected_inputs` from the outputs of `A` and `B` lists the one unconnected
      input, that of `A`, twice, because the walk visits `A` twice. */
  method UnconnectedInputsTwice() returns (ids: seq<nat>)
    ensures 1 < |ids| && forall k :: 0 <= k < |ids| ==> ids[k] == 1
    ensures !NoDup(ids)
  {
    ChainWellFormed();
    ChainSeeds();
    ChainLink();
    ids := GetUnconnectedInputs(Chain(), [0, 1]);
    var visited, stopped := TraverseBackward(Chain(), [0, 1], []);
    NeighbourAfterSeeds(PredsTable(Chain()), visited, stopped, 0, 1, 0);
    var j :| 2 <= j < |visited| && visited[j] == 0;
    FreeInputsMeaning(Chain(), 0, 1);
    AlongRepeats(FreeInputLists(Chain()), visited, 0, j);
    forall k | 0 <= k < |ids| ensures ids[k] == 1 {
      assert ids[k] in ids;
      ChainFreePorts(ids[k]);
    }
  }

  /** `get_unconnected_outputs` from the inputs of `A` and `B` lists the one unconnected
      output, that of `B`, twice, because the walk visits `B` twice. */
  method UnconnectedOutputsTwice() returns (os: seq<nat>)
    ensures 1 < |os| && forall k :: 0 <= k < |os| ==> os[k] == 1
    ensures !NoDup(os)
  {
    ChainWellFormed();
    ChainSeeds();
    ChainLink();
    os := GetUnconnectedOutputs(Chain(), [1, 0]);
    var visited, stopped := TraverseForward(Chain(), [1, 0], []);
    NeighbourAfterSeeds(SuccsTable(Chain()), visited, stopped, 0, 1, 1);
    var j :| 2 <= j < |visited| && visited[j] == 1;
    FreeOutputsMeaning(Chain(), 1, 1);
    AlongRepeats(FreeOutputLists(Chain()), visited, 1, j);
    forall k | 0 <= k < |os| ensures os[k] == 1 {
      assert os[k] in os;
      ChainFreePorts(os[k]);
    }
  }
}
