/** The queries built on the traversals: `is_specified`, `get_unset_hyperparameters`,
    `get_unconnected_inputs` and `get_unconnected_outputs`. Each visitor of the source becomes
    a stop table (for `is_specified`) or a pass over the visited modules in visit order (for
    the collecting visitors, which never stop the walk). */
module Queries {
  import opened Base
  import opened OrderedSets
  import opened Nets
  import opened Traversals
  import opened Walks

  // ---------------------------------------------------------------------------------
  // Selecting ports and hyperparameters of a module

  /** The ids of `rs`, in role order, that the mask `keep` selects. */
  function Select(rs: Roles, keep: seq<bool>): (r: seq<nat>)
    ensures forall x :: x in r <==> x in Ids(rs) && x < |keep| && keep[x]
    ensures NoDup(Ids(rs)) ==> NoDup(r)
    decreases |rs|
  {
    if rs == [] then []
    else
      IdsTail(rs);
      var rest := Select(rs[1..], keep);
      if rs[0].1 < |keep| && keep[rs[0].1] then
        assert NoDup(Ids(rs)) ==> NoDup([rs[0].1] + rest) by {
          if NoDup(Ids(rs)) {
            ConcatNoDup([rs[0].1], rest);
          }
        }
        [rs[0].1] + rest
      else rest
  }

  /** The ids of a non-empty role list are its first id followed by the ids of the rest. */
  lemma IdsTail(rs: Roles)
    requires rs != []
    ensures Ids(rs) == [rs[0].1] + Ids(rs[1..])
    ensures NoDup(Ids(rs)) ==> NoDup(Ids(rs[1..])) && rs[0].1 !in Ids(rs[1..])
  {
    assert Ids(rs) == [rs[0].1] + Ids(rs[1..]);
    if NoDup(Ids(rs)) {
      forall i, j | 0 <= i < j < |rs| - 1 ensures Ids(rs[1..])[i] != Ids(rs[1..])[j] {
        assert Ids(rs)[i + 1] == Ids(rs[1..])[i] && Ids(rs)[j + 1] == Ids(rs[1..])[j];
      }
      forall k | 0 <= k < |rs| - 1 ensures Ids(rs[1..])[k] != rs[0].1 {
        assert Ids(rs)[k + 1] == Ids(rs[1..])[k];
        assert Ids(rs)[0] != Ids(rs)[k + 1];
      }
    }
  }

  /** Which hyperparameters have no value yet. */
  function UnsetMask<V>(n: Net<V>): (r: seq<bool>)
    ensures |r| == |n.hyperps| && forall h :: 0 <= h < |n.hyperps| ==> r[h] == n.hyperps[h].val.None?
  {
    seq(|n.hyperps|, h requires 0 <= h < |n.hyperps| => n.hyperps[h].val.None?)
  }

  /** Which inputs are not connected to an output. */
  function FreeInputMask<V>(n: Net<V>): (r: seq<bool>)
    ensures |r| == |n.inputs| && forall i: nat :: 0 <= i < |n.inputs| ==> r[i] == n.inputs[i].fromOutput.None?
  {
    seq(|n.inputs|, i requires 0 <= i < |n.inputs| => n.inputs[i].fromOutput.None?)
  }

  /** Which outputs feed no input. */
  function FreeOutputMask<V>(n: Net<V>): (r: seq<bool>)
    ensures |r| == |n.outputs| && forall o: nat :: 0 <= o < |n.outputs| ==> r[o] == (n.outputs[o].toInputs == [])
  {
    seq(|n.outputs|, o requires 0 <= o < |n.outputs| => n.outputs[o].toInputs == [])
  }

  /** The unset hyperparameters of module `m`, in role order. */
  function UnsetOf<V>(n: Net<V>, m: nat): seq<nat>
  {
    if m < |n.modules| then Select(n.modules[m].hyperps, UnsetMask(n)) else []
  }

  /** The unconnected inputs of module `m`, in role order. */
  function FreeInputsOf<V>(n: Net<V>, m: nat): seq<nat>
  {
    if m < |n.modules| then Select(n.modules[m].inputs, FreeInputMask(n)) else []
  }

  /** The unconnected outputs of module `m`, in role order. */
  function FreeOutputsOf<V>(n: Net<V>, m: nat): seq<nat>
  {
    if m < |n.modules| then Select(n.modules[m].outputs, FreeOutputMask(n)) else []
  }

  /** Each module's unset hyperparameters, as a table indexed by module. */
  function UnsetLists<V>(n: Net<V>): (t: seq<seq<nat>>)
    ensures forall m: nat :: Next(t, m) == UnsetOf(n, m)
  {
    seq(|n.modules|, m requires 0 <= m < |n.modules| => UnsetOf(n, m))
  }

  /** Each module's unconnected inputs, as a table indexed by module. */
  function FreeInputLists<V>(n: Net<V>): (t: seq<seq<nat>>)
    ensures forall m: nat :: Next(t, m) == FreeInputsOf(n, m)
  {
    seq(|n.modules|, m requires 0 <= m < |n.modules| => FreeInputsOf(n, m))
  }

  /** Each module's unconnected outputs, as a table indexed by module. */
  function FreeOutputLists<V>(n: Net<V>): (t: seq<seq<nat>>)
    ensures forall m: nat :: Next(t, m) == FreeOutputsOf(n, m)
  {
    seq(|n.modules|, m requires 0 <= m < |n.modules| => FreeOutputsOf(n, m))
  }

  /** The entries of the table `t` for the modules `vs`, one module after the other: what a
      visitor that appends each visited module's entries collects. */
  function Along(t: seq<seq<nat>>, vs: seq<nat>): seq<nat>
    decreases |vs|
  {
    if vs == [] then [] else Along(t, vs[..|vs| - 1]) + Next(t, vs[|vs| - 1])
  }

  /** The list collected along `vs` holds exactly the entries of the modules of `vs`. */
  lemma {:induction false} AlongMembers(t: seq<seq<nat>>, vs: seq<nat>)
    ensures forall x :: x in Along(t, vs) <==> exists j :: 0 <= j < |vs| && x in Next(t, vs[j])
    decreases |vs|
  {
    if vs != [] {
      var last := |vs| - 1;
      var p := vs[..last];
      AlongMembers(t, p);
      assert Along(t, vs) == Along(t, p) + Next(t, vs[last]);
      forall x | x in Along(t, vs) ensures exists j :: 0 <= j < |vs| && x in Next(t, vs[j]) {
        if x in Along(t, p) {
          var j :| 0 <= j < last && x in Next(t, p[j]);
          assert p[j] == vs[j];
        } else {
          assert x in Next(t, vs[last]);
        }
      }
      forall x | exists j :: 0 <= j < |vs| && x in Next(t, vs[j]) ensures x in Along(t, vs) {
        var j :| 0 <= j < |vs| && x in Next(t, vs[j]);
        if j < last {
          assert p[j] == vs[j];
        }
      }
    }
  }

  /** What the first `i` modules contribute starts what the first `j` contribute. */
  lemma {:induction false} AlongPrefix(t: seq<seq<nat>>, vs: seq<nat>, i: nat, j: nat)
    requires i <= j <= |vs|
    ensures Along(t, vs[..i]) <= Along(t, vs[..j])
    decreases j
  {
    if i < j {
      AlongPrefix(t, vs, i, j - 1);
      assert vs[..j][..j - 1] == vs[..j - 1];
      var a, b := Along(t, vs[..i]), Along(t, vs[..j - 1]);
      assert Along(t, vs[..j]) == b + Next(t, vs[j - 1]);
      assert (b + Next(t, vs[j - 1]))[..|a|] == b[..|a|];
    }
  }

  /** The first entry of module `vs[a]` follows what the modules before it contribute. */
  lemma AlongAt(t: seq<seq<nat>>, vs: seq<nat>, a: nat)
    requires a < |vs| && Next(t, vs[a]) != []
    ensures |Along(t, vs[..a + 1])| == |Along(t, vs[..a])| + |Next(t, vs[a])|
    ensures |Along(t, vs[..a])| < |Along(t, vs)|
    ensures Along(t, vs)[|Along(t, vs[..a])|] == Next(t, vs[a])[0]
  {
    assert vs[..a + 1][..a] == vs[..a];
    var pa, pa1 := Along(t, vs[..a]), Along(t, vs[..a + 1]);
    assert pa1 == pa + Next(t, vs[a]);
    AlongPrefix(t, vs, a + 1, |vs|);
    assert vs[..|vs|] == vs;
    assert pa1[|pa|] == Next(t, vs[a])[0];
  }

  /** A module visited twice whose entry is not empty makes the collected list repeat an
      element. */
  lemma AlongRepeats(t: seq<seq<nat>>, vs: seq<nat>, a: nat, b: nat)
    requires a < b < |vs| && vs[a] == vs[b] && Next(t, vs[a]) != []
    ensures !NoDup(Along(t, vs))
  {
    AlongAt(t, vs, a);
    AlongAt(t, vs, b);
    AlongPrefix(t, vs, a + 1, b);
    var all, p, q := Along(t, vs), |Along(t, vs[..a])|, |Along(t, vs[..b])|;
    assert p < q && all[p] == all[q];
  }

  /** In a well-formed graph, `i` is listed for `m` exactly when it is an input of `m` that
      is not connected; the list has no repetitions. */
  lemma FreeInputsMeaning<V>(n: Net<V>, m: nat, i: nat)
    requires WellFormed(n) && m < |n.modules|
    ensures i in FreeInputsOf(n, m) <==> i < |n.inputs| && n.inputs[i].owner == m && n.inputs[i].fromOutput.None?
    ensures NoDup(FreeInputsOf(n, m))
  {
    var rs := n.modules[m].inputs;
    assert ModuleOk(n, m);
    if i in Ids(rs) {
      var k :| 0 <= k < |rs| && Ids(rs)[k] == i;
      assert rs[k].1 == i;
    }
    if i < |n.inputs| && n.inputs[i].owner == m {
      assert InputOk(n, i);
    }
  }

  /** In a well-formed graph, `o` is listed for `m` exactly when it is an output of `m` that
      feeds no input; the list has no repetitions. */
  lemma FreeOutputsMeaning<V>(n: Net<V>, m: nat, o: nat)
    requires WellFormed(n) && m < |n.modules|
    ensures o in FreeOutputsOf(n, m) <==> o < |n.outputs| && n.outputs[o].owner == m && n.outputs[o].toInputs == []
    ensures NoDup(FreeOutputsOf(n, m))
  {
    var rs := n.modules[m].outputs;
    assert ModuleOk(n, m);
    if o in Ids(rs) {
      var k :| 0 <= k < |rs| && Ids(rs)[k] == o;
      assert rs[k].1 == o;
    }
    if o < |n.outputs| && n.outputs[o].owner == m {
      assert OutputOk(n, o);
    }
  }

  // ---------------------------------------------------------------------------------
  // is_specified and get_unset_hyperparameters

  /** The stop table of the `is_specified` visitor: stop at a module with an unset
      hyperparameter. */
  function UnsetTable<V>(n: Net<V>): (t: seq<bool>)
    ensures |t| == |n.modules|
  {
    seq(|n.modules|, m requires 0 <= m < |n.modules| => UnsetOf(n, m) != [])
  }

  /** The modules a backward walk from the outputs `outs` may reach. */
  ghost predicate BackwardReaches<V>(n: Net<V>, outs: seq<nat>, m: nat)
    requires PortsOk(n, OutPorts(outs))
  {
    Reaches(UniqueOwners(n, OutPorts(outs)), PredsTable(n), m)
  }

  /** The modules a forward walk from the inputs `ins` may reach. */
  ghost predicate ForwardReaches<V>(n: Net<V>, ins: seq<nat>, m: nat)
    requires PortsOk(n, InPorts(ins))
  {
    Reaches(UniqueOwners(n, InPorts(ins)), SuccsTable(n), m)
  }

  /** Every hyperparameter of every module reachable backward from `outs` has a value. */
  ghost predicate Specified<V>(n: Net<V>, outs: seq<nat>)
    requires PortsOk(n, OutPorts(outs))
  {
    forall m :: BackwardReaches(n, outs, m) ==> UnsetOf(n, m) == []
  }

  /** `is_specified`: walk backward from `outs`, stopping at the first module with an unset
      hyperparameter; the outputs are specified when the walk was not stopped. */
  method IsSpecified<V>(n: Net<V>, outs: seq<nat>) returns (r: bool)
    requires WellFormed(n) && PortsOk(n, OutPorts(outs))
    ensures r <==> Specified(n, outs)
  {
    var visited, stopped := TraverseBackward(n, outs, UnsetTable(n));
    r := !stopped;
    SpecifiedWalk(n, outs, visited, stopped);
  }

  /** A backward walk from `outs` that stops at modules with an unset hyperparameter is not
      stopped exactly when `outs` is specified. */
  lemma SpecifiedWalk<V>(n: Net<V>, outs: seq<nat>, visited: seq<nat>, stopped: bool)
    requires PortsOk(n, OutPorts(outs))
    requires Walk(UniqueOwners(n, OutPorts(outs)), PredsTable(n), UnsetTable(n), visited, stopped)
    ensures !stopped <==> Specified(n, outs)
  {
    ghost var seeds := UniqueOwners(n, OutPorts(outs));
    WalkReaches(seeds, PredsTable(n), UnsetTable(n), visited, stopped);
    if stopped {
      var v := visited[|visited| - 1];
      assert Stop(UnsetTable(n), v);
      assert BackwardReaches(n, outs, v);
    } else {
      forall m | BackwardReaches(n, outs, m) ensures UnsetOf(n, m) == [] {
        assert m in visited;
        var j :| 0 <= j < |visited| && visited[j] == m;
        assert !Stop(UnsetTable(n), visited[j]);
      }
    }
  }

  /** The unset hyperparameters of the modules `visited`, each once, in order of first
      appearance: what the `get_unset_hyperparameters` visitor adds to its ordered set. */
  method CollectUnset<V>(n: Net<V>, visited: seq<nat>) returns (hs: seq<nat>)
    ensures NoDup(hs)
    ensures forall h :: h in hs <==> exists j :: 0 <= j < |visited| && h in UnsetOf(n, visited[j])
    ensures hs == AddAll([], Along(UnsetLists(n), visited))
  {
    var s := new OrderedSet<nat>();
    var j := 0;
    while j < |visited|
      invariant j <= |visited| && s.Valid()
      invariant s.items == AddAll([], Along(UnsetLists(n), visited[..j]))
    {
      UnsetStep(n, visited, j);
      s.Update(UnsetOf(n, visited[j]));
      j := j + 1;
    }
    assert visited[..j] == visited;
    hs := s.items;
    AlongMembers(UnsetLists(n), visited);
  }

  /** Adding the unset hyperparameters of one more visited module extends the ordered set by
      that module's entry of `UnsetLists`. */
  lemma UnsetStep<V>(n: Net<V>, visited: seq<nat>, j: nat)
    requires j < |visited|
    ensures AddAll(AddAll([], Along(UnsetLists(n), visited[..j])), UnsetOf(n, visited[j]))
         == AddAll([], Along(UnsetLists(n), visited[..j + 1]))
  {
    assert visited[..j + 1][..j] == visited[..j];
    AddAllAppend([], Along(UnsetLists(n), visited[..j]), UnsetOf(n, visited[j]));
  }

  /** `get_unset_hyperparameters`: fails when the outputs are already specified; otherwise
      the unset hyperparameters of every module reachable backward from `outs`, each once. */
  method GetUnsetHyperparameters<V>(n: Net<V>, outs: seq<nat>) returns (r: Result<seq<nat>>)
    requires WellFormed(n) && PortsOk(n, OutPorts(outs))
    ensures r.Fail? <==> Specified(n, outs)
    ensures r.Fail? ==> r.error == NothingUnset
    ensures r.Ok? ==> 0 < |r.value| && NoDup(r.value)
    ensures r.Ok? ==> forall h :: h in r.value <==> exists m :: BackwardReaches(n, outs, m) && h in UnsetOf(n, m)
    ensures r.Ok? ==> r.value == AddAll([], Along(UnsetLists(n), BackwardOrder(n, outs, false)))
  {
    var spec := IsSpecified(n, outs);
    if spec {
      return Fail(NothingUnset);
    }
    var visited, stopped := TraverseBackward(n, outs, []);
    var hs := CollectUnset(n, visited);
    r := Ok(hs);
    WalkReaches(UniqueOwners(n, OutPorts(outs)), PredsTable(n), [], visited, stopped);
    UnsetCollected(n, outs, visited, hs);
  }

  /** What is collected along the modules reachable backward from `outs` holds the unset
      hyperparameters of exactly those modules, and something when `outs` is not specified. */
  lemma UnsetCollected<V>(n: Net<V>, outs: seq<nat>, visited: seq<nat>, hs: seq<nat>)
    requires PortsOk(n, OutPorts(outs))
    requires forall m :: m in visited <==> BackwardReaches(n, outs, m)
    requires forall h :: h in hs <==> exists j :: 0 <= j < |visited| && h in UnsetOf(n, visited[j])
    ensures forall h :: h in hs <==> exists m :: BackwardReaches(n, outs, m) && h in UnsetOf(n, m)
    ensures !Specified(n, outs) ==> 0 < |hs|
  {
    forall h ensures h in hs <==> exists m :: BackwardReaches(n, outs, m) && h in UnsetOf(n, m) {
      if h in hs {
        var j :| 0 <= j < |visited| && h in UnsetOf(n, visited[j]);
        assert BackwardReaches(n, outs, visited[j]);
      }
      if exists m :: BackwardReaches(n, outs, m) && h in UnsetOf(n, m) {
        var m :| BackwardReaches(n, outs, m) && h in UnsetOf(n, m);
        var j :| 0 <= j < |visited| && visited[j] == m;
      }
    }
    if !Specified(n, outs) {
      var m :| BackwardReaches(n, outs, m) && UnsetOf(n, m) != [];
      assert UnsetOf(n, m)[0] in hs;
    }
  }

  // ---------------------------------------------------------------------------------
  // get_unconnected_inputs and get_unconnected_outputs

  /** The unconnected inputs of the modules `visited`, module after module: what the
      `get_unconnected_inputs` visitor appends to its list. Without repeated modules the list
      has no repetitions. */
  method CollectFreeInputs<V>(n: Net<V>, visited: seq<nat>) returns (ids: seq<nat>)
    requires WellFormed(n) && forall j :: 0 <= j < |visited| ==> visited[j] < |n.modules|
    ensures forall i: nat :: i in ids <==> i < |n.inputs| && n.inputs[i].fromOutput.None? && n.inputs[i].owner in visited
    ensures NoDup(visited) ==> NoDup(ids)
    ensures ids == Along(FreeInputLists(n), visited)
  {
    ids := [];
    var j := 0;
    while j < |visited|
      invariant j <= |visited|
      invariant ids == Along(FreeInputLists(n), visited[..j])
    {
      assert visited[..j + 1][..j] == visited[..j];
      ids := ids + FreeInputsOf(n, visited[j]);
      j := j + 1;
    }
    assert visited[..j] == visited;
    FreeInputsAlong(n, visited);
    if NoDup(visited) {
      FreeInputsAlongNoDup(n, visited);
    }
  }

  /** The unconnected outputs of the modules `visited`, module after module: what the
      `get_unconnected_outputs` visitor appends to its list. Without repeated modules the list
      has no repetitions. */
  method CollectFreeOutputs<V>(n: Net<V>, visited: seq<nat>) returns (os: seq<nat>)
    requires WellFormed(n) && forall j :: 0 <= j < |visited| ==> visited[j] < |n.modules|
    ensures forall o: nat :: o in os <==> o < |n.outputs| && n.outputs[o].toInputs == [] && n.outputs[o].owner in visited
    ensures NoDup(visited) ==> NoDup(os)
    ensures os == Along(FreeOutputLists(n), visited)
  {
    os := [];
    var j := 0;
    while j < |visited|
      invariant j <= |visited|
      invariant os == Along(FreeOutputLists(n), visited[..j])
    {
      assert visited[..j + 1][..j] == visited[..j];
      os := os + FreeOutputsOf(n, visited[j]);
      j := j + 1;
    }
    assert visited[..j] == visited;
    FreeOutputsAlong(n, visited);
    if NoDup(visited) {
      FreeOutputsAlongNoDup(n, visited);
    }
  }

  /** A table whose entries are duplicate-free and list only elements that `own` assigns to
      the entry's module collects, along modules that do not repeat, a duplicate-free list. */
  lemma {:induction false} AlongNoDup(t: seq<seq<nat>>, vs: seq<nat>, own: seq<nat>)
    requires forall m: nat :: OwnedEntry(t, own, m)
    requires NoDup(vs)
    ensures NoDup(Along(t, vs))
    decreases |vs|
  {
    if vs != [] {
      var last := |vs| - 1;
      assert NoDup(vs[..last]) by {
        assert forall i :: 0 <= i < last ==> vs[..last][i] == vs[i];
      }
      AlongNoDup(t, vs[..last], own);
      AlongMembers(t, vs[..last]);
      forall x | x in Along(t, vs[..last]) ensures x !in Next(t, vs[last]) {
        var j :| 0 <= j < last && x in Next(t, vs[..last][j]);
        assert vs[..last][j] == vs[j] != vs[last];
        assert OwnedEntry(t, own, vs[j]) && OwnedEntry(t, own, vs[last]);
      }
      assert OwnedEntry(t, own, vs[last]);
      ConcatNoDup(Along(t, vs[..last]), Next(t, vs[last]));
    }
  }

  /** The entry of `m` in `t` has no repetitions and lists only elements that `own` assigns
      to `m`. */
  ghost predicate OwnedEntry(t: seq<seq<nat>>, own: seq<nat>, m: nat)
  {
    NoDup(Next(t, m)) && forall x :: x in Next(t, m) ==> x < |own| && own[x] == m
  }

  /** Along modules of a well-formed graph, the collected unconnected inputs are exactly the
      unconnected inputs of those modules, without repetitions when no module repeats. */
  lemma FreeInputsAlong<V>(n: Net<V>, visited: seq<nat>)
    requires WellFormed(n) && forall j :: 0 <= j < |visited| ==> visited[j] < |n.modules|
    ensures forall i: nat :: i in Along(FreeInputLists(n), visited) <==>
      i < |n.inputs| && n.inputs[i].fromOutput.None? && n.inputs[i].owner in visited
  {
    var t := FreeInputLists(n);
    AlongMembers(t, visited);
    forall i: nat ensures i in Along(t, visited) <==> i < |n.inputs| && n.inputs[i].fromOutput.None? && n.inputs[i].owner in visited {
      if i < |n.inputs| && n.inputs[i].fromOutput.None? && n.inputs[i].owner in visited {
        var j :| 0 <= j < |visited| && visited[j] == n.inputs[i].owner;
        FreeInputsMeaning(n, visited[j], i);
      }
      if i in Along(t, visited) {
        var j :| 0 <= j < |visited| && i in Next(t, visited[j]);
        FreeInputsMeaning(n, visited[j], i);
      }
    }
  }

  /** Along modules that do not repeat, no unconnected input is collected twice. */
  lemma FreeInputsAlongNoDup<V>(n: Net<V>, visited: seq<nat>)
    requires WellFormed(n) && NoDup(visited)
    ensures NoDup(Along(FreeInputLists(n), visited))
  {
    var t := FreeInputLists(n);
    var own := seq(|n.inputs|, i requires 0 <= i < |n.inputs| => n.inputs[i].owner);
    forall m: nat ensures OwnedEntry(t, own, m) {
      FreeInputsOwned(n, own, m);
    }
    AlongNoDup(t, visited, own);
  }

  /** Each module's entry of `FreeInputLists` lists, once each, inputs the module owns. */
  lemma FreeInputsOwned<V>(n: Net<V>, own: seq<nat>, m: nat)
    requires WellFormed(n)
    requires |own| == |n.inputs| && forall x :: 0 <= x < |n.inputs| ==> own[x] == n.inputs[x].owner
    ensures OwnedEntry(FreeInputLists(n), own, m)
  {
    if m < |n.modules| {
      forall x | x in Next(FreeInputLists(n), m) ensures x < |own| && own[x] == m {
        FreeInputsMeaning(n, m, x);
      }
      FreeInputsMeaning(n, m, 0);
    }
  }

  /** Along modules of a well-formed graph, the collected unconnected outputs are exactly the
      unconnected outputs of those modules, without repetitions when no module repeats. */
  lemma FreeOutputsAlong<V>(n: Net<V>, visited: seq<nat>)
    requires WellFormed(n) && forall j :: 0 <= j < |visited| ==> visited[j] < |n.modules|
    ensures forall o: nat :: o in Along(FreeOutputLists(n), visited) <==>
      o < |n.outputs| && n.outputs[o].toInputs == [] && n.outputs[o].owner in visited
  {
    var t := FreeOutputLists(n);
    AlongMembers(t, visited);
    forall o: nat ensures o in Along(t, visited) <==> o < |n.outputs| && n.outputs[o].toInputs == [] && n.outputs[o].owner in visited {
      if o < |n.outputs| && n.outputs[o].toInputs == [] && n.outputs[o].owner in visited {
        var j :| 0 <= j < |visited| && visited[j] == n.outputs[o].owner;
        FreeOutputsMeaning(n, visited[j], o);
      }
      if o in Along(t, visited) {
        var j :| 0 <= j < |visited| && o in Next(t, visited[j]);
        FreeOutputsMeaning(n, visited[j], o);
      }
    }
  }

  /** Along modules that do not repeat, no unconnected output is collected twice. */
  lemma FreeOutputsAlongNoDup<V>(n: Net<V>, visited: seq<nat>)
    requires WellFormed(n) && NoDup(visited)
    ensures NoDup(Along(FreeOutputLists(n), visited))
  {
    var t := FreeOutputLists(n);
    var own := seq(|n.outputs|, o requires 0 <= o < |n.outputs| => n.outputs[o].owner);
    forall m: nat ensures OwnedEntry(t, own, m) {
      FreeOutputsOwned(n, own, m);
    }
    AlongNoDup(t, visited, own);
  }

  /** Each module's entry of `FreeOutputLists` lists, once each, outputs the module owns. */
  lemma FreeOutputsOwned<V>(n: Net<V>, own: seq<nat>, m: nat)
    requires WellFormed(n)
    requires |own| == |n.outputs| && forall x :: 0 <= x < |n.outputs| ==> own[x] == n.outputs[x].owner
    ensures OwnedEntry(FreeOutputLists(n), own, m)
  {
    if m < |n.modules| {
      forall x | x in Next(FreeOutputLists(n), m) ensures x < |own| && own[x] == m {
        FreeOutputsMeaning(n, m, x);
      }
      FreeOutputsMeaning(n, m, 0);
    }
  }

  /** Two duplicate-free sequences with no common element concatenate to one. */
  lemma ConcatNoDup(a: seq<nat>, b: seq<nat>)
    requires NoDup(a) && NoDup(b) && forall x :: x in a ==> x !in b
    ensures NoDup(a + b)
  {
    forall i, j | 0 <= i < j < |a + b| ensures (a + b)[i] != (a + b)[j] {
      if j < |a| {
      } else if i < |a| {
        assert (a + b)[i] in a && (a + b)[j] in b;
      } else {
        assert (a + b)[i] == b[i - |a|] && (a + b)[j] == b[j - |a|];
      }
    }
  }

  /** `get_unconnected_inputs` as written: the unconnected inputs of every module reachable
      backward from `outs`; an input of a module the walk visits twice is listed twice. */
  method GetUnconnectedInputs<V>(n: Net<V>, outs: seq<nat>) returns (ids: seq<nat>)
    requires WellFormed(n) && PortsOk(n, OutPorts(outs))
    ensures forall i: nat :: i in ids <==>
      i < |n.inputs| && n.inputs[i].fromOutput.None? && BackwardReaches(n, outs, n.inputs[i].owner)
    ensures ids == Along(FreeInputLists(n), BackwardOrder(n, outs, false))
  {
    var visited, stopped := TraverseBackward(n, outs, []);
    ids := CollectFreeInputs(n, visited);
    WalkReaches(UniqueOwners(n, OutPorts(outs)), PredsTable(n), [], visited, stopped);
  }

  /** `get_unconnected_inputs` over the walk that visits each module once: the same inputs,
      each listed once. */
  method GetUnconnectedInputsOnce<V>(n: Net<V>, outs: seq<nat>) returns (ids: seq<nat>)
    requires WellFormed(n) && PortsOk(n, OutPorts(outs))
    ensures forall i: nat :: i in ids <==>
      i < |n.inputs| && n.inputs[i].fromOutput.None? && BackwardReaches(n, outs, n.inputs[i].owner)
    ensures NoDup(ids)
    ensures ids == Along(FreeInputLists(n), BackwardOrder(n, outs, true))
  {
    var visited, stopped := TraverseBackwardOnce(n, outs, []);
    ids := CollectFreeInputs(n, visited);
    WalkReaches(UniqueOwners(n, OutPorts(outs)), PredsTable(n), [], visited, stopped);
  }

  /** `get_unconnected_outputs` as written: the unconnected outputs of every module reachable
      forward from `ins`; an output of a module the walk visits twice is listed twice. */
  method GetUnconnectedOutputs<V>(n: Net<V>, ins: seq<nat>) returns (os: seq<nat>)
    requires WellFormed(n) && PortsOk(n, InPorts(ins))
    ensures forall o: nat :: o in os <==>
      o < |n.outputs| && n.outputs[o].toInputs == [] && ForwardReaches(n, ins, n.outputs[o].owner)
    ensures os == Along(FreeOutputLists(n), ForwardOrder(n, ins, false))
  {
    var visited, stopped := TraverseForward(n, ins, []);
    os := CollectFreeOutputs(n, visited);
    WalkReaches(UniqueOwners(n, InPorts(ins)), SuccsTable(n), [], visited, stopped);
  }

  /** `get_unconnected_outputs` over the walk that visits each module once: the same
      outputs, each listed once. */
  method GetUnconnectedOutputsOnce<V>(n: Net<V>, ins: seq<nat>) returns (os: seq<nat>)
    requires WellFormed(n) && PortsOk(n, InPorts(ins))
    ensures forall o: nat :: o in os <==>
      o < |n.outputs| && n.outputs[o].toInputs == [] && ForwardReaches(n, ins, n.outputs[o].owner)
    ensures NoDup(os)
    ensures os == Along(FreeOutputLists(n), ForwardOrder(n, ins, true))
  {
    var visited, stopped := TraverseForwardOnce(n, ins, []);
    os := CollectFreeOutputs(n, visited);
    WalkReaches(UniqueOwners(n, InPorts(ins)), SuccsTable(n), [], visited, stopped);
  }
}
