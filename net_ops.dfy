/** The state changes of the graph core as functions on a graph value, each with the proof
    that it keeps the graph well formed: growing the arenas, wiring ports together, and
    recording values. */
module NetOps {
  import opened Base
  import opened OrderedSets
  import opened Nets

  // ---------------------------------------------------------------------------------
  // Python's list.remove on a fan-out list

  /** `s` without the first occurrence of `x`. */
  function Remove(s: seq<nat>, x: nat): (r: seq<nat>)
    ensures x !in s ==> r == s
    ensures |r| == if x in s then |s| - 1 else |s|
  {
    if s == [] then []
    else if s[0] == x then s[1..]
    else
      assert x in s <==> x in s[1..];
      [s[0]] + Remove(s[1..], x)
  }

  /** Removing an element that first occurs at `k` cuts out position `k`. */
  lemma {:induction false} RemoveAt(s: seq<nat>, k: nat)
    requires k < |s| && s[k] !in s[..k]
    ensures Remove(s, s[k]) == s[..k] + s[k + 1..]
  {
    if k > 0 {
      assert s[1..][k - 1] == s[k];
      assert s[1..][..k - 1] == s[1..k];
      RemoveAt(s[1..], k - 1);
      assert s[1..][k..] == s[k + 1..];
    }
  }

  /** Cutting one position out of a list without duplicates leaves one without duplicates
      that holds every other element. */
  lemma CutNoDup(s: seq<nat>, k: nat)
    requires NoDup(s) && k < |s|
    ensures NoDup(s[..k] + s[k + 1..])
    ensures forall y :: y in s[..k] + s[k + 1..] <==> y in s && y != s[k]
  {
    var c := s[..k] + s[k + 1..];
    forall i, j | 0 <= i < j < |c| ensures c[i] != c[j] {
      var i', j' := if i < k then i else i + 1, if j < k then j else j + 1;
      assert c[i] == s[i'] && c[j] == s[j'];
    }
    forall y | y in s && y != s[k] ensures y in c {
      var i :| 0 <= i < |s| && s[i] == y;
      assert c[if i < k then i else i - 1] == y;
    }
    forall y | y in c ensures y in s && y != s[k] {
      var i :| 0 <= i < |c| && c[i] == y;
      var i' := if i < k then i else i + 1;
      assert s[i'] == y;
    }
  }

  /** In a list without duplicates, removal takes out exactly that element. */
  lemma RemoveNoDup(s: seq<nat>, x: nat)
    requires NoDup(s)
    ensures NoDup(Remove(s, x))
    ensures forall y :: y in Remove(s, x) <==> y in s && y != x
  {
    if x in s {
      var k :| 0 <= k < |s| && s[k] == x;
      assert s[k] !in s[..k];
      RemoveAt(s, k);
      CutNoDup(s, k);
    }
  }

  /** In a list without duplicates, what removal leaves is every other element. */
  lemma RemoveMembers(s: seq<nat>, x: nat)
    ensures NoDup(s) ==> forall y :: y in Remove(s, x) <==> y in s && y != x
  {
    if NoDup(s) {
      RemoveNoDup(s, x);
    }
  }

  /** Removing the element just appended undoes the append. */
  lemma RemoveLast(s: seq<nat>, x: nat)
    requires x !in s
    ensures Remove(s + [x], x) == s
  {
    RemoveAt(s + [x], |s|);
    assert (s + [x])[..|s|] == s;
  }

  // ---------------------------------------------------------------------------------
  // Connections

  /** The graph after `Input.connect`: `i` points at `o`, and `o` lists `i` last. */
  function WithConnection<V>(n: Net<V>, i: nat, o: nat): (r: Net<V>)
    requires i < |n.inputs| && o < |n.outputs|
    ensures r.modules == n.modules && r.hyperps == n.hyperps
    ensures |r.inputs| == |n.inputs| && |r.outputs| == |n.outputs|
    ensures r.inputs[i] == n.inputs[i].(fromOutput := Some(o))
    ensures r.outputs[o].toInputs == n.outputs[o].toInputs + [i]
    ensures r.outputs[o].owner == n.outputs[o].owner && r.outputs[o].val == n.outputs[o].val
    ensures forall x :: 0 <= x < |n.inputs| && x != i ==> r.inputs[x] == n.inputs[x]
    ensures forall y :: 0 <= y < |n.outputs| && y != o ==> r.outputs[y] == n.outputs[y]
  {
    n.(inputs := n.inputs[i := n.inputs[i].(fromOutput := Some(o))],
       outputs := n.outputs[o := n.outputs[o].(toInputs := n.outputs[o].toInputs + [i])])
  }

  /** The graph after `Input.disconnect`: `i` has no output and its output no longer lists it. */
  function WithoutConnection<V>(n: Net<V>, i: nat): (r: Net<V>)
    requires i < |n.inputs| && n.inputs[i].fromOutput.Some?
    requires n.inputs[i].fromOutput.value < |n.outputs|
    ensures r.modules == n.modules && r.hyperps == n.hyperps
    ensures |r.inputs| == |n.inputs| && |r.outputs| == |n.outputs|
    ensures r.inputs[i] == n.inputs[i].(fromOutput := None)
    ensures var o := n.inputs[i].fromOutput.value;
      && r.outputs[o].owner == n.outputs[o].owner && r.outputs[o].val == n.outputs[o].val
      && |r.outputs[o].toInputs| == |n.outputs[o].toInputs| - (if i in n.outputs[o].toInputs then 1 else 0)
      && (NoDup(n.outputs[o].toInputs) ==>
            forall y :: y in r.outputs[o].toInputs <==> y in n.outputs[o].toInputs && y != i)
    ensures forall x :: 0 <= x < |n.inputs| && x != i ==> r.inputs[x] == n.inputs[x]
    ensures forall y :: 0 <= y < |n.outputs| && y != n.inputs[i].fromOutput.value ==> r.outputs[y] == n.outputs[y]
  {
    var o := n.inputs[i].fromOutput.value;
    RemoveMembers(n.outputs[o].toInputs, i);
    n.(inputs := n.inputs[i := n.inputs[i].(fromOutput := None)],
       outputs := n.outputs[o := n.outputs[o].(toInputs := Remove(n.outputs[o].toInputs, i))])
  }

  lemma ConnectWellFormed<V>(n: Net<V>, i: nat, o: nat)
    requires WellFormed(n) && i < |n.inputs| && o < |n.outputs|
    requires n.inputs[i].fromOutput.None?
    ensures WellFormed(WithConnection(n, i, o))
  {
    var n2 := WithConnection(n, i, o);
    forall m | 0 <= m < |n2.modules| ensures ModuleOk(n2, m) {
      assert ModuleOk(n, m);
    }
    forall j | 0 <= j < |n2.inputs| ensures InputOk(n2, j) {
      assert InputOk(n, j);
    }
    forall p | 0 <= p < |n2.outputs| ensures OutputOk(n2, p) {
      assert OutputOk(n, p);
      if p == o {
        assert i !in n.outputs[o].toInputs by {
          if i in n.outputs[o].toInputs { SymmetricLinks(n, i, o); }
        }
      }
    }
    forall h | 0 <= h < |n2.hyperps| ensures HyperpOk(n2, h) {
      assert HyperpOk(n, h);
    }
  }

  lemma DisconnectWellFormed<V>(n: Net<V>, i: nat)
    requires WellFormed(n) && i < |n.inputs| && n.inputs[i].fromOutput.Some?
    ensures n.inputs[i].fromOutput.value < |n.outputs|
    ensures WellFormed(WithoutConnection(n, i))
  {
    assert InputOk(n, i);
    var o := n.inputs[i].fromOutput.value;
    var n2 := WithoutConnection(n, i);
    assert OutputOk(n, o);
    RemoveNoDup(n.outputs[o].toInputs, i);
    forall m | 0 <= m < |n2.modules| ensures ModuleOk(n2, m) {
      assert ModuleOk(n, m);
    }
    forall j | 0 <= j < |n2.inputs| ensures InputOk(n2, j) {
      assert InputOk(n, j);
    }
    forall p | 0 <= p < |n2.outputs| ensures OutputOk(n2, p) {
      assert OutputOk(n, p);
      if p == o {
        forall k | 0 <= k < |n2.outputs[o].toInputs|
          ensures n2.outputs[o].toInputs[k] < |n2.inputs|
          ensures n2.inputs[n2.outputs[o].toInputs[k]].fromOutput == Some(o)
        {
          var j := n2.outputs[o].toInputs[k];
          assert j in n.outputs[o].toInputs && j != i;
        }
      }
    }
    forall h | 0 <= h < |n2.hyperps| ensures HyperpOk(n2, h) {
      assert HyperpOk(n, h);
    }
  }

  /** Disconnecting right after connecting restores both ends exactly. */
  lemma {:induction false} ConnectDisconnectRoundTrip<V>(n: Net<V>, i: nat, o: nat)
    requires WellFormed(n) && i < |n.inputs| && o < |n.outputs|
    requires n.inputs[i].fromOutput.None?
    ensures WithoutConnection(WithConnection(n, i, o), i) == n
  {
    assert i !in n.outputs[o].toInputs by {
      if i in n.outputs[o].toInputs { SymmetricLinks(n, i, o); }
    }
    RemoveLast(n.outputs[o].toInputs, i);
    var n2 := WithoutConnection(WithConnection(n, i, o), i);
    assert n2.inputs == n.inputs;
    assert n2.outputs == n.outputs;
  }

  // ---------------------------------------------------------------------------------
  // Growing the arenas

  /** The graph with one more module, holding no ports or roles and not compiled. */
  function WithModule<V>(n: Net<V>): Net<V>
  {
    n.(modules := n.modules + [ModuleRec([], [], [], false)])
  }

  /** The graph with one more hyperparameter, unset and with no dependents. */
  function WithHyperp<V>(n: Net<V>): Net<V>
  {
    n.(hyperps := n.hyperps + [HyperpRec(None, [])])
  }

  /** The graph with a new unconnected input owned by `m` under the local name `local`. */
  function WithInput<V>(n: Net<V>, m: nat, local: string): Net<V>
    requires m < |n.modules|
  {
    n.(modules := n.modules[m := n.modules[m].(inputs := n.modules[m].inputs + [(local, |n.inputs|)])],
       inputs := n.inputs + [InputRec(m, None, None)])
  }

  /** The graph with a new unconnected output owned by `m` under the local name `local`. */
  function WithOutput<V>(n: Net<V>, m: nat, local: string): Net<V>
    requires m < |n.modules|
  {
    n.(modules := n.modules[m := n.modules[m].(outputs := n.modules[m].outputs + [(local, |n.outputs|)])],
       outputs := n.outputs + [OutputRec(m, [], None)])
  }

  /** The graph where `m` depends on `h` under the role `role`. */
  function WithDependency<V>(n: Net<V>, m: nat, h: nat, role: string): Net<V>
    requires m < |n.modules| && h < |n.hyperps|
  {
    n.(modules := n.modules[m := n.modules[m].(hyperps := n.modules[m].hyperps + [(role, h)])],
       hyperps := n.hyperps[h := n.hyperps[h].(dependents := Added(n.hyperps[h].dependents, m))])
  }

  lemma ModuleWellFormed<V>(n: Net<V>)
    requires WellFormed(n)
    ensures WellFormed(WithModule(n))
  {
    var n2 := WithModule(n);
    forall m | 0 <= m < |n2.modules| ensures ModuleOk(n2, m) {
      if m < |n.modules| { assert ModuleOk(n, m); }
    }
    forall j | 0 <= j < |n2.inputs| ensures InputOk(n2, j) {
      assert InputOk(n, j);
    }
    forall p | 0 <= p < |n2.outputs| ensures OutputOk(n2, p) {
      assert OutputOk(n, p);
    }
    forall h | 0 <= h < |n2.hyperps| ensures HyperpOk(n2, h) {
      assert HyperpOk(n, h);
    }
  }

  lemma HyperpWellFormed<V>(n: Net<V>)
    requires WellFormed(n)
    ensures WellFormed(WithHyperp(n))
  {
    var n2 := WithHyperp(n);
    forall m | 0 <= m < |n2.modules| ensures ModuleOk(n2, m) {
      assert ModuleOk(n, m);
    }
    forall j | 0 <= j < |n2.inputs| ensures InputOk(n2, j) {
      assert InputOk(n, j);
    }
    forall p | 0 <= p < |n2.outputs| ensures OutputOk(n2, p) {
      assert OutputOk(n, p);
    }
    forall h | 0 <= h < |n2.hyperps| ensures HyperpOk(n2, h) {
      if h < |n.hyperps| { assert HyperpOk(n, h); }
    }
  }

  lemma InputWellFormed<V>(n: Net<V>, m: nat, local: string)
    requires WellFormed(n) && m < |n.modules|
    requires local !in Names(n.modules[m].inputs)
    ensures WellFormed(WithInput(n, m, local))
  {
    var n2 := WithInput(n, m, local);
    var id := |n.inputs|;
    RolesAppend(n.modules[m].inputs, (local, id));
    forall q | 0 <= q < |n2.modules| ensures ModuleOk(n2, q) {
      assert ModuleOk(n, q);
    }
    forall j | 0 <= j < |n2.inputs| ensures InputOk(n2, j) {
      if j < id {
        assert InputOk(n, j);
      }
    }
    forall p | 0 <= p < |n2.outputs| ensures OutputOk(n2, p) {
      assert OutputOk(n, p);
    }
    forall h | 0 <= h < |n2.hyperps| ensures HyperpOk(n2, h) {
      assert HyperpOk(n, h);
    }
  }

  lemma OutputWellFormed<V>(n: Net<V>, m: nat, local: string)
    requires WellFormed(n) && m < |n.modules|
    requires local !in Names(n.modules[m].outputs)
    ensures WellFormed(WithOutput(n, m, local))
  {
    var n2 := WithOutput(n, m, local);
    var id := |n.outputs|;
    RolesAppend(n.modules[m].outputs, (local, id));
    forall q | 0 <= q < |n2.modules| ensures ModuleOk(n2, q) {
      assert ModuleOk(n, q);
    }
    forall j | 0 <= j < |n2.inputs| ensures InputOk(n2, j) {
      assert InputOk(n, j);
    }
    forall p | 0 <= p < |n2.outputs| ensures OutputOk(n2, p) {
      if p < id {
        assert OutputOk(n, p);
      }
    }
    forall h | 0 <= h < |n2.hyperps| ensures HyperpOk(n2, h) {
      assert HyperpOk(n, h);
    }
  }

  lemma DependencyWellFormed<V>(n: Net<V>, m: nat, h: nat, role: string)
    requires WellFormed(n) && m < |n.modules| && h < |n.hyperps|
    requires role !in Names(n.modules[m].hyperps)
    ensures WellFormed(WithDependency(n, m, h, role))
  {
    var n2 := WithDependency(n, m, h, role);
    forall q | 0 <= q < |n2.modules| ensures ModuleOk(n2, q) {
      DependencyModuleOk(n, m, h, role, q);
    }
    forall j | 0 <= j < |n2.inputs| ensures InputOk(n2, j) {
      assert InputOk(n, j);
      assert n2.modules[n.inputs[j].owner].inputs == n.modules[n.inputs[j].owner].inputs;
    }
    forall p | 0 <= p < |n2.outputs| ensures OutputOk(n2, p) {
      assert OutputOk(n, p);
      assert n2.modules[n.outputs[p].owner].outputs == n.modules[n.outputs[p].owner].outputs;
    }
    forall g | 0 <= g < |n2.hyperps| ensures HyperpOk(n2, g) {
      DependencyHyperpOk(n, m, h, role, g);
    }
  }

  lemma DependencyModuleOk<V>(n: Net<V>, m: nat, h: nat, role: string, q: nat)
    requires WellFormed(n) && m < |n.modules| && h < |n.hyperps| && q < |n.modules|
    requires role !in Names(n.modules[m].hyperps)
    ensures ModuleOk(WithDependency(n, m, h, role), q)
  {
    assert ModuleOk(n, q);
    if q == m {
      RolesAppend(n.modules[m].hyperps, (role, h));
    }
  }

  lemma DependencyHyperpOk<V>(n: Net<V>, m: nat, h: nat, role: string, g: nat)
    requires WellFormed(n) && m < |n.modules| && h < |n.hyperps| && g < |n.hyperps|
    ensures HyperpOk(WithDependency(n, m, h, role), g)
  {
    var n2 := WithDependency(n, m, h, role);
    assert HyperpOk(n, g);
    RolesAppend(n.modules[m].hyperps, (role, h));
    forall k | 0 <= k < |n2.hyperps[g].dependents|
      ensures n2.hyperps[g].dependents[k] < |n2.modules| && g in Ids(n2.modules[n2.hyperps[g].dependents[k]].hyperps)
    {
      var x := n2.hyperps[g].dependents[k];
      if x != m || g != h {
        assert x in n.hyperps[g].dependents;
        var k' :| 0 <= k' < |n.hyperps[g].dependents| && n.hyperps[g].dependents[k'] == x;
      }
    }
  }

  // ---------------------------------------------------------------------------------
  // Values

  /** The graph after hyperparameter `h` is assigned `v`. */
  function WithHyperpValue<V>(n: Net<V>, h: nat, v: V): (r: Net<V>)
    requires h < |n.hyperps|
    ensures SameShape(n, r)
  {
    n.(hyperps := n.hyperps[h := n.hyperps[h].(val := Some(v))])
  }
}
