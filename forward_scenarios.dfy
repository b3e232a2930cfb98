/** The `A -> B -> C` chain run by the graph-level `forward` with each module's forward hook
    copying its input to its output: the value given to the input of `A` reaches the inputs
    of `B` and `C` and the output of `C`. */
module ForwardScenarios {
  import opened Base
  import opened OrderedSets
  import opened Nets
  import opened Walks
  import opened EvalOrder
  import opened Values
  import opened Graphs
  import opened EvalScenarios

  /** A forward hook that writes the value of input `in` to output `out`, and writes nothing
      while `in` has no value. */
  function Identity(m: nat, ins: map<string, int>, hs: map<string, int>): (r: seq<(string, int)>)
    ensures "in" in ins ==> r == [("out", ins["in"])]
    ensures "in" !in ins ==> r == []
  {
    if "in" in ins then [("out", ins["in"])] else []
  }

  /** In a graph shaped like the chain, a module whose input holds `v` writes `v` to its
      output. */
  lemma IdentityWrites(n: Net<int>, p: nat, v: int)
    requires p < 3 && |n.modules| == 3 && |n.inputs| == 3
    requires n.modules[p].(compiled := false) == Chain3().modules[p].(compiled := false)
    requires n.inputs[p].val == Some(v)
    ensures Written(n, p, Identity) == [("out", v)]
  {
    var rs := n.modules[p].inputs;
    assert rs == [("in", p)] && Names(rs) == ["in"];
    assert ValAt(InputVals(n), rs[0].1) == Some(v);
    assert InputView(n, p)["in"] == v;
    assert Names(n.modules[p].outputs) == ["out"];
  }

  /** Only `A` feeds `B` and only `B` feeds `C`: no module at or after a module's turn in
      `[A, B, C]` feeds it. */
  lemma ChainFeedsEarlier(p: nat, q: nat)
    requires p <= q < 3
    ensures !FeedsModule(Chain3(), q, p)
  {
    var n := Chain3();
    Chain3Feeds(q);
    assert n.modules[p].inputs == [("in", p)];
    assert !FedFrom(n, 0, q);
  }

  /** One module of the chain at the end of a pass: when its input holds `v`, its hook wrote
      `v` to its output, and the output passed it on to the next module's input. */
  lemma ChainTurn(n: Net<int>, p: nat, v: int)
    requires p < 3 && SameShape(Chain3(), n) && Propagated(n, p) && n.inputs[p].val == Some(v)
    requires OutputsWritten(Chain3(), n, p, Written(n, p, Identity))
    ensures n.outputs[p].val == Some(v)
    ensures p < 2 ==> n.inputs[p + 1].val == Some(v)
  {
    var n0 := Chain3();
    ChainAt(p);
    assert n.modules[p].(compiled := false) == n0.modules[p].(compiled := false);
    IdentityWrites(n, p, v);
    assert n.outputs[p].val == Some(v);
    if p < 2 {
      assert n.modules[p].outputs[0].1 == p;
      assert n.outputs[p].(val := None) == n0.outputs[p].(val := None);
      assert p + 1 in n.outputs[p].toInputs;
    }
  }

  /** Module `p` of the chain and its output, read off one at a time. */
  lemma ChainAt(p: nat)
    requires p < 3
    ensures Chain3().modules[p] == ModuleRec([("in", p)], [("out", p)], [], false)
    ensures Chain3().outputs[p] == OutputRec(p, if p < 2 then [p + 1] else [], None)
  {
    if p == 0 {
    } else if p == 1 {
    } else {
    }
  }

  /** The values a successful pass leaves on the chain: given 5 on the input of `A`, every
      module's hook writes what its input holds and every output passes its value on, so 5
      reaches the inputs of `B` and `C` and the output of `C`. */
  lemma ChainValues(n: Net<int>)
    requires SameShape(Chain3(), n)
    requires forall p :: 0 <= p < 3 ==> Propagated(n, p)
    requires n.inputs[0].val == Some(5)
    requires forall p :: 0 <= p < 3 ==> OutputsWritten(Chain3(), n, p, Written(n, p, Identity))
    ensures n.inputs[1].val == Some(5) && n.inputs[2].val == Some(5) && n.outputs[2].val == Some(5)
  {
    ChainTurn(n, 0, 5);
    ChainTurn(n, 1, 5);
    ChainTurn(n, 2, 5);
  }

  /** `forward({A.input: 5})` with identity hooks: the modules run as `A`, `B`, `C`, and when
      the pass succeeds the inputs of `B` and `C` and the output of `C` hold 5. */
  method ChainForward(g: Graph<int>) returns (out: Outcome, order: seq<nat>)
    requires g.Valid() && g.net == Chain3()
    modifies g
    ensures order == [0, 1, 2] && SameShape(Chain3(), g.net)
    ensures out.Pass? ==> g.net.inputs[1].val == Some(5) && g.net.inputs[2].val == Some(5)
    ensures out.Pass? ==> g.net.outputs[2].val == Some(5)
  {
    assert InputIds([(0, 5)]) == [0];
    out, order := g.Forward([(0, 5)], None, Identity);
    ChainSequence(order);
    if out.Pass? {
      ChainSeeded(g.net, order);
      ChainSettled(g.net, order);
      ChainValues(g.net);
    }
  }

  /** No module of the chain feeds `A`, so after the pass its input holds the given 5. */
  lemma ChainSeeded(n: Net<int>, order: seq<nat>)
    requires order == [0, 1, 2] && |n.inputs| == 3
    requires forall i: nat :: (i < |n.inputs| && forall p :: 0 <= p < |order| ==> !FedFrom(Chain3(), i, order[p]))
               ==> n.inputs[i].val == Assigned(Chain3().inputs[i].val, LastValue([(0, 5)], i))
    ensures n.inputs[0].val == Some(5)
  {
    assert !FedFrom(Chain3(), 0, 0) && !FedFrom(Chain3(), 0, 1) && !FedFrom(Chain3(), 0, 2);
  }

  /** The order `[A, B, C]` runs each module once and no module at or after a module's turn
      feeds it, so every module of the chain has propagated and holds what its hook writes. */
  lemma ChainSettled(n: Net<int>, order: seq<nat>)
    requires order == [0, 1, 2] && SameShape(Chain3(), n)
    requires forall p :: 0 <= p < |order| ==> Propagated(n, order[p])
    requires NoDup(order) ==>
               forall p :: 0 <= p < |order| && (forall q :: p <= q < |order| ==> !FeedsModule(Chain3(), order[q], order[p])) ==>
                 OutputsWritten(Chain3(), n, order[p], Written(n, order[p], Identity))
    ensures forall p :: 0 <= p < 3 ==> Propagated(n, p) && OutputsWritten(Chain3(), n, p, Written(n, p, Identity))
  {
    assert NoDup(order) by {
      assert forall a, b :: 0 <= a < b < 3 ==> order[a] != order[b];
    }
    forall p | 0 <= p < 3 ensures Propagated(n, p) && OutputsWritten(Chain3(), n, p, Written(n, p, Identity)) {
      ChainNotFed(order, p);
      assert order[p] == p;
    }
  }

  /** No module at or after position `p` of `[A, B, C]` feeds the module at `p`. */
  lemma ChainNotFed(order: seq<nat>, p: nat)
    requires order == [0, 1, 2] && p < 3
    ensures forall q :: p <= q < |order| ==> !FeedsModule(Chain3(), order[q], order[p])
  {
    forall q | p <= q < |order| ensures !FeedsModule(Chain3(), order[q], order[p]) {
      assert order[p] == p && order[q] == q;
      ChainFeedsEarlier(p, q);
    }
  }
}
