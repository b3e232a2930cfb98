/** A three-module chain on which `determine_module_eval_seq` is worked out: given the input
    of the first module, the modules run in chain order. */
module EvalScenarios {
  import opened Base
  import opened OrderedSets
  import opened Nets
  import opened Walks
  import opened EvalOrder

  /** Modules `A` (0), `B` (1) and `C` (2), each with an input `in` and an output `out`
      (input and output `k` belong to module `k`); the output of `A` feeds the input of `B`
      and the output of `B` feeds the input of `C`. */
  function Chain3(): (n: Net<int>)
    ensures |n.modules| == 3 && |n.inputs| == 3 && |n.outputs| == 3
  {
    Net(
      [ModuleRec([("in", 0)], [("out", 0)], [], false),
       ModuleRec([("in", 1)], [("out", 1)], [], false),
       ModuleRec([("in", 2)], [("out", 2)], [], false)],
      [InputRec(0, None, None), InputRec(1, Some(0), None), InputRec(2, Some(1), None)],
      [OutputRec(0, [1], None), OutputRec(1, [2], None), OutputRec(2, [], None)],
      [])
  }

  lemma Chain3ModuleOk(m: nat)
    requires m < 3
    ensures ModuleOk(Chain3(), m)
  {
    var r := Chain3().modules[m];
    assert Ids(r.inputs) == [m] && Ids(r.outputs) == [m] && Ids(r.hyperps) == [];
    assert Names(r.inputs) == ["in"] && Names(r.outputs) == ["out"] && Names(r.hyperps) == [];
  }

  lemma Chain3PortsOk(p: nat)
    requires p < 3
    ensures InputOk(Chain3(), p) && OutputOk(Chain3(), p)
  {
    var n := Chain3();
    assert Ids(n.modules[p].inputs) == [p] && Ids(n.modules[p].outputs) == [p];
  }

  lemma Chain3WellFormed()
    ensures WellFormed(Chain3())
  {
    forall k: nat | k < 3 ensures ModuleOk(Chain3(), k) && InputOk(Chain3(), k) && OutputOk(Chain3(), k) {
      Chain3ModuleOk(k);
      Chain3PortsOk(k);
    }
  }

  /** Only `A` feeds the input of `B`, and only `B` feeds the input of `C`. */
  lemma Chain3Feeds(x: nat)
    ensures FedFrom(Chain3(), 1, x) <==> x == 0
    ensures FedFrom(Chain3(), 2, x) <==> x == 1
  {
  }

  /** Given the input of `A`: `A` is always ready, `B` once `A` has run, `C` once `B` has. */
  lemma Chain3Ready(done: seq<nat>, m: nat)
    ensures ReadyAfter(Chain3(), [0], done, m) <==> m == 0 || (m == 1 && 0 in done) || (m == 2 && 1 in done)
  {
    var n := Chain3();
    Chain3Feeds(0);
    Chain3Feeds(1);
    assert n.modules[1].inputs[0].1 == 1 && n.modules[2].inputs[0].1 == 2;
    if m == 1 && 0 in done {
      var p :| 0 <= p < |done| && done[p] == 0;
      assert Available(n, [0], done, 1);
    }
    if m == 2 && 1 in done {
      var p :| 0 <= p < |done| && done[p] == 1;
      assert Available(n, [0], done, 2);
    }
    if ReadyAfter(n, [0], done, m) && m == 1 {
      assert Available(n, [0], done, 1);
    }
    if ReadyAfter(n, [0], done, m) && m == 2 {
      assert Available(n, [0], done, 2);
    }
  }

  /** Given the input of `A`, `determine_module_eval_seq` runs `A`, then `B`, then `C`. */
  method ChainEvalOrder() returns (r: seq<nat>)
    ensures r == [0, 1, 2]
  {
    Chain3WellFormed();
    assert InPorts([0]) == [InPort(0)];
    r := DetermineModuleEvalSeq(Chain3(), [0]);
    ChainSequence(r);
  }

  /** The only duplicate-free sequence of chain modules, each ready after those before it,
      that runs every module ready after it is `A`, `B`, `C`. */
  lemma ChainSequence(r: seq<nat>)
    requires NoDup(r)
    requires forall j :: 0 <= j < |r| ==> ReadyAfter(Chain3(), [0], r[..j], r[j])
    requires forall m :: 0 <= m < 3 && 0 < |Chain3().modules[m].inputs| && ReadyAfter(Chain3(), [0], r, m) ==> m in r
    ensures r == [0, 1, 2]
  {
    var n := Chain3();
    // every module runs
    Chain3Ready(r, 0);
    var a :| 0 <= a < |r| && r[a] == 0;
    Chain3Ready(r, 1);
    var b :| 0 <= b < |r| && r[b] == 1;
    Chain3Ready(r, 2);
    var c :| 0 <= c < |r| && r[c] == 2;
    // `B` runs after `A`, and `C` after `B`
    Chain3Ready(r[..b], 1);
    var p :| 0 <= p < b && r[..b][p] == 0;
    assert r[p] == r[a];
    Chain3Ready(r[..c], 2);
    var q :| 0 <= q < c && r[..c][q] == 1;
    assert r[q] == r[b];
    // and nothing else runs
    forall j | 0 <= j < |r| ensures r[j] in {r[a], r[b], r[c]} {
      Chain3Ready(r[..j], r[j]);
    }
    Positions(r, a, b, c);
    assert r == [r[0], r[1], r[2]];
  }

  /** A duplicate-free sequence whose every element is at one of the places `a < b < c` has
      exactly those three places. */
  lemma Positions(r: seq<nat>, a: nat, b: nat, c: nat)
    requires NoDup(r) && a < b < c < |r|
    requires forall j :: 0 <= j < |r| ==> r[j] in {r[a], r[b], r[c]}
    ensures a == 0 && b == 1 && c == 2 && |r| == 3
  {
    assert r[0] in {r[a], r[b], r[c]};
    assert r[1] in {r[a], r[b], r[c]};
    assert r[2] in {r[a], r[b], r[c]};
    assert r[|r| - 1] in {r[a], r[b], r[c]};
  }
}
