/** `determine_module_eval_seq`: the order in which `forward` runs the modules, found by
    scanning a growing list of candidate modules and taking each one whose inputs all have a
    value, which in turn gives a value to the inputs its outputs feed. */
module EvalOrder {
  import opened OrderedSets
  import opened Nets
  import opened Traversals
  import opened Walks

  /** Output `o` feeds input `i`. */
  predicate Feeds<V>(n: Net<V>, o: nat, i: nat)
  {
    o < |n.outputs| && i in n.outputs[o].toInputs
  }

  /** Input `i` has a value once the inputs `ins` are given and the modules `done` have run:
      it is given, or an output of one of them feeds it. */
  ghost predicate Available<V>(n: Net<V>, ins: seq<nat>, done: seq<nat>, i: nat)
  {
    i in ins || exists p :: 0 <= p < |done| && FedFrom(n, i, done[p])
  }

  /** Every input of module `m` has a value once `ins` are given and `done` have run. */
  ghost predicate ReadyAfter<V>(n: Net<V>, ins: seq<nat>, done: seq<nat>, m: nat)
  {
    m < |n.modules| && forall k :: 0 <= k < |n.modules[m].inputs| ==> Available(n, ins, done, n.modules[m].inputs[k].1)
  }

  /** Every input of module `m` is in `avail`: the readiness test of the scan. */
  predicate InputsIn<V>(n: Net<V>, avail: set<nat>, m: nat)
  {
    m < |n.modules| && forall k :: 0 <= k < |n.modules[m].inputs| ==> n.modules[m].inputs[k].1 in avail
  }

  /** In a well-formed graph, the inputs fed by module `m` are those its outputs list. */
  lemma FedFromMeaning<V>(n: Net<V>, m: nat, i: nat)
    requires WellFormed(n) && m < |n.modules|
    ensures FedFrom(n, i, m) <==> exists u :: 0 <= u < |n.modules[m].outputs| && Feeds(n, n.modules[m].outputs[u].1, i)
  {
    var rs := n.modules[m].outputs;
    assert ModuleOk(n, m);
    if FedFrom(n, i, m) {
      var o := n.inputs[i].fromOutput.value;
      assert OutputOk(n, o);
      assert o in Ids(rs);
      var u :| 0 <= u < |rs| && Ids(rs)[u] == o;
      SymmetricLinks(n, i, o);
      assert Feeds(n, rs[u].1, i);
    }
    if exists u :: 0 <= u < |rs| && Feeds(n, rs[u].1, i) {
      var u :| 0 <= u < |rs| && Feeds(n, rs[u].1, i);
      assert OutputOk(n, rs[u].1);
    }
  }

  /** The inputs the outputs of module `m` feed join `avail`, and their modules join the
      candidate list `ms`: the inner loop of the scan. */
  method FeedOutputs<V>(n: Net<V>, m: nat, avail: set<nat>, ms: seq<nat>) returns (avail2: set<nat>, ms2: seq<nat>)
    requires WellFormed(n) && m < |n.modules|
    ensures forall i: nat :: i in avail2 <==> i in avail || FedFrom(n, i, m)
    ensures |ms| <= |ms2| && ms2[..|ms|] == ms
    ensures forall x :: x in ms2[|ms|..] <==> exists i: nat :: FedFrom(n, i, m) && n.inputs[i].owner == x
  {
    var rs := n.modules[m].outputs;
    assert ModuleOk(n, m);
    avail2, ms2 := avail, ms;
    var t := 0;
    while t < |rs|
      invariant t <= |rs| && |ms| <= |ms2| && ms2[..|ms|] == ms
      invariant forall i: nat :: i in avail2 <==> i in avail || exists u :: 0 <= u < t && Feeds(n, rs[u].1, i)
      invariant forall x :: x in ms2[|ms|..] <==>
        exists u, i :: 0 <= u < t && rs[u].1 < |n.outputs| && i in n.outputs[rs[u].1].toInputs
          && i < |n.inputs| && n.inputs[i].owner == x
    {
      var fed := n.outputs[rs[t].1].toInputs;
      var owners := InputOwners(n, fed);
      assert (ms2 + owners)[|ms|..] == ms2[|ms|..] + owners;
      avail2 := avail2 + (set x | x in fed);
      ms2 := ms2 + owners;
      t := t + 1;
    }
    forall i: nat ensures i in avail2 <==> i in avail || FedFrom(n, i, m) {
      FedFromMeaning(n, m, i);
    }
    forall x ensures x in ms2[|ms|..] <==> exists i: nat :: FedFrom(n, i, m) && n.inputs[i].owner == x {
      assert x in Downstream(n, rs) <==> x in ms2[|ms|..];
      SuccsMeaning(n, m, x);
    }
  }

  // ---------------------------------------------------------------------------------
  // The scan

  /** `r` ran in that order: no module twice, each with an input and with all its inputs
      available when it ran; `taken` holds exactly the modules of `r`. */
  ghost predicate OrderInv<V>(n: Net<V>, ins: seq<nat>, r: seq<nat>, taken: set<nat>)
  {
    && NoDup(r)
    && (forall j :: 0 <= j < |r| ==> ReadyAfter(n, ins, r[..j], r[j]) && 0 < |n.modules[r[j]].inputs|)
    && (forall x :: x in taken <==> x in r)
  }

  /** `avail` holds exactly the inputs available after `r`. */
  ghost predicate MemoInv<V>(n: Net<V>, ins: seq<nat>, r: seq<nat>, avail: set<nat>)
  {
    forall i: nat :: i in avail <==> Available(n, ins, r, i)
  }

  /** The candidates are modules with inputs, and the module of every available input is a
      candidate. */
  ghost predicate QueueInv<V>(n: Net<V>, ins: seq<nat>, r: seq<nat>, ms: seq<nat>)
  {
    && (forall j :: 0 <= j < |ms| ==> ms[j] < |n.modules| && 0 < |n.modules[ms[j]].inputs|)
    && (forall i: nat :: i < |n.inputs| && Available(n, ins, r, i) ==> n.inputs[i].owner in ms)
  }

  /** Each candidate scanned so far was taken, is still not ready, or comes again later. */
  ghost predicate ScanInv<V>(n: Net<V>, taken: set<nat>, avail: set<nat>, ms: seq<nat>, k: nat)
  {
    k <= |ms| && forall p :: 0 <= p < k ==> ms[p] in taken || !InputsIn(n, avail, ms[p]) || ms[p] in ms[k..]
  }

  /** Running one more module makes available exactly the inputs it feeds. */
  lemma AvailableSnoc<V>(n: Net<V>, ins: seq<nat>, r: seq<nat>, m: nat, i: nat)
    ensures Available(n, ins, r + [m], i) <==> Available(n, ins, r, i) || FedFrom(n, i, m)
  {
    if exists p :: 0 <= p < |r + [m]| && FedFrom(n, i, (r + [m])[p]) {
      var p :| 0 <= p < |r + [m]| && FedFrom(n, i, (r + [m])[p]);
      if p < |r| {
        assert (r + [m])[p] == r[p];
      }
    }
    if exists p :: 0 <= p < |r| && FedFrom(n, i, r[p]) {
      var p :| 0 <= p < |r| && FedFrom(n, i, r[p]);
      assert (r + [m])[p] == r[p];
    }
    if FedFrom(n, i, m) {
      assert (r + [m])[|r|] == m;
    }
  }

  /** Before the scan: nothing ran, the given inputs are available and their modules are the
      candidates. */
  lemma EvalStart<V>(n: Net<V>, ins: seq<nat>, avail: set<nat>, ms: seq<nat>)
    requires WellFormed(n) && PortsOk(n, InPorts(ins))
    requires avail == (set x | x in ins) && ms == UniqueOwners(n, InPorts(ins))
    ensures OrderInv(n, ins, [], {}) && MemoInv(n, ins, [], avail) && QueueInv(n, ins, [], ms)
    ensures ScanInv(n, {}, avail, ms, 0)
  {
    StartCandidates(n, ins);
    forall i: nat ensures i in avail <==> Available(n, ins, [], i) {
    }
  }

  lemma StartCandidates<V>(n: Net<V>, ins: seq<nat>)
    requires WellFormed(n) && PortsOk(n, InPorts(ins))
    ensures QueueInv(n, ins, [], UniqueOwners(n, InPorts(ins)))
  {
    StartCandidatesHaveInputs(n, ins);
    WellFormedPortsOwned(n);
    StartCandidatesCover(n, ins);
  }

  lemma StartCandidatesHaveInputs<V>(n: Net<V>, ins: seq<nat>)
    requires WellFormed(n) && PortsOk(n, InPorts(ins))
    ensures forall j :: 0 <= j < |UniqueOwners(n, InPorts(ins))| ==>
      UniqueOwners(n, InPorts(ins))[j] < |n.modules| && 0 < |n.modules[UniqueOwners(n, InPorts(ins))[j]].inputs|
  {
    var ps := InPorts(ins);
    var ms := UniqueOwners(n, ps);
    WellFormedPortsOwned(n);
    UniqueOwnersFacts(n, ps);
    forall j | 0 <= j < |ms| ensures ms[j] < |n.modules| && 0 < |n.modules[ms[j]].inputs| {
      assert ms[j] in ms;
      var k :| 0 <= k < |ps| && Owner(n, ps[k]) == ms[j];
      assert InputOk(n, ins[k]);
    }
  }

  lemma StartCandidatesCover<V>(n: Net<V>, ins: seq<nat>)
    requires PortsOwned(n) && PortsOk(n, InPorts(ins))
    ensures forall i: nat :: i < |n.inputs| && Available(n, ins, [], i) ==> n.inputs[i].owner in UniqueOwners(n, InPorts(ins))
  {
    var ps := InPorts(ins);
    UniqueOwnersFacts(n, ps);
    forall i: nat | i < |n.inputs| && i in ins ensures n.inputs[i].owner in UniqueOwners(n, ps) {
      var k :| 0 <= k < |ins| && ins[k] == i;
      assert ps[k] == InPort(i) && Owner(n, ps[k]) == n.inputs[i].owner;
    }
  }

  /** Passing over a candidate that is taken or not ready keeps the scan invariant. */
  lemma SkipStep<V>(n: Net<V>, taken: set<nat>, avail: set<nat>, ms: seq<nat>, k: nat)
    requires ScanInv(n, taken, avail, ms, k) && k < |ms|
    requires ms[k] in taken || !InputsIn(n, avail, ms[k])
    ensures ScanInv(n, taken, avail, ms, k + 1)
  {
    forall p | 0 <= p < k + 1 ensures ms[p] in taken || !InputsIn(n, avail, ms[p]) || ms[p] in ms[k + 1..] {
      if p < k && ms[p] !in taken && InputsIn(n, avail, ms[p]) {
        var q :| k <= q < |ms| && ms[q] == ms[p];
        if q > k {
          assert ms[q] == ms[k + 1..][q - k - 1];
        }
      }
    }
  }

  /** Taking a ready candidate keeps the order, memo and candidate invariants. */
  lemma TakeStep<V>(n: Net<V>, ins: seq<nat>, r: seq<nat>, taken: set<nat>, avail: set<nat>, ms: seq<nat>,
                    k: nat, avail2: set<nat>, ms2: seq<nat>)
    requires WellFormed(n)
    requires OrderInv(n, ins, r, taken) && MemoInv(n, ins, r, avail) && QueueInv(n, ins, r, ms)
    requires k < |ms| && ms[k] !in taken && InputsIn(n, avail, ms[k])
    requires forall i: nat :: i in avail2 <==> i in avail || FedFrom(n, i, ms[k])
    requires |ms| <= |ms2| && ms2[..|ms|] == ms
    requires forall x :: x in ms2[|ms|..] <==> exists i: nat :: FedFrom(n, i, ms[k]) && n.inputs[i].owner == x
    ensures OrderInv(n, ins, r + [ms[k]], taken + {ms[k]})
    ensures MemoInv(n, ins, r + [ms[k]], avail2)
    ensures QueueInv(n, ins, r + [ms[k]], ms2)
  {
    var m := ms[k];
    forall i: nat ensures Available(n, ins, r + [m], i) <==> Available(n, ins, r, i) || FedFrom(n, i, m) {
      AvailableSnoc(n, ins, r, m, i);
    }
    forall j | 0 <= j < |r| + 1 ensures ReadyAfter(n, ins, (r + [m])[..j], (r + [m])[j]) {
      if j < |r| {
        assert (r + [m])[..j] == r[..j];
      } else {
        assert (r + [m])[..j] == r;
      }
    }
    forall j | 0 <= j < |ms2| ensures ms2[j] < |n.modules| && 0 < |n.modules[ms2[j]].inputs| {
      if j < |ms| {
        assert ms2[j] == ms[j];
      } else {
        assert ms2[j] in ms2[|ms|..];
        var i: nat :| FedFrom(n, i, m) && n.inputs[i].owner == ms2[j];
        assert InputOk(n, i);
      }
    }
    forall i: nat | i < |n.inputs| && Available(n, ins, r + [m], i) ensures n.inputs[i].owner in ms2 {
      if Available(n, ins, r, i) {
        assert n.inputs[i].owner in ms2[..|ms|];
      } else {
        assert n.inputs[i].owner in ms2[|ms|..];
      }
    }
  }

  /** Taking a ready candidate keeps the scan invariant: a candidate passed over earlier that
      the new inputs make ready is one of the modules just queued. */
  lemma TakeScanStep<V>(n: Net<V>, taken: set<nat>, avail: set<nat>, ms: seq<nat>, k: nat,
                        avail2: set<nat>, ms2: seq<nat>)
    requires WellFormed(n) && ScanInv(n, taken, avail, ms, k) && k < |ms|
    requires forall j :: 0 <= j < |ms| ==> ms[j] < |n.modules|
    requires forall i: nat :: i in avail2 <==> i in avail || FedFrom(n, i, ms[k])
    requires |ms| <= |ms2| && ms2[..|ms|] == ms
    requires forall x :: x in ms2[|ms|..] <==> exists i: nat :: FedFrom(n, i, ms[k]) && n.inputs[i].owner == x
    ensures ScanInv(n, taken + {ms[k]}, avail2, ms2, k + 1)
  {
    forall p | 0 <= p < k + 1
      ensures ms2[p] in taken + {ms[k]} || !InputsIn(n, avail2, ms2[p]) || ms2[p] in ms2[k + 1..]
    {
      assert ms2[p] == ms[p];
      if p < k && ms[p] !in taken && ms[p] != ms[k] {
        if ms[p] in ms[k..] {
          var q :| k <= q < |ms| && ms[q] == ms[p];
          assert ms2[q] == ms[q] && ms2[q] == ms2[k + 1..][q - k - 1];
        } else if InputsIn(n, avail2, ms[p]) {
          var rs := n.modules[ms[p]].inputs;
          var u :| 0 <= u < |rs| && rs[u].1 !in avail;
          var i := rs[u].1;
          assert ModuleOk(n, ms[p]);
          assert FedFrom(n, i, ms[k]) && n.inputs[i].owner == ms[p];
          assert ms[p] in ms2[|ms|..];
          var q :| |ms| <= q < |ms2| && ms2[q] == ms[p];
          assert ms2[q] == ms2[k + 1..][q - k - 1];
        }
      }
    }
  }

  /** At the end of the scan every module with an input whose inputs are all available has
      been taken. */
  lemma EvalEnd<V>(n: Net<V>, ins: seq<nat>, r: seq<nat>, taken: set<nat>, avail: set<nat>, ms: seq<nat>)
    requires WellFormed(n)
    requires OrderInv(n, ins, r, taken) && MemoInv(n, ins, r, avail) && QueueInv(n, ins, r, ms)
    requires ScanInv(n, taken, avail, ms, |ms|)
    ensures forall m :: 0 <= m < |n.modules| && 0 < |n.modules[m].inputs| && ReadyAfter(n, ins, r, m) ==> m in r
  {
    forall m | 0 <= m < |n.modules| && 0 < |n.modules[m].inputs| && ReadyAfter(n, ins, r, m) ensures m in r {
      var i := n.modules[m].inputs[0].1;
      assert ModuleOk(n, m);
      assert Available(n, ins, r, i) && n.inputs[i].owner == m;
      var p :| 0 <= p < |ms| && ms[p] == m;
      assert InputsIn(n, avail, m);
    }
  }

  /** The scan of `determine_module_eval_seq` takes the module at position `k` of the queue:
      it joins the order, its fed inputs become available and the modules owning them join
      the queue. */
  method TakeNext<V>(n: Net<V>, ins: seq<nat>, r: seq<nat>, taken: set<nat>, avail: set<nat>, ms: seq<nat>, k: nat)
    returns (r2: seq<nat>, taken2: set<nat>, avail2: set<nat>, ms2: seq<nat>)
    requires WellFormed(n)
    requires OrderInv(n, ins, r, taken) && MemoInv(n, ins, r, avail) && QueueInv(n, ins, r, ms)
    requires ScanInv(n, taken, avail, ms, k) && forall x :: x in taken ==> x < |n.modules|
    requires k < |ms| && ms[k] !in taken && InputsIn(n, avail, ms[k])
    ensures r2 == r + [ms[k]] && taken2 == taken + {ms[k]}
    ensures OrderInv(n, ins, r2, taken2) && MemoInv(n, ins, r2, avail2) && QueueInv(n, ins, r2, ms2)
    ensures ScanInv(n, taken2, avail2, ms2, k + 1)
    ensures (forall x :: x in taken2 ==> x < |n.modules|) && |taken| < |taken2| <= |n.modules|
  {
    var m := ms[k];
    avail2, ms2 := FeedOutputs(n, m, avail, ms);
    TakeStep(n, ins, r, taken, avail, ms, k, avail2, ms2);
    TakeScanStep(n, taken, avail, ms, k, avail2, ms2);
    BoundedSetCardinality(taken + {m}, |n.modules|);
    r2, taken2 := r + [m], taken + {m};
  }

  /** The scan of `determine_module_eval_seq` looks at the candidate at position `k`: a
      module not yet run whose inputs are all available is taken, any other is passed over. */
  method ScanNext<V>(n: Net<V>, ins: seq<nat>, r: seq<nat>, taken: set<nat>, avail: set<nat>, ms: seq<nat>, k: nat)
    returns (r2: seq<nat>, taken2: set<nat>, avail2: set<nat>, ms2: seq<nat>)
    requires WellFormed(n)
    requires OrderInv(n, ins, r, taken) && MemoInv(n, ins, r, avail) && QueueInv(n, ins, r, ms)
    requires ScanInv(n, taken, avail, ms, k) && forall x :: x in taken ==> x < |n.modules|
    requires k < |ms|
    ensures OrderInv(n, ins, r2, taken2) && MemoInv(n, ins, r2, avail2) && QueueInv(n, ins, r2, ms2)
    ensures ScanInv(n, taken2, avail2, ms2, k + 1)
    ensures (forall x :: x in taken2 ==> x < |n.modules|) && |taken2| <= |n.modules|
    ensures |taken| < |taken2| || (taken2 == taken && ms2 == ms)
  {
    var m := ms[k];
    if m !in taken && InputsIn(n, avail, m) {
      r2, taken2, avail2, ms2 := TakeNext(n, ins, r, taken, avail, ms, k);
    } else {
      SkipStep(n, taken, avail, ms, k);
      r2, taken2, avail2, ms2 := r, taken, avail, ms;
      BoundedSetCardinality(taken, |n.modules|);
    }
  }

  /** `determine_module_eval_seq`: starting from the modules of `ins`, take each candidate not
      yet taken whose inputs all have a value, give a value to the inputs its outputs feed and
      make their modules candidates. The result runs no module twice, runs each module only
      once its inputs have a value, and runs every module with inputs whose inputs all get
      a value. */
  method DetermineModuleEvalSeq<V>(n: Net<V>, ins: seq<nat>) returns (r: seq<nat>)
    requires WellFormed(n) && PortsOk(n, InPorts(ins))
    ensures NoDup(r)
    ensures forall j :: 0 <= j < |r| ==> ReadyAfter(n, ins, r[..j], r[j]) && 0 < |n.modules[r[j]].inputs|
    ensures forall m :: 0 <= m < |n.modules| && 0 < |n.modules[m].inputs| && ReadyAfter(n, ins, r, m) ==> m in r
  {
    r := [];
    var taken: set<nat> := {};
    var avail: set<nat> := set x | x in ins;
    var ms := ExtractUniqueModules(n, InPorts(ins));
    EvalStart(n, ins, avail, ms);
    var k := 0;
    while k < |ms|
      invariant OrderInv(n, ins, r, taken) && MemoInv(n, ins, r, avail) && QueueInv(n, ins, r, ms)
      invariant ScanInv(n, taken, avail, ms, k)
      invariant (forall x :: x in taken ==> x < |n.modules|) && |taken| <= |n.modules|
      decreases |n.modules| - |taken|, |ms| - k
    {
      r, taken, avail, ms := ScanNext(n, ins, r, taken, avail, ms, k);
      k := k + 1;
    }
    EvalEnd(n, ins, r, taken, avail, ms);
  }
}
