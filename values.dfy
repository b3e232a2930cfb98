/** Values held by ports and hyperparameters: reading the values a module sees, writing the
    values its forward computation produces, and copying output values to connected inputs. */
module Values {
  import opened Base
  import opened OrderedSets
  import opened Nets
  import opened Walks

  /** The value at `id`, if `id` is in range and has one. */
  function ValAt<V>(vals: seq<Option<V>>, id: nat): Option<V>
  {
    if id < |vals| then vals[id] else None
  }

  function InputVals<V>(n: Net<V>): (r: seq<Option<V>>)
    ensures |r| == |n.inputs| && forall i :: 0 <= i < |r| ==> r[i] == n.inputs[i].val
  {
    seq(|n.inputs|, i requires 0 <= i < |n.inputs| => n.inputs[i].val)
  }

  function HyperpVals<V>(n: Net<V>): (r: seq<Option<V>>)
    ensures |r| == |n.hyperps| && forall h :: 0 <= h < |r| ==> r[h] == n.hyperps[h].val
  {
    seq(|n.hyperps|, h requires 0 <= h < |n.hyperps| => n.hyperps[h].val)
  }

  /** The dictionary from each role name of `rs` to the value of the element it names, built
      in order so that a later role wins a repeated name; fails when an element has no
      value. */
  function ValuesOf<V>(rs: Roles, vals: seq<Option<V>>): (r: Result<map<string, V>>)
    ensures r.Fail? <==> exists k :: 0 <= k < |rs| && ValAt(vals, rs[k].1).None?
    ensures r.Fail? ==> r.error == MissingValue
    ensures r.Ok? ==> forall k :: 0 <= k < |rs| ==> rs[k].0 in r.value
    ensures r.Ok? ==> forall name :: name in r.value ==> name in Names(rs)
    ensures r.Ok? && NoDup(Names(rs)) ==> forall k :: 0 <= k < |rs| ==> Some(r.value[rs[k].0]) == ValAt(vals, rs[k].1)
    decreases |rs|
  {
    if rs == [] then Ok(map[])
    else
      var rest := ValuesOf(rs[1..], vals);
      NamesTail(rs);
      if ValAt(vals, rs[0].1).None? then Fail(MissingValue)
      else if rest.Fail? then rest
      else Ok(map[rs[0].0 := ValAt(vals, rs[0].1).value] + rest.value)
  }

  lemma NamesTail(rs: Roles)
    requires rs != []
    ensures Names(rs) == [rs[0].0] + Names(rs[1..])
    ensures forall k :: 1 <= k < |rs| ==> rs[k] == rs[1..][k - 1]
    ensures NoDup(Names(rs)) ==> NoDup(Names(rs[1..])) && rs[0].0 !in Names(rs[1..])
  {
    assert Names(rs) == [rs[0].0] + Names(rs[1..]);
    if NoDup(Names(rs)) {
      var t := Names(rs[1..]);
      forall k | 0 <= k < |t| ensures t[k] != rs[0].0 {
        assert Names(rs)[k + 1] != Names(rs)[0];
      }
      forall a, b | 0 <= a < b < |t| ensures t[a] != t[b] {
        assert Names(rs)[a + 1] != Names(rs)[b + 1];
      }
    }
  }

  /** The length of the longest prefix of `vals` whose names are all roles in `rs`: how far
      an assignment loop that stops at the first unknown name gets. */
  function KnownPrefix<V>(rs: Roles, vals: seq<(string, V)>): (r: nat)
    ensures r <= |vals|
    ensures forall k :: 0 <= k < r ==> vals[k].0 in Names(rs)
    ensures r < |vals| ==> vals[r].0 !in Names(rs)
  {
    if vals == [] || vals[0].0 !in Names(rs) then 0 else 1 + KnownPrefix(rs, vals[1..])
  }

  /** The value last given for `key` in `vals`, as a dictionary assignment loop leaves it. */
  function LastValue<K(==), V>(vals: seq<(K, V)>, key: K): (r: Option<V>)
    ensures r.Some? <==> exists k :: 0 <= k < |vals| && vals[k].0 == key
  {
    if vals == [] then None
    else if vals[|vals| - 1].0 == key then Some(vals[|vals| - 1].1)
    else
      var r := LastValue(vals[..|vals| - 1], key);
      assert forall k :: 0 <= k < |vals| - 1 ==> vals[..|vals| - 1][k] == vals[k];
      r
  }

  /** One more assignment changes the last value of its own key only. */
  lemma LastValueSnoc<K, V>(vals: seq<(K, V)>, k: nat, key: K)
    requires k < |vals|
    ensures LastValue(vals[..k + 1], key) == if vals[k].0 == key then Some(vals[k].1) else LastValue(vals[..k], key)
  {
    assert vals[..k + 1][..k] == vals[..k];
  }

  /** A stored value after an optional assignment. */
  function Assigned<V>(old_val: Option<V>, new_val: Option<V>): Option<V>
  {
    if new_val.Some? then new_val else old_val
  }

  /** `n` is `n0` after the outputs of module `m` are given the values `vals` by name: each
      output of `m` holds the last value given for its name, or its old value when none is,
      and nothing else changes. */
  ghost predicate OutputsAssigned<V>(n0: Net<V>, n: Net<V>, m: nat, vals: seq<(string, V)>)
    requires m < |n0.modules|
  {
    && n.modules == n0.modules && n.inputs == n0.inputs && n.hyperps == n0.hyperps
    && |n.outputs| == |n0.outputs|
    && (forall o :: 0 <= o < |n.outputs| ==> n.outputs[o].(val := None) == n0.outputs[o].(val := None))
    && (forall o :: 0 <= o < |n.outputs| && o !in Ids(n0.modules[m].outputs) ==> n.outputs[o].val == n0.outputs[o].val)
    && (forall k :: 0 <= k < |n0.modules[m].outputs| && n0.modules[m].outputs[k].1 < |n.outputs| ==>
          n.outputs[n0.modules[m].outputs[k].1].val
          == Assigned(n0.outputs[n0.modules[m].outputs[k].1].val, LastValue(vals, n0.modules[m].outputs[k].0)))
  }

  lemma AssignedStart<V>(n: Net<V>, m: nat, vals: seq<(string, V)>)
    requires m < |n.modules|
    ensures OutputsAssigned(n, n, m, vals[..0])
  {
  }

  /** The graph with output `o` holding `v`. */
  function WithOutputValue<V>(n: Net<V>, o: nat, v: V): Net<V>
    requires o < |n.outputs|
  {
    n.(outputs := n.outputs[o := n.outputs[o].(val := Some(v))])
  }

  /** Giving the output named `vals[k].0` of `m` its value extends the assignment by one. */
  lemma AssignStep<V>(n0: Net<V>, n: Net<V>, m: nat, vals: seq<(string, V)>, k: nat, q: nat)
    requires WellFormed(n0) && m < |n0.modules| && k < |vals|
    requires OutputsAssigned(n0, n, m, vals[..k])
    requires q < |n0.modules[m].outputs| && n0.modules[m].outputs[q].0 == vals[k].0
    ensures n0.modules[m].outputs[q].1 < |n.outputs|
    ensures OutputsAssigned(n0, WithOutputValue(n, n0.modules[m].outputs[q].1, vals[k].1), m, vals[..k + 1])
  {
    var rs := n0.modules[m].outputs;
    assert ModuleOk(n0, m);
    var o := rs[q].1;
    var n2 := WithOutputValue(n, o, vals[k].1);
    assert Ids(rs)[q] == o;
    forall p | 0 <= p < |rs| && rs[p].1 < |n2.outputs|
      ensures n2.outputs[rs[p].1].val == Assigned(n0.outputs[rs[p].1].val, LastValue(vals[..k + 1], rs[p].0))
    {
      LastValueSnoc(vals, k, rs[p].0);
      if p != q {
        assert Names(rs)[p] != Names(rs)[q];
        assert Ids(rs)[p] != Ids(rs)[q];
      }
    }
  }

  /** Every input fed by output `o` holds the value of `o`. */
  ghost predicate OutputPropagated<V>(n: Net<V>, o: nat)
  {
    o < |n.outputs| && forall i :: i in n.outputs[o].toInputs ==> i < |n.inputs| && n.inputs[i].val == n.outputs[o].val
  }

  /** Every output of module `m` has passed its value to the inputs it feeds. */
  ghost predicate Propagated<V>(n: Net<V>, m: nat)
  {
    m < |n.modules| && forall k :: 0 <= k < |n.modules[m].outputs| ==> OutputPropagated(n, n.modules[m].outputs[k].1)
  }

  /** `n2` has the shape of `n`, and differs in values only at outputs of module `x` and at
      inputs those outputs feed. */
  ghost predicate OnlyTouched<V>(n: Net<V>, n2: Net<V>, x: nat)
  {
    && SameShape(n, n2) && n2.hyperps == n.hyperps
    && (forall o :: 0 <= o < |n.outputs| && n.outputs[o].owner != x ==> n2.outputs[o].val == n.outputs[o].val)
    && (forall i: nat :: i < |n.inputs| && !FedFrom(n, i, x) ==> n2.inputs[i].val == n.inputs[i].val)
  }

  lemma SameShapeTrans<V>(n: Net<V>, n2: Net<V>, n3: Net<V>)
    requires SameShape(n, n2) && SameShape(n2, n3)
    ensures SameShape(n, n3)
  {
  }

  lemma OnlyTouchedTrans<V>(n: Net<V>, n2: Net<V>, n3: Net<V>, x: nat)
    requires OnlyTouched(n, n2, x) && OnlyTouched(n2, n3, x)
    ensures OnlyTouched(n, n3, x)
  {
    SameShapeTrans(n, n2, n3);
    forall o | 0 <= o < |n.outputs| ensures n2.outputs[o].owner == n.outputs[o].owner {
      assert n.outputs[o].(val := None) == n2.outputs[o].(val := None);
    }
    forall i: nat | i < |n.inputs| ensures FedFrom(n2, i, x) == FedFrom(n, i, x) {
      assert n.inputs[i].(val := None) == n2.inputs[i].(val := None);
    }
  }

  /** Work on module `x` keeps what another module `m` has propagated. */
  lemma PropagatedKept<V>(n: Net<V>, n2: Net<V>, m: nat, x: nat)
    requires WellFormed(n) && OnlyTouched(n, n2, x) && m != x && Propagated(n, m)
    ensures Propagated(n2, m)
  {
    assert ModuleOk(n, m);
    forall k | 0 <= k < |n2.modules[m].outputs| ensures OutputPropagated(n2, n2.modules[m].outputs[k].1) {
      var o := n.modules[m].outputs[k].1;
      assert n.modules[m].(compiled := false) == n2.modules[m].(compiled := false);
      assert n2.modules[m].outputs[k].1 == o;
      assert OutputOk(n, o);
      assert n.outputs[o].(val := None) == n2.outputs[o].(val := None);
      forall i | i in n2.outputs[o].toInputs ensures i < |n2.inputs| && n2.inputs[i].val == n2.outputs[o].val {
        assert OutputPropagated(n, o);
        assert !FedFrom(n, i, x);
      }
    }
  }

  /** `n2` is `n` after every input fed by output `o` is given the value of `o`. */
  ghost predicate FedAll<V>(n: Net<V>, n2: Net<V>, o: nat)
    requires o < |n.outputs|
  {
    && n2.modules == n.modules && n2.outputs == n.outputs && n2.hyperps == n.hyperps
    && |n2.inputs| == |n.inputs|
    && (forall i :: 0 <= i < |n.inputs| ==>
          n2.inputs[i] == if i in n.outputs[o].toInputs then n.inputs[i].(val := n.outputs[o].val) else n.inputs[i])
  }

  /** Feeding the inputs of `o` propagates `o`, touches only what the module owning `o`
      feeds, and keeps what other outputs have propagated. */
  lemma FedAllFacts<V>(n: Net<V>, n2: Net<V>, o: nat)
    requires WellFormed(n) && o < |n.outputs| && FedAll(n, n2, o)
    ensures OutputPropagated(n2, o)
    ensures OnlyTouched(n, n2, n.outputs[o].owner)
    ensures forall p :: 0 <= p < |n.outputs| && p != o && OutputPropagated(n, p) ==> OutputPropagated(n2, p)
  {
    assert OutputOk(n, o);
    forall i: nat | i < |n.inputs| && !FedFrom(n, i, n.outputs[o].owner) ensures n2.inputs[i].val == n.inputs[i].val {
      assert i !in n.outputs[o].toInputs;
    }
    forall p | 0 <= p < |n.outputs| && p != o && OutputPropagated(n, p) ensures OutputPropagated(n2, p) {
      assert OutputOk(n, p);
      forall i | i in n2.outputs[p].toInputs ensures i < |n2.inputs| && n2.inputs[i].val == n2.outputs[p].val {
        assert n.inputs[i].fromOutput == Some(p);
        assert i !in n.outputs[o].toInputs;
      }
    }
  }

  /** Writing the outputs of `m` touches only outputs of `m`. */
  lemma AssignedOnlyTouched<V>(n: Net<V>, n2: Net<V>, m: nat, vals: seq<(string, V)>)
    requires WellFormed(n) && m < |n.modules| && OutputsAssigned(n, n2, m, vals)
    ensures OnlyTouched(n, n2, m)
  {
    assert ModuleOk(n, m);
    forall o | 0 <= o < |n.outputs| && n.outputs[o].owner != m ensures n2.outputs[o].val == n.outputs[o].val {
      assert forall k :: 0 <= k < |n.modules[m].outputs| ==> Ids(n.modules[m].outputs)[k] != o;
    }
  }

  /** The graph with input `i` holding `v`. */
  function WithInputValue<V>(n: Net<V>, i: nat, v: Option<V>): Net<V>
    requires i < |n.inputs|
  {
    n.(inputs := n.inputs[i := n.inputs[i].(val := v)])
  }

  /** `n2` is `n` after the first `u` inputs fed by `o` are given the value of `o`. */
  ghost predicate FedPrefix<V>(n: Net<V>, n2: Net<V>, o: nat, u: nat)
    requires o < |n.outputs|
  {
    && u <= |n.outputs[o].toInputs|
    && n2.modules == n.modules && n2.outputs == n.outputs && n2.hyperps == n.hyperps
    && |n2.inputs| == |n.inputs|
    && (forall i :: 0 <= i < |n.inputs| ==>
          n2.inputs[i] == if i in n.outputs[o].toInputs[..u] then n.inputs[i].(val := n.outputs[o].val) else n.inputs[i])
  }

  lemma FedPrefixStart<V>(n: Net<V>, o: nat)
    requires o < |n.outputs|
    ensures FedPrefix(n, n, o, 0)
  {
  }

  lemma FedPrefixStep<V>(n: Net<V>, n2: Net<V>, o: nat, u: nat)
    requires WellFormed(n) && o < |n.outputs| && FedPrefix(n, n2, o, u) && u < |n.outputs[o].toInputs|
    ensures n.outputs[o].toInputs[u] < |n2.inputs|
    ensures FedPrefix(n, WithInputValue(n2, n.outputs[o].toInputs[u], n2.outputs[o].val), o, u + 1)
  {
    assert OutputOk(n, o);
    var ts := n.outputs[o].toInputs;
    assert ts[..u + 1] == ts[..u] + [ts[u]];
  }

  lemma FedPrefixDone<V>(n: Net<V>, n2: Net<V>, o: nat)
    requires o < |n.outputs| && FedPrefix(n, n2, o, |n.outputs[o].toInputs|)
    ensures FedAll(n, n2, o) && SameShape(n, n2)
  {
    assert n.outputs[o].toInputs[..|n.outputs[o].toInputs|] == n.outputs[o].toInputs;
  }

  /** Output `o` feeds some input but holds no value: copying it fails. */
  predicate MissingOutput<V>(n: Net<V>, o: nat)
  {
    o < |n.outputs| && |n.outputs[o].toInputs| > 0 && n.outputs[o].val.None?
  }

  lemma OnlyTouchedRefl<V>(n: Net<V>, x: nat)
    ensures OnlyTouched(n, n, x)
  {
  }

  /** `n` is `n0` after each input of `vals` is given, in order, its value. */
  ghost predicate InputsAssigned<V>(n0: Net<V>, n: Net<V>, vals: seq<(nat, V)>)
  {
    && n.modules == n0.modules && n.outputs == n0.outputs && n.hyperps == n0.hyperps
    && |n.inputs| == |n0.inputs|
    && (forall i: nat :: i < |n.inputs| ==> n.inputs[i] == n0.inputs[i].(val := Assigned(n0.inputs[i].val, LastValue(vals, i))))
  }

  lemma InputsAssignedStart<V>(n: Net<V>, vals: seq<(nat, V)>)
    ensures InputsAssigned(n, n, vals[..0])
  {
    forall i: nat | i < |n.inputs| ensures n.inputs[i] == n.inputs[i].(val := Assigned(n.inputs[i].val, LastValue(vals[..0], i))) {
    }
  }

  lemma InputsAssignedStep<V>(n0: Net<V>, n: Net<V>, vals: seq<(nat, V)>, k: nat)
    requires k < |vals| && vals[k].0 < |n.inputs| && InputsAssigned(n0, n, vals[..k])
    ensures InputsAssigned(n0, WithInputValue(n, vals[k].0, Some(vals[k].1)), vals[..k + 1])
  {
    forall i: nat | i < |n.inputs| ensures LastValue(vals[..k + 1], i) == if vals[k].0 == i then Some(vals[k].1) else LastValue(vals[..k], i) {
      LastValueSnoc(vals, k, i);
    }
  }

  /** Input `i` is fed by module `x` alike in graphs of the same shape. */
  lemma SameShapeFedFrom<V>(n: Net<V>, n2: Net<V>, i: nat, x: nat)
    requires SameShape(n, n2)
    ensures FedFrom(n, i, x) == FedFrom(n2, i, x)
  {
    if i < |n.inputs| {
      assert n.inputs[i].(val := None) == n2.inputs[i].(val := None);
      if n.inputs[i].fromOutput.Some? && n.inputs[i].fromOutput.value < |n.outputs| {
        var o := n.inputs[i].fromOutput.value;
        assert n.outputs[o].(val := None) == n2.outputs[o].(val := None);
      }
    }
  }

  /** After the first `j` modules of `order` have run on `n0`: each of them has propagated
      its outputs and is compiled, and every input none of them feeds keeps its value. */
  ghost predicate RunInv<V>(n0: Net<V>, n: Net<V>, order: seq<nat>, j: nat)
  {
    && j <= |order| && SameShape(n0, n)
    && (forall p :: 0 <= p < j ==> Propagated(n, order[p]) && n.modules[order[p]].compiled)
    && (forall i: nat :: i < |n.inputs| && (forall p :: 0 <= p < j ==> !FedFrom(n0, i, order[p])) ==> n.inputs[i].val == n0.inputs[i].val)
  }

  lemma RunStart<V>(n0: Net<V>, order: seq<nat>)
    ensures RunInv(n0, n0, order, 0)
  {
  }

  /** Running the next module keeps the run invariant. */
  lemma RunStep<V>(n0: Net<V>, pre: Net<V>, post: Net<V>, order: seq<nat>, j: nat)
    requires WellFormed(pre) && RunInv(n0, pre, order, j) && j < |order| && order[j] < |pre.modules|
    requires OnlyTouched(pre, post, order[j]) && Propagated(post, order[j]) && post.modules[order[j]].compiled
    requires forall x :: 0 <= x < |pre.modules| && pre.modules[x].compiled ==> post.modules[x].compiled
    ensures RunInv(n0, post, order, j + 1)
  {
    var m := order[j];
    SameShapeTrans(n0, pre, post);
    forall p | 0 <= p < j + 1 ensures Propagated(post, order[p]) && post.modules[order[p]].compiled {
      if p < j && order[p] != m {
        PropagatedKept(pre, post, order[p], m);
      }
    }
    forall i: nat | i < |post.inputs| && (forall p :: 0 <= p < j + 1 ==> !FedFrom(n0, i, order[p]))
      ensures post.inputs[i].val == n0.inputs[i].val
    {
      assert !FedFrom(n0, i, order[j]);
      SameShapeFedFrom(n0, pre, i, m);
    }
  }

  // ---------------------------------------------------------------------------------
  // What the forward hook reads and writes

  /** A module's forward hook: given the module, the values of its inputs and of its
      hyperparameters by role name, the output values it assigns, by output role name, in
      assignment order. */
  type Hook<!V> = (nat, map<string, V>, map<string, V>) -> seq<(string, V)>

  /** Each role name of `rs` whose element holds a value, mapped to that value: the entries
      of the dictionary a module builds from its roles that exist when the hook reads them. */
  function Readable<V>(rs: Roles, vals: seq<Option<V>>): (r: map<string, V>)
    ensures forall name :: name in r <==> exists k :: 0 <= k < |rs| && rs[k].0 == name && ValAt(vals, rs[k].1).Some?
    ensures NoDup(Names(rs)) ==> forall k :: 0 <= k < |rs| && ValAt(vals, rs[k].1).Some? ==> r[rs[k].0] == ValAt(vals, rs[k].1).value
    decreases |rs|
  {
    if rs == [] then map[]
    else
      var rest := Readable(rs[1..], vals);
      NamesTail(rs);
      if ValAt(vals, rs[0].1).None? then rest
      else
        NamesApart(rs);
        map[rs[0].0 := ValAt(vals, rs[0].1).value] + rest
  }

  /** With distinct names, the first role's name is none of the later ones'. */
  lemma NamesApart(rs: Roles)
    requires rs != []
    ensures forall k :: 1 <= k < |rs| ==> rs[1..][k - 1] == rs[k]
    ensures NoDup(Names(rs)) ==> forall k :: 1 <= k < |rs| ==> rs[k].0 != rs[0].0
  {
    if NoDup(Names(rs)) {
      forall k | 1 <= k < |rs| ensures rs[k].0 != rs[0].0 {
        assert Names(rs)[0] != Names(rs)[k];
      }
    }
  }

  /** When every role has a value, what the hook reads is exactly the dictionary of
      `_get_input_values` / `_get_hyperp_values`. */
  lemma {:induction false} ReadableValuesOf<V>(rs: Roles, vals: seq<Option<V>>)
    requires ValuesOf(rs, vals).Ok?
    ensures Readable(rs, vals) == ValuesOf(rs, vals).value
    decreases |rs|
  {
    if rs != [] {
      ReadableValuesOf(rs[1..], vals);
    }
  }

  /** What the hook reads depends only on the values of the elements the roles name. */
  lemma {:induction false} ReadableKept<V>(rs: Roles, vals: seq<Option<V>>, vals2: seq<Option<V>>)
    requires forall k :: 0 <= k < |rs| ==> ValAt(vals, rs[k].1) == ValAt(vals2, rs[k].1)
    ensures Readable(rs, vals) == Readable(rs, vals2)
    decreases |rs|
  {
    if rs != [] {
      ReadableKept(rs[1..], vals, vals2);
    }
  }

  /** The input values module `m` reads, by role name. */
  function InputView<V>(n: Net<V>, m: nat): map<string, V>
    requires m < |n.modules|
  {
    Readable(n.modules[m].inputs, InputVals(n))
  }

  /** The hyperparameter values module `m` reads, by role name. */
  function HyperpView<V>(n: Net<V>, m: nat): map<string, V>
    requires m < |n.modules|
  {
    Readable(n.modules[m].hyperps, HyperpVals(n))
  }

  /** The assignments the forward hook of `m` makes in the state `n`, up to the first name
      that is not an output of `m`. */
  function Written<V>(n: Net<V>, m: nat, hook: Hook<V>): seq<(string, V)>
    requires m < |n.modules|
  {
    var vals := hook(m, InputView(n, m), HyperpView(n, m));
    vals[..KnownPrefix(n.modules[m].outputs, vals)]
  }

  /** The hook of `m` reads the same values in two states that agree on the roles of `m`, on
      the values of its inputs and on the hyperparameters. */
  lemma ViewsKept<V>(n: Net<V>, n2: Net<V>, m: nat, hook: Hook<V>)
    requires WellFormed(n) && m < |n.modules| && m < |n2.modules|
    requires n2.modules[m].(compiled := false) == n.modules[m].(compiled := false) && n2.hyperps == n.hyperps
    requires |n2.inputs| == |n.inputs|
    requires forall k :: 0 <= k < |n.modules[m].inputs| ==>
               n.modules[m].inputs[k].1 < |n.inputs| && n2.inputs[n.modules[m].inputs[k].1].val == n.inputs[n.modules[m].inputs[k].1].val
    ensures InputView(n2, m) == InputView(n, m) && HyperpView(n2, m) == HyperpView(n, m)
    ensures Written(n2, m, hook) == Written(n, m, hook)
  {
    assert ModuleOk(n, m);
    var rs := n.modules[m].inputs;
    assert n2.modules[m].inputs == rs && n2.modules[m].hyperps == n.modules[m].hyperps;
    assert n2.modules[m].outputs == n.modules[m].outputs;
    ReadableKept(rs, InputVals(n), InputVals(n2));
    assert HyperpVals(n2) == HyperpVals(n);
  }

  /** How module `m`'s turn in `forward` ends, from the state before it (`n0`) and after it
      (`n`): with the `KeyError` of a hook assignment to a name that is not an output of `m`,
      else with the missing-attribute error when an output of `m` that feeds an input holds
      no value, else normally. */
  function TurnOutcome<V>(n0: Net<V>, n: Net<V>, m: nat, hook: Hook<V>): Outcome
    requires m < |n0.modules| && m < |n.modules|
  {
    var vals := hook(m, InputView(n0, m), HyperpView(n0, m));
    if KnownPrefix(n0.modules[m].outputs, vals) < |vals| then Failure(UnknownName)
    else if exists k :: 0 <= k < |n.modules[m].outputs| && MissingOutput(n, n.modules[m].outputs[k].1) then Failure(MissingValue)
    else Pass
  }

  /** Every output of `m` holds the last value `vals` gives its role name, or the value it
      held in `n0` when `vals` gives none. */
  ghost predicate OutputsWritten<V>(n0: Net<V>, n: Net<V>, m: nat, vals: seq<(string, V)>)
  {
    && m < |n0.modules| && |n.outputs| == |n0.outputs|
    && (forall k :: 0 <= k < |n0.modules[m].outputs| && n0.modules[m].outputs[k].1 < |n0.outputs| ==>
          n.outputs[n0.modules[m].outputs[k].1].val
          == Assigned(n0.outputs[n0.modules[m].outputs[k].1].val, LastValue(vals, n0.modules[m].outputs[k].0)))
  }

  lemma AssignedWritten<V>(n0: Net<V>, n: Net<V>, m: nat, vals: seq<(string, V)>)
    requires m < |n0.modules| && OutputsAssigned(n0, n, m, vals)
    ensures OutputsWritten(n0, n, m, vals)
  {
  }

  /** Some output of module `x` feeds an input of module `m`. */
  ghost predicate FeedsModule<V>(n: Net<V>, x: nat, m: nat)
  {
    m < |n.modules| && exists k :: 0 <= k < |n.modules[m].inputs| && FedFrom(n, n.modules[m].inputs[k].1, x)
  }

  /** The module at position `p` of `order` occurs nowhere else among the first `j`. */
  predicate OnceBefore(order: seq<nat>, j: nat, p: nat)
    requires p < j <= |order|
  {
    forall q :: 0 <= q < j && q != p ==> order[q] != order[p]
  }

  /** After the first `j` modules of `order` have run on `n0`, starting from `n0`: the
      hyperparameters are unchanged, outputs of modules that have not run keep their values,
      and each module that ran once, and whose inputs neither it nor a module after it has
      fed since, holds on its outputs what its hook writes given the values its inputs hold
      now. */
  ghost predicate Computed<V>(n0: Net<V>, n: Net<V>, order: seq<nat>, j: nat, hook: Hook<V>)
  {
    && j <= |order| && SameShape(n0, n) && n.hyperps == n0.hyperps
    && (forall o :: 0 <= o < |n0.outputs| && n0.outputs[o].owner !in order[..j] ==> n.outputs[o].val == n0.outputs[o].val)
    && (forall p :: 0 <= p < j ==> SettledAt(n0, n, order, j, p, hook))
  }

  /** The module at position `p` of the first `j` of `order`, when it ran once and no module
      from its turn on has fed it, holds what its hook writes from the values it reads now. */
  ghost predicate SettledAt<V>(n0: Net<V>, n: Net<V>, order: seq<nat>, j: nat, p: nat, hook: Hook<V>)
    requires p < j <= |order| && SameShape(n0, n)
  {
    order[p] < |n0.modules| && OnceBefore(order, j, p) && (forall q :: p <= q < j ==> !FeedsModule(n0, order[q], order[p]))
    ==> OutputsWritten(n0, n, order[p], Written(n, order[p], hook))
  }

  lemma ComputedStart<V>(n0: Net<V>, order: seq<nat>, hook: Hook<V>)
    ensures Computed(n0, n0, order, 0, hook)
  {
  }

  /** Whether `x` feeds `m` reads the same in graphs of the same shape. */
  lemma SameShapeFeeds<V>(n: Net<V>, n2: Net<V>, x: nat, m: nat)
    requires SameShape(n, n2)
    ensures FeedsModule(n, x, m) == FeedsModule(n2, x, m)
  {
    if m < |n.modules| {
      assert n.modules[m].(compiled := false) == n2.modules[m].(compiled := false);
      forall k | 0 <= k < |n.modules[m].inputs| ensures FedFrom(n, n.modules[m].inputs[k].1, x) == FedFrom(n2, n.modules[m].inputs[k].1, x) {
        SameShapeFedFrom(n, n2, n.modules[m].inputs[k].1, x);
      }
    }
  }

  /** Work on module `x` leaves what module `m` reads unchanged when `x` does not feed `m`. */
  lemma WrittenKept<V>(n0: Net<V>, pre: Net<V>, post: Net<V>, m: nat, x: nat, hook: Hook<V>)
    requires WellFormed(n0) && SameShape(n0, pre) && OnlyTouched(pre, post, x)
    requires m < |n0.modules| && !FeedsModule(n0, x, m)
    ensures Written(post, m, hook) == Written(pre, m, hook)
  {
    SameShapeWellFormed(n0, pre);
    assert ModuleOk(pre, m);
    assert pre.modules[m].(compiled := false) == post.modules[m].(compiled := false);
    assert n0.modules[m].(compiled := false) == pre.modules[m].(compiled := false);
    forall k | 0 <= k < |pre.modules[m].inputs|
      ensures post.inputs[pre.modules[m].inputs[k].1].val == pre.inputs[pre.modules[m].inputs[k].1].val
    {
      var i := pre.modules[m].inputs[k].1;
      assert !FedFrom(n0, n0.modules[m].inputs[k].1, x);
      SameShapeFedFrom(n0, pre, i, x);
    }
    ViewsKept(pre, post, m, hook);
  }

  /** Running module `x` keeps the outputs of modules that have not run. */
  lemma UnrunKept<V>(n0: Net<V>, pre: Net<V>, post: Net<V>, order: seq<nat>, j: nat, hook: Hook<V>)
    requires j < |order| && Computed(n0, pre, order, j, hook) && OnlyTouched(pre, post, order[j])
    ensures forall o :: 0 <= o < |n0.outputs| && n0.outputs[o].owner !in order[..j + 1] ==> post.outputs[o].val == n0.outputs[o].val
  {
    assert order[..j + 1] == order[..j] + [order[j]];
    forall o | 0 <= o < |n0.outputs| && n0.outputs[o].owner !in order[..j + 1]
      ensures post.outputs[o].val == n0.outputs[o].val
    {
      assert n0.outputs[o].(val := None) == pre.outputs[o].(val := None);
    }
  }

  /** Running module `x` keeps what an earlier module `m`, which `x` neither is nor feeds,
      holds on its outputs. */
  lemma EarlierKept<V>(n0: Net<V>, pre: Net<V>, post: Net<V>, m: nat, x: nat, hook: Hook<V>)
    requires WellFormed(n0) && SameShape(n0, pre) && OnlyTouched(pre, post, x)
    requires m < |n0.modules| && m != x && !FeedsModule(n0, x, m)
    requires OutputsWritten(n0, pre, m, Written(pre, m, hook))
    ensures OutputsWritten(n0, post, m, Written(post, m, hook))
  {
    WrittenKept(n0, pre, post, m, x, hook);
    assert ModuleOk(n0, m);
    forall k | 0 <= k < |n0.modules[m].outputs|
      ensures post.outputs[n0.modules[m].outputs[k].1].val == pre.outputs[n0.modules[m].outputs[k].1].val
    {
      var o := n0.modules[m].outputs[k].1;
      assert n0.outputs[o].(val := None) == pre.outputs[o].(val := None);
    }
  }

  /** The module `x` that has just run for the first time, and does not feed itself, holds
      what its hook writes from the values it reads. */
  lemma LatestWritten<V>(n0: Net<V>, pre: Net<V>, post: Net<V>, x: nat, hook: Hook<V>)
    requires WellFormed(n0) && SameShape(n0, pre) && OnlyTouched(pre, post, x)
    requires x < |n0.modules| && !FeedsModule(n0, x, x)
    requires forall k :: 0 <= k < |n0.modules[x].outputs| && n0.modules[x].outputs[k].1 < |n0.outputs| ==>
               pre.outputs[n0.modules[x].outputs[k].1].val == n0.outputs[n0.modules[x].outputs[k].1].val
    requires OutputsWritten(pre, post, x, Written(pre, x, hook))
    ensures OutputsWritten(n0, post, x, Written(post, x, hook))
  {
    WrittenKept(n0, pre, post, x, x, hook);
    assert pre.modules[x].(compiled := false) == n0.modules[x].(compiled := false);
  }

  /** Running module `order[j]` keeps `Computed`. */
  lemma ComputedStep<V>(n0: Net<V>, pre: Net<V>, post: Net<V>, order: seq<nat>, j: nat, hook: Hook<V>)
    requires WellFormed(n0) && j < |order| && order[j] < |n0.modules|
    requires Computed(n0, pre, order, j, hook) && OnlyTouched(pre, post, order[j])
    requires OutputsWritten(pre, post, order[j], Written(pre, order[j], hook))
    ensures Computed(n0, post, order, j + 1, hook)
  {
    SameShapeTrans(n0, pre, post);
    UnrunKept(n0, pre, post, order, j, hook);
    var j1 := j + 1;
    forall p | 0 <= p < j1 ensures SettledAt(n0, post, order, j1, p, hook) {
      if order[p] < |n0.modules| && OnceBefore(order, j1, p)
        && (forall q :: p <= q < j1 ==> !FeedsModule(n0, order[q], order[p]))
      {
        ComputedAt(n0, pre, post, order, j, p, hook);
      }
    }
  }

  /** `ComputedStep` for the module at position `p`. */
  lemma ComputedAt<V>(n0: Net<V>, pre: Net<V>, post: Net<V>, order: seq<nat>, j: nat, p: nat, hook: Hook<V>)
    requires WellFormed(n0) && j < |order| && order[j] < |n0.modules|
    requires Computed(n0, pre, order, j, hook) && OnlyTouched(pre, post, order[j])
    requires OutputsWritten(pre, post, order[j], Written(pre, order[j], hook))
    requires p < j + 1 && order[p] < |n0.modules| && OnceBefore(order, j + 1, p)
    requires forall q :: p <= q < j + 1 ==> !FeedsModule(n0, order[q], order[p])
    ensures OutputsWritten(n0, post, order[p], Written(post, order[p], hook))
  {
    var m, x := order[p], order[j];
    assert !FeedsModule(n0, x, m);
    if p < j {
      assert OnceBefore(order, j, p);
      assert SettledAt(n0, pre, order, j, p, hook);
      EarlierKept(n0, pre, post, m, x, hook);
    } else {
      assert m !in order[..j];
      assert ModuleOk(n0, m);
      LatestWritten(n0, pre, post, x, hook);
    }
  }

  /** Once the whole of a duplicate-free `order` has run on the graph `n1` (the graph `n0`
      with its seed inputs given values): each module that neither feeds itself nor is fed by
      a module after it holds on its outputs what its hook writes given the final values of
      its inputs, over the output values it had in `n0`. */
  lemma ComputedEnd<V>(n0: Net<V>, n1: Net<V>, n: Net<V>, order: seq<nat>, hook: Hook<V>)
    requires WellFormed(n0) && SameShape(n0, n1) && n1.outputs == n0.outputs && n1.modules == n0.modules
    requires Computed(n1, n, order, |order|, hook) && NoDup(order)
    requires forall p :: 0 <= p < |order| ==> order[p] < |n0.modules|
    ensures forall p :: 0 <= p < |order| && (forall q :: p <= q < |order| ==> !FeedsModule(n0, order[q], order[p])) ==>
              OutputsWritten(n0, n, order[p], Written(n, order[p], hook))
  {
    forall p | 0 <= p < |order| && (forall q :: p <= q < |order| ==> !FeedsModule(n0, order[q], order[p]))
      ensures OutputsWritten(n0, n, order[p], Written(n, order[p], hook))
    {
      forall q | p <= q < |order| ensures !FeedsModule(n1, order[q], order[p]) {
        SameShapeFeeds(n0, n1, order[q], order[p]);
      }
      assert OnceBefore(order, |order|, p);
      assert SettledAt(n1, n, order, |order|, p, hook);
    }
  }

  /** After the seeds `vals` are given to `n0` (giving `n1`) and the modules of `order` have
      run (giving `n`), an input none of them feeds holds its seed value. */
  lemma SeedsKept<V>(n0: Net<V>, n1: Net<V>, n: Net<V>, order: seq<nat>, vals: seq<(nat, V)>)
    requires InputsAssigned(n0, n1, vals) && RunInv(n1, n, order, |order|)
    ensures forall i: nat :: (i < |n.inputs| && forall p :: 0 <= p < |order| ==> !FedFrom(n0, i, order[p]))
              ==> n.inputs[i].val == Assigned(n0.inputs[i].val, LastValue(vals, i))
  {
    forall i: nat | i < |n.inputs| && forall p :: 0 <= p < |order| ==> !FedFrom(n0, i, order[p])
      ensures n.inputs[i].val == Assigned(n0.inputs[i].val, LastValue(vals, i))
    {
      forall p | 0 <= p < |order| ensures !FedFrom(n1, i, order[p]) {
        SameShapeFedFrom(n0, n1, i, order[p]);
      }
    }
  }
}
