/** What happens to an output's fan-out list when `disconnect_all` or
    `reroute_all_connected_inputs` walks it: the loop reads the list by position while each
    step removes the element it read, so it reaches the elements at even positions only. */
module FanOuts {
  import opened Base
  import opened OrderedSets
  import opened Nets
  import opened NetOps

  /** The elements of `s` at positions 0, 2, 4, ... */
  function EvenPositions(s: seq<nat>): (r: seq<nat>)
    ensures |r| == (|s| + 1) / 2 && forall k :: 0 <= k < |r| ==> r[k] == s[2 * k]
  {
    seq((|s| + 1) / 2, k requires 0 <= k < (|s| + 1) / 2 => s[2 * k])
  }

  /** The elements of `s` at positions 1, 3, 5, ... */
  function OddPositions(s: seq<nat>): (r: seq<nat>)
    ensures |r| == |s| / 2 && forall k :: 0 <= k < |r| ==> r[k] == s[2 * k + 1]
  {
    seq(|s| / 2, k requires 0 <= k < |s| / 2 => s[2 * k + 1])
  }

  /** Every element of `s` is at an even or at an odd position, and not both when `s` has no
      repetitions. */
  lemma PositionsSplit(s: seq<nat>)
    ensures forall x :: x in s <==> x in EvenPositions(s) || x in OddPositions(s)
    ensures NoDup(s) ==> forall x :: x in EvenPositions(s) ==> x !in OddPositions(s)
  {
    forall x | x in s ensures x in EvenPositions(s) || x in OddPositions(s) {
      var k :| 0 <= k < |s| && s[k] == x;
      if k % 2 == 0 {
        assert EvenPositions(s)[k / 2] == x;
      } else {
        assert OddPositions(s)[k / 2] == x;
      }
    }
    forall x | x in EvenPositions(s) ensures x in s {
      var k :| 0 <= k < |EvenPositions(s)| && EvenPositions(s)[k] == x;
      assert s[2 * k] == x;
    }
    forall x | x in OddPositions(s) ensures x in s {
      var k :| 0 <= k < |OddPositions(s)| && OddPositions(s)[k] == x;
      assert s[2 * k + 1] == x;
    }
    if NoDup(s) {
      forall x | x in EvenPositions(s) ensures x !in OddPositions(s) {
        var k :| 0 <= k < |EvenPositions(s)| && EvenPositions(s)[k] == x;
        forall q | 0 <= q < |OddPositions(s)| ensures OddPositions(s)[q] != x {
          assert s[2 * q + 1] != s[2 * k];
        }
      }
    }
  }

  /** One more step of the position-reading loop: the element read next sits at position
      `2t` of the original list. */
  lemma PositionsStep(s: seq<nat>, t: nat)
    requires 2 * t < |s|
    ensures EvenPositions(s[..Min(2 * t + 2, |s|)]) == EvenPositions(s[..2 * t]) + [s[2 * t]]
    ensures OddPositions(s[..Min(2 * t + 2, |s|)]) + s[Min(2 * t + 2, |s|)..] == OddPositions(s[..2 * t]) + s[2 * t + 1..]
  {
    var k := Min(2 * t + 2, |s|);
    assert EvenPositions(s[..k]) == EvenPositions(s[..2 * t]) + [s[2 * t]];
    if 2 * t + 1 < |s| {
      assert OddPositions(s[..k]) == OddPositions(s[..2 * t]) + [s[2 * t + 1]];
      assert s[2 * t + 1..] == [s[2 * t + 1]] + s[k..];
    } else {
      assert OddPositions(s[..k]) == OddPositions(s[..2 * t]);
    }
  }

  function Min(a: nat, b: nat): nat
  {
    if a <= b then a else b
  }

  /** `n` is `n0` after each input of `gone`, all fed by output `o`, was disconnected and,
      when `dest` names an output, connected to it in turn; `o` is left feeding `kept`. */
  ghost predicate Rewired<V>(n0: Net<V>, n: Net<V>, o: nat, dest: Option<nat>, gone: seq<nat>, kept: seq<nat>)
  {
    && n.modules == n0.modules && n.hyperps == n0.hyperps
    && |n.inputs| == |n0.inputs| && |n.outputs| == |n0.outputs| && o < |n.outputs|
    && n.outputs[o] == n0.outputs[o].(toInputs := kept)
    && (dest.Some? ==>
          && dest.value < |n.outputs| && dest.value != o
          && n.outputs[dest.value] == n0.outputs[dest.value].(toInputs := n0.outputs[dest.value].toInputs + gone))
    && (forall p :: 0 <= p < |n.outputs| && p != o && Some(p) != dest ==> n.outputs[p] == n0.outputs[p])
    && (forall i :: 0 <= i < |n.inputs| ==>
          n.inputs[i] == if i in gone then n0.inputs[i].(fromOutput := dest) else n0.inputs[i])
  }

  /** The graph after input `x` is disconnected and, when `dest` names an output, connected
      to it. */
  function Moved<V>(n: Net<V>, x: nat, dest: Option<nat>): Net<V>
    requires WellFormed(n) && x < |n.inputs| && n.inputs[x].fromOutput.Some?
    requires dest.Some? ==> dest.value < |n.outputs|
  {
    DisconnectWellFormed(n, x);
    var n1 := WithoutConnection(n, x);
    if dest.None? then n1 else WithConnection(n1, x, dest.value)
  }

  /** Moving the input that comes first after the `kept` prefix `a` extends `gone` by it and
      cuts it out of the fan-out list. */
  lemma RewireStep<V>(n0: Net<V>, n: Net<V>, o: nat, dest: Option<nat>, gone: seq<nat>, a: seq<nat>, rest: seq<nat>)
    requires WellFormed(n) && Rewired(n0, n, o, dest, gone, a + rest)
    requires rest != [] && rest[0] !in a && rest[0] !in gone
    ensures rest[0] < |n.inputs| && n.inputs[rest[0]].fromOutput == Some(o)
    ensures Rewired(n0, Moved(n, rest[0], dest), o, dest, gone + [rest[0]], a + rest[1..])
  {
    var x := rest[0];
    var list := a + rest;
    assert list[|a|] == x;
    assert OutputOk(n, o);
    assert x in n.outputs[o].toInputs;
    SymmetricLinks(n, x, o);
    assert list[..|a|] == a && list[|a| + 1..] == rest[1..];
    RemoveAt(list, |a|);
    var n2 := Moved(n, x, dest);
    forall i | 0 <= i < |n2.inputs|
      ensures n2.inputs[i] == if i in gone + [x] then n0.inputs[i].(fromOutput := dest) else n0.inputs[i]
    {
      if i == x {
        assert n.inputs[x] == n0.inputs[x];
      }
    }
  }
  /** In a list without repetitions, the element at position `j` is not among those before it,
      whatever their parity. */
  lemma NextUnseen(s: seq<nat>, j: nat)
    requires NoDup(s) && j < |s|
    ensures s[j] !in EvenPositions(s[..j]) && s[j] !in OddPositions(s[..j])
    ensures s[j] !in s[..j]
  {
    PositionsSplit(s[..j]);
  }
  /** One step of the walk over a copy `L` of the fan-out list of `o`. */
  lemma SnapshotStep<V>(n0: Net<V>, n: Net<V>, o: nat, dest: Option<nat>, L: seq<nat>, t: nat)
    requires WellFormed(n) && NoDup(L) && t < |L| && Rewired(n0, n, o, dest, L[..t], L[t..])
    ensures L[t] < |n.inputs| && n.inputs[L[t]].fromOutput == Some(o)
    ensures Rewired(n0, Moved(n, L[t], dest), o, dest, L[..t + 1], L[t + 1..])
  {
    NextUnseen(L, t);
    assert [] + L[t..] == L[t..];
    assert L[..t] + [L[t..][0]] == L[..t + 1] && [] + L[t..][1..] == L[t + 1..];
    RewireStep(n0, n, o, dest, L[..t], [], L[t..]);
  }

  /** The inputs the walk over the live fan-out list has moved after `t` steps: the entries at
      even positions among the first `2t` of the original list `L`. */
  function LiveGone(L: seq<nat>, t: nat): seq<nat>
  {
    EvenPositions(L[..Min(2 * t, |L|)])
  }

  /** The live fan-out list after `t` steps: the entries at odd positions among the first
      `2t` of the original list `L`, then the rest of `L`. */
  function LiveKept(L: seq<nat>, t: nat): seq<nat>
  {
    OddPositions(L[..Min(2 * t, |L|)]) + L[Min(2 * t, |L|)..]
  }

  /** One step of the walk over the live fan-out list of `o`: position `t` of the live list
      holds `L[2t]`, which moves. */
  lemma LiveStep<V>(n0: Net<V>, n: Net<V>, o: nat, dest: Option<nat>, L: seq<nat>, t: nat)
    requires WellFormed(n) && NoDup(L) && 2 * t < |L|
    requires Rewired(n0, n, o, dest, LiveGone(L, t), LiveKept(L, t))
    ensures t < |n.outputs[o].toInputs| && n.outputs[o].toInputs[t] == L[2 * t]
    ensures L[2 * t] < |n.inputs| && n.inputs[L[2 * t]].fromOutput == Some(o)
    ensures Rewired(n0, Moved(n, L[2 * t], dest), o, dest, LiveGone(L, t + 1), LiveKept(L, t + 1))
  {
    var gone, a, rest := EvenPositions(L[..2 * t]), OddPositions(L[..2 * t]), L[2 * t..];
    assert LiveGone(L, t) == gone && LiveKept(L, t) == a + rest;
    NextUnseen(L, 2 * t);
    PositionsStep(L, t);
    assert LiveGone(L, t + 1) == gone + [rest[0]] && LiveKept(L, t + 1) == a + rest[1..];
    RewireStep(n0, n, o, dest, gone, a, rest);
  }

  /** The live walk stops once its position reaches the end of the shrinking list, which
      happens exactly when the original list is used up. */
  lemma LiveLength(L: seq<nat>, t: nat)
    requires 2 * t <= |L| + 1
    ensures |LiveKept(L, t)| > t <==> 2 * t < |L|
    ensures 2 * t >= |L| ==> LiveGone(L, t) == EvenPositions(L) && LiveKept(L, t) == OddPositions(L)
  {
    if 2 * t >= |L| {
      assert L[..Min(2 * t, |L|)] == L;
    }
  }

  /** Nothing has moved yet. */
  lemma RewiredStart<V>(n: Net<V>, o: nat, dest: Option<nat>)
    requires o < |n.outputs| && (dest.Some? ==> dest.value < |n.outputs| && dest.value != o)
    ensures Rewired(n, n, o, dest, [], n.outputs[o].toInputs)
    ensures LiveGone(n.outputs[o].toInputs, 0) == [] && LiveKept(n.outputs[o].toInputs, 0) == n.outputs[o].toInputs
  {
    if dest.Some? {
      assert n.outputs[dest.value].toInputs + [] == n.outputs[dest.value].toInputs;
    }
  }

  /** After the walk over the live list, an output that fed two or more inputs still feeds the
      second of them, untouched. */
  lemma SecondStaysConnected<V>(n0: Net<V>, n: Net<V>, o: nat, dest: Option<nat>)
    requires WellFormed(n0) && o < |n0.outputs| && |n0.outputs[o].toInputs| >= 2
    requires Rewired(n0, n, o, dest, EvenPositions(n0.outputs[o].toInputs), OddPositions(n0.outputs[o].toInputs))
    ensures var x := n0.outputs[o].toInputs[1];
      x < |n.inputs| && n.inputs[x] == n0.inputs[x] && n.inputs[x].fromOutput == Some(o)
      && x in n.outputs[o].toInputs
  {
    var L := n0.outputs[o].toInputs;
    assert OutputOk(n0, o);
    assert OddPositions(L)[0] == L[1];
    PositionsSplit(L);
  }
}
