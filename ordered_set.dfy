/** The insertion-ordered, duplicate-free collection the graph core uses for dependents and
    for the modules and hyperparameters its traversals collect. */
module OrderedSets {

  /** No element occurs twice. */
  ghost predicate NoDup<T>(s: seq<T>)
  {
    forall i, j :: 0 <= i < j < |s| ==> s[i] != s[j]
  }

  /** `s` after adding `x`: appended at the end when absent, unchanged when present. */
  function Added<T(==,!new)>(s: seq<T>, x: T): (r: seq<T>)
    ensures forall y :: y in r <==> y in s || y == x
    ensures |s| <= |r| <= |s| + 1 && r[..|s|] == s
    ensures x in s ==> r == s
    ensures NoDup(s) ==> NoDup(r)
  {
    if x in s then s else s + [x]
  }

  /** `s` after adding every element of `xs` in turn: the elements of `xs` not yet present
      are appended in order of their first occurrence. */
  function AddAll<T(==,!new)>(s: seq<T>, xs: seq<T>): (r: seq<T>)
    ensures forall y :: y in r <==> y in s || y in xs
    ensures |s| <= |r| && r[..|s|] == s
    ensures NoDup(s) ==> NoDup(r)
    decreases |xs|
  {
    if xs == [] then s
    else
      var r := AddAll(Added(s, xs[0]), xs[1..]);
      assert forall y :: y in xs <==> y == xs[0] || y in xs[1..];
      assert r[..|s|] == Added(s, xs[0])[..|s|];
      r
  }

  /** Adding a sequence and then one more element is adding the extended sequence. */
  lemma {:induction false} AddAllSnoc<T(!new)>(s: seq<T>, xs: seq<T>, x: T)
    ensures AddAll(s, xs + [x]) == Added(AddAll(s, xs), x)
    decreases |xs|
  {
    if xs == [] {
      assert ([] + [x])[1..] == [];
    } else {
      assert (xs + [x])[0] == xs[0];
      assert (xs + [x])[1..] == xs[1..] + [x];
      AddAllSnoc(Added(s, xs[0]), xs[1..], x);
    }
  }

  /** Adding two sequences one after the other is adding their concatenation. */
  lemma {:induction false} AddAllAppend<T(!new)>(s: seq<T>, a: seq<T>, b: seq<T>)
    ensures AddAll(s, a + b) == AddAll(AddAll(s, a), b)
    decreases |b|
  {
    if b == [] {
      assert a + b == a;
    } else {
      var b0, x := b[..|b| - 1], b[|b| - 1];
      assert b == b0 + [x];
      assert a + b == (a + b0) + [x];
      AddAllSnoc(s, a + b0, x);
      AddAllAppend(s, a, b0);
      AddAllSnoc(AddAll(s, a), b0, x);
    }
  }

  /** Adding the first `k + 1` elements of `xs` is adding the first `k` and then `xs[k]`. */
  lemma AddAllPrefix<T(!new)>(s: seq<T>, xs: seq<T>, k: nat)
    requires k < |xs|
    ensures AddAll(s, xs[..k + 1]) == Added(AddAll(s, xs[..k]), xs[k])
  {
    assert xs[..k + 1] == xs[..k] + [xs[k]];
    AddAllSnoc(s, xs[..k], xs[k]);
  }

  /** A subset is no larger than its superset. */
  lemma {:induction false} SubsetCardinality<T>(a: set<T>, b: set<T>)
    requires a <= b
    ensures |a| <= |b|
    decreases |a|
  {
    if a != {} {
      var x :| x in a;
      SubsetCardinality(a - {x}, b - {x});
    }
  }

  /** The keys of a Python ordered dictionary whose values are ignored. */
  class OrderedSet<T(==,!new)> {
    var items: seq<T>

    ghost predicate Valid()
      reads this
    {
      NoDup(items)
    }

    constructor ()
      ensures Valid() && items == []
    {
      items := [];
    }

    /** Adds `x` unless it is already present. */
    method Add(x: T)
      requires Valid()
      modifies this
      ensures Valid() && items == Added(old(items), x)
    {
      if x !in items {
        items := items + [x];
      }
    }

    /** Adds every element of `xs`, in order. */
    method Update(xs: seq<T>)
      requires Valid()
      modifies this
      ensures Valid() && items == AddAll(old(items), xs)
    {
      ghost var start := items;
      var k := 0;
      while k < |xs|
        invariant 0 <= k <= |xs|
        invariant Valid()
        invariant items == AddAll(start, xs[..k])
      {
        Add(xs[k]);
        AddAllPrefix(start, xs, k);
        k := k + 1;
      }
      assert xs[..k] == xs;
    }
  }
}
