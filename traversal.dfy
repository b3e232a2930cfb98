/** The worklist traversal shared by `traverse_backward` and `traverse_forward`: visit the
    seed modules in order, then every neighbour not queued before, stopping right after the
    first module the visitor asks to stop at. */
module Traversals {
  import opened OrderedSets

  /** The neighbours of `m` in the table `next` (none when `m` is outside it). */
  function Next(next: seq<seq<nat>>, m: nat): seq<nat>
  {
    if m < |next| then next[m] else []
  }

  /** Whether the visitor's table `stop` asks to end the traversal at `m`. */
  function Stop(stop: seq<bool>, m: nat): bool
  {
    m < |stop| && stop[m]
  }

  /** Every visited module is a seed (in seed order, at the front) or a neighbour of a
      module visited before it. */
  ghost predicate Derivation(seeds: seq<nat>, next: seq<seq<nat>>, vs: seq<nat>)
  {
    forall j :: 0 <= j < |vs| ==>
      if j < |seeds| then vs[j] == seeds[j] else FoundBy(next, vs, j, j)
  }

  /** `vs[j]` is a neighbour of one of the first `k` elements of `vs`, all before it. */
  ghost predicate FoundBy(next: seq<seq<nat>>, vs: seq<nat>, j: nat, k: nat)
  {
    j < |vs| && exists i :: 0 <= i < j && i < k && vs[j] in Next(next, vs[i])
  }

  /** Every neighbour of a visited module is visited. */
  ghost predicate Closed(next: seq<seq<nat>>, vs: seq<nat>)
  {
    forall j, x :: 0 <= j < |vs| && x in Next(next, vs[j]) ==> x in vs
  }

  /** Only seed modules are visited more than once. */
  ghost predicate RevisitsOnlySeeds(seeds: seq<nat>, vs: seq<nat>)
  {
    forall i, j :: 0 <= i < j < |vs| && vs[i] == vs[j] ==> vs[i] in seeds
  }

  /** `visited`, with `stopped`, is what a traversal from `seeds` along `next` that ends at the
      first module `stop` marks may produce: every module visited is a seed (the seeds come
      first, in order) or a neighbour of one visited before it; only seeds are visited twice;
      a stopped traversal ends at its first marked module, and one that was not stopped
      visited no marked module and every neighbour of every visited module. */
  ghost predicate Walk(seeds: seq<nat>, next: seq<seq<nat>>, stop: seq<bool>, visited: seq<nat>, stopped: bool)
  {
    && Derivation(seeds, next, visited)
    && RevisitsOnlySeeds(seeds, visited)
    && (stopped ==> 0 < |visited| && Stop(stop, visited[|visited| - 1]))
    && (stopped ==> forall j :: 0 <= j < |visited| - 1 ==> !Stop(stop, visited[j]))
    && (!stopped ==> forall j :: 0 <= j < |visited| ==> !Stop(stop, visited[j]))
    && (!stopped ==> Closed(next, visited) && |seeds| <= |visited|)
  }

  /** A set of naturals below `bound` has at most `bound` elements. */
  lemma {:induction false} BoundedSetCardinality(s: set<nat>, bound: nat)
    requires forall x :: x in s ==> x < bound
    ensures |s| <= bound
    decreases bound
  {
    if bound > 0 {
      BoundedSetCardinality(s - {bound - 1}, bound - 1);
    } else {
      assert s == {};
    }
  }

  /** A closed visit that starts with the seeds contains every module any derivation from
      those seeds reaches: it is the whole reachable part of the graph. */
  lemma {:induction false} ReachableWithinClosed(seeds: seq<nat>, next: seq<seq<nat>>, d: seq<nat>, c: seq<nat>, j: nat)
    requires Derivation(seeds, next, d) && j < |d|
    requires Closed(next, c) && |seeds| <= |c| && c[..|seeds|] == seeds
    ensures d[j] in c
    decreases j
  {
    if j < |seeds| {
      assert c[j] == seeds[j];
    } else {
      assert FoundBy(next, d, j, j);
      var i :| 0 <= i < j && d[j] in Next(next, d[i]);
      ReachableWithinClosed(seeds, next, d, c, i);
      var p :| 0 <= p < |c| && c[p] == d[i];
    }
  }

  /** Some derivation from `seeds` along `next` reaches `m`: `m` is a seed or a neighbour,
      repeatedly, of a seed. */
  ghost predicate Reaches(seeds: seq<nat>, next: seq<seq<nat>>, m: nat)
  {
    exists d :: Derivation(seeds, next, d) && m in d
  }

  /** Whatever a walk visits is reachable, and a walk that was not stopped visits everything
      reachable. */
  lemma WalkReaches(seeds: seq<nat>, next: seq<seq<nat>>, stop: seq<bool>, visited: seq<nat>, stopped: bool)
    requires Walk(seeds, next, stop, visited, stopped)
    ensures forall m :: m in visited ==> Reaches(seeds, next, m)
    ensures !stopped ==> forall m :: Reaches(seeds, next, m) ==> m in visited
  {
    forall m | m in visited ensures Reaches(seeds, next, m) {
      assert Derivation(seeds, next, visited);
    }
    if !stopped {
      assert visited[..|seeds|] == seeds;
      forall m | Reaches(seeds, next, m) ensures m in visited {
        var d :| Derivation(seeds, next, d) && m in d;
        var j :| 0 <= j < |d| && d[j] == m;
        ReachableWithinClosed(seeds, next, d, visited, j);
      }
    }
  }

  /** `added` is what queueing, in order, each of `nx` not in `memo` appends to the queue,
      and `memo2` is the memo afterwards. */
  ghost predicate Enqueued(memo: set<nat>, nx: seq<nat>, added: seq<nat>, memo2: set<nat>)
  {
    && (forall x :: x in memo2 <==> x in memo || x in added)
    && |memo2| == |memo| + |added|
    && NoDup(added)
    && (forall x :: x in added ==> x in nx && x !in memo)
    && (forall x :: x in nx ==> x in memo2)
  }

  /** The modules that queueing, in order, each of `nx` not in `memo` appends to the queue,
      and the memo afterwards. */
  function Unseen(memo: set<nat>, nx: seq<nat>): (seq<nat>, set<nat>)
    decreases |nx|
  {
    if nx == [] then ([], memo)
    else
      var r := Unseen(memo, nx[..|nx| - 1]);
      var x := nx[|nx| - 1];
      if x in r.1 then r else (r.0 + [x], r.1 + {x})
  }

  /** `Unseen` queues each unseen module of `nx` once, and only those. */
  lemma {:induction false} UnseenEnqueued(memo: set<nat>, nx: seq<nat>)
    ensures Enqueued(memo, nx, Unseen(memo, nx).0, Unseen(memo, nx).1)
    decreases |nx|
  {
    if nx != [] {
      var x := nx[|nx| - 1];
      assert nx == nx[..|nx| - 1] + [x];
      UnseenEnqueued(memo, nx[..|nx| - 1]);
    }
  }

  /** The inner loop of the traversal: queue, in order, each of `nx` not queued before. */
  method EnqueueUnseen(memo: set<nat>, ms: seq<nat>, nx: seq<nat>)
    returns (memo2: set<nat>, ms2: seq<nat>, ghost added: seq<nat>)
    ensures ms2 == ms + added && (added, memo2) == Unseen(memo, nx)
    ensures Enqueued(memo, nx, added, memo2)
  {
    memo2, ms2, added := memo, ms, [];
    var t := 0;
    while t < |nx|
      invariant t <= |nx|
      invariant ms2 == ms + added && (added, memo2) == Unseen(memo, nx[..t])
    {
      assert nx[..t + 1][..t] == nx[..t];
      if nx[t] !in memo2 {
        memo2 := memo2 + {nx[t]};
        ms2 := ms2 + [nx[t]];
        added := added + [nx[t]];
      }
      t := t + 1;
    }
    assert nx[..t] == nx;
    UnseenEnqueued(memo, nx);
  }

  /** The queue starts with the seeds, stays below `bound`, and repeats only seeds; the memo
      holds queued modules only, and every module queued behind the seeds. */
  ghost predicate ShapeInv(seeds: seq<nat>, bound: nat, memo: set<nat>, ms: seq<nat>)
  {
    && |seeds| <= |ms| && ms[..|seeds|] == seeds && |ms| <= |seeds| + |memo|
    && (forall j :: 0 <= j < |ms| ==> ms[j] < bound)
    && (forall x :: x in memo ==> x in ms && x < bound)
    && (forall j :: |seeds| <= j < |ms| ==> ms[j] in memo)
    && RevisitsOnlySeeds(seeds, ms)
  }

  /** Every module queued behind the seeds was found by one of the first `k` modules. */
  ghost predicate FoundInv(seeds: seq<nat>, next: seq<seq<nat>>, ms: seq<nat>, k: nat)
  {
    forall j :: |seeds| <= j < |ms| ==> FoundBy(next, ms, j, k)
  }

  /** The first `k` modules were visited without stopping and their neighbours are in the
      memo. */
  ghost predicate DoneInv(next: seq<seq<nat>>, stop: seq<bool>, memo: set<nat>, ms: seq<nat>, k: nat)
  {
    && k <= |ms|
    && (forall j, x :: 0 <= j < k && x in Next(next, ms[j]) ==> x in memo)
    && (forall j :: 0 <= j < k ==> !Stop(stop, ms[j]))
  }

  /** Queueing unseen neighbours below `bound` keeps `ShapeInv`. */
  lemma ShapeStep(seeds: seq<nat>, bound: nat, memo: set<nat>, ms: seq<nat>, nx: seq<nat>, added: seq<nat>, memo2: set<nat>)
    requires ShapeInv(seeds, bound, memo, ms) && Enqueued(memo, nx, added, memo2)
    requires forall x :: x in nx ==> x < bound
    ensures ShapeInv(seeds, bound, memo2, ms + added)
  {
    var ms2 := ms + added;
    forall j | 0 <= j < |ms2| ensures ms2[j] < bound {
      if |ms| <= j {
        assert ms2[j] == added[j - |ms|] && added[j - |ms|] in added;
        assert ms2[j] in nx;
      } else {
        assert ms2[j] == ms[j];
      }
    }
    assert ms2[..|seeds|] == seeds by {
      assert ms2[..|ms|] == ms;
    }
    forall i, j | 0 <= i < j < |ms2| && |ms| <= j && |seeds| <= i ensures ms2[i] != ms2[j] {
      assert ms2[j] == added[j - |ms|];
      if i < |ms| {
        assert ms[i] in memo;
      }
    }
    forall i, j | 0 <= i < j < |ms2| && ms2[i] == ms2[j] ensures ms2[i] in seeds {
      if i < |seeds| {
        assert ms2[i] == ms[..|seeds|][i];
      }
    }
  }

  /** Queueing neighbours of `ms[k]` keeps `FoundInv` one module further on. */
  lemma FoundStep(seeds: seq<nat>, next: seq<seq<nat>>, ms: seq<nat>, k: nat, added: seq<nat>)
    requires FoundInv(seeds, next, ms, k) && |seeds| <= |ms| && k < |ms|
    requires forall x :: x in added ==> x in Next(next, ms[k])
    ensures FoundInv(seeds, next, ms + added, k + 1)
  {
    var ms2, k1 := ms + added, k + 1;
    forall j | |seeds| <= j < |ms2| ensures FoundBy(next, ms2, j, k1) {
      if j < |ms| {
        assert FoundBy(next, ms, j, k);
        var i :| 0 <= i < j && i < k && ms[j] in Next(next, ms[i]);
        assert ms2[i] == ms[i];
      } else {
        assert ms2[k] == ms[k];
        assert ms2[j] in added;
      }
    }
  }

  /** Visiting `ms[k]`, which does not stop the traversal, and queueing its unseen neighbours
      keeps `DoneInv` one module further on. */
  lemma DoneStep(next: seq<seq<nat>>, stop: seq<bool>, memo: set<nat>, ms: seq<nat>, k: nat, added: seq<nat>, memo2: set<nat>)
    requires DoneInv(next, stop, memo, ms, k) && k < |ms| && !Stop(stop, ms[k])
    requires Enqueued(memo, Next(next, ms[k]), added, memo2)
    ensures DoneInv(next, stop, memo2, ms + added, k + 1)
  {
    assert forall j :: 0 <= j < k + 1 ==> (ms + added)[j] == ms[j];
  }

  /** What the memo says about the queue: with `seedsSeen`, it holds every queued module
      and the queue has no duplicates (when the seeds have none); without, it holds only
      modules queued behind the seeds. */
  ghost predicate SeenInv(seeds: seq<nat>, seedsSeen: bool, memo: set<nat>, ms: seq<nat>)
    requires |seeds| <= |ms|
  {
    && (seedsSeen ==> forall j :: 0 <= j < |ms| ==> ms[j] in memo)
    && (seedsSeen && NoDup(seeds) ==> NoDup(ms))
    && (!seedsSeen ==> forall x :: x in memo ==> x in ms[|seeds|..])
  }

  /** Queueing keeps `SeenInv`. */
  lemma SeenStep(seeds: seq<nat>, seedsSeen: bool, memo: set<nat>, ms: seq<nat>, nx: seq<nat>, added: seq<nat>, memo2: set<nat>)
    requires Enqueued(memo, nx, added, memo2) && |seeds| <= |ms|
    requires SeenInv(seeds, seedsSeen, memo, ms)
    ensures SeenInv(seeds, seedsSeen, memo2, ms + added)
  {
    var ms2 := ms + added;
    if seedsSeen {
      forall i, j | 0 <= i < j < |ms2| && NoDup(seeds) ensures ms2[i] != ms2[j] {
        if |ms| <= j {
          assert ms2[j] == added[j - |ms|];
          if |ms| <= i {
            assert ms2[i] == added[i - |ms|];
          }
        }
      }
    } else {
      forall x | x in memo2 ensures x in ms2[|seeds|..] {
        if x in memo {
          var j :| |seeds| <= j < |ms| && ms[j] == x;
          assert ms2[|seeds|..][j - |seeds|] == x;
        } else {
          var j :| 0 <= j < |added| && added[j] == x;
          assert ms2[|seeds|..][|ms| + j - |seeds|] == x;
        }
      }
    }
  }

  /** The memo the traversal starts with: empty as written, the seeds when `seedsSeen`. */
  function FirstMemo(seeds: seq<nat>, seedsSeen: bool): (memo: set<nat>)
    ensures forall x :: x in memo <==> seedsSeen && x in seeds
  {
    if seedsSeen then set j | 0 <= j < |seeds| :: seeds[j] else {}
  }

  /** The queue and the memo once the traversal has visited its first `k` modules without
      being stopped: the seeds, then the unseen neighbours of each visited module in turn. */
  function Queue(seeds: seq<nat>, next: seq<seq<nat>>, seedsSeen: bool, k: nat): (r: (seq<nat>, set<nat>))
    ensures seeds <= r.0
    decreases k
  {
    if k == 0 then (seeds, FirstMemo(seeds, seedsSeen))
    else
      var q := Queue(seeds, next, seedsSeen, k - 1);
      if k - 1 < |q.0| then
        var u := Unseen(q.1, Next(next, q.0[k - 1]));
        (q.0 + u.0, u.1)
      else q
  }

  /** The breadth-first order of a traversal that nothing stops: the queue once every module
      in it has been visited, which a graph of `bound` modules reaches within `|seeds| + bound`
      visits. */
  function BfsOrder(seeds: seq<nat>, next: seq<seq<nat>>, seedsSeen: bool, bound: nat): (r: seq<nat>)
    ensures seeds <= r
  {
    Queue(seeds, next, seedsSeen, |seeds| + bound).0
  }

  /** One more visit only appends to the queue. */
  lemma QueueGrows(seeds: seq<nat>, next: seq<seq<nat>>, seedsSeen: bool, k: nat)
    ensures Queue(seeds, next, seedsSeen, k).0 <= Queue(seeds, next, seedsSeen, k + 1).0
  {
    var q := Queue(seeds, next, seedsSeen, k);
    if k < |q.0| {
      var u := Unseen(q.1, Next(next, q.0[k]));
      assert (q.0 + u.0)[..|q.0|] == q.0;
    }
  }

  /** The queue only grows: what it holds after `j` visits starts what it holds after more. */
  lemma {:induction false} QueuePrefix(seeds: seq<nat>, next: seq<seq<nat>>, seedsSeen: bool, j: nat, k: nat)
    requires j <= k
    ensures Queue(seeds, next, seedsSeen, j).0 <= Queue(seeds, next, seedsSeen, k).0
    decreases k
  {
    if j < k {
      QueuePrefix(seeds, next, seedsSeen, j, k - 1);
      QueueGrows(seeds, next, seedsSeen, k - 1);
      var a, b, c := Queue(seeds, next, seedsSeen, j).0, Queue(seeds, next, seedsSeen, k - 1).0, Queue(seeds, next, seedsSeen, k).0;
      PrefixTransitive(a, b, c);
    }
  }

  /** A prefix of a prefix is a prefix. */
  lemma PrefixTransitive(a: seq<nat>, b: seq<nat>, c: seq<nat>)
    requires a <= b && b <= c
    ensures a <= c
  {
    assert c[..|a|] == b[..|a|];
  }

  /** Once every queued module has been visited, further rounds change nothing. */
  lemma {:induction false} QueueSettled(seeds: seq<nat>, next: seq<seq<nat>>, seedsSeen: bool, j: nat, k: nat)
    requires j <= k && |Queue(seeds, next, seedsSeen, j).0| <= j
    ensures Queue(seeds, next, seedsSeen, k) == Queue(seeds, next, seedsSeen, j)
    decreases k
  {
    if j < k {
      QueueSettled(seeds, next, seedsSeen, j, k - 1);
    }
  }

  /** The queue and memo are those of `Queue` after `k` visits. (Stated through `i` so that
      `Queue` is unfolded only where a proof mentions it.) */
  ghost predicate QueueAt(seeds: seq<nat>, next: seq<seq<nat>>, seedsSeen: bool, memo: set<nat>, ms: seq<nat>, k: nat)
  {
    forall i: nat :: i == k ==> Queue(seeds, next, seedsSeen, i) == (ms, memo)
  }

  /** The loop invariants of `Traverse` together: the queue and memo are those of `Queue`
      after `k` visits, and keep the four properties above. */
  ghost predicate TraverseInv(seeds: seq<nat>, next: seq<seq<nat>>, stop: seq<bool>, bound: nat, seedsSeen: bool,
                              memo: set<nat>, ms: seq<nat>, k: nat)
  {
    && QueueAt(seeds, next, seedsSeen, memo, ms, k)
    && ShapeInv(seeds, bound, memo, ms) && FoundInv(seeds, next, ms, k)
    && DoneInv(next, stop, memo, ms, k) && SeenInv(seeds, seedsSeen, memo, ms)
  }

  /** The loop invariants hold before the first round. */
  lemma TraverseStart(seeds: seq<nat>, next: seq<seq<nat>>, stop: seq<bool>, bound: nat, seedsSeen: bool, memo: set<nat>)
    requires forall k :: 0 <= k < |seeds| ==> seeds[k] < bound
    requires memo == FirstMemo(seeds, seedsSeen)
    ensures TraverseInv(seeds, next, stop, bound, seedsSeen, memo, seeds, 0)
  {
    if seedsSeen {
      forall j | 0 <= j < |seeds| ensures seeds[j] in memo {
      }
    }
  }

  /** One round of the traversal loop keeps its invariants. */
  lemma TraverseStep(seeds: seq<nat>, next: seq<seq<nat>>, stop: seq<bool>, bound: nat, seedsSeen: bool,
                     memo: set<nat>, ms: seq<nat>, k: nat, added: seq<nat>, memo2: set<nat>)
    requires forall m, x :: 0 <= m < bound && x in Next(next, m) ==> x < bound
    requires TraverseInv(seeds, next, stop, bound, seedsSeen, memo, ms, k) && k < |ms| && !Stop(stop, ms[k])
    requires (added, memo2) == Unseen(memo, Next(next, ms[k]))
    ensures TraverseInv(seeds, next, stop, bound, seedsSeen, memo2, ms + added, k + 1)
  {
    UnseenEnqueued(memo, Next(next, ms[k]));
    assert ms[k] < bound;
    ShapeStep(seeds, bound, memo, ms, Next(next, ms[k]), added, memo2);
    FoundStep(seeds, next, ms, k, added);
    DoneStep(next, stop, memo, ms, k, added, memo2);
    SeenStep(seeds, seedsSeen, memo, ms, Next(next, ms[k]), added, memo2);
  }

  /** The traversal loop of `traverse_backward`/`traverse_forward` (with `next` giving a
      module's neighbours in the order the source scans them). `stopped` tells whether the
      visitor `stop` asked to end the traversal. With `seedsSeen` false the memo of queued
      modules starts empty, as in the source, so a seed that is also a neighbour is visited
      again, after all the seeds; with `seedsSeen` true the memo starts with the seeds and
      no module is visited twice. */
  method Traverse(seeds: seq<nat>, next: seq<seq<nat>>, stop: seq<bool>, bound: nat, seedsSeen: bool)
    returns (visited: seq<nat>, stopped: bool)
    requires forall k :: 0 <= k < |seeds| ==> seeds[k] < bound
    requires forall m, x :: 0 <= m < bound && x in Next(next, m) ==> x < bound
    ensures Walk(seeds, next, stop, visited, stopped)
    ensures forall j :: 0 <= j < |visited| ==> visited[j] < bound
    ensures !seedsSeen && !stopped ==>
      forall j, x :: 0 <= j < |visited| && x in Next(next, visited[j]) ==> x in visited[|seeds|..]
    ensures seedsSeen && NoDup(seeds) ==> NoDup(visited)
    ensures visited <= BfsOrder(seeds, next, seedsSeen, bound)
    ensures !stopped ==> visited == BfsOrder(seeds, next, seedsSeen, bound)
  {
    var ms, k;
    ghost var memo;
    ms, k, stopped, memo := RunQueue(seeds, next, stop, bound, seedsSeen);
    visited := if stopped then ms[..k + 1] else ms;
    TraverseEnd(seeds, next, stop, bound, seedsSeen, memo, ms, k, visited, stopped);
  }

  /** The loop of `Traverse`: it ends with `ms[k]` the module the visitor stopped at, or with
      every queued module visited. */
  method RunQueue(seeds: seq<nat>, next: seq<seq<nat>>, stop: seq<bool>, bound: nat, seedsSeen: bool)
    returns (ms: seq<nat>, k: nat, stopped: bool, ghost memoOut: set<nat>)
    requires forall k :: 0 <= k < |seeds| ==> seeds[k] < bound
    requires forall m, x :: 0 <= m < bound && x in Next(next, m) ==> x < bound
    ensures TraverseInv(seeds, next, stop, bound, seedsSeen, memoOut, ms, k)
    ensures stopped ==> k < |ms| && Stop(stop, ms[k])
    ensures !stopped ==> k == |ms|
  {
    var memo;
    memo, ms := StartQueue(seeds, next, stop, bound, seedsSeen);
    k, stopped := 0, false;
    while k < |ms|
      invariant TraverseInv(seeds, next, stop, bound, seedsSeen, memo, ms, k)
      decreases bound - |memo|, |ms| - k
    {
      BoundedSetCardinality(memo, bound);
      if Stop(stop, ms[k]) {
        stopped := true;
        break;
      }
      memo, ms := VisitNext(seeds, next, stop, bound, seedsSeen, memo, ms, k);
      k := k + 1;
    }
    memoOut := memo;
  }

  /** The queue and memo before the first round of `Traverse`. */
  method StartQueue(seeds: seq<nat>, next: seq<seq<nat>>, stop: seq<bool>, bound: nat, seedsSeen: bool)
    returns (memo: set<nat>, ms: seq<nat>)
    requires forall k :: 0 <= k < |seeds| ==> seeds[k] < bound
    ensures TraverseInv(seeds, next, stop, bound, seedsSeen, memo, ms, 0)
  {
    memo, ms := FirstMemo(seeds, seedsSeen), seeds;
    TraverseStart(seeds, next, stop, bound, seedsSeen, memo);
  }

  /** One round of the loop of `Traverse`: visit `ms[k]`, which does not stop the traversal,
      by queueing its unseen neighbours. */
  method VisitNext(seeds: seq<nat>, next: seq<seq<nat>>, stop: seq<bool>, bound: nat, seedsSeen: bool,
                   memo: set<nat>, ms: seq<nat>, k: nat)
    returns (memo2: set<nat>, ms2: seq<nat>)
    requires forall m, x :: 0 <= m < bound && x in Next(next, m) ==> x < bound
    requires TraverseInv(seeds, next, stop, bound, seedsSeen, memo, ms, k) && k < |ms| && !Stop(stop, ms[k])
    ensures TraverseInv(seeds, next, stop, bound, seedsSeen, memo2, ms2, k + 1)
    ensures |memo2| - |memo| == |ms2| - |ms| && |memo| <= |memo2| <= bound
  {
    ghost var added;
    memo2, ms2, added := EnqueueUnseen(memo, ms, Next(next, ms[k]));
    TraverseStep(seeds, next, stop, bound, seedsSeen, memo, ms, k, added, memo2);
    BoundedSetCardinality(memo2, bound);
  }

  /** What the invariants say once the loop ends, by running out of modules or by
      stopping at `ms[k]`. */
  lemma TraverseEnd(seeds: seq<nat>, next: seq<seq<nat>>, stop: seq<bool>, bound: nat, seedsSeen: bool,
                    memo: set<nat>, ms: seq<nat>, k: nat, visited: seq<nat>, stopped: bool)
    requires TraverseInv(seeds, next, stop, bound, seedsSeen, memo, ms, k)
    requires stopped ==> k < |ms| && Stop(stop, ms[k]) && visited == ms[..k + 1]
    requires !stopped ==> k == |ms| && visited == ms
    ensures Walk(seeds, next, stop, visited, stopped)
    ensures forall j :: 0 <= j < |visited| ==> visited[j] < bound
    ensures !seedsSeen && !stopped ==>
      forall j, x :: 0 <= j < |visited| && x in Next(next, visited[j]) ==> x in visited[|seeds|..]
    ensures seedsSeen && NoDup(seeds) ==> NoDup(visited)
    ensures visited <= BfsOrder(seeds, next, seedsSeen, bound)
    ensures !stopped ==> visited == BfsOrder(seeds, next, seedsSeen, bound)
  {
    OrderEnd(seeds, next, bound, seedsSeen, memo, ms, k, visited, stopped);
    DerivationOf(seeds, next, bound, memo, ms, k, visited);
    if seedsSeen && NoDup(seeds) {
      assert NoDup(visited) by {
        forall i, j | 0 <= i < j < |visited| ensures visited[i] != visited[j] {
          assert visited[i] == ms[i] && visited[j] == ms[j];
        }
      }
    }
  }

  /** The traversal visits in breadth-first order: the whole of it when not stopped, and
      otherwise the part up to the module it stopped at. */
  lemma OrderEnd(seeds: seq<nat>, next: seq<seq<nat>>, bound: nat, seedsSeen: bool,
                 memo: set<nat>, ms: seq<nat>, k: nat, visited: seq<nat>, stopped: bool)
    requires QueueAt(seeds, next, seedsSeen, memo, ms, k)
    requires |ms| <= |seeds| + |memo| && forall x :: x in memo ==> x < bound
    requires stopped ==> k < |ms| && visited == ms[..k + 1]
    requires !stopped ==> k == |ms| && visited == ms
    ensures visited <= BfsOrder(seeds, next, seedsSeen, bound)
    ensures !stopped ==> visited == BfsOrder(seeds, next, seedsSeen, bound)
  {
    BoundedSetCardinality(memo, bound);
    assert Queue(seeds, next, seedsSeen, k) == (ms, memo);
    if stopped {
      QueuePrefix(seeds, next, seedsSeen, k, |seeds| + bound);
    } else {
      QueueSettled(seeds, next, seedsSeen, k, |seeds| + bound);
    }
  }

  /** A prefix of the queue that covers the seeds, or any prefix once all seeds are visited,
      is a derivation. */
  lemma DerivationOf(seeds: seq<nat>, next: seq<seq<nat>>, bound: nat,
                     memo: set<nat>, ms: seq<nat>, k: nat, visited: seq<nat>)
    requires ShapeInv(seeds, bound, memo, ms) && FoundInv(seeds, next, ms, k)
    requires |visited| <= |ms| && visited == ms[..|visited|]
    ensures Derivation(seeds, next, visited) && RevisitsOnlySeeds(seeds, visited)
  {
    forall i, j | 0 <= i < j < |visited| && visited[i] == visited[j] ensures visited[i] in seeds {
      assert ms[i] == visited[i] && ms[j] == visited[j];
    }
    forall j | 0 <= j < |visited| && |seeds| <= j ensures FoundBy(next, visited, j, j) {
      assert FoundBy(next, ms, j, k);
      var i :| 0 <= i < j && i < k && ms[j] in Next(next, ms[i]);
      assert visited[i] == ms[i] && visited[j] == ms[j];
    }
    forall j | 0 <= j < |visited| && j < |seeds| ensures visited[j] == seeds[j] {
      assert ms[j] == ms[..|seeds|][j];
    }
  }
}
