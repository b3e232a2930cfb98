/** The naming registry: a two-way map between readable names and the graph's addressable
    elements, with a generator of the first unused name for a prefix. */
module Scopes {
  import opened Base
  import OrderedSets

  /** The addressable elements of a graph arena, by kind and arena index. */
  datatype Elem = Mod(m: nat) | In(i: nat) | Out(o: nat) | Hyp(h: nat)

  /** The decimal digit character for `d`. */
  function DigitChar(d: nat): (c: char)
    requires d < 10
    ensures '0' <= c <= '9'
  {
    ('0' as int + d) as char
  }

  /** Python's `str` on a non-negative int: its decimal digits, without leading zeros. */
  function NatToString(n: nat): (s: string)
    ensures 1 <= |s|
    ensures (|s| == 1) == (n < 10)
    decreases n
  {
    if n < 10 then [DigitChar(n)] else NatToString(n / 10) + [DigitChar(n % 10)]
  }

  /** Distinct numbers print differently. */
  lemma {:induction false} NatToStringInjective(a: nat, b: nat)
    requires NatToString(a) == NatToString(b)
    ensures a == b
    decreases a
  {
    var s := NatToString(a);
    if 10 <= a {
      assert 10 <= b;
      assert DigitChar(a % 10) == s[|s| - 1] == DigitChar(b % 10);
      assert NatToString(a / 10) == s[..|s| - 1] == NatToString(b / 10);
      NatToStringInjective(a / 10, b / 10);
    }
  }

  /** The `i`-th name `GetUnusedName` tries for `prefix`. */
  function Candidate(prefix: string, i: nat): string
  {
    prefix + NatToString(i)
  }

  lemma CandidateInjective(prefix: string, a: nat, b: nat)
    requires Candidate(prefix, a) == Candidate(prefix, b)
    ensures a == b
  {
    assert Candidate(prefix, a)[|prefix|..] == NatToString(a);
    assert Candidate(prefix, b)[|prefix|..] == NatToString(b);
    NatToStringInjective(a, b);
  }

  /** The first `i` names tried for `prefix`. */
  ghost function CandidatesBelow(prefix: string, i: nat): set<string>
  {
    set k | 0 <= k < i :: Candidate(prefix, k)
  }

  /** The first `i` names tried are `i` distinct names. */
  lemma {:induction false} CandidatesBelowCount(prefix: string, i: nat)
    ensures |CandidatesBelow(prefix, i)| == i
  {
    if i > 0 {
      CandidatesBelowCount(prefix, i - 1);
      assert CandidatesBelow(prefix, i) == CandidatesBelow(prefix, i - 1) + {Candidate(prefix, i - 1)};
      if Candidate(prefix, i - 1) in CandidatesBelow(prefix, i - 1) {
        var k :| 0 <= k < i - 1 && Candidate(prefix, k) == Candidate(prefix, i - 1);
        CandidateInjective(prefix, k, i - 1);
      }
    }
  }

  /** `i` is the smallest index whose candidate name is not in `names`. */
  ghost predicate FirstUnused(names: set<string>, prefix: string, i: nat)
  {
    Candidate(prefix, i) !in names && forall k :: 0 <= k < i ==> Candidate(prefix, k) in names
  }

  /** There is only one first unused index, so the generated name is determined by the
      registered names and the prefix. */
  lemma FirstUnusedUnique(names: set<string>, prefix: string, i: nat, j: nat)
    requires FirstUnused(names, prefix, i) && FirstUnused(names, prefix, j)
    ensures i == j
  {
  }

  class Scope {
    var nameToElem: map<string, Elem>
    var elemToName: map<Elem, string>

    /** Every element's name leads back to it, and every registered name names a
        registered element (an element registered twice keeps its latest name). */
    ghost predicate Valid()
      reads this
    {
      && (forall e :: e in elemToName ==> elemToName[e] in nameToElem && nameToElem[elemToName[e]] == e)
      && (forall n :: n in nameToElem ==> nameToElem[n] in elemToName)
    }

    constructor ()
      ensures Valid() && nameToElem == map[] && elemToName == map[]
    {
      nameToElem := map[];
      elemToName := map[];
    }

    /** The name registered for `elem`; a lookup error when there is none. */
    function GetName(elem: Elem): (r: Result<string>)
      requires Valid()
      reads this
      ensures r.Fail? <==> elem !in elemToName
      ensures r.Ok? ==> r.value in nameToElem && nameToElem[r.value] == elem
    {
      if elem in elemToName then Ok(elemToName[elem]) else Fail(UnknownName)
    }

    /** The element registered under `name`; a lookup error when there is none. */
    function GetElem(name: string): (r: Result<Elem>)
      requires Valid()
      reads this
      ensures r.Fail? <==> name !in nameToElem
      ensures r.Ok? ==> r.value in elemToName
    {
      if name in nameToElem then Ok(nameToElem[name]) else Fail(UnknownName)
    }

    /** Registers `elem` under `name`; fails, changing nothing, when the name is taken. */
    method Register(name: string, elem: Elem) returns (out: Outcome)
      requires Valid()
      modifies this
      ensures Valid()
      ensures out == if name in old(nameToElem) then Failure(DuplicateName) else Pass
      ensures out.Failure? ==> nameToElem == old(nameToElem) && elemToName == old(elemToName)
      ensures out.Pass? ==> nameToElem == old(nameToElem)[name := elem]
      ensures out.Pass? ==> elemToName == old(elemToName)[elem := name]
      ensures out.Pass? ==> GetElem(name) == Ok(elem) && GetName(elem) == Ok(name)
    {
      if name in nameToElem {
        return Failure(DuplicateName);
      }
      nameToElem := nameToElem[name := elem];
      elemToName := elemToName[elem := name];
      out := Pass;
    }

    /** `prefix` followed by the decimal form of the smallest non-negative `index` for
        which that name is not registered. */
    method GetUnusedName(prefix: string) returns (name: string, ghost index: nat)
      ensures name == Candidate(prefix, index)
      ensures FirstUnused(nameToElem.Keys, prefix, index)
      ensures name !in nameToElem
    {
      var i := 0;
      name := prefix + NatToString(i);
      while name in nameToElem
        invariant name == Candidate(prefix, i)
        invariant forall k :: 0 <= k < i ==> Candidate(prefix, k) in nameToElem
        decreases |nameToElem.Keys| - i
      {
        CandidatesBelowCount(prefix, i + 1);
        assert CandidatesBelow(prefix, i + 1) <= nameToElem.Keys;
        OrderedSets.SubsetCardinality(CandidatesBelow(prefix, i + 1), nameToElem.Keys);
        i := i + 1;
        name := prefix + NatToString(i);
      }
      index := i;
    }
  }

  /** Registering a taken name fails and leaves the first registration in place. */
  method DuplicateNameScenario(x: Elem, y: Elem) returns (second: Outcome, nameOfX: Result<string>)
    ensures second == Failure(DuplicateName)
    ensures nameOfX == Ok("a")
  {
    var s := new Scope();
    var first := s.Register("a", x);
    second := s.Register("a", y);
    nameOfX := s.GetName(x);
  }

  /** Asking twice for an unused name, registering nothing in between, gives one name. */
  method UnusedNameTwice(s: Scope, prefix: string) returns (a: string, b: string)
    ensures a == b && a !in s.nameToElem
  {
    ghost var i, j;
    a, i := s.GetUnusedName(prefix);
    b, j := s.GetUnusedName(prefix);
    FirstUnusedUnique(s.nameToElem.Keys, prefix, i, j);
  }
}
