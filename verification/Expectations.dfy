// Expectations and their prerequisites
// (submodules/googletest/googlemock/src/gmock-spec-builders.cc).
module Expectations {

  class ExpectationBase {
    var retired: bool
    var satisfied: bool  // the answer of IsSatisfied()
    var immediatePrerequisites: set<ExpectationBase>

    constructor (satisfied: bool)
      ensures !retired && this.satisfied == satisfied && immediatePrerequisites == {}
    {
      this.satisfied := satisfied;
      retired, immediatePrerequisites := false, {};
    }

    method Retire(ghost all: set<ExpectationBase>)
      requires this in all
      modifies this`retired
      ensures retired && Retired(all) == old(Retired(all)) + {this}
    {
      retired := true;
    }

    // Retires everything that must come before this expectation.
    method RetireAllPreRequisites(ghost all: set<ExpectationBase>)
      requires this in all && WellFormed(GraphOf(all)) && Closed(GraphOf(all), Retired(all))
      modifies all`retired
      ensures GraphOf(all) == old(GraphOf(all))
      ensures forall x :: x in all ==> (x.retired <==> old(x.retired) || Needs(GraphOf(all), this, x))
      ensures Closed(GraphOf(all), Retired(all))
    {
      hide Needs, Closed, WellFormed, Retiring, GraphOf, Retired;
      GraphAt(all, this);
      RetiredAll(all);
      ghost var g, r0 := GraphOf(all), Retired(all);
      if retired {
        AlreadyRetired(g, r0, this);
        return;
      }
      var expectations := [this];
      Begun(g, this, r0);
      while expectations != []
        invariant GraphOf(all) == g && Retiring(g, this, r0, Retired(all), expectations, {}) && Retired(all) <= all
        decreases all - Retired(all), |expectations|
      {
        ghost var r, work := Retired(all), expectations;
        Popped(g, this, r0, r, expectations);
        var exp := expectations[|expectations| - 1];
        expectations := expectations[..|expectations| - 1];
        GraphAt(all, exp);
        var rest := exp.immediatePrerequisites;
        while rest != {}
          invariant GraphOf(all) == g && Retiring(g, this, r0, Retired(all), expectations, rest)
          invariant r <= Retired(all) <= all && (r == Retired(all) ==> |expectations| < |work|)
          decreases |rest|
        {
          var next :| next in rest;
          Looked(g, this, r0, Retired(all), expectations, rest, next);
          RetiredAll(all);
          rest := rest - {next};
          if !next.retired {
            next.Retire(all);
            expectations := expectations + [next];
          }
        }
      }
      RetiredAll(all);
      Ended(g, this, r0, Retired(all));
    }

    // Whether everything that must come before this expectation has been satisfied. The walk
    // visits a prerequisite once for each way to reach it; PrerequisiteWalks says when it ends.
    method AllPrerequisitesAreSatisfied(ghost all: set<ExpectationBase>) returns (result: bool)
      requires this in all && WellFormed(GraphOf(all))
      requires !CycleAhead(Passable(GraphOf(all), Satisfied(all)), this)
      ensures result <==> forall x :: x in all && Needs(GraphOf(all), this, x) ==> x.satisfied
    {
      hide Needs, WellFormed, CycleAhead, Passable, Checking, Affordable, Work, Within;
      ghost var g, satisfied := GraphOf(all), Satisfied(all);
      ghost var h := Passable(g, satisfied);
      var expectations := [this];
      CheckBegun(g, this, satisfied);
      WithinBegun(h, this);
      PassableAt(g, satisfied);
      while expectations != []
        invariant Checking(g, this, satisfied, expectations, {}) && Within(h, this, expectations)
        decreases Work(h, expectations)
      {
        ghost var before := expectations;
        CheckPopped(g, this, satisfied, expectations);
        ghost var most := Pay(h, this, expectations);
        var exp := expectations[|expectations| - 1];
        expectations := expectations[..|expectations| - 1];
        var rest := exp.immediatePrerequisites;
        while rest != {}
          invariant Checking(g, this, satisfied, expectations, rest) && rest <= g[exp]
          invariant g[exp] <= rest + satisfied
          invariant g[exp] <= satisfied ==>
                      Affordable(h, expectations, rest, most, Work(h, before)) && Within(h, this, expectations)
          decreases |rest|
        {
          var next :| next in rest;
          CheckLooked(g, this, satisfied, expectations, rest, next);
          if g[exp] <= satisfied {
            Spend(h, expectations, rest, most, Work(h, before), next);
            WithinMore(h, this, before, expectations, next);
          }
          rest := rest - {next};
          if !next.satisfied { return false; }
          expectations := expectations + [next];
        }
        Paid(h, expectations, most, Work(h, before));
      }
      CheckEnded(g, this, satisfied);
      return true;
    }
  }

  // ---------- The graph of prerequisites ----------

  type Graph = map<ExpectationBase, set<ExpectationBase>>

  ghost function GraphOf(all: set<ExpectationBase>): Graph
    reads all`immediatePrerequisites
  {
    map e: ExpectationBase | e in all :: e.immediatePrerequisites
  }

  lemma GraphAt(all: set<ExpectationBase>, e: ExpectationBase)
    ensures GraphOf(all).Keys == all
    ensures e in all ==> GraphOf(all)[e] == e.immediatePrerequisites
  {
  }

  ghost function Retired(all: set<ExpectationBase>): set<ExpectationBase>
    reads all`retired
  {
    set e | e in all && e.retired
  }

  lemma RetiredAll(all: set<ExpectationBase>)
    ensures Retired(all) <= all && forall e :: e in all ==> (e in Retired(all) <==> e.retired)
  {
  }

  ghost function Satisfied(all: set<ExpectationBase>): set<ExpectationBase>
    reads all`satisfied
  {
    set e | e in all && e.satisfied
  }

  ghost predicate WellFormed(g: Graph) {
    forall e :: e in g ==> g[e] <= g.Keys
  }

  // t is reached from e over n prerequisites in between.
  ghost predicate Walk(g: Graph, e: ExpectationBase, t: ExpectationBase, n: nat) {
    e in g && if n == 0 then t in g[e] else exists m :: m in g[e] && Walk(g, m, t, n - 1)
  }

  // t is an immediate or transitive prerequisite of e.
  ghost predicate Needs(g: Graph, e: ExpectationBase, t: ExpectationBase) {
    exists n: nat :: Walk(g, e, t, n)
  }

  ghost predicate Acyclic(g: Graph) {
    forall e :: e in g ==> !Needs(g, e, e)
  }

  // What e needs, or e itself, needs itself.
  ghost predicate CycleAhead(g: Graph, e: ExpectationBase) {
    exists c :: c in g && (c == e || Needs(g, e, c)) && Needs(g, c, c)
  }

  // The links that a walk can take: it goes on only from expectations all of whose immediate
  // prerequisites are satisfied.
  ghost function Passable(g: Graph, satisfied: set<ExpectationBase>): Graph {
    map e | e in g :: if g[e] <= satisfied then g[e] else {}
  }

  lemma PassableAt(g: Graph, satisfied: set<ExpectationBase>)
    requires WellFormed(g)
    ensures var h := Passable(g, satisfied);
            && h.Keys == g.Keys && WellFormed(h)
            && forall e :: e in g ==> h[e] == if g[e] <= satisfied then g[e] else {}
  {
  }

  // Whatever is in the set, so are its prerequisites.
  ghost predicate Closed(g: Graph, s: set<ExpectationBase>) {
    forall e :: e in s && e in g ==> g[e] <= s
  }

  lemma NeedsDirect(g: Graph, e: ExpectationBase, t: ExpectationBase)
    requires e in g && t in g[e]
    ensures Needs(g, e, t)
  {
    assert Walk(g, e, t, 0);
  }

  lemma {:induction false} WalkOn(g: Graph, e: ExpectationBase, m: ExpectationBase, t: ExpectationBase, n: nat)
    requires Walk(g, e, m, n) && Needs(g, m, t)
    ensures Needs(g, e, t)
    decreases n
  {
    if n == 0 {
      var k: nat :| Walk(g, m, t, k);
      assert Walk(g, e, t, k + 1);
    } else {
      var m' :| m' in g[e] && Walk(g, m', m, n - 1);
      WalkOn(g, m', m, t, n - 1);
      var k: nat :| Walk(g, m', t, k);
      assert Walk(g, e, t, k + 1);
    }
  }

  lemma NeedsTrans(g: Graph, e: ExpectationBase, m: ExpectationBase, t: ExpectationBase)
    requires Needs(g, e, m) && Needs(g, m, t)
    ensures Needs(g, e, t)
  {
    var n: nat :| Walk(g, e, m, n);
    WalkOn(g, e, m, t, n);
  }

  lemma NeedsFirst(g: Graph, e: ExpectationBase, t: ExpectationBase)
    requires Needs(g, e, t)
    ensures e in g && (t in g[e] || exists m :: m in g[e] && Needs(g, m, t))
  {
    var n: nat :| Walk(g, e, t, n);
    if n > 0 {
      var m :| m in g[e] && Walk(g, m, t, n - 1);
    }
  }

  lemma {:induction false} WalkInside(g: Graph, s: set<ExpectationBase>, r: set<ExpectationBase>,
                                      e: ExpectationBase, t: ExpectationBase, n: nat)
    requires r <= s && forall x :: x in s && x in g ==> g[x] <= r
    requires e in s && Walk(g, e, t, n)
    ensures t in r
    decreases n
  {
    if n > 0 {
      var m :| m in g[e] && Walk(g, m, t, n - 1);
      WalkInside(g, s, r, m, t, n - 1);
    }
  }

  // From a set whose members have their prerequisites in r, nothing else is reached.
  lemma StaysInside(g: Graph, s: set<ExpectationBase>, r: set<ExpectationBase>, e: ExpectationBase)
    requires r <= s && forall x :: x in s && x in g ==> g[x] <= r
    requires e in s
    ensures forall t :: t in g && Needs(g, e, t) ==> t in r
  {
    forall t | t in g && Needs(g, e, t) ensures t in r {
      var n: nat :| Walk(g, e, t, n);
      WalkInside(g, s, r, e, t, n);
    }
  }

  // ---------- Retiring ----------

  // From the retired set r0 the worklist has led to r. All it retired, will look at next
  // (rest) or still has listed are prerequisites of e; what it is done with has no
  // prerequisite left but those in rest.
  ghost predicate Retiring(g: Graph, e: ExpectationBase, r0: set<ExpectationBase>, r: set<ExpectationBase>,
                           work: seq<ExpectationBase>, rest: set<ExpectationBase>)
  {
    && WellFormed(g) && Closed(g, r0) && e in g && r0 <= r <= g.Keys && rest <= g.Keys
    && (forall x :: x in r && x !in r0 ==> Needs(g, e, x))
    && (forall x :: x in rest ==> Needs(g, e, x))
    && (forall x :: x in work ==> x in g && (x == e || Needs(g, e, x)))
    && (forall x :: x in g && (x == e || (x in r && x !in r0)) && x !in work ==> g[x] <= r + rest)
  }

  lemma Begun(g: Graph, e: ExpectationBase, r0: set<ExpectationBase>)
    requires WellFormed(g) && Closed(g, r0) && e in g && r0 <= g.Keys
    ensures Retiring(g, e, r0, r0, [e], {})
  {
  }

  lemma Popped(g: Graph, e: ExpectationBase, r0: set<ExpectationBase>, r: set<ExpectationBase>, work: seq<ExpectationBase>)
    requires Retiring(g, e, r0, r, work, {}) && work != []
    ensures var exp := work[|work| - 1];
            exp in g && g[exp] <= g.Keys && Retiring(g, e, r0, r, work[..|work| - 1], g[exp])
  {
    var exp := work[|work| - 1];
    forall x | x in g[exp] ensures Needs(g, e, x) {
      NeedsDirect(g, exp, x);
      if exp != e { NeedsTrans(g, e, exp, x); }
    }
    hide Needs;
    forall x | x in work && x != exp ensures x in work[..|work| - 1] {
      var i :| 0 <= i < |work| && work[i] == x;
      assert work[..|work| - 1][i] == x;
    }
  }

  lemma Looked(g: Graph, e: ExpectationBase, r0: set<ExpectationBase>, r: set<ExpectationBase>,
               work: seq<ExpectationBase>, rest: set<ExpectationBase>, next: ExpectationBase)
    requires Retiring(g, e, r0, r, work, rest) && next in rest
    ensures next in g
    ensures next in r ==> Retiring(g, e, r0, r, work, rest - {next})
    ensures next !in r ==> Retiring(g, e, r0, r + {next}, work + [next], rest - {next})
  {
    hide Needs;
  }

  lemma Ended(g: Graph, e: ExpectationBase, r0: set<ExpectationBase>, r: set<ExpectationBase>)
    requires Retiring(g, e, r0, r, [], {})
    ensures Closed(g, r) && forall x :: x in g ==> (x in r <==> x in r0 || Needs(g, e, x))
  {
    hide Needs;
    assert forall x :: x in r0 && x in g ==> g[x] <= r;
    StaysInside(g, r + {e}, r, e);
  }

  lemma AlreadyRetired(g: Graph, r0: set<ExpectationBase>, e: ExpectationBase)
    requires Closed(g, r0) && e in r0
    ensures forall x :: x in g && Needs(g, e, x) ==> x in r0
  {
    StaysInside(g, r0, r0, e);
  }

  // ---------- Checking ----------

  // What e needs is satisfied, or still to be found from the worklist or from rest.
  ghost predicate Checking(g: Graph, e: ExpectationBase, satisfied: set<ExpectationBase>,
                           work: seq<ExpectationBase>, rest: set<ExpectationBase>)
  {
    && WellFormed(g) && e in g && rest <= g.Keys
    && (forall x :: x in work ==> x in g && (x == e || Needs(g, e, x)))
    && (forall x :: x in rest ==> Needs(g, e, x))
    && (forall t :: t in g && Needs(g, e, t) ==>
          t in satisfied || t in rest || AnyNeeds(g, work, t) || SomeNeeds(g, rest, t))
  }

  ghost predicate AnyNeeds(g: Graph, work: seq<ExpectationBase>, t: ExpectationBase) {
    exists w :: w in work && Needs(g, w, t)
  }

  ghost predicate SomeNeeds(g: Graph, rest: set<ExpectationBase>, t: ExpectationBase) {
    exists q :: q in rest && Needs(g, q, t)
  }

  lemma CheckBegun(g: Graph, e: ExpectationBase, satisfied: set<ExpectationBase>)
    requires WellFormed(g) && e in g
    ensures Checking(g, e, satisfied, [e], {})
  {
    hide Needs;
    assert e in [e];
  }

  lemma CheckPopped(g: Graph, e: ExpectationBase, satisfied: set<ExpectationBase>, work: seq<ExpectationBase>)
    requires Checking(g, e, satisfied, work, {}) && work != []
    ensures var exp := work[|work| - 1];
            exp in g && Checking(g, e, satisfied, work[..|work| - 1], g[exp])
  {
    hide Needs;
    var exp := work[|work| - 1];
    var work' := work[..|work| - 1];
    forall x | x in g[exp] ensures Needs(g, e, x) {
      NeedsDirect(g, exp, x);
      if exp != e { NeedsTrans(g, e, exp, x); }
    }
    forall x | x in work && x != exp ensures x in work' {
      var i :| 0 <= i < |work| && work[i] == x;
      assert work'[i] == x;
    }
    forall t | t in g && AnyNeeds(g, work, t) ensures t in g[exp] || AnyNeeds(g, work', t) || SomeNeeds(g, g[exp], t) {
      var w :| w in work && Needs(g, w, t);
      if w == exp { NeedsFirst(g, w, t); }
    }
  }

  lemma CheckLooked(g: Graph, e: ExpectationBase, satisfied: set<ExpectationBase>,
                    work: seq<ExpectationBase>, rest: set<ExpectationBase>, next: ExpectationBase)
    requires Checking(g, e, satisfied, work, rest) && next in rest
    ensures next in g && Needs(g, e, next)
    ensures next in satisfied ==> Checking(g, e, satisfied, work + [next], rest - {next})
  {
    hide Needs;
    forall t | AnyNeeds(g, work, t) || SomeNeeds(g, rest, t)
      ensures AnyNeeds(g, work + [next], t) || SomeNeeds(g, rest - {next}, t)
    {
      if SomeNeeds(g, rest, t) {
        var q :| q in rest && Needs(g, q, t);
        if q == next { assert next in work + [next]; }
      } else {
        var w :| w in work && Needs(g, w, t);
        assert w in work + [next];
      }
    }
  }

  lemma CheckEnded(g: Graph, e: ExpectationBase, satisfied: set<ExpectationBase>)
    requires Checking(g, e, satisfied, [], {})
    ensures forall t :: t in g && Needs(g, e, t) ==> t in satisfied
  {
  }

  // ---------- Why checking ends ----------

  ghost function Prerequisites(g: Graph, e: ExpectationBase): set<ExpectationBase> {
    set t | t in g && Needs(g, e, t)
  }

  function Power(b: nat, n: nat): (p: nat)
    ensures b > 0 ==> p > 0
  {
    if n == 0 then 1 else b * Power(b, n - 1)
  }

  lemma {:induction false} PowerGrows(b: nat, m: nat, n: nat)
    requires b > 0 && m <= n
    ensures Power(b, m) <= Power(b, n)
  {
    if m < n {
      PowerGrows(b, m, n - 1);
      assert Power(b, n) == b * Power(b, n - 1) >= Power(b, n - 1);
    }
  }

  // More than all its immediate prerequisites together.
  ghost function Weight(g: Graph, e: ExpectationBase): nat {
    Power(|g| + 1, |Prerequisites(g, e)|)
  }

  ghost function Work(g: Graph, work: seq<ExpectationBase>): nat {
    if work == [] then 0 else Weight(g, work[|work| - 1]) + Work(g, work[..|work| - 1])
  }

  // Putting the rest on the worklist keeps it below the limit.
  ghost predicate Affordable(g: Graph, work: seq<ExpectationBase>, rest: set<ExpectationBase>, most: nat, limit: nat) {
    && Work(g, work) + |rest| * most < limit
    && forall x :: x in rest ==> Weight(g, x) <= most
  }

  // A prerequisite that is on no cycle has fewer prerequisites.
  lemma FewerPrerequisites(g: Graph, e: ExpectationBase, x: ExpectationBase)
    requires WellFormed(g) && e in g && x in g[e] && !Needs(g, x, x)
    ensures |Prerequisites(g, x)| < |Prerequisites(g, e)|
  {
    hide Needs;
    NeedsDirect(g, e, x);
    forall t | t in Prerequisites(g, x) ensures t in Prerequisites(g, e) {
      NeedsTrans(g, e, x, t);
    }
    assert x in Prerequisites(g, e) && x !in Prerequisites(g, x);
    Smaller(Prerequisites(g, x), Prerequisites(g, e));
  }

  lemma Smaller(a: set<ExpectationBase>, b: set<ExpectationBase>)
    requires a < b
    ensures |a| < |b|
  {
    assert b == a + (b - a);
  }

  // The worklist holds nothing but e and what it needs.
  ghost predicate Within(g: Graph, e: ExpectationBase, work: seq<ExpectationBase>) {
    e in g && forall w :: w in work ==> w in g && (w == e || Needs(g, e, w))
  }

  lemma WithinBegun(g: Graph, e: ExpectationBase)
    ensures e in g ==> Within(g, e, [e])
  {
  }

  lemma WithinMore(g: Graph, e: ExpectationBase, before: seq<ExpectationBase>, work: seq<ExpectationBase>, x: ExpectationBase)
    requires WellFormed(g) && Within(g, e, before) && before != [] && Within(g, e, work)
    requires x in g[before[|before| - 1]]
    ensures Within(g, e, work + [x])
  {
    hide Needs;
    var exp := before[|before| - 1];
    NeedsDirect(g, exp, x);
    if exp != e { NeedsTrans(g, e, exp, x); }
  }

  lemma Pay(g: Graph, e: ExpectationBase, work: seq<ExpectationBase>) returns (most: nat)
    requires WellFormed(g) && !CycleAhead(g, e) && work != [] && Within(g, e, work)
    ensures work[|work| - 1] in g && Within(g, e, work[..|work| - 1])
    ensures Affordable(g, work[..|work| - 1], g[work[|work| - 1]], most, Work(g, work))
  {
    hide Needs, WellFormed;
    var exp := work[|work| - 1];
    assert exp in work;
    var n, b := |Prerequisites(g, exp)|, |g| + 1;
    forall x | x in g[exp] ensures n > 0 && Weight(g, x) <= Power(b, n - 1) {
      WithinMore(g, e, work, work, x);
      assert x in work + [x];
      FewerPrerequisites(g, exp, x);
      PowerGrows(b, |Prerequisites(g, x)|, n - 1);
    }
    if g[exp] == {} {
      most := 0;
    } else {
      most := Power(b, n - 1);
      AtMostAll(g, exp);
      assert |g[exp]| * most <= |g| * most < b * most;
    }
  }

  lemma AtMostAll(g: Graph, e: ExpectationBase)
    requires WellFormed(g) && e in g
    ensures |g[e]| <= |g|
  {
    assert g[e] <= g.Keys && |g.Keys| == |g|;
    if g[e] != g.Keys { Smaller(g[e], g.Keys); }
  }

  lemma Spend(g: Graph, work: seq<ExpectationBase>, rest: set<ExpectationBase>, most: nat, limit: nat, next: ExpectationBase)
    requires Affordable(g, work, rest, most, limit) && next in rest
    ensures Affordable(g, work + [next], rest - {next}, most, limit)
  {
    hide Needs, Weight;
    assert (work + [next])[..|work|] == work;
    assert |rest| * most == (|rest| - 1) * most + most;
  }

  lemma Paid(g: Graph, work: seq<ExpectationBase>, most: nat, limit: nat)
    requires Affordable(g, work, {}, most, limit)
    ensures Work(g, work) < limit
  {
  }

  // ---------- Sequences ----------

  class Sequence {
    var lastExpectation: ExpectationBase?

    constructor ()
      ensures lastExpectation == null
    {
      lastExpectation := null;
    }

    method AddExpectation(expectation: ExpectationBase, ghost all: set<ExpectationBase>)
      requires expectation in all
      modifies this, expectation`immediatePrerequisites
      ensures lastExpectation == expectation
      ensures GraphOf(all) == Added(old(GraphOf(all)), old(lastExpectation), expectation)
    {
      if lastExpectation != expectation {
        if lastExpectation != null {
          expectation.immediatePrerequisites := expectation.immediatePrerequisites + {lastExpectation};
        }
        lastExpectation := expectation;
      }
    }
  }

  function Added(g: Graph, last: ExpectationBase?, e: ExpectationBase): Graph
    requires e in g
  {
    if last == null || last == e then g else g[e := g[e] + {last}]
  }

  // What is needed after an addition: what was, and whatever leads through the new link.
  lemma {:induction false} WalkAdded(g: Graph, last: ExpectationBase, e: ExpectationBase,
                                     a: ExpectationBase, b: ExpectationBase, n: nat)
    requires e in g && last != e && Walk(Added(g, last, e), a, b, n)
    ensures Needs(g, a, b) || ((a == e || Needs(g, a, e)) && (b == last || Needs(g, last, b)))
    decreases n
  {
    hide Needs;
    if n == 0 {
      if b in g[a] { NeedsDirect(g, a, b); }
    } else {
      var m :| m in Added(g, last, e)[a] && Walk(Added(g, last, e), m, b, n - 1);
      WalkAdded(g, last, e, m, b, n - 1);
      if m in g[a] {
        NeedsDirect(g, a, m);
        if Needs(g, m, b) { NeedsTrans(g, a, m, b); }
        if Needs(g, m, e) { NeedsTrans(g, a, m, e); }
      }
    }
  }

  lemma {:induction false} WalkKept(g: Graph, last: ExpectationBase, e: ExpectationBase,
                                    a: ExpectationBase, b: ExpectationBase, n: nat)
    requires e in g && Walk(g, a, b, n)
    ensures Walk(Added(g, last, e), a, b, n)
    decreases n
  {
    if n > 0 {
      var m :| m in g[a] && Walk(g, m, b, n - 1);
      WalkKept(g, last, e, m, b, n - 1);
    }
  }

  lemma NeedsKept(g: Graph, last: ExpectationBase, e: ExpectationBase, a: ExpectationBase, b: ExpectationBase)
    requires e in g && Needs(g, a, b)
    ensures Needs(Added(g, last, e), a, b)
  {
    var n: nat :| Walk(g, a, b, n);
    WalkKept(g, last, e, a, b, n);
  }

  // An addition makes a cycle exactly when the last expectation of the sequence already
  // needed the new one.
  lemma AcyclicExactly(g: Graph, last: ExpectationBase, e: ExpectationBase)
    requires e in g && last in g && last != e && Acyclic(g)
    ensures Acyclic(Added(g, last, e)) <==> !Needs(g, last, e)
  {
    hide Needs;
    var g' := Added(g, last, e);
    if Needs(g, last, e) {
      NeedsKept(g, last, e, last, e);
      NeedsDirect(g', e, last);
      NeedsTrans(g', e, last, e);
    } else {
      forall a | a in g' ensures !Needs(g', a, a) {
        if Needs(g', a, a) {
          var n: nat := AWalk(g', a, a);
          WalkAdded(g, last, e, a, a, n);
          if Needs(g, last, a) && Needs(g, a, e) { NeedsTrans(g, last, a, e); }
        }
      }
    }
  }

  lemma AWalk(g: Graph, a: ExpectationBase, b: ExpectationBase) returns (n: nat)
    requires Needs(g, a, b)
    ensures Walk(g, a, b, n)
  {
    n :| Walk(g, a, b, n);
  }

  // ---------- Whole sequences ----------

  function AddedAll(g: Graph, last: ExpectationBase?, es: seq<ExpectationBase>): Graph
    requires forall e :: e in es ==> e in g
    decreases |es|
  {
    if es == [] then g else AddedAll(Added(g, last, es[0]), es[0], es[1..])
  }

  predicate Distinct(es: seq<ExpectationBase>) {
    forall i, j :: 0 <= i < j < |es| ==> es[i] != es[j]
  }

  lemma {:induction false} NeedsKeptByAll(g: Graph, last: ExpectationBase?, es: seq<ExpectationBase>,
                                          a: ExpectationBase, b: ExpectationBase)
    requires (forall e :: e in es ==> e in g) && Needs(g, a, b)
    ensures Needs(AddedAll(g, last, es), a, b)
    decreases |es|
  {
    hide Needs;
    if es != [] {
      if last != null { NeedsKept(g, last, es[0], a, b); }
      NeedsKeptByAll(Added(g, last, es[0]), es[0], es[1..], a, b);
    }
  }

  // Every expectation of a sequence needs all the earlier ones.
  lemma {:induction false} SequenceInOrder(g: Graph, last: ExpectationBase?, es: seq<ExpectationBase>, i: nat, j: nat)
    requires (forall e :: e in es ==> e in g) && Distinct(es) && i < j < |es|
    ensures Needs(AddedAll(g, last, es), es[j], es[i])
    decreases |es|
  {
    hide Needs;
    var g1 := Added(g, last, es[0]);
    if i > 0 {
      SequenceInOrder(g1, es[0], es[1..], i - 1, j - 1);
    } else {
      var g2 := Added(g1, es[0], es[1]);
      NeedsDirect(g2, es[1], es[0]);
      NeedsKeptByAll(g2, es[1], es[1..][1..], es[1], es[0]);
      assert AddedAll(g, last, es) == AddedAll(g2, es[1], es[1..][1..]);
      if j > 1 {
        SequenceInOrder(g1, es[0], es[1..], 0, j - 1);
        NeedsTrans(AddedAll(g, last, es), es[j], es[1], es[0]);
      }
    }
  }

  ghost predicate Unneeded(g: Graph, e: ExpectationBase) {
    forall x :: x in g ==> e !in g[x]
  }

  lemma {:induction false} NobodyWalks(g: Graph, x: ExpectationBase, e: ExpectationBase, n: nat)
    requires Unneeded(g, e)
    ensures !Walk(g, x, e, n)
    decreases n
  {
    if n > 0 && Walk(g, x, e, n) {
      var m :| m in g[x] && Walk(g, m, e, n - 1);
      NobodyWalks(g, m, e, n - 1);
    }
  }

  // Expectations that nothing needs yet can be put in sequence without making a cycle.
  lemma {:induction false} SequenceAcyclic(g: Graph, last: ExpectationBase?, es: seq<ExpectationBase>)
    requires (forall e :: e in es ==> e in g && Unneeded(g, e) && e != last) && Distinct(es)
    requires Acyclic(g) && (last != null ==> last in g)
    ensures Acyclic(AddedAll(g, last, es))
    decreases |es|
  {
    hide Acyclic;
    if es != [] {
      if last != null {
        forall n: nat ensures !Walk(g, last, es[0], n) {
          NobodyWalks(g, last, es[0], n);
        }
        AcyclicExactly(g, last, es[0]);
      }
      forall e | e in es[1..] ensures e in es && e != es[0] && Unneeded(Added(g, last, es[0]), e) {
        var i :| 0 <= i < |es[1..]| && es[1..][i] == e;
        assert es[i + 1] == e;
      }
      SequenceAcyclic(Added(g, last, es[0]), es[0], es[1..]);
    }
  }
}
