// When the walk of AllPrerequisitesAreSatisfied ends, over all its runs
// (submodules/googletest/googlemock/src/gmock-spec-builders.cc).
module PrerequisiteWalks {
  import opened Expectations

  // One turn of the outer loop that finds nothing unsatisfied: the last expectation of the
  // worklist gives way to its prerequisites, in any order.
  ghost predicate Turn(g: Graph, satisfied: set<ExpectationBase>, work: seq<ExpectationBase>, work': seq<ExpectationBase>) {
    && work != [] && work[|work| - 1] in g && g[work[|work| - 1]] <= satisfied
    && work[..|work| - 1] <= work'
    && multiset(work'[|work| - 1..]) == multiset(g[work[|work| - 1]])
  }

  // The worklists of a run from e, turn by turn. No turn leads on from an empty worklist, nor
  // from an expectation with an unsatisfied prerequisite, where the walk returns.
  ghost predicate IsRun(g: Graph, satisfied: set<ExpectationBase>, e: ExpectationBase, run: seq<seq<ExpectationBase>>) {
    && run != [] && run[0] == [e]
    && forall i :: 0 <= i < |run| - 1 ==> Turn(g, satisfied, run[i], run[i + 1])
  }

  function Last(run: seq<seq<ExpectationBase>>): seq<ExpectationBase>
    requires run != []
  {
    run[|run| - 1]
  }

  // A run that ends with the answer true.
  ghost predicate Empties(g: Graph, satisfied: set<ExpectationBase>, e: ExpectationBase, run: seq<seq<ExpectationBase>>) {
    IsRun(g, satisfied, e, run) && Last(run) == []
  }

  lemma RunBack(g: Graph, satisfied: set<ExpectationBase>, e: ExpectationBase, run: seq<seq<ExpectationBase>>)
    requires IsRun(g, satisfied, e, run) && |run| > 1
    ensures IsRun(g, satisfied, e, run[..|run| - 1]) && Turn(g, satisfied, Last(run[..|run| - 1]), Last(run))
  {
    hide Turn;
  }

  lemma RunOn(g: Graph, satisfied: set<ExpectationBase>, e: ExpectationBase, run: seq<seq<ExpectationBase>>,
              work: seq<ExpectationBase>)
    requires IsRun(g, satisfied, e, run) && Turn(g, satisfied, Last(run), work)
    ensures IsRun(g, satisfied, e, run + [work]) && Last(run + [work]) == work
  {
    hide Turn;
    var longer := run + [work];
    forall i | 0 <= i < |longer| - 1 ensures Turn(g, satisfied, longer[i], longer[i + 1]) {
      if i < |run| - 1 { assert longer[i] == run[i] && longer[i + 1] == run[i + 1]; }
    }
  }

  lemma TurnParts(g: Graph, satisfied: set<ExpectationBase>, work: seq<ExpectationBase>, work': seq<ExpectationBase>)
    requires Turn(g, satisfied, work, work')
    ensures var n := |work| - 1;
            && work[n] in g && work' == work[..n] + work'[n..]
            && (forall x :: x in work'[n..] <==> x in g[work[n]])
            && (forall x :: x in work ==> x == work[n] || x in work[..n])
  {
    var n := |work| - 1;
    forall x ensures x in work'[n..] <==> x in g[work[n]] {
      assert x in multiset(work'[n..]) <==> x in multiset(g[work[n]]);
    }
    assert work == work[..n] + [work[n]];
  }

  // ---------- Cycles keep a run going ----------

  ghost predicate LeadsTo(g: Graph, work: seq<ExpectationBase>, c: ExpectationBase) {
    exists w :: w in work && Needs(g, w, c)
  }

  lemma TurnLeads(g: Graph, satisfied: set<ExpectationBase>, work: seq<ExpectationBase>, work': seq<ExpectationBase>,
                  c: ExpectationBase)
    requires Needs(g, c, c) && LeadsTo(g, work, c) && Turn(g, satisfied, work, work')
    ensures LeadsTo(g, work', c)
  {
    TurnParts(g, satisfied, work, work');
    hide Needs, Turn;
    var n := |work| - 1;
    var w :| w in work && Needs(g, w, c);
    if w in work[..n] {
      assert w in work';
    } else {
      NeedsFirst(g, w, c);
      var m :| m in g[w] && Needs(g, m, c);
      assert m in work'[n..];
    }
  }

  // With a cycle ahead, no number of turns empties the worklist.
  lemma {:induction false} CycleNeverEnds(g: Graph, satisfied: set<ExpectationBase>, e: ExpectationBase,
                                          run: seq<seq<ExpectationBase>>, c: ExpectationBase)
    requires IsRun(g, satisfied, e, run) && (c == e || Needs(g, e, c)) && Needs(g, c, c)
    ensures LeadsTo(g, Last(run), c) && Last(run) != []
    decreases |run|
  {
    hide Needs, Turn, IsRun;
    if |run| == 1 {
      RunStart(g, satisfied, e, run);
      assert e in Last(run);
    } else {
      RunStart(g, satisfied, e, run);
      RunBack(g, satisfied, e, run);
      CycleNeverEnds(g, satisfied, e, run[..|run| - 1], c);
      TurnLeads(g, satisfied, Last(run[..|run| - 1]), Last(run), c);
    }
  }

  lemma RunStart(g: Graph, satisfied: set<ExpectationBase>, e: ExpectationBase, run: seq<seq<ExpectationBase>>)
    requires IsRun(g, satisfied, e, run)
    ensures run != [] && run[0] == [e]
  {
  }

  // ---------- Without a cycle every run is short ----------

  lemma {:induction false} SpendAll(g: Graph, work: seq<ExpectationBase>, pushed: seq<ExpectationBase>,
                                    rest: set<ExpectationBase>, most: nat, limit: nat)
    requires Affordable(g, work, rest, most, limit) && multiset(pushed) == multiset(rest)
    ensures Work(g, work + pushed) < limit
    decreases |pushed|
  {
    hide Work, Weight;
    if pushed == [] {
      assert work + pushed == work && |multiset(rest)| == |rest|;
      Paid(g, work, most, limit);
    } else {
      var x := pushed[0];
      assert pushed == [x] + pushed[1..];
      assert x in multiset(pushed);
      assert multiset(pushed[1..]) == multiset(rest) - multiset{x} == multiset(rest - {x});
      Spend(g, work, rest, most, limit, x);
      SpendAll(g, work + [x], pushed[1..], rest - {x}, most, limit);
      assert work + [x] + pushed[1..] == work + pushed;
    }
  }

  // A turn of the walk over what can be passed costs something.
  lemma TurnPays(g: Graph, satisfied: set<ExpectationBase>, e: ExpectationBase,
                 work: seq<ExpectationBase>, work': seq<ExpectationBase>)
    requires WellFormed(g) && Turn(g, satisfied, work, work')
    requires var h := Passable(g, satisfied); !CycleAhead(h, e) && Within(h, e, work)
    ensures var h := Passable(g, satisfied); Within(h, e, work') && Work(h, work') < Work(h, work)
  {
    var h := Passable(g, satisfied);
    PassableAt(g, satisfied);
    TurnParts(g, satisfied, work, work');
    hide Needs, CycleAhead, Passable, Work, WellFormed;
    var n := |work| - 1;
    var most := Pay(h, e, work);
    SpendAll(h, work[..n], work'[n..], h[work[n]], most, Work(h, work));
    forall x | x in work' ensures x in h && (x == e || Needs(h, e, x)) {
      if x in work'[n..] {
        WithinMore(h, e, work, work, x);
        assert x in work + [x];
      } else {
        assert x in work[..n];
      }
    }
  }

  lemma {:induction false} RunBound(g: Graph, satisfied: set<ExpectationBase>, e: ExpectationBase,
                                    run: seq<seq<ExpectationBase>>)
    requires WellFormed(g) && e in g && !CycleAhead(Passable(g, satisfied), e) && IsRun(g, satisfied, e, run)
    ensures var h := Passable(g, satisfied);
            Within(h, e, Last(run)) && Work(h, Last(run)) + |run| <= Work(h, [e]) + 1
    decreases |run|
  {
    hide Needs, CycleAhead, Turn, IsRun, Work, WellFormed, Within, Passable;
    RunStart(g, satisfied, e, run);
    PassableAt(g, satisfied);
    if |run| == 1 {
      WithinBegun(Passable(g, satisfied), e);
    } else {
      RunBack(g, satisfied, e, run);
      RunBound(g, satisfied, e, run[..|run| - 1]);
      TurnPays(g, satisfied, e, Last(run[..|run| - 1]), Last(run));
    }
  }

  // ---------- With a cycle some run is as long as one likes ----------

  lemma {:induction false} Listed(s: set<ExpectationBase>) returns (q: seq<ExpectationBase>)
    ensures multiset(q) == multiset(s)
  {
    if s == {} {
      q := [];
    } else {
      var x :| x in s;
      q := Listed(s - {x});
      q := [x] + q;
      assert multiset(s) == multiset(s - {x}) + multiset{x};
    }
  }

  lemma ListedLast(s: set<ExpectationBase>, x: ExpectationBase) returns (q: seq<ExpectationBase>)
    requires x in s
    ensures multiset(q) == multiset(s) && q != [] && q[|q| - 1] == x
  {
    q := Listed(s - {x});
    q := q + [x];
    assert multiset(s) == multiset(s - {x}) + multiset{x};
  }

  lemma SomeTurn(g: Graph, satisfied: set<ExpectationBase>, work: seq<ExpectationBase>, pushed: seq<ExpectationBase>)
    requires work != [] && work[|work| - 1] in g && g[work[|work| - 1]] <= satisfied
    requires multiset(pushed) == multiset(g[work[|work| - 1]])
    ensures Turn(g, satisfied, work, work[..|work| - 1] + pushed)
  {
    assert (work[..|work| - 1] + pushed)[|work| - 1..] == pushed;
  }

  // Pushing last what leads to the cycle, the walk goes round it.
  lemma {:induction false} LongRun(g: Graph, satisfied: set<ExpectationBase>, e: ExpectationBase, c: ExpectationBase, n: nat)
    returns (run: seq<seq<ExpectationBase>>)
    requires WellFormed(g) && e in g
    requires var h := Passable(g, satisfied); (c == e || Needs(h, e, c)) && Needs(h, c, c)
    ensures IsRun(g, satisfied, e, run) && |run| == n + 1
    ensures Last(run) != [] && Needs(Passable(g, satisfied), Last(run)[|Last(run)| - 1], c)
  {
    var h := Passable(g, satisfied);
    PassableAt(g, satisfied);
    hide Needs, Turn, WellFormed, Passable;
    if n == 0 {
      run := [[e]];
    } else {
      run := LongRun(g, satisfied, e, c, n - 1);
      hide IsRun;
      var work := Last(run);
      var w := work[|work| - 1];
      NeedsFirst(h, w, c);
      assert c in h[w] ==> Needs(h, c, c);
      var m :| m in h[w] && Needs(h, m, c);
      var pushed := ListedLast(g[w], m);
      SomeTurn(g, satisfied, work, pushed);
      RunOn(g, satisfied, e, run, work[..|work| - 1] + pushed);
      run := run + [work[..|work| - 1] + pushed];
    }
  }

  // ---------- When the walk ends ----------

  // A bound on the worklists of a run.
  ghost function Longest(g: Graph, satisfied: set<ExpectationBase>, e: ExpectationBase): nat {
    Work(Passable(g, satisfied), [e]) + 1
  }

  // Whatever the order in which prerequisites are pushed, runs end within that bound if and
  // only if no cycle is ahead among expectations whose immediate prerequisites are all
  // satisfied; with one, LongRun exceeds every bound.
  lemma {:induction false} EndsExactly(g: Graph, satisfied: set<ExpectationBase>, e: ExpectationBase)
    requires WellFormed(g) && e in g
    ensures (forall run :: IsRun(g, satisfied, e, run) ==> |run| <= Longest(g, satisfied, e))
       <==> !CycleAhead(Passable(g, satisfied), e)
  {
    var h := Passable(g, satisfied);
    hide Needs, IsRun, Work, WellFormed, Passable;
    if CycleAhead(h, e) {
      var c :| c in h && (c == e || Needs(h, e, c)) && Needs(h, c, c);
      var run := LongRun(g, satisfied, e, c, Longest(g, satisfied, e));
    } else {
      forall run | IsRun(g, satisfied, e, run) ensures |run| <= Longest(g, satisfied, e) {
        RunBound(g, satisfied, e, run);
      }
    }
  }

  lemma {:induction false} CheckAll(g: Graph, e: ExpectationBase, satisfied: set<ExpectationBase>,
                                    work: seq<ExpectationBase>, pushed: seq<ExpectationBase>, rest: set<ExpectationBase>)
    requires Checking(g, e, satisfied, work, rest) && multiset(pushed) == multiset(rest) && rest <= satisfied
    ensures Checking(g, e, satisfied, work + pushed, {})
    decreases |pushed|
  {
    hide Checking;
    if pushed == [] {
      assert work + pushed == work && |multiset(rest)| == |rest|;
    } else {
      var x := pushed[0];
      assert pushed == [x] + pushed[1..];
      assert x in multiset(pushed);
      assert multiset(pushed[1..]) == multiset(rest) - multiset{x} == multiset(rest - {x});
      CheckLooked(g, e, satisfied, work, rest, x);
      CheckAll(g, e, satisfied, work + [x], pushed[1..], rest - {x});
      assert work + [x] + pushed[1..] == work + pushed;
    }
  }

  lemma {:induction false} RunChecks(g: Graph, satisfied: set<ExpectationBase>, e: ExpectationBase,
                                     run: seq<seq<ExpectationBase>>)
    requires WellFormed(g) && e in g && IsRun(g, satisfied, e, run)
    ensures Checking(g, e, satisfied, Last(run), {})
    decreases |run|
  {
    hide IsRun, Checking;
    RunStart(g, satisfied, e, run);
    if |run| == 1 {
      CheckBegun(g, e, satisfied);
    } else {
      RunBack(g, satisfied, e, run);
      RunChecks(g, satisfied, e, run[..|run| - 1]);
      var work, work' := Last(run[..|run| - 1]), Last(run);
      TurnParts(g, satisfied, work, work');
      CheckPopped(g, e, satisfied, work);
      CheckAll(g, e, satisfied, work[..|work| - 1], work'[|work| - 1..], g[work[|work| - 1]]);
    }
  }

  // What is needed over passable links is needed.
  lemma {:induction false} PassableWalk(g: Graph, satisfied: set<ExpectationBase>, a: ExpectationBase, b: ExpectationBase, n: nat)
    requires Walk(Passable(g, satisfied), a, b, n)
    ensures Walk(g, a, b, n)
    decreases n
  {
    if n > 0 {
      var m :| m in Passable(g, satisfied)[a] && Walk(Passable(g, satisfied), m, b, n - 1);
      PassableWalk(g, satisfied, m, b, n - 1);
    }
  }

  lemma PassableNeeds(g: Graph, satisfied: set<ExpectationBase>, a: ExpectationBase, b: ExpectationBase)
    requires Needs(Passable(g, satisfied), a, b)
    ensures Needs(g, a, b)
  {
    var n: nat :| Walk(Passable(g, satisfied), a, b, n);
    PassableWalk(g, satisfied, a, b, n);
  }

  lemma PassableCycle(g: Graph, satisfied: set<ExpectationBase>, e: ExpectationBase)
    requires CycleAhead(Passable(g, satisfied), e)
    ensures CycleAhead(g, e)
  {
    hide Needs;
    var h := Passable(g, satisfied);
    var c :| c in h && (c == e || Needs(h, e, c)) && Needs(h, c, c);
    PassableNeeds(g, satisfied, c, c);
    if c != e { PassableNeeds(g, satisfied, e, c); }
  }

  // While the worklist is not empty and all that is needed is satisfied, there is a turn.
  lemma {:induction false} RunToEnd(g: Graph, satisfied: set<ExpectationBase>, e: ExpectationBase,
                                    run: seq<seq<ExpectationBase>>)
    returns (run': seq<seq<ExpectationBase>>)
    requires WellFormed(g) && e in g && !CycleAhead(Passable(g, satisfied), e)
    requires forall t :: t in g && Needs(g, e, t) ==> t in satisfied
    requires IsRun(g, satisfied, e, run)
    ensures Empties(g, satisfied, e, run')
    decreases Work(Passable(g, satisfied), [e]) + 1 - |run|
  {
    hide Needs, IsRun, Work, Passable, CycleAhead, Checking;
    RunStart(g, satisfied, e, run);
    RunBound(g, satisfied, e, run);
    RunChecks(g, satisfied, e, run);
    var work := Last(run);
    if work == [] {
      run' := run;
    } else {
      CheckPopped(g, e, satisfied, work);
      NextSatisfied(g, e, satisfied, work[..|work| - 1], g[work[|work| - 1]]);
      var pushed := Listed(g[work[|work| - 1]]);
      SomeTurn(g, satisfied, work, pushed);
      var longer := run + [work[..|work| - 1] + pushed];
      RunOn(g, satisfied, e, run, work[..|work| - 1] + pushed);
      RunBound(g, satisfied, e, longer);
      run' := RunToEnd(g, satisfied, e, longer);
    }
  }

  lemma NextSatisfied(g: Graph, e: ExpectationBase, satisfied: set<ExpectationBase>,
                      work: seq<ExpectationBase>, rest: set<ExpectationBase>)
    requires Checking(g, e, satisfied, work, rest)
    requires forall t :: t in g && Needs(g, e, t) ==> t in satisfied
    ensures rest <= satisfied
  {
    hide Needs;
  }

  // Some run, in one order or another, empties the worklist if and only if all that e needs is
  // satisfied and no cycle is ahead. So with all of it satisfied, the answer true is reached
  // exactly without a cycle, and then in every order.
  lemma {:induction false} EmptiesExactly(g: Graph, satisfied: set<ExpectationBase>, e: ExpectationBase)
    requires WellFormed(g) && e in g
    ensures (exists run :: Empties(g, satisfied, e, run))
       <==> (forall t :: t in g && Needs(g, e, t) ==> t in satisfied) && !CycleAhead(g, e)
    ensures (forall t :: t in g && Needs(g, e, t) ==> t in satisfied) ==>
              ((forall run :: IsRun(g, satisfied, e, run) ==> |run| <= Longest(g, satisfied, e)) <==> !CycleAhead(g, e))
  {
    hide Needs, IsRun, WellFormed, Passable, Checking, Longest;
    forall run | Empties(g, satisfied, e, run)
      ensures !CycleAhead(g, e) && forall t :: t in g && Needs(g, e, t) ==> t in satisfied
    {
      RunChecks(g, satisfied, e, run);
      CheckEnded(g, e, satisfied);
      if CycleAhead(g, e) {
        var c :| c in g && (c == e || Needs(g, e, c)) && Needs(g, c, c);
        CycleNeverEnds(g, satisfied, e, run, c);
      }
    }
    if CycleAhead(Passable(g, satisfied), e) { PassableCycle(g, satisfied, e); }
    if (forall t :: t in g && Needs(g, e, t) ==> t in satisfied) && !CycleAhead(g, e) {
      RunBegins(g, satisfied, e);
      var run := RunToEnd(g, satisfied, e, [[e]]);
    }
    EndsExactly(g, satisfied, e);
    if (forall t :: t in g && Needs(g, e, t) ==> t in satisfied) && CycleAhead(g, e) {
      AllPassable(g, satisfied, e);
    }
  }

  lemma RunBegins(g: Graph, satisfied: set<ExpectationBase>, e: ExpectationBase)
    ensures IsRun(g, satisfied, e, [[e]])
  {
  }

  // With everything needed satisfied, every link ahead can be taken.
  lemma AllPassable(g: Graph, satisfied: set<ExpectationBase>, e: ExpectationBase)
    requires WellFormed(g) && e in g && CycleAhead(g, e)
    requires forall t :: t in g && Needs(g, e, t) ==> t in satisfied
    ensures CycleAhead(Passable(g, satisfied), e)
  {
    hide Needs;
    PassableAt(g, satisfied);
    var c :| c in g && (c == e || Needs(g, e, c)) && Needs(g, c, c);
    if c != e { PassableAhead(g, satisfied, e, e, c); }
    PassableAhead(g, satisfied, e, c, c);
  }

  lemma PassableAhead(g: Graph, satisfied: set<ExpectationBase>, e: ExpectationBase, a: ExpectationBase, b: ExpectationBase)
    requires WellFormed(g) && e in g && (a == e || Needs(g, e, a)) && Needs(g, a, b)
    requires forall t :: t in g && Needs(g, e, t) ==> t in satisfied
    ensures Needs(Passable(g, satisfied), a, b)
  {
    var n: nat :| Walk(g, a, b, n);
    WalkAhead(g, satisfied, e, a, b, n);
  }

  lemma {:induction false} WalkAhead(g: Graph, satisfied: set<ExpectationBase>, e: ExpectationBase,
                                     a: ExpectationBase, b: ExpectationBase, n: nat)
    requires WellFormed(g) && e in g && (a == e || Needs(g, e, a)) && Walk(g, a, b, n)
    requires forall t :: t in g && Needs(g, e, t) ==> t in satisfied
    ensures Walk(Passable(g, satisfied), a, b, n)
    decreases n
  {
    hide Needs, Passable;
    PassableAt(g, satisfied);
    forall x | x in g[a] ensures x in satisfied && Needs(g, e, x) {
      NeedsDirect(g, a, x);
      if a != e { NeedsTrans(g, e, a, x); }
    }
    assert g[a] <= satisfied;
    if n > 0 {
      var m :| m in g[a] && Walk(g, m, b, n - 1);
      WalkAhead(g, satisfied, e, m, b, n - 1);
    }
  }

  // ---------- A cycle ----------

  // Two expectations put in one sequence, and then the first of them again.
  lemma TwoCycle(a: ExpectationBase, b: ExpectationBase)
    requires a != b
    ensures var g := AddedAll(map[a := {}, b := {}], null, [a, b, a]);
            && g == map[a := {b}, b := {a}]
            && (forall run :: !Empties(g, {a, b}, a, run))
  {
    var g0: Graph := map[a := {}, b := {}];
    var g: Graph := map[a := {b}, b := {a}];
    assert [a, b, a][1..] == [b, a] && [b, a][1..] == [a] && [a][1..] == [];
    var g1 := Added(g0, a, b);
    var g2 := Added(g1, b, a);
    assert g0[b] + {a} == {a} && g1[a] + {b} == {b};
    assert g2 == g;
    assert AddedAll(g0, null, [a, b, a]) == AddedAll(g0, a, [b, a]) == AddedAll(g1, b, [a]) == AddedAll(g2, a, []) == g2;
    hide IsRun, AddedAll;
    NeedsDirect(g, a, b);
    NeedsDirect(g, b, a);
    NeedsTrans(g, a, b, a);
    forall run | Empties(g, {a, b}, a, run) ensures false {
      CycleNeverEnds(g, {a, b}, a, run, a);
    }
  }

  // The same by the calls that build it.
  method BuildTwoCycle() returns (a: ExpectationBase, b: ExpectationBase)
    ensures fresh(a) && fresh(b) && a != b && a.satisfied && b.satisfied
    ensures GraphOf({a, b}) == map[a := {b}, b := {a}]
    ensures forall run :: !Empties(GraphOf({a, b}), Satisfied({a, b}), a, run)
  {
    hide Empties;
    a := new ExpectationBase(true);
    b := new ExpectationBase(true);
    var sequence := new Sequence();
    assert GraphOf({a, b}) == map[a := {}, b := {}];
    sequence.AddExpectation(a, {a, b});
    assert GraphOf({a, b}) == map[a := {}, b := {}];
    sequence.AddExpectation(b, {a, b});
    assert GraphOf({a, b})[b] == {a};
    sequence.AddExpectation(a, {a, b});
    assert GraphOf({a, b})[a] == {b};
    assert GraphOf({a, b}) == map[a := {b}, b := {a}];
    TwoCycle(a, b);
    assert Satisfied({a, b}) == {a, b};
  }
}
