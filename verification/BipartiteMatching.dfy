// Maximum bipartite matching by augmenting paths
// (submodules/googletest/googlemock/src/gmock-matchers.cc).
module BipartiteMatching {

  // MatchMatrix: which element (left) satisfies which matcher (right).
  datatype MatchMatrix = MatchMatrix(lhsSize: nat, rhsSize: nat, edges: set<(int, int)>) {
    predicate HasEdge(l: int, r: int) { (l, r) in edges }
  }

  const UNUSED := -1

  // ---------- What a matching is ----------

  // Edges of the graph, no two of which share an end.
  ghost predicate IsMatching(g: MatchMatrix, m: seq<(int, int)>) {
    && (forall i :: 0 <= i < |m| ==> 0 <= m[i].0 < g.lhsSize && 0 <= m[i].1 < g.rhsSize && g.HasEdge(m[i].0, m[i].1))
    && (forall i, j :: 0 <= i < j < |m| ==> m[i].0 != m[j].0 && m[i].1 != m[j].1)
  }

  // ---------- The search state ----------

  // The two link vectors and the right nodes already marked.
  datatype State = State(left: seq<int>, right: seq<int>, seen: set<int>)

  // Links run along edges and are mutual, except that the right node free may still
  // point at a left node that has moved on.
  ghost predicate Linked(g: MatchMatrix, s: State, free: int) {
    && |s.left| == g.lhsSize && |s.right| == g.rhsSize
    && (forall l :: 0 <= l < |s.left| && s.left[l] != UNUSED ==>
          0 <= s.left[l] < |s.right| && g.HasEdge(l, s.left[l]) && s.right[s.left[l]] == l)
    && (forall r :: 0 <= r < |s.right| && s.right[r] != UNUSED ==>
          0 <= s.right[r] < |s.left| && (r != free ==> s.left[s.right[r]] == r))
  }

  ghost predicate Confined(g: MatchMatrix, l: int, rights: set<int>) {
    forall r :: 0 <= r < g.rhsSize && g.HasEdge(l, r) ==> r in rights
  }

  // Every right node of the set is taken, by a left node that can only move inside the set.
  ghost predicate Dead(g: MatchMatrix, right: seq<int>, dead: set<int>) {
    forall r :: r in dead ==> 0 <= r < |right| && right[r] != UNUSED && Confined(g, right[r], dead)
  }

  // A search from l has tried the right nodes below k in vain: no link has moved, the
  // neighbours tried are marked, and every new mark is on a taken node whose left node has
  // no unmarked neighbour.
  ghost predicate Searched(g: MatchMatrix, s0: State, s: State, l: int, k: int) {
    && s.left == s0.left && s.right == s0.right && s0.seen <= s.seen
    && (forall r :: 0 <= r < k && g.HasEdge(l, r) ==> r in s.seen)
    && (forall r :: r in s.seen && r !in s0.seen ==>
          0 <= r < |s.right| && s.right[r] != UNUSED && Confined(g, s.right[r], s.seen))
  }

  // A search from l has succeeded: l has a link it did not have, to a node it newly marked,
  // and no other left node gained or lost its link. Nodes that could not be reached kept theirs.
  ghost predicate Augmented(g: MatchMatrix, s0: State, s: State, l: int, dead: set<int>) {
    && |s0.left| == |s.left| && |s0.right| == |s.right| && 0 <= l < |s.left|
    && Linked(g, s, s0.left[l])
    && s.left[l] != UNUSED && s.left[l] !in s0.seen && s.left[l] !in dead && s0.seen <= s.seen
    && (forall x :: 0 <= x < |s.left| && x != l ==> (s.left[x] == UNUSED <==> s0.left[x] == UNUSED))
    && (forall x :: 0 <= x < |s.left| && x != l && (s0.left[x] == UNUSED || s0.left[x] in s0.seen) ==>
          s.left[x] == s0.left[x])
    && (forall r :: 0 <= r < |s.right| && (r in s0.seen || r in dead) ==> s.right[r] == s0.right[r])
  }

  // The neighbour k of l leads nowhere.
  lemma DeadEnd(g: MatchMatrix, s0: State, s: State, s': State, l: int, k: int)
    requires Searched(g, s0, s, l, k) && 0 <= k < |s.right| && s.right[k] != UNUSED
    requires Searched(g, s.(seen := s.seen + {k}), s', s.right[k], g.rhsSize)
    ensures Searched(g, s0, s', l, k + 1)
  {
    forall r | r in s'.seen && r !in s0.seen
      ensures 0 <= r < |s'.right| && s'.right[r] != UNUSED && Confined(g, s'.right[r], s'.seen)
    {
      if r == k {
      } else if r in s.seen {
        assert Confined(g, s.right[r], s.seen);
      }
    }
  }

  lemma SearchBegins(g: MatchMatrix, s0: State, l: int)
    ensures Searched(g, s0, s0, l, 0)
  {
  }

  // What a search in progress still knows.
  lemma SearchSame(g: MatchMatrix, s0: State, s: State, l: int, k: int)
    requires Searched(g, s0, s, l, k)
    ensures s.left == s0.left && s.right == s0.right && s0.seen <= s.seen
    ensures k in s.seen || !g.HasEdge(l, k) ==> Searched(g, s0, s, l, k + 1)
  {
  }

  // The search may continue from the left node behind k.
  lemma Descend(g: MatchMatrix, s0: State, s: State, marks: seq<bool>, l: int, k: int)
    requires Searched(g, s0, s, l, k) && Linked(g, s0, UNUSED) && 0 <= k < g.rhsSize && s.right[k] != UNUSED
    requires |marks| == g.rhsSize && !marks[k] && s.seen == Seen(marks)
    ensures var s' := s.(seen := Seen(marks[k := true]));
            && Linked(g, s', UNUSED) && 0 <= s'.right[k] < |s'.left| && s'.left[s'.right[k]] == k && k in s'.seen
  {
  }

  // The neighbour k of l is free, or has been freed: l takes it.
  function Take(s: State, l: int, k: int): State
    requires 0 <= l < |s.left| && 0 <= k < |s.right|
  {
    State(s.left[l := k], s.right[k := l], s.seen)
  }

  lemma TakeFree(g: MatchMatrix, s0: State, s: State, l: int, k: int, dead: set<int>)
    requires Searched(g, s0, s, l, k) && 0 <= l < g.lhsSize && 0 <= k < g.rhsSize && g.HasEdge(l, k)
    requires Linked(g, s0, UNUSED) && Dead(g, s0.right, dead)
    requires k !in s.seen && s.right[k] == UNUSED
    ensures Augmented(g, s0, Take(s.(seen := s.seen + {k}), l, k), l, dead)
  {
  }

  lemma TakeFreed(g: MatchMatrix, s0: State, s: State, s': State, l: int, k: int, dead: set<int>)
    requires Searched(g, s0, s, l, k) && 0 <= l < g.lhsSize && 0 <= k < g.rhsSize && g.HasEdge(l, k)
    requires Linked(g, s0, UNUSED) && Dead(g, s0.right, dead)
    requires s0.left[l] != UNUSED ==> s0.left[l] in s0.seen
    requires k !in s.seen && s.right[k] != UNUSED
    requires Augmented(g, s.(seen := s.seen + {k}), s', s.right[k], dead)
    ensures Augmented(g, s0, Take(s', l, k), l, dead)
  {
    hide Linked;
    FreedLinks(g, s0, s, s', l, k, dead);
  }

  // The links of a freed node that has been taken.
  lemma FreedLinks(g: MatchMatrix, s0: State, s: State, s': State, l: int, k: int, dead: set<int>)
    requires Searched(g, s0, s, l, k) && 0 <= l < g.lhsSize && 0 <= k < g.rhsSize && g.HasEdge(l, k)
    requires Linked(g, s0, UNUSED) && Dead(g, s0.right, dead)
    requires s0.left[l] != UNUSED ==> s0.left[l] in s0.seen
    requires k !in s.seen && s.right[k] != UNUSED
    requires Augmented(g, s.(seen := s.seen + {k}), s', s.right[k], dead)
    ensures |s'.left| == g.lhsSize == |s0.left| && |s'.right| == g.rhsSize == |s0.right| && k !in dead
    ensures Linked(g, Take(s', l, k), s0.left[l])
    ensures 0 <= s.right[k] < |s.left| && s.left[s.right[k]] == k && s'.left[s.right[k]] != UNUSED
  {
    var m := s.right[k];
    assert s'.right[k] == m && s'.left[m] != k;
    assert k !in dead;
  }

  function Seen(seen: seq<bool>): set<int> {
    set r | 0 <= r < |seen| && seen[r]
  }

  function Unseen(seen: seq<bool>): set<int> {
    set r | 0 <= r < |seen| && !seen[r]
  }

  lemma Mark(seen: seq<bool>, k: int)
    requires 0 <= k < |seen| && !seen[k]
    ensures Seen(seen[k := true]) == Seen(seen) + {k}
    ensures Unseen(seen[k := true]) < Unseen(seen)
  {
    assert k in Unseen(seen);
  }

  lemma UnseenLess(seen: seq<bool>, seen': seq<bool>)
    requires |seen| == |seen'| && Seen(seen) <= Seen(seen')
    ensures Unseen(seen') <= Unseen(seen)
  {
    forall r | r in Unseen(seen') ensures r in Unseen(seen) {
      if seen[r] { assert r in Seen(seen); }
    }
  }

  // ---------- The whole computation ----------

  // The left nodes before l have been tried: each has a link or can only go to dead nodes.
  ghost predicate Tried(g: MatchMatrix, left: seq<int>, l: nat, dead: set<int>) {
    && (forall x :: 0 <= x < l && x < |left| && left[x] == UNUSED ==> Confined(g, x, dead))
    && (forall x :: l <= x < |left| ==> left[x] == UNUSED)
  }

  lemma NothingDead(g: MatchMatrix, right: seq<int>)
    ensures Dead(g, right, {})
  {
  }

  lemma OneMore(g: MatchMatrix, s0: State, s: State, l: int, dead: set<int>)
    requires 0 <= l < |s0.left| && s0.left[l] == UNUSED && s0.seen == {}
    requires Tried(g, s0.left, l, dead) && Dead(g, s0.right, dead) && Augmented(g, s0, s, l, dead)
    ensures Linked(g, s.(seen := {}), UNUSED) && Dead(g, s.right, dead) && Tried(g, s.left, l + 1, dead)
  {
  }

  lemma MoreDead(g: MatchMatrix, s0: State, s: State, l: int, dead: set<int>)
    requires 0 <= l < |s0.left| && s0.left[l] == UNUSED && s0.seen == {}
    requires Linked(g, s0, UNUSED)
    requires Tried(g, s0.left, l, dead) && Dead(g, s0.right, dead) && Searched(g, s0, s, l, g.rhsSize)
    ensures Linked(g, s.(seen := {}), UNUSED) && Dead(g, s.right, dead + s.seen)
    ensures Tried(g, s.left, l + 1, dead + s.seen)
  {
  }

  // The pairs of the linked left nodes, in order.
  function Links(left: seq<int>): (m: seq<(int, int)>)
    ensures forall i :: 0 <= i < |m| ==> 0 <= m[i].0 < |left| && left[m[i].0] == m[i].1 != UNUSED
    ensures forall i, j :: 0 <= i < j < |m| ==> m[i].0 < m[j].0
  {
    if left == [] then []
    else
      var n := |left| - 1;
      Links(left[..n]) + if left[n] == UNUSED then [] else [(n, left[n])]
  }

  // Each linked left node once.
  lemma LinksMatch(g: MatchMatrix, s: State)
    requires Linked(g, s, UNUSED)
    ensures IsMatching(g, Links(s.left))
  {
  }

  function LinkedLefts(left: seq<int>): set<int> {
    set l | 0 <= l < |left| && left[l] != UNUSED
  }

  lemma {:induction false} LinksCount(left: seq<int>)
    ensures |Links(left)| == |LinkedLefts(left)|
  {
    if left != [] {
      var n := |left| - 1;
      LinksCount(left[..n]);
      if left[n] == UNUSED {
        assert LinkedLefts(left) == LinkedLefts(left[..n]);
      } else {
        assert LinkedLefts(left) == LinkedLefts(left[..n]) + {n};
      }
    }
  }

  // Distinct members of a set are no more than the set.
  lemma {:induction false} Pigeonhole(s: seq<int>, t: set<int>)
    requires forall i :: 0 <= i < |s| ==> s[i] in t
    requires forall i, j :: 0 <= i < j < |s| ==> s[i] != s[j]
    ensures |s| <= |t|
  {
    if s != [] {
      Pigeonhole(s[1..], t - {s[0]});
    }
  }

  // A linked left node that accounts for the edge (l, r): l itself, unless r is dead, in
  // which case the left node that holds r.
  function Witness(s: State, dead: set<int>, e: (int, int)): int
    requires e.1 in dead ==> 0 <= e.1 < |s.right|
  {
    if e.1 in dead then s.right[e.1] else e.0
  }

  // The dead set proves the links maximal: different edges of a matching have different witnesses.
  lemma Maximum(g: MatchMatrix, s: State, dead: set<int>)
    requires Linked(g, s, UNUSED) && Dead(g, s.right, dead) && Tried(g, s.left, g.lhsSize, dead)
    ensures forall m :: IsMatching(g, m) ==> |m| <= |Links(s.left)|
  {
    LinksCount(s.left);
    forall m: seq<(int, int)> | IsMatching(g, m) ensures |m| <= |Links(s.left)| {
      var w := seq(|m|, i requires 0 <= i < |m| => Witness(s, dead, m[i]));
      forall i | 0 <= i < |w| ensures w[i] in LinkedLefts(s.left) {
        if s.left[m[i].0] == UNUSED { assert Confined(g, m[i].0, dead); }
      }
      forall i, j | 0 <= i < j < |w| ensures w[i] != w[j] {
        Apart(g, s, dead, m[i], m[j]);
      }
      Pigeonhole(w, LinkedLefts(s.left));
    }
  }

  lemma Apart(g: MatchMatrix, s: State, dead: set<int>, d: (int, int), e: (int, int))
    requires Linked(g, s, UNUSED) && Dead(g, s.right, dead)
    requires g.HasEdge(d.0, d.1) && g.HasEdge(e.0, e.1) && d.0 != e.0 && d.1 != e.1
    requires 0 <= d.1 < g.rhsSize && 0 <= e.1 < g.rhsSize
    ensures Witness(s, dead, d) != Witness(s, dead, e)
  {
    if d.1 in dead && e.1 !in dead { assert Confined(g, s.right[d.1], dead); }
    if e.1 in dead && d.1 !in dead { assert Confined(g, s.right[e.1], dead); }
  }

  class MaxBipartiteMatchState {
    const graph: MatchMatrix
    const left: array<int>
    const right: array<int>

    ghost predicate Shaped() {
      left != right && left.Length == graph.lhsSize && right.Length == graph.rhsSize
    }

    ghost function Now(seen: set<int>): State
      reads left, right
    {
      State(left[..], right[..], seen)
    }

    constructor (graph: MatchMatrix)
      ensures this.graph == graph && Shaped() && fresh(left) && fresh(right)
      ensures Linked(graph, Now({}), UNUSED)
      ensures forall l :: 0 <= l < left.Length ==> left[l] == UNUSED
    {
      this.graph := graph;
      left := new int[graph.lhsSize](_ => UNUSED);
      right := new int[graph.rhsSize](_ => UNUSED);
    }

    // Depth-first search from l for a free right node. The set dead is any region that the
    // search cannot leave once it is in.
    method TryAugment(l: int, seen: array<bool>, ghost dead: set<int>) returns (ok: bool)
      requires Shaped() && seen.Length == graph.rhsSize && 0 <= l < left.Length
      requires Linked(graph, Now(Seen(seen[..])), UNUSED) && Dead(graph, right[..], dead)
      requires left[l] != UNUSED ==> left[l] in Seen(seen[..])
      modifies left, right, seen
      decreases Unseen(seen[..])
      ensures if ok then Augmented(graph, old(Now(Seen(seen[..]))), Now(Seen(seen[..])), l, dead)
              else Searched(graph, old(Now(Seen(seen[..]))), Now(Seen(seen[..])), l, graph.rhsSize)
    {
      hide Searched, Augmented, Linked, Dead;
      ghost var s0, marks0 := Now(Seen(seen[..])), seen[..];
      SearchBegins(graph, s0, l);
      for r := 0 to graph.rhsSize
        invariant Searched(graph, s0, Now(Seen(seen[..])), l, r)
      {
        ghost var s, marks := Now(Seen(seen[..])), seen[..];
        SearchSame(graph, s0, s, l, r);
        if seen[r] || !graph.HasEdge(l, r) { continue; }
        Mark(marks, r);
        UnseenLess(marks0, marks);
        seen[r] := true;
        assert seen[..] == marks[r := true];
        if right[r] == UNUSED {
          TakeFree(graph, s0, s, l, r, dead);
        }
        var found := right[r] == UNUSED;
        if !found {
          Descend(graph, s0, s, marks, l, r);
          found := TryAugment(right[r], seen, dead);
          if found {
            TakeFreed(graph, s0, s, Now(Seen(seen[..])), l, r, dead);
          } else {
            DeadEnd(graph, s0, s, Now(Seen(seen[..])), l, r);
          }
        }
        if found {
          left[l] := r;
          right[r] := l;
          return true;
        }
      }
      return false;
    }

    // Tries each left node once and returns the links. The result is a matching, and no
    // matching of the graph has more edges.
    method Compute() returns (result: seq<(int, int)>)
      requires Shaped() && Linked(graph, Now({}), UNUSED)
      requires forall l :: 0 <= l < left.Length ==> left[l] == UNUSED
      modifies left, right
      ensures Linked(graph, Now({}), UNUSED) && result == Links(left[..])
      ensures IsMatching(graph, result)
      ensures forall m :: IsMatching(graph, m) ==> |m| <= |result|
    {
      hide Searched, Augmented, Linked, Dead, IsMatching;
      ghost var dead: set<int> := {};
      var seen := new bool[graph.rhsSize];
      NothingDead(graph, right[..]);
      for l := 0 to graph.lhsSize
        invariant Linked(graph, Now({}), UNUSED) && Dead(graph, right[..], dead)
        invariant Tried(graph, left[..], l, dead)
      {
        assert left[l] == UNUSED;
        forall r | 0 <= r < seen.Length { seen[r] := false; }
        assert Seen(seen[..]) == {};
        ghost var s0 := Now({});
        var ok := TryAugment(l, seen, dead);
        if ok {
          OneMore(graph, s0, Now(Seen(seen[..])), l, dead);
        } else {
          MoreDead(graph, s0, Now(Seen(seen[..])), l, dead);
          dead := dead + Seen(seen[..]);
        }
      }
      result := [];
      for l := 0 to left.Length
        invariant result == Links(left[..l])
      {
        assert left[..l + 1] == left[..l] + [left[l]];
        if left[l] != UNUSED {
          result := result + [(l, left[l])];
        }
      }
      assert left[..] == left[..left.Length];
      LinksMatch(graph, Now({}));
      Maximum(graph, Now({}), dead);
    }
  }

  // FindMaxBipartiteMatching.
  method FindMaxBipartiteMatching(g: MatchMatrix) returns (result: seq<(int, int)>)
    ensures IsMatching(g, result)
    ensures forall m :: IsMatching(g, m) ==> |m| <= |result|
  {
    var state := new MaxBipartiteMatchState(g);
    result := state.Compute();
  }
}
