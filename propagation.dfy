/**
 * Upward completion propagation, shared by the single-parent tree
 * (uppaal/tree.py, `reduce_activated_completed`, first loop) and the
 * multi-parent graph (uppaal/adg.py, `propagate`).  Both run
 *
 *     while not fixed_point:
 *         fixed_point = True
 *         for node in completed.copy():
 *             for parent in <parents of node>:
 *                 if parent not in completed and <parent is satisfied>:
 *                     fixed_point = False; completed.append(parent)
 *
 * over a view of the structure given here as a Hierarchy: the parents of
 * each node, and for each node the gate that decides whether it is
 * satisfied (OR/EDGE: always; AND: once all its attack and goal children are
 * completed).
 */
module Propagation {
  import opened Lists

  type NodeId = nat

  datatype Gate =
    | OrGate                           // OR and EDGE goals
    | AndGate(required: seq<NodeId>)   // AND goal: its attack children then its goal children
    | NoGate                           // a node that is not a goal never becomes completed this way

  datatype Hierarchy = Hierarchy(parents: seq<seq<NodeId>>, gates: seq<Gate>)
  {
    ghost predicate Valid()
    {
      |parents| == |gates| &&
      forall n :: 0 <= n < |parents| ==> Below(parents[n], |parents|)
    }
  }

  /** Every element of the list is a node of the hierarchy. */
  predicate InRange(h: Hierarchy, s: seq<NodeId>)
  {
    Below(s, |h.parents|)
  }

  /** Whether goal `p` may be marked completed, given the completed set. */
  predicate Satisfied(h: Hierarchy, p: NodeId, done: set<NodeId>)
    requires p < |h.gates|
  {
    match h.gates[p]
    case OrGate => true
    case AndGate(required) => forall c :: c in required ==> c in done
    case NoGate => false
  }

  /** `r` is `c` followed by nodes of the hierarchy, each absent from the list when it was appended. */
  ghost predicate Extends(h: Hierarchy, c: seq<NodeId>, r: seq<NodeId>)
  {
    |c| <= |r| && r[..|c|] == c && InRange(h, r[|c|..]) &&
    forall k :: |c| <= k < |r| ==> r[k] !in r[..k]
  }

  lemma ExtendsRefl(h: Hierarchy, c: seq<NodeId>)
    ensures Extends(h, c, c)
  {
    assert c[..|c|] == c;
  }

  lemma ExtendsTrans(h: Hierarchy, a: seq<NodeId>, b: seq<NodeId>, c: seq<NodeId>)
    requires Extends(h, a, b) && Extends(h, b, c)
    ensures Extends(h, a, c)
  {
    assert c[..|a|] == c[..|b|][..|a|];
    forall k | 0 <= k < |c[|a|..]| ensures c[|a|..][k] < |h.parents| {
      if |a| + k < |b| {
        assert c[|a|..][k] == b[|a|..][k];
      } else {
        assert c[|a|..][k] == c[|b|..][|a| + k - |b|];
      }
    }
  }

  /** The inner test of the loop for one parent `p`. */
  function Visit(h: Hierarchy, p: NodeId, completed: seq<NodeId>): (r: seq<NodeId>)
    requires p < |h.gates|
    ensures r == completed || (r == completed + [p] && p !in completed)
  {
    if p !in completed && Satisfied(h, p, Elems(completed)) then completed + [p] else completed
  }

  /** `for parent in parents: ...` */
  function VisitParents(h: Hierarchy, ps: seq<NodeId>, completed: seq<NodeId>): seq<NodeId>
    requires h.Valid() && Below(ps, |h.parents|)
    decreases |ps|
  {
    if ps == [] then completed else VisitParents(h, ps[1..], Visit(h, ps[0], completed))
  }

  /** `for node in snapshot: for parent in node's parents: ...` */
  function Sweep(h: Hierarchy, snapshot: seq<NodeId>, completed: seq<NodeId>): seq<NodeId>
    requires h.Valid() && InRange(h, snapshot)
    decreases |snapshot|
  {
    if snapshot == [] then completed
    else Sweep(h, snapshot[1..], VisitParents(h, h.parents[snapshot[0]], completed))
  }

  /** One pass of the `while not fixed_point` loop body. */
  function Round(h: Hierarchy, completed: seq<NodeId>): seq<NodeId>
    requires h.Valid() && InRange(h, completed)
  {
    Sweep(h, completed, completed)
  }

  lemma {:induction false} VisitParentsExtends(h: Hierarchy, ps: seq<NodeId>, c: seq<NodeId>)
    requires h.Valid() && Below(ps, |h.parents|)
    ensures Extends(h, c, VisitParents(h, ps, c))
  {
    if ps == [] {
      ExtendsRefl(h, c);
    } else {
      var c' := Visit(h, ps[0], c);
      assert Extends(h, c, c') by {
        if c' != c { assert c'[..|c|] == c; }
        else { ExtendsRefl(h, c); }
      }
      VisitParentsExtends(h, ps[1..], c');
      ExtendsTrans(h, c, c', VisitParents(h, ps[1..], c'));
    }
  }

  lemma {:induction false} SweepExtends(h: Hierarchy, snapshot: seq<NodeId>, c: seq<NodeId>)
    requires h.Valid() && InRange(h, snapshot)
    ensures Extends(h, c, Sweep(h, snapshot, c))
  {
    if snapshot == [] {
      ExtendsRefl(h, c);
    } else {
      var c' := VisitParents(h, h.parents[snapshot[0]], c);
      VisitParentsExtends(h, h.parents[snapshot[0]], c);
      SweepExtends(h, snapshot[1..], c');
      ExtendsTrans(h, c, c', Sweep(h, snapshot[1..], c'));
    }
  }

  /** A proper extension has strictly more distinct nodes. */
  lemma ExtendsGrows(h: Hierarchy, c: seq<NodeId>, r: seq<NodeId>)
    requires Extends(h, c, r) && |r| > |c|
    ensures Elems(c) < Elems(r) && |Elems(c)| < |Elems(r)|
  {
    assert r[..|c|] == c;
    assert r[|c|] !in Elems(c);
    assert r[|c|] in Elems(r);
    assert Elems(c) + {r[|c|]} <= Elems(r);
    SubsetCard(Elems(c) + {r[|c|]}, Elems(r));
  }

  lemma ExtendsInRange(h: Hierarchy, c: seq<NodeId>, r: seq<NodeId>)
    requires Extends(h, c, r) && InRange(h, c)
    ensures InRange(h, r)
  {
    forall k | 0 <= k < |r| ensures r[k] < |h.parents| {
      if k < |c| { assert r[k] == r[..|c|][k]; } else { assert r[k] == r[|c|..][k - |c|]; }
    }
  }

  /**
   * The fixed point: repeat Round until a pass appends nothing.  It
   * terminates because every pass that appends adds a node not yet
   * completed, and there are finitely many nodes.
   */
  function Propagate(h: Hierarchy, completed: seq<NodeId>): (r: seq<NodeId>)
    requires h.Valid() && InRange(h, completed)
    decreases |h.parents| - |Elems(completed)|
  {
    ElemsBound(completed, |h.parents|);
    var next := Round(h, completed);
    SweepExtends(h, completed, completed);
    ExtendsInRange(h, completed, next);
    if |next| == |completed| then completed
    else
      ExtendsGrows(h, completed, next);
      ElemsBound(next, |h.parents|);
      Propagate(h, next)
  }

  /** Propagation only appends: the input is a prefix of the result, and each appended node was absent. */
  lemma {:induction false} PropagateExtends(h: Hierarchy, completed: seq<NodeId>)
    requires h.Valid() && InRange(h, completed)
    ensures Extends(h, completed, Propagate(h, completed))
    decreases |h.parents| - |Elems(completed)|
  {
    ElemsBound(completed, |h.parents|);
    var next := Round(h, completed);
    SweepExtends(h, completed, completed);
    ExtendsInRange(h, completed, next);
    if |next| == |completed| {
      ExtendsRefl(h, completed);
    } else {
      ExtendsGrows(h, completed, next);
      ElemsBound(next, |h.parents|);
      PropagateExtends(h, next);
      ExtendsTrans(h, completed, next, Propagate(h, next));
    }
  }

  /** Propagation never introduces a duplicate. */
  lemma PropagateNoDups(h: Hierarchy, completed: seq<NodeId>)
    requires h.Valid() && InRange(h, completed) && NoDups(completed)
    ensures NoDups(Propagate(h, completed))
  {
    var r := Propagate(h, completed);
    PropagateExtends(h, completed);
    forall i, j | 0 <= i < j < |r| ensures r[i] != r[j] {
      if j < |completed| {
        assert r[i] == completed[i] && r[j] == completed[j];
      } else {
        assert r[i] in r[..j];
      }
    }
  }

  /** Node `p` is one of the parents of node `n`. */
  predicate IsParent(h: Hierarchy, n: NodeId, p: NodeId)
    requires n < |h.parents|
  {
    p in h.parents[n]
  }

  /**
   * The closure property: for every completed node and each of its parents,
   * a satisfied parent (OR/EDGE, or AND with all children completed) is
   * itself completed.
   */
  ghost predicate Closed(h: Hierarchy, completed: seq<NodeId>)
    requires h.Valid() && InRange(h, completed)
  {
    forall i, p :: 0 <= i < |completed| && IsParent(h, completed[i], p) ==>
      (Satisfied(h, p, Elems(completed)) ==> p in completed)
  }

  lemma {:induction false} VisitParentsStable(h: Hierarchy, ps: seq<NodeId>, c: seq<NodeId>)
    requires h.Valid() && Below(ps, |h.parents|)
    requires |VisitParents(h, ps, c)| == |c|
    ensures forall k :: 0 <= k < |ps| ==> (Satisfied(h, ps[k], Elems(c)) ==> ps[k] in c)
  {
    if ps != [] {
      var c' := Visit(h, ps[0], c);
      VisitParentsExtends(h, ps[1..], c');
      VisitParentsStable(h, ps[1..], c');
      forall k | 0 <= k < |ps| ensures Satisfied(h, ps[k], Elems(c)) ==> ps[k] in c {
        if k > 0 { assert ps[k] == ps[1..][k - 1]; }
      }
    }
  }

  lemma {:induction false} SweepStable(h: Hierarchy, snapshot: seq<NodeId>, c: seq<NodeId>)
    requires h.Valid() && InRange(h, snapshot)
    requires |Sweep(h, snapshot, c)| == |c|
    ensures forall i, p :: 0 <= i < |snapshot| && IsParent(h, snapshot[i], p) ==>
      (Satisfied(h, p, Elems(c)) ==> p in c)
  {
    if snapshot != [] {
      var ps := h.parents[snapshot[0]];
      var c' := VisitParents(h, ps, c);
      VisitParentsExtends(h, ps, c);
      SweepExtends(h, snapshot[1..], c');
      assert c' == c by { assert c'[..|c|] == c; }
      VisitParentsStable(h, ps, c);
      SweepStable(h, snapshot[1..], c);
      forall i, p | 0 <= i < |snapshot| && IsParent(h, snapshot[i], p)
        ensures Satisfied(h, p, Elems(c)) ==> p in c
      {
        if i > 0 {
          assert snapshot[i] == snapshot[1..][i - 1];
        } else {
          var k :| 0 <= k < |ps| && ps[k] == p;
        }
      }
    }
  }

  /** After propagation the completed list is closed. */
  lemma {:induction false} PropagateClosed(h: Hierarchy, completed: seq<NodeId>)
    requires h.Valid() && InRange(h, completed)
    ensures InRange(h, Propagate(h, completed)) && Closed(h, Propagate(h, completed))
    decreases |h.parents| - |Elems(completed)|
  {
    ElemsBound(completed, |h.parents|);
    var next := Round(h, completed);
    SweepExtends(h, completed, completed);
    ExtendsInRange(h, completed, next);
    if |next| == |completed| {
      SweepStable(h, completed, completed);
    } else {
      ExtendsGrows(h, completed, next);
      ElemsBound(next, |h.parents|);
      PropagateClosed(h, next);
    }
  }

  /** A set of nodes closed under the propagation rule. */
  ghost predicate ClosedSet(h: Hierarchy, s: set<NodeId>)
    requires h.Valid()
  {
    forall n, p :: n in s && n < |h.parents| && IsParent(h, n, p) ==> (Satisfied(h, p, s) ==> p in s)
  }

  lemma {:induction false} VisitParentsLeast(h: Hierarchy, ps: seq<NodeId>, c: seq<NodeId>, s: set<NodeId>, n: NodeId)
    requires h.Valid() && n < |h.parents| && Below(ps, |h.parents|)
    requires forall k :: 0 <= k < |ps| ==> IsParent(h, n, ps[k])
    requires ClosedSet(h, s) && n in s && Elems(c) <= s
    ensures Elems(VisitParents(h, ps, c)) <= s
    decreases |ps|
  {
    if ps != [] {
      var c' := Visit(h, ps[0], c);
      if c' != c {
        assert IsParent(h, n, ps[0]);
        assert Satisfied(h, ps[0], s);
        assert Elems(c') == Elems(c) + {ps[0]};
      }
      assert forall k :: 0 <= k < |ps[1..]| ==> IsParent(h, n, ps[1..][k]) by {
        forall k | 0 <= k < |ps[1..]| ensures IsParent(h, n, ps[1..][k]) { assert ps[1..][k] == ps[k + 1]; }
      }
      VisitParentsLeast(h, ps[1..], c', s, n);
    }
  }

  lemma {:induction false} SweepLeast(h: Hierarchy, snapshot: seq<NodeId>, c: seq<NodeId>, s: set<NodeId>)
    requires h.Valid() && InRange(h, snapshot)
    requires ClosedSet(h, s) && Elems(snapshot) <= s && Elems(c) <= s
    ensures Elems(Sweep(h, snapshot, c)) <= s
    decreases |snapshot|
  {
    if snapshot != [] {
      var n := snapshot[0];
      var ps := h.parents[n];
      assert n in Elems(snapshot);
      VisitParentsLeast(h, ps, c, s, n);
      assert Elems(snapshot[1..]) <= Elems(snapshot);
      SweepLeast(h, snapshot[1..], VisitParents(h, ps, c), s);
    }
  }

  /**
   * Propagation computes the LEAST fixed point: every closed set of nodes
   * containing the initial completed nodes contains the result.
   */
  lemma {:induction false} PropagateLeast(h: Hierarchy, completed: seq<NodeId>, s: set<NodeId>)
    requires h.Valid() && InRange(h, completed)
    requires ClosedSet(h, s) && Elems(completed) <= s
    ensures Elems(Propagate(h, completed)) <= s
    decreases |h.parents| - |Elems(completed)|
  {
    ElemsBound(completed, |h.parents|);
    var next := Round(h, completed);
    SweepExtends(h, completed, completed);
    ExtendsInRange(h, completed, next);
    if |next| != |completed| {
      SweepLeast(h, completed, completed, s);
      ExtendsGrows(h, completed, next);
      ElemsBound(next, |h.parents|);
      PropagateLeast(h, next, s);
    }
  }

  /**
   * The loops of the source, run on a copy of `completed`; the result is the
   * list the source leaves in `completed`.
   */
  method PropagateInPlace(h: Hierarchy, completed: seq<NodeId>) returns (r: seq<NodeId>)
    requires h.Valid() && InRange(h, completed)
    ensures r == Propagate(h, completed)
  {
    r := completed;
    var fixedPoint := false;
    while !fixedPoint
      invariant InRange(h, r)
      invariant Propagate(h, r) == Propagate(h, completed)
      invariant fixedPoint ==> |Round(h, r)| == |r|
      decreases |h.parents| - |Elems(r)|, if fixedPoint then 0 else 1
    {
      ElemsBound(r, |h.parents|);
      fixedPoint := true;
      var snapshot := r;
      for i := 0 to |snapshot|
        invariant Sweep(h, snapshot[i..], r) == Round(h, snapshot)
        invariant Extends(h, snapshot, r)
        invariant fixedPoint <==> r == snapshot
      {
        assert snapshot[i..] == [snapshot[i]] + snapshot[i + 1..];
        var before := r;
        r := VisitParentsInPlace(h, h.parents[snapshot[i]], r);
        VisitParentsExtends(h, h.parents[snapshot[i]], before);
        ExtendsTrans(h, snapshot, before, r);
        if r != before {
          fixedPoint := false;
          assert |r| > |before|;
        }
      }
      assert snapshot[|snapshot|..] == [];
      ExtendsInRange(h, snapshot, r);
      if !fixedPoint {
        ExtendsGrows(h, snapshot, r);
        ElemsBound(r, |h.parents|);
      }
    }
  }

  /** The inner loop `for parent in parents: ...`, appending to `completed`. */
  method VisitParentsInPlace(h: Hierarchy, ps: seq<NodeId>, completed: seq<NodeId>) returns (r: seq<NodeId>)
    requires h.Valid() && Below(ps, |h.parents|)
    ensures r == VisitParents(h, ps, completed)
  {
    r := completed;
    for j := 0 to |ps|
      invariant VisitParents(h, ps[j..], r) == VisitParents(h, ps, completed)
    {
      assert ps[j..] == [ps[j]] + ps[j + 1..];
      var p := ps[j];
      if p !in r && Satisfied(h, p, Elems(r)) {
        r := r + [p];
      }
    }
    assert ps[|ps|..] == [];
  }
}
