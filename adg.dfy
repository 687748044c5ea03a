/**
 * The multi-parent attack-defense graph of uppaal/adg.py.  A node may have
 * several parents, and a node carries a list of attached defenses instead of
 * a single defense child.  Defenses are never children: `get_children` is
 * the attack children followed by the goal children.
 *
 * As in the tree modules, nodes live in an arena and a node is its index.
 * A child has a larger index than the node that lists it, and every parent
 * of a node has a smaller index, so both directions are acyclic.
 */
module Adg {
  import opened Lists
  import AT = AttackTree
  import PW = ParentWalk
  import P = Propagation

  type NodeId = nat

  datatype OperationType = And | Or

  /** The fields a subclass adds on top of `Node`. */
  datatype Kind =
    | Untyped
    | GoalKind(op: OperationType)
    | AttackKind(completionTime: int, successProbability: real, activationCost: Option<int>, proportionalCost: Option<int>)
    | DefenseKind(period: int, successProbability: real, cost: Option<int>)

  /**
   * `parents` is None until it is set; `defenses` is the list of attached
   * defenses, empty when the node has none.
   */
  datatype Node = Node(
    name: string,
    parents: Option<seq<NodeId>>,
    defenses: seq<NodeId>,
    attackChildren: seq<NodeId>,
    goalChildren: seq<NodeId>,
    kind: Kind)

  function TypeOf(n: Node): AT.NodeType
  {
    match n.kind
    case Untyped => AT.NoType
    case GoalKind(_) => AT.GoalType
    case AttackKind(_, _, _, _) => AT.AttackType
    case DefenseKind(_, _, _) => AT.DefenseType
  }

  /** The type of every node of the arena, by index. */
  function Types(nodes: seq<Node>): (types: seq<AT.NodeType>)
    ensures |types| == |nodes|
    ensures forall i :: 0 <= i < |nodes| ==> types[i] == TypeOf(nodes[i])
  {
    seq(|nodes|, i requires 0 <= i < |nodes| => TypeOf(nodes[i]))
  }

  /** The parents list, with a missing one read as empty. */
  function ParentList(n: Node): seq<NodeId>
  {
    if n.parents.Some? then n.parents.value else []
  }

  /** `Node.get_children`: the attack children, then the goal children; attached defenses are not children. */
  function GetChildren(n: Node): (r: seq<NodeId>)
    ensures |r| == |n.attackChildren| + |n.goalChildren|
    ensures r[..|n.attackChildren|] == n.attackChildren && r[|n.attackChildren|..] == n.goalChildren
    ensures forall x :: x in r <==> x in n.attackChildren || x in n.goalChildren
  {
    n.attackChildren + n.goalChildren
  }

  /**
   * `Node.check_parents`: a node whose parents are not yet set accepts any
   * list; otherwise the new list must hold the same nodes, in any order and
   * with any repetition.  A missing new list fails against a set one.
   */
  function CheckParents(current: Option<seq<NodeId>>, parents: Option<seq<NodeId>>): (ok: bool)
    ensures current.None? ==> ok
    ensures current.Some? && parents.None? ==> !ok
    ensures current.Some? && parents.Some? ==>
              (ok <==> (forall x :: x in current.value ==> x in parents.value)
                       && (forall x :: x in parents.value ==> x in current.value))
  {
    if current.None? then true
    else if parents.None? then false
    else
      var a, b := current.value, parents.value;
      assert (forall x :: x in a ==> x in b) && (forall x :: x in b ==> x in a) ==> Elems(a) == Elems(b) by {
        if (forall x :: x in a ==> x in b) && (forall x :: x in b ==> x in a) {
          assert forall x :: x in Elems(a) <==> x in Elems(b);
        }
      }
      assert Elems(a) == Elems(b) ==> (forall x :: x in a ==> x in b) && (forall x :: x in b ==> x in a) by {
        if Elems(a) == Elems(b) {
          forall x | x in a ensures x in b { assert x in Elems(a); }
          forall x | x in b ensures x in a { assert x in Elems(b); }
        }
      }
      Elems(a) == Elems(b)
  }

  /** The three lists a goal's `children` argument is split into. */
  datatype Parts = Parts(defenses: seq<NodeId>, attacks: seq<NodeId>, goals: seq<NodeId>)

  /**
   * The loop of `Goal.__init__` over `children`: every defense, attack and
   * goal keeps its order within its list, and an untyped child raises.
   */
  method PartitionChildren(nodes: seq<Node>, children: seq<NodeId>) returns (r: Result<Parts>)
    requires Below(children, |nodes|)
    ensures r.Ok? <==> forall i :: 0 <= i < |children| ==> TypeOf(nodes[children[i]]) != AT.NoType
    ensures r.Ok? ==> r.value == Parts(AT.OfType(Types(nodes), children, AT.DefenseType),
                                       AT.OfType(Types(nodes), children, AT.AttackType),
                                       AT.OfType(Types(nodes), children, AT.GoalType))
  {
    var defenses: seq<NodeId> := [];
    var attacks: seq<NodeId> := [];
    var goals: seq<NodeId> := [];
    for i := 0 to |children|
      invariant forall k :: 0 <= k < i ==> TypeOf(nodes[children[k]]) != AT.NoType
      invariant defenses == AT.OfType(Types(nodes), children[..i], AT.DefenseType)
      invariant attacks == AT.OfType(Types(nodes), children[..i], AT.AttackType)
      invariant goals == AT.OfType(Types(nodes), children[..i], AT.GoalType)
    {
      var child := children[i];
      assert children[..i + 1][..i] == children[..i];
      match TypeOf(nodes[child])
      case DefenseType => defenses := defenses + [child];
      case AttackType => attacks := attacks + [child];
      case GoalType => goals := goals + [child];
      case NoType => return Error("Children without type");
    }
    assert children[..|children|] == children;
    return Ok(Parts(defenses, attacks, goals));
  }

  /**
   * `Goal.__init__`.  Given `children`, the explicit list arguments must all
   * be missing and the children are split by type; otherwise the explicit
   * lists are used as they are.  An empty name stands for no name, and the
   * generated name is the node type followed by `address`, the object's
   * identity.  There is no bound on the number of children.
   */
  method MakeGoal(nodes: seq<Node>, name: string, op: OperationType, children: seq<NodeId>,
                  defenses: Option<seq<NodeId>>, attackChildren: Option<seq<NodeId>>,
                  goalChildren: Option<seq<NodeId>>, parents: Option<seq<NodeId>>, address: string)
    returns (r: Result<Node>)
    requires Below(children, |nodes|)
    ensures children != [] && (defenses.Some? || attackChildren.Some? || goalChildren.Some?) ==> r.Error?
    ensures children != [] && defenses.None? && attackChildren.None? && goalChildren.None? ==>
              (r.Ok? <==> forall i :: 0 <= i < |children| ==> TypeOf(nodes[children[i]]) != AT.NoType)
              && (r.Ok? ==> r.value.defenses == AT.OfType(Types(nodes), children, AT.DefenseType)
                            && r.value.attackChildren == AT.OfType(Types(nodes), children, AT.AttackType)
                            && r.value.goalChildren == AT.OfType(Types(nodes), children, AT.GoalType))
    ensures children == [] ==>
              r.Ok?
              && r.value.defenses == (if defenses.Some? then defenses.value else [])
              && r.value.attackChildren == (if attackChildren.Some? then attackChildren.value else [])
              && r.value.goalChildren == (if goalChildren.Some? then goalChildren.value else [])
    ensures r.Ok? ==> r.value.kind == GoalKind(op) && r.value.parents == parents
                      && r.value.name == (if name != "" then name else "NodeType.GOAL:" + address)
  {
    var ds := if defenses.Some? then defenses.value else [];
    var attacks := if attackChildren.Some? then attackChildren.value else [];
    var goals := if goalChildren.Some? then goalChildren.value else [];
    if children != [] {
      if defenses.Some? || attackChildren.Some? || goalChildren.Some? {
        return Error("explicit children given together with children");
      }
      var parts := PartitionChildren(nodes, children);
      if parts.Error? {
        return Error(parts.msg);
      }
      ds, attacks, goals := parts.value.defenses, parts.value.attacks, parts.value.goals;
    }
    var n := if name != "" then name else "NodeType.GOAL:" + address;
    return Ok(Node(n, parents, ds, attacks, goals, GoalKind(op)));
  }

  /** The children of every node, by index. */
  function Kids(nodes: seq<Node>): (kids: seq<seq<NodeId>>)
    ensures |kids| == |nodes|
    ensures forall i :: 0 <= i < |nodes| ==> kids[i] == GetChildren(nodes[i])
  {
    seq(|nodes|, i requires 0 <= i < |nodes| => GetChildren(nodes[i]))
  }

  /** A graph: its nodes and its root (the `Tree` object of uppaal/adg.py). */
  datatype Graph = Graph(nodes: seq<Node>, root: NodeId)

  /**
   * The shape the arena guarantees: the root is a node, children have larger
   * indices than their owner, parents have smaller indices than their node,
   * and attached defenses are nodes of the arena.
   */
  predicate Valid(g: Graph)
  {
    g.root < |g.nodes|
    && PW.Downward(Kids(g.nodes))
    && (forall n :: 0 <= n < |g.nodes| ==> Below(ParentList(g.nodes[n]), n))
    && (forall n :: 0 <= n < |g.nodes| ==> Below(g.nodes[n].defenses, |g.nodes|))
  }

  /** `Tree.__init__`: a root with attached defenses is rejected. */
  function MakeGraph(nodes: seq<Node>, root: NodeId): (r: Result<Graph>)
    requires root < |nodes|
    ensures r.Ok? <==> nodes[root].defenses == []
    ensures r.Ok? ==> r.value.nodes == nodes && r.value.root == root
  {
    if nodes[root].defenses != [] then Error("root has defenses") else Ok(Graph(nodes, root))
  }

  /** The nodes of the graph of type `t`, in arena order (`attacks` and `defenses` of `init_dfs`). */
  function AllOfType(g: Graph, t: AT.NodeType): (r: seq<NodeId>)
    ensures Below(r, |g.nodes|) && NoDups(r)
    ensures forall x: nat :: x in r <==> x < |g.nodes| && TypeOf(g.nodes[x]) == t
  {
    var all := seq(|g.nodes|, i => i);
    assert Below(all, |g.nodes|);
    assert forall x: nat :: x in all <==> x < |g.nodes| by {
      forall x: nat | x < |g.nodes| ensures x in all { assert all[x] == x; }
    }
    AT.OfTypeMembers(Types(g.nodes), all, t);
    AT.OfTypeNoDups(Types(g.nodes), all, t);
    AT.OfType(Types(g.nodes), all, t)
  }

  /**
   * Whether a goal may be completed: OR always, AND once all its attack and
   * goal children are.  A parent that is not a goal never is.
   */
  function GateOf(n: Node): (gate: P.Gate)
    ensures n.kind.GoalKind? && n.kind.op == Or <==> gate == P.OrGate
    ensures n.kind.GoalKind? && n.kind.op == And <==> gate == P.AndGate(n.attackChildren + n.goalChildren)
  {
    match n.kind
    case GoalKind(Or) => P.OrGate
    case GoalKind(And) => P.AndGate(n.attackChildren + n.goalChildren)
    case _ => P.NoGate
  }

  /** The view of the graph that propagation works on: every node's parents list and gate. */
  function GraphHierarchy(g: Graph): (h: P.Hierarchy)
    requires Valid(g)
    ensures h.Valid() && |h.parents| == |g.nodes|
    ensures forall n :: 0 <= n < |g.nodes| ==> h.parents[n] == ParentList(g.nodes[n]) && h.gates[n] == GateOf(g.nodes[n])
  {
    var h := P.Hierarchy(seq(|g.nodes|, i requires 0 <= i < |g.nodes| => ParentList(g.nodes[i])),
                         seq(|g.nodes|, i requires 0 <= i < |g.nodes| => GateOf(g.nodes[i])));
    assert forall n :: 0 <= n < |h.parents| ==> Below(h.parents[n], |h.parents|) by {
      forall n | 0 <= n < |h.parents| ensures Below(h.parents[n], |h.parents|) {
        assert Below(ParentList(g.nodes[n]), n);
      }
    }
    h
  }

  /**
   * `Tree.propagate`: append every parent that becomes completed, until a
   * full pass appends nothing.  The result extends `completed` with nodes
   * that were absent, is closed (every OR parent of a completed node, and
   * every AND parent whose attack and goal children are all completed, is
   * completed), and is the least such extension.  The `activated` argument
   * is never read or written, so it is not a parameter here.
   */
  method Propagate(g: Graph, completed: seq<NodeId>) returns (r: seq<NodeId>)
    requires Valid(g) && Below(completed, |g.nodes|)
    ensures r == P.Propagate(GraphHierarchy(g), completed)
    ensures P.Extends(GraphHierarchy(g), completed, r)
    ensures P.InRange(GraphHierarchy(g), r) && P.Closed(GraphHierarchy(g), r)
    ensures NoDups(completed) ==> NoDups(r)
    ensures forall s :: P.ClosedSet(GraphHierarchy(g), s) && Elems(completed) <= s ==> Elems(r) <= s
  {
    var h := GraphHierarchy(g);
    r := P.PropagateInPlace(h, completed);
    P.PropagateExtends(h, completed);
    P.PropagateClosed(h, completed);
    if NoDups(completed) {
      P.PropagateNoDups(h, completed);
    }
    forall s | P.ClosedSet(h, s) && Elems(completed) <= s ensures Elems(r) <= s {
      P.PropagateLeast(h, completed, s);
    }
  }

  /** A checkpoint: a completed node without attached defenses. */
  predicate IsCheckpoint(g: Graph, completed: seq<NodeId>, p: NodeId)
    requires p < |g.nodes|
  {
    p in completed && g.nodes[p].defenses == []
  }

  /**
   * The upward walk of the checkpoint rule from `cur`: look at the parents
   * of the current node in order and stop at the first checkpoint; if there
   * is none, continue from the last parent.  The walk follows one chain of
   * last parents, not every path to the root.
   */
  function WalkFinds(g: Graph, completed: seq<NodeId>, cur: NodeId): bool
    requires Valid(g) && cur < |g.nodes|
    decreases cur
  {
    var ps := ParentList(g.nodes[cur]);
    if ps == [] then false
    else if exists k :: 0 <= k < |ps| && IsCheckpoint(g, completed, ps[k]) then true
    else WalkFinds(g, completed, ps[|ps| - 1])
  }

  /** A walk that finds a checkpoint against some completed nodes finds one against any more of them. */
  lemma {:induction false} WalkFindsMono(g: Graph, c1: seq<NodeId>, c2: seq<NodeId>, cur: NodeId)
    requires Valid(g) && cur < |g.nodes|
    requires forall x :: x in c1 ==> x in c2
    ensures WalkFinds(g, c1, cur) ==> WalkFinds(g, c2, cur)
    decreases cur
  {
    var ps := ParentList(g.nodes[cur]);
    if ps != [] && !(exists k :: 0 <= k < |ps| && IsCheckpoint(g, c1, ps[k])) {
      WalkFindsMono(g, c1, c2, ps[|ps| - 1]);
    }
  }

  /** The inner loop of the checkpoint rule: is there a checkpoint on the walk up from `node`? */
  method HasCheckpointAbove(g: Graph, completed: seq<NodeId>, node: NodeId) returns (checkpoint: bool)
    requires Valid(g) && node < |g.nodes|
    ensures checkpoint == WalkFinds(g, completed, node)
  {
    checkpoint := false;
    var current: NodeId := node;
    while ParentList(g.nodes[current]) != []
      invariant current < |g.nodes|
      invariant WalkFinds(g, completed, node) == (checkpoint || WalkFinds(g, completed, current))
      decreases current
    {
      if checkpoint {
        break;
      }
      var ps := ParentList(g.nodes[current]);
      assert Below(ps, current);
      ghost var start := current;
      for j := 0 to |ps|
        invariant !checkpoint
        invariant if j == 0 then current == start else current == ps[j - 1]
        invariant forall k :: 0 <= k < j ==> !IsCheckpoint(g, completed, ps[k])
      {
        current := ps[j];
        if current in completed && g.nodes[current].defenses == [] {
          checkpoint := true;
          break;
        }
      }
    }
  }

  /**
   * The first loop of `reduce_activated_completed`, over a copy of the
   * completed nodes: each one whose walk meets a checkpoint among the nodes
   * still completed at that moment is removed.
   */
  function RemoveCheckpointed(g: Graph, snapshot: seq<NodeId>, completed: seq<NodeId>): seq<NodeId>
    requires Valid(g) && Below(snapshot, |g.nodes|)
  {
    if snapshot == [] then completed
    else
      var x := snapshot[0];
      var next := if WalkFinds(g, completed, x) then RemoveFirst(completed, x) else completed;
      RemoveCheckpointed(g, snapshot[1..], next)
  }

  /** One step of the fold: on a duplicate-free list, the step removes `x` exactly when its walk finds a checkpoint. */
  lemma CheckpointStep(g: Graph, c: seq<NodeId>, x: NodeId)
    requires Valid(g) && x < |g.nodes| && NoDups(c)
    ensures var next := if WalkFinds(g, c, x) then RemoveFirst(c, x) else c;
            next == Without(c, if WalkFinds(g, c, x) then {x} else {})
            && NoDups(next) && (WalkFinds(g, c, x) ==> x !in next)
            && forall y :: y in next <==> y in c && (y == x ==> !WalkFinds(g, c, x))
  {
    var found := WalkFinds(g, c, x);
    var next := if found then RemoveFirst(c, x) else c;
    if found {
      RemoveFirstIsWithout(c, x);
      assert Elems(next) == Elems(c) - {x};
      forall y ensures y in next <==> y in c && y != x {
        assert y in next <==> y in Elems(next);
        assert y in c <==> y in Elems(c);
      }
    } else {
      WithoutAbsent(c, {});
    }
  }

  /** The fold only removes. */
  lemma {:induction false} CheckpointFoldSub(g: Graph, snapshot: seq<NodeId>, c: seq<NodeId>)
    requires Valid(g) && Below(snapshot, |g.nodes|)
    ensures forall y :: y in RemoveCheckpointed(g, snapshot, c) ==> y in c
  {
    if snapshot != [] {
      RemoveFirstSub(c, snapshot[0]);
      CheckpointFoldSub(g, snapshot[1..], if WalkFinds(g, c, snapshot[0]) then RemoveFirst(c, snapshot[0]) else c);
    }
  }

  /** The fold keeps the order: the result is the list without the nodes it lost. */
  lemma {:induction false} CheckpointFoldOrder(g: Graph, snapshot: seq<NodeId>, c: seq<NodeId>)
    requires Valid(g) && Below(snapshot, |g.nodes|) && NoDups(c)
    ensures var r := RemoveCheckpointed(g, snapshot, c);
            r == Without(c, Elems(c) - Elems(r))
  {
    var r := RemoveCheckpointed(g, snapshot, c);
    if snapshot == [] {
      WithoutAbsent(c, Elems(c) - Elems(r));
    } else {
      var x := snapshot[0];
      var d0: set<NodeId> := if WalkFinds(g, c, x) then {x} else {};
      var next := if WalkFinds(g, c, x) then RemoveFirst(c, x) else c;
      CheckpointStep(g, c, x);
      CheckpointFoldOrder(g, snapshot[1..], next);
      CheckpointFoldSub(g, snapshot[1..], next);
      WithoutWithout(c, d0, Elems(next) - Elems(r));
      WithoutSame(c, d0 + (Elems(next) - Elems(r)), Elems(c) - Elems(r));
    }
  }

  /** Nodes outside the snapshot are never removed. */
  lemma {:induction false} CheckpointFoldOutside(g: Graph, snapshot: seq<NodeId>, c: seq<NodeId>)
    requires Valid(g) && Below(snapshot, |g.nodes|) && NoDups(c)
    ensures forall y :: y in c && y !in snapshot ==> y in RemoveCheckpointed(g, snapshot, c)
  {
    if snapshot != [] {
      var x := snapshot[0];
      CheckpointStep(g, c, x);
      CheckpointFoldOutside(g, snapshot[1..], if WalkFinds(g, c, x) then RemoveFirst(c, x) else c);
      assert forall y :: y !in snapshot ==> y != x && y !in snapshot[1..];
    }
  }

  /** A node of the snapshot that the fold removes meets a checkpoint among the nodes completed at the start. */
  lemma {:induction false} CheckpointFoldRemoved(g: Graph, snapshot: seq<NodeId>, c: seq<NodeId>)
    requires Valid(g) && Below(snapshot, |g.nodes|) && NoDups(c)
    ensures forall i :: 0 <= i < |snapshot| && snapshot[i] in c && snapshot[i] !in RemoveCheckpointed(g, snapshot, c) ==>
              WalkFinds(g, c, snapshot[i])
  {
    if snapshot != [] {
      var x, rest := snapshot[0], snapshot[1..];
      var next := if WalkFinds(g, c, x) then RemoveFirst(c, x) else c;
      var r := RemoveCheckpointed(g, snapshot, c);
      CheckpointStep(g, c, x);
      CheckpointFoldRemoved(g, rest, next);
      CheckpointFoldOutside(g, rest, next);
      forall i | 0 <= i < |snapshot| && snapshot[i] in c && snapshot[i] !in r ensures WalkFinds(g, c, snapshot[i]) {
        if snapshot[i] != x {
          assert snapshot[i] == rest[i - 1];
          WalkFindsMono(g, next, c, snapshot[i]);
        }
      }
    }
  }

  /** A node of the snapshot that the fold keeps meets no checkpoint among the nodes it keeps. */
  lemma {:induction false} CheckpointFoldKept(g: Graph, snapshot: seq<NodeId>, c: seq<NodeId>)
    requires Valid(g) && Below(snapshot, |g.nodes|) && NoDups(c)
    ensures var r := RemoveCheckpointed(g, snapshot, c);
            forall i :: 0 <= i < |snapshot| && snapshot[i] in r ==> !WalkFinds(g, r, snapshot[i])
  {
    if snapshot != [] {
      var x, rest := snapshot[0], snapshot[1..];
      var next := if WalkFinds(g, c, x) then RemoveFirst(c, x) else c;
      var r := RemoveCheckpointed(g, snapshot, c);
      CheckpointStep(g, c, x);
      CheckpointFoldKept(g, rest, next);
      CheckpointFoldSub(g, rest, next);
      forall i | 0 <= i < |snapshot| && snapshot[i] in r ensures !WalkFinds(g, r, snapshot[i]) {
        if i == 0 {
          WalkFindsMono(g, r, c, x);
        } else {
          assert snapshot[i] == rest[i - 1];
        }
      }
    }
  }

  /**
   * The checkpoint rule on a duplicate-free completed list: it only removes
   * nodes and keeps the order of the others, every removed node meets a
   * checkpoint on its walk up, and no remaining node meets one among the
   * remaining completed nodes.
   */
  lemma RemoveCheckpointedSpec(g: Graph, completed: seq<NodeId>)
    requires Valid(g) && Below(completed, |g.nodes|) && NoDups(completed)
    ensures var r := RemoveCheckpointed(g, completed, completed);
            r == Without(completed, Elems(completed) - Elems(r))
            && (forall x :: x in completed && x !in r ==> WalkFinds(g, completed, x))
            && (forall x :: x in r ==> x < |g.nodes| && !WalkFinds(g, r, x))
  {
    var r := RemoveCheckpointed(g, completed, completed);
    CheckpointFoldOrder(g, completed, completed);
    CheckpointFoldSub(g, completed, completed);
    CheckpointFoldRemoved(g, completed, completed);
    CheckpointFoldKept(g, completed, completed);
    forall x | x in completed && x !in r ensures WalkFinds(g, completed, x) {
      var i :| 0 <= i < |completed| && completed[i] == x;
    }
    forall x | x in r ensures x < |g.nodes| && !WalkFinds(g, r, x) {
      var i :| 0 <= i < |completed| && completed[i] == x;
    }
  }

  /** An activated attack is forgotten when it is completed or its walk meets a checkpoint. */
  predicate Forgotten(g: Graph, completed: seq<NodeId>, x: NodeId)
    requires Valid(g) && x < |g.nodes|
  {
    x in completed || WalkFinds(g, completed, x)
  }

  /**
   * The second loop of `reduce_activated_completed`, as intended: every
   * activated attack is examined, and the walk up is the one of the
   * checkpoint rule.
   */
  function RemoveActivated(g: Graph, completed: seq<NodeId>, snapshot: seq<NodeId>, activated: seq<NodeId>): seq<NodeId>
    requires Valid(g) && Below(snapshot, |g.nodes|)
  {
    if snapshot == [] then activated
    else
      var x := snapshot[0];
      var next := if Forgotten(g, completed, x) then RemoveFirst(activated, x) else activated;
      RemoveActivated(g, completed, snapshot[1..], next)
  }

  /** The second loop only removes. */
  lemma {:induction false} RemoveActivatedSub(g: Graph, completed: seq<NodeId>, snapshot: seq<NodeId>, activated: seq<NodeId>)
    requires Valid(g) && Below(snapshot, |g.nodes|)
    ensures forall y :: y in RemoveActivated(g, completed, snapshot, activated) ==> y in activated
  {
    if snapshot != [] {
      RemoveFirstSub(activated, snapshot[0]);
      RemoveActivatedSub(g, completed, snapshot[1..],
                         if Forgotten(g, completed, snapshot[0]) then RemoveFirst(activated, snapshot[0]) else activated);
    }
  }

  /** The activated attacks of `snapshot` that are forgotten. */
  ghost function ForgottenSet(g: Graph, completed: seq<NodeId>, snapshot: seq<NodeId>): set<NodeId>
    requires Valid(g) && Below(snapshot, |g.nodes|)
  {
    set i | 0 <= i < |snapshot| && Forgotten(g, completed, snapshot[i]) :: snapshot[i]
  }

  lemma ForgottenSetCons(g: Graph, completed: seq<NodeId>, snapshot: seq<NodeId>)
    requires Valid(g) && Below(snapshot, |g.nodes|) && snapshot != []
    ensures ForgottenSet(g, completed, snapshot)
            == (if Forgotten(g, completed, snapshot[0]) then {snapshot[0]} else {})
               + ForgottenSet(g, completed, snapshot[1..])
  {
    var rest := snapshot[1..];
    forall y | y in ForgottenSet(g, completed, snapshot) && y != snapshot[0]
      ensures y in ForgottenSet(g, completed, rest)
    {
      var i :| 0 <= i < |snapshot| && Forgotten(g, completed, snapshot[i]) && snapshot[i] == y;
      assert rest[i - 1] == y;
    }
    forall y | y in ForgottenSet(g, completed, rest)
      ensures y in ForgottenSet(g, completed, snapshot)
    {
      var i :| 0 <= i < |rest| && Forgotten(g, completed, rest[i]) && rest[i] == y;
      assert snapshot[i + 1] == y;
    }
  }

  /** The second loop removes exactly the forgotten attacks and keeps the order of the rest. */
  lemma {:induction false} RemoveActivatedSpec(g: Graph, completed: seq<NodeId>, snapshot: seq<NodeId>, activated: seq<NodeId>)
    requires Valid(g) && Below(snapshot, |g.nodes|) && NoDups(activated)
    ensures RemoveActivated(g, completed, snapshot, activated) == Without(activated, ForgottenSet(g, completed, snapshot))
  {
    if snapshot == [] {
      WithoutAbsent(activated, {});
      assert ForgottenSet(g, completed, snapshot) == {};
    } else {
      var x := snapshot[0];
      var d0: set<NodeId> := if Forgotten(g, completed, x) then {x} else {};
      var next := if Forgotten(g, completed, x) then RemoveFirst(activated, x) else activated;
      RemoveFirstIsWithout(activated, x);
      WithoutAbsent(activated, {});
      assert next == Without(activated, d0);
      RemoveActivatedSpec(g, completed, snapshot[1..], next);
      WithoutWithout(activated, d0, ForgottenSet(g, completed, snapshot[1..]));
      ForgottenSetCons(g, completed, snapshot);
    }
  }

  /**
   * `Tree.reduce_activated_completed`, on copies of the two lists: first the
   * checkpoint rule on the completed nodes, then the removal of forgotten
   * activated attacks against the reduced completed list.
   */
  method ReduceActivatedCompleted(g: Graph, activated: seq<NodeId>, completed: seq<NodeId>)
    returns (activated': seq<NodeId>, completed': seq<NodeId>)
    requires Valid(g) && Below(activated, |g.nodes|) && Below(completed, |g.nodes|)
    ensures completed' == RemoveCheckpointed(g, completed, completed)
    ensures activated' == RemoveActivated(g, completed', activated, activated)
  {
    completed' := completed;
    for i := 0 to |completed|
      invariant RemoveCheckpointed(g, completed[i..], completed') == RemoveCheckpointed(g, completed, completed)
    {
      assert completed[i..][1..] == completed[i + 1..];
      var checkpoint := HasCheckpointAbove(g, completed', completed[i]);
      if checkpoint {
        completed' := RemoveFirst(completed', completed[i]);
      }
    }
    activated' := activated;
    for i := 0 to |activated|
      invariant RemoveActivated(g, completed', activated[i..], activated') == RemoveActivated(g, completed', activated, activated)
    {
      assert activated[i..][1..] == activated[i + 1..];
      var node := activated[i];
      if node in completed' {
        activated' := RemoveFirst(activated', node);
      } else {
        var checkpoint := HasCheckpointAbove(g, completed', node);
        if checkpoint {
          activated' := RemoveFirst(activated', node);
        }
      }
    }
  }

  /** The subgraph below a completed node: the node and everything reachable through children. */
  predicate InCompletedSubadg(g: Graph, completed: seq<NodeId>, x: NodeId)
    requires Valid(g) && Below(completed, |g.nodes|)
  {
    exists i :: 0 <= i < |completed| && (x == completed[i] || x in AT.DfsOrder(Kids(g.nodes), completed[i]))
  }

  /** `completed_subadg` holds exactly the nodes of the subgraphs of the completed nodes. */
  lemma CompletedSubadgSpec(g: Graph, completed: seq<NodeId>, x: NodeId)
    requires Valid(g) && Below(completed, |g.nodes|)
    ensures InCompletedSubadg(g, completed, x) <==>
              exists i :: 0 <= i < |completed| && x in PW.Subtree(Kids(g.nodes), completed[i])
  {
    var kids := Kids(g.nodes);
    forall i | 0 <= i < |completed|
      ensures (x == completed[i] || x in AT.DfsOrder(kids, completed[i])) <==> x in PW.Subtree(kids, completed[i])
    {
      AT.DfsOrderElems(kids, completed[i]);
      assert x in AT.DfsOrder(kids, completed[i]) <==> x in Elems(AT.DfsOrder(kids, completed[i]));
    }
  }
}
