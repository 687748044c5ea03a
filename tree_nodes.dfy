/**
 * Nodes of an attack-defense tree, shared by tree.py and uppaal/tree.py.
 * A goal combines its attack and goal children with AND, OR or EDGE and may
 * carry one defense child.  Attacks and defenses are leaves.
 *
 * Nodes live in an arena, and a node is its index in `seq<Node>`.  A child
 * always has a larger index than the node that lists it, so the structure is
 * acyclic.  Python compares nodes by name.  Names are unique in a
 * well-formed arena, so comparing indices is the same test.
 */
module AttackTree {
  import opened Lists
  import PW = ParentWalk

  type NodeId = nat

  /** `NodeType`, plus the type of a bare `Node` that was given none. */
  datatype NodeType = GoalType | AttackType | DefenseType | NoType

  datatype OperationType = And | Or | Edge

  /** The fields a subclass adds on top of `Node`. */
  datatype Kind =
    | Untyped
    | GoalKind(op: OperationType, reset: bool)
    | AttackKind(completionTime: int, successProbability: real, activationCost: Option<int>, proportionalCost: Option<int>)
    | DefenseKind(period: int, successProbability: real, cost: Option<int>)

  datatype Node = Node(
    name: string,
    parent: Option<NodeId>,
    defenseChild: Option<NodeId>,
    attackChildren: seq<NodeId>,
    goalChildren: seq<NodeId>,
    kind: Kind)

  function TypeOf(n: Node): NodeType
  {
    match n.kind
    case Untyped => NoType
    case GoalKind(_, _) => GoalType
    case AttackKind(_, _, _, _) => AttackType
    case DefenseKind(_, _, _) => DefenseType
  }

  /** Python's rendering of the node type, used in generated names. */
  function TypeName(k: Kind): string
  {
    match k
    case Untyped => "None"
    case GoalKind(_, _) => "NodeType.GOAL"
    case AttackKind(_, _, _, _) => "NodeType.ATTACK"
    case DefenseKind(_, _, _) => "NodeType.DEFENSE"
  }

  /**
   * `Node.__init__`.  An empty child list stands for a missing one, and an
   * empty name stands for no name.  A node without a name is named after
   * its type and `address`, the object's identity.
   */
  function MakeNode(parent: Option<NodeId>, defenseChild: Option<NodeId>, attackChildren: seq<NodeId>,
                    goalChildren: seq<NodeId>, kind: Kind, name: string, address: string): (r: Result<Node>)
    ensures r.Ok? <==> |attackChildren| + |goalChildren| < 3
    ensures r.Ok? ==> r.value.attackChildren == attackChildren && r.value.goalChildren == goalChildren
                      && r.value.defenseChild == defenseChild && r.value.parent == parent && r.value.kind == kind
    ensures r.Ok? ==> r.value.name != "" && (name != "" ==> r.value.name == name)
  {
    if |attackChildren| >= 3 || |goalChildren| >= 3 || |attackChildren| + |goalChildren| >= 3 then
      Error("too many children")
    else
      var n := if name != "" then name else TypeName(kind) + ":" + address;
      Ok(Node(n, parent, defenseChild, attackChildren, goalChildren, kind))
  }

  /** `Attack.__init__`: a leaf that always builds. */
  function MakeAttack(completionTime: int, successProbability: real, name: string, activationCost: Option<int>,
                      proportionalCost: Option<int>, parent: Option<NodeId>, address: string): (r: Node)
    ensures TypeOf(r) == AttackType && r.attackChildren == [] && r.goalChildren == [] && r.defenseChild.None?
    ensures r.kind.successProbability == successProbability && r.kind.completionTime == completionTime
    ensures r.name != "" && (name != "" ==> r.name == name)
  {
    MakeNode(parent, None, [], [], AttackKind(completionTime, successProbability, activationCost, proportionalCost), name, address).value
  }

  /** `Defense.__init__`: a leaf that always builds. */
  function MakeDefense(period: int, successProbability: real, cost: Option<int>, name: string,
                       parent: Option<NodeId>, address: string): (r: Node)
    ensures TypeOf(r) == DefenseType && r.attackChildren == [] && r.goalChildren == [] && r.defenseChild.None?
    ensures r.kind.period == period && r.kind.successProbability == successProbability
    ensures r.name != "" && (name != "" ==> r.name == name)
  {
    MakeNode(parent, None, [], [], DefenseKind(period, successProbability, cost), name, address).value
  }

  /** The type of every node of the arena, by index. */
  function Types(arena: seq<Node>): (types: seq<NodeType>)
    ensures |types| == |arena|
    ensures forall i :: 0 <= i < |arena| ==> types[i] == TypeOf(arena[i])
  {
    seq(|arena|, i requires 0 <= i < |arena| => TypeOf(arena[i]))
  }

  /** All nodes of `s` that have type `t`, in order; `types` gives each node's type. */
  function OfType(types: seq<NodeType>, s: seq<NodeId>, t: NodeType): seq<NodeId>
    requires Below(s, |types|)
  {
    if s == [] then []
    else
      var last := s[|s| - 1];
      OfType(types, s[..|s| - 1], t) + (if types[last] == t then [last] else [])
  }

  /** The last node of `s` with type `t`, if any. */
  function LastOfType(types: seq<NodeType>, s: seq<NodeId>, t: NodeType): Option<NodeId>
    requires Below(s, |types|)
  {
    if s == [] then None
    else if types[s[|s| - 1]] == t then Some(s[|s| - 1])
    else LastOfType(types, s[..|s| - 1], t)
  }

  /** `OfType` keeps exactly the nodes of type `t`, and keeps their order. */
  lemma {:induction false} OfTypeMembers(types: seq<NodeType>, s: seq<NodeId>, t: NodeType)
    requires Below(s, |types|)
    ensures Below(OfType(types, s, t), |types|)
    ensures forall x :: x in OfType(types, s, t) <==> x in s && types[x] == t
  {
    if s != [] {
      var init := s[..|s| - 1];
      assert Below(init, |types|);
      OfTypeMembers(types, init, t);
      assert s == init + [s[|s| - 1]];
    }
  }

  /** Filtering a duplicate-free list gives a duplicate-free list. */
  lemma {:induction false} OfTypeNoDups(types: seq<NodeType>, s: seq<NodeId>, t: NodeType)
    requires Below(s, |types|) && NoDups(s)
    ensures NoDups(OfType(types, s, t))
  {
    if s != [] {
      var init, last := s[..|s| - 1], s[|s| - 1];
      assert NoDups(init);
      OfTypeNoDups(types, init, t);
      OfTypeMembers(types, init, t);
      assert last !in init by {
        forall k | 0 <= k < |init| ensures init[k] != last { assert init[k] == s[k]; }
      }
      NoDupsConcat(OfType(types, init, t), if types[last] == t then [last] else []);
    }
  }

  /** The per-type lists split `s`: their lengths add up to `|s|`. */
  lemma {:induction false} OfTypeSplits(types: seq<NodeType>, s: seq<NodeId>)
    requires Below(s, |types|)
    ensures |OfType(types, s, GoalType)| + |OfType(types, s, AttackType)| + |OfType(types, s, DefenseType)|
            + |OfType(types, s, NoType)| == |s|
  {
    if s != [] {
      OfTypeSplits(types, s[..|s| - 1]);
    }
  }

  /** `LastOfType` finds the last node of type `t`, and finds one exactly when there is one. */
  lemma LastOfTypeIsLast(types: seq<NodeType>, s: seq<NodeId>, t: NodeType)
    requires Below(s, |types|)
    ensures LastOfType(types, s, t).None? <==> forall i :: 0 <= i < |s| ==> types[s[i]] != t
    ensures LastOfType(types, s, t).Some? ==>
              exists i :: 0 <= i < |s| && s[i] == LastOfType(types, s, t).value && types[s[i]] == t
                          && forall j :: i < j < |s| ==> types[s[j]] != t
  {
    LastOfTypeNone(types, s, t);
    if LastOfType(types, s, t).Some? {
      var i := LastOfTypeAt(types, s, t);
    }
  }

  lemma {:induction false} LastOfTypeNone(types: seq<NodeType>, s: seq<NodeId>, t: NodeType)
    requires Below(s, |types|)
    ensures LastOfType(types, s, t).None? <==> forall i :: 0 <= i < |s| ==> types[s[i]] != t
  {
    if s != [] {
      var init := s[..|s| - 1];
      LastOfTypeNone(types, init, t);
      assert forall i :: 0 <= i < |init| ==> init[i] == s[i];
    }
  }

  /** The position of the node `LastOfType` finds: it has type `t` and no later node has. */
  lemma {:induction false} LastOfTypeAt(types: seq<NodeType>, s: seq<NodeId>, t: NodeType) returns (i: nat)
    requires Below(s, |types|) && LastOfType(types, s, t).Some?
    ensures i < |s| && s[i] == LastOfType(types, s, t).value && types[s[i]] == t
    ensures forall j :: i < j < |s| ==> types[s[j]] != t
  {
    var last := |s| - 1;
    if types[s[last]] == t {
      i := last;
    } else {
      var init := s[..last];
      i := LastOfTypeAt(types, init, t);
      assert forall j :: 0 <= j < |init| ==> init[j] == s[j];
    }
  }


  /** The three lists a goal's `children` argument is split into. */
  datatype Parts = Parts(defense: Option<NodeId>, attacks: seq<NodeId>, goals: seq<NodeId>)

  /**
   * The loop of `Goal.__init__` over `children`: attacks and goals keep
   * their order, the last defense wins, and an untyped child raises.
   */
  method PartitionChildren(arena: seq<Node>, children: seq<NodeId>) returns (r: Result<Parts>)
    requires Below(children, |arena|)
    ensures r.Ok? <==> forall i :: 0 <= i < |children| ==> TypeOf(arena[children[i]]) != NoType
    ensures r.Ok? ==> r.value == Parts(LastOfType(Types(arena), children, DefenseType),
                                       OfType(Types(arena), children, AttackType), OfType(Types(arena), children, GoalType))
  {
    var defense: Option<NodeId> := None;
    var attacks: seq<NodeId> := [];
    var goals: seq<NodeId> := [];
    for i := 0 to |children|
      invariant forall k :: 0 <= k < i ==> TypeOf(arena[children[k]]) != NoType
      invariant defense == LastOfType(Types(arena), children[..i], DefenseType)
      invariant attacks == OfType(Types(arena), children[..i], AttackType)
      invariant goals == OfType(Types(arena), children[..i], GoalType)
    {
      var child := children[i];
      assert children[..i + 1][..i] == children[..i];
      match TypeOf(arena[child])
      case DefenseType => defense := Some(child);
      case AttackType => attacks := attacks + [child];
      case GoalType => goals := goals + [child];
      case NoType => return Error("Children without type");
    }
    assert children[..|children|] == children;
    return Ok(Parts(defense, attacks, goals));
  }

  /**
   * `Goal.__init__`.  Given `children`, the explicit child arguments must
   * all be missing, and the children are split by type.  Otherwise the
   * explicit arguments are used as they are.  The node check of
   * `Node.__init__` applies in both cases.
   */
  method MakeGoal(arena: seq<Node>, name: string, op: OperationType, children: seq<NodeId>,
                  defenseChild: Option<NodeId>, attackChildren: Option<seq<NodeId>>, goalChildren: Option<seq<NodeId>>,
                  reset: bool, parent: Option<NodeId>, address: string) returns (r: Result<Node>)
    requires Below(children, |arena|)
    ensures children != [] && (defenseChild.Some? || attackChildren.Some? || goalChildren.Some?) ==> r.Error?
    ensures children != [] && (exists i :: 0 <= i < |children| && TypeOf(arena[children[i]]) == NoType) ==> r.Error?
    ensures children != [] && defenseChild.None? && attackChildren.None? && goalChildren.None?
            && (forall i :: 0 <= i < |children| ==> TypeOf(arena[children[i]]) != NoType) ==>
              (r.Ok? <==> |OfType(Types(arena), children, AttackType)| + |OfType(Types(arena), children, GoalType)| < 3)
              && (r.Ok? ==> r.value.attackChildren == OfType(Types(arena), children, AttackType)
                            && r.value.goalChildren == OfType(Types(arena), children, GoalType)
                            && r.value.defenseChild == LastOfType(Types(arena), children, DefenseType))
    ensures children == [] ==>
              var attacks := if attackChildren.Some? then attackChildren.value else [];
              var goals := if goalChildren.Some? then goalChildren.value else [];
              (r.Ok? <==> |attacks| + |goals| < 3)
              && (r.Ok? ==> r.value.attackChildren == attacks && r.value.goalChildren == goals
                            && r.value.defenseChild == defenseChild)
    ensures r.Ok? ==> r.value.kind == GoalKind(op, reset) && r.value.parent == parent
                      && r.value.name != "" && (name != "" ==> r.value.name == name)
  {
    var defense, attacks, goals := defenseChild, attackChildren, goalChildren;
    if children != [] {
      if defenseChild.Some? || attackChildren.Some? || goalChildren.Some? {
        return Error("explicit children given together with children");
      }
      var parts := PartitionChildren(arena, children);
      if parts.Error? {
        return Error(parts.msg);
      }
      defense, attacks, goals := parts.value.defense, Some(parts.value.attacks), Some(parts.value.goals);
    }
    r := MakeNode(parent, defense, if attacks.Some? then attacks.value else [],
                  if goals.Some? then goals.value else [], GoalKind(op, reset), name, address);
  }

  /** `Node.__lt__`: nodes are ordered by name. */
  predicate NodeLess(a: Node, b: Node)
  {
    Less(a.name, b.name)
  }

  /** `Node.__le__`. */
  predicate NodeLessEq(a: Node, b: Node)
  {
    a.name == b.name || Less(a.name, b.name)
  }

  /** `Node.__eq__`: nodes are equal when their names are. */
  predicate NodeEq(a: Node, b: Node)
  {
    a.name == b.name
  }

  /** Node comparison is a strict total order on names, and `<=` is `<` or `==`. */
  lemma NodeOrder(a: Node, b: Node, c: Node)
    ensures !NodeLess(a, a)
    ensures NodeLess(a, b) && NodeLess(b, c) ==> NodeLess(a, c)
    ensures NodeEq(a, b) || NodeLess(a, b) || NodeLess(b, a)
    ensures !(NodeLess(a, b) && NodeLess(b, a))
    ensures NodeLessEq(a, b) <==> NodeLess(a, b) || NodeEq(a, b)
  {
    LessIrreflexive(a.name);
    LessTotal(a.name, b.name);
    if NodeLess(a, b) && NodeLess(b, c) {
      LessTransitive(a.name, b.name, c.name);
    }
  }

  /** In a well-formed arena, equal nodes are the same node: comparing indices is `__eq__`. */
  lemma EqIsIdentity(arena: seq<Node>, i: NodeId, j: NodeId)
    requires WellFormed(arena) && i < |arena| && j < |arena|
    ensures NodeEq(arena[i], arena[j]) <==> i == j
  {
  }

  /** `Node.get_children`: attacks, then goals, then the defense when it is asked for. */
  function GetChildren(n: Node, includeDefense: bool): (r: seq<NodeId>)
    ensures forall c :: c in r <==> c in n.attackChildren || c in n.goalChildren || (includeDefense && n.defenseChild == Some(c))
    ensures |r| == |n.attackChildren| + |n.goalChildren| + (if includeDefense && n.defenseChild.Some? then 1 else 0)
    ensures r[..|n.attackChildren|] == n.attackChildren
    ensures r[|n.attackChildren|..|n.attackChildren| + |n.goalChildren|] == n.goalChildren
    ensures includeDefense && n.defenseChild.Some? ==> r[|r| - 1] == n.defenseChild.value
  {
    if includeDefense && n.defenseChild.Some? then n.attackChildren + n.goalChildren + [n.defenseChild.value]
    else n.attackChildren + n.goalChildren
  }

  /** The children of every node of the arena. */
  function Kids(arena: seq<Node>, includeDefense: bool): (kids: seq<seq<NodeId>>)
    ensures |kids| == |arena|
    ensures forall i :: 0 <= i < |arena| ==> kids[i] == GetChildren(arena[i], includeDefense)
  {
    seq(|arena|, i requires 0 <= i < |arena| => GetChildren(arena[i], includeDefense))
  }

  /** Children have larger indices than their owner, and names are unique. */
  ghost predicate WellFormed(arena: seq<Node>)
  {
    PW.Downward(Kids(arena, true))
    && forall i, j :: 0 <= i < |arena| && 0 <= j < |arena| && arena[i].name == arena[j].name ==> i == j
  }

  /** Leaving the defense children out keeps the arena acyclic. */
  lemma KidsWithoutDefense(arena: seq<Node>)
    requires PW.Downward(Kids(arena, true))
    ensures PW.Downward(Kids(arena, false))
  {
    var kids, all := Kids(arena, false), Kids(arena, true);
    forall i, k | 0 <= i < |kids| && 0 <= k < |kids[i]| ensures i < kids[i][k] < |kids| {
      assert kids[i][k] == all[i][k];
    }
  }

  /** The order in which `Node.dfs` appends the nodes below `id`. */
  function DfsOrder(kids: seq<seq<NodeId>>, id: NodeId): (r: seq<NodeId>)
    requires PW.Downward(kids) && id < |kids|
    ensures Below(r, |kids|)
    decreases |kids| - id, 1
  {
    DfsAll(kids, id, kids[id])
  }

  /** `for child in ks: visited.append(child); child.dfs(visited)`. */
  function DfsAll(kids: seq<seq<NodeId>>, owner: NodeId, ks: seq<NodeId>): (r: seq<NodeId>)
    requires PW.Downward(kids) && owner < |kids|
    requires forall k :: 0 <= k < |ks| ==> owner < ks[k] < |kids|
    ensures Below(r, |kids|)
    decreases |kids| - owner, 0, |ks|
  {
    if ks == [] then [] else [ks[0]] + DfsOrder(kids, ks[0]) + DfsAll(kids, owner, ks[1..])
  }

  /** `Node.dfs`: appends to `visited` every node below `id`, depth first, each before its children. */
  method Dfs(arena: seq<Node>, id: NodeId, visited: seq<NodeId>, includeDefense: bool) returns (r: seq<NodeId>)
    requires PW.Downward(Kids(arena, includeDefense)) && id < |arena|
    ensures r == visited + DfsOrder(Kids(arena, includeDefense), id)
    decreases |arena| - id
  {
    ghost var kids := Kids(arena, includeDefense);
    var children := GetChildren(arena[id], includeDefense);
    r := visited;
    for j := 0 to |children|
      invariant r + DfsAll(kids, id, children[j..]) == visited + DfsOrder(kids, id)
    {
      assert children[j..] == [children[j]] + children[j + 1..];
      r := r + [children[j]];
      r := Dfs(arena, children[j], r, includeDefense);
    }
  }

  /** The depth-first order lists exactly the nodes strictly below `id`. */
  lemma {:induction false} DfsOrderElems(kids: seq<seq<NodeId>>, id: NodeId)
    requires PW.Downward(kids) && id < |kids|
    ensures Elems(DfsOrder(kids, id)) == PW.Subtree(kids, id) - {id}
    decreases |kids| - id, 1
  {
    assert Below(kids[id], |kids|);
    DfsAllElems(kids, id, kids[id]);
    PW.SubtreeBounds(kids, id);
    forall d | d in PW.Covered(kids, kids[id]) ensures d != id {
      var c :| c in kids[id] && d in PW.Subtree(kids, c);
      PW.ChildInRange(kids, id, c);
      PW.SubtreeBounds(kids, c);
    }
    assert PW.Subtree(kids, id) == {id} + PW.Covered(kids, kids[id]);
  }

  lemma {:induction false} DfsAllElems(kids: seq<seq<NodeId>>, owner: NodeId, ks: seq<NodeId>)
    requires PW.Downward(kids) && owner < |kids|
    requires forall k :: 0 <= k < |ks| ==> owner < ks[k] < |kids|
    ensures Below(ks, |kids|) && Elems(DfsAll(kids, owner, ks)) == PW.Covered(kids, ks)
    decreases |kids| - owner, 0, |ks|
  {
    if ks != [] {
      DfsOrderElems(kids, ks[0]);
      DfsAllElems(kids, owner, ks[1..]);
      assert ks[0] in PW.Subtree(kids, ks[0]);
      assert PW.Covered(kids, ks) == PW.Subtree(kids, ks[0]) + PW.Covered(kids, ks[1..]);
      var d := DfsAll(kids, owner, ks);
      assert d == [ks[0]] + DfsOrder(kids, ks[0]) + DfsAll(kids, owner, ks[1..]);
      assert Elems(d) == {ks[0]} + Elems(DfsOrder(kids, ks[0])) + Elems(DfsAll(kids, owner, ks[1..]));
    }
  }

  /** No node lists the same child twice. */
  predicate SimpleLists(kids: seq<seq<NodeId>>)
  {
    forall i :: 0 <= i < |kids| ==> NoDups(kids[i])
  }

  /** Under single ownership, the subtrees of two different children of one node share no node. */
  lemma {:induction false} SubtreesDisjoint(kids: seq<seq<NodeId>>, u: set<NodeId>, owner: NodeId, c1: NodeId, c2: NodeId, d: NodeId)
    requires PW.Downward(kids) && owner < |kids| && c1 in kids[owner] && c2 in kids[owner] && c1 != c2
    requires owner in u && PW.UniqueOwners(kids, u)
    requires c1 < |kids| && c2 < |kids| && PW.Subtree(kids, c1) <= u && PW.Subtree(kids, c2) <= u
    ensures !(d in PW.Subtree(kids, c1) && d in PW.Subtree(kids, c2))
    decreases d
  {
    PW.ChildInRange(kids, owner, c1);
    PW.ChildInRange(kids, owner, c2);
    PW.SubtreeBounds(kids, c1);
    PW.SubtreeBounds(kids, c2);
    if d in PW.Subtree(kids, c1) && d in PW.Subtree(kids, c2) {
      if d == c1 {
        PW.HasOwnerInSubtree(kids, c2, c1);
        assert false;
      } else if d == c2 {
        PW.HasOwnerInSubtree(kids, c1, c2);
        assert false;
      } else {
        PW.HasOwnerInSubtree(kids, c1, d);
        PW.HasOwnerInSubtree(kids, c2, d);
        var k1 :| k1 in PW.Subtree(kids, c1) && k1 < |kids| && d in kids[k1];
        var k2 :| k2 in PW.Subtree(kids, c2) && k2 < |kids| && d in kids[k2];
        assert k1 == k2;
        PW.ChildInRange(kids, k1, d);
        SubtreesDisjoint(kids, u, owner, c1, c2, k1);
        assert false;
      }
    }
  }

  /**
   * When every node below `id` has a single owner and no list repeats a
   * child, the depth-first order visits each node exactly once.
   */
  lemma {:induction false} DfsOrderNoDups(kids: seq<seq<NodeId>>, id: NodeId, u: set<NodeId>)
    requires PW.Downward(kids) && id < |kids| && SimpleLists(kids)
    requires PW.Subtree(kids, id) <= u && PW.UniqueOwners(kids, u)
    ensures NoDups(DfsOrder(kids, id))
    decreases |kids| - id, 1
  {
    assert PW.Subtree(kids, id) == {id} + PW.Covered(kids, kids[id]);
    forall k | 0 <= k < |kids[id]| ensures kids[id][k] in kids[id] { }
    DfsAllNoDups(kids, id, kids[id], u);
  }

  lemma {:induction false} DfsAllNoDups(kids: seq<seq<NodeId>>, owner: NodeId, ks: seq<NodeId>, u: set<NodeId>)
    requires PW.Downward(kids) && owner < |kids| && SimpleLists(kids)
    requires forall k :: 0 <= k < |ks| ==> owner < ks[k] < |kids| && ks[k] in kids[owner]
    requires NoDups(ks) && owner in u && PW.Covered(kids, ks) <= u && PW.UniqueOwners(kids, u)
    ensures NoDups(DfsAll(kids, owner, ks))
    decreases |kids| - owner, 0, |ks|
  {
    if ks != [] {
      var c := ks[0];
      PW.CoveredCons(kids, ks);
      var head, rest := [c] + DfsOrder(kids, c), DfsAll(kids, owner, ks[1..]);
      HeadNoDups(kids, c, u);
      assert NoDups(ks[1..]);
      DfsAllNoDups(kids, owner, ks[1..], u);
      DfsAllElems(kids, owner, ks[1..]);
      FirstDisjoint(kids, u, owner, ks);
      NoDupsConcat(head, rest);
      assert DfsAll(kids, owner, ks) == head + rest;
    }
  }

  /** The order of a subtree, its root first, repeats no node and holds exactly the subtree. */
  lemma HeadNoDups(kids: seq<seq<NodeId>>, c: NodeId, u: set<NodeId>)
    requires PW.Downward(kids) && c < |kids| && SimpleLists(kids)
    requires PW.Subtree(kids, c) <= u && PW.UniqueOwners(kids, u)
    ensures NoDups([c] + DfsOrder(kids, c)) && Elems([c] + DfsOrder(kids, c)) == PW.Subtree(kids, c)
    decreases |kids| - c, 2
  {
    assert c in PW.Subtree(kids, c);
    DfsOrderNoDups(kids, c, u);
    DfsOrderElems(kids, c);
    NoDupsConcat([c], DfsOrder(kids, c));
    assert Elems([c] + DfsOrder(kids, c)) == {c} + Elems(DfsOrder(kids, c));
  }

  /** The subtree of the first child shares no node with the subtrees of the other children. */
  lemma FirstDisjoint(kids: seq<seq<NodeId>>, u: set<NodeId>, owner: NodeId, ks: seq<NodeId>)
    requires PW.Downward(kids) && owner < |kids| && ks != []
    requires forall k :: 0 <= k < |ks| ==> owner < ks[k] < |kids| && ks[k] in kids[owner]
    requires NoDups(ks) && owner in u && PW.Covered(kids, ks) <= u && PW.UniqueOwners(kids, u)
    requires Below(ks, |kids|) && Below(ks[1..], |kids|)
    requires PW.Covered(kids, ks) == PW.Subtree(kids, ks[0]) + PW.Covered(kids, ks[1..])
    ensures PW.Subtree(kids, ks[0]) * PW.Covered(kids, ks[1..]) == {}
  {
    forall d | d in PW.Subtree(kids, ks[0]) && d in PW.Covered(kids, ks[1..]) ensures false {
      var c2 :| c2 in ks[1..] && d in PW.Subtree(kids, c2);
      var j :| 0 <= j < |ks[1..]| && ks[1..][j] == c2;
      assert ks[0] != ks[j + 1];
      SubtreesDisjoint(kids, u, owner, ks[0], c2, d);
      assert false;
    }
  }


  /** Every node of `d` is a child of `owner` or of a node listed before it. */
  ghost predicate PreOrder(kids: seq<seq<NodeId>>, owner: NodeId, d: seq<NodeId>)
    requires owner < |kids| && Below(d, |kids|)
  {
    forall j :: 0 <= j < |d| ==> d[j] in kids[owner] || exists i :: 0 <= i < j && d[j] in kids[d[i]]
  }

  /** Depth first: each node is appended after the node that lists it. */
  lemma {:induction false} DfsOrderPreOrder(kids: seq<seq<NodeId>>, id: NodeId)
    requires PW.Downward(kids) && id < |kids|
    ensures Below(DfsOrder(kids, id), |kids|) && PreOrder(kids, id, DfsOrder(kids, id))
    decreases |kids| - id, 1
  {
    DfsAllPreOrder(kids, id, kids[id]);
  }

  lemma {:induction false} DfsAllPreOrder(kids: seq<seq<NodeId>>, owner: NodeId, ks: seq<NodeId>)
    requires PW.Downward(kids) && owner < |kids|
    requires forall k :: 0 <= k < |ks| ==> owner < ks[k] < |kids| && ks[k] in kids[owner]
    ensures Below(DfsAll(kids, owner, ks), |kids|) && PreOrder(kids, owner, DfsAll(kids, owner, ks))
    decreases |kids| - owner, 0, |ks|
  {
    if ks != [] {
      var c := ks[0];
      DfsOrderPreOrder(kids, c);
      DfsAllPreOrder(kids, owner, ks[1..]);
      PreOrderCons(kids, owner, c, DfsOrder(kids, c), DfsAll(kids, owner, ks[1..]));
      assert DfsAll(kids, owner, ks) == [c] + DfsOrder(kids, c) + DfsAll(kids, owner, ks[1..]);
    }
  }

  /** A child of `owner`, then a pre-order of its subtree, then a pre-order of the rest, is a pre-order. */
  lemma PreOrderCons(kids: seq<seq<NodeId>>, owner: NodeId, c: NodeId, sub: seq<NodeId>, rest: seq<NodeId>)
    requires owner < |kids| && c < |kids| && c in kids[owner] && Below(sub, |kids|) && Below(rest, |kids|)
    requires PreOrder(kids, c, sub) && PreOrder(kids, owner, rest)
    ensures Below([c] + sub + rest, |kids|) && PreOrder(kids, owner, [c] + sub + rest)
  {
    var d := [c] + sub + rest;
    forall j | 0 <= j < |d| ensures d[j] < |kids| {
      if j == 0 { } else if j <= |sub| { assert d[j] == sub[j - 1]; } else { assert d[j] == rest[j - 1 - |sub|]; }
    }
    forall j | 0 <= j < |d| ensures d[j] in kids[owner] || exists i :: 0 <= i < j && d[j] in kids[d[i]] {
      if j == 0 {
      } else if j <= |sub| {
        assert d[j] == sub[j - 1];
        if sub[j - 1] in kids[c] {
          assert d[0] == c;
        } else {
          var i :| 0 <= i < j - 1 && sub[j - 1] in kids[sub[i]];
          assert d[i + 1] == sub[i];
        }
      } else {
        var j' := j - 1 - |sub|;
        assert d[j] == rest[j'];
        if rest[j'] !in kids[owner] {
          var i :| 0 <= i < j' && rest[j'] in kids[rest[i]];
          assert d[i + 1 + |sub|] == rest[i];
        }
      }
    }
  }

}
