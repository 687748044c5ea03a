/**
 * The `Tree` class of tree.py and uppaal/tree.py.  Building a tree sets
 * the parent field of every node below the root, records the defense
 * periods, and indexes attacks, defenses and goals in depth-first order.
 * The parent fields are the only node state the class writes.  They live
 * in the tree as `parent`, indexed by node.
 */
module Trees {
  import opened Lists
  import opened AttackTree
  import PW = ParentWalk
  import TR = TreeReduction

  /** The parent fields the nodes were constructed with. */
  function InitialParents(arena: seq<Node>): (parent: seq<Option<NodeId>>)
    ensures |parent| == |arena|
    ensures forall i :: 0 <= i < |arena| ==> parent[i] == arena[i].parent
  {
    seq(|arena|, i requires 0 <= i < |arena| => arena[i].parent)
  }

  /** The periods of the defenses among `s`, in order. */
  function Periods(arena: seq<Node>, s: seq<NodeId>): seq<int>
    requires Below(s, |arena|)
  {
    if s == [] then []
    else
      var last := arena[s[|s| - 1]];
      Periods(arena, s[..|s| - 1]) + (if last.kind.DefenseKind? then [last.kind.period] else [])
  }

  /** One more node of `s` adds its period when it is a defense. */
  lemma PeriodsStep(arena: seq<Node>, s: seq<NodeId>, i: nat)
    requires Below(s, |arena|) && i < |s|
    ensures Below(s[..i], |arena|) && Below(s[..i + 1], |arena|)
    ensures Periods(arena, s[..i + 1])
            == Periods(arena, s[..i]) + (if arena[s[i]].kind.DefenseKind? then [arena[s[i]].kind.period] else [])
  {
    assert s[..i + 1][..i] == s[..i];
  }

  /** The periods are those of the defenses of `s`, one for one and in the same order. */
  lemma {:induction false} PeriodsOfDefenses(arena: seq<Node>, s: seq<NodeId>)
    requires Below(s, |arena|)
    ensures Below(OfType(Types(arena), s, DefenseType), |arena|)
    ensures |Periods(arena, s)| == |OfType(Types(arena), s, DefenseType)|
    ensures forall i :: 0 <= i < |Periods(arena, s)| ==>
              arena[OfType(Types(arena), s, DefenseType)[i]].kind.DefenseKind?
              && Periods(arena, s)[i] == arena[OfType(Types(arena), s, DefenseType)[i]].kind.period
  {
    if s != [] {
      PeriodsOfDefenses(arena, s[..|s| - 1]);
      OfTypeMembers(Types(arena), s[..|s| - 1], DefenseType);
    }
  }

  /** Every parent field outside the subtree of `root` points to a node with a smaller index. */
  ghost predicate UpwardOutside(kids: seq<seq<NodeId>>, parent: seq<Option<NodeId>>, root: NodeId)
    requires PW.Downward(kids) && root < |kids|
  {
    forall i :: 0 <= i < |parent| && i !in PW.Subtree(kids, root) && parent[i].Some? ==> parent[i].value < i
  }

  /**
   * After a successful `set_parents()` from `id`, every parent field points
   * to a smaller index exactly when this held outside the subtree of `id`:
   * the walk itself only writes parents that enclose their child.
   */
  lemma AssignUpwardIff(kids: seq<seq<NodeId>>, parent: seq<Option<NodeId>>, id: NodeId)
    requires PW.Downward(kids) && |parent| == |kids| && id < |kids|
    requires PW.Assign(kids, parent, id, None).Some?
    ensures TR.Upward(PW.Assign(kids, parent, id, None).value) <==> UpwardOutside(kids, parent, id)
  {
    var r := PW.Assign(kids, parent, id, None).value;
    PW.AssignSound(kids, parent, id, None);
    if UpwardOutside(kids, parent, id) {
      forall j | 0 <= j < |r| && r[j].Some? ensures r[j].value < j {
        if j in PW.Subtree(kids, id) && j != id {
          PW.HasOwnerInSubtree(kids, id, j);
          var k :| k in PW.Subtree(kids, id) && k < |kids| && j in kids[k];
          PW.ChildInRange(kids, k, j);
        }
      }
    }
    if TR.Upward(r) {
      forall i | 0 <= i < |parent| && i !in PW.Subtree(kids, id) && parent[i].Some? ensures parent[i].value < i {
        assert r[i] == parent[i];
      }
    }
  }

  class Tree {
    const arena: seq<Node>
    const root: NodeId
    /** The parent field of every node of the arena. */
    var parent: seq<Option<NodeId>>
    var defensePeriods: seq<int>
    var attacks: seq<NodeId>
    var defenses: seq<NodeId>
    var goals: seq<NodeId>
    /** `self.nodes`: the attacks followed by the goals. */
    var nodes: seq<NodeId>

    /** The arena is acyclic, the root is one of its nodes, and every node has a parent field. */
    ghost predicate Shape()
      reads this
    {
      PW.Downward(Kids(arena, true)) && PW.Downward(Kids(arena, false)) && root < |arena| && |parent| == |arena|
    }

    /** Moreover every parent field points to a node with a smaller index, so walks up the parents end. */
    ghost predicate Valid()
      reads this
    {
      Shape() && TR.Upward(parent)
    }

    /** The depth-first order of the nodes below the root, defenses included. */
    ghost function Order(): seq<NodeId>
      reads this
      requires Shape()
    {
      DfsOrder(Kids(arena, true), root)
    }

    /** The object as it stands before `set_parents` runs: nodes keep their own parent fields. */
    constructor Init(arena: seq<Node>, root: NodeId)
      requires PW.Downward(Kids(arena, true)) && root < |arena|
      ensures Shape() && this.arena == arena && this.root == root && parent == InitialParents(arena)
      ensures defensePeriods == [] && attacks == [] && defenses == [] && goals == [] && nodes == []
    {
      KidsWithoutDefense(arena);
      this.arena := arena;
      this.root := root;
      parent := InitialParents(arena);
      defensePeriods, attacks, defenses, goals, nodes := [], [], [], [], [];
    }

    /**
     * `Node.set_parents(p)` on node `id`: check the current parent field,
     * set it, and recurse into every child, the defense child included.
     * On failure the walk stops half-way; the fields it wrote stay written.
     */
    method SetParents(id: NodeId, p: Option<NodeId>) returns (ok: bool)
      requires Shape() && id < |arena|
      modifies this`parent
      ensures Shape()
      ensures ok <==> PW.Assign(Kids(arena, true), old(parent), id, p).Some?
      ensures ok ==> parent == PW.Assign(Kids(arena, true), old(parent), id, p).value
      decreases |arena| - id
    {
      ghost var kids := Kids(arena, true);
      if !PW.CheckParent(parent[id], p) {
        return false;
      }
      parent := parent[id := p];
      var children := GetChildren(arena[id], true);
      assert children == kids[id];
      for j := 0 to |children|
        invariant Shape()
        invariant PW.AssignAll(kids, parent, id, children[j..]) == PW.Assign(kids, old(parent), id, p)
      {
        ghost var before := parent;
        ghost var rest := children[j..];
        assert rest[0] == children[j] && rest[1..] == children[j + 1..];
        ok := SetParents(children[j], Some(id));
        if !ok {
          assert PW.AssignAll(kids, before, id, rest) == None;
          return false;
        }
        assert PW.AssignAll(kids, before, id, rest) == PW.AssignAll(kids, parent, id, children[j + 1..]);
      }
      assert PW.AssignAll(kids, parent, id, children[|children|..]) == Some(parent);
      return true;
    }

    /** `Tree.dfs`: nothing for a defense root when defenses are left out, else the root's depth-first order. */
    method Dfs(includeDefense: bool) returns (r: seq<NodeId>)
      requires Shape()
      ensures TypeOf(arena[root]) == DefenseType && !includeDefense ==> r == []
      ensures !(TypeOf(arena[root]) == DefenseType && !includeDefense) ==> r == DfsOrder(Kids(arena, includeDefense), root)
    {
      if TypeOf(arena[root]) == DefenseType && !includeDefense {
        return [];
      }
      r := AttackTree.Dfs(arena, root, [], includeDefense);
    }

    /** `get_defense_periods`: the period of every defense, in depth-first order. */
    method GetDefensePeriods() returns (periods: seq<int>)
      requires Shape()
      ensures periods == Periods(arena, Order())
    {
      var order := Dfs(true);
      periods := [];
      for i := 0 to |order|
        invariant periods == Periods(arena, order[..i])
      {
        PeriodsStep(arena, order, i);
        var node := arena[order[i]];
        if node.kind.DefenseKind? {
          periods := periods + [node.kind.period];
        }
      }
      assert order[..|order|] == order;
    }

    /** `init_dfs`: the depth-first order split by node type; `nodes` is the attacks then the goals. */
    method InitDfs()
      requires Shape()
      modifies this
      ensures Shape() && parent == old(parent) && defensePeriods == old(defensePeriods)
      ensures attacks == OfType(Types(arena), Order(), AttackType)
      ensures defenses == OfType(Types(arena), Order(), DefenseType)
      ensures goals == OfType(Types(arena), Order(), GoalType)
      ensures nodes == attacks + goals
    {
      var order := AttackTree.Dfs(arena, root, [], true);
      var a, d, g := [], [], [];
      for i := 0 to |order|
        invariant a == OfType(Types(arena), order[..i], AttackType)
        invariant d == OfType(Types(arena), order[..i], DefenseType)
        invariant g == OfType(Types(arena), order[..i], GoalType)
      {
        assert order[..i + 1][..i] == order[..i];
        var node := order[i];
        match TypeOf(arena[node])
        case AttackType => a := a + [node];
        case DefenseType => d := d + [node];
        case GoalType => g := g + [node];
        case NoType =>
      }
      assert order[..|order|] == order;
      attacks, defenses, goals, nodes := a, d, g, a + g;
    }

    /** `reduce_activated_completed`, on copies of the two lists, over this tree's parent fields. */
    method ReduceActivatedCompleted(activated: seq<NodeId>, completed: seq<NodeId>)
      returns (activated': seq<NodeId>, completed': seq<NodeId>)
      requires Valid() && Below(activated, |arena|) && Below(completed, |arena|)
      ensures var closed := TR.P.Propagate(TR.TreeHierarchy(arena, parent), completed);
              Below(closed, |parent|)
              && completed' == TR.RemoveBackedUp(arena, parent, closed, closed)
              && activated' == TR.RemoveActivated(arena, parent, completed', activated, activated)
    {
      activated', completed' := TR.Reduce(arena, parent, activated, completed);
    }
  }

  /**
   * `Tree(root)`.  With `rejectResetRoot` (uppaal/tree.py) the root must be
   * a goal without the reset flag.  Then `set_parents()` runs from the root,
   * and the defense periods and the per-type lists are computed.
   */
  method NewTree(arena: seq<Node>, root: NodeId, rejectResetRoot: bool) returns (r: Result<Tree>)
    requires PW.Downward(Kids(arena, true)) && root < |arena|
    ensures r.Ok? <==> (!rejectResetRoot || (arena[root].kind.GoalKind? && !arena[root].kind.reset))
                       && PW.Assign(Kids(arena, true), InitialParents(arena), root, None).Some?
    ensures r.Ok? ==> fresh(r.value) && r.value.Shape() && r.value.arena == arena && r.value.root == root
    ensures r.Ok? ==> (r.value.Valid() <==> UpwardOutside(Kids(arena, true), InitialParents(arena), root))
    ensures r.Ok? ==> r.value.parent == PW.Assign(Kids(arena, true), InitialParents(arena), root, None).value
    ensures r.Ok? ==> r.value.defensePeriods == Periods(arena, r.value.Order())
                      && r.value.attacks == OfType(Types(arena), r.value.Order(), AttackType)
                      && r.value.defenses == OfType(Types(arena), r.value.Order(), DefenseType)
                      && r.value.goals == OfType(Types(arena), r.value.Order(), GoalType)
                      && r.value.nodes == r.value.attacks + r.value.goals
  {
    if rejectResetRoot && !(arena[root].kind.GoalKind? && !arena[root].kind.reset) {
      return Error("root must be a goal that is not reset");
    }
    var t := new Tree.Init(arena, root);
    var ok := t.SetParents(root, None);
    if !ok {
      return Error("node already has a different parent");
    }
    AssignUpwardIff(Kids(arena, true), InitialParents(arena), root);
    t.defensePeriods := t.GetDefensePeriods();
    t.InitDfs();
    return Ok(t);
  }
}
