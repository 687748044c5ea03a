/**
 * The recursive walk behind `set_parents` (tree.py:57-64, uppaal/tree.py:75-82):
 *
 *     def set_parents(self, parent=None):
 *         <check that self.parent is None or equals parent>
 *         self.parent = parent
 *         for child in <children>: child.set_parents(self)
 *
 * over an arena of nodes: `kids[i]` lists the children the walk visits from
 * node i, and every child has a larger index than its owner (the structure
 * is acyclic).  `parent[i]` is node i's parent field.  A failed check is an
 * assertion error that aborts the walk, modelled as None.
 */
module ParentWalk {
  import opened Lists

  type NodeId = nat

  /** Children always have larger indices than their owner, and are nodes of the arena. */
  predicate Downward(kids: seq<seq<NodeId>>)
  {
    forall i, k :: 0 <= i < |kids| && 0 <= k < |kids[i]| ==> i < kids[i][k] < |kids|
  }

  /** Node `id` and every node below it. */
  ghost function Subtree(kids: seq<seq<NodeId>>, id: NodeId): set<NodeId>
    requires Downward(kids) && id < |kids|
    decreases |kids| - id
  {
    {id} + set c, d | c in kids[id] && d in Subtree(kids, c) :: d
  }

  /** The nodes below the children in `ks`, the children included. */
  ghost function Covered(kids: seq<seq<NodeId>>, ks: seq<NodeId>): set<NodeId>
    requires Downward(kids) && Below(ks, |kids|)
  {
    set c, d | c in ks && d in Subtree(kids, c) :: d
  }

  /** The nodes below a list are those below its head and those below its tail. */
  lemma CoveredCons(kids: seq<seq<NodeId>>, ks: seq<NodeId>)
    requires Downward(kids) && Below(ks, |kids|) && ks != []
    ensures Below(ks[1..], |kids|) && Covered(kids, ks) == Subtree(kids, ks[0]) + Covered(kids, ks[1..])
  {
    assert forall c :: c in ks <==> c == ks[0] || c in ks[1..];
  }

  /** Compatibility with a set carries over to its subsets. */
  lemma CompatibleSub(kids: seq<seq<NodeId>>, parent: seq<Option<NodeId>>, s: set<NodeId>, t: set<NodeId>)
    requires s <= t && Compatible(kids, parent, t)
    ensures Compatible(kids, parent, s)
  {
  }

  lemma SubtreeBounds(kids: seq<seq<NodeId>>, id: NodeId)
    requires Downward(kids) && id < |kids|
    ensures forall d :: d in Subtree(kids, id) ==> id <= d < |kids|
    decreases |kids| - id
  {
    forall d | d in Subtree(kids, id) ensures id <= d < |kids| {
      if d != id {
        var c :| c in kids[id] && d in Subtree(kids, c);
        SubtreeBounds(kids, c);
      }
    }
  }

  /** The check of `check_parent`: unset, or already the same parent. */
  predicate CheckParent(current: Option<NodeId>, p: Option<NodeId>)
  {
    current.None? || current == p
  }

  /** `set_parents(p)` on node `id`: the new parent fields, or None when an assertion fails. */
  function Assign(kids: seq<seq<NodeId>>, parent: seq<Option<NodeId>>, id: NodeId, p: Option<NodeId>): Option<seq<Option<NodeId>>>
    requires Downward(kids) && |parent| == |kids| && id < |kids|
    decreases |kids| - id, 1, 0
  {
    if !CheckParent(parent[id], p) then None
    else AssignAll(kids, parent[id := p], id, kids[id])
  }

  /** `for child in ks: child.set_parents(owner)`. */
  function AssignAll(kids: seq<seq<NodeId>>, parent: seq<Option<NodeId>>, owner: NodeId, ks: seq<NodeId>): Option<seq<Option<NodeId>>>
    requires Downward(kids) && |parent| == |kids| && owner < |kids|
    requires forall k :: 0 <= k < |ks| ==> owner < ks[k] < |kids|
    decreases |kids| - owner, 0, |ks|
  {
    if ks == [] then Some(parent)
    else match Assign(kids, parent, ks[0], Some(owner))
      case None => None
      case Some(parent') =>
        if |parent'| == |parent| then AssignAll(kids, parent', owner, ks[1..]) else None
  }

  /** Every child of every node in `s` has that node as its parent. */
  ghost predicate OwnedBy(kids: seq<seq<NodeId>>, r: seq<Option<NodeId>>, s: set<NodeId>)
    requires |r| == |kids|
  {
    forall k, c :: k in s && k < |kids| && c in kids[k] ==> c < |r| && r[c] == Some(k)
  }

  /** A parent field that was already set keeps its value. */
  ghost predicate KeepsSet(parent: seq<Option<NodeId>>, r: seq<Option<NodeId>>)
    requires |r| == |parent|
  {
    forall j :: 0 <= j < |parent| && parent[j].Some? ==> r[j] == parent[j]
  }

  /** Only the fields of nodes in `s` may differ. */
  ghost predicate ChangesOnly(parent: seq<Option<NodeId>>, r: seq<Option<NodeId>>, s: set<NodeId>)
    requires |r| == |parent|
  {
    forall j :: 0 <= j < |parent| && j !in s ==> r[j] == parent[j]
  }

  /**
   * A successful walk from `id` gives `id` the parent `p`, gives every
   * other node below `id` the node that encloses it, overwrites no parent that
   * was already set, and touches nothing outside the subtree.
   */
  lemma {:induction false} AssignSound(kids: seq<seq<NodeId>>, parent: seq<Option<NodeId>>, id: NodeId, p: Option<NodeId>)
    requires Downward(kids) && |parent| == |kids| && id < |kids|
    requires Assign(kids, parent, id, p).Some?
    ensures var r := Assign(kids, parent, id, p).value;
      |r| == |parent| && r[id] == p &&
      OwnedBy(kids, r, Subtree(kids, id)) &&
      KeepsSet(parent, r) &&
      ChangesOnly(parent, r, Subtree(kids, id))
    decreases |kids| - id, 1, 0
  {
    var parent1 := parent[id := p];
    var r := Assign(kids, parent, id, p).value;
    AssignAllSound(kids, parent1, id, kids[id]);
    SubtreeBounds(kids, id);
    forall c | c in kids[id] ensures id < c {
      var k :| 0 <= k < |kids[id]| && kids[id][k] == c;
    }
    assert id !in Covered(kids, kids[id]) by {
      if id in Covered(kids, kids[id]) {
        var c :| c in kids[id] && id in Subtree(kids, c);
        var k :| 0 <= k < |kids[id]| && kids[id][k] == c;
        SubtreeBounds(kids, c);
      }
    }
    assert Subtree(kids, id) == {id} + Covered(kids, kids[id]);
  }

  lemma {:induction false} AssignAllSound(kids: seq<seq<NodeId>>, parent: seq<Option<NodeId>>, owner: NodeId, ks: seq<NodeId>)
    requires Downward(kids) && |parent| == |kids| && owner < |kids|
    requires forall k :: 0 <= k < |ks| ==> owner < ks[k] < |kids|
    requires AssignAll(kids, parent, owner, ks).Some?
    ensures var r := AssignAll(kids, parent, owner, ks).value;
      |r| == |parent| &&
      (forall c :: c in ks ==> r[c] == Some(owner)) &&
      OwnedBy(kids, r, Covered(kids, ks)) &&
      KeepsSet(parent, r) &&
      ChangesOnly(parent, r, Covered(kids, ks))
    decreases |kids| - owner, 0, |ks|
  {
    if ks != [] {
      var parent1 := Assign(kids, parent, ks[0], Some(owner)).value;
      AssignSound(kids, parent, ks[0], Some(owner));
      var r := AssignAll(kids, parent1, owner, ks[1..]).value;
      AssignAllSound(kids, parent1, owner, ks[1..]);
      CoveredCons(kids, ks);
      forall c | c in ks ensures r[c] == Some(owner) {
        if c != ks[0] { assert c in ks[1..]; }
      }
      forall k, c | k in Covered(kids, ks) && k < |kids| && c in kids[k]
        ensures c < |r| && r[c] == Some(k)
      {
        if k in Subtree(kids, ks[0]) {
          assert parent1[c] == Some(k);
        }
      }
    }
  }

  /**
   * Conflicting parents make `set_parents` fail: a node below `id` whose
   * parent field already names a different node, or a node that two
   * different nodes of the subtree list as a child.
   */
  lemma ConflictFails(kids: seq<seq<NodeId>>, parent: seq<Option<NodeId>>, id: NodeId, p: Option<NodeId>, k1: NodeId, k2: NodeId, c: NodeId)
    requires Downward(kids) && |parent| == |kids| && id < |kids|
    requires k1 in Subtree(kids, id) && k1 < |kids| && c in kids[k1]
    requires (parent[c].Some? && parent[c] != Some(k1)) ||
             (k2 in Subtree(kids, id) && k2 < |kids| && c in kids[k2] && k1 != k2)
    ensures Assign(kids, parent, id, p).None?
  {
    if Assign(kids, parent, id, p).Some? {
      AssignedParent(kids, parent, id, p, k1, c);
      assert false;
    }
  }

  /** After a successful walk, a child `c` of a node `k1` below `id` has `k1` as its only possible parent. */
  lemma AssignedParent(kids: seq<seq<NodeId>>, parent: seq<Option<NodeId>>, id: NodeId, p: Option<NodeId>, k1: NodeId, c: NodeId)
    requires Downward(kids) && |parent| == |kids| && id < |kids|
    requires k1 in Subtree(kids, id) && k1 < |kids| && c in kids[k1]
    requires Assign(kids, parent, id, p).Some?
    ensures c < |parent| && (parent[c].Some? ==> parent[c] == Some(k1))
    ensures forall k2 :: k2 in Subtree(kids, id) && k2 < |kids| && c in kids[k2] ==> k2 == k1
  {
    ChildInRange(kids, k1, c);
    AssignSound(kids, parent, id, p);
    assert Assign(kids, parent, id, p).value[c] == Some(k1);
  }

  lemma ChildInRange(kids: seq<seq<NodeId>>, k: NodeId, c: NodeId)
    requires Downward(kids) && k < |kids| && c in kids[k]
    ensures k < c < |kids|
  {
    var i :| 0 <= i < |kids[k]| && kids[k][i] == c;
  }

  /** When the root's own parent field is set to something else, the walk fails at once. */
  lemma RootConflictFails(kids: seq<seq<NodeId>>, parent: seq<Option<NodeId>>, id: NodeId, p: Option<NodeId>)
    requires Downward(kids) && |parent| == |kids| && id < |kids|
    requires parent[id].Some? && parent[id] != p
    ensures Assign(kids, parent, id, p).None?
  {
  }

  /** Node `k` may claim `c` as its child: the parent field of `c` is unset or already `k`. */
  predicate MayClaim(parent: seq<Option<NodeId>>, k: NodeId, c: NodeId)
  {
    c < |parent| && CheckParent(parent[c], Some(k))
  }

  /** Every node of `s` lists only children it may claim. */
  ghost predicate Compatible(kids: seq<seq<NodeId>>, parent: seq<Option<NodeId>>, s: set<NodeId>)
  {
    forall k: NodeId, c: NodeId :: k in s && k < |kids| && c in kids[k] ==> MayClaim(parent, k, c)
  }

  /** No node is listed as a child by two different nodes of `u`. */
  ghost predicate UniqueOwners(kids: seq<seq<NodeId>>, u: set<NodeId>)
  {
    forall k1, k2, c :: k1 in u && k2 in u && k1 < |kids| && k2 < |kids| && c in kids[k1] && c in kids[k2] ==> k1 == k2
  }

  /** A node strictly below `id` is a child of some node of the subtree. */
  lemma {:induction false} HasOwnerInSubtree(kids: seq<seq<NodeId>>, id: NodeId, d: NodeId)
    requires Downward(kids) && id < |kids| && d in Subtree(kids, id) && d != id
    ensures exists k :: k in Subtree(kids, id) && k < |kids| && d in kids[k]
    decreases |kids| - id
  {
    var c :| c in kids[id] && d in Subtree(kids, c);
    ChildInRange(kids, id, c);
    assert Subtree(kids, c) <= Subtree(kids, id);
    if d != c {
      HasOwnerInSubtree(kids, c, d);
    }
  }

  /**
   * The converse of ConflictFails: when the root's own field agrees, no
   * node of the subtree already names a different parent, and no node is
   * listed by two different owners, `set_parents` succeeds.
   */
  lemma {:induction false} AssignSucceeds(kids: seq<seq<NodeId>>, parent: seq<Option<NodeId>>, id: NodeId, p: Option<NodeId>, u: set<NodeId>)
    requires Downward(kids) && |parent| == |kids| && id < |kids|
    requires CheckParent(parent[id], p)
    requires Subtree(kids, id) <= u && UniqueOwners(kids, u) && Compatible(kids, parent, Subtree(kids, id))
    ensures Assign(kids, parent, id, p).Some?
    decreases |kids| - id, 1, 0
  {
    var parent1 := parent[id := p];
    assert Subtree(kids, id) == {id} + Covered(kids, kids[id]);
    forall k: NodeId, c: NodeId | k in Subtree(kids, id) && k < |kids| && c in kids[k]
      ensures MayClaim(parent1, k, c)
    {
      SubtreeBounds(kids, id);
      ChildInRange(kids, k, c);
    }
    forall j | 0 <= j < |kids[id]| ensures kids[id][j] in kids[id] { }
    AssignAllSucceeds(kids, parent1, id, kids[id], u);
  }

  lemma {:induction false} AssignAllSucceeds(kids: seq<seq<NodeId>>, parent: seq<Option<NodeId>>, owner: NodeId, ks: seq<NodeId>, u: set<NodeId>)
    requires Downward(kids) && |parent| == |kids| && owner < |kids|
    requires forall k :: 0 <= k < |ks| ==> ks[k] in kids[owner]
    requires forall k :: 0 <= k < |ks| ==> owner < ks[k] < |kids|
    requires owner in u && Covered(kids, ks) <= u && UniqueOwners(kids, u)
    requires Compatible(kids, parent, {owner} + Covered(kids, ks))
    ensures AssignAll(kids, parent, owner, ks).Some?
    decreases |kids| - owner, 0, |ks|
  {
    if ks != [] {
      var c0 := ks[0];
      CoveredCons(kids, ks);
      assert c0 in Subtree(kids, c0);
      CompatibleSub(kids, parent, Subtree(kids, c0), {owner} + Covered(kids, ks));
      AssignSucceeds(kids, parent, c0, Some(owner), u);
      var parent1 := Assign(kids, parent, c0, Some(owner)).value;
      RestCompatible(kids, parent, owner, ks, u);
      var rest := ks[1..];
      assert forall k :: 0 <= k < |rest| ==> rest[k] == ks[k + 1];
      AssignAllSucceeds(kids, parent1, owner, rest, u);
    }
  }

  /** After the walk below the first child, the owner and the rest of the children still fit the new fields. */
  lemma RestCompatible(kids: seq<seq<NodeId>>, parent: seq<Option<NodeId>>, owner: NodeId, ks: seq<NodeId>, u: set<NodeId>)
    requires Downward(kids) && |parent| == |kids| && owner < |kids| && ks != []
    requires Below(ks, |kids|) && ks[0] in kids[owner] && owner < ks[0]
    requires owner in u && Covered(kids, ks) <= u && UniqueOwners(kids, u)
    requires Compatible(kids, parent, {owner} + Covered(kids, ks))
    requires Assign(kids, parent, ks[0], Some(owner)).Some?
    ensures var parent1 := Assign(kids, parent, ks[0], Some(owner)).value;
            |parent1| == |parent| && Compatible(kids, parent1, {owner} + Covered(kids, ks[1..]))
  {
    var parent1 := Assign(kids, parent, ks[0], Some(owner)).value;
    CoveredCons(kids, ks);
    AssignSound(kids, parent, ks[0], Some(owner));
    forall k: NodeId, c: NodeId | k in {owner} + Covered(kids, ks[1..]) && k < |kids| && c in kids[k]
      ensures MayClaim(parent1, k, c)
    {
      assert k in {owner} + Covered(kids, ks);
      SiblingKeepsParent(kids, parent, parent1, owner, ks[0], u, k, c);
    }
  }


  /**
   * The walk below the child `c0` of `owner` leaves every other node of `u`
   * able to claim its children: it only writes inside the subtree of `c0`,
   * and there it writes the one owner a child can have.
   */
  lemma SiblingKeepsParent(kids: seq<seq<NodeId>>, parent: seq<Option<NodeId>>, parent1: seq<Option<NodeId>>,
                           owner: NodeId, c0: NodeId, u: set<NodeId>, k: NodeId, c: NodeId)
    requires Downward(kids) && |parent| == |kids| && |parent1| == |parent| && owner < c0 < |kids| && c0 in kids[owner]
    requires owner in u && Subtree(kids, c0) <= u && UniqueOwners(kids, u)
    requires parent1[c0] == Some(owner) && OwnedBy(kids, parent1, Subtree(kids, c0))
    requires ChangesOnly(parent, parent1, Subtree(kids, c0))
    requires k in u && k < |kids| && c in kids[k] && MayClaim(parent, k, c)
    ensures MayClaim(parent1, k, c)
  {
    if c in Subtree(kids, c0) {
      if c != c0 {
        HasOwnerInSubtree(kids, c0, c);
        var k' :| k' in Subtree(kids, c0) && k' < |kids| && c in kids[k'];
        assert parent1[c] == Some(k');
      }
    }
  }
}
