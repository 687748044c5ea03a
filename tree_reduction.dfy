/**
 * `Tree.reduce_activated_completed` of uppaal/tree.py.  It maps a
 * configuration (activated attacks, completed nodes) to the smallest
 * representative of its equivalence class, in three phases:
 *
 *  1. completed nodes propagate to their parents (OR and EDGE parents at
 *     once, AND parents once all attack and goal children are completed);
 *  2. a completed node with a completed, non-reset strict ancestor (a
 *     "backup") is forgotten, together with the completed nodes on the way
 *     up to the topmost backup;
 *  3. an activated attack that is completed, or lies under a backup, is
 *     forgotten.
 *
 * The parent field of every node is `parent[i]`, written by `set_parents`.
 * Parents have smaller indices than their children.
 */
module TreeReduction {
  import opened Lists
  import opened AttackTree
  import P = Propagation

  /** Parent fields point to nodes with smaller indices (the arena is acyclic). */
  predicate Upward(parent: seq<Option<NodeId>>)
  {
    forall i :: 0 <= i < |parent| && parent[i].Some? ==> parent[i].value < i
  }

  /** What the propagation phase reads of a parent: OR and EDGE goals, or an AND over attack and goal children. */
  function GateOf(n: Node): (g: P.Gate)
    ensures g.AndGate? <==> n.kind.GoalKind? && n.kind.op == And
    ensures g.AndGate? ==> Elems(g.required) == Elems(n.attackChildren) + Elems(n.goalChildren)
    ensures g.OrGate? <==> n.kind.GoalKind? && n.kind.op != And
  {
    match n.kind
    case GoalKind(And, _) => P.AndGate(n.attackChildren + n.goalChildren)
    case GoalKind(_, _) => P.OrGate
    case _ => P.NoGate
  }

  /** The single-parent hierarchy of the tree, as the shared propagation sees it. */
  function TreeHierarchy(arena: seq<Node>, parent: seq<Option<NodeId>>): (h: P.Hierarchy)
    requires |parent| == |arena| && Upward(parent)
    ensures h.Valid() && |h.parents| == |arena|
    ensures forall i :: 0 <= i < |arena| ==> h.parents[i] == (if parent[i].Some? then [parent[i].value] else [])
  {
    P.Hierarchy(seq(|parent|, i requires 0 <= i < |parent| => if parent[i].Some? then [parent[i].value] else []),
                seq(|arena|, i requires 0 <= i < |arena| => GateOf(arena[i])))
  }

  /** A reset goal; only goals carry the flag. */
  predicate IsReset(arena: seq<Node>, n: NodeId)
  {
    n < |arena| && arena[n].kind.GoalKind? && arena[n].kind.reset
  }

  /** A completed node that is not reset can serve as a backup. */
  predicate IsBackup(arena: seq<Node>, completed: seq<NodeId>, n: NodeId)
  {
    n in completed && !IsReset(arena, n)
  }

  /** `a` is `n` or one of its ancestors. */
  predicate IsAncestorOrSelf(parent: seq<Option<NodeId>>, a: NodeId, n: NodeId)
    requires Upward(parent) && n < |parent|
    decreases n
  {
    n == a || (parent[n].Some? && IsAncestorOrSelf(parent, a, parent[n].value))
  }

  /** `a` is a strict ancestor of `n`. */
  predicate IsStrictAncestor(parent: seq<Option<NodeId>>, a: NodeId, n: NodeId)
    requires Upward(parent) && n < |parent|
  {
    parent[n].Some? && IsAncestorOrSelf(parent, a, parent[n].value)
  }

  /** The topmost strict ancestor of `n` that is a backup, if any. */
  function Top(arena: seq<Node>, parent: seq<Option<NodeId>>, completed: seq<NodeId>, n: NodeId): Option<NodeId>
    requires Upward(parent) && n < |parent|
    decreases n
  {
    if parent[n].None? then None
    else
      var p := parent[n].value;
      var above := Top(arena, parent, completed, p);
      if above.Some? then above
      else if IsBackup(arena, completed, p) then Some(p)
      else None
  }

  function Pick(o: Option<NodeId>, default: NodeId): NodeId
  {
    if o.Some? then o.value else default
  }

  /** `Top` finds a backup strictly above `n`, and one with no backup above it. */
  lemma {:induction false} TopSpec(arena: seq<Node>, parent: seq<Option<NodeId>>, completed: seq<NodeId>, n: NodeId)
    requires Upward(parent) && n < |parent|
    ensures var t := Top(arena, parent, completed, n);
            t.Some? ==> t.value < n && IsStrictAncestor(parent, t.value, n) && IsBackup(arena, completed, t.value)
                        && Top(arena, parent, completed, t.value).None?
    decreases n
  {
    if parent[n].Some? {
      TopSpec(arena, parent, completed, parent[n].value);
    }
  }

  /** Any backup strictly above `n` makes `Top` find one. */
  lemma {:induction false} AncestorGivesTop(arena: seq<Node>, parent: seq<Option<NodeId>>, completed: seq<NodeId>, a: NodeId, n: NodeId)
    requires Upward(parent) && n < |parent|
    requires IsStrictAncestor(parent, a, n) && IsBackup(arena, completed, a)
    ensures Top(arena, parent, completed, n).Some?
    decreases n
  {
    var p := parent[n].value;
    if p != a {
      AncestorGivesTop(arena, parent, completed, a, p);
    }
  }

  /** Fewer completed nodes never create a backup. */
  lemma TopMono(arena: seq<Node>, parent: seq<Option<NodeId>>, small: seq<NodeId>, large: seq<NodeId>, n: NodeId)
    requires Upward(parent) && n < |parent|
    requires forall x :: x in small ==> x in large
    ensures Top(arena, parent, small, n).Some? ==> Top(arena, parent, large, n).Some?
  {
    if Top(arena, parent, small, n).Some? {
      TopSpec(arena, parent, small, n);
      AncestorGivesTop(arena, parent, large, Top(arena, parent, small, n).value, n);
    }
  }

  /** Removing nodes other than the topmost backup leaves it the topmost backup. */
  lemma {:induction false} TopKeep(arena: seq<Node>, parent: seq<Option<NodeId>>, small: seq<NodeId>, large: seq<NodeId>, n: NodeId)
    requires Upward(parent) && n < |parent|
    requires forall x :: x in small ==> x in large
    requires Top(arena, parent, large, n).Some? && Top(arena, parent, large, n).value in small
    ensures Top(arena, parent, small, n) == Top(arena, parent, large, n)
    decreases n
  {
    var p := parent[n].value;
    if Top(arena, parent, large, p).Some? {
      TopKeep(arena, parent, small, large, p);
    } else {
      TopMono(arena, parent, small, large, p);
    }
  }

  /**
   * The first inner loop of the second phase: walk to the root, remembering
   * the last backup met; the node itself when there is none.
   */
  method FindBackup(arena: seq<Node>, parent: seq<Option<NodeId>>, completed: seq<NodeId>, node: NodeId) returns (backup: NodeId)
    requires Upward(parent) && node < |parent|
    ensures backup == Pick(Top(arena, parent, completed, node), node)
  {
    backup := node;
    var current: NodeId := node;
    while parent[current].Some?
      invariant current < |parent|
      invariant Pick(Top(arena, parent, completed, current), backup) == Pick(Top(arena, parent, completed, node), node)
      decreases current
    {
      current := parent[current].value;
      if current in completed && !IsReset(arena, current) {
        backup := current;
      }
    }
  }

  /** The second inner loop: remove the completed nodes from `cur` up to, not including, `b`. */
  function RemovePath(parent: seq<Option<NodeId>>, s: seq<NodeId>, cur: NodeId, b: NodeId): seq<NodeId>
    requires Upward(parent) && cur < |parent| && IsAncestorOrSelf(parent, b, cur)
    decreases cur
  {
    if cur == b then s else RemovePath(parent, RemoveFirst(s, cur), parent[cur].value, b)
  }

  /** The nodes from `cur` up to, not including, `b`. */
  ghost function PathBelow(parent: seq<Option<NodeId>>, cur: NodeId, b: NodeId): set<NodeId>
    requires Upward(parent) && cur < |parent| && IsAncestorOrSelf(parent, b, cur)
    decreases cur
  {
    if cur == b then {} else {cur} + PathBelow(parent, parent[cur].value, b)
  }

  lemma {:induction false} RemovePathSpec(parent: seq<Option<NodeId>>, s: seq<NodeId>, cur: NodeId, b: NodeId)
    requires Upward(parent) && cur < |parent| && IsAncestorOrSelf(parent, b, cur) && NoDups(s)
    ensures RemovePath(parent, s, cur, b) == Without(s, PathBelow(parent, cur, b))
    decreases cur
  {
    if cur == b {
      WithoutAbsent(s, {});
    } else {
      RemoveFirstIsWithout(s, cur);
      RemovePathSpec(parent, RemoveFirst(s, cur), parent[cur].value, b);
      WithoutWithout(s, {cur}, PathBelow(parent, parent[cur].value, b));
    }
  }

  /** Every node strictly below backup `w` on the path has a backup above it. */
  lemma {:induction false} PathBelowBacked(arena: seq<Node>, parent: seq<Option<NodeId>>, completed: seq<NodeId>, cur: NodeId, w: NodeId)
    requires Upward(parent) && cur < |parent| && IsAncestorOrSelf(parent, w, cur) && IsBackup(arena, completed, w)
    ensures forall y :: y in PathBelow(parent, cur, w) ==> y < |parent| && Top(arena, parent, completed, y).Some?
    ensures cur != w ==> cur in PathBelow(parent, cur, w)
    decreases cur
  {
    if cur != w {
      AncestorGivesTop(arena, parent, completed, w, cur);
      PathBelowBacked(arena, parent, completed, parent[cur].value, w);
    }
  }

  /** One iteration of the second phase, for node `x`. */
  function BackupStep(arena: seq<Node>, parent: seq<Option<NodeId>>, s: seq<NodeId>, x: NodeId): seq<NodeId>
    requires Upward(parent) && x < |parent|
  {
    TopSpec(arena, parent, s, x);
    RemovePath(parent, s, x, Pick(Top(arena, parent, s, x), x))
  }

  /** The second phase, over the snapshot `completed.copy()`. */
  function RemoveBackedUp(arena: seq<Node>, parent: seq<Option<NodeId>>, snapshot: seq<NodeId>, s: seq<NodeId>): seq<NodeId>
    requires Upward(parent) && Below(snapshot, |parent|)
  {
    if snapshot == [] then s
    else RemoveBackedUp(arena, parent, snapshot[1..], BackupStep(arena, parent, s, snapshot[0]))
  }

  /** The second phase of the source: both inner loops, for each node of a copy of `completed`. */
  method RemoveBackedUpInPlace(arena: seq<Node>, parent: seq<Option<NodeId>>, completed: seq<NodeId>) returns (r: seq<NodeId>)
    requires Upward(parent) && Below(completed, |parent|)
    ensures r == RemoveBackedUp(arena, parent, completed, completed)
  {
    r := completed;
    for i := 0 to |completed|
      invariant RemoveBackedUp(arena, parent, completed[i..], r) == RemoveBackedUp(arena, parent, completed, completed)
    {
      assert completed[i..] == [completed[i]] + completed[i + 1..];
      var node := completed[i];
      var backup := FindBackup(arena, parent, r, node);
      TopSpec(arena, parent, r, node);
      var current: NodeId := node;
      ghost var start := r;
      while current != backup
        invariant current < |parent| && IsAncestorOrSelf(parent, backup, current)
        invariant RemovePath(parent, r, current, backup) == RemovePath(parent, start, node, backup)
        decreases current
      {
        if current in r {
          r := RemoveFirst(r, current);
        }
        current := parent[current].value;
      }
    }
    assert completed[|completed|..] == [];
  }

  /** The nodes that have a backup strictly above them. */
  ghost function BackedUp(arena: seq<Node>, parent: seq<Option<NodeId>>, completed: seq<NodeId>): set<NodeId>
    requires Upward(parent)
  {
    set n: nat | n < |parent| && Top(arena, parent, completed, n).Some?
  }

  lemma BackupStepSpec(arena: seq<Node>, parent: seq<Option<NodeId>>, c0: seq<NodeId>, x: NodeId, xs: set<NodeId>)
    returns (added: set<NodeId>)
    requires Upward(parent) && Below(c0, |parent|) && x < |parent| && NoDups(c0)
    requires xs <= BackedUp(arena, parent, c0)
    ensures added <= BackedUp(arena, parent, c0)
    ensures x in BackedUp(arena, parent, c0) ==> x in added
    ensures BackupStep(arena, parent, Without(c0, xs), x) == Without(c0, xs + added)
  {
    var l := Without(c0, xs);
    var bad := BackedUp(arena, parent, c0);
    TopSpec(arena, parent, c0, x);
    forall y | y in l ensures y in c0 {
      assert y in Elems(l);
    }
    TopMono(arena, parent, l, c0, x);
    if Top(arena, parent, c0, x).None? {
      added := {};
      assert xs + added == xs;
    } else {
      var w := Top(arena, parent, c0, x).value;
      assert w !in bad;
      assert w in Elems(l);
      TopKeep(arena, parent, l, c0, x);
      added := PathBelow(parent, x, w);
      RemovePathSpec(parent, l, x, w);
      WithoutWithout(c0, xs, added);
      PathBelowBacked(arena, parent, c0, x, w);
    }
  }

  lemma {:induction false} RemoveBackedUpFold(arena: seq<Node>, parent: seq<Option<NodeId>>, c0: seq<NodeId>, snapshot: seq<NodeId>, xs: set<NodeId>)
    requires Upward(parent) && Below(c0, |parent|) && Below(snapshot, |parent|) && NoDups(c0)
    requires xs <= BackedUp(arena, parent, c0)
    requires forall i :: 0 <= i < |c0| && c0[i] in BackedUp(arena, parent, c0) && c0[i] !in xs ==> c0[i] in snapshot
    ensures RemoveBackedUp(arena, parent, snapshot, Without(c0, xs)) == Without(c0, BackedUp(arena, parent, c0))
    decreases |snapshot|
  {
    var bad := BackedUp(arena, parent, c0);
    if snapshot == [] {
      WithoutSame(c0, xs, bad);
    } else {
      var x := snapshot[0];
      var added := BackupStepSpec(arena, parent, c0, x, xs);
      forall i | 0 <= i < |c0| && c0[i] in bad && c0[i] !in xs + added ensures c0[i] in snapshot[1..] {
        assert c0[i] != x;
        assert snapshot == [x] + snapshot[1..];
      }
      RemoveBackedUpFold(arena, parent, c0, snapshot[1..], xs + added);
    }
  }

  /**
   * The second phase keeps exactly the completed nodes with no completed,
   * non-reset strict ancestor, in their order.
   */
  lemma RemoveBackedUpSpec(arena: seq<Node>, parent: seq<Option<NodeId>>, completed: seq<NodeId>)
    requires Upward(parent) && Below(completed, |parent|) && NoDups(completed)
    ensures RemoveBackedUp(arena, parent, completed, completed) == Without(completed, BackedUp(arena, parent, completed))
  {
    WithoutAbsent(completed, {});
    RemoveBackedUpFold(arena, parent, completed, completed, {});
  }

  /** The second phase keeps every topmost backup, so the backups above any node stay as they were. */
  lemma RemoveBackedUpKeepsBackups(arena: seq<Node>, parent: seq<Option<NodeId>>, completed: seq<NodeId>, n: NodeId)
    requires Upward(parent) && Below(completed, |parent|) && NoDups(completed) && n < |parent|
    ensures var reduced := RemoveBackedUp(arena, parent, completed, completed);
            Top(arena, parent, reduced, n) == Top(arena, parent, completed, n)
  {
    var reduced := RemoveBackedUp(arena, parent, completed, completed);
    RemoveBackedUpSpec(arena, parent, completed);
    var bad := BackedUp(arena, parent, completed);
    assert forall x :: x in reduced ==> x in completed by {
      forall x | x in reduced ensures x in completed {
        assert x in Elems(reduced);
      }
    }
    TopSpec(arena, parent, completed, n);
    if Top(arena, parent, completed, n).Some? {
      var w := Top(arena, parent, completed, n).value;
      assert w !in bad;
      assert w in Elems(reduced);
      TopKeep(arena, parent, reduced, completed, n);
    } else {
      TopMono(arena, parent, reduced, completed, n);
    }
  }

  /** Whether the third phase forgets activated attack `x`. */
  predicate Forgotten(arena: seq<Node>, parent: seq<Option<NodeId>>, completed: seq<NodeId>, x: NodeId)
    requires Upward(parent) && x < |parent|
  {
    x in completed || Top(arena, parent, completed, x).Some?
  }

  /** The third phase as intended: every activated attack is examined. */
  function RemoveActivated(arena: seq<Node>, parent: seq<Option<NodeId>>, completed: seq<NodeId>,
                           snapshot: seq<NodeId>, activated: seq<NodeId>): seq<NodeId>
    requires Upward(parent) && Below(snapshot, |parent|)
  {
    if snapshot == [] then activated
    else
      var x := snapshot[0];
      var next := if Forgotten(arena, parent, completed, x) then RemoveFirst(activated, x) else activated;
      RemoveActivated(arena, parent, completed, snapshot[1..], next)
  }

  /**
   * The third phase as written: the `break` after removing a completed
   * attack leaves the outer loop, so later activated attacks stay.
   */
  function RemoveActivatedAsWritten(arena: seq<Node>, parent: seq<Option<NodeId>>, completed: seq<NodeId>,
                                    snapshot: seq<NodeId>, activated: seq<NodeId>): (r: seq<NodeId>)
    requires Upward(parent) && Below(snapshot, |parent|)
    ensures multiset(r) <= multiset(activated)
  {
    if snapshot == [] then activated
    else
      var x := snapshot[0];
      if x in completed then RemoveFirst(activated, x)
      else
        var next := if Top(arena, parent, completed, x).Some? then RemoveFirst(activated, x) else activated;
        RemoveActivatedAsWritten(arena, parent, completed, snapshot[1..], next)
  }

  /** Until the `break` fires the written loop is the intended one: without a completed attack in the snapshot, the two agree. */
  lemma {:induction false} AsWrittenWithoutBreak(arena: seq<Node>, parent: seq<Option<NodeId>>, completed: seq<NodeId>,
                                                 snapshot: seq<NodeId>, activated: seq<NodeId>)
    requires Upward(parent) && Below(snapshot, |parent|)
    requires forall i :: 0 <= i < |snapshot| ==> snapshot[i] !in completed
    ensures RemoveActivatedAsWritten(arena, parent, completed, snapshot, activated)
            == RemoveActivated(arena, parent, completed, snapshot, activated)
  {
    if snapshot != [] {
      var x := snapshot[0];
      var next := if Top(arena, parent, completed, x).Some? then RemoveFirst(activated, x) else activated;
      assert forall i :: 0 <= i < |snapshot[1..]| ==> snapshot[1..][i] == snapshot[i + 1];
      AsWrittenWithoutBreak(arena, parent, completed, snapshot[1..], next);
    }
  }

  /**
   * Goal g0 (AND over goals g1 and g2), g1 (OR over attacks a1 and a2), g2
   * (AND over attacks a3 and a4), no reset goals; nodes 0 to 6 are g0, g1,
   * g2, a1, a2, a3, a4.
   */
  function BreakExampleArena(): (arena: seq<Node>)
    ensures |arena| == 7
  {
    var attack := AttackKind(1, 0.5, None, None);
    [Node("g0", None, None, [], [1, 2], GoalKind(And, false)),
     Node("g1", Some(0), None, [3, 4], [], GoalKind(Or, false)),
     Node("g2", Some(0), None, [5, 6], [], GoalKind(And, false)),
     Node("a1", Some(1), None, [], [], attack),
     Node("a2", Some(1), None, [], [], attack),
     Node("a3", Some(2), None, [], [], attack),
     Node("a4", Some(2), None, [], [], attack)]
  }

  /**
   * With completed [g1, a3] (already reduced: no backup above either) and
   * activated [a3, a1], the loop as written forgets a3 and stops, so a1
   * stays activated although the completed goal g1 is a backup above it.
   */
  lemma BreakKeepsBackedUpAttack()
    ensures var arena, parent := BreakExampleArena(), [None, Some(0), Some(0), Some(1), Some(1), Some(2), Some(2)];
            Upward(parent)
            && Top(arena, parent, [1, 5], 1).None? && Top(arena, parent, [1, 5], 5).None?
            && Top(arena, parent, [1, 5], 3) == Some(1)
            && RemoveActivatedAsWritten(arena, parent, [1, 5], [5, 3], [5, 3]) == [3]
            && RemoveActivated(arena, parent, [1, 5], [5, 3], [5, 3]) == []
  {
    var arena, parent := BreakExampleArena(), [None, Some(0), Some(0), Some(1), Some(1), Some(2), Some(2)];
    assert Top(arena, parent, [1, 5], 3) == Some(1);
    assert RemoveFirst([5, 3], 5) == [3];
    assert RemoveFirst([3], 3) == [];
  }

  /** The activated attacks of `snapshot` that the third phase forgets. */
  ghost function ForgottenSet(arena: seq<Node>, parent: seq<Option<NodeId>>, completed: seq<NodeId>, snapshot: seq<NodeId>): set<NodeId>
    requires Upward(parent) && Below(snapshot, |parent|)
  {
    set i | 0 <= i < |snapshot| && Forgotten(arena, parent, completed, snapshot[i]) :: snapshot[i]
  }

  /** The corrected third phase removes exactly the forgotten attacks and keeps the order of the rest. */
  lemma {:induction false} RemoveActivatedSpec(arena: seq<Node>, parent: seq<Option<NodeId>>, completed: seq<NodeId>,
                                               snapshot: seq<NodeId>, activated: seq<NodeId>)
    requires Upward(parent) && Below(snapshot, |parent|) && NoDups(activated)
    ensures RemoveActivated(arena, parent, completed, snapshot, activated)
            == Without(activated, ForgottenSet(arena, parent, completed, snapshot))
  {
    if snapshot == [] {
      WithoutAbsent(activated, {});
      assert ForgottenSet(arena, parent, completed, snapshot) == {};
    } else {
      var x := snapshot[0];
      var rest := snapshot[1..];
      var d0: set<NodeId> := if Forgotten(arena, parent, completed, x) then {x} else {};
      var next := if Forgotten(arena, parent, completed, x) then RemoveFirst(activated, x) else activated;
      RemoveFirstIsWithout(activated, x);
      WithoutAbsent(activated, {});
      assert next == Without(activated, d0);
      RemoveActivatedSpec(arena, parent, completed, rest, next);
      WithoutWithout(activated, d0, ForgottenSet(arena, parent, completed, rest));
      ForgottenSetCons(arena, parent, completed, snapshot);
    }
  }

  lemma ForgottenSetCons(arena: seq<Node>, parent: seq<Option<NodeId>>, completed: seq<NodeId>, snapshot: seq<NodeId>)
    requires Upward(parent) && Below(snapshot, |parent|) && snapshot != []
    ensures ForgottenSet(arena, parent, completed, snapshot)
            == (if Forgotten(arena, parent, completed, snapshot[0]) then {snapshot[0]} else {})
               + ForgottenSet(arena, parent, completed, snapshot[1..])
  {
    var rest := snapshot[1..];
    forall y | y in ForgottenSet(arena, parent, completed, snapshot) && y != snapshot[0]
      ensures y in ForgottenSet(arena, parent, completed, rest)
    {
      var i :| 0 <= i < |snapshot| && Forgotten(arena, parent, completed, snapshot[i]) && snapshot[i] == y;
      assert rest[i - 1] == y;
    }
    forall y | y in ForgottenSet(arena, parent, completed, rest)
      ensures y in ForgottenSet(arena, parent, completed, snapshot)
    {
      var i :| 0 <= i < |rest| && Forgotten(arena, parent, completed, rest[i]) && rest[i] == y;
      assert snapshot[i + 1] == y;
    }
  }

  /** The inner loop of the third phase: is there a backup strictly above `node`? */
  method HasBackupAbove(arena: seq<Node>, parent: seq<Option<NodeId>>, completed: seq<NodeId>, node: NodeId) returns (found: bool)
    requires Upward(parent) && node < |parent|
    ensures found <==> Top(arena, parent, completed, node).Some?
  {
    var current: NodeId := node;
    found := false;
    while parent[current].Some?
      invariant current < |parent|
      invariant Top(arena, parent, completed, node).Some? <==> Top(arena, parent, completed, current).Some?
      decreases current
    {
      current := parent[current].value;
      if current in completed && !IsReset(arena, current) {
        found := true;
        break;
      }
    }
  }

  /** The third phase, corrected: the loop goes on after forgetting a completed attack. */
  method RemoveActivatedInPlace(arena: seq<Node>, parent: seq<Option<NodeId>>, completed: seq<NodeId>, activated: seq<NodeId>)
    returns (r: seq<NodeId>)
    requires Upward(parent) && Below(activated, |parent|)
    ensures r == RemoveActivated(arena, parent, completed, activated, activated)
  {
    r := activated;
    for i := 0 to |activated|
      invariant RemoveActivated(arena, parent, completed, activated[i..], r) == RemoveActivated(arena, parent, completed, activated, activated)
    {
      assert activated[i..] == [activated[i]] + activated[i + 1..];
      var node := activated[i];
      if node in completed {
        r := RemoveFirst(r, node);
      } else {
        var found := HasBackupAbove(arena, parent, completed, node);
        if found {
          r := RemoveFirst(r, node);
        }
      }
    }
    assert activated[|activated|..] == [];
  }

  /** `reduce_activated_completed`: the three phases, on copies of the two lists. */
  method Reduce(arena: seq<Node>, parent: seq<Option<NodeId>>, activated: seq<NodeId>, completed: seq<NodeId>)
    returns (activated': seq<NodeId>, completed': seq<NodeId>)
    requires |parent| == |arena| && Upward(parent) && Below(activated, |parent|) && Below(completed, |parent|)
    ensures var closed := P.Propagate(TreeHierarchy(arena, parent), completed);
            Below(closed, |parent|)
            && completed' == RemoveBackedUp(arena, parent, closed, closed)
            && activated' == RemoveActivated(arena, parent, completed', activated, activated)
  {
    var h := TreeHierarchy(arena, parent);
    var closed := P.PropagateInPlace(h, completed);
    P.PropagateClosed(h, completed);
    completed' := RemoveBackedUpInPlace(arena, parent, closed);
    activated' := RemoveActivatedInPlace(arena, parent, completed', activated);
  }

  /**
   * What `reduce_activated_completed` returns, on duplicate-free lists: the
   * propagated configuration without the nodes under a backup, and the
   * activated attacks that are neither completed nor under a backup.  The
   * backups above every node are those of the propagated configuration.
   */
  lemma ReduceSpec(arena: seq<Node>, parent: seq<Option<NodeId>>, activated: seq<NodeId>, completed: seq<NodeId>)
    requires |parent| == |arena| && Upward(parent) && Below(activated, |parent|) && Below(completed, |parent|)
    requires NoDups(activated) && NoDups(completed)
    ensures var closed := P.Propagate(TreeHierarchy(arena, parent), completed);
            Below(closed, |parent|)
            && var completed' := RemoveBackedUp(arena, parent, closed, closed);
               && completed' == Without(closed, BackedUp(arena, parent, closed))
               && RemoveActivated(arena, parent, completed', activated, activated)
                  == Without(activated, ForgottenSet(arena, parent, completed', activated))
               && forall n :: 0 <= n < |parent| ==> Top(arena, parent, completed', n) == Top(arena, parent, closed, n)
  {
    var h := TreeHierarchy(arena, parent);
    var closed := P.Propagate(h, completed);
    P.PropagateClosed(h, completed);
    P.PropagateNoDups(h, completed);
    RemoveBackedUpSpec(arena, parent, closed);
    var completed' := RemoveBackedUp(arena, parent, closed, closed);
    RemoveActivatedSpec(arena, parent, completed', activated, activated);
    forall n | 0 <= n < |parent| ensures Top(arena, parent, completed', n) == Top(arena, parent, closed, n) {
      RemoveBackedUpKeepsBackups(arena, parent, closed, n);
    }
  }
}
