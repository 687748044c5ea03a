/**
 * The states of the attack-defense MDP built in uppaal/admdp.py.  A state
 * holds the activated attacks and the completed nodes of an attack-defense
 * graph.  Constructing a state canonicalises both lists: propagation, then
 * the checkpoint rule, then removal of forgotten activated attacks.  It then
 * collects the defenses that matter.  Its identity is the key that
 * `serialize` returns.
 */
module AdmdpStates {
  import opened Lists
  import AT = AttackTree
  import P = Propagation
  import G = Adg

  type NodeId = nat

  datatype StateType = Normal | Mtd | Completion | NoActivation | ActivationCost

  /** The `name` of the `StateType` member. */
  function TypeName(t: StateType): string
  {
    match t
    case Normal => "NORMAL"
    case Mtd => "MTD"
    case Completion => "COMPLETION"
    case NoActivation => "NO_ACTIVATION"
    case ActivationCost => "ACTIVATION_COST"
  }

  /** No two state types share a name. */
  lemma TypeNameInjective(t1: StateType, t2: StateType)
    ensures TypeName(t1) == TypeName(t2) <==> t1 == t2
  {
    if TypeName(t1) == TypeName(t2) {
      assert |TypeName(t1)| == |TypeName(t2)|;
    }
  }

  /**
   * A state: its two canonical lists, its type, the attack or defense it is
   * about (completion, defense and activation-cost states), the defenses
   * attached to its activated and completed nodes, and its flags.
   */
  datatype State = State(
    activated: seq<NodeId>,
    completed: seq<NodeId>,
    stateType: StateType,
    involved: Option<NodeId>,
    activeDefenses: seq<NodeId>,
    accepting: bool,
    initial: bool)

  /**
   * The identity of a state: the sets of activated and completed nodes, the
   * type and the node involved.  `SerializeIsKey` shows that two states
   * have the same `serialize` tuple exactly when they have the same key.
   */
  datatype Key = Key(activated: set<NodeId>, completed: set<NodeId>, stateType: StateType, involved: Option<NodeId>)

  function KeyOf(s: State): Key
  {
    Key(Elems(s.activated), Elems(s.completed), s.stateType, s.involved)
  }

  /** The completed list after `adg.propagate` and the checkpoint rule of `adg.reduce_activated_completed`. */
  function CanonCompleted(g: G.Graph, completed: seq<NodeId>): (r: seq<NodeId>)
    requires G.Valid(g) && Below(completed, |g.nodes|)
    ensures Below(r, |g.nodes|)
  {
    var h := G.GraphHierarchy(g);
    P.PropagateClosed(h, completed);
    var c1 := P.Propagate(h, completed);
    G.CheckpointFoldSub(g, c1, c1);
    var r := G.RemoveCheckpointed(g, c1, c1);
    assert forall i :: 0 <= i < |r| ==> r[i] in c1;
    r
  }

  /** The activated list after the removal of forgotten attacks, against the canonical completed list. */
  function CanonActivated(g: G.Graph, activated: seq<NodeId>, completed: seq<NodeId>): (r: seq<NodeId>)
    requires G.Valid(g) && Below(activated, |g.nodes|) && Below(completed, |g.nodes|)
    ensures forall x :: x in r ==> x in activated
  {
    var c := CanonCompleted(g, completed);
    G.RemoveActivatedSub(g, c, activated, activated);
    G.RemoveActivated(g, c, activated, activated)
  }

  /** Append the elements of `ds` that are not in `acc` yet, in order. */
  function AddNew(acc: seq<NodeId>, ds: seq<NodeId>): (r: seq<NodeId>)
    ensures Elems(r) == Elems(acc) + Elems(ds)
    ensures NoDups(acc) ==> NoDups(r)
    decreases ds
  {
    if ds == [] then acc
    else
      var next := if ds[0] in acc then acc else acc + [ds[0]];
      assert Elems(ds) == {ds[0]} + Elems(ds[1..]);
      assert Elems(next) == Elems(acc) + {ds[0]};
      assert NoDups(acc) ==> NoDups(next) by {
        if NoDups(acc) && ds[0] !in acc { NoDupsConcat(acc, [ds[0]]); }
      }
      AddNew(next, ds[1..])
  }

  /** The defenses attached to `nodes`, each once, in order of first appearance. */
  function ActiveDefenses(g: G.Graph, acc: seq<NodeId>, nodes: seq<NodeId>): seq<NodeId>
    requires Below(nodes, |g.nodes|)
    decreases nodes
  {
    if nodes == [] then acc
    else ActiveDefenses(g, AddNew(acc, g.nodes[nodes[0]].defenses), nodes[1..])
  }

  /**
   * The `active_defenses` loop of `State.__init__`: no defense twice, and a
   * defense is active exactly when it is attached to one of the nodes.
   */
  lemma {:induction false} ActiveDefensesSpec(g: G.Graph, acc: seq<NodeId>, nodes: seq<NodeId>)
    requires Below(nodes, |g.nodes|) && NoDups(acc)
    ensures NoDups(ActiveDefenses(g, acc, nodes))
    ensures forall d :: d in ActiveDefenses(g, acc, nodes) <==>
              d in acc || exists i :: 0 <= i < |nodes| && d in g.nodes[nodes[i]].defenses
    decreases nodes
  {
    if nodes != [] {
      var next := AddNew(acc, g.nodes[nodes[0]].defenses);
      ActiveDefensesSpec(g, next, nodes[1..]);
      forall d ensures d in next <==> d in acc || d in g.nodes[nodes[0]].defenses {
        assert d in next <==> d in Elems(next);
      }
      forall d | exists i :: 0 <= i < |nodes| && d in g.nodes[nodes[i]].defenses
        ensures d in next || exists i :: 0 <= i < |nodes[1..]| && d in g.nodes[nodes[1..][i]].defenses
      {
        var i :| 0 <= i < |nodes| && d in g.nodes[nodes[i]].defenses;
        if i > 0 { assert nodes[1..][i - 1] == nodes[i]; }
      }
    }
  }

  /** The loop of `State.__init__` that collects `active_defenses`. */
  method CollectActiveDefenses(g: G.Graph, nodes: seq<NodeId>) returns (active: seq<NodeId>)
    requires Below(nodes, |g.nodes|)
    ensures active == ActiveDefenses(g, [], nodes)
  {
    active := [];
    for i := 0 to |nodes|
      invariant ActiveDefenses(g, active, nodes[i..]) == ActiveDefenses(g, [], nodes)
    {
      assert nodes[i..][1..] == nodes[i + 1..];
      var ds := g.nodes[nodes[i]].defenses;
      ghost var before := active;
      for j := 0 to |ds|
        invariant AddNew(active, ds[j..]) == AddNew(before, ds)
      {
        assert ds[j..][1..] == ds[j + 1..];
        if ds[j] !in active {
          active := active + [ds[j]];
        }
      }
      assert ds[|ds|..] == [];
    }
    assert nodes[|nodes|..] == [];
  }

  /**
   * A state as `State.__init__` leaves it.  Only an attacker (normal) state
   * can be accepting: when its first completed node is the root.
   */
  function MakeState(g: G.Graph, activated: seq<NodeId>, completed: seq<NodeId>, t: StateType,
                     involved: Option<NodeId>, initial: bool): (s: State)
    requires G.Valid(g) && Below(activated, |g.nodes|) && Below(completed, |g.nodes|)
    ensures Below(s.activated, |g.nodes|) && Below(s.completed, |g.nodes|)
    ensures s.stateType == t && s.involved == involved && s.initial == initial
  {
    var c := CanonCompleted(g, completed);
    var a := CanonActivated(g, activated, completed);
    assert Below(a, |g.nodes|) by {
      forall i | 0 <= i < |a| ensures a[i] < |g.nodes| { assert a[i] in activated; }
    }
    State(a, c, t, involved, ActiveDefenses(g, [], a + c), t == Normal && |c| > 0 && c[0] == g.root, initial)
  }

  /**
   * `State.__init__`: propagate the completed nodes, drop what they make
   * redundant, and collect the defenses of the remaining nodes.
   */
  method InitState(g: G.Graph, activated: seq<NodeId>, completed: seq<NodeId>, t: StateType,
                   involved: Option<NodeId>, initial: bool) returns (s: State)
    requires G.Valid(g) && Below(activated, |g.nodes|) && Below(completed, |g.nodes|)
    ensures s == MakeState(g, activated, completed, t, involved, initial)
  {
    var propagated := G.Propagate(g, completed);
    var activated', completed' := G.ReduceActivatedCompleted(g, activated, propagated);
    ghost var m := MakeState(g, activated, completed, t, involved, initial);
    assert activated' == m.activated && completed' == m.completed;
    assert Below(activated' + completed', |g.nodes|);
    var active := CollectActiveDefenses(g, activated' + completed');
    s := State(activated', completed', t, involved, active,
               t == Normal && |completed'| > 0 && completed'[0] == g.root, initial);
  }

  /** The key of the state that `State.__init__` builds from these lists. */
  function Dest(g: G.Graph, activated: seq<NodeId>, completed: seq<NodeId>, t: StateType, involved: Option<NodeId>): Key
    requires G.Valid(g) && Below(activated, |g.nodes|) && Below(completed, |g.nodes|)
  {
    KeyOf(MakeState(g, activated, completed, t, involved, false))
  }

  /** The root has no parents and no defenses, and every other node has parents. */
  predicate RootShape(g: G.Graph)
    requires G.Valid(g)
  {
    G.ParentList(g.nodes[g.root]) == [] && g.nodes[g.root].defenses == []
    && forall n :: 0 <= n < |g.nodes| && n != g.root ==> G.ParentList(g.nodes[n]) != []
  }

  /** With the root completed, the walk up from any other node meets a checkpoint. */
  lemma {:induction false} WalkReachesRoot(g: G.Graph, s: seq<NodeId>, x: NodeId)
    requires G.Valid(g) && RootShape(g) && g.root in s && x < |g.nodes| && x != g.root
    ensures G.WalkFinds(g, s, x)
    decreases x
  {
    var ps := G.ParentList(g.nodes[x]);
    if !(exists k :: 0 <= k < |ps| && G.IsCheckpoint(g, s, ps[k])) {
      var last := ps[|ps| - 1];
      assert G.IsCheckpoint(g, s, g.root) && !G.IsCheckpoint(g, s, last);
      assert Below(ps, x);
      WalkReachesRoot(g, s, last);
    }
  }

  /**
   * On a duplicate-free completed list, a normal state is accepting exactly
   * when the root is completed, and then the root is the only completed node.
   */
  lemma AcceptingIffRootCompleted(g: G.Graph, activated: seq<NodeId>, completed: seq<NodeId>, initial: bool)
    requires G.Valid(g) && RootShape(g) && Below(activated, |g.nodes|) && Below(completed, |g.nodes|) && NoDups(completed)
    ensures var s := MakeState(g, activated, completed, Normal, None, initial);
            (s.accepting <==> g.root in s.completed) && (g.root in s.completed ==> s.completed == [g.root])
  {
    var h := G.GraphHierarchy(g);
    P.PropagateClosed(h, completed);
    P.PropagateNoDups(h, completed);
    var c1 := P.Propagate(h, completed);
    var r := G.RemoveCheckpointed(g, c1, c1);
    G.RemoveCheckpointedSpec(g, c1);
    assert r == CanonCompleted(g, completed);
    if g.root in r {
      forall x | x in r ensures x == g.root {
        if x != g.root {
          WalkReachesRoot(g, r, x);
        }
      }
      NoDupsSingleton(r, g.root);
    }
  }

  /** `defense_activation_activated_completed` on one list: remove each node of `ps` that is present. */
  function Deactivate(s: seq<NodeId>, ps: seq<NodeId>): seq<NodeId>
    decreases ps
  {
    if ps == [] then s else Deactivate(RemoveFirst(s, ps[0]), ps[1..])
  }

  /** Deactivation only removes. */
  lemma {:induction false} DeactivateSub(s: seq<NodeId>, ps: seq<NodeId>)
    ensures forall y :: y in Deactivate(s, ps) ==> y in s
    decreases ps
  {
    if ps != [] {
      RemoveFirstSub(s, ps[0]);
      DeactivateSub(RemoveFirst(s, ps[0]), ps[1..]);
    }
  }

  /** On a duplicate-free list, deactivation removes exactly the nodes of `ps` and keeps the order of the rest. */
  lemma {:induction false} DeactivateSpec(s: seq<NodeId>, ps: seq<NodeId>)
    requires NoDups(s)
    ensures Deactivate(s, ps) == Without(s, Elems(ps))
    decreases ps
  {
    if ps == [] {
      assert Elems(ps) == {};
      WithoutAbsent(s, {});
    } else {
      RemoveFirstIsWithout(s, ps[0]);
      DeactivateSpec(Without(s, {ps[0]}), ps[1..]);
      WithoutWithout(s, {ps[0]}, Elems(ps[1..]));
      assert Elems(ps) == {ps[0]} + Elems(ps[1..]);
    }
  }

  /**
   * `defense_activation_activated_completed(defense, activated, completed)`,
   * on copies of the two lists: every node that the defense protects is
   * removed from both.
   */
  method DefenseActivation(g: G.Graph, defense: NodeId, activated: seq<NodeId>, completed: seq<NodeId>)
    returns (activated': seq<NodeId>, completed': seq<NodeId>)
    requires defense < |g.nodes|
    ensures activated' == Deactivate(activated, G.ParentList(g.nodes[defense]))
    ensures completed' == Deactivate(completed, G.ParentList(g.nodes[defense]))
  {
    var ps := G.ParentList(g.nodes[defense]);
    activated', completed' := activated, completed;
    for i := 0 to |ps|
      invariant Deactivate(activated', ps[i..]) == Deactivate(activated, ps)
      invariant Deactivate(completed', ps[i..]) == Deactivate(completed, ps)
    {
      assert ps[i..][1..] == ps[i + 1..];
      var node := ps[i];
      if node in completed' {
        completed' := RemoveFirst(completed', node);
      }
      if node in activated' {
        activated' := RemoveFirst(activated', node);
      }
    }
    assert ps[|ps|..] == [];
  }

  /** No two nodes share a name. */
  predicate UniqueNames(g: G.Graph)
  {
    forall i, j :: 0 <= i < j < |g.nodes| ==> g.nodes[i].name != g.nodes[j].name
  }

  /** The names of the nodes of `s`. */
  function Names(g: G.Graph, s: seq<NodeId>): (r: seq<string>)
    requires Below(s, |g.nodes|)
    ensures |r| == |s| && forall i :: 0 <= i < |s| ==> r[i] == g.nodes[s[i]].name
  {
    seq(|s|, i requires 0 <= i < |s| => g.nodes[s[i]].name)
  }

  /** The tuple `serialize` returns; the last entry is present for completion, defense and activation-cost states. */
  datatype Serial = Serial(activated: seq<string>, completed: seq<string>, stateType: string, involved: Option<string>)

  /** A state whose nodes all belong to the graph. */
  predicate InGraph(g: G.Graph, s: State)
  {
    Below(s.activated, |g.nodes|) && Below(s.completed, |g.nodes|) && (s.involved.Some? ==> s.involved.value < |g.nodes|)
  }

  /** `State.serialize` and its overrides: sorted distinct names, the type name, and the involved node's name. */
  function Serialize(g: G.Graph, s: State): Serial
    requires InGraph(g, s)
  {
    Serial(SortedSet(Names(g, s.activated)), SortedSet(Names(g, s.completed)), TypeName(s.stateType),
           if s.involved.Some? then Some(g.nodes[s.involved.value].name) else None)
  }

  /** With unique names, two lists name the same nodes exactly when they hold the same nodes. */
  lemma SameNames(g: G.Graph, a: seq<NodeId>, b: seq<NodeId>)
    requires UniqueNames(g) && Below(a, |g.nodes|) && Below(b, |g.nodes|)
    ensures Elems(Names(g, a)) == Elems(Names(g, b)) <==> Elems(a) == Elems(b)
  {
    var na, nb := Names(g, a), Names(g, b);
    if Elems(na) == Elems(nb) {
      forall x | x in Elems(a) ensures x in Elems(b) {
        var i :| 0 <= i < |a| && a[i] == x;
        assert na[i] in Elems(nb);
        var j :| 0 <= j < |b| && nb[j] == na[i];
        assert b[j] == x;
      }
      forall x | x in Elems(b) ensures x in Elems(a) {
        var j :| 0 <= j < |b| && b[j] == x;
        assert nb[j] in Elems(na);
        var i :| 0 <= i < |a| && na[i] == nb[j];
        assert a[i] == x;
      }
    }
    if Elems(a) == Elems(b) {
      forall y | y in Elems(na) ensures y in Elems(nb) {
        var i :| 0 <= i < |a| && na[i] == y;
        assert a[i] in Elems(b);
        var j :| 0 <= j < |b| && b[j] == a[i];
        assert nb[j] == y;
      }
      forall y | y in Elems(nb) ensures y in Elems(na) {
        var j :| 0 <= j < |b| && nb[j] == y;
        assert b[j] in Elems(a);
        var i :| 0 <= i < |a| && a[i] == b[j];
        assert na[i] == y;
      }
    }
  }

  /**
   * With unique names, the `serialize` tuple identifies the key: the map
   * from keys to states is the `states` dictionary of the source.
   */
  lemma SerializeIsKey(g: G.Graph, s1: State, s2: State)
    requires UniqueNames(g) && InGraph(g, s1) && InGraph(g, s2)
    ensures Serialize(g, s1) == Serialize(g, s2) <==> KeyOf(s1) == KeyOf(s2)
  {
    SortedNamesIff(g, s1.activated, s2.activated);
    SortedNamesIff(g, s1.completed, s2.completed);
    InvolvedNameIff(g, s1.involved, s2.involved);
    TypeNameInjective(s1.stateType, s2.stateType);
  }

  /** The sorted distinct names of two lists agree exactly when the lists hold the same nodes. */
  lemma SortedNamesIff(g: G.Graph, a: seq<NodeId>, b: seq<NodeId>)
    requires UniqueNames(g) && Below(a, |g.nodes|) && Below(b, |g.nodes|)
    ensures SortedSet(Names(g, a)) == SortedSet(Names(g, b)) <==> Elems(a) == Elems(b)
  {
    SameNames(g, a, b);
    var sa, sb := SortedSet(Names(g, a)), SortedSet(Names(g, b));
    if Elems(sa) == Elems(sb) { SortedUnique(sa, sb); }
  }

  /** The name of the involved node, if any, identifies it. */
  lemma InvolvedNameIff(g: G.Graph, i1: Option<NodeId>, i2: Option<NodeId>)
    requires UniqueNames(g) && (i1.Some? ==> i1.value < |g.nodes|) && (i2.Some? ==> i2.value < |g.nodes|)
    ensures (if i1.Some? then Some(g.nodes[i1.value].name) else None) == (if i2.Some? then Some(g.nodes[i2.value].name) else None)
            <==> i1 == i2
  {
    if i1.Some? && i2.Some? && i1.value != i2.value {
      var i, j := i1.value, i2.value;
      if i < j { assert g.nodes[i].name != g.nodes[j].name; } else { assert g.nodes[j].name != g.nodes[i].name; }
    }
  }

}
