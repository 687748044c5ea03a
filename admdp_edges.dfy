/**
 * The outgoing edges of every kind of ADMDP state, as uppaal/admdp.py
 * builds them.  An edge points at the key of its destination state: the
 * state that `State.__init__` makes from the lists the edge rule computes.
 * These functions are the specification that the builder in admdp.dfy is
 * proved against.
 */
module AdmdpEdges {
  import opened Lists
  import AT = AttackTree
  import G = Adg
  import opened AdmdpStates

  /** The `Edge` subclasses; probabilities are those of the success and failure branches. */
  datatype Edge =
    | ActivationEdge(destination: Key, attack: NodeId)
    | ToCompletionEdge(destination: Key, attack: NodeId)
    | CompletionEdge(destination: Key, attack: NodeId, success: bool, probability: real)
    | ToDefenseEdge(destination: Key, defense: NodeId)
    | DefenseEdge(destination: Key, defense: NodeId, success: bool, probability: real)
    | LoopDefenseEdge(destination: Key, defense: NodeId)
    | NoActivationEdge(destination: Key)
    | ActivationCostEdge(destination: Key, attack: NodeId)

  predicate IsAttack(g: G.Graph, x: NodeId)
  {
    x < |g.nodes| && g.nodes[x].kind.AttackKind?
  }

  predicate IsDefense(g: G.Graph, x: NodeId)
  {
    x < |g.nodes| && g.nodes[x].kind.DefenseKind?
  }

  /**
   * The lists a state is built from: nodes of the graph, only attacks
   * activated, and the node a state is about of the kind its type needs
   * (an attack for completion and activation-cost states, a defense for
   * defense states, none otherwise).
   */
  predicate Fits(g: G.Graph, activated: seq<NodeId>, completed: seq<NodeId>, t: StateType, involved: Option<NodeId>)
  {
    Below(activated, |g.nodes|) && Below(completed, |g.nodes|)
    && (forall x :: x in activated ==> IsAttack(g, x))
    && match t
       case Completion => involved.Some? && IsAttack(g, involved.value)
       case ActivationCost => involved.Some? && IsAttack(g, involved.value)
       case Mtd => involved.Some? && IsDefense(g, involved.value)
       case _ => involved.None?
  }

  predicate StateFits(g: G.Graph, s: State)
  {
    Fits(g, s.activated, s.completed, s.stateType, s.involved)
  }

  /** Canonicalisation keeps a fitting state fitting: it only removes activated attacks. */
  lemma MakeStateFits(g: G.Graph, a: seq<NodeId>, c: seq<NodeId>, t: StateType, involved: Option<NodeId>, initial: bool)
    requires G.Valid(g) && Fits(g, a, c, t, involved)
    ensures StateFits(g, MakeState(g, a, c, t, involved, initial))
  {
    var s := MakeState(g, a, c, t, involved, initial);
    assert s.activated == CanonActivated(g, a, c);
  }

  /** The `success_probability` of an attack or a defense. */
  function SuccessProbability(n: G.Node): real
    requires n.kind.AttackKind? || n.kind.DefenseKind?
  {
    n.kind.successProbability
  }

  /** `activation_cost is None or activation_cost == 0`. */
  predicate FreeActivation(n: G.Node)
    requires n.kind.AttackKind?
  {
    n.kind.activationCost.None? || n.kind.activationCost.value == 0
  }

  /** The key of the state built from these lists. */
  function To(g: G.Graph, a: seq<NodeId>, c: seq<NodeId>, t: StateType, involved: Option<NodeId>): Key
    requires G.Valid(g) && Below(a, |g.nodes|) && Below(c, |g.nodes|)
  {
    Dest(g, a, c, t, involved)
  }

  // ---------------------------------------------------------------- attacker

  /** The edge, if any, that an attacker state gets for attack `x`. */
  function ActivationStep(g: G.Graph, s: State, x: NodeId): seq<Edge>
    requires G.Valid(g) && StateFits(g, s) && IsAttack(g, x)
  {
    if x in s.activated || G.InCompletedSubadg(g, s.completed, x) then []
    else if FreeActivation(g.nodes[x]) then [ActivationEdge(To(g, s.activated + [x], s.completed, Normal, None), x)]
    else [ActivationCostEdge(To(g, s.activated, s.completed, ActivationCost, Some(x)), x)]
  }

  /** The edges that carry an attack. */
  predicate HasAttack(e: Edge)
  {
    e.ActivationEdge? || e.ToCompletionEdge? || e.CompletionEdge? || e.ActivationCostEdge?
  }

  predicate AllAttacks(g: G.Graph, xs: seq<NodeId>)
  {
    forall i :: 0 <= i < |xs| ==> IsAttack(g, xs[i])
  }

  /** The activation edges of an attacker state, for the attacks `xs` in order. */
  function ActivationEdges(g: G.Graph, s: State, xs: seq<NodeId>): seq<Edge>
    requires G.Valid(g) && StateFits(g, s) && AllAttacks(g, xs)
    decreases |xs|
  {
    if xs == [] then []
    else ActivationEdges(g, s, xs[..|xs| - 1]) + ActivationStep(g, s, xs[|xs| - 1])
  }

  /** The activation edges of one more attack. */
  lemma ActivationEdgesSnoc(g: G.Graph, s: State, xs: seq<NodeId>, i: nat)
    requires G.Valid(g) && StateFits(g, s) && AllAttacks(g, xs) && i < |xs|
    ensures AllAttacks(g, xs[..i]) && AllAttacks(g, xs[..i + 1])
    ensures ActivationEdges(g, s, xs[..i + 1]) == ActivationEdges(g, s, xs[..i]) + ActivationStep(g, s, xs[i])
  {
    assert xs[..i + 1][..i] == xs[..i];
  }

  /** Some activated attack, or some completed node with attached defenses. */
  predicate WantsNoActivation(g: G.Graph, s: State)
    requires StateFits(g, s)
  {
    |s.activated| > 0 || exists i :: 0 <= i < |s.completed| && g.nodes[s.completed[i]].defenses != []
  }

  /** The attacks of the graph, in the order the edges are built. */
  function Attacks(g: G.Graph): (xs: seq<NodeId>)
    ensures AllAttacks(g, xs) && NoDups(xs)
    ensures forall x :: IsAttack(g, x) ==> x in xs
  {
    var xs := G.AllOfType(g, AT.AttackType);
    assert forall i :: 0 <= i < |xs| ==> xs[i] in xs;
    xs
  }

  /** The defenses of the graph, in the order the edges are built. */
  function Defenses(g: G.Graph): (ds: seq<NodeId>)
    ensures (forall i :: 0 <= i < |ds| ==> IsDefense(g, ds[i])) && NoDups(ds)
    ensures forall d :: IsDefense(g, d) ==> d in ds
  {
    var ds := G.AllOfType(g, AT.DefenseType);
    assert forall i :: 0 <= i < |ds| ==> ds[i] in ds;
    ds
  }

  /** `AttackerState.build_edges`. */
  function AttackerEdges(g: G.Graph, s: State): seq<Edge>
    requires G.Valid(g) && StateFits(g, s)
  {
    ActivationEdges(g, s, Attacks(g))
    + if WantsNoActivation(g, s) then [NoActivationEdge(To(g, s.activated, s.completed, NoActivation, None))] else []
  }

  // ----------------------------------------------------------- no activation

  /** The edge of a no-activation state towards the completion of the activated attack `x`. */
  function ToCompletion(g: G.Graph, s: State, x: NodeId): Edge
    requires G.Valid(g) && StateFits(g, s) && IsAttack(g, x)
  {
    if SuccessProbability(g.nodes[x]) < 1.0 then ToCompletionEdge(To(g, s.activated, s.completed, Completion, Some(x)), x)
    else ToCompletionEdge(To(g, s.activated, s.completed + [x], Normal, None), x)
  }

  /** One edge towards completion per attack of `xs`, in order. */
  function ToCompletionEdges(g: G.Graph, s: State, xs: seq<NodeId>): (r: seq<Edge>)
    requires G.Valid(g) && StateFits(g, s) && AllAttacks(g, xs)
    ensures |r| == |xs|
    ensures forall i :: 0 <= i < |xs| ==> r[i] == ToCompletion(g, s, xs[i])
  {
    Map(x requires G.Valid(g) && StateFits(g, s) && IsAttack(g, x) => ToCompletion(g, s, x), xs)
  }

  /** The edges towards completion of one more activated attack. */
  lemma ToCompletionEdgesSnoc(g: G.Graph, s: State, xs: seq<NodeId>, i: nat)
    requires G.Valid(g) && StateFits(g, s) && AllAttacks(g, xs) && i < |xs|
    ensures AllAttacks(g, xs[..i]) && AllAttacks(g, xs[..i + 1])
    ensures ToCompletionEdges(g, s, xs[..i + 1]) == ToCompletionEdges(g, s, xs[..i]) + [ToCompletion(g, s, xs[i])]
  {
    MapSnoc(x requires G.Valid(g) && StateFits(g, s) && IsAttack(g, x) => ToCompletion(g, s, x), xs, i);
  }

  /** The parents of a defense, with a missing list read as empty. */
  function Protected(g: G.Graph, d: NodeId): seq<NodeId>
    requires d < |g.nodes|
  {
    G.ParentList(g.nodes[d])
  }

  /** The key reached by a successful activation of defense `d` from the lists `a` and `c`. */
  function ResetKey(g: G.Graph, a: seq<NodeId>, c: seq<NodeId>, d: NodeId): Key
    requires G.Valid(g) && Below(a, |g.nodes|) && Below(c, |g.nodes|) && d < |g.nodes|
  {
    DeactivateSub(a, Protected(g, d));
    DeactivateSub(c, Protected(g, d));
    BelowSub(Deactivate(a, Protected(g, d)), a, |g.nodes|);
    BelowSub(Deactivate(c, Protected(g, d)), c, |g.nodes|);
    To(g, Deactivate(a, Protected(g, d)), Deactivate(c, Protected(g, d)), Normal, None)
  }

  /** The lists after a successful activation of defense `d` still fit the graph. */
  lemma ResetFits(g: G.Graph, a: seq<NodeId>, c: seq<NodeId>, d: NodeId)
    requires Fits(g, a, c, Normal, None) && d < |g.nodes|
    ensures Fits(g, Deactivate(a, Protected(g, d)), Deactivate(c, Protected(g, d)), Normal, None)
  {
    DeactivateSub(a, Protected(g, d));
    DeactivateSub(c, Protected(g, d));
    BelowSub(Deactivate(a, Protected(g, d)), a, |g.nodes|);
    BelowSub(Deactivate(c, Protected(g, d)), c, |g.nodes|);
  }

  /** The edge of a no-activation state for defense `d`. */
  function DefenseStep(g: G.Graph, s: State, d: NodeId): Edge
    requires G.Valid(g) && StateFits(g, s) && IsDefense(g, d)
  {
    if d !in s.activeDefenses then LoopDefenseEdge(KeyOf(s), d)
    else if SuccessProbability(g.nodes[d]) < 1.0 then ToDefenseEdge(To(g, s.activated, s.completed, Mtd, Some(d)), d)
    else ToDefenseEdge(ResetKey(g, s.activated, s.completed, d), d)
  }

  predicate AllDefenses(g: G.Graph, ds: seq<NodeId>)
  {
    forall i :: 0 <= i < |ds| ==> IsDefense(g, ds[i])
  }

  function DefenseEdges(g: G.Graph, s: State, ds: seq<NodeId>): seq<Edge>
    requires G.Valid(g) && StateFits(g, s) && AllDefenses(g, ds)
    decreases |ds|
  {
    if ds == [] then []
    else DefenseEdges(g, s, ds[..|ds| - 1]) + [DefenseStep(g, s, ds[|ds| - 1])]
  }

  /** The defense edges of one more defense. */
  lemma DefenseEdgesSnoc(g: G.Graph, s: State, ds: seq<NodeId>, j: nat)
    requires G.Valid(g) && StateFits(g, s) && AllDefenses(g, ds) && j < |ds|
    ensures AllDefenses(g, ds[..j]) && AllDefenses(g, ds[..j + 1])
    ensures DefenseEdges(g, s, ds[..j + 1]) == DefenseEdges(g, s, ds[..j]) + [DefenseStep(g, s, ds[j])]
  {
    assert ds[..j + 1][..j] == ds[..j];
  }

  /** `NoActivationState.build_edges`. */
  function NoActivationEdges(g: G.Graph, s: State): seq<Edge>
    requires G.Valid(g) && StateFits(g, s)
  {
    assert AllAttacks(g, s.activated) by {
      forall i | 0 <= i < |s.activated| ensures IsAttack(g, s.activated[i]) { assert s.activated[i] in s.activated; }
    }
    ToCompletionEdges(g, s, s.activated) + DefenseEdges(g, s, Defenses(g))
  }

  // ---------------------------------------------------------------- branches

  /**
   * `CompletionState.build_edges`: success moves the attack from activated
   * to completed, failure only drops it from activated.  None when the
   * attack is no longer activated, where `list.remove` raises.
   */
  function CompletionEdges(g: G.Graph, s: State): Option<seq<Edge>>
    requires G.Valid(g) && StateFits(g, s) && s.stateType == Completion
  {
    var x := s.involved.value;
    if x !in s.activated then None
    else
      var a := RemoveFirst(s.activated, x);
      RemoveFirstSub(s.activated, x);
      BelowSub(a, s.activated, |g.nodes|);
      var p := SuccessProbability(g.nodes[x]);
      Some([CompletionEdge(To(g, a, s.completed + [x], Normal, None), x, true, p),
            CompletionEdge(To(g, a, s.completed, Normal, None), x, false, 1.0 - p)])
  }

  /** `DefenseState.build_edges`: success resets the protected nodes, failure changes nothing. */
  function MtdEdges(g: G.Graph, s: State): seq<Edge>
    requires G.Valid(g) && StateFits(g, s) && s.stateType == Mtd
  {
    var d := s.involved.value;
    var p := SuccessProbability(g.nodes[d]);
    [DefenseEdge(ResetKey(g, s.activated, s.completed, d), d, true, p),
     DefenseEdge(To(g, s.activated, s.completed, Normal, None), d, false, 1.0 - p)]
  }

  /** `ActivationCostState.build`: the single edge that activates the attack. */
  function ActivationCostEdges(g: G.Graph, s: State): seq<Edge>
    requires G.Valid(g) && StateFits(g, s) && s.stateType == ActivationCost
  {
    var x := s.involved.value;
    [ActivationEdge(To(g, s.activated + [x], s.completed, Normal, None), x)]
  }

  /** The edges of a state, by its type; None when building them raises. */
  function EdgesOf(g: G.Graph, s: State): Option<seq<Edge>>
    requires G.Valid(g) && StateFits(g, s)
  {
    match s.stateType
    case Normal => Some(AttackerEdges(g, s))
    case NoActivation => Some(NoActivationEdges(g, s))
    case Completion => CompletionEdges(g, s)
    case Mtd => Some(MtdEdges(g, s))
    case ActivationCost => Some(ActivationCostEdges(g, s))
  }

  // ---------------------------------------------------------------- lemmas

  /** An attack an attacker state may activate: neither activated nor below a completed node. */
  predicate Eligible(g: G.Graph, s: State, x: NodeId)
    requires G.Valid(g) && StateFits(g, s)
  {
    x !in s.activated && !G.InCompletedSubadg(g, s.completed, x)
  }

  /**
   * An edge an attacker state gets for an eligible attack: an activation
   * edge towards the state with the attack activated when activating it
   * costs nothing, an activation-cost edge otherwise.
   */
  predicate ActivationFor(g: G.Graph, s: State, e: Edge)
    requires G.Valid(g) && StateFits(g, s)
  {
    (e.ActivationEdge? || e.ActivationCostEdge?) && IsAttack(g, e.attack) && Eligible(g, s, e.attack)
    && (e.ActivationEdge? <==> FreeActivation(g.nodes[e.attack]))
    && (e.ActivationEdge? ==> e.destination == To(g, s.activated + [e.attack], s.completed, Normal, None))
    && (e.ActivationCostEdge? ==> e.destination == To(g, s.activated, s.completed, ActivationCost, Some(e.attack)))
  }

  lemma ActivationStepSpec(g: G.Graph, s: State, x: NodeId)
    requires G.Valid(g) && StateFits(g, s) && IsAttack(g, x)
    ensures |ActivationStep(g, s, x)| == (if Eligible(g, s, x) then 1 else 0)
    ensures forall e :: e in ActivationStep(g, s, x) ==> e.attack == x && ActivationFor(g, s, e)
  {
  }

  /** The eligible attacks of `xs`, in order. */
  function EligibleAttacks(g: G.Graph, s: State, xs: seq<NodeId>): seq<NodeId>
    requires G.Valid(g) && StateFits(g, s)
    decreases |xs|
  {
    if xs == [] then []
    else EligibleAttacks(g, s, xs[..|xs| - 1]) + if Eligible(g, s, xs[|xs| - 1]) then [xs[|xs| - 1]] else []
  }

  /** The eligible attacks of `xs` are those of its elements that are eligible, each once if `xs` has no duplicates. */
  lemma {:induction false} EligibleAttacksSpec(g: G.Graph, s: State, xs: seq<NodeId>)
    requires G.Valid(g) && StateFits(g, s)
    ensures forall x :: x in EligibleAttacks(g, s, xs) <==> x in xs && Eligible(g, s, x)
    ensures NoDups(xs) ==> NoDups(EligibleAttacks(g, s, xs))
    decreases |xs|
  {
    if xs != [] {
      var init, x := xs[..|xs| - 1], xs[|xs| - 1];
      assert xs == init + [x];
      EligibleAttacksSpec(g, s, init);
      if NoDups(xs) {
        assert NoDups(init) by {
          forall i, j | 0 <= i < j < |init| ensures init[i] != init[j] { assert xs[i] != xs[j]; }
        }
        assert x !in init by {
          forall k | 0 <= k < |init| ensures init[k] != x { assert xs[k] != xs[|xs| - 1]; }
        }
        var e0 := EligibleAttacks(g, s, init);
        if Eligible(g, s, x) {
          NoDupsConcat(e0, [x]);
        }
      }
    }
  }

  /** The activation edges for `xs` are, in order, one edge for each eligible attack of `xs`. */
  lemma {:induction false} ActivationEdgesFollow(g: G.Graph, s: State, xs: seq<NodeId>)
    requires G.Valid(g) && StateFits(g, s) && AllAttacks(g, xs)
    ensures |ActivationEdges(g, s, xs)| == |EligibleAttacks(g, s, xs)|
    ensures forall i :: 0 <= i < |ActivationEdges(g, s, xs)| ==>
              ActivationFor(g, s, ActivationEdges(g, s, xs)[i])
              && ActivationEdges(g, s, xs)[i].attack == EligibleAttacks(g, s, xs)[i]
    decreases |xs|
  {
    if xs != [] {
      var init, x := xs[..|xs| - 1], xs[|xs| - 1];
      ActivationEdgesFollow(g, s, init);
      ActivationStepSpec(g, s, x);
      assert ActivationStep(g, s, x) != [] ==> ActivationStep(g, s, x)[0] in ActivationStep(g, s, x);
    }
  }

  /**
   * The edges of an attacker state: first, in order, one activation or
   * activation-cost edge for each eligible attack of the graph (each
   * eligible attack once, no other attack); then a no-activation edge,
   * exactly when some attack is activated or some completed node has
   * attached defenses.
   */
  lemma AttackerEdgesSpec(g: G.Graph, s: State)
    requires G.Valid(g) && StateFits(g, s)
    ensures var r, es := AttackerEdges(g, s), EligibleAttacks(g, s, Attacks(g));
            |r| == |es| + (if WantsNoActivation(g, s) then 1 else 0)
            && (forall i :: 0 <= i < |es| ==> ActivationFor(g, s, r[i]) && r[i].attack == es[i])
            && (forall x :: x in es <==> IsAttack(g, x) && Eligible(g, s, x))
            && NoDups(es)
            && (WantsNoActivation(g, s) ==> r[|es|] == NoActivationEdge(To(g, s.activated, s.completed, NoActivation, None)))
  {
    var xs := Attacks(g);
    ActivationEdgesFollow(g, s, xs);
    EligibleAttacksSpec(g, s, xs);
  }

  lemma {:induction false} DefenseEdgesLength(g: G.Graph, s: State, ds: seq<NodeId>)
    requires G.Valid(g) && StateFits(g, s) && AllDefenses(g, ds)
    ensures |DefenseEdges(g, s, ds)| == |ds|
    decreases |ds|
  {
    if ds != [] {
      DefenseEdgesLength(g, s, ds[..|ds| - 1]);
    }
  }

  /** The edge at position `i` is the one for the `i`-th defense. */
  lemma {:induction false} DefenseEdgesAt(g: G.Graph, s: State, ds: seq<NodeId>, i: nat)
    requires G.Valid(g) && StateFits(g, s) && AllDefenses(g, ds) && i < |ds|
    ensures i < |DefenseEdges(g, s, ds)| && DefenseEdges(g, s, ds)[i] == DefenseStep(g, s, ds[i])
    decreases |ds|
  {
    var init := ds[..|ds| - 1];
    DefenseEdgesLength(g, s, ds);
    DefenseEdgesLength(g, s, init);
    if i < |init| {
      DefenseEdgesAt(g, s, init, i);
      assert ds[i] == init[i];
    }
  }

  lemma DefenseEdgesIndex(g: G.Graph, s: State, ds: seq<NodeId>)
    requires G.Valid(g) && StateFits(g, s) && AllDefenses(g, ds)
    ensures |DefenseEdges(g, s, ds)| == |ds|
    ensures forall i :: 0 <= i < |ds| ==> DefenseEdges(g, s, ds)[i] == DefenseStep(g, s, ds[i])
  {
    DefenseEdgesLength(g, s, ds);
    forall i | 0 <= i < |ds| ensures DefenseEdges(g, s, ds)[i] == DefenseStep(g, s, ds[i]) {
      DefenseEdgesAt(g, s, ds, i);
    }
  }


  /** The edge towards completing `x`: through a completion state exactly when the attack may fail. */
  lemma ToCompletionSpec(g: G.Graph, s: State, x: NodeId)
    requires G.Valid(g) && StateFits(g, s) && IsAttack(g, x)
    ensures var e := ToCompletion(g, s, x);
            e.ToCompletionEdge? && e.attack == x
            && (e.destination.stateType == Completion <==> SuccessProbability(g.nodes[x]) < 1.0)
  {
  }

  /**
   * The edge for defense `d`: towards its activation when it is active,
   * through a defense state exactly when it may fail; a loop back to the
   * state when it is not active.
   */
  lemma DefenseStepSpec(g: G.Graph, s: State, d: NodeId)
    requires G.Valid(g) && StateFits(g, s) && IsDefense(g, d)
    ensures var e := DefenseStep(g, s, d);
            (e.ToDefenseEdge? || e.LoopDefenseEdge?) && e.defense == d
            && (e.ToDefenseEdge? <==> d in s.activeDefenses)
            && (e.LoopDefenseEdge? ==> e.destination == KeyOf(s))
            && (e.ToDefenseEdge? ==> (e.destination.stateType == Mtd <==> SuccessProbability(g.nodes[d]) < 1.0))
  {
  }

  /**
   * The edges of a no-activation state: one edge towards completion per
   * activated attack, in order; then one edge per defense of the graph, in
   * order.
   */
  lemma NoActivationEdgesSpec(g: G.Graph, s: State)
    requires G.Valid(g) && StateFits(g, s)
    ensures var r, a, ds := NoActivationEdges(g, s), s.activated, Defenses(g);
            AllAttacks(g, a) && AllDefenses(g, ds)
            && |r| == |a| + |ds|
            && (forall i :: 0 <= i < |a| ==> r[i] == ToCompletion(g, s, a[i]))
            && (forall j :: 0 <= j < |ds| ==> r[|a| + j] == DefenseStep(g, s, ds[j]))
  {
    assert AllAttacks(g, s.activated) by {
      forall i | 0 <= i < |s.activated| ensures IsAttack(g, s.activated[i]) { assert s.activated[i] in s.activated; }
    }
    DefenseEdgesIndex(g, s, Defenses(g));
  }

  /**
   * Completion, defense and activation-cost states are intermediate: every
   * edge out of one leads to an attacker state.
   */
  lemma OutcomesReturnToAttacker(g: G.Graph, s: State)
    requires G.Valid(g) && StateFits(g, s)
    requires s.stateType == Completion || s.stateType == Mtd || s.stateType == ActivationCost
    ensures EdgesOf(g, s).Some? ==>
              forall e :: e in EdgesOf(g, s).value ==> e.destination.stateType == Normal && e.destination.involved.None?
  {
  }

  /** After a completion attempt, successful or not, the attack is no longer activated. */
  lemma CompletionDeactivates(g: G.Graph, s: State)
    requires G.Valid(g) && StateFits(g, s) && s.stateType == Completion && NoDups(s.activated)
    ensures EdgesOf(g, s).Some? ==> forall e :: e in EdgesOf(g, s).value ==> s.involved.value !in e.destination.activated
  {
    if s.involved.value in s.activated {
      var x := s.involved.value;
      var a := RemoveFirst(s.activated, x);
      RemoveFirstSub(s.activated, x);
      BelowSub(a, s.activated, |g.nodes|);
      RemoveFirstIsWithout(s.activated, x);
      assert x !in Elems(a);
      assert x !in Elems(CanonActivated(g, a, s.completed + [x]));
      assert x !in Elems(CanonActivated(g, a, s.completed));
    }
  }

  /**
   * A completion or defense state has two edges, success then failure,
   * with probabilities `p` and `1.0 - p`, which sum to 1.  A completion
   * state has them exactly when its attack is still activated.
   */
  lemma BranchProbabilities(g: G.Graph, s: State)
    requires G.Valid(g) && StateFits(g, s) && (s.stateType == Completion || s.stateType == Mtd)
    ensures s.stateType == Completion ==> (EdgesOf(g, s).Some? <==> s.involved.value in s.activated)
    ensures EdgesOf(g, s).Some? ==>
              var r := EdgesOf(g, s).value;
              |r| == 2 && r[0].success && !r[1].success
              && r[0].probability == SuccessProbability(g.nodes[s.involved.value])
              && r[0].probability + r[1].probability == 1.0
  {
  }
}
