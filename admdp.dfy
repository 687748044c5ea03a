/**
 * The `ADMDP` of uppaal/admdp.py: starting from the initial attacker state,
 * every state is built once.  Building a state records it under its key
 * and builds its outgoing edges, and building an edge builds its
 * destination.  States are made through the `Unique` cache, which keeps
 * the first state made for every key.
 *
 * The builder owns the cache (a map from key to the first state made), the
 * `states` map of built states and the edges of every built state.  Its
 * methods are proved against the edge rules of admdp_edges.dfy: once the
 * build succeeds, every built state has exactly the edges its rule gives,
 * and every destination is itself built (the failure destination of a
 * defense state is only made, as in the source).
 */
module Admdp {
  import opened Lists
  import G = Adg
  import opened AdmdpStates
  import opened AdmdpEdges
  import opened AdmdpInvariant

  class Builder {
    const g: G.Graph
    /** The `Unique` cache: the first state made for every key. */
    var cache: map<Key, State>
    /** `admdp.states`: the states built so far. */
    var states: map<Key, State>
    /** The `edges` list of every built state. */
    var edges: map<Key, seq<Edge>>
    /** The built states whose edges are all built. */
    ghost var finished: set<Key>
    var initialState: Option<Key>
    var acceptingState: Option<Key>

    ghost predicate Valid()
      reads this
    {
      Consistent(g, cache, states, edges, finished, acceptingState) && Settled(states, finished, acceptingState)
    }

    /** How many keys are left to build. */
    ghost function Remaining(): nat
      reads this
      requires Valid()
    {
      Capacity(g) - |states|
    }

    constructor (g: G.Graph)
      requires G.Valid(g)
      ensures Valid() && this.g == g
      ensures cache == map[] && states == map[] && edges == map[] && finished == {}
      ensures initialState == None && acceptingState == None
    {
      this.g := g;
      cache, states, edges, finished := map[], map[], map[], {};
      initialState, acceptingState := None, None;
    }

    /**
     * `build_admdp`: make the initial attacker state and build it.  Once the
     * build succeeds, every built state has the edges of its rule, every
     * destination that is built is there, and the accepting state is set
     * exactly when an accepting state was built.
     */
    method BuildAdmdp() returns (ok: bool)
      requires Valid() && cache == map[] && states == map[]
      modifies this
      ensures Valid() && initialState.Some?
      ensures ok ==> initialState.value in states && states[initialState.value].initial
      ensures ok ==> Conforms(g, states, edges) && Closed(states, edges, states.Keys)
      ensures ok ==> (acceptingState.Some? <==> exists k :: k in states && states[k].accepting)
      ensures ok <==> !Stuck(states)
    {
      var k := NewState([], [], Normal, None, true);
      initialState := Some(k);
      assert Pending(states, finished) == {};
      ok := Build(k);
      if ok {
        AllFinished(g, cache, states, edges, finished, acceptingState);
        ConformsNotStuck(g, states, edges);
        AcceptingRecorded(g, cache, states, edges, finished, acceptingState);
      }
    }

    /**
     * Make a state through the `Unique` cache: build it as `State.__init__`
     * does and keep it only if no state has its key yet.  The result is the
     * key; the state under it is the first one made.
     */
    method NewState(a: seq<NodeId>, c: seq<NodeId>, t: StateType, involved: Option<NodeId>, initial: bool)
      returns (k: Key)
      requires Valid() && Fits(g, a, c, t, involved)
      modifies this`cache
      ensures Valid() && k == To(g, a, c, t, involved) && k in cache
      ensures cache == if k in old(cache) then old(cache) else old(cache)[k := MakeState(g, a, c, t, involved, initial)]
    {
      var s := InitState(g, a, c, t, involved, initial);
      MakeStateFits(g, a, c, t, involved, initial);
      k := KeyOf(s);
      if k !in cache {
        CachedConsistent(g, cache, states, edges, finished, acceptingState, k, s);
        cache := cache[k := s];
      }
    }

    /** Record the made state `k` as built, with no edges yet. */
    method Record(k: Key) returns (s: State)
      requires Valid() && k in cache && k !in states
      modifies this`states, this`edges
      ensures Valid() && s == cache[k] && states == old(states)[k := s] && edges == old(edges)[k := []]
      ensures k !in finished && Pending(states, finished) == Pending(old(states), finished) + {k}
    {
      s := cache[k];
      RecordConsistent(g, cache, states, edges, finished, acceptingState, k);
      PendingRecord(states, finished, k, s);
      states := states[k := s];
      edges := edges[k := []];
    }

    /** Record that state `k`, whose edges are those of its rule and reach built states, is finished. */
    ghost method Finish(k: Key, s: State, s0: map<Key, State>, e0: map<Key, seq<Edge>>, p0: set<Key>)
      requires Underway(g, cache, states, edges, finished, acceptingState, s0, e0, p0, k, s) && EdgesOf(g, s) == Some(edges[k])
      requires s.accepting ==> acceptingState.Some?
      modifies this`finished
      ensures Valid() && Pending(states, finished) == p0 - {k}
    {
      FinishConsistent(g, cache, states, edges, finished, acceptingState, k);
      PendingFinish(states, finished, k);
      finished := finished + {k};
    }

    /**
     * `build` of every state class: a state whose key is already built is
     * left alone; otherwise the first state made under its key is recorded
     * and its edges are built.  An accepting state (only an attacker state
     * can be one) then becomes the accepting state.
     */
    method Build(k: Key) returns (ok: bool)
      requires Valid() && k in cache
      modifies this`cache, this`states, this`edges, this`finished, this`acceptingState
      ensures Valid() && Later(old(states), old(edges), states, edges)
      ensures !ok ==> Stuck(states)
      ensures ok ==> k in states && states[k] == old(cache[k])
      ensures ok ==> Pending(states, finished) == Pending(old(states), old(finished))
      ensures ok && k !in old(states) && old(cache[k]).accepting ==> acceptingState == Some(k)
      decreases Remaining(), 0
    {
      if k in states {
        LaterRefl(states, edges);
        return true;
      }
      ghost var s0, e0, p0 := states, edges, Pending(states, finished);
      var s := Record(k);
      ghost var s1, e1, p1 := states, edges, Pending(states, finished);
      ok := BuildEdges(k);
      if ok && s.accepting {
        AcceptConsistent(g, cache, states, edges, finished, acceptingState, k);
        acceptingState := Some(k);
      }
      LaterRecord(s0, e0, k, s, states, edges);
      if ok {
        Finish(k, s, s1, e1, p1);
        PendingRestored(p0, k);
      }
    }

    /** `build_edges` of every state class, chosen by the type of the recorded state `k`. */
    method BuildEdges(k: Key) returns (ok: bool)
      requires Valid() && k in states && k !in finished && edges[k] == []
      modifies this`cache, this`states, this`edges, this`finished, this`acceptingState
      ensures Valid() && Later(old(states), old(edges) - {k}, states, edges)
      ensures !ok ==> Stuck(states)
      ensures k in states && states[k] == old(states[k])
      ensures ok ==> EdgesOf(g, states[k]) == Some(edges[k])
      ensures ok ==> Underway(g, cache, states, edges, finished, acceptingState, old(states), old(edges),
                              Pending(old(states), old(finished)), k, old(states[k]))
      decreases Remaining(), 5
    {
      var s := states[k];
      assert StateFits(g, s);
      ghost var s0, e0, p0 := states, edges, Pending(states, finished);
      LaterStart(states, edges, k);
      match s.stateType {
        case Normal =>
          ok := BuildAttackerEdges(k, s, s0, e0, p0);
        case Completion =>
          ok := BuildCompletionEdges(k, s, s0, e0, p0);
        case Mtd =>
          ok := BuildDefenseEdges(k, s, s0, e0, p0);
        case NoActivation =>
          ok := BuildNoActivationEdges(k, s, s0, e0, p0);
        case ActivationCost =>
          ok := BuildActivationCostEdges(k, s, s0, e0, p0);
      }
    }

    /**
     * Append edge `e` to the edges of state `k`, then build its destination,
     * except for a loop edge (its destination is `k`) and the failure edge
     * of a defense state (its destination is only made).  The edges of `k`
     * are built from the states `s0`, the edges `e0` and the pending states
     * `p0` that were there when `k` was recorded.
     */
    method AddEdge(k: Key, ghost s: State, e: Edge, ghost s0: map<Key, State>, ghost e0: map<Key, seq<Edge>>,
                   ghost p0: set<Key>) returns (ok: bool)
      requires Underway(g, cache, states, edges, finished, acceptingState, s0, e0, p0, k, s) && e.destination in cache
      requires e.LoopDefenseEdge? ==> e.destination == k
      modifies this`cache, this`states, this`edges, this`finished, this`acceptingState
      ensures Valid() && Later(s0, e0 - {k}, states, edges) && |old(states)| <= |states|
      ensures !ok ==> Stuck(states)
      ensures k in edges && edges[k] == old(edges[k]) + [e]
      ensures OnlyMade(e) || e.LoopDefenseEdge? ==> ok
      ensures ok ==> Underway(g, cache, states, edges, finished, acceptingState, s0, e0, p0, k, s)
      decreases Remaining(), 1
    {
      var v := edges[k] + [e];
      EditConsistent(g, cache, states, edges, finished, acceptingState, k, v);
      edges := edges[k := v];
      if OnlyMade(e) || e.LoopDefenseEdge? {
        LaterRefl(states, edges);
        LaterThrough(s0, e0, states, old(edges), k, v, states, edges);
        ReachedAppend(states, old(edges[k]), e);
        return true;
      }
      ok := Build(e.destination);
      LaterThrough(s0, e0, old(states), old(edges), k, v, states, edges);
      if ok {
        ReachedGrows(old(states), states, old(edges[k]));
        ReachedAppend(states, old(edges[k]), e);
      }
    }

    /** The edge, if any, of attacker state `k` for attack `x`: its destination is made, then built. */
    method AttackStep(k: Key, s: State, x: NodeId, ghost s0: map<Key, State>, ghost e0: map<Key, seq<Edge>>,
                      ghost p0: set<Key>) returns (ok: bool)
      requires Underway(g, cache, states, edges, finished, acceptingState, s0, e0, p0, k, s) && StateFits(g, s) && IsAttack(g, x)
      modifies this`cache, this`states, this`edges, this`finished, this`acceptingState
      ensures Valid() && Later(s0, e0 - {k}, states, edges) && |old(states)| <= |states|
      ensures !ok ==> Stuck(states)
      ensures ok ==> Underway(g, cache, states, edges, finished, acceptingState, s0, e0, p0, k, s) && edges[k] == old(edges[k]) + ActivationStep(g, s, x)
      decreases Remaining(), 2
    {
      if x in s.activated || G.InCompletedSubadg(g, s.completed, x) {
        AppendNil(edges[k]);
        return true;
      }
      var d;
      if FreeActivation(g.nodes[x]) {
        d := NewState(s.activated + [x], s.completed, Normal, None, false);
        ok := AddEdge(k, s, ActivationEdge(d, x), s0, e0, p0);
      } else {
        d := NewState(s.activated, s.completed, ActivationCost, Some(x), false);
        ok := AddEdge(k, s, ActivationCostEdge(d, x), s0, e0, p0);
      }
    }

    /** The activation edges of attacker state `k`, one attack at a time. */
    method AttackLoop(k: Key, s: State, ghost s0: map<Key, State>, ghost e0: map<Key, seq<Edge>>,
                      ghost p0: set<Key>) returns (ok: bool)
      requires Underway(g, cache, states, edges, finished, acceptingState, s0, e0, p0, k, s) && StateFits(g, s) && edges[k] == []
      modifies this`cache, this`states, this`edges, this`finished, this`acceptingState
      ensures Valid() && Later(s0, e0 - {k}, states, edges) && |old(states)| <= |states|
      ensures !ok ==> Stuck(states)
      ensures ok ==> Underway(g, cache, states, edges, finished, acceptingState, s0, e0, p0, k, s) && edges[k] == ActivationEdges(g, s, Attacks(g))
      decreases Remaining(), 3
    {
      var xs := Attacks(g);
      for i := 0 to |xs|
        invariant Underway(g, cache, states, edges, finished, acceptingState, s0, e0, p0, k, s) && |old(states)| <= |states|
        invariant edges[k] == ActivationEdges(g, s, xs[..i])
      {
        ok := AttackStep(k, s, xs[i], s0, e0, p0);
        if !ok {
          return;
        }
        ActivationEdgesSnoc(g, s, xs, i);
      }
      assert xs[..|xs|] == xs;
      ok := true;
    }

    /** `AttackerState.build_edges`: the activation edges, then the no-activation edge. */
    method BuildAttackerEdges(k: Key, s: State, ghost s0: map<Key, State>, ghost e0: map<Key, seq<Edge>>,
                        ghost p0: set<Key>) returns (ok: bool)
      requires Underway(g, cache, states, edges, finished, acceptingState, s0, e0, p0, k, s)
      requires StateFits(g, s) && edges[k] == [] && s.stateType == Normal
      modifies this`cache, this`states, this`edges, this`finished, this`acceptingState
      ensures Valid() && Later(s0, e0 - {k}, states, edges)
      ensures !ok ==> Stuck(states)
      ensures ok ==> Underway(g, cache, states, edges, finished, acceptingState, s0, e0, p0, k, s) && EdgesOf(g, s) == Some(edges[k])
      decreases Remaining(), 4
    {
      ok := AttackLoop(k, s, s0, e0, p0);
      if !ok {
        return;
      }
      if WantsNoActivation(g, s) {
        var d := NewState(s.activated, s.completed, NoActivation, None, false);
        ok := AddEdge(k, s, NoActivationEdge(d), s0, e0, p0);
        if !ok {
          return;
        }
        RuleOfAttackerWith(g, s, d, edges[k]);
      } else {
        RuleOfAttackerWithout(g, s, edges[k]);
      }
    }

    /** The edge of no-activation state `k` towards the completion of the activated attack `x`. */
    method CompletionStep(k: Key, s: State, x: NodeId, ghost s0: map<Key, State>, ghost e0: map<Key, seq<Edge>>,
                          ghost p0: set<Key>) returns (ok: bool)
      requires Underway(g, cache, states, edges, finished, acceptingState, s0, e0, p0, k, s) && StateFits(g, s) && IsAttack(g, x)
      modifies this`cache, this`states, this`edges, this`finished, this`acceptingState
      ensures Valid() && Later(s0, e0 - {k}, states, edges) && |old(states)| <= |states|
      ensures !ok ==> Stuck(states)
      ensures ok ==> Underway(g, cache, states, edges, finished, acceptingState, s0, e0, p0, k, s) && edges[k] == old(edges[k]) + [ToCompletion(g, s, x)]
      decreases Remaining(), 2
    {
      var d;
      if SuccessProbability(g.nodes[x]) < 1.0 {
        d := NewState(s.activated, s.completed, Completion, Some(x), false);
      } else {
        d := NewState(s.activated, s.completed + [x], Normal, None, false);
      }
      ok := AddEdge(k, s, ToCompletionEdge(d, x), s0, e0, p0);
    }

    /** One outcome edge of completion state `k` for attack `x`, leading to the normal state of `a` and `c`. */
    method CompletionOutcome(k: Key, s: State, a: seq<NodeId>, c: seq<NodeId>, x: NodeId, success: bool, p: real,
                             ghost s0: map<Key, State>, ghost e0: map<Key, seq<Edge>>, ghost p0: set<Key>)
      returns (ok: bool)
      requires Underway(g, cache, states, edges, finished, acceptingState, s0, e0, p0, k, s) && StateFits(g, s)
      requires Fits(g, a, c, Normal, None)
      modifies this`cache, this`states, this`edges, this`finished, this`acceptingState
      ensures Valid() && Later(s0, e0 - {k}, states, edges) && |old(states)| <= |states|
      ensures !ok ==> Stuck(states)
      ensures ok ==> Underway(g, cache, states, edges, finished, acceptingState, s0, e0, p0, k, s)
      ensures ok ==> edges[k] == old(edges[k]) + [CompletionEdge(To(g, a, c, Normal, None), x, success, p)]
      decreases Remaining(), 2
    {
      var dest := NewState(a, c, Normal, None, false);
      ok := AddEdge(k, s, CompletionEdge(dest, x, success, p), s0, e0, p0);
    }

    /** The state an activation of active defense `d` from `s` leads to: a moving-target-defense state when
        the defense may fail, otherwise the state with the attacks it protects deactivated. */
    method DefenseTarget(s: State, d: NodeId) returns (dest: Key)
      requires Valid() && StateFits(g, s) && IsDefense(g, d) && d in s.activeDefenses
      modifies this`cache
      ensures Valid() && dest in cache && DefenseStep(g, s, d) == ToDefenseEdge(dest, d)
    {
      if SuccessProbability(g.nodes[d]) < 1.0 {
        dest := NewState(s.activated, s.completed, Mtd, Some(d), false);
      } else {
        var a', c' := DefenseActivation(g, d, s.activated, s.completed);
        ResetFits(g, s.activated, s.completed, d);
        dest := NewState(a', c', Normal, None, false);
      }
    }

    /** The edge of no-activation state `k` for defense `d`: a loop when the defense is not active. */
    method DefenseStepOf(k: Key, s: State, d: NodeId, ghost s0: map<Key, State>, ghost e0: map<Key, seq<Edge>>,
                         ghost p0: set<Key>) returns (ok: bool)
      requires Underway(g, cache, states, edges, finished, acceptingState, s0, e0, p0, k, s) && StateFits(g, s) && IsDefense(g, d)
      modifies this`cache, this`states, this`edges, this`finished, this`acceptingState
      ensures Valid() && Later(s0, e0 - {k}, states, edges) && |old(states)| <= |states|
      ensures !ok ==> Stuck(states)
      ensures ok ==> Underway(g, cache, states, edges, finished, acceptingState, s0, e0, p0, k, s) && edges[k] == old(edges[k]) + [DefenseStep(g, s, d)]
      decreases Remaining(), 2
    {
      if d in s.activeDefenses {
        var dest := DefenseTarget(s, d);
        ok := AddEdge(k, s, ToDefenseEdge(dest, d), s0, e0, p0);
      } else {
        assert KeyOf(s) == k;
        ok := AddEdge(k, s, LoopDefenseEdge(k, d), s0, e0, p0);
      }
    }

    /** The edges of no-activation state `k` towards completion, one activated attack at a time. */
    method CompletionLoop(k: Key, s: State, ghost s0: map<Key, State>, ghost e0: map<Key, seq<Edge>>,
                          ghost p0: set<Key>) returns (ok: bool)
      requires Underway(g, cache, states, edges, finished, acceptingState, s0, e0, p0, k, s) && StateFits(g, s) && edges[k] == []
      modifies this`cache, this`states, this`edges, this`finished, this`acceptingState
      ensures Valid() && Later(s0, e0 - {k}, states, edges) && |old(states)| <= |states|
      ensures !ok ==> Stuck(states)
      ensures ok ==> Underway(g, cache, states, edges, finished, acceptingState, s0, e0, p0, k, s) && edges[k] == ToCompletionEdges(g, s, s.activated)
      decreases Remaining(), 3
    {
      for i := 0 to |s.activated|
        invariant Underway(g, cache, states, edges, finished, acceptingState, s0, e0, p0, k, s) && |old(states)| <= |states|
        invariant edges[k] == ToCompletionEdges(g, s, s.activated[..i])
      {
        ok := CompletionStep(k, s, s.activated[i], s0, e0, p0);
        if !ok {
          return;
        }
        ToCompletionEdgesSnoc(g, s, s.activated, i);
      }
      assert s.activated[..|s.activated|] == s.activated;
      ok := true;
    }

    /** The edges of no-activation state `k` for the defenses, one defense at a time, after its edges `base`. */
    method DefenseLoop(k: Key, s: State, ghost base: seq<Edge>, ghost s0: map<Key, State>,
                       ghost e0: map<Key, seq<Edge>>, ghost p0: set<Key>) returns (ok: bool)
      requires Underway(g, cache, states, edges, finished, acceptingState, s0, e0, p0, k, s) && StateFits(g, s) && edges[k] == base
      modifies this`cache, this`states, this`edges, this`finished, this`acceptingState
      ensures Valid() && Later(s0, e0 - {k}, states, edges) && |old(states)| <= |states|
      ensures !ok ==> Stuck(states)
      ensures ok ==> Underway(g, cache, states, edges, finished, acceptingState, s0, e0, p0, k, s) && edges[k] == base + DefenseEdges(g, s, Defenses(g))
      decreases Remaining(), 3
    {
      var ds := Defenses(g);
      AppendNil(base);
      for j := 0 to |ds|
        invariant Underway(g, cache, states, edges, finished, acceptingState, s0, e0, p0, k, s) && |old(states)| <= |states|
        invariant edges[k] == base + DefenseEdges(g, s, ds[..j])
      {
        ok := DefenseStepOf(k, s, ds[j], s0, e0, p0);
        if !ok {
          return;
        }
        DefenseEdgesSnoc(g, s, ds, j);
        AppendSnoc(base, DefenseEdges(g, s, ds[..j]), DefenseStep(g, s, ds[j]));
      }
      assert ds[..|ds|] == ds;
      ok := true;
    }

    /**
     * `NoActivationState.build_edges`: an edge towards completion for each
     * activated attack, then an edge for each defense of the graph.
     */
    method BuildNoActivationEdges(k: Key, s: State, ghost s0: map<Key, State>, ghost e0: map<Key, seq<Edge>>,
                        ghost p0: set<Key>) returns (ok: bool)
      requires Underway(g, cache, states, edges, finished, acceptingState, s0, e0, p0, k, s)
      requires StateFits(g, s) && edges[k] == [] && s.stateType == NoActivation
      modifies this`cache, this`states, this`edges, this`finished, this`acceptingState
      ensures Valid() && Later(s0, e0 - {k}, states, edges)
      ensures !ok ==> Stuck(states)
      ensures ok ==> Underway(g, cache, states, edges, finished, acceptingState, s0, e0, p0, k, s) && EdgesOf(g, s) == Some(edges[k])
      decreases Remaining(), 4
    {
      ok := CompletionLoop(k, s, s0, e0, p0);
      if !ok {
        return;
      }
      ok := DefenseLoop(k, s, edges[k], s0, e0, p0);
      if !ok {
        return;
      }
      RuleOfNoActivation(g, s, edges[k]);
    }

    /**
     * `CompletionState.build_edges`: the success edge, which moves the
     * attack to the completed nodes, then the failure edge, which only
     * drops it.  Fails, as `list.remove` raises, when the attack is no
     * longer activated.
     */
    method BuildCompletionEdges(k: Key, s: State, ghost s0: map<Key, State>, ghost e0: map<Key, seq<Edge>>,
                        ghost p0: set<Key>) returns (ok: bool)
      requires Underway(g, cache, states, edges, finished, acceptingState, s0, e0, p0, k, s)
      requires StateFits(g, s) && edges[k] == [] && s.stateType == Completion
      modifies this`cache, this`states, this`edges, this`finished, this`acceptingState
      ensures Valid() && Later(s0, e0 - {k}, states, edges)
      ensures !ok ==> Stuck(states)
      ensures s.involved.value !in s.activated ==> !ok
      ensures ok ==> Underway(g, cache, states, edges, finished, acceptingState, s0, e0, p0, k, s) && EdgesOf(g, s) == Some(edges[k])
      decreases Remaining(), 4
    {
      var x := s.involved.value;
      if x !in s.activated {
        return false;
      }
      var p := SuccessProbability(g.nodes[x]);
      var a := RemoveFirst(s.activated, x);
      RemoveFirstSub(s.activated, x);
      BelowSub(a, s.activated, |g.nodes|);
      var q := 1.0 - p;
      var success := To(g, a, s.completed + [x], Normal, None);
      var failure := To(g, a, s.completed, Normal, None);
      assert Fits(g, a, s.completed + [x], Normal, None);
      ok := CompletionOutcome(k, s, a, s.completed + [x], x, true, p, s0, e0, p0);
      if !ok {
        return;
      }
      AppendOne(CompletionEdge(success, x, true, p));
      ok := CompletionOutcome(k, s, a, s.completed, x, false, q, s0, e0, p0);
      if !ok {
        return;
      }
      AppendPair(CompletionEdge(success, x, true, p), CompletionEdge(failure, x, false, q));
      RuleOfCompletion(g, s, x, p, q, a, success, failure, edges[k]);
    }

    /**
     * `DefenseState.build_edges`: the success edge, which resets the
     * protected nodes, then the failure edge, whose destination is made but
     * not built.
     */
    method BuildDefenseEdges(k: Key, s: State, ghost s0: map<Key, State>, ghost e0: map<Key, seq<Edge>>,
                        ghost p0: set<Key>) returns (ok: bool)
      requires Underway(g, cache, states, edges, finished, acceptingState, s0, e0, p0, k, s)
      requires StateFits(g, s) && edges[k] == [] && s.stateType == Mtd
      modifies this`cache, this`states, this`edges, this`finished, this`acceptingState
      ensures Valid() && Later(s0, e0 - {k}, states, edges)
      ensures !ok ==> Stuck(states)
      ensures ok ==> Underway(g, cache, states, edges, finished, acceptingState, s0, e0, p0, k, s) && EdgesOf(g, s) == Some(edges[k])
      decreases Remaining(), 4
    {
      var d := s.involved.value;
      var p := SuccessProbability(g.nodes[d]);
      var a', c' := DefenseActivation(g, d, s.activated, s.completed);
      ResetFits(g, s.activated, s.completed, d);
      var reset := NewState(a', c', Normal, None, false);
      assert reset == ResetKey(g, s.activated, s.completed, d);
      ok := AddEdge(k, s, DefenseEdge(reset, d, true, p), s0, e0, p0);
      if !ok {
        return;
      }
      AppendOne(DefenseEdge(reset, d, true, p));
      var failure := NewState(s.activated, s.completed, Normal, None, false);
      ok := AddEdge(k, s, DefenseEdge(failure, d, false, 1.0 - p), s0, e0, p0);
      AppendPair(DefenseEdge(reset, d, true, p), DefenseEdge(failure, d, false, 1.0 - p));
      RuleOfMtd(g, s, d, p, reset, failure, edges[k]);
    }

    /** `ActivationCostState.build`: the single edge that activates the attack. */
    method BuildActivationCostEdges(k: Key, s: State, ghost s0: map<Key, State>, ghost e0: map<Key, seq<Edge>>,
                        ghost p0: set<Key>) returns (ok: bool)
      requires Underway(g, cache, states, edges, finished, acceptingState, s0, e0, p0, k, s)
      requires StateFits(g, s) && edges[k] == [] && s.stateType == ActivationCost
      modifies this`cache, this`states, this`edges, this`finished, this`acceptingState
      ensures Valid() && Later(s0, e0 - {k}, states, edges)
      ensures !ok ==> Stuck(states)
      ensures ok ==> Underway(g, cache, states, edges, finished, acceptingState, s0, e0, p0, k, s) && EdgesOf(g, s) == Some(edges[k])
      decreases Remaining(), 4
    {
      var x := s.involved.value;
      var d := NewState(s.activated + [x], s.completed, Normal, None, false);
      ok := AddEdge(k, s, ActivationEdge(d, x), s0, e0, p0);
      if !ok {
        return;
      }
      AppendOne(ActivationEdge(d, x));
      RuleOfActivationCost(g, s, x, d, edges[k]);
    }
  }
}
