/**
 * What the builder of admdp.dfy keeps true about its cache, its built
 * states and their edges, as predicates on values, and one lemma per kind
 * of change it makes.  The edge rules it is checked against are those of
 * admdp_edges.dfy.
 */
module AdmdpInvariant {
  import opened Lists
  import G = Adg
  import opened AdmdpStates
  import opened AdmdpEdges

  /** Every key whose node sets, type and node fit a graph of `n` nodes. */
  ghost function Universe(n: nat): set<Key>
  {
    var subsets := set a: set<NodeId> | a <= Range(n);
    var types := {Normal, Mtd, Completion, NoActivation, ActivationCost};
    var nodes := {None} + set x | x in Range(n) :: Some(x);
    set a, c, t, inv | a in subsets && c in subsets && t in types && inv in nodes :: Key(a, c, t, inv)
  }

  lemma ElemsInRange(s: seq<NodeId>, n: nat)
    requires Below(s, n)
    ensures Elems(s) <= Range(n)
  {
    forall x | x in Elems(s) ensures x in Range(n) {
      assert x in s;
    }
  }

  /** A state that fits a graph has its key in the graph's universe. */
  lemma KeyInUniverse(g: G.Graph, s: State)
    requires StateFits(g, s)
    ensures KeyOf(s) in Universe(|g.nodes|)
  {
    ElemsInRange(s.activated, |g.nodes|);
    ElemsInRange(s.completed, |g.nodes|);
    assert s.involved.Some? ==> s.involved.value in Range(|g.nodes|);
  }

  /** A map of fitting states under their own keys has no more entries than the universe. */
  lemma CacheBounded(g: G.Graph, m: map<Key, State>)
    requires forall k :: k in m ==> StateFits(g, m[k]) && KeyOf(m[k]) == k
    ensures |m| <= |Universe(|g.nodes|)|
  {
    forall k | k in m ensures k in Universe(|g.nodes|) {
      KeyInUniverse(g, m[k]);
    }
    SubsetCard(m.Keys, Universe(|g.nodes|));
  }

  /** How many keys a graph allows. */
  ghost function Capacity(g: G.Graph): nat
  {
    |Universe(|g.nodes|)|
  }

  /** `m2` holds every entry of `m1`, unchanged. */
  predicate Grows(m1: map<Key, State>, m2: map<Key, State>)
  {
    forall k :: k in m1 ==> k in m2 && m2[k] == m1[k]
  }

  /** The edges recorded for the keys of `e1` are recorded unchanged in `e2`. */
  predicate EdgesKept(e1: map<Key, seq<Edge>>, e2: map<Key, seq<Edge>>)
  {
    forall k :: k in e1 ==> k in e2 && e2[k] == e1[k]
  }

  /**
   * The failure edge of a defense state only makes its destination; every
   * other destination is built (a loop edge points back at its own source).
   */
  predicate OnlyMade(e: Edge)
  {
    e.DefenseEdge? && !e.success
  }

  predicate Reached(states: map<Key, State>, e: Edge)
  {
    OnlyMade(e) || e.destination in states
  }

  /** Every edge in `es` reaches a built state or only makes its destination. */
  predicate AllReached(states: map<Key, State>, es: seq<Edge>)
  {
    forall e :: e in es ==> Reached(states, e)
  }

  /** Every destination of a finished state that is built is there. */
  predicate Closed(states: map<Key, State>, edges: map<Key, seq<Edge>>, finished: set<Key>)
  {
    forall k :: k in finished ==> k in edges && AllReached(states, edges[k])
  }

  /** Every finished state has exactly the edges its rule gives. */
  ghost predicate Ruled(g: G.Graph, states: map<Key, State>, edges: map<Key, seq<Edge>>, finished: set<Key>)
  {
    G.Valid(g)
    && (forall k :: k in finished ==> k in states && k in edges && StateFits(g, states[k]))
    && forall k {:trigger EdgesOf(g, states[k])} :: k in finished ==> EdgesOf(g, states[k]) == Some(edges[k])
  }

  /** Recording an unfinished state, or changing its edges, keeps the finished states ruled. */
  lemma RuledSet(g: G.Graph, states: map<Key, State>, edges: map<Key, seq<Edge>>, finished: set<Key>,
                 k: Key, s: State, v: seq<Edge>)
    requires Ruled(g, states, edges, finished) && k !in finished
    requires k in states ==> states[k] == s
    ensures Ruled(g, states[k := s], edges[k := v], finished)
  {
    forall k' | k' in finished
      ensures EdgesOf(g, states[k := s][k']) == Some(edges[k := v][k'])
    {
      assert states[k := s][k'] == states[k'];
      assert EdgesOf(g, states[k']) == Some(edges[k']);
    }
  }

  /** A state whose edges are those of its rule can be added to the finished states. */
  lemma RuledAdd(g: G.Graph, states: map<Key, State>, edges: map<Key, seq<Edge>>, finished: set<Key>, k: Key)
    requires Ruled(g, states, edges, finished) && k in states && k in edges && StateFits(g, states[k])
    requires EdgesOf(g, states[k]) == Some(edges[k])
    ensures Ruled(g, states, edges, finished + {k})
  {
    forall k' | k' in finished + {k}
      ensures EdgesOf(g, states[k']) == Some(edges[k'])
    {
      if k' != k {
        assert EdgesOf(g, states[k']) == Some(edges[k']);
      }
    }
  }


  /** Recording a state, or changing the edges of an unfinished one, keeps the finished states closed. */
  lemma ClosedSet(states: map<Key, State>, edges: map<Key, seq<Edge>>, finished: set<Key>,
                  k: Key, s: State, v: seq<Edge>)
    requires Closed(states, edges, finished) && k !in finished
    ensures Closed(states[k := s], edges[k := v], finished)
  {
    forall k' | k' in finished
      ensures k' in edges[k := v] && AllReached(states[k := s], edges[k := v][k'])
    {
      assert edges[k := v][k'] == edges[k'];
      forall e | e in edges[k'] ensures Reached(states[k := s], e) {
        assert Reached(states, e);
      }
    }
  }

  lemma ReachedAppend(states: map<Key, State>, es: seq<Edge>, e: Edge)
    requires AllReached(states, es) && Reached(states, e)
    ensures AllReached(states, es + [e])
  {
  }

  lemma ReachedGrows(s0: map<Key, State>, s1: map<Key, State>, es: seq<Edge>)
    requires AllReached(s0, es) && Grows(s0, s1)
    ensures AllReached(s1, es)
  {
    forall e | e in es ensures Reached(s1, e) {
      assert Reached(s0, e);
    }
  }

  /**
   * The built states `s1` and edges `e1` come after `s0` and `e0`: every
   * built state stays, and the recorded edges of `e0` stay.
   */
  predicate Later(s0: map<Key, State>, e0: map<Key, seq<Edge>>, s1: map<Key, State>, e1: map<Key, seq<Edge>>)
  {
    Grows(s0, s1) && |s0| <= |s1| && EdgesKept(e0, e1)
  }

  lemma LaterRefl(s: map<Key, State>, e: map<Key, seq<Edge>>)
    ensures Later(s, e, s, e)
  {
  }

  /** Nothing has happened yet to the states and to the edges other than those of `k`. */
  lemma LaterStart(s: map<Key, State>, e: map<Key, seq<Edge>>, k: Key)
    ensures Later(s, e - {k}, s, e)
  {
  }

  /**
   * Changing the edges of `k` to `v` and then going on keeps what came
   * before apart from the edges of `k`, and keeps `v`.
   */
  lemma LaterThrough(s0: map<Key, State>, e0: map<Key, seq<Edge>>, s1: map<Key, State>, e1: map<Key, seq<Edge>>,
                     k: Key, v: seq<Edge>, s2: map<Key, State>, e2: map<Key, seq<Edge>>)
    requires Later(s0, e0 - {k}, s1, e1) && Later(s1, e1[k := v], s2, e2)
    ensures Later(s0, e0 - {k}, s2, e2) && k in e2 && e2[k] == v
  {
    assert k in e1[k := v];
    forall k' | k' in e0 - {k} ensures k' in e2 && e2[k'] == e0[k'] {
      assert k' in e1[k := v] && e1[k := v][k'] == e1[k'];
    }
  }

  /** Recording `k` with no edges, then building its edges, comes after the state before. */
  lemma LaterRecord(s0: map<Key, State>, e0: map<Key, seq<Edge>>, k: Key, s: State,
                    s2: map<Key, State>, e2: map<Key, seq<Edge>>)
    requires k !in s0 && k !in e0 && Later(s0[k := s], e0[k := []] - {k}, s2, e2)
    ensures Later(s0, e0, s2, e2)
  {
    assert e0[k := []] - {k} == e0;
    assert |s0[k := s]| == |s0| + 1;
  }

  /** The built states that are not finished yet. */
  function Pending(states: map<Key, State>, finished: set<Key>): set<Key>
  {
    states.Keys - finished
  }

  lemma PendingRecord(states: map<Key, State>, finished: set<Key>, k: Key, s: State)
    requires k !in states && k !in finished
    ensures Pending(states[k := s], finished) == Pending(states, finished) + {k}
  {
  }

  lemma PendingFinish(states: map<Key, State>, finished: set<Key>, k: Key)
    ensures Pending(states, finished + {k}) == Pending(states, finished) - {k}
  {
  }

  lemma PendingRestored(p: set<Key>, k: Key)
    requires k !in p
    ensures (p + {k}) - {k} == p
  {
  }

  /**
   * What the builder keeps: every made state fits the graph, sits under its
   * own key, and is accepting only as an attacker state; built states are
   * made states and have an edge list; every finished state has the edges
   * of its rule and its built destinations are there; the accepting state,
   * once set, is a built accepting state.
   */
  ghost predicate Consistent(g: G.Graph, cache: map<Key, State>, states: map<Key, State>, edges: map<Key, seq<Edge>>,
                             finished: set<Key>, accepting: Option<Key>)
  {
    G.Valid(g)
    && (forall k :: k in cache ==> StateFits(g, cache[k]) && KeyOf(cache[k]) == k)
    && (forall k :: k in cache && cache[k].accepting ==> cache[k].stateType == Normal)
    && Grows(states, cache)
    && states.Keys == edges.Keys
    && |states| <= Capacity(g)
    && finished <= states.Keys
    && Ruled(g, states, edges, finished)
    && Closed(states, edges, finished)
    && (accepting.Some? ==> accepting.value in states && states[accepting.value].accepting)
  }

  /** The accepting state is set once an accepting state is finished. */
  ghost predicate Settled(states: map<Key, State>, finished: set<Key>, accepting: Option<Key>)
  {
    forall k :: k in finished && k in states && states[k].accepting ==> accepting.Some?
  }

  /**
   * State `k`, which holds `s`, is built and not finished, its edges so far
   * reach built states, and building them came after the states `s0` and
   * the edges `e0` and left the pending states as they were, `p0`.
   */
  ghost predicate Underway(g: G.Graph, cache: map<Key, State>, states: map<Key, State>, edges: map<Key, seq<Edge>>,
                           finished: set<Key>, accepting: Option<Key>,
                           s0: map<Key, State>, e0: map<Key, seq<Edge>>, p0: set<Key>, k: Key, s: State)
  {
    Consistent(g, cache, states, edges, finished, accepting) && Settled(states, finished, accepting)
    && k in states && states[k] == s && k in edges && k !in finished && AllReached(states, edges[k])
    && Later(s0, e0 - {k}, states, edges) && Pending(states, finished) == p0
  }

  lemma CachedConsistent(g: G.Graph, cache: map<Key, State>, states: map<Key, State>, edges: map<Key, seq<Edge>>,
                         finished: set<Key>, accepting: Option<Key>, k: Key, s: State)
    requires Consistent(g, cache, states, edges, finished, accepting) && k !in cache
    requires StateFits(g, s) && KeyOf(s) == k && (s.accepting ==> s.stateType == Normal)
    ensures Consistent(g, cache[k := s], states, edges, finished, accepting)
  {
  }

  lemma RecordConsistent(g: G.Graph, cache: map<Key, State>, states: map<Key, State>, edges: map<Key, seq<Edge>>,
                         finished: set<Key>, accepting: Option<Key>, k: Key)
    requires Consistent(g, cache, states, edges, finished, accepting) && k in cache && k !in states
    ensures Consistent(g, cache, states[k := cache[k]], edges[k := []], finished, accepting)
  {
    RuledSet(g, states, edges, finished, k, cache[k], []);
    ClosedSet(states, edges, finished, k, cache[k], []);
    CacheBounded(g, states[k := cache[k]]);
  }

  lemma EditConsistent(g: G.Graph, cache: map<Key, State>, states: map<Key, State>, edges: map<Key, seq<Edge>>,
                       finished: set<Key>, accepting: Option<Key>, k: Key, v: seq<Edge>)
    requires Consistent(g, cache, states, edges, finished, accepting) && k in states && k !in finished
    ensures Consistent(g, cache, states, edges[k := v], finished, accepting)
  {
    RuledSet(g, states, edges, finished, k, states[k], v);
    ClosedSet(states, edges, finished, k, states[k], v);
    assert states[k := states[k]] == states;
  }

  lemma FinishConsistent(g: G.Graph, cache: map<Key, State>, states: map<Key, State>, edges: map<Key, seq<Edge>>,
                         finished: set<Key>, accepting: Option<Key>, k: Key)
    requires Consistent(g, cache, states, edges, finished, accepting) && k in states && k !in finished
    requires EdgesOf(g, states[k]) == Some(edges[k]) && AllReached(states, edges[k])
    ensures Consistent(g, cache, states, edges, finished + {k}, accepting)
  {
    RuledAdd(g, states, edges, finished, k);
  }

  lemma AcceptConsistent(g: G.Graph, cache: map<Key, State>, states: map<Key, State>, edges: map<Key, seq<Edge>>,
                         finished: set<Key>, accepting: Option<Key>, k: Key)
    requires Consistent(g, cache, states, edges, finished, accepting) && k in states && states[k].accepting
    ensures Consistent(g, cache, states, edges, finished, Some(k))
  {
  }

  /**
   * Once no state is pending, the accepting state is set exactly when an
   * accepting state was built.
   */
  lemma AcceptingRecorded(g: G.Graph, cache: map<Key, State>, states: map<Key, State>, edges: map<Key, seq<Edge>>,
                          finished: set<Key>, accepting: Option<Key>)
    requires Consistent(g, cache, states, edges, finished, accepting) && Settled(states, finished, accepting)
    requires Pending(states, finished) == {}
    ensures accepting.Some? <==> exists k :: k in states && states[k].accepting
  {
    forall k | k in states && states[k].accepting ensures accepting.Some? {
      assert k !in Pending(states, finished);
    }
  }

  /** Every state has exactly the edges its rule gives. */
  ghost predicate Conforms(g: G.Graph, states: map<Key, State>, edges: map<Key, seq<Edge>>)
  {
    G.Valid(g)
    && forall k :: k in states ==> k in edges && StateFits(g, states[k]) && EdgesOf(g, states[k]) == Some(edges[k])
  }

  /**
   * Some built state is a completion state whose attack is no longer
   * activated: building its edges makes `list.remove` raise.
   */
  predicate Stuck(states: map<Key, State>)
  {
    exists k :: k in states && states[k].stateType == Completion && states[k].involved.Some?
                && states[k].involved.value !in states[k].activated
  }

  /** Once every built state has the edges of its rule, no built state is stuck. */
  lemma ConformsNotStuck(g: G.Graph, states: map<Key, State>, edges: map<Key, seq<Edge>>)
    requires Conforms(g, states, edges)
    ensures !Stuck(states)
  {
    forall k | k in states && states[k].stateType == Completion && states[k].involved.Some?
      ensures states[k].involved.value in states[k].activated
    {
      assert EdgesOf(g, states[k]).Some?;
    }
  }

  /** Once no state is pending, every state conforms to its rule and every built destination is there. */
  lemma AllFinished(g: G.Graph, cache: map<Key, State>, states: map<Key, State>, edges: map<Key, seq<Edge>>,
                    finished: set<Key>, accepting: Option<Key>)
    requires Consistent(g, cache, states, edges, finished, accepting) && Pending(states, finished) == {}
    ensures Conforms(g, states, edges) && Closed(states, edges, states.Keys)
  {
    forall k | k in states ensures k in finished {
      assert k !in Pending(states, finished);
    }
  }

  /** The edges of an attacker state that wants the no-activation edge, whose destination is `d`. */
  lemma RuleOfAttackerWith(g: G.Graph, s: State, d: Key, r: seq<Edge>)
    requires G.Valid(g) && StateFits(g, s) && s.stateType == Normal && WantsNoActivation(g, s)
    requires d == To(g, s.activated, s.completed, NoActivation, None)
    requires r == ActivationEdges(g, s, Attacks(g)) + [NoActivationEdge(d)]
    ensures EdgesOf(g, s) == Some(r)
  {
  }

  /** The edges of an attacker state that does not want the no-activation edge. */
  lemma RuleOfAttackerWithout(g: G.Graph, s: State, r: seq<Edge>)
    requires G.Valid(g) && StateFits(g, s) && s.stateType == Normal && !WantsNoActivation(g, s)
    requires r == ActivationEdges(g, s, Attacks(g))
    ensures EdgesOf(g, s) == Some(r)
  {
    AppendNil(r);
  }

  /** The edges of a no-activation state: towards completion, then the defense edges. */
  lemma RuleOfNoActivation(g: G.Graph, s: State, r: seq<Edge>)
    requires G.Valid(g) && StateFits(g, s) && s.stateType == NoActivation && AllAttacks(g, s.activated)
    requires r == ToCompletionEdges(g, s, s.activated) + DefenseEdges(g, s, Defenses(g))
    ensures EdgesOf(g, s) == Some(r)
  {
  }

  /** The two edges of a completion state `s` whose attack `x` is still activated; `a` is the activated list without `x`. */
  lemma RuleOfCompletion(g: G.Graph, s: State, x: NodeId, p: real, q: real, a: seq<NodeId>, success: Key, failure: Key,
                         r: seq<Edge>)
    requires G.Valid(g) && StateFits(g, s) && s.stateType == Completion && x == s.involved.value && x in s.activated
    requires p == SuccessProbability(g.nodes[x]) && q == 1.0 - p
    requires a == RemoveFirst(s.activated, x) && Below(a, |g.nodes|)
    requires success == To(g, a, s.completed + [x], Normal, None)
    requires failure == To(g, a, s.completed, Normal, None)
    requires r == [CompletionEdge(success, x, true, p), CompletionEdge(failure, x, false, q)]
    ensures EdgesOf(g, s) == Some(r)
  {
  }

  /** The two edges of a defense state `s`, whose defense is `d`, activated with probability `p`. */
  lemma RuleOfMtd(g: G.Graph, s: State, d: NodeId, p: real, reset: Key, failure: Key, r: seq<Edge>)
    requires G.Valid(g) && StateFits(g, s) && s.stateType == Mtd && d == s.involved.value
    requires p == SuccessProbability(g.nodes[d])
    requires reset == ResetKey(g, s.activated, s.completed, d)
    requires failure == To(g, s.activated, s.completed, Normal, None)
    requires r == [DefenseEdge(reset, d, true, p), DefenseEdge(failure, d, false, 1.0 - p)]
    ensures EdgesOf(g, s) == Some(r)
  {
  }

  /** The single edge of an activation-cost state `s`, whose attack is `x`. */
  lemma RuleOfActivationCost(g: G.Graph, s: State, x: NodeId, dest: Key, r: seq<Edge>)
    requires G.Valid(g) && StateFits(g, s) && s.stateType == ActivationCost && x == s.involved.value
    requires dest == To(g, s.activated + [x], s.completed, Normal, None)
    requires r == [ActivationEdge(dest, x)]
    ensures EdgesOf(g, s) == Some(r)
  {
  }
}
