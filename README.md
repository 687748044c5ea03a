# A verified model of the attack-defense tree to ADMDP compiler

This project models the core of `mtd`, a tool that compiles an
attack-defense tree into an attack-defense Markov decision process (ADMDP)
and exports it to UPPAAL and MCMAS.  The model has four parts.

- **Trees.**
  - Attack, defense and goal nodes, with the arity checks of their
    constructors.
  - `get_children` and `set_parents`, which gives every node below the root
    its parent exactly once.
  - The depth-first walk, the defense periods, and the per-type node lists.
  - The single-parent tree of `uppaal/tree.py` and `tree.py` is modelled in
    modules `AttackTree`, `ParentWalk` and `Trees`.
  - The multi-parent graph draft of `uppaal/adg.py` is modelled in module
    `Adg`.
- **Canonical configurations.**
  - A configuration is a list of activated attacks and a list of completed
    nodes.
  - Propagation appends every goal that becomes completed until nothing
    changes. It is shared by both tree variants (module `Propagation`).
  - Reduction then forgets what lies under a backup (tree) or checkpoint
    (graph) ancestor (modules `TreeReduction` and `Adg`).
- **The ADMDP.**
  - Five state kinds and the canonical key of a state (module
    `AdmdpStates`).
  - The edges each kind of state gets, with their probabilities `p` and
    `1.0 - p` (module `AdmdpEdges`).
  - The builder, which makes states through a cache, records each key once
    and builds its edges once (class `Admdp.Builder`, with the invariant in
    `AdmdpInvariant`).
- **Text builders.**
  - `make_list` and `make_completion_condition` of the MCMAS exporter
    (module `Mcmas`).
  - `list_to_string` and the grid on which the UPPAAL exporter places its
    locations and branchpoints (module `Uppaal`).

## Representation

- **Nodes live in an arena.**
  - A node is its index in a sequence of nodes.
  - A child always has a larger index than the node that lists it, so every
    walk down the tree terminates.
  - The model assumes that node names are unique. The source does not
    enforce this: names come from the caller, and only the default name
    built from `id(self)` is unique by construction. Under this assumption,
    comparing indices is Python's `__eq__` on names
    (`AttackTree.EqIsIdentity`).
- **Lists the source edits in place are values.**
  - This covers `completed` and `activated` in `propagate` and
    `reduce_activated_completed`, and the destination lists of
    `defense_activation_activated_completed`.
  - Every caller hands these functions a fresh copy, so nothing aliased is
    lost.
  - Each such loop is a method with the source's loops, proved equal to a
    function. The properties are lemmas about that function.
- **The parent fields are a sequence field of `Trees.Tree`.**
  - `set_parents` is a recursive method that writes it.
  - `ParentWalk.Assign` is the function it is proved against.
- **The `admdp.states` dictionary and the `Unique` class caches are `map`
  fields of `Admdp.Builder`, keyed by `AdmdpStates.Key`.**
  - The key holds the sets of activated and completed nodes, the state type
    and the node involved.
  - With unique names, the `serialize` tuple of the source identifies
    exactly this key (`AdmdpStates.SerializeIsKey`).
- **An exception or failed `assert` in the source is an `Error` result or a
  `false` flag.**
  - The `Error` message texts are illustrative.
- **Probabilities are `real`.**

## Where the comments and the code differ

The model follows the code in each case below but one, activated removal.

- **Activated removal.** The docstring at uppaal/tree.py:207-216 calls the
  result the minimal representative: the activated attacks that are not
  under a backup. The loop stops after the first activated attack that is
  itself completed, so later ones are never examined (see Findings). The
  loop as written is `TreeReduction.RemoveActivatedAsWritten`. The rest of
  the model (`TreeReduction.Reduce`, `Trees.Tree.ReduceActivatedCompleted`,
  and `Adg.ReduceActivatedCompleted` for the same `break` at
  uppaal/adg.py:239) uses the corrected removal, which examines every
  activated attack.
- **Checkpoint walk.** The comment at uppaal/adg.py:219 asks for a
  checkpoint on all paths to the main goal. The loop follows a single chain
  of parents, moving on to the last parent of each node. The model does the
  same (`Adg.WalkFinds`).
- **Defense children of a goal.** In `uppaal/tree.py` and `tree.py`, a goal
  given several defense children silently keeps the last one.
- **Failed `set_parents`.** The walk stops at the first failed assertion.
  The parent fields it already wrote stay written.

## Model

| member | source | states |
|---|---|---|
| AttackTree.MakeNode | uppaal/tree.py:17-46 | the node builds exactly when it has fewer than three attack and goal children in all; it keeps its children, and has a non-empty name equal to the given one when one is given |
| AttackTree.MakeAttack | uppaal/tree.py:130-148 | an attack is a childless attack-typed leaf carrying its completion time and success probability, named as given |
| AttackTree.MakeDefense | uppaal/tree.py:151-160 | a defense is a childless defense-typed leaf carrying its period and success probability, named as given |
| AttackTree.OfTypeMembers | uppaal/tree.py:197-203 | the per-type filter keeps exactly the nodes of that type |
| AttackTree.OfTypeNoDups | uppaal/tree.py:197-203 | filtering a list without duplicates gives one without duplicates |
| AttackTree.OfTypeSplits | uppaal/tree.py:197-203 | the goal, attack and defense lists together are as long as the walked list (untyped nodes aside) |
| AttackTree.LastOfTypeIsLast | tree.py:91-99 | the defense a goal keeps is found exactly when some child is a defense, and no later child is one |
| AttackTree.LastOfTypeAt | tree.py:91-99 | the kept defense sits at a position of the children list, has defense type, and every later child has another type |
| AttackTree.PartitionChildren | uppaal/tree.py:109-117 | the loop succeeds exactly when every child is typed; then the attacks and goals keep their order and the last defense is the defense child |
| AttackTree.MakeGoal | uppaal/tree.py:90-127 | explicit child lists next to `children` fail; an untyped child fails; otherwise the goal gets the partition of `children` (or the explicit lists), its operation, reset flag and name, subject to the arity check |
| AttackTree.NodeOrder | uppaal/tree.py:51-67 | node comparison is a strict total order on names, and `<=` is `<` or `==` |
| AttackTree.EqIsIdentity | uppaal/tree.py:63-64 | in an arena with unique names, `__eq__` holds exactly for the same node |
| AttackTree.GetChildren | uppaal/tree.py:69-73 | the attack children come first and in order, then the goal children in order, then the defense child, last, exactly when it is asked for and present |
| AttackTree.Dfs | uppaal/tree.py:84-87 | the walk appends to `visited` the depth-first order of the nodes below `id` |
| AttackTree.DfsOrderElems | uppaal/tree.py:84-87 | the depth-first order lists exactly the nodes strictly below the root |
| AttackTree.DfsOrderNoDups | uppaal/tree.py:84-87 | when every node has a single owner, the depth-first order lists each node once |
| AttackTree.DfsOrderPreOrder | uppaal/tree.py:84-87 | every node is listed after the node that lists it as a child |
| ParentWalk.AssignSound | uppaal/tree.py:78-82 | a successful walk gives the start node its parent and every other node below it the node that lists it, overwrites no parent already set, and touches nothing outside the subtree |
| ParentWalk.AssignAllSound | uppaal/tree.py:81-82 | the same, for the loop over the children of one node |
| ParentWalk.ConflictFails | uppaal/tree.py:75-82 | a node below the start whose parent field names another node, or a node listed by two nodes of the subtree, makes the walk fail |
| ParentWalk.RootConflictFails | uppaal/tree.py:75-76 | a start node already holding a different parent fails at once |
| ParentWalk.AssignedParent | uppaal/tree.py:75-82 | after a successful walk, the only possible parent of a child is the node that lists it |
| ParentWalk.AssignSucceeds | uppaal/tree.py:78-82 | conversely, with no conflicting field and single owners, the walk succeeds |
| ParentWalk.AssignAllSucceeds | uppaal/tree.py:81-82 | the same, for the loop over the children of one node |
| Trees.PeriodsOfDefenses | tree.py:152-157 | the periods are those of the defenses of the walk, one for one and in order |
| Trees.AssignUpwardIff | uppaal/tree.py:78-82 | after a successful walk from the root, every parent field points to a smaller index exactly when the fields outside the root's subtree did |
| Trees.Tree.Init | uppaal/tree.py:164-166 | the new tree holds the arena and root, with the parent fields the nodes were built with and empty lists |
| Trees.Tree.SetParents | uppaal/tree.py:78-82 | the method succeeds exactly when the walk function does, and then leaves its parent fields |
| Trees.Tree.Dfs | tree.py:162-167 | empty for a defense root without defenses, otherwise the depth-first order of the root |
| Trees.Tree.GetDefensePeriods | tree.py:152-157 | the periods of the defenses in depth-first order |
| Trees.Tree.InitDfs | uppaal/tree.py:189-204 | the attack, defense and goal lists are the depth-first order filtered by type, and `nodes` is the attacks then the goals; parent fields and periods are unchanged |
| Trees.Tree.ReduceActivatedCompleted | uppaal/tree.py:206-264 | the completed list is the propagated list without backed-up nodes, and the activated list is the corrected removal against it |
| Trees.NewTree | uppaal/tree.py:164-169 | the tree builds exactly when the root check (a non-reset goal, for this variant) passes and `set_parents` succeeds, whatever parent fields the nodes were built with; then it holds the walked parent fields, the defense periods and the per-type lists, and its parent walks end exactly when the fields outside the root's subtree point upward |
| Propagation.Visit | uppaal/tree.py:222-239 | one parent test appends at most that parent, and only when it was absent |
| Propagation.PropagateExtends | uppaal/tree.py:218-239 | propagation only appends, and each appended node was absent when appended |
| Propagation.PropagateNoDups | uppaal/tree.py:218-239 | propagation of a list without duplicates gives one without duplicates |
| Propagation.PropagateClosed | uppaal/tree.py:218-239 | afterwards, every OR or EDGE parent of a completed node is completed, and so is every AND parent whose attack and goal children all are |
| Propagation.PropagateLeast | uppaal/tree.py:218-239 | the result lies inside every closed set containing the input: it is the least fixed point |
| Propagation.PropagateInPlace | uppaal/tree.py:218-239 | the `while not fixed_point` loop computes the propagation function |
| Propagation.VisitParentsInPlace | uppaal/adg.py:198-214 | the loop over the parents of one node computes the per-node step |
| TreeReduction.GateOf | uppaal/tree.py:226-236 | OR and EDGE goals are always satisfiable, AND goals need their attack and goal children, other nodes never |
| TreeReduction.TreeHierarchy | uppaal/tree.py:221-236 | the single-parent view gives each node its parent (if any) and its gate |
| TreeReduction.TopSpec | uppaal/tree.py:241-247 | the topmost backup found is a completed, non-reset strict ancestor with no backup above it |
| TreeReduction.AncestorGivesTop | uppaal/tree.py:244-247 | any backup above a node makes the walk find one |
| TreeReduction.TopMono | uppaal/tree.py:241-253 | fewer completed nodes never create a backup |
| TreeReduction.TopKeep | uppaal/tree.py:241-253 | removing nodes other than the topmost backup leaves it topmost |
| TreeReduction.FindBackup | uppaal/tree.py:242-247 | the first inner loop returns the topmost backup, or the node itself when there is none |
| TreeReduction.RemovePathSpec | uppaal/tree.py:249-253 | the second inner loop removes exactly the nodes on the path from the node up to its backup, keeping the order of the rest |
| TreeReduction.PathBelowBacked | uppaal/tree.py:249-253 | every node removed by the second inner loop has a backup above it |
| TreeReduction.RemoveBackedUpInPlace | uppaal/tree.py:241-253 | the backup-removal loops compute the removal function |
| TreeReduction.BackupStepSpec | uppaal/tree.py:241-253 | one iteration removes only nodes with a backup above them, and removes the node itself when it has one |
| TreeReduction.RemoveBackedUpSpec | uppaal/tree.py:240-253 | backup removal keeps exactly the completed nodes with no completed non-reset strict ancestor, in order |
| TreeReduction.RemoveBackedUpKeepsBackups | uppaal/tree.py:240-253 | the backups above every node are the same before and after backup removal |
| TreeReduction.RemoveActivatedAsWritten | uppaal/tree.py:254-264 | the loop as written, `break` included, only removes activated attacks |
| TreeReduction.AsWrittenWithoutBreak | uppaal/tree.py:254-264 | while no examined attack is completed, so the `break` never fires, the loop as written removes the same attacks as the corrected one |
| TreeReduction.BreakKeepsBackedUpAttack | uppaal/tree.py:255-258 | for a concrete tree, the loop as written leaves an activated attack that has a backup above it |
| TreeReduction.RemoveActivatedSpec | uppaal/tree.py:254-264 | the corrected activated removal removes exactly the activated attacks that are completed or have a backup above, keeping the order of the rest |
| TreeReduction.HasBackupAbove | uppaal/tree.py:259-264 | the inner walk finds a completed non-reset strict ancestor exactly when one exists |
| TreeReduction.RemoveActivatedInPlace | uppaal/tree.py:255-264 | the corrected loop computes the corrected removal function |
| TreeReduction.Reduce | uppaal/tree.py:206-264 | the three phases, on copies: propagation, backup removal, activated removal |
| TreeReduction.ReduceSpec | uppaal/tree.py:206-216 | the reduced configuration keeps exactly the propagated nodes under no backup and the activated attacks neither completed nor under a backup, and the backups above every node are those of the propagated configuration |
| Adg.GetChildren | uppaal/adg.py:64-65 | the attack children then the goal children; attached defenses are never children |
| Adg.CheckParents | uppaal/adg.py:67-68 | unset parents accept anything; set parents accept exactly a list holding the same nodes |
| Adg.PartitionChildren | uppaal/adg.py:110-118 | the loop succeeds exactly when every child is typed; then defenses, attacks and goals each keep their order |
| Adg.MakeGoal | uppaal/adg.py:92-127 | explicit lists next to `children` fail; otherwise every defense child goes to `defenses`, and attacks and goals to their lists |
| Adg.MakeGraph | uppaal/adg.py:164-166 | a graph builds exactly when its root has no attached defenses |
| Adg.AllOfType | uppaal/adg.py:173-186 | the nodes of one type, each once, exactly those of that type |
| Adg.GateOf | uppaal/adg.py:199-211 | OR goals are always satisfiable, AND goals need their attack and goal children, other nodes never |
| Adg.GraphHierarchy | uppaal/adg.py:197-211 | the multi-parent view gives each node its parents list and its gate |
| Adg.Propagate | uppaal/adg.py:192-214 | the loop computes the propagation function, only appends absent nodes, keeps a duplicate-free list so, leaves the result closed, and gives the least closed extension |
| Adg.WalkFindsMono | uppaal/adg.py:221-231 | a walk that meets a checkpoint still meets one when more nodes are completed |
| Adg.HasCheckpointAbove | uppaal/adg.py:222-231 | the inner loops compute whether the walk up meets a checkpoint |
| Adg.CheckpointStep | uppaal/adg.py:221-234 | one iteration removes the node exactly when its walk meets a checkpoint |
| Adg.RemoveCheckpointedSpec | uppaal/adg.py:221-234 | the checkpoint rule only removes and keeps the order; every removed node meets a checkpoint among the nodes completed at the start, and no kept node meets one among the kept nodes |
| Adg.RemoveActivatedSpec | uppaal/adg.py:236-249 | activated removal removes exactly the attacks that are completed or meet a checkpoint, keeping the order of the rest |
| Adg.ReduceActivatedCompleted | uppaal/adg.py:218-249 | the checkpoint rule, then activated removal against the reduced completed list |
| Adg.CompletedSubadgSpec | uppaal/admdp.py:97-98 | `completed_subadg` holds exactly the nodes at or below a completed node |
| AdmdpStates.TypeNameInjective | uppaal/admdp.py:5-10 | no two state types share a name |
| AdmdpStates.CanonCompleted | uppaal/admdp.py:94-95 | the canonical completed list is made of nodes of the graph |
| AdmdpStates.CanonActivated | uppaal/admdp.py:94-95 | the canonical activated list only drops attacks |
| AdmdpStates.AddNew | uppaal/admdp.py:103-105 | appending the new defenses gives the union of both lists, without duplicates |
| AdmdpStates.ActiveDefensesSpec | uppaal/admdp.py:100-105 | `active_defenses` has no duplicates and holds exactly the defenses attached to an activated or completed node |
| AdmdpStates.CollectActiveDefenses | uppaal/admdp.py:100-105 | the loop computes the active-defenses function |
| AdmdpStates.MakeState | uppaal/admdp.py:79-107 | the state keeps its lists inside the graph, and its type, involved node and initial flag |
| AdmdpStates.InitState | uppaal/admdp.py:79-107 | `State.__init__` builds the state function: propagation, reduction, active defenses |
| AdmdpStates.WalkReachesRoot | uppaal/admdp.py:151-152 | with the root completed, every other node's walk meets a checkpoint |
| AdmdpStates.AcceptingIffRootCompleted | uppaal/admdp.py:150-152 | an attacker state is accepting exactly when the root is completed, and then the root is its only completed node |
| AdmdpStates.DeactivateSub | uppaal/admdp.py:24-33 | deactivation only removes |
| AdmdpStates.DeactivateSpec | uppaal/admdp.py:24-33 | on a list without duplicates, deactivation removes exactly the defense's parents and keeps the order of the rest |
| AdmdpStates.DefenseActivation | uppaal/admdp.py:24-33 | the loop applies deactivation to both lists |
| AdmdpStates.Names | uppaal/admdp.py:117-119 | one name per node, in order |
| AdmdpStates.SameNames | uppaal/admdp.py:117-119 | with unique names, two lists name the same nodes exactly when they hold the same nodes |
| AdmdpStates.SortedNamesIff | uppaal/admdp.py:117-119 | the sorted distinct names agree exactly when the node sets agree |
| AdmdpStates.InvolvedNameIff | uppaal/admdp.py:281-282 | the name of the involved node identifies it |
| AdmdpStates.SerializeIsKey | uppaal/admdp.py:115-123 | two states serialize alike exactly when they have the same key |
| AdmdpEdges.MakeStateFits | uppaal/admdp.py:79-107 | canonicalisation keeps a fitting state fitting |
| AdmdpEdges.Attacks | uppaal/admdp.py:168 | every attack of the graph, each once |
| AdmdpEdges.Defenses | uppaal/admdp.py:377 | every defense of the graph, each once |
| AdmdpEdges.ResetFits | uppaal/admdp.py:312-320 | the lists after a successful defense still fit the graph |
| AdmdpEdges.ActivationStepSpec | uppaal/admdp.py:168-173 | an attack gives one edge exactly when it is eligible: an activation edge when activation is free, an activation-cost edge otherwise |
| AdmdpEdges.EligibleAttacksSpec | uppaal/admdp.py:168-169 | the eligible attacks are exactly the attacks neither activated nor in `completed_subadg`, each once |
| AdmdpEdges.ActivationEdgesFollow | uppaal/admdp.py:168-202 | the activation edges are, in order, one per eligible attack |
| AdmdpEdges.AttackerEdgesSpec | uppaal/admdp.py:164-211 | an attacker state has one edge per eligible attack, then a no-activation edge exactly when some attack is activated or some completed node has defenses |
| AdmdpEdges.ToCompletionEdges | uppaal/admdp.py:374-375 | one edge towards completion per activated attack, in order |
| AdmdpEdges.DefenseEdgesIndex | uppaal/admdp.py:377-378 | one edge per defense of the graph, in order |
| AdmdpEdges.ToCompletionSpec | uppaal/admdp.py:380-398 | the edge is a to-completion edge for the attack, and goes through a completion state exactly when the attack's success probability is below 1 |
| AdmdpEdges.DefenseStepSpec | uppaal/admdp.py:400-432 | a defense gets a to-defense edge exactly when it is active, through a defense state exactly when its success probability is below 1; an inactive one gets a loop back to the state |
| AdmdpEdges.NoActivationEdgesSpec | uppaal/admdp.py:373-432 | a no-activation state has one edge per activated attack, then one per defense of the graph |
| AdmdpEdges.OutcomesReturnToAttacker | uppaal/admdp.py:237-279 | every edge out of a completion, defense or activation-cost state leads to an attacker state with no involved node |
| AdmdpEdges.CompletionDeactivates | uppaal/admdp.py:237-279 | after a completion attempt, successful or not, the attack is no longer activated |
| AdmdpEdges.BranchProbabilities | uppaal/admdp.py:495-523 | completion and defense states have a success edge with `p` then a failure edge with `1.0 - p`, summing to 1; a completion state has them exactly when its attack is still activated |
| AdmdpInvariant.KeyInUniverse | uppaal/admdp.py:115-123 | a fitting state's key lies among the finitely many keys of the graph |
| AdmdpInvariant.CacheBounded | uppaal/admdp.py:61-73 | the cache never holds more states than the graph has keys |
| AdmdpInvariant.ConformsNotStuck | uppaal/admdp.py:237-243 | once every built state has the edges of its rule, no built completion state has lost its attack, so no `list.remove` raises |
| AdmdpInvariant.AcceptingRecorded | uppaal/admdp.py:157-162 | once nothing is pending, the accepting state is set exactly when some built state is accepting |
| AdmdpInvariant.AllFinished | uppaal/admdp.py:42-47 | once nothing is pending, every state has the edges of its rule and every built destination is built |
| Admdp.Builder.constructor | uppaal/admdp.py:37-40 | an empty cache, no states, no edges, no initial or accepting state |
| Admdp.Builder.BuildAdmdp | uppaal/admdp.py:42-47 | the initial state is made; the build succeeds exactly when no built state is a completion state whose attack is no longer activated; on success the initial state is built, every state has the edges of its rule, every built destination is there, and the accepting state is set exactly when an accepting state was built |
| Admdp.Builder.NewState | uppaal/admdp.py:61-73 | the key of the made state; the cache gains it only when the key was absent, so the first state made under a key stays |
| Admdp.Builder.Record | uppaal/admdp.py:157-159 | the cached state is recorded under its key with no edges and becomes pending |
| Admdp.Builder.Build | uppaal/admdp.py:157-162 | a key already built is left alone; otherwise its first made state is recorded and built; an accepting new state becomes the accepting state; nothing built before is lost; a failure leaves a built completion state whose attack is no longer activated |
| Admdp.Builder.BuildEdges | uppaal/admdp.py:164 | the edges built are those of the state's rule, and the state is no longer pending |
| Admdp.Builder.AddEdge | uppaal/admdp.py:187-190 | the edge is appended, and its destination is built unless it is a loop or the failure edge of a defense state |
| Admdp.Builder.AttackStep | uppaal/admdp.py:168-173 | appends the activation step for one attack |
| Admdp.Builder.AttackLoop | uppaal/admdp.py:168-173 | the loop appends the activation edges of all attacks |
| Admdp.Builder.BuildAttackerEdges | uppaal/admdp.py:164-211 | an attacker state gets the edges of its rule |
| Admdp.Builder.CompletionStep | uppaal/admdp.py:380-398 | appends the edge towards completing one attack |
| Admdp.Builder.CompletionOutcome | uppaal/admdp.py:250-258 | appends a completion edge with the given outcome and probability |
| Admdp.Builder.DefenseTarget | uppaal/admdp.py:405-424 | the destination of an active defense's edge is made |
| Admdp.Builder.DefenseStepOf | uppaal/admdp.py:400-432 | appends the edge for one defense |
| Admdp.Builder.CompletionLoop | uppaal/admdp.py:374-375 | the loop appends one edge towards completion per activated attack |
| Admdp.Builder.DefenseLoop | uppaal/admdp.py:377-378 | the loop appends one edge per defense |
| Admdp.Builder.BuildNoActivationEdges | uppaal/admdp.py:373-378 | a no-activation state gets the edges of its rule |
| Admdp.Builder.BuildCompletionEdges | uppaal/admdp.py:237-279 | a completion state gets its two edges, and fails when its attack is no longer activated |
| Admdp.Builder.BuildDefenseEdges | uppaal/admdp.py:308-346 | a defense state gets its two edges; the failure destination is made but not built |
| Admdp.Builder.BuildActivationCostEdges | uppaal/admdp.py:452-466 | an activation-cost state gets its single edge |
| Mcmas.MakeList | mcmas/mcmas.py:4-5 | the text starts with the prefix and ends with the suffix |
| Mcmas.MakeListWraps | mcmas/mcmas.py:4-5 | an empty list gives prefix then suffix; otherwise each element is wrapped in prefix and suffix, and they are joined by the connector |
| Mcmas.Condition | mcmas/mcmas.py:7-19 | an attack gives its `Action=finished` test; a defense or untyped node, a goal without children, and a reset goal without a defense child fail |
| Mcmas.GoalCondition | mcmas/mcmas.py:8-14 | a goal without children fails, and so does an AND or OR goal with fewer than two |
| Mcmas.CompletionCondition | mcmas/mcmas.py:7-19 | the corrected condition; an attack always succeeds |
| Mcmas.CompletionConditionAsWritten | mcmas/mcmas.py:7-19 | the condition as written; an attack always succeeds |
| Mcmas.AttackConditionCounts | mcmas/mcmas.py:17-18 | an attack's test has one parenthesis of each kind |
| Mcmas.EdgeJoinCounts | mcmas/mcmas.py:9-10 | an EDGE goal adds one parenthesis of each kind |
| Mcmas.GoalBodyCounts | mcmas/mcmas.py:12-14 | the inner AND/OR group adds one parenthesis of each kind |
| Mcmas.GoalJoinAsWrittenCounts | mcmas/mcmas.py:12-14 | the AND/OR combination as written opens one more parenthesis than it closes |
| Mcmas.GoalJoinCounts | mcmas/mcmas.py:12-14 | the corrected AND/OR combination is balanced |
| Mcmas.ResetGuardCounts | mcmas/mcmas.py:15-16 | the reset guard adds two parentheses of each kind |
| Mcmas.ConditionCounts | mcmas/mcmas.py:7-19 | with parenthesis-free names, no condition closes more than it opens; the corrected one is balanced, and the written one of an AND or OR goal is not |
| Mcmas.GoalConditionCounts | mcmas/mcmas.py:8-16 | the same, for a goal before its reset guard |
| Mcmas.AndOfTwoAttacksUnbalanced | mcmas/mcmas.py:11-12 | for an AND of two attacks, the written condition has four opening and three closing parentheses, the corrected one four and four |
| Uppaal.Entry | uppaal/uppaal.py:13-19 | an entry starts with the prefix, and with values it is the prefixed name, ` = ` and the value |
| Uppaal.KeptIndicesExact | uppaal/uppaal.py:12 | the written indices are exactly those whose name has a value (all of them without values), in increasing order |
| Uppaal.KeptAt | uppaal/uppaal.py:11-19 | the k-th entry is the entry of the k-th written index |
| Uppaal.EntriesAreKept | uppaal/uppaal.py:11-19 | exactly one entry per written name, in the order of the names |
| Uppaal.ListToString | uppaal/uppaal.py:6-20 | the loop writes the entries joined by `", "`, with no separator in front of the first, and nothing for no names |
| Uppaal.NoValuesListsAll | uppaal/uppaal.py:9-14 | without values, every name is written with its prefix, in order |
| Uppaal.NoneValuedListsNothing | uppaal/uppaal.py:12 | when no name has a value, nothing is written |
| Uppaal.GridPosition | uppaal/uppaal.py:164-167 | positions are non-negative multiples of the spacing, with the row below `dy * lx` |
| Uppaal.GridRoundTrip | uppaal/uppaal.py:164-167 | the number is read back from its position |
| Uppaal.GridInjective | uppaal/uppaal.py:164-167 | two numbers share a position exactly when they are equal |
| Uppaal.NoOverlap | uppaal/uppaal.py:164-168 | two placed states never share a grid point |
| Uppaal.Layout.constructor | uppaal/uppaal.py:25-30 | nothing placed and the counter at zero |
| Uppaal.Layout.Place | uppaal/uppaal.py:162-168 | the state gets the next number and its grid point, the counter grows by one, and the layout stays consistent |
| Uppaal.Layout.MakeLocation | uppaal/uppaal.py:160-187 | the state is placed, the counter grows by exactly one, and its number is returned exactly when it is initial |
| Uppaal.Layout.MakeBranchpoint | uppaal/uppaal.py:189-202 | the state is placed and the counter grows by exactly one |

## Left out

- XML generation, file I/O, location names and labels, transitions and
  queries of the UPPAAL exporter, and the `McmasExporter` class: these are
  output plumbing around a foreign library and files.
- `format_values` of `list_to_string`: values come already rendered as
  text, since the `{:.5f}`-style formatting of floats is not modelled.
- Uppaal.ListToString: requires `values` to be at least as long as `names`,
  where the source raises an `IndexError`.
- Mcmas.MakeList: takes the elements already rendered by `str`.
- Mcmas.CompletionCondition: a goal whose operation type is missing is not
  modelled. Operation types are a closed datatype here.
- Uppaal.Layout.MakeLocation: identifiers are numbers, not the strings
  `"id<n>"`.
- Nodes that share a name: the source compares nodes by name (`__eq__` at
  uppaal/adg.py:58-59), so `in` and `remove` on the node lists
  (uppaal/admdp.py:30-33, 103-104), the name sets of `serialize`
  (uppaal/admdp.py:117-118) and the accepting test (uppaal/admdp.py:151)
  treat two such nodes as one. The model compares indices and keeps them
  apart; it agrees with the source only when names are unique
  (`AdmdpStates.UniqueNames`).
- The `Unique` cache is one map owned by `Admdp.Builder`, not a
  process-wide dictionary per state class. Keys hold the state type, so
  per-class caches never share a key.
- Admdp.Builder.Build: a failure is the `list.remove` of a completion
  state whose attack is no longer activated. It stops the build there,
  like the exception, and does not promise which edges of the states under
  construction had been appended by then.
- `adg.completed_subadg` is not defined in `uppaal/adg.py`. The model
  takes it as `Adg.InCompletedSubadg`, the nodes at or below a completed
  node. A missing parents list (`Node.parents` left `None`,
  uppaal/adg.py:25) reads as empty.
- AdmdpStates.CollectActiveDefenses: reads the missing `defenses` list of
  an attack as empty. `Attack.__init__` (uppaal/adg.py:131-143) never
  passes `defenses`, so the field is `None`, and the loop at
  uppaal/admdp.py:102-105 raises a `TypeError` as soon as an activated or
  completed node is an attack.
- AdmdpStates.MakeState: builds every state, including those holding an
  attack, where `State.__init__` raises at uppaal/admdp.py:103 for the
  reason above.
- AdmdpStates.InitState: the same; a state whose activated or completed
  list holds an attack is built, where the source raises.
- The draft defects of `uppaal/adg.py` are left out, and the intended
  behaviour is modelled:
  - the undefined `parent` at line 120;
  - the bare `TODO` at line 220;
  - `.append` on dictionaries at lines 184-186;
  - `current.parent` at line 242, where the walk is the parents walk of
    the checkpoint rule.
- Adg.ReduceActivatedCompleted: models activated removal without the
  `break` at uppaal/adg.py:239, the same defect as in the Findings.
- TreeReduction.Reduce: its third phase is the corrected activated
  removal, without the `break` at uppaal/tree.py:258. On the input of the
  Findings the source keeps a1 activated, and this member removes it. The
  loop as written is `TreeReduction.RemoveActivatedAsWritten`.
- Trees.Tree.ReduceActivatedCompleted: the same; it runs
  `TreeReduction.Reduce`, so it omits the `break` at uppaal/tree.py:258.
- Adg.CheckParents: compares the two parents lists as sets of nodes, as
  the line intends. `Node` defines `__eq__` without `__hash__`
  (uppaal/adg.py:58-59), so nodes are unhashable and `set(...)` at
  uppaal/adg.py:68 raises a `TypeError` once the stored list is set and
  either list is non-empty.
- `set_parents` of `uppaal/adg.py` passes a single node where a list is
  expected. Graph parents are taken as given, and only `check_parents` is
  modelled.
- Adg.AllOfType: lists the nodes of a type in arena order. It does not
  follow the broken dictionary-based `init_dfs`.
- The broken prototypes `uppaal.py`, `graph.py` and `node.py` are not part
  of this model. Neither are `uppaal/optimizer.py` (numerical optimisation
  and calls to external tools) and the driver scripts.

## Findings

| source | as written | input that shows it | evidently intended | confidence | as-written member | corrected member |
|---|---|---|---|---|---|---|
| uppaal/tree.py:255-258 | after removing an activated attack that is itself completed, `break` leaves the outer loop, so later activated attacks are never examined | goal g0 = AND(g1, g2), g1 = OR(a1, a2), g2 = AND(a3, a4), none reset; completed [g1, a3], activated [a3, a1]: a1 stays activated although the completed goal g1 is a backup above it | every activated attack is examined, as for the attacks not completed | not executed | TreeReduction.RemoveActivatedAsWritten | TreeReduction.RemoveActivatedSpec |
| mcmas/mcmas.py:12-14 | the AND and OR cases open `( finished_<name> or ( ` but close only the inner group with ` )` | a goal AND over two attacks with plain names: 4 opening and 3 closing parentheses | the outer parenthesis is closed as in the EDGE case, so every condition is balanced | not executed | Mcmas.AndOfTwoAttacksUnbalanced | Mcmas.ConditionCounts |
