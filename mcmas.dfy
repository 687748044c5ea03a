/**
 * The two pure helpers of the MCMAS exporter (mcmas/mcmas.py): `make_list`,
 * which formats a list, and `make_completion_condition`, which compiles a
 * node of an attack-defense tree into the boolean condition under which
 * the node counts as finished.
 *
 * Conditions are written with every parenthesis as a literal of its own, so
 * that the parenthesis counts below can be read off the pieces.
 */
module Mcmas {
  import opened Lists
  import AT = AttackTree
  import PW = ParentWalk

  // ------------------------------------------------------------ make_list

  /**
   * `make_list(l, prefix, suffix, connector)`: the elements joined by
   * `suffix + connector + prefix`, the whole between `prefix` and `suffix`.
   * The elements are taken already rendered by `str`.
   */
  function MakeList(l: seq<string>, prefix: string, suffix: string, connector: string): (r: string)
    ensures |r| >= |prefix| + |suffix|
    ensures r[..|prefix|] == prefix && r[|r| - |suffix|..] == suffix
  {
    var r := prefix + Join(suffix + connector + prefix, l) + suffix;
    assert r[..|prefix|] == prefix;
    assert r[|r| - |suffix|..] == suffix;
    r
  }

  /** Every element between `prefix` and `suffix`. */
  function Wrap(l: seq<string>, prefix: string, suffix: string): (r: seq<string>)
    ensures |r| == |l| && forall i :: 0 <= i < |l| ==> r[i] == prefix + l[i] + suffix
  {
    seq(|l|, i requires 0 <= i < |l| => prefix + l[i] + suffix)
  }

  /**
   * What `make_list` means: each element is wrapped in `prefix` and
   * `suffix`, and the wrapped elements are joined by `connector`; an empty
   * list still gives `prefix + suffix`.
   */
  lemma {:induction false} MakeListWraps(l: seq<string>, prefix: string, suffix: string, connector: string)
    ensures l == [] ==> MakeList(l, prefix, suffix, connector) == prefix + suffix
    ensures l != [] ==> MakeList(l, prefix, suffix, connector) == Join(connector, Wrap(l, prefix, suffix))
    decreases |l|
  {
    if |l| >= 2 {
      var sep := suffix + connector + prefix;
      var w, rest := Wrap(l, prefix, suffix), Wrap(l[1..], prefix, suffix);
      var tail := Join(sep, l[1..]);
      MakeListWraps(l[1..], prefix, suffix, connector);
      assert prefix + tail + suffix == Join(connector, rest);
      assert Join(sep, l) == l[0] + sep + tail;
      assert w[1..] == rest;
      assert Join(connector, w) == w[0] + connector + Join(connector, rest);
      Regroup(prefix, l[0], suffix, connector, tail);
    }
  }

  /** Moving the separator's pieces to the elements they wrap. */
  lemma Regroup(prefix: string, x: string, suffix: string, connector: string, tail: string)
    ensures prefix + (x + (suffix + connector + prefix) + tail) + suffix
         == (prefix + x + suffix) + connector + (prefix + tail + suffix)
  {
  }

  /** Every child of a node has a larger index, within the arena. */
  predicate Shaped(arena: seq<AT.Node>)
  {
    PW.Downward(AT.Kids(arena, true))
  }

  lemma ChildBound(arena: seq<AT.Node>, id: AT.NodeId, c: AT.NodeId)
    requires Shaped(arena) && id < |arena|
    requires c in AT.GetChildren(arena[id], false) || arena[id].defenseChild == Some(c)
    ensures id < c < |arena|
  {
    PW.ChildInRange(AT.Kids(arena, true), id, c);
  }

  /** `s` between parentheses. */
  function Paren(s: string): string
  {
    "(" + s + ")"
  }

  /** The condition of an attack: it has finished. */
  function AttackCondition(name: string): string
  {
    Paren("Attack_" + name + ".Action=finished")
  }

  /** The condition of an EDGE goal `name` over the condition `c0` of its first child. */
  function EdgeJoin(name: string, c0: string): string
  {
    Paren(" finished_" + name + " or " + c0 + " ")
  }

  /** The connective an AND or OR goal puts between its children. */
  function Connective(op: AT.OperationType): string
  {
    if op == AT.And then " and " else " or "
  }

  /** What an AND or OR goal `name` says after its opening parenthesis: finished, or its first two children combined. */
  function GoalBody(name: string, op: AT.OperationType, c0: string, c1: string): string
  {
    " finished_" + name + " or " + Paren(" " + c0 + Connective(op) + c1 + " ")
  }

  /** The condition of an AND or OR goal as the source writes it: the outer parenthesis is never closed. */
  function GoalJoinAsWritten(name: string, op: AT.OperationType, c0: string, c1: string): string
  {
    "(" + GoalBody(name, op, c0, c1)
  }

  /** The same condition with the outer parenthesis closed. */
  function GoalJoin(name: string, op: AT.OperationType, c0: string, c1: string): string
  {
    Paren(GoalBody(name, op, c0, c1))
  }

  /** The guard of a `reset` goal: its condition `c` holds and its defense `d` is not moving. */
  function ResetGuard(c: string, d: string): string
  {
    Paren(" " + c + " and !" + Paren("Defense_" + d + ".Action=move") + " ")
  }

  /**
   * `make_completion_condition(node)`, with the AND/OR combination as the
   * source writes it when `asWritten` holds and balanced otherwise.  An
   * EDGE goal looks at its first child only, an AND or OR goal at its first
   * two; a missing child raises, as indexing the list does; a `reset` goal
   * is guarded by its defense not moving, and a `reset` goal without a
   * defense child raises.  A defense or an untyped node never binds
   * `condition`, which raises too.
   */
  function Condition(arena: seq<AT.Node>, id: AT.NodeId, asWritten: bool): (r: Result<string>)
    requires Shaped(arena) && id < |arena|
    ensures AT.TypeOf(arena[id]) == AT.AttackType ==> r == Ok(AttackCondition(arena[id].name))
    ensures AT.TypeOf(arena[id]) == AT.DefenseType || AT.TypeOf(arena[id]) == AT.NoType ==> r.Error?
    ensures AT.TypeOf(arena[id]) == AT.GoalType && AT.GetChildren(arena[id], false) == [] ==> r.Error?
    ensures AT.TypeOf(arena[id]) == AT.GoalType && arena[id].kind.reset && arena[id].defenseChild.None? ==> r.Error?
    decreases |arena| - id, 1
  {
    var n := arena[id];
    match n.kind
    case AttackKind(_, _, _, _) => Ok(AttackCondition(n.name))
    case GoalKind(_, reset) =>
      var body := GoalCondition(arena, id, asWritten);
      if !reset || body.Error? then body
      else if n.defenseChild.None? then Error("'NoneType' object has no attribute 'name'")
      else
        ChildBound(arena, id, n.defenseChild.value);
        Ok(ResetGuard(body.value, arena[n.defenseChild.value].name))
    case _ => Error("local variable 'condition' referenced before assignment")
  }

  /** The condition of a goal before its `reset` guard: its operation over its first one or two children. */
  function GoalCondition(arena: seq<AT.Node>, id: AT.NodeId, asWritten: bool): (r: Result<string>)
    requires Shaped(arena) && id < |arena| && arena[id].kind.GoalKind?
    ensures AT.GetChildren(arena[id], false) == [] ==> r.Error?
    ensures arena[id].kind.op != AT.Edge && |AT.GetChildren(arena[id], false)| < 2 ==> r.Error?
    decreases |arena| - id, 0
  {
    var n := arena[id];
    var ch := AT.GetChildren(n, false);
    if ch == [] then Error("list index out of range")
    else
      ChildBound(arena, id, ch[0]);
      var c0 := Condition(arena, ch[0], asWritten);
      if c0.Error? then c0
      else if n.kind.op == AT.Edge then Ok(EdgeJoin(n.name, c0.value))
      else if |ch| < 2 then Error("list index out of range")
      else
        ChildBound(arena, id, ch[1]);
        var c1 := Condition(arena, ch[1], asWritten);
        if c1.Error? then c1
        else if asWritten then Ok(GoalJoinAsWritten(n.name, n.kind.op, c0.value, c1.value))
        else Ok(GoalJoin(n.name, n.kind.op, c0.value, c1.value))
  }

  /** The balanced condition, which the rest of the model uses. */
  function CompletionCondition(arena: seq<AT.Node>, id: AT.NodeId): (r: Result<string>)
    requires Shaped(arena) && id < |arena|
    ensures AT.TypeOf(arena[id]) == AT.AttackType ==> r.Ok?
  {
    Condition(arena, id, false)
  }

  /** The condition exactly as `make_completion_condition` builds it. */
  function CompletionConditionAsWritten(arena: seq<AT.Node>, id: AT.NodeId): (r: Result<string>)
    requires Shaped(arena) && id < |arena|
    ensures AT.TypeOf(arena[id]) == AT.AttackType ==> r.Ok?
  {
    Condition(arena, id, true)
  }

  // ------------------------------------------------------------ parentheses

  function Opens(s: string): nat
  {
    Count('(', s)
  }

  function Closes(s: string): nat
  {
    Count(')', s)
  }

  /** No node name holds a parenthesis. */
  predicate PlainNames(arena: seq<AT.Node>)
  {
    forall i :: 0 <= i < |arena| ==> '(' !in arena[i].name && ')' !in arena[i].name
  }

  lemma Cat(a: string, b: string)
    ensures Opens(a + b) == Opens(a) + Opens(b) && Closes(a + b) == Closes(a) + Closes(b)
  {
    CountAppend('(', a, b);
    CountAppend(')', a, b);
  }

  lemma Plain(s: string)
    requires '(' !in s && ')' !in s
    ensures Opens(s) == 0 && Closes(s) == 0
  {
    CountNone('(', s);
    CountNone(')', s);
  }

  /** Text without parentheses in front of `s` adds none. */
  lemma Pre(m: string, s: string)
    requires '(' !in m && ')' !in m
    ensures Opens(m + s) == Opens(s) && Closes(m + s) == Closes(s)
  {
    Plain(m);
    Cat(m, s);
  }

  /** Text without parentheses after `s` adds none. */
  lemma Post(s: string, m: string)
    requires '(' !in m && ')' !in m
    ensures Opens(s + m) == Opens(s) && Closes(s + m) == Closes(s)
  {
    Plain(m);
    Cat(s, m);
  }

  /** An opening parenthesis in front of `s` adds one. */
  lemma OpenCounts(s: string)
    ensures Opens("(" + s) == 1 + Opens(s) && Closes("(" + s) == Closes(s)
  {
    assert Opens("(") == 1 && Closes("(") == 0;
    Cat("(", s);
  }

  lemma ParenCounts(s: string)
    ensures Opens(Paren(s)) == 1 + Opens(s) && Closes(Paren(s)) == 1 + Closes(s)
  {
    OpenCounts(s);
    assert Opens(")") == 0 && Closes(")") == 1;
    Cat("(" + s, ")");
  }

  lemma AttackConditionCounts(name: string)
    requires '(' !in name && ')' !in name
    ensures Opens(AttackCondition(name)) == 1 && Closes(AttackCondition(name)) == 1
  {
    Plain(name);
    Pre("Attack_", name);
    Post("Attack_" + name, ".Action=finished");
    ParenCounts("Attack_" + name + ".Action=finished");
  }

  lemma EdgeJoinCounts(name: string, c0: string)
    requires '(' !in name && ')' !in name
    ensures Opens(EdgeJoin(name, c0)) == 1 + Opens(c0) && Closes(EdgeJoin(name, c0)) == 1 + Closes(c0)
  {
    Plain(name);
    var s1 := " finished_" + name;
    var s2 := s1 + " or ";
    var s3 := s2 + c0;
    Pre(" finished_", name);
    Post(s1, " or ");
    Cat(s2, c0);
    Post(s3, " ");
    ParenCounts(s3 + " ");
  }

  /** Between the children of an AND or OR goal, one parenthesis of each kind. */
  lemma GoalBodyCounts(name: string, op: AT.OperationType, c0: string, c1: string)
    requires '(' !in name && ')' !in name
    ensures Opens(GoalBody(name, op, c0, c1)) == 1 + Opens(c0) + Opens(c1)
    ensures Closes(GoalBody(name, op, c0, c1)) == 1 + Closes(c0) + Closes(c1)
  {
    var conn := Connective(op);
    var s1 := " " + c0;
    var s2 := s1 + conn;
    var s3 := s2 + c1;
    Pre(" ", c0);
    Post(s1, conn);
    Cat(s2, c1);
    Post(s3, " ");
    ParenCounts(s3 + " ");
    Plain(name);
    var t1 := " finished_" + name;
    var t2 := t1 + " or ";
    Pre(" finished_", name);
    Post(t1, " or ");
    Cat(t2, Paren(s3 + " "));
  }

  /** The AND/OR combination as written opens one parenthesis more than it closes. */
  lemma GoalJoinAsWrittenCounts(name: string, op: AT.OperationType, c0: string, c1: string)
    requires '(' !in name && ')' !in name
    ensures Opens(GoalJoinAsWritten(name, op, c0, c1)) == 2 + Opens(c0) + Opens(c1)
    ensures Closes(GoalJoinAsWritten(name, op, c0, c1)) == 1 + Closes(c0) + Closes(c1)
  {
    GoalBodyCounts(name, op, c0, c1);
    OpenCounts(GoalBody(name, op, c0, c1));
  }

  /** Closing the outer parenthesis balances the AND/OR combination. */
  lemma GoalJoinCounts(name: string, op: AT.OperationType, c0: string, c1: string)
    requires '(' !in name && ')' !in name
    ensures Opens(GoalJoin(name, op, c0, c1)) == 2 + Opens(c0) + Opens(c1)
    ensures Closes(GoalJoin(name, op, c0, c1)) == 2 + Closes(c0) + Closes(c1)
  {
    GoalBodyCounts(name, op, c0, c1);
    ParenCounts(GoalBody(name, op, c0, c1));
  }

  /** The reset guard adds two parentheses of each kind. */
  lemma ResetGuardCounts(c: string, d: string)
    requires '(' !in d && ')' !in d
    ensures Opens(ResetGuard(c, d)) == 2 + Opens(c) && Closes(ResetGuard(c, d)) == 2 + Closes(c)
  {
    Plain(d);
    Pre("Defense_", d);
    Post("Defense_" + d, ".Action=move");
    var g := Paren("Defense_" + d + ".Action=move");
    ParenCounts("Defense_" + d + ".Action=move");
    var s1 := " " + c;
    var s2 := s1 + " and !";
    var s3 := s2 + g;
    Pre(" ", c);
    Post(s1, " and !");
    Cat(s2, g);
    Post(s3, " ");
    ParenCounts(s3 + " ");
  }

  /**
   * With plain names, a condition built by the source never closes more
   * parentheses than it opens, and it closes fewer than it opens wherever
   * an AND or OR goal was combined; the balanced version closes every one.
   */
  lemma {:induction false} ConditionCounts(arena: seq<AT.Node>, id: AT.NodeId, asWritten: bool)
    requires Shaped(arena) && id < |arena| && PlainNames(arena)
    requires Condition(arena, id, asWritten).Ok?
    ensures var r := Condition(arena, id, asWritten).value;
            Opens(r) >= Closes(r) && (!asWritten ==> Opens(r) == Closes(r))
    ensures asWritten && arena[id].kind.GoalKind? && arena[id].kind.op != AT.Edge ==>
              Opens(Condition(arena, id, asWritten).value) > Closes(Condition(arena, id, asWritten).value)
    decreases |arena| - id, 1
  {
    var n := arena[id];
    if n.kind.GoalKind? {
      GoalConditionCounts(arena, id, asWritten);
      if n.kind.reset {
        var d := n.defenseChild.value;
        ChildBound(arena, id, d);
        ResetGuardCounts(GoalCondition(arena, id, asWritten).value, arena[d].name);
      }
    } else {
      AttackConditionCounts(n.name);
    }
  }

  lemma {:induction false} GoalConditionCounts(arena: seq<AT.Node>, id: AT.NodeId, asWritten: bool)
    requires Shaped(arena) && id < |arena| && PlainNames(arena) && arena[id].kind.GoalKind?
    requires GoalCondition(arena, id, asWritten).Ok?
    ensures var r := GoalCondition(arena, id, asWritten).value;
            Opens(r) >= Closes(r) && (!asWritten ==> Opens(r) == Closes(r))
            && (asWritten && arena[id].kind.op != AT.Edge ==> Opens(r) > Closes(r))
    decreases |arena| - id, 0
  {
    var n := arena[id];
    var ch := AT.GetChildren(n, false);
    ChildBound(arena, id, ch[0]);
    ConditionCounts(arena, ch[0], asWritten);
    var c0 := Condition(arena, ch[0], asWritten).value;
    if n.kind.op == AT.Edge {
      EdgeJoinCounts(n.name, c0);
    } else {
      ChildBound(arena, id, ch[1]);
      ConditionCounts(arena, ch[1], asWritten);
      var c1 := Condition(arena, ch[1], asWritten).value;
      if asWritten {
        GoalJoinAsWrittenCounts(n.name, n.kind.op, c0, c1);
      } else {
        GoalJoinCounts(n.name, n.kind.op, c0, c1);
      }
    }
  }

  /**
   * The smallest input that shows the imbalance: an AND goal `g` over two
   * attacks `a` and `b` gives "( finished_g or ( (Attack_a.Action=finished)
   * and (Attack_b.Action=finished) )", four opening parentheses for three
   * closing ones; the balanced version closes all four.
   */
  lemma AndOfTwoAttacksUnbalanced(g: AT.Node, a: AT.Node, b: AT.Node)
    requires g.kind == AT.GoalKind(AT.And, false) && g.attackChildren == [1, 2] && g.goalChildren == []
    requires g.defenseChild.None? && a.attackChildren == [] && a.goalChildren == [] && a.defenseChild.None?
    requires b.attackChildren == [] && b.goalChildren == [] && b.defenseChild.None?
    requires a.kind.AttackKind? && b.kind.AttackKind?
    requires '(' !in g.name && ')' !in g.name && '(' !in a.name && ')' !in a.name && '(' !in b.name && ')' !in b.name
    ensures Shaped([g, a, b])
    ensures var r := CompletionConditionAsWritten([g, a, b], 0);
            r.Ok? && Opens(r.value) == 4 && Closes(r.value) == 3
    ensures var r := CompletionCondition([g, a, b], 0);
            r.Ok? && Opens(r.value) == 4 && Closes(r.value) == 4
  {
    var arena := [g, a, b];
    var kids := AT.Kids(arena, true);
    assert kids[0] == [1, 2] && kids[1] == [] && kids[2] == [];
    assert Shaped(arena);
    assert AT.GetChildren(g, false) == [1, 2];
    var ca, cb := AttackCondition(a.name), AttackCondition(b.name);
    AttackConditionCounts(a.name);
    AttackConditionCounts(b.name);
    assert Condition(arena, 1, true) == Ok(ca) && Condition(arena, 2, true) == Ok(cb);
    assert Condition(arena, 1, false) == Ok(ca) && Condition(arena, 2, false) == Ok(cb);
    assert Condition(arena, 0, true) == GoalCondition(arena, 0, true) == Ok(GoalJoinAsWritten(g.name, AT.And, ca, cb));
    assert Condition(arena, 0, false) == GoalCondition(arena, 0, false) == Ok(GoalJoin(g.name, AT.And, ca, cb));
    GoalJoinAsWrittenCounts(g.name, AT.And, ca, cb);
    GoalJoinCounts(g.name, AT.And, ca, cb);
  }
}
