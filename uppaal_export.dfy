/**
 * The arithmetic core of the UPPAAL exporter (uppaal/uppaal.py): the
 * comma-separated name lists of the declaration section, and the grid on
 * which every location and branchpoint of the template is placed.
 */
module Uppaal {
  import opened Lists
  import S = AdmdpStates

  // ------------------------------------------------------------ list_to_string

  /** Whether the name at `i` is written: always without values, else only when it has one. */
  predicate Kept(values: Option<seq<Option<string>>>, i: nat)
    requires values.Some? ==> i < |values.value|
  {
    values.None? || values.value[i].Some?
  }

  /** Both lists are long enough for every index of `names`. */
  predicate Fits(names: seq<string>, values: Option<seq<Option<string>>>)
  {
    values.Some? ==> |names| <= |values.value|
  }

  /** The text written for the kept name at `i`: the prefixed name, then ` = ` and its value when there are values. */
  function Entry(names: seq<string>, prefix: string, values: Option<seq<Option<string>>>, i: nat): (e: string)
    requires Fits(names, values) && i < |names| && Kept(values, i)
    ensures |e| >= |prefix| && e[..|prefix|] == prefix
    ensures values.Some? ==> e == prefix + names[i] + " = " + values.value[i].value
  {
    var e := prefix + names[i] + (if values.Some? then " = " + values.value[i].value else "");
    assert e[..|prefix|] == prefix;
    e
  }

  /** The texts written for the first `n` names, in order. */
  function Entries(names: seq<string>, prefix: string, values: Option<seq<Option<string>>>, n: nat): (r: seq<string>)
    requires Fits(names, values) && n <= |names|
    ensures |r| <= n
  {
    if n == 0 then []
    else Entries(names, prefix, values, n - 1) + (if Kept(values, n - 1) then [Entry(names, prefix, values, n - 1)] else [])
  }

  /** The indices below `n` whose names are written, in increasing order. */
  function KeptIndices(values: Option<seq<Option<string>>>, n: nat): (r: seq<nat>)
    requires values.Some? ==> n <= |values.value|
    ensures |r| <= n
  {
    if n == 0 then []
    else KeptIndices(values, n - 1) + (if Kept(values, n - 1) then [n - 1] else [])
  }

  /** The kept indices are exactly the indices below `n` whose names are written, in increasing order. */
  lemma {:induction false} KeptIndicesExact(values: Option<seq<Option<string>>>, n: nat)
    requires values.Some? ==> n <= |values.value|
    ensures forall i: nat :: i in KeptIndices(values, n) <==> i < n && Kept(values, i)
    ensures forall j, k :: 0 <= j < k < |KeptIndices(values, n)| ==> KeptIndices(values, n)[j] < KeptIndices(values, n)[k]
  {
    if n > 0 {
      KeptIndicesExact(values, n - 1);
      var r := KeptIndices(values, n - 1);
      assert forall j :: 0 <= j < |r| ==> r[j] in r;
    }
  }

  lemma {:induction false} KeptLength(names: seq<string>, prefix: string, values: Option<seq<Option<string>>>, n: nat)
    requires Fits(names, values) && n <= |names|
    ensures |Entries(names, prefix, values, n)| == |KeptIndices(values, n)|
  {
    if n > 0 {
      KeptLength(names, prefix, values, n - 1);
    }
  }

  lemma {:induction false} KeptAt(names: seq<string>, prefix: string, values: Option<seq<Option<string>>>, n: nat, k: nat)
    requires Fits(names, values) && n <= |names| && k < |Entries(names, prefix, values, n)|
    ensures k < |KeptIndices(values, n)| && KeptIndices(values, n)[k] < |names| && Kept(values, KeptIndices(values, n)[k])
    ensures Entries(names, prefix, values, n)[k] == Entry(names, prefix, values, KeptIndices(values, n)[k])
  {
    KeptLength(names, prefix, values, n);
    var es, ks := Entries(names, prefix, values, n - 1), KeptIndices(values, n - 1);
    KeptLength(names, prefix, values, n - 1);
    if k < |es| {
      KeptAt(names, prefix, values, n - 1, k);
      if Kept(values, n - 1) {
        var es', ks' := es + [Entry(names, prefix, values, n - 1)], ks + [n - 1];
        assert Entries(names, prefix, values, n) == es' && KeptIndices(values, n) == ks';
        assert es'[k] == es[k] && ks'[k] == ks[k];
      } else {
        assert Entries(names, prefix, values, n) == es && KeptIndices(values, n) == ks;
      }
    } else {
      assert Kept(values, n - 1);
      assert Entries(names, prefix, values, n) == es + [Entry(names, prefix, values, n - 1)];
      assert KeptIndices(values, n) == ks + [n - 1];
    }
  }

  /**
   * What gets written: exactly one entry per kept name, in the order of
   * the names; a name whose value is missing leaves no trace.
   */
  lemma EntriesAreKept(names: seq<string>, prefix: string, values: Option<seq<Option<string>>>, n: nat)
    requires Fits(names, values) && n <= |names|
    ensures |Entries(names, prefix, values, n)| == |KeptIndices(values, n)|
    ensures forall k :: 0 <= k < |Entries(names, prefix, values, n)| ==>
              KeptIndices(values, n)[k] < |names| && Kept(values, KeptIndices(values, n)[k]) &&
              Entries(names, prefix, values, n)[k] == Entry(names, prefix, values, KeptIndices(values, n)[k])
  {
    KeptLength(names, prefix, values, n);
    forall k | 0 <= k < |Entries(names, prefix, values, n)| {
      KeptAt(names, prefix, values, n, k);
    }
  }

  /** Joining one more part puts the separator in front of it unless it is the first. */
  lemma JoinSnoc(sep: string, parts: seq<string>, e: string)
    ensures Join(sep, parts + [e]) == Join(sep, parts) + (if parts == [] then "" else sep) + e
  {
    if parts == [] {
      assert parts + [e] == [e];
    } else {
      JoinAppend(sep, parts, [e]);
    }
  }

  /**
   * `list_to_string(names, prefix, values)`: the kept entries separated by
   * `", "`, with no separator in front of the first.  The values come
   * already rendered as text.
   */
  method ListToString(names: seq<string>, prefix: string, values: Option<seq<Option<string>>>) returns (s: string)
    requires Fits(names, values)
    ensures s == Join(", ", Entries(names, prefix, values, |names|))
  {
    if |names| == 0 {
      return "";
    }
    var connector := "";
    s := "";
    for i := 0 to |names|
      invariant s == Join(", ", Entries(names, prefix, values, i))
      invariant connector == if Entries(names, prefix, values, i) == [] then "" else ", "
    {
      ghost var before, written := Entries(names, prefix, values, i), s;
      if values.None? || values.value[i].Some? {
        s := s + connector + prefix + names[i];
        connector := ", ";
      }
      if values.Some? && values.value[i].Some? {
        s := s + " = " + values.value[i].value;
      }
      if Kept(values, i) {
        var e := Entry(names, prefix, values, i);
        assert s == written + (if before == [] then "" else ", ") + e;
        JoinSnoc(", ", before, e);
        assert Entries(names, prefix, values, i + 1) == before + [e];
      } else {
        assert Entries(names, prefix, values, i + 1) == before;
      }
    }
  }

  lemma {:induction false} NoValuesLength(names: seq<string>, prefix: string, n: nat)
    requires n <= |names|
    ensures |Entries(names, prefix, None, n)| == n
  {
    if n > 0 {
      NoValuesLength(names, prefix, n - 1);
    }
  }

  lemma {:induction false} NoValuesAt(names: seq<string>, prefix: string, n: nat, i: nat)
    requires i < n <= |names|
    ensures i < |Entries(names, prefix, None, n)| && Entries(names, prefix, None, n)[i] == prefix + names[i]
  {
    NoValuesLength(names, prefix, n);
    NoValuesLength(names, prefix, n - 1);
    var es := Entries(names, prefix, None, n - 1);
    assert Entries(names, prefix, None, n) == es + [Entry(names, prefix, None, n - 1)];
    if i < n - 1 {
      NoValuesAt(names, prefix, n - 1, i);
    } else {
      assert Entry(names, prefix, None, n - 1) == prefix + names[n - 1] + "";
    }
  }

  /** Without values, every name is written with its prefix, in order. */
  lemma NoValuesListsAll(names: seq<string>, prefix: string)
    ensures |Entries(names, prefix, None, |names|)| == |names|
    ensures forall i :: 0 <= i < |names| ==> Entries(names, prefix, None, |names|)[i] == prefix + names[i]
  {
    NoValuesLength(names, prefix, |names|);
    forall i | 0 <= i < |names| {
      NoValuesAt(names, prefix, |names|, i);
    }
  }

  /** When no name has a value, nothing is written. */
  lemma {:induction false} NoneValuedListsNothing(names: seq<string>, prefix: string, vals: seq<Option<string>>, n: nat)
    requires |names| <= |vals| && n <= |names|
    requires forall i :: 0 <= i < |vals| ==> vals[i].None?
    ensures Entries(names, prefix, Some(vals), n) == []
  {
    if n > 0 {
      NoneValuedListsNothing(names, prefix, vals, n - 1);
    }
  }

  // ------------------------------------------------------------ the grid

  /** Horizontal and vertical spacing of the grid, and the number of rows per column. */
  const Dx: nat := 100
  const Dy: nat := 100
  const Lx: nat := 8

  datatype Position = Position(x: int, y: int)

  /** Where the location or branchpoint numbered `id` goes: column `id / Lx`, row `id % Lx`. */
  function GridPosition(id: nat): (p: Position)
    ensures p.x >= 0 && p.x % Dx == 0
    ensures 0 <= p.y < Dy * Lx && p.y % Dy == 0
  {
    Position(Dx * (id / Lx), Dy * (id % Lx))
  }

  /** The number of the grid point `p`. */
  function GridIndex(p: Position): int
  {
    (p.x / Dx) * Lx + p.y / Dy
  }

  /** Every number is read back from its position. */
  lemma GridRoundTrip(id: nat)
    ensures GridIndex(GridPosition(id)) == id
  {
    var p := GridPosition(id);
    assert p.x / Dx == id / Lx;
    assert p.y / Dy == id % Lx;
  }

  /** No two numbers share a position. */
  lemma GridInjective(a: nat, b: nat)
    ensures GridPosition(a) == GridPosition(b) <==> a == b
  {
    GridRoundTrip(a);
    GridRoundTrip(b);
  }

  /**
   * The exporter's bookkeeping: the next number to give out and, per state
   * serialization, its number and position, with the reverse map from
   * numbers to serializations.
   */
  class Layout {
    var stateId: nat
    var ids: map<S.Serial, nat>
    var serials: map<nat, S.Serial>
    var positions: map<S.Serial, Position>

    /**
     * Every placed state has a number already given out and sits at the
     * grid point of that number; distinct states have distinct numbers; the
     * reverse map reads every state's number back to it.
     */
    predicate Valid()
      reads this
    {
      ids.Keys == positions.Keys
      && (forall s :: s in ids ==> ids[s] < stateId && positions[s] == GridPosition(ids[s]))
      && (forall s, t :: s in ids && t in ids && s != t ==> ids[s] != ids[t])
      && (forall s :: s in ids ==> ids[s] in serials && serials[ids[s]] == s)
      && (forall n :: n in serials ==> n < stateId && serials[n] in ids)
    }

    constructor()
      ensures Valid() && stateId == 0 && ids == map[] && serials == map[] && positions == map[]
    {
      stateId := 0;
      ids := map[];
      serials := map[];
      positions := map[];
    }

    /** Give the state `serial` the next number and its grid point. */
    method Place(serial: S.Serial) returns (id: nat)
      requires Valid()
      modifies this
      ensures Valid()
      ensures id == old(stateId) && stateId == old(stateId) + 1
      ensures ids == old(ids)[serial := id]
      ensures serials == old(serials)[id := serial]
      ensures positions == old(positions)[serial := GridPosition(id)]
    {
      id := stateId;
      ids := ids[serial := id];
      serials := serials[id := serial];
      positions := positions[serial := GridPosition(id)];
      stateId := stateId + 1;
    }

    /** `make_location`: place the state; its number is returned when it is the initial state. */
    method MakeLocation(serial: S.Serial, initial: bool) returns (initialId: Option<nat>)
      requires Valid()
      modifies this
      ensures Valid()
      ensures stateId == old(stateId) + 1
      ensures ids == old(ids)[serial := old(stateId)]
      ensures serials == old(serials)[old(stateId) := serial]
      ensures positions == old(positions)[serial := GridPosition(old(stateId))]
      ensures initialId == if initial then Some(old(stateId)) else None
    {
      var id := Place(serial);
      initialId := if initial then Some(id) else None;
    }

    /** `make_branchpoint`: place the state. */
    method MakeBranchpoint(serial: S.Serial)
      requires Valid()
      modifies this
      ensures Valid()
      ensures stateId == old(stateId) + 1
      ensures ids == old(ids)[serial := old(stateId)]
      ensures serials == old(serials)[old(stateId) := serial]
      ensures positions == old(positions)[serial := GridPosition(old(stateId))]
    {
      var _ := Place(serial);
    }
  }

  /** In a consistent layout, two placed states never share a grid point. */
  lemma NoOverlap(ids: map<S.Serial, nat>, positions: map<S.Serial, Position>, s: S.Serial, t: S.Serial)
    requires forall u :: u in ids ==> u in positions && positions[u] == GridPosition(ids[u])
    requires forall u, v :: u in ids && v in ids && u != v ==> ids[u] != ids[v]
    requires s in ids && t in ids && s != t
    ensures positions[s] != positions[t]
  {
    GridInjective(ids[s], ids[t]);
  }
}
