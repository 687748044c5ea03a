/**
 * Small sequence and string utilities shared by the model: an Option type,
 * duplicate-freedom, Python's `list.remove` and `str.join`.
 */
module Lists {

  datatype Option<+T> = None | Some(value: T)

  /** The outcome of an operation that raises on bad input: a value or an error message. */
  datatype Result<+T> = Ok(value: T) | Error(msg: string)

  /** The set of elements of a list. */
  function Elems<T>(s: seq<T>): set<T>
  {
    set x | x in s
  }

  /** No element occurs twice: the list represents a set. */
  predicate NoDups<T(==)>(s: seq<T>)
  {
    forall i, j :: 0 <= i < j < |s| ==> s[i] != s[j]
  }

  /** The elements of `s` not in `xs`, in their original order. */
  function Without<T(==)>(s: seq<T>, xs: set<T>): (r: seq<T>)
    ensures Elems(r) == Elems(s) - xs
    ensures |r| <= |s|
    ensures NoDups(s) ==> NoDups(r)
  {
    if s == [] then []
    else
      var rest := Without(s[1..], xs);
      assert Elems(s) == {s[0]} + Elems(s[1..]);
      if s[0] in xs then rest
      else
        var r := [s[0]] + rest;
        assert Elems(r) == {s[0]} + Elems(rest);
        assert NoDups(s) ==> NoDups(r) by {
          if NoDups(s) {
            assert s[0] !in Elems(s[1..]) by {
              forall k | 0 <= k < |s[1..]| ensures s[1..][k] != s[0] { assert s[k + 1] != s[0]; }
            }
            assert NoDups(s[1..]);
            forall i, j | 0 <= i < j < |r| ensures r[i] != r[j] {
              if i == 0 { assert r[j] in Elems(rest); }
            }
          }
        }
        r
  }

  /** Two duplicate-free lists with no common element concatenate to a duplicate-free list. */
  lemma NoDupsConcat<T>(a: seq<T>, b: seq<T>)
    requires NoDups(a) && NoDups(b) && Elems(a) * Elems(b) == {}
    ensures NoDups(a + b)
  {
    forall i, j | 0 <= i < j < |a + b| ensures (a + b)[i] != (a + b)[j] {
      if j < |a| {
        assert (a + b)[i] == a[i] && (a + b)[j] == a[j];
      } else if i < |a| {
        assert (a + b)[i] == a[i] && (a + b)[j] == b[j - |a|];
        assert a[i] in Elems(a) && b[j - |a|] in Elems(b);
        assert a[i] !in Elems(a) * Elems(b);
      } else {
        assert (a + b)[i] == b[i - |a|] && (a + b)[j] == b[j - |a|];
      }
    }
  }

  /** Python's `list.remove(x)` on a list that holds `x`: drops its first occurrence. */
  function RemoveFirst<T(==)>(s: seq<T>, x: T): (r: seq<T>)
    ensures x in s ==> |r| == |s| - 1 && multiset(r) == multiset(s) - multiset{x}
    ensures x !in s ==> r == s
  {
    if s == [] then []
    else if s[0] == x then
      assert s == [s[0]] + s[1..];
      s[1..]
    else
      var rest := RemoveFirst(s[1..], x);
      assert s == [s[0]] + s[1..];
      [s[0]] + rest
  }

  /** On a duplicate-free list, removing the first occurrence removes the element. */
  lemma {:induction false} RemoveFirstIsWithout<T>(s: seq<T>, x: T)
    requires NoDups(s)
    ensures RemoveFirst(s, x) == Without(s, {x})
  {
    if s != [] {
      assert NoDups(s[1..]);
      if s[0] == x {
        assert x !in s[1..] by {
          forall k | 0 <= k < |s[1..]| ensures s[1..][k] != x {
            assert s[k + 1] != s[0];
          }
        }
        WithoutAbsent(s[1..], {x});
      } else {
        RemoveFirstIsWithout(s[1..], x);
      }
    }
  }

  /** Removing elements that do not occur changes nothing. */
  lemma {:induction false} WithoutAbsent<T>(s: seq<T>, xs: set<T>)
    requires forall y :: y in xs ==> y !in s
    ensures Without(s, xs) == s
  {
    if s != [] {
      WithoutAbsent(s[1..], xs);
    }
  }

  /** Removing in two rounds is removing the union. */
  lemma {:induction false} WithoutWithout<T>(s: seq<T>, xs: set<T>, ys: set<T>)
    ensures Without(Without(s, xs), ys) == Without(s, xs + ys)
  {
    if s != [] {
      WithoutWithout(s[1..], xs, ys);
    }
  }

  /** Only the removed elements that occur in the list matter. */
  lemma {:induction false} WithoutSame<T>(s: seq<T>, xs: set<T>, ys: set<T>)
    requires forall i :: 0 <= i < |s| ==> (s[i] in xs <==> s[i] in ys)
    ensures Without(s, xs) == Without(s, ys)
  {
    if s != [] {
      WithoutSame(s[1..], xs, ys);
    }
  }

  /** Python's `sep.join(parts)`. */
  function Join(sep: string, parts: seq<string>): (r: string)
    ensures parts == [] ==> r == ""
    ensures |parts| == 1 ==> r == parts[0]
  {
    if parts == [] then ""
    else if |parts| == 1 then parts[0]
    else parts[0] + sep + Join(sep, parts[1..])
  }

  /** Joining a concatenation puts one separator between the two halves. */
  lemma {:induction false} JoinAppend(sep: string, a: seq<string>, b: seq<string>)
    requires a != [] && b != []
    ensures Join(sep, a + b) == Join(sep, a) + sep + Join(sep, b)
  {
    if |a| == 1 {
      assert (a + b)[1..] == b;
    } else {
      assert (a + b)[1..] == a[1..] + b;
      JoinAppend(sep, a[1..], b);
    }
  }

  /** Number of occurrences of a character in a string. */
  function Count(c: char, s: string): (n: nat)
    ensures n <= |s|
  {
    if s == [] then 0 else (if s[0] == c then 1 else 0) + Count(c, s[1..])
  }

  /** Counting distributes over concatenation. */
  lemma {:induction false} CountAppend(c: char, a: string, b: string)
    ensures Count(c, a + b) == Count(c, a) + Count(c, b)
  {
    if a == [] {
      assert a + b == b;
    } else {
      assert (a + b)[1..] == a[1..] + b;
      CountAppend(c, a[1..], b);
    }
  }

  /** A character that does not occur is counted zero times. */
  lemma {:induction false} CountNone(c: char, s: string)
    requires c !in s
    ensures Count(c, s) == 0
  {
    if s != [] {
      CountNone(c, s[1..]);
    }
  }

  /** The set {0, ..., n-1} has n elements. */
  function Range(n: nat): (r: set<nat>)
    ensures |r| == n
    ensures forall x: nat :: x in r <==> x < n
  {
    if n == 0 then {} else
      var r := Range(n - 1);
      assert n - 1 !in r;
      r + {n - 1}
  }

  /** Every element of the list is below n (node indices of an arena of size n). */
  predicate Below(s: seq<nat>, n: nat)
  {
    forall i :: 0 <= i < |s| ==> s[i] < n
  }

  /** A list of values below n has at most n distinct elements. */
  lemma ElemsBound(s: seq<nat>, n: nat)
    requires Below(s, n)
    ensures |Elems(s)| <= n
  {
    assert Elems(s) <= Range(n) by {
      forall x | x in Elems(s) ensures x in Range(n) {
        var i :| 0 <= i < |s| && s[i] == x;
      }
    }
    SubsetCard(Elems(s), Range(n));
  }

  /** A list whose elements all occur in a list of indices below `n` is below `n` too. */
  lemma BelowSub(s: seq<nat>, t: seq<nat>, n: nat)
    requires Below(t, n) && forall y :: y in s ==> y in t
    ensures Below(s, n)
  {
    forall i | 0 <= i < |s| ensures s[i] < n {
      assert s[i] in s;
    }
  }

  lemma SubsetCard<T>(a: set<T>, b: set<T>)
    requires a <= b
    ensures |a| <= |b|
  {
    assert b == a + (b - a);
  }

  /** Python's `<` on strings: by character codes from the left; a proper prefix comes first. */
  predicate Less(a: string, b: string)
  {
    if a == [] then b != []
    else b != [] && (a[0] < b[0] || (a[0] == b[0] && Less(a[1..], b[1..])))
  }

  lemma {:induction false} LessIrreflexive(a: string)
    ensures !Less(a, a)
  {
    if a != [] {
      LessIrreflexive(a[1..]);
    }
  }

  lemma {:induction false} LessTransitive(a: string, b: string, c: string)
    requires Less(a, b) && Less(b, c)
    ensures Less(a, c)
  {
    if a != [] && b != [] && c != [] && a[0] == b[0] == c[0] {
      LessTransitive(a[1..], b[1..], c[1..]);
    }
  }

  /** Any two different strings are ordered one way or the other, and never both ways. */
  lemma {:induction false} LessTotal(a: string, b: string)
    ensures a == b || Less(a, b) || Less(b, a)
    ensures !(Less(a, b) && Less(b, a))
  {
    if a != [] && b != [] && a[0] == b[0] {
      LessTotal(a[1..], b[1..]);
      if a[1..] == b[1..] {
        assert a == [a[0]] + a[1..] && b == [b[0]] + b[1..];
      }
    }
  }

  /** Strictly increasing in Python's string order: sorted, without repeats. */
  predicate StrictlySorted(s: seq<string>)
  {
    forall i, j :: 0 <= i < j < |s| ==> Less(s[i], s[j])
  }

  /** Insert `x` into a strictly sorted list, unless it is already there. */
  function InsertSorted(x: string, s: seq<string>): (r: seq<string>)
    requires StrictlySorted(s)
    ensures StrictlySorted(r) && Elems(r) == Elems(s) + {x}
  {
    if s == [] then [x]
    else if x == s[0] then
      assert Elems(s) == {s[0]} + Elems(s[1..]);
      s
    else if Less(x, s[0]) then
      var r := [x] + s;
      forall j | 0 < j < |r| ensures Less(r[0], r[j]) {
        if j > 1 { LessTransitive(x, s[0], s[j - 1]); }
      }
      assert Elems(r) == {x} + Elems(s);
      r
    else
      LessTotal(x, s[0]);
      var rest := InsertSorted(x, s[1..]);
      var r := [s[0]] + rest;
      forall j | 0 <= j < |rest| ensures Less(s[0], rest[j]) {
        assert rest[j] in Elems(rest);
        if rest[j] != x {
          var k :| 0 <= k < |s[1..]| && s[1..][k] == rest[j];
          assert s[k + 1] == rest[j];
        }
      }
      assert Elems(s) == {s[0]} + Elems(s[1..]);
      assert Elems(r) == {s[0]} + Elems(rest);
      r
  }

  /** Python's `sorted(set(s))`: the distinct elements of `s` in increasing order. */
  function SortedSet(s: seq<string>): (r: seq<string>)
    ensures StrictlySorted(r) && Elems(r) == Elems(s)
  {
    if s == [] then []
    else
      var init := s[..|s| - 1];
      assert s == init + [s[|s| - 1]];
      assert Elems(s) == Elems(init) + {s[|s| - 1]};
      InsertSorted(s[|s| - 1], SortedSet(init))
  }

  /** A strictly sorted list is determined by its elements. */
  lemma {:induction false} SortedUnique(a: seq<string>, b: seq<string>)
    requires StrictlySorted(a) && StrictlySorted(b) && Elems(a) == Elems(b)
    ensures a == b
  {
    assert a != [] ==> a[0] in Elems(a);
    assert b != [] ==> b[0] in Elems(b);
    if a != [] && b != [] {
      assert a[0] in Elems(b) && b[0] in Elems(a);
      if a[0] != b[0] {
        var i :| 0 <= i < |a| && a[i] == b[0];
        var j :| 0 <= j < |b| && b[j] == a[0];
        LessTotal(a[0], b[0]);
        assert false;
      }
      assert Elems(a) == {a[0]} + Elems(a[1..]);
      assert Elems(b) == {b[0]} + Elems(b[1..]);
      forall k | 0 <= k < |a[1..]| ensures a[1..][k] != a[0] { assert Less(a[0], a[k + 1]); LessIrreflexive(a[0]); }
      forall k | 0 <= k < |b[1..]| ensures b[1..][k] != b[0] { assert Less(b[0], b[k + 1]); LessIrreflexive(b[0]); }
      assert a[0] !in Elems(a[1..]) && b[0] !in Elems(b[1..]);
      assert Elems(a[1..]) == Elems(b[1..]);
      SortedUnique(a[1..], b[1..]);
    }
  }

  /** `list.remove` never adds an element. */
  lemma RemoveFirstSub<T>(s: seq<T>, x: T)
    ensures forall y :: y in RemoveFirst(s, x) ==> y in s
  {
    forall y | y in RemoveFirst(s, x) ensures y in s {
      assert y in multiset(RemoveFirst(s, x));
    }
  }

  /** A duplicate-free list whose only element is `x` is `[x]`. */
  lemma NoDupsSingleton<T>(s: seq<T>, x: T)
    requires NoDups(s) && x in s && forall y :: y in s ==> y == x
    ensures s == [x]
  {
    forall i | 0 <= i < |s| ensures s[i] == x {
      assert s[i] in s;
    }
    NoDupsFirstTwo(s);
  }

  /** `[f(x) for x in xs]`, built from the front like the loops that append to a list. */
  function Map<T, U>(f: T --> U, xs: seq<T>): (r: seq<U>)
    requires forall i :: 0 <= i < |xs| ==> f.requires(xs[i])
    ensures |r| == |xs|
    ensures forall i :: 0 <= i < |xs| ==> r[i] == f(xs[i])
  {
    if xs == [] then []
    else Map(f, xs[..|xs| - 1]) + [f(xs[|xs| - 1])]
  }

  /** Mapping one more element appends its image. */
  lemma MapSnoc<T, U>(f: T --> U, xs: seq<T>, i: nat)
    requires i < |xs| && forall j :: 0 <= j < |xs| ==> f.requires(xs[j])
    ensures Map(f, xs[..i + 1]) == Map(f, xs[..i]) + [f(xs[i])]
  {
    assert xs[..i + 1][..i] == xs[..i];
  }

  /** The first two elements of a duplicate-free list differ; stated apart so that callers' contradictions stay out of their own bodies. */
  lemma NoDupsFirstTwo<T>(s: seq<T>)
    requires NoDups(s)
    ensures |s| > 1 ==> s[0] != s[1]
  {
  }

  /** Small facts about appending, stated once so that the edge-building methods need not rediscover them. */
  lemma AppendNil<T>(a: seq<T>)
    ensures a + [] == a
  {
  }

  lemma AppendOne<T>(a: T)
    ensures [] + [a] == [a]
  {
  }

  lemma AppendPair<T>(a: T, b: T)
    ensures [a] + [b] == [a, b]
  {
  }

  /** Appending is associative. */
  lemma AppendSnoc<T>(a: seq<T>, b: seq<T>, c: T)
    ensures (a + b) + [c] == a + (b + [c])
  {
  }
}
