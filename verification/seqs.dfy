/**
  Sequence helpers shared by the round engine, the results screen and the
  element-list editor: distinctness, order-preserving filters, flattening and
  Java's `List.remove(Object)`.
 */
module Seqs {

  /** A value that may be absent. */
  datatype Option<T> = None | Some(value: T)

  /** No value occurs twice. */
  predicate Distinct<T(==)>(s: seq<T>) {
    forall i, j :: 0 <= i < j < |s| ==> s[i] != s[j]
  }

  /** The elements of `s` whose membership in `ref` is `keep`, in their order in `s`
      (`List.contains` on a plain list, so duplicates in `s` are each kept). */
  function FilterIn<T(==)>(s: seq<T>, ref: seq<T>, keep: bool): (r: seq<T>)
    ensures |r| <= |s|
  {
    if s == [] then []
    else (if (s[0] in ref) == keep then [s[0]] else []) + FilterIn(s[1..], ref, keep)
  }

  /** A value survives the filter exactly when it occurs in `s` and its
      membership in `ref` is `keep`; each survivor is counted at most as often as
      in `s`. */
  lemma {:induction false} FilterInMembers<T(!new)>(s: seq<T>, ref: seq<T>, keep: bool)
    ensures forall x :: x in FilterIn(s, ref, keep) <==> x in s && (x in ref) == keep
    ensures multiset(FilterIn(s, ref, keep)) <= multiset(s)
  {
    if s != [] {
      var head := if (s[0] in ref) == keep then [s[0]] else [];
      var rest := FilterIn(s[1..], ref, keep);
      FilterInMembers(s[1..], ref, keep);
      assert FilterIn(s, ref, keep) == head + rest;
      assert s == [s[0]] + s[1..];
      assert multiset(head) <= multiset([s[0]]);
      assert multiset(head + rest) == multiset(head) + multiset(rest);
      assert forall x :: x in head + rest <==> x in head || x in rest;
    }
  }

  lemma {:induction false} FilterInAppend<T(!new)>(a: seq<T>, b: seq<T>, ref: seq<T>, keep: bool)
    ensures FilterIn(a + b, ref, keep) == FilterIn(a, ref, keep) + FilterIn(b, ref, keep)
  {
    if a == [] {
      assert a + b == b;
    } else {
      var ab := a + b;
      assert ab[0] == a[0] && ab[1..] == a[1..] + b;
      FilterInAppend(a[1..], b, ref, keep);
      var head := if (a[0] in ref) == keep then [a[0]] else [];
      calc {
        FilterIn(ab, ref, keep);
        head + FilterIn(a[1..] + b, ref, keep);
        head + (FilterIn(a[1..], ref, keep) + FilterIn(b, ref, keep));
        { AppendAssoc(head, FilterIn(a[1..], ref, keep), FilterIn(b, ref, keep)); }
        (head + FilterIn(a[1..], ref, keep)) + FilterIn(b, ref, keep);
      }
    }
  }

  /** Filtering one more element keeps it or not, after what was kept before. */
  lemma FilterInSnoc<T(!new)>(s: seq<T>, x: T, ref: seq<T>, keep: bool)
    ensures FilterIn(s + [x], ref, keep) == FilterIn(s, ref, keep) + (if (x in ref) == keep then [x] else [])
  {
    FilterInAppend(s, [x], ref, keep);
    assert [x][1..] == [];
  }

  /** Filtering in and filtering out split `s` into two parts that together hold
      every element of `s` with its multiplicity. */
  lemma {:induction false} FilterInPartition<T(!new)>(s: seq<T>, ref: seq<T>)
    ensures multiset(FilterIn(s, ref, true)) + multiset(FilterIn(s, ref, false)) == multiset(s)
    ensures |FilterIn(s, ref, true)| + |FilterIn(s, ref, false)| == |s|
  {
    if s != [] {
      FilterInPartition(s[1..], ref);
      assert s == [s[0]] + s[1..];
    }
  }

  /** Every element kept when all of `s` lies in `ref`. */
  lemma {:induction false} FilterInAll<T(!new)>(s: seq<T>, ref: seq<T>)
    requires forall i :: 0 <= i < |s| ==> s[i] in ref
    ensures FilterIn(s, ref, true) == s
    ensures FilterIn(s, ref, false) == []
  {
    if s != [] {
      FilterInAll(s[1..], ref);
      assert s == [s[0]] + s[1..];
    }
  }

  /** The pieces of `ss` one after another. */
  function Concat<T>(ss: seq<seq<T>>): seq<T> {
    if ss == [] then [] else ss[0] + Concat(ss[1..])
  }

  lemma {:induction false} ConcatAppend<T>(a: seq<seq<T>>, b: seq<seq<T>>)
    ensures Concat(a + b) == Concat(a) + Concat(b)
  {
    if a == [] {
      assert a + b == b;
    } else {
      assert (a + b)[1..] == a[1..] + b;
      ConcatAppend(a[1..], b);
    }
  }

  lemma AppendAssoc<T>(x: seq<T>, y: seq<T>, z: seq<T>)
    ensures x + (y + z) == (x + y) + z
  {
  }

  /** `gaps[0] + parts[0] + gaps[1] + ... + parts[n - 1] + gaps[n]`: the parts in
      order, with a gap before, between and after them. */
  function Weave<T>(gaps: seq<seq<T>>, parts: seq<seq<T>>): seq<T>
    requires |gaps| == |parts| + 1
    decreases |parts|
  {
    if parts == [] then gaps[0] else gaps[0] + parts[0] + Weave(gaps[1..], parts[1..])
  }

  /** Widening the first gap widens the weave at its front. */
  lemma WeaveFirstGap<T>(x: seq<T>, gaps: seq<seq<T>>, parts: seq<seq<T>>)
    requires |gaps| == |parts| + 1
    ensures Weave([x + gaps[0]] + gaps[1..], parts) == x + Weave(gaps, parts)
  {
    var g := [x + gaps[0]] + gaps[1..];
    assert g[1..] == gaps[1..];
  }

  /** An empty last part adds nothing: the weave is the same with that part
      gone and the two gaps around it merged. */
  lemma {:induction false} WeaveEmptyLast<T>(gaps: seq<seq<T>>, parts: seq<seq<T>>)
    requires |gaps| == |parts| + 1 && parts != [] && parts[|parts| - 1] == []
    ensures Weave(gaps[..|parts| - 1] + [gaps[|parts| - 1] + gaps[|parts|]], parts[..|parts| - 1])
            == Weave(gaps, parts)
    decreases |parts|
  {
    var m := |parts| - 1;
    var merged := gaps[..m] + [gaps[m] + gaps[m + 1]];
    if m == 0 {
      assert Weave(gaps, parts) == gaps[0] + [] + Weave(gaps[1..], []);
    } else {
      WeaveEmptyLast(gaps[1..], parts[1..]);
      assert merged[1..] == gaps[1..][..m - 1] + [gaps[1..][m - 1] + gaps[1..][m]];
      assert parts[..m][1..] == parts[1..][..m - 1];
    }
  }

  /** `List.remove(Object)`: drops the first element equal to `x`, if any. */
  function RemoveFirst<T(==)>(s: seq<T>, x: T): (r: seq<T>)
    ensures x in s ==> |r| == |s| - 1
    ensures x !in s ==> r == s
  {
    if s == [] then []
    else if s[0] == x then s[1..]
    else [s[0]] + RemoveFirst(s[1..], x)
  }

  /** `List.remove` takes exactly one copy of a value it finds. */
  lemma {:induction false} RemoveFirstBag<T>(s: seq<T>, x: T)
    ensures x in s ==> multiset(RemoveFirst(s, x)) == multiset(s) - multiset{x}
  {
    if s != [] {
      assert s == [s[0]] + s[1..];
      if s[0] != x {
        RemoveFirstBag(s[1..], x);
      }
    }
  }

  /** Removing the first `x` from `s` cuts it out at its first position. */
  lemma {:induction false} RemoveFirstAt<T>(s: seq<T>, x: T, i: nat)
    requires i < |s| && s[i] == x && x !in s[..i]
    ensures RemoveFirst(s, x) == s[..i] + s[i + 1..]
  {
    if i > 0 {
      assert s[0] in s[..i];
      assert s[1..][..i - 1] == s[1..i];
      RemoveFirstAt(s[1..], x, i - 1);
      assert s[..i] == [s[0]] + s[1..i];
    }
  }

  /** The first `x` of `a + b` lies in `a` when `a` holds one. */
  lemma {:induction false} RemoveFirstAppend<T>(a: seq<T>, b: seq<T>, x: T)
    requires x in a
    ensures RemoveFirst(a + b, x) == RemoveFirst(a, x) + b
  {
    assert (a + b)[0] == a[0];
    if a[0] != x {
      assert (a + b)[1..] == a[1..] + b;
      RemoveFirstAppend(a[1..], b, x);
    } else {
      assert (a + b)[1..] == a[1..] + b;
    }
  }

  /** A duplicate-free sequence holds each value at most once. */
  lemma {:induction false} DistinctCounts<T>(s: seq<T>)
    requires Distinct(s)
    ensures forall x :: multiset(s)[x] <= 1
  {
    if s != [] {
      DistinctCounts(s[1..]);
      assert s == [s[0]] + s[1..];
      assert forall k :: 0 <= k < |s[1..]| ==> s[1..][k] == s[k + 1] != s[0];
    }
  }

  /** Two equal entries at different positions mean the value is counted twice. */
  lemma RepeatCounted<T>(s: seq<T>, i: nat, j: nat)
    requires i < j < |s| && s[i] == s[j]
    ensures multiset(s)[s[i]] >= 2
  {
    assert s == s[..j] + s[j..];
    assert s[i] in s[..j];
    assert s[j] in s[j..];
  }

  /** A sequence in which no value is counted twice is duplicate-free. */
  lemma CountsDistinct<T>(s: seq<T>)
    requires forall x :: multiset(s)[x] <= 1
    ensures Distinct(s)
  {
    forall i, j | 0 <= i < j < |s|
      ensures s[i] != s[j]
    {
      if s[i] == s[j] {
        RepeatCounted(s, i, j);
      }
    }
  }

  /** A sub-bag of a duplicate-free sequence is duplicate-free. */
  lemma DistinctSubBag<T>(a: seq<T>, b: seq<T>)
    requires multiset(a) <= multiset(b)
    requires Distinct(b)
    ensures Distinct(a)
  {
    DistinctCounts(b);
    CountsDistinct(a);
  }

  /** The values occurring in `s`. */
  function Elems<T>(s: seq<T>): set<T> {
    set x | x in s
  }

  /** A sequence has at least as many entries as distinct values, and exactly as
      many when it is duplicate-free. */
  lemma {:induction false} ElemsCard<T>(s: seq<T>)
    ensures |Elems(s)| <= |s|
    ensures Distinct(s) ==> |Elems(s)| == |s|
  {
    if s != [] {
      ElemsCard(s[1..]);
      assert Elems(s) == {s[0]} + Elems(s[1..]);
      if Distinct(s) {
        assert Distinct(s[1..]);
        assert s[0] !in Elems(s[1..]);
      }
    }
  }

  lemma SubsetCard<T>(a: set<T>, b: set<T>)
    requires a <= b
    ensures |a| <= |b|
  {
    assert b == a + (b - a);
  }

  /** Removing the first element of a sub-bag `s` from `t`: that element is in
      `t`, and what is left of `s` is a sub-bag of what is left of `t`. */
  lemma BagStep<T>(s: seq<T>, t: seq<T>)
    requires s != [] && multiset(s) <= multiset(t)
    ensures s[0] in t
    ensures multiset(s[1..]) <= multiset(RemoveFirst(t, s[0]))
    ensures multiset(RemoveFirst(t, s[0])) - multiset(s[1..]) == multiset(t) - multiset(s)
  {
    RemoveFirstBag(t, s[0]);
    assert s == [s[0]] + s[1..];
    assert s[0] in multiset(s);
  }

  /** `List.remove` takes nothing but the removed element away. */
  lemma RemoveFirstSubBag<T>(s: seq<T>, x: T)
    ensures multiset(RemoveFirst(s, x)) <= multiset(s)
  {
    RemoveFirstBag(s, x);
  }

  /** `List.remove` on a duplicate-free sequence removes the value entirely and
      keeps the rest duplicate-free. */
  lemma {:induction false} RemoveFirstDistinct<T>(s: seq<T>, x: T)
    requires Distinct(s)
    ensures Distinct(RemoveFirst(s, x))
    ensures Elems(RemoveFirst(s, x)) == Elems(s) - {x}
  {
    if s != [] {
      var tail := s[1..];
      assert Distinct(tail);
      ElemsCons(s[0], tail);
      assert s == [s[0]] + tail;
      assert s[0] !in tail;
      if s[0] != x {
        RemoveFirstDistinct(tail, x);
        var rest := RemoveFirst(tail, x);
        ElemsCons(s[0], rest);
        assert s[0] !in Elems(rest);
        DistinctCons(s[0], rest);
      }
    }
  }

  lemma ElemsCons<T>(x: T, s: seq<T>)
    ensures Elems([x] + s) == {x} + Elems(s)
  {
    assert forall y :: y in [x] + s <==> y == x || y in s;
  }

  lemma DistinctCons<T>(x: T, s: seq<T>)
    requires Distinct(s) && x !in Elems(s)
    ensures Distinct([x] + s)
  {
    forall i, j | 0 <= i < j < |[x] + s|
      ensures ([x] + s)[i] != ([x] + s)[j]
    {
      assert ([x] + s)[j] == s[j - 1];
      if i == 0 {
        assert s[j - 1] in Elems(s);
      } else {
        assert ([x] + s)[i] == s[i - 1];
      }
    }
  }

  /** A sequence `reps` holding every value of `s` once less than `s` does is a
      sub-bag of `s`, and taking it away leaves every value of `s` exactly once. */
  lemma RepeatsBag<T>(s: seq<T>, reps: seq<T>)
    requires forall x :: multiset(reps)[x] == multiset(s)[x] - (if x in s then 1 else 0)
    ensures multiset(reps) <= multiset(s)
    ensures forall x :: (multiset(s) - multiset(reps))[x] == if x in s then 1 else 0
  {
    forall x
      ensures multiset(reps)[x] <= multiset(s)[x]
      ensures (multiset(s) - multiset(reps))[x] == if x in s then 1 else 0
    {
      assert x in s <==> x in multiset(s);
    }
  }

  /** A sequence holding each value of `s` exactly once is duplicate-free and
      holds the values of `s`. */
  lemma OnceEach<T>(s: seq<T>, r: seq<T>)
    requires forall x :: multiset(r)[x] == if x in s then 1 else 0
    ensures Distinct(r) && Elems(r) == Elems(s)
  {
    CountsDistinct(r);
    forall x
      ensures x in Elems(r) <==> x in Elems(s)
    {
      assert x in r <==> x in multiset(r);
    }
  }

  /** The repeats of a duplicate-free sequence with one value appended: that
      value alone if it was already present, nothing otherwise. */
  lemma AppendRepeat<T>(s: seq<T>, u: T, reps: seq<T>)
    requires Distinct(s)
    requires forall x :: multiset(reps)[x] == multiset(s + [u])[x] - (if x in s + [u] then 1 else 0)
    ensures u in s ==> reps == [u]
    ensures u !in s ==> reps == []
  {
    DistinctCounts(s);
    forall x
      ensures multiset(reps)[x] == if x == u && u in s then 1 else 0
    {
      assert x in s <==> x in multiset(s);
    }
    if u in s {
      assert multiset(reps) == multiset{u};
      assert |reps| == 1 && reps[0] in multiset(reps);
    } else {
      assert multiset(reps) == multiset{};
    }
  }

  /** A duplicate-free sequence has no value counted beyond its first occurrence. */
  lemma NoRepeats<T>(s: seq<T>, reps: seq<T>)
    requires Distinct(s)
    requires forall x :: multiset(reps)[x] == multiset(s)[x] - (if x in s then 1 else 0)
    ensures reps == []
  {
    DistinctCounts(s);
    forall x
      ensures multiset(reps)[x] == 0
    {
      assert x in s <==> x in multiset(s);
    }
    assert multiset(reps) == multiset{};
  }
}
