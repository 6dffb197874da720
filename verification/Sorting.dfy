/** Stable sorting by a strict weak order, the behaviour the program takes from Go's `sort` package. */
module Sorting {

  ghost predicate StrictWeak<T(!new)>(less: (T, T) -> bool) {
    && (forall a :: !less(a, a))
    && (forall a, b :: less(a, b) ==> !less(b, a))
    && (forall a, b, c :: less(a, b) && less(b, c) ==> less(a, c))
    && (forall a, b, c :: !less(a, b) && !less(b, c) ==> !less(a, c))
  }

  /** No element is less than an earlier one. */
  ghost predicate SortedBy<T(!new)>(less: (T, T) -> bool, s: seq<T>) {
    forall i, j | 0 <= i < j < |s| :: !less(s[j], s[i])
  }

  /** Put `x` before everything that is not less than it. */
  function Insert<T>(less: (T, T) -> bool, x: T, s: seq<T>): (r: seq<T>)
    ensures |r| == |s| + 1
  {
    if s == [] || !less(s[0], x) then [x] + s else [s[0]] + Insert(less, x, s[1..])
  }

  /** The stable sort: elements that compare equal keep their order. */
  function Sort<T>(less: (T, T) -> bool, s: seq<T>): (r: seq<T>)
    ensures |r| == |s|
  {
    if s == [] then [] else Insert(less, s[0], Sort(less, s[1..]))
  }

  function Filter<T>(keep: T -> bool, s: seq<T>): seq<T> {
    if s == [] then [] else (if keep(s[0]) then [s[0]] else []) + Filter(keep, s[1..])
  }

  lemma {:induction false} InsertMultiset<T>(less: (T, T) -> bool, x: T, s: seq<T>)
    ensures multiset(Insert(less, x, s)) == multiset{x} + multiset(s)
  {
    if !(s == [] || !less(s[0], x)) {
      InsertMultiset(less, x, s[1..]);
      assert s == [s[0]] + s[1..];
    }
  }

  lemma {:induction false} SortMultiset<T>(less: (T, T) -> bool, s: seq<T>)
    ensures multiset(Sort(less, s)) == multiset(s)
  {
    if s != [] {
      SortMultiset(less, s[1..]);
      InsertMultiset(less, s[0], Sort(less, s[1..]));
      assert s == [s[0]] + s[1..];
    }
  }

  lemma SortMembers<T(!new)>(less: (T, T) -> bool, s: seq<T>)
    ensures forall x :: x in Sort(less, s) <==> x in s
  {
    SortMultiset(less, s);
    assert forall x :: x in Sort(less, s) <==> x in multiset(Sort(less, s));
    assert forall x :: x in s <==> x in multiset(s);
  }

  lemma {:induction false} InsertSorted<T(!new)>(less: (T, T) -> bool, x: T, s: seq<T>)
    requires StrictWeak(less) && SortedBy(less, s)
    ensures SortedBy(less, Insert(less, x, s))
  {
    if s == [] || !less(s[0], x) {
      var r := [x] + s;
      forall i, j | 0 <= i < j < |r|
        ensures !less(r[j], r[i])
      {
        if i == 0 && j > 1 { assert !less(s[j - 1], s[0]); }
      }
    } else {
      InsertSorted(less, x, s[1..]);
      var t := Insert(less, x, s[1..]);
      InsertMultiset(less, x, s[1..]);
      var r := [s[0]] + t;
      forall i, j | 0 <= i < j < |r|
        ensures !less(r[j], r[i])
      {
        if i == 0 {
          assert t[j - 1] in multiset(t);
          if t[j - 1] != x {
            assert t[j - 1] in s[1..];
            var k :| 0 <= k < |s[1..]| && s[1..][k] == t[j - 1];
            assert !less(s[k + 1], s[0]);
          }
        }
      }
    }
  }

  lemma {:induction false} SortSorted<T(!new)>(less: (T, T) -> bool, s: seq<T>)
    requires StrictWeak(less)
    ensures SortedBy(less, Sort(less, s))
  {
    if s != [] {
      SortSorted(less, s[1..]);
      InsertSorted(less, s[0], Sort(less, s[1..]));
    }
  }

  /** Two sorted lists of the same elements agree position by position up to equal comparison. */
  lemma {:induction false} SortedAgree<T(!new)>(less: (T, T) -> bool, s: seq<T>, t: seq<T>)
    requires StrictWeak(less) && SortedBy(less, s) && SortedBy(less, t) && multiset(s) == multiset(t)
    ensures |s| == |t|
    ensures forall i | 0 <= i < |s| :: !less(s[i], t[i]) && !less(t[i], s[i])
  {
    SameLength(s, t);
    forall i | 0 <= i < |s|
      ensures !less(s[i], t[i]) && !less(t[i], s[i])
    {
      NotLessAt(less, s, t, i);
      NotLessAt(less, t, s, i);
    }
  }

  lemma SameLength<T>(s: seq<T>, t: seq<T>)
    requires multiset(s) == multiset(t)
    ensures |s| == |t|
  {
    assert |s| == |multiset(s)| && |t| == |multiset(t)|;
  }

  /** The smallest i + 1 elements of `s` cannot all be found among the first i of `t`. */
  lemma NotLessAt<T(!new)>(less: (T, T) -> bool, s: seq<T>, t: seq<T>, i: nat)
    requires StrictWeak(less) && SortedBy(less, s) && SortedBy(less, t) && multiset(s) == multiset(t)
    requires i < |s| && i < |t|
    ensures !less(s[i], t[i])
  {
    if less(s[i], t[i]) {
      forall x | x in multiset(s[..i + 1])
        ensures multiset(s[..i + 1])[x] <= multiset(t[..i])[x]
      {
        assert x in s[..i + 1];
        var k :| 0 <= k < i + 1 && s[k] == x;
        assert !less(s[i], s[k]);
        forall j | i <= j < |t|
          ensures t[j] != x
        {
          assert !less(t[j], t[i]);
        }
        assert x !in t[i..];
        assert multiset(t[i..])[x] == 0;
        assert t == t[..i] + t[i..];
        assert s == s[..i + 1] + s[i + 1..];
        assert multiset(s)[x] == multiset(s[..i + 1])[x] + multiset(s[i + 1..])[x];
      }
      assert |multiset(s[..i + 1])| == i + 1 && |multiset(t[..i])| == i;
      SubMultisetSize(multiset(s[..i + 1]), multiset(t[..i]));
    }
  }

  lemma SubMultisetSize<T>(a: multiset<T>, b: multiset<T>)
    requires a <= b
    ensures |a| <= |b|
  {
    assert b == a + (b - a);
  }

  /** Elements that compare equal only if they are equal leave one sorted order. */
  lemma SortUnique<T(!new)>(less: (T, T) -> bool, s: seq<T>, t: seq<T>)
    requires StrictWeak(less) && multiset(s) == multiset(t)
    requires forall a, b | a in s && b in s :: a == b || less(a, b) || less(b, a)
    ensures Sort(less, s) == Sort(less, t)
  {
    SortMultiset(less, s);
    SortMultiset(less, t);
    SortSorted(less, s);
    SortSorted(less, t);
    SortedAgree(less, Sort(less, s), Sort(less, t));
    var u, v := Sort(less, s), Sort(less, t);
    forall i | 0 <= i < |u|
      ensures u[i] == v[i]
    {
      assert u[i] in multiset(u) && v[i] in multiset(v);
      assert u[i] in multiset(s) && v[i] in multiset(s);
    }
  }

  // ---------- stable sorting commutes with filtering ----------

  lemma {:induction false} FilterMember<T(!new)>(keep: T -> bool, s: seq<T>)
    ensures forall x :: x in Filter(keep, s) <==> x in s && keep(x)
  {
    if s != [] {
      FilterMember(keep, s[1..]);
      assert s == [s[0]] + s[1..];
    }
  }

  lemma {:induction false} FilterSame<T>(keep: T -> bool, same: T -> bool, s: seq<T>)
    requires forall x | x in s :: keep(x) == same(x)
    ensures Filter(keep, s) == Filter(same, s)
  {
    if s != [] {
      assert s[0] in s;
      FilterSame(keep, same, s[1..]);
    }
  }

  lemma {:induction false} FilterConcat<T>(keep: T -> bool, s: seq<T>, t: seq<T>)
    ensures Filter(keep, s + t) == Filter(keep, s) + Filter(keep, t)
  {
    if s == [] {
      assert s + t == t;
    } else {
      FilterConcat(keep, s[1..], t);
      FilterFront(keep, s, t);
      Regroup(if keep(s[0]) then [s[0]] else [], Filter(keep, s[1..]), Filter(keep, t));
    }
  }

  lemma FilterFront<T>(keep: T -> bool, s: seq<T>, t: seq<T>)
    requires s != []
    ensures Filter(keep, s + t) == (if keep(s[0]) then [s[0]] else []) + Filter(keep, s[1..] + t)
  {
    assert (s + t)[0] == s[0] && (s + t)[1..] == s[1..] + t;
  }

  lemma Regroup<T>(a: seq<T>, b: seq<T>, c: seq<T>)
    ensures a + (b + c) == a + b + c
  {
  }

  /** Filtering one more element. */
  lemma FilterAppend<T>(keep: T -> bool, s: seq<T>, x: T)
    ensures Filter(keep, s + [x]) == Filter(keep, s) + if keep(x) then [x] else []
  {
    FilterConcat(keep, s, [x]);
    assert [x][1..] == [];
  }

  /** Filtering a front that is one element longer. */
  lemma FilterNext<T>(keep: T -> bool, s: seq<T>, i: nat)
    requires i < |s|
    ensures Filter(keep, s[..i + 1]) == Filter(keep, s[..i]) + if keep(s[i]) then [s[i]] else []
  {
    assert s[..i + 1] == s[..i] + [s[i]];
    FilterAppend(keep, s[..i], s[i]);
  }

  lemma FilterStep<T>(keep: T -> bool, s: seq<T>)
    requires s != []
    ensures Filter(keep, s) == if keep(s[0]) then [s[0]] + Filter(keep, s[1..]) else Filter(keep, s[1..])
  {
  }

  lemma {:induction false} FilterCons<T>(keep: T -> bool, x: T, s: seq<T>)
    ensures Filter(keep, [x] + s) == if keep(x) then [x] + Filter(keep, s) else Filter(keep, s)
  {
    assert ([x] + s)[0] == x && ([x] + s)[1..] == s;
  }

  /** From the first element that is not less than `x` on, no element is. */
  ghost predicate CutBy<T>(less: (T, T) -> bool, x: T, s: seq<T>) {
    forall i, j | 0 <= i < j < |s| && !less(s[i], x) :: !less(s[j], x)
  }

  lemma SortedCut<T(!new)>(less: (T, T) -> bool, x: T, s: seq<T>)
    requires StrictWeak(less) && SortedBy(less, s)
    ensures CutBy(less, x, s)
  {
  }

  lemma {:induction false} FilterInsert<T(!new)>(less: (T, T) -> bool, keep: T -> bool, x: T, s: seq<T>)
    requires CutBy(less, x, s)
    ensures Filter(keep, Insert(less, x, s)) ==
            if keep(x) then Insert(less, x, Filter(keep, s)) else Filter(keep, s)
  {
    if s == [] || !less(s[0], x) {
      FilterCons(keep, x, s);
      var f := Filter(keep, s);
      if f != [] {
        FilterMember(keep, s);
        assert f[0] in Filter(keep, s);
        assert f[0] in s;
        assert !less(f[0], x);
      }
    } else {
      FilterInsert(less, keep, x, s[1..]);
      FilterCons(keep, s[0], Insert(less, x, s[1..]));
      FilterCons(keep, s[0], s[1..]);
      assert [s[0]] + s[1..] == s;
      var f := Filter(keep, s[1..]);
      assert ([s[0]] + f)[0] == s[0] && ([s[0]] + f)[1..] == f;
    }
  }

  lemma {:induction false} FilterSort<T(!new)>(less: (T, T) -> bool, keep: T -> bool, s: seq<T>)
    requires StrictWeak(less)
    ensures Filter(keep, Sort(less, s)) == Sort(less, Filter(keep, s))
  {
    if s != [] {
      FilterSort(less, keep, s[1..]);
      SortSorted(less, s[1..]);
      SortedCut(less, s[0], Sort(less, s[1..]));
      FilterInsert(less, keep, s[0], Sort(less, s[1..]));
      FilterCons(keep, s[0], s[1..]);
      assert [s[0]] + s[1..] == s;
      var f := Filter(keep, s[1..]);
      assert ([s[0]] + f)[0] == s[0] && ([s[0]] + f)[1..] == f;
    }
  }

  lemma {:induction false} FilterMultiset<T>(keep: T -> bool, s: seq<T>, x: T)
    ensures multiset(Filter(keep, s))[x] == if keep(x) then multiset(s)[x] else 0
  {
    if s != [] {
      FilterMultiset(keep, s[1..], x);
      assert s == [s[0]] + s[1..];
    }
  }

  lemma FilterPermuted<T(!new)>(keep: T -> bool, s: seq<T>, t: seq<T>)
    requires multiset(s) == multiset(t)
    ensures multiset(Filter(keep, s)) == multiset(Filter(keep, t))
  {
    var a, b := multiset(Filter(keep, s)), multiset(Filter(keep, t));
    forall x: T
      ensures a[x] == b[x]
    {
      FilterMultiset(keep, s, x);
      FilterMultiset(keep, t, x);
    }
    assert a == b;
  }

  // ---------- gathering the results of many calls ----------

  /** The results of `f` on all elements, one after the other. */
  function Collect<A, B>(f: A -> seq<B>, s: seq<A>): seq<B> {
    if s == [] then [] else f(s[0]) + Collect(f, s[1..])
  }

  /** A stable sort leaves elements that compare equal where they are. */
  lemma {:induction false} SortTies<T(!new)>(less: (T, T) -> bool, s: seq<T>)
    requires forall x, y | x in s && y in s :: !less(x, y)
    ensures Sort(less, s) == s
  {
    if s != [] {
      var rest := s[1..];
      SortTies(less, rest);
      assert s[0] in s && (rest != [] ==> rest[0] in s);
      assert [s[0]] + rest == s;
    }
  }

  /** Collecting over one more element. */
  lemma CollectNext<A, B>(f: A -> seq<B>, s: seq<A>, i: nat)
    requires i < |s|
    ensures Collect(f, s[..i + 1]) == Collect(f, s[..i]) + f(s[i])
  {
    assert s[..i + 1] == s[..i] + [s[i]];
    CollectConcat(f, s[..i], [s[i]]);
    CollectOne(f, s[i]);
  }

  lemma {:induction false} CollectConcat<A, B>(f: A -> seq<B>, s: seq<A>, t: seq<A>)
    ensures Collect(f, s + t) == Collect(f, s) + Collect(f, t)
  {
    if s == [] {
      assert s + t == t;
    } else {
      assert (s + t)[0] == s[0] && (s + t)[1..] == s[1..] + t;
      CollectConcat(f, s[1..], t);
    }
  }

  lemma CollectCons<A, B>(f: A -> seq<B>, x: A, s: seq<A>)
    ensures Collect(f, [x] + s) == f(x) + Collect(f, s)
  {
    assert ([x] + s)[0] == x && ([x] + s)[1..] == s;
  }

  lemma CollectOne<A, B>(f: A -> seq<B>, x: A)
    ensures Collect(f, [x]) == f(x)
  {
    assert [x][1..] == [];
  }

  /** Where the first element of `s` is in the permutation `t`. */
  lemma Pick<T>(s: seq<T>, t: seq<T>) returns (j: nat)
    requires s != [] && multiset(s) == multiset(t)
    ensures j < |t| && t[j] == s[0] && multiset(s[1..]) == multiset(t[..j] + t[j + 1..])
  {
    assert s[0] in multiset(t);
    j :| 0 <= j < |t| && t[j] == s[0];
    assert s == [s[0]] + s[1..];
    var after := [t[j]] + t[j + 1..];
    assert t == t[..j] + after;
    assert multiset(after) == multiset{t[j]} + multiset(t[j + 1..]);
    var rest := multiset(t[..j]) + multiset(t[j + 1..]);
    assert multiset(s) == multiset{s[0]} + multiset(s[1..]);
    assert multiset(t) == multiset{s[0]} + rest;
    assert multiset(s[1..]) == multiset(s) - multiset{s[0]} == rest;
  }

  lemma CollectAt<A, B>(f: A -> seq<B>, t: seq<A>, j: nat)
    requires j < |t|
    ensures multiset(Collect(f, t)) == multiset(f(t[j])) + multiset(Collect(f, t[..j] + t[j + 1..]))
  {
    var before, after := t[..j], t[j + 1..];
    assert t == before + ([t[j]] + after);
    CollectConcat(f, before, after);
    CollectConcat(f, before, [t[j]] + after);
    CollectConcat(f, [t[j]], after);
    CollectOne(f, t[j]);
  }

  lemma {:induction false} CollectPermuted<A, B>(f: A -> seq<B>, s: seq<A>, t: seq<A>)
    requires multiset(s) == multiset(t)
    ensures multiset(Collect(f, s)) == multiset(Collect(f, t))
  {
    SameLength(s, t);
    if s != [] {
      var j := Pick(s, t);
      CollectPermuted(f, s[1..], t[..j] + t[j + 1..]);
      CollectAt(f, t, j);
    }
  }

  /** Filtering what is collected is collecting what is filtered. */
  lemma {:induction false} FilterCollect<A, B>(keep: B -> bool, f: A -> seq<B>, h: A -> seq<B>, s: seq<A>)
    requires forall x | x in s :: Filter(keep, f(x)) == h(x)
    ensures Filter(keep, Collect(f, s)) == Collect(h, s)
  {
    if s != [] {
      assert s[0] in s;
      FilterCollect(keep, f, h, s[1..]);
      FilterConcat(keep, f(s[0]), Collect(f, s[1..]));
    }
  }

  /** Changes that do not touch what the filter asks commute with it. */
  lemma {:induction false} FilterChange<T>(keep: T -> bool, f: T -> seq<T>, s: seq<T>)
    requires forall x | x in s :: Filter(keep, f(x)) == if keep(x) then f(x) else []
    ensures Filter(keep, Collect(f, s)) == Collect(f, Filter(keep, s))
  {
    if s != [] {
      var x, rest := s[0], s[1..];
      assert x in s;
      FilterChange(keep, f, rest);
      FilterConcat(keep, f(x), Collect(f, rest));
      FilterStep(keep, s);
      CollectCons(f, x, Filter(keep, rest));
    }
  }

  lemma {:induction false} FilterUniform<T>(keep: T -> bool, s: seq<T>, kept: bool)
    requires forall x | x in s :: keep(x) == kept
    ensures Filter(keep, s) == if kept then s else []
  {
    if s != [] {
      assert s[0] in s;
      FilterUniform(keep, s[1..], kept);
    }
  }
}
