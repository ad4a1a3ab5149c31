/** Sorting by a strict order given as a function: a sort, and the uniqueness of its result. */
module Sorting {

  /** `less` ranks any two elements consistently; elements it does not separate tie. */
  ghost predicate StrictWeak<T(!new)>(less: (T, T) -> bool) {
    && (forall a, b | less(a, b) :: !less(b, a))
    && (forall a, b, c | !less(b, a) && !less(c, b) :: !less(c, a))
  }

  /** Only equal elements tie. */
  ghost predicate Total<T(!new)>(less: (T, T) -> bool) {
    StrictWeak(less) && forall a, b | !less(a, b) && !less(b, a) :: a == b
  }

  ghost predicate SortedBy<T>(less: (T, T) -> bool, s: seq<T>) {
    forall i, j | 0 <= i < j < |s| :: !less(s[j], s[i])
  }

  function InsertBy<T>(less: (T, T) -> bool, s: seq<T>, x: T): seq<T> {
    if s == [] || !less(x, s[|s| - 1]) then s + [x]
    else InsertBy(less, s[..|s| - 1], x) + [s[|s| - 1]]
  }

  function SortBy<T>(less: (T, T) -> bool, s: seq<T>): seq<T> {
    if s == [] then [] else InsertBy(less, SortBy(less, s[..|s| - 1]), s[|s| - 1])
  }

  lemma SortedSnoc<T(!new)>(less: (T, T) -> bool, s: seq<T>, x: T)
    requires StrictWeak(less) && SortedBy(less, s)
    requires s == [] || !less(x, s[|s| - 1])
    ensures SortedBy(less, s + [x])
  {
    forall i | 0 <= i < |s| ensures !less(x, s[i]) {
      if i < |s| - 1 {
        assert !less(s[|s| - 1], s[i]);
      }
    }
  }

  /** Whatever `x` was put among, `last` may stay behind it. */
  lemma SortedUnder<T(!new)>(less: (T, T) -> bool, t: seq<T>, init: seq<T>, x: T, last: T)
    requires StrictWeak(less) && SortedBy(less, t) && SortedBy(less, init + [last]) && less(x, last)
    requires multiset(t) == multiset(init) + multiset{x}
    ensures SortedBy(less, t + [last])
  {
    forall i | 0 <= i < |t| ensures !less(last, t[i]) {
      assert t[i] in multiset(t);
      if t[i] != x {
        var k :| 0 <= k < |init| && init[k] == t[i];
        assert (init + [last])[k] == t[i] && (init + [last])[|init|] == last;
      }
    }
  }

  lemma {:induction false} InsertBySorts<T(!new)>(less: (T, T) -> bool, s: seq<T>, x: T)
    requires StrictWeak(less) && SortedBy(less, s)
    ensures SortedBy(less, InsertBy(less, s, x)) && multiset(InsertBy(less, s, x)) == multiset(s) + multiset{x}
  {
    if s == [] || !less(x, s[|s| - 1]) {
      SortedSnoc(less, s, x);
    } else {
      var init, last := s[..|s| - 1], s[|s| - 1];
      assert s == init + [last];
      InsertBySorts(less, init, x);
      SortedUnder(less, InsertBy(less, init, x), init, x, last);
    }
  }

  /** The result is sorted and has the same elements. */
  lemma {:induction false} SortBySorts<T(!new)>(less: (T, T) -> bool, s: seq<T>)
    requires StrictWeak(less)
    ensures SortedBy(less, SortBy(less, s)) && multiset(SortBy(less, s)) == multiset(s)
  {
    if s != [] {
      var init, last := s[..|s| - 1], s[|s| - 1];
      assert s == init + [last];
      SortBySorts(less, init);
      InsertBySorts(less, SortBy(less, init), last);
    }
  }

  lemma FirstIsLeast<T(!new)>(less: (T, T) -> bool, s: seq<T>, x: T)
    requires StrictWeak(less) && SortedBy(less, s) && x in s
    ensures !less(x, s[0])
  {
    var i :| 0 <= i < |s| && s[i] == x;
    assert !less(s[0], s[0]);
  }

  lemma TailMultiset<T>(s: seq<T>)
    requires s != []
    ensures multiset(s[1..]) == multiset(s) - multiset{s[0]}
  {
    assert s == [s[0]] + s[1..];
  }

  lemma SortedTail<T>(less: (T, T) -> bool, s: seq<T>)
    requires s != [] && SortedBy(less, s)
    ensures SortedBy(less, s[1..])
  {
  }

  lemma SameFirst<T(!new)>(less: (T, T) -> bool, s: seq<T>, t: seq<T>)
    requires Total(less) && SortedBy(less, s) && SortedBy(less, t)
    requires s != [] && t != [] && t[0] in s && s[0] in t
    ensures s[0] == t[0]
  {
    FirstIsLeast(less, s, t[0]);
    FirstIsLeast(less, t, s[0]);
  }

  /** Under a total order there is one sorted arrangement. */
  lemma {:induction false} SortedUnique<T(!new)>(less: (T, T) -> bool, s: seq<T>, t: seq<T>)
    requires Total(less) && SortedBy(less, s) && SortedBy(less, t) && multiset(s) == multiset(t)
    ensures s == t
    decreases |s|
  {
    hide *;
    assert |s| == |multiset(s)| == |multiset(t)| == |t|;
    if s != [] {
      assert s[0] in multiset(t) && t[0] in multiset(s);
      SameFirst(less, s, t);
      TailMultiset(s);
      TailMultiset(t);
      SortedTail(less, s);
      SortedTail(less, t);
      SortedUnique(less, s[1..], t[1..]);
      assert s == [s[0]] + s[1..] && t == [t[0]] + t[1..];
    }
  }

  /** Comparing sorted lists is comparing multisets. */
  lemma SortedAlikeExactly<T(!new)>(less: (T, T) -> bool, s: seq<T>, t: seq<T>)
    requires Total(less)
    ensures SortBy(less, s) == SortBy(less, t) <==> multiset(s) == multiset(t)
  {
    SortBySorts(less, s);
    SortBySorts(less, t);
    if multiset(s) == multiset(t) {
      SortedUnique(less, SortBy(less, s), SortBy(less, t));
    }
  }

  // ---------- stability ----------

  /** The elements that tie with `r`, in their order. */
  ghost function Ties<T>(less: (T, T) -> bool, s: seq<T>, r: T): seq<T> {
    if s == [] then []
    else
      var last := s[|s| - 1];
      Ties(less, s[..|s| - 1], r) + if less(last, r) || less(r, last) then [] else [last]
  }

  lemma TiesSnoc<T>(less: (T, T) -> bool, s: seq<T>, x: T, r: T)
    ensures Ties(less, s + [x], r) == Ties(less, s, r) + if less(x, r) || less(r, x) then [] else [x]
  {
    assert (s + [x])[..|s|] == s;
  }

  lemma {:induction false} InsertByKeepsTies<T(!new)>(less: (T, T) -> bool, s: seq<T>, x: T, r: T)
    requires StrictWeak(less)
    ensures Ties(less, InsertBy(less, s, x), r) == Ties(less, s + [x], r)
  {
    if s != [] && less(x, s[|s| - 1]) {
      var init, last := s[..|s| - 1], s[|s| - 1];
      assert s == init + [last];
      InsertByKeepsTies(less, init, x, r);
      TiesSnoc(less, InsertBy(less, init, x), last, r);
      TiesSnoc(less, init, x, r);
      TiesSnoc(less, init, last, r);
      TiesSnoc(less, s, x, r);
    }
  }

  /** Sorting keeps tying elements in their order. */
  lemma {:induction false} SortByIsStable<T(!new)>(less: (T, T) -> bool, s: seq<T>, r: T)
    requires StrictWeak(less)
    ensures Ties(less, SortBy(less, s), r) == Ties(less, s, r)
  {
    if s != [] {
      var init, last := s[..|s| - 1], s[|s| - 1];
      assert s == init + [last];
      SortByIsStable(less, init, r);
      InsertByKeepsTies(less, SortBy(less, init), last, r);
      TiesSnoc(less, SortBy(less, init), last, r);
      TiesSnoc(less, init, last, r);
    }
  }

  lemma SortByMembers<T(!new)>(less: (T, T) -> bool, s: seq<T>, x: T)
    requires StrictWeak(less)
    ensures x in SortBy(less, s) <==> x in s
  {
    SortBySorts(less, s);
    assert x in multiset(SortBy(less, s)) <==> x in multiset(s);
  }

  lemma SortBySnoc<T>(less: (T, T) -> bool, s: seq<T>, x: T)
    ensures SortBy(less, s + [x]) == InsertBy(less, SortBy(less, s), x) && s + [] == s
  {
    assert (s + [x])[..|s|] == s;
  }

  lemma {:induction false} InsertInFront<T>(less: (T, T) -> bool, a: seq<T>, b: seq<T>, x: T)
    requires forall y | y in b :: less(x, y)
    ensures InsertBy(less, a + b, x) == InsertBy(less, a, x) + b
    decreases |b|
  {
    if b == [] {
      assert a + b == a && InsertBy(less, a, x) + b == InsertBy(less, a, x);
    } else {
      var init, last := b[..|b| - 1], b[|b| - 1];
      assert (a + b)[..|a + b| - 1] == a + init && (a + b)[|a + b| - 1] == last;
      InsertInFront(less, a, init, x);
      assert InsertBy(less, a, x) + init + [last] == InsertBy(less, a, x) + b;
    }
  }

  lemma {:induction false} InsertBehind<T>(less: (T, T) -> bool, a: seq<T>, b: seq<T>, x: T)
    requires forall y | y in a :: !less(x, y)
    ensures InsertBy(less, a + b, x) == a + InsertBy(less, b, x)
    decreases |b|
  {
    if b == [] {
      assert a + b == a;
      if a != [] {
        assert a[|a| - 1] in a;
      }
    } else {
      var init, last := b[..|b| - 1], b[|b| - 1];
      assert (a + b)[..|a + b| - 1] == a + init && (a + b)[|a + b| - 1] == last;
      if less(x, last) {
        InsertBehind(less, a, init, x);
        assert a + InsertBy(less, init, x) + [last] == a + (InsertBy(less, init, x) + [last]);
      } else {
        assert a + b + [x] == a + (b + [x]);
      }
    }
  }

  lemma {:induction false} TiesAppend<T>(less: (T, T) -> bool, a: seq<T>, b: seq<T>, r: T)
    ensures Ties(less, a + b, r) == Ties(less, a, r) + Ties(less, b, r)
    decreases |b|
  {
    if b == [] {
      assert a + b == a;
    } else {
      var init, last := b[..|b| - 1], b[|b| - 1];
      assert (a + b)[..|a + b| - 1] == a + init && (a + b)[|a + b| - 1] == last;
      TiesAppend(less, a, init, r);
    }
  }

  lemma {:induction false} TiesMembers<T>(less: (T, T) -> bool, s: seq<T>, r: T, y: T)
    ensures y in Ties(less, s, r) <==> y in s && !less(y, r) && !less(r, y)
  {
    if s != [] {
      TiesMembers(less, s[..|s| - 1], r, y);
      assert s == s[..|s| - 1] + [s[|s| - 1]];
    }
  }

  /** Keeping only the ties of an element keeps two of them in their order. */
  lemma {:induction false} TiesOrder<T>(less: (T, T) -> bool, s: seq<T>, r: T, i: nat, j: nat) returns (p: nat, q: nat)
    requires i < j < |s| && s[i] in Ties(less, s, r) && s[j] in Ties(less, s, r)
    ensures p < q < |Ties(less, s, r)| && Ties(less, s, r)[p] == s[i] && Ties(less, s, r)[q] == s[j]
  {
    var init, last := s[..|s| - 1], s[|s| - 1];
    TiesMembers(less, s, r, s[i]);
    TiesMembers(less, s, r, s[j]);
    TiesMembers(less, init, r, s[i]);
    TiesMembers(less, init, r, s[j]);
    assert s == init + [last];
    TiesSnoc(less, init, last, r);
    hide *;
    assert init[i] == s[i];
    if j == |s| - 1 {
      p :| 0 <= p < |Ties(less, init, r)| && Ties(less, init, r)[p] == s[i];
      q := |Ties(less, init, r)|;
    } else {
      assert init[j] == s[j];
      p, q := TiesOrder(less, init, r, i, j);
    }
  }

  lemma WhichHalf<T>(a: seq<T>, b: seq<T>, k: nat)
    requires k < |a + b|
    ensures (a + b)[k] in if k < |a| then a else b
  {
    assert k < |a| ==> (a + b)[k] == a[k];
    assert k >= |a| ==> (a + b)[k] == b[k - |a|];
  }

  /** When one of two tying elements occurs only in the first half and the other only in the
      second, the first stands before the second among the ties. */
  lemma TiesOfHalves<T>(less: (T, T) -> bool, a: seq<T>, b: seq<T>, first: T, second: T, p: nat, q: nat)
    requires second !in a && first !in b
    requires p < |Ties(less, a + b, first)| && q < |Ties(less, a + b, first)|
    requires Ties(less, a + b, first)[p] == second && Ties(less, a + b, first)[q] == first
    ensures q < p
  {
    hide *;
    TiesAppend(less, a, b, first);
    TiesMembers(less, a, first, second);
    TiesMembers(less, b, first, first);
    WhichHalf(Ties(less, a, first), Ties(less, b, first), p);
    WhichHalf(Ties(less, a, first), Ties(less, b, first), q);
  }

  // ---------- filters ----------

  /** The elements that satisfy `p`, in their order. */
  function Keep<T>(p: T -> bool, s: seq<T>): seq<T> {
    if s == [] then [] else Keep(p, s[..|s| - 1]) + if p(s[|s| - 1]) then [s[|s| - 1]] else []
  }

  lemma KeepSnoc<T>(p: T -> bool, s: seq<T>, x: T)
    ensures Keep(p, s + [x]) == if p(x) then Keep(p, s) + [x] else Keep(p, s)
  {
    assert (s + [x])[..|s|] == s;
  }

  lemma {:induction false} KeepMembers<T>(p: T -> bool, s: seq<T>, x: T)
    ensures x in Keep(p, s) <==> x in s && p(x)
  {
    if s != [] {
      KeepMembers(p, s[..|s| - 1], x);
      assert s == s[..|s| - 1] + [s[|s| - 1]];
    }
  }

  /** The first element that satisfies `p` is the first one kept. */
  lemma {:induction false} KeepFirst<T>(p: T -> bool, s: seq<T>, m: nat)
    requires m < |s| && p(s[m]) && forall j | 0 <= j < m :: !p(s[j])
    ensures Keep(p, s) != [] && Keep(p, s)[0] == s[m]
  {
    var init := s[..|s| - 1];
    if m < |init| {
      KeepFirst(p, init, m);
    } else if Keep(p, init) != [] {
      KeepMembers(p, init, Keep(p, init)[0]);
    }
  }

  lemma InsertStep<T>(less: (T, T) -> bool, init: seq<T>, last: T, x: T)
    ensures InsertBy(less, init + [last], x) ==
            if less(x, last) then InsertBy(less, init, x) + [last] else init + [last] + [x]
  {
    assert (init + [last])[..|init|] == init;
  }

  /** `x` goes before `last`. */
  lemma KeepInsertUnder<T(!new)>(less: (T, T) -> bool, p: T -> bool, init: seq<T>, last: T, x: T)
    requires less(x, last)
    requires Keep(p, InsertBy(less, init, x)) == if p(x) then InsertBy(less, Keep(p, init), x) else Keep(p, init)
    ensures Keep(p, InsertBy(less, init + [last], x)) ==
            if p(x) then InsertBy(less, Keep(p, init + [last]), x) else Keep(p, init + [last])
  {
    hide *;
    InsertStep(less, init, last, x);
    KeepSnoc(p, init, last);
    KeepSnoc(p, InsertBy(less, init, x), last);
    InsertStep(less, Keep(p, init), last, x);
  }

  /** `x` goes behind `last`. */
  lemma KeepInsertBehind<T(!new)>(less: (T, T) -> bool, p: T -> bool, s: seq<T>, x: T)
    requires StrictWeak(less) && SortedBy(less, s)
    requires s == [] || !less(x, s[|s| - 1])
    ensures Keep(p, InsertBy(less, s, x)) == if p(x) then InsertBy(less, Keep(p, s), x) else Keep(p, s)
  {
    var kept := Keep(p, s);
    KeptIsNotAfter(less, p, s, x);
    hide *;
    InsertLast(less, kept, x);
    InsertLast(less, s, x);
    KeepSnoc(p, s, x);
  }

  lemma {:induction false} KeepInsert<T(!new)>(less: (T, T) -> bool, p: T -> bool, s: seq<T>, x: T)
    requires StrictWeak(less) && SortedBy(less, s)
    ensures Keep(p, InsertBy(less, s, x)) == if p(x) then InsertBy(less, Keep(p, s), x) else Keep(p, s)
  {
    if s == [] || !less(x, s[|s| - 1]) {
      KeepInsertBehind(less, p, s, x);
    } else {
      var init, last := s[..|s| - 1], s[|s| - 1];
      KeepInsert(less, p, init, x);
      hide *;
      assert s == init + [last];
      KeepInsertUnder(less, p, init, last, x);
    }
  }

  lemma InsertLast<T>(less: (T, T) -> bool, s: seq<T>, x: T)
    requires s == [] || !less(x, s[|s| - 1])
    ensures InsertBy(less, s, x) == s + [x]
  {
  }

  lemma KeptIsNotAfter<T(!new)>(less: (T, T) -> bool, p: T -> bool, s: seq<T>, x: T)
    requires StrictWeak(less) && SortedBy(less, s)
    requires s == [] || !less(x, s[|s| - 1])
    ensures Keep(p, s) == [] || !less(x, Keep(p, s)[|Keep(p, s)| - 1])
  {
    if Keep(p, s) != [] {
      var last := Keep(p, s)[|Keep(p, s)| - 1];
      KeepMembers(p, s, last);
      var i :| 0 <= i < |s| && s[i] == last;
      assert i < |s| - 1 ==> !less(s[|s| - 1], s[i]);
    }
  }

  /** Filtering and sorting commute. */
  lemma {:induction false} KeepSort<T(!new)>(less: (T, T) -> bool, p: T -> bool, s: seq<T>)
    requires StrictWeak(less)
    ensures Keep(p, SortBy(less, s)) == SortBy(less, Keep(p, s))
  {
    if s != [] {
      var init, last := s[..|s| - 1], s[|s| - 1];
      KeepSort(less, p, init);
      SortBySorts(less, init);
      KeepInsert(less, p, SortBy(less, init), last);
      SortBySnoc(less, Keep(p, init), last);
    }
  }

  /** An inserted element becomes the first exactly if it is less than the first. */
  lemma {:induction false} InsertFirst<T(!new)>(less: (T, T) -> bool, s: seq<T>, x: T)
    requires StrictWeak(less) && SortedBy(less, s)
    ensures InsertBy(less, s, x) != []
    ensures InsertBy(less, s, x)[0] == if s == [] || less(x, s[0]) then x else s[0]
  {
    if s != [] && less(x, s[|s| - 1]) {
      InsertFirst(less, s[..|s| - 1], x);
    } else if |s| > 1 {
      assert !less(s[|s| - 1], s[0]);
    }
  }
}
