/** What the pack of internal/contextcompiler/context.go achieves: lexicographic optimality,
    independence of the input order, and a reason for every exclusion. */
module ContextTheorems {
  import opened Text
  import opened Sorting
  import opened ContextPacker

  ghost predicate DistinctRefs(s: seq<Source>) {
    forall i, j | 0 <= i < j < |s| :: s[i].ref != s[j].ref
  }

  ghost predicate NonNegative(s: seq<Source>) {
    forall i | 0 <= i < |s| :: s[i].tokenCost >= 0
  }

  /** The number of selected sources of one authority. */
  ghost function Count(s: seq<Source>, picks: seq<bool>, authority: string): nat
    requires |picks| == |s|
    decreases |s|
  {
    if s == [] then 0
    else (if picks[0] && s[0].authority == authority then 1 else 0) + Count(s[1..], picks[1..], authority)
  }

  /** The vector of per-authority counts of `t` is not above that of `g`, reading authorities
      in their order. */
  ghost predicate NotAbove(s: seq<Source>, t: seq<bool>, g: seq<bool>)
    requires |t| == |g| == |s|
  {
    forall a: string ::
      (forall b: string | Less(b, a) :: Count(s, t, b) == Count(s, g, b)) ==> Count(s, t, a) <= Count(s, g, a)
  }

  // ---------- without repeated references the pack is a plain greedy selection ----------

  ghost function Greedy(s: seq<Source>, room: int): (g: seq<bool>)
    ensures |g| == |s|
    decreases |s|
  {
    if s == [] then []
    else if s[0].tokenCost <= room then [true] + Greedy(s[1..], room - s[0].tokenCost)
    else [false] + Greedy(s[1..], room)
  }

  lemma {:induction false} PicksAreGreedy(s: seq<Source>, seen: set<string>, used: int, budget: int)
    requires DistinctRefs(s) && forall i | 0 <= i < |s| :: s[i].ref !in seen
    ensures Picks(s, seen, used, budget) == Greedy(s, budget - used)
    decreases |s|
  {
    if s != [] {
      var x := s[0];
      forall i | 0 <= i < |s[1..]| ensures s[1..][i].ref !in seen + {x.ref} {
        assert s[1..][i] == s[i + 1];
      }
      if used + x.tokenCost > budget {
        PicksAreGreedy(s[1..], seen, used, budget);
      } else {
        PicksAreGreedy(s[1..], seen + {x.ref}, used + x.tokenCost, budget);
      }
    }
  }

  // ---------- one authority: cheapest first is most and cheapest ----------

  ghost function Total(picks: seq<bool>): nat {
    if picks == [] then 0 else Total(picks[..|picks| - 1]) + if picks[|picks| - 1] then 1 else 0
  }

  /** The cost of the `n` first sources. */
  ghost function FirstCosts(s: seq<Source>, n: nat): int
    requires n <= |s|
  {
    if n == 0 then 0 else FirstCosts(s, n - 1) + s[n - 1].tokenCost
  }

  ghost predicate Ascending(s: seq<Source>) {
    forall i, j | 0 <= i <= j < |s| :: 0 <= s[i].tokenCost <= s[j].tokenCost
  }

  lemma {:induction false} TotalBound(picks: seq<bool>)
    ensures Total(picks) <= |picks|
  {
    if picks != [] {
      TotalBound(picks[..|picks| - 1]);
    }
  }

  lemma {:induction false} FirstCostsPrefix(s: seq<Source>, x: Source, n: nat)
    requires n <= |s|
    ensures FirstCosts(s + [x], n) == FirstCosts(s, n)
  {
    if n > 0 {
      FirstCostsPrefix(s, x, n - 1);
    }
  }

  lemma {:induction false} FirstCostsMonotone(s: seq<Source>, m: nat, n: nat)
    requires Ascending(s) && m <= n <= |s|
    ensures FirstCosts(s, m) <= FirstCosts(s, n)
  {
    if m < n {
      FirstCostsMonotone(s, m, n - 1);
    }
  }

  /** No selection of `n` sources is cheaper than the `n` first ones. */
  lemma {:induction false} FirstAreCheapest(s: seq<Source>, t: seq<bool>)
    requires Ascending(s) && |t| == |s|
    ensures Total(t) <= |s| && FirstCosts(s, Total(t)) <= Cost(s, t)
    decreases |s|
  {
    TotalBound(t);
    if s != [] {
      var init, x, t', b := s[..|s| - 1], s[|s| - 1], t[..|t| - 1], t[|t| - 1];
      assert s == init + [x] && t == t' + [b];
      FirstAreCheapest(init, t');
      CostSnoc(init, t', x, b);
      FirstCostsPrefix(init, x, Total(t'));
      if b {
        assert FirstCosts(s, Total(t)) == FirstCosts(s, Total(t')) + s[Total(t')].tokenCost;
        assert s[Total(t')].tokenCost <= s[|s| - 1].tokenCost;
      }
    }
  }

  lemma {:induction false} FirstCostsCons(x: Source, s: seq<Source>, n: nat)
    requires n <= |s|
    ensures FirstCosts([x] + s, n + 1) == x.tokenCost + FirstCosts(s, n)
  {
    if n > 0 {
      FirstCostsCons(x, s, n - 1);
    }
  }

  lemma GreedyTakes(x: Source, rest: seq<Source>, room: int)
    requires x.tokenCost <= room
    ensures var g := Greedy(rest, room - x.tokenCost);
            && Total(Greedy([x] + rest, room)) == 1 + Total(g)
            && Cost([x] + rest, Greedy([x] + rest, room)) == x.tokenCost + Cost(rest, g)
  {
    var g := Greedy(rest, room - x.tokenCost);
    assert ([x] + rest)[1..] == rest && ([true] + g)[1..] == g;
    assert Greedy([x] + rest, room) == [true] + g;
    TotalCons(true, g);
  }

  lemma AscendingTail(s: seq<Source>)
    requires Ascending(s) && s != []
    ensures Ascending(s[1..])
  {
  }

  /** Greedy takes the first sources that fit, and the next one would not have fitted. */
  lemma {:induction false} GreedyTakesFirst(s: seq<Source>, room: int)
    requires Ascending(s)
    ensures var g := Greedy(s, room);
            var n := Total(g);
            && n <= |s| && Cost(s, g) == FirstCosts(s, n)
            && (n < |s| ==> FirstCosts(s, n + 1) > room)
    decreases |s|
  {
    if s != [] && s[0].tokenCost <= room {
      var x, rest := s[0], s[1..];
      AscendingTail(s);
      hide *;
      GreedyTakesFirst(rest, room - x.tokenCost);
      var n := Total(Greedy(rest, room - x.tokenCost));
      assert s == [x] + rest;
      GreedyTakes(x, rest, room);
      FirstCostsCons(x, rest, n);
      if n < |rest| {
        FirstCostsCons(x, rest, n + 1);
      }
    } else {
      GreedyTakesNothing(s, room);
    }
  }

  lemma {:induction false} TotalCons(b: bool, picks: seq<bool>)
    ensures Total([b] + picks) == (if b then 1 else 0) + Total(picks)
  {
    if picks != [] {
      assert ([b] + picks)[..|picks|] == [b] + picks[..|picks| - 1];
      TotalCons(b, picks[..|picks| - 1]);
    } else {
      assert [b] + picks == [b] && [b][..0] == [];
    }
  }

  lemma {:induction false} GreedyTakesNothing(s: seq<Source>, room: int)
    requires forall i | 0 <= i < |s| :: s[i].tokenCost > room
    ensures Total(Greedy(s, room)) == 0 && Cost(s, Greedy(s, room)) == 0
    decreases |s|
  {
    if s != [] {
      GreedyTakesNothing(s[1..], room);
      TotalCons(false, Greedy(s[1..], room));
      assert ([false] + Greedy(s[1..], room))[1..] == Greedy(s[1..], room);
    }
  }

  /** Inside one authority nothing that fits is larger, and nothing as large is cheaper. */
  lemma GroupOptimal(s: seq<Source>, room: int, t: seq<bool>)
    requires Ascending(s) && |t| == |s| && Cost(s, t) <= room
    ensures Total(t) <= Total(Greedy(s, room))
    ensures Total(t) == Total(Greedy(s, room)) ==> Cost(s, Greedy(s, room)) <= Cost(s, t)
  {
    GreedyTakesFirst(s, room);
    FirstAreCheapest(s, t);
    var n := Total(Greedy(s, room));
    if Total(t) > n {
      FirstCostsMonotone(s, n + 1, Total(t));
    }
  }

  // ---------- all authorities ----------

  lemma {:induction false} Concatenated(s1: seq<Source>, s2: seq<Source>, t1: seq<bool>, t2: seq<bool>, a: string)
    requires |t1| == |s1| && |t2| == |s2|
    ensures Cost(s1 + s2, t1 + t2) == Cost(s1, t1) + Cost(s2, t2)
    ensures Count(s1 + s2, t1 + t2, a) == Count(s1, t1, a) + Count(s2, t2, a)
    decreases |s1|
  {
    if s1 == [] {
      assert s1 + s2 == s2 && t1 + t2 == t2;
    } else {
      assert (s1 + s2)[1..] == s1[1..] + s2 && (t1 + t2)[1..] == t1[1..] + t2;
      Concatenated(s1[1..], s2, t1[1..], t2, a);
    }
  }

  /** The first source is taken if it fits, whatever comes after it. */
  lemma GreedyCons(x: Source, rest: seq<Source>, room: int)
    ensures var fits := x.tokenCost <= room;
            var left := if fits then room - x.tokenCost else room;
            && Greedy([x] + rest, room) == [fits] + Greedy(rest, left)
            && room - Cost([x] + rest, Greedy([x] + rest, room)) == left - Cost(rest, Greedy(rest, left))
  {
    var fits := x.tokenCost <= room;
    var g := Greedy(rest, if fits then room - x.tokenCost else room);
    assert ([x] + rest)[1..] == rest && ([fits] + g)[1..] == g;
  }

  lemma {:induction false} GreedyConcatenated(s1: seq<Source>, s2: seq<Source>, room: int)
    ensures Greedy(s1 + s2, room) == Greedy(s1, room) + Greedy(s2, room - Cost(s1, Greedy(s1, room)))
    decreases |s1|
  {
    if s1 == [] {
      assert s1 + s2 == s2;
    } else {
      var x, rest := s1[0], s1[1..];
      var fits := x.tokenCost <= room;
      var left := if fits then room - x.tokenCost else room;
      hide *;
      GreedyConcatenated(rest, s2, left);
      assert s1 == [x] + rest;
      Assoc([x], rest, s2);
      GreedyCons(x, rest, room);
      GreedyCons(x, rest + s2, room);
      Assoc([fits], Greedy(rest, left), Greedy(s2, left - Cost(rest, Greedy(rest, left))));
    }
  }

  lemma {:induction false} CountInGroup(s: seq<Source>, t: seq<bool>, own: string, a: string)
    requires |t| == |s| && forall i | 0 <= i < |s| :: s[i].authority == own
    ensures Count(s, t, a) == if a == own then Total(t) else 0
    decreases |s|
  {
    if s != [] {
      CountInGroup(s[1..], t[1..], own, a);
      TotalCons(t[0], t[1..]);
      assert [t[0]] + t[1..] == t;
    }
  }

  lemma {:induction false} CountElsewhere(s: seq<Source>, t: seq<bool>, a: string)
    requires |t| == |s| && forall i | 0 <= i < |s| :: s[i].authority != a
    ensures Count(s, t, a) == 0
    decreases |s|
  {
    if s != [] {
      CountElsewhere(s[1..], t[1..], a);
    }
  }

  /** The sources of the first authority. */
  ghost function GroupLength(s: seq<Source>, own: string): (n: nat)
    ensures n <= |s| && forall i | 0 <= i < n :: s[i].authority == own
    ensures n < |s| ==> s[n].authority != own
    decreases |s|
  {
    if s == [] || s[0].authority != own then 0 else 1 + GroupLength(s[1..], own)
  }

  lemma SortedPairs(s: seq<Source>, i: nat, j: nat)
    requires Sorted(s) && i < j < |s|
    ensures s[i].authority != s[j].authority ==> Less(s[i].authority, s[j].authority)
    ensures s[i].authority == s[j].authority ==> s[i].tokenCost <= s[j].tokenCost
  {
    assert !SourceLess(s[j], s[i]);
    LessTotal(s[i].authority, s[j].authority);
  }

  lemma SortedSuffix(s: seq<Source>, n: nat)
    requires Sorted(s) && n <= |s|
    ensures Sorted(s[n..])
  {
    hide SourceLess;
  }

  /** After the first authority come only greater ones. */
  lemma GroupSplits(s: seq<Source>)
    requires Sorted(s) && NonNegative(s) && s != []
    ensures var n := GroupLength(s, s[0].authority);
            && n >= 1 && Ascending(s[..n]) && Sorted(s[n..]) && NonNegative(s[n..])
            && forall i | 0 <= i < |s[n..]| :: Less(s[0].authority, s[n..][i].authority)
  {
    var own := s[0].authority;
    var n := GroupLength(s, own);
    forall i, j | 0 <= i <= j < n ensures 0 <= s[i].tokenCost <= s[j].tokenCost {
      if i < j {
        SortedPairs(s, i, j);
      }
    }
    SortedSuffix(s, n);
    forall i | 0 <= i < |s[n..]| ensures Less(own, s[n..][i].authority) {
      assert s[n..][i] == s[n + i];
      SortedPairs(s, 0, n);
      if i > 0 {
        SortedPairs(s, n, n + i);
        if s[n].authority != s[n + i].authority {
          LessTransitive(own, s[n].authority, s[n + i].authority);
        }
      }
    }
  }

  /** Greedy takes no fewer of one authority's sources, and as many only at no greater cost. */
  lemma FirstGroupNotBelow(s: seq<Source>, room: int, t: seq<bool>, own: string, a: string)
    requires Ascending(s) && |t| == |s| && Cost(s, t) <= room
    requires forall i | 0 <= i < |s| :: s[i].authority == own
    ensures var g := Greedy(s, room);
            && Count(s, t, a) <= Count(s, g, a)
            && (a != own ==> Count(s, g, a) == 0)
            && (Total(t) == Total(g) ==> Cost(s, g) <= Cost(s, t))
  {
    hide *;
    GroupOptimal(s, room, t);
    CountInGroup(s, t, own, a);
    CountInGroup(s, Greedy(s, room), own, a);
  }

  /** The sources and the selection cut behind the first authority. */
  lemma SplitGroup(s: seq<Source>, t: seq<bool>)
    returns (s1: seq<Source>, s2: seq<Source>, t1: seq<bool>, t2: seq<bool>)
    requires Sorted(s) && NonNegative(s) && s != [] && |t| == |s|
    ensures s == s1 + s2 && t == t1 + t2 && |t1| == |s1| >= 1 && |t2| == |s2|
    ensures Ascending(s1) && Sorted(s2) && NonNegative(s2)
    ensures forall i | 0 <= i < |s1| :: s1[i].authority == s[0].authority
    ensures forall i | 0 <= i < |s2| :: Less(s[0].authority, s2[i].authority)
  {
    hide Ascending, Sorted, NonNegative, Less;
    var n := GroupLength(s, s[0].authority);
    GroupSplits(s);
    s1, s2, t1, t2 := s[..n], s[n..], t[..n], t[n..];
  }

  lemma {:induction false} GroupsNotBelow(
    s1: seq<Source>, s2: seq<Source>, room: int, t1: seq<bool>, t2: seq<bool>, own: string, a: string)
    requires |t1| == |s1| >= 1 && |t2| == |s2|
    requires Ascending(s1) && Sorted(s2) && NonNegative(s2) && Cost(s1 + s2, t1 + t2) <= room
    requires forall i | 0 <= i < |s1| :: s1[i].authority == own
    requires forall i | 0 <= i < |s2| :: Less(own, s2[i].authority)
    requires forall b: string | Less(b, a) ::
               Count(s1 + s2, t1 + t2, b) == Count(s1 + s2, Greedy(s1 + s2, room), b)
    ensures Count(s1 + s2, t1 + t2, a) <= Count(s1 + s2, Greedy(s1 + s2, room), a)
    decreases |s1| + |s2|, 0
  {
    hide *;
    var g1 := Greedy(s1, room);
    var left := room - Cost(s1, g1);
    var g2 := Greedy(s2, left);
    GreedyConcatenated(s1, s2, room);
    Concatenated(s1, s2, t1, t2, a);
    Concatenated(s1, s2, g1, g2, a);
    CostNonNegative(s2, t2);
    FirstGroupNotBelow(s1, room, t1, own, a);
    if Less(own, a) {
      OwnCounts(s1, s2, t1, t2, g1, g2, own);
      RestCounts(s1, s2, t1, t2, g1, g2, own, a);
      GreedyNotBelow(s2, left, t2, a);
    } else {
      CountNotBeyond(s2, t2, own, a);
      CountNotBeyond(s2, g2, own, a);
    }
  }

  /** With no less room than `t` needs, greedy is not below `t` at the first authority where
      they differ. */
  lemma {:induction false} GreedyNotBelow(s: seq<Source>, room: int, t: seq<bool>, a: string)
    requires Sorted(s) && NonNegative(s) && |t| == |s| && Cost(s, t) <= room
    requires forall b: string | Less(b, a) :: Count(s, t, b) == Count(s, Greedy(s, room), b)
    ensures Count(s, t, a) <= Count(s, Greedy(s, room), a)
    decreases |s|, 1
  {
    if s != [] {
      hide *;
      var s1, s2, t1, t2 := SplitGroup(s, t);
      GroupsNotBelow(s1, s2, room, t1, t2, s[0].authority, a);
    }
  }

  lemma {:induction false} CostNonNegative(s: seq<Source>, t: seq<bool>)
    requires NonNegative(s) && |t| == |s|
    ensures Cost(s, t) >= 0
    decreases |s|
  {
    if s != [] {
      CostNonNegative(s[1..], t[1..]);
    }
  }

  lemma CountNotBeyond(s: seq<Source>, t: seq<bool>, own: string, a: string)
    requires |t| == |s| && forall i | 0 <= i < |s| :: Less(own, s[i].authority)
    requires !Less(own, a)
    ensures Count(s, t, a) == 0
  {
    hide *;
    CountElsewhere(s, t, a);
  }

  /** Equal counts at the first authority are counts of its group. */
  lemma OwnCounts(
    s1: seq<Source>, s2: seq<Source>, t1: seq<bool>, t2: seq<bool>, g1: seq<bool>, g2: seq<bool>, own: string)
    requires |t1| == |g1| == |s1| && |t2| == |g2| == |s2|
    requires forall i | 0 <= i < |s1| :: s1[i].authority == own
    requires forall i | 0 <= i < |s2| :: Less(own, s2[i].authority)
    requires Count(s1 + s2, t1 + t2, own) == Count(s1 + s2, g1 + g2, own)
    ensures Total(t1) == Total(g1)
  {
    Concatenated(s1, s2, t1, t2, own);
    Concatenated(s1, s2, g1, g2, own);
    CountInGroup(s1, t1, own, own);
    CountInGroup(s1, g1, own, own);
    LessTotal(own, own);
    CountNotBeyond(s2, t2, own, own);
    CountNotBeyond(s2, g2, own, own);
  }

  lemma RestCount(
    s1: seq<Source>, s2: seq<Source>, t1: seq<bool>, t2: seq<bool>, g1: seq<bool>, g2: seq<bool>,
    own: string, b: string)
    requires |t1| == |g1| == |s1| && |t2| == |g2| == |s2|
    requires forall i | 0 <= i < |s1| :: s1[i].authority == own
    requires forall i | 0 <= i < |s2| :: Less(own, s2[i].authority)
    requires Count(s1 + s2, t1 + t2, b) == Count(s1 + s2, g1 + g2, b)
    ensures Count(s2, t2, b) == Count(s2, g2, b)
  {
    if b == own {
      LessTotal(own, own);
      CountNotBeyond(s2, t2, own, own);
      CountNotBeyond(s2, g2, own, own);
    } else {
      Concatenated(s1, s2, t1, t2, b);
      Concatenated(s1, s2, g1, g2, b);
      CountInGroup(s1, t1, own, b);
      CountInGroup(s1, g1, own, b);
    }
  }

  lemma RestCounts(
    s1: seq<Source>, s2: seq<Source>, t1: seq<bool>, t2: seq<bool>, g1: seq<bool>, g2: seq<bool>,
    own: string, a: string)
    requires |t1| == |g1| == |s1| && |t2| == |g2| == |s2|
    requires forall i | 0 <= i < |s1| :: s1[i].authority == own
    requires forall i | 0 <= i < |s2| :: Less(own, s2[i].authority)
    requires forall b: string | Less(b, a) :: Count(s1 + s2, t1 + t2, b) == Count(s1 + s2, g1 + g2, b)
    ensures forall b: string | Less(b, a) :: Count(s2, t2, b) == Count(s2, g2, b)
  {
    hide *;
    forall b: string | Less(b, a) ensures Count(s2, t2, b) == Count(s2, g2, b) {
      RestCount(s1, s2, t1, t2, g1, g2, own, b);
    }
  }

  /** The pack is lexicographically optimal: no selection within the budget includes more
      sources of an authority while matching the pack on every authority before it. */
  lemma PackIsOptimal(sorted: seq<Source>, budget: int, t: seq<bool>)
    requires Sorted(sorted) && DistinctRefs(sorted) && NonNegative(sorted)
    requires |t| == |sorted| && Cost(sorted, t) <= budget
    ensures NotAbove(sorted, t, PicksFor(sorted, budget))
  {
    PicksAreGreedy(sorted, {}, 0, budget);
    forall a: string |
      forall b: string | Less(b, a) :: Count(sorted, t, b) == Count(sorted, PicksFor(sorted, budget), b)
      ensures Count(sorted, t, a) <= Count(sorted, PicksFor(sorted, budget), a)
    {
      GreedyNotBelow(sorted, budget, t, a);
    }
  }

  // ---------- independence of the input order ----------

  /** Taking out one occurrence of `x`, and the keys with it. */
  lemma TakenOut(s: seq<Source>, i: nat)
    requires i < |s|
    ensures var rest := s[..i] + s[i + 1..];
            && multiset(rest) == multiset(s) - multiset{s[i]}
            && multiset(Keys(s)) == multiset(Keys(rest)) + multiset{KeyOf(s[i])}
  {
    var rest := s[..i] + s[i + 1..];
    var k := Keys(s);
    assert s == s[..i] + [s[i]] + s[i + 1..];
    assert k == k[..i] + [k[i]] + k[i + 1..];
    assert Keys(rest) == k[..i] + k[i + 1..];
  }

  lemma RestsAgree(s1: seq<Source>, i: nat, s2: seq<Source>, j: nat)
    requires i < |s1| && j < |s2| && s1[i] == s2[j] && multiset(s1) == multiset(s2)
    ensures multiset(s1[..i] + s1[i + 1..]) == multiset(s2[..j] + s2[j + 1..])
  {
    hide *;
    TakenOut(s1, i);
    TakenOut(s2, j);
  }

  lemma KeysFromRests(s1: seq<Source>, i: nat, s2: seq<Source>, j: nat)
    requires i < |s1| && j < |s2| && s1[i] == s2[j]
    requires multiset(Keys(s1[..i] + s1[i + 1..])) == multiset(Keys(s2[..j] + s2[j + 1..]))
    ensures multiset(Keys(s1)) == multiset(Keys(s2))
  {
    hide *;
    TakenOut(s1, i);
    TakenOut(s2, j);
  }

  lemma {:induction false} KeysOfArrangement(s1: seq<Source>, s2: seq<Source>)
    requires multiset(s1) == multiset(s2)
    ensures multiset(Keys(s1)) == multiset(Keys(s2))
    decreases |s1|
  {
    hide *;
    if s1 == [] {
      assert |s2| == |multiset(s2)| == 0;
      assert s2 == s1;
    } else {
      assert s1[0] in multiset(s2);
      var j :| 0 <= j < |s2| && s2[j] == s1[0];
      RestsAgree(s1, 0, s2, j);
      KeysOfArrangement(s1[..0] + s1[1..], s2[..j] + s2[j + 1..]);
      KeysFromRests(s1, 0, s2, j);
    }
  }

  lemma KeysTail(s1: seq<Source>, s2: seq<Source>)
    requires Keys(s1) == Keys(s2) && s1 != []
    ensures s2 != [] && KeyOf(s1[0]) == KeyOf(s2[0]) && Keys(s1[1..]) == Keys(s2[1..])
  {
    assert |s1| == |Keys(s1)| == |Keys(s2)| == |s2|;
    assert Keys(s1)[0] == Keys(s2)[0];
    assert Keys(s1[1..]) == Keys(s1)[1..] && Keys(s2[1..]) == Keys(s2)[1..];
  }

  lemma {:induction false} PicksByKeys(s1: seq<Source>, s2: seq<Source>, seen: set<string>, used: int, budget: int)
    requires Keys(s1) == Keys(s2)
    ensures Picks(s1, seen, used, budget) == Picks(s2, seen, used, budget)
    ensures forall picks: seq<bool> | |picks| == |s1| :: Cost(s1, picks) == Cost(s2, picks)
    decreases |s1|
  {
    assert |s1| == |Keys(s1)| == |Keys(s2)| == |s2|;
    if s1 != [] {
      KeysTail(s1, s2);
      hide Keys;
      var skip := s1[0].ref in seen || used + s1[0].tokenCost > budget;
      PicksByKeys(s1[1..], s2[1..], if skip then seen else seen + {s1[0].ref},
                  if skip then used else used + s1[0].tokenCost, budget);
    }
  }

  ghost function IncludedRefs(s: seq<Source>, picks: seq<bool>): set<string>
    requires |picks| == |s|
  {
    set i | 0 <= i < |s| && picks[i] :: s[i].ref
  }

  /** Two calls on the same sources in any two orders, with ties broken in any two ways,
      include the same references at the same total. */
  lemma OrderDoesNotMatter(
    input1: seq<Source>, input2: seq<Source>, sorted1: seq<Source>, sorted2: seq<Source>, budget: int)
    requires multiset(input1) == multiset(input2)
    requires SortedArrangement(sorted1, input1) && SortedArrangement(sorted2, input2)
    ensures var picks1, picks2 := PicksFor(sorted1, budget), PicksFor(sorted2, budget);
            && IncludedRefs(sorted1, picks1) == IncludedRefs(sorted2, picks2)
            && Cost(sorted1, picks1) == Cost(sorted2, picks2)
  {
    KeysOfArrangement(sorted1, sorted2);
    KeyLessIsTotalOrder();
    SortedUnique(KeyLess, Keys(sorted1), Keys(sorted2));
    PicksByKeys(sorted1, sorted2, {}, 0, budget);
    forall i | 0 <= i < |sorted1| ensures sorted1[i].ref == sorted2[i].ref {
      assert Keys(sorted1)[i] == Keys(sorted2)[i];
    }
  }

  // ---------- the budget and the reasons ----------

  lemma {:induction false} PicksWithin(s: seq<Source>, seen: set<string>, used: int, budget: int)
    requires used <= budget
    ensures used + Cost(s, Picks(s, seen, used, budget)) <= budget
    decreases |s|
  {
    if s != [] {
      var skip := s[0].ref in seen || used + s[0].tokenCost > budget;
      PicksWithin(s[1..], if skip then seen else seen + {s[0].ref},
                  if skip then used else used + s[0].tokenCost, budget);
    }
  }

  /** The included costs stay within every budget that is not negative. */
  lemma EstimateWithinBudget(sorted: seq<Source>, budget: int)
    requires budget >= 0
    ensures Cost(sorted, PicksFor(sorted, budget)) <= budget
  {
    PicksWithin(sorted, {}, 0, budget);
  }

  /** What the loop knows about a source it passes over. */
  lemma {:induction false} ExclusionReason(s: seq<Source>, seen: set<string>, used: int, budget: int, i: nat)
    requires NonNegative(s) && i < |s|
    ensures var picks := Picks(s, seen, used, budget);
            && (!picks[i] ==> s[i].ref in seen + IncludedRefs(s[..i], picks[..i]) ||
                              used + Cost(s, picks) + s[i].tokenCost > budget)
            && (picks[i] ==> s[i].ref !in seen + IncludedRefs(s[..i], picks[..i]))
    decreases |s|
  {
    var picks := Picks(s, seen, used, budget);
    var skip := s[0].ref in seen || used + s[0].tokenCost > budget;
    var seen', used' := if skip then seen else seen + {s[0].ref}, if skip then used else used + s[0].tokenCost;
    var rest := Picks(s[1..], seen', used', budget);
    assert picks[1..] == rest;
    CostNonNegative(s[1..], rest);
    if i > 0 {
      ExclusionReason(s[1..], seen', used', budget, i - 1);
      RefsCons(s, picks, i);
    }
  }

  lemma RefsCons(s: seq<Source>, picks: seq<bool>, i: nat)
    requires |picks| == |s| && 0 < i <= |s|
    ensures IncludedRefs(s[..i], picks[..i]) ==
            (if picks[0] then {s[0].ref} else {}) + IncludedRefs(s[1..][..i - 1], picks[1..][..i - 1])
  {
    var whole, tail := IncludedRefs(s[..i], picks[..i]), IncludedRefs(s[1..][..i - 1], picks[1..][..i - 1]);
    forall r | r in tail ensures r in whole {
      var k :| 0 <= k < i - 1 && picks[1..][..i - 1][k] && s[1..][..i - 1][k].ref == r;
      assert picks[..i][k + 1] && s[..i][k + 1].ref == r;
    }
    forall r | r in whole ensures r in tail || (picks[0] && r == s[0].ref) {
      var k :| 0 <= k < i && picks[..i][k] && s[..i][k].ref == r;
      if k > 0 {
        assert picks[1..][..i - 1][k - 1] && s[1..][..i - 1][k - 1].ref == r;
      }
    }
    if picks[0] {
      assert picks[..i][0] && s[..i][0].ref == s[0].ref;
    }
  }

  /** A source is left out exactly because its reference is already included or because it
      does not fit even at the end; no reference is included twice. */
  lemma ExcludedForAReason(sorted: seq<Source>, budget: int, i: nat)
    requires NonNegative(sorted) && i < |sorted|
    ensures var picks := PicksFor(sorted, budget);
            var before := IncludedRefs(sorted[..i], picks[..i]);
            && (picks[i] ==> sorted[i].ref !in before)
            && (!picks[i] ==> sorted[i].ref in before || Cost(sorted, picks) + sorted[i].tokenCost > budget)
  {
    ExclusionReason(sorted, {}, 0, budget, i);
    assert {} + IncludedRefs(sorted[..i], PicksFor(sorted, budget)[..i]) ==
           IncludedRefs(sorted[..i], PicksFor(sorted, budget)[..i]);
  }

  /** The pressure levels as percentages of the budget, negative ones included. */
  lemma PressureLevels(used: int, budget: int)
    ensures PressureOf(used, budget) == Critical <==> used >= budget
    ensures PressureOf(used, budget) == Pressured <==> used < budget && 100 * used > 80 * budget
  {
    if budget >= 0 {
      var q := budget * 80 / 100;
      assert q * 100 <= budget * 80 < q * 100 + 100;
    } else {
      var q := -(budget * 80) / 100;
      assert q * 100 <= -(budget * 80) < q * 100 + 100;
    }
  }

  // ---------- what the caller's array says ----------

  lemma {:induction false} SameCount(s1: seq<Source>, s2: seq<Source>, picks: seq<bool>, a: string)
    requires |s1| == |s2| == |picks| && forall i | 0 <= i < |s1| :: s1[i].authority == s2[i].authority
    ensures Count(s1, picks, a) == Count(s2, picks, a)
    decreases |s1|
  {
    if s1 != [] {
      SameCount(s1[1..], s2[1..], picks[1..], a);
    }
  }

  lemma {:induction false} NoneTwice(s: seq<Source>, seen: set<string>, used: int, budget: int, i: nat, j: nat)
    requires i < j < |s| && Picks(s, seen, used, budget)[j]
    ensures s[j].ref !in seen && (Picks(s, seen, used, budget)[i] ==> s[i].ref != s[j].ref)
    decreases |s|
  {
    var skip := s[0].ref in seen || used + s[0].tokenCost > budget;
    var seen', used' := if skip then seen else seen + {s[0].ref}, if skip then used else used + s[0].tokenCost;
    assert Picks(s, seen, used, budget)[1..] == Picks(s[1..], seen', used', budget);
    if i > 0 {
      NoneTwice(s[1..], seen', used', budget, i - 1, j - 1);
    } else {
      PickedIsNew(s[1..], seen', used', budget, j - 1);
    }
  }

  lemma {:induction false} PickedIsNew(s: seq<Source>, seen: set<string>, used: int, budget: int, j: nat)
    requires j < |s| && Picks(s, seen, used, budget)[j]
    ensures s[j].ref !in seen
    decreases |s|
  {
    if j > 0 {
      var skip := s[0].ref in seen || used + s[0].tokenCost > budget;
      PickedIsNew(s[1..], if skip then seen else seen + {s[0].ref}, if skip then used else used + s[0].tokenCost,
                  budget, j - 1);
    }
  }

  /** What the packed array says: the sources marked as included cost no more than a budget that
      is not negative, none repeats a reference, and each one left out repeats an included
      reference or would not fit beside those included. */
  lemma PackedMeans(result: seq<Source>, sorted: seq<Source>, budget: int)
    requires PackedFrom(result, sorted, PicksFor(sorted, budget))
    ensures budget >= 0 ==> Cost(result, Flags(result)) <= budget
    ensures forall i, j | 0 <= i < j < |result| && result[i].included && result[j].included ::
              result[i].ref != result[j].ref
    ensures NonNegative(sorted) ==>
              forall i | 0 <= i < |result| && !result[i].included ::
                || (exists j :: 0 <= j < i && result[j].included && result[j].ref == result[i].ref)
                || Cost(result, Flags(result)) + result[i].tokenCost > budget
  {
    var picks := PicksFor(sorted, budget);
    assert Flags(result) == picks;
    SameCost(result, sorted, picks);
    if budget >= 0 {
      EstimateWithinBudget(sorted, budget);
    }
    forall i, j | 0 <= i < j < |result| && result[i].included && result[j].included
      ensures result[i].ref != result[j].ref
    {
      NoneTwice(sorted, {}, 0, budget, i, j);
    }
    if NonNegative(sorted) {
      forall i | 0 <= i < |result| && !result[i].included
        ensures || (exists j :: 0 <= j < i && result[j].included && result[j].ref == result[i].ref)
                || Cost(result, Flags(result)) + result[i].tokenCost > budget
      {
        LeftOutForAReason(result, sorted, budget, i);
      }
    }
  }

  lemma LeftOutForAReason(result: seq<Source>, sorted: seq<Source>, budget: int, i: nat)
    requires PackedFrom(result, sorted, PicksFor(sorted, budget)) && NonNegative(sorted)
    requires i < |result| && !result[i].included
    ensures || (exists j :: 0 <= j < i && result[j].included && result[j].ref == result[i].ref)
            || Cost(sorted, PicksFor(sorted, budget)) + result[i].tokenCost > budget
  {
    var picks := PicksFor(sorted, budget);
    ExcludedForAReason(sorted, budget, i);
    hide PicksFor, Cost;
    if sorted[i].ref in IncludedRefs(sorted[..i], picks[..i]) {
      var j :| 0 <= j < i && picks[..i][j] && sorted[..i][j].ref == sorted[i].ref;
      assert result[j].included && result[j].ref == result[i].ref;
    }
  }

  /** With distinct references and no negative cost, no other selection of the array's sources
      within the budget has a greater vector of per-authority counts than its flags. */
  lemma PackedIsOptimal(result: seq<Source>, sorted: seq<Source>, budget: int, t: seq<bool>)
    requires PackedFrom(result, sorted, PicksFor(sorted, budget)) && Sorted(sorted)
    requires DistinctRefs(result) && NonNegative(result)
    requires |t| == |result| && Cost(result, t) <= budget
    ensures NotAbove(result, t, Flags(result))
  {
    var picks := PicksFor(sorted, budget);
    assert Flags(result) == picks;
    SameCost(result, sorted, t);
    assert DistinctRefs(sorted) && NonNegative(sorted) by {
      assert forall i | 0 <= i < |sorted| ::
          sorted[i].ref == result[i].ref && sorted[i].tokenCost == result[i].tokenCost;
    }
    PackIsOptimal(sorted, budget, t);
    forall a: string
      ensures Count(result, t, a) == Count(sorted, t, a) && Count(result, picks, a) == Count(sorted, picks, a)
    {
      SameCount(result, sorted, t, a);
      SameCount(result, sorted, picks, a);
    }
    hide PicksFor, Count, Cost;
  }

  /** Two calls on the same sources in any two orders leave arrays that include the same
      references at the same total. */
  lemma PackedAlike(
    input1: seq<Source>, input2: seq<Source>, sorted1: seq<Source>, sorted2: seq<Source>,
    result1: seq<Source>, result2: seq<Source>, budget: int)
    requires multiset(input1) == multiset(input2)
    requires SortedArrangement(sorted1, input1) && SortedArrangement(sorted2, input2)
    requires PackedFrom(result1, sorted1, PicksFor(sorted1, budget))
    requires PackedFrom(result2, sorted2, PicksFor(sorted2, budget))
    ensures IncludedRefs(result1, Flags(result1)) == IncludedRefs(result2, Flags(result2))
    ensures Cost(result1, Flags(result1)) == Cost(result2, Flags(result2))
  {
    OrderDoesNotMatter(input1, input2, sorted1, sorted2, budget);
    assert Flags(result1) == PicksFor(sorted1, budget) && Flags(result2) == PicksFor(sorted2, budget);
    SameCost(result1, sorted1, PicksFor(sorted1, budget));
    SameCost(result2, sorted2, PicksFor(sorted2, budget));
    SameRefs(result1, sorted1, PicksFor(sorted1, budget));
    SameRefs(result2, sorted2, PicksFor(sorted2, budget));
  }

  lemma SameRefs(s1: seq<Source>, s2: seq<Source>, picks: seq<bool>)
    requires |s1| == |s2| == |picks| && forall i | 0 <= i < |s1| :: s1[i].ref == s2[i].ref
    ensures IncludedRefs(s1, picks) == IncludedRefs(s2, picks)
  {
    forall r ensures r in IncludedRefs(s1, picks) <==> r in IncludedRefs(s2, picks) {
      if r in IncludedRefs(s1, picks) {
        var i :| 0 <= i < |s1| && picks[i] && s1[i].ref == r;
        assert s2[i].ref == r;
      }
      if r in IncludedRefs(s2, picks) {
        var i :| 0 <= i < |s2| && picks[i] && s2[i].ref == r;
        assert s1[i].ref == r;
      }
    }
  }
}
