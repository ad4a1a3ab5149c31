/** The context packer of internal/contextcompiler/context.go: an unstable in-place sort by
    authority, cost and reference, then a greedy pack under a token budget. */
module ContextPacker {
  import opened Text
  import opened Sorting

  datatype Source = Source(
    ref: string, authority: string, freshness: string, tokenCost: int, included: bool, reason: string)

  datatype Pressure = Healthy | Pressured | Critical

  datatype Manifest = Manifest(runId: string, estimatedTokens: int, pressure: Pressure)

  const PACK_REASON := "deterministic priority pack"

  // ---------- the order ----------

  datatype Key = Key(authority: string, cost: int, ref: string)

  function KeyOf(s: Source): Key {
    Key(s.authority, s.tokenCost, s.ref)
  }

  predicate KeyLess(a: Key, b: Key) {
    if a.authority != b.authority then Less(a.authority, b.authority)
    else if a.cost != b.cost then a.cost < b.cost
    else Less(a.ref, b.ref)
  }

  lemma KeyLessTotal(a: Key, b: Key)
    ensures a == b || KeyLess(a, b) || KeyLess(b, a)
    ensures !(KeyLess(a, b) && KeyLess(b, a)) && !KeyLess(a, a)
  {
    LessTotal(a.authority, b.authority);
    LessTotal(a.ref, b.ref);
    LessTotal(a.ref, a.ref);
  }

  lemma KeyLessTransitive(a: Key, b: Key, c: Key)
    requires !KeyLess(b, a) && !KeyLess(c, b)
    ensures !KeyLess(c, a)
  {
    KeyLessTotal(a, b);
    KeyLessTotal(b, c);
    KeyLessTotal(a, c);
    if KeyLess(a, b) && KeyLess(b, c) && KeyLess(c, a) {
      KeyChain(a, b, c);
    }
  }

  lemma KeyChain(a: Key, b: Key, c: Key)
    requires KeyLess(a, b) && KeyLess(b, c)
    ensures KeyLess(a, c)
  {
    LessTotal(a.authority, b.authority);
    LessTotal(b.authority, c.authority);
    LessTotal(a.authority, c.authority);
    if Less(a.authority, b.authority) && Less(b.authority, c.authority) {
      LessTransitive(a.authority, b.authority, c.authority);
    }
    if Less(a.ref, b.ref) && Less(b.ref, c.ref) {
      LessTransitive(a.ref, b.ref, c.ref);
    }
  }

  lemma KeyLessIsTotalOrder()
    ensures Total(KeyLess)
  {
    hide KeyLess;
    forall a, b ensures KeyLess(a, b) ==> !KeyLess(b, a) ensures !KeyLess(a, b) && !KeyLess(b, a) ==> a == b {
      KeyLessTotal(a, b);
    }
    forall a, b, c | !KeyLess(b, a) && !KeyLess(c, b) ensures !KeyLess(c, a) {
      KeyLessTransitive(a, b, c);
    }
  }

  /** The comparison the sort is given. */
  predicate SourceLess(a: Source, b: Source) {
    KeyLess(KeyOf(a), KeyOf(b))
  }

  lemma SourceLessIsStrictWeak()
    ensures StrictWeak(SourceLess)
  {
    KeyLessIsTotalOrder();
    hide KeyLess;
  }

  ghost function Keys(s: seq<Source>): (keys: seq<Key>)
    ensures |keys| == |s| && forall i | 0 <= i < |s| :: keys[i] == KeyOf(s[i])
  {
    seq(|s|, i requires 0 <= i < |s| => KeyOf(s[i]))
  }

  ghost predicate Sorted(s: seq<Source>) {
    SortedBy(SourceLess, s)
  }

  /** What sort.Slice promises: some sorted arrangement, ties in any order. */
  ghost predicate SortedArrangement(sorted: seq<Source>, sources: seq<Source>) {
    Sorted(sorted) && multiset(sorted) == multiset(sources)
  }

  /** Stands for sort.Slice: callers know no more than that the result is sorted. */
  method SortSources(a: array<Source>)
    modifies a
    ensures SortedArrangement(a[..], old(a[..]))
  {
    var s := SortBy(SourceLess, a[..]);
    SourceLessIsStrictWeak();
    SortBySorts(SourceLess, a[..]);
    assert |s| == |multiset(s)| == |multiset(a[..])| == a.Length;
    forall i | 0 <= i < a.Length {
      a[i] := s[i];
    }
    assert a[..] == s;
  }

  // ---------- the pack ----------

  /** Which of `s` the loop includes, given the references and tokens already taken. */
  function Picks(s: seq<Source>, seen: set<string>, used: int, budget: int): (picks: seq<bool>)
    ensures |picks| == |s|
    decreases |s|
  {
    if s == [] then []
    else if s[0].ref in seen || used + s[0].tokenCost > budget then [false] + Picks(s[1..], seen, used, budget)
    else [true] + Picks(s[1..], seen + {s[0].ref}, used + s[0].tokenCost, budget)
  }

  /** The total cost of a selection. */
  ghost function Cost(s: seq<Source>, picks: seq<bool>): int
    requires |picks| == |s|
    decreases |s|
  {
    if s == [] then 0 else (if picks[0] then s[0].tokenCost else 0) + Cost(s[1..], picks[1..])
  }

  /** Which sources are marked as included. */
  function Flags(s: seq<Source>): (flags: seq<bool>)
    ensures |flags| == |s|
  {
    seq(|s|, i requires 0 <= i < |s| => s[i].included)
  }

  /** A source after the pack: marked as included exactly if it was picked, for the pack's reason;
      nothing else about it has changed. */
  ghost predicate PackedAs(source: Source, was: Source, pick: bool) {
    && (source.included <==> pick)
    && source.reason == (if source.included then PACK_REASON else was.reason)
    && source.ref == was.ref && source.authority == was.authority
    && source.freshness == was.freshness && source.tokenCost == was.tokenCost
  }

  ghost predicate PackedFrom(result: seq<Source>, sorted: seq<Source>, picks: seq<bool>)
    requires |picks| == |sorted|
  {
    |result| == |sorted| && forall i | 0 <= i < |result| :: PackedAs(result[i], sorted[i], picks[i])
  }

  /** The total of a selection depends on the costs alone. */
  lemma {:induction false} SameCost(s1: seq<Source>, s2: seq<Source>, picks: seq<bool>)
    requires |s1| == |s2| == |picks| && forall i | 0 <= i < |s1| :: s1[i].tokenCost == s2[i].tokenCost
    ensures Cost(s1, picks) == Cost(s2, picks)
    decreases |s1|
  {
    if s1 != [] {
      SameCost(s1[1..], s2[1..], picks[1..]);
    }
  }

  /** Go's division truncates toward zero. */
  function Quotient(a: int, b: int): int
    requires b > 0
  {
    if a >= 0 then a / b else -((-a) / b)
  }

  function PressureOf(used: int, budget: int): Pressure {
    if used >= budget then Critical
    else if used > Quotient(budget * 80, 100) then Pressured
    else Healthy
  }

  ghost function PicksFor(sorted: seq<Source>, budget: int): (picks: seq<bool>)
    ensures |picks| == |sorted|
  {
    Picks(sorted, {}, 0, budget)
  }

  lemma {:induction false} CostSnoc(s: seq<Source>, picks: seq<bool>, x: Source, pick: bool)
    requires |picks| == |s|
    ensures Cost(s + [x], picks + [pick]) == Cost(s, picks) + if pick then x.tokenCost else 0
    decreases |s|
  {
    if s == [] {
      assert (s + [x])[1..] == [] && (picks + [pick])[1..] == [];
    } else {
      assert (s + [x])[1..] == s[1..] + [x] && (picks + [pick])[1..] == picks[1..] + [pick];
      CostSnoc(s[1..], picks[1..], x, pick);
    }
  }

  /** The pack loop's state after `i` sources. */
  ghost predicate Packing(s: seq<Source>, budget: int, i: nat, done: seq<bool>, seen: set<string>, used: int) {
    && i <= |s| && |done| == i
    && done + Picks(s[i..], seen, used, budget) == PicksFor(s, budget)
    && used == Cost(s[..i], done)
  }

  lemma PackingNext(s: seq<Source>, budget: int, i: nat, done: seq<bool>, seen: set<string>, used: int)
    requires Packing(s, budget, i, done, seen, used) && i < |s|
    ensures if s[i].ref in seen || used + s[i].tokenCost > budget
            then Packing(s, budget, i + 1, done + [false], seen, used)
            else Packing(s, budget, i + 1, done + [true], seen + {s[i].ref}, used + s[i].tokenCost)
  {
    assert s[i..][1..] == s[i + 1..];
    assert s[..i] + [s[i]] == s[..i + 1];
    CostSnoc(s[..i], done, s[i], true);
    CostSnoc(s[..i], done, s[i], false);
    if s[i].ref in seen || used + s[i].tokenCost > budget {
      assert done + ([false] + Picks(s[i + 1..], seen, used, budget)) ==
             done + [false] + Picks(s[i + 1..], seen, used, budget);
    } else {
      var rest := Picks(s[i + 1..], seen + {s[i].ref}, used + s[i].tokenCost, budget);
      assert done + ([true] + rest) == done + [true] + rest;
    }
  }

  lemma PackingStart(s: seq<Source>, budget: int)
    ensures Packing(s, budget, 0, [], {}, 0)
  {
    assert s[0..] == s && [] + PicksFor(s, budget) == PicksFor(s, budget);
  }

  lemma PackingEnd(s: seq<Source>, budget: int, done: seq<bool>, seen: set<string>, used: int)
    requires Packing(s, budget, |s|, done, seen, used)
    ensures done == PicksFor(s, budget) && used == Cost(s, done)
  {
    assert s[..|s|] == s && done + [] == done;
  }

  lemma AllPacked(result: seq<Source>, sorted: seq<Source>, picks: seq<bool>)
    requires |result| == |sorted| == |picks|
    requires forall i | 0 <= i < |result| :: PackedAs(result[i], sorted[i], picks[i])
    ensures PackedFrom(result, sorted, picks)
  {
  }

  lemma MarksOne(s: Source)
    ensures PackedAs(s.(included := false), s, false)
    ensures PackedAs(s.(included := true, reason := PACK_REASON), s, true)
  {
  }

  /** The greedy loop over the sorted array. */
  method Pack(sources: array<Source>, budget: int) returns (used: int)
    modifies sources
    ensures PackedFrom(sources[..], old(sources[..]), PicksFor(old(sources[..]), budget))
    ensures used == Cost(old(sources[..]), PicksFor(old(sources[..]), budget))
  {
    ghost var sorted := sources[..];
    ghost var done: seq<bool> := [];
    var seen: set<string> := {};
    used := 0;
    PackingStart(sorted, budget);
    hide *;
    for i := 0 to sources.Length
      invariant |done| == i && Packing(sorted, budget, i, done, seen, used)
      invariant forall k | 0 <= k < i :: PackedAs(sources[k], sorted[k], done[k])
      invariant forall k | i <= k < sources.Length :: sources[k] == sorted[k]
    {
      PackingNext(sorted, budget, i, done, seen, used);
      MarksOne(sorted[i]);
      var source := sources[i];
      if source.ref in seen || used + source.tokenCost > budget {
        source := source.(included := false);
        done := done + [false];
      } else {
        seen := seen + {source.ref};
        used := used + source.tokenCost;
        source := source.(included := true, reason := PACK_REASON);
        done := done + [true];
      }
      sources[i] := source;
    }
    PackingEnd(sorted, budget, done, seen, used);
    AllPacked(sources[..], sorted, done);
  }

  /** Packs the caller's array in place; `sorted` is the arrangement the sort left. The estimate
      is the total of what the array says is included. */
  method Compile(runId: string, sources: array<Source>, budget: int) returns (m: Manifest, ghost sorted: seq<Source>)
    modifies sources
    ensures SortedArrangement(sorted, old(sources[..]))
    ensures PackedFrom(sources[..], sorted, PicksFor(sorted, budget))
    ensures var total := Cost(sources[..], Flags(sources[..]));
            m == Manifest(runId, total, PressureOf(total, budget))
  {
    SortSources(sources);
    sorted := sources[..];
    var used := Pack(sources, budget);
    assert Flags(sources[..]) == PicksFor(sorted, budget);
    SameCost(sources[..], sorted, PicksFor(sorted, budget));
    var pressure := Healthy;
    if used > Quotient(budget * 80, 100) {
      pressure := Pressured;
    }
    if used >= budget {
      pressure := Critical;
    }
    m := Manifest(runId, used, pressure);
  }
}
