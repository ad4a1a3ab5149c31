/** Scope inheritance in internal/agentsurface/ir.go as prefix extension, and when it holds. */
module AgentTheorems {
  import opened Text
  import opened Sorting
  import opened AgentRules

  /** The first rule's scope encloses the second's and is not the same. */
  ghost predicate Encloses(outer: Rule, inner: Rule) {
    ScopeContains(outer.scope, inner.scope) && !ScopeContains(inner.scope, outer.scope)
  }

  /** An enclosing rule is compiled before the rule it encloses, whichever is declared first. */
  ghost predicate NestingRespected(rules: seq<Rule>) {
    forall i, j | 0 <= i < j < |rules| ::
      && (Encloses(rules[i], rules[j]) ==> !Before(Normalised(rules[j]), Normalised(rules[i])))
      && (Encloses(rules[j], rules[i]) ==> Before(Normalised(rules[j]), Normalised(rules[i])))
  }

  /** A narrower target keeps the rules of a wider one, in place, and only adds after them. */
  ghost predicate InheritsByExtension(rules: seq<Rule>) {
    forall s, t | ScopeContains(s, t) :: Effective(rules, s) <= Effective(rules, t)
  }

  lemma ScopeReflexive(s: string)
    ensures ScopeContains(s, s)
  {
  }

  // ---------- members of the sorted lists ----------

  lemma {:induction false} AppliedOrigin(rules: seq<Rule>, target: string, v: Rule) returns (i: nat)
    requires v in Applying(rules, target)
    ensures i < |rules| && ScopeContains(rules[i].scope, target) && Normalised(rules[i]) == v
  {
    var init := rules[..|rules| - 1];
    hide ScopeContains, Normalised;
    if v in Applying(init, target) {
      i := AppliedOrigin(init, target, v);
      assert rules[i] == init[i];
    } else {
      i := |rules| - 1;
    }
  }

  lemma InAppend<T>(a: seq<T>, b: seq<T>, x: T)
    ensures x in a + b <==> x in a || x in b
  {
  }

  lemma ApplyingSnoc(rules: seq<Rule>, target: string)
    requires rules != []
    ensures var last := rules[|rules| - 1];
            Applying(rules, target) == Applying(rules[..|rules| - 1], target) +
                                       if ScopeContains(last.scope, target) then [Normalised(last)] else []
  {
  }

  lemma {:induction false} Applied(rules: seq<Rule>, target: string, i: nat)
    requires i < |rules| && ScopeContains(rules[i].scope, target)
    ensures Normalised(rules[i]) in Applying(rules, target)
  {
    hide *;
    var init, last := rules[..|rules| - 1], rules[|rules| - 1];
    ApplyingSnoc(rules, target);
    InAppend(Applying(init, target), if ScopeContains(last.scope, target) then [Normalised(last)] else [],
             Normalised(rules[i]));
    if i < |init| {
      assert init[i] == rules[i];
      Applied(init, target, i);
    }
  }

  lemma EffectiveOrigin(rules: seq<Rule>, target: string, v: Rule) returns (i: nat)
    requires v in Effective(rules, target)
    ensures i < |rules| && ScopeContains(rules[i].scope, target) && Normalised(rules[i]) == v
  {
    SortedMembers(Applying(rules, target), v);
    i := AppliedOrigin(rules, target, v);
  }

  lemma EffectiveHas(rules: seq<Rule>, target: string, i: nat)
    requires i < |rules| && ScopeContains(rules[i].scope, target)
    ensures Normalised(rules[i]) in Effective(rules, target)
  {
    Applied(rules, target, i);
    SortedMembers(Applying(rules, target), Normalised(rules[i]));
  }

  lemma {:induction false} EffectiveOnly(rules: seq<Rule>, target: string, v: Rule)
    requires v in Effective(rules, target)
    ensures Within(v.scope, NormalScope(target))
  {
    var i := EffectiveOrigin(rules, target, v);
  }

  lemma SortedMembers(s: seq<Rule>, y: Rule)
    ensures y in SortBy(Before, s) <==> y in s
  {
    BeforeIsStrictWeak();
    SortByMembers(Before, s, y);
  }

  // ---------- enough: nested rules in order ----------

  /** The rules a target adds to those of an enclosing scope. */
  ghost function Added(rules: seq<Rule>, s: string, t: string): seq<Rule> {
    if rules == [] then []
    else
      var last := rules[|rules| - 1];
      Added(rules[..|rules| - 1], s, t) +
      if ScopeContains(last.scope, t) && !ScopeContains(last.scope, s) then [Normalised(last)] else []
  }

  lemma {:induction false} AddedOrigin(rules: seq<Rule>, s: string, t: string, v: Rule) returns (i: nat)
    requires v in Added(rules, s, t)
    ensures i < |rules| && Normalised(rules[i]) == v
    ensures ScopeContains(rules[i].scope, t) && !ScopeContains(rules[i].scope, s)
  {
    var init := rules[..|rules| - 1];
    hide ScopeContains, Normalised;
    if v in Added(init, s, t) {
      i := AddedOrigin(init, s, t, v);
      assert rules[i] == init[i];
    } else {
      i := |rules| - 1;
    }
  }

  /** A rule of the wider scope encloses every rule only the narrower one has. */
  lemma WiderEncloses(s: string, t: string, wide: Rule, narrow: Rule)
    requires ScopeContains(s, t) && ScopeContains(wide.scope, s)
    requires ScopeContains(narrow.scope, t) && !ScopeContains(narrow.scope, s)
    ensures Encloses(wide, narrow)
  {
    var ns, nt, w, n := NormalScope(s), NormalScope(t), NormalScope(wide.scope), NormalScope(narrow.scope);
    WithinComparable(ns, n, nt);
    WithinTransitive(w, ns, n);
    if Within(n, w) {
      WithinTransitive(n, w, ns);
    }
  }

  lemma PrefixRespects(rules: seq<Rule>)
    requires NestingRespected(rules) && rules != []
    ensures NestingRespected(rules[..|rules| - 1])
  {
  }

  /** Sorting the rules of the narrower scope sorts the inherited ones and the added ones apart. */
  lemma {:induction false} SortsApart(rules: seq<Rule>, s: string, t: string)
    requires NestingRespected(rules) && ScopeContains(s, t)
    ensures Effective(rules, t) == Effective(rules, s) + SortBy(Before, Added(rules, s, t))
  {
    if rules != [] {
      var init, x := rules[..|rules| - 1], Normalised(rules[|rules| - 1]);
      PrefixRespects(rules);
      SortsApart(init, s, t);
      SortBySnoc(Before, Applying(init, s), x);
      SortBySnoc(Before, Applying(init, t), x);
      SortBySnoc(Before, Added(init, s, t), x);
      if ScopeContains(rules[|rules| - 1].scope, s) {
        ContainsThrough(rules[|rules| - 1].scope, s, t);
        GoesInFront(rules, s, t);
      } else if ScopeContains(rules[|rules| - 1].scope, t) {
        GoesBehind(rules, s, t);
      }
    }
  }

  lemma GoesInFront(rules: seq<Rule>, s: string, t: string)
    requires rules != [] && NestingRespected(rules) && ScopeContains(s, t)
    requires ScopeContains(rules[|rules| - 1].scope, s)
    ensures var init, x := rules[..|rules| - 1], Normalised(rules[|rules| - 1]);
            var a, b := Effective(init, s), SortBy(Before, Added(init, s, t));
            InsertBy(Before, a + b, x) == InsertBy(Before, a, x) + b
  {
    var init, x := rules[..|rules| - 1], Normalised(rules[|rules| - 1]);
    var a, b := Effective(init, s), SortBy(Before, Added(init, s, t));
    hide *;
    forall y | y in b ensures Before(x, y) {
      SortedMembers(Added(init, s, t), y);
      var i := AddedOrigin(init, s, t, y);
      assert rules[i] == init[i];
      LaterIsBefore(rules, s, t, i);
    }
    InsertInFront(Before, a, b, x);
  }

  lemma GoesBehind(rules: seq<Rule>, s: string, t: string)
    requires rules != [] && NestingRespected(rules) && ScopeContains(s, t)
    requires ScopeContains(rules[|rules| - 1].scope, t) && !ScopeContains(rules[|rules| - 1].scope, s)
    ensures var init, x := rules[..|rules| - 1], Normalised(rules[|rules| - 1]);
            var a, b := Effective(init, s), SortBy(Before, Added(init, s, t));
            InsertBy(Before, a + b, x) == a + InsertBy(Before, b, x)
  {
    var init, x := rules[..|rules| - 1], Normalised(rules[|rules| - 1]);
    var a, b := Effective(init, s), SortBy(Before, Added(init, s, t));
    hide *;
    forall y | y in a ensures !Before(x, y) {
      var i := EffectiveOrigin(init, s, y);
      assert rules[i] == init[i];
      LaterIsNotBefore(rules, s, t, i);
    }
    InsertBehind(Before, a, b, x);
  }

  lemma ContainsThrough(r: string, s: string, t: string)
    requires ScopeContains(r, s) && ScopeContains(s, t)
    ensures ScopeContains(r, t)
  {
    WithinTransitive(NormalScope(r), NormalScope(s), NormalScope(t));
  }

  /** The last rule, if the wider scope has it, goes before what only the narrower one has. */
  lemma LaterIsBefore(rules: seq<Rule>, s: string, t: string, i: nat)
    requires i < |rules| - 1 && NestingRespected(rules) && ScopeContains(s, t)
    requires ScopeContains(rules[|rules| - 1].scope, s)
    requires ScopeContains(rules[i].scope, t) && !ScopeContains(rules[i].scope, s)
    ensures Before(Normalised(rules[|rules| - 1]), Normalised(rules[i]))
  {
    WiderEncloses(s, t, rules[|rules| - 1], rules[i]);
  }

  lemma LaterIsNotBefore(rules: seq<Rule>, s: string, t: string, i: nat)
    requires i < |rules| - 1 && NestingRespected(rules) && ScopeContains(s, t)
    requires ScopeContains(rules[|rules| - 1].scope, t) && !ScopeContains(rules[|rules| - 1].scope, s)
    requires ScopeContains(rules[i].scope, s)
    ensures !Before(Normalised(rules[|rules| - 1]), Normalised(rules[i]))
  {
    WiderEncloses(s, t, rules[i], rules[|rules| - 1]);
  }

  // ---------- and needed ----------

  /** In a list that inherits by extension the outer rule stands before the inner one. */
  lemma OuterStandsFirst(rules: seq<Rule>, outer: nat, inner: nat) returns (p: nat, q: nat)
    requires InheritsByExtension(rules) && outer < |rules| && inner < |rules| && Encloses(rules[outer], rules[inner])
    ensures var wide, all := Effective(rules, rules[outer].scope), Effective(rules, rules[inner].scope);
            && wide <= all && p < |wide| <= q < |all|
            && all[p] == Normalised(rules[outer]) && all[q] == Normalised(rules[inner])
            && Normalised(rules[inner]) !in wide
  {
    var s, t := rules[outer].scope, rules[inner].scope;
    ScopeReflexive(s);
    ScopeReflexive(t);
    EffectiveHas(rules, s, outer);
    EffectiveHas(rules, t, inner);
    var o, n := Normalised(rules[outer]), Normalised(rules[inner]);
    var wide, all := Effective(rules, s), Effective(rules, t);
    assert n !in wide by {
      assert n in wide ==> Within(n.scope, NormalScope(s)) by {
        if n in wide { EffectiveOnly(rules, s, n); }
      }
    }
    p, q := SplitPositions(wide, all, o, n);
  }

  lemma SplitPositions<T>(a: seq<T>, all: seq<T>, x: T, y: T) returns (p: nat, q: nat)
    requires a <= all && x in a && y in all && y !in a
    ensures p < |a| <= q < |all| && all[p] == x && all[q] == y
  {
    var rest := all[|a|..];
    assert all == a + rest;
    p :| 0 <= p < |a| && a[p] == x;
    var k :| 0 <= k < |rest| && rest[k] == y;
    q := |a| + k;
  }

  lemma OuterIsNotAfter(rules: seq<Rule>, outer: nat, inner: nat)
    requires InheritsByExtension(rules) && outer < |rules| && inner < |rules| && Encloses(rules[outer], rules[inner])
    ensures !Before(Normalised(rules[inner]), Normalised(rules[outer]))
  {
    var p, q := OuterStandsFirst(rules, outer, inner);
    SortArranges(Applying(rules, rules[inner].scope));
    assert !Before(Effective(rules, rules[inner].scope)[q], Effective(rules, rules[inner].scope)[p]);
  }

  /** Filtering by a target keeps the declared order. */
  lemma {:induction false} ApplyingOrder(rules: seq<Rule>, t: string, i: nat, j: nat) returns (p: nat, q: nat)
    requires i < j < |rules| && ScopeContains(rules[i].scope, t) && ScopeContains(rules[j].scope, t)
    ensures p < q < |Applying(rules, t)|
    ensures Applying(rules, t)[p] == Normalised(rules[i]) && Applying(rules, t)[q] == Normalised(rules[j])
  {
    hide *;
    var init := rules[..|rules| - 1];
    ApplyingSnoc(rules, t);
    assert init[i] == rules[i];
    if j == |rules| - 1 {
      Applied(init, t, i);
      p :| 0 <= p < |Applying(init, t)| && Applying(init, t)[p] == Normalised(rules[i]);
      q := |Applying(init, t)|;
    } else {
      assert init[j] == rules[j];
      p, q := ApplyingOrder(init, t, i, j);
    }
  }

  /** A rule that applies to both targets occurs as often for either. */
  lemma {:induction false} SameOccurrences(rules: seq<Rule>, s: string, t: string, v: Rule)
    requires Within(v.scope, NormalScope(s)) && Within(v.scope, NormalScope(t))
    ensures multiset(Applying(rules, s))[v] == multiset(Applying(rules, t))[v]
  {
    if rules != [] {
      SameOccurrences(rules[..|rules| - 1], s, t, v);
    }
  }

  /** The effective rules of the inner rule's scope: the outer rule occurs only among the
      inherited ones, the inner rule only among the others. */
  lemma InheritedHalves(rules: seq<Rule>, outer: nat, inner: nat) returns (wide: seq<Rule>, rest: seq<Rule>)
    requires InheritsByExtension(rules) && outer < |rules| && inner < |rules| && Encloses(rules[outer], rules[inner])
    ensures Effective(rules, rules[inner].scope) == wide + rest
    ensures Normalised(rules[inner]) !in wide && Normalised(rules[outer]) !in rest
  {
    var s, t := rules[outer].scope, rules[inner].scope;
    var _, _ := OuterStandsFirst(rules, outer, inner);
    ScopeReflexive(s);
    assert Within(NormalScope(s), NormalScope(t));
    hide Effective, NormalScope;
    wide := Effective(rules, s);
    rest := Effective(rules, t)[|wide|..];
    assert Effective(rules, t) == wide + rest;
    OnlyAmongInherited(rules, s, t, Normalised(rules[outer]), wide, rest);
  }

  lemma EffectiveTies(rules: seq<Rule>, t: string, r: Rule)
    ensures Ties(Before, Effective(rules, t), r) == Ties(Before, Applying(rules, t), r)
  {
    hide Ties, Before;
    SortArranges(Applying(rules, t));
  }

  /** Among the ties of the outer rule, it stands before the inner one wherever they occur. */
  lemma InheritedTiesFirst(rules: seq<Rule>, outer: nat, inner: nat, p: nat, q: nat)
    requires InheritsByExtension(rules) && outer < |rules| && inner < |rules| && Encloses(rules[outer], rules[inner])
    requires var o, n := Normalised(rules[outer]), Normalised(rules[inner]);
             var ties := Ties(Before, Applying(rules, rules[inner].scope), o);
             p < |ties| && q < |ties| && ties[p] == n && ties[q] == o
    ensures q < p
  {
    hide *;
    var o, n := Normalised(rules[outer]), Normalised(rules[inner]);
    var wide, rest := InheritedHalves(rules, outer, inner);
    EffectiveTies(rules, rules[inner].scope, o);
    TiesOfHalves(Before, wide, rest, o, n, p, q);
  }

  /** Two rules that apply and tie keep their declared order among the ties. */
  lemma DeclaredOrder(rules: seq<Rule>, t: string, i: nat, j: nat) returns (p: nat, q: nat)
    requires i < j < |rules| && ScopeContains(rules[i].scope, t) && ScopeContains(rules[j].scope, t)
    requires !Before(Normalised(rules[i]), Normalised(rules[j])) && !Before(Normalised(rules[j]), Normalised(rules[i]))
    ensures var ties := Ties(Before, Applying(rules, t), Normalised(rules[j]));
            p < q < |ties| && ties[p] == Normalised(rules[i]) && ties[q] == Normalised(rules[j])
  {
    var o, n := Normalised(rules[j]), Normalised(rules[i]);
    var pi, pj := ApplyingOrder(rules, t, i, j);
    BeforeIsStrictOrder(o, o, o);
    TiesMembers(Before, Applying(rules, t), o, n);
    TiesMembers(Before, Applying(rules, t), o, o);
    p, q := TiesOrder(Before, Applying(rules, t), o, pi, pj);
  }

  /** An outer rule declared later cannot tie with an inner one declared earlier. */
  lemma LaterOuterIsBefore(rules: seq<Rule>, i: nat, j: nat)
    requires InheritsByExtension(rules) && i < j < |rules| && Encloses(rules[j], rules[i])
    ensures Before(Normalised(rules[j]), Normalised(rules[i]))
  {
    OuterIsNotAfter(rules, j, i);
    ScopeReflexive(rules[i].scope);
    if !Before(Normalised(rules[j]), Normalised(rules[i])) {
      var p, q := DeclaredOrder(rules, rules[i].scope, i, j);
      InheritedTiesFirst(rules, j, i, p, q);
      assert false;
    }
  }

  lemma OnlyAmongInherited(rules: seq<Rule>, s: string, t: string, o: Rule, wide: seq<Rule>, rest: seq<Rule>)
    requires wide == Effective(rules, s) && wide + rest == Effective(rules, t)
    requires Within(o.scope, NormalScope(s)) && Within(o.scope, NormalScope(t))
    ensures o !in rest
  {
    SortArranges(Applying(rules, s));
    SortArranges(Applying(rules, t));
    SameOccurrences(rules, s, t, o);
    assert multiset(wide + rest) == multiset(wide) + multiset(rest);
  }

  /** Inheritance by extension holds for every pair of scopes exactly when the compilation
      order respects the nesting of the declared scopes. */
  lemma InheritanceExactly(rules: seq<Rule>)
    ensures InheritsByExtension(rules) <==> NestingRespected(rules)
  {
    if NestingRespected(rules) {
      forall s, t | ScopeContains(s, t) ensures Effective(rules, s) <= Effective(rules, t) {
        SortsApart(rules, s, t);
      }
    }
    if InheritsByExtension(rules) {
      forall i, j | 0 <= i < j < |rules|
        ensures Encloses(rules[i], rules[j]) ==> !Before(Normalised(rules[j]), Normalised(rules[i]))
        ensures Encloses(rules[j], rules[i]) ==> Before(Normalised(rules[j]), Normalised(rules[i]))
      {
        if Encloses(rules[i], rules[j]) {
          OuterIsNotAfter(rules, i, j);
        }
        if Encloses(rules[j], rules[i]) {
          LaterOuterIsBefore(rules, i, j);
        }
      }
    }
  }

  // ---------- canonical scopes are always in order ----------

  /** Normalising the scope once is enough. */
  predicate CanonicalScope(r: Rule) {
    NormalScope(NormalScope(r.scope)) == NormalScope(r.scope)
  }

  lemma {:induction false} SlashesAppend(a: string, b: string)
    ensures Slashes(a + b) == Slashes(a) + Slashes(b)
  {
    if a == "" {
      assert a + b == b;
    } else {
      assert (a + b)[1..] == a[1..] + b;
      SlashesAppend(a[1..], b);
    }
  }

  /** Where normalising once is enough, an enclosing scope is strictly shallower. */
  lemma EnclosingIsShallower(outer: Rule, inner: Rule)
    requires CanonicalScope(outer) && CanonicalScope(inner) && Encloses(outer, inner)
    ensures Before(Normalised(outer), Normalised(inner))
  {
    var a, b := NormalScope(outer.scope), NormalScope(inner.scope);
    if a != "" {
      var rest := b[|a| + 1..];
      assert b == a + "/" + rest;
      SlashesAppend(a + "/", rest);
      SlashesAppend(a, "/");
      assert Slashes("/") == 1 + Slashes("") by {
        assert "/"[1..] == "";
      }
    }
  }

  lemma CanonicalScopesInherit(rules: seq<Rule>)
    requires forall r | r in rules :: CanonicalScope(r)
    ensures InheritsByExtension(rules)
  {
    forall i, j | 0 <= i < j < |rules|
      ensures Encloses(rules[i], rules[j]) ==> !Before(Normalised(rules[j]), Normalised(rules[i]))
      ensures Encloses(rules[j], rules[i]) ==> Before(Normalised(rules[j]), Normalised(rules[i]))
    {
      BeforeIsStrictOrder(Normalised(rules[i]), Normalised(rules[j]), Normalised(rules[i]));
      if Encloses(rules[i], rules[j]) {
        EnclosingIsShallower(rules[i], rules[j]);
      }
      if Encloses(rules[j], rules[i]) {
        EnclosingIsShallower(rules[j], rules[i]);
      }
    }
    InheritanceExactly(rules);
  }

  /** Not every scope is canonical: "a/ /" normalises to "a/ ", whose depth is taken after
      normalising it again to "a". A rule there with a smaller precedence is compiled before
      the rule of the scope around it. */
  lemma TwiceNormalisedScopeBreaksInheritance()
    ensures var outer, inner := Rule("x", "a", "", 1, [], []), Rule("y", "a/ /", "", 0, [], []);
            !CanonicalScope(inner) && !InheritsByExtension([outer, inner])
  {
    var outer, inner := Rule("x", "a", "", 1, [], []), Rule("y", "a/ /", "", 0, [], []);
    NormalScopeExamples();
    assert [outer, inner][0] == outer && [outer, inner][1] == inner;
    assert Encloses(outer, inner);
    assert Before(Normalised(inner), Normalised(outer));
    InheritanceExactly([outer, inner]);
  }

  lemma NormalScopeExamples()
    ensures NormalScope("a") == "a" && NormalScope("a/ /") == "a/ " && NormalScope("a/ ") == "a"
  {
    assert Trim("a") == "a" by { TrimIsTrimmed("a"); }
    assert TrimSlashesRight(TrimSlashesLeft("a")) == "a";
    assert Trim("a/ /") == "a/ /" by { TrimIsTrimmed("a/ /"); }
    assert "a/ /"[..3] == "a/ ";
    assert TrimSlashesRight("a/ /") == "a/ ";
    assert Trim("a/ ") == "a/" by {
      assert "a/ "[..2] == "a/";
      assert TrimLeft("a/ ") == "a/ ";
      assert TrimRight("a/ ") == TrimRight("a/") == "a/";
    }
    assert "a/"[..1] == "a";
    assert TrimSlashesRight("a/") == "a";
  }

  /** A path that needs no cleaning: no white space or slash at its ends, not the current
      directory and not given relative to it. */
  predicate CleanPath(s: string) {
    s != "" && Trimmed(s) && s[0] != '/' && s[|s| - 1] != '/' && s != "." && !("./" <= s)
  }

  lemma SlashesAround(s: string)
    requires s != "" && s[0] != '/' && s[|s| - 1] != '/'
    ensures TrimSlashesRight(s) == s && TrimSlashesLeft(s) == s
    ensures TrimSlashesLeft("/" + s) == s && TrimSlashesRight(s + "/") == s
  {
    assert ("/" + s)[1..] == s && (s + "/")[..|s|] == s;
  }

  lemma SpelledAs(x: string, trimmed: string, relative: string, s: string)
    requires Trim(x) == trimmed && relative == if "./" <= trimmed then trimmed[2..] else trimmed
    requires TrimSlashesRight(TrimSlashesLeft(relative)) == s
    ensures NormalScope(x) == if s == "." then "" else s
  {
  }

  lemma RelativeSpelling(s: string)
    requires CleanPath(s)
    ensures Trim("./" + s) == "./" + s && ("./" + s)[2..] == s
  {
    TrimIsTrimmed("./" + s);
    assert ("./" + s)[|s| + 1] == s[|s| - 1];
  }

  lemma SlashSpellings(s: string)
    requires CleanPath(s)
    ensures Trim("/" + s) == "/" + s && !("./" <= "/" + s)
    ensures Trim(s + "/") == s + "/" && !("./" <= s + "/") && TrimSlashesLeft(s + "/") == s + "/"
  {
    TrimIsTrimmed("/" + s);
    TrimIsTrimmed(s + "/");
    assert ("/" + s)[|s|] == s[|s| - 1] && (s + "/")[0] == s[0];
    assert "./" <= s + "/" ==> s == "." || "./" <= s;
  }

  lemma RootSpellings()
    ensures NormalScope("") == "" && NormalScope(".") == "" && NormalScope("/") == ""
  {
    TrimIsTrimmed(".");
    TrimIsTrimmed("/");
    assert Trim("") == "" && "/"[1..] == "";
  }

  /** The spellings of a scope: spaces, a leading "./" or slash and a trailing slash are dropped,
      and the root has three names. */
  lemma ScopeSpellings(s: string, n: nat)
    requires CleanPath(s)
    ensures NormalScope(s) == s && NormalScope(Spaces(n) + s) == s
    ensures NormalScope("/" + s) == s && NormalScope(s + "/") == s && NormalScope("./" + s) == s
    ensures NormalScope("") == "" && NormalScope(".") == "" && NormalScope("/") == ""
  {
    TrimIsTrimmed(s);
    assert s != "" && s[0] != '/' && s[|s| - 1] != '/' && s != "." && !("./" <= s);
    RootSpellings();
    RelativeSpelling(s);
    SlashSpellings(s);
    hide *;
    SlashesAround(s);
    TrimSpaces(n, s);
    SpelledAs(s, s, s, s);
    SpelledAs(Spaces(n) + s, s, s, s);
    SpelledAs("/" + s, "/" + s, "/" + s, s);
    SpelledAs(s + "/", s + "/", s + "/", s);
    SpelledAs("./" + s, "./" + s, s, s);
  }
}
