/** Which declaration of a rule id the surfaces of internal/agentsurface show at a scope, and
    when that is the most specific one. */
module AgentPrecedence {
  import opened Text
  import opened Sorting
  import opened AgentRules
  import opened AgentTheorems
  import opened AgentRendering

  // ---------- declarations of an id ----------

  /** Rule `k` is an enabled declaration of the id that applies to the target. */
  ghost predicate Declares(rules: seq<Rule>, adapter: string, id: string, t: string, k: int) {
    0 <= k < |rules| && Enabled(rules[k], adapter) && rules[k].id == id && ScopeContains(rules[k].scope, t)
  }

  ghost predicate Undeclared(rules: seq<Rule>, adapter: string, id: string, t: string) {
    forall k :: !Declares(rules, adapter, id, t, k)
  }

  /** Rule `k` is compiled no later than rule `m`, ties by declared order. */
  ghost predicate CompiledBy(rules: seq<Rule>, k: int, m: int)
    requires 0 <= k < |rules| && 0 <= m < |rules|
  {
    || Before(Normalised(rules[k]), Normalised(rules[m]))
    || (!Before(Normalised(rules[m]), Normalised(rules[k])) && k <= m)
  }

  /** Of the enabled declarations of the id that apply to the target, `k` is compiled first. */
  ghost predicate FirstFor(rules: seq<Rule>, adapter: string, id: string, t: string, k: int) {
    && Declares(rules, adapter, id, t, k)
    && forall m | Declares(rules, adapter, id, t, m) :: CompiledBy(rules, k, m)
  }

  /** At the target, no other enabled declaration of the rule's id lies inside its scope. */
  ghost predicate Narrowest(rules: seq<Rule>, adapter: string, t: string, j: nat) {
    && j < |rules| && Declares(rules, adapter, rules[j].id, t, j)
    && forall k | Declares(rules, adapter, rules[j].id, t, k) :: !Encloses(rules[j], rules[k])
  }

  /** The rendering for the target has this text for this id. */
  ghost predicate Shows(rules: seq<Rule>, adapter: string, t: string, id: string, text: string) {
    var r := Render(Effective(rules, t), adapter);
    exists i :: 0 <= i < |r.ids| && r.ids[i] == id && r.bullets[i] == "- " + text
  }

  /** The precedence of more specific scopes: at every target every id shows its narrowest
      enabled declaration. */
  ghost predicate NarrowestWins(rules: seq<Rule>, adapter: string) {
    forall t: string, j: nat | Narrowest(rules, adapter, t, j) ::
      Shows(rules, adapter, t, rules[j].id, Trim(rules[j].text))
  }

  // ---------- what a target shows ----------

  function Named(adapter: string, id: string): Rule -> bool {
    r => Enabled(r, adapter) && r.id == id
  }

  lemma FirstUnique(rules: seq<Rule>, adapter: string, id: string, t: string, k: int, m: int)
    requires FirstFor(rules, adapter, id, t, k) && FirstFor(rules, adapter, id, t, m)
    ensures k == m
  {
    var a, b := Normalised(rules[k]), Normalised(rules[m]);
    BeforeIsStrictOrder(a, b, a);
    hide Before, ScopeContains;
    assert CompiledBy(rules, k, m) && CompiledBy(rules, m, k);
  }

  lemma DeclaresEarlier(rules: seq<Rule>, adapter: string, id: string, t: string, m: int)
    requires rules != []
    ensures var init, n := rules[..|rules| - 1], |rules| - 1;
            && (Declares(rules, adapter, id, t, m) ==> 0 <= m <= n)
            && (Declares(init, adapter, id, t, m) <==> Declares(rules, adapter, id, t, m) && m < n)
            && (0 <= m < n ==> init[m] == rules[m])
  {
  }

  lemma TakesOver(rules: seq<Rule>, k: nat, m: nat, n: nat)
    requires k < n && m < n && n < |rules| && CompiledBy(rules, k, m)
    ensures Before(Normalised(rules[n]), Normalised(rules[k])) ==> CompiledBy(rules, n, m)
  {
    var a, b, c := Normalised(rules[n]), Normalised(rules[k]), Normalised(rules[m]);
    BeforeIsStrictOrder(a, b, c);
    BeforeIsStrictOrder(b, c, b);
    hide Before;
  }

  /** One more rule takes the first place exactly if it declares the id here and is compiled
      before the first declaration so far. */
  lemma FirstGrows(rules: seq<Rule>, adapter: string, id: string, t: string, k: int)
    requires rules != [] && FirstFor(rules[..|rules| - 1], adapter, id, t, k)
    ensures var n := |rules| - 1;
            && 0 <= k < n && rules[..n][k] == rules[k]
            && FirstFor(rules, adapter, id, t,
                        if Declares(rules, adapter, id, t, n) && Before(Normalised(rules[n]), Normalised(rules[k]))
                        then n else k)
  {
    var init, n := rules[..|rules| - 1], |rules| - 1;
    DeclaresEarlier(rules, adapter, id, t, k);
    BeforeIsStrictOrder(Normalised(rules[n]), Normalised(rules[n]), Normalised(rules[n]));
    hide Declares, Normalised, Before;
    var overtaken := Before(Normalised(rules[n]), Normalised(rules[k]));
    var first := if Declares(rules, adapter, id, t, n) && overtaken then n else k;
    forall m | Declares(rules, adapter, id, t, m) ensures 0 <= m <= n && CompiledBy(rules, first, m) {
      DeclaresEarlier(rules, adapter, id, t, m);
      if m < n {
        assert CompiledBy(init, k, m);
        assert CompiledBy(rules, k, m);
        TakesOver(rules, k, m, n);
      }
    }
  }

  ghost function Declarations(rules: seq<Rule>, adapter: string, id: string, t: string): seq<Rule> {
    Keep(Named(adapter, id), Applying(rules, t))
  }

  lemma DeclarationsNext(rules: seq<Rule>, adapter: string, id: string, t: string)
    requires rules != []
    ensures var before := Declarations(rules[..|rules| - 1], adapter, id, t);
            Declarations(rules, adapter, id, t) ==
            if Declares(rules, adapter, id, t, |rules| - 1) then before + [Normalised(rules[|rules| - 1])] else before
  {
    var init, last := rules[..|rules| - 1], rules[|rules| - 1];
    assert rules == init + [last];
    ApplyingOneMore(init, last, t);
    assert Named(adapter, id)(Normalised(last)) == (Enabled(last, adapter) && last.id == id);
    hide Keep, Applying, Normalised, ScopeContains;
    if ScopeContains(last.scope, t) {
      KeepSnoc(Named(adapter, id), Applying(init, t), Normalised(last));
    }
  }

  /** The sorted declarations start with the one compiled first. */
  lemma {:induction false} FirstSorted(rules: seq<Rule>, adapter: string, id: string, t: string) returns (k: int)
    ensures var sorted := SortBy(Before, Declarations(rules, adapter, id, t));
            if sorted == [] then Undeclared(rules, adapter, id, t)
            else FirstFor(rules, adapter, id, t, k) && sorted[0] == Normalised(rules[k])
  {
    k := -1;
    if rules != [] {
      var init, n := rules[..|rules| - 1], |rules| - 1;
      k := FirstSorted(init, adapter, id, t);
      DeclarationsNext(rules, adapter, id, t);
      var before := Declarations(init, adapter, id, t);
      hide Declarations, Before;
      BeforeIsStrictWeak();
      SortBySorts(Before, before);
      if SortBy(Before, before) != [] {
        FirstGrows(rules, adapter, id, t, k);
      } else {
        NoneBut(rules, adapter, id, t);
      }
      if Declares(rules, adapter, id, t, n) {
        SortBySnoc(Before, before, Normalised(rules[n]));
        InsertFirst(Before, SortBy(Before, before), Normalised(rules[n]));
        if SortBy(Before, before) == [] || Before(Normalised(rules[n]), SortBy(Before, before)[0]) {
          k := n;
        }
      }
    }
  }

  /** If no rule but the last declares the id, the last is compiled first of those that do. */
  lemma NoneBut(rules: seq<Rule>, adapter: string, id: string, t: string)
    requires rules != [] && Undeclared(rules[..|rules| - 1], adapter, id, t)
    ensures if Declares(rules, adapter, id, t, |rules| - 1) then FirstFor(rules, adapter, id, t, |rules| - 1)
            else Undeclared(rules, adapter, id, t)
  {
    var init, n := rules[..|rules| - 1], |rules| - 1;
    BeforeIsStrictOrder(Normalised(rules[n]), Normalised(rules[n]), Normalised(rules[n]));
    hide Declares, Normalised, Before;
    forall m | Declares(rules, adapter, id, t, m) ensures m == n {
      assert !Declares(init, adapter, id, t, m);
      DeclaresEarlier(rules, adapter, id, t, m);
    }
  }

  /** The bullet of an id is that of the first rule with it in compilation order. */
  lemma FirstIsShown(rules: seq<Rule>, adapter: string, id: string, t: string)
    requires var kept := Keep(Named(adapter, id), Effective(rules, t)); kept != []
    ensures var kept := Keep(Named(adapter, id), Effective(rules, t));
            Shows(rules, adapter, t, id, Trim(kept[0].text))
  {
    var effective := Effective(rules, t);
    var v := Keep(Named(adapter, id), effective)[0];
    KeepMembers(Named(adapter, id), effective, v);
    hide Effective, Render;
    var e :| 0 <= e < |effective| && effective[e] == v;
    RenderedOnce(effective, adapter);
    var ids := Render(effective, adapter).ids;
    assert effective[e].id in ids;
    var i :| 0 <= i < |ids| && ids[i] == id;
    var m := FirstDeclarationWins(effective, adapter, i);
    KeepFirst(Named(adapter, id), effective, m);
  }

  /** At every target an id shows the enabled declaration compiled first of those that apply. */
  lemma ShownIsFirst(rules: seq<Rule>, adapter: string, id: string, t: string, j: int) returns (k: int)
    requires Declares(rules, adapter, id, t, j)
    ensures FirstFor(rules, adapter, id, t, k) && Shows(rules, adapter, t, id, Trim(rules[k].text))
  {
    k := FirstSorted(rules, adapter, id, t);
    hide Declares, FirstFor, Shows;
    BeforeIsStrictWeak();
    KeepSort(Before, Named(adapter, id), Applying(rules, t));
    FirstIsShown(rules, adapter, id, t);
  }

  lemma RenderedAt(rules: seq<Rule>, adapter: string, i: nat, j: nat)
    requires var ids := Render(rules, adapter).ids; i < |ids| && j < |ids| && ids[i] == ids[j]
    ensures i == j
  {
    RenderedOnce(rules, adapter);
  }

  lemma ShownOnce(rules: seq<Rule>, adapter: string, t: string, id: string, text1: string, text2: string)
    requires Shows(rules, adapter, t, id, text1) && Shows(rules, adapter, t, id, text2)
    ensures text1 == text2
  {
    hide Effective, Render;
    var r := Render(Effective(rules, t), adapter);
    var i :| 0 <= i < |r.ids| && r.ids[i] == id && r.bullets[i] == "- " + text1;
    var j :| 0 <= j < |r.ids| && r.ids[j] == id && r.bullets[j] == "- " + text2;
    RenderedAt(Effective(rules, t), adapter, i, j);
    assert text1 == ("- " + text1)[2..] && text2 == ("- " + text2)[2..];
  }

  // ---------- when the narrowest declaration wins ----------

  /** Where a declaration is narrowest, the declarations that apply are those around it. */
  lemma AroundNarrowest(rules: seq<Rule>, adapter: string, t: string, j: nat, m: int)
    requires Narrowest(rules, adapter, t, j)
    ensures Declares(rules, adapter, rules[j].id, t, m) <==> Declares(rules, adapter, rules[j].id, rules[j].scope, m)
  {
    if 0 <= m < |rules| {
      var a, b, c := rules[m].scope, rules[j].scope, t;
      if ScopeContains(a, c) && rules[m].id == rules[j].id && Enabled(rules[m], adapter) {
        assert !Encloses(rules[j], rules[m]);
        WithinComparable(NormalScope(a), NormalScope(b), NormalScope(c));
      }
      if ScopeContains(a, b) {
        WithinTransitive(NormalScope(a), NormalScope(b), NormalScope(c));
      }
    }
  }

  /** Every enabled declaration says what the first one compiled around it says. */
  ghost predicate FirstAroundAgrees(rules: seq<Rule>, adapter: string) {
    forall j, k | 0 <= j < |rules| && Enabled(rules[j], adapter) &&
                  FirstFor(rules, adapter, rules[j].id, rules[j].scope, k) ::
      Trim(rules[j].text) == Trim(rules[k].text)
  }

  lemma NarrowestAtHome(rules: seq<Rule>, adapter: string, j: nat)
    requires j < |rules| && Enabled(rules[j], adapter)
    ensures Narrowest(rules, adapter, rules[j].scope, j)
  {
    ScopeReflexive(rules[j].scope);
  }

  lemma FirstAroundNarrowest(rules: seq<Rule>, adapter: string, t: string, j: nat, k: int)
    requires Narrowest(rules, adapter, t, j) && FirstFor(rules, adapter, rules[j].id, t, k)
    ensures FirstFor(rules, adapter, rules[j].id, rules[j].scope, k)
  {
    AroundNarrowest(rules, adapter, t, j, k);
    hide Narrowest, Declares, CompiledBy;
    forall m | Declares(rules, adapter, rules[j].id, rules[j].scope, m)
      ensures Declares(rules, adapter, rules[j].id, t, m)
    {
      AroundNarrowest(rules, adapter, t, j, m);
    }
  }

  /** For every list of rules: the narrowest declaration of every id is shown at every target if
      and only if every enabled declaration says what the one compiled first around it says. */
  lemma NarrowestWinsExactly(rules: seq<Rule>, adapter: string)
    ensures NarrowestWins(rules, adapter) <==> FirstAroundAgrees(rules, adapter)
  {
    hide Shows, ScopeContains, CompiledBy, Enabled, Encloses;
    if NarrowestWins(rules, adapter) {
      forall j, k | 0 <= j < |rules| && Enabled(rules[j], adapter) &&
                    FirstFor(rules, adapter, rules[j].id, rules[j].scope, k)
        ensures Trim(rules[j].text) == Trim(rules[k].text)
      {
        var id, t := rules[j].id, rules[j].scope;
        NarrowestAtHome(rules, adapter, j);
        var first := ShownIsFirst(rules, adapter, id, t, j);
        FirstUnique(rules, adapter, id, t, first, k);
        ShownOnce(rules, adapter, t, id, Trim(rules[j].text), Trim(rules[k].text));
      }
    }
    if FirstAroundAgrees(rules, adapter) {
      forall t: string, j: nat | Narrowest(rules, adapter, t, j)
        ensures Shows(rules, adapter, t, rules[j].id, Trim(rules[j].text))
      {
        var k := ShownIsFirst(rules, adapter, rules[j].id, t, j);
        FirstAroundNarrowest(rules, adapter, t, j, k);
        NarrowestIsEnabled(rules, adapter, t, j);
      }
    }
  }

  lemma NarrowestIsEnabled(rules: seq<Rule>, adapter: string, t: string, j: nat)
    requires Narrowest(rules, adapter, t, j)
    ensures Enabled(rules[j], adapter)
  {
  }

  // ---------- where scopes nest in compilation order ----------

  /** Enabled declarations of one id whose scopes are nested carry one text. */
  ghost predicate NestedAgree(rules: seq<Rule>, adapter: string) {
    forall i, j | 0 <= i < |rules| && 0 <= j < |rules| && Enabled(rules[i], adapter) && Enabled(rules[j], adapter) &&
                  rules[i].id == rules[j].id && ScopeContains(rules[i].scope, rules[j].scope) ::
      Trim(rules[i].text) == Trim(rules[j].text)
  }

  lemma ShownInside(rules: seq<Rule>, adapter: string, s: string, t: string, id: string, text: string)
    requires NestingRespected(EnabledRules(rules, adapter)) && ScopeContains(s, t) && Shows(rules, adapter, s, id, text)
    ensures Shows(rules, adapter, t, id, text)
  {
    hide Effective, Render, ScopeContains, NestingRespected, EnabledRules;
    RenderingInherits(rules, adapter, s, t);
    var wide, narrow := Render(Effective(rules, s), adapter), Render(Effective(rules, t), adapter);
    var i :| 0 <= i < |wide.ids| && wide.ids[i] == id && wide.bullets[i] == "- " + text;
    assert narrow.ids[i] == id && narrow.bullets[i] == "- " + text;
  }

  lemma NestedShowsOne(rules: seq<Rule>, adapter: string, i: nat, j: nat)
    requires NestingRespected(EnabledRules(rules, adapter)) && NarrowestWins(rules, adapter)
    requires i < |rules| && j < |rules| && Enabled(rules[i], adapter) && Enabled(rules[j], adapter)
    requires rules[i].id == rules[j].id && ScopeContains(rules[i].scope, rules[j].scope)
    ensures Trim(rules[i].text) == Trim(rules[j].text)
  {
    var id, s, t := rules[i].id, rules[i].scope, rules[j].scope;
    NarrowestAtHome(rules, adapter, i);
    NarrowestAtHome(rules, adapter, j);
    hide Shows, ScopeContains, NestingRespected, EnabledRules, Narrowest;
    ShownInside(rules, adapter, s, t, id, Trim(rules[i].text));
    ShownOnce(rules, adapter, t, id, Trim(rules[i].text), Trim(rules[j].text));
  }

  /** One text in nested scopes is always enough; where the enabled rules nest in compilation
      order, as canonical scopes do, it is also necessary. */
  lemma NarrowestWinsWhereNested(rules: seq<Rule>, adapter: string)
    ensures NestedAgree(rules, adapter) ==> NarrowestWins(rules, adapter)
    ensures NestingRespected(EnabledRules(rules, adapter)) ==>
              (NarrowestWins(rules, adapter) <==> NestedAgree(rules, adapter))
  {
    hide NestingRespected, Shows, ScopeContains, Enabled, EnabledRules;
    if NestedAgree(rules, adapter) {
      NarrowestWinsExactly(rules, adapter);
    }
    if NarrowestWins(rules, adapter) && NestingRespected(EnabledRules(rules, adapter)) {
      forall i, j | 0 <= i < |rules| && 0 <= j < |rules| && Enabled(rules[i], adapter) && Enabled(rules[j], adapter) &&
                    rules[i].id == rules[j].id && ScopeContains(rules[i].scope, rules[j].scope)
        ensures Trim(rules[i].text) == Trim(rules[j].text)
      {
        NestedShowsOne(rules, adapter, i, j);
      }
    }
  }

  // ---------- inputs ----------

  lemma NestedScopes()
    ensures NormalScope("") == "" && NormalScope("a") == "a" && NormalScope("a/ /") == "a/ "
    ensures ScopeContains("", "a") && ScopeContains("a", "a") && !ScopeContains("a", "")
    ensures ScopeContains("a", "a/ /") && !ScopeContains("a/ /", "a") && ScopeContains("a/ /", "a/ /")
    ensures ScopeDepth("") == 0 && ScopeDepth("a") == 1 && ScopeDepth("a/ ") == 1
  {
    NormalScopeExamples();
    assert NormalScope("") == "" by { assert Trim("") == ""; }
    assert Slashes("a") == 0 by { assert "a"[1..] == ""; }
    assert "a" + "/" <= "a/ ";
  }

  lemma DifferentTexts()
    ensures Trim("outer") != Trim("inner")
  {
    TrimIsTrimmed("outer");
    TrimIsTrimmed("inner");
  }

  /** The rule declared at the root and again, with another text, at "a": the root's text is
      shown even at "a". */
  lemma InnerDeclarationLoses(adapter: string)
    ensures var rules := [Rule("x", "", "outer", 0, [], []), Rule("x", "a", "inner", 0, [], [])];
            && CanonicalScope(rules[0]) && CanonicalScope(rules[1])
            && Narrowest(rules, adapter, "a", 1) && Shows(rules, adapter, "a", "x", Trim("outer"))
            && Trim("outer") != Trim("inner") && !NarrowestWins(rules, adapter)
  {
    var rules := [Rule("x", "", "outer", 0, [], []), Rule("x", "a", "inner", 0, [], [])];
    NestedScopes();
    DifferentTexts();
    hide NormalScope, ScopeContains, ScopeDepth, Trim, Shows;
    assert FirstFor(rules, adapter, "x", "a", 0);
    var k := ShownIsFirst(rules, adapter, "x", "a", 0);
    FirstUnique(rules, adapter, "x", "a", 0, k);
    NarrowestAtHome(rules, adapter, 1);
    NarrowestWinsExactly(rules, adapter);
  }

  /** Without nesting in compilation order texts may differ: the inner rule, whose scope is not
      canonical, is compiled first and wins. */
  lemma DifferentTextsCanWin(adapter: string)
    ensures var rules := [Rule("x", "a", "outer", 1, [], []), Rule("x", "a/ /", "inner", 0, [], [])];
            NarrowestWins(rules, adapter) && !NestedAgree(rules, adapter)
  {
    var rules := [Rule("x", "a", "outer", 1, [], []), Rule("x", "a/ /", "inner", 0, [], [])];
    NestedScopes();
    DifferentTexts();
    hide NormalScope, ScopeContains, ScopeDepth, Trim, Shows;
    assert FirstFor(rules, adapter, "x", "a", 0);
    assert FirstFor(rules, adapter, "x", "a/ /", 1);
    forall j, k | 0 <= j < |rules| && Enabled(rules[j], adapter) &&
                  FirstFor(rules, adapter, rules[j].id, rules[j].scope, k)
      ensures Trim(rules[j].text) == Trim(rules[k].text)
    {
      FirstUnique(rules, adapter, "x", rules[j].scope, j, k);
    }
    NarrowestWinsExactly(rules, adapter);
    assert ScopeContains(rules[0].scope, rules[1].scope);
  }
}
