/** What the surfaces of internal/agentsurface/adapters.go carry of the effective rules, and when
    internal/agentsurface/ir.go reports a conflict. */
module AgentRendering {
  import opened Text
  import opened Sorting
  import opened AgentRules
  import opened AgentTheorems

  // ---------- renderings ----------

  lemma {:induction false} RenderExtends(a: seq<Rule>, b: seq<Rule>, adapter: string)
    ensures Render(a, adapter).ids <= Render(a + b, adapter).ids
    ensures Render(a, adapter).bullets <= Render(a + b, adapter).bullets
    ensures Render(a, adapter).sources <= Render(a + b, adapter).sources
    decreases |b|
  {
    if b == [] {
      assert a + b == a;
    } else {
      assert (a + b)[..|a + b| - 1] == a + b[..|b| - 1];
      RenderExtends(a, b[..|b| - 1], adapter);
    }
  }

  // ---------- only enabled rules matter ----------

  function EnabledFor(adapter: string): Rule -> bool {
    r => Enabled(r, adapter)
  }

  /** The declared rules an adapter can carry. */
  function EnabledRules(rules: seq<Rule>, adapter: string): seq<Rule> {
    Keep(EnabledFor(adapter), rules)
  }

  lemma {:induction false} RenderSkipsDisabled(rules: seq<Rule>, adapter: string)
    ensures Render(rules, adapter) == Render(EnabledRules(rules, adapter), adapter)
  {
    if rules != [] {
      var init, last := rules[..|rules| - 1], rules[|rules| - 1];
      RenderSkipsDisabled(init, adapter);
      var kept := EnabledRules(init, adapter);
      assert (kept + [last])[..|kept|] == kept && kept + [] == kept;
    }
  }

  lemma ApplyingOneMore(init: seq<Rule>, last: Rule, t: string)
    ensures Applying(init + [last], t) ==
            if ScopeContains(last.scope, t) then Applying(init, t) + [Normalised(last)] else Applying(init, t)
  {
    assert (init + [last])[..|init|] == init;
  }

  lemma ApplyingKeepsOneMore(init: seq<Rule>, last: Rule, p: Rule -> bool, t: string)
    requires Applying(Keep(p, init), t) == Keep(p, Applying(init, t)) && p(Normalised(last)) == p(last)
    ensures Applying(Keep(p, init + [last]), t) == Keep(p, Applying(init + [last], t))
  {
    hide *;
    ApplyingOneMore(init, last, t);
    KeepSnoc(p, init, last);
    if p(last) {
      ApplyingOneMore(Keep(p, init), last, t);
    }
    if ScopeContains(last.scope, t) {
      KeepSnoc(p, Applying(init, t), Normalised(last));
    }
  }

  lemma {:induction false} ApplyingKeeps(rules: seq<Rule>, p: Rule -> bool, t: string)
    requires forall r :: p(Normalised(r)) == p(r)
    ensures Applying(Keep(p, rules), t) == Keep(p, Applying(rules, t))
  {
    if rules != [] {
      var init, last := rules[..|rules| - 1], rules[|rules| - 1];
      ApplyingKeeps(init, p, t);
      hide Keep, Applying, Normalised;
      assert rules == init + [last];
      ApplyingKeepsOneMore(init, last, p, t);
    }
  }

  lemma EffectiveKeeps(rules: seq<Rule>, adapter: string, t: string)
    ensures Effective(EnabledRules(rules, adapter), t) == EnabledRules(Effective(rules, t), adapter)
    ensures Render(Effective(rules, t), adapter) == Render(Effective(EnabledRules(rules, adapter), t), adapter)
  {
    assert forall r :: EnabledFor(adapter)(Normalised(r)) == EnabledFor(adapter)(r);
    hide Normalised, EnabledFor, Before;
    ApplyingKeeps(rules, EnabledFor(adapter), t);
    BeforeIsStrictWeak();
    KeepSort(Before, EnabledFor(adapter), Applying(rules, t));
    RenderSkipsDisabled(Effective(rules, t), adapter);
  }

  // ---------- inheritance of renderings ----------

  /** Where the enabled rules nest in compilation order, what a scope renders is the beginning
      of what any scope inside it renders. */
  lemma RenderingInherits(rules: seq<Rule>, adapter: string, s: string, t: string)
    requires NestingRespected(EnabledRules(rules, adapter)) && ScopeContains(s, t)
    ensures var wide, narrow := Render(Effective(rules, s), adapter), Render(Effective(rules, t), adapter);
            && wide.ids <= narrow.ids && wide.bullets <= narrow.bullets && wide.sources <= narrow.sources
            && Join(wide.bullets, "\n") <= Join(narrow.bullets, "\n")
  {
    hide *;
    var enabled := EnabledRules(rules, adapter);
    EffectiveKeeps(rules, adapter, s);
    EffectiveKeeps(rules, adapter, t);
    var added := SortBy(Before, Added(enabled, s, t));
    SortsApart(enabled, s, t);
    RenderExtends(Effective(enabled, s), added, adapter);
    var wide, narrow := Render(Effective(rules, s), adapter), Render(Effective(rules, t), adapter);
    var more := narrow.bullets[|wide.bullets|..];
    assert narrow.bullets == wide.bullets + more;
    JoinExtends(wide.bullets, more, "\n");
  }

  ghost predicate DistinctIds(rules: seq<Rule>) {
    forall i, j | 0 <= i < j < |rules| :: rules[i].id != rules[j].id
  }

  lemma {:induction false} InsertKeepsDistinct(rules: seq<Rule>, x: Rule)
    requires DistinctIds(rules) && SortedBy(Before, rules) && forall r | r in rules :: r.id != x.id
    ensures DistinctIds(InsertBy(Before, rules, x))
  {
    hide Before;
    if rules != [] && Before(x, rules[|rules| - 1]) {
      var init, last := rules[..|rules| - 1], rules[|rules| - 1];
      assert rules == init + [last];
      InsertKeepsDistinct(init, x);
      BeforeIsStrictWeak();
      InsertBySorts(Before, init, x);
      forall r | r in InsertBy(Before, init, x) ensures r.id != last.id {
        assert r in multiset(init) + multiset{x};
        assert r != x ==> r in init;
      }
    }
  }

  lemma {:induction false} SortKeepsDistinct(rules: seq<Rule>)
    requires DistinctIds(rules)
    ensures DistinctIds(SortBy(Before, rules))
  {
    hide Before;
    if rules != [] {
      var init, last := rules[..|rules| - 1], rules[|rules| - 1];
      SortKeepsDistinct(init);
      BeforeIsStrictWeak();
      SortBySorts(Before, init);
      forall r | r in SortBy(Before, init) ensures r.id != last.id {
        SortByMembers(Before, init, r);
        var i :| 0 <= i < |init| && init[i] == r;
        assert rules[i] == r;
      }
      InsertKeepsDistinct(SortBy(Before, init), last);
    }
  }

  lemma {:induction false} ApplyingDistinct(rules: seq<Rule>, t: string)
    requires DistinctIds(rules)
    ensures DistinctIds(Applying(rules, t))
  {
    hide ScopeContains;
    if rules != [] {
      var init, last := rules[..|rules| - 1], rules[|rules| - 1];
      ApplyingDistinct(init, t);
      ApplyingSnoc(rules, t);
      forall r | r in Applying(init, t) ensures r.id != last.id {
        var i := AppliedOrigin(init, t, r);
        assert rules[i] == init[i];
      }
    }
  }

  /** With pairwise different ids every enabled rule is rendered, in its place. */
  lemma {:induction false} AllRendered(rules: seq<Rule>, adapter: string)
    requires DistinctIds(rules) && forall r | r in rules :: Enabled(r, adapter)
    ensures var ids := Render(rules, adapter).ids;
            |ids| == |rules| && forall i | 0 <= i < |rules| :: ids[i] == rules[i].id
  {
    if rules != [] {
      var init := rules[..|rules| - 1];
      AllRendered(init, adapter);
      assert forall i | 0 <= i < |init| :: init[i] == rules[i];
    }
  }

  ghost predicate RenderingExtends(rules: seq<Rule>, adapter: string) {
    forall s, t | ScopeContains(s, t) ::
      Render(Effective(rules, s), adapter).ids <= Render(Effective(rules, t), adapter).ids
  }

  lemma EffectiveRendered(rules: seq<Rule>, adapter: string, t: string)
    requires DistinctIds(EnabledRules(rules, adapter))
    ensures var ids, effective := Render(Effective(rules, t), adapter).ids, Effective(EnabledRules(rules, adapter), t);
            |ids| == |effective| && forall i | 0 <= i < |effective| :: ids[i] == effective[i].id
  {
    var enabled := EnabledRules(rules, adapter);
    EffectiveKeeps(rules, adapter, t);
    ApplyingDistinct(enabled, t);
    SortKeepsDistinct(Applying(enabled, t));
    forall r | r in Effective(enabled, t) ensures Enabled(r, adapter) {
      KeepMembers(EnabledFor(adapter), Effective(rules, t), r);
    }
    AllRendered(Effective(enabled, t), adapter);
  }

  /** Effective rules of a list with different ids that agree in their ids agree. */
  lemma SameIdsSameRules(rules: seq<Rule>, s: string, t: string)
    requires DistinctIds(rules) && |Effective(rules, s)| <= |Effective(rules, t)|
    requires forall i | 0 <= i < |Effective(rules, s)| :: Effective(rules, s)[i].id == Effective(rules, t)[i].id
    ensures Effective(rules, s) <= Effective(rules, t)
  {
    hide Effective, ScopeContains;
    forall i | 0 <= i < |Effective(rules, s)| ensures Effective(rules, s)[i] == Effective(rules, t)[i] {
      var k := EffectiveOrigin(rules, s, Effective(rules, s)[i]);
      var m := EffectiveOrigin(rules, t, Effective(rules, t)[i]);
      assert rules[k].id == rules[m].id && k == m;
    }
  }

  /** Renderings inherit by extension between all nested scopes exactly when the enabled rules
      nest in compilation order, if these have pairwise different ids. */
  lemma RenderingInheritsExactly(rules: seq<Rule>, adapter: string)
    requires DistinctIds(EnabledRules(rules, adapter))
    ensures RenderingExtends(rules, adapter) <==> NestingRespected(EnabledRules(rules, adapter))
  {
    var enabled := EnabledRules(rules, adapter);
    hide EnabledRules, Effective, Render, NestingRespected, ScopeContains, DistinctIds;
    if NestingRespected(enabled) {
      forall s, t | ScopeContains(s, t)
        ensures Render(Effective(rules, s), adapter).ids <= Render(Effective(rules, t), adapter).ids
      {
        RenderingInherits(rules, adapter, s, t);
      }
    }
    if RenderingExtends(rules, adapter) {
      forall s, t | ScopeContains(s, t) ensures Effective(enabled, s) <= Effective(enabled, t) {
        EffectiveRendered(rules, adapter, s);
        EffectiveRendered(rules, adapter, t);
        SameIdsSameRules(enabled, s, t);
      }
      assert InheritsByExtension(enabled);
      InheritanceExactly(enabled);
    }
  }

  lemma {:induction false} JoinExtends(a: seq<string>, b: seq<string>, sep: string)
    ensures Join(a, sep) <= Join(a + b, sep)
    decreases |a|
  {
    if |a| > 1 {
      assert (a + b)[1..] == a[1..] + b;
      JoinExtends(a[1..], b, sep);
    } else if |a| == 1 {
      assert (a + b)[0] == a[0];
    }
  }

  /** Each rendered id appears once, and every enabled rule's id is rendered. */
  lemma {:induction false} RenderedOnce(rules: seq<Rule>, adapter: string)
    ensures var r := Render(rules, adapter);
            && (forall i, j | 0 <= i < j < |r.ids| :: r.ids[i] != r.ids[j])
            && (forall k | 0 <= k < |rules| && Enabled(rules[k], adapter) :: rules[k].id in r.ids)
  {
    if rules != [] {
      var init := rules[..|rules| - 1];
      RenderedOnce(init, adapter);
      var before, after := Render(init, adapter), Render(rules, adapter);
      forall k | 0 <= k < |rules| && Enabled(rules[k], adapter) ensures rules[k].id in after.ids {
        if k < |init| {
          assert init[k] == rules[k] && rules[k].id in before.ids;
        }
      }
    }
  }

  /** The bullet of a rendered id is that of the first enabled rule that has it: the broadest
      declaration wins. */
  lemma {:induction false} FirstDeclarationWins(rules: seq<Rule>, adapter: string, i: nat) returns (k: nat)
    requires i < |Render(rules, adapter).ids|
    ensures FirstWithId(rules, adapter, k, Render(rules, adapter).ids[i], Render(rules, adapter).bullets[i])
  {
    var init, last := rules[..|rules| - 1], rules[|rules| - 1];
    var before := Render(init, adapter);
    if i < |before.ids| {
      k := FirstDeclarationWins(init, adapter, i);
      FirstStaysFirst(rules, adapter, k, before.ids[i], before.bullets[i]);
    } else {
      k := |init|;
      RenderedOnce(init, adapter);
      assert forall j | 0 <= j < |init| :: rules[j] == init[j];
    }
  }

  lemma FirstStaysFirst(rules: seq<Rule>, adapter: string, k: int, id: string, bullet: string)
    requires rules != [] && FirstWithId(rules[..|rules| - 1], adapter, k, id, bullet)
    ensures FirstWithId(rules, adapter, k, id, bullet)
  {
    assert forall j | 0 <= j <= k :: rules[..|rules| - 1][j] == rules[j];
  }

  ghost predicate FirstWithId(rules: seq<Rule>, adapter: string, k: int, id: string, bullet: string) {
    && 0 <= k < |rules| && Enabled(rules[k], adapter) && rules[k].id == id
    && bullet == "- " + Trim(rules[k].text)
    && forall j | 0 <= j < k && Enabled(rules[j], adapter) :: rules[j].id != id
  }

  lemma FirstEnabledSnoc(init: seq<Rule>, last: Rule, adapter: string)
    ensures forall k | 0 <= k < |init| :: FirstEnabled(init + [last], adapter, k) <==> FirstEnabled(init, adapter, k)
    ensures FirstEnabled(init + [last], adapter, |init|) <==>
            Enabled(last, adapter) && last.id !in Render(init, adapter).ids
  {
    RenderedIds(init, adapter, last.id);
    hide Enabled, Render;
    forall k | 0 <= k < |init| ensures FirstEnabled(init + [last], adapter, k) <==> FirstEnabled(init, adapter, k) {
      assert forall j | 0 <= j <= k :: (init + [last])[j] == init[j];
    }
    assert forall j | 0 <= j < |init| :: (init + [last])[j] == init[j];
  }

  lemma RenderedSourcesNext(init: seq<Rule>, last: Rule, adapter: string, x: string)
    ensures x in Render(init + [last], adapter).sources <==>
            || x in Render(init, adapter).sources
            || (Enabled(last, adapter) && last.id !in Render(init, adapter).ids && x in last.sources)
  {
    assert (init + [last])[..|init|] == init;
  }

  /** The sources of a rendering are those of the first enabled rule of each id. */
  lemma {:induction false} RenderedSources(rules: seq<Rule>, adapter: string, x: string)
    ensures x in Render(rules, adapter).sources <==>
            exists k :: 0 <= k < |rules| && FirstEnabled(rules, adapter, k) && x in rules[k].sources
  {
    if rules != [] {
      var init, last := rules[..|rules| - 1], rules[|rules| - 1];
      RenderedSources(init, adapter, x);
      hide *;
      assert rules == init + [last];
      RenderedSourcesNext(init, last, adapter, x);
      FirstEnabledSnoc(init, last, adapter);
      assert forall k | 0 <= k < |init| :: init[k] == rules[k];
      assert rules[|init|] == last;
    }
  }

  ghost predicate FirstEnabled(rules: seq<Rule>, adapter: string, k: int)
    requires 0 <= k < |rules|
  {
    Enabled(rules[k], adapter) && forall j | 0 <= j < k && Enabled(rules[j], adapter) :: rules[j].id != rules[k].id
  }

  lemma {:induction false} RenderedIds(rules: seq<Rule>, adapter: string, id: string)
    ensures id in Render(rules, adapter).ids <==>
            exists k :: 0 <= k < |rules| && Enabled(rules[k], adapter) && rules[k].id == id
  {
    if rules != [] {
      var init := rules[..|rules| - 1];
      RenderedIds(init, adapter, id);
      assert forall k | 0 <= k < |init| :: init[k] == rules[k];
      assert Enabled(rules[|init|], adapter) == Enabled(rules[|rules| - 1], adapter);
    }
  }

  // ---------- conflicts ----------

  /** What a report says about two of the rules. */
  ghost predicate Clash(c: Conflict, a: Rule, b: Rule, norm: string -> string) {
    match c
    case DuplicateInstruction(ruleId, otherId) =>
      b.id == ruleId && a.id == otherId && ruleId != otherId && norm(a.text) == norm(b.text)
    case ConflictingRule(ruleId, otherId) =>
      b.id == ruleId && a.id == otherId && ruleId == otherId && norm(a.text) != norm(b.text)
  }

  /** Every report names two rules that clash, the later one first. */
  lemma {:induction false} ReportsAreClashes(rules: seq<Rule>, norm: string -> string, c: Conflict)
    requires c in ConflictsOf(rules, norm)
    ensures exists i, j :: 0 <= i < j < |rules| && Clash(c, rules[i], rules[j], norm)
  {
    var init, last := rules[..|rules| - 1], rules[|rules| - 1];
    if c in ConflictsOf(init, norm) {
      ReportsAreClashes(init, norm, c);
      var i, j :| 0 <= i < j < |init| && Clash(c, init[i], init[j], norm);
      assert rules[i] == init[i] && rules[j] == init[j];
    } else {
      assert c in ConflictsAt(init, norm, last);
      LatestTextMeans(init, norm, norm(last.text));
      LatestIdMeans(init, last.id);
      var other := if c.DuplicateInstruction? then LatestText(init, norm, norm(last.text)).value
                   else LatestId(init, last.id).value;
      var i :| 0 <= i < |init| && init[i] == other;
      assert rules[i] == other && Clash(c, rules[i], rules[|rules| - 1], norm);
    }
  }

  /** Two rules carry the same text exactly when they carry the same id. */
  ghost predicate Agree(a: Rule, b: Rule, norm: string -> string) {
    norm(a.text) == norm(b.text) <==> a.id == b.id
  }

  ghost predicate Consistent(rules: seq<Rule>, norm: string -> string) {
    forall i, j | 0 <= i < j < |rules| :: Agree(rules[i], rules[j], norm)
  }

  lemma {:induction false} LatestTextMeans(rules: seq<Rule>, norm: string -> string, text: string)
    ensures var l := LatestText(rules, norm, text);
            && (l.Some? ==> l.value in rules && norm(l.value.text) == text)
            && (l.None? ==> forall x | x in rules :: norm(x.text) != text)
  {
    if rules != [] {
      assert rules == rules[..|rules| - 1] + [rules[|rules| - 1]];
      LatestTextMeans(rules[..|rules| - 1], norm, text);
    }
  }

  lemma {:induction false} LatestIdMeans(rules: seq<Rule>, id: string)
    ensures var l := LatestId(rules, id);
            && (l.Some? ==> l.value in rules && l.value.id == id)
            && (l.None? ==> forall x | x in rules :: x.id != id)
  {
    if rules != [] {
      assert rules == rules[..|rules| - 1] + [rules[|rules| - 1]];
      LatestIdMeans(rules[..|rules| - 1], id);
    }
  }

  /** Among consistent rules, comparing with the latest rule per key is comparing with all. */
  lemma NoConflictsAt(before: seq<Rule>, norm: string -> string, r: Rule)
    requires Consistent(before, norm)
    ensures ConflictsAt(before, norm, r) == [] <==> forall k | 0 <= k < |before| :: Agree(before[k], r, norm)
  {
    LatestTextMeans(before, norm, norm(r.text));
    LatestIdMeans(before, r.id);
    var byText, byId := LatestText(before, norm, norm(r.text)), LatestId(before, r.id);
    if ConflictsAt(before, norm, r) == [] {
      forall k | 0 <= k < |before| ensures Agree(before[k], r, norm) {
        assert before[k] in before;
        if byText.Some? {
          var m :| 0 <= m < |before| && before[m] == byText.value;
          assert k < m ==> Agree(before[k], before[m], norm);
          assert m < k ==> Agree(before[m], before[k], norm);
        }
      }
    }
    if forall k | 0 <= k < |before| :: Agree(before[k], r, norm) {
      if byText.Some? {
        var m :| 0 <= m < |before| && before[m] == byText.value;
        assert Agree(before[m], r, norm);
      }
      if byId.Some? {
        var m :| 0 <= m < |before| && before[m] == byId.value;
        assert Agree(before[m], r, norm);
      }
    }
  }

  lemma ConsistentSnoc(rules: seq<Rule>, norm: string -> string, x: Rule)
    ensures Consistent(rules + [x], norm) <==>
            Consistent(rules, norm) && forall k | 0 <= k < |rules| :: Agree(rules[k], x, norm)
  {
    hide Agree;
    var longer := rules + [x];
    if Consistent(longer, norm) {
      forall k | 0 <= k < |rules| ensures Agree(rules[k], x, norm) {
        assert Agree(longer[k], longer[|rules|], norm);
      }
      forall i, j | 0 <= i < j < |rules| ensures Agree(rules[i], rules[j], norm) {
        assert Agree(longer[i], longer[j], norm);
      }
    }
  }

  lemma {:induction false} ConflictFreeExactly(rules: seq<Rule>, norm: string -> string)
    ensures ConflictsOf(rules, norm) == [] <==> Consistent(rules, norm)
  {
    if rules != [] {
      hide *;
      var init, last := rules[..|rules| - 1], rules[|rules| - 1];
      ConflictFreeExactly(init, norm);
      assert rules == init + [last];
      ConflictsSnoc(init, norm, last);
      ConsistentSnoc(init, norm, last);
      if Consistent(init, norm) {
        NoConflictsAt(init, norm, last);
      }
    }
  }
}
