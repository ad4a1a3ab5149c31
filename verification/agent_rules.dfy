/** Scoped instruction rules of internal/agentsurface/ir.go and their rendering in
    internal/agentsurface/adapters.go. */
module AgentRules {
  import opened Text
  import opened Sorting

  /** The token budget plays no part in selection, order or rendering. */
  datatype Rule = Rule(
    id: string, scope: string, text: string, precedence: int, adapters: seq<string>, sources: seq<string>)

  // ---------- scopes ----------

  function TrimSlashesLeft(s: string): string {
    if s != "" && s[0] == '/' then TrimSlashesLeft(s[1..]) else s
  }

  function TrimSlashesRight(s: string): string {
    if s != "" && s[|s| - 1] == '/' then TrimSlashesRight(s[..|s| - 1]) else s
  }

  /** The canonical spelling of a scope, on a system whose separator is the slash. */
  function NormalScope(scope: string): string {
    var trimmed := Trim(scope);
    var relative := if "./" <= trimmed then trimmed[2..] else trimmed;
    var bare := TrimSlashesRight(TrimSlashesLeft(relative));
    if bare == "." then "" else bare
  }

  /** Nesting of normalised scopes: the root, the scope itself, or a path below it. */
  predicate Within(scope: string, target: string) {
    scope == "" || target == scope || scope + "/" <= target
  }

  predicate ScopeContains(scope: string, target: string) {
    Within(NormalScope(scope), NormalScope(target))
  }

  function Slashes(s: string): nat {
    if s == "" then 0 else (if s[0] == '/' then 1 else 0) + Slashes(s[1..])
  }

  /** The number of segments; the scope is normalised once more first. */
  function ScopeDepth(scope: string): nat {
    var n := NormalScope(scope);
    if n == "" then 0 else 1 + Slashes(n)
  }

  lemma WithinTransitive(a: string, b: string, c: string)
    requires Within(a, b) && Within(b, c)
    ensures Within(a, c)
  {
    if a != "" && b != a && c != b {
      assert a + "/" <= b <= b + "/" <= c;
    }
  }

  /** Two scopes around the same target are nested in one another. */
  lemma WithinComparable(a: string, b: string, c: string)
    requires Within(a, c) && Within(b, c)
    ensures Within(a, b) || Within(b, a)
  {
    if a != "" && b != "" && a + "/" <= c && b + "/" <= c {
      assert a == c[..|a|] && b == c[..|b|];
      if |a| < |b| {
        assert a + "/" == c[..|a| + 1] == b[..|a| + 1];
      } else if |b| < |a| {
        assert b + "/" == c[..|b| + 1] == a[..|b| + 1];
      }
    }
  }

  // ---------- the compilation order ----------

  function Normalised(r: Rule): Rule {
    r.(scope := NormalScope(r.scope))
  }

  /** Broadest scope first, then precedence, then rule id. */
  predicate Before(a: Rule, b: Rule) {
    var da, db := ScopeDepth(a.scope), ScopeDepth(b.scope);
    if da != db then da < db
    else if a.precedence != b.precedence then a.precedence < b.precedence
    else Less(a.id, b.id)
  }

  lemma BeforeIsStrictOrder(a: Rule, b: Rule, c: Rule)
    ensures !Before(a, a) && !(Before(a, b) && Before(b, a))
    ensures !Before(b, a) && !Before(c, b) ==> !Before(c, a)
    ensures Before(a, b) && !Before(c, b) ==> Before(a, c)
    ensures !Before(b, a) && Before(b, c) ==> Before(a, c)
  {
    LessTotal(a.id, a.id);
    LessTotal(a.id, b.id);
    LessTotal(b.id, c.id);
    LessTotal(a.id, c.id);
    if Less(a.id, b.id) && Less(b.id, c.id) { LessTransitive(a.id, b.id, c.id); }
    if Less(c.id, b.id) && Less(b.id, a.id) { LessTransitive(c.id, b.id, a.id); }
    if Less(c.id, a.id) && Less(a.id, b.id) { LessTransitive(c.id, a.id, b.id); }
    if Less(b.id, c.id) && Less(c.id, a.id) { LessTransitive(b.id, c.id, a.id); }
    if Less(b.id, a.id) && Less(a.id, c.id) { LessTransitive(b.id, a.id, c.id); }
    if Less(a.id, c.id) && Less(c.id, b.id) { LessTransitive(a.id, c.id, b.id); }
  }

  lemma BeforeIsStrictWeak()
    ensures StrictWeak(Before)
  {
    hide Before;
    forall a, b, c ensures Before(a, b) ==> !Before(b, a) ensures !Before(b, a) && !Before(c, b) ==> !Before(c, a) {
      BeforeIsStrictOrder(a, b, c);
    }
  }

  /** What sort.SliceStable promises: sorted, the same rules, ties in their old order. */
  ghost predicate StableArrangement(t: seq<Rule>, s: seq<Rule>) {
    SortedBy(Before, t) && multiset(t) == multiset(s) && forall r :: Ties(Before, t, r) == Ties(Before, s, r)
  }

  lemma SortArranges(s: seq<Rule>)
    ensures StableArrangement(SortBy(Before, s), s)
  {
    BeforeIsStrictWeak();
    SortBySorts(Before, s);
    forall r ensures Ties(Before, SortBy(Before, s), r) == Ties(Before, s, r) {
      SortByIsStable(Before, s, r);
    }
  }

  /** Stands for sort.SliceStable. */
  method SortStable(rules: seq<Rule>) returns (sorted: seq<Rule>)
    ensures sorted == SortBy(Before, rules) && StableArrangement(sorted, rules)
  {
    sorted := [];
    for i := 0 to |rules|
      invariant sorted == SortBy(Before, rules[..i])
    {
      assert rules[..i + 1][..i] == rules[..i];
      sorted := InsertBy(Before, sorted, rules[i]);
    }
    assert rules[..|rules|] == rules;
    SortArranges(rules);
  }

  // ---------- effective rules ----------

  /** The rules that apply to a target, normalised, in their declared order. */
  function Applying(rules: seq<Rule>, target: string): seq<Rule> {
    if rules == [] then []
    else
      var last := rules[|rules| - 1];
      Applying(rules[..|rules| - 1], target) + if ScopeContains(last.scope, target) then [Normalised(last)] else []
  }

  function Effective(rules: seq<Rule>, target: string): seq<Rule> {
    SortBy(Before, Applying(rules, target))
  }

  /** The compilation order of the effective rules, told by their fields: depth, then precedence
      with the smaller number first, then id. */
  lemma EffectiveOrder(rules: seq<Rule>, target: string, i: nat, j: nat)
    requires i < j < |Effective(rules, target)|
    ensures var a, b := Effective(rules, target)[i], Effective(rules, target)[j];
            && ScopeDepth(a.scope) <= ScopeDepth(b.scope)
            && (ScopeDepth(a.scope) == ScopeDepth(b.scope) ==>
                  a.precedence <= b.precedence && (a.precedence == b.precedence ==> a.id == b.id || Less(a.id, b.id)))
  {
    SortArranges(Applying(rules, target));
    var a, b := Effective(rules, target)[i], Effective(rules, target)[j];
    assert !Before(b, a);
    hide ScopeDepth, Effective, Less;
    LessTotal(a.id, b.id);
  }

  method EffectiveRules(rules: seq<Rule>, target: string) returns (effective: seq<Rule>)
    ensures effective == Effective(rules, target)
  {
    var applying: seq<Rule> := [];
    for i := 0 to |rules|
      invariant applying == Applying(rules[..i], target)
    {
      assert rules[..i + 1][..i] == rules[..i];
      if ScopeContains(rules[i].scope, target) {
        applying := applying + [Normalised(rules[i])];
      }
    }
    assert rules[..|rules|] == rules;
    effective := SortStable(applying);
  }

  // ---------- rendering ----------

  predicate Enabled(r: Rule, adapter: string) {
    |r.adapters| == 0 || adapter in r.adapters
  }

  /** `sources` still holds what the rendered rules list, in order and with repetitions. */
  datatype Rendered = Rendered(bullets: seq<string>, sources: seq<string>, ids: seq<string>)

  /** One bullet for each enabled rule whose id was not seen before. */
  function Render(rules: seq<Rule>, adapter: string): (r: Rendered)
    ensures |r.bullets| == |r.ids|
  {
    if rules == [] then Rendered([], [], [])
    else
      var before, last := Render(rules[..|rules| - 1], adapter), rules[|rules| - 1];
      if !Enabled(last, adapter) || last.id in before.ids then before
      else Rendered(before.bullets + ["- " + Trim(last.text)], before.sources + last.sources, before.ids + [last.id])
  }

  lemma RenderNext(rules: seq<Rule>, adapter: string, i: nat)
    requires i < |rules|
    ensures var before, r := Render(rules[..i], adapter), rules[i];
            Render(rules[..i + 1], adapter) ==
            if !Enabled(r, adapter) || r.id in before.ids then before
            else Rendered(before.bullets + ["- " + Trim(r.text)], before.sources + r.sources, before.ids + [r.id])
  {
    assert rules[..i + 1][..i] == rules[..i];
  }

  lemma LessIsStrictWeak()
    ensures StrictWeak<string>(Less)
  {
    hide Less;
    forall a: string, b: string ensures Less(a, b) ==> !Less(b, a) {
      LessTotal(a, b);
    }
    forall a: string, b: string, c: string | !Less(b, a) && !Less(c, b) ensures !Less(c, a) {
      LessTotal(a, b);
      LessTotal(b, c);
      LessTotal(a, c);
      if Less(a, b) && Less(b, c) {
        LessTransitive(a, b, c);
      }
    }
  }

  /** Strictly ascending: sorted and without repetitions. */
  ghost predicate Ascending(s: seq<string>) {
    forall i, j | 0 <= i < j < |s| :: Less(s[i], s[j])
  }

  /** Drops empty strings and repetitions; from a sorted list it leaves an ascending one. */
  method Dedupe(values: seq<string>) returns (out: seq<string>)
    ensures forall v :: v in out <==> v != "" && v in values
    ensures SortedBy(Less, values) ==> Ascending(out)
  {
    hide Less;
    var seen: set<string> := {};
    out := [];
    for i := 0 to |values|
      invariant forall v :: v in seen <==> v in out
      invariant forall v :: v in out <==> v != "" && v in values[..i]
      invariant SortedBy(Less, values) ==> Ascending(out)
    {
      var v := values[i];
      assert values[..i + 1] == values[..i] + [v];
      if v != "" && v !in seen {
        if SortedBy(Less, values) {
          AscendingSnoc(values, i, out);
        }
        seen := seen + {v};
        out := out + [v];
      }
    }
    assert values[..|values|] == values;
  }

  lemma AscendingSnoc(values: seq<string>, i: nat, out: seq<string>)
    requires SortedBy(Less, values) && i < |values| && values[i] !in out
    requires Ascending(out) && forall v | v in out :: v in values[..i]
    ensures Ascending(out + [values[i]])
  {
    hide Less;
    forall k | 0 <= k < |out| ensures Less(out[k], values[i]) {
      assert out[k] in out;
      var j :| 0 <= j < i && values[j] == out[k];
      assert !Less(values[i], values[j]);
      LessTotal(values[i], values[j]);
    }
  }

  /** The bullets, the sources they carry, sorted and without repetitions, and the ids. */
  method RenderBullets(rules: seq<Rule>, adapter: string, scope: string)
    returns (text: string, sources: seq<string>, ids: seq<string>)
    ensures var r := Render(Effective(rules, scope), adapter);
            && ids == r.ids && text == Join(r.bullets, "\n")
            && Ascending(sources) && forall x :: x in sources <==> x != "" && x in r.sources
  {
    var effective := EffectiveRules(rules, scope);
    var bullets, all;
    bullets, all, ids := Collect(effective, adapter);
    var ordered := SortBy(Less, all);
    LessIsStrictWeak();
    SortBySorts(Less, all);
    hide *;
    forall x ensures x in ordered <==> x in all {
      SortByMembers(Less, all, x);
    }
    sources := Dedupe(ordered);
    text := Join(bullets, "\n");
  }

  /** The loop over the effective rules, which remembers the ids it has rendered. */
  method Collect(rules: seq<Rule>, adapter: string)
    returns (bullets: seq<string>, sources: seq<string>, ids: seq<string>)
    ensures Rendered(bullets, sources, ids) == Render(rules, adapter)
  {
    var seen: set<string> := {};
    bullets, sources, ids := [], [], [];
    assert Render([], adapter) == Rendered([], [], []) && rules[..0] == [];
    hide Render;
    for i := 0 to |rules|
      invariant Rendered(bullets, sources, ids) == Render(rules[..i], adapter)
      invariant forall id :: id in seen <==> id in ids
    {
      RenderNext(rules, adapter, i);
      var r := rules[i];
      if !Enabled(r, adapter) || r.id in seen {
        continue;
      }
      seen := seen + {r.id};
      bullets := bullets + ["- " + Trim(r.text)];
      sources := sources + r.sources;
      ids := ids + [r.id];
    }
    assert rules[..|rules|] == rules;
  }

  // ---------- conflicts ----------

  datatype Conflict =
    | DuplicateInstruction(ruleId: string, otherId: string)
    | ConflictingRule(ruleId: string, otherId: string)

  /** The latest rule with a given normalised text; `norm` is the text normaliser. */
  function LatestText(rules: seq<Rule>, norm: string -> string, text: string): Option<Rule> {
    if rules == [] then None
    else if norm(rules[|rules| - 1].text) == text then Some(rules[|rules| - 1])
    else LatestText(rules[..|rules| - 1], norm, text)
  }

  function LatestId(rules: seq<Rule>, id: string): Option<Rule> {
    if rules == [] then None
    else if rules[|rules| - 1].id == id then Some(rules[|rules| - 1])
    else LatestId(rules[..|rules| - 1], id)
  }

  /** What the scan reports at a rule, remembering only the latest rule per key. */
  function ConflictsAt(before: seq<Rule>, norm: string -> string, r: Rule): seq<Conflict> {
    var byText, byId := LatestText(before, norm, norm(r.text)), LatestId(before, r.id);
    (if byText.Some? && byText.value.id != r.id then [DuplicateInstruction(r.id, byText.value.id)] else []) +
    (if byId.Some? && norm(byId.value.text) != norm(r.text) then [ConflictingRule(r.id, byId.value.id)] else [])
  }

  /** The reports in scan order, before they are sorted. */
  function ConflictsOf(rules: seq<Rule>, norm: string -> string): seq<Conflict> {
    if rules == [] then []
    else ConflictsOf(rules[..|rules| - 1], norm) + ConflictsAt(rules[..|rules| - 1], norm, rules[|rules| - 1])
  }

  lemma {:induction false} LatestSnoc(rules: seq<Rule>, norm: string -> string, x: Rule, text: string, id: string)
    ensures LatestText(rules + [x], norm, text) ==
            if norm(x.text) == text then Some(x) else LatestText(rules, norm, text)
    ensures LatestId(rules + [x], id) == if x.id == id then Some(x) else LatestId(rules, id)
  {
    assert (rules + [x])[..|rules|] == rules;
  }

  /** The latest rule per key, as the scan remembers it. */
  ghost predicate Remembers(
    rules: seq<Rule>, norm: string -> string, byText: map<string, Rule>, byId: map<string, Rule>)
  {
    && (forall t :: LatestText(rules, norm, t) == if t in byText then Some(byText[t]) else None)
    && (forall id :: LatestId(rules, id) == if id in byId then Some(byId[id]) else None)
  }

  lemma RemembersNext(
    rules: seq<Rule>, norm: string -> string, byText: map<string, Rule>, byId: map<string, Rule>, r: Rule)
    requires Remembers(rules, norm, byText, byId)
    ensures Remembers(rules + [r], norm, byText[norm(r.text) := r], byId[r.id := r])
  {
    forall t, id {
      LatestSnoc(rules, norm, r, t, id);
    }
  }

  function Kind(c: Conflict): string {
    if c.DuplicateInstruction? then "duplicate-instruction" else "conflicting-rule"
  }

  /** The comparison the reports are sorted by. */
  predicate ConflictLess(a: Conflict, b: Conflict) {
    if Kind(a) != Kind(b) then Less(Kind(a), Kind(b)) else Less(a.ruleId, b.ruleId)
  }

  lemma ConflictLessIsStrictWeak()
    ensures StrictWeak(ConflictLess)
  {
    hide Less, Kind;
    forall a, b ensures ConflictLess(a, b) ==> !ConflictLess(b, a) {
      LessTotal(Kind(a), Kind(b));
      LessTotal(a.ruleId, b.ruleId);
    }
    forall a, b, c | !ConflictLess(b, a) && !ConflictLess(c, b) ensures !ConflictLess(c, a) {
      LessIsStrictWeak();
      LessTotal(Kind(a), Kind(b));
      LessTotal(Kind(b), Kind(c));
      LessTotal(Kind(a), Kind(c));
    }
  }

  /** Stands for sort.Slice: callers know no more than that the reports are sorted. */
  method SortConflicts(found: seq<Conflict>) returns (sorted: seq<Conflict>)
    ensures SortedBy(ConflictLess, sorted) && multiset(sorted) == multiset(found)
  {
    sorted := SortBy(ConflictLess, found);
    ConflictLessIsStrictWeak();
    SortBySorts(ConflictLess, found);
  }

  method ConflictsWith(
    ghost before: seq<Rule>, norm: string -> string, byText: map<string, Rule>, byId: map<string, Rule>, r: Rule)
    returns (found: seq<Conflict>)
    requires Remembers(before, norm, byText, byId)
    ensures found == ConflictsAt(before, norm, r)
  {
    var text := norm(r.text);
    found := [];
    if text in byText && byText[text].id != r.id {
      found := found + [DuplicateInstruction(r.id, byText[text].id)];
    }
    if r.id in byId && norm(byId[r.id].text) != text {
      found := found + [ConflictingRule(r.id, byId[r.id].id)];
    }
  }

  lemma ConflictsSnoc(rules: seq<Rule>, norm: string -> string, r: Rule)
    ensures ConflictsOf(rules + [r], norm) == ConflictsOf(rules, norm) + ConflictsAt(rules, norm, r)
  {
    assert (rules + [r])[..|rules|] == rules;
  }

  /** The reports among the effective rules of a target, sorted by kind and rule id. */
  method Conflicts(rules: seq<Rule>, norm: string -> string, target: string) returns (conflicts: seq<Conflict>)
    ensures SortedBy(ConflictLess, conflicts)
    ensures multiset(conflicts) == multiset(ConflictsOf(Effective(rules, target), norm))
    ensures conflicts == [] <==> ConflictsOf(Effective(rules, target), norm) == []
  {
    var effective := EffectiveRules(rules, target);
    var found := ScanConflicts(effective, norm);
    conflicts := SortConflicts(found);
    assert |conflicts| == |multiset(conflicts)| == |multiset(found)| == |found|;
  }

  method ScanConflicts(effective: seq<Rule>, norm: string -> string) returns (conflicts: seq<Conflict>)
    ensures conflicts == ConflictsOf(effective, norm)
  {
    conflicts := [];
    var byText: map<string, Rule> := map[];
    var byId: map<string, Rule> := map[];
    assert ConflictsOf([], norm) == [] && Remembers([], norm, byText, byId);
    hide *;
    assert effective[..0] == [];
    for i := 0 to |effective|
      invariant conflicts == ConflictsOf(effective[..i], norm)
      invariant Remembers(effective[..i], norm, byText, byId)
    {
      var r := effective[i];
      assert effective[..i + 1] == effective[..i] + [r];
      ConflictsSnoc(effective[..i], norm, r);
      var found := ConflictsWith(effective[..i], norm, byText, byId, r);
      RemembersNext(effective[..i], norm, byText, byId, r);
      byText := byText[norm(r.text) := r];
      byId := byId[r.id := r];
      conflicts := conflicts + found;
    }
    assert effective[..|effective|] == effective;
  }
}
