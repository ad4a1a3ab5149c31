/** The decision engine and the rule provider of internal/decision/decision.go. */
module DecisionEngines {
  import opened Text

  datatype Question = Question(id: string, kind: string, prompt: string)

  datatype Answer = Answer(
    questionId: string, choice: string, confidence: real, reasonCode: string, abstained: bool, abstainReason: string)

  /** The zero value an answer slot starts with. */
  const UNSET := Answer("", "", 0.0, "", false, "")

  datatype Request<S> = Request(state: S, questions: seq<Question>, threshold: real)

  /** A provider answers a batch of questions or fails. */
  datatype Provider<!S> = Provider(name: string, decide: Request<S> -> Option<seq<Answer>>)

  // ---------- the rule provider ----------

  /** A rule without a condition never matches. */
  datatype Rule<!S> = Rule(
    questionId: string, condition: Option<S -> bool>, outcome: string, confidence: real, reasonCode: string)

  function Threshold(requested: real): real {
    if requested <= 0.0 then 0.70 else requested
  }

  predicate Matches<S>(r: Rule<S>, q: Question, state: S) {
    r.questionId == q.id && r.condition.Some? && r.condition.value(state)
  }

  function FirstMatch<S>(rules: seq<Rule<S>>, q: Question, state: S): Option<Rule<S>> {
    if rules == [] then None
    else if Matches(rules[0], q, state) then Some(rules[0])
    else FirstMatch(rules[1..], q, state)
  }

  function RuleAnswer<S>(rules: seq<Rule<S>>, q: Question, state: S, threshold: real): Answer {
    match FirstMatch(rules, q, state)
    case None =>
      Answer(q.id, "", 0.0, "REASON-DECISION-NO-MATCH", true, "no deterministic rule matched current state")
    case Some(r) =>
      if r.confidence < threshold
      then Answer(q.id, "", r.confidence, "REASON-DECISION-BELOW-THRESHOLD", true, "confidence below threshold")
      else Answer(q.id, r.outcome, r.confidence, r.reasonCode, false, "")
  }

  function RuleAnswers<S>(rules: seq<Rule<S>>, request: Request<S>): (answers: seq<Answer>)
    ensures |answers| == |request.questions|
  {
    seq(|request.questions|, i requires 0 <= i < |request.questions| =>
      RuleAnswer(rules, request.questions[i], request.state, Threshold(request.threshold)))
  }

  class RuleDecisionProvider<S> {
    const rules: seq<Rule<S>>

    constructor (rules: seq<Rule<S>>)
      ensures this.rules == rules
    {
      this.rules := rules;
    }

    method Decide(request: Request<S>) returns (answers: seq<Answer>)
      ensures answers == RuleAnswers(rules, request)
    {
      var threshold := request.threshold;
      if threshold <= 0.0 {
        threshold := 0.70;
      }
      answers := [];
      for i := 0 to |request.questions|
        invariant |answers| == i
        invariant forall k | 0 <= k < i ::
                    answers[k] == RuleAnswer(rules, request.questions[k], request.state, threshold)
      {
        var q := request.questions[i];
        var matched := false;
        var j := 0;
        assert rules[0..] == rules;
        while j < |rules|
          invariant 0 <= j <= |rules| && |answers| == i && !matched
          invariant forall k | 0 <= k < i ::
                      answers[k] == RuleAnswer(rules, request.questions[k], request.state, threshold)
          invariant FirstMatch(rules, q, request.state) == FirstMatch(rules[j..], q, request.state)
        {
          var r := rules[j];
          assert rules[j..][1..] == rules[j + 1..];
          if r.questionId == q.id && r.condition.Some? && r.condition.value(request.state) {
            matched := true;
            if r.confidence < threshold {
              answers := answers + [Answer(q.id, "", r.confidence, "REASON-DECISION-BELOW-THRESHOLD", true,
                                           "confidence below threshold")];
            } else {
              answers := answers + [Answer(q.id, r.outcome, r.confidence, r.reasonCode, false, "")];
            }
            break;
          }
          j := j + 1;
        }
        if !matched {
          answers := answers + [Answer(q.id, "", 0.0, "REASON-DECISION-NO-MATCH", true,
                                       "no deterministic rule matched current state")];
        }
      }
    }
  }

  /** Rule `k` matches and no earlier rule does. */
  ghost predicate MatchesFirst<S>(rules: seq<Rule<S>>, q: Question, state: S, k: nat) {
    k < |rules| && Matches(rules[k], q, state) && forall j | 0 <= j < k :: !Matches(rules[j], q, state)
  }

  lemma {:induction false} FirstMatchMeans<S>(rules: seq<Rule<S>>, q: Question, state: S)
    ensures FirstMatch(rules, q, state) == None ==> forall j | 0 <= j < |rules| :: !Matches(rules[j], q, state)
    ensures forall k: nat | MatchesFirst(rules, q, state, k) :: FirstMatch(rules, q, state) == Some(rules[k])
    ensures FirstMatch(rules, q, state).Some? ==> exists k: nat :: MatchesFirst(rules, q, state, k)
  {
    if rules != [] && !Matches(rules[0], q, state) {
      var rest := rules[1..];
      FirstMatchMeans(rest, q, state);
      forall k: nat | MatchesFirst(rules, q, state, k) ensures FirstMatch(rules, q, state) == Some(rules[k]) {
        assert forall j | 0 <= j < k - 1 :: rest[j] == rules[j + 1];
        assert MatchesFirst(rest, q, state, k - 1);
      }
      if k: nat :| MatchesFirst(rest, q, state, k) {
        assert forall j | 1 <= j < k + 1 :: rules[j] == rest[j - 1];
        assert MatchesFirst(rules, q, state, k + 1);
      }
    } else if rules != [] {
      assert MatchesFirst(rules, q, state, 0);
    }
  }

  /** A question is decided exactly when its first matching rule is confident enough, and then
      with that rule's outcome; a rule further down is never consulted. */
  lemma DecidedByFirstMatch<S>(rules: seq<Rule<S>>, q: Question, state: S, threshold: real)
    ensures var a := RuleAnswer(rules, q, state, threshold);
            && (!a.abstained <==> exists k: nat :: MatchesFirst(rules, q, state, k) && rules[k].confidence >= threshold)
            && forall k: nat | MatchesFirst(rules, q, state, k) ::
                 && a.confidence == rules[k].confidence
                 && (!a.abstained ==> a.choice == rules[k].outcome && a.reasonCode == rules[k].reasonCode)
  {
    FirstMatchMeans(rules, q, state);
  }

  /** In a batch every question is decided exactly when its first matching rule is as confident as
      asked for, or as 70 percent where nothing is asked for. */
  lemma BatchDecided<S>(rules: seq<Rule<S>>, request: Request<S>, i: nat)
    requires i < |request.questions|
    ensures !RuleAnswers(rules, request)[i].abstained <==>
            exists k: nat :: MatchesFirst(rules, request.questions[i], request.state, k) &&
                             rules[k].confidence >= (if request.threshold > 0.0 then request.threshold else 0.7)
  {
    DecidedByFirstMatch(rules, request.questions[i], request.state, Threshold(request.threshold));
  }

  // ---------- the engine's batched evaluation ----------

  datatype Outcome =
    | NoProviders
    | Panicked
    | Evaluated(answers: seq<Answer>, provider: string)

  /** The positions of the questions not yet answered, in order. */
  function Open(answered: seq<bool>): (open: seq<nat>)
    ensures forall k | 0 <= k < |open| :: open[k] < |answered| && !answered[open[k]]
    ensures forall j, k | 0 <= j < k < |open| :: open[j] < open[k]
  {
    if answered == [] then []
    else Open(answered[..|answered| - 1]) + if answered[|answered| - 1] then [] else [|answered| - 1]
  }

  function Ask(questions: seq<Question>, open: seq<nat>): (asked: seq<Question>)
    requires forall k | 0 <= k < |open| :: open[k] < |questions|
    ensures |asked| == |open|
  {
    seq(|open|, k requires 0 <= k < |open| => questions[open[k]])
  }

  /** What an answer slot holds after one more answer for it. */
  function Record(slot: Answer, a: Answer): Answer {
    if !a.abstained || slot.questionId == "" then a else slot
  }

  datatype Progress = Progress(slots: seq<Answer>, answered: seq<bool>)

  function Recorded(p: Progress, at: nat, a: Answer): Progress
    requires at < |p.slots| == |p.answered|
  {
    Progress(p.slots[at := Record(p.slots[at], a)], if a.abstained then p.answered else p.answered[at := true])
  }

  /** Answers for the asked questions, put back in their original positions. */
  function RecordedAll(p: Progress, open: seq<nat>, answers: seq<Answer>): (r: Progress)
    requires |p.slots| == |p.answered| && |answers| <= |open|
    requires forall k | 0 <= k < |open| :: open[k] < |p.slots|
    ensures |r.slots| == |r.answered| == |p.slots|
    decreases |answers|
  {
    if answers == [] then p
    else Recorded(RecordedAll(p, open, answers[..|answers| - 1]), open[|answers| - 1], answers[|answers| - 1])
  }

  function Escalation(q: Question): Answer {
    Answer(q.id, "", 0.0, "REASON-DECISION-ESCALATE", true,
           "all decision providers abstained; escalate to L2 reasoning or L3 human")
  }

  /** What one position hands out once no provider is left. */
  function EscalatedAt(p: Progress, questions: seq<Question>, i: nat): Answer
    requires |p.slots| == |p.answered| == |questions| && i < |questions|
  {
    if !p.answered[i] && p.slots[i].questionId == "" then Escalation(questions[i]) else p.slots[i]
  }

  function Escalated(p: Progress, questions: seq<Question>): (answers: seq<Answer>)
    requires |p.slots| == |p.answered| == |questions|
    ensures |answers| == |questions|
  {
    seq(|questions|, i requires 0 <= i < |questions| => EscalatedAt(p, questions, i))
  }

  /** The providers still to come, given what the earlier ones left. */
  function Continue<S>(providers: seq<Provider<S>>, request: Request<S>, p: Progress, last: string): Outcome
    requires |p.slots| == |p.answered| == |request.questions|
    decreases |providers|
  {
    if providers == [] then Evaluated(Escalated(p, request.questions), last)
    else
      var open, provider := Open(p.answered), providers[0];
      if open == [] then Evaluated(Escalated(p, request.questions), provider.name)
      else match provider.decide(request.(questions := Ask(request.questions, open)))
        case None => Continue(providers[1..], request, p, provider.name)
        case Some(answers) =>
          if |answers| > |open| then Panicked
          else Continue(providers[1..], request, RecordedAll(p, open, answers), provider.name)
  }

  function Start(n: nat): Progress {
    Progress(seq(n, _ => UNSET), seq(n, _ => false))
  }

  function Evaluation<S>(providers: seq<Provider<S>>, request: Request<S>): Outcome {
    if providers == [] then NoProviders else Continue(providers, request, Start(|request.questions|), "")
  }

  class DecisionEngine<S> {
    const providers: seq<Provider<S>>

    constructor (providers: seq<Provider<S>>)
      ensures this.providers == providers
    {
      this.providers := providers;
    }

    /** The questions not yet answered, with their original positions. */
    method Unanswered(questions: seq<Question>, answered: seq<bool>)
      returns (subQuestions: seq<Question>, idxMap: seq<nat>)
      requires |answered| == |questions|
      ensures idxMap == Open(answered) && subQuestions == Ask(questions, idxMap)
    {
      subQuestions, idxMap := [], [];
      for i := 0 to |questions|
        invariant idxMap == Open(answered[..i])
        invariant |subQuestions| == |idxMap|
        invariant forall k | 0 <= k < |idxMap| :: subQuestions[k] == questions[idxMap[k]]
      {
        assert answered[..i + 1][..i] == answered[..i];
        if !answered[i] {
          subQuestions := subQuestions + [questions[i]];
          idxMap := idxMap + [i];
        }
      }
      assert answered[..|answered|] == answered;
    }

    /** Puts a batch of answers back; a provider that answers too much makes the remapping panic. */
    method RecordBatch(p: Progress, idxMap: seq<nat>, answers: seq<Answer>) returns (r: Progress, panicked: bool)
      requires |p.slots| == |p.answered|
      requires forall k | 0 <= k < |idxMap| :: idxMap[k] < |p.slots|
      ensures panicked <==> |answers| > |idxMap|
      ensures !panicked ==> r == RecordedAll(p, idxMap, answers)
    {
      var slots, answered := p.slots, p.answered;
      for subIdx := 0 to |answers|
        invariant |slots| == |answered| == |p.slots| && subIdx <= |idxMap|
        invariant Progress(slots, answered) == RecordedAll(p, idxMap, answers[..subIdx])
      {
        if subIdx >= |idxMap| {
          return p, true;
        }
        var ans, origIdx := answers[subIdx], idxMap[subIdx];
        assert answers[..subIdx + 1][..subIdx] == answers[..subIdx];
        if !ans.abstained {
          slots := slots[origIdx := ans];
          answered := answered[origIdx := true];
        } else if slots[origIdx].questionId == "" {
          slots := slots[origIdx := ans];
        }
      }
      assert answers[..|answers|] == answers;
      return Progress(slots, answered), false;
    }

    method Evaluate(request: Request<S>) returns (outcome: Outcome)
      ensures outcome == Evaluation(providers, request)
    {
      if |providers| == 0 {
        return NoProviders;
      }
      var p := Start(|request.questions|);
      var last := "";
      var k := 0;
      assert providers[0..] == providers;
      while k < |providers|
        invariant 0 <= k <= |providers| && |p.slots| == |p.answered| == |request.questions|
        invariant Continue(providers[k..], request, p, last) == Evaluation(providers, request)
      {
        var provider := providers[k];
        assert providers[k..][1..] == providers[k + 1..];
        last := provider.name;
        var subQuestions, idxMap := Unanswered(request.questions, p.answered);
        if |subQuestions| == 0 {
          break;
        }
        var res := provider.decide(request.(questions := subQuestions));
        if res.Some? {
          var panicked;
          p, panicked := RecordBatch(p, idxMap, res.value);
          if panicked {
            return Panicked;
          }
        }
        k := k + 1;
      }
      var answers := Escalate(p, request.questions);
      return Evaluated(answers, last);
    }

    /** What is still unanswered and unrecorded goes to the next level. */
    method Escalate(p: Progress, questions: seq<Question>) returns (answers: seq<Answer>)
      requires |p.slots| == |p.answered| == |questions|
      ensures answers == Escalated(p, questions)
    {
      hide Escalation;
      answers := p.slots;
      for i := 0 to |questions|
        invariant |answers| == |questions|
        invariant forall j | 0 <= j < i :: answers[j] == EscalatedAt(p, questions, j)
        invariant forall j | i <= j < |answers| :: answers[j] == p.slots[j]
      {
        if !p.answered[i] && answers[i].questionId == "" {
          answers := answers[i := Escalation(questions[i])];
        }
      }
    }
  }

  // ---------- the per-question meaning ----------

  /** What a provider does when it treats every question of a batch on its own. */
  datatype Reply = Refuses | Replies(answer: Question -> Answer)

  ghost predicate AnswersEach(f: Question -> Answer, qs: seq<Question>, answers: seq<Answer>) {
    |answers| == |qs| && forall i | 0 <= i < |qs| :: answers[i] == f(qs[i])
  }

  ghost predicate Pointwise<S(!new)>(provider: Provider<S>, request: Request<S>, reply: Reply) {
    forall qs: seq<Question> ::
      var res := provider.decide(request.(questions := qs));
      match reply
      case Refuses => res == None
      case Replies(f) => res.Some? && AnswersEach(f, qs, res.value)
  }

  /** The answer of one question: the first answer that is not an abstention, else the first
      abstention that names its question, else the escalation. */
  ghost function Settled(replies: seq<Reply>, q: Question, slot: Answer): Answer
    decreases |replies|
  {
    if replies == [] then (if slot.questionId == "" then Escalation(q) else slot)
    else match replies[0]
      case Refuses => Settled(replies[1..], q, slot)
      case Replies(f) => if f(q).abstained then Settled(replies[1..], q, Record(slot, f(q))) else f(q)
  }

  lemma {:induction false} OpenHasUnanswered(answered: seq<bool>, i: nat) returns (k: nat)
    requires i < |answered| && !answered[i]
    ensures k < |Open(answered)| && Open(answered)[k] == i
  {
    if i == |answered| - 1 {
      k := |Open(answered[..|answered| - 1])|;
    } else {
      k := OpenHasUnanswered(answered[..|answered| - 1], i);
    }
  }

  /** Only the asked positions change, each by its own answer. */
  lemma {:induction false} RecordedAllAt(p: Progress, open: seq<nat>, answers: seq<Answer>, i: nat)
    requires |p.slots| == |p.answered| && |answers| <= |open| && i < |p.slots|
    requires forall k | 0 <= k < |open| :: open[k] < |p.slots|
    requires forall j, k | 0 <= j < k < |open| :: open[j] < open[k]
    ensures var r := RecordedAll(p, open, answers);
            && (forall k | 0 <= k < |answers| && open[k] == i ::
                  && r.slots[i] == Record(p.slots[i], answers[k])
                  && r.answered[i] == (p.answered[i] || !answers[k].abstained))
            && ((forall k | 0 <= k < |answers| :: open[k] != i) ==>
                  r.slots[i] == p.slots[i] && r.answered[i] == p.answered[i])
    decreases |answers|
  {
    if answers != [] {
      RecordedAllAt(p, open, answers[..|answers| - 1], i);
    }
  }

  /** One pass of a pointwise provider changes every open slot by its own answer only. */
  lemma PassAt(p: Progress, questions: seq<Question>, f: Question -> Answer, answers: seq<Answer>, i: nat)
    requires |p.slots| == |p.answered| == |questions| && i < |p.slots|
    requires AnswersEach(f, Ask(questions, Open(p.answered)), answers)
    ensures var r := RecordedAll(p, Open(p.answered), answers);
            var a := f(questions[i]);
            && r.answered[i] == (p.answered[i] || !a.abstained)
            && r.slots[i] == if p.answered[i] then p.slots[i] else Record(p.slots[i], a)
  {
    RecordedAllAt(p, Open(p.answered), answers, i);
    if !p.answered[i] {
      var k := OpenHasUnanswered(p.answered, i);
      assert answers[k] == f(questions[i]);
    }
  }

  /** What one slot becomes under the providers still to come. */
  ghost function SlotOutcome(replies: seq<Reply>, q: Question, slot: Answer, answered: bool): Answer {
    if answered then slot else Settled(replies, q, slot)
  }

  lemma {:induction false} ContinueIsPointwise<S(!new)>(
    providers: seq<Provider<S>>, replies: seq<Reply>, request: Request<S>, p: Progress, last: string)
    requires |providers| == |replies| && |p.slots| == |p.answered| == |request.questions|
    requires forall k | 0 <= k < |providers| :: Pointwise(providers[k], request, replies[k])
    ensures var r := Continue(providers, request, p, last);
            && r.Evaluated? && |r.answers| == |request.questions|
            && forall i | 0 <= i < |r.answers| ::
                 r.answers[i] == SlotOutcome(replies, request.questions[i], p.slots[i], p.answered[i])
    decreases |providers|
  {
    if providers != [] {
      var open := Open(p.answered);
      var next := request.(questions := Ask(request.questions, open));
      assert Pointwise(providers[0], request, replies[0]);
      assert forall k | 0 <= k < |providers[1..]| :: Pointwise(providers[1..][k], request, replies[1..][k]);
      if open == [] {
        forall i | 0 <= i < |p.answered| && !p.answered[i] ensures false {
          var k := OpenHasUnanswered(p.answered, i);
        }
      } else if replies[0].Refuses? {
        ContinueIsPointwise(providers[1..], replies[1..], request, p, providers[0].name);
      } else {
        var answers := providers[0].decide(next).value;
        var r := RecordedAll(p, open, answers);
        ContinueIsPointwise(providers[1..], replies[1..], request, r, providers[0].name);
        forall i | 0 <= i < |p.slots|
          ensures SlotOutcome(replies[1..], request.questions[i], r.slots[i], r.answered[i]) ==
                  SlotOutcome(replies, request.questions[i], p.slots[i], p.answered[i])
        {
          PassAt(p, request.questions, replies[0].answer, answers, i);
        }
      }
    }
  }

  /** The batched, remapped, early-stopping evaluation is the per-question one. */
  lemma EvaluationIsPerQuestion<S(!new)>(providers: seq<Provider<S>>, replies: seq<Reply>, request: Request<S>)
    requires providers != [] && |providers| == |replies|
    requires forall k | 0 <= k < |providers| :: Pointwise(providers[k], request, replies[k])
    ensures var r := Evaluation(providers, request);
            && r.Evaluated? && |r.answers| == |request.questions|
            && forall i | 0 <= i < |r.answers| :: r.answers[i] == Settled(replies, request.questions[i], UNSET)
  {
    ContinueIsPointwise(providers, replies, request, Start(|request.questions|), "");
  }

  // ---------- what the per-question meaning is ----------

  ghost predicate Decides(reply: Reply, q: Question) {
    reply.Replies? && !reply.answer(q).abstained
  }

  ghost predicate AbstainsByName(reply: Reply, q: Question) {
    reply.Replies? && reply.answer(q).abstained && reply.answer(q).questionId != ""
  }

  /** A decided answer is the first one that is not an abstention. */
  lemma {:induction false} FirstDecisionWins(replies: seq<Reply>, q: Question, slot: Answer, k: nat)
    requires k < |replies| && Decides(replies[k], q)
    requires forall j | 0 <= j < k :: !Decides(replies[j], q)
    ensures Settled(replies, q, slot) == replies[k].answer(q)
    decreases |replies|
  {
    if k > 0 {
      var next := if replies[0].Refuses? then slot else Record(slot, replies[0].answer(q));
      FirstDecisionWins(replies[1..], q, next, k - 1);
    }
  }

  /** Otherwise the first abstention that names its question stands. */
  lemma {:induction false} FirstAbstentionStands(replies: seq<Reply>, q: Question, slot: Answer, k: nat)
    requires forall j | 0 <= j < |replies| :: !Decides(replies[j], q)
    requires slot.questionId == "" && k < |replies| && AbstainsByName(replies[k], q)
    requires forall j | 0 <= j < k :: !AbstainsByName(replies[j], q)
    ensures Settled(replies, q, slot) == replies[k].answer(q)
    decreases |replies|
  {
    if k > 0 {
      var next := if replies[0].Refuses? then slot else Record(slot, replies[0].answer(q));
      FirstAbstentionStands(replies[1..], q, next, k - 1);
    } else {
      NamedSlotStays(replies[1..], q, replies[0].answer(q));
    }
  }

  lemma {:induction false} NamedSlotStays(replies: seq<Reply>, q: Question, slot: Answer)
    requires forall j | 0 <= j < |replies| :: !Decides(replies[j], q)
    requires slot.questionId != ""
    ensures Settled(replies, q, slot) == slot
    decreases |replies|
  {
    if replies != [] {
      NamedSlotStays(replies[1..], q, slot);
    }
  }

  /** And with neither the question is escalated. */
  lemma {:induction false} NobodyEscalates(replies: seq<Reply>, q: Question, slot: Answer)
    requires forall j | 0 <= j < |replies| :: !Decides(replies[j], q) && !AbstainsByName(replies[j], q)
    requires slot.questionId == ""
    ensures Settled(replies, q, slot) == Escalation(q)
    decreases |replies|
  {
    if replies != [] {
      var next := if replies[0].Refuses? then slot else Record(slot, replies[0].answer(q));
      NobodyEscalates(replies[1..], q, next);
    }
  }

  // ---------- further providers, whatever they do ----------

  /** A slot is answered exactly when it holds a decision, and starts out unset. */
  ghost predicate Consistent(p: Progress) {
    |p.slots| == |p.answered| &&
    forall i | 0 <= i < |p.slots| ::
      if p.answered[i] then !p.slots[i].abstained else p.slots[i].abstained || p.slots[i] == UNSET
  }

  lemma {:induction false} RecordedAllKeeps(p: Progress, open: seq<nat>, answers: seq<Answer>)
    requires Consistent(p) && |answers| <= |open|
    requires forall k | 0 <= k < |open| :: open[k] < |p.slots| && !p.answered[open[k]]
    requires forall j, k | 0 <= j < k < |open| :: open[j] < open[k]
    ensures var r := RecordedAll(p, open, answers);
            && Consistent(r)
            && forall i | 0 <= i < |p.slots| && p.answered[i] :: r.answered[i] && r.slots[i] == p.slots[i]
    decreases |answers|
  {
    if answers != [] {
      RecordedAllKeeps(p, open, answers[..|answers| - 1]);
      RecordedAllAt(p, open, answers[..|answers| - 1], open[|answers| - 1]);
    }
  }

  /** No provider can touch a question once it is decided. */
  lemma {:induction false} DecidedStays<S>(providers: seq<Provider<S>>, request: Request<S>, p: Progress, last: string)
    requires Consistent(p) && |p.slots| == |request.questions|
    ensures var r := Continue(providers, request, p, last);
            r.Evaluated? ==>
              && |r.answers| == |p.slots|
              && forall i | 0 <= i < |p.slots| && p.answered[i] :: r.answers[i] == p.slots[i]
    decreases |providers|
  {
    if providers != [] {
      var open := Open(p.answered);
      var batch := request.(questions := Ask(request.questions, open));
      var res := providers[0].decide(batch);
      if open != [] && res.Some? && |res.value| <= |open| {
        RecordedAllKeeps(p, open, res.value);
        DecidedStays(providers[1..], request, RecordedAll(p, open, res.value), providers[0].name);
      } else if open != [] && res.None? {
        DecidedStays(providers[1..], request, p, providers[0].name);
      }
    }
  }

  lemma {:induction false} ContinueAppended<S>(
    providers: seq<Provider<S>>, extra: seq<Provider<S>>, request: Request<S>, p: Progress, last: string)
    requires Consistent(p) && |p.slots| == |request.questions|
    ensures var r, r' := Continue(providers, request, p, last), Continue(providers + extra, request, p, last);
            && (r.Panicked? ==> r'.Panicked?)
            && (r.Evaluated? && r'.Evaluated? ==> KeepsDecisions(r.answers, r'.answers))
    decreases |providers|
  {
    if providers == [] {
      assert providers + extra == extra;
      DecidedStays(extra, request, p, last);
    } else {
      var open := Open(p.answered);
      assert forall answers :: KeepsDecisions(answers, answers);
      hide Open, Ask, RecordedAll, Escalated, KeepsDecisions;
      assert (providers + extra)[1..] == providers[1..] + extra;
      var batch := request.(questions := Ask(request.questions, open));
      var res := providers[0].decide(batch);
      if open != [] && res.Some? && |res.value| <= |open| {
        RecordedAllKeeps(p, open, res.value);
        ContinueAppended(providers[1..], extra, request, RecordedAll(p, open, res.value), providers[0].name);
      } else if open != [] && res.None? {
        ContinueAppended(providers[1..], extra, request, p, providers[0].name);
      }
    }
  }

  ghost predicate KeepsDecisions(before: seq<Answer>, after: seq<Answer>) {
    && |after| == |before|
    && forall i | 0 <= i < |before| && !before[i].abstained :: after[i] == before[i]
  }

  /** Appending providers of any kind never changes an answer that was decided, and never
      repairs a panic. */
  lemma AppendingKeepsDecisions<S>(providers: seq<Provider<S>>, extra: seq<Provider<S>>, request: Request<S>)
    requires providers != []
    ensures var r, r' := Evaluation(providers, request), Evaluation(providers + extra, request);
            && (r.Panicked? ==> r'.Panicked?)
            && (r.Evaluated? && r'.Evaluated? ==> KeepsDecisions(r.answers, r'.answers))
  {
    ContinueAppended(providers, extra, request, Start(|request.questions|), "");
  }

  // ---------- the confidence threshold ----------

  ghost predicate Meets(a: Answer, threshold: real) {
    a.abstained || a.confidence >= threshold
  }

  ghost predicate AllMeet(answers: seq<Answer>, threshold: real) {
    forall i | 0 <= i < |answers| :: Meets(answers[i], threshold)
  }

  ghost predicate AnsweredMeet(p: Progress, threshold: real)
    requires |p.slots| == |p.answered|
  {
    forall i | 0 <= i < |p.slots| && p.answered[i] :: p.slots[i].confidence >= threshold
  }

  /** Every batch the engine takes from the providers still to come, asked what is then open,
      meets the threshold. */
  ghost predicate BatchesMeet<S>(providers: seq<Provider<S>>, request: Request<S>, p: Progress, threshold: real)
    requires |p.slots| == |p.answered| == |request.questions|
    decreases |providers|
  {
    providers == [] || Open(p.answered) == [] ||
    var open := Open(p.answered);
    var res := providers[0].decide(request.(questions := Ask(request.questions, open)));
    if res.None? then BatchesMeet(providers[1..], request, p, threshold)
    else |res.value| <= |open| ==>
           && AllMeet(res.value, threshold)
           && BatchesMeet(providers[1..], request, RecordedAll(p, open, res.value), threshold)
  }

  /** A batch meets the threshold exactly when the decisions it adds do. */
  lemma RecordedMeets(p: Progress, answers: seq<Answer>, threshold: real)
    requires Consistent(p) && |answers| <= |Open(p.answered)|
    ensures AnsweredMeet(RecordedAll(p, Open(p.answered), answers), threshold) <==>
            AnsweredMeet(p, threshold) && AllMeet(answers, threshold)
  {
    var open := Open(p.answered);
    var r := RecordedAll(p, open, answers);
    forall i | 0 <= i < |p.slots|
      ensures forall k | 0 <= k < |answers| && open[k] == i ::
                r.answered[i] == !answers[k].abstained && (r.answered[i] ==> r.slots[i] == answers[k])
      ensures (forall k | 0 <= k < |answers| :: open[k] != i) ==>
                r.answered[i] == p.answered[i] && r.slots[i] == p.slots[i]
    {
      RecordedAllAt(p, open, answers, i);
    }
    hide RecordedAll, Open;
    if AnsweredMeet(r, threshold) {
      forall k | 0 <= k < |answers| ensures Meets(answers[k], threshold) {
        assert open[k] < |p.slots| && r.answered[open[k]] == !answers[k].abstained;
      }
      forall i | 0 <= i < |p.slots| && p.answered[i] ensures p.slots[i].confidence >= threshold {
        assert forall k | 0 <= k < |answers| :: open[k] != i;
      }
    }
  }

  lemma {:induction false} ContinueMeets<S>(
    providers: seq<Provider<S>>, request: Request<S>, p: Progress, last: string, threshold: real)
    requires Consistent(p) && |p.slots| == |request.questions|
    ensures var r := Continue(providers, request, p, last);
            r.Evaluated? ==>
              (AllMeet(r.answers, threshold) <==>
               AnsweredMeet(p, threshold) && BatchesMeet(providers, request, p, threshold))
    decreases |providers|
  {
    var open := Open(p.answered);
    if providers == [] || open == [] {
      EscalatedMeets(p, request.questions, threshold);
    } else {
      var res := providers[0].decide(request.(questions := Ask(request.questions, open)));
      hide Open, RecordedAll, Escalated, AllMeet, AnsweredMeet;
      if res.None? {
        ContinueMeets(providers[1..], request, p, providers[0].name, threshold);
      } else if |res.value| <= |open| {
        RecordedAllKeeps(p, open, res.value);
        RecordedMeets(p, res.value, threshold);
        ContinueMeets(providers[1..], request, RecordedAll(p, open, res.value), providers[0].name, threshold);
      }
    }
  }

  lemma EscalatedMeets(p: Progress, questions: seq<Question>, threshold: real)
    requires Consistent(p) && |p.slots| == |questions|
    ensures AllMeet(Escalated(p, questions), threshold) <==> AnsweredMeet(p, threshold)
  {
    var answers := Escalated(p, questions);
    forall i | 0 <= i < |answers|
      ensures Meets(answers[i], threshold) <==> (p.answered[i] ==> p.slots[i].confidence >= threshold)
    {
      assert answers[i] == EscalatedAt(p, questions, i);
    }
  }

  /** What the engine returns meets a threshold exactly when every batch it took did. */
  lemma ThresholdExactly<S>(providers: seq<Provider<S>>, request: Request<S>, threshold: real)
    requires providers != []
    ensures var r := Evaluation(providers, request);
            r.Evaluated? ==>
              (AllMeet(r.answers, threshold) <==>
               BatchesMeet(providers, request, Start(|request.questions|), threshold))
  {
    ContinueMeets(providers, request, Start(|request.questions|), "", threshold);
  }

  /** The engine's bookkeeping for one question and its answer. */
  lemma OneQuestion<S>(provider: Provider<S>, request: Request<S>, a: Answer)
    requires |request.questions| == 1 && !a.abstained
    ensures Start(1) == Progress([UNSET], [false]) && Open([false]) == [0]
    ensures request.(questions := Ask(request.questions, [0])) == request
    ensures RecordedAll(Progress([UNSET], [false]), [0], [a]) == Progress([a], [true])
    ensures Continue([], request, Progress([a], [true]), provider.name) == Evaluated([a], provider.name)
  {
    assert [false][..0] == [] && Open([]) == [];
    assert Ask(request.questions, [0]) == request.questions;
    assert [a][..0] == [] && RecordedAll(Progress([UNSET], [false]), [0], []) == Progress([UNSET], [false]);
    assert Escalated(Progress([a], [true]), request.questions) == [a];
  }

  lemma ContinueTakes<S>(
    providers: seq<Provider<S>>, request: Request<S>, p: Progress, open: seq<nat>, answers: seq<Answer>, last: string)
    requires |p.slots| == |p.answered| == |request.questions| && providers != []
    requires open == Open(p.answered) != [] && |answers| <= |open|
    requires providers[0].decide(request.(questions := Ask(request.questions, open))) == Some(answers)
    ensures Continue(providers, request, p, last) ==
            Continue(providers[1..], request, RecordedAll(p, open, answers), providers[0].name)
  {
  }

  lemma SingleDecision<S>(provider: Provider<S>, request: Request<S>, a: Answer)
    requires |request.questions| == 1 && provider.decide(request) == Some([a]) && !a.abstained
    ensures Evaluation([provider], request) == Evaluated([a], provider.name)
  {
    OneQuestion(provider, request, a);
    hide RecordedAll, Open, Ask, Escalated, Start, Continue;
    ContinueTakes([provider], request, Progress([UNSET], [false]), [0], [a], "");
    assert [provider][1..] == [];
  }

  /** A provider may decide with any confidence, and the engine passes that on as a decision. */
  lemma LowConfidenceIsPassedOn<S>(state: S, q: Question)
    ensures var sure := Answer(q.id, "yes", 0.1, "", false, "");
            var provider := Provider("hasty", (r: Request<S>) => Some(seq(|r.questions|, _ => sure)));
            Evaluation([provider], Request(state, [q], 0.9)) == Evaluated([sure], "hasty")
  {
    var sure := Answer(q.id, "yes", 0.1, "", false, "");
    var provider := Provider("hasty", (r: Request<S>) => Some(seq(|r.questions|, _ => sure)));
    var request := Request(state, [q], 0.9);
    hide Evaluation;
    var batch := seq(|request.questions|, _ => sure);
    assert |batch| == 1 && batch[0] == sure && batch == [sure];
    assert provider.decide(request) == Some(batch);
    SingleDecision(provider, request, sure);
  }

  // ---------- which providers may be chained ----------

  /** Asked anything, the provider fails or gives at most one answer for each question, and what
      it decides meets the threshold asked for. */
  ghost predicate Honest<S(!new)>(provider: Provider<S>) {
    forall request: Request<S> | request.questions != [] ::
      var res := provider.decide(request);
      res.None? || (|res.value| <= |request.questions| && AllMeet(res.value, request.threshold))
  }

  ghost predicate DrawnFrom<S>(chain: seq<Provider<S>>, providers: seq<Provider<S>>) {
    chain != [] && forall k | 0 <= k < |chain| :: chain[k] in providers
  }

  /** The engine neither panics nor returns a decision below the threshold. */
  ghost predicate Sound<S>(chain: seq<Provider<S>>, request: Request<S>) {
    var r := Evaluation(chain, request);
    r.Evaluated? && AllMeet(r.answers, request.threshold)
  }

  lemma {:induction false} HonestContinue<S(!new)>(
    chain: seq<Provider<S>>, request: Request<S>, p: Progress, last: string)
    requires |p.slots| == |p.answered| == |request.questions|
    requires forall k | 0 <= k < |chain| :: Honest(chain[k])
    ensures Continue(chain, request, p, last).Evaluated? && BatchesMeet(chain, request, p, request.threshold)
    decreases |chain|
  {
    var open := Open(p.answered);
    hide Open, RecordedAll, Escalated, AllMeet;
    if chain != [] && open != [] {
      var batch := request.(questions := Ask(request.questions, open));
      assert Honest(chain[0]) && batch.questions != [] && batch.threshold == request.threshold;
      var res := chain[0].decide(batch);
      HonestContinue(chain[1..], request, if res.None? then p else RecordedAll(p, open, res.value), chain[0].name);
    }
  }

  /** At the start every question is asked. */
  lemma {:induction false} AllOpen(n: nat)
    ensures Open(seq(n, _ => false)) == seq(n, i => i)
  {
    if n > 0 {
      AllOpen(n - 1);
      assert seq(n, _ => false)[..n - 1] == seq(n - 1, _ => false);
    }
  }

  lemma AskedFirst<S>(request: Request<S>)
    ensures var n := |request.questions|;
            && |Open(Start(n).answered)| == n
            && request.(questions := Ask(request.questions, Open(Start(n).answered))) == request
  {
    AllOpen(|request.questions|);
    assert Ask(request.questions, Open(Start(|request.questions|).answered)) == request.questions;
  }

  lemma AloneMeansHonest<S(!new)>(provider: Provider<S>)
    requires forall request: Request<S> :: Sound([provider], request)
    ensures Honest(provider)
  {
    forall request: Request<S> | request.questions != []
      ensures var res := provider.decide(request);
              res.None? || (|res.value| <= |request.questions| && AllMeet(res.value, request.threshold))
    {
      assert Sound([provider], request);
      AskedFirst(request);
      hide Open, Ask, RecordedAll, Escalated, AllMeet, Start;
      ThresholdExactly([provider], request, request.threshold);
    }
  }

  /** Any chain drawn from some providers can be asked anything without a panic and without a
      decision below the threshold, if and only if each of the providers is honest. */
  lemma HonestProvidersExactly<S(!new)>(providers: seq<Provider<S>>)
    ensures (forall k | 0 <= k < |providers| :: Honest(providers[k])) <==>
            (forall chain: seq<Provider<S>>, request: Request<S> | DrawnFrom(chain, providers) :: Sound(chain, request))
  {
    hide Honest;
    if forall k | 0 <= k < |providers| :: Honest(providers[k]) {
      forall chain: seq<Provider<S>>, request: Request<S> | DrawnFrom(chain, providers) ensures Sound(chain, request) {
        forall k | 0 <= k < |chain| ensures Honest(chain[k]) {
          assert chain[k] in providers;
        }
        HonestContinue(chain, request, Start(|request.questions|), "");
        ThresholdExactly(chain, request, request.threshold);
      }
    }
    if forall chain: seq<Provider<S>>, request: Request<S> | DrawnFrom(chain, providers) :: Sound(chain, request) {
      forall k | 0 <= k < |providers| ensures Honest(providers[k]) {
        assert DrawnFrom([providers[k]], providers);
        AloneMeansHonest(providers[k]);
      }
    }
  }

  /** A provider that answers a question twice makes the engine panic. */
  lemma TooManyAnswersPanic<S>(state: S, q: Question, threshold: real)
    ensures var twice := Provider("twice", (r: Request<S>) => Some([UNSET, UNSET]));
            Evaluation([twice], Request(state, [q], threshold)) == Panicked
  {
    AskedFirst(Request(state, [q], threshold));
  }

  // ---------- chains of rule providers ----------

  /** Rule providers answer pointwise and never fail. */
  function RuleProvider<S>(rules: seq<Rule<S>>): Provider<S> {
    Provider("rule-provider-l0", request => Some(RuleAnswers(rules, request)))
  }

  ghost function RuleReply<S>(rules: seq<Rule<S>>, request: Request<S>): Reply {
    Replies(q => RuleAnswer(rules, q, request.state, Threshold(request.threshold)))
  }

  lemma RuleProviderIsPointwise<S(!new)>(rules: seq<Rule<S>>, request: Request<S>)
    ensures Pointwise(RuleProvider(rules), request, RuleReply(rules, request))
  {
    forall qs: seq<Question>
      ensures var res := RuleProvider(rules).decide(request.(questions := qs));
              res.Some? && AnswersEach(RuleReply(rules, request).answer, qs, res.value)
    {
      var batch := request.(questions := qs);
      assert RuleProvider(rules).decide(batch) == Some(RuleAnswers(rules, batch));
    }
  }

  /** Rule providers are honest, whatever their rules. */
  lemma RuleProvidersAreHonest<S(!new)>(rules: seq<Rule<S>>)
    ensures Honest(RuleProvider(rules))
  {
    forall request: Request<S>
      ensures var res := RuleProvider(rules).decide(request);
              res.Some? && |res.value| == |request.questions| && AllMeet(res.value, request.threshold)
    {
      assert RuleProvider(rules).decide(request) == Some(RuleAnswers(rules, request));
      forall i | 0 <= i < |request.questions| ensures Meets(RuleAnswers(rules, request)[i], request.threshold) {
        assert RuleAnswers(rules, request)[i] ==
               RuleAnswer(rules, request.questions[i], request.state, Threshold(request.threshold));
      }
    }
  }

  ghost predicate RuleReplies<S(!new)>(replies: seq<Reply>, request: Request<S>) {
    forall k | 0 <= k < |replies| :: exists rules :: replies[k] == RuleReply(rules, request)
  }

  lemma RuleReplyMeets<S(!new)>(reply: Reply, request: Request<S>, q: Question)
    requires exists rules :: reply == RuleReply(rules, request)
    ensures reply.Replies? && reply.answer(q).questionId == q.id
    ensures !reply.answer(q).abstained ==> reply.answer(q).confidence >= Threshold(request.threshold)
  {
    var rules :| reply == RuleReply<S>(rules, request);
    assert reply.answer(q) == RuleAnswer(rules, q, request.state, Threshold(request.threshold));
  }

  lemma {:induction false} RuleSettlement<S(!new)>(replies: seq<Reply>, request: Request<S>, q: Question, slot: Answer)
    requires RuleReplies(replies, request)
    requires slot.questionId == "" || (slot.questionId == q.id && slot.abstained)
    ensures var a := Settled(replies, q, slot);
            a.questionId == q.id && (!a.abstained ==> a.confidence >= Threshold(request.threshold))
    decreases |replies|
  {
    hide RuleReply, Threshold;
    if replies != [] {
      RuleReplyMeets(replies[0], request, q);
      var a := replies[0].answer(q);
      if a.abstained {
        RuleSettlement(replies[1..], request, q, Record(slot, a));
      }
    }
  }

  /** With rule providers every answer names its own question, and every answer that is not an
      abstention meets the threshold. */
  lemma RuleChainAnswers<S(!new)>(providers: seq<Provider<S>>, chain: seq<seq<Rule<S>>>, request: Request<S>)
    requires chain != [] && |providers| == |chain|
    requires forall k | 0 <= k < |chain| :: providers[k] == RuleProvider(chain[k])
    ensures var r := Evaluation(providers, request);
            && r.Evaluated? && |r.answers| == |request.questions|
            && forall i | 0 <= i < |r.answers| ::
                 && r.answers[i].questionId == request.questions[i].id
                 && (!r.answers[i].abstained ==> r.answers[i].confidence >= Threshold(request.threshold))
  {
    var replies := seq(|chain|, k requires 0 <= k < |chain| => RuleReply(chain[k], request));
    forall k | 0 <= k < |chain| ensures Pointwise(providers[k], request, replies[k]) {
      RuleProviderIsPointwise(chain[k], request);
    }
    EvaluationIsPerQuestion(providers, replies, request);
    forall i | 0 <= i < |request.questions|
      ensures var a := Settled(replies, request.questions[i], UNSET);
              a.questionId == request.questions[i].id && (!a.abstained ==> a.confidence >= Threshold(request.threshold))
    {
      RuleSettlement(replies, request, request.questions[i], UNSET);
    }
  }
}
