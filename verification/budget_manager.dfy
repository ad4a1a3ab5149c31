/** The budget manager of internal/budget/hierarchy.go, with amounts as reals. */
module BudgetManager {

  datatype Pricing = Pricing(inputPer1k: real, outputPer1k: real, toolCall: real)

  datatype Metrics = Metrics(inputTokens: real, outputTokens: real, toolCalls: real)

  datatype Envelope = Envelope(
    hardLimit: int, softLimit: int, reviewReserve: int, observedCost: real, metrics: Metrics, isBlocked: bool)

  datatype Usage = Usage(isReview: bool, inputTokens: int, outputTokens: int, toolCalls: int)

  datatype Verdict = Accepted | ReserveProtected | HardLimitHit

  /** What metered quantities cost. */
  function Price(pricing: Pricing, m: Metrics): real {
    (m.inputTokens / 1000.0) * pricing.inputPer1k +
    (m.outputTokens / 1000.0) * pricing.outputPer1k +
    m.toolCalls * pricing.toolCall
  }

  function MetricsOf(u: Usage): Metrics {
    Metrics(u.inputTokens as real, u.outputTokens as real, u.toolCalls as real)
  }

  function Add(a: Metrics, b: Metrics): Metrics {
    Metrics(a.inputTokens + b.inputTokens, a.outputTokens + b.outputTokens, a.toolCalls + b.toolCalls)
  }

  function FreshEnvelope(hardLimit: int, softLimit: int, reviewReserve: int): Envelope {
    Envelope(hardLimit, softLimit, reviewReserve, 0.0, Metrics(0.0, 0.0, 0.0), false)
  }

  function VerdictOf(e: Envelope, cost: real, isReview: bool): Verdict {
    var newCost := e.observedCost + cost;
    var effective := e.hardLimit - e.reviewReserve;
    if !isReview && e.reviewReserve > 0 && effective > 0 && newCost > effective as real then ReserveProtected
    else if e.hardLimit > 0 && newCost > e.hardLimit as real then HardLimitHit
    else Accepted
  }

  /** A refused call only sets the blocked flag; an accepted one leaves the flag alone. */
  function Charge(pricing: Pricing, e: Envelope, u: Usage): Envelope {
    var cost := Price(pricing, MetricsOf(u));
    if VerdictOf(e, cost, u.isReview) != Accepted then e.(isBlocked := true)
    else e.(observedCost := e.observedCost + cost, metrics := Add(e.metrics, MetricsOf(u)))
  }

  class Manager {
    const pricing: Pricing
    var envelopes: map<string, Envelope>

    constructor (pricing: Pricing)
      ensures this.pricing == pricing && envelopes == map[]
    {
      this.pricing := pricing;
      envelopes := map[];
    }

    method SetEnvelope(scopeId: string, hardLimit: int, softLimit: int, reviewReserve: int)
      modifies this
      ensures envelopes == old(envelopes)[scopeId := FreshEnvelope(hardLimit, softLimit, reviewReserve)]
    {
      var unused := Metrics(0.0, 0.0, 0.0);
      envelopes := envelopes[scopeId := Envelope(hardLimit, softLimit, reviewReserve, 0.0, unused, false)];
    }

    /** Also reports the cost of a refused call; an unknown scope costs nothing. */
    method RecordConsumption(scopeId: string, u: Usage) returns (cost: real, found: bool, verdict: Verdict)
      modifies this
      ensures found <==> scopeId in old(envelopes)
      ensures !found ==> cost == 0.0 && envelopes == old(envelopes)
      ensures found ==>
                && cost == Price(pricing, MetricsOf(u))
                && verdict == VerdictOf(old(envelopes)[scopeId], cost, u.isReview)
                && envelopes == old(envelopes)[scopeId := Charge(pricing, old(envelopes)[scopeId], u)]
      ensures found && verdict != Accepted ==>
                && envelopes[scopeId].observedCost == old(envelopes)[scopeId].observedCost
                && envelopes[scopeId].metrics == old(envelopes)[scopeId].metrics && envelopes[scopeId].isBlocked
      ensures found && verdict == ReserveProtected ==>
                var e := old(envelopes)[scopeId];
                !u.isReview && 0 < e.reviewReserve < e.hardLimit &&
                e.observedCost + cost > (e.hardLimit - e.reviewReserve) as real
      ensures found && verdict == HardLimitHit ==>
                var e := old(envelopes)[scopeId];
                e.hardLimit > 0 && e.observedCost + cost > e.hardLimit as real
      ensures found && verdict == Accepted ==>
                var e, e' := old(envelopes)[scopeId], envelopes[scopeId];
                && e'.observedCost == e.observedCost + cost
                && (e.hardLimit > 0 ==> e'.observedCost <= e.hardLimit as real)
                && (!u.isReview && 0 < e.reviewReserve < e.hardLimit ==>
                      e'.observedCost <= (e.hardLimit - e.reviewReserve) as real)
    {
      verdict := Accepted;
      if scopeId !in envelopes {
        return 0.0, false, verdict;
      }
      var env := envelopes[scopeId];
      cost := ((u.inputTokens as real) / 1000.0) * pricing.inputPer1k +
        ((u.outputTokens as real) / 1000.0) * pricing.outputPer1k +
        (u.toolCalls as real) * pricing.toolCall;
      found := true;
      var newCost := env.observedCost + cost;
      if !u.isReview && env.reviewReserve > 0 {
        var effectiveLimit := env.hardLimit - env.reviewReserve;
        if effectiveLimit > 0 && newCost > effectiveLimit as real {
          envelopes := envelopes[scopeId := env.(isBlocked := true)];
          verdict := ReserveProtected;
          return;
        }
      }
      if env.hardLimit > 0 && newCost > env.hardLimit as real {
        envelopes := envelopes[scopeId := env.(isBlocked := true)];
        verdict := HardLimitHit;
        return;
      }
      env := env.(observedCost := newCost,
                  metrics := Metrics(env.metrics.inputTokens + u.inputTokens as real,
                                     env.metrics.outputTokens + u.outputTokens as real,
                                     env.metrics.toolCalls + u.toolCalls as real));
      envelopes := envelopes[scopeId := env];
    }
  }

  // ---------- runs ----------

  function Charges(pricing: Pricing, e: Envelope, us: seq<Usage>): Envelope {
    if us == [] then e else Charge(pricing, Charges(pricing, e, us[..|us| - 1]), us[|us| - 1])
  }

  lemma PriceIsAdditive(pricing: Pricing, a: Metrics, b: Metrics)
    ensures Price(pricing, Add(a, b)) == Price(pricing, a) + Price(pricing, b)
  {
    assert (a.inputTokens + b.inputTokens) / 1000.0 == a.inputTokens / 1000.0 + b.inputTokens / 1000.0;
    assert (a.outputTokens + b.outputTokens) / 1000.0 == a.outputTokens / 1000.0 + b.outputTokens / 1000.0;
    assert (a.toolCalls + b.toolCalls) * pricing.toolCall ==
           a.toolCalls * pricing.toolCall + b.toolCalls * pricing.toolCall;
  }

  /** Reserve and limit as an envelope must be set up for the reserve to mean something. */
  predicate Reserving(e: Envelope) {
    0 < e.reviewReserve < e.hardLimit
  }

  /** What every run keeps: the cost is the price of the metered quantities, it never passes
      the hard limit, and the limits stay as they were set. */
  ghost predicate Sound(pricing: Pricing, e: Envelope, hardLimit: int, reviewReserve: int) {
    && e.hardLimit == hardLimit && e.reviewReserve == reviewReserve
    && e.observedCost == Price(pricing, e.metrics)
    && e.observedCost <= hardLimit as real
  }

  lemma {:induction false} RunIsSound(
    pricing: Pricing, hardLimit: int, softLimit: int, reviewReserve: int, us: seq<Usage>)
    requires hardLimit > 0
    ensures var e := Charges(pricing, FreshEnvelope(hardLimit, softLimit, reviewReserve), us);
            Sound(pricing, e, hardLimit, reviewReserve)
  {
    if us != [] {
      var before := Charges(pricing, FreshEnvelope(hardLimit, softLimit, reviewReserve), us[..|us| - 1]);
      RunIsSound(pricing, hardLimit, softLimit, reviewReserve, us[..|us| - 1]);
      PriceIsAdditive(pricing, before.metrics, MetricsOf(us[|us| - 1]));
      hide Price;
    }
  }

  // ---------- the blocked flag ----------

  /** The envelope the first `n` calls of a run leave refuses the next one. */
  ghost predicate RefusedAt(pricing: Pricing, e: Envelope, us: seq<Usage>, n: nat)
    requires n < |us|
  {
    VerdictOf(Charges(pricing, e, us[..n]), Price(pricing, MetricsOf(us[n])), us[n].isReview) != Accepted
  }

  /** The flag records whether any call of the run was refused, and is never taken back. */
  lemma {:induction false} BlockedExactly(pricing: Pricing, e: Envelope, us: seq<Usage>)
    ensures Charges(pricing, e, us).isBlocked <==>
            e.isBlocked || exists n :: 0 <= n < |us| && RefusedAt(pricing, e, us, n)
  {
    if us != [] {
      var init, last := us[..|us| - 1], |us| - 1;
      hide Price, VerdictOf;
      BlockedExactly(pricing, e, init);
      forall n | 0 <= n < last ensures RefusedAt(pricing, e, init, n) <==> RefusedAt(pricing, e, us, n) {
        assert init[..n] == us[..n];
      }
      assert Charges(pricing, e, us).isBlocked <==>
             Charges(pricing, e, init).isBlocked || RefusedAt(pricing, e, us, last);
    }
  }

  /** But no charge depends on it: over every run, costs, metrics and verdicts are those of an
      envelope that was never blocked. */
  lemma {:induction false} BlockIsIgnored(pricing: Pricing, e: Envelope, blocked: bool, us: seq<Usage>)
    ensures var r, r' := Charges(pricing, e, us), Charges(pricing, e.(isBlocked := blocked), us);
            && r'.(isBlocked := r.isBlocked) == r
            && forall cost, isReview :: VerdictOf(r', cost, isReview) == VerdictOf(r, cost, isReview)
  {
    if us != [] {
      hide Price;
      BlockIsIgnored(pricing, e, blocked, us[..|us| - 1]);
    }
  }

  const CENT_A_CALL := Pricing(0.0, 0.0, 1.0)

  lemma CallsCost(isReview: bool, n: int)
    ensures Price(CENT_A_CALL, MetricsOf(Usage(isReview, 0, 0, n))) == n as real
  {
    var x := n as real;
    assert (0.0 / 1000.0) * 0.0 == 0.0 && x * 1.0 == x;
  }

  /** Twenty tool calls at one cent are refused by a limit of ten and block the envelope; the
      one call after them is accepted, with the flag still set. */
  lemma BlockedEnvelopeAccepts()
    ensures var start, many, one := FreshEnvelope(10, 0, 0), Usage(false, 0, 0, 20), Usage(false, 0, 0, 1);
            var blocked := Charge(CENT_A_CALL, start, many);
            && blocked == start.(isBlocked := true)
            && VerdictOf(blocked, Price(CENT_A_CALL, MetricsOf(one)), one.isReview) == Accepted
            && Charge(CENT_A_CALL, blocked, one).observedCost == 1.0 && Charge(CENT_A_CALL, blocked, one).isBlocked
  {
    CallsCost(false, 20);
    CallsCost(false, 1);
    hide Price;
  }

  /** Implementation work never dips into the reserve, whatever it tries. */
  lemma {:induction false} ImplementationLeavesReserve(pricing: Pricing, e: Envelope, us: seq<Usage>)
    requires Reserving(e) && e.observedCost <= (e.hardLimit - e.reviewReserve) as real
    requires forall u | u in us :: !u.isReview
    ensures var r := Charges(pricing, e, us);
            && r.hardLimit == e.hardLimit && r.reviewReserve == e.reviewReserve
            && r.observedCost <= (e.hardLimit - e.reviewReserve) as real
  {
    if us != [] {
      hide Price;
      assert us[|us| - 1] in us;
      ImplementationLeavesReserve(pricing, e, us[..|us| - 1]);
    }
  }

  /** The total price of a sequence of calls. */
  ghost function Total(pricing: Pricing, us: seq<Usage>): real {
    if us == [] then 0.0 else Total(pricing, us[..|us| - 1]) + Price(pricing, MetricsOf(us[|us| - 1]))
  }

  /** A run whose calls are all accepted books what they cost. */
  lemma {:induction false} AcceptedRunBooksAll(pricing: Pricing, e: Envelope, us: seq<Usage>)
    requires forall n | 0 <= n < |us| :: !RefusedAt(pricing, e, us, n)
    ensures var r := Charges(pricing, e, us);
            r.observedCost == e.observedCost + Total(pricing, us) && r.isBlocked == e.isBlocked
            && r.hardLimit == e.hardLimit && r.reviewReserve == e.reviewReserve
  {
    if us != [] {
      var init := us[..|us| - 1];
      forall n | 0 <= n < |init| ensures !RefusedAt(pricing, e, init, n) {
        assert init[..n] == us[..n] && !RefusedAt(pricing, e, us, n);
      }
      AcceptedRunBooksAll(pricing, e, init);
      assert !RefusedAt(pricing, e, us, |us| - 1);
      hide Price;
    }
  }

  /** Implementation work on a fresh envelope with a reserve is accepted call by call, and booked
      in full, exactly as long as its costs add up to no more than the limit without the reserve. */
  lemma {:induction false} ImplementationAcceptedExactly(
    pricing: Pricing, hardLimit: int, softLimit: int, reviewReserve: int, us: seq<Usage>)
    requires 0 < reviewReserve < hardLimit && forall u | u in us :: !u.isReview
    ensures var e := FreshEnvelope(hardLimit, softLimit, reviewReserve);
            && ((forall n | 0 <= n < |us| :: !RefusedAt(pricing, e, us, n)) <==>
                (forall n | 0 <= n <= |us| :: Total(pricing, us[..n]) <= (hardLimit - reviewReserve) as real))
            && ((forall n | 0 <= n < |us| :: !RefusedAt(pricing, e, us, n)) ==>
                  Charges(pricing, e, us).observedCost == Total(pricing, us))
  {
    var e := FreshEnvelope(hardLimit, softLimit, reviewReserve);
    if us == [] {
      assert us[..0] == [];
    } else {
      var init, last := us[..|us| - 1], us[|us| - 1];
      assert last in us && us[..|us|] == us;
      ImplementationAcceptedExactly(pricing, hardLimit, softLimit, reviewReserve, init);
      forall n | 0 <= n < |init| ensures RefusedAt(pricing, e, init, n) <==> RefusedAt(pricing, e, us, n) {
        assert init[..n] == us[..n];
      }
      assert forall n | 0 <= n <= |init| :: init[..n] == us[..n];
      if forall n | 0 <= n < |init| :: !RefusedAt(pricing, e, init, n) {
        AcceptedRunBooksAll(pricing, e, init);
        LastAccepted(pricing, Charges(pricing, e, init), last);
        assert RefusedAt(pricing, e, us, |us| - 1) <==>
               Total(pricing, us) > (hardLimit - reviewReserve) as real;
        if !RefusedAt(pricing, e, us, |us| - 1) {
          assert forall n | 0 <= n < |us| :: !RefusedAt(pricing, e, us, n);
          AcceptedRunBooksAll(pricing, e, us);
        }
      }
    }
  }

  lemma LastAccepted(pricing: Pricing, e: Envelope, u: Usage)
    requires Reserving(e) && !u.isReview
    ensures VerdictOf(e, Price(pricing, MetricsOf(u)), u.isReview) == Accepted <==>
            e.observedCost + Price(pricing, MetricsOf(u)) <= (e.hardLimit - e.reviewReserve) as real
  {
  }

  /** Prices are per thousand tokens and per call. */
  lemma PriceOfThousands(pricing: Pricing, a: real, b: real, c: real)
    ensures Price(pricing, Metrics(1000.0 * a, 1000.0 * b, c)) ==
            a * pricing.inputPer1k + b * pricing.outputPer1k + c * pricing.toolCall
  {
    assert (1000.0 * a) / 1000.0 == a && (1000.0 * b) / 1000.0 == b;
  }

  /** Review charges that stay within the room up to the hard limit are all accepted. */
  lemma {:induction false} ReviewWithinRoom(pricing: Pricing, e: Envelope, us: seq<Usage>, room: real)
    requires e.observedCost + room <= e.hardLimit as real
    requires forall u | u in us :: u.isReview
    requires forall n | 0 <= n <= |us| :: Total(pricing, us[..n]) <= room
    ensures Charges(pricing, e, us).observedCost == e.observedCost + Total(pricing, us)
    ensures Charges(pricing, e, us).hardLimit == e.hardLimit
    ensures us != [] ==>
              var before, last := Charges(pricing, e, us[..|us| - 1]), us[|us| - 1];
              VerdictOf(before, Price(pricing, MetricsOf(last)), last.isReview) == Accepted
  {
    if us != [] {
      var init := us[..|us| - 1];
      assert forall n | 0 <= n <= |init| :: init[..n] == us[..n];
      assert us[..|us|] == us && us[|us| - 1] in us;
      hide Price;
      ReviewWithinRoom(pricing, e, init, room);
    }
  }

  /** After any implementation-only run every review charge is accepted as long as the charges
      so far total at most the reserve. */
  lemma ReserveIsThereForReview(
    pricing: Pricing, hardLimit: int, softLimit: int, reviewReserve: int, work: seq<Usage>, review: seq<Usage>, n: nat)
    requires 0 < reviewReserve < hardLimit
    requires forall u | u in work :: !u.isReview
    requires forall u | u in review :: u.isReview
    requires forall k | 0 <= k <= |review| :: Total(pricing, review[..k]) <= reviewReserve as real
    requires n < |review|
    ensures var e := Charges(pricing, FreshEnvelope(hardLimit, softLimit, reviewReserve), work);
            var before := Charges(pricing, e, review[..n]);
            VerdictOf(before, Price(pricing, MetricsOf(review[n])), review[n].isReview) == Accepted
  {
    var start := FreshEnvelope(hardLimit, softLimit, reviewReserve);
    ImplementationLeavesReserve(pricing, start, work);
    var upTo := review[..n + 1];
    assert upTo[..n] == review[..n] && upTo[|upTo| - 1] == review[n];
    assert forall k | 0 <= k <= |upTo| :: upTo[..k] == review[..k];
    hide Price;
    ReviewWithinRoom(pricing, Charges(pricing, start, work), upTo, reviewReserve as real);
  }
}
