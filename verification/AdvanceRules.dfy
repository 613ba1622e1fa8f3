/**
 The rules of advance payments that need no database (backend/app/core/advance_rules.py,
 backend/app/core/loan_rules.py).
 */
module AdvanceRules {
  import opened Common
  import opened Arithmetic

  datatype Step = UnitManager | SiteManager | Finance

  // ---------- the route of a request ----------

  /** The steps of a request: the requester's own step is left out, and one manager in both roles decides once. */
  function EffectiveSteps(requester: int, unitManager: Option<int>, siteManager: Option<int>): (steps: seq<Step>)
    ensures Route(steps)
    ensures UnitManager in steps ==> unitManager.Some? && unitManager.value != requester
    ensures SiteManager in steps ==> siteManager.Some? && siteManager.value != requester
    ensures UnitManager in steps && SiteManager in steps ==> unitManager.value != siteManager.value
    ensures forall p :: p != requester ==>
              (unitManager == Some(p) || siteManager == Some(p) <==>
               (UnitManager in steps && unitManager == Some(p)) || (SiteManager in steps && siteManager == Some(p)))
  {
    (if unitManager.Some? && unitManager.value != requester then [UnitManager] else []) +
    (if siteManager.Some? && siteManager.value != requester && siteManager != unitManager then [SiteManager] else []) +
    [Finance]
  }

  /** Person steps in their order, each at most once, then finance. */
  predicate Route(steps: seq<Step>) {
    steps == [Finance] || steps == [UnitManager, Finance] || steps == [SiteManager, Finance]
    || steps == [UnitManager, SiteManager, Finance]
  }

  /** The new approvers of the steps still to come: where a current one is known, is not the requester, and differs
      from the stored one. */
  function ReassignmentPlan(
    steps: seq<Step>, stepIndex: nat, stored: map<Step, int>, today: map<Step, Option<int>>, requester: int
  ): map<Step, int> {
    map k | k in today && Ahead(steps, stepIndex, k) && Changes(stored, today, requester, k) :: today[k].value
  }

  predicate Ahead(steps: seq<Step>, stepIndex: nat, step: Step) {
    exists i :: stepIndex <= i < |steps| && steps[i] == step
  }

  predicate Changes(stored: map<Step, int>, today: map<Step, Option<int>>, requester: int, step: Step)
    requires step in today
  {
    && today[step].Some? && today[step].value != requester
    && (step in stored ==> today[step].value != stored[step])
  }

  method PlanReassignment(
    steps: seq<Step>, stepIndex: nat, stored: map<Step, int>, today: map<Step, Option<int>>, requester: int
  ) returns (changes: map<Step, int>)
    ensures changes == ReassignmentPlan(steps, stepIndex, stored, today, requester)
  {
    hide ReassignmentPlan, Changes;
    changes := map[];
    PlanNone(stepIndex, stored, today, requester);
    for i := 0 to |steps|
      invariant changes == ReassignmentPlan(steps[..i], stepIndex, stored, today, requester)
    {
      PlanSnoc(steps, i, stepIndex, stored, today, requester);
      var key := steps[i];
      if i >= stepIndex && key in today && Changes(stored, today, requester, key) {
        changes := changes[key := today[key].value];
      }
    }
    assert steps[..|steps|] == steps;
  }

  lemma PlanNone(stepIndex: nat, stored: map<Step, int>, today: map<Step, Option<int>>, requester: int)
    ensures ReassignmentPlan([], stepIndex, stored, today, requester) == map[]
  {
  }

  lemma PlanSnoc(
    steps: seq<Step>, i: nat, stepIndex: nat, stored: map<Step, int>, today: map<Step, Option<int>>, requester: int
  )
    requires i < |steps|
    ensures var key, plan := steps[i], ReassignmentPlan(steps[..i], stepIndex, stored, today, requester);
            (key in today && Changes(stored, today, requester, key) ==> today[key].Some?)
            && ReassignmentPlan(steps[..i + 1], stepIndex, stored, today, requester)
               == (if i >= stepIndex && key in today && Changes(stored, today, requester, key)
                   then plan[key := today[key].value] else plan)
  {
    AheadSnoc(steps, stepIndex, i);
    hide Ahead;
  }

  lemma AheadSnoc(steps: seq<Step>, stepIndex: nat, i: nat)
    requires i < |steps|
    ensures forall k :: Ahead(steps[..i + 1], stepIndex, k) <==>
              Ahead(steps[..i], stepIndex, k) || (i >= stepIndex && steps[i] == k)
  {
    forall k
      ensures Ahead(steps[..i + 1], stepIndex, k) <==>
                Ahead(steps[..i], stepIndex, k) || (i >= stepIndex && steps[i] == k)
    {
      var before, after := steps[..i], steps[..i + 1];
      if j :| stepIndex <= j < |before| && before[j] == k {
        assert after[j] == k;
      }
      if i >= stepIndex && steps[i] == k {
        assert after[i] == k;
      }
      if j :| stepIndex <= j < |after| && after[j] == k {
        assert j < i ==> before[j] == k;
      }
    }
  }

  // ---------- the amount ----------

  datatype Tier = Tier(minMonths: int, amount: int, minAmount: Option<int>)

  /** The tier of a length of service; None without a length of service or a tier that is reached. */
  function BestTier(months: Option<int>, tiers: seq<Tier>): Option<Tier> {
    if months.None? || tiers == [] then None
    else
      var best, last := BestTier(months, tiers[..|tiers| - 1]), tiers[|tiers| - 1];
      if last.minMonths <= months.value && (best.None? || last.minMonths > best.value.minMonths) then Some(last) else best
  }

  /** It is the first tier with the greatest bound that is reached, and there is none only when no bound is reached. */
  lemma {:induction false} BestTierGreatest(months: int, tiers: seq<Tier>)
    ensures match BestTier(Some(months), tiers)
            case None => forall t :: t in tiers ==> t.minMonths > months
            case Some(best) => exists i :: FirstGreatest(months, tiers, i) && tiers[i] == best
  {
    if tiers != [] {
      var front, last := tiers[..|tiers| - 1], tiers[|tiers| - 1];
      BestTierGreatest(months, front);
      assert tiers == front + [last];
      if BestTier(Some(months), front).Some? {
        var i :| FirstGreatest(months, front, i) && front[i] == BestTier(Some(months), front).value;
        assert FirstGreatest(months, tiers, if last.minMonths <= months && last.minMonths > front[i].minMonths then |front| else i);
      }
      if last.minMonths <= months && (forall t :: t in front && t.minMonths <= months ==> t.minMonths < last.minMonths) {
        assert FirstGreatest(months, tiers, |front|);
      }
    }
  }

  /** The tier at this place is reached, and no other reached one has a greater bound, or the same bound further ahead. */
  predicate FirstGreatest(months: int, tiers: seq<Tier>, i: int) {
    && 0 <= i < |tiers| && tiers[i].minMonths <= months
    && forall j :: 0 <= j < |tiers| && tiers[j].minMonths <= months ==>
         tiers[j].minMonths <= tiers[i].minMonths && (j < i ==> tiers[j].minMonths < tiers[i].minMonths)
  }

  method TierFor(months: Option<int>, tiers: seq<Tier>) returns (best: Option<Tier>)
    ensures best == BestTier(months, tiers)
  {
    best := None;
    if months.None? {
      return;
    }
    for i := 0 to |tiers|
      invariant best == BestTier(months, tiers[..i])
    {
      var tier := tiers[i];
      if tier.minMonths <= months.value && (best.None? || tier.minMonths > best.value.minMonths) {
        best := Some(tier);
      }
      assert tiers[..i + 1][..i] == tiers[..i];
    }
    assert tiers[..|tiers|] == tiers;
  }

  /** The least amount before rounding: the tier's own, else the step, else one. */
  function LeastAmount(tier: Tier, step: Option<int>): int {
    if tier.minAmount.Some? && tier.minAmount.value != 0 then tier.minAmount.value
    else if step.Some? && step.value != 0 then step.value
    else 1
  }

  function AmountRange(tier: Tier, step: Option<int>): Option<(int, int)>
    requires step.Some? ==> step.value >= 0
  {
    var s := if step.Some? then step.value else 0;
    var low := if s > 0 then -(-LeastAmount(tier, step) / s) * s else LeastAmount(tier, step);
    var high := if s > 0 then tier.amount / s * s else tier.amount;
    if low <= 0 || low > high then None else Some((low, high))
  }

  predicate Multiple(amount: int, step: Option<int>) {
    step.Some? && step.value > 0 ==> amount % step.value == 0
  }

  datatype AmountError = NoRange | OutOfRange | NotMultiple

  function RequestedAmount(amount: int, tier: Tier, step: Option<int>): Result<int, AmountError>
    requires step.Some? ==> step.value >= 0
  {
    match AmountRange(tier, step)
    case None => Err(NoRange)
    case Some((low, high)) =>
      if amount < low || amount > high then Err(OutOfRange)
      else if !Multiple(amount, step) then Err(NotMultiple)
      else Ok(amount)
  }

  /** What a requester may ask for: at least the tier's own least amount, if it has one, at most its cap, and a multiple of
      the step, if there is one. */
  predicate Acceptable(amount: int, tier: Tier, step: Option<int>) {
    && 0 < amount <= tier.amount
    && (tier.minAmount.Some? && tier.minAmount.value != 0 ==> 0 < tier.minAmount.value <= amount)
    && (step.Some? && step.value != 0 ==> amount % step.value == 0)
  }

  /** Exactly these amounts are accepted: the rounding of the range to multiples neither admits nor loses any. The range is
      missing when there are none, and its two ends are themselves such amounts. */
  lemma AcceptableAmounts(amount: int, tier: Tier, step: Option<int>)
    requires step.Some? ==> step.value >= 0
    ensures RequestedAmount(amount, tier, step) == Ok(amount) <==> Acceptable(amount, tier, step)
    ensures match AmountRange(tier, step)
            case None => !Acceptable(amount, tier, step)
            case Some((low, high)) =>
              && Acceptable(low, tier, step) && Acceptable(high, tier, step)
              && (Acceptable(amount, tier, step) ==> low <= amount <= high)
  {
    var least := LeastAmount(tier, step);
    if step.Some? && step.value > 0 {
      var s := step.value;
      RoundUp(s, least, 0);
      if amount % s == 0 {
        RoundUp(s, least, amount);
        RoundDown(s, tier.amount, amount);
        PositiveMultiple(amount, s);
      }
      var low, high := -(-least / s) * s, tier.amount / s * s;
      MultipleOf(-(-least / s), s);
      MultipleOf(tier.amount / s, s);
      RoundUp(s, least, low);
      RoundUp(s, least, high);
      RoundDown(s, tier.amount, low);
      RoundDown(s, tier.amount, high);
    }
  }

  lemma PositiveMultiple(amount: int, s: int)
    requires s > 0 && amount % s == 0
    ensures amount > 0 ==> amount >= s
  {
  }

  /** The error tells what is wrong: no amount at all can be accepted, the amount is below or above all that can, or it lies
      between two that can and is no multiple of the step. */
  lemma RefusedAmounts(amount: int, tier: Tier, step: Option<int>)
    requires step.Some? ==> step.value >= 0
    ensures RequestedAmount(amount, tier, step) == Err(NoRange) <==> forall x :: !Acceptable(x, tier, step)
    ensures RequestedAmount(amount, tier, step) == Err(OutOfRange) <==>
              && (exists x :: Acceptable(x, tier, step))
              && ((forall x :: Acceptable(x, tier, step) ==> amount < x) || (forall x :: Acceptable(x, tier, step) ==> amount > x))
    ensures RequestedAmount(amount, tier, step) == Err(NotMultiple) <==>
              && (exists x, y :: Acceptable(x, tier, step) && Acceptable(y, tier, step) && x <= amount <= y)
              && !Acceptable(amount, tier, step)
  {
    hide Acceptable, AmountRange, Multiple;
    forall x
      ensures match AmountRange(tier, step)
              case None => !Acceptable(x, tier, step)
              case Some((low, high)) =>
                && Acceptable(low, tier, step) && Acceptable(high, tier, step)
                && (Acceptable(x, tier, step) ==> low <= x <= high)
    {
      AcceptableAmounts(x, tier, step);
    }
    AcceptableAmounts(amount, tier, step);
  }

  /** Rounding up to a multiple keeps every multiple that was large enough. */
  lemma RoundUp(step: int, least: int, amount: int)
    requires step > 0 && amount % step == 0
    ensures -(-least / step) * step <= amount <==> least <= amount
  {
    var q := amount / step;
    assert amount == q * step;
    Quotients(-q, step, -least);
    assert -q * step == -amount;
    Scaled(-(-least / step), q, step);
  }

  /** Rounding down to a multiple keeps every multiple that was small enough. */
  lemma RoundDown(step: int, most: int, amount: int)
    requires step > 0 && amount % step == 0
    ensures amount <= most / step * step <==> amount <= most
  {
    var q := amount / step;
    assert amount == q * step;
    Quotients(q, step, most);
    Scaled(q, most / step, step);
  }
}
