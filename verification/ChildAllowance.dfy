/**
 Which children an employee receives the allowance for (backend/app/core/family_rules.py, the child part of `evaluate`,
 `_child_eligible` and `_has_valid_doc`).
 */
module ChildAllowance {
  // A child must meet the rules for its own; of those that do, the eldest up to the configured number receive it.

  import opened Common
  import opened JalaliCalendar
  import opened JalaliDates

  datatype Gender = Male | Female | UnknownGender
  datatype Marital = Single | MarriedNow | Divorced | Widowed
  datatype MemberType = Spouse | Son | Daughter
  datatype Relation = Biological | Adopted | StepChild
  datatype Custody = NoCustody | WithEmployee | Joint | WithOther
  datatype FemaleMode = NoWoman | HeadOfHousehold | SpouseUnable | AllWomen

  /** A family member. A yes-or-no answer may be missing; dates are text as entered. */
  datatype Member = Member(
    memberType: MemberType,
    birthDate: string,
    relation: Relation,
    custody: Custody,
    isMarried: Option<bool>,
    marriageDate: string,
    isEmployed: Option<bool>,
    isDisabled: Option<bool>,
    isStudent: Option<bool>,
    studentCertificates: nat,
    certificateExpiry: string,
    receivesAllowance: Option<bool>)

  /** The rules for sons or for daughters; an age limit of zero is none. */
  datatype ChildRule = ChildRule(
    studyAge: int,
    requireStudy: bool,
    requireCertificate: bool,
    maxAge: int,
    extendIfDisabled: bool,
    stopOnMarriage: bool,
    stopOnEmployment: bool)

  datatype Rules = Rules(
    enabled: bool,
    minInsuranceDays: int,
    maxChildren: nat,
    femaleMode: FemaleMode,
    excludeIfSpouseReceives: bool,
    includeAdopted: bool,
    includeStep: bool,
    requireCustody: bool,
    son: ChildRule,
    daughter: ChildRule)

  datatype Employee = Employee(gender: Gender, marital: Marital, head: bool, insuranceDays: Option<int>, members: seq<Member>)

  datatype Reason =
    | NoBirthDate | Unborn | AdoptedExcluded | StepExcluded | NotInCustody | HasMarried | HasWork | TooOld | NotStudying
    | NoCertificate
    | FitsDisabled | FitsStudying | Fits
    | EmployeeBlocked(block: Block)
    | OverLimit

  datatype Block = Disabled | GenderUnknown | WomanExcluded | SpouseReceives | NoInsuranceRecord | InsuranceTooShort

  datatype Verdict = Verdict(ok: bool, reason: Reason)

  // ---------- one child ----------

  predicate HasValidCertificate(kid: Member, asOf: JalaliDate) {
    && kid.studentCertificates > 0
    && var expiry := ParseJalali(kid.certificateExpiry);
       expiry.None? || !Before(expiry.value, asOf)
  }

  predicate MarriedBy(kid: Member, asOf: JalaliDate) {
    && kid.isMarried == Some(true)
    && var since := ParseJalali(kid.marriageDate);
       since.None? || !Before(asOf, since.value)
  }

  function RuleFor(kid: Member, rules: Rules): ChildRule {
    if kid.memberType == Son then rules.son else rules.daughter
  }

  function ChildEligible(kid: Member, marital: Marital, rules: Rules, asOf: JalaliDate): Verdict {
    var birth := ParseJalali(kid.birthDate);
    if birth.None? then Verdict(false, NoBirthDate)
    else
      var age := AgeOn(birth.value, asOf);
      var rule := RuleFor(kid, rules);
      if age < 0 then Verdict(false, Unborn)
      else if kid.relation == Adopted && !rules.includeAdopted then Verdict(false, AdoptedExcluded)
      else if kid.relation == StepChild && !rules.includeStep then Verdict(false, StepExcluded)
      else if rules.requireCustody && marital == Divorced && kid.custody != WithEmployee && kid.custody != Joint then
        Verdict(false, NotInCustody)
      else if rule.stopOnMarriage && MarriedBy(kid, asOf) then Verdict(false, HasMarried)
      else if rule.stopOnEmployment && kid.isEmployed == Some(true) then Verdict(false, HasWork)
      else if rule.extendIfDisabled && kid.isDisabled == Some(true) then Verdict(true, FitsDisabled)
      else if rule.maxAge != 0 && age >= rule.maxAge then Verdict(false, TooOld)
      else if rule.requireStudy && age >= rule.studyAge then
        if kid.isStudent != Some(true) then Verdict(false, NotStudying)
        else if rule.requireCertificate && !HasValidCertificate(kid, asOf) then Verdict(false, NoCertificate)
        else Verdict(true, FitsStudying)
      else Verdict(true, Fits)
  }

  /** The child has come to this age. */
  ghost predicate Reached(kid: Member, years: int, asOf: JalaliDate) {
    exists birth :: ParseJalali(kid.birthDate) == Some(birth) && !Before(asOf, birth.(year := birth.year + years))
  }

  /** What speaks against a child, each reason for itself; `rule` is the one for sons or for daughters. A disabled child may be
      exempt from the conditions on age and study. */
  ghost predicate SpeaksAgainst(
    reason: Reason, kid: Member, marital: Marital, rules: Rules, rule: ChildRule, asOf: JalaliDate
  ) {
    var exempt := rule.extendIfDisabled && kid.isDisabled == Some(true);
    match reason
    case NoBirthDate => ParseJalali(kid.birthDate) == None
    case Unborn => ParseJalali(kid.birthDate) != None && !Reached(kid, 0, asOf)
    case AdoptedExcluded => kid.relation == Adopted && !rules.includeAdopted
    case StepExcluded => kid.relation == StepChild && !rules.includeStep
    case NotInCustody =>
      rules.requireCustody && marital == Divorced && kid.custody != WithEmployee && kid.custody != Joint
    case HasMarried =>
      && rule.stopOnMarriage && kid.isMarried == Some(true)
      && forall t :: ParseJalali(kid.marriageDate) == Some(t) ==> t == asOf || Before(t, asOf)
    case HasWork => rule.stopOnEmployment && kid.isEmployed == Some(true)
    case TooOld => !exempt && rule.maxAge != 0 && Reached(kid, rule.maxAge, asOf)
    case NotStudying =>
      !exempt && rule.requireStudy && Reached(kid, rule.studyAge, asOf) && kid.isStudent != Some(true)
    case NoCertificate =>
      && !exempt && rule.requireStudy && Reached(kid, rule.studyAge, asOf) && rule.requireCertificate
      && (kid.studentCertificates == 0 || exists t :: ParseJalali(kid.certificateExpiry) == Some(t) && Before(t, asOf))
    case _ => false
  }

  /** The order in which the reasons are looked for. */
  function Turn(reason: Reason): nat {
    match reason
    case NoBirthDate => 0
    case Unborn => 1
    case AdoptedExcluded => 2
    case StepExcluded => 3
    case NotInCustody => 4
    case HasMarried => 5
    case HasWork => 6
    case TooOld => 7
    case NotStudying => 8
    case NoCertificate => 9
    case _ => 10
  }

  /** A child qualifies exactly when nothing speaks against it; otherwise the first reason is given that does. */
  lemma {:induction false} QualifiesExactly(kid: Member, marital: Marital, rules: Rules, rule: ChildRule, asOf: JalaliDate, reason: Reason)
    requires if kid.memberType == Son then rule == rules.son else kid.memberType == Daughter && rule == rules.daughter
    ensures ChildEligible(kid, marital, rules, asOf).ok
       <==> forall r :: !SpeaksAgainst(r, kid, marital, rules, rule, asOf)
    ensures ChildEligible(kid, marital, rules, asOf) == Verdict(false, reason)
       <==> && SpeaksAgainst(reason, kid, marital, rules, rule, asOf)
            && forall r :: Turn(r) < Turn(reason) ==> !SpeaksAgainst(r, kid, marital, rules, rule, asOf)
  {
    var given := ChildEligible(kid, marital, rules, asOf);
    FirstReason(kid, marital, rules, rule, asOf);
    hide SpeaksAgainst, ChildEligible, Turn;
    if !given.ok && SpeaksAgainst(reason, kid, marital, rules, rule, asOf) {
      TurnsDiffer(reason, given.reason);
    }
    OnlyReasons(reason, kid, marital, rules, rule, asOf);
  }

  lemma {:induction false} FirstReason(kid: Member, marital: Marital, rules: Rules, rule: ChildRule, asOf: JalaliDate)
    requires if kid.memberType == Son then rule == rules.son else kid.memberType == Daughter && rule == rules.daughter
    ensures var given := ChildEligible(kid, marital, rules, asOf);
            if given.ok then forall r :: !SpeaksAgainst(r, kid, marital, rules, rule, asOf)
            else
              && SpeaksAgainst(given.reason, kid, marital, rules, rule, asOf)
              && forall r :: Turn(r) < Turn(given.reason) ==> !SpeaksAgainst(r, kid, marital, rules, rule, asOf)
  {
    ReasonsRead(kid, marital, rules, rule, asOf);
    hide ParseJalali, AgeOn, MarriedBy, HasValidCertificate, SpeaksAgainst;
    var given := ChildEligible(kid, marital, rules, asOf);
    forall r | given.ok || Turn(r) < Turn(given.reason)
      ensures !SpeaksAgainst(r, kid, marital, rules, rule, asOf)
    {
      if Turn(r) == 10 {
        OnlyReasons(r, kid, marital, rules, rule, asOf);
      }
    }
  }

  /** Each reason in the terms of the function. */
  lemma {:induction false} ReasonsRead(kid: Member, marital: Marital, rules: Rules, rule: ChildRule, asOf: JalaliDate)
    ensures var birth := ParseJalali(kid.birthDate);
            var exempt := rule.extendIfDisabled && kid.isDisabled == Some(true);
            && (SpeaksAgainst(NoBirthDate, kid, marital, rules, rule, asOf) <==> birth.None?)
            && (birth.Some? ==>
                  var age := AgeOn(birth.value, asOf);
                  && (SpeaksAgainst(Unborn, kid, marital, rules, rule, asOf) <==> age < 0)
                  && (SpeaksAgainst(TooOld, kid, marital, rules, rule, asOf) <==>
                        !exempt && rule.maxAge != 0 && age >= rule.maxAge)
                  && (SpeaksAgainst(NotStudying, kid, marital, rules, rule, asOf) <==>
                        !exempt && rule.requireStudy && age >= rule.studyAge && kid.isStudent != Some(true))
                  && (SpeaksAgainst(NoCertificate, kid, marital, rules, rule, asOf) <==>
                        !exempt && rule.requireStudy && age >= rule.studyAge
                        && rule.requireCertificate && !HasValidCertificate(kid, asOf)))
            && (SpeaksAgainst(AdoptedExcluded, kid, marital, rules, rule, asOf) <==>
                  kid.relation == Adopted && !rules.includeAdopted)
            && (SpeaksAgainst(StepExcluded, kid, marital, rules, rule, asOf) <==>
                  kid.relation == StepChild && !rules.includeStep)
            && (SpeaksAgainst(NotInCustody, kid, marital, rules, rule, asOf) <==>
                  rules.requireCustody && marital == Divorced && kid.custody != WithEmployee && kid.custody != Joint)
            && (SpeaksAgainst(HasMarried, kid, marital, rules, rule, asOf) <==> rule.stopOnMarriage && MarriedBy(kid, asOf))
            && (SpeaksAgainst(HasWork, kid, marital, rules, rule, asOf) <==>
                  rule.stopOnEmployment && kid.isEmployed == Some(true))
  {
    hide ParseJalali, AgeOn;
    ReachedAges(kid, rule, asOf);
    hide Reached;
  }

  lemma OnlyReasons(reason: Reason, kid: Member, marital: Marital, rules: Rules, rule: ChildRule, asOf: JalaliDate)
    ensures SpeaksAgainst(reason, kid, marital, rules, rule, asOf) ==> Turn(reason) < 10
  {
    hide ParseJalali, AgeOn, Reached;
  }

  /** Reasons are looked for one at a time. */
  lemma TurnsDiffer(a: Reason, b: Reason)
    ensures Turn(a) < 10 && a != b ==> Turn(a) != Turn(b)
  {
  }

  lemma ReachedAges(kid: Member, rule: ChildRule, asOf: JalaliDate)
    ensures forall years :: Reached(kid, years, asOf) <==>
              ParseJalali(kid.birthDate).Some? && AgeOn(ParseJalali(kid.birthDate).value, asOf) >= years
  {
    hide ParseJalali;
    forall years
      ensures Reached(kid, years, asOf) <==>
                ParseJalali(kid.birthDate).Some? && AgeOn(ParseJalali(kid.birthDate).value, asOf) >= years
    {
      if ParseJalali(kid.birthDate).Some? {
        AgeGreatest(ParseJalali(kid.birthDate).value, asOf, years);
      }
    }
  }

  /** With unchanged data and rules a child once born can only lose the allowance as time passes: if it qualifies on a
      later date, it qualifies on every earlier date on which it was born. */
  lemma QualifiesEarlier(kid: Member, marital: Marital, rules: Rules, earlier: JalaliDate, later: JalaliDate)
    requires !Before(later, earlier)
    requires ChildEligible(kid, marital, rules, later).ok
    requires AgeOn(ParseJalali(kid.birthDate).value, earlier) >= 0
    ensures ChildEligible(kid, marital, rules, earlier).ok
  {
    hide ParseJalali, AgeOn;
    var birth := ParseJalali(kid.birthDate).value;
    AgeGrows(birth, birth, earlier, later);
  }

  // ---------- the employee ----------

  function SpouseOf(members: seq<Member>): Option<Member> {
    if members == [] then None
    else if members[0].memberType == Spouse then Some(members[0])
    else SpouseOf(members[1..])
  }

  predicate WomanAllowed(e: Employee, rules: Rules) {
    var spouse := SpouseOf(e.members);
    var unable :=
      || e.marital == Divorced || e.marital == Widowed
      || (spouse.Some? && (spouse.value.isDisabled == Some(true) || spouse.value.isEmployed == Some(false)));
    || rules.femaleMode == AllWomen
    || (rules.femaleMode == HeadOfHousehold && e.head)
    || (rules.femaleMode == SpouseUnable && (e.head || unable))
  }

  function BlockFor(e: Employee, rules: Rules): Option<Block> {
    var spouse := SpouseOf(e.members);
    if !rules.enabled then Some(Disabled)
    else if e.gender == UnknownGender then Some(GenderUnknown)
    else if e.gender == Female && !WomanAllowed(e, rules) then Some(WomanExcluded)
    else if rules.excludeIfSpouseReceives && spouse.Some? && spouse.value.receivesAllowance == Some(true) then
      Some(SpouseReceives)
    else if rules.minInsuranceDays != 0 && e.insuranceDays.None? then Some(NoInsuranceRecord)
    else if rules.minInsuranceDays != 0 && e.insuranceDays.value < rules.minInsuranceDays then Some(InsuranceTooShort)
    else None
  }

  /** The first spouse among the members. */
  predicate IsFirstSpouse(members: seq<Member>, i: nat) {
    i < |members| && members[i].memberType == Spouse && forall j :: 0 <= j < i ==> members[j].memberType != Spouse
  }

  lemma {:induction false} SpouseFirst(members: seq<Member>)
    ensures match SpouseOf(members)
            case None => forall i: nat :: !IsFirstSpouse(members, i)
            case Some(m) => exists i: nat :: IsFirstSpouse(members, i) && members[i] == m
    ensures forall i: nat :: IsFirstSpouse(members, i) ==> SpouseOf(members) == Some(members[i])
  {
    if members != [] {
      if members[0].memberType == Spouse {
        assert IsFirstSpouse(members, 0);
      } else {
        var rest := members[1..];
        SpouseFirst(rest);
        forall i: nat | IsFirstSpouse(members, i)
          ensures i > 0 && IsFirstSpouse(rest, i - 1)
        {
        }
        if SpouseOf(rest).Some? {
          var i: nat :| IsFirstSpouse(rest, i) && rest[i] == SpouseOf(rest).value;
          assert IsFirstSpouse(members, i + 1);
        }
      }
    }
  }

  /** The first spouse is disabled or out of work. */
  ghost predicate SpouseUnfit(members: seq<Member>) {
    exists i: nat :: IsFirstSpouse(members, i) && (members[i].isDisabled == Some(true) || members[i].isEmployed == Some(false))
  }

  /** The first spouse receives the allowance. */
  ghost predicate SpouseTakes(members: seq<Member>) {
    exists i: nat :: IsFirstSpouse(members, i) && members[i].receivesAllowance == Some(true)
  }

  /** What stands against the employee, each for itself. */
  ghost predicate StandsAgainst(block: Block, e: Employee, rules: Rules) {
    match block
    case Disabled => !rules.enabled
    case GenderUnknown => e.gender != Male && e.gender != Female
    case WomanExcluded =>
      && e.gender == Female
      && (rules.femaleMode == NoWoman
          || (rules.femaleMode == HeadOfHousehold && !e.head)
          || (&& rules.femaleMode == SpouseUnable && !e.head && e.marital != Divorced && e.marital != Widowed
              && !SpouseUnfit(e.members)))
    case SpouseReceives => rules.excludeIfSpouseReceives && SpouseTakes(e.members)
    case NoInsuranceRecord => rules.minInsuranceDays != 0 && e.insuranceDays == None
    case InsuranceTooShort =>
      rules.minInsuranceDays != 0 && e.insuranceDays.Some? && e.insuranceDays.value < rules.minInsuranceDays
  }

  function BlockTurn(block: Block): nat {
    match block
    case Disabled => 0
    case GenderUnknown => 1
    case WomanExcluded => 2
    case SpouseReceives => 3
    case NoInsuranceRecord => 4
    case InsuranceTooShort => 5
  }

  /** No child of an employee is refused on the employee's account exactly when nothing stands against the employee; otherwise
      the first thing is reported that does. */
  lemma {:induction false} BlockedExactly(e: Employee, rules: Rules, block: Block)
    ensures BlockFor(e, rules) == None <==> forall b :: !StandsAgainst(b, e, rules)
    ensures BlockFor(e, rules) == Some(block)
       <==> StandsAgainst(block, e, rules) && forall b :: BlockTurn(b) < BlockTurn(block) ==> !StandsAgainst(b, e, rules)
  {
    SpouseFirst(e.members);
    hide IsFirstSpouse, SpouseOf;
    assert SpouseUnfit(e.members)
      <==> SpouseOf(e.members).Some? && (SpouseOf(e.members).value.isDisabled == Some(true)
                                         || SpouseOf(e.members).value.isEmployed == Some(false));
    assert SpouseTakes(e.members)
      <==> SpouseOf(e.members).Some? && SpouseOf(e.members).value.receivesAllowance == Some(true);
    hide SpouseUnfit, SpouseTakes;
    var given := BlockFor(e, rules);
    forall b | given.None? || BlockTurn(b) < BlockTurn(given.value)
      ensures !StandsAgainst(b, e, rules)
    {
    }
    assert given.Some? ==> StandsAgainst(given.value, e, rules);
    assert given.Some? && given.value != block ==> BlockTurn(given.value) != BlockTurn(block);
    hide StandsAgainst, BlockFor, BlockTurn;
  }

  // ---------- the order of the children ----------

  datatype Kid = Kid(index: nat, member: Member)

  /** The birth date, or one after all others when there is none. */
  function SortDate(k: Kid): JalaliDate {
    var birth := ParseJalali(k.member.birthDate);
    if birth.Some? then birth.value else JalaliDate(9999, 12, 31)
  }

  /** The elder of two children, and of two born on one day the one entered first. */
  predicate Precedes(a: Kid, b: Kid) {
    Before(SortDate(a), SortDate(b)) || (SortDate(a) == SortDate(b) && a.index < b.index)
  }

  /** Of two children with a birth date the elder comes first, a child without one after every child with one, and otherwise
      the order of entry decides. */
  lemma PrecedesExactly(a: Kid, b: Kid)
    ensures var x, y := ParseJalali(a.member.birthDate), ParseJalali(b.member.birthDate);
            Precedes(a, b) <==>
              || (x.Some? && y.None?)
              || (x.Some? && y.Some? && Before(x.value, y.value))
              || (x == y && a.index < b.index)
  {
    hide ParseJalali;
  }

  lemma PrecedesOrder(a: Kid, b: Kid, c: Kid)
    ensures !Precedes(a, a)
    ensures Precedes(a, b) && Precedes(b, c) ==> Precedes(a, c)
    ensures a.index != b.index ==> Precedes(a, b) || Precedes(b, a)
  {
    hide ParseJalali, SortDate;
  }

  predicate InOrder(kids: seq<Kid>) {
    forall i, j :: 0 <= i < j < |kids| ==> Precedes(kids[i], kids[j])
  }

  /** The sons and daughters among the first members. */
  function Kids(members: seq<Member>): (kids: seq<Kid>)
    ensures forall k :: k in kids <==> k.index < |members| && members[k.index] == k.member && k.member.memberType != Spouse
  {
    if members == [] then []
    else
      var n := |members| - 1;
      Kids(members[..n]) + (if members[n].memberType != Spouse then [Kid(n, members[n])] else [])
  }

  /** Stable insertion: after everyone whose key is not greater. */
  function Insert(k: Kid, kids: seq<Kid>): (r: seq<Kid>)
    ensures forall x :: x in r <==> x in kids || x == k
    ensures |r| == |kids| + 1
  {
    hide SortDate;
    if kids == [] then [k]
    else
      var last := kids[|kids| - 1];
      if Before(SortDate(k), SortDate(last)) then Insert(k, kids[..|kids| - 1]) + [last] else kids + [k]
  }

  /** `sorted(kids, key=…)`, which keeps the order of equal keys. */
  function ByBirth(kids: seq<Kid>): (r: seq<Kid>)
    ensures forall x :: x in r <==> x in kids
    ensures |r| == |kids|
  {
    hide Insert;
    if kids == [] then []
    else
      var init, last := kids[..|kids| - 1], kids[|kids| - 1];
      assert kids == init + [last];
      Insert(last, ByBirth(init))
  }

  lemma {:induction false} InsertOrdered(k: Kid, kids: seq<Kid>)
    requires InOrder(kids) && forall x :: x in kids ==> x.index < k.index
    ensures InOrder(Insert(k, kids))
  {
    hide ParseJalali, SortDate;
    if kids != [] {
      var last := kids[|kids| - 1];
      var init := kids[..|kids| - 1];
      assert last in kids && forall x :: x in init ==> x in kids;
      if Before(SortDate(k), SortDate(last)) {
        InsertOrdered(k, init);
        var r := Insert(k, init);
        forall i | 0 <= i < |r|
          ensures Precedes(r[i], last)
        {
          assert r[i] in r;
          if r[i] != k {
            var j :| 0 <= j < |init| && init[j] == r[i];
            assert kids[j] == r[i];
          }
        }
      } else {
        forall i | 0 <= i < |kids|
          ensures Precedes(kids[i], k)
        {
          PrecedesOrder(kids[i], last, k);
          assert kids[i] in kids;
        }
      }
    }
  }

  predicate IndexesGrow(kids: seq<Kid>) {
    forall i, j :: 0 <= i < j < |kids| ==> kids[i].index < kids[j].index
  }

  lemma {:induction false} KidsGrow(members: seq<Member>)
    ensures IndexesGrow(Kids(members))
  {
    if members != [] {
      var n := |members| - 1;
      KidsGrow(members[..n]);
      var init := Kids(members[..n]);
      assert forall i :: 0 <= i < |init| ==> init[i] in init;
    }
  }

  lemma {:induction false} ByBirthOrdered(kids: seq<Kid>)
    requires IndexesGrow(kids)
    ensures InOrder(ByBirth(kids))
  {
    hide Insert, Precedes;
    if kids != [] {
      var init := kids[..|kids| - 1];
      ByBirthOrdered(init);
      forall x | x in ByBirth(init)
        ensures x.index < kids[|kids| - 1].index
      {
        assert x in init;
      }
      InsertOrdered(kids[|kids| - 1], ByBirth(init));
    }
  }

  // ---------- the allowance ----------

  /** The employee is entitled and the child meets the rules for its own. */
  predicate Passes(k: Kid, e: Employee, rules: Rules, asOf: JalaliDate) {
    BlockFor(e, rules).None? && ChildEligible(k.member, e.marital, rules, asOf).ok
  }

  /** The passing children. */
  function Passing(kids: seq<Kid>, e: Employee, rules: Rules, asOf: JalaliDate): set<Kid> {
    set k <- kids | Passes(k, e, rules, asOf)
  }

  /** The passing children that come before a child. */
  function Elder(kid: Kid, kids: seq<Kid>, e: Employee, rules: Rules, asOf: JalaliDate): set<Kid> {
    set k <- kids | Passes(k, e, rules, asOf) && Precedes(k, kid)
  }

  /** A child receives the allowance when it passes and fewer passing children than the limit come before it. */
  predicate Receives(kid: Kid, kids: seq<Kid>, e: Employee, rules: Rules, asOf: JalaliDate) {
    && Passes(kid, e, rules, asOf)
    && (rules.maxChildren != 0 ==> |Elder(kid, kids, e, rules, asOf)| < rules.maxChildren)
  }

  datatype Entry = Entry(memberIndex: nat, age: Option<int>, eligible: bool, reason: Reason)

  datatype Report = Report(eligibleCount: nat, total: nat, blocked: Option<Block>, children: seq<Entry>)

  function AgeOf(m: Member, asOf: JalaliDate): Option<int> {
    var birth := ParseJalali(m.birthDate);
    if birth.Some? then Some(AgeOn(birth.value, asOf)) else None
  }

  /** In the birth order those before a child are those that precede it. */
  lemma ElderIsPrefix(ordered: seq<Kid>, kids: seq<Kid>, i: nat, e: Employee, rules: Rules, asOf: JalaliDate)
    requires InOrder(ordered) && i < |ordered| && forall x :: x in ordered <==> x in kids
    ensures Elder(ordered[i], kids, e, rules, asOf) == Passing(ordered[..i], e, rules, asOf)
  {
    hide Passes, Precedes;
    var kid := ordered[i];
    forall k
      ensures k in kids && Precedes(k, kid) <==> k in ordered[..i]
    {
      if k in ordered[..i] {
        var j :| 0 <= j < i && ordered[..i][j] == k;
        assert ordered[j] == k;
      }
      if k in kids && Precedes(k, kid) {
        var j :| 0 <= j < |ordered| && ordered[j] == k;
        PrecedesOrder(k, kid, k);
        assert j < i;
        assert ordered[..i][j] == k;
      }
    }
  }

  lemma PassingStep(ordered: seq<Kid>, i: nat, e: Employee, rules: Rules, asOf: JalaliDate)
    requires InOrder(ordered) && i < |ordered|
    ensures var here := Passing(ordered[..i], e, rules, asOf);
            Passing(ordered[..i + 1], e, rules, asOf) == (if Passes(ordered[i], e, rules, asOf) then here + {ordered[i]} else here)
            && ordered[i] !in here
  {
    hide Passes, Precedes;
    assert ordered[..i + 1] == ordered[..i] + [ordered[i]];
    if ordered[i] in ordered[..i] {
      var j :| 0 <= j < i && ordered[..i][j] == ordered[i];
      PrecedesOrder(ordered[j], ordered[j], ordered[j]);
    }
  }

  function Least(limit: nat, n: nat): nat {
    if limit == 0 || n < limit then n else limit
  }

  method EvaluateChildren(e: Employee, rules: Rules, asOf: JalaliDate) returns (report: Report)
    ensures report.blocked == BlockFor(e, rules)
    ensures report.total == |Kids(e.members)| == |report.children|
    ensures
      var kids := Kids(e.members);
      var ordered := ByBirth(kids);
      && report.eligibleCount == Least(rules.maxChildren, |Passing(kids, e, rules, asOf)|)
      && forall i :: 0 <= i < |ordered| ==>
           var entry, kid := report.children[i], ordered[i];
           && entry.memberIndex == kid.index
           && entry.age == AgeOf(kid.member, asOf)
           && (entry.eligible <==> Receives(kid, kids, e, rules, asOf))
           && entry.reason == (if report.blocked.Some? then EmployeeBlocked(report.blocked.value)
                               else if Passes(kid, e, rules, asOf) && !entry.eligible then OverLimit
                               else ChildEligible(kid.member, e.marital, rules, asOf).reason)
  {
    hide ParseJalali, Precedes, ChildEligible, BlockFor, InOrder, ByBirth, Kids, Passing, Elder;
    var kids := Kids(e.members);
    var blocked := BlockFor(e, rules);
    var ordered := ByBirth(kids);
    KidsGrow(e.members);
    ByBirthOrdered(kids);
    var count := 0;
    var children: seq<Entry> := [];
    NonePassing(e, rules, asOf);
    for i := 0 to |ordered|
      invariant |children| == i
      invariant count == Least(rules.maxChildren, |Passing(ordered[..i], e, rules, asOf)|)
      invariant forall j :: 0 <= j < i ==> 
        var entry, kid := children[j], ordered[j];
        && entry.memberIndex == kid.index
        && entry.age == AgeOf(kid.member, asOf)
        && (entry.eligible <==> Receives(kid, kids, e, rules, asOf))
        && entry.reason == (if blocked.Some? then EmployeeBlocked(blocked.value)
                            else if Passes(kid, e, rules, asOf) && !entry.eligible then OverLimit
                            else ChildEligible(kid.member, e.marital, rules, asOf).reason)
    {
      var kid := ordered[i];
      var verdict := ChildEligible(kid.member, e.marital, rules, asOf);
      if blocked.Some? {
        verdict := Verdict(false, EmployeeBlocked(blocked.value));
      }
      if verdict.ok && rules.maxChildren != 0 && count >= rules.maxChildren {
        verdict := Verdict(false, OverLimit);
      }
      ElderIsPrefix(ordered, kids, i, e, rules, asOf);
      PassingStep(ordered, i, e, rules, asOf);
      children := children + [Entry(kid.index, AgeOf(kid.member, asOf), verdict.ok, verdict.reason)];
      if verdict.ok {
        count := count + 1;
      }
    }
    assert ordered[..|ordered|] == ordered;
    SameMembers(ordered, kids, e, rules, asOf);
    report := Report(count, |kids|, blocked, children);
  }

  lemma NonePassing(e: Employee, rules: Rules, asOf: JalaliDate)
    ensures Passing([], e, rules, asOf) == {}
  {
  }

  lemma SameMembers(a: seq<Kid>, b: seq<Kid>, e: Employee, rules: Rules, asOf: JalaliDate)
    requires forall x :: x in a <==> x in b
    ensures Passing(a, e, rules, asOf) == Passing(b, e, rules, asOf)
  {
  }

  /** Raising the limit on the number of children, or lifting it, takes the allowance from no child. */
  lemma RaisedLimitKeeps(kid: Kid, kids: seq<Kid>, e: Employee, rules: Rules, limit: nat, asOf: JalaliDate)
    requires limit == 0 || (rules.maxChildren != 0 && rules.maxChildren <= limit)
    ensures Receives(kid, kids, e, rules, asOf) ==> Receives(kid, kids, e, rules.(maxChildren := limit), asOf)
  {
    hide ParseJalali, Precedes, AgeOn;
    var more := rules.(maxChildren := limit);
    forall k
      ensures Passes(k, e, more, asOf) <==> Passes(k, e, rules, asOf)
    {
      LimitApart(k, e, rules, limit, asOf);
    }
    assert Elder(kid, kids, e, more, asOf) == Elder(kid, kids, e, rules, asOf);
  }

  lemma LimitApart(k: Kid, e: Employee, rules: Rules, limit: nat, asOf: JalaliDate)
    ensures Passes(k, e, rules.(maxChildren := limit), asOf) <==> Passes(k, e, rules, asOf)
  {
    hide ParseJalali, AgeOn;
  }

  /** A passing child that goes without is younger than every child that receives. */
  lemma {:induction false} EldestFirst(a: Kid, b: Kid, members: seq<Member>, e: Employee, rules: Rules, asOf: JalaliDate)
    requires a in Kids(members) && b in Kids(members)
    ensures
      var kids := Kids(members);
      Receives(a, kids, e, rules, asOf) && Passes(b, e, rules, asOf) && !Receives(b, kids, e, rules, asOf) ==>
        Precedes(a, b)
  {
    hide ParseJalali, SortDate, ChildEligible, Passes, Precedes;
    var kids := Kids(members);
    PrecedesOrder(a, b, a);
    if Precedes(b, a) {
      var before := Elder(b, kids, e, rules, asOf);
      forall k | k in before
        ensures k in Elder(a, kids, e, rules, asOf)
      {
        PrecedesOrder(k, b, a);
      }
      SmallerSet(before, Elder(a, kids, e, rules, asOf));
    }
  }
}
