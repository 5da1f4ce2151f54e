/**
  Billing records of payments/models.py: plans, their feature assignments and
  the per-user subscription. Money is in cents.
*/
module Payments {
  import opened Wrappers
  import opened Seqs

  /** A subscription plan (the fields the rules read; display strings left out). */
  datatype Plan = Plan(
    pk: nat,
    title: string,
    price: int,
    isActive: bool,
    isRecommended: bool,
    displayOrder: nat)

  /** `Plan.Meta.ordering = ("display_order", "price")`: `a` may come before `b`. */
  predicate PlanLeq(a: Plan, b: Plan) {
    a.displayOrder < b.displayOrder || (a.displayOrder == b.displayOrder && a.price <= b.price)
  }

  /** The plan ordering is a total preorder, so sorting by it is well defined. */
  lemma PlanLeqTotalPreorder()
    ensures Total(PlanLeq) && Transitive(PlanLeq)
  {
  }

  /** Plans ordered by display order, and by price among equal display orders. */
  lemma PlanOrderLexicographic(s: seq<Plan>)
    requires Chained(s, PlanLeq)
    ensures forall i, j :: 0 <= i < j < |s| ==>
      s[i].displayOrder <= s[j].displayOrder
      && (s[i].displayOrder == s[j].displayOrder ==> s[i].price <= s[j].price)
  {
    PlanLeqTotalPreorder();
    ChainedOrdered(s, PlanLeq);
  }

  /** `Subscription.Status`, a text-choices enumeration. */
  datatype Status = Inactive | Active | Cancelled {
    /** The stored value of the choice. */
    function Value(): string {
      match this
      case Inactive => "inactive"
      case Active => "active"
      case Cancelled => "cancelled"
    }
  }

  /** Reads a stored status value back; anything outside the three choices is rejected. */
  function StatusFromValue(v: string): (r: Option<Status>)
    ensures r.Some? ==> r.value.Value() == v
  {
    if v == "inactive" then Some(Inactive)
    else if v == "active" then Some(Active)
    else if v == "cancelled" then Some(Cancelled)
    else None
  }

  /** Every status is stored as a value that reads back as the same status. */
  lemma StatusRoundTrip(s: Status)
    ensures StatusFromValue(s.Value()) == Some(s)
  {
  }

  /** A user's subscription row. */
  class Subscription {
    const user: nat
    var plan: Option<Plan>
    var status: Status
    var renewalDate: Option<int>
    var priceOverride: Option<int>

    /** The field defaults of a new row: no plan, inactive, no renewal date, no override. */
    ghost predicate HasDefaults()
      reads this
    {
      plan.None? && status == Inactive && renewalDate.None? && priceOverride.None?
    }

    /** A new row of `user`, with the field defaults. */
    constructor (user: nat)
      ensures this.user == user && HasDefaults()
      ensures plan.None? && status == Inactive && renewalDate.None? && priceOverride.None?
    {
      this.user := user;
      plan := None;
      status := Inactive;
      renewalDate := None;
      priceOverride := None;
    }

    /** The price charged: the override when one is stored (even 0), else the plan's price. */
    function Price(): (r: Option<int>)
      reads this
      ensures priceOverride.Some? ==> r == priceOverride
      ensures priceOverride.None? && plan.Some? ==> r == Some(plan.value.price)
      ensures r.None? <==> priceOverride.None? && plan.None?
    {
      if priceOverride.Some? then priceOverride
      else if plan.Some? then Some(plan.value.price)
      else None
    }
  }

  /** The link row that says whether a plan includes a feature. */
  datatype FeatureAssignment = FeatureAssignment(plan: nat, feature: nat, isIncluded: bool, displayOrder: nat)

  /** `unique_together = ("plan", "feature")`. */
  predicate UniquePairs(rows: seq<FeatureAssignment>) {
    forall i, j :: 0 <= i < j < |rows| ==> (rows[i].plan, rows[i].feature) != (rows[j].plan, rows[j].feature)
  }

  predicate HasPair(rows: seq<FeatureAssignment>, plan: nat, feature: nat) {
    exists i :: 0 <= i < |rows| && rows[i].plan == plan && rows[i].feature == feature
  }

  datatype IntegrityError = DuplicatePlanFeature

  /** Inserting an assignment under the uniqueness constraint. */
  function InsertAssignment(rows: seq<FeatureAssignment>, a: FeatureAssignment): (r: Result<seq<FeatureAssignment>, IntegrityError>)
    ensures r.Failure? <==> HasPair(rows, a.plan, a.feature)
    ensures r.Success? ==> r.value == rows + [a]
    ensures UniquePairs(rows) && r.Success? ==> UniquePairs(r.value)
  {
    if exists i :: 0 <= i < |rows| && rows[i].plan == a.plan && rows[i].feature == a.feature then
      Failure(DuplicatePlanFeature)
    else
      Success(rows + [a])
  }

  /** Feature-assignment rows built only through inserts never repeat a pair. */
  lemma {:induction false} InsertsKeepPairsUnique(rows: seq<FeatureAssignment>, adds: seq<FeatureAssignment>)
    requires UniquePairs(rows)
    ensures UniquePairs(InsertAll(rows, adds))
    decreases |adds|
  {
    if adds != [] {
      var next := InsertAssignment(rows, adds[0]);
      InsertsKeepPairsUnique(if next.Success? then next.value else rows, adds[1..]);
    }
  }

  /** Inserts every assignment in turn, skipping those the constraint refuses. */
  function InsertAll(rows: seq<FeatureAssignment>, adds: seq<FeatureAssignment>): seq<FeatureAssignment>
    decreases |adds|
  {
    if adds == [] then rows
    else
      var next := InsertAssignment(rows, adds[0]);
      InsertAll(if next.Success? then next.value else rows, adds[1..])
  }
}
