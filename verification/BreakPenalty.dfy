/** The handbook's penalty for breaks that run over: hours charged in tiers, over exact reals and rounded to the satang. */
module BreakPenalty {

  datatype Tier = NoTier | Hourly | HalfDay | FullDay | Absence

  datatype Rules = Rules(
    breakMinutes: real, multiplier: real, hourlyThresholdHours: real, halfDayThresholdHours: real, fullDayThresholdHours: real)
  {
    predicate Ordered() {
      hourlyThresholdHours <= halfDayThresholdHours <= fullDayThresholdHours && multiplier >= 0.0
    }
  }

  datatype Deduction = Deduction(minutes: real, amount: real, tier: Tier)

  /** The product of two amounts, named so that proofs can treat it as one thing. */
  function Times(a: real, b: real): real {
    a * b
  }

  /** Math.round(value * 100) / 100 */
  function RoundMoney(value: real): real {
    (value * 100.0 + 0.5).Floor as real / 100.0
  }

  /** Math.ceil of the overage in hours, none for no overage. */
  function RoundedOverageHours(overageMinutes: real): int {
    if overageMinutes <= 0.0 then 0 else -(-(overageMinutes / 60.0)).Floor
  }

  function ComputeBreakDeduction(minutes: real, rules: Rules, hourlyRate: real): Deduction {
    if minutes <= rules.breakMinutes || hourlyRate <= 0.0 then Deduction(minutes, 0.0, NoTier)
    else
      var dailyWage := hourlyRate * 8.0;
      var totalHours := minutes / 60.0;
      if totalHours > rules.fullDayThresholdHours then Deduction(minutes, 0.0, Absence)
      else if totalHours > rules.halfDayThresholdHours then Deduction(minutes, RoundMoney(Times(dailyWage, rules.multiplier)), FullDay)
      else if totalHours > rules.hourlyThresholdHours then Deduction(minutes, RoundMoney(Times(dailyWage / 2.0, rules.multiplier)), HalfDay)
      else
        var hours := RoundedOverageHours(minutes - rules.breakMinutes);
        Deduction(minutes, RoundMoney(Times(Times(hours as real, rules.multiplier), hourlyRate)), Hourly)
  }

  /** The overage in hours, every begun hour counted whole. */
  lemma BegunHoursCount(overageMinutes: real)
    ensures var h := RoundedOverageHours(overageMinutes);
            if overageMinutes <= 0.0 then h == 0 else 60.0 * (h - 1) as real < overageMinutes <= 60.0 * h as real
  {
    var f := (-(overageMinutes / 60.0)).Floor;
    assert f as real <= -(overageMinutes / 60.0) < f as real + 1.0;
  }

  /** Which tier a break falls in, and the amount for the tiers charged by the day. */
  lemma TierExactly(minutes: real, rules: Rules, hourlyRate: real)
    ensures var d := ComputeBreakDeduction(minutes, rules, hourlyRate);
            && d.minutes == minutes
            && (d.tier == NoTier <==> minutes <= rules.breakMinutes || hourlyRate <= 0.0)
            && (d.tier == Absence <==> d.tier != NoTier && minutes > 60.0 * rules.fullDayThresholdHours)
            && (d.tier == FullDay <==> d.tier != NoTier && 60.0 * rules.halfDayThresholdHours < minutes <= 60.0 * rules.fullDayThresholdHours)
            && (d.tier == HalfDay <==> d.tier != NoTier && 60.0 * rules.hourlyThresholdHours < minutes
                                       && minutes <= 60.0 * rules.halfDayThresholdHours && minutes <= 60.0 * rules.fullDayThresholdHours)
  {
  }

  // ---- One scale for all tiers ----

  /** The hours a tier charges: eight for the day, four for its half. */
  function HoursCharged(minutes: real, rules: Rules, tier: Tier): int {
    match tier
    case NoTier => 0
    case Absence => 0
    case FullDay => 8
    case HalfDay => 4
    case Hourly => RoundedOverageHours(minutes - rules.breakMinutes)
  }

  /** What an hour over costs. */
  function PenaltyRate(rules: Rules, hourlyRate: real): real {
    Times(rules.multiplier, hourlyRate)
  }

  /** The amount for a number of hours at the penalty rate. */
  function Price(hours: int, penaltyRate: real): real {
    RoundMoney(Times(hours as real, penaltyRate))
  }

  /** Every tier's amount is the price of the hours it charges. */
  lemma AmountIsPriceOfHours(minutes: real, rules: Rules, hourlyRate: real)
    ensures var d := ComputeBreakDeduction(minutes, rules, hourlyRate);
            d.amount == Price(HoursCharged(minutes, rules, d.tier), PenaltyRate(rules, hourlyRate))
  {
    var d := ComputeBreakDeduction(minutes, rules, hourlyRate);
    match d.tier
    case NoTier => NoHoursCostNothing(PenaltyRate(rules, hourlyRate));
    case Absence => NoHoursCostNothing(PenaltyRate(rules, hourlyRate));
    case FullDay => Regroup(8.0, rules.multiplier, hourlyRate);
    case HalfDay => Regroup(4.0, rules.multiplier, hourlyRate);
    case Hourly => Regroup(HoursCharged(minutes, rules, Hourly) as real, rules.multiplier, hourlyRate);
  }

  lemma NoHoursCostNothing(penaltyRate: real)
    ensures Price(0, penaltyRate) == 0.0
  {
    assert Times(0 as real, penaltyRate) == 0.0;
  }

  lemma Regroup(hours: real, multiplier: real, rate: real)
    ensures Times(Times(hours, multiplier), rate) == Times(hours, Times(multiplier, rate))
    ensures Times(rate * hours, multiplier) == Times(hours, Times(multiplier, rate))
  {
  }

  lemma PenaltyRateIsNotNegative(rules: Rules, hourlyRate: real)
    requires rules.Ordered() && hourlyRate >= 0.0
    ensures PenaltyRate(rules, hourlyRate) >= 0.0
  {
  }

  /** Rounding moves an amount by at most half a satang, to a whole number of satang. */
  lemma RoundMoneyIsNearest(value: real)
    ensures RoundMoney(value) - 0.005 <= value < RoundMoney(value) + 0.005
    ensures RoundMoney(value) * 100.0 == (RoundMoney(value) * 100.0).Floor as real
  {
    var satang := (value * 100.0 + 0.5).Floor;
    assert RoundMoney(value) * 100.0 == satang as real;
  }

  lemma RoundMoneyIsMonotone(a: real, b: real)
    requires a <= b
    ensures RoundMoney(a) <= RoundMoney(b)
  {
    var m, n := (a * 100.0 + 0.5).Floor, (b * 100.0 + 0.5).Floor;
    assert m as real <= a * 100.0 + 0.5 <= b * 100.0 + 0.5 < n as real + 1.0 == (n + 1) as real;
    assert m < n + 1;
  }

  lemma TimesIsMonotone(a: real, b: real, c: real)
    requires a <= b && c >= 0.0
    ensures Times(a, c) <= Times(b, c)
  {
    assert (b - a) * c >= 0.0;
  }

  lemma MoreHoursCostMore(h: int, k: int, penaltyRate: real)
    requires h <= k && penaltyRate >= 0.0
    ensures Price(h, penaltyRate) <= Price(k, penaltyRate)
  {
    TimesIsMonotone(h as real, k as real, penaltyRate);
    RoundMoneyIsMonotone(Times(h as real, penaltyRate), Times(k as real, penaltyRate));
  }

  lemma LongerOverageChargesMore(a: real, b: real)
    requires a <= b
    ensures 0 <= RoundedOverageHours(a) <= RoundedOverageHours(b)
  {
    var m, n := (-(a / 60.0)).Floor, (-(b / 60.0)).Floor;
    assert n as real <= -(b / 60.0) <= -(a / 60.0) < (m + 1) as real;
    assert n < m + 1;
    if a > 0.0 {
      assert m as real < 0.0;
      assert m < 0;
    } else if b > 0.0 {
      assert n as real < 0.0;
      assert n < 0;
    }
  }

  // ---- When a longer break never costs less ----

  /** The most hours the hourly tier charges: those of a break that just reaches its end. */
  function TopHourly(rules: Rules): int {
    RoundedOverageHours(60.0 * rules.hourlyThresholdHours - rules.breakMinutes)
  }

  /** Up to the absence tier, a longer break never costs less. */
  ghost predicate NeverCheaper(rules: Rules, hourlyRate: real) {
    forall m: real, n: real {:trigger ComputeBreakDeduction(m, rules, hourlyRate), ComputeBreakDeduction(n, rules, hourlyRate)} ::
      m <= n && !ComputeBreakDeduction(n, rules, hourlyRate).tier.Absence? ==>
        ComputeBreakDeduction(m, rules, hourlyRate).amount <= ComputeBreakDeduction(n, rules, hourlyRate).amount
  }

  /** The last hourly charge is at most that of each tier that follows. */
  predicate TiersFit(rules: Rules, hourlyRate: real) {
    var penaltyRate := PenaltyRate(rules, hourlyRate);
    hourlyRate <= 0.0
    || ((rules.hourlyThresholdHours < rules.halfDayThresholdHours ==> Price(TopHourly(rules), penaltyRate) <= Price(4, penaltyRate))
        && (rules.halfDayThresholdHours < rules.fullDayThresholdHours ==> Price(TopHourly(rules), penaltyRate) <= Price(8, penaltyRate)))
  }

  /** A longer break never costs less exactly when the tiers fit together. */
  lemma NeverCheaperExactlyWhenTiersFit(rules: Rules, hourlyRate: real)
    requires rules.Ordered()
    ensures NeverCheaper(rules, hourlyRate) <==> TiersFit(rules, hourlyRate)
  {
    if TiersFit(rules, hourlyRate) {
      forall m: real, n: real | m <= n && !ComputeBreakDeduction(n, rules, hourlyRate).tier.Absence?
        ensures ComputeBreakDeduction(m, rules, hourlyRate).amount <= ComputeBreakDeduction(n, rules, hourlyRate).amount
      {
        LongerBreakCostsMore(m, n, rules, hourlyRate);
      }
    } else {
      MisfitShows(rules, hourlyRate);
    }
  }

  /** Tiers that do not fit: a six-hour break is charged five hours, a seven-hour break only four. */
  lemma LongerBreakCanCostLess()
    ensures var rules := Rules(60.0, 1.0, 6.0, 7.0, 9.0);
            && ComputeBreakDeduction(360.0, rules, 100.0).amount == 500.0
            && ComputeBreakDeduction(420.0, rules, 100.0).amount == 400.0
            && rules.Ordered() && !TiersFit(rules, 100.0)
  {
    var rules := Rules(60.0, 1.0, 6.0, 7.0, 9.0);
    AmountIsPriceOfHours(360.0, rules, 100.0);
    AmountIsPriceOfHours(420.0, rules, 100.0);
    assert RoundedOverageHours(300.0) == 5 == TopHourly(rules);
    assert Price(5, 100.0) == 500.0 && Price(4, 100.0) == 400.0;
  }

  /** In particular whenever the hourly tier charges at most four hours. */
  lemma FourHoursFit(rules: Rules, hourlyRate: real)
    requires rules.Ordered() && TopHourly(rules) <= 4
    ensures NeverCheaper(rules, hourlyRate)
  {
    if hourlyRate > 0.0 {
      PenaltyRateIsNotNegative(rules, hourlyRate);
      MoreHoursCostMore(TopHourly(rules), 4, PenaltyRate(rules, hourlyRate));
      MoreHoursCostMore(TopHourly(rules), 8, PenaltyRate(rules, hourlyRate));
    }
    NeverCheaperExactlyWhenTiersFit(rules, hourlyRate);
  }

  /** Each deduction lies within half a satang of its hours at the exact rate. */
  lemma DeductionIsNearExact(minutes: real, rules: Rules, hourlyRate: real)
    ensures var d := ComputeBreakDeduction(minutes, rules, hourlyRate);
            var exact := Times(HoursCharged(minutes, rules, d.tier) as real, PenaltyRate(rules, hourlyRate));
            d.amount - 0.005 <= exact < d.amount + 0.005
  {
    AmountIsPriceOfHours(minutes, rules, hourlyRate);
    var hours := HoursCharged(minutes, rules, ComputeBreakDeduction(minutes, rules, hourlyRate).tier);
    RoundMoneyIsNearest(Times(hours as real, PenaltyRate(rules, hourlyRate)));
  }

  /**
   What every break costs: nothing in time, without a rate, or beyond the day; otherwise the whole number of satang
   nearest to the price of its hours: eight, four, or the begun hours of the overage.
   */
  lemma DeductionExactly(minutes: real, rules: Rules, hourlyRate: real) returns (hours: int)
    ensures var d := ComputeBreakDeduction(minutes, rules, hourlyRate);
            && d.amount - 0.005 <= hours as real * (rules.multiplier * hourlyRate) < d.amount + 0.005
            && d.amount * 100.0 == (d.amount * 100.0).Floor as real
            && (d.tier == NoTier || d.tier == Absence ==> hours == 0)
            && (d.tier == FullDay ==> hours == 8)
            && (d.tier == HalfDay ==> hours == 4)
            && (d.tier == Hourly ==> 60.0 * (hours - 1) as real < minutes - rules.breakMinutes <= 60.0 * hours as real)
  {
    var d := ComputeBreakDeduction(minutes, rules, hourlyRate);
    hours := HoursCharged(minutes, rules, d.tier);
    DeductionIsNearExact(minutes, rules, hourlyRate);
    AmountIsPriceOfHours(minutes, rules, hourlyRate);
    RoundMoneyIsNearest(Times(hours as real, PenaltyRate(rules, hourlyRate)));
    BegunHoursCount(minutes - rules.breakMinutes);
  }

  /** With at most eight hours in the hourly tier, no deduction is negative or exceeds the price of the full day. */
  lemma DeductionIsCapped(minutes: real, rules: Rules, hourlyRate: real)
    requires rules.Ordered() && TopHourly(rules) <= 8 && hourlyRate > 0.0
    ensures 0.0 <= ComputeBreakDeduction(minutes, rules, hourlyRate).amount <= Price(8, PenaltyRate(rules, hourlyRate))
  {
    var penaltyRate := PenaltyRate(rules, hourlyRate);
    PenaltyRateIsNotNegative(rules, hourlyRate);
    AmountIsPriceOfHours(minutes, rules, hourlyRate);
    HoursAreBounded(minutes, rules, hourlyRate);
    var hours := HoursCharged(minutes, rules, ComputeBreakDeduction(minutes, rules, hourlyRate).tier);
    NoHoursCostNothing(penaltyRate);
    MoreHoursCostMore(0, hours, penaltyRate);
    MoreHoursCostMore(hours, 8, penaltyRate);
  }

  ghost predicate NeverAboveFullDay(rules: Rules, hourlyRate: real) {
    forall minutes: real ::
      ComputeBreakDeduction(minutes, rules, hourlyRate).amount <= Price(8, PenaltyRate(rules, hourlyRate))
  }

  /** No deduction exceeds the full day's exactly when the last hourly charge does not. */
  lemma NeverAboveFullDayExactly(rules: Rules, hourlyRate: real)
    requires rules.Ordered() && hourlyRate > 0.0
    ensures NeverAboveFullDay(rules, hourlyRate)
       <==> Price(TopHourly(rules), PenaltyRate(rules, hourlyRate)) <= Price(8, PenaltyRate(rules, hourlyRate))
  {
    var penaltyRate := PenaltyRate(rules, hourlyRate);
    PenaltyRateIsNotNegative(rules, hourlyRate);
    NoHoursCostNothing(penaltyRate);
    MoreHoursCostMore(0, 8, penaltyRate);
    MoreHoursCostMore(4, 8, penaltyRate);
    if Price(TopHourly(rules), penaltyRate) <= Price(8, penaltyRate) {
      forall minutes: real ensures ComputeBreakDeduction(minutes, rules, hourlyRate).amount <= Price(8, penaltyRate) {
        AmountIsPriceOfHours(minutes, rules, hourlyRate);
        HoursAreBounded(minutes, rules, hourlyRate);
        var tier := ComputeBreakDeduction(minutes, rules, hourlyRate).tier;
        if tier.Hourly? { MoreHoursCostMore(HoursCharged(minutes, rules, tier), TopHourly(rules), penaltyRate); }
      }
    } else {
      var last := 60.0 * rules.hourlyThresholdHours;
      AmountIsPriceOfHours(last, rules, hourlyRate);
      assert TopHourly(rules) != 0;
      assert last > rules.breakMinutes;
      assert ComputeBreakDeduction(last, rules, hourlyRate).tier == Hourly;
      assert ComputeBreakDeduction(last, rules, hourlyRate).amount == Price(TopHourly(rules), penaltyRate);
    }
  }

  lemma HoursAreBounded(minutes: real, rules: Rules, hourlyRate: real)
    ensures var d := ComputeBreakDeduction(minutes, rules, hourlyRate);
            0 <= HoursCharged(minutes, rules, d.tier) && (d.tier.Hourly? ==> HoursCharged(minutes, rules, d.tier) <= TopHourly(rules))
  {
    if ComputeBreakDeduction(minutes, rules, hourlyRate).tier.Hourly? {
      LongerOverageChargesMore(minutes - rules.breakMinutes, 60.0 * rules.hourlyThresholdHours - rules.breakMinutes);
    }
  }

  lemma LongerBreakCostsMore(m: real, n: real, rules: Rules, hourlyRate: real)
    requires rules.Ordered() && TiersFit(rules, hourlyRate)
    requires m <= n && !ComputeBreakDeduction(n, rules, hourlyRate).tier.Absence?
    ensures ComputeBreakDeduction(m, rules, hourlyRate).amount <= ComputeBreakDeduction(n, rules, hourlyRate).amount
  {
    AmountIsPriceOfHours(m, rules, hourlyRate);
    AmountIsPriceOfHours(n, rules, hourlyRate);
    if hourlyRate > 0.0 {
      var penaltyRate := PenaltyRate(rules, hourlyRate);
      PenaltyRateIsNotNegative(rules, hourlyRate);
      var d, e := ComputeBreakDeduction(m, rules, hourlyRate), ComputeBreakDeduction(n, rules, hourlyRate);
      var h, k := HoursCharged(m, rules, d.tier), HoursCharged(n, rules, e.tier);
      HoursAreBounded(m, rules, hourlyRate);
      HoursAreBounded(n, rules, hourlyRate);
      if d.tier.Hourly? && !e.tier.Hourly? {
        MoreHoursCostMore(h, TopHourly(rules), penaltyRate);
        if e.tier.HalfDay? { MoreHoursCostMore(4, 8, penaltyRate); }
      } else {
        if d.tier.Hourly? { LongerOverageChargesMore(m - rules.breakMinutes, n - rules.breakMinutes); }
        MoreHoursCostMore(h, k, penaltyRate);
      }
    }
  }

  /** Otherwise a break at the end of the hourly tier costs more than one at the end of a later tier. */
  lemma MisfitShows(rules: Rules, hourlyRate: real)
    requires rules.Ordered() && !TiersFit(rules, hourlyRate)
    ensures !NeverCheaper(rules, hourlyRate)
  {
    var penaltyRate := PenaltyRate(rules, hourlyRate);
    PenaltyRateIsNotNegative(rules, hourlyRate);
    if TopHourly(rules) <= 4 {
      MoreHoursCostMore(TopHourly(rules), 4, penaltyRate);
      MoreHoursCostMore(TopHourly(rules), 8, penaltyRate);
      assert false;
    }
    var m := 60.0 * rules.hourlyThresholdHours;
    var n := if rules.hourlyThresholdHours < rules.halfDayThresholdHours && Price(4, penaltyRate) < Price(TopHourly(rules), penaltyRate)
             then 60.0 * rules.halfDayThresholdHours else 60.0 * rules.fullDayThresholdHours;
    assert m > rules.breakMinutes;
    AmountIsPriceOfHours(m, rules, hourlyRate);
    AmountIsPriceOfHours(n, rules, hourlyRate);
    assert ComputeBreakDeduction(m, rules, hourlyRate).tier == Hourly;
    assert ComputeBreakDeduction(m, rules, hourlyRate).amount > ComputeBreakDeduction(n, rules, hourlyRate).amount;
  }
}
