/**
 * Recurrence rules (app/lib/repeat.js): the type-string recogniser, the
 * single step of each rule, and the catch-up loop that finds the next
 * firing time not before "now".
 */
module Repeat {
  import opened Wrappers
  import Decimal

  datatype Unit = Days | Hours | Minutes

  /** The branch of the rule's if-chain a type string selects. */
  datatype Kind =
    | Daily | EndOfMonth | Hourly | Minutely | Monthly | Weekly | Yearly
    | Every(count: nat, unit: Unit)

  function UnitName(u: Unit): string {
    match u
    case Days => "days"
    case Hours => "hours"
    case Minutes => "minutes"
  }

  const EveryPrefix: string := "every_"

  /** The seven literal type strings, in the order the validator lists them. */
  const Literals: seq<string> :=
    ["daily", "end_of_month", "hourly", "minutely", "monthly", "weekly", "yearly"]

  /** `t` matches the anchored pattern `^every_[0-9]+_<unit>$`. */
  predicate MatchesEvery(t: string, u: Unit) {
    var suffix := "_" + UnitName(u);
    |EveryPrefix| + |suffix| < |t|
    && t[..|EveryPrefix|] == EveryPrefix
    && t[|t| - |suffix|..] == suffix
    && Decimal.AllDigits(t[|EveryPrefix|..|t| - |suffix|])
  }

  /** The captured digit group, as `parseInt` reads it. */
  function EveryCount(t: string, u: Unit): nat
    requires MatchesEvery(t, u)
  {
    var suffix := "_" + UnitName(u);
    Decimal.Value(t[|EveryPrefix|..|t| - |suffix|])
  }

  /**
   * The kind the if-chain of the stepping loop dispatches to, or None when it
   * reaches the final `throw`.
   */
  function KindOf(t: string): (r: Option<Kind>)
    ensures r.Some? <==> ValidateType(t).Accepted?
    ensures r.Some? ==> (r.value.Every? <==> t !in Literals)
  {
    if t == "daily" then Some(Daily)
    else if t == "end_of_month" then Some(EndOfMonth)
    else if t == "hourly" then Some(Hourly)
    else if t == "minutely" then Some(Minutely)
    else if t == "monthly" then Some(Monthly)
    else if t == "weekly" then Some(Weekly)
    else if t == "yearly" then Some(Yearly)
    else if MatchesEvery(t, Days) then Some(Every(EveryCount(t, Days), Days))
    else if MatchesEvery(t, Hours) then Some(Every(EveryCount(t, Hours), Hours))
    else if MatchesEvery(t, Minutes) then Some(Every(EveryCount(t, Minutes), Minutes))
    else None
  }

  /** The message of the error both the validator and the stepping loop throw. */
  function InvalidMessage(t: string): string {
    t + "不是一个合法的重复模式"
  }

  datatype Validation = Accepted | Rejected(message: string)

  /** `Repeat.validateType`: returns normally, or throws with the offending string. */
  function ValidateType(t: string): (v: Validation)
    ensures v.Rejected? ==> v.message == InvalidMessage(t)
    ensures v.Accepted? ==> |t| > 0
  {
    if t in Literals then Accepted
    else if MatchesEvery(t, Days) then Accepted
    else if MatchesEvery(t, Hours) then Accepted
    else if MatchesEvery(t, Minutes) then Accepted
    else Rejected(InvalidMessage(t))
  }

  /** `z` copies of the digit zero. */
  function Zeros(z: nat): (s: string)
    ensures |s| == z && Decimal.AllDigits(s)
  {
    seq(z, _ => '0')
  }

  /**
   * An independent description of the accepted language: every kind spelled
   * out, the count of a parametrised kind written with `z` leading zeros.
   */
  function Spelling(k: Kind, z: nat): string {
    match k
    case Daily => "daily"
    case EndOfMonth => "end_of_month"
    case Hourly => "hourly"
    case Minutely => "minutely"
    case Monthly => "monthly"
    case Weekly => "weekly"
    case Yearly => "yearly"
    case Every(n, u) => EveryPrefix + Zeros(z) + Decimal.NatToString(n) + "_" + UnitName(u)
  }

  lemma {:induction false} ValueWithLeadingZeros(z: nat, s: string)
    requires Decimal.AllDigits(s)
    ensures Decimal.AllDigits(Zeros(z) + s)
    ensures Decimal.Value(Zeros(z) + s) == Decimal.Value(s)
  {
    var t := Zeros(z) + s;
    if |s| == 0 {
      assert t == Zeros(z);
      ValueOfZeros(z);
    } else {
      ValueWithLeadingZeros(z, s[..|s| - 1]);
      assert t[..|t| - 1] == Zeros(z) + s[..|s| - 1];
    }
  }

  lemma {:induction false} ValueOfZeros(z: nat)
    ensures Decimal.Value(Zeros(z)) == 0
  {
    if z > 0 {
      ValueOfZeros(z - 1);
      assert Zeros(z)[..z - 1] == Zeros(z - 1);
    }
  }

  lemma {:induction false} ZeroValueIsZeros(p: string)
    requires Decimal.AllDigits(p) && Decimal.Value(p) == 0
    ensures p == Zeros(|p|)
  {
    if |p| > 0 {
      ZeroValueIsZeros(p[..|p| - 1]);
      assert p == p[..|p| - 1] + [p[|p| - 1]];
    }
  }

  /** Every non-empty digit string is some zeros followed by the canonical rendering of its value. */
  lemma {:induction false} DigitsDecompose(s: string) returns (z: nat)
    requires Decimal.AllDigits(s) && |s| > 0
    ensures s == Zeros(z) + Decimal.NatToString(Decimal.Value(s))
  {
    var p, c := s[..|s| - 1], s[|s| - 1];
    assert s == p + [c];
    var v := Decimal.Value(s);
    assert Decimal.DigitChar(Decimal.DigitValue(c)) == c;
    if Decimal.Value(p) == 0 {
      ZeroValueIsZeros(p);
      z := |p|;
    } else {
      z := DigitsDecompose(p);
      assert v / 10 == Decimal.Value(p) && v % 10 == Decimal.DigitValue(c);
    }
  }

  /** A string of the `every_N_<unit>` shape is a spelling of the kind it is dispatched to. */
  lemma EveryIsSpelling(t: string, u: Unit) returns (z: nat)
    requires MatchesEvery(t, u)
    ensures t == Spelling(Every(EveryCount(t, u), u), z)
  {
    var suffix := "_" + UnitName(u);
    var digits := t[|EveryPrefix|..|t| - |suffix|];
    z := DigitsDecompose(digits);
    SplitEvery(t, suffix, digits);
    JoinSpelling(z, EveryCount(t, u), u, digits);
  }

  lemma SplitEvery(t: string, suffix: string, digits: string)
    requires |EveryPrefix| + |suffix| < |t|
    requires t[..|EveryPrefix|] == EveryPrefix && t[|t| - |suffix|..] == suffix
    requires digits == t[|EveryPrefix|..|t| - |suffix|]
    ensures t == EveryPrefix + digits + suffix
  {
    assert t == t[..|EveryPrefix|] + digits + t[|t| - |suffix|..];
  }

  lemma JoinSpelling(z: nat, n: nat, u: Unit, digits: string)
    requires digits == Zeros(z) + Decimal.NatToString(n)
    ensures Spelling(Every(n, u), z) == EveryPrefix + digits + ("_" + UnitName(u))
  {
  }

  /** What the recogniser accepts is exactly the spellings of the kinds. */
  lemma AcceptedIsSpelling(t: string) returns (k: Kind, z: nat)
    requires ValidateType(t).Accepted?
    ensures t == Spelling(k, z)
  {
    z := 0;
    if t == "daily" { k := Daily; }
    else if t == "end_of_month" { k := EndOfMonth; }
    else if t == "hourly" { k := Hourly; }
    else if t == "minutely" { k := Minutely; }
    else if t == "monthly" { k := Monthly; }
    else if t == "weekly" { k := Weekly; }
    else if t == "yearly" { k := Yearly; }
    else if MatchesEvery(t, Days) {
      z := EveryIsSpelling(t, Days);
      k := Every(EveryCount(t, Days), Days);
    } else if MatchesEvery(t, Hours) {
      z := EveryIsSpelling(t, Hours);
      k := Every(EveryCount(t, Hours), Hours);
    } else {
      z := EveryIsSpelling(t, Minutes);
      k := Every(EveryCount(t, Minutes), Minutes);
    }
  }

  lemma SlicesOfEvery(digits: string, suffix: string)
    ensures var t := EveryPrefix + digits + suffix;
      && t[..|EveryPrefix|] == EveryPrefix
      && t[|EveryPrefix|..|t| - |suffix|] == digits
      && t[|t| - |suffix|..] == suffix
  {
  }

  /** An `every_` spelling matches its own unit's pattern, with its count read back. */
  lemma EverySpellingMatches(n: nat, u: Unit, z: nat)
    ensures MatchesEvery(Spelling(Every(n, u), z), u)
    ensures EveryCount(Spelling(Every(n, u), z), u) == n
  {
    var digits := Zeros(z) + Decimal.NatToString(n);
    ValueWithLeadingZeros(z, Decimal.NatToString(n));
    Decimal.ValueOfNatToString(n);
    JoinSpelling(z, n, u, digits);
    SlicesOfEvery(digits, "_" + UnitName(u));
  }

  /** An `every_` spelling is none of the literals and matches no other unit checked before its own. */
  lemma EverySpellingIsOnlyItsUnit(n: nat, u: Unit, z: nat)
    ensures Spelling(Every(n, u), z) !in Literals
    ensures u != Days ==> !MatchesEvery(Spelling(Every(n, u), z), Days)
    ensures u == Minutes ==> !MatchesEvery(Spelling(Every(n, u), z), Hours)
  {
    var t := Spelling(Every(n, u), z);
    var suffix := "_" + UnitName(u);
    assert t == EveryPrefix + (Zeros(z) + Decimal.NatToString(n)) + suffix;
    assert t[1] == 'v';
    if u != Days {
      assert t[|t| - 5] == suffix[|suffix| - 5];
      assert t[|t| - |"_days"|..][0] != '_';
    }
    if u == Minutes {
      assert t[|t| - 6] == suffix[|suffix| - 6];
      assert t[|t| - |"_hours"|..][0] != '_';
    }
  }

  /** Every spelling of a kind is accepted, and the stepping loop dispatches it to that kind. */
  lemma SpellingIsAccepted(k: Kind, z: nat)
    ensures ValidateType(Spelling(k, z)).Accepted?
    ensures KindOf(Spelling(k, z)) == Some(k)
  {
    if k.Every? {
      EverySpellingMatches(k.count, k.unit, z);
      EverySpellingIsOnlyItsUnit(k.count, k.unit, z);
    }
  }

  /**
   * The calendar operations the source delegates to the `date-arithmetic`
   * library and to `Date`: add whole months, add whole years, and
   * `setDate(0)`, which moves to the last day of the previous month.
   */
  datatype Calendar = Calendar(
    addMonths: (int, nat) -> int,
    addYears: (int, nat) -> int,
    dayZero: int -> int)

  /**
   * One iteration of the do-while body for kind `k`, from timestamp `t`
   * (milliseconds). Fixed kinds move by exactly their step size whatever the
   * calendar; only the month, year and end-of-month kinds consult it.
   */
  function Step(k: Kind, cal: Calendar, t: int): (r: int)
    ensures FixedMs(k).Some? ==> r == t + FixedMs(k).value
    ensures FixedMs(k).None? <==> k in {EndOfMonth, Monthly, Yearly}
  {
    match k
    case Daily => t + 24 * 60 * 60 * 1000
    case EndOfMonth => cal.dayZero(cal.addMonths(t, 2))
    case Hourly => t + 60 * 60 * 1000
    case Minutely => t + 60 * 1000
    case Monthly => cal.addMonths(t, 1)
    case Weekly => t + 7 * 24 * 60 * 60 * 1000
    case Yearly => cal.addYears(t, 1)
    case Every(n, Days) => t + n * 24 * 60 * 60 * 1000
    case Every(n, Hours) => t + n * 60 * 60 * 1000
    case Every(n, Minutes) => t + n * 60 * 1000
  }

  /** The fixed size of one step in milliseconds; None for the calendar kinds. */
  function FixedMs(k: Kind): Option<nat> {
    match k
    case Daily => Some(86400000)
    case Hourly => Some(3600000)
    case Minutely => Some(60000)
    case Weekly => Some(604800000)
    case Every(n, Days) => Some(n * 86400000)
    case Every(n, Hours) => Some(n * 3600000)
    case Every(n, Minutes) => Some(n * 60000)
    case _ => None
  }

  /** The calendar steps move forward in time (true of the Gregorian calendar; assumed of the library). */
  ghost predicate Advances(cal: Calendar) {
    forall t: int ::
      && Step(Monthly, cal, t) > t
      && Step(Yearly, cal, t) > t
      && Step(EndOfMonth, cal, t) > t
  }

  /** A step moves strictly forward unless it is a parametrised kind with count 0. */
  lemma StepAdvances(k: Kind, cal: Calendar, t: int)
    requires Advances(cal) && FixedMs(k) != Some(0)
    ensures Step(k, cal, t) > t
  {
  }

  /** `n` applications of the step, starting from `t`. */
  function Iterate(k: Kind, cal: Calendar, t: int, n: nat): int {
    if n == 0 then t else Step(k, cal, Iterate(k, cal, t, n - 1))
  }

  /** For a fixed kind, `n` steps land exactly `n` step sizes later. */
  lemma {:induction false} IterateFixed(k: Kind, cal: Calendar, t: int, n: nat)
    requires FixedMs(k).Some?
    ensures Iterate(k, cal, t, n) == t + n * FixedMs(k).value
  {
    if n > 0 {
      IterateFixed(k, cal, t, n - 1);
    }
  }

  /** At least one step of an advancing kind leaves the start strictly behind. */
  lemma {:induction false} IterateAdvances(k: Kind, cal: Calendar, t: int, n: nat)
    requires Advances(cal) && FixedMs(k) != Some(0) && n >= 1
    ensures Iterate(k, cal, t, n) > t
  {
    StepAdvances(k, cal, Iterate(k, cal, t, n - 1));
    if n > 1 {
      IterateAdvances(k, cal, t, n - 1);
    }
  }

  /** A count-0 rule never moves: no number of steps reaches a `now` beyond the start. */
  lemma {:induction false} ZeroStepStaysPut(u: Unit, cal: Calendar, t: int, n: nat)
    ensures Iterate(Every(0, u), cal, t, n) == t
  {
    if n > 0 {
      ZeroStepStaysPut(u, cal, t, n - 1);
    }
  }

  /**
   * The least number of whole steps of size `d` (at least one) that takes
   * `current` to a time not before `now`.
   */
  function CatchUpSteps(current: int, now: int, d: nat): (n: nat)
    requires d > 0
    ensures n >= 1
    ensures current + n * d >= now
    ensures n == 1 || current + (n - 1) * d < now
  {
    if now - current <= d then 1
    else
      var q := (now - current + d - 1) / d;
      assert q * d <= now - current + d - 1 < q * d + d;
      q
  }

  lemma MultiplyMonotone(a: nat, b: nat, d: nat)
    ensures a <= b ==> a * d <= b * d
  {
    if a <= b {
      assert b * d == a * d + (b - a) * d;
    }
  }

  /** For a fixed kind, the catch-up result is `current + k * step` with the least such `k >= 1`. */
  lemma FixedCatchUp(k: Kind, cal: Calendar, current: int, now: int, steps: nat)
    requires FixedMs(k).Some? && FixedMs(k).value > 0
    requires steps >= 1 && Iterate(k, cal, current, steps) >= now
    requires forall j :: 1 <= j < steps ==> Iterate(k, cal, current, j) < now
    ensures Iterate(k, cal, current, steps) == current + CatchUpSteps(current, now, FixedMs(k).value) * FixedMs(k).value
  {
    var d := FixedMs(k).value;
    var m := CatchUpSteps(current, now, d);
    IterateFixed(k, cal, current, steps);
    IterateFixed(k, cal, current, m);
    if steps > 1 {
      assert Iterate(k, cal, current, steps - 1) < now;
      IterateFixed(k, cal, current, steps - 1);
      MultiplyMonotone(m, steps - 1, d);
    }
    MultiplyMonotone(steps, m - 1, d);
  }

  /** The outcome of `nextTimestamp`: a time, the thrown error, or a loop that never ends. */
  datatype Next = At(time: int) | Invalid(message: string) | NeverEnds

  /**
   * A repeat row. The constructor stores the type string without checking it,
   * as the source does.
   */
  class Repeat {
    var pattern: string
    var updateAt: Option<int>

    constructor (pattern: string)
      ensures this.pattern == pattern && updateAt == None
    {
      this.pattern := pattern;
      updateAt := None;
    }

    /**
     * `nextTimestamp(current)` with the clock reading passed in as `now`
     * (milliseconds). The loop body runs at least once and repeats while the
     * result is before `now`. `steps` is the number of iterations.
     */
    method NextTimestamp(current: int, now: int, cal: Calendar) returns (r: Next, ghost steps: nat)
      requires Advances(cal)
      ensures r.Invalid? <==> KindOf(pattern).None?
      ensures r.Invalid? ==> r.message == InvalidMessage(pattern)
      ensures r.NeverEnds? <==> KindOf(pattern).Some? && FixedMs(KindOf(pattern).value) == Some(0) && current < now
      ensures r.At? ==>
        && steps >= 1
        && r.time == Iterate(KindOf(pattern).value, cal, current, steps)
        && r.time >= now
        && (forall j :: 1 <= j < steps ==> Iterate(KindOf(pattern).value, cal, current, j) < now)
      ensures r.At? && FixedMs(KindOf(pattern).value) != Some(0) ==> r.time > current
      ensures ValidateTypeStrict(pattern).Accepted? ==> r.At?
    {
      var kind := KindOf(pattern);
      if kind.None? {
        return Invalid(InvalidMessage(pattern)), 0;
      }
      var k := kind.value;
      if FixedMs(k) == Some(0) && current < now {
        return NeverEnds, 0;
      }
      var next := Step(k, cal, current);
      steps := 1;
      while next < now
        invariant steps >= 1 && next == Iterate(k, cal, current, steps)
        invariant forall j :: 1 <= j < steps ==> Iterate(k, cal, current, j) < now
        invariant FixedMs(k) == Some(0) ==> now <= next
        decreases now - next
      {
        StepAdvances(k, cal, next);
        next := Step(k, cal, next);
        steps := steps + 1;
      }
      if FixedMs(k) != Some(0) {
        IterateAdvances(k, cal, current, steps);
      }
      if ValidateTypeStrict(pattern).Accepted? {
        StrictRejectsZero(pattern);
      }
      r := At(next);
    }

    /**
     * `patch(changes)`: copies `type` when the key is present, leaves it
     * alone otherwise, and always stamps the update time.
     */
    method Patch(changes: map<string, string>, now: int)
      modifies this
      ensures pattern == (if "type" in changes then changes["type"] else old(pattern))
      ensures updateAt == Some(now)
    {
      if "type" in changes {
        pattern := changes["type"];
      }
      updateAt := Some(now);
    }
  }

  /**
   * The recogniser as evidently intended: as `ValidateType`, but a
   * parametrised kind with count 0 is rejected.
   */
  function ValidateTypeStrict(t: string): (v: Validation)
    ensures v.Accepted? <==> ValidateType(t).Accepted? && FixedMs(KindOf(t).value) != Some(0)
    ensures v.Rejected? ==> v.message == InvalidMessage(t)
  {
    match KindOf(t)
    case Some(Every(0, _)) => Rejected(InvalidMessage(t))
    case Some(_) => ValidateType(t)
    case None => Rejected(InvalidMessage(t))
  }

  /** A strictly valid type selects a kind whose every step moves forward. */
  lemma StrictRejectsZero(t: string)
    requires ValidateTypeStrict(t).Accepted?
    ensures KindOf(t).Some? && FixedMs(KindOf(t).value) != Some(0)
  {
  }

  /**
   * As written, the recogniser accepts `every_0_days`, whose step never moves:
   * from any start before `now`, no number of iterations reaches `now`.
   */
  lemma ZeroCountAccepted(cal: Calendar, current: int, now: int, n: nat)
    requires current < now
    ensures ValidateType("every_0_days").Accepted?
    ensures KindOf("every_0_days") == Some(Every(0, Days))
    ensures Iterate(Every(0, Days), cal, current, n) < now
    ensures ValidateTypeStrict("every_0_days").Rejected?
  {
    SpellingIsAccepted(Every(0, Days), 0);
    assert Spelling(Every(0, Days), 0) == "every_0_days";
    ZeroStepStaysPut(Days, cal, current, n);
  }
}
