/**
 * The snooze directives a delivered reminder's activation value may carry
 * (app/service/task.js): "N分钟后再提醒", "8点时再提醒" and "N小时后再提醒",
 * tried in that order. The two numbered directives are unanchored regular
 * expressions `/([0-9]+)<suffix>/`; the number is what `parseInt` reads from
 * the start of the whole match.
 */
module Activation {
  import opened Wrappers
  import Decimal

  const MinutesSuffix: string := "分钟后再提醒"
  const EightMarker: string := "8点时再提醒"
  const HoursSuffix: string := "小时后再提醒"

  /** `pat` occurs in `s` starting at index `i`. */
  predicate OccursAt(s: string, pat: string, i: nat) {
    i + |pat| <= |s| && s[i..i + |pat|] == pat
  }

  /** A suffix the numbered directives may use: it cannot be confused with a digit. */
  predicate NumberedSuffix(suffix: string) {
    |suffix| > 0 && !Decimal.IsDigit(suffix[0])
  }

  /** The end of the run of digits that starts at `i`. */
  function RunEnd(s: string, i: nat): (e: nat)
    requires i <= |s|
    ensures i <= e <= |s|
    ensures Decimal.AllDigits(s[i..e])
    ensures e == |s| || !Decimal.IsDigit(s[e])
    decreases |s| - i
  {
    if i < |s| && Decimal.IsDigit(s[i]) then
      var e := RunEnd(s, i + 1);
      assert s[i..e] == [s[i]] + s[i + 1..e];
      e
    else i
  }

  /** A maximal digit run ends where the first non-digit stands. */
  lemma {:induction false} RunEndAt(s: string, i: nat, e: nat)
    requires i <= e <= |s|
    requires Decimal.AllDigits(s[i..e])
    requires e == |s| || !Decimal.IsDigit(s[e])
    ensures RunEnd(s, i) == e
    decreases e - i
  {
    if i < e {
      assert Decimal.IsDigit(s[i..e][0]);
      assert s[i + 1..e] == s[i..e][1..];
      RunEndAt(s, i + 1, e);
    }
  }

  /** The digits `s[p..e]` stand directly before an occurrence of `suffix`. */
  ghost predicate Numbered(s: string, suffix: string, p: nat, e: nat) {
    p < e <= |s| && Decimal.AllDigits(s[p..e]) && OccursAt(s, suffix, e)
  }

  /** The regular expression `/([0-9]+)<suffix>/` has a match starting at `i`. */
  predicate MatchAt(s: string, suffix: string, i: nat)
    requires i <= |s|
  {
    i < |s| && Decimal.IsDigit(s[i]) && OccursAt(s, suffix, RunEnd(s, i))
  }

  /**
   * The leftmost match at or after `i`, and the number `parseInt` reads from it.
   * It finds a number exactly when some digits stand before the suffix.
   */
  function FindFrom(s: string, suffix: string, i: nat): (r: Option<nat>)
    requires i <= |s| && NumberedSuffix(suffix)
    ensures r.Some? <==> exists p: nat, e: nat :: i <= p && Numbered(s, suffix, p, e)
    decreases |s| - i
  {
    if i == |s| then
      None
    else if MatchAt(s, suffix, i) then
      var e := RunEnd(s, i);
      assert Numbered(s, suffix, i, e);
      Some(Decimal.Value(s[i..e]))
    else
      var r := FindFrom(s, suffix, i + 1);
      assert (exists p: nat, e: nat :: i + 1 <= p && Numbered(s, suffix, p, e)) <==>
             (exists p: nat, e: nat :: i <= p && Numbered(s, suffix, p, e)) by {
        forall e: nat | Numbered(s, suffix, i, e) ensures false {
          assert s[e] == suffix[0];
          RunEndAt(s, i, e);
        }
      }
      r
  }

  /**
   * What the leftmost match yields: the value of a maximal run of digits that
   * stands directly before the suffix, with no match starting further left.
   */
  lemma {:induction false} FindFromSound(s: string, suffix: string, i: nat) returns (p: nat, e: nat)
    requires i <= |s| && NumberedSuffix(suffix)
    requires FindFrom(s, suffix, i).Some?
    ensures i <= p && Numbered(s, suffix, p, e)
    ensures FindFrom(s, suffix, i).value == Decimal.Value(s[p..e])
    ensures forall q :: i <= q < p ==> !MatchAt(s, suffix, q)
    decreases |s| - i
  {
    if MatchAt(s, suffix, i) {
      p, e := i, RunEnd(s, i);
    } else {
      p, e := FindFromSound(s, suffix, i + 1);
    }
  }

  /** `pat` occurs somewhere at or after `i`. */
  function ContainsFrom(s: string, pat: string, i: nat): (b: bool)
    requires i <= |s|
    ensures b <==> exists j: nat :: i <= j && OccursAt(s, pat, j)
    decreases |s| - i
  {
    if OccursAt(s, pat, i) then true
    else if i == |s| then false
    else ContainsFrom(s, pat, i + 1)
  }

  /** `s.match(pat)` for a pattern without metacharacters. */
  function Contains(s: string, pat: string): bool {
    ContainsFrom(s, pat, 0)
  }

  /** The typed reading of an activation value. */
  datatype Directive = SnoozeMinutes(minutes: nat) | UntilEight | SnoozeHours(hours: nat) | NoDirective

  /** The three tests of `remind`, in their order of priority. */
  function Parse(a: string): (d: Directive)
    ensures d.SnoozeMinutes? <==> exists p: nat, e: nat :: Numbered(a, MinutesSuffix, p, e)
    ensures d.UntilEight? <==>
      (!exists p: nat, e: nat :: Numbered(a, MinutesSuffix, p, e)) && exists j: nat :: OccursAt(a, EightMarker, j)
    ensures d.SnoozeHours? <==>
      && (!exists p: nat, e: nat :: Numbered(a, MinutesSuffix, p, e))
      && (!exists j: nat :: OccursAt(a, EightMarker, j))
      && exists p: nat, e: nat :: Numbered(a, HoursSuffix, p, e)
  {
    match FindFrom(a, MinutesSuffix, 0)
    case Some(n) => SnoozeMinutes(n)
    case None =>
      if Contains(a, EightMarker) then UntilEight
      else
        match FindFrom(a, HoursSuffix, 0)
        case Some(n) => SnoozeHours(n)
        case None => NoDirective
  }

  /** A string that is digits and then `suffix` yields exactly the value of those digits. */
  lemma NumberThenSuffix(n: nat, suffix: string)
    requires NumberedSuffix(suffix)
    ensures FindFrom(Decimal.NatToString(n) + suffix, suffix, 0) == Some(n)
  {
    var digits := Decimal.NatToString(n);
    var s := digits + suffix;
    assert s[0..|digits|] == digits;
    assert s[|digits|..|digits| + |suffix|] == suffix;
    RunEndAt(s, 0, |digits|);
    assert s[0] == digits[0];
    Decimal.ValueOfNatToString(n);
  }

  /** "N分钟后再提醒" asks for a snooze of N minutes. */
  lemma ParseMinutes(n: nat)
    ensures Parse(Decimal.NatToString(n) + MinutesSuffix) == SnoozeMinutes(n)
  {
    NumberThenSuffix(n, MinutesSuffix);
  }

  /** A non-digit character that is not in `suffix` appears nowhere in digits followed by `suffix`. */
  lemma AbsentChar(digits: string, suffix: string, c: char)
    requires Decimal.AllDigits(digits) && !Decimal.IsDigit(c) && c !in suffix
    ensures c !in digits + suffix
  {
    var s := digits + suffix;
    forall k | 0 <= k < |s| ensures s[k] != c {
      if k >= |digits| {
        assert s[k] == suffix[k - |digits|];
      }
    }
  }

  lemma CharOfOccurrence(s: string, pat: string, i: nat, k: nat)
    requires OccursAt(s, pat, i) && k < |pat|
    ensures s[i + k] == pat[k] && s[i + k] in s
  {
    assert s[i..i + |pat|][k] == s[i + k];
  }

  lemma NoMinutesInHours(n: nat)
    ensures FindFrom(Decimal.NatToString(n) + HoursSuffix, MinutesSuffix, 0).None?
  {
    var s := Decimal.NatToString(n) + HoursSuffix;
    assert '分' !in HoursSuffix;
    AbsentChar(Decimal.NatToString(n), HoursSuffix, '分');
    forall p: nat, e: nat | Numbered(s, MinutesSuffix, p, e) ensures false {
      CharOfOccurrence(s, MinutesSuffix, e, 0);
    }
  }

  lemma NoEightInHours(n: nat)
    ensures !Contains(Decimal.NatToString(n) + HoursSuffix, EightMarker)
  {
    var s := Decimal.NatToString(n) + HoursSuffix;
    assert '点' !in HoursSuffix;
    AbsentChar(Decimal.NatToString(n), HoursSuffix, '点');
    forall j: nat | OccursAt(s, EightMarker, j) ensures false {
      CharOfOccurrence(s, EightMarker, j, 1);
    }
  }

  /** "N小时后再提醒" asks for a snooze of N hours: the two earlier tests fail on it. */
  lemma ParseHours(n: nat)
    ensures Parse(Decimal.NatToString(n) + HoursSuffix) == SnoozeHours(n)
  {
    NumberThenSuffix(n, HoursSuffix);
    NoMinutesInHours(n);
    NoEightInHours(n);
  }

  /** A minutes directive wins over an "8点" marker in the same value. */
  lemma MinutesBeforeEight(n: nat)
    ensures Parse(Decimal.NatToString(n) + MinutesSuffix + EightMarker) == SnoozeMinutes(n)
  {
    var digits := Decimal.NatToString(n);
    var s := digits + MinutesSuffix + EightMarker;
    assert s[0..|digits|] == digits;
    assert s[|digits|..|digits| + |MinutesSuffix|] == MinutesSuffix;
    Decimal.ValueOfNatToString(n);
    RunEndAt(s, 0, |digits|);
    assert s[0] == digits[0];
  }
}
