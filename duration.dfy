/** The poll duration token: `<digits><h|m|d>`, converted to milliseconds. */
module Duration {
  import opened Wrappers
  import Strings

  const MinuteMs: nat := 60000
  const HourMs: nat := 3600000
  const DayMs: nat := 86400000

  predicate IsUnit(c: char)
  {
    c == 'h' || c == 'm' || c == 'd'
  }

  /** The fixed multiplier table; a unit outside it multiplies by 0. */
  function Multiplier(unit: char): (ms: nat)
    ensures IsUnit(unit) <==> ms > 0
  {
    match unit
    case 'h' => HourMs
    case 'm' => MinuteMs
    case 'd' => DayMs
    case _ => 0
  }

  /** Whether `s` matches `^(\d+)([hmd])$`. */
  predicate Matches(s: string)
  {
    |s| >= 2 && Strings.AllDigits(s[..|s| - 1]) && IsUnit(s[|s| - 1])
  }

  /**
   * `parseDuration`: the number before the unit times the unit's length in
   * milliseconds, or None (the source's null) for a token that does not match.
   */
  function Parse(s: string): (r: Option<nat>)
    ensures r.Some? <==> Matches(s)
  {
    if !Matches(s) then None
    else Some(Strings.ParseDigits(s[..|s| - 1]) * Multiplier(s[|s| - 1]))
  }

  /** Every count written in decimal, followed by a unit, parses to count times the unit. */
  lemma ParseOfFormatted(n: nat, unit: char)
    requires IsUnit(unit)
    ensures Parse(Strings.NatToString(n) + [unit]) == Some(n * Multiplier(unit))
  {
    var s := Strings.NatToString(n) + [unit];
    assert s[..|s| - 1] == Strings.NatToString(n);
    Strings.ParseNatToString(n);
  }

  /** The three units at the source's scale: an hour, a minute and a day. */
  lemma ParseUnits(n: nat)
    ensures Parse(Strings.NatToString(n) + "h") == Some(n * 3600000)
    ensures Parse(Strings.NatToString(n) + "m") == Some(n * 60000)
    ensures Parse(Strings.NatToString(n) + "d") == Some(n * 86400000)
  {
    ParseOfFormatted(n, 'h');
    ParseOfFormatted(n, 'm');
    ParseOfFormatted(n, 'd');
  }

  /** A token that matches parses to 0 exactly when all of its digits are zeros ("0m", "00h"). */
  lemma {:induction false} ParseZeroIffZeroDigits(s: string)
    requires Matches(s)
    ensures Parse(s) == Some(0) <==> forall i :: 0 <= i < |s| - 1 ==> s[i] == '0'
  {
    ZeroDigits(s[..|s| - 1]);
  }

  lemma {:induction false} ZeroDigits(d: string)
    requires Strings.AllDigits(d)
    ensures Strings.ParseDigits(d) == 0 <==> forall i :: 0 <= i < |d| ==> d[i] == '0'
  {
    if d != [] {
      ZeroDigits(d[..|d| - 1]);
    }
  }

  /** A positive result is at least one minute. */
  lemma PositiveIsAtLeastAMinute(s: string)
    requires Parse(s).Some? && Parse(s).value > 0
    ensures Parse(s).value >= MinuteMs
  {
  }

  lemma RejectedTokens()
    ensures Parse("") == None && Parse("h") == None && Parse("1") == None
    ensures Parse("1H") == None && Parse("1s") == None && Parse("1.5h") == None
    ensures Parse("-1h") == None && Parse(" 1h") == None && Parse("1h ") == None
  {
    assert !Strings.IsDigit('.') && !Strings.IsDigit('-') && !Strings.IsDigit(' ');
    assert "1.5h"[..3][1] == '.';
    assert "-1h"[..2][0] == '-';
    assert " 1h"[..2][0] == ' ';
  }
}
