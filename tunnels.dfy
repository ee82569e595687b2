/**
 * One row of the tunnel supply table, the hourly consumption rule applied to
 * it and the status text a row renders to.
 */
module Tunnels {
  import opened Wrappers
  import opened JsValues
  import Strings

  /**
   * `{hourRate, currentAmount}` as stored in `tunnels.json`. Both start as
   * strings; the hourly update writes numbers and the amount command may
   * write `null` (a `NaN` serialised).
   */
  datatype Tunnel = Tunnel(hourRate: Value, currentAmount: Value)

  /** The row the add command inserts. */
  function NewTunnel(hourRate: string): Tunnel
  {
    Tunnel(Str(hourRate), Str("0"))
  }

  /**
   * `parseInt(field)` as the hourly update calls it, with no radix. A number
   * field is read back as itself, which `ParseFieldIsParseInt` justifies.
   */
  function ParseField(v: Value): Option<int>
  {
    match v
    case Num(n) => Some(n)
    case Str(s) => ParseInt(s, true)
    case Null => None
  }

  /** `ParseField` is `parseInt` of the field's string form. */
  lemma ParseFieldIsParseInt(v: Value)
    ensures ParseField(v) == ParseInt(ToJsString(v), true)
  {
    match v
    case Num(n) => ParseIntOfIntToString(n, true);
    case Str(s) =>
    case Null => assert IsJsSpace('n') == false;
  }

  function Max0(x: int): (m: nat)
    ensures m == x || (m == 0 && x < 0)
  {
    if x < 0 then 0 else x
  }

  /**
   * One hour of consumption: when both fields parse, the amount becomes
   * `Math.max(0, amount - rate)`; otherwise the row is left as it is.
   */
  function Deplete(t: Tunnel): Tunnel
  {
    var rate, amount := ParseField(t.hourRate), ParseField(t.currentAmount);
    if rate.Some? && amount.Some? then t.(currentAmount := Num(Max0(amount.value - rate.value))) else t
  }

  /**
   * What one update does to a row: the rate never changes; unusable data
   * leaves the row as it is; otherwise the amount becomes a number that is
   * the old amount less the rate, or 0 when the rate exceeds the amount.
   */
  lemma DepleteRule(t: Tunnel)
    ensures Deplete(t).hourRate == t.hourRate
    ensures ParseField(t.hourRate).None? || ParseField(t.currentAmount).None? ==> Deplete(t) == t
    ensures ParseField(t.hourRate).Some? && ParseField(t.currentAmount).Some? ==>
      var rate, amount := ParseField(t.hourRate).value, ParseField(t.currentAmount).value;
      && Deplete(t).currentAmount.Num?
      && Deplete(t).currentAmount.n >= 0
      && (amount >= rate ==> Deplete(t).currentAmount.n == amount - rate)
      && (amount < rate ==> Deplete(t).currentAmount.n == 0)
  {
  }

  /** `k` hourly updates in a row. */
  function DepleteHours(t: Tunnel, k: nat): Tunnel
    decreases k
  {
    if k == 0 then t else DepleteHours(Deplete(t), k - 1)
  }

  /** A row whose amount is already a number loses one rate's worth, clamped at zero. */
  lemma DepleteNumber(t: Tunnel, amount: int)
    requires ParseField(t.hourRate).Some? && t.currentAmount == Num(amount)
    ensures Deplete(t) == t.(currentAmount := Num(Max0(amount - ParseField(t.hourRate).value)))
  {
  }

  lemma ClampTwice(amount: int, rate: int, rest: int)
    requires rate >= 0 && rest >= 0
    ensures Max0(Max0(amount - rate) - rest) == Max0(amount - (rate + rest))
  {
  }

  /** What `k` hours consume at `rate`, summed hour by hour. */
  function Consumed(k: nat, rate: int): int
  {
    if k == 0 then 0 else Consumed(k - 1, rate) + rate
  }

  lemma ConsumedFront(k: nat, rate: int)
    requires k >= 1 && rate >= 0
    ensures Consumed(k, rate) == rate + Consumed(k - 1, rate)
    ensures Consumed(k - 1, rate) >= 0
  {
    ConsumedIsProduct(k - 1, rate);
  }

  lemma {:induction false} ConsumedIsProduct(k: nat, rate: int)
    ensures Consumed(k, rate) == k * rate
  {
    if k > 0 {
      ConsumedIsProduct(k - 1, rate);
      assert k * rate == (k - 1) * rate + rate;
    }
  }

  lemma ClampChain(amount: int, rate: int, k: nat)
    requires rate >= 0 && k >= 1
    ensures Max0(Max0(amount - rate) - Consumed(k - 1, rate)) == Max0(amount - Consumed(k, rate))
  {
    ConsumedFront(k, rate);
    ClampTwice(amount, rate, Consumed(k - 1, rate));
  }

  /** The first of `k` hours, on a row whose amount is a number. */
  lemma DepleteHoursStep(t: Tunnel, k: nat, rate: int, amount: int)
    requires ParseField(t.hourRate) == Some(rate) && t.currentAmount == Num(amount) && k >= 1
    ensures DepleteHours(t, k) == DepleteHours(t.(currentAmount := Num(Max0(amount - rate))), k - 1)
  {
    DepleteNumber(t, amount);
  }

  /** The hours after the first, once the amount is a number that is not negative. */
  lemma {:induction false} DepleteHoursFromNumber(t: Tunnel, k: nat, rate: int, amount: int)
    requires ParseField(t.hourRate) == Some(rate) && t.currentAmount == Num(amount)
    requires rate >= 0 && amount >= 0
    ensures DepleteHours(t, k) == t.(currentAmount := Num(Max0(amount - Consumed(k, rate))))
    decreases k
  {
    if k > 0 {
      var next := t.(currentAmount := Num(Max0(amount - rate)));
      DepleteHoursStep(t, k, rate, amount);
      DepleteHoursFromNumber(next, k - 1, rate, Max0(amount - rate));
      ClampChain(amount, rate, k);
    }
  }

  /**
   * With usable data and a rate that is not negative, `k` hourly updates
   * consume `k` times the rate, never going below zero, and touch nothing else.
   */
  lemma DepleteHoursAmount(t: Tunnel, k: nat, rate: int, amount: int)
    requires ParseField(t.hourRate) == Some(rate) && ParseField(t.currentAmount) == Some(amount)
    requires rate >= 0 && k >= 1
    ensures DepleteHours(t, k) == t.(currentAmount := Num(Max0(amount - k * rate)))
  {
    var next := t.(currentAmount := Num(Max0(amount - rate)));
    assert DepleteHours(t, k) == DepleteHours(next, k - 1);
    DepleteHoursFromNumber(next, k - 1, rate, Max0(amount - rate));
    ClampChain(amount, rate, k);
    ConsumedIsProduct(k, rate);
  }

  // --------------------------------------------------------------- status

  const OutOfSupplyText: string := "Tunnel is out of Msupps or has not been set up yet."

  /** `!currentAmount || !hourRate || hourRate <= 0`. */
  predicate OutOfSupply(t: Tunnel)
  {
    !Truthy(t.currentAmount) || !Truthy(t.hourRate) || LessEqZero(t.hourRate)
  }

  /** The field value of one row; `depletes` is the clock-dependent Discord timestamp. */
  function StatusText(t: Tunnel, depletes: string): (text: string)
    ensures OutOfSupply(t) ==> text == OutOfSupplyText
    ensures !OutOfSupply(t) ==> Strings.StartsWith(text, ShownAmount(t) + ShownRate(t))
  {
    if OutOfSupply(t) then OutOfSupplyText
    else
      var head := ShownAmount(t) + ShownRate(t);
      var text := head + "Supplies deplete: " + depletes;
      assert text[..|head|] == head;
      text
  }

  /** The first line of a row in supply: its own amount. */
  function ShownAmount(t: Tunnel): string
  {
    "Current Amount: **" + ToJsString(t.currentAmount) + "**\n"
  }

  /** The second line of a row in supply: its own rate. */
  function ShownRate(t: Tunnel): string
  {
    "Hourly Rate: **" + ToJsString(t.hourRate) + "**\n"
  }

  /**
   * A tunnel added with a positive whole rate is not reported empty: its
   * amount is the non-empty string "0", which is truthy, so the status shows
   * "Current Amount: **0**" rather than the "not set up yet" text.
   */
  lemma NewTunnelShowsAmount(rate: int, depletes: string)
    requires rate > 0
    ensures !OutOfSupply(NewTunnel(Strings.IntToString(rate)))
    ensures Strings.StartsWith(StatusText(NewTunnel(Strings.IntToString(rate)), depletes),
                               "Current Amount: **0**\nHourly Rate: **" + Strings.IntToString(rate) + "**\n")
  {
    LessEqZeroOfDecimal(rate);
    var t := NewTunnel(Strings.IntToString(rate));
    assert ShownAmount(t) + ShownRate(t) == "Current Amount: **0**\nHourly Rate: **" + Strings.IntToString(rate) + "**\n";
  }

  /** After the first hourly update a new tunnel holds the number 0 and is reported out of supply. */
  lemma NewTunnelOutAfterAnHour(rate: int)
    requires rate >= 0
    ensures Deplete(NewTunnel(Strings.IntToString(rate))).currentAmount == Num(0)
    ensures OutOfSupply(Deplete(NewTunnel(Strings.IntToString(rate))))
  {
    ParseIntOfIntToString(rate, true);
    ParseIntOfIntToString(0, true);
  }

  /** Once enough hours have passed to consume the whole amount, the row is reported out of supply. */
  lemma ExhaustedIsOutOfSupply(t: Tunnel, k: nat, rate: int, amount: int)
    requires ParseField(t.hourRate) == Some(rate) && ParseField(t.currentAmount) == Some(amount)
    requires rate >= 0 && k >= 1 && k * rate >= amount
    ensures OutOfSupply(DepleteHours(t, k))
  {
    DepleteHoursAmount(t, k, rate, amount);
  }

  /** `!hourRate || hourRate <= 0`: the rate the amount command refuses. */
  predicate RateUnusable(v: Value)
  {
    !Truthy(v) || LessEqZero(v)
  }

  /** A whole rate, written as the decimal string the commands store, is refused exactly when it is not positive. */
  lemma DecimalRateUnusable(rate: int)
    ensures RateUnusable(Str(Strings.IntToString(rate))) <==> rate <= 0
  {
    LessEqZeroOfDecimal(rate);
  }

  /** `parseInt(input, 10)`: a `NaN` reaches the file as `null`. */
  function AmountValue(input: string): (v: Value)
    ensures v.Num? || v.Null?
  {
    var parsed := ParseInt(input, false);
    if parsed.Some? then Num(parsed.value) else Null
  }

  /** The amount command stores a whole number it is given as that number. */
  lemma AmountValueOfDecimal(n: int)
    ensures AmountValue(Strings.IntToString(n)) == Num(n)
  {
    ParseIntOfIntToString(n, false);
  }
}
