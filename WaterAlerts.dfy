/** `checkThresholdAndAlert`: the three safety rules applied to the pH,
    turbidity and dissolved-oxygen text of one reading.

    The three fields are parsed inside one `try`, so a field that does not
    parse suppresses every alert of the reading. When all three parse, each
    rule is checked on its own and any number of alerts may fire together. A
    field that reads as NaN fails every comparison and so only silences its
    own rule. */
module WaterAlerts {
  import opened JavaDouble

  datatype Alert = PhOutOfRange | TurbidityHigh | DissolvedOxygenLow

  const PhMin: real := 6.5
  const PhMax: real := 8.5
  const TurbidityMax: real := 5.0
  const OxygenMin: real := 5.0

  /** Java's `d < c` for a parsed double and a finite constant: false for NaN,
      the order of the reals for a finite value, and never together with
      `d > c`. */
  predicate Below(d: ParsedDouble, c: real): (r: bool)
    ensures d.NaN? ==> !r
    ensures d.Num? ==> (r <==> d.value < c)
    ensures d.Infinite? ==> (r <==> d.negative)
    ensures r ==> !Above(d, c)
  {
    match d
    case Num(v) => v < c
    case Infinite(negative) => negative
    case _ => false
  }

  /** Java's `d > c` for a parsed double and a finite constant: false for NaN,
      the order of the reals for a finite value, true for positive infinity
      and false for negative infinity. */
  predicate Above(d: ParsedDouble, c: real): (r: bool)
    ensures d.NaN? ==> !r
    ensures d.Num? ==> (r <==> d.value > c)
    ensures d.Infinite? ==> (r <==> !d.negative)
  {
    match d
    case Num(v) => v > c
    case Infinite(negative) => !negative
    case _ => false
  }

  /** The alerts raised for three already parsed fields. */
  function AlertsFor(ph: ParsedDouble, turbidity: ParsedDouble, o2: ParsedDouble): (alerts: set<Alert>)
    ensures ph.ParseFail? || turbidity.ParseFail? || o2.ParseFail? ==> alerts == {}
    ensures !ph.ParseFail? && !turbidity.ParseFail? && !o2.ParseFail? ==>
      (PhOutOfRange in alerts <==> Below(ph, PhMin) || Above(ph, PhMax)) &&
      (TurbidityHigh in alerts <==> Above(turbidity, TurbidityMax)) &&
      (DissolvedOxygenLow in alerts <==> Below(o2, OxygenMin))
  {
    if ph.ParseFail? || turbidity.ParseFail? || o2.ParseFail? then {}
    else
      (if Below(ph, PhMin) || Above(ph, PhMax) then {PhOutOfRange} else {}) +
      (if Above(turbidity, TurbidityMax) then {TurbidityHigh} else {}) +
      (if Below(o2, OxygenMin) then {DissolvedOxygenLow} else {})
  }

  /** `checkThresholdAndAlert(phStr, turbidityStr, o2Str)`: the alerts whose
      warnings it shows. A text that throws on parsing silences all three;
      otherwise each alert is raised exactly when its own comparison holds. */
  function CheckThresholdAndAlert(phStr: string, turbidityStr: string, o2Str: string): (alerts: set<Alert>)
    ensures var ph, t, o := ParseDouble(phStr), ParseDouble(turbidityStr), ParseDouble(o2Str);
      ph.ParseFail? || t.ParseFail? || o.ParseFail? ==> alerts == {}
    ensures var ph, t, o := ParseDouble(phStr), ParseDouble(turbidityStr), ParseDouble(o2Str);
      !ph.ParseFail? && !t.ParseFail? && !o.ParseFail? ==>
        (PhOutOfRange in alerts <==> Below(ph, PhMin) || Above(ph, PhMax)) &&
        (TurbidityHigh in alerts <==> Above(t, TurbidityMax)) &&
        (DissolvedOxygenLow in alerts <==> Below(o, OxygenMin))
  {
    AlertsFor(ParseDouble(phStr), ParseDouble(turbidityStr), ParseDouble(o2Str))
  }

  /** With three finite readings, each alert fires exactly when its own value
      is outside its safe range, whatever the other two values are. */
  lemma AlertsForReadings(phStr: string, turbidityStr: string, o2Str: string, ph: real, turbidity: real, o2: real)
    requires ParseDouble(phStr) == Num(ph)
    requires ParseDouble(turbidityStr) == Num(turbidity)
    requires ParseDouble(o2Str) == Num(o2)
    ensures var alerts := CheckThresholdAndAlert(phStr, turbidityStr, o2Str);
      (PhOutOfRange in alerts <==> ph < 6.5 || ph > 8.5) &&
      (TurbidityHigh in alerts <==> turbidity > 5.0) &&
      (DissolvedOxygenLow in alerts <==> o2 < 5.0)
  {
  }

  /** A field that does not parse silences all three rules. */
  lemma ParseFailureSilencesAll(phStr: string, turbidityStr: string, o2Str: string)
    requires ParseDouble(phStr).ParseFail? || ParseDouble(turbidityStr).ParseFail? || ParseDouble(o2Str).ParseFail?
    ensures CheckThresholdAndAlert(phStr, turbidityStr, o2Str) == {}
  {
  }

  /** A pH field that reads as NaN (such as "NaN") silences only the pH rule;
      the other two are still checked. */
  lemma NaNPhSilencesOnlyPh(phStr: string, turbidityStr: string, o2Str: string)
    requires ParseDouble(phStr).NaN?
    ensures var alerts := CheckThresholdAndAlert(phStr, turbidityStr, o2Str);
      PhOutOfRange !in alerts &&
      (!ParseDouble(turbidityStr).ParseFail? && !ParseDouble(o2Str).ParseFail? ==>
        (TurbidityHigh in alerts <==> Above(ParseDouble(turbidityStr), TurbidityMax)) &&
        (DissolvedOxygenLow in alerts <==> Below(ParseDouble(o2Str), OxygenMin)))
  {
  }

  /** The text `NaN` in the pH column never raises the pH alert, and turbidity
      and oxygen are still checked. */
  lemma NaNTextInPhColumn(phStr: string, turbidityStr: string, o2Str: string)
    requires phStr == "NaN"
    ensures var alerts := CheckThresholdAndAlert(phStr, turbidityStr, o2Str);
      PhOutOfRange !in alerts &&
      (!ParseDouble(turbidityStr).ParseFail? && !ParseDouble(o2Str).ParseFail? ==>
        (TurbidityHigh in alerts <==> Above(ParseDouble(turbidityStr), TurbidityMax)) &&
        (DissolvedOxygenLow in alerts <==> Below(ParseDouble(o2Str), OxygenMin)))
  {
    ParseNaN();
    NaNPhSilencesOnlyPh(phStr, turbidityStr, o2Str);
  }

  /** Any field that reads as NaN silences its own rule and no other. */
  lemma NaNSilencesOnlyItsRule(ph: ParsedDouble, turbidity: ParsedDouble, o2: ParsedDouble)
    requires !ph.ParseFail? && !turbidity.ParseFail? && !o2.ParseFail?
    ensures ph.NaN? ==> PhOutOfRange !in AlertsFor(ph, turbidity, o2)
    ensures turbidity.NaN? ==> TurbidityHigh !in AlertsFor(ph, turbidity, o2)
    ensures o2.NaN? ==> DissolvedOxygenLow !in AlertsFor(ph, turbidity, o2)
    ensures AlertsFor(ph, turbidity, o2) - {PhOutOfRange} == AlertsFor(NaN, turbidity, o2)
    ensures AlertsFor(ph, turbidity, o2) - {TurbidityHigh} == AlertsFor(ph, NaN, o2)
    ensures AlertsFor(ph, turbidity, o2) - {DissolvedOxygenLow} == AlertsFor(ph, turbidity, NaN)
  {
  }

  /** pH 7.0, turbidity 2 and oxygen 6.0 raise nothing; pH 9.0 with the same
      turbidity and oxygen raises only the pH alert; pH 7.0, turbidity 6 and
      oxygen 3 raise the turbidity and oxygen alerts. */
  lemma AlertScenarios()
    ensures AlertsFor(Num(7.0), Num(2.0), Num(6.0)) == {}
    ensures AlertsFor(Num(9.0), Num(2.0), Num(6.0)) == {PhOutOfRange}
    ensures AlertsFor(Num(7.0), Num(6.0), Num(3.0)) == {TurbidityHigh, DissolvedOxygenLow}
  {
  }

  /** The warning text shown for an alert. */
  function Message(a: Alert): string
  {
    match a
    case PhOutOfRange => "Warning: pH out of range!"
    case TurbidityHigh => "Warning: Turbidity high!"
    case DissolvedOxygenLow => "Warning: Dissolved Oxygen is low!"
  }

  /** The toasts shown, in the order the checks run: pH, turbidity, oxygen.
      There is one text per raised alert and no other text. */
  function Toasts(alerts: set<Alert>): (msgs: seq<string>)
    ensures forall a :: a in alerts <==> Message(a) in msgs
    ensures forall i, j :: 0 <= i < j < |msgs| ==> msgs[i] != msgs[j]
    ensures |msgs| == |alerts|
    ensures PhOutOfRange in alerts ==> 0 < |msgs| && msgs[0] == Message(PhOutOfRange)
    ensures TurbidityHigh in alerts ==> var k := if PhOutOfRange in alerts then 1 else 0;
      k < |msgs| && msgs[k] == Message(TurbidityHigh)
    ensures DissolvedOxygenLow in alerts ==> 0 < |msgs| && msgs[|msgs| - 1] == Message(DissolvedOxygenLow)
  {
    AlertCount(alerts);
    (if PhOutOfRange in alerts then [Message(PhOutOfRange)] else []) +
    (if TurbidityHigh in alerts then [Message(TurbidityHigh)] else []) +
    (if DissolvedOxygenLow in alerts then [Message(DissolvedOxygenLow)] else [])
  }

  /** A set of alerts has one element per alert it holds. */
  lemma AlertCount(alerts: set<Alert>)
    ensures |alerts| == (if PhOutOfRange in alerts then 1 else 0) +
      (if TurbidityHigh in alerts then 1 else 0) + (if DissolvedOxygenLow in alerts then 1 else 0)
  {
    var p := if PhOutOfRange in alerts then {PhOutOfRange} else {};
    var t := if TurbidityHigh in alerts then {TurbidityHigh} else {};
    var o := if DissolvedOxygenLow in alerts then {DissolvedOxygenLow} else {};
    forall a | a in alerts ensures a in p + t + o {
      match a
      case PhOutOfRange =>
      case TurbidityHigh =>
      case DissolvedOxygenLow =>
    }
    assert alerts == p + t + o;
    assert |p + t| == |p| + |t|;
  }
}
