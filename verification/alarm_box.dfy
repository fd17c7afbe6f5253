/**
  The alarm table: one header row, then one six-column row per alarm of the client's
  alarm list. Alarm fields are JavaScript values, shown through the two helpers that
  turn a possibly missing value into text.
*/
module AlarmBox {

  /** The JavaScript values an alarm field can hold (numbers are integers here). */
  datatype JsValue = Undefined | Null | Bool(b: bool) | Num(n: int) | Str(s: string)

  predicate Truthy(v: JsValue)
  {
    match v
    case Undefined => false
    case Null => false
    case Bool(b) => b
    case Num(n) => n != 0
    case Str(s) => s != ""
  }

  predicate Nullish(v: JsValue)
  {
    v.Undefined? || v.Null?
  }

  // ---------------------------------------------------------------------------
  // Numbers as text
  // ---------------------------------------------------------------------------

  function DigitChar(d: nat): char
    requires d < 10
  {
    "0123456789"[d]
  }

  function DigitValue(c: char): nat
  {
    if '0' <= c <= '9' then (c as int - '0' as int) as nat else 0
  }

  /** The decimal digits of `n`, most significant first, without leading zeros. */
  function Digits(n: nat): (r: string)
    ensures |r| >= 1
    ensures forall k :: 0 <= k < |r| ==> '0' <= r[k] <= '9'
    ensures n > 0 ==> r[0] != '0'
  {
    if n < 10 then [DigitChar(n)] else Digits(n / 10) + [DigitChar(n % 10)]
  }

  /** Reads a string of decimal digits back as a number. */
  function DecimalValue(s: string): nat
  {
    if |s| == 0 then 0 else DecimalValue(s[..|s| - 1]) * 10 + DigitValue(s[|s| - 1])
  }

  /** Reading the digits back gives the number. */
  lemma {:induction false} DigitsRoundTrip(n: nat)
    ensures DecimalValue(Digits(n)) == n
  {
    if n < 10 {
      assert Digits(n)[..0] == [];
    } else {
      var r := Digits(n);
      DigitsRoundTrip(n / 10);
      assert r[..|r| - 1] == Digits(n / 10);
    }
  }

  /** `String(v)`, which is what `+` and `toString` produce. */
  function JsString(v: JsValue): string
  {
    match v
    case Undefined => "undefined"
    case Null => "null"
    case Bool(b) => if b then "true" else "false"
    case Num(n) => if n < 0 then "-" + Digits(-n) else Digits(n)
    case Str(s) => s
  }

  // ---------------------------------------------------------------------------
  // The three helpers
  // ---------------------------------------------------------------------------

  /** `ellipsys(a)`: nothing for a falsy value, otherwise its text. */
  function Ellipsys(v: JsValue): (r: string)
    ensures !Truthy(v) ==> r == ""
    ensures Truthy(v) ==> r == JsString(v) && r != ""
  {
    if !Truthy(v) then "" else JsString(v)
  }

  /** `n(a)`: nothing for null or undefined, otherwise its text. */
  function N(v: JsValue): (r: string)
    ensures Nullish(v) ==> r == ""
    ensures !Nullish(v) ==> r == JsString(v)
  {
    if Nullish(v) then "" else JsString(v)
  }

  /**
    The two helpers disagree exactly on the falsy values that have text of their own:
    `false` and `0`.
  */
  lemma EllipsysAgainstN(v: JsValue)
    ensures Ellipsys(v) != N(v) <==> v == Bool(false) || v == Num(0)
  {
    if v == Num(0) {
      assert N(v) == Digits(0) == "0";
    }
  }

  /** `f(flag)`: one character, "X" for a set flag and "_" otherwise. */
  function F(flag: bool): (r: string)
    ensures |r| == 1
    ensures r == "X" <==> flag
    ensures r == "_" <==> !flag
  {
    if flag then "X" else "_"
  }

  // ---------------------------------------------------------------------------
  // The rows
  // ---------------------------------------------------------------------------

  /** The fields of an alarm the row reads. */
  datatype Alarm = Alarm(
    eventType: string,
    conditionId: string,
    enabled: JsValue,
    message: JsValue,
    severity: JsValue,
    lastSeverity: JsValue,
    active: JsValue,
    acked: JsValue,
    confirmed: JsValue,
    comment: JsValue)

  const Disabled: string := "-"

  /** Enabled, then active, acked and confirmed, or "-" for each of those when disabled. */
  function StateColumn(a: Alarm): (r: string)
    ensures |r| == 4
    ensures !Truthy(a.enabled) ==> r == "_---"
    ensures Truthy(a.enabled) ==> r[0] == 'X'
  {
    var en := Truthy(a.enabled);
    F(en)
      + (if en then F(Truthy(a.active)) else Disabled)
      + (if en then F(Truthy(a.acked)) else Disabled)
      + (if en then F(Truthy(a.confirmed)) else Disabled)
  }

  /** Reads the state column back: the three flags of an enabled alarm, nothing for a disabled one. */
  function ReadState(col: string): (r: StateFlags)
  {
    if |col| == 4 && col[0] == 'X' then Flags(col[1] == 'X', col[2] == 'X', col[3] == 'X') else NoFlags
  }

  datatype StateFlags = NoFlags | Flags(active: bool, acked: bool, confirmed: bool)

  /** The state column shows exactly the flags of an enabled alarm, and nothing of a disabled one. */
  lemma StateColumnRoundTrip(a: Alarm)
    ensures ReadState(StateColumn(a)) ==
      if Truthy(a.enabled) then Flags(Truthy(a.active), Truthy(a.acked), Truthy(a.confirmed)) else NoFlags
  {
    var en := Truthy(a.enabled);
    var c := StateColumn(a);
    if en {
      assert c == "X" + F(Truthy(a.active)) + F(Truthy(a.acked)) + F(Truthy(a.confirmed));
      assert c[1] == F(Truthy(a.active))[0];
      assert c[2] == F(Truthy(a.acked))[0];
      assert c[3] == F(Truthy(a.confirmed))[0];
    }
  }

  /** One row of the table: event type, condition, message, severity, state, comment. */
  function AlarmRow(a: Alarm): (r: seq<string>)
    ensures |r| == 6
    ensures r[0] == a.eventType && r[1] == a.conditionId && r[4] == StateColumn(a)
    ensures !Truthy(a.enabled) ==> r[2] == Disabled && r[3] == Disabled && r[5] == Disabled
    ensures Truthy(a.enabled) ==> r[2] == Ellipsys(a.message) && r[5] == Ellipsys(a.comment)
    ensures Truthy(a.enabled) ==>
      r[3] == JsString(a.severity) + " (" + JsString(a.lastSeverity) + ")"
  {
    var en := Truthy(a.enabled);
    [ a.eventType,
      a.conditionId,
      if en then Ellipsys(a.message) else Disabled,
      if en then JsString(a.severity) + " (" + JsString(a.lastSeverity) + ")" else Disabled,
      StateColumn(a),
      if en then Ellipsys(a.comment) else Disabled ]
  }

  /** `updateAlarmBox`: the header row, then one row per alarm in the list's order. */
  method AlarmTable(alarms: seq<Alarm>, headers: seq<string>) returns (data: seq<seq<string>>)
    ensures |data| == |alarms| + 1
    ensures data[0] == headers
    ensures forall k :: 0 <= k < |alarms| ==> data[k + 1] == AlarmRow(alarms[k])
  {
    data := [headers];
    var i := 0;
    while i < |alarms|
      invariant 0 <= i <= |alarms|
      invariant |data| == i + 1 && data[0] == headers
      invariant forall k :: 0 <= k < i ==> data[k + 1] == AlarmRow(alarms[k])
    {
      data := data + [AlarmRow(alarms[i])];
      i := i + 1;
    }
  }

  /** Every row after the header has the six columns and a four-character state. */
  lemma AlarmRowsAreRegular(alarms: seq<Alarm>, data: seq<seq<string>>)
    requires |data| == |alarms| + 1
    requires forall k :: 0 <= k < |alarms| ==> data[k + 1] == AlarmRow(alarms[k])
    ensures forall j :: 1 <= j < |data| ==> |data[j]| == 6 && |data[j][4]| == 4
  {
    forall j | 1 <= j < |data|
      ensures |data[j]| == 6 && |data[j][4]| == 4
    {
      assert data[(j - 1) + 1] == AlarmRow(alarms[j - 1]);
    }
  }
}
