/** Flight-plan text: the printed packet and what reading it back writes into a plan
  * (internal/database/flight_plan_operation.go, internal/utils/cast_utils.go). */
module FlightPlanCodec {
  import opened Wrappers
  import opened Framing
  import opened Packet

  // ---------------------------------------------------------------- decimal integers

  const MIN_INT: int := -0x8000_0000_0000_0000
  const MAX_INT: int := 0x7FFF_FFFF_FFFF_FFFF

  /** Go's 64-bit `int`. */
  type int64 = n: int | MIN_INT <= n <= MAX_INT

  predicate IsDigit(c: char) {
    '0' <= c <= '9'
  }

  function DigitChar(d: nat): char
    requires d < 10
  {
    '0' + d as char
  }

  function Digits(n: nat): string {
    if n < 10 then [DigitChar(n)] else Digits(n / 10) + [DigitChar(n % 10)]
  }

  /** The `%d` verb. */
  function Decimal(n: int): string {
    if n < 0 then "-" + Digits(-n) else Digits(n)
  }

  function DigitsValue(s: string): nat
    requires forall k :: 0 <= k < |s| ==> IsDigit(s[k])
  {
    if s == "" then 0
    else
      assert IsDigit(s[|s| - 1]);
      DigitsValue(s[..|s| - 1]) * 10 + (s[|s| - 1] as int - '0' as int)
  }

  predicate AllDigits(s: string) {
    s != "" && forall k :: 0 <= k < |s| ==> IsDigit(s[k])
  }

  /** `strconv.Atoi`: an optional sign, at least one digit, and a value that fits. */
  function Atoi(s: string): Option<int64> {
    var signed := s != "" && (s[0] == '-' || s[0] == '+');
    var body := if signed then s[1..] else s;
    if !AllDigits(body) then None
    else
      var n: int := if signed && s[0] == '-' then -(DigitsValue(body) as int) else DigitsValue(body);
      if MIN_INT <= n <= MAX_INT then Some(n) else None
  }

  function StrToInt(s: string, defaultValue: int64): int64 {
    match Atoi(s)
    case Some(n) => n
    case None => defaultValue
  }

  lemma {:induction false} DigitsReadBack(n: nat)
    ensures AllDigits(Digits(n)) && DigitsValue(Digits(n)) == n
  {
    if n >= 10 {
      DigitsReadBack(n / 10);
      var s := Digits(n);
      assert s[..|s| - 1] == Digits(n / 10);
    }
  }

  lemma DecimalReadBack(n: int64, defaultValue: int64)
    ensures StrToInt(Decimal(n), defaultValue) == n
  {
    if n < 0 {
      var m: int := n;
      DigitsReadBack(-m);
      assert Decimal(n)[1..] == Digits(-m);
    } else {
      DigitsReadBack(n);
      assert IsDigit(Digits(n)[0]);
    }
  }

  function Zeros(z: nat): string {
    seq(z, _ => '0')
  }

  lemma {:induction false} DigitsCanonical(s: string) returns (z: nat)
    requires AllDigits(s)
    ensures s == Zeros(z) + Digits(DigitsValue(s))
  {
    var front, last := s[..|s| - 1], s[|s| - 1];
    assert s == front + [last];
    if front == "" {
      z := 0;
    } else {
      z := DigitsCanonical(front);
      if DigitsValue(front) == 0 {
        z := z + 1;
        assert front == Zeros(z);
      }
    }
  }

  lemma {:induction false} ZerosIgnored(z: nat, n: nat)
    ensures AllDigits(Zeros(z) + Digits(n)) && DigitsValue(Zeros(z) + Digits(n)) == n
  {
    DigitsReadBack(n);
    var s := Zeros(z) + Digits(n);
    if n >= 10 {
      ZerosIgnored(z, n / 10);
      assert s[..|s| - 1] == Zeros(z) + Digits(n / 10);
    } else {
      assert s[..|s| - 1] == Zeros(z);
      ZerosAreZero(z);
    }
  }

  lemma {:induction false} ZerosAreZero(z: nat)
    ensures DigitsValue(Zeros(z)) == 0
  {
    if z > 0 {
      assert Zeros(z)[..z - 1] == Zeros(z - 1);
      ZerosAreZero(z - 1);
    }
  }

  /** A text that stands for `n`: a sign, which only a negative number must have, any number of leading zeros, and the
    * decimal digits. */
  ghost predicate Spells(s: string, sign: string, z: nat, n: int) {
    && (sign == "-" || ((sign == "" || sign == "+") && n >= 0)) && (sign == "-" ==> n <= 0)
    && s == sign + (Zeros(z) + Digits(if n < 0 then -n else n))
  }

  /** A text is read as `n` exactly when it spells `n`; every other text gives the default. */
  lemma StrToIntExactly(s: string, defaultValue: int64)
    ensures forall n: int64 :: Atoi(s) == Some(n) <==> exists sign, z :: Spells(s, sign, z, n)
    ensures StrToInt(s, defaultValue) == if Atoi(s).Some? then Atoi(s).value else defaultValue
  {
    forall n: int64 | exists sign, z :: Spells(s, sign, z, n) ensures Atoi(s) == Some(n) {
      var sign, z :| Spells(s, sign, z, n);
      SpelledIsRead(s, sign, z, n);
    }
    if Atoi(s).Some? {
      var sign, z := ReadIsSpelled(s);
      assert Spells(s, sign, z, Atoi(s).value);
    }
  }

  lemma AtoiOfParts(sign: string, body: string)
    requires (sign == "" || sign == "+" || sign == "-") && AllDigits(body)
    ensures var n: int := if sign == "-" then -(DigitsValue(body) as int) else DigitsValue(body);
      Atoi(sign + body) == if MIN_INT <= n <= MAX_INT then Some(n) else None
  {
    hide DigitsValue;
    assert IsDigit(body[0]);
    if sign == "" {
      assert sign + body == body;
    } else {
      assert (sign + body)[1..] == body && (sign + body)[0] == sign[0];
    }
  }

  lemma SpelledIsRead(s: string, sign: string, z: nat, n: int64)
    requires Spells(s, sign, z, n)
    ensures Atoi(s) == Some(n)
  {
    hide DigitsValue, Digits, Zeros, AllDigits, Atoi;
    var m: int := n;
    ZerosIgnored(z, if m < 0 then -m else m);
    AtoiOfParts(sign, Zeros(z) + Digits(if m < 0 then -m else m));
  }

  lemma ReadIsSpelled(s: string) returns (sign: string, z: nat)
    requires Atoi(s).Some?
    ensures Spells(s, sign, z, Atoi(s).value)
  {
    hide DigitsValue, Digits, Zeros;
    if s[0] == '-' || s[0] == '+' {
      sign := [s[0]];
      z := DigitsCanonical(s[1..]);
      assert s == sign + s[1..];
    } else {
      sign := "";
      z := DigitsCanonical(s);
      assert s == sign + s;
    }
  }

  lemma DecimalClean(n: int)
    ensures ':' !in Decimal(n) && SignFree(Decimal(n))
  {
    DigitsReadBack(if n < 0 then -n else n);
  }

  // ---------------------------------------------------------------- plans

  datatype Plan = Plan(
    cid: int,
    callsign: string,
    flightType: string,
    aircraftType: string,
    tas: int64,
    departureAirport: string,
    departureTime: int64,
    atcDepartureTime: int64,
    cruiseAltitude: string,
    arrivalAirport: string,
    routeTimeHour: string,
    routeTimeMinute: string,
    fuelTimeHour: string,
    fuelTimeMinute: string,
    alternateAirport: string,
    remarks: string,
    route: string,
    locked: bool,
    fromWeb: bool)

  const PLAN_LENGTH: nat := 17

  /** The plan with the fifteen submitted fields replaced. */
  function WithData(plan: Plan, data: seq<string>): Plan
    requires |data| >= PLAN_LENGTH
  {
    plan.(flightType := data[2], aircraftType := data[3], tas := StrToInt(data[4], 100),
          departureAirport := data[5], departureTime := StrToInt(data[6], 0), atcDepartureTime := StrToInt(data[7], 0),
          cruiseAltitude := data[8], arrivalAirport := data[9],
          routeTimeHour := data[10], routeTimeMinute := data[11], fuelTimeHour := data[12], fuelTimeMinute := data[13],
          alternateAirport := data[14], remarks := data[15], route := data[16])
  }

  /** The arguments of the format string, in its order. */
  function PlanParts(plan: Plan, receiver: string): (parts: seq<string>)
    ensures |parts| == PLAN_LENGTH
  {
    [plan.callsign, receiver, plan.flightType, plan.aircraftType, Decimal(plan.tas),
     plan.departureAirport, Decimal(plan.departureTime), Decimal(plan.atcDepartureTime), plan.cruiseAltitude,
     plan.arrivalAirport, plan.routeTimeHour, plan.routeTimeMinute, plan.fuelTimeHour,
     plan.fuelTimeMinute, plan.alternateAirport, plan.remarks, plan.route]
  }

  /** "$FP", then seventeen colon-separated values, then CRLF. */
  function ToString(plan: Plan, receiver: string): string {
    "$FP" + Join(PlanParts(plan, receiver)) + "\r\n"
  }

  /** Reading the fields of a printed plan into any other plan restores all fifteen. */
  lemma FieldsReadBack(plan: Plan, receiver: string, other: Plan)
    ensures WithData(other, PlanParts(plan, receiver))
         == plan.(cid := other.cid, callsign := other.callsign, locked := other.locked, fromWeb := other.fromWeb)
  {
    DecimalReadBack(plan.tas, 100);
    DecimalReadBack(plan.departureTime, 0);
    DecimalReadBack(plan.atcDepartureTime, 0);
  }

  ghost predicate CleanText(s: string) {
    ':' !in s && SignFree(s)
  }

  /** No text of the packet contains a colon or a CRLF. */
  ghost predicate CleanPlan(plan: Plan, receiver: string) {
    forall k :: 0 <= k < PLAN_LENGTH && k != 4 && k != 6 && k != 7 ==> CleanText(PlanParts(plan, receiver)[k])
  }

  /** The printed plan arrives as one plan packet that carries callsign and receiver first and
    * restores the fifteen plan fields. */
  ghost predicate Restores(plan: Plan, receiver: string, other: Plan) {
    exists data: seq<string> ::
      && Received(ToString(plan, receiver)) == [Parsed("$FP", Some(data))]
      && |data| >= PLAN_LENGTH
      && data[0] == plan.callsign && data[1] == receiver
      && WithData(other, data)
         == plan.(cid := other.cid, callsign := other.callsign, locked := other.locked, fromWeb := other.fromWeb)
  }

  lemma CleanParts(plan: Plan, receiver: string)
    ensures CleanPlan(plan, receiver)
       <==> ColonFree(PlanParts(plan, receiver)) && SignFreeParts(PlanParts(plan, receiver))
  {
    DecimalClean(plan.tas);
    DecimalClean(plan.departureTime);
    DecimalClean(plan.atcDepartureTime);
    var parts := PlanParts(plan, receiver);
    assert parts[4] == Decimal(plan.tas);
    assert parts[6] == Decimal(plan.departureTime) && parts[7] == Decimal(plan.atcDepartureTime);
    hide Decimal, SignFree, PlanParts;
    assert CleanText(parts[4]) && CleanText(parts[6]) && CleanText(parts[7]);
    if CleanPlan(plan, receiver) {
      assert forall k :: 0 <= k < PLAN_LENGTH ==> CleanText(parts[k]);
    } else {
      var k :| 0 <= k < PLAN_LENGTH && !CleanText(parts[k]);
    }
  }

  lemma ReceivedDataClean(stream: string, data: seq<string>)
    requires Received(stream) == [Parsed("$FP", Some(data))]
    ensures ColonFree(data) && SignFreeParts(data)
  {
    OneLine(stream);
    LinesAreSignFree(stream);
    CommandsPrefixFree();
    var line := Lines(stream)[0];
    ParseCharacterised(POSSIBLE_CLIENT_COMMANDS, line, "$FP", data);
    SignFreeLine("$FP", data);
  }

  /** The flight-plan round trip through print, framing, parser and field update holds exactly
    * for plans whose texts contain neither a colon nor a CRLF. */
  lemma PlanRoundTrip(plan: Plan, receiver: string, other: Plan)
    ensures Restores(plan, receiver, other) <==> CleanPlan(plan, receiver)
  {
    var parts := PlanParts(plan, receiver);
    assert "$FP" == POSSIBLE_CLIENT_COMMANDS[6];
    CleanParts(plan, receiver);
    if CleanPlan(plan, receiver) {
      PacketRoundTrip("$FP", parts);
      FieldsReadBack(plan, receiver, other);
      assert Received(ToString(plan, receiver)) == [Parsed("$FP", Some(parts))];
    } else if Restores(plan, receiver, other) {
      var data: seq<string> :|
        && Received(ToString(plan, receiver)) == [Parsed("$FP", Some(data))]
        && |data| >= PLAN_LENGTH
        && data[0] == plan.callsign && data[1] == receiver
        && WithData(other, data)
           == plan.(cid := other.cid, callsign := other.callsign, locked := other.locked, fromWeb := other.fromWeb);
      ReceivedDataClean(ToString(plan, receiver), data);
      SameTexts(plan, receiver, other, data);
      assert false;
    }
  }

  lemma SameTexts(plan: Plan, receiver: string, other: Plan, data: seq<string>)
    requires |data| >= PLAN_LENGTH && data[0] == plan.callsign && data[1] == receiver
    requires WithData(other, data)
          == plan.(cid := other.cid, callsign := other.callsign, locked := other.locked, fromWeb := other.fromWeb)
    requires ColonFree(data) && SignFreeParts(data)
    ensures CleanPlan(plan, receiver)
  {
    hide SignFree, StrToInt, Decimal;
    forall k | 0 <= k < PLAN_LENGTH && k != 4 && k != 6 && k != 7
      ensures CleanText(PlanParts(plan, receiver)[k])
    {
      assert PlanParts(plan, receiver)[k] == data[k];
    }
  }

  /** A controller's edit, applied from its second part on, writes the same plan as a pilot's
    * submission with the same tail: the leading callsigns are ignored. */
  lemma EditWritesLikeSubmission(plan: Plan, edit: seq<string>, submission: seq<string>)
    requires |edit| >= PLAN_LENGTH + 1 && |submission| >= PLAN_LENGTH
    requires edit[3..] == submission[2..]
    ensures WithData(plan, edit[1..]) == WithData(plan, submission)
  {
    hide StrToInt;
    var data := edit[1..];
    assert forall k :: 2 <= k < |data| ==> data[k] == edit[3..][k - 2] == submission[k];
  }
}
