/** The telemetry snapshot the serial callback keeps in React state, and the
    tag `switch` that updates it from one chunk's token list. */
module TelemetryState {
  import opened Wrappers
  import opened Text
  import opened Numerals
  import opened JsInt32

  /** A JavaScript number held in a state slot; `None` is `undefined`, what
      reading past the end of the token array stores. */
  type JsNum = Option<nat>

  datatype Telemetry = Telemetry(
    speed: JsNum,
    temp: JsNum,
    sumVoltage: JsNum,
    soc: JsNum,
    distanceCovered: int,
    distanceCoveredPrevious: int,
    range: int,
    faults: seq<JsNum>,
    chargeStatus: JsNum,
    dataLength: nat,
    firstByte: JsNum,
    receivedData: Option<string>)

  /** The state before any chunk arrives: numbers start at 0, the fault list
      empty, the received text undefined. */
  const Initial := Telemetry(Some(0), Some(0), Some(0), Some(0), 0, 0, 0, [], Some(0), 0, Some(0), None)

  /** The typed fields the tags write. */
  datatype Field =
    | Speed | Temp | SumVoltage | Soc
    | DistanceCovered | DistanceCoveredPrevious | Range
    | Faults | ChargeStatus

  /** The protocol's tag table: which typed field each tag owns. */
  function Owner(tag: nat): Option<Field> {
    match tag
    case 0 => Some(Speed)
    case 1 => Some(Temp)
    case 2 => Some(SumVoltage)
    case 3 => Some(Soc)
    case 4 => Some(DistanceCovered)
    case 5 => Some(DistanceCoveredPrevious)
    case 6 => Some(Range)
    case 7 => Some(Faults)
    case 8 => Some(ChargeStatus)
    case _ => None
  }

  /** The field a token list's tag owns; none for an empty list. */
  function TagOwner(t: seq<nat>): Option<Field> {
    if |t| == 0 then None else Owner(t[0])
  }

  /** `a` and `b` hold the same value in field `f`. */
  predicate Agree(a: Telemetry, b: Telemetry, f: Field) {
    match f
    case Speed => a.speed == b.speed
    case Temp => a.temp == b.temp
    case SumVoltage => a.sumVoltage == b.sumVoltage
    case Soc => a.soc == b.soc
    case DistanceCovered => a.distanceCovered == b.distanceCovered
    case DistanceCoveredPrevious => a.distanceCoveredPrevious == b.distanceCoveredPrevious
    case Range => a.range == b.range
    case Faults => a.faults == b.faults
    case ChargeStatus => a.chargeStatus == b.chargeStatus
  }

  /** Every typed field other than `changed` is the same in `a` and `b`. */
  predicate SameExcept(a: Telemetry, b: Telemetry, changed: Option<Field>) {
    forall f: Field :: changed != Some(f) ==> Agree(a, b, f)
  }

  /** `t[i]`, or `undefined` past the end. */
  function At(t: seq<nat>, i: nat): (v: JsNum)
    ensures v.Some? <==> i < |t|
    ensures i < |t| ==> v.value == t[i]
  {
    if i < |t| then Some(t[i]) else None
  }

  /** The decimal spellings of the tokens. */
  function Decimals(t: seq<nat>): (ds: seq<string>)
    ensures |ds| == |t|
    ensures forall i :: 0 <= i < |t| ==> IsDecText(ds[i]) && DecimalVal(ds[i]) == t[i]
  {
    seq(|t|, i requires 0 <= i < |t| => Decimal(t[i]))
  }

  /** `t.join(",")`: the decimal tokens separated by commas. Every token has
      at least one digit, so the text is empty exactly when there are no
      tokens, and it starts with the first token's digits. */
  function ReceivedText(t: seq<nat>): (r: string)
    ensures r == "" <==> |t| == 0
    ensures |t| > 0 ==> Decimal(t[0]) <= r
  {
    Join(Decimals(t), ",")
  }

  /** The tag `switch`: one typed field is set from the payload; an empty
      list or an unknown tag leaves the typed fields alone. The diagnostics are
      not the switch's business. */
  function Dispatch(t: seq<nat>, st: Telemetry): (r: Telemetry)
    ensures SameExcept(r, st, TagOwner(t))
    ensures r.firstByte == st.firstByte && r.dataLength == st.dataLength
    ensures r.receivedData == st.receivedData
  {
    if |t| == 0 then st
    else
      match t[0]
      case 0 => st.(speed := At(t, 1))
      case 1 => st.(temp := At(t, 1))
      case 2 => st.(sumVoltage := At(t, 1))
      case 3 => st.(soc := At(t, 1))
      case 4 => st.(distanceCovered := ShlOr(At(t, 1), At(t, 2)))
      case 5 => st.(distanceCoveredPrevious := ShlOr(At(t, 1), At(t, 2)))
      case 6 => st.(range := ShlOr(At(t, 1), At(t, 2)))
      case 7 => st.(faults := [At(t, 1), At(t, 2), At(t, 3), At(t, 4), At(t, 5)])
      case 8 => st.(chargeStatus := At(t, 1))
      case _ => st
  }

  /** Everything one chunk's token list does to the state: the tag switch, then
      the diagnostics `firstByte`, `dataLength` and the joined text. */
  function Apply(t: seq<nat>, st: Telemetry): (r: Telemetry)
    ensures r.firstByte.Some? <==> |t| > 0
    ensures |t| > 0 ==> r.firstByte.value == t[0]
    ensures r.dataLength == |t|
    ensures r.receivedData == Some(ReceivedText(t))
  {
    Dispatch(t, st).(firstByte := At(t, 0), dataLength := |t|, receivedData := Some(ReceivedText(t)))
  }

  /** Frame condition: only the field the tag owns may change; an empty list
      or a tag outside 0..8 changes no typed field. */
  lemma ApplyTouchesOnlyOwner(t: seq<nat>, st: Telemetry)
    ensures SameExcept(Apply(t, st), st, TagOwner(t))
    ensures (|t| == 0 || t[0] > 8) ==> SameExcept(Apply(t, st), st, None)
  {
    var r := Apply(t, st);
    assert Dispatch(t, st) == r.(firstByte := Dispatch(t, st).firstByte,
      dataLength := Dispatch(t, st).dataLength, receivedData := Dispatch(t, st).receivedData);
  }

  /** Tags 0, 1, 2, 3 and 8 store the payload byte, or `undefined` when the
      list stops at the tag. */
  lemma ApplySingleByte(t: seq<nat>, st: Telemetry)
    requires |t| >= 1 && (t[0] <= 3 || t[0] == 8)
    ensures var r := Apply(t, st);
      var v := if |t| >= 2 then Some(t[1]) else None;
      && (t[0] == 0 ==> r.speed == v)
      && (t[0] == 1 ==> r.temp == v)
      && (t[0] == 2 ==> r.sumVoltage == v)
      && (t[0] == 3 ==> r.soc == v)
      && (t[0] == 8 ==> r.chargeStatus == v)
  {
  }

  /** Tags 4, 5 and 6 store the big-endian 16-bit value of two byte-sized
      payload tokens, which lies in 0..65535. */
  lemma ApplyWord(t: seq<nat>, st: Telemetry)
    requires |t| >= 3 && 4 <= t[0] <= 6
    requires t[1] < 256 && t[2] < 256
    ensures var r := Apply(t, st);
      var w := t[1] * 256 + t[2];
      && 0 <= w < 65536
      && (t[0] == 4 ==> r.distanceCovered == w)
      && (t[0] == 5 ==> r.distanceCoveredPrevious == w)
      && (t[0] == 6 ==> r.range == w)
  {
    ShlOrOfBytes(t[1], t[2]);
  }

  /** Tags 4, 5 and 6 store the shift-or of the two payload slots. */
  lemma ApplyWordField(t: seq<nat>, st: Telemetry)
    requires |t| >= 1 && 4 <= t[0] <= 6
    ensures var r := Apply(t, st);
      var w := ShlOr(At(t, 1), At(t, 2));
      && (t[0] == 4 ==> r.distanceCovered == w)
      && (t[0] == 5 ==> r.distanceCoveredPrevious == w)
      && (t[0] == 6 ==> r.range == w)
  {
  }

  /** A 16-bit tag with a missing payload token reads it as 0: with only the
      high token the field is that token shifted up a byte, and with no payload
      at all the field becomes 0. */
  lemma ApplyWordShort(t: seq<nat>, st: Telemetry)
    requires 1 <= |t| < 3 && 4 <= t[0] <= 6
    requires |t| == 2 ==> t[1] < 256
    ensures var r := Apply(t, st);
      var w := if |t| == 2 then t[1] * 256 else 0;
      && (t[0] == 4 ==> r.distanceCovered == w)
      && (t[0] == 5 ==> r.distanceCoveredPrevious == w)
      && (t[0] == 6 ==> r.range == w)
  {
    var w := if |t| == 2 then t[1] * 256 else 0;
    ApplyWordField(t, st);
    assert ShlOr(At(t, 1), At(t, 2)) == w by {
      if |t| == 2 {
        ShlOrUndefinedIsZero(Some(t[1]));
        ShlOrOfBytes(t[1], 0);
      } else {
        ShlOrUndefinedIsZero(None);
        ShlOrUndefinedIsZero(Some(0));
        ShlOrOfBytes(0, 0);
      }
    }
  }

  /** Tag 7 stores exactly the five payload tokens in order; slots past the end
      of a short list hold `undefined`. */
  lemma ApplyFaults(t: seq<nat>, st: Telemetry)
    requires |t| >= 1 && t[0] == 7
    ensures var r := Apply(t, st);
      && |r.faults| == 5
      && (forall i :: 0 <= i < 5 ==> (r.faults[i].Some? <==> i + 1 < |t|))
      && (forall i :: 0 <= i < 5 && i + 1 < |t| ==> r.faults[i].value == t[i + 1])
      && (|t| >= 6 ==> r.faults == seq(5, i requires 0 <= i < 5 => Some(t[i + 1])))
  {
  }

  /** Every assignment depends only on the token list, so applying the same
      list twice is the same as once. */
  lemma ApplyIdempotent(t: seq<nat>, st: Telemetry)
    ensures Apply(t, Apply(t, st)) == Apply(t, st)
  {
    var d := Dispatch(t, st);
    var r := Apply(t, st);
    DispatchOverDiagnostics(t, d, r);
    DispatchIdempotent(t, st);
    assert Apply(t, r) == Dispatch(t, r).(firstByte := r.firstByte, dataLength := r.dataLength, receivedData := r.receivedData);
  }

  /** The `switch` reads only the tokens, so running it twice is running it once. */
  lemma DispatchIdempotent(t: seq<nat>, st: Telemetry)
    ensures Dispatch(t, Dispatch(t, st)) == Dispatch(t, st)
  {
  }

  /** The `switch` writes the same field from the same tokens whatever the
      diagnostics hold. */
  lemma DispatchOverDiagnostics(t: seq<nat>, st: Telemetry, r: Telemetry)
    requires r == st.(firstByte := r.firstByte, dataLength := r.dataLength, receivedData := r.receivedData)
    ensures Dispatch(t, r) == Dispatch(t, st).(firstByte := r.firstByte, dataLength := r.dataLength, receivedData := r.receivedData)
  {
  }

  /** The joined text reads back as the tokens: splitting it on "," gives
      each token's shortest decimal spelling, which reads back as the token. */
  lemma {:induction false} ReceivedTextRoundTrip(t: seq<nat>)
    requires |t| >= 1
    ensures var parts := Split(ReceivedText(t), ",");
      && |parts| == |t|
      && forall i :: 0 <= i < |t| ==> IsDecText(parts[i]) && DecimalVal(parts[i]) == t[i]
    ensures forall i :: 0 <= i < |t| ==> Split(ReceivedText(t), ",")[i] == Decimal(t[i])
  {
    var ds := Decimals(t);
    assert Separable(ds, ",") by {
      forall i | 0 <= i < |ds|
        ensures !Contains(ds[i], ",")
        ensures !Contains(ds[i] + ","[..0], ",")
      {
        NoCommaInDigits(ds[i]);
        assert ds[i] + ","[..0] == ds[i];
      }
    }
    SplitJoin(ds, ",");
  }

  lemma NoCommaInDigits(s: string)
    requires IsDecText(s)
    ensures !Contains(s, ",")
  {
    forall i: nat | i <= |s|
      ensures !OccursAt(s, ",", i)
    {
      if i + 1 <= |s| {
        assert s[i..i + 1][0] == s[i] != ',';
      }
    }
  }
}
