/** The transmitting side the decoder assumes: each byte of a frame written as
    two upper-case hex digits, the bytes separated by "FF". Its round-trip
    lemmas state which frames the decoder reads back intact, and what each
    tag's frame does to the snapshot. */
module Encoder {
  import opened Wrappers
  import opened Text
  import opened Numerals
  import opened TelemetryState
  import opened Decoder
  import opened JsInt32

  /** The hex spelling of every byte. */
  function Hex2s(bytes: seq<nat>): (hs: seq<string>)
    requires forall i :: 0 <= i < |bytes| ==> bytes[i] < 256
    ensures |hs| == |bytes|
    ensures forall i :: 0 <= i < |bytes| ==> hs[i] == Hex2(bytes[i])
  {
    seq(|bytes|, i requires 0 <= i < |bytes| => Hex2(bytes[i]))
  }

  /** A frame of bytes as it travels on the line. */
  function EncodeFrame(bytes: seq<nat>): (s: string)
    requires forall i :: 0 <= i < |bytes| ==> bytes[i] < 256
    ensures IsHexText(s)
  {
    JoinKeepsHex(Hex2s(bytes));
    Join(Hex2s(bytes), Delim)
  }

  /** A frame the decoder reads back intact: no byte is 0xFF, and no byte but
      the last has low nibble 0xF (its trailing 'F' would pair with the next
      delimiter). */
  predicate Transmittable(bytes: seq<nat>) {
    && |bytes| >= 1
    && (forall i :: 0 <= i < |bytes| ==> bytes[i] < 256 && bytes[i] != 255)
    && (forall i :: 0 <= i < |bytes| - 1 ==> bytes[i] % 16 != 15)
  }

  lemma {:induction false} JoinAppend(a: seq<string>, b: seq<string>, d: string)
    requires |a| >= 1 && |b| >= 1
    ensures Join(a + b, d) == Join(a, d) + d + Join(b, d)
    decreases |a|
  {
    if |a| == 1 {
      assert (a + b)[1..] == b;
    } else {
      JoinAppend(a[1..], b, d);
      assert (a + b)[1..] == a[1..] + b;
    }
  }

  lemma ConsAppend<T>(xs: seq<T>, ys: seq<T>)
    requires |xs| >= 1
    ensures [xs[0]] + (xs[1..] + ys) == xs + ys
  {
    assert xs == [xs[0]] + xs[1..];
  }

  /** Parts whose seams are clean are cut off intact before whatever follows. */
  lemma {:induction false} SplitJoinPrefix(ps: seq<string>, d: string, r: string)
    requires |d| > 0 && |ps| >= 1
    requires forall j :: 0 <= j < |ps| ==> !Contains(ps[j] + d[..|d| - 1], d)
    ensures Split(Join(ps, d) + d + r, d) == ps + Split(r, d)
    decreases |ps|
  {
    var p, tail := ps[0], ps[1..];
    if |ps| == 1 {
      assert Join(ps, d) == p;
      SplitAtSeam(p, d, r);
      assert ps == [p];
    } else {
      var r' := Join(tail, d) + d + r;
      assert Join(ps, d) == p + d + Join(tail, d);
      assert Join(ps, d) + d + r == p + d + r';
      SplitAtSeam(p, d, r');
      assert forall j :: 0 <= j < |tail| ==> tail[j] == ps[j + 1];
      SplitJoinPrefix(tail, d, r);
      ConsAppend(ps, Split(r, d));
    }
  }

  /** A transmittable frame decodes to exactly its bytes. */
  lemma FrameSurvives(bytes: seq<nat>)
    requires Transmittable(bytes)
    ensures Tokens(EncodeFrame(bytes)) == bytes
  {
    var hs := Hex2s(bytes);
    forall i | 0 <= i < |hs|
      ensures |hs[i]| > 0 && IsHexText(hs[i]) && !Contains(hs[i], Delim)
      ensures i < |hs| - 1 ==> hs[i][|hs[i]| - 1] != 'F'
    {
      Hex2Edges(bytes[i]);
    }
    TokensJoin(hs);
  }

  /** The line text of a frame, regrouped at byte `i` = 0x?F: the part before
      the "F" of that byte is followed by "FF" and then "F" and the rest. */
  lemma RegroupAt(bytes: seq<nat>, i: nat, x: char)
    requires forall j :: 0 <= j < |bytes| ==> bytes[j] < 256
    requires i < |bytes| - 1 && Hex2s(bytes)[i] == [x, 'F']
    ensures var hs := Hex2s(bytes);
      EncodeFrame(bytes) == Join(hs[..i] + [[x]], Delim) + Delim + ("F" + Join(hs[i + 1..], Delim))
  {
    JoinRegroup(Hex2s(bytes), i, x);
  }

  /** The same regrouping for any list of parts. */
  lemma JoinRegroup(hs: seq<string>, i: nat, x: char)
    requires i < |hs| - 1 && hs[i] == [x, 'F']
    ensures Join(hs, Delim) == Join(hs[..i] + [[x]], Delim) + Delim + ("F" + Join(hs[i + 1..], Delim))
  {
    var u := Join(hs[..i] + [[x]], Delim);
    var rest := Join(hs[i + 1..], Delim);
    assert hs[..i + 1] == hs[..i] + [[x, 'F']];
    JoinTrailingF(hs[..i], x);
    assert hs == hs[..i + 1] + hs[i + 1..];
    JoinAppend(hs[..i + 1], hs[i + 1..], Delim);
    SeamShift(u, rest);
  }

  /** A last part `x` + "F" joins to the join with last part `x`, then "F". */
  lemma JoinTrailingF(pre: seq<string>, x: char)
    ensures Join(pre + [[x, 'F']], Delim) == Join(pre + [[x]], Delim) + "F"
  {
    JoinSnoc(pre, [x, 'F'], Delim);
    JoinSnoc(pre, [x], Delim);
    assert [x, 'F'] == [x] + "F";
    if |pre| > 0 {
      var j := Join(pre, Delim) + Delim;
      assert j + ([x] + "F") == j + [x] + "F";
    }
  }

  /** Appending one part to a join adds a separator and the part. */
  lemma JoinSnoc(a: seq<string>, p: string, d: string)
    ensures Join(a + [p], d) == if |a| == 0 then p else Join(a, d) + d + p
  {
    if |a| == 0 {
      assert a + [p] == [p];
    } else {
      JoinAppend(a, [p], d);
    }
  }

  /** In "F" followed by "FF" the lone 'F' may be moved to the far side. */
  lemma SeamShift(u: string, rest: string)
    ensures u + "F" + Delim + rest == u + Delim + ("F" + rest)
  {
    assert "F" + Delim == Delim + "F";
  }

  /** Before byte `i` every seam is clean, and the lone high digit `x` is too. */
  lemma CleanSeamsBefore(bytes: seq<nat>, i: nat, x: char)
    requires forall j :: 0 <= j < |bytes| ==> bytes[j] < 256
    requires i < |bytes| && forall j :: 0 <= j < i ==> bytes[j] % 16 != 15
    requires IsHexDigit(x) && x != 'F'
    ensures var ps := Hex2s(bytes)[..i] + [[x]];
      forall j :: 0 <= j < |ps| ==> |ps[j]| > 0 && !Contains(ps[j] + Delim[..1], Delim)
  {
    var ps := Hex2s(bytes)[..i] + [[x]];
    assert Delim[..1] == "F";
    forall j | 0 <= j < |ps|
      ensures |ps[j]| > 0 && !Contains(ps[j] + Delim[..1], Delim)
    {
      if j < i {
        Hex2Edges(bytes[j]);
        assert ps[j] == Hex2(bytes[j]);
      } else {
        assert ps[j] == [x];
        assert !Contains([x], Delim) by {
          forall k: nat | k <= 1 ensures !OccursAt([x], Delim, k) { }
        }
        NoTrailingFSeam([x]);
      }
    }
  }

  /** The first byte with low nibble 0xF that is not the last one ends its
      part early: the part for that byte is its high digit alone. */
  lemma PartsBreakAtNibbleF(bytes: seq<nat>, i: nat)
    requires forall j :: 0 <= j < |bytes| ==> bytes[j] < 256
    requires i < |bytes| - 1 && bytes[i] % 16 == 15 && bytes[i] != 255
    requires forall j :: 0 <= j < i ==> bytes[j] % 16 != 15
    ensures var ps := NonEmpty(Split(EncodeFrame(bytes), Delim));
      |ps| > i && ps[i] == [HexDigit(bytes[i] / 16)]
  {
    var hs := Hex2s(bytes);
    var x := HexDigit(bytes[i] / 16);
    assert hs[i] == [x, 'F'];
    assert x != 'F' by {
      assert bytes[i] / 16 != 15;
    }
    var ps := hs[..i] + [[x]];
    var tail := "F" + Join(hs[i + 1..], Delim);
    RegroupAt(bytes, i, x);
    CleanSeamsBefore(bytes, i, x);
    SplitJoinPrefix(ps, Delim, tail);
    NonEmptyAppend(ps, Split(tail, Delim));
    NonEmptyKeeps(ps);
  }

  /** Hence the decoder reads only that byte's high digit. */
  lemma FrameBreaksAtNibbleF(bytes: seq<nat>, i: nat)
    requires forall j :: 0 <= j < |bytes| ==> bytes[j] < 256
    requires i < |bytes| - 1 && bytes[i] % 16 == 15 && bytes[i] != 255
    requires forall j :: 0 <= j < i ==> bytes[j] % 16 != 15
    ensures |Tokens(EncodeFrame(bytes))| > i
    ensures Tokens(EncodeFrame(bytes))[i] == bytes[i] / 16 != bytes[i]
  {
    var x := HexDigit(bytes[i] / 16);
    var line := EncodeFrame(bytes);
    PartsBreakAtNibbleF(bytes, i);
    assert Parts(line) == NonEmpty(Split(line, Delim));
    assert Parts(line)[i] == [x];
    assert [x][..0] == [];
    assert HexVal([x]) == DigitVal(x);
  }

  /** Round trip for frames: a frame of bytes decodes to exactly those bytes if
      and only if it is transmittable. */
  lemma FrameRoundTrip(bytes: seq<nat>)
    requires |bytes| >= 1
    requires forall i :: 0 <= i < |bytes| ==> bytes[i] < 256
    ensures Tokens(EncodeFrame(bytes)) == bytes <==> Transmittable(bytes)
  {
    if Transmittable(bytes) {
      FrameSurvives(bytes);
    } else if exists j :: 0 <= j < |bytes| && bytes[j] == 255 {
      var j :| 0 <= j < |bytes| && bytes[j] == 255;
      NoTokenIs255(EncodeFrame(bytes));
      var t := Tokens(EncodeFrame(bytes));
      assert j < |t| ==> t[j] != bytes[j];
    } else {
      var i := 0;
      while bytes[i] % 16 != 15
        invariant 0 <= i < |bytes| - 1
        invariant exists k :: i <= k < |bytes| - 1 && bytes[k] % 16 == 15
        invariant forall j :: 0 <= j < i ==> bytes[j] % 16 != 15
        decreases |bytes| - i
      {
        i := i + 1;
      }
      FrameBreaksAtNibbleF(bytes, i);
    }
  }

  /** One telemetry value as the controller sends it. */
  datatype Update =
    | SetSpeed(v: nat)
    | SetTemp(v: nat)
    | SetSumVoltage(v: nat)
    | SetSoc(v: nat)
    | SetDistanceCovered(v: nat)
    | SetDistanceCoveredPrevious(v: nat)
    | SetRange(v: nat)
    | SetFaults(codes: seq<nat>)
    | SetChargeStatus(v: nat)

  function Tag(u: Update): nat {
    match u
    case SetSpeed(_) => 0
    case SetTemp(_) => 1
    case SetSumVoltage(_) => 2
    case SetSoc(_) => 3
    case SetDistanceCovered(_) => 4
    case SetDistanceCoveredPrevious(_) => 5
    case SetRange(_) => 6
    case SetFaults(_) => 7
    case SetChargeStatus(_) => 8
  }

  function Target(u: Update): Field {
    match u
    case SetSpeed(_) => Speed
    case SetTemp(_) => Temp
    case SetSumVoltage(_) => SumVoltage
    case SetSoc(_) => Soc
    case SetDistanceCovered(_) => DistanceCovered
    case SetDistanceCoveredPrevious(_) => DistanceCoveredPrevious
    case SetRange(_) => Range
    case SetFaults(_) => Faults
    case SetChargeStatus(_) => ChargeStatus
  }

  predicate IsWord(u: Update) {
    u.SetDistanceCovered? || u.SetDistanceCoveredPrevious? || u.SetRange?
  }

  /** The value fits its field on the wire: one byte, two bytes, or five fault
      bytes. */
  predicate Encodable(u: Update) {
    if u.SetFaults? then |u.codes| == 5 && forall i :: 0 <= i < 5 ==> u.codes[i] < 256
    else if IsWord(u) then u.v < 65536
    else u.v < 256
  }

  /** The payload bytes of an update, high byte first. */
  function Payload(u: Update): seq<nat> {
    match u
    case SetSpeed(v) => [v]
    case SetTemp(v) => [v]
    case SetSumVoltage(v) => [v]
    case SetSoc(v) => [v]
    case SetDistanceCovered(v) => [v / 256, v % 256]
    case SetDistanceCoveredPrevious(v) => [v / 256, v % 256]
    case SetRange(v) => [v / 256, v % 256]
    case SetFaults(codes) => codes
    case SetChargeStatus(v) => [v]
  }

  /** The frame for an update: the tag, then the payload. */
  function FrameOf(u: Update): (f: seq<nat>)
    requires Encodable(u)
    ensures |f| >= 2 && f[0] == Tag(u)
    ensures forall i :: 0 <= i < |f| ==> f[i] < 256
  {
    [Tag(u)] + Payload(u)
  }

  /** The snapshot holds the update's value in the update's field. */
  predicate Shows(st: Telemetry, u: Update) {
    match u
    case SetSpeed(v) => st.speed == Some(v)
    case SetTemp(v) => st.temp == Some(v)
    case SetSumVoltage(v) => st.sumVoltage == Some(v)
    case SetSoc(v) => st.soc == Some(v)
    case SetDistanceCovered(v) => st.distanceCovered == v
    case SetDistanceCoveredPrevious(v) => st.distanceCoveredPrevious == v
    case SetRange(v) => st.range == v
    case SetFaults(codes) => |codes| == 5 && st.faults == seq(5, i requires 0 <= i < 5 => Some(codes[i]))
    case SetChargeStatus(v) => st.chargeStatus == Some(v)
  }

  /** The sender's tag for an update is the one the decoder's table gives its field. */
  lemma TagMatchesOwner(u: Update)
    ensures Owner(Tag(u)) == Some(Target(u))
  {
  }

  /** Round trip for every tag 0..8: a transmittable update, encoded and decoded
      into any snapshot, shows its value in its own field, leaves every other
      typed field alone, and records the tag and frame length. */
  lemma UpdateRoundTrip(u: Update, st: Telemetry)
    requires Encodable(u) && Transmittable(FrameOf(u))
    ensures var r := Decode(EncodeFrame(FrameOf(u)), st);
      && Shows(r, u)
      && SameExcept(r, st, Some(Target(u)))
      && r.firstByte == Some(Tag(u))
      && r.dataLength == |FrameOf(u)|
  {
    var f := FrameOf(u);
    FrameSurvives(f);
    ApplyTouchesOnlyOwner(f, st);
    ShowsAfterApply(u, st);
  }

  /** Applying an update's own frame shows its value. */
  lemma ShowsAfterApply(u: Update, st: Telemetry)
    requires Encodable(u)
    ensures Shows(Apply(FrameOf(u), st), u)
  {
    var f := FrameOf(u);
    if IsWord(u) {
      assert f == [Tag(u), u.v / 256, u.v % 256];
      ApplyWord(f, st);
    } else if u.SetFaults? {
      ApplyFaults(f, st);
    } else {
      assert f == [Tag(u), u.v];
      ApplySingleByte(f, st);
    }
  }

  /** A one-byte update survives exactly when its value is not 0xFF. */
  lemma SingleByteTransmittable(u: Update)
    requires !IsWord(u) && !u.SetFaults? && u.v < 256
    ensures Transmittable(FrameOf(u)) <==> u.v != 255
  {
    var f := FrameOf(u);
    assert f == [Tag(u), u.v] && Tag(u) <= 8;
    if Transmittable(f) {
      assert f[1] != 255;
    }
  }

  /** A two-byte update survives exactly when its high byte has low nibble other
      than 0xF and its low byte is not 0xFF. */
  lemma WordTransmittable(u: Update)
    requires IsWord(u) && u.v < 65536
    ensures Transmittable(FrameOf(u)) <==> (u.v / 256) % 16 != 15 && u.v % 256 != 255
  {
    var f := FrameOf(u);
    assert f == [Tag(u), u.v / 256, u.v % 256] && Tag(u) <= 8;
    if (u.v / 256) % 16 != 15 && u.v % 256 != 255 {
      assert u.v / 256 != 255;
      assert forall i :: 0 <= i < 3 ==> f[i] < 256 && f[i] != 255;
    }
    if Transmittable(f) {
      assert f[1] % 16 != 15 && f[2] != 255;
    }
  }
}
