/** Concrete chunks: the worked example kept beside the decoder, and one chunk
    per kind of tag, each read through the general lemmas. */
module Vectors {
  import opened Wrappers
  import opened Text
  import opened Numerals
  import opened TelemetryState
  import opened Decoder
  import opened Encoder

  lemma Spell(b: nat, s: string)
    requires b < 256 && |s| == 2 && IsHexText(s) && DigitVal(s[0]) == b / 16 && DigitVal(s[1]) == b % 16
    ensures Hex2(b) == s
  {
  }

  /** Bytes below 15 have no 0xF nibble anywhere, so any frame of them survives. */
  lemma LowBytesTransmittable(bytes: seq<nat>)
    requires |bytes| >= 1 && forall i :: 0 <= i < |bytes| ==> bytes[i] < 15
    ensures Transmittable(bytes)
  {
  }

  /** "0BFF16FF21" is the frame 11, 22, 33 on the line. */
  lemma WorkedExampleLine()
    ensures EncodeFrame([11, 22, 33]) == "0BFF16FF21"
  {
    Spell(11, "0B");
    Spell(22, "16");
    Spell(33, "21");
    var hs := Hex2s([11, 22, 33]);
    assert hs == ["0B", "16", "21"];
  }

  /** The worked example: "0BFF16FF21" tokenises to 11, 22, 33. Tag 11 is
      unknown, so only the diagnostics change. */
  lemma WorkedExample(st: Telemetry)
    ensures Tokens("0BFF16FF21") == [11, 22, 33]
    ensures var r := Decode("0BFF16FF21", st);
      && SameExcept(r, st, None)
      && r.firstByte == Some(11) && r.dataLength == 3
  {
    WorkedExampleLine();
    FrameSurvives([11, 22, 33]);
    ApplyTouchesOnlyOwner([11, 22, 33], st);
  }

  lemma SpeedLine()
    ensures EncodeFrame(FrameOf(SetSpeed(42))) == "00FF2A"
  {
    Spell(0, "00");
    Spell(42, "2A");
    assert FrameOf(SetSpeed(42)) == [0, 42];
    assert Hex2s([0, 42]) == ["00", "2A"];
  }

  /** "00FF2A": tag 0 sets the speed to 42. */
  lemma SpeedExample(st: Telemetry)
    ensures var r := Decode("00FF2A", st);
      && r.speed == Some(42) && SameExcept(r, st, Some(Speed))
      && r.firstByte == Some(0) && r.dataLength == 2
  {
    SpeedLine();
    SingleByteTransmittable(SetSpeed(42));
    UpdateRoundTrip(SetSpeed(42), st);
  }

  lemma SpeedText()
    ensures ReceivedText([0, 42]) == "0,42"
  {
    assert Decimal(0) == "0";
    assert Decimal(4) == "4";
    assert Decimal(42) == "42";
    var ds := Decimals([0, 42]);
    assert ds == ["0", "42"];
  }

  /** The first chunk after start-up, in full: from the initial state, "00FF2A"
      sets the speed to 42, records tag 0 and length 2, shows "0,42" as the
      received text, and leaves everything else at its initial value. */
  lemma FirstChunkExample()
    ensures Decode("00FF2A", Initial)
      == Initial.(speed := Some(42), firstByte := Some(0), dataLength := 2, receivedData := Some("0,42"))
  {
    var t := [0, 42];
    assert Tokens("00FF2A") == t by {
      SpeedLine();
      assert FrameOf(SetSpeed(42)) == t;
      SingleByteTransmittable(SetSpeed(42));
      FrameSurvives(t);
    }
    assert Decode("00FF2A", Initial) == Apply(t, Initial);
    FirstChunkApply(t);
  }

  lemma FirstChunkApply(t: seq<nat>)
    requires t == [0, 42]
    ensures Apply(t, Initial)
      == Initial.(speed := Some(42), firstByte := Some(0), dataLength := 2, receivedData := Some("0,42"))
  {
    SpeedText();
  }

  lemma DistanceLine()
    ensures FrameOf(SetDistanceCovered(300)) == [4, 1, 44]
    ensures EncodeFrame(FrameOf(SetDistanceCovered(300))) == "04FF01FF2C"
  {
    Spell(4, "04");
    Spell(1, "01");
    Spell(44, "2C");
    assert Payload(SetDistanceCovered(300)) == [1, 44] by {
      assert 300 == 1 * 256 + 44;
    }
    assert FrameOf(SetDistanceCovered(300)) == [4, 1, 44];
    assert Hex2s([4, 1, 44]) == ["04", "01", "2C"];
  }

  /** "04FF01FF2C": tag 4 sets the distance to (1 << 8) | 44 = 300. */
  lemma DistanceExample(st: Telemetry)
    ensures var r := Decode("04FF01FF2C", st);
      && r.distanceCovered == 300 && SameExcept(r, st, Some(DistanceCovered))
      && r.dataLength == 3
  {
    var t := [4, 1, 44];
    assert Tokens("04FF01FF2C") == t by {
      DistanceLine();
      WordTransmittable(SetDistanceCovered(300));
      FrameSurvives(t);
    }
    assert Decode("04FF01FF2C", st) == Apply(t, st);
    DistanceApply(t, st);
  }

  lemma DistanceApply(t: seq<nat>, st: Telemetry)
    requires t == [4, 1, 44]
    ensures var r := Apply(t, st);
      && r.distanceCovered == 300 && SameExcept(r, st, Some(DistanceCovered))
      && r.dataLength == 3
  {
    ApplyTouchesOnlyOwner(t, st);
    ApplyWord(t, st);
  }

  lemma ShortFaultsSpelling()
    ensures Hex2s([7, 1, 2, 3, 4]) == ["07", "01", "02", "03", "04"]
  {
    Spell(7, "07");
    Spell(1, "01");
    Spell(2, "02");
    Spell(3, "03");
    Spell(4, "04");
  }

  lemma ShortFaultsJoin()
    ensures Join(["07", "01", "02", "03", "04"], Delim) == "07FF01FF02FF03FF04"
  {
    var hs := ["07", "01", "02", "03", "04"];
    assert Join(hs[4..], Delim) == "04";
    assert Join(hs[3..], Delim) == "03FF04" by { assert hs[3..][1..] == hs[4..]; }
    assert Join(hs[2..], Delim) == "02FF03FF04" by { assert hs[2..][1..] == hs[3..]; }
    assert Join(hs[1..], Delim) == "01FF02FF03FF04" by { assert hs[1..][1..] == hs[2..]; }
  }

  lemma ShortFaultsLine()
    ensures EncodeFrame([7, 1, 2, 3, 4]) == "07FF01FF02FF03FF04"
  {
    ShortFaultsSpelling();
    ShortFaultsJoin();
  }

  /** "07FF01FF02FF03FF04": tag 7 with only four payload tokens still replaces
      the fault list; its fifth slot is undefined. */
  lemma ShortFaultsExample(st: Telemetry)
    ensures var r := Decode("07FF01FF02FF03FF04", st);
      && r.faults == [Some(1), Some(2), Some(3), Some(4), None]
      && SameExcept(r, st, Some(Faults))
      && r.dataLength == 5
  {
    var t := [7, 1, 2, 3, 4];
    ShortFaultsTokens();
    assert Decode("07FF01FF02FF03FF04", st) == Apply(t, st);
    ShortFaultsApply(t, st);
  }

  lemma ShortFaultsTokens()
    ensures IsHexText("07FF01FF02FF03FF04")
    ensures Tokens("07FF01FF02FF03FF04") == [7, 1, 2, 3, 4]
  {
    var t := [7, 1, 2, 3, 4];
    ShortFaultsLine();
    LowBytesTransmittable(t);
    FrameSurvives(t);
  }

  lemma ShortFaultsApply(t: seq<nat>, st: Telemetry)
    requires t == [7, 1, 2, 3, 4]
    ensures var r := Apply(t, st);
      && r.faults == [Some(1), Some(2), Some(3), Some(4), None]
      && SameExcept(r, st, Some(Faults))
      && r.dataLength == 5
  {
    ApplyTouchesOnlyOwner(t, st);
    ApplyFaults(t, st);
  }

  lemma ChargeLines()
    ensures EncodeFrame(FrameOf(SetChargeStatus(0))) == "08FF00"
    ensures EncodeFrame(FrameOf(SetChargeStatus(1))) == "08FF01"
  {
    Spell(8, "08");
    Spell(0, "00");
    Spell(1, "01");
    assert FrameOf(SetChargeStatus(0)) == [8, 0];
    assert FrameOf(SetChargeStatus(1)) == [8, 1];
    assert Hex2s([8, 0]) == ["08", "00"];
    assert Hex2s([8, 1]) == ["08", "01"];
  }

  /** "08FF00" then "08FF01": the charge status goes from 0 to 1. Both chunks
      are upper-case hex text, which the decoder requires. */
  lemma ChargeToggleExample(st: Telemetry)
    ensures IsHexText("08FF00") && IsHexText("08FF01")
    ensures Decode("08FF00", st).chargeStatus == Some(0)
    ensures Decode("08FF01", Decode("08FF00", st)).chargeStatus == Some(1)
  {
    ChargeLines();
    SingleByteTransmittable(SetChargeStatus(0));
    SingleByteTransmittable(SetChargeStatus(1));
    UpdateRoundTrip(SetChargeStatus(0), st);
    UpdateRoundTrip(SetChargeStatus(1), Decode("08FF00", st));
  }
}
