/** The serial callback's decoder: a hex-text chunk is split on every "FF",
    empty parts are dropped, each remaining part is read in base 16, and the
    resulting token list is applied to the telemetry snapshot. */
module Decoder {
  import opened Wrappers
  import opened Text
  import opened Numerals
  import opened TelemetryState

  /** The delimiter text: the hex spelling of byte 0xFF. */
  const Delim: string := "FF"

  /** Parts of a hex chunk are hex text. */
  lemma {:induction false} SplitKeepsHex(s: string, d: string)
    requires |d| > 0 && IsHexText(s)
    ensures forall i :: 0 <= i < |Split(s, d)| ==> IsHexText(Split(s, d)[i])
    decreases |s|
  {
    var parts := Split(s, d);
    if |d| <= |s| && s[..|d|] == d {
      SplitKeepsHex(s[|d|..], d);
      var rest := Split(s[|d|..], d);
      assert parts == [""] + rest;
      forall i | 0 <= i < |parts| ensures IsHexText(parts[i]) {
        if i > 0 {
          assert parts[i] == rest[i - 1];
        }
      }
    } else if |s| > 0 {
      SplitKeepsHex(s[1..], d);
      var rest := Split(s[1..], d);
      assert parts == [[s[0]] + rest[0]] + rest[1..];
      forall i | 0 <= i < |parts| ensures IsHexText(parts[i]) {
        if i > 0 {
          assert parts[i] == rest[i];
        } else {
          assert IsHexText(rest[0]);
        }
      }
    }
  }

  /** Reads each part in base 16. */
  function HexVals(parts: seq<string>): (vs: seq<nat>)
    requires forall i :: 0 <= i < |parts| ==> IsHexText(parts[i])
    ensures |vs| == |parts|
    ensures forall i :: 0 <= i < |parts| ==> vs[i] == HexVal(parts[i])
  {
    seq(|parts|, i requires 0 <= i < |parts| => HexVal(parts[i]))
  }

  /** The non-empty parts of the chunk's split on "FF", in order. */
  function Parts(chunk: string): (ps: seq<string>)
    requires IsHexText(chunk)
    ensures forall i :: 0 <= i < |ps| ==> |ps[i]| > 0 && IsHexText(ps[i]) && !Contains(ps[i], Delim)
  {
    var all := Split(chunk, Delim);
    SplitKeepsHex(chunk, Delim);
    SplitPartsAvoid(chunk, Delim);
    var ps := NonEmpty(all);
    NonEmptyKeeps(all);
    assert forall i :: 0 <= i < |ps| ==> ps[i] in all;
    ps
  }

  /** `data.split("FF").filter(part => part.length > 0).map(part => parseInt(part, 16))`
      on a chunk of upper-case hex digits: one token per non-empty part, worth
      that part's base-16 value. */
  function Tokens(chunk: string): (t: seq<nat>)
    requires IsHexText(chunk)
    ensures |t| == |NonEmpty(Split(chunk, Delim))|
    ensures forall i :: 0 <= i < |t| ==> t[i] == HexVal(Parts(chunk)[i])
  {
    HexVals(Parts(chunk))
  }

  /** One received chunk applied to the snapshot. */
  function Decode(chunk: string, st: Telemetry): (r: Telemetry)
    requires IsHexText(chunk)
    ensures r.dataLength == |NonEmpty(Split(chunk, Delim))|
    ensures SameExcept(r, st, TagOwner(Tokens(chunk)))
  {
    ApplyTouchesOnlyOwner(Tokens(chunk), st);
    Apply(Tokens(chunk), st)
  }

  /** A token never has value 255: its digits would have to contain "FF",
      which the split has consumed. */
  lemma NoTokenIs255(chunk: string)
    requires IsHexText(chunk)
    ensures forall i :: 0 <= i < |Tokens(chunk)| ==> Tokens(chunk)[i] != 255
  {
    var ps := Parts(chunk);
    forall i | 0 <= i < |ps|
      ensures HexVal(ps[i]) != 255
    {
      if HexVal(ps[i]) == 255 {
        HexVal255HasFF(ps[i]);
      }
    }
  }

  /** A chunk without "FF" is one token worth the whole chunk, or no token when
      the chunk is empty. */
  lemma TokensWithoutDelimiter(chunk: string)
    requires IsHexText(chunk) && !Contains(chunk, Delim)
    ensures |chunk| == 0 ==> Tokens(chunk) == []
    ensures |chunk| > 0 ==> Tokens(chunk) == [HexVal(chunk)]
  {
    SplitSingle(chunk, Delim);
    assert Split(chunk, Delim) == [chunk];
    if |chunk| == 0 {
      assert NonEmpty([chunk]) == [];
    } else {
      assert NonEmpty([chunk]) == [chunk];
    }
  }

  /** A run of `n` letters 'F'. */
  function Fs(n: nat): (s: string)
    ensures |s| == n && IsHexText(s)
    ensures forall i :: 0 <= i < n ==> s[i] == 'F'
  {
    seq(n, _ => 'F')
  }

  lemma SplitAfterDelim(r: string)
    ensures Split(Delim + r, Delim) == [""] + Split(r, Delim)
  {
    var s := Delim + r;
    assert s[..2] == Delim && s[2..] == r;
  }

  lemma NonEmptyDropsEmpty(xs: seq<string>)
    ensures NonEmpty([""] + xs) == NonEmpty(xs)
  {
    assert ([""] + xs)[1..] == xs;
  }

  lemma SplitOfF()
    ensures Split("F", Delim) == ["F"]
  {
    SplitSingle("F", Delim);
  }

  lemma ParityStep(n: nat)
    requires n >= 2
    ensures (n - 2) % 2 == n % 2
  {
  }

  lemma {:induction false} NonEmptyOfFs(n: nat)
    ensures n % 2 == 0 ==> NonEmpty(Split(Fs(n), Delim)) == []
    ensures n % 2 == 1 ==> NonEmpty(Split(Fs(n), Delim)) == ["F"]
    decreases n
  {
    if n >= 2 {
      var r := Fs(n - 2);
      assert Fs(n) == Delim + r;
      SplitAfterDelim(r);
      var rest := Split(r, Delim);
      assert Split(Fs(n), Delim) == [""] + rest;
      NonEmptyDropsEmpty(rest);
      assert NonEmpty(Split(Fs(n), Delim)) == NonEmpty(rest);
      NonEmptyOfFs(n - 2);
      ParityStep(n);
    } else if n == 1 {
      assert Fs(n) == "F";
      SplitOfF();
      assert NonEmpty(["F"]) == ["F"];
    } else {
      assert Fs(n) == "";
      assert Split("", Delim) == [""];
      assert NonEmpty([""]) == [];
    }
  }

  /** A run of 'F's is read as pairs of delimiters: an even run holds no token,
      an odd run leaves one lone 'F', token 15. */
  lemma TokensOfFs(n: nat)
    ensures Tokens(Fs(n)) == if n % 2 == 0 then [] else [15]
  {
    NonEmptyOfFs(n);
    if n % 2 == 1 {
      assert Parts(Fs(n)) == ["F"];
      assert ["F"][..0] == [];
      assert HexVal("F") == DigitVal('F');
    }
  }

  /** A chunk made only of delimiters yields no tokens: no typed field changes,
      `dataLength` becomes 0, `firstByte` undefined and the joined text empty. */
  lemma DecodeDelimitersOnly(k: nat, st: Telemetry)
    ensures var r := Decode(Fs(2 * k), st);
      && SameExcept(r, st, None)
      && r.dataLength == 0 && r.firstByte == None && r.receivedData == Some("")
  {
    TokensOfFs(2 * k);
    var t := Tokens(Fs(2 * k));
    assert t == [];
    ApplyTouchesOnlyOwner(t, st);
    assert Decimals(t) == [];
    assert ReceivedText(t) == "";
  }

  lemma JoinKeepsHex(parts: seq<string>)
    requires forall i :: 0 <= i < |parts| ==> IsHexText(parts[i])
    ensures IsHexText(Join(parts, Delim))
  {
    if |parts| > 1 {
      JoinKeepsHex(parts[1..]);
      assert IsHexText(Delim);
      HexTextConcat(parts[0], Delim);
      HexTextConcat(parts[0] + Delim, Join(parts[1..], Delim));
    }
  }

  /** Round trip: joining non-empty hex parts with "FF" and tokenising gives
      back their values, provided no part contains "FF" and no part but the last
      ends in 'F'. */
  lemma TokensJoin(parts: seq<string>)
    requires |parts| >= 1
    requires forall i :: 0 <= i < |parts| ==> |parts[i]| > 0 && IsHexText(parts[i]) && !Contains(parts[i], Delim)
    requires forall i :: 0 <= i < |parts| - 1 ==> parts[i][|parts[i]| - 1] != 'F'
    ensures IsHexText(Join(parts, Delim)) && Tokens(Join(parts, Delim)) == HexVals(parts)
  {
    JoinKeepsHex(parts);
    forall i | 0 <= i < |parts| - 1
      ensures !Contains(parts[i] + Delim[..1], Delim)
    {
      NoTrailingFSeam(parts[i]);
    }
    assert Separable(parts, Delim);
    SplitJoin(parts, Delim);
    NonEmptyKeeps(parts);
  }

  /** A part with no "FF" and no trailing 'F' cannot form "FF" with a following 'F'. */
  lemma NoTrailingFSeam(p: string)
    requires |p| > 0 && !Contains(p, Delim) && p[|p| - 1] != 'F'
    ensures !Contains(p + Delim[..1], Delim)
  {
    var q := p + Delim[..1];
    forall i: nat | i <= |q|
      ensures !OccursAt(q, Delim, i)
    {
      if i + 2 <= |p| {
        assert q[i..i + 2] == p[i..i + 2];
        assert !OccursAt(p, Delim, i);
      } else if i + 2 == |q| {
        assert q[i] == p[|p| - 1];
        assert q[i..i + 2][0] == q[i];
      }
    }
  }

  lemma SplitOfSeamExample()
    ensures Split("0FFFF0", Delim) == ["0", "", "0"]
  {
    assert "0" + Delim + (Delim + "0") == "0FFFF0";
    assert !Contains("0", Delim) by {
      SplitSingle("0", Delim);
      assert "0"[1..] == "";
      assert Split("", Delim) == [""];
    }
    NoTrailingFSeam("0");
    SplitAtSeam("0", Delim, Delim + "0");
    SplitAtSeam("", Delim, "0");
    assert "" + Delim + "0" == Delim + "0";
    assert "0"[1..] == "";
    assert Split("", Delim) == [""];
    assert Split("0", Delim) == ["0"];
  }

  lemma PartsOfSeamExample()
    ensures Parts("0FFFF0") == ["0", "0"]
  {
    SplitOfSeamExample();
    assert NonEmpty(["0", "", "0"]) == ["0", "0"] by {
      assert ["0", "", "0"][1..] == ["", "0"];
      assert ["", "0"][1..] == ["0"];
      assert ["0"][1..] == [];
    }
  }

  lemma HexValZero()
    ensures HexVal("0") == 0
  {
    assert "0"[..0] == "";
  }

  lemma TokensOfSeamExample()
    ensures Tokens("0FFFF0") == [0, 0]
  {
    PartsOfSeamExample();
    HexValZero();
  }

  /** Without the trailing-'F' condition the round trip fails: "0F" and "F0"
      joined give "0FFFF0", which reads as 0, 0 rather than 15, 240. */
  lemma TrailingFBreaksRoundTrip()
    ensures Join(["0F", "F0"], Delim) == "0FFFF0"
    ensures Tokens(Join(["0F", "F0"], Delim)) == [0, 0]
    ensures HexVals(["0F", "F0"]) == [15, 240]
  {
    assert Join(["0F", "F0"], Delim) == "0F" + "FF" + "F0";
    TokensOfSeamExample();
    HexValsOfSeamExample();
  }

  lemma HexValsOfSeamExample()
    ensures HexVals(["0F", "F0"]) == [15, 240]
  {
    assert HexVal("0F") == 15 by { assert "0F"[..1] == "0"; }
    assert HexVal("F0") == 240 by { assert "F0"[..1] == "F"; assert "F"[..0] == ""; }
    var vs := HexVals(["0F", "F0"]);
    assert |vs| == 2 && vs[0] == 15 && vs[1] == 240;
  }

  /** Decoding the same chunk twice gives the same snapshot as decoding it once. */
  lemma DecodeIdempotent(chunk: string, st: Telemetry)
    requires IsHexText(chunk)
    ensures Decode(chunk, Decode(chunk, st)) == Decode(chunk, st)
  {
    ApplyIdempotent(Tokens(chunk), st);
  }
}
