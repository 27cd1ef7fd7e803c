/** Base-16 reading of a token (`parseInt(part, 16)` on upper-case hex digits),
    two-digit hex spelling of a byte, and decimal spelling of a number
    (`Number.prototype.toString()` for the integers the decoder produces). */
module Numerals {
  import opened Text

  predicate IsHexDigit(c: char) {
    '0' <= c <= '9' || 'A' <= c <= 'F'
  }

  /** The text consists of upper-case hexadecimal digits only. */
  predicate IsHexText(s: string) {
    forall i :: 0 <= i < |s| ==> IsHexDigit(s[i])
  }

  function DigitVal(c: char): (v: nat)
    requires IsHexDigit(c)
    ensures v < 16
    ensures v == 15 <==> c == 'F'
  {
    if c <= '9' then c as int - '0' as int else c as int - 'A' as int + 10
  }

  function HexDigit(v: nat): (c: char)
    requires v < 16
    ensures IsHexDigit(c) && DigitVal(c) == v
  {
    if v < 10 then ('0' as int + v) as char else ('A' as int + v - 10) as char
  }

  function Pow16(n: nat): (p: nat)
    ensures p >= 1
  {
    if n == 0 then 1 else 16 * Pow16(n - 1)
  }

  /** The base-16 value of a digit string, most significant digit first. */
  function HexVal(s: string): (v: nat)
    requires IsHexText(s)
    ensures v < Pow16(|s|)
    decreases |s|
  {
    if |s| == 0 then 0
    else
      var hi := HexVal(s[..|s| - 1]);
      assert hi <= Pow16(|s| - 1) - 1;
      assert hi * 16 <= Pow16(|s|) - 16;
      hi * 16 + DigitVal(s[|s| - 1])
  }

  /** Hex text followed by hex text is hex text. */
  lemma HexTextConcat(a: string, b: string)
    requires IsHexText(a) && IsHexText(b)
    ensures IsHexText(a + b)
  {
    forall i | 0 <= i < |a + b|
      ensures IsHexDigit((a + b)[i])
    {
      if i < |a| {
        assert (a + b)[i] == a[i];
      } else {
        assert (a + b)[i] == b[i - |a|];
      }
    }
  }

  /** Positional notation: the digits of `a` followed by those of `b` are worth
      `a`'s value shifted up by `|b|` digits plus `b`'s value. */
  lemma {:induction false} HexValConcat(a: string, b: string)
    requires IsHexText(a) && IsHexText(b)
    ensures IsHexText(a + b)
    ensures HexVal(a + b) == HexVal(a) * Pow16(|b|) + HexVal(b)
    decreases |b|
  {
    var s := a + b;
    if |b| == 0 {
      assert s == a;
    } else {
      var b' := b[..|b| - 1];
      var c := b[|b| - 1];
      assert s[..|s| - 1] == a + b';
      assert s[|s| - 1] == c;
      HexValConcat(a, b');
      var x, p, y, d := HexVal(a), Pow16(|b'|), HexVal(b'), DigitVal(c);
      assert HexVal(s) == HexVal(a + b') * 16 + d;
      assert HexVal(b) == y * 16 + d;
      assert Pow16(|b|) == 16 * p;
      ShiftDigit(x, p, y, d);
    }
  }

  lemma ShiftDigit(x: nat, p: nat, y: nat, d: nat)
    ensures (x * p + y) * 16 + d == x * (16 * p) + (y * 16 + d)
  {
    assert (x * p + y) * 16 == x * p * 16 + y * 16;
    assert x * p * 16 == x * (16 * p);
  }

  /** The two-digit upper-case hex spelling of a byte, as the serial transport
      writes it. */
  function Hex2(b: nat): (s: string)
    requires b < 256
    ensures |s| == 2 && IsHexText(s)
    ensures HexVal(s) == b
  {
    var s := [HexDigit(b / 16), HexDigit(b % 16)];
    assert s[..1] == [s[0]];
    assert HexVal(s[..1]) == DigitVal(s[0]);
    s
  }

  /** The only way a hex digit string can be worth 255 is to contain "FF":
      leading zeros followed by "FF". */
  lemma {:induction false} HexVal255HasFF(s: string)
    requires IsHexText(s)
    requires HexVal(s) == 255
    ensures Contains(s, "FF")
  {
    var n := |s|;
    if n < 2 {
      assert false;
    }
    var p := s[..n - 1];
    assert HexVal(s) == HexVal(p) * 16 + DigitVal(s[n - 1]);
    assert DigitVal(s[n - 1]) == 15 && HexVal(p) == 15;
    assert HexVal(p) == HexVal(p[..n - 2]) * 16 + DigitVal(p[n - 2]);
    assert DigitVal(p[n - 2]) == 15;
    assert s[n - 2..n] == "FF";
    assert OccursAt(s, "FF", n - 2);
  }

  /** Where a byte's spelling can meet a following "FF": it contains "FF"
      exactly for 255, and ends in 'F' exactly when its low nibble is 15. */
  lemma Hex2Edges(b: nat)
    requires b < 256
    ensures Contains(Hex2(b), "FF") <==> b == 255
    ensures Hex2(b)[1] == 'F' <==> b % 16 == 15
    ensures Contains(Hex2(b) + "F", "FF") <==> b % 16 == 15
  {
    var s := Hex2(b);
    if Contains(s, "FF") {
      var i: nat :| i <= |s| && OccursAt(s, "FF", i);
      assert i == 0;
      assert s[0] == 'F' && s[1] == 'F';
      assert b / 16 == 15 && b % 16 == 15;
    }
    if b == 255 {
      assert OccursAt(s, "FF", 0);
    }
    var t := s + "F";
    if Contains(t, "FF") {
      var i: nat :| i <= |t| && OccursAt(t, "FF", i);
      assert t[i..i + 2] == "FF";
      assert t[i] == t[i..i + 2][0] == 'F';
      assert t[i + 1] == t[i..i + 2][1] == 'F';
      assert i == 0 || i == 1;
      assert s[1] == t[1] == 'F';
      assert DigitVal(s[1]) == b % 16;
    }
    if b % 16 == 15 {
      assert t[1..3] == "FF";
      assert OccursAt(t, "FF", 1);
    }
  }

  predicate IsDecDigit(c: char) {
    '0' <= c <= '9'
  }

  /** The text consists of decimal digits only. */
  predicate IsDecText(s: string) {
    forall i :: 0 <= i < |s| ==> IsDecDigit(s[i])
  }

  /** The base-10 value of a digit string, most significant digit first. */
  function DecimalVal(s: string): nat
    requires IsDecText(s)
    decreases |s|
  {
    if |s| == 0 then 0
    else
      assert IsDecDigit(s[|s| - 1]);
      DecimalVal(s[..|s| - 1]) * 10 + (s[|s| - 1] as int - '0' as int)
  }

  /** The shortest decimal spelling of `n`: non-empty, digits only, no leading
      zero, and it reads back as `n`. */
  function Decimal(n: nat): (s: string)
    ensures |s| >= 1
    ensures IsDecText(s)
    ensures |s| > 1 ==> s[0] != '0'
    ensures DecimalVal(s) == n
  {
    var last := ('0' as int + n % 10) as char;
    if n < 10 then
      assert [last][..0] == [];
      [last]
    else
      var front := Decimal(n / 10);
      var s := front + [last];
      assert s[..|s| - 1] == front;
      s
  }
}
