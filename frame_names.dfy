/**
 The export file names: "frame_" followed by the frame index in decimal,
 zero-padded to at least five digits, followed by ".png" (Python's
 f"frame_{i:05d}.png"). A parser gives the index back, so no two frames of
 one export share a file.
 */
module FrameNames {

  import opened Wrappers

  predicate IsDigit(c: char) { '0' <= c <= '9' }

  predicate AllDigits(s: string) { forall i :: 0 <= i < |s| ==> IsDigit(s[i]) }

  function DigitChar(d: nat): (c: char)
    requires d < 10
    ensures IsDigit(c) && c as int - '0' as int == d
  {
    ('0' as int + d) as char
  }

  function DigitValue(c: char): nat
    requires IsDigit(c)
  {
    c as int - '0' as int
  }

  /** n in decimal, without leading zeros. */
  function Decimal(n: nat): (s: string)
    ensures |s| >= 1 && AllDigits(s)
    ensures n < 10 <==> |s| == 1
  {
    if n < 10 then [DigitChar(n)] else Decimal(n / 10) + [DigitChar(n % 10)]
  }

  /** The number a string of digits denotes, leading zeros allowed. */
  function ValueOf(s: string): nat
    requires AllDigits(s)
  {
    if s == [] then 0 else ValueOf(s[..|s| - 1]) * 10 + DigitValue(s[|s| - 1])
  }

  /** k zero characters. */
  function Zeros(k: nat): (z: string)
    ensures |z| == k && AllDigits(z)
  {
    seq(k, _ => '0')
  }

  /** s with '0's in front until it is at least width characters long. */
  function ZeroPad(s: string, width: nat): string
  {
    if |s| >= width then s else Zeros(width - |s|) + s
  }

  function FrameFileName(i: nat): (name: string)
    ensures |name| >= 15 && name[..6] == "frame_" && name[|name| - 4..] == ".png"
  {
    "frame_" + ZeroPad(Decimal(i), 5) + ".png"
  }

  /** The frame index a file name of the export names, if it is one. */
  function ParseFrameFileName(name: string): Option<nat>
  {
    if |name| >= 15 && name[..6] == "frame_" && name[|name| - 4..] == ".png" && AllDigits(name[6..|name| - 4])
    then Some(ValueOf(name[6..|name| - 4]))
    else None
  }

  lemma {:induction false} ValueOfDecimal(n: nat)
    ensures ValueOf(Decimal(n)) == n
  {
    if n >= 10 {
      ValueOfDecimal(n / 10);
      var s := Decimal(n);
      assert s[..|s| - 1] == Decimal(n / 10);
    }
  }

  lemma {:induction false} LeadingZerosHaveNoValue(k: nat, s: string)
    requires AllDigits(s)
    ensures AllDigits(Zeros(k) + s) && ValueOf(Zeros(k) + s) == ValueOf(s)
  {
    if s != [] {
      var z := Zeros(k) + s;
      assert z[..|z| - 1] == Zeros(k) + s[..|s| - 1];
      LeadingZerosHaveNoValue(k, s[..|s| - 1]);
    } else {
      assert Zeros(k) + s == Zeros(k);
      AllZerosHaveNoValue(k);
    }
  }

  lemma {:induction false} AllZerosHaveNoValue(k: nat)
    ensures ValueOf(Zeros(k)) == 0
  {
    if k > 0 {
      assert Zeros(k)[..k - 1] == Zeros(k - 1);
      AllZerosHaveNoValue(k - 1);
    }
  }

  lemma ZeroPadKeepsValue(s: string, width: nat)
    requires AllDigits(s)
    ensures AllDigits(ZeroPad(s, width)) && ValueOf(ZeroPad(s, width)) == ValueOf(s)
  {
    if |s| < width {
      LeadingZerosHaveNoValue(width - |s|, s);
    }
  }

  function Pow10(k: nat): nat
  {
    if k == 0 then 1 else 10 * Pow10(k - 1)
  }

  lemma {:induction false} DecimalWidth(n: nat, k: nat)
    requires 1 <= k && n < Pow10(k)
    ensures |Decimal(n)| <= k
  {
    if n >= 10 {
      DecimalWidth(n / 10, k - 1);
    }
  }

  /** Below 100000 every name is exactly "frame_", five digits and ".png". */
  lemma FiveDigitFrameFileName(i: nat)
    requires i < 100000
    ensures |FrameFileName(i)| == 15
  {
    assert Pow10(5) == 100000;
    DecimalWidth(i, 5);
  }

  /** Parsing a frame's file name gives back the frame index. */
  lemma FrameFileNameRoundTrip(i: nat)
    ensures ParseFrameFileName(FrameFileName(i)) == Some(i)
  {
    var digits := ZeroPad(Decimal(i), 5);
    var name := FrameFileName(i);
    assert name[6..|name| - 4] == digits;
    ZeroPadKeepsValue(Decimal(i), 5);
    ValueOfDecimal(i);
  }

  /** Different frames get different file names. */
  lemma FrameFileNameInjective(i: nat, j: nat)
    requires FrameFileName(i) == FrameFileName(j)
    ensures i == j
  {
    FrameFileNameRoundTrip(i);
    FrameFileNameRoundTrip(j);
  }
}
