/**
 * Decimal rendering of frame indices, as used in the CSV column names
 * (`frame_{i}`) and in the per-frame artifact file names
 * (`mask_{frame_num:04d}.png`, `frame_{frame_num:04d}.png`).
 */
module Naming {
  import opened Wrappers

  predicate IsDigit(c: char) {
    '0' <= c <= '9'
  }

  predicate AllDigits(s: string) {
    forall i :: 0 <= i < |s| ==> IsDigit(s[i])
  }

  function DigitValue(c: char): (d: nat)
    requires IsDigit(c)
    ensures d < 10
  {
    c as int - '0' as int
  }

  function Digit(d: nat): (c: char)
    requires d < 10
    ensures IsDigit(c) && DigitValue(c) == d
  {
    ('0' as int + d) as char
  }

  /** The decimal digits of n with no leading zero, as Python's str(n) gives them. */
  function Decimal(n: nat): (s: string)
    ensures 1 <= |s| && AllDigits(s)
    ensures s[0] == '0' ==> n == 0
  {
    if n < 10 then [Digit(n)] else Decimal(n / 10) + [Digit(n % 10)]
  }

  /** The number a string of decimal digits denotes (leading zeros allowed). */
  function DecimalValue(s: string): nat
    requires AllDigits(s)
  {
    if s == [] then 0 else 10 * DecimalValue(s[..|s| - 1]) + DigitValue(s[|s| - 1])
  }

  function Pow10(k: nat): (p: nat)
    ensures p >= 1
  {
    if k == 0 then 1 else 10 * Pow10(k - 1)
  }

  /** Reading back a rendered number gives the number. */
  lemma {:induction false} DecimalRoundTrip(n: nat)
    ensures DecimalValue(Decimal(n)) == n
  {
    if n >= 10 {
      var s := Decimal(n);
      assert s[..|s| - 1] == Decimal(n / 10);
      DecimalRoundTrip(n / 10);
    }
  }

  /** Different numbers have different renderings. */
  lemma DecimalInjective(a: nat, b: nat)
    ensures Decimal(a) == Decimal(b) ==> a == b
  {
    DecimalRoundTrip(a);
    DecimalRoundTrip(b);
  }

  /** For k >= 1, n has at most k digits exactly when n < 10^k. */
  lemma {:induction false} DecimalLength(n: nat, k: nat)
    requires 1 <= k
    ensures |Decimal(n)| <= k <==> n < Pow10(k)
  {
    if n >= 10 {
      if k == 1 {
        assert |Decimal(n)| == |Decimal(n / 10)| + 1;
      } else {
        DecimalLength(n / 10, k - 1);
        assert n / 10 < Pow10(k - 1) <==> n < 10 * Pow10(k - 1);
      }
    } else {
      assert Pow10(k) == 10 * Pow10(k - 1);
    }
  }

  function Zeros(k: nat): (s: string)
    ensures |s| == k && AllDigits(s)
    ensures forall i :: 0 <= i < k ==> s[i] == '0'
  {
    seq(k, _ => '0')
  }

  /** Leading zeros do not change the value of a digit string. */
  lemma {:induction false} LeadingZeros(k: nat, s: string)
    requires AllDigits(s)
    ensures DecimalValue(Zeros(k) + s) == DecimalValue(s)
    decreases |s|, k
  {
    if s == [] {
      assert Zeros(k) + s == Zeros(k);
      if k > 0 {
        assert Zeros(k)[..k - 1] == Zeros(k - 1) + [];
        LeadingZeros(k - 1, []);
      }
    } else {
      var t := Zeros(k) + s;
      assert t[..|t| - 1] == Zeros(k) + s[..|s| - 1];
      LeadingZeros(k, s[..|s| - 1]);
    }
  }

  /** Python's "{n:04d}": the decimal digits of n, left-padded with zeros to width 4. */
  function ZeroPad4(n: nat): (s: string)
    ensures AllDigits(s)
    ensures |s| == if |Decimal(n)| < 4 then 4 else |Decimal(n)|
  {
    var d := Decimal(n);
    if |d| < 4 then Zeros(4 - |d|) + d else d
  }

  /** The padded index reads back as the index. */
  lemma ZeroPad4RoundTrip(n: nat)
    ensures DecimalValue(ZeroPad4(n)) == n
  {
    var d := Decimal(n);
    if |d| < 4 {
      LeadingZeros(4 - |d|, d);
    }
    DecimalRoundTrip(n);
  }

  /** The padded index is exactly four characters wide for indices below 10000, wider beyond. */
  lemma ZeroPad4Width(n: nat)
    ensures |ZeroPad4(n)| == 4 <==> n < 10000
    ensures |ZeroPad4(n)| >= 4
  {
    DecimalLength(n, 4);
    assert Pow10(4) == 10000;
  }

  /** The binary-mask image written for frame n: the frame index reads back from the name. */
  function MaskFileName(n: nat): (name: string)
    ensures ParseArtifactName("mask_", name) == Some(n)
  {
    ArtifactNameRoundTrip("mask_", n);
    "mask_" + ZeroPad4(n) + ".png"
  }

  /** The contour-overlay image written for frame n: the frame index reads back from the name. */
  function OverlayFileName(n: nat): (name: string)
    ensures ParseArtifactName("frame_", name) == Some(n)
  {
    ArtifactNameRoundTrip("frame_", n);
    "frame_" + ZeroPad4(n) + ".png"
  }

  /**
   * Recovers the frame index from an artifact name of the form
   * prefix + at least four digits + ".png".
   */
  function ParseArtifactName(prefix: string, name: string): Option<nat> {
    if |name| >= |prefix| + 4 + 4 && name[..|prefix|] == prefix && name[|name| - 4..] == ".png"
       && AllDigits(name[|prefix|..|name| - 4])
    then Some(DecimalValue(name[|prefix|..|name| - 4]))
    else None
  }

  /** Parsing an artifact name built for frame n gives back n. */
  lemma ArtifactNameRoundTrip(prefix: string, n: nat)
    ensures ParseArtifactName(prefix, prefix + ZeroPad4(n) + ".png") == Some(n)
  {
    var p := ZeroPad4(n);
    var name := prefix + p + ".png";
    ZeroPad4Width(n);
    assert name[..|prefix|] == prefix;
    assert name[|name| - 4..] == ".png";
    assert name[|prefix|..|name| - 4] == p;
    ZeroPad4RoundTrip(n);
  }

  /** Distinct frames get distinct mask files and distinct overlay files, and the two kinds never collide. */
  lemma ArtifactNamesDistinct(a: nat, b: nat)
    ensures MaskFileName(a) == MaskFileName(b) ==> a == b
    ensures OverlayFileName(a) == OverlayFileName(b) ==> a == b
    ensures MaskFileName(a) != OverlayFileName(b)
  {
    ArtifactNameRoundTrip("mask_", a);
    ArtifactNameRoundTrip("mask_", b);
    ArtifactNameRoundTrip("frame_", a);
    ArtifactNameRoundTrip("frame_", b);
    assert MaskFileName(a)[0] == 'm' && OverlayFileName(b)[0] == 'f';
  }

  /** The first processed frame writes mask_0000.png and frame_0000.png. */
  lemma FirstArtifactNames()
    ensures MaskFileName(0) == "mask_0000.png"
    ensures OverlayFileName(0) == "frame_0000.png"
  {
    assert Decimal(0) == "0";
    assert Zeros(3) == "000";
  }
}
