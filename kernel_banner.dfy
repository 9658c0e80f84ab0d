/**
 * `odmcheck_get_kernel_version`: the first line of /proc/version is scanned with
 * the format "Linux version %d.%d.%d-" and, when all three numbers convert,
 * "major.minor" is printed into the kernel-version field with "%d.%d".
 *
 * The parts of `sscanf` and `sprintf` this needs are modelled here: ordinary
 * format characters, white-space directives, `%d` in and `%d` out.
 */
module KernelBanner {
  import opened Wrappers
  import opened CString
  import opened Stdio
  import opened VersionInfo

  const INT_MIN: int := -0x8000_0000
  const INT_MAX: int := 0x7FFF_FFFF
  const INTMAX_MIN: int := -0x8000_0000_0000_0000
  const INTMAX_MAX: int := 0x7FFF_FFFF_FFFF_FFFF

  predicate IsInt32(n: int) { INT_MIN <= n <= INT_MAX }

  predicate AllDigits(s: string) {
    forall k :: 0 <= k < |s| ==> IsDigit(s[k])
  }

  function DigitValue(c: char): nat
    requires IsDigit(c)
  {
    (c as int) - ('0' as int)
  }

  /** The number a run of decimal digits denotes, most significant first. */
  function DigitsValue(ds: string): nat
    requires AllDigits(ds)
  {
    if ds == [] then 0 else 10 * DigitsValue(ds[..|ds| - 1]) + DigitValue(ds[|ds| - 1])
  }

  /** The conversion into the 64-bit `intmax_t`: out-of-range values clamp to the nearest bound. */
  function Saturate64(v: int): (r: int)
    ensures INTMAX_MIN <= r <= INTMAX_MAX
    ensures INTMAX_MIN <= v <= INTMAX_MAX ==> r == v
    ensures v < INTMAX_MIN ==> r == INTMAX_MIN
    ensures v > INTMAX_MAX ==> r == INTMAX_MAX
  {
    if v < INTMAX_MIN then INTMAX_MIN else if v > INTMAX_MAX then INTMAX_MAX else v
  }

  /** The store into a 32-bit `int`: the value modulo 2^32. */
  function ToInt32(v: int): (r: int)
    ensures IsInt32(r)
    ensures (r - v) % 0x1_0000_0000 == 0
    ensures IsInt32(v) ==> r == v
  {
    (v - INT_MIN) % 0x1_0000_0000 + INT_MIN
  }

  /**
   * A `%d` conversion at the start of `t`: white space, an optional sign and
   * at least one digit. The converted value and the number of characters the
   * conversion consumed, or None for a matching failure.
   */
  function ScanInt(t: string): (r: Option<(int, nat)>)
    ensures r.Some? ==> 0 < r.value.1 <= |t| && IsInt32(r.value.0)
  {
    var j := LeadingBlanks(t);
    var negative := j < |t| && t[j] == '-';
    var d := if j < |t| && (t[j] == '-' || t[j] == '+') then j + 1 else j;
    var e := d + LeadingDigits(t[d..]);
    if e == d then None
    else
      assert AllDigits(t[d..e]) by {
        LeadingDigitsAreDigits(t[d..]);
        assert t[d..e] == t[d..][..e - d];
      }
      Some((Convert(negative, DigitsValue(t[d..e])), e))
  }

  /** How many white-space characters `t` starts with. */
  function LeadingBlanks(t: string): (n: nat)
    ensures n <= |t|
  {
    if t != [] && IsSpace(t[0]) then 1 + LeadingBlanks(t[1..]) else 0
  }

  /** How many digits `t` starts with. */
  function LeadingDigits(t: string): (n: nat)
    ensures n <= |t|
  {
    if t != [] && IsDigit(t[0]) then 1 + LeadingDigits(t[1..]) else 0
  }

  lemma {:induction false} LeadingDigitsAreDigits(t: string)
    ensures AllDigits(t[..LeadingDigits(t)])
  {
    if t != [] && IsDigit(t[0]) {
      LeadingDigitsAreDigits(t[1..]);
      assert t[..LeadingDigits(t)] == [t[0]] + t[1..][..LeadingDigits(t[1..])];
    }
  }

  /** The digits a string starts with are exactly the run `ds` in front of a non-digit. */
  lemma {:induction false} LeadingDigitsOf(ds: string, u: string)
    requires AllDigits(ds) && (u == [] || !IsDigit(u[0]))
    ensures LeadingDigits(ds + u) == |ds|
  {
    if ds != [] {
      assert (ds + u)[1..] == ds[1..] + u;
      LeadingDigitsOf(ds[1..], u);
    }
  }

  /**
   * The value `%d` stores for a sign and a magnitude: the 64-bit conversion
   * (clamping), then the store into the `int` (wrap-around).
   */
  function Convert(negative: bool, magnitude: nat): (r: int)
    ensures IsInt32(r)
    ensures IsInt32(Signed(negative, magnitude)) ==> r == Signed(negative, magnitude)
  {
    ToInt32(Saturate64(Signed(negative, magnitude)))
  }

  function Signed(negative: bool, magnitude: nat): int {
    if negative then -(magnitude as int) else magnitude
  }

  /**
   * The part of the format before the first conversion: "Linux", white space,
   * "version", white space. The number of characters it consumes, or None.
   */
  function ScanHeader(t: string): (r: Option<nat>)
    ensures r.Some? ==> 12 <= r.value <= |t| && t[..5] == "Linux"
  {
    if |t| < 5 || t[..5] != "Linux" then None else
    var p := 5 + LeadingBlanks(t[5..]);
    if |t| < p + 7 || t[p..p + 7] != "version" then None else
    Some(p + 7 + LeadingBlanks(t[p + 7..]))
  }

  /** The format piece ".%d" at the start of `t`. */
  function ScanDotInt(t: string): (r: Option<(int, nat)>)
    ensures r.Some? ==> 1 < r.value.1 <= |t| && IsInt32(r.value.0)
  {
    if t != [] && t[0] == '.' then
      match ScanInt(t[1..])
      case None => None
      case Some((v, k)) => Some((v, k + 1))
    else None
  }

  /** The rest of the format: "%d.%d.%d-". */
  function ScanNumbers(t: string): (r: Option<(int, int, int)>)
    ensures r.Some? ==> IsInt32(r.value.0) && IsInt32(r.value.1) && IsInt32(r.value.2)
  {
    match ScanInt(t)
    case None => None
    case Some((major, k)) => ScanMinorMicro(t[k..], major)
  }

  /** ".%d.%d-" after the major number. */
  function ScanMinorMicro(t: string, major: int): (r: Option<(int, int, int)>)
    requires IsInt32(major)
    ensures r.Some? ==> r.value.0 == major && IsInt32(r.value.1) && IsInt32(r.value.2)
  {
    match ScanDotInt(t)
    case None => None
    case Some((minor, k)) => ScanMicro(t[k..], major, minor)
  }

  /** ".%d-" after the minor number. */
  function ScanMicro(t: string, major: int, minor: int): (r: Option<(int, int, int)>)
    requires IsInt32(major) && IsInt32(minor)
    ensures r.Some? ==> r.value.0 == major && r.value.1 == minor && IsInt32(r.value.2)
  {
    match ScanDotInt(t)
    case None => None
    case Some((micro, _)) => Some((major, minor, micro))
  }

  /**
   * `sscanf(s, "Linux version %d.%d.%d-", &major, &minor, &micro)`: the three
   * numbers exactly when the call assigns all three. Each blank of the format
   * matches any run of white space, an empty one too. The closing '-' comes
   * after the last conversion, so whether it matches does not change the count.
   */
  function ScanBanner(s: string): (r: Option<(int, int, int)>)
    ensures r.Some? ==> |s| >= 5 && s[..5] == "Linux"
    ensures r.Some? ==> IsInt32(r.value.0) && IsInt32(r.value.1) && IsInt32(r.value.2)
  {
    match ScanHeader(s)
    case None => None
    case Some(p) => ScanNumbers(s[p..])
  }

  function DigitChar(d: nat): (c: char)
    requires d < 10
    ensures IsDigit(c) && DigitValue(c) == d
  {
    ('0' as int + d) as char
  }

  /** The decimal digits of `n`, with no leading zero. */
  function Digits(n: nat): (s: string)
    ensures s != [] && AllDigits(s)
    ensures n > 0 ==> s[0] != '0'
  {
    if n < 10 then [DigitChar(n)] else Digits(n / 10) + [DigitChar(n % 10)]
  }

  /** `%d` in `printf`: a minus sign for a negative number, then its digits. */
  function Decimal(n: int): (s: string)
    ensures s != []
  {
    if n < 0 then "-" + Digits(-n) else Digits(n)
  }

  /** The printed form of a number: an optional '-', then digits only. */
  lemma DecimalShape(n: int)
    ensures var s := Decimal(n);
      && NUL !in s && '\n' !in s && !IsSpace(s[0])
      && (s[0] == '-' <==> n < 0)
      && (n < 0 ==> s[1..] == Digits(-n))
      && (n >= 0 ==> s == Digits(n))
      && forall k :: 0 <= k < |s| ==> s[k] == '-' || IsDigit(s[k])
  {
    var s := Decimal(n);
    assert forall k :: 0 <= k < |s| ==> s[k] == '-' || IsDigit(s[k]);
  }

  function Pow10(k: nat): nat {
    if k == 0 then 1 else 10 * Pow10(k - 1)
  }

  /** Reading the digits of `n` back gives `n`. */
  lemma {:induction false} DigitsRoundTrip(n: nat)
    ensures DigitsValue(Digits(n)) == n
    decreases n
  {
    if n >= 10 {
      var s := Digits(n);
      assert s[..|s| - 1] == Digits(n / 10);
      DigitsRoundTrip(n / 10);
    }
  }

  /** A number below 10^k has at most k digits. */
  lemma {:induction false} DigitsLength(n: nat, k: nat)
    requires 0 < k && n < Pow10(k)
    ensures |Digits(n)| <= k
    decreases k
  {
    if n >= 10 {
      DigitsLength(n / 10, k - 1);
    }
  }

  /** A 32-bit `int` prints in at most 11 characters. */
  lemma DecimalLength(n: int)
    requires IsInt32(n)
    ensures |Decimal(n)| <= 11
  {
    assert Pow10(10) == 10_000_000_000;
    if n < 0 {
      DigitsLength(-n, 10);
    } else {
      DigitsLength(n, 10);
    }
  }

  /**
   * `%d` reads back what `%d` printed, stopping where the printed number ends
   * as long as no digit follows it.
   */
  lemma ScanIntOfDecimal(n: int, u: string)
    requires IsInt32(n)
    requires u == [] || !IsDigit(u[0])
    ensures ScanInt(Decimal(n) + u) == Some((n, |Decimal(n)|))
  {
    var t := Decimal(n);
    var s := t + u;
    DecimalShape(n);
    var e := |t|;
    var m := if n < 0 then -n else n;
    var d := if n < 0 then 1 else 0;
    assert s[0] == t[0];
    assert s[d..] == Digits(m) + u by {
      if n < 0 {
        assert s[1..] == t[1..] + u;
      }
    }
    assert s[d..e] == Digits(m) by {
      if n < 0 {
        assert s[d..e] == t[1..];
      } else {
        assert s[d..e] == t;
      }
    }
    assert d < e && LeadingDigits(s[d..]) == e - d by {
      LeadingDigitsOf(Digits(m), u);
    }
    assert DigitsValue(s[d..e]) == m by {
      DigitsRoundTrip(m);
    }
    assert Signed(n < 0, m) == n;
    ScanIntUnsigned(s, n < 0, d, e);
  }

  /** How `%d` reads a conversion that starts at once, with no white space. */
  lemma ScanIntUnsigned(t: string, negative: bool, d: nat, e: nat)
    requires t != [] && !IsSpace(t[0]) && (t[0] == '-' <==> negative)
    requires d == (if t[0] == '-' || t[0] == '+' then 1 else 0)
    requires d < e <= |t| && LeadingDigits(t[d..]) == e - d && AllDigits(t[d..e])
    ensures ScanInt(t) == Some((Convert(negative, DigitsValue(t[d..e])), e))
  {
    assert LeadingBlanks(t) == 0;
  }

  /** ".%d" reads back a '.' and a printed number. */
  lemma ScanDotIntOfDecimal(n: int, u: string)
    requires IsInt32(n)
    requires u == [] || !IsDigit(u[0])
    ensures ScanDotInt("." + (Decimal(n) + u)) == Some((n, |Decimal(n)| + 1))
  {
    var t := "." + (Decimal(n) + u);
    assert t[1..] == Decimal(n) + u;
    ScanIntOfDecimal(n, u);
  }

  /** The first line of /proc/version for a kernel major.minor.micro. */
  function BannerText(major: int, minor: int, micro: int): string {
    "Linux version " + Decimal(major) + "." + Decimal(minor) + "." + Decimal(micro)
  }

  /** The header matches "Linux version " in front of anything that does not start with white space. */
  lemma HeaderOf(x: string)
    requires x != [] && !IsSpace(x[0])
    ensures ScanHeader("Linux version " + x) == Some(14)
  {
    var s := "Linux version " + x;
    assert s[..5] == "Linux";
    assert s[5..][0] == ' ' && s[5..][1..][0] == 'v';
    assert LeadingBlanks(s[5..]) == 1;
    assert s[6..13] == "version";
    assert s[13..][0] == ' ' && s[13..][1..][0] == x[0];
    assert LeadingBlanks(s[13..]) == 1;
  }

  /** "%d.%d.%d" reads back three printed numbers. */
  lemma NumbersRoundTrip(major: int, minor: int, micro: int, rest: string)
    requires IsInt32(major) && IsInt32(minor) && IsInt32(micro)
    requires rest == [] || !IsDigit(rest[0])
    ensures ScanNumbers(Decimal(major) + ("." + (Decimal(minor) + ("." + (Decimal(micro) + rest))))) ==
      Some((major, minor, micro))
  {
    var u := "." + (Decimal(minor) + ("." + (Decimal(micro) + rest)));
    var t := Decimal(major) + u;
    ScanIntOfDecimal(major, u);
    DropConcat(Decimal(major), u);
    assert t[|Decimal(major)|..] == u;
    MinorMicroRoundTrip(major, minor, micro, rest);
  }

  lemma MinorMicroRoundTrip(major: int, minor: int, micro: int, rest: string)
    requires IsInt32(major) && IsInt32(minor) && IsInt32(micro)
    requires rest == [] || !IsDigit(rest[0])
    ensures ScanMinorMicro("." + (Decimal(minor) + ("." + (Decimal(micro) + rest))), major) ==
      Some((major, minor, micro))
  {
    var w := "." + (Decimal(micro) + rest);
    var u := "." + (Decimal(minor) + w);
    ScanDotIntOfDecimal(minor, w);
    DropDot(Decimal(minor), w);
    assert u[|Decimal(minor)| + 1..] == w;
    MicroRoundTrip(major, minor, micro, rest);
  }

  lemma MicroRoundTrip(major: int, minor: int, micro: int, rest: string)
    requires IsInt32(major) && IsInt32(minor) && IsInt32(micro)
    requires rest == [] || !IsDigit(rest[0])
    ensures ScanMicro("." + (Decimal(micro) + rest), major, minor) == Some((major, minor, micro))
  {
    ScanDotIntOfDecimal(micro, rest);
  }

  /** Dropping the first part of a concatenation leaves the second. */
  lemma DropConcat(a: string, b: string)
    ensures (a + b)[|a|..] == b
  {
  }

  lemma DropDot(c: string, d: string)
    ensures ("." + (c + d))[|c| + 1..] == d
  {
    assert "." + (c + d) == ("." + c) + d;
  }

  /**
   * The banner of a kernel scans back to its three numbers, whatever follows
   * the micro number as long as it does not start with a digit; the '-' the
   * format ends with is not needed.
   */
  lemma BannerRoundTrip(major: int, minor: int, micro: int, rest: string)
    requires IsInt32(major) && IsInt32(minor) && IsInt32(micro)
    requires rest == [] || !IsDigit(rest[0])
    ensures ScanBanner(BannerText(major, minor, micro) + rest) == Some((major, minor, micro))
  {
    var x := Decimal(major) + ("." + (Decimal(minor) + ("." + (Decimal(micro) + rest))));
    BannerTextShape(major, minor, micro, rest);
    DecimalShape(major);
    HeaderOf(x);
    DropConcat("Linux version ", x);
    NumbersRoundTrip(major, minor, micro, rest);
  }

  lemma BannerTextShape(major: int, minor: int, micro: int, rest: string)
    ensures BannerText(major, minor, micro) + rest ==
      "Linux version " + (Decimal(major) + ("." + (Decimal(minor) + ("." + (Decimal(micro) + rest)))))
  {
  }

  /** What `sprintf(kernel_version, "%d.%d", major, minor)` writes. */
  function VersionText(major: int, minor: int): (t: string)
    requires IsInt32(major) && IsInt32(minor)
    ensures 3 <= |t| <= 23 && NUL !in t
  {
    DecimalLength(major);
    DecimalLength(minor);
    DecimalShape(major);
    DecimalShape(minor);
    Decimal(major) + "." + Decimal(minor)
  }

  /** The text written reads back with "%d.%d": first the major number... */
  lemma VersionTextMajor(major: int, minor: int)
    requires IsInt32(major) && IsInt32(minor)
    ensures ScanInt(VersionText(major, minor)) == Some((major, |Decimal(major)|))
  {
    assert VersionText(major, minor) == Decimal(major) + ("." + (Decimal(minor) + ""));
    ScanIntOfDecimal(major, "." + (Decimal(minor) + ""));
  }

  /** ...then the '.' and the minor number, up to the end of the text. */
  lemma VersionTextMinor(major: int, minor: int)
    requires IsInt32(major) && IsInt32(minor)
    ensures var t := VersionText(major, minor);
      ScanDotInt(t[|Decimal(major)|..]) == Some((minor, |t| - |Decimal(major)|))
  {
    var t, d := VersionText(major, minor), |Decimal(major)|;
    VersionTextTail(major, minor);
    var tail := "." + (Decimal(minor) + "");
    assert t[d..] == tail;
    ScanDotIntOfDecimal(minor, "");
    assert |tail| == |Decimal(minor)| + 1;
  }

  lemma VersionTextTail(major: int, minor: int)
    requires IsInt32(major) && IsInt32(minor)
    ensures VersionText(major, minor)[|Decimal(major)|..] == "." + (Decimal(minor) + "")
  {
  }

  /**
   * The return value of `odmcheck_get_kernel_version` and the kernel-version
   * buffer after it. `banner` is the content of /proc/version, None when it
   * cannot be opened. Only a banner whose first line scans writes the buffer.
   */
  function KernelVersionSpec(banner: Option<string>, buf: seq<char>): (r: (int, seq<char>))
    requires |buf| == PROPERTY_VALUE_MAX
    ensures r.0 == 0 || r.0 == -1
    ensures |r.1| == |buf|
    ensures r.0 == -1 ==> r.1 == buf
    ensures r.0 == 0 <==>
      banner.Some? && banner.value != [] && ScanBanner(Str(NextLine(banner.value), 0)).Some?
    ensures r.0 == 0 ==>
      var v := ScanBanner(Str(NextLine(banner.value), 0)).value;
      Str(r.1, 0) == VersionText(v.0, v.1) && r.1[0] != NUL
  {
    if banner.None? || banner.value == [] then (-1, buf)
    else
      match ScanBanner(Str(NextLine(banner.value), 0))
      case None => (-1, buf)
      case Some((major, minor, _)) =>
        (0, WithCStr(buf, VersionText(major, minor)))
  }

  /** A kernel's own banner yields its "major.minor", whatever the rest of the line and file hold. */
  lemma KernelVersionOfBanner(major: int, minor: int, micro: int, rest: string, buf: seq<char>)
    requires IsInt32(major) && IsInt32(minor) && IsInt32(micro)
    requires rest == [] || !IsDigit(rest[0])
    requires |buf| == PROPERTY_VALUE_MAX
    ensures KernelVersionSpec(Some(BannerText(major, minor, micro) + rest), buf) ==
      (0, WithCStr(buf, VersionText(major, minor)))
  {
    var p := BannerText(major, minor, micro);
    DecimalLength(major);
    DecimalLength(minor);
    DecimalLength(micro);
    DecimalShape(major);
    DecimalShape(minor);
    DecimalShape(micro);
    var j := NextLineKeepsPrefix(p, rest);
    BannerRoundTrip(major, minor, micro, rest[..j]);
  }

  lemma DecimalExamples()
    ensures Decimal(4) == "4" && Decimal(9) == "9" && Decimal(117) == "117"
  {
    assert Digits(11) == "11";
  }

  /** The typical case: a 4.9 kernel reports "4.9". */
  lemma KernelVersionExample(buf: seq<char>)
    requires |buf| == PROPERTY_VALUE_MAX
    ensures var r := KernelVersionSpec(Some("Linux version 4.9.117" + "-perf+ (gcc) #1 SMP PREEMPT\n"), buf);
      r.0 == 0 && Str(r.1, 0) == "4.9"
  {
    var rest := "-perf+ (gcc) #1 SMP PREEMPT\n";
    ExampleTexts(rest);
    assert rest[0] == '-';
    KernelVersionOfBanner(4, 9, 117, rest, buf);
    assert NUL !in "4.9";
  }

  lemma ExampleTexts(rest: string)
    ensures BannerText(4, 9, 117) + rest == "Linux version 4.9.117" + rest
    ensures VersionText(4, 9) == "4.9"
  {
    DecimalExamples();
  }

  /** Two numbers are not enough: the third conversion fails. */
  lemma TwoNumbersAreRejected()
    ensures ScanBanner("Linux version 4.9") == None
  {
    DecimalExamples();
    var x := "4.9";
    assert "Linux version 4.9" == "Linux version " + x;
    HeaderOf(x);
    assert ("Linux version " + x)[14..] == x;
    var rest := "." + (Decimal(9) + "");
    assert x == Decimal(4) + rest;
    ScanIntOfDecimal(4, rest);
    assert ScanNumbers(x) == ScanMinorMicro(rest, 4);
    ScanDotIntOfDecimal(9, "");
    assert rest[2..] == [];
    assert ScanMinorMicro(rest, 4) == ScanMicro([], 4, 9);
  }

  /** `odmcheck_get_kernel_version(kernel_version)` with /proc/version holding `banner`. */
  method GetKernelVersion(banner: Option<string>, kernelVersion: array<char>) returns (ret: int)
    requires kernelVersion.Length == PROPERTY_VALUE_MAX
    modifies kernelVersion
    ensures (ret, kernelVersion[..]) == KernelVersionSpec(banner, old(kernelVersion[..]))
  {
    ret := -1;
    if banner.None? {
      return;
    }
    var f := new File.Open(banner.value);
    var line := new char[LINE_BUFFER];
    var ok := f.Fgets(line);
    if ok {
      var parsed := ScanBanner(Str(line[..], 0));
      assert Str(line[..], 0) == Str(NextLine(banner.value), 0);
      if parsed.Some? {
        var (major, minor, _) := parsed.value;
        PutCStr(kernelVersion, VersionText(major, minor));
        ret := 0;
      }
    }
  }
}
