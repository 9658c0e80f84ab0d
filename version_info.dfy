/**
 * `struct odmcheck_version_info`: four fixed-size character fields, as a value
 * (`Record`, the bytes of the struct) and as the object the program fills in
 * place (`Info`, four arrays).
 */
module VersionInfo {
  import opened CString

  /** PROPERTY_VALUE_MAX of Android's cutils/properties.h: the size of each field. */
  const PROPERTY_VALUE_MAX: nat := 92

  /** The four fields, in the order the struct declares them. */
  datatype Field = Android | Kernel | Odm | Platform

  /** Where field `f` starts in the struct's memory. */
  function Offset(f: Field): nat {
    match f
    case Android => 0
    case Kernel => PROPERTY_VALUE_MAX
    case Odm => 2 * PROPERTY_VALUE_MAX
    case Platform => 3 * PROPERTY_VALUE_MAX
  }

  function Zeros(n: nat): (z: seq<char>)
    ensures |z| == n && forall k :: 0 <= k < n ==> z[k] == NUL
  {
    seq(n, _ => NUL)
  }

  /** The contents of the four fields, byte for byte (terminators and padding included). */
  datatype Record = Record(android: seq<char>, kernel: seq<char>, odm: seq<char>, platform: seq<char>)
  {
    /** Every field has the size of its array. */
    predicate Valid() {
      |android| == PROPERTY_VALUE_MAX && |kernel| == PROPERTY_VALUE_MAX &&
      |odm| == PROPERTY_VALUE_MAX && |platform| == PROPERTY_VALUE_MAX
    }

    function Get(f: Field): seq<char> {
      match f
      case Android => android
      case Kernel => kernel
      case Odm => odm
      case Platform => platform
    }

    /** The record with field `f` replaced and the other three as they were. */
    function Set(f: Field, v: seq<char>): (r: Record)
      ensures r.Get(f) == v
      ensures forall g :: g != f ==> r.Get(g) == Get(g)
    {
      match f
      case Android => this.(android := v)
      case Kernel => this.(kernel := v)
      case Odm => this.(odm := v)
      case Platform => this.(platform := v)
    }

    /** The struct's memory: the four arrays back to back (char arrays need no padding). */
    function Bytes(): (b: seq<char>)
      ensures Valid() ==> |b| == 4 * PROPERTY_VALUE_MAX
      ensures |android| <= |b| && b[..|android|] == android
      ensures forall f, k :: Valid() && 0 <= k < PROPERTY_VALUE_MAX ==> b[Offset(f) + k] == Get(f)[k]
    {
      android + kernel + odm + platform
    }

    /** `info.f[0] != 0`: the field holds a non-empty string. */
    predicate Present(f: Field)
      requires Valid()
    {
      Get(f)[0] != NUL
    }

    /** The completeness test of `main`: no field is the empty string. */
    predicate Complete(): (c: bool)
      requires Valid()
      ensures c <==> forall f :: Str(Get(f), 0) != []
    {
      Present(Android) && Present(Kernel) && Present(Odm) && Present(Platform)
    }
  }

  /** A record after `memset(&info, 0, sizeof(info))`. */
  const Zero: Record := Record(Zeros(PROPERTY_VALUE_MAX), Zeros(PROPERTY_VALUE_MAX),
                               Zeros(PROPERTY_VALUE_MAX), Zeros(PROPERTY_VALUE_MAX))

  /** The cleared struct: every byte of it is zero, and no field holds a string. */
  lemma ZeroIsCleared()
    ensures Zero.Valid() && Zero.Bytes() == Zeros(4 * PROPERTY_VALUE_MAX)
    ensures forall f :: Str(Zero.Get(f), 0) == []
  {
  }

  /** Records agreeing on all four fields are the same record. */
  lemma RecordExt(a: Record, b: Record)
    requires forall f :: a.Get(f) == b.Get(f)
    ensures a == b
  {
    assert a.Get(Android) == b.Get(Android) && a.Get(Kernel) == b.Get(Kernel);
    assert a.Get(Odm) == b.Get(Odm) && a.Get(Platform) == b.Get(Platform);
  }

  /** A valid record's memory determines the record. */
  lemma BytesInjective(a: Record, b: Record)
    requires a.Valid() && b.Valid() && a.Bytes() == b.Bytes()
    ensures a == b
  {
    var n := PROPERTY_VALUE_MAX;
    var x, y := a.Bytes(), b.Bytes();
    assert x[..n] == a.android && y[..n] == b.android;
    assert x[n..2 * n] == a.kernel && y[n..2 * n] == b.kernel;
    assert x[2 * n..3 * n] == a.odm && y[2 * n..3 * n] == b.odm;
    assert x[3 * n..] == a.platform && y[3 * n..] == b.platform;
  }

  /**
   * `odmcheck_compare_versions`: one `memcmp` over the whole struct. It is 0
   * exactly when the two records agree byte for byte in all four fields.
   */
  function CompareVersions(info: Record, buildInfo: Record): (r: int)
    requires info.Valid() && buildInfo.Valid()
    ensures r == 0 <==> info == buildInfo
  {
    var r := MemCmp(info.Bytes(), buildInfo.Bytes());
    assert r == 0 ==> info == buildInfo by {
      if r == 0 {
        BytesInjective(info, buildInfo);
      }
    }
    r
  }

  /** A difference in any one field, whichever it is, is a mismatch. */
  lemma OneFieldDiffers(a: Record, f: Field, v: seq<char>)
    requires a.Valid() && |v| == PROPERTY_VALUE_MAX && v != a.Get(f)
    ensures a.Set(f, v).Valid()
    ensures CompareVersions(a, a.Set(f, v)) != 0
  {
    assert a.Set(f, v).Get(f) != a.Get(f);
  }

  /** The struct as the program holds it: four arrays that it overwrites in place. */
  class Info {
    const android: array<char>
    const kernel: array<char>
    const odm: array<char>
    const platform: array<char>

    /** The struct declared and cleared with `memset(&info, 0, sizeof(info))`. */
    constructor ()
      ensures Valid() && fresh(Repr()) && Value() == Zero
    {
      android := new char[PROPERTY_VALUE_MAX](_ => NUL);
      kernel := new char[PROPERTY_VALUE_MAX](_ => NUL);
      odm := new char[PROPERTY_VALUE_MAX](_ => NUL);
      platform := new char[PROPERTY_VALUE_MAX](_ => NUL);
    }

    function Repr(): set<object> {
      {android, kernel, odm, platform}
    }

    /** Four separate arrays of the field size. */
    predicate Valid() {
      && android.Length == PROPERTY_VALUE_MAX && kernel.Length == PROPERTY_VALUE_MAX
      && odm.Length == PROPERTY_VALUE_MAX && platform.Length == PROPERTY_VALUE_MAX
      && android != kernel && android != odm && android != platform
      && kernel != odm && kernel != platform && odm != platform
    }

    /** The array that backs field `f`. */
    function Buffer(f: Field): (a: array<char>)
      ensures a in Repr()
    {
      match f
      case Android => android
      case Kernel => kernel
      case Odm => odm
      case Platform => platform
    }

    function Value(): (r: Record)
      reads Repr()
      ensures Valid() ==> r.Valid()
      ensures forall f :: r.Get(f) == Buffer(f)[..]
    {
      Record(android[..], kernel[..], odm[..], platform[..])
    }
  }
}
