/**
 * `odmcheck_read_build_prop`: the record the running system reports, from the
 * property store (three keys) and the kernel banner (the fourth field).
 */
module BuildProp {
  import opened Wrappers
  import opened CString
  import opened Stdio
  import opened VersionInfo
  import opened KernelBanner

  const BUILD_PROP_ANDROID_VERSION: string := "ro.build.version.release"
  const BUILD_PROP_ODM_VERSION: string := "ro.vendor.version"
  const BUILD_PROP_PLATFORM_VERSION: string := "ro.board.platform"

  /** The system property store, as the key-to-value table it serves. */
  type Store = map<string, string>

  /**
   * What a lookup of `key` hands back: the stored C string, cut to the
   * PROPERTY_VALUE_MAX - 1 characters that fit the caller's buffer with its
   * terminator, or the empty string for a key the store does not hold.
   */
  function PropertyValue(props: Store, key: string): (v: string)
    ensures |v| < PROPERTY_VALUE_MAX && NUL !in v
    ensures key !in props ==> v == []
    ensures key in props && |Str(props[key], 0)| < PROPERTY_VALUE_MAX ==> v == Str(props[key], 0)
    ensures key in props ==> v == Str(props[key], 0)[..|v|]
  {
    if key !in props then []
    else
      var c := Str(props[key], 0);
      if |c| < PROPERTY_VALUE_MAX then c else c[..PROPERTY_VALUE_MAX - 1]
  }

  /** The store holds a non-empty value for `key`. */
  predicate PropertySet(props: Store, key: string): (b: bool)
    ensures b <==> PropertyValue(props, key) != []
  {
    key in props && Str(props[key], 0) != []
  }

  /**
   * `property_get(key, value, NULL)` on a buffer of PROPERTY_VALUE_MAX bytes: the
   * value (or, for a missing key, the empty string) stored as a C string, and its
   * length returned; a length of 0 is how a caller sees a missing or empty value.
   */
  function PropertyGetSpec(props: Store, key: string, buf: seq<char>): (r: (int, seq<char>))
    requires |buf| == PROPERTY_VALUE_MAX
    ensures 0 <= r.0 < PROPERTY_VALUE_MAX && |r.1| == |buf|
    ensures r.0 > 0 <==> PropertySet(props, key)
    ensures r.0 == |Str(r.1, 0)| && r.1[r.0] == NUL
    ensures key !in props ==> Str(r.1, 0) == []
    ensures key in props && |Str(props[key], 0)| < PROPERTY_VALUE_MAX ==> Str(r.1, 0) == Str(props[key], 0)
    ensures r.1[r.0 + 1..] == buf[r.0 + 1..]
  {
    var v := PropertyValue(props, key);
    (|v|, WithCStr(buf, v))
  }

  /** `property_get` writing into the caller's array. */
  method PropertyGet(props: Store, key: string, value: array<char>) returns (len: int)
    requires value.Length == PROPERTY_VALUE_MAX
    modifies value
    ensures (len, value[..]) == PropertyGetSpec(props, key, old(value[..]))
  {
    var v := PropertyValue(props, key);
    PutCStr(value, v);
    len := |v|;
  }

  /** The kernel banner yields a version: the first line scans as "Linux version %d.%d.%d". */
  predicate BannerParses(banner: Option<string>) {
    banner.Some? && banner.value != [] && ScanBanner(Str(NextLine(banner.value), 0)).Some?
  }

  /** Every one of the four reads succeeds. */
  predicate AllAvailable(props: Store, banner: Option<string>): (b: bool)
    ensures b <==>
      && PropertyGetSpec(props, BUILD_PROP_ANDROID_VERSION, Zeros(PROPERTY_VALUE_MAX)).0 > 0
      && KernelVersionSpec(banner, Zeros(PROPERTY_VALUE_MAX)).0 == 0
      && PropertyGetSpec(props, BUILD_PROP_ODM_VERSION, Zeros(PROPERTY_VALUE_MAX)).0 > 0
      && PropertyGetSpec(props, BUILD_PROP_PLATFORM_VERSION, Zeros(PROPERTY_VALUE_MAX)).0 > 0
  {
    && PropertySet(props, BUILD_PROP_ANDROID_VERSION)
    && BannerParses(banner)
    && PropertySet(props, BUILD_PROP_ODM_VERSION)
    && PropertySet(props, BUILD_PROP_PLATFORM_VERSION)
  }

  /**
   * The four reads chained by `||`: android, kernel, odm, platform. The first
   * failure stops the chain and makes the result -1; whatever the reads before
   * it (and the failing read itself) wrote stays in the record.
   */
  function ReadBuildPropSpec(props: Store, banner: Option<string>, rec: Record): (r: (int, Record))
    requires rec.Valid()
    ensures r.0 == 0 || r.0 == -1
    ensures r.1.Valid()
    ensures r.0 == 0 <==> AllAvailable(props, banner)
    ensures r.0 == 0 ==> r.1.Complete()
  {
    var (a, android) := PropertyGetSpec(props, BUILD_PROP_ANDROID_VERSION, rec.android);
    var rec1 := rec.(android := android);
    if a <= 0 then (-1, rec1) else ReadKernelOnward(props, banner, rec1)
  }

  /** The chain from the kernel read on: it leaves the android field alone. */
  function ReadKernelOnward(props: Store, banner: Option<string>, rec: Record): (r: (int, Record))
    requires rec.Valid()
    ensures r.0 == 0 || r.0 == -1
    ensures r.1.Valid() && r.1.android == rec.android
    ensures r.0 == 0 <==>
      BannerParses(banner) && PropertySet(props, BUILD_PROP_ODM_VERSION) &&
      PropertySet(props, BUILD_PROP_PLATFORM_VERSION)
    ensures r.0 == 0 ==> r.1.Present(Kernel) && r.1.Present(Odm) && r.1.Present(Platform)
  {
    var (k, kernel) := KernelVersionSpec(banner, rec.kernel);
    var rec2 := rec.(kernel := kernel);
    if k != 0 then (-1, rec2) else ReadOdmOnward(props, rec2)
  }

  /** The chain from the odm read on: it leaves the android and kernel fields alone. */
  function ReadOdmOnward(props: Store, rec: Record): (r: (int, Record))
    requires rec.Valid()
    ensures r.0 == 0 || r.0 == -1
    ensures r.1.Valid() && r.1.android == rec.android && r.1.kernel == rec.kernel
    ensures r.0 == 0 <==>
      PropertySet(props, BUILD_PROP_ODM_VERSION) && PropertySet(props, BUILD_PROP_PLATFORM_VERSION)
    ensures r.0 == 0 ==> r.1.Present(Odm) && r.1.Present(Platform)
  {
    var (o, odm) := PropertyGetSpec(props, BUILD_PROP_ODM_VERSION, rec.odm);
    var rec3 := rec.(odm := odm);
    if o <= 0 then (-1, rec3) else ReadPlatform(props, rec3)
  }

  /** The last read of the chain: only the platform field changes. */
  function ReadPlatform(props: Store, rec: Record): (r: (int, Record))
    requires rec.Valid()
    ensures r.0 == 0 || r.0 == -1
    ensures r.1 == rec.(platform := r.1.platform) && r.1.Valid()
    ensures r.0 == 0 <==> PropertySet(props, BUILD_PROP_PLATFORM_VERSION)
    ensures r.0 == 0 ==> r.1.Present(Platform)
  {
    var (p, platform) := PropertyGetSpec(props, BUILD_PROP_PLATFORM_VERSION, rec.platform);
    (if p <= 0 then -1 else 0, rec.(platform := platform))
  }

  /**
   * Field by field, what the chain leaves behind: a read that was reached wrote
   * its field, a field whose read was never reached is as it was.
   */
  lemma ReadBuildPropFields(props: Store, banner: Option<string>, rec: Record)
    requires rec.Valid()
    ensures var r := ReadBuildPropSpec(props, banner, rec).1;
      && r.android == PropertyGetSpec(props, BUILD_PROP_ANDROID_VERSION, rec.android).1
      && r.kernel == (if PropertySet(props, BUILD_PROP_ANDROID_VERSION)
                      then KernelVersionSpec(banner, rec.kernel).1 else rec.kernel)
      && r.odm == (if PropertySet(props, BUILD_PROP_ANDROID_VERSION) && BannerParses(banner)
                   then PropertyGetSpec(props, BUILD_PROP_ODM_VERSION, rec.odm).1 else rec.odm)
      && r.platform == (if PropertySet(props, BUILD_PROP_ANDROID_VERSION) && BannerParses(banner)
                          && PropertySet(props, BUILD_PROP_ODM_VERSION)
                        then PropertyGetSpec(props, BUILD_PROP_PLATFORM_VERSION, rec.platform).1
                        else rec.platform)
  {
  }

  /** On success the record holds the three property values and the kernel's "major.minor". */
  lemma ReadBuildPropValues(props: Store, banner: Option<string>, rec: Record)
    requires rec.Valid() && AllAvailable(props, banner)
    ensures var r := ReadBuildPropSpec(props, banner, rec).1;
      var v := ScanBanner(Str(NextLine(banner.value), 0)).value;
      && Str(r.android, 0) == PropertyValue(props, BUILD_PROP_ANDROID_VERSION)
      && Str(r.kernel, 0) == VersionText(v.0, v.1)
      && Str(r.odm, 0) == PropertyValue(props, BUILD_PROP_ODM_VERSION)
      && Str(r.platform, 0) == PropertyValue(props, BUILD_PROP_PLATFORM_VERSION)
  {
    ReadBuildPropFields(props, banner, rec);
    PropertyGetReadsBack(props, BUILD_PROP_ANDROID_VERSION, rec.android);
    PropertyGetReadsBack(props, BUILD_PROP_ODM_VERSION, rec.odm);
    PropertyGetReadsBack(props, BUILD_PROP_PLATFORM_VERSION, rec.platform);
  }

  /** The C string `property_get` leaves in the buffer is the value the store handed back. */
  lemma PropertyGetReadsBack(props: Store, key: string, buf: seq<char>)
    requires |buf| == PROPERTY_VALUE_MAX
    ensures Str(PropertyGetSpec(props, key, buf).1, 0) == PropertyValue(props, key)
  {
  }

  /**
   * A missing platform property fails the whole read, yet the android, kernel
   * and odm values fetched before it stay in the record.
   */
  lemma MissingPlatformKeepsEarlierFields(props: Store, banner: Option<string>, rec: Record)
    requires rec.Valid()
    requires PropertySet(props, BUILD_PROP_ANDROID_VERSION) && BannerParses(banner)
    requires PropertySet(props, BUILD_PROP_ODM_VERSION)
    requires !PropertySet(props, BUILD_PROP_PLATFORM_VERSION)
    ensures var r := ReadBuildPropSpec(props, banner, rec);
      && r.0 == -1
      && Str(r.1.android, 0) == PropertyValue(props, BUILD_PROP_ANDROID_VERSION)
      && Str(r.1.kernel, 0) != []
      && Str(r.1.odm, 0) == PropertyValue(props, BUILD_PROP_ODM_VERSION)
      && r.1.platform[0] == NUL
  {
    ReadBuildPropFields(props, banner, rec);
    PropertyGetReadsBack(props, BUILD_PROP_ANDROID_VERSION, rec.android);
    PropertyGetReadsBack(props, BUILD_PROP_ODM_VERSION, rec.odm);
  }

  /** A failed android lookup stops the chain: the banner is never read, the other fields never touched. */
  lemma MissingAndroidStopsChain(props: Store, banner: Option<string>, rec: Record)
    requires rec.Valid() && !PropertySet(props, BUILD_PROP_ANDROID_VERSION)
    ensures var r := ReadBuildPropSpec(props, banner, rec);
      && r.0 == -1
      && r.1 == rec.(android := PropertyGetSpec(props, BUILD_PROP_ANDROID_VERSION, rec.android).1)
  {
  }

  /**
   * The function as the program runs it, on the `build_info` struct in place:
   * each `property_get` and the kernel read write straight into their field.
   */
  method ReadBuildProp(props: Store, banner: Option<string>, buildInfo: Info) returns (ret: int)
    requires buildInfo.Valid()
    modifies buildInfo.Repr()
    ensures (ret, buildInfo.Value()) == ReadBuildPropSpec(props, banner, old(buildInfo.Value()))
  {
    ret := -1;
    var len := PropertyGet(props, BUILD_PROP_ANDROID_VERSION, buildInfo.android);
    if len <= 0 {
      return;
    }
    var k := GetKernelVersion(banner, buildInfo.kernel);
    if k != 0 {
      return;
    }
    len := PropertyGet(props, BUILD_PROP_ODM_VERSION, buildInfo.odm);
    if len <= 0 {
      return;
    }
    len := PropertyGet(props, BUILD_PROP_PLATFORM_VERSION, buildInfo.platform);
    if len <= 0 {
      return;
    }
    ret := 0;
  }
}
