/**
 * `main`: the declared record from the descriptor file, the actual record from
 * the running system, and the verdict. A non-zero result puts the diagnostic on
 * screen and, unless the program is built with ODMCHECK_WARN_ONLY, powers the
 * device off.
 */
module OdmCheck {
  import opened Wrappers
  import opened CString
  import opened Stdio
  import opened VersionInfo
  import opened VersionFile
  import opened KernelBanner
  import opened BuildProp

  /** ODMCHECK_WARN_ONLY is defined in this build: a mismatch is shown, never enforced. */
  const WARN_ONLY_BUILD: bool := true

  /**
   * What one run decides: the exit code, both records as they stand at the end
   * (the diagnostic shows them), and whether the diagnostic and the shutdown
   * request happen.
   */
  datatype Outcome = Outcome(ret: int, declared: Record, actual: Record, diagnostic: bool, shutdown: bool)

  /** The tail of `main`: any non-zero code is reported, and enforced unless warn-only. */
  function Verdict(ret: int, declared: Record, actual: Record, warnOnly: bool): (o: Outcome)
    ensures o.ret == ret && o.declared == declared && o.actual == actual
    ensures o.diagnostic <==> ret != 0
    ensures o.shutdown <==> ret != 0 && !warnOnly
  {
    Outcome(ret, declared, actual, ret != 0, ret != 0 && !warnOnly)
  }

  /**
   * `main` as a function of its surroundings: the descriptor file (None when it
   * cannot be opened), the property store and `/proc/version` (None when it
   * cannot be opened). The stages run in order and each one runs only while the
   * code is still 0: -1 for an unreadable descriptor, -1 for a failed build
   * read, -2 for a declared field left empty, and otherwise the comparison.
   */
  function Check(versionFile: Option<string>, props: Store, banner: Option<string>, warnOnly: bool): (o: Outcome)
    ensures o.declared.Valid() && o.actual.Valid()
    ensures o.diagnostic <==> o.ret != 0
    ensures o.shutdown <==> o.ret != 0 && !warnOnly
    ensures o.declared == (if versionFile.Some? then ApplyLines(Zero, Lines(versionFile.value)) else Zero)
    ensures o.actual == (if versionFile.Some? then ReadBuildPropSpec(props, banner, Zero).1 else Zero)
    ensures versionFile.None? ==> o.ret == -1
    ensures versionFile.Some? && !AllAvailable(props, banner) ==> o.ret == -1
    ensures versionFile.Some? && AllAvailable(props, banner) && !o.declared.Complete() ==> o.ret == -2
    ensures versionFile.Some? && AllAvailable(props, banner) && o.declared.Complete() ==>
      o.ret == CompareVersions(o.declared, o.actual)
    ensures o.ret == 0 <==>
      versionFile.Some? && AllAvailable(props, banner) && o.declared.Complete() && o.declared == o.actual
  {
    var (fileRet, declared) := ReadVersionFileSpec(versionFile, Zero);
    if fileRet != 0 then Verdict(-1, declared, Zero, warnOnly) else
    var (propRet, actual) := ReadBuildPropSpec(props, banner, Zero);
    if propRet != 0 then Verdict(-1, declared, actual, warnOnly)
    else if !declared.Complete() then Verdict(-2, declared, actual, warnOnly)
    else Verdict(CompareVersions(declared, actual), declared, actual, warnOnly)
  }

  /** The program as built: whatever goes wrong, the device is never powered off. */
  function CheckAsBuilt(versionFile: Option<string>, props: Store, banner: Option<string>): (o: Outcome)
    ensures !o.shutdown
    ensures o.diagnostic <==> o.ret != 0
  {
    Check(versionFile, props, banner, WARN_ONLY_BUILD)
  }

  /** The test `!info.android_version[0] || ...` of `main`: some field is the empty string. */
  predicate MissingField(info: Info): (missing: bool)
    reads info.Repr()
    requires info.Valid()
    ensures missing <==> !info.Value().Complete()
  {
    info.android[0] == NUL || info.kernel[0] == NUL || info.odm[0] == NUL || info.platform[0] == NUL
  }

  /**
   * The stages of `main` one after another, each value as its stage left it, reach
   * the verdict of `Check`.
   */
  lemma StagesReachCheck(versionFile: Option<string>, props: Store, banner: Option<string>, warnOnly: bool,
                         fileRet: int, declared: Record, propRet: int, actual: Record, ret: int)
    requires (fileRet, declared) == ReadVersionFileSpec(versionFile, Zero)
    requires fileRet != 0 ==> actual == Zero && ret == -1
    requires fileRet == 0 ==> (propRet, actual) == ReadBuildPropSpec(props, banner, Zero)
    requires fileRet == 0 && propRet != 0 ==> ret == -1
    requires fileRet == 0 && propRet == 0 ==>
      ret == if declared.Complete() then CompareVersions(declared, actual) else -2
    ensures Check(versionFile, props, banner, warnOnly) == Verdict(ret, declared, actual, warnOnly)
  {
  }

  /**
   * `main` step by step: two cleared structs, `ret` updated by each stage in
   * turn, then the report. The display, the shutdown request and the logging
   * are the two booleans of the outcome.
   */
  method Run(versionFile: Option<string>, props: Store, banner: Option<string>, warnOnly: bool) returns (o: Outcome)
    ensures o == Check(versionFile, props, banner, warnOnly)
  {
    var info := new Info();
    var ret := 0;
    var r := ReadVersionFile(versionFile, info);
    ghost var fileRet, declared, propRet := r, info.Value(), 0;
    // Cleared here rather than beside `info`: nothing reads it before this point.
    var buildInfo := new Info();
    ghost var actual := buildInfo.Value();
    if r != 0 {
      ret := -1;
    }
    if ret == 0 {
      r := ReadBuildProp(props, banner, buildInfo);
      propRet, actual := r, buildInfo.Value();
      assert (propRet, actual) == ReadBuildPropSpec(props, banner, Zero);
      assert info.Value() == declared;
      if r != 0 {
        ret := -1;
      }
    }
    if ret == 0 && MissingField(info) {
      ret := -2;
    }
    if ret == 0 {
      ret := CompareVersions(info.Value(), buildInfo.Value());
    }
    StagesReachCheck(versionFile, props, banner, warnOnly, fileRet, declared, propRet, actual, ret);
    o := Verdict(ret, info.Value(), buildInfo.Value(), warnOnly);
  }

  // ------------------------------------------------------------------
  // End to end

  /** "major.minor" can stand as a descriptor value. */
  lemma VersionTextIsWord(major: int, minor: int)
    requires IsInt32(major) && IsInt32(minor)
    ensures IsWord(VersionText(major, minor))
  {
    DecimalShape(major);
    DecimalShape(minor);
    var t := VersionText(major, minor);
    assert forall k :: 0 <= k < |t| ==> t[k] == '-' || t[k] == '.' || IsDigit(t[k]);
  }

  /** A value written by `strncpy` over a cleared field and one written as a C string over it are the same bytes. */
  lemma NCopyIsCStrOverZeros(v: string)
    requires NUL !in v && |v| < PROPERTY_VALUE_MAX
    ensures NCopy(v, PROPERTY_VALUE_MAX) == WithCStr(Zeros(PROPERTY_VALUE_MAX), v)
  {
    var a, b := NCopy(v, PROPERTY_VALUE_MAX), WithCStr(Zeros(PROPERTY_VALUE_MAX), v);
    StrOfNulFree(v);
    assert b == v + [NUL] + Zeros(PROPERTY_VALUE_MAX)[|v| + 1..];
    assert forall k :: 0 <= k < PROPERTY_VALUE_MAX ==> a[k] == b[k];
  }

  /** A store holding the three given values under the three build keys. */
  function StoreOf(android: string, odm: string, platform: string): Store {
    map[BUILD_PROP_ANDROID_VERSION := android, BUILD_PROP_ODM_VERSION := odm,
        BUILD_PROP_PLATFORM_VERSION := platform]
  }

  /** What a lookup of each build key finds in `StoreOf`. */
  lemma StoreOfLookups(android: string, odm: string, platform: string)
    requires IsWord(android) && IsWord(odm) && IsWord(platform)
    ensures var props := StoreOf(android, odm, platform);
      && PropertySet(props, BUILD_PROP_ANDROID_VERSION)
      && PropertySet(props, BUILD_PROP_ODM_VERSION)
      && PropertySet(props, BUILD_PROP_PLATFORM_VERSION)
      && PropertyValue(props, BUILD_PROP_ANDROID_VERSION) == android
      && PropertyValue(props, BUILD_PROP_ODM_VERSION) == odm
      && PropertyValue(props, BUILD_PROP_PLATFORM_VERSION) == platform
  {
    assert BUILD_PROP_ANDROID_VERSION[3] == 'b' && BUILD_PROP_ODM_VERSION[3] == 'v';
    assert BUILD_PROP_PLATFORM_VERSION[3] == 'b' && |BUILD_PROP_ANDROID_VERSION| != |BUILD_PROP_PLATFORM_VERSION|;
    var props := StoreOf(android, odm, platform);
    assert props[BUILD_PROP_ANDROID_VERSION] == android;
    assert props[BUILD_PROP_ODM_VERSION] == odm;
    assert props[BUILD_PROP_PLATFORM_VERSION] == platform;
    StrOfNulFree(android);
    StrOfNulFree(odm);
    StrOfNulFree(platform);
  }

  /** On a system that has the given values, the build read succeeds and fills each field with its value. */
  lemma BuildSideOf(android: string, odm: string, platform: string,
                    major: int, minor: int, micro: int, rest: string)
    requires IsWord(android) && IsWord(odm) && IsWord(platform)
    requires IsInt32(major) && IsInt32(minor) && IsInt32(micro)
    requires rest == [] || !IsDigit(rest[0])
    ensures ReadBuildPropSpec(StoreOf(android, odm, platform), Some(BannerText(major, minor, micro) + rest), Zero) ==
      (0, Record(WithCStr(Zeros(PROPERTY_VALUE_MAX), android),
                 WithCStr(Zeros(PROPERTY_VALUE_MAX), VersionText(major, minor)),
                 WithCStr(Zeros(PROPERTY_VALUE_MAX), odm),
                 WithCStr(Zeros(PROPERTY_VALUE_MAX), platform)))
  {
    var props := StoreOf(android, odm, platform);
    var banner := Some(BannerText(major, minor, micro) + rest);
    StoreOfLookups(android, odm, platform);
    KernelVersionOfBanner(major, minor, micro, rest, Zeros(PROPERTY_VALUE_MAX));
    ReadBuildPropFields(props, banner, Zero);
  }

  /**
   * A device whose descriptor declares exactly what its build and kernel report
   * passes: code 0, no diagnostic, no shutdown.
   */
  lemma MatchingSystemPasses(android: string, odm: string, platform: string,
                             major: int, minor: int, micro: int, rest: string, warnOnly: bool)
    requires IsWord(android) && IsWord(odm) && IsWord(platform)
    requires IsInt32(major) && IsInt32(minor) && IsInt32(micro)
    requires rest == [] || !IsDigit(rest[0])
    ensures var o := Check(Some(Descriptor(android, VersionText(major, minor), odm, platform)),
                           StoreOf(android, odm, platform),
                           Some(BannerText(major, minor, micro) + rest), warnOnly);
      o.ret == 0 && !o.diagnostic && !o.shutdown
  {
    var kernel := VersionText(major, minor);
    VersionTextIsWord(major, minor);
    DescriptorRoundTrip(android, kernel, odm, platform);
    BuildSideOf(android, odm, platform, major, minor, micro, rest);
    NCopyIsCStrOverZeros(android);
    NCopyIsCStrOverZeros(kernel);
    NCopyIsCStrOverZeros(odm);
    NCopyIsCStrOverZeros(platform);
  }

  /**
   * The same device with a different android release in its build: the records
   * differ, so the diagnostic is shown, and the device is powered off exactly
   * when the build enforces.
   */
  lemma OtherReleaseFails(android: string, built: string, odm: string, platform: string,
                          major: int, minor: int, micro: int, rest: string, warnOnly: bool)
    requires IsWord(android) && IsWord(built) && IsWord(odm) && IsWord(platform) && built != android
    requires IsInt32(major) && IsInt32(minor) && IsInt32(micro)
    requires rest == [] || !IsDigit(rest[0])
    ensures var o := Check(Some(Descriptor(android, VersionText(major, minor), odm, platform)),
                           StoreOf(built, odm, platform),
                           Some(BannerText(major, minor, micro) + rest), warnOnly);
      o.ret != 0 && o.diagnostic && (o.shutdown <==> !warnOnly)
  {
    var kernel := VersionText(major, minor);
    VersionTextIsWord(major, minor);
    DescriptorRoundTrip(android, kernel, odm, platform);
    BuildSideOf(built, odm, platform, major, minor, micro, rest);
    assert Str(WithCStr(Zeros(PROPERTY_VALUE_MAX), built), 0) == built;
  }
}
