# odmcheck in Dafny

`odmcheck` runs early at boot on a Sony Android device. It checks that the ODM
partition (vendor blobs) was built for the software that is running.

- The descriptor `/odm/odm_version.prop` declares four values, `tag=value`
  lines for the Android version, the kernel version, the ODM revision and the
  platform.
- The program compares them with what the running system reports: three
  system properties and the "major.minor" of the kernel banner in
  `/proc/version`.
- A missing value or any difference is put on screen. A build without
  `ODMCHECK_WARN_ONLY` also powers the device off.

The model follows `odmcheck.cpp`, module by module:

| module | file | what it holds |
|---|---|---|
| `Wrappers` | `wrappers.dfy` | `Option` |
| `CString` | `cstring.dfy` | C strings in byte buffers, `isspace`, `odmcheck_strip_both` on an array in place, `strncpy`, the C-string writes of `sprintf`/`property_get`, `memcmp` |
| `Stdio` | `stdio.dfy` | a file opened for reading and `fgets` with a 256-byte buffer, which splits a file into the pieces a `while (fgets(...))` loop sees |
| `VersionInfo` | `version_info.dfy` | `struct odmcheck_version_info`, both as a value (`Record`, the struct's bytes) and as the object filled in place (`Info`, four arrays); `odmcheck_compare_versions` |
| `VersionFile` | `version_file.dfy` | `odmcheck_read_version_file`: a pure specification (`ApplyLines`) and the loop that runs over the `line` buffer and the struct in place |
| `KernelBanner` | `kernel_banner.dfy` | `odmcheck_get_kernel_version`: the `sscanf` format `"Linux version %d.%d.%d-"`, the `sprintf` of `"%d.%d"`, and the method over the kernel field |
| `BuildProp` | `build_prop.dfy` | `property_get` over a property store, and `odmcheck_read_build_prop` as a chain of four reads that short-circuits |
| `OdmCheck` | `odmcheck.dfy` | `main`: the staged return code, the verdict (diagnostic, shutdown), and end-to-end properties |

Conventions:

- A Dafny `char` stands for one C byte. A C string is the part of a buffer
  before its first NUL (`CString.Str`).
- The outside world enters as parameters:
  - the descriptor's content and `/proc/version`'s content, each as an
    `Option<string>` (`None`: `fopen` fails);
  - the property store, as a `map<string, string>`.
- Each stateful operation is a `method` over arrays and objects, proved equal
  to a pure specification function.
- The properties are lemmas about those functions.

Two points of the code that are easy to misread:

- `main` returns -2, not -1, when a declared field is empty (line 280).
- Each side of a descriptor line is cut down to its first whitespace-free word
  (lines 112-121), not trimmed at both ends: `k=a b` stores `a`
  (`VersionFile.InnerBlankCutsValue`).

## Model

| member | source | states |
|---|---|---|
| `CString.IsSpace` | odmcheck.cpp:113-117 | `isspace` in the C locale; no whitespace character is NUL, `=`, `.`, `-` or a digit |
| `CString.Token` | odmcheck.cpp:112-121 | the token is absent exactly when the string is empty or all whitespace, and otherwise it is a non-empty word with no whitespace in it |
| `CString.TokenOfDecomposition` | odmcheck.cpp:112-121 | leading blanks, then a whitespace-free word, then the end or a blank: the word is the token |
| `CString.TokenDecomposes` | odmcheck.cpp:112-121 | conversely, every token splits its string into leading blanks, the token, and a rest that is empty or starts with a blank |
| `CString.StripBoth` | odmcheck.cpp:112-121 | on an all-blank string: the null result and the buffer untouched; otherwise the token's start, one NUL written right after the token and nothing else changed; C strings ending before the start are not affected |
| `CString.NCopy` | odmcheck.cpp:145 | `strncpy` into `n` bytes: byte `k` is the source string's byte `k` while it lasts, NUL after that |
| `CString.NCopyReadsBack` | odmcheck.cpp:145 | a string shorter than the field reads back unchanged |
| `CString.NCopyTruncates` | odmcheck.cpp:145 | a string that fills the field is cut to the field size and left without a terminator |
| `CString.StrNCpy` | odmcheck.cpp:145 | the array afterwards holds `NCopy` of the source |
| `CString.WithCStr` | odmcheck.cpp:178 | writing a C string at the start of a buffer: the string, then a NUL, then the old bytes unchanged |
| `CString.PutCStr` | odmcheck.cpp:178 | the array afterwards is `WithCStr` of its old contents |
| `CString.MemCmp` | odmcheck.cpp:202 | 0 exactly when the two blocks are equal |
| `CString.MemCmpAntisymmetric` | odmcheck.cpp:202 | swapping the operands negates the result |
| `Stdio.ChunkLen` | odmcheck.cpp:135 | one `fgets` consumes up to and including the first newline, but never more than its limit (255 for the 256-byte buffer) |
| `Stdio.Lines` | odmcheck.cpp:135 | the pieces the loop receives are non-empty and fit the 256-byte buffer |
| `Stdio.NextLine` | odmcheck.cpp:135 | the piece the next `fgets` stores: non-empty, under 256 bytes, and the start of what is left to read |
| `Stdio.LinesCoverContent` | odmcheck.cpp:135 | put back together, the pieces are the whole file: nothing lost, nothing reordered |
| `Stdio.LinesOfWholeLines` | odmcheck.cpp:135 | a file of whole lines that each fit the buffer is read back line by line |
| `Stdio.File.Open` | odmcheck.cpp:129 | a file that `fopen` opened is read from its first byte |
| `Stdio.File.Fgets` | odmcheck.cpp:135 | at end of file: failure, buffer and position unchanged; otherwise the next piece, NUL-terminated, in the buffer, and the position moved past it |
| `VersionInfo.Record.Set` | odmcheck.cpp:67-72 | replaces one field and keeps the other three |
| `VersionInfo.RecordExt` | odmcheck.cpp:67-72 | records that agree on every field are equal |
| `VersionInfo.BytesInjective` | odmcheck.cpp:67-72 | the 368 bytes of a struct determine its four fields |
| `VersionInfo.CompareVersions` | odmcheck.cpp:200-209 | the `memcmp` over the whole struct is 0 exactly when the two records are byte-equal |
| `VersionInfo.OneFieldDiffers` | odmcheck.cpp:200-209 | a difference in any single field makes the comparison non-zero |
| `VersionInfo.Record.Bytes` | odmcheck.cpp:202 | the memory `memcmp` reads: 368 bytes, field `f` at offset 92 times its position in the struct |
| `VersionInfo.Record.Complete` | odmcheck.cpp:278 | no field is the empty C string |
| `VersionInfo.ZeroIsCleared` | odmcheck.cpp:268-270 | after `memset`, all 368 bytes of the struct are zero and no field holds a string |
| `VersionInfo.Info.constructor` | odmcheck.cpp:268-270 | a fresh struct with all bytes zero |
| `VersionInfo.Info.Value` | odmcheck.cpp:67-72 | each field of the value is the contents of that field's array |
| `VersionFile.FieldOf` | odmcheck.cpp:144-156 | a field only for an exact match of one of the four tags |
| `VersionFile.FieldOfTag` | odmcheck.cpp:54-57 | the four tags are distinct, so each selects its own field |
| `VersionFile.Entry` | odmcheck.cpp:137-143 | a line without `=` yields nothing; an entry has a non-empty name free of `=` and a non-empty value, both whitespace-free words taken from the line; `EntrySplitsAtFirstEquals` says which words |
| `VersionFile.ApplyLine` | odmcheck.cpp:136-156 | one line changes at most the one field its name selects, and every field keeps its size |
| `VersionFile.ApplyLines` | odmcheck.cpp:135-157 | every field keeps its size; `LastOccurrenceWins` says what each field ends up holding |
| `VersionFile.ApplyEntry` | odmcheck.cpp:144-156 | an unknown name changes nothing; a tag's value, as `strncpy` leaves it, goes into that tag's field only |
| `VersionFile.ReadVersionFileSpec` | odmcheck.cpp:123-160 | -1 exactly when the file cannot be opened, with the struct unchanged; otherwise 0 |
| `VersionFile.EntrySplitsAtFirstEquals` | odmcheck.cpp:137-143 | the line is split at its first `=`: the name is the token before it, the value is the token of everything after it |
| `VersionFile.NoEqualsNoChange` | odmcheck.cpp:137-138 | a line without `=` changes nothing |
| `VersionFile.BlankSideNoChange` | odmcheck.cpp:142-143 | a line whose name or value is blank changes nothing |
| `VersionFile.LongerNameIsNoTag` | odmcheck.cpp:58 | the build property name `ro.build.version.release` is not a descriptor tag |
| `VersionFile.SplitExample` | odmcheck.cpp:137-141 | `a=b=c` has the name `a` and the value `b=c` |
| `VersionFile.InnerBlankCutsValue` | odmcheck.cpp:140-141 | `k=a b` has the value `a`: only the first word survives |
| `VersionFile.LastOccurrenceWins` | odmcheck.cpp:135-157 | each field ends up with the value of the last line naming its tag, cut and padded; a field no line names keeps its contents |
| `VersionFile.ReadingTwiceIsIdempotent` | odmcheck.cpp:135-157 | reading the same descriptor again over the result changes nothing |
| `VersionFile.DescriptorRoundTrip` | odmcheck.cpp:123-160 | a descriptor written from four values, each a non-empty word of fewer than 92 bytes with no whitespace and no NUL, reads back into exactly those four strings (return code 0); longer values are cut by `strncpy` and are not covered |
| `VersionFile.CutAtEquals` | odmcheck.cpp:139 | the NUL written over the `=` ends the name side there; the value side is the C string after it |
| `VersionFile.StripName` | odmcheck.cpp:140 | the name side is stripped to its token; the value side is unchanged |
| `VersionFile.StripSides` | odmcheck.cpp:140-141 | both offsets are returned exactly when both sides have a token, and then they point at those tokens |
| `VersionFile.SplitAtEquals` | odmcheck.cpp:137-143 | both offsets are returned exactly when the line yields an entry, and then they point at its name and value |
| `VersionFile.StoreEntry` | odmcheck.cpp:144-156 | the struct afterwards is `ApplyEntry` of its old value |
| `VersionFile.ProcessLine` | odmcheck.cpp:136-156 | the struct afterwards is `ApplyLine` of its old value and the line |
| `VersionFile.ReadStep` | odmcheck.cpp:135-156 | one `fgets` and its processing keep unchanged what the rest of the file will do to the struct |
| `VersionFile.ReadLines` | odmcheck.cpp:135-157 | the struct afterwards is `ApplyLines` of its old value over all remaining pieces |
| `VersionFile.ReadVersionFile` | odmcheck.cpp:123-160 | return code and struct are as `ReadVersionFileSpec` gives them |
| `KernelBanner.Saturate64` | odmcheck.cpp:176 | the value in range of `intmax_t`, or the nearer bound |
| `KernelBanner.ToInt32` | odmcheck.cpp:176 | a 32-bit `int` congruent to the value modulo 2^32, and the value itself when it fits |
| `KernelBanner.ScanInt` | odmcheck.cpp:176 | a `%d` conversion consumes at least one character and stores a 32-bit `int` |
| `KernelBanner.Convert` | odmcheck.cpp:176 | the value a `%d` stores is a 32-bit `int`, and the number read when it fits |
| `KernelBanner.ScanHeader` | odmcheck.cpp:176 | the literal part of the format matches only text that starts with `Linux` |
| `KernelBanner.ScanDotInt` | odmcheck.cpp:176 | the piece `.%d` of the format consumes the dot and at least one more character and stores a 32-bit `int` |
| `KernelBanner.ScanNumbers` | odmcheck.cpp:176 | the piece `%d.%d.%d` of the format: three 32-bit numbers |
| `KernelBanner.ScanMinorMicro` | odmcheck.cpp:176 | after the major number, `.%d.%d` keeps that number and adds two 32-bit numbers |
| `KernelBanner.ScanMicro` | odmcheck.cpp:176 | after the minor number, `.%d` keeps both numbers and adds a third |
| `KernelBanner.ScanBanner` | odmcheck.cpp:176 | three 32-bit numbers, only for text that starts with `Linux` |
| `KernelBanner.ScanIntOfDecimal` | odmcheck.cpp:176-178 | `%d` reads back what `%d` printed, up to the first non-digit |
| `KernelBanner.Digits` | odmcheck.cpp:178 | the digits `%d` prints for a non-negative number: non-empty, digits only, no leading zero |
| `KernelBanner.DigitsRoundTrip` | odmcheck.cpp:178 | reading those digits back gives the number |
| `KernelBanner.Decimal` | odmcheck.cpp:178 | `%d` prints a non-empty text |
| `KernelBanner.DecimalShape` | odmcheck.cpp:178 | that text is a `-` exactly for a negative number, then the digits of the magnitude, with no NUL, no newline and no leading blank |
| `KernelBanner.DecimalLength` | odmcheck.cpp:178 | a 32-bit `int` prints in at most 11 characters |
| `KernelBanner.BannerRoundTrip` | odmcheck.cpp:176 | a kernel's banner scans back to its three numbers whatever non-digit follows; the trailing `-` is not needed |
| `KernelBanner.TwoNumbersAreRejected` | odmcheck.cpp:176 | `Linux version 4.9` does not scan: the third conversion fails |
| `KernelBanner.VersionText` | odmcheck.cpp:178 | "major.minor" is 3 to 23 characters with no NUL, so it fits the field |
| `KernelBanner.VersionTextMajor` | odmcheck.cpp:178 | the text written reads back its major number with `%d` |
| `KernelBanner.VersionTextMinor` | odmcheck.cpp:178 | and then `.` and its minor number, up to the end |
| `KernelBanner.KernelVersionSpec` | odmcheck.cpp:162-184 | 0 exactly when the file opens, is non-empty and its first line scans, and then the field holds "major.minor"; otherwise -1 and the field is unchanged |
| `KernelBanner.KernelVersionOfBanner` | odmcheck.cpp:162-184 | a kernel's own banner yields its "major.minor", whatever the rest of the file holds |
| `KernelBanner.KernelVersionExample` | odmcheck.cpp:162-184 | `Linux version 4.9.117-perf+ ...` yields `4.9` |
| `KernelBanner.GetKernelVersion` | odmcheck.cpp:162-184 | return code and field are as `KernelVersionSpec` gives them |
| `BuildProp.PropertyValue` | odmcheck.cpp:190 | the stored C string cut to 91 characters, or empty for an absent key |
| `BuildProp.PropertyGetSpec` | odmcheck.cpp:190 | the length returned is positive exactly when the key holds a non-empty value; it equals the length of the C string written, which is the value when it fits; bytes after the terminator are untouched |
| `BuildProp.PropertyGet` | odmcheck.cpp:190 | return value and buffer are as `PropertyGetSpec` gives them |
| `BuildProp.PropertySet` | odmcheck.cpp:190-193 | the success test `> 0` of one property read: exactly when the value `property_get` returns is non-empty |
| `BuildProp.AllAvailable` | odmcheck.cpp:190-193 | the success of the whole chain: exactly when each of the four reads, made on its own, passes its test |
| `BuildProp.ReadBuildPropSpec` | odmcheck.cpp:186-198 | 0 exactly when all four reads succeed, and then no field is empty; otherwise -1 |
| `BuildProp.ReadKernelOnward` | odmcheck.cpp:191-193 | the reads after the android one never touch the android field |
| `BuildProp.ReadOdmOnward` | odmcheck.cpp:192-193 | the odm and platform reads never touch the android and kernel fields |
| `BuildProp.ReadPlatform` | odmcheck.cpp:193 | the last read changes the platform field only |
| `BuildProp.ReadBuildPropFields` | odmcheck.cpp:190-196 | in order android, kernel, odm, platform: a read that was reached wrote its field; a read after the first failure never ran and its field is unchanged |
| `BuildProp.ReadBuildPropValues` | odmcheck.cpp:190-193 | on success the fields hold the three property values and the kernel's "major.minor" |
| `BuildProp.PropertyGetReadsBack` | odmcheck.cpp:190 | the C string `property_get` leaves is the store's value |
| `BuildProp.MissingPlatformKeepsEarlierFields` | odmcheck.cpp:190-196 | a missing platform property fails the read but keeps the android, kernel and odm values in the struct |
| `BuildProp.MissingAndroidStopsChain` | odmcheck.cpp:190-196 | a failed first lookup ends the chain: only the android field was written |
| `BuildProp.ReadBuildProp` | odmcheck.cpp:186-198 | return code and struct are as `ReadBuildPropSpec` gives them |
| `OdmCheck.Check` | odmcheck.cpp:265-292 | an unreadable descriptor gives -1 with the build struct still zero; a failed build read gives -1; a declared field left empty gives -2; otherwise the comparison result. The code is 0 exactly when the descriptor is readable, every read succeeds, every declared field is set and both structs are equal. The diagnostic is shown exactly when the code is non-zero, and the shutdown runs exactly when it is non-zero and the build is not warn-only |
| `OdmCheck.CheckAsBuilt` | odmcheck.cpp:43-44 | with `ODMCHECK_WARN_ONLY` defined, nothing ever powers the device off |
| `OdmCheck.MissingField` | odmcheck.cpp:278 | true exactly when some declared field is the empty string |
| `OdmCheck.StagesReachCheck` | odmcheck.cpp:272-284 | the stages run one after another, each only while the code is 0, and reach the verdict of `Check` |
| `OdmCheck.Run` | odmcheck.cpp:265-292 | `main` over two struct objects gives the outcome of `Check` |
| `OdmCheck.VersionTextIsWord` | odmcheck.cpp:178 | a kernel "major.minor" can be declared as a descriptor value |
| `OdmCheck.NCopyIsCStrOverZeros` | odmcheck.cpp:145 | over a cleared field, `strncpy` and `property_get` leave the same bytes |
| `OdmCheck.StoreOfLookups` | odmcheck.cpp:190-193 | a store holding three values serves each build key its value |
| `OdmCheck.BuildSideOf` | odmcheck.cpp:186-198 | on such a system the build read returns 0 and the exact record |
| `OdmCheck.MatchingSystemPasses` | odmcheck.cpp:265-292 | a device whose descriptor declares what it runs gives 0, no diagnostic and no shutdown |
| `OdmCheck.OtherReleaseFails` | odmcheck.cpp:265-292 | a different Android release gives a non-zero code and the diagnostic; the shutdown runs exactly when the build enforces |

## Left out

- The screen, the backlight, the 10-second pause and the power-off request
  (`odmcheck_display_error`, `odmcheck_draw_text`, `odmcheck_set_backlight`,
  `odmcheck_shutdown`): device I/O. They are the two booleans `diagnostic` and
  `shutdown` of `OdmCheck.Outcome`.
- `odmcheck_mk_version_str`: it only formats text for the screen.
- `odmcheck_dir_mounted`: its result is only logged and does not affect the
  outcome.
- The kernel log (`LOGV`, `LOGE`, `LOGW`): output only.
- The null-pointer guards of the three readers: every caller passes a real
  buffer.
- `fopen`, `fclose` and the file system: a file is its content, or `None` when
  it cannot be opened.
- `property_get` itself belongs to Android's cutils, not to this program. It is
  modelled from its documented behaviour: the value (at most 91 bytes), or the
  empty string for a missing key, written as a C string, and its length
  returned.
- `sscanf`'s handling of out-of-range numbers: the C standard leaves it
  undefined. The model clamps to 64 bits and then wraps to 32 bits, as a
  `strtoimax`-based scanner stores into an `int`.
- Locale: `isspace` is the C locale's.
- C fixes only the sign of a `memcmp` result, not its magnitude. `MemCmp`
  returns the difference of the first differing bytes, and the program uses
  only zero or non-zero (line 203).
- A non-zero comparison result may equal -1 or -2. The source does not
  distinguish these from its own error codes, and neither does the model.
- Bytes are `char`s. Nothing constrains them to 0..255, and no property depends
  on that.
- Kernel copy size: the kernel line of the tag chain copies
  `sizeof(info->android_version)` bytes. This is the same 92, so it is modelled
  as the kernel field's own size.
- `VersionFile.StripName`: states the offset, the C string at it, and that the
  value side is unchanged, but not every byte of the buffer afterwards. `line`
  is local to `odmcheck_read_version_file`, and only the C strings stated are
  read afterwards.
- `VersionFile.StripSides`: states the two offsets and the C strings at them,
  not every byte of the buffer afterwards, for the same reason.
- `VersionFile.SplitAtEquals`: states the two offsets and the C strings at them,
  not every byte of the buffer afterwards, for the same reason.
- `OdmCheck.Run`: allocates `build_info` after reading the descriptor rather
  than beside `info`. Both start zero, and nothing reads `build_info` before the
  build read, so the outcome is the same.
