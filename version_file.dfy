/**
 * `odmcheck_read_version_file`: the `key = value` descriptor on the ODM partition.
 * Each line is split at its first `=`, both sides are reduced to their first
 * whitespace-free token, and a value whose name is one of four tags is copied
 * into the matching field with `strncpy`.
 */
module VersionFile {
  import opened Wrappers
  import opened CString
  import opened Stdio
  import opened VersionInfo

  const TAG_KERNEL_VERSION: string := "ro.kernel.version"
  const TAG_ANDROID_VERSION: string := "ro.build.version"
  const TAG_ODM_REVISION: string := "ro.vendor.version"
  const TAG_PLATFORM_VERSION: string := "ro.platform.version"

  /** The descriptor tag that fills field `f`. */
  function TagOf(f: Field): string {
    match f
    case Android => TAG_ANDROID_VERSION
    case Kernel => TAG_KERNEL_VERSION
    case Odm => TAG_ODM_REVISION
    case Platform => TAG_PLATFORM_VERSION
  }

  /** The field a name selects: only an exact match of one of the four tags selects one. */
  function FieldOf(name: string): (r: Option<Field>)
    ensures r.Some? ==> TagOf(r.value) == name
    ensures r.None? ==> forall f :: TagOf(f) != name
  {
    if name == TAG_ANDROID_VERSION then Some(Android)
    else if name == TAG_ODM_REVISION then Some(Odm)
    else if name == TAG_KERNEL_VERSION then Some(Kernel)
    else if name == TAG_PLATFORM_VERSION then Some(Platform)
    else None
  }

  /** The four tags are different strings, so each selects its own field. */
  lemma FieldOfTag(f: Field)
    ensures FieldOf(TagOf(f)) == Some(f)
  {
    assert TAG_KERNEL_VERSION[3] != TAG_ODM_REVISION[3];
  }

  /**
   * The name and value one line yields, or `None` when the line is skipped: it
   * has no `=`, or its name or its value is blank.
   */
  function Entry(line: seq<char>): (r: Option<(string, string)>)
    ensures '=' !in Str(line, 0) ==> r.None?
    ensures r.Some? ==> r.value.0 != [] && r.value.1 != [] && '=' !in r.value.0
    ensures r.Some? ==> forall k :: 0 <= k < |r.value.0| ==> !IsSpace(r.value.0[k]) && r.value.0[k] in Str(line, 0)
    ensures r.Some? ==> forall k :: 0 <= k < |r.value.1| ==> !IsSpace(r.value.1[k]) && r.value.1[k] in Str(line, 0)
  {
    var c := Str(line, 0);
    var eq := Span(c, 0, NonEquals);
    if eq == |c| then None
    else
      match (Token(c[..eq]), Token(c[eq + 1..]))
      case (Some(name), Some(value)) => Some((name, value))
      case _ => None
  }

  /** The record after a line with this name and value: a tag's value goes, cut and padded, into that tag's field only. */
  function ApplyEntry(rec: Record, name: string, value: string): (r: Record)
    ensures FieldOf(name).None? ==> r == rec
    ensures FieldOf(name).Some? ==>
      && r.Get(FieldOf(name).value) == NCopy(value, PROPERTY_VALUE_MAX)
      && forall g :: g != FieldOf(name).value ==> r.Get(g) == rec.Get(g)
    ensures rec.Valid() ==> r.Valid()
  {
    match FieldOf(name)
    case None => rec
    case Some(f) => rec.Set(f, NCopy(value, PROPERTY_VALUE_MAX))
  }

  /** The record after one line (as `fgets` stored it) has been processed. */
  function ApplyLine(rec: Record, line: seq<char>): (r: Record)
    ensures rec.Valid() ==> r.Valid()
    ensures forall g :: r.Get(g) == rec.Get(g) || (Entry(line).Some? && FieldOf(Entry(line).value.0) == Some(g))
  {
    match Entry(line)
    case None => rec
    case Some((name, value)) => ApplyEntry(rec, name, value)
  }

  /** The record after every line in turn has been processed. */
  function ApplyLines(rec: Record, lines: seq<string>): (r: Record)
    ensures rec.Valid() ==> r.Valid()
    decreases |lines|
  {
    if lines == [] then rec else ApplyLines(ApplyLine(rec, lines[0]), lines[1..])
  }

  /**
   * `odmcheck_read_version_file` on a file (`None`: it cannot be opened) with the
   * struct holding `rec`: the return code and the struct afterwards.
   */
  function ReadVersionFileSpec(file: Option<string>, rec: Record): (r: (int, Record))
    ensures r.0 == 0 || r.0 == -1
    ensures r.0 == -1 <==> file.None?
    ensures file.None? ==> r.1 == rec
    ensures rec.Valid() ==> r.1.Valid()
  {
    match file
    case None => (-1, rec)
    case Some(content) => (0, ApplyLines(rec, Lines(content)))
  }

  // ------------------------------------------------------------------
  // What a line contributes

  /** A line is split at its first `=`: the name is what precedes it, the value all that follows, further `=` included. */
  lemma {:induction false} EntrySplitsAtFirstEquals(pre: string, post: string)
    requires '=' !in pre && NUL !in pre && NUL !in post
    ensures Entry(pre + "=" + post) ==
      if Token(pre).Some? && Token(post).Some? then Some((Token(pre).value, Token(post).value)) else None
  {
    var line := pre + "=" + post;
    var c := Str(line, 0);
    assert c == line by {
      assert NUL !in line by {
        assert forall k :: 0 <= k < |line| ==> line[k] == if k < |pre| then pre[k] else if k == |pre| then '=' else post[k - |pre| - 1];
      }
      StrOfNulFree(line);
    }
    assert Span(c, 0, NonEquals) == |pre| by {
      assert forall k :: 0 <= k < |pre| ==> line[k] == pre[k];
      SpanUnique(line, 0, NonEquals, |pre|);
    }
    SidesOfEquals(pre, post);
  }

  lemma SidesOfEquals(pre: string, post: string)
    ensures (pre + "=" + post)[..|pre|] == pre && (pre + "=" + post)[|pre| + 1..] == post
  {
  }

  /** A line without `=` changes nothing. */
  lemma NoEqualsNoChange(rec: Record, line: seq<char>)
    requires '=' !in Str(line, 0)
    ensures ApplyLine(rec, line) == rec
  {
  }

  /** A line whose name or value is blank changes nothing. */
  lemma {:induction false} BlankSideNoChange(rec: Record, pre: string, post: string)
    requires '=' !in pre && NUL !in pre && NUL !in post
    requires Token(pre).None? || Token(post).None?
    ensures ApplyLine(rec, pre + "=" + post) == rec
  {
    EntrySplitsAtFirstEquals(pre, post);
  }

  /** Names that merely start with a tag, such as the build property's own name, are not tags. */
  lemma LongerNameIsNoTag()
    ensures FieldOf("ro.build.version.release").None?
  {
  }

  /** `key=v1=v2` has the name `key` and the value `v1=v2`. */
  lemma SplitExample()
    ensures Entry("a=b=c") == Some(("a", "b=c"))
  {
    assert Token("a") == Some("a") by {
      TokenOfDecomposition([], "a", []);
      assert [] + "a" + [] == "a";
    }
    assert Token("b=c") == Some("b=c") by {
      TokenOfDecomposition([], "b=c", []);
      assert [] + "b=c" + [] == "b=c";
    }
    assert "a=b=c" == "a" + "=" + "b=c";
    EntrySplitsAtFirstEquals("a", "b=c");
  }

  /** Stripping keeps the first word only: `k=a b` has the value `a`. */
  lemma InnerBlankCutsValue()
    ensures Entry("k=a b") == Some(("k", "a"))
  {
    assert Token("k") == Some("k") by {
      TokenOfDecomposition([], "k", []);
      assert [] + "k" + [] == "k";
    }
    assert Token("a b") == Some("a") by {
      TokenOfDecomposition([], "a", " b");
      assert [] + "a" + " b" == "a b";
    }
    assert "k=a b" == "k" + "=" + "a b";
    EntrySplitsAtFirstEquals("k", "a b");
  }

  // ------------------------------------------------------------------
  // What a whole file yields

  /** The value of the last line that names field `f`, if any: an independent account of the parser's result. */
  function LastValue(lines: seq<string>, f: Field): Option<string>
    decreases |lines|
  {
    if lines == [] then None
    else
      var last := lines[|lines| - 1];
      match Entry(last)
      case Some((name, value)) =>
        if FieldOf(name) == Some(f) then Some(value) else LastValue(lines[..|lines| - 1], f)
      case None => LastValue(lines[..|lines| - 1], f)
  }

  lemma {:induction false} ApplyLinesSnoc(rec: Record, lines: seq<string>, line: string)
    ensures ApplyLines(rec, lines + [line]) == ApplyLine(ApplyLines(rec, lines), line)
    decreases |lines|
  {
    if lines == [] {
      assert [] + [line] == [line];
    } else {
      assert (lines + [line])[1..] == lines[1..] + [line];
      ApplyLinesSnoc(ApplyLine(rec, lines[0]), lines[1..], line);
    }
  }

  /**
   * Each field ends up holding the value of the last line that names its tag,
   * cut and padded to the field size; a field no line names keeps its contents.
   */
  lemma {:induction false} LastOccurrenceWins(rec: Record, lines: seq<string>, f: Field)
    ensures ApplyLines(rec, lines).Get(f) ==
      match LastValue(lines, f)
      case None => rec.Get(f)
      case Some(v) => NCopy(v, PROPERTY_VALUE_MAX)
    decreases |lines|
  {
    if lines != [] {
      var init, last := lines[..|lines| - 1], lines[|lines| - 1];
      assert lines == init + [last];
      ApplyLinesSnoc(rec, init, last);
      LastOccurrenceWins(rec, init, f);
    }
  }

  /** Reading the same descriptor again over the result changes nothing. */
  lemma ReadingTwiceIsIdempotent(rec: Record, lines: seq<string>)
    ensures ApplyLines(ApplyLines(rec, lines), lines) == ApplyLines(rec, lines)
  {
    var once := ApplyLines(rec, lines);
    forall f: Field
      ensures ApplyLines(once, lines).Get(f) == once.Get(f)
    {
      LastOccurrenceWins(rec, lines, f);
      LastOccurrenceWins(once, lines, f);
    }
    RecordExt(ApplyLines(once, lines), once);
  }

  /** A value the descriptor can carry through unchanged: one non-empty word that fits its field with a terminator. */
  predicate IsWord(v: string) {
    0 < |v| < PROPERTY_VALUE_MAX && forall k :: 0 <= k < |v| ==> v[k] != NUL && !IsSpace(v[k])
  }

  /** The descriptor line `tag=value` for field `f`. */
  function TagLineText(f: Field, v: string): string {
    TagOf(f) + "=" + v + "\n"
  }

  /** The descriptor that declares the four given values, one `tag=value` line each. */
  function Descriptor(android: string, kernel: string, odm: string, platform: string): string {
    Concat([TagLineText(Android, android), TagLineText(Odm, odm),
            TagLineText(Kernel, kernel), TagLineText(Platform, platform)])
  }

  predicate TagChar(c: char) { 'a' <= c <= 'z' || c == '.' }

  /** Tags are made of lower-case letters and dots only. */
  lemma TagChars(f: Field)
    ensures |TagOf(f)| > 0 && forall k :: 0 <= k < |TagOf(f)| ==> TagChar(TagOf(f)[k])
  {
  }

  lemma TagLineIsWhole(f: Field, v: string)
    requires IsWord(v)
    ensures IsWholeLine(TagLineText(f, v))
  {
    var tag := TagOf(f);
    var l := TagLineText(f, v);
    TagChars(f);
    forall k | 0 <= k < |l| - 1
      ensures l[k] != '\n'
    {
      if k < |tag| {
        assert l[k] == tag[k];
      } else if k > |tag| {
        assert l[k] == v[k - |tag| - 1];
      }
    }
  }

  /** A tag is its own token and contains neither `=` nor NUL. */
  lemma TagIsToken(f: Field)
    ensures '=' !in TagOf(f) && NUL !in TagOf(f)
    ensures Token(TagOf(f)) == Some(TagOf(f))
  {
    var tag := TagOf(f);
    TagChars(f);
    assert forall k :: 0 <= k < |tag| ==> !IsSpace(tag[k]);
    TokenOfDecomposition([], tag, []);
    assert [] + tag + [] == tag;
  }

  lemma WordIsToken(v: string)
    requires IsWord(v)
    ensures Token(v + "\n") == Some(v)
  {
    TokenOfDecomposition([], v, "\n");
    assert [] + v + "\n" == v + "\n";
  }

  lemma TagLineEntry(f: Field, v: string)
    requires IsWord(v)
    ensures Entry(TagLineText(f, v)) == Some((TagOf(f), v))
  {
    var tag := TagOf(f);
    var line := tag + "=" + (v + "\n");
    assert line == TagLineText(f, v);
    assert Entry(line) == Some((tag, v)) by {
      TagIsToken(f);
      WordIsToken(v);
      EntrySplitsAtFirstEquals(tag, v + "\n");
    }
  }

  /** A `tag=value` line writes the value into the tag's field and nothing else. */
  lemma ApplyTagLine(rec: Record, f: Field, v: string)
    requires IsWord(v)
    ensures ApplyLine(rec, TagLineText(f, v)) == rec.Set(f, NCopy(v, PROPERTY_VALUE_MAX))
  {
    TagLineEntry(f, v);
    FieldOfTag(f);
  }

  lemma DescriptorLines(android: string, kernel: string, odm: string, platform: string)
    requires IsWord(android) && IsWord(kernel) && IsWord(odm) && IsWord(platform)
    ensures Lines(Descriptor(android, kernel, odm, platform)) ==
      [TagLineText(Android, android), TagLineText(Odm, odm),
       TagLineText(Kernel, kernel), TagLineText(Platform, platform)]
  {
    TagLineIsWhole(Android, android);
    TagLineIsWhole(Odm, odm);
    TagLineIsWhole(Kernel, kernel);
    TagLineIsWhole(Platform, platform);
    LinesOfWholeLines([TagLineText(Android, android), TagLineText(Odm, odm),
                       TagLineText(Kernel, kernel), TagLineText(Platform, platform)]);
  }

  lemma ApplyFourLines(l0: string, l1: string, l2: string, l3: string, rec: Record)
    ensures ApplyLines(rec, [l0, l1, l2, l3]) ==
      ApplyLine(ApplyLine(ApplyLine(ApplyLine(rec, l0), l1), l2), l3)
  {
    var ls := [l0, l1, l2, l3];
    var r1 := ApplyLine(rec, l0);
    var r2 := ApplyLine(r1, l1);
    var r3 := ApplyLine(r2, l2);
    var r4 := ApplyLine(r3, l3);
    assert ApplyLines(r4, ls[4..]) == r4;
    assert ApplyLines(r3, ls[3..]) == ApplyLines(r4, ls[4..]);
    assert ApplyLines(r2, ls[2..]) == ApplyLines(r3, ls[3..]);
    assert ApplyLines(r1, ls[1..]) == ApplyLines(r2, ls[2..]);
  }

  /**
   * Round trip: a descriptor written from four word values reads back, over a
   * cleared struct, into a record whose fields hold exactly those values.
   */
  lemma DescriptorRoundTrip(android: string, kernel: string, odm: string, platform: string)
    requires IsWord(android) && IsWord(kernel) && IsWord(odm) && IsWord(platform)
    ensures var r := ReadVersionFileSpec(Some(Descriptor(android, kernel, odm, platform)), Zero);
      && r.0 == 0
      && r.1 == Record(NCopy(android, PROPERTY_VALUE_MAX), NCopy(kernel, PROPERTY_VALUE_MAX),
                       NCopy(odm, PROPERTY_VALUE_MAX), NCopy(platform, PROPERTY_VALUE_MAX))
      && Str(r.1.android, 0) == android && Str(r.1.kernel, 0) == kernel
      && Str(r.1.odm, 0) == odm && Str(r.1.platform, 0) == platform
  {
    DescriptorRecord(android, kernel, odm, platform);
    NCopyReadsBack(android, PROPERTY_VALUE_MAX);
    NCopyReadsBack(kernel, PROPERTY_VALUE_MAX);
    NCopyReadsBack(odm, PROPERTY_VALUE_MAX);
    NCopyReadsBack(platform, PROPERTY_VALUE_MAX);
  }

  /** The bytes the four lines of a descriptor leave in a cleared struct. */
  lemma DescriptorRecord(android: string, kernel: string, odm: string, platform: string)
    requires IsWord(android) && IsWord(kernel) && IsWord(odm) && IsWord(platform)
    ensures ApplyLines(Zero, Lines(Descriptor(android, kernel, odm, platform))) ==
      Record(NCopy(android, PROPERTY_VALUE_MAX), NCopy(kernel, PROPERTY_VALUE_MAX),
             NCopy(odm, PROPERTY_VALUE_MAX), NCopy(platform, PROPERTY_VALUE_MAX))
  {
    DescriptorLines(android, kernel, odm, platform);
    var l0, l1 := TagLineText(Android, android), TagLineText(Odm, odm);
    var l2, l3 := TagLineText(Kernel, kernel), TagLineText(Platform, platform);
    ApplyFourLines(l0, l1, l2, l3, Zero);
    var r1 := Zero.Set(Android, NCopy(android, PROPERTY_VALUE_MAX));
    ApplyTagLine(Zero, Android, android);
    var r2 := r1.Set(Odm, NCopy(odm, PROPERTY_VALUE_MAX));
    ApplyTagLine(r1, Odm, odm);
    var r3 := r2.Set(Kernel, NCopy(kernel, PROPERTY_VALUE_MAX));
    ApplyTagLine(r2, Kernel, kernel);
    ApplyTagLine(r3, Platform, platform);
  }

  // ------------------------------------------------------------------
  // The program

  /** `strncpy` sees only the C string at its source. */
  lemma NCopyOfSameStr(x: seq<char>, y: seq<char>, n: nat)
    requires Str(x, 0) == Str(y, 0)
    ensures NCopy(x, n) == NCopy(y, n)
  {
    var c := Str(x, 0);
    assert forall k :: 0 <= k < |c| ==> x[k] == c[k] == y[k];
  }

  /**
   * The NUL written over the first `=` ends the name side there and leaves the
   * value side, up to the line's own terminator, as the C string after it.
   */
  lemma CutAtEquals(a: seq<char>, b: seq<char>, eq: nat)
    requires eq < NulIndex(a, 0) < |a| && b == a[eq := NUL]
    ensures Str(b, 0) == Str(a, 0)[..eq]
    ensures NUL in b[eq + 1..] && Str(b, eq + 1) == Str(a, 0)[eq + 1..]
  {
    var n := NulIndex(a, 0);
    CutString(a, 0, eq);
    assert a[0..eq] == Str(a, 0)[..eq];
    assert b[eq + 1..] == a[eq + 1..];
    assert b[eq + 1..][n - eq - 1] == NUL;
    StrOfSuffix(b, a, eq + 1);
    SpanUnique(a, eq + 1, NonNul, n);
  }

  /** `Entry` reads only the C string of the line. */
  lemma ApplyLineOfSameStr(rec: Record, x: seq<char>, y: seq<char>)
    requires Str(x, 0) == Str(y, 0)
    ensures ApplyLine(rec, x) == ApplyLine(rec, y)
  {
  }

  /**
   * The name side of a line already cut at its `=` (a NUL at `eq`) stripped in
   * place; the value side, from `eq + 1` on, is left as it was.
   */
  method StripName(line: array<char>, eq: nat) returns (name: Option<nat>)
    requires eq < line.Length && line[eq] == NUL && NUL in line[eq + 1..]
    modifies line
    ensures Str(line[..], eq + 1) == Str(old(line[..]), eq + 1) && NUL in line[eq + 1..]
    ensures name.Some? <==> Token(Str(old(line[..]), 0)).Some?
    ensures name.Some? ==>
      && name.value + |Token(Str(old(line[..]), 0)).value| <= eq
      && Str(line[..], name.value) == Token(Str(old(line[..]), 0)).value
  {
    ghost var a1 := line[..];
    name := StripBoth(line, 0);
    if name.Some? {
      NameCut(a1, line[..], eq, name.value + |Token(Str(a1, 0)).value|);
    }
  }

  /** Cutting the name side of `a` at `p`, before its `=` at `eq`, leaves the value side alone. */
  lemma NameCut(a: seq<char>, b: seq<char>, eq: nat, p: nat)
    requires eq < |a| && a[eq] == NUL && NUL in a[eq + 1..]
    requires p <= NulIndex(a, 0) && b == a[p := NUL]
    ensures p <= eq && Str(b, eq + 1) == Str(a, eq + 1) && NUL in b[eq + 1..]
  {
    assert NulIndex(a, 0) <= eq by {
      assert a[eq] == NUL;
    }
    StrAfterWrite(a, b, p, NUL, eq + 1);
  }

  /**
   * Both sides of a line already cut at its `=` stripped in place: the name
   * from offset 0, the value from `eq + 1`.
   */
  method StripSides(line: array<char>, eq: nat) returns (name: Option<nat>, value: Option<nat>)
    requires eq < line.Length && line[eq] == NUL && NUL in line[eq + 1..]
    modifies line
    ensures name.Some? && value.Some? <==>
      Token(Str(old(line[..]), 0)).Some? && Token(Str(old(line[..]), eq + 1)).Some?
    ensures name.Some? && value.Some? ==>
      && name.value <= line.Length && value.value <= line.Length
      && Str(line[..], name.value) == Token(Str(old(line[..]), 0)).value
      && Str(line[..], value.value) == Token(Str(old(line[..]), eq + 1)).value
  {
    ghost var a1 := line[..];
    name := StripName(line, eq);
    value := StripBoth(line, eq + 1);
    if name.Some? && value.Some? {
      assert NulIndex(a1, 0) <= eq by {
        assert a1[eq] == NUL;
      }
    }
  }

  /**
   * The first half of the loop body: `strchr` for the `=`, a NUL written over it,
   * and both sides stripped in place. Both token offsets are returned exactly
   * when the line yields an entry, and then they hold its name and value.
   */
  method SplitAtEquals(line: array<char>) returns (name: Option<nat>, value: Option<nat>)
    requires NUL in line[..]
    modifies line
    ensures name.Some? && value.Some? <==> Entry(old(line[..])).Some?
    ensures name.Some? && value.Some? ==>
      && name.value <= line.Length && value.value <= line.Length
      && Entry(old(line[..])).value == (Str(line[..], name.value), Str(line[..], value.value))
  {
    ghost var a := line[..];
    ghost var c := Str(a, 0);
    NulIndexInside(a, 0);
    var text := Str(line[..], 0);
    var eq := Span(text, 0, NonEquals);
    if eq == |text| {
      return None, None;
    }
    line[eq] := NUL;
    CutAtEquals(a, line[..], eq);
    name, value := StripSides(line, eq);
  }

  /**
   * The second half: the if-chain over the four tags, `strncpy` of the value
   * (the C string at `value`) into the field the name selects.
   */
  method StoreEntry(info: Info, name: string, value: seq<char>)
    requires info.Valid()
    modifies info.Repr()
    ensures info.Value() == ApplyEntry(old(info.Value()), name, Str(value, 0))
  {
    ghost var rec := info.Value();
    ghost var copied := NCopy(Str(value, 0), PROPERTY_VALUE_MAX);
    assert NCopy(value, PROPERTY_VALUE_MAX) == copied by {
      StrOfNulFree(Str(value, 0));
      NCopyOfSameStr(value, Str(value, 0), PROPERTY_VALUE_MAX);
    }
    if name == TAG_ANDROID_VERSION {
      StrNCpy(info.android, value);
      FieldOfTag(Android);
      assert info.Value() == rec.Set(Android, copied);
    } else if name == TAG_ODM_REVISION {
      StrNCpy(info.odm, value);
      FieldOfTag(Odm);
      assert info.Value() == rec.Set(Odm, copied);
    } else if name == TAG_KERNEL_VERSION {
      StrNCpy(info.kernel, value);
      FieldOfTag(Kernel);
      assert info.Value() == rec.Set(Kernel, copied);
    } else if name == TAG_PLATFORM_VERSION {
      StrNCpy(info.platform, value);
      FieldOfTag(Platform);
      assert info.Value() == rec.Set(Platform, copied);
    }
  }

  /** The body of the `while (fgets(...))` loop for the line held in `line`. */
  method ProcessLine(line: array<char>, info: Info)
    requires info.Valid() && line !in info.Repr() && NUL in line[..]
    modifies line, info.Repr()
    ensures info.Value() == ApplyLine(old(info.Value()), old(line[..]))
  {
    var name, value := SplitAtEquals(line);
    if name.None? || value.None? {
      return;
    }
    StrOfSuffix(line[..], line[..], value.value);
    StoreEntry(info, Str(line[..], name.value), line[value.value..]);
  }

  /**
   * One turn of the reading loop: `fgets` the next piece and, when there was one,
   * process it. What the remaining pieces will still do to the record is the same
   * before and after the turn.
   */
  method ReadStep(f: File, line: array<char>, info: Info) returns (more: bool)
    requires f.Valid() && info.Valid() && line.Length == LINE_BUFFER
    requires f !in info.Repr() && line !in info.Repr()
    modifies f, line, info.Repr()
    ensures f.Valid()
    ensures more ==> old(f.pos) < f.pos
    ensures !more ==> f.Rest() == [] && info.Value() == old(info.Value())
    ensures ApplyLines(info.Value(), Lines(f.Rest())) ==
      ApplyLines(old(info.Value()), Lines(old(f.Rest())))
  {
    ghost var before, v0 := f.Rest(), info.Value();
    more := f.Fgets(line);
    if !more {
      return;
    }
    ghost var piece, after := NextLine(before), f.Rest();
    assert info.Value() == v0;
    ApplyLineOfSameStr(v0, line[..], piece);
    ProcessLine(line, info);
    assert f.Rest() == after;
    assert ApplyLines(v0, Lines(before)) == ApplyLines(ApplyLine(v0, piece), Lines(after));
  }

  /** The `fgets` loop: every line still to be read processed in turn. */
  method ReadLines(f: File, line: array<char>, info: Info)
    requires f.Valid() && info.Valid() && line.Length == LINE_BUFFER
    requires f !in info.Repr() && line !in info.Repr()
    modifies f, line, info.Repr()
    ensures info.Value() == ApplyLines(old(info.Value()), Lines(old(f.Rest())))
  {
    ghost var rec0, rest0 := info.Value(), f.Rest();
    var more := true;
    while more
      invariant f.Valid()
      invariant ApplyLines(info.Value(), Lines(f.Rest())) == ApplyLines(rec0, Lines(rest0))
      invariant !more ==> f.Rest() == []
      decreases |f.content| - f.pos, more
    {
      more := ReadStep(f, line, info);
    }
  }

  /**
   * `odmcheck_read_version_file`: -1 when the file cannot be opened (the struct
   * untouched), otherwise every line processed in turn and 0, however many fields
   * were set.
   */
  method ReadVersionFile(file: Option<string>, info: Info) returns (ret: int)
    requires info.Valid()
    modifies info.Repr()
    ensures (ret, info.Value()) == ReadVersionFileSpec(file, old(info.Value()))
  {
    if file.None? {
      return -1;
    }
    var f := new File.Open(file.value);
    var line := new char[LINE_BUFFER];
    ReadLines(f, line, info);
    return 0;
  }
}
