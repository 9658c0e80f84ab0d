/**
 * The part of stdio odmcheck uses: a file opened for reading and `fgets`.
 * A file is its whole content; opening fails when there is no content to give
 * (the model's inputs say so with `None`).
 */
module Stdio {
  import opened CString

  /** Both `fgets` calls of odmcheck pass a 256-byte line buffer. */
  const LINE_BUFFER: nat := 256

  /**
   * How many bytes one `fgets` call with room for `limit` characters consumes from
   * `rest`: everything up to and including the first newline, but never more than `limit`.
   */
  function ChunkLen(rest: string, limit: nat): (k: nat)
    ensures k <= |rest| && k <= limit
    ensures rest != [] && limit > 0 ==> k > 0
    ensures forall j :: 0 <= j < k - 1 ==> rest[j] != '\n'
    ensures 0 < k < |rest| && k < limit ==> rest[k - 1] == '\n'
    decreases limit
  {
    if rest == [] || limit == 0 then 0
    else if rest[0] == '\n' then 1
    else 1 + ChunkLen(rest[1..], limit - 1)
  }

  /** The piece of `rest` that the next `fgets(buf, 256, f)` stores in `buf`. */
  function NextLine(rest: string): (line: string)
    requires rest != []
    ensures line != [] && |line| < LINE_BUFFER && |line| <= |rest| && line == rest[..|line|]
  {
    rest[..ChunkLen(rest, LINE_BUFFER - 1)]
  }

  function Concat(ls: seq<string>): string {
    if ls == [] then [] else ls[0] + Concat(ls[1..])
  }

  /**
   * The successive pieces that a `while (fgets(line, 256, f))` loop receives:
   * lines, with a line longer than 255 bytes arriving in several pieces.
   */
  function Lines(content: string): (r: seq<string>)
    ensures forall k :: 0 <= k < |r| ==> r[k] != [] && |r[k]| < LINE_BUFFER
    decreases |content|
  {
    if content == [] then []
    else
      var line := NextLine(content);
      [line] + Lines(content[|line|..])
  }

  /** Nothing is lost or reordered: the pieces put back together are the whole content. */
  lemma {:induction false} LinesCoverContent(content: string)
    ensures Concat(Lines(content)) == content
    decreases |content|
  {
    if content != [] {
      var line := NextLine(content);
      var rest := content[|line|..];
      LinesCoverContent(rest);
      assert Lines(content) == [line] + Lines(rest);
      ConcatCons(line, Lines(rest));
      assert content == line + rest;
    }
  }

  lemma ConcatCons(l: string, ls: seq<string>)
    ensures Concat([l] + ls) == l + Concat(ls)
  {
    assert ([l] + ls)[1..] == ls;
  }

  /** A newline-terminated line that fits the buffer and has no other newline arrives as one piece. */
  predicate IsWholeLine(l: string) {
    0 < |l| < LINE_BUFFER && l[|l| - 1] == '\n' && forall j :: 0 <= j < |l| - 1 ==> l[j] != '\n'
  }

  /** A file made of whole lines is read back line by line. */
  lemma {:induction false} LinesOfWholeLines(ls: seq<string>)
    requires forall k :: 0 <= k < |ls| ==> IsWholeLine(ls[k])
    ensures Lines(Concat(ls)) == ls
  {
    if ls != [] {
      var c := Concat(ls);
      var l := ls[0];
      assert c == l + Concat(ls[1..]);
      assert c[..|l|] == l;
      var k := ChunkLen(c, LINE_BUFFER - 1);
      assert forall j :: 0 <= j < |l| ==> c[j] == l[j];
      assert k == |l|;
      assert NextLine(c) == l;
      assert c[|l|..] == Concat(ls[1..]);
      LinesOfWholeLines(ls[1..]);
      assert ls == [l] + ls[1..];
    }
  }

  /**
   * A first line that starts with `p` (no newline, no NUL, shorter than the
   * buffer) reaches the caller's C string whole, followed by a prefix of `rest`.
   */
  lemma NextLineKeepsPrefix(p: string, rest: string) returns (j: nat)
    requires p != [] && |p| < LINE_BUFFER - 1
    requires '\n' !in p && NUL !in p
    ensures j <= |rest| && Str(NextLine(p + rest), 0) == p + rest[..j]
  {
    var x := p + rest;
    var k := ChunkLen(x, LINE_BUFFER - 1);
    assert forall i :: 0 <= i < |p| ==> x[i] == p[i];
    assert k >= |p|;
    var line := NextLine(x);
    assert line == p + rest[..k - |p|];
    var n := NulIndex(line, 0);
    assert forall i :: 0 <= i < |p| ==> line[i] == p[i];
    assert n >= |p|;
    j := n - |p|;
    assert line[..n] == p + rest[..j];
  }

  /** A file opened for reading: its content and the read position. */
  class File {
    const content: string
    var pos: nat

    /** `fopen(path, "r")` of a file that exists. */
    constructor Open(content: string)
      ensures this.content == content && pos == 0
    {
      this.content := content;
      pos := 0;
    }

    predicate Valid()
      reads this
    {
      pos <= |content|
    }

    /** What is left to read. */
    function Rest(): string
      reads this
      requires Valid()
    {
      content[pos..]
    }

    /**
     * `fgets(buf, 256, f)`: at end of file it fails and leaves `buf` alone; otherwise
     * it stores the next piece and a terminating NUL in `buf` and moves past the piece.
     */
    method Fgets(buf: array<char>) returns (ok: bool)
      requires Valid() && buf.Length == LINE_BUFFER
      modifies this, buf
      ensures Valid()
      ensures ok <==> old(Rest()) != []
      ensures !ok ==> pos == old(pos) && buf[..] == old(buf[..])
      ensures ok ==>
        && pos == old(pos) + |NextLine(old(Rest()))|
        && buf[..] == WithCStr(old(buf[..]), NextLine(old(Rest())))
        && Lines(old(Rest())) == [NextLine(old(Rest()))] + Lines(Rest())
    {
      if pos == |content| {
        return false;
      }
      var line := NextLine(content[pos..]);
      PutCStr(buf, line);
      pos := pos + |line|;
      assert Rest() == old(Rest())[|line|..];
      ok := true;
    }
  }
}
