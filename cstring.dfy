/**
 * C strings and the few libc routines odmcheck relies on.
 *
 * A `char` stands for one C byte; a buffer is a `seq<char>` (or an `array<char>`
 * where the program updates it in place) and the C string stored at offset `i`
 * is everything from `i` up to the first NUL byte.
 */
module CString {
  import opened Wrappers

  const NUL: char := '\0'

  /** `isspace` in the C locale: space, \t, \n, \v, \f, \r. */
  predicate IsSpace(c: char): (b: bool)
    ensures b ==> c != NUL && c != '=' && c != '.' && c != '-' && !('0' <= c <= '9')
  {
    c == ' ' || c == '\t' || c == '\n' || c == '\U{B}' || c == '\U{C}' || c == '\r'
  }

  predicate IsDigit(c: char) { '0' <= c <= '9' }

  /** The character classes the scanning loops of the program run over. */
  datatype Class = Blank | NonBlank | NonNul | NonEquals

  predicate In(c: char, cls: Class) {
    match cls
    case Blank => IsSpace(c)
    case NonBlank => !IsSpace(c)
    case NonNul => c != NUL
    case NonEquals => c != '='
  }

  /** The first index at or after `i` whose character is not in `cls`, or `|x|` if there is none. */
  function Span(x: seq<char>, i: nat, cls: Class): (r: nat)
    requires i <= |x|
    ensures i <= r <= |x|
    ensures forall k :: i <= k < r ==> In(x[k], cls)
    ensures r < |x| ==> !In(x[r], cls)
    decreases |x| - i
  {
    if i == |x| || !In(x[i], cls) then i else Span(x, i + 1, cls)
  }

  /** Any index with the two properties of `Span` is the span. */
  lemma SpanUnique(x: seq<char>, i: nat, cls: Class, j: nat)
    requires i <= j <= |x|
    requires forall k :: i <= k < j ==> In(x[k], cls)
    requires j < |x| ==> !In(x[j], cls)
    ensures Span(x, i, cls) == j
  {
  }

  /** The index of the NUL that ends the C string at `i` (`|a|` when the buffer holds none). */
  function NulIndex(a: seq<char>, i: nat): nat
    requires i <= |a|
  {
    Span(a, i, NonNul)
  }

  /** The C string stored at offset `i` of buffer `a`. */
  function Str(a: seq<char>, i: nat): (s: string)
    requires i <= |a|
    ensures NUL !in s
    ensures i + |s| <= |a| && forall k :: 0 <= k < |s| ==> s[k] == a[i + k]
    ensures i + |s| == |a| || a[i + |s|] == NUL
  {
    a[i..NulIndex(a, i)]
  }

  lemma NulIndexInside(a: seq<char>, i: nat)
    requires i <= |a| && NUL in a[i..]
    ensures NulIndex(a, i) < |a|
  {
    var j :| 0 <= j < |a[i..]| && a[i..][j] == NUL;
    assert a[i + j] == NUL;
  }

  /** A NUL-free string is its own C string. */
  lemma StrOfNulFree(s: string)
    requires NUL !in s
    ensures Str(s, 0) == s
  {
    SpanUnique(s, 0, NonNul, |s|);
  }

  /** Terminating a byte sequence with NUL does not change the C string it starts with, whatever follows. */
  lemma StrOfTerminated(s: seq<char>, rest: seq<char>)
    ensures Str(s + [NUL] + rest, 0) == Str(s, 0)
  {
    var a := s + [NUL] + rest;
    var j := NulIndex(s, 0);
    assert forall k :: 0 <= k < |s| ==> a[k] == s[k];
    assert a[|s|] == NUL;
    SpanUnique(a, 0, NonNul, j);
    assert a[..j] == s[..j];
  }

  /** Overwriting a byte beyond the terminator leaves a C string as it was. */
  lemma StrBeforeWrite(a: seq<char>, i: nat, p: nat, x: char)
    requires i <= |a| && i + |Str(a, i)| < p < |a|
    ensures Str(a[p := x], i) == Str(a, i)
  {
    var s := Str(a, i);
    var b := a[p := x];
    assert forall k :: i <= k < i + |s| ==> b[k] == s[k - i];
    SpanUnique(b, i, NonNul, i + |s|);
    assert b[i..i + |s|] == a[i..i + |s|];
  }

  /** A write before offset `i` leaves the C string at `i` alone. */
  lemma StrAfterWrite(a: seq<char>, b: seq<char>, p: nat, x: char, i: nat)
    requires p < i <= |a| && NUL in a[i..] && b == a[p := x]
    ensures Str(b, i) == Str(a, i) && NUL in b[i..]
  {
    assert b[i..] == a[i..];
    StrOfSuffix(b, a, i);
  }

  /** A C string depends only on the bytes from its start on. */
  lemma StrOfSuffix(a: seq<char>, b: seq<char>, i: nat)
    requires i <= |a| && i <= |b| && a[i..] == b[i..]
    ensures Str(a, i) == Str(b, i)
    ensures Str(a[i..], 0) == Str(a, i)
  {
    var n := NulIndex(a, i);
    assert forall k :: i <= k < |a| ==> a[k] == a[i..][k - i] == b[i..][k - i] == b[k];
    SpanUnique(b, i, NonNul, n);
    assert forall k :: 0 <= k < |a[i..]| ==> a[i..][k] == a[i + k];
    SpanUnique(a[i..], 0, NonNul, n - i);
    assert a[i..][0..n - i] == a[i..n];
  }

  // ------------------------------------------------------------------
  // odmcheck_strip_both

  /**
   * The token that `odmcheck_strip_both` returns for the C string `s`: leading
   * whitespace is skipped and the string is cut at the next whitespace, so only the
   * first whitespace-free run survives; `None` (the null pointer) when nothing is left.
   */
  function Token(s: string): (r: Option<string>)
    ensures r.None? <==> forall k :: 0 <= k < |s| ==> IsSpace(s[k])
    ensures r.Some? ==> r.value != [] && forall k :: 0 <= k < |r.value| ==> !IsSpace(r.value[k])
  {
    var lead := Span(s, 0, Blank);
    if lead == |s| then None else Some(s[lead..Span(s, lead, NonBlank)])
  }

  /** Whatever surrounds a whitespace-free word with leading blanks and a blank (or the end) after it, the word is the token. */
  lemma {:induction false} TokenOfDecomposition(pre: string, t: string, post: string)
    requires forall k :: 0 <= k < |pre| ==> IsSpace(pre[k])
    requires t != [] && forall k :: 0 <= k < |t| ==> !IsSpace(t[k])
    requires post == [] || IsSpace(post[0])
    ensures Token(pre + t + post) == Some(t)
  {
    var s := pre + t + post;
    assert forall k :: 0 <= k < |pre| ==> s[k] == pre[k];
    assert forall k :: 0 <= k < |t| ==> s[|pre| + k] == t[k];
    SpanUnique(s, 0, Blank, |pre|);
    if post != [] {
      assert s[|pre| + |t|] == post[0];
    }
    SpanUnique(s, |pre|, NonBlank, |pre| + |t|);
    assert s[|pre|..|pre| + |t|] == t;
  }

  /** Conversely every token is such a word: the string splits into blanks, the token, and a rest that is empty or starts with a blank. */
  lemma {:induction false} TokenDecomposes(s: string) returns (pre: string, post: string)
    requires Token(s).Some?
    ensures s == pre + Token(s).value + post
    ensures forall k :: 0 <= k < |pre| ==> IsSpace(pre[k])
    ensures post == [] || IsSpace(post[0])
  {
    var lead := Span(s, 0, Blank);
    var stop := Span(s, lead, NonBlank);
    pre, post := s[..lead], s[stop..];
    assert s == s[..lead] + s[lead..stop] + s[stop..];
  }

  /**
   * `odmcheck_strip_both` on the C string at offset `s` of `buf`: skips leading
   * whitespace, returns the null pointer if the string ends there, and otherwise
   * writes a NUL at the first whitespace or NUL after the token and returns where
   * the token starts.
   */
  method StripBoth(buf: array<char>, s: nat) returns (r: Option<nat>)
    requires s <= buf.Length && NUL in buf[s..]
    modifies buf
    ensures match Token(Str(old(buf[..]), s))
      case None => r == None && buf[..] == old(buf[..])
      case Some(tok) =>
        && r.Some? && s <= r.value
        && r.value + |tok| <= NulIndex(old(buf[..]), s) < buf.Length
        && buf[..] == old(buf[..])[r.value + |tok| := NUL]
        && Str(buf[..], r.value) == tok
    ensures forall i :: 0 <= i <= s && i + |Str(old(buf[..]), i)| < s ==>
      Str(buf[..], i) == Str(old(buf[..]), i)
  {
    ghost var a := buf[..];
    ghost var n := NulIndex(a, s);
    NulIndexInside(a, s);
    var i := s;
    while buf[i] != NUL && IsSpace(buf[i])
      invariant s <= i <= n
      invariant forall k :: s <= k < i ==> IsSpace(a[k])
      decreases n - i
    {
      i := i + 1;
    }
    if buf[i] == NUL {
      ScannedToken(a, s, i, i);
      return None;
    }
    var p := i;
    while buf[p] != NUL && !IsSpace(buf[p])
      invariant i <= p <= n
      invariant forall k :: i <= k < p ==> !IsSpace(a[k])
      decreases n - p
    {
      p := p + 1;
    }
    ScannedToken(a, s, i, p);
    CutFacts(a, s, i, p);
    buf[p] := NUL;
    r := Some(i);
  }

  /** The NUL that `odmcheck_strip_both` writes after the token ends it, and changes no C string before `s`. */
  lemma CutFacts(a: seq<char>, s: nat, i: nat, p: nat)
    requires s <= |a| && s <= i <= p <= NulIndex(a, s) < |a|
    ensures Str(a[p := NUL], i) == a[i..p]
    ensures forall j :: 0 <= j <= s && j + |Str(a, j)| < s ==> Str(a[p := NUL], j) == Str(a, j)
  {
    CutString(a, i, p);
    forall j | 0 <= j <= s && j + |Str(a, j)| < s
      ensures Str(a[p := NUL], j) == Str(a, j)
    {
      StrBeforeWrite(a, j, p, NUL);
    }
  }

  /** What the two scanning loops of `StripBoth` establish determines the token. */
  lemma ScannedToken(a: seq<char>, s: nat, i: nat, p: nat)
    requires s <= |a| && s <= i <= p <= NulIndex(a, s)
    requires forall k :: s <= k < i ==> IsSpace(a[k])
    requires i < NulIndex(a, s) ==> !IsSpace(a[i])
    requires forall k :: i <= k < p ==> !IsSpace(a[k])
    requires p < NulIndex(a, s) ==> IsSpace(a[p])
    requires i == NulIndex(a, s) || i < p
    ensures Token(Str(a, s)) == if i == NulIndex(a, s) then None else Some(a[i..p])
  {
    var n := NulIndex(a, s);
    var x := Str(a, s);
    assert x == a[s..n];
    assert forall k :: 0 <= k < i - s ==> In(x[k], Blank) by {
      forall k | 0 <= k < i - s ensures In(x[k], Blank) {
        assert x[k] == a[s + k];
      }
    }
    SpanUnique(x, 0, Blank, i - s);
    if i < n {
      assert forall k :: i - s <= k < p - s ==> In(x[k], NonBlank) by {
        forall k | i - s <= k < p - s ensures In(x[k], NonBlank) {
          assert x[k] == a[s + k];
        }
      }
      SpanUnique(x, i - s, NonBlank, p - s);
      assert x[i - s..p - s] == a[i..p] by {
        forall k | 0 <= k < p - i ensures x[i - s..p - s][k] == a[i..p][k] {
          assert x[i - s + k] == a[i + k];
        }
      }
    }
  }

  /** Writing a NUL at `p` makes the C string at `i` end there. */
  lemma CutString(a: seq<char>, i: nat, p: nat)
    requires i <= p < |a|
    requires forall k :: i <= k < p ==> a[k] != NUL
    ensures Str(a[p := NUL], i) == a[i..p]
  {
    var b := a[p := NUL];
    SpanUnique(b, i, NonNul, p);
    assert b[i..p] == a[i..p];
  }

  // ------------------------------------------------------------------
  // strncpy and the writes of sprintf and property_get

  /**
   * The `n` bytes that `strncpy(dst, src, n)` leaves in `dst`: the C string at
   * `src`, cut to `n` bytes, with every remaining byte set to NUL.
   */
  function NCopy(src: seq<char>, n: nat): (r: seq<char>)
    ensures |r| == n
    ensures forall k :: 0 <= k < n ==> r[k] == if k < |Str(src, 0)| then src[k] else NUL
  {
    var c := Str(src, 0);
    if |c| >= n then c[..n] else c + seq(n - |c|, _ => NUL)
  }

  /** A string shorter than the destination reads back unchanged as a C string. */
  lemma NCopyReadsBack(v: string, n: nat)
    requires NUL !in v && |v| < n
    ensures Str(NCopy(v, n), 0) == v
  {
    StrOfNulFree(v);
    var r := NCopy(v, n);
    assert forall k :: 0 <= k < |v| ==> r[k] == v[k];
    SpanUnique(r, 0, NonNul, |v|);
    assert r[..|v|] == v;
  }

  /** A string at least as long as the destination is cut, and no terminator is written. */
  lemma NCopyTruncates(v: string, n: nat)
    requires NUL !in v && |v| >= n
    ensures NCopy(v, n) == v[..n]
    ensures NUL !in NCopy(v, n)
  {
    StrOfNulFree(v);
  }

  /**
   * A buffer after the C string `s` and its terminator have been written at its
   * start (what `sprintf` and `property_get` do); the bytes after the terminator
   * keep their old values.
   */
  function WithCStr(buf: seq<char>, s: string): (r: seq<char>)
    requires |s| < |buf|
    ensures |r| == |buf|
    ensures r[|s|] == NUL
    ensures Str(r, 0) == Str(s, 0)
    ensures NUL !in s ==> Str(r, 0) == s
    ensures r[|s| + 1..] == buf[|s| + 1..]
  {
    var r := s + [NUL] + buf[|s| + 1..];
    StrOfTerminated(s, buf[|s| + 1..]);
    assert NUL !in s ==> Str(s, 0) == s by {
      if NUL !in s {
        StrOfNulFree(s);
      }
    }
    r
  }

  method StrNCpy(dst: array<char>, src: seq<char>)
    modifies dst
    ensures dst[..] == NCopy(src, dst.Length)
  {
    var c := Str(src, 0);
    forall k | 0 <= k < dst.Length {
      dst[k] := if k < |c| then c[k] else NUL;
    }
  }

  method PutCStr(dst: array<char>, s: string)
    requires |s| < dst.Length
    modifies dst
    ensures dst[..] == WithCStr(old(dst[..]), s)
  {
    forall k | 0 <= k <= |s| {
      dst[k] := if k < |s| then s[k] else NUL;
    }
  }

  // ------------------------------------------------------------------
  // memcmp

  /**
   * `memcmp` over two blocks of the same size, as a byte-wise implementation
   * computes it: the difference of the first pair of bytes that differ, 0 if none do.
   */
  function MemCmp(a: seq<char>, b: seq<char>): (r: int)
    requires |a| == |b|
    ensures r == 0 <==> a == b
  {
    if a == [] then 0
    else if a[0] != b[0] then a[0] as int - b[0] as int
    else
      assert a == [a[0]] + a[1..] && b == [b[0]] + b[1..];
      MemCmp(a[1..], b[1..])
  }

  /** Swapping the operands negates the result, so only its sign and zero-ness mean anything. */
  lemma {:induction false} MemCmpAntisymmetric(a: seq<char>, b: seq<char>)
    requires |a| == |b|
    ensures MemCmp(a, b) == -MemCmp(b, a)
  {
    if a != [] && a[0] == b[0] {
      MemCmpAntisymmetric(a[1..], b[1..]);
    }
  }
}
