/**
 * The Python string operations that the publisher relies on, over
 * `string` (= `seq<char>`): `str.find`, `str.split(sep)`,
 * `str.split(sep, 1)`, `sep.join(parts)`, `str.count`, `str.strip()` and
 * `str.replace(old, new)`. Each is defined the way CPython behaves for a
 * non-empty separator: occurrences are taken left to right and never
 * overlap.
 */
module Text {

  datatype Option<T> = None | Some(value: T)

  /** `sep` occurs in `s` starting at index `i`. */
  predicate OccursAt(s: string, sep: string, i: nat) {
    i + |sep| <= |s| && s[i..i + |sep|] == sep
  }

  /** `sep in s`, Python's substring test. */
  predicate Contains(s: string, sep: string) {
    exists i: nat | i <= |s| :: OccursAt(s, sep, i)
  }

  /** No occurrence of `sep` in `p + sep` starts before the appended copy:
      the pieces of a split (all but the last) have this shape. */
  predicate NoEarlierSeparator(p: string, sep: string) {
    forall j: nat :: j < |p| ==> !OccursAt(p + sep, sep, j)
  }

  /** The leftmost occurrence of `sep` at or after `from`. */
  function FindFrom(s: string, sep: string, from: nat): (r: Option<nat>)
    requires |sep| > 0
    decreases |s| - from
    ensures r.Some? ==> from <= r.value && OccursAt(s, sep, r.value)
    ensures forall j: nat :: from <= j && (r.None? || j < r.value) ==> !OccursAt(s, sep, j)
  {
    if from + |sep| > |s| then None
    else if s[from..from + |sep|] == sep then Some(from)
    else FindFrom(s, sep, from + 1)
  }

  /** `s.find(sep)`, with `None` for Python's -1. */
  function Find(s: string, sep: string): (r: Option<nat>)
    requires |sep| > 0
    ensures r.None? ==> forall j: nat :: !OccursAt(s, sep, j)
    ensures r.Some? ==> OccursAt(s, sep, r.value)
    ensures r.Some? ==> forall j: nat :: j < r.value ==> !OccursAt(s, sep, j)
  {
    FindFrom(s, sep, 0)
  }

  /** `s.find(sep) == -1` exactly when `sep not in s`. */
  lemma FindNone(s: string, sep: string)
    requires |sep| > 0
    ensures Find(s, sep).None? <==> !Contains(s, sep)
  {
  }

  /** An occurrence with none before it is the one `Find` reports. */
  lemma FindIsLeftmost(s: string, sep: string, i: nat)
    requires |sep| > 0 && OccursAt(s, sep, i)
    requires forall j: nat :: j < i ==> !OccursAt(s, sep, j)
    ensures Find(s, sep) == Some(i)
  {
  }

  /** `sep.join(parts)`. */
  function Join(parts: seq<string>, sep: string): string
    decreases |parts|
  {
    if |parts| == 0 then ""
    else if |parts| == 1 then parts[0]
    else parts[0] + sep + Join(parts[1..], sep)
  }

  /** `s.split(sep)` for a non-empty `sep` (Python raises ValueError on an
      empty one): cut at the leftmost occurrence and go on after it. */
  function Split(s: string, sep: string): (r: seq<string>)
    requires |sep| > 0
    decreases |s|
    ensures |r| >= 1
  {
    match Find(s, sep)
    case None => [s]
    case Some(i) => [s[..i]] + Split(s[i + |sep|..], sep)
  }

  /** `s.split(sep, 1)`: at most one cut, at the leftmost occurrence. */
  function SplitOnce(s: string, sep: string): (r: seq<string>)
    requires |sep| > 0
    ensures 1 <= |r| <= 2
    ensures |r| == 1 <==> !Contains(s, sep)
    ensures |r| == 1 ==> r[0] == s
    ensures |r| == 2 ==> r[0] + sep + r[1] == s && Find(s, sep) == Some(|r[0]|) && !Contains(r[0], sep)
  {
    match Find(s, sep)
    case None => [s]
    case Some(i) =>
      assert s[..i] + sep + s[i + |sep|..] == s;
      PrefixBeforeFind(s, sep, i);
      [s[..i], s[i + |sep|..]]
  }

  /** `s.count(sep)`: a scan that steps over each match it counts. It is
      written independently of `Split`; `SplitCount` relates the two. */
  function Count(s: string, sep: string): (r: nat)
    requires |sep| > 0
    decreases |s|
    ensures r * |sep| <= |s|
  {
    if |s| < |sep| then 0
    else if s[..|sep|] == sep then 1 + Count(s[|sep|..], sep)
    else Count(s[1..], sep)
  }

  /** One mismatching character rules out an occurrence at `j`. */
  lemma MismatchAt(s: string, sep: string, j: nat, k: nat)
    requires j + |sep| <= |s| && k < |sep| && s[j + k] != sep[k]
    ensures !OccursAt(s, sep, j)
  {
    assert s[j..j + |sep|][k] == s[j + k];
  }

  /** Occurrences in a prefix are occurrences in the whole string. */
  lemma OccursInPrefix(s: string, sep: string, k: nat, j: nat)
    requires k <= |s| && OccursAt(s[..k], sep, j)
    ensures OccursAt(s, sep, j)
  {
    assert s[..k][j..j + |sep|] == s[j..j + |sep|];
  }

  /** Occurrences in a suffix are occurrences in the whole string, shifted. */
  lemma OccursInSuffix(s: string, sep: string, k: nat, j: nat)
    requires k <= |s|
    ensures OccursAt(s[k..], sep, j) <==> OccursAt(s, sep, k + j)
  {
    if k + j + |sep| <= |s| {
      assert s[k..][j..j + |sep|] == s[k + j..k + j + |sep|];
    }
  }

  /** A string is the text before an occurrence, the separator, and the text after. */
  lemma CutAt(s: string, sep: string, i: nat)
    requires OccursAt(s, sep, i)
    ensures s[..i] + sep + s[i + |sep|..] == s
  {
    assert s == s[..i] + s[i..i + |sep|] + s[i + |sep|..];
  }

  lemma JoinCons(p: string, parts: seq<string>, sep: string)
    requires |parts| >= 1
    ensures Join([p] + parts, sep) == p + sep + Join(parts, sep)
  {
    assert ([p] + parts)[1..] == parts;
  }

  /** Joining the pieces of a split with the separator gives the text back. */
  lemma {:induction false} SplitJoin(s: string, sep: string)
    requires |sep| > 0
    ensures Join(Split(s, sep), sep) == s
    decreases |s|
  {
    match Find(s, sep)
    case None =>
      assert Split(s, sep) == [s];
    case Some(i) =>
      var rest := s[i + |sep|..];
      assert Split(s, sep) == [s[..i]] + Split(rest, sep);
      SplitJoin(rest, sep);
      JoinCons(s[..i], Split(rest, sep), sep);
      CutAt(s, sep, i);
  }

  /** Skipping a prefix in which no match starts does not change the count. */
  lemma {:induction false} CountSkip(s: string, sep: string, k: nat)
    requires |sep| > 0 && k <= |s|
    requires forall j: nat :: j < k ==> !OccursAt(s, sep, j)
    ensures Count(s, sep) == Count(s[k..], sep)
    decreases k
  {
    if k == 0 {
      assert s[0..] == s;
    } else if |s| < |sep| {
      CountShort(s[k..], sep);
    } else {
      assert !OccursAt(s, sep, 0);
      forall j: nat | j < k - 1 ensures !OccursAt(s[1..], sep, j) {
        OccursInSuffix(s, sep, 1, j);
      }
      CountSkip(s[1..], sep, k - 1);
      assert s[1..][k - 1..] == s[k..];
    }
  }

  lemma CountShort(s: string, sep: string)
    requires |sep| > 0 && |s| < |sep|
    ensures Count(s, sep) == 0
  {
  }

  /** `len(s.split(sep)) == s.count(sep) + 1`. */
  lemma {:induction false} SplitCount(s: string, sep: string)
    requires |sep| > 0
    ensures |Split(s, sep)| == Count(s, sep) + 1
    decreases |s|
  {
    match Find(s, sep)
    case None =>
      CountSkip(s, sep, |s|);
      assert s[|s|..] == "";
    case Some(i) =>
      var rest := s[i + |sep|..];
      CountSkip(s, sep, i);
      assert s[i..][..|sep|] == sep;
      assert s[i..][|sep|..] == rest;
      SplitCount(rest, sep);
  }

  /** Every piece of a split is free of the separator, and every piece but
      the last ends exactly where the leftmost separator after it starts. */
  lemma {:induction false} SplitPieces(s: string, sep: string)
    requires |sep| > 0
    ensures forall k :: 0 <= k < |Split(s, sep)| ==> !Contains(Split(s, sep)[k], sep)
    ensures forall k :: 0 <= k < |Split(s, sep)| - 1 ==> NoEarlierSeparator(Split(s, sep)[k], sep)
    decreases |s|
  {
    match Find(s, sep)
    case None =>
    case Some(i) =>
      var rest := s[i + |sep|..];
      SplitPieces(rest, sep);
      PrefixBeforeFind(s, sep, i);
      assert Split(s, sep) == [s[..i]] + Split(rest, sep);
  }

  /** The text before the leftmost separator holds none, and no separator
      overlaps its end. */
  lemma PrefixBeforeFind(s: string, sep: string, i: nat)
    requires |sep| > 0 && Find(s, sep) == Some(i)
    ensures !Contains(s[..i], sep)
    ensures NoEarlierSeparator(s[..i], sep)
  {
    forall j: nat | OccursAt(s[..i], sep, j) ensures false {
      OccursInPrefix(s, sep, i, j);
    }
    assert s[..i] + sep == s[..i + |sep|];
    forall j: nat | j < i && OccursAt(s[..i] + sep, sep, j) ensures false {
      OccursInPrefix(s, sep, i + |sep|, j);
    }
  }

  /** A piece with no separator running into an appended copy holds none
      of its own either. */
  lemma NoEarlierExcludes(p: string, sep: string)
    requires |sep| > 0 && NoEarlierSeparator(p, sep)
    ensures !Contains(p, sep)
  {
    forall j: nat | OccursAt(p, sep, j) ensures false {
      assert (p + sep)[j..j + |sep|] == p[j..j + |sep|];
      assert OccursAt(p + sep, sep, j);
    }
  }

  /** The properties of `SplitPieces` single out the split: any list of
      pieces that joins back to `s` and has them is `Split(s, sep)`. */
  lemma {:induction false} SplitUnique(s: string, sep: string, parts: seq<string>)
    requires |sep| > 0 && |parts| >= 1
    requires Join(parts, sep) == s
    requires !Contains(parts[|parts| - 1], sep)
    requires forall k :: 0 <= k < |parts| - 1 ==> NoEarlierSeparator(parts[k], sep)
    ensures parts == Split(s, sep)
    decreases |parts|
  {
    if |parts| == 1 {
      assert s == parts[0];
    } else {
      var p := parts[0];
      var tail := Join(parts[1..], sep);
      assert s == (p + sep) + tail;
      assert s[..|p| + |sep|] == p + sep;
      assert OccursAt(s, sep, |p|);
      forall j: nat | j < |p| ensures !OccursAt(s, sep, j) {
        assert !OccursAt(p + sep, sep, j);
        assert (p + sep)[j..j + |sep|] == s[..|p| + |sep|][j..j + |sep|] == s[j..j + |sep|];
      }
      FindIsLeftmost(s, sep, |p|);
      assert s[..|p|] == p;
      assert s[|p| + |sep|..] == tail;
      SplitUnique(tail, sep, parts[1..]);
    }
  }

  /** `s.split(sep, 1)` keeps the first piece of the full split and glues
      the rest back together, so every later separator survives in the
      second part. */
  lemma SplitOnceOfSplit(s: string, sep: string)
    requires |sep| > 0
    ensures |Split(s, sep)| == 1 ==> SplitOnce(s, sep) == Split(s, sep)
    ensures |Split(s, sep)| > 1 ==>
      SplitOnce(s, sep) == [Split(s, sep)[0], Join(Split(s, sep)[1..], sep)]
  {
    if Find(s, sep).Some? {
      SplitOnceAt(s, sep, Find(s, sep).value);
    }
  }

  lemma SplitOnceAt(s: string, sep: string, i: nat)
    requires |sep| > 0 && Find(s, sep) == Some(i)
    ensures |Split(s, sep)| > 1
    ensures SplitOnce(s, sep) == [Split(s, sep)[0], Join(Split(s, sep)[1..], sep)]
  {
    var rest := s[i + |sep|..];
    var pieces := Split(s, sep);
    assert pieces == [s[..i]] + Split(rest, sep);
    assert pieces[1..] == Split(rest, sep);
    SplitJoin(rest, sep);
  }

  /** The second part of `s.split(sep, 1)` holds another separator exactly
      when the full split has more than two pieces. */
  lemma SplitOnceRemainder(s: string, sep: string)
    requires |sep| > 0 && |SplitOnce(s, sep)| == 2
    ensures Contains(SplitOnce(s, sep)[1], sep) <==> |Split(s, sep)| > 2
  {
    var i := Find(s, sep).value;
    var rest := s[i + |sep|..];
    assert Split(s, sep) == [s[..i]] + Split(rest, sep);
  }

  // ---------------------------------------------------------------------
  // str.strip()

  /** Python's `str.isspace` for one character: the ASCII controls
      9 to 13 and 28 to 31, the space, and the Unicode separators and
      spaces U+0085, U+00A0, U+1680, U+2000 to U+200A, U+2028, U+2029,
      U+202F, U+205F and U+3000. */
  predicate IsSpace(c: char) {
    c == ' ' || ('\t' <= c <= '\r') || ('\U{1C}' <= c <= '\U{1F}')
    || c == '\U{85}' || c == '\U{A0}' || c == '\U{1680}'
    || ('\U{2000}' <= c <= '\U{200A}') || c == '\U{2028}' || c == '\U{2029}'
    || c == '\U{202F}' || c == '\U{205F}' || c == '\U{3000}'
  }

  predicate AllSpace(s: string) {
    forall k :: 0 <= k < |s| ==> IsSpace(s[k])
  }

  /** The index of the first non-whitespace character at or after `from`,
      or `|s|` if there is none. */
  function SkipSpace(s: string, from: nat): (n: nat)
    requires from <= |s|
    decreases |s| - from
    ensures from <= n <= |s|
    ensures forall k :: from <= k < n ==> IsSpace(s[k])
    ensures n < |s| ==> !IsSpace(s[n])
  {
    if from == |s| || !IsSpace(s[from]) then from else SkipSpace(s, from + 1)
  }

  /** The end of `s[lo..hi]` once its trailing whitespace is dropped. */
  function SkipSpaceBack(s: string, lo: nat, hi: nat): (n: nat)
    requires lo <= hi <= |s|
    decreases hi
    ensures lo <= n <= hi
    ensures forall k :: n <= k < hi ==> IsSpace(s[k])
    ensures n > lo ==> !IsSpace(s[n - 1])
  {
    if hi == lo || !IsSpace(s[hi - 1]) then hi else SkipSpaceBack(s, lo, hi - 1)
  }

  /** `r` is `s` with the whitespace before index `i` and after `i + |r|`
      cut off. */
  predicate StrippedAt(s: string, r: string, i: nat) {
    i + |r| <= |s| && r == s[i..i + |r|]
    && (forall k :: 0 <= k < i ==> IsSpace(s[k]))
    && (forall k :: i + |r| <= k < |s| ==> IsSpace(s[k]))
  }

  /** `s.strip()`: whitespace removed from both ends, and only there. */
  function Strip(s: string): (r: string)
    ensures r == [] <==> AllSpace(s)
    ensures r != [] ==> !IsSpace(r[0]) && !IsSpace(r[|r| - 1])
    ensures exists i: nat :: StrippedAt(s, r, i)
  {
    var a := SkipSpace(s, 0);
    var b := SkipSpaceBack(s, a, |s|);
    assert StrippedAt(s, s[a..b], a);
    s[a..b]
  }

  /** A piece cut out of a string without the separator has none either. */
  lemma InfixKeepsAbsence(s: string, sep: string, i: nat, n: nat)
    requires i + n <= |s| && !Contains(s, sep)
    ensures !Contains(s[i..i + n], sep)
  {
    var t := s[i..i + n];
    forall j: nat | OccursAt(t, sep, j) ensures false {
      assert t == s[i..][..n];
      OccursInPrefix(s[i..], sep, n, j);
      OccursInSuffix(s, sep, i, j);
    }
  }

  /** Stripping twice is stripping once. */
  lemma StripIdempotent(s: string)
    ensures Strip(Strip(s)) == Strip(s)
  {
    var r := Strip(s);
    if r != [] {
      StripUnique(r, r, 0);
    }
  }

  /** Whitespace on either side of a stripped text strips off again. */
  lemma StripBetweenSpace(gap: string, t: string, tail: string)
    requires AllSpace(gap) && Strip(t) == t && AllSpace(tail)
    ensures Strip(gap + t + tail) == t
  {
    var s := gap + t + tail;
    assert s[|gap|..|gap| + |t|] == t;
    assert forall k :: 0 <= k < |gap| ==> s[k] == gap[k];
    assert forall k :: |gap| + |t| <= k < |s| ==> s[k] == tail[k - |gap| - |t|];
    assert StrippedAt(s, t, |gap|);
    if t == [] {
      assert forall k :: 0 <= k < |s| ==> IsSpace(s[k]);
    }
    StripUnique(s, t, |gap|);
  }

  /** The contract of `Strip` determines its result: a piece of `s` that is
      surrounded only by whitespace and neither begins nor ends with it (or
      is empty while `s` is all whitespace) is `s.strip()`. */
  lemma StripUnique(s: string, t: string, i: nat)
    requires StrippedAt(s, t, i)
    requires t == [] ==> AllSpace(s)
    requires t != [] ==> !IsSpace(t[0]) && !IsSpace(t[|t| - 1])
    ensures Strip(s) == t
  {
    if t != [] {
      var a := SkipSpace(s, 0);
      assert s[i] == t[0];
      assert a == i;
      var b := SkipSpaceBack(s, a, |s|);
      assert s[i + |t| - 1] == t[|t| - 1];
      assert b == i + |t|;
    }
  }

  /** Stripping cannot create an occurrence of a separator. */
  lemma StripKeepsAbsence(s: string, sep: string)
    requires !Contains(s, sep)
    ensures !Contains(Strip(s), sep)
  {
    var r := Strip(s);
    var i: nat :| StrippedAt(s, r, i);
    InfixKeepsAbsence(s, sep, i, |r|);
  }

  /** Every character outside the stripped text is whitespace. */
  lemma SpaceOutside(s: string, r: string, i: nat, j: nat)
    requires StrippedAt(s, r, i) && j < |s|
    ensures j < i || i + |r| <= j ==> IsSpace(s[j])
  {
  }

  /** A slice of a slice is a slice of the whole. */
  lemma SliceOfSlice(s: string, a: nat, b: nat, c: nat, d: nat)
    requires a <= b <= |s| && c <= d <= b - a
    ensures s[a..b][c..d] == s[a + c..a + d]
  {
    assert |s[a..b][c..d]| == d - c;
    forall k | 0 <= k < d - c ensures s[a..b][c..d][k] == s[a + c..a + d][k] {
      assert s[a..b][c..d][k] == s[a..b][c + k] == s[a + c + k];
    }
  }

  /** A separator made of non-whitespace characters survives stripping. */
  lemma StripKeepsPresence(s: string, sep: string, j: nat)
    requires |sep| > 0 && forall k :: 0 <= k < |sep| ==> !IsSpace(sep[k])
    requires OccursAt(s, sep, j)
    ensures Contains(Strip(s), sep)
  {
    var r := Strip(s);
    var i: nat :| StrippedAt(s, r, i);
    assert i <= j && j + |sep| <= i + |r| by {
      assert s[j] == sep[0] && s[j + |sep| - 1] == sep[|sep| - 1];
      assert !IsSpace(s[j]) && !IsSpace(s[j + |sep| - 1]);
      SpaceOutside(s, r, i, j);
      SpaceOutside(s, r, i, j + |sep| - 1);
    }
    SliceOfSlice(s, i, i + |r|, j - i, j - i + |sep|);
    assert OccursAt(r, sep, j - i);
  }

  /** Stripping neither adds nor removes a separator without whitespace. */
  lemma StripKeepsContains(s: string, sep: string)
    requires |sep| > 0 && forall k :: 0 <= k < |sep| ==> !IsSpace(sep[k])
    ensures Contains(Strip(s), sep) <==> Contains(s, sep)
  {
    if Contains(s, sep) {
      var j: nat :| j <= |s| && OccursAt(s, sep, j);
      StripKeepsPresence(s, sep, j);
    } else {
      StripKeepsAbsence(s, sep);
    }
  }

  // ---------------------------------------------------------------------
  // str.replace

  /** `s.replace(pattern, repl)` for a non-empty `pattern`: CPython replaces
      the leftmost non-overlapping occurrences, which is
      `repl.join(s.split(pattern))`. */
  function Replace(s: string, pattern: string, repl: string): string
    requires |pattern| > 0
  {
    Join(Split(s, pattern), repl)
  }

  /** Independent character-wise reference for replacing every newline by
      the four characters `<br>`: other characters are kept as they are. */
  function BreakLines(s: string): (r: string)
    decreases |s|
  {
    if s == [] then []
    else (if s[0] == '\n' then "<br>" else [s[0]]) + BreakLines(s[1..])
  }

  /** The number of newline characters in `s`. */
  function NewlineCount(s: string): nat
    decreases |s|
  {
    if s == [] then 0 else (if s[0] == '\n' then 1 else 0) + NewlineCount(s[1..])
  }

  lemma {:induction false} BreakLinesAppend(a: string, b: string)
    ensures BreakLines(a + b) == BreakLines(a) + BreakLines(b)
    decreases |a|
  {
    if a != [] {
      assert (a + b)[1..] == a[1..] + b;
      BreakLinesAppend(a[1..], b);
    } else {
      assert a + b == b;
    }
  }

  /** A line without newlines is left alone. */
  lemma {:induction false} BreakLinesNoNewline(s: string)
    requires '\n' !in s
    ensures BreakLines(s) == s
    decreases |s|
  {
    if s != [] {
      assert s == [s[0]] + s[1..];
      BreakLinesNoNewline(s[1..]);
    }
  }

  /** Replacing `"\n"` by `"<br>"` through split and join agrees with the
      character-wise reference. */
  lemma {:induction false} ReplaceNewlines(s: string)
    ensures Replace(s, "\n", "<br>") == BreakLines(s)
    decreases |s|
  {
    match Find(s, "\n")
    case None =>
      NoNewlineBefore(s, |s|);
      assert s[..|s|] == s;
      BreakLinesNoNewline(s);
    case Some(i) =>
      var rest := s[i + 1..];
      ReplaceNewlines(rest);
      JoinCons(s[..i], Split(rest, "\n"), "<br>");
      BreakLinesAround(s, i);
  }

  /** A newline character is an occurrence of the one-character string. */
  lemma NoNewlineBefore(s: string, i: nat)
    requires i <= |s|
    requires forall j: nat :: j < i ==> !OccursAt(s, "\n", j)
    ensures '\n' !in s[..i]
  {
    forall k | 0 <= k < i ensures s[..i][k] != '\n' {
      assert !OccursAt(s, "\n", k);
      assert s[k..k + 1] == [s[k]];
    }
  }

  /** The reference at the first newline of `s`. */
  lemma BreakLinesAround(s: string, i: nat)
    requires Find(s, "\n") == Some(i)
    ensures BreakLines(s) == s[..i] + "<br>" + BreakLines(s[i + 1..])
  {
    var pre, rest := s[..i], s[i + 1..];
    assert BreakLines(pre) == pre by {
      NoNewlineBefore(s, i);
      BreakLinesNoNewline(pre);
    }
    assert BreakLines("\n" + rest) == "<br>" + BreakLines(rest) by {
      assert ("\n" + rest)[1..] == rest;
    }
    assert s == pre + ("\n" + rest) by {
      CutAt(s, "\n", i);
    }
    BreakLinesAppend(pre, "\n" + rest);
  }

  /** After the replacement no newline remains, each newline has grown into
      exactly the four characters of `<br>`, and nothing else has changed
      length. */
  lemma {:induction false} BreakLinesShape(s: string)
    ensures '\n' !in BreakLines(s)
    ensures |BreakLines(s)| == |s| + 3 * NewlineCount(s)
    decreases |s|
  {
    if s != [] {
      BreakLinesShape(s[1..]);
    }
  }
}
