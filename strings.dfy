/** Character-level helpers shared by the encoder and the decoder: the
    whitespace class of JavaScript regular expressions and `String.prototype.trim`,
    first-occurrence search, splitting on a separator and joining with one. */
module Strings {
  import opened Wrappers

  /** JavaScript's `\s` and the characters `trim()` removes: the ASCII
      whitespace controls, the space, and the Unicode space separators. */
  predicate IsSpace(c: char) {
    c == ' ' || c == '\t' || c == '\n' || c == '\r' || c == '\U{000B}' || c == '\U{000C}'
    || c == '\U{00A0}' || c == '\U{1680}' || ('\U{2000}' <= c <= '\U{200A}')
    || c == '\U{2028}' || c == '\U{2029}' || c == '\U{202F}' || c == '\U{205F}'
    || c == '\U{3000}' || c == '\U{FEFF}'
  }

  predicate AllSpace(s: string) {
    forall i :: 0 <= i < |s| ==> IsSpace(s[i])
  }

  predicate NoSpace(s: string) {
    forall i :: 0 <= i < |s| ==> !IsSpace(s[i])
  }

  /** The first index at or after `from` that holds `c`. */
  function IndexOf(s: string, c: char, from: nat): (r: Option<nat>)
    decreases |s| - from
    ensures r.Some? ==> from <= r.value < |s| && s[r.value] == c
    ensures r.Some? ==> forall k :: from <= k < r.value ==> s[k] != c
    ensures r.None? ==> forall k :: from <= k < |s| ==> s[k] != c
  {
    if from >= |s| then None
    else if s[from] == c then Some(from)
    else IndexOf(s, c, from + 1)
  }

  /** `IndexOf` finds the first occurrence: an index holding `c` with no `c`
      between `from` and it. */
  lemma {:induction false} IndexOfAt(s: string, c: char, from: nat, at: nat)
    requires from <= at < |s| && s[at] == c
    requires c !in s[from..at]
    ensures IndexOf(s, c, from) == Some(at)
    decreases at - from
  {
    if from < at {
      assert s[from..at][0] == s[from] && s[from + 1..at] == s[from..at][1..];
      IndexOfAt(s, c, from + 1, at);
    }
  }

  /** A slice of a slice is a slice of the original. */
  lemma {:induction false} SliceOfSlice(s: string, a: nat, b: nat, i: nat, j: nat)
    requires a <= b <= |s| && i <= j <= b - a
    ensures s[a..b][i..j] == s[a + i..a + j]
  {
    assert forall k :: 0 <= k < j - i ==> s[a..b][i..j][k] == s[a + i + k];
  }

  /** The first index at or after `from` that does not hold whitespace, or `|s|`. */
  function SkipSpaces(s: string, from: nat): (r: nat)
    requires from <= |s|
    decreases |s| - from
    ensures from <= r <= |s|
    ensures AllSpace(s[from..r])
    ensures r < |s| ==> !IsSpace(s[r])
  {
    if from == |s| || !IsSpace(s[from]) then from else SkipSpaces(s, from + 1)
  }

  /** The first index at or after `from` that holds whitespace, or `|s|`. */
  function SkipNonSpaces(s: string, from: nat): (r: nat)
    requires from <= |s|
    decreases |s| - from
    ensures from <= r <= |s|
    ensures NoSpace(s[from..r])
    ensures r < |s| ==> IsSpace(s[r])
  {
    if from == |s| || IsSpace(s[from]) then from else SkipNonSpaces(s, from + 1)
  }

  /** `String.prototype.trimStart`: drops the leading whitespace. */
  function TrimStart(s: string): (r: string)
    ensures |r| <= |s| && r == s[|s| - |r|..]
    ensures AllSpace(s[..|s| - |r|])
    ensures r != [] ==> !IsSpace(r[0])
  {
    s[SkipSpaces(s, 0)..]
  }

  /** `String.prototype.trimEnd`: drops the trailing whitespace. */
  function TrimEnd(s: string): (r: string)
    ensures |r| <= |s| && r == s[..|r|]
    ensures AllSpace(s[|r|..])
    ensures r != [] ==> !IsSpace(r[|r| - 1])
  {
    if s != [] && IsSpace(s[|s| - 1]) then TrimEnd(s[..|s| - 1]) else s
  }

  /** `r` is `s` with whitespace cut off at both ends, and no more. */
  predicate TrimmedFrom(s: string, r: string) {
    && (r != [] ==> !IsSpace(r[0]) && !IsSpace(r[|r| - 1]))
    && exists i :: 0 <= i <= |s| - |r| && r == s[i..i + |r|] && AllSpace(s[..i]) && AllSpace(s[i + |r|..])
  }

  /** `String.prototype.trim`. */
  function Trim(s: string): (r: string)
    ensures r != [] ==> !IsSpace(r[0]) && !IsSpace(r[|r| - 1])
    ensures exists i :: 0 <= i <= |s| - |r| && r == s[i..i + |r|]
              && AllSpace(s[..i]) && AllSpace(s[i + |r|..])
  {
    var t := TrimStart(s);
    var r := TrimEnd(t);
    var i := |s| - |t|;
    assert r == s[i..i + |r|];
    assert s[i + |r|..] == t[|r|..];
    r
  }

  /** `s.split(c)` for a one-character separator: the pieces between the
      occurrences of `c`, including the empty ones. */
  function Split(s: string, c: char): (r: seq<string>)
    decreases |s|
    ensures |r| >= 1
    ensures forall k :: 0 <= k < |r| ==> c !in r[k]
  {
    match IndexOf(s, c, 0)
    case None => [s]
    case Some(i) =>
      assert c !in s[..i] by { assert forall k :: 0 <= k < i ==> s[..i][k] == s[k]; }
      [s[..i]] + Split(s[i + 1..], c)
  }

  /** `parts.join(sep)`. */
  function Join(parts: seq<string>, sep: string): string
    decreases |parts|
  {
    if parts == [] then []
    else if |parts| == 1 then parts[0]
    else parts[0] + sep + Join(parts[1..], sep)
  }

  /** A string without the separator splits into itself alone. */
  lemma {:induction false} SplitWithout(s: string, c: char)
    requires c !in s
    ensures Split(s, c) == [s]
  {
    assert IndexOf(s, c, 0).None?;
  }

  /** Splitting `x c y` where `x` holds no `c` gives `x` and then the pieces of `y`. */
  lemma {:induction false} SplitAfter(x: string, y: string, c: char)
    requires c !in x
    ensures Split(x + [c] + y, c) == [x] + Split(y, c)
  {
    var s := x + [c] + y;
    assert s[|x|] == c;
    assert s[0..|x|] == x;
    IndexOfAt(s, c, 0, |x|);
    assert s[..|x|] == x && s[|x| + 1..] == y;
  }

  /** Splitting and joining on the same one-character separator are inverse. */
  lemma {:induction false} JoinSplit(s: string, c: char)
    ensures Join(Split(s, c), [c]) == s
    decreases |s|
  {
    match IndexOf(s, c, 0)
    case None =>
    case Some(i) =>
      var rest := Split(s[i + 1..], c);
      JoinSplit(s[i + 1..], c);
      assert Split(s, c) == [s[..i]] + rest;
      assert s == s[..i] + [c] + s[i + 1..];
  }

  /** Joining pieces that do not contain the separator and splitting again
      gives the pieces back. */
  lemma {:induction false} SplitJoin(parts: seq<string>, c: char)
    requires |parts| >= 1
    requires forall k :: 0 <= k < |parts| ==> c !in parts[k]
    ensures Split(Join(parts, [c]), c) == parts
    decreases |parts|
  {
    if |parts| == 1 {
      assert IndexOf(parts[0], c, 0).None?;
    } else {
      var s := Join(parts, [c]);
      var tail := Join(parts[1..], [c]);
      assert s == parts[0] + [c] + tail;
      assert s[|parts[0]|] == c;
      assert forall k :: 0 <= k < |parts[0]| ==> s[k] == parts[0][k];
      assert IndexOf(s, c, 0) == Some(|parts[0]|);
      assert s[..|parts[0]|] == parts[0];
      assert s[|parts[0]| + 1..] == tail;
      SplitJoin(parts[1..], c);
    }
  }

  /** Text that neither starts nor ends with whitespace is its own trim. */
  lemma {:induction false} TrimUnchanged(s: string)
    requires s != [] && !IsSpace(s[0]) && !IsSpace(s[|s| - 1])
    ensures Trim(s) == s
  {
    var r := Trim(s);
    var i :| 0 <= i <= |s| - |r| && r == s[i..i + |r|] && AllSpace(s[..i]) && AllSpace(s[i + |r|..]);
  }
}
