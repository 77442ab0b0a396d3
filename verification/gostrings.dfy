/** The parts of Go's `strings` package that the loader relies on, over
    strings as sequences of characters. Case mapping is ASCII-only. */
module GoStrings {
  import opened Wrappers

  /** The white-space characters of Go's unicode.IsSpace outside the range
      U+2000 to U+200A. */
  const SpaceChars: set<char> := {
    ' ', '\t', '\n', '\U{000B}', '\U{000C}', '\r', '\U{0085}', '\U{00A0}', '\U{1680}',
    '\U{2028}', '\U{2029}', '\U{202F}', '\U{205F}', '\U{3000}'
  }

  /** Go's unicode.IsSpace: the characters strings.TrimSpace strips. */
  predicate IsSpace(c: char) {
    c in SpaceChars || '\U{2000}' <= c <= '\U{200A}'
  }

  /** Number of white-space characters at the front of `s`. */
  function LeadingSpaces(s: string): (n: nat)
    ensures n <= |s|
    ensures forall i :: 0 <= i < n ==> IsSpace(s[i])
    ensures n < |s| ==> !IsSpace(s[n])
  {
    if |s| == 0 || !IsSpace(s[0]) then 0 else 1 + LeadingSpaces(s[1..])
  }

  /** Number of white-space characters at the back of `s`. */
  function TrailingSpaces(s: string): (n: nat)
    ensures n <= |s|
    ensures forall i :: |s| - n <= i < |s| ==> IsSpace(s[i])
    ensures n < |s| ==> !IsSpace(s[|s| - n - 1])
  {
    if |s| == 0 || !IsSpace(s[|s| - 1]) then 0 else 1 + TrailingSpaces(s[..|s| - 1])
  }

  /** strings.TrimSpace: the result is the contiguous middle of `s` that
      neither starts nor ends with white space; everything dropped is white space. */
  function TrimSpace(s: string): (r: string)
    ensures |r| <= |s|
    ensures LeadingSpaces(s) + |r| <= |s| && r == s[LeadingSpaces(s)..LeadingSpaces(s) + |r|]
    ensures forall i :: 0 <= i < |s| && !(LeadingSpaces(s) <= i < LeadingSpaces(s) + |r|) ==> IsSpace(s[i])
    ensures |r| > 0 ==> !IsSpace(r[0]) && !IsSpace(r[|r| - 1])
  {
    var a := LeadingSpaces(s);
    var t := s[a..];
    var r := t[..|t| - TrailingSpaces(t)];
    TrimmedMiddle(s);
    r
  }

  lemma TrimmedMiddle(s: string)
    ensures var a := LeadingSpaces(s);
      var t := s[a..];
      var r := t[..|t| - TrailingSpaces(t)];
      a + |r| <= |s| && r == s[a..a + |r|] &&
      (forall i :: 0 <= i < |s| && !(a <= i < a + |r|) ==> IsSpace(s[i])) &&
      (|r| > 0 ==> !IsSpace(r[0]) && !IsSpace(r[|r| - 1]))
  {
    var a := LeadingSpaces(s);
    var t := s[a..];
    var n := |t| - TrailingSpaces(t);
    TrimmedDropsSpace(s, a, t, n);
    TrimmedEnds(t, n);
  }

  lemma TrimmedDropsSpace(s: string, a: nat, t: string, n: nat)
    requires a == LeadingSpaces(s) && t == s[a..] && n == |t| - TrailingSpaces(t)
    ensures a + n <= |s| && t[..n] == s[a..a + n]
    ensures forall i :: 0 <= i < |s| && !(a <= i < a + n) ==> IsSpace(s[i])
  {
    assert t[..n] == s[a..a + n];
    forall i | a + n <= i < |s|
      ensures IsSpace(s[i])
    {
      var j := i - a;
      TrailingIsSpace(t, j);
      SuffixIndex(s, a, i);
    }
  }

  lemma SuffixIndex(s: string, a: nat, i: nat)
    requires a <= i < |s|
    ensures s[a..][i - a] == s[i]
  {
  }

  lemma TrailingIsSpace(t: string, j: nat)
    requires |t| - TrailingSpaces(t) <= j < |t|
    ensures IsSpace(t[j])
  {
  }

  lemma TrimmedEnds(t: string, n: nat)
    requires n == |t| - TrailingSpaces(t)
    requires n > 0 ==> !IsSpace(t[0])
    ensures n > 0 ==> !IsSpace(t[..n][0]) && !IsSpace(t[..n][n - 1])
  {
  }

  /** A string that neither starts nor ends with white space is left alone. */
  lemma TrimSpaceFixpoint(s: string)
    requires |s| > 0 ==> !IsSpace(s[0]) && !IsSpace(s[|s| - 1])
    ensures TrimSpace(s) == s
  {
    if |s| > 0 {
      assert LeadingSpaces(s) == 0;
      assert TrailingSpaces(s) == 0;
    }
  }

  /** Trimming is idempotent. */
  lemma TrimSpaceIdempotent(s: string)
    ensures TrimSpace(TrimSpace(s)) == TrimSpace(s)
  {
    TrimSpaceFixpoint(TrimSpace(s));
  }

  predicate IsLowerAscii(c: char) { 'a' <= c <= 'z' }

  predicate IsUpperAscii(c: char) { 'A' <= c <= 'Z' }

  function UpperChar(c: char): (u: char)
    ensures !IsLowerAscii(u)
  {
    if IsLowerAscii(c) then (c as int - 32) as char else c
  }

  function LowerChar(c: char): (l: char)
    ensures !IsUpperAscii(l)
    ensures IsUpperAscii(c) ==> IsLowerAscii(l)
  {
    if IsUpperAscii(c) then (c as int + 32) as char else c
  }

  /** strings.ToUpper restricted to ASCII letters: maps each character on its own. */
  function ToUpper(s: string): (r: string)
    ensures |r| == |s|
    ensures forall i :: 0 <= i < |s| ==> r[i] == UpperChar(s[i])
  {
    seq(|s|, i requires 0 <= i < |s| => UpperChar(s[i]))
  }

  /** strings.ToLower restricted to ASCII letters. */
  function ToLower(s: string): (r: string)
    ensures |r| == |s|
    ensures forall i :: 0 <= i < |s| ==> r[i] == LowerChar(s[i])
  {
    seq(|s|, i requires 0 <= i < |s| => LowerChar(s[i]))
  }

  /** No ASCII lower-case letter survives upper-casing. */
  predicate IsUpperCased(s: string) {
    forall i :: 0 <= i < |s| ==> !IsLowerAscii(s[i])
  }

  /** Upper-casing leaves an upper-cased string as it is. */
  lemma ToUpperOfUpperCased(s: string)
    requires IsUpperCased(s)
    ensures ToUpper(s) == s
  {
  }

  lemma ToUpperIdempotent(s: string)
    ensures ToUpper(ToUpper(s)) == ToUpper(s)
  {
  }

  lemma ToUpperAppend(a: string, b: string)
    ensures ToUpper(a + b) == ToUpper(a) + ToUpper(b)
  {
  }

  /** Upper-casing a string does not change its lower-cased form. */
  lemma ToLowerOfToUpper(s: string)
    ensures ToLower(ToUpper(s)) == ToLower(s)
  {
  }

  predicate HasPrefix(s: string, p: string) {
    |p| <= |s| && s[..|p|] == p
  }

  predicate HasSuffix(s: string, p: string) {
    |p| <= |s| && s[|s| - |p|..] == p
  }

  lemma ToUpperKeepsPrefix(s: string, p: string)
    requires HasPrefix(s, p)
    ensures HasPrefix(ToUpper(s), ToUpper(p))
  {
  }

  /** Strings that differ in their first character do not prefix one another. */
  lemma FirstCharMismatch(s: string, p: string)
    requires |s| > 0 && |p| > 0 && s[0] != p[0]
    ensures !HasPrefix(s, p)
  {
    if |p| <= |s| {
      assert s[..|p|][0] != p[0];
    }
  }

  /** `sub` occurs in `s` starting at index `i`. */
  predicate OccursAt(s: string, sub: string, i: nat) {
    i + |sub| <= |s| && s[i..i + |sub|] == sub
  }

  ghost predicate NoOccurrence(s: string, sub: string) {
    forall j: nat :: !OccursAt(s, sub, j)
  }

  /** The first occurrence of `sub` in `s` at or after `from`. */
  function IndexFrom(s: string, sub: string, from: nat): (r: Option<nat>)
    decreases |s| - from
    ensures r.Some? ==> from <= r.value && OccursAt(s, sub, r.value)
    ensures r.Some? ==> forall j: nat :: from <= j < r.value ==> !OccursAt(s, sub, j)
    ensures r.None? ==> forall j: nat :: from <= j ==> !OccursAt(s, sub, j)
  {
    if from + |sub| > |s| then None
    else if OccursAt(s, sub, from) then Some(from)
    else IndexFrom(s, sub, from + 1)
  }

  /** strings.Index: the first occurrence of `sub` in `s`, if any. */
  function IndexOf(s: string, sub: string): (r: Option<nat>)
    ensures r.Some? ==> OccursAt(s, sub, r.value)
    ensures r.Some? ==> forall j: nat :: j < r.value ==> !OccursAt(s, sub, j)
    ensures r.None? <==> NoOccurrence(s, sub)
  {
    IndexFrom(s, sub, 0)
  }

  /** strings.Contains. */
  predicate Contains(s: string, sub: string) {
    IndexOf(s, sub).Some?
  }

  /** A one-character separator occurs exactly where that character is. */
  lemma OccursAtChar(s: string, c: char, i: nat)
    ensures OccursAt(s, [c], i) <==> i < |s| && s[i] == c
  {
    if i < |s| && s[i] == c {
      assert s[i..i + 1] == [c];
    }
  }

  lemma ContainsChar(s: string, c: char)
    ensures Contains(s, [c]) <==> c in s
  {
    if c in s {
      var i :| 0 <= i < |s| && s[i] == c;
      OccursAtChar(s, c, i);
    } else if Contains(s, [c]) {
      OccursAtChar(s, c, IndexOf(s, [c]).value);
    }
  }

  /** A string without a given character has no occurrence of it. */
  lemma NoOccurrenceOfAbsentChar(s: string, c: char)
    requires c !in s
    ensures NoOccurrence(s, [c])
  {
    forall j: nat
      ensures !OccursAt(s, [c], j)
    {
      OccursAtChar(s, c, j);
    }
  }

  /** The text before the first occurrence of `sub` contains no occurrence of it. */
  lemma PrefixBeforeFirstOccurrence(s: string, sub: string, i: nat)
    requires |sub| > 0 && i <= |s|
    requires forall j: nat :: j < i ==> !OccursAt(s, sub, j)
    ensures NoOccurrence(s[..i], sub)
  {
    forall j: nat
      ensures !OccursAt(s[..i], sub, j)
    {
      if OccursAt(s[..i], sub, j) {
        assert s[..i][j..j + |sub|] == s[j..j + |sub|];
        assert OccursAt(s, sub, j);
      }
    }
  }

  /** strings.SplitN(s, sep, 2) when `sep` occurs in `s`: the text before and
      after its first occurrence. */
  function SplitFirst(s: string, sep: string): (parts: (string, string))
    requires |sep| > 0 && Contains(s, sep)
    ensures s == parts.0 + sep + parts.1
    ensures NoOccurrence(parts.0, sep)
  {
    var i := IndexOf(s, sep).value;
    PrefixBeforeFirstOccurrence(s, sep, i);
    assert s == s[..i] + s[i..i + |sep|] + s[i + |sep|..];
    (s[..i], s[i + |sep|..])
  }

  /** strings.Split with a non-empty separator. */
  function Split(s: string, sep: string): (parts: seq<string>)
    requires |sep| > 0
    decreases |s|
    ensures |parts| >= 1
  {
    match IndexOf(s, sep)
    case None => [s]
    case Some(i) => [s[..i]] + Split(s[i + |sep|..], sep)
  }

  /** strings.Join. */
  function Join(parts: seq<string>, sep: string): string
  {
    if |parts| == 0 then ""
    else if |parts| == 1 then parts[0]
    else parts[0] + sep + Join(parts[1..], sep)
  }

  /** Joining the pieces of a split with the same separator restores the input. */
  lemma {:induction false} JoinSplit(s: string, sep: string)
    requires |sep| > 0
    ensures Join(Split(s, sep), sep) == s
    decreases |s|
  {
    var idx := IndexOf(s, sep);
    if idx.Some? {
      var i := idx.value;
      var rest := s[i + |sep|..];
      var tail := Split(rest, sep);
      JoinSplit(rest, sep);
      assert Split(s, sep) == [s[..i]] + tail;
      assert Join([s[..i]] + tail, sep) == s[..i] + sep + Join(tail, sep);
      assert s == s[..i] + s[i..i + |sep|] + rest;
    }
  }

  /** No piece of a split contains the separator. */
  lemma {:induction false} SplitPartsFree(s: string, sep: string)
    requires |sep| > 0
    ensures forall k :: 0 <= k < |Split(s, sep)| ==> NoOccurrence(Split(s, sep)[k], sep)
    decreases |s|
  {
    match IndexOf(s, sep)
    case None =>
    case Some(i) =>
      var rest := s[i + |sep|..];
      var tail := Split(rest, sep);
      SplitPartsFree(rest, sep);
      PrefixBeforeFirstOccurrence(s, sep, i);
      var parts := Split(s, sep);
      assert parts == [s[..i]] + tail;
      forall k | 0 <= k < |parts|
        ensures NoOccurrence(parts[k], sep)
      {
        if k > 0 {
          assert parts[k] == tail[k - 1];
        }
      }
  }

  /** With a one-character separator that no piece contains, splitting a
      join gives back exactly the pieces. */
  lemma {:induction false} SplitJoinChar(parts: seq<string>, c: char)
    requires |parts| >= 1
    requires forall k :: 0 <= k < |parts| ==> c !in parts[k]
    ensures Split(Join(parts, [c]), [c]) == parts
  {
    var p0 := parts[0];
    NoOccurrenceOfAbsentChar(p0, c);
    if |parts| == 1 {
      assert IndexOf(p0, [c]).None?;
    } else {
      var rest := Join(parts[1..], [c]);
      var s := p0 + [c] + rest;
      assert Join(parts, [c]) == s;
      OccursAtChar(s, c, |p0|);
      forall j: nat | j < |p0|
        ensures !OccursAt(s, [c], j)
      {
        OccursAtChar(s, c, j);
        assert s[j] == p0[j];
      }
      var idx := IndexOf(s, [c]);
      assert idx.Some?;
      assert idx.value == |p0|;
      assert s[..|p0|] == p0;
      assert s[|p0| + 1..] == rest;
      SplitJoinChar(parts[1..], c);
    }
  }

  /** Splitting at the first occurrence of a character the front part does
      not contain gives back the two parts. */
  lemma SplitFirstChar(front: string, c: char, back: string)
    requires c !in front
    ensures Contains(front + [c] + back, [c])
    ensures SplitFirst(front + [c] + back, [c]) == (front, back)
  {
    var s := front + [c] + back;
    OccursAtChar(s, c, |front|);
    forall j: nat | j < |front|
      ensures !OccursAt(s, [c], j)
    {
      OccursAtChar(s, c, j);
      assert s[j] == front[j];
    }
    var idx := IndexOf(s, [c]);
    assert idx.Some?;
    assert idx.value == |front|;
    assert s[..|front|] == front;
    assert s[|front| + 1..] == back;
  }

  /** strings.Replace(s, target, replacement, 1): replace the first occurrence only. */
  function ReplaceFirst(s: string, target: string, replacement: string): string
  {
    match IndexOf(s, target)
    case None => s
    case Some(i) => s[..i] + replacement + s[i + |target|..]
  }

  /** When `target` is a prefix, its first occurrence is that prefix. */
  lemma ReplaceFirstAtPrefix(s: string, target: string, replacement: string)
    requires HasPrefix(s, target)
    ensures ReplaceFirst(s, target, replacement) == replacement + s[|target|..]
  {
    assert OccursAt(s, target, 0);
    assert IndexOf(s, target) == Some(0);
  }
}
