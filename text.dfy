/** The JavaScript string built-ins the handlers rely on: `trim`, ASCII
    `toLowerCase`, and `split` with a one-character or a longer separator. */
module Text {
  import opened Wrappers

  /** The code points `String.prototype.trim` removes: ECMAScript WhiteSpace
      (tab, vertical tab, form feed, space, no-break space, BOM and the
      Unicode space separators) and LineTerminator (LF, CR, LS, PS). */
  predicate IsSpace(c: char) {
    c == '\t' || c == '\n' || c == '\U{000B}' || c == '\U{000C}' || c == '\r' || c == ' '
    || c == '\U{00A0}' || c == '\U{1680}' || ('\U{2000}' <= c <= '\U{200A}')
    || c == '\U{2028}' || c == '\U{2029}' || c == '\U{202F}' || c == '\U{205F}'
    || c == '\U{3000}' || c == '\U{FEFF}'
  }

  /** Drops leading white space; what is dropped is all white space and the
      result is the remaining suffix. */
  function TrimStart(s: string): (r: string)
    ensures |r| <= |s| && r == s[|s| - |r|..]
    ensures forall i :: 0 <= i < |s| - |r| ==> IsSpace(s[i])
    ensures r == [] || !IsSpace(r[0])
  {
    if s != [] && IsSpace(s[0]) then TrimStart(s[1..]) else s
  }

  /** Drops trailing white space; the result is the remaining prefix. */
  function TrimEnd(s: string): (r: string)
    ensures |r| <= |s| && r == s[..|r|]
    ensures forall i :: |r| <= i < |s| ==> IsSpace(s[i])
    ensures r == [] || !IsSpace(r[|r| - 1])
  {
    if s != [] && IsSpace(s[|s| - 1]) then TrimEnd(s[..|s| - 1]) else s
  }

  /** `s.trim()`: the result is a slice of `s` with only white space cut
      off either end, it neither starts nor ends with white space, and it is
      empty exactly when `s` is all white space. */
  function Trim(s: string): (r: string)
    ensures |r| <= |s|
    ensures exists i, j ::
      && 0 <= i <= j <= |s| && r == s[i..j]
      && (forall k :: 0 <= k < i ==> IsSpace(s[k]))
      && (forall k :: j <= k < |s| ==> IsSpace(s[k]))
    ensures r == [] || (!IsSpace(r[0]) && !IsSpace(r[|r| - 1]))
    ensures r == [] <==> forall i :: 0 <= i < |s| ==> IsSpace(s[i])
  {
    var t := TrimStart(s);
    var i := |s| - |t|;
    var r := TrimEnd(t);
    assert r == s[i..i + |r|];
    r
  }

  /** `!s.trim()`: the test every handler applies to a name or a note. */
  predicate IsBlank(s: string) {
    Trim(s) == []
  }

  /** A missing field (`undefined`) is blank too: `!x || !x.trim()`. */
  predicate IsBlankOrMissing(s: Option<string>) {
    s.None? || IsBlank(s.value)
  }

  lemma TrimIdempotent(s: string)
    ensures Trim(Trim(s)) == Trim(s)
  {
    var r := Trim(s);
    if r != [] {
      assert TrimStart(r) == r;
      assert TrimEnd(r) == r;
    }
  }

  /** A trimmed string that is not empty is not blank. */
  lemma TrimmedNotBlank(s: string)
    requires !IsBlank(s)
    ensures !IsBlank(Trim(s))
  {
    TrimIdempotent(s);
  }

  /** ASCII `toLowerCase` of one character. */
  function LowerChar(c: char): char {
    if 'A' <= c <= 'Z' then (c as int - 'A' as int + 'a' as int) as char else c
  }

  /** ASCII `toLowerCase`, character by character. */
  function LowerAscii(s: string): string {
    seq(|s|, i requires 0 <= i < |s| => LowerChar(s[i]))
  }

  /** Index of the first `c` in `s`. */
  function IndexOfChar(s: string, c: char): (i: nat)
    requires c in s
    ensures i < |s| && s[i] == c && c !in s[..i]
  {
    if s[0] == c then 0 else 1 + IndexOfChar(s[1..], c)
  }

  /** `s.split(sep)` for a one-character separator: at least one part, no part
      contains the separator, and the first part is the longest
      separator-free prefix of `s`. */
  function Split(s: string, sep: char): (parts: seq<string>)
    ensures |parts| >= 1
    ensures forall k :: 0 <= k < |parts| ==> sep !in parts[k]
    ensures |parts[0]| <= |s| && parts[0] == s[..|parts[0]|]
    ensures |parts[0]| < |s| ==> s[|parts[0]|] == sep
    decreases |s|
  {
    if sep in s then
      var i := IndexOfChar(s, sep);
      [s[..i]] + Split(s[i + 1..], sep)
    else
      [s]
  }

  /** `parts.join(sep)`, the inverse of `Split`. */
  function Join(parts: seq<string>, sep: char): string
    requires |parts| >= 1
  {
    if |parts| == 1 then parts[0] else parts[0] + [sep] + Join(parts[1..], sep)
  }

  lemma {:induction false} SplitJoin(s: string, sep: char)
    ensures Join(Split(s, sep), sep) == s
    decreases |s|
  {
    if sep in s {
      var i := IndexOfChar(s, sep);
      SplitJoin(s[i + 1..], sep);
      assert s == s[..i] + [sep] + s[i + 1..];
    }
  }

  /** Splitting a separator-free part, the separator, then the rest yields
      the part followed by the split of the rest. */
  lemma SplitCons(p: string, sep: char, rest: string)
    requires sep !in p
    ensures Split(p + [sep] + rest, sep) == [p] + Split(rest, sep)
  {
    var s := p + [sep] + rest;
    assert s[|p|] == sep;
    var i := IndexOfChar(s, sep);
    assert i == |p| by {
      assert s[..|p|] == p;
    }
    assert s[..i] == p;
    assert s[i + 1..] == rest;
  }

  /** The first two parts with the separator between them are a prefix of
      the string, which ends there or continues with the separator. */
  lemma SplitSecond(s: string, sep: char)
    requires |Split(s, sep)| > 1
    ensures var p := Split(s, sep); var n := |p[0]| + 1 + |p[1]|;
      && n <= |s|
      && s[..n] == p[0] + [sep] + p[1]
      && (n == |s| || s[n] == sep)
  {
    assert sep in s;
    var i := IndexOfChar(s, sep);
    var t := s[i + 1..];
    var q := Split(t, sep);
    var p := Split(s, sep);
    assert p == [s[..i]] + q;
    assert p[0] == s[..i] && p[1] == q[0];
    PrefixThrough(s, i, t, q[0]);
  }

  /** A prefix reaching past index `i`: the part before `i`, the element at
      `i` and a prefix `b` of the rest, which ends the sequence or is
      followed by that same element. */
  lemma PrefixThrough<T>(s: seq<T>, i: nat, t: seq<T>, b: seq<T>)
    requires i < |s| && t == s[i + 1..]
    requires |b| <= |t| && b == t[..|b|] && (|b| < |t| ==> t[|b|] == s[i])
    ensures var n := i + 1 + |b|;
      && n <= |s|
      && s[..n] == s[..i] + [s[i]] + b
      && (n == |s| || s[n] == s[i])
  {
    assert s[..i + 1 + |b|] == s[..i] + [s[i]] + b;
  }

  lemma {:induction false} JoinSplit(parts: seq<string>, sep: char)
    requires |parts| >= 1
    requires forall k :: 0 <= k < |parts| ==> sep !in parts[k]
    ensures Split(Join(parts, sep), sep) == parts
    decreases |parts|
  {
    if |parts| > 1 {
      var rest := parts[1..];
      forall k | 0 <= k < |rest| ensures sep !in rest[k] {
        assert rest[k] == parts[k + 1];
      }
      JoinSplit(rest, sep);
      var j := Join(rest, sep);
      assert Join(parts, sep) == parts[0] + [sep] + j;
      SplitCons(parts[0], sep, j);
      HeadTail(parts);
    } else {
      assert sep !in parts[0];
      HeadTail(parts);
    }
  }

  lemma HeadTail<T>(s: seq<T>)
    requires |s| >= 1
    ensures s == [s[0]] + s[1..]
  {
  }

  /** `sep` occurs in `s` starting at index `i`. */
  predicate OccursAt(s: string, sep: string, i: int) {
    0 <= i && i + |sep| <= |s| && s[i..i + |sep|] == sep
  }

  /** A string that neither starts nor ends with white space is its own trim. */
  lemma TrimKeepsInner(s: string)
    requires s != [] && !IsSpace(s[0]) && !IsSpace(s[|s| - 1])
    ensures Trim(s) == s
  {
  }

  /** `s.indexOf(sep, from)`: an occurrence at or after `from`; the first
      one, as `FindFromFirst` shows. */
  function FindFrom(s: string, sep: string, from: nat): (r: Option<nat>)
    requires from <= |s|
    ensures r.Some? ==> from <= r.value && OccursAt(s, sep, r.value)
    decreases |s| - from
  {
    if from + |sep| > |s| then None
    else if s[from..from + |sep|] == sep then Some(from)
    else if from == |s| then None
    else FindFrom(s, sep, from + 1)
  }

  /** The search finds an occurrence whenever there is one, and none later
      than any occurrence. */
  lemma {:induction false} FindFromFirst(s: string, sep: string, from: nat, i: int)
    requires from <= i && from <= |s| && OccursAt(s, sep, i)
    ensures FindFrom(s, sep, from).Some? && FindFrom(s, sep, from).value <= i
    decreases |s| - from
  {
    if from < i {
      FindFromFirst(s, sep, from + 1, i);
    }
  }

  /** `s.split(sep)` for a separator of any non-zero length, from index
      `from` on: occurrences are consumed left to right without
      overlapping. */
  function SplitOn(s: string, sep: string, from: nat): (parts: seq<string>)
    requires sep != [] && from <= |s|
    ensures |parts| >= 1
    decreases |s| - from
  {
    match FindFrom(s, sep, from)
    case None => [s[from..]]
    case Some(i) => [s[from..i]] + SplitOn(s, sep, i + |sep|)
  }

  /** Splitting at an occurrence found from `from`. */
  lemma SplitOnStep(s: string, sep: string, from: nat, f: nat)
    requires sep != [] && from <= |s| && FindFrom(s, sep, from) == Some(f)
    ensures |SplitOn(s, sep, from)| == 1 + |SplitOn(s, sep, f + |sep|)|
  {
  }

  /** One occurrence of the separator at or after `from` gives at least two
      parts. */
  lemma SplitOnOnce(s: string, sep: string, from: nat, i: int)
    requires sep != [] && from <= i && from <= |s| && OccursAt(s, sep, i)
    ensures |SplitOn(s, sep, from)| >= 2
  {
    FindFromFirst(s, sep, from, i);
  }

  /** Two separate occurrences of the separator give at least three parts. */
  lemma SplitOnTwice(s: string, sep: string, i: int, j: int)
    requires sep != [] && OccursAt(s, sep, i) && OccursAt(s, sep, j) && i + |sep| <= j
    ensures |SplitOn(s, sep, 0)| >= 3
  {
    FindFromFirst(s, sep, 0, i);
    var f := FindFrom(s, sep, 0).value;
    FindFromFirst(s, sep, f + |sep|, j);
    var h := FindFrom(s, sep, f + |sep|).value;
    SplitOnTwoFinds(s, sep, f, h);
  }

  /** Two successive finds give at least three parts. */
  lemma SplitOnTwoFinds(s: string, sep: string, f: nat, h: nat)
    requires sep != [] && FindFrom(s, sep, 0) == Some(f)
    requires f + |sep| <= |s| && FindFrom(s, sep, f + |sep|) == Some(h)
    ensures |SplitOn(s, sep, 0)| >= 3
  {
    SplitOnStep(s, sep, f + |sep|, h);
    SplitOnStep(s, sep, 0, f);
  }

  /** Exactly two parts: the second is everything after the first
      occurrence, and no occurrence follows it. */
  lemma SplitOnTwo(s: string, sep: string)
    requires sep != [] && |SplitOn(s, sep, 0)| == 2
    ensures FindFrom(s, sep, 0).Some?
    ensures SplitOn(s, sep, 0)[1] == s[FindFrom(s, sep, 0).value + |sep|..]
  {
    var f := FindFrom(s, sep, 0).value;
    SplitOnMore(s, sep, f + |sep|);
  }

  /** An occurrence at or after `from` adds a part. */
  lemma SplitOnMore(s: string, sep: string, from: nat)
    requires sep != [] && from <= |s|
    ensures FindFrom(s, sep, from).Some? ==> |SplitOn(s, sep, from)| >= 2
  {
  }

  /** A separator that occurs exactly once splits the string in two around
      that occurrence. */
  lemma SplitOnUnique(s: string, sep: string, i: int)
    requires sep != [] && OccursAt(s, sep, i)
    requires forall j :: OccursAt(s, sep, j) ==> j == i
    ensures SplitOn(s, sep, 0) == [s[..i], s[i + |sep|..]]
  {
    FindFromFirst(s, sep, 0, i);
    assert FindFrom(s, sep, 0) == Some(i);
    var g := i + |sep|;
    FindFromNone(s, sep, g);
    var rest := SplitOn(s, sep, g);
    assert rest == [s[g..]];
    SplitOnAt(s, sep, 0, i);
  }

  /** Splitting at an occurrence found from `from`: the part before it,
      then the split of what follows it. */
  lemma SplitOnAt(s: string, sep: string, from: nat, f: nat)
    requires sep != [] && from <= |s| && FindFrom(s, sep, from) == Some(f)
    ensures SplitOn(s, sep, from) == [s[from..f]] + SplitOn(s, sep, f + |sep|)
  {
  }

  /** No occurrence at or after `from`: the search finds none. */
  lemma FindFromNone(s: string, sep: string, from: nat)
    requires from <= |s|
    requires forall j :: from <= j ==> !OccursAt(s, sep, j)
    ensures FindFrom(s, sep, from).None?
  {
  }
}
