/** Character classes and substring search shared by the scripts and the C++
    string classes. Strings are `seq<char>`; the C++ `char` of the engine and
    Python's decoded characters are both modelled as Dafny `char`. */
module Strings {

  /** `pat` occurs in `s` starting at index `i`. */
  predicate OccursAt(s: string, pat: string, i: int) {
    0 <= i && i + |pat| <= |s| && s[i..i + |pat|] == pat
  }

  /** First index at or after `from` where `pat` occurs in `s`, or -1. */
  function FindFrom(s: string, pat: string, from: nat): (r: int)
    ensures r == -1 || (from <= r && OccursAt(s, pat, r))
    ensures r == -1 ==> forall j :: from <= j ==> !OccursAt(s, pat, j)
    ensures r >= 0 ==> forall j :: from <= j < r ==> !OccursAt(s, pat, j)
    decreases |s| - from
  {
    if from + |pat| > |s| then -1
    else if s[from..from + |pat|] == pat then from
    else FindFrom(s, pat, from + 1)
  }

  /** Python's `str.find` and C's `strstr`: the first occurrence of `pat`, or -1. */
  function Find(s: string, pat: string): (r: int)
    ensures r == -1 <==> forall j :: !OccursAt(s, pat, j)
    ensures r >= 0 ==> OccursAt(s, pat, r) && forall j :: 0 <= j < r ==> !OccursAt(s, pat, j)
  {
    FindFrom(s, pat, 0)
  }

  /** An occurrence with none before it is the one `Find` reports. */
  lemma FindIsFirst(s: string, pat: string, b: int)
    requires OccursAt(s, pat, b)
    requires forall j :: 0 <= j < b ==> !OccursAt(s, pat, j)
    ensures Find(s, pat) == b
  {
  }

  /** Python's `pat in s`. */
  predicate Contains(s: string, pat: string) {
    Find(s, pat) >= 0
  }

  /** Index of the first entry of `table` (in table order, from index `k`)
      that occurs in `line`; `|table|` when none occurs. */
  function FirstContainedFrom(line: string, table: seq<string>, k: nat): (r: nat)
    requires k <= |table|
    ensures k <= r <= |table|
    ensures forall j :: k <= j < r ==> !Contains(line, table[j])
    ensures r < |table| ==> Contains(line, table[r])
    decreases |table| - k
  {
    if k == |table| then k
    else if Contains(line, table[k]) then k
    else FirstContainedFrom(line, table, k + 1)
  }

  /** An occurrence inside a slice is an occurrence in the whole string. */
  lemma OccursInSlice(s: string, lo: int, hi: int, pat: string, i: int)
    requires 0 <= lo <= hi <= |s|
    requires OccursAt(s[lo..hi], pat, i)
    ensures OccursAt(s, pat, lo + i)
  {
    var t := s[lo..hi];
    assert t[i..i + |pat|] == pat;
    forall k | 0 <= k < |pat|
      ensures s[lo + i..lo + i + |pat|][k] == pat[k]
    {
      assert pat[k] == t[i + k];
    }
  }

  /** A string containing `big` contains every piece of `big`. */
  lemma ContainsPiece(s: string, big: string, lo: int, hi: int)
    requires 0 <= lo <= hi <= |big|
    requires Contains(s, big)
    ensures Contains(s, big[lo..hi])
  {
    var i := Find(s, big);
    assert s[i..i + |big|] == big;
    forall k | 0 <= k < hi - lo ensures s[i + lo..i + hi][k] == big[lo..hi][k] {
      assert s[i + lo + k] == s[i..i + |big|][lo + k];
    }
    assert s[i + lo..i + hi] == big[lo..hi];
    assert OccursAt(s, big[lo..hi], i + lo);
  }

  /** C `isspace` in the "C" locale: space, tab, newline, vertical tab, form feed, carriage return. */
  predicate IsCSpace(c: char) {
    c == ' ' || (9 <= c as int <= 13)
  }

  /** Python's `str.isspace` for one character (the Unicode whitespace set). */
  predicate IsPySpace(c: char) {
    var n := c as int;
    n == 32 || (9 <= n <= 13) || (0x1C <= n <= 0x1F) || n == 0x85 || n == 0xA0 ||
    n == 0x1680 || (0x2000 <= n <= 0x200A) || n == 0x2028 || n == 0x2029 ||
    n == 0x202F || n == 0x205F || n == 0x3000
  }

  /** Every C whitespace character is also a Python whitespace character. */
  lemma CSpaceIsPySpace(c: char)
    ensures IsCSpace(c) ==> IsPySpace(c)
  {
  }

  /** C `tolower` in the "C" locale. */
  function ToLower(c: char): (r: char)
    ensures 'A' <= c <= 'Z' ==> r as int == c as int + 32
    ensures !('A' <= c <= 'Z') ==> r == c
  {
    if 'A' <= c <= 'Z' then (c as int + 32) as char else c
  }

  function LowerString(s: string): (r: string)
    ensures |r| == |s|
    ensures forall i :: 0 <= i < |s| ==> r[i] == ToLower(s[i])
  {
    if s == [] then [] else [ToLower(s[0])] + LowerString(s[1..])
  }

  /** `stricmp`/`compareNoCase(...) == 0`: equal after lower-casing both sides. */
  predicate EqualsNoCase(a: string, b: string) {
    LowerString(a) == LowerString(b)
  }

  /** Drop the longest suffix whose characters all satisfy `p` (Python `rstrip`,
      the engine's `trimEnd`). The three postconditions determine the result. */
  function DropLastWhile<T>(s: seq<T>, p: T -> bool): (r: seq<T>)
    ensures r <= s
    ensures |r| == 0 || !p(r[|r| - 1])
    ensures forall i :: |r| <= i < |s| ==> p(s[i])
  {
    if |s| == 0 || !p(s[|s| - 1]) then s
    else DropLastWhile(s[..|s| - 1], p)
  }

  /** Drop the longest prefix whose characters all satisfy `p`. */
  function DropWhile<T>(s: seq<T>, p: T -> bool): (r: seq<T>)
    ensures |r| <= |s| && r == s[|s| - |r|..]
    ensures |r| == 0 || !p(r[0])
    ensures forall i :: 0 <= i < |s| - |r| ==> p(s[i])
  {
    if |s| == 0 || !p(s[0]) then s
    else DropWhile(s[1..], p)
  }

  /** The prefix/last-character/tail characterisation has exactly one solution. */
  lemma {:induction false} DropLastWhileUnique<T>(s: seq<T>, p: T -> bool, t: seq<T>)
    requires t <= s
    requires |t| == 0 || !p(t[|t| - 1])
    requires forall i :: |t| <= i < |s| ==> p(s[i])
    ensures t == DropLastWhile(s, p)
  {
  }

  /** Stripping twice is stripping once. */
  lemma DropLastWhileIdempotent<T>(s: seq<T>, p: T -> bool)
    ensures DropLastWhile(DropLastWhile(s, p), p) == DropLastWhile(s, p)
  {
  }

  /** A path separator, either slash. */
  predicate IsPathSep(c: char) {
    c == '/' || c == '\\'
  }

  /** Where the directory part of a path ends: just after its last
      separator, or 0 without one. */
  function DirEnd(name: string): (k: nat)
    ensures k <= |name|
    ensures k > 0 ==> IsPathSep(name[k - 1])
    ensures forall i :: k <= i < |name| ==> !IsPathSep(name[i])
  {
    if name == [] then 0
    else if IsPathSep(name[|name| - 1]) then |name|
    else DirEnd(name[..|name| - 1])
  }

  /** The three properties above determine `DirEnd`. */
  lemma {:induction false} DirEndIsLastSep(name: string, k: nat)
    requires k <= |name| && (k == 0 || IsPathSep(name[k - 1]))
    requires forall i :: k <= i < |name| ==> !IsPathSep(name[i])
    ensures DirEnd(name) == k
    decreases |name|
  {
    if |name| > k {
      assert name[..|name| - 1][..k] == name[..k];
      DirEndIsLastSep(name[..|name| - 1], k);
    }
  }

  /** Lower-casing introduces no separator. */
  lemma LowerKeepsNonSep(s: string)
    requires forall i :: 0 <= i < |s| ==> !IsPathSep(s[i])
    ensures forall i :: 0 <= i < |s| ==> !IsPathSep(LowerString(s)[i])
  {
    var r := LowerString(s);
    forall i | 0 <= i < |s|
      ensures !IsPathSep(r[i])
    {
      assert r[i] == ToLower(s[i]);
    }
  }

  /** The lowered base name after `DirEnd` holds no separator. */
  lemma BaseNameHasNoSep(name: string)
    ensures var t := LowerString(name[DirEnd(name)..]);
            forall i :: 0 <= i < |t| ==> !IsPathSep(t[i])
  {
    var k := DirEnd(name);
    var tail := name[k..];
    assert forall i :: 0 <= i < |tail| ==> tail[i] == name[k + i];
    LowerKeepsNonSep(tail);
  }
}
