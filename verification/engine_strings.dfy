/** The editing operations the engine's two string classes share: the 8-bit
    `AsciiString` and the wide `UnicodeString` implement them with the same
    code over their own character type, so they are defined here once, over any
    element type. A string is its characters up to the terminating NUL. */
module EngineStrings {
  import opened Common
  import opened Strings

  /** `trimEnd()` / `trimEnd(c)`: the loop walks `index` back over characters
      satisfying `p` and truncates there. */
  function TrimEnd<T>(s: seq<T>, p: T -> bool): (r: seq<T>)
    ensures r <= s
    ensures |r| == 0 || !p(r[|r| - 1])
    ensures forall i :: |r| <= i < |s| ==> p(s[i])
  {
    DropLastWhile(s, p)
  }

  /** Length of the leading run of characters satisfying `p`. */
  function LeadingRun<T>(s: seq<T>, p: T -> bool): (n: nat)
    ensures n <= |s|
    ensures forall i :: 0 <= i < n ==> p(s[i])
    ensures n == |s| || !p(s[n])
  {
    |s| - |DropWhile(s, p)|
  }

  /** `trim()`: skip the leading run, then `trimEnd()`. The result is the slice
      between the leading and the trailing run. */
  function Trim<T>(s: seq<T>, p: T -> bool): (r: seq<T>)
    ensures var lo := LeadingRun(s, p);
            lo + |r| <= |s| && r == s[lo..lo + |r|] &&
            (forall i :: lo + |r| <= i < |s| ==> p(s[i])) &&
            (|r| == 0 || !p(r[|r| - 1]))
  {
    var lo := LeadingRun(s, p);
    TrimOfSuffix(s, lo, p);
    TrimEnd(s[lo..], p)
  }

  /** Trimming the end of the suffix `s[lo..]` gives a slice of `s`, and what
      it leaves of `s` satisfies `p`. */
  lemma TrimOfSuffix<T>(s: seq<T>, lo: nat, p: T -> bool)
    requires lo <= |s|
    ensures var r := TrimEnd(s[lo..], p);
            lo + |r| <= |s| && r == s[lo..lo + |r|] &&
            (forall i :: lo + |r| <= i < |s| ==> p(s[i])) &&
            (|r| == 0 || !p(r[|r| - 1]))
  {
    var t := s[lo..];
    var r := TrimEnd(t, p);
    assert r == t[..|r|];
    forall i | lo + |r| <= i < |s| ensures p(s[i]) {
      assert s[i] == t[i - lo];
    }
  }

  /** `truncateBy(n)`: nothing for `n <= 0`, else drop `min(n, len)` characters
      from the end. */
  function TruncateBy<T>(s: seq<T>, n: int): (r: seq<T>)
    ensures n <= 0 ==> r == s
    ensures n > 0 ==> |r| == Max(0, |s| - n) && r <= s
  {
    if n <= 0 then s
    else if n > |s| then s[..0]
    else s[..|s| - n]
  }

  /** `truncateTo(m)`: keep the first `m` characters when the string is longer.
      The test `len > maxLength` compares an unsigned length with a signed `Int`,
      so a negative `m` is converted to a huge unsigned value and nothing happens. */
  function TruncateTo<T>(s: seq<T>, m: int): (r: seq<T>)
    ensures m < 0 || |s| <= m ==> r == s
    ensures 0 <= m < |s| ==> |r| == m && r <= s
  {
    if m < 0 || |s| <= m then s else s[..m]
  }

  /** `concat(s)`. */
  function Concat<T>(s: seq<T>, t: seq<T>): (r: seq<T>)
    ensures |r| == |s| + |t|
    ensures r[..|s|] == s && r[|s|..] == t
  {
    s + t
  }

  /** Truncating by the length just appended gives the original back. */
  lemma TruncateUndoesConcat<T>(s: seq<T>, t: seq<T>)
    ensures TruncateBy(Concat(s, t), |t|) == s
  {
  }

  /** Truncating to the old length also undoes an append. */
  lemma TruncateToUndoesConcat<T>(s: seq<T>, t: seq<T>)
    ensures TruncateTo(Concat(s, t), |s|) == s
  {
  }

  /** `removeLastChar()` is `truncateBy(1)`: it drops exactly the last character
      of a non-empty string and leaves an empty one alone. */
  function RemoveLastChar<T>(s: seq<T>): (r: seq<T>)
    ensures |s| > 0 ==> r + [s[|s| - 1]] == s
    ensures |s| == 0 ==> r == s
  {
    TruncateBy(s, 1)
  }

  /** `startsWith`: the empty pattern always matches, a longer one never does,
      otherwise the first `|p|` characters are compared. */
  function StartsWith<T(==)>(s: seq<T>, p: seq<T>): (r: bool)
    ensures r <==> p <= s
  {
    if |p| == 0 then true
    else if |s| < |p| then false
    else s[..|p|] == p
  }

  /** `endsWith`: as `startsWith`, comparing the last `|p|` characters. */
  function EndsWith<T(==)>(s: seq<T>, p: seq<T>): (r: bool)
    ensures r <==> |p| <= |s| && s[|s| - |p|..] == p
  {
    if |p| == 0 then true
    else if |s| < |p| then false
    else s[|s| - |p|..] == p
  }

  /** `wcsspn`/`wcscspn` (and `skipSeps`/`skipNonSeps`): the length of the run
      starting at `from` whose characters are (`inSet`) or are not (`!inSet`)
      in `seps`. */
  function Span<T(==)>(s: seq<T>, seps: seq<T>, inSet: bool, from: nat): (r: nat)
    requires from <= |s|
    ensures from <= r <= |s|
    ensures forall i :: from <= i < r ==> (s[i] in seps) == inSet
    ensures r < |s| ==> (s[r] in seps) != inSet
    decreases |s| - from
  {
    if from == |s| || (s[from] in seps) != inSet then from
    else Span(s, seps, inSet, from + 1)
  }

  /** What `nextToken` leaves behind: whether a token was found, the token and
      the new contents of the string. */
  datatype TokenResult<T> = TokenResult(found: bool, tok: seq<T>, rest: seq<T>)

  /** `s` is a run of separators, then `tok` -- a non-empty run with no
      separator, ending at a separator or at the end -- then `rest`. */
  predicate IsTokenSplit<T(==)>(s: seq<T>, seps: seq<T>, tok: seq<T>, rest: seq<T>) {
    var lead := |s| - |tok| - |rest|;
    lead >= 0 && s == s[..lead] + tok + rest &&
    (forall i :: 0 <= i < lead ==> s[i] in seps) &&
    |tok| > 0 && (forall i :: 0 <= i < |tok| ==> tok[i] !in seps) &&
    (|rest| == 0 || rest[0] in seps)
  }

  /** The body of `nextToken` once the early exits are passed: skip separators,
      take the following run of non-separators; if it is empty, clear both. */
  function SplitToken<T(==)>(s: seq<T>, seps: seq<T>): (r: TokenResult<T>)
    ensures r.found ==> IsTokenSplit(s, seps, r.tok, r.rest)
    ensures !r.found <==> forall i :: 0 <= i < |s| ==> s[i] in seps
    ensures !r.found ==> r.tok == [] && r.rest == []
  {
    var start := Span(s, seps, true, 0);
    var end := Span(s, seps, false, start);
    if end > start then
      var r := TokenResult(true, s[start..end], s[end..]);
      assert s == s[..start] + r.tok + r.rest;
      assert |s| - |r.tok| - |r.rest| == start;
      r
    else
      TokenResult(false, [], [])
  }

  /** The token and the rest are determined: any split into separators, a
      non-empty maximal run of non-separators and the rest is the one found. */
  lemma {:induction false} SplitTokenUnique<T>(s: seq<T>, seps: seq<T>, tok: seq<T>, rest: seq<T>)
    requires IsTokenSplit(s, seps, tok, rest)
    ensures SplitToken(s, seps) == TokenResult(true, tok, rest)
  {
    var lead := |s| - |tok| - |rest|;
    assert s[lead] == tok[0];
    var start := Span(s, seps, true, 0);
    assert start == lead;
    forall i | lead <= i < lead + |tok| ensures s[i] !in seps {
      assert s[i] == tok[i - lead];
    }
    if lead + |tok| < |s| {
      assert s[lead + |tok|] == rest[0];
    }
    var end := Span(s, seps, false, start);
    assert end == lead + |tok|;
    assert s[start..end] == tok;
    assert s[end..] == rest;
  }
}
