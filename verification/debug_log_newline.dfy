/** The refactoring script that removes an escaped line break right before the
    closing quote of a logging macro's message, e.g. `DEBUG_LOG(("x\n"))`
    becomes `DEBUG_LOG(("x"))`. One line in, one line out. */
module DebugLogNewline {
  import opened Common
  import opened Strings

  /** The logging macros, in the order the script tries them
      (`REALLY_VERBOSE_LOG` is commented out in the list and is not here). */
  const MacroNames: seq<string> := [
    "DEBUG_LOG", "DEBUG_LOG_LEVEL", "DEBUG_CRASH", "DEBUG_ASSERTLOG",
    "DEBUG_ASSERTCRASH", "RELEASE_CRASH", "RELEASE_CRASHLOCALIZED",
    "WWDEBUG_SAY", "WWDEBUG_WARNING", "WWRELEASE_SAY", "WWRELEASE_WARNING",
    "WWRELEASE_ERROR", "WWASSERT_PRINT", "WWDEBUG_ERROR", "SNAPSHOT_SAY",
    "SHATTER_DEBUG_SAY", "DBGMSG", "DOUBLE_DEBUG", "PERF_LOG", "CRCGEN_LOG",
    "STATECHANGED_LOG", "PING_LOG", "BONEPOS_LOG"
  ]

  /** The patterns are Python raw strings: the five characters backslash, `r`,
      backslash, `n`, quote -- not a carriage return or a line feed. */
  const CrLfQuote: string := ['\\', 'r', '\\', 'n', '"']
  /** Backslash, `n`, quote. */
  const LfQuote: string := ['\\', 'n', '"']
  const Patterns: seq<string> := [CrLfQuote, LfQuote]

  function FirstMacro(line: string): nat {
    FirstContainedFrom(line, MacroNames, 0)
  }

  /** A match the script's `while i < lookEnd` loop can see: it starts at or after
      `from` and ends strictly before the last character of the line. */
  predicate InWindow(line: string, pat: string, from: int, i: int) {
    from <= i < |line| - |pat| && OccursAt(line, pat, i)
  }

  /** The script's inner `while` loop for one pattern. */
  function ScanPattern(line: string, pat: string, from: nat): (r: int)
    ensures r >= -1
    ensures r == -1 ==> forall i :: from <= i < |line| - |pat| ==> !OccursAt(line, pat, i)
    ensures r >= 0 ==> InWindow(line, pat, from, r)
    ensures r >= 0 ==> forall i :: from <= i < r ==> !OccursAt(line, pat, i)
    decreases |line| - from
  {
    if from >= |line| - |pat| then -1
    else if line[from..from + |pat|] == pat then from
    else ScanPattern(line, pat, from + 1)
  }

  /** Where a substitution happens: the position and the pattern replaced. */
  datatype Hit = Hit(pos: nat, pat: string)

  /** The `for searchPattern` loop from table index `k`: the first pattern with a
      match in the window wins. */
  function ScanPatterns(line: string, pats: seq<string>, k: nat, from: nat): (r: Option<Hit>)
    requires k <= |pats|
    ensures r.None? ==> forall j, i :: k <= j < |pats| && from <= i < |line| - |pats[j]| ==>
                          !OccursAt(line, pats[j], i)
    ensures r.Some? ==> r.value.pat in pats[k..] && InWindow(line, r.value.pat, from, r.value.pos)
    decreases |pats| - k
  {
    if k == |pats| then None
    else
      var i := ScanPattern(line, pats[k], from);
      if i >= 0 then Some(Hit(i, pats[k])) else ScanPatterns(line, pats, k + 1, from)
  }

  /** The end of the first occurrence of the first macro name found. */
  function WordEnd(line: string): (e: nat)
    requires FirstMacro(line) < |MacroNames|
    ensures e <= |line|
  {
    Find(line, MacroNames[FirstMacro(line)]) + |MacroNames[FirstMacro(line)]|
  }

  /** The substitution `modifyLine` performs, if any. */
  function FindHit(line: string): (r: Option<Hit>)
    ensures FirstMacro(line) == |MacroNames| ==> r.None?
    ensures r.Some? ==> FirstMacro(line) < |MacroNames| && r.value.pat in Patterns &&
                        InWindow(line, r.value.pat, WordEnd(line), r.value.pos)
  {
    if FirstMacro(line) == |MacroNames| then None
    else ScanPatterns(line, Patterns, 0, WordEnd(line))
  }

  /** `modifyLine`: replace the hit by a single quote, or return the line as is. */
  function ModifyLine(line: string): (r: string)
    ensures FindHit(line).None? ==> r == line
    ensures FindHit(line).Some? ==>
              var h := FindHit(line).value;
              |r| == |line| - (|h.pat| - 1) &&
              r == line[..h.pos] + ['"'] + line[h.pos + |h.pat|..]
  {
    match FindHit(line)
    case None => line
    case Some(h) => line[..h.pos] + ['"'] + line[h.pos + |h.pat|..]
  }

  /** A line that mentions none of the macros is returned unchanged. */
  lemma NoMacroUnchanged(line: string)
    requires forall j :: 0 <= j < |MacroNames| ==> !Contains(line, MacroNames[j])
    ensures ModifyLine(line) == line
  {
  }

  /** Only the first macro name in table order is examined: when it has no match
      in its window, the line is unchanged even if a later macro would have had one. */
  lemma OnlyFirstMacroExamined(line: string)
    requires FirstMacro(line) < |MacroNames|
    requires forall k, i :: 0 <= k < |Patterns| && WordEnd(line) <= i < |line| - |Patterns[k]| ==>
               !OccursAt(line, Patterns[k], i)
    ensures ModifyLine(line) == line
  {
  }

  /** The text up to the end of the macro name is never altered. */
  lemma PrefixKept(line: string)
    requires FirstMacro(line) < |MacroNames|
    ensures |ModifyLine(line)| >= WordEnd(line)
    ensures ModifyLine(line)[..WordEnd(line)] == line[..WordEnd(line)]
  {
  }

  /** The two-character pattern is used only when the long one has no match in
      the window; and the hit is the first match of its pattern. */
  lemma LongPatternFirst(line: string)
    requires FindHit(line).Some?
    ensures var h := FindHit(line).value;
            (h.pat == LfQuote ==> forall i :: WordEnd(line) <= i < |line| - 5 ==> !OccursAt(line, CrLfQuote, i)) &&
            forall i :: WordEnd(line) <= i < h.pos ==> !OccursAt(line, h.pat, i)
  {
    var we := WordEnd(line);
    var i1 := ScanPattern(line, CrLfQuote, we);
    if i1 >= 0 {
      assert FindHit(line) == Some(Hit(i1, CrLfQuote));
    } else {
      var i2 := ScanPattern(line, LfQuote, we);
      assert ScanPatterns(line, Patterns, 1, we) == (if i2 >= 0 then Some(Hit(i2, LfQuote)) else None);
      assert FindHit(line) == Some(Hit(i2, LfQuote));
    }
  }

  /** A pattern that ends exactly at the last character is outside the window,
      so `x = DEBUG_LOG(("a\n"` (no closing parenthesis) is left unchanged. */
  lemma MatchAtLineEndIgnored(line: string, pat: string)
    requires |pat| <= |line|
    ensures !InWindow(line, pat, 0, |line| - |pat|)
  {
  }

  /** The scan agrees with a plain `find` from the macro end, limited to the window. */
  lemma ScanPatternIsBoundedFind(line: string, pat: string, from: nat)
    ensures var f := FindFrom(line, pat, from);
            ScanPattern(line, pat, from) == (if 0 <= f < |line| - |pat| then f else -1)
  {
    var f := FindFrom(line, pat, from);
    var s := ScanPattern(line, pat, from);
    if s >= 0 {
      assert f == s;
    }
  }
}
