/** The engine's 8-bit string class `AsciiString`: the members that edit or
    test the contents. Reference counting, buffer growth and the critical
    section around them are representation details and are not modelled; a
    value is the sequence of characters before the NUL. */
module AsciiStrings {
  import opened Common
  import opened Strings
  import opened EngineStrings

  /** The separators `nextToken` uses when it is given none. */
  const DefaultSeps: string := " \n\r\t"

  /** `trimEnd()`: drop the trailing run of C whitespace. */
  function TrimEndSpace(s: string): (r: string)
    ensures r <= s
    ensures |r| == 0 || !IsCSpace(r[|r| - 1])
    ensures forall i :: |r| <= i < |s| ==> IsCSpace(s[i])
  {
    TrimEnd(s, IsCSpace)
  }

  /** `trimEnd(c)`: drop the trailing run of `c`. */
  function TrimEndChar(s: string, c: char): (r: string)
    ensures r <= s
    ensures |r| == 0 || r[|r| - 1] != c
    ensures forall i :: |r| <= i < |s| ==> s[i] == c
  {
    TrimEnd(s, (x: char) => x == c)
  }

  /** `trim()`: drop the leading and the trailing run of C whitespace; what
      is left is a piece of the string that neither starts nor ends with
      whitespace. */
  function TrimSpace(s: string): (r: string)
    ensures |r| <= |s|
    ensures |r| > 0 ==> !IsCSpace(r[0]) && !IsCSpace(r[|r| - 1])
  {
    var r := Trim(s, IsCSpace);
    TrimmedEnds(s, r);
    r
  }

  lemma TrimmedEnds(s: string, r: string)
    requires r == Trim(s, IsCSpace)
    ensures |r| <= |s|
    ensures |r| > 0 ==> !IsCSpace(r[0]) && !IsCSpace(r[|r| - 1])
  {
    var lo := LeadingRun(s, IsCSpace);
    if |r| > 0 {
      assert r[0] == s[lo];
    }
  }

  /** Trimming is idempotent. */
  lemma TrimEndSpaceIdempotent(s: string)
    ensures TrimEndSpace(TrimEndSpace(s)) == TrimEndSpace(s)
  {
    DropLastWhileIdempotent(s, IsCSpace);
  }

  /** A string whose characters are all whitespace trims to the empty string. */
  lemma TrimOfBlankIsEmpty(s: string)
    requires forall i :: 0 <= i < |s| ==> IsCSpace(s[i])
    ensures TrimSpace(s) == []
  {
  }

  /** `startsWithNoCase`: as `startsWith`, comparing with `strnicmp`. */
  function StartsWithNoCase(s: string, p: string): (r: bool)
    ensures r <==> |p| <= |s| && LowerString(s[..|p|]) == LowerString(p)
  {
    if |p| == 0 then true
    else if |s| < |p| then false
    else LowerString(s[..|p|]) == LowerString(p)
  }

  /** `endsWithNoCase`: as `endsWith`, comparing with `strnicmp`. */
  function EndsWithNoCase(s: string, p: string): (r: bool)
    ensures r <==> |p| <= |s| && LowerString(s[|s| - |p|..]) == LowerString(p)
  {
    if |p| == 0 then true
    else if |s| < |p| then false
    else LowerString(s[|s| - |p|..]) == LowerString(p)
  }

  /** The case-insensitive tests are the plain tests on lower-cased strings,
      so a case-sensitive match is also a case-insensitive one. */
  lemma NoCaseIsLowered(s: string, p: string)
    ensures StartsWithNoCase(s, p) <==> StartsWith(LowerString(s), LowerString(p))
    ensures EndsWithNoCase(s, p) <==> EndsWith(LowerString(s), LowerString(p))
    ensures StartsWith(s, p) ==> StartsWithNoCase(s, p)
    ensures EndsWith(s, p) ==> EndsWithNoCase(s, p)
  {
    var ls, lp := LowerString(s), LowerString(p);
    if |p| <= |s| {
      assert LowerString(s[..|p|]) == ls[..|p|];
      assert LowerString(s[|s| - |p|..]) == ls[|s| - |p|..];
    }
  }

  /** `nextToken(tok, seps)`: `tok` is the caller's token string. Nothing happens
      when this string is empty or `tok` is this very string (`aliased`); a NULL
      `seps` (`None`) means the default separators. */
  function NextToken(s: string, tok: string, seps: Option<string>, aliased: bool): (r: TokenResult<char>)
    ensures |s| == 0 || aliased ==> r == TokenResult(false, tok, s)
    ensures |s| > 0 && !aliased ==>
              var sp := if seps.None? then DefaultSeps else seps.value;
              (r.found ==> IsTokenSplit(s, sp, r.tok, r.rest)) &&
              (!r.found <==> forall i :: 0 <= i < |s| ==> s[i] in sp) &&
              (!r.found ==> r.tok == [] && r.rest == [])
  {
    if |s| == 0 || aliased then TokenResult(false, tok, s)
    else SplitToken(s, if seps.None? then DefaultSeps else seps.value)
  }

  /** With the default separators, `"  ab cd"` yields `"ab"` and leaves `" cd"`. */
  lemma NextTokenExample()
    ensures NextToken("  ab cd", "", None, false) == TokenResult(true, "ab", " cd")
  {
    var s := "  ab cd";
    assert s == s[..2] + "ab" + " cd";
    SplitTokenUnique(s, DefaultSeps, "ab", " cd");
  }

  /** An empty separator string (not NULL) makes the whole string one token. */
  lemma EmptySepsWholeToken(s: string)
    requires |s| > 0
    ensures NextToken(s, [], Some([]), false) == TokenResult(true, s, [])
  {
    assert s == s[..0] + s + [];
    SplitTokenUnique(s, [], s, []);
  }
}
