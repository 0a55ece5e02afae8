/** The engine's wide string class `UnicodeString`. The editing members run the
    same code as `AsciiString` over 16-bit characters; what differs is the
    conversion from an 8-bit string, the whitespace test and the defaulting of
    `nextToken`'s delimiters. */
module UnicodeStrings {
  import opened EngineStrings
  import opened Bytes

  /** A `wchar_t` of the Windows build: 16 bits, unsigned. */
  type WideChar = x: int | 0 <= x < 0x1_0000

  /** `(WideChar)c` for an 8-bit `char` `c`. The Windows build's `char` is
      signed (byte values 128..255 are the characters -128..-1), so it is
      sign-extended to 16 bits. */
  function Widen(b: Byte): (w: WideChar)
    ensures b < 0x80 ==> w == b
    ensures b >= 0x80 ==> w == 0xFF00 + b
  {
    if b < 0x80 then b else 0xFF00 + b
  }

  /** `translate(asciiString)`: one wide character per byte, in order. Only
      7-bit characters keep their value; higher bytes are sign-extended. */
  function Translate(s: seq<Byte>): (r: seq<WideChar>)
    ensures |r| == |s|
    ensures forall i :: 0 <= i < |s| ==> r[i] == Widen(s[i])
  {
    if s == [] then [] else [Widen(s[0])] + Translate(s[1..])
  }

  /** The low byte of a wide character; a character below 256 is its own
      low byte. */
  function Narrow(w: WideChar): (b: Byte)
    ensures w < 0x100 ==> b == w
  {
    w % 0x100
  }

  /** Every byte survives widening: the low byte gives it back, so `translate`
      loses no information even for bytes above 127. */
  lemma NarrowTranslate(s: seq<Byte>)
    ensures forall i :: 0 <= i < |s| ==> Narrow(Translate(s)[i]) == s[i]
  {
    forall i | 0 <= i < |s| ensures Narrow(Translate(s)[i]) == s[i] {
      NarrowWiden(s[i]);
    }
  }

  lemma NarrowWiden(b: Byte)
    ensures Narrow(Widen(b)) == b
  {
    if b >= 0x80 {
      assert Widen(b) == 0xFF * 0x100 + b;
    }
  }

  /** For 7-bit text the wide string has the same character values. */
  lemma TranslateSevenBit(s: seq<Byte>)
    requires forall i :: 0 <= i < |s| ==> s[i] < 0x80
    ensures Translate(s) == s
  {
  }

  /** `trimEnd()` with the C library's `iswspace`, whose set depends on the
      locale and is therefore a parameter. */
  function TrimEndSpace(s: seq<WideChar>, isWSpace: WideChar -> bool): (r: seq<WideChar>)
    ensures r <= s
    ensures |r| == 0 || !isWSpace(r[|r| - 1])
    ensures forall i :: |r| <= i < |s| ==> isWSpace(s[i])
  {
    TrimEnd(s, isWSpace)
  }

  /** `trimEnd(c)`. */
  function TrimEndChar(s: seq<WideChar>, c: WideChar): (r: seq<WideChar>)
    ensures r <= s
    ensures |r| == 0 || r[|r| - 1] != c
    ensures forall i :: |r| <= i < |s| ==> s[i] == c
  {
    TrimEnd(s, (x: WideChar) => x == c)
  }

  /** `truncateBy(n)` on a wide string: no-op for `n <= 0`, else drop
      `min(n, len)` characters. */
  function TruncateByWide(s: seq<WideChar>, n: int): (r: seq<WideChar>)
    ensures n <= 0 ==> r == s
    ensures n > 0 && n <= |s| ==> r == s[..|s| - n]
    ensures n > |s| ==> r == []
  {
    TruncateBy(s, n)
  }

  /** `truncateTo(m)` on a wide string: keep the first `m` characters only when
      longer (a negative `m` again compares as a huge unsigned value). */
  function TruncateToWide(s: seq<WideChar>, m: int): (r: seq<WideChar>)
    ensures 0 <= m < |s| ==> r == s[..m]
    ensures m < 0 || |s| <= m ==> r == s
  {
    TruncateTo(s, m)
  }

  /** The delimiters `nextToken` uses when given an empty string: space, tab,
      line feed, carriage return. */
  const DefaultDelimiters: seq<WideChar> := [0x20, 0x09, 0x0A, 0x0D]

  /** `nextToken(tok, delimiters)`: as the 8-bit version, except that an EMPTY
      delimiter string selects the defaults (there is no NULL case). */
  function NextToken(s: seq<WideChar>, tok: seq<WideChar>, delimiters: seq<WideChar>, aliased: bool)
    : (r: TokenResult<WideChar>)
    ensures |s| == 0 || aliased ==> r == TokenResult(false, tok, s)
    ensures |s| > 0 && !aliased ==>
              var d := if |delimiters| == 0 then DefaultDelimiters else delimiters;
              (r.found ==> IsTokenSplit(s, d, r.tok, r.rest)) &&
              (!r.found <==> forall i :: 0 <= i < |s| ==> s[i] in d) &&
              (!r.found ==> r.tok == [] && r.rest == [])
  {
    if |s| == 0 || aliased then TokenResult(false, tok, s)
    else SplitToken(s, if |delimiters| == 0 then DefaultDelimiters else delimiters)
  }

  /** Unlike the 8-bit version, an empty delimiter string does not make the whole
      string one token: a blank-separated wide string is still split. */
  lemma EmptyDelimitersSplitOnBlanks(a: WideChar, b: WideChar)
    requires a !in DefaultDelimiters && b !in DefaultDelimiters
    ensures NextToken([a, 0x20, b], [], [], false) == TokenResult(true, [a], [0x20, b])
  {
    var s: seq<WideChar> := [a, 0x20, b];
    assert s == s[..0] + [a] + [0x20, b];
    SplitTokenUnique(s, DefaultDelimiters, [a], [0x20, b]);
  }
}
