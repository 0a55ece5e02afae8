/** A file opened on the local disk (`LocalFile`): how its access flags
    become an `fopen` mode or `_open` flags, the buffering it asks for, and
    the readers over its byte stream (`read`, `readChar`, `readWideChar`,
    `scanInt`, `nextLine`). The file's contents are a sequence: `read`
    takes them with the file position, and the other readers take what is
    left and return what they read and what remains. */
module LocalFile {
  import opened Common
  import opened Bytes
  import opened Decimal

  /** The access bits of `File::access` the open path looks at. `READWRITE`
      is `READ | WRITE`. */
  datatype Access = Access(
    read: bool, write: bool, append: bool, create: bool, truncate: bool,
    text: bool, binary: bool, lineBuf: bool)

  predicate ReadWrite(a: Access) {
    a.read && a.write
  }

  /** The `fopen` mode of the buffered build. */
  function FopenMode(a: Access): (m: string)
    ensures |m| >= 1 && m[0] in {'r', 'w', 'a'}
    ensures (m[|m| - 1] == 'b') <==> a.binary
  {
    var base :=
      if ReadWrite(a) then
        if a.append then "a+" else if a.truncate || a.create then "w+" else "r+"
      else if a.write then
        if a.append then "a" else "w"
      else "r";
    if a.binary then base + "b" else base
  }

  /** What a C mode string lets the stream do: read for "r" or any "+";
      write for "w", "a" or any "+"; discard the old contents for "w";
      always write at the end for "a". */
  predicate ModeReads(m: string) {
    |m| >= 1 && (m[0] == 'r' || (|m| >= 2 && m[1] == '+'))
  }

  predicate ModeWrites(m: string) {
    |m| >= 1 && (m[0] != 'r' || (|m| >= 2 && m[1] == '+'))
  }

  /** The mode keeps the flags' meaning: it reads unless the file is opened
      for writing only, writes exactly when WRITE is set, appends exactly
      when a writable file asks for APPEND (which wins over TRUNCATE and
      CREATE), and truncates otherwise unless a read-write file asks for
      neither TRUNCATE nor CREATE. */
  lemma ModeMeaning(a: Access)
    ensures ModeReads(FopenMode(a)) <==> a.read || !a.write
    ensures ModeWrites(FopenMode(a)) <==> a.write
    ensures FopenMode(a)[0] == 'a' <==> a.write && a.append
    ensures FopenMode(a)[0] == 'w' <==> a.write && !a.append && (!a.read || a.truncate || a.create)
  {
  }

  /** The `_open` flags of the unbuffered build. */
  datatype OpenFlag = OCreat | OTrunc | OAppend | OText | OBinary | ORdWr | OWrOnly | ORdOnly

  function OpenFlags(a: Access): (f: set<OpenFlag>)
    ensures OTrunc in f <==> a.truncate
    ensures OAppend in f <==> a.append
    ensures OText in f <==> a.text
    ensures OBinary in f <==> a.binary
  {
    (if a.create then {OCreat} else {}) + (if a.truncate then {OTrunc} else {}) +
    (if a.append then {OAppend} else {}) + (if a.text then {OText} else {}) +
    (if a.binary then {OBinary} else {}) +
    (if ReadWrite(a) then {ORdWr} else if a.write then {OWrOnly, OCreat} else {ORdOnly})
  }

  /** Exactly one access mode is chosen: read-write for READWRITE, write-only
      (always creating) for WRITE alone, read-only otherwise. */
  lemma OneAccessMode(a: Access)
    ensures ORdWr in OpenFlags(a) <==> ReadWrite(a)
    ensures OWrOnly in OpenFlags(a) <==> a.write && !a.read
    ensures ORdOnly in OpenFlags(a) <==> !a.write
    ensures OWrOnly in OpenFlags(a) ==> OCreat in OpenFlags(a)
    ensures OCreat in OpenFlags(a) <==> a.create || (a.write && !a.read)
  {
  }

  /** Both builds agree on the access: the `fopen` mode reads and writes
      exactly as the `_open` access mode does. */
  lemma BuildsAgree(a: Access)
    ensures ModeWrites(FopenMode(a)) <==> ORdOnly !in OpenFlags(a)
    ensures ModeReads(FopenMode(a)) <==> OWrOnly !in OpenFlags(a)
  {
  }

  datatype Buffering = Unbuffered | LineBuffered | FullyBuffered

  /** The `setvbuf` mode: none for a zero buffer size, else line buffering
      when LINEBUF is set, else full buffering. */
  function BufferingFor(a: Access, bufferSize: int): (b: Buffering)
    ensures b == Unbuffered <==> bufferSize == 0
    ensures b == LineBuffered <==> bufferSize != 0 && a.lineBuf
  {
    if bufferSize == 0 then Unbuffered else if a.lineBuf then LineBuffered else FullyBuffered
  }

  /** The value `readChar` returns at end of file. */
  const Eof := -1
  /** The value `readWideChar` returns at end of file (a 16-bit `wint_t`). */
  const WEof := 0xFFFF

  /** `read(buffer, n)` on an open file: `fread` of `n` bytes at `pos`
      stores the bytes left there, at most `n`, and returns how many. Past
      the end it stores none and the destination keeps what it held. */
  function ReadAt(d: seq<Byte>, pos: nat, n: nat): (got: seq<Byte>)
    ensures |got| <= n
    ensures got == [] || (pos + |got| <= |d| && got == d[pos..pos + |got|])
    ensures |got| < n ==> pos + |got| >= |d|
    ensures pos + n <= |d| ==> got == d[pos..pos + n]
  {
    if pos >= |d| then [] else d[pos..Min(pos + n, |d|)]
  }

  /** A byte read into the signed `Char` and widened to `Int`. */
  function SignedChar(b: Byte): (c: int)
    ensures -128 <= c < 128 && c % 256 == b
  {
    if b >= 128 then b - 256 else b
  }

  /** `readChar`: one byte as a signed character, or EOF when none is left. */
  function ReadChar(bs: seq<Byte>): (r: (int, seq<Byte>))
    ensures |bs| == 0 ==> r == (Eof, bs)
    ensures |bs| > 0 ==> r.1 == bs[1..] && r.0 % 256 == bs[0] as int && -128 <= r.0 < 128
  {
    if |bs| >= 1 then (SignedChar(bs[0]), bs[1..]) else (Eof, bs)
  }

  /** EOF is returned at the end of the data, and also for the byte 0xFF,
      which the signed character widens to -1. */
  lemma ReadCharEof(bs: seq<Byte>)
    ensures ReadChar(bs).0 == Eof <==> |bs| == 0 || bs[0] == 0xFF
  {
  }

  /** `readWideChar`: two bytes, low byte first, or WEOF when fewer are left;
      a lone last byte is consumed all the same. */
  function ReadWideChar(bs: seq<Byte>): (r: (int, seq<Byte>))
    ensures |bs| < 2 ==> r == (WEof, [])
    ensures |bs| >= 2 ==> r.1 == bs[2..] && r.0 == LittleEndianValue(bs[..2])
  {
    if |bs| >= 2 then (bs[0] as int + 0x100 * bs[1] as int, bs[2..]) else (WEof, [])
  }

  /** The value of two bytes, low byte first. */
  function LittleEndianValue(b: seq<Byte>): nat
    requires |b| == 2
  {
    b[0] as int + 0x100 * b[1] as int
  }

  lemma ReadWideCharEof(bs: seq<Byte>)
    ensures ReadWideChar(bs).0 == WEof <==> |bs| < 2 || (bs[0] == 0xFF && bs[1] == 0xFF)
  {
  }

  // ---------------------------------------------------------------------
  // scanInt

  /** Where `scanInt` starts its number: the first digit or minus sign. */
  function NumberStart(s: string): (k: nat)
    ensures k <= |s|
    ensures forall i :: 0 <= i < k ==> !IsDigitChar(s[i]) && s[i] != '-'
    ensures k < |s| ==> IsDigitChar(s[k]) || s[k] == '-'
  {
    if s == [] then 0 else if IsDigitChar(s[0]) || s[0] == '-' then 0 else 1 + NumberStart(s[1..])
  }

  /** The end of the run of digits starting at `from`. */
  function DigitsEnd(s: string, from: nat): (e: nat)
    requires from <= |s|
    ensures from <= e <= |s|
    ensures forall i :: from <= i < e ==> IsDigitChar(s[i])
    ensures e < |s| ==> !IsDigitChar(s[e])
    decreases |s| - from
  {
    if from == |s| || !IsDigitChar(s[from]) then from else DigitsEnd(s, from + 1)
  }

  /** `atoi` of what `scanInt` collected: a digit or minus sign, then digits. */
  function Atoi(t: string): (v: int)
    requires |t| >= 1 && (IsDigitChar(t[0]) || t[0] == '-') && AllDigits(t[1..])
  {
    assert t[0] != '-' ==> AllDigits(t) by {
      if t[0] != '-' {
        forall i | 0 <= i < |t| ensures IsDigitChar(t[i]) {
          if i > 0 { assert t[i] == t[1..][i - 1]; }
        }
      }
    }
    ParseInt(t)
  }

  datatype ScanResult = ScanResult(ok: bool, value: int, rest: string)

  /** `scanInt`: skips everything that is neither a digit nor `-`, fails at
      end of file, else reads that character and the digits after it and
      puts back the character that ended them. */
  function ScanInt(s: string): (r: ScanResult)
    ensures !r.ok <==> NumberStart(s) == |s|
    ensures !r.ok ==> r.value == 0 && r.rest == []
    ensures r.ok ==> r.rest == s[DigitsEnd(s, NumberStart(s) + 1)..]
  {
    var k := NumberStart(s);
    if k == |s| then ScanResult(false, 0, [])
    else
      var e := DigitsEnd(s, k + 1);
      assert AllDigits(s[k..e][1..]) by {
        forall i | 0 <= i < |s[k..e][1..]| ensures IsDigitChar(s[k..e][1..][i]) {
          assert s[k..e][1..][i] == s[k + 1 + i];
        }
      }
      ScanResult(true, Atoi(s[k..e]), s[e..])
  }

  /** `scanInt` fails exactly when no digit and no minus sign is left. */
  lemma ScanFailsIffNoNumber(s: string)
    ensures !ScanInt(s).ok <==> forall i :: 0 <= i < |s| ==> !IsDigitChar(s[i]) && s[i] != '-'
  {
  }

  /** The text of an integer, after anything that is not part of a number and
      before a non-digit, is read back as that integer, and the reading stops
      right after it. */
  lemma {:induction false} ScanReadsIntText(pre: string, i: int, post: string)
    requires forall j :: 0 <= j < |pre| ==> !IsDigitChar(pre[j]) && pre[j] != '-'
    requires post == [] || !IsDigitChar(post[0])
    ensures ScanInt(pre + IntText(i) + post) == ScanResult(true, i, post)
  {
    var t := IntText(i);
    var s := pre + t + post;
    IntTextRoundTrip(i);
    assert s[|pre|] == t[0];
    assert NumberStart(s) == |pre| by {
      NumberStartAfter(pre, t + post);
      assert s == pre + (t + post);
    }
    assert forall j :: |pre| + 1 <= j < |pre| + |t| ==> IsDigitChar(s[j]) by {
      forall j | |pre| + 1 <= j < |pre| + |t| ensures IsDigitChar(s[j]) {
        assert s[j] == t[j - |pre|];
        if t[0] == '-' { assert t[j - |pre|] == t[1..][j - |pre| - 1]; }
      }
    }
    DigitsEndAt(s, |pre| + 1, |pre| + |t|);
    assert s[|pre|..|pre| + |t|] == t;
    assert s[|pre| + |t|..] == post;
  }

  lemma {:induction false} NumberStartAfter(pre: string, s: string)
    requires forall j :: 0 <= j < |pre| ==> !IsDigitChar(pre[j]) && pre[j] != '-'
    requires |s| > 0 && (IsDigitChar(s[0]) || s[0] == '-')
    ensures NumberStart(pre + s) == |pre|
  {
    if pre != [] {
      assert (pre + s)[1..] == pre[1..] + s;
      NumberStartAfter(pre[1..], s);
    }
  }

  /** The digit run from `from` ends at `e` when all before `e` are digits
      and `e` is not. */
  lemma {:induction false} DigitsEndAt(s: string, from: nat, e: nat)
    requires from <= e <= |s|
    requires forall j :: from <= j < e ==> IsDigitChar(s[j])
    requires e < |s| ==> !IsDigitChar(s[e])
    ensures DigitsEnd(s, from) == e
    decreases e - from
  {
    if from < e {
      DigitsEndAt(s, from + 1, e);
    }
  }

  // ---------------------------------------------------------------------
  // nextLine

  const Nul := '\0'

  /** The characters up to and including the first newline, or all of them. */
  function LineEnd(s: string): (n: nat)
    ensures n <= |s|
    ensures forall i :: 0 <= i < n - 1 ==> s[i] != '\n'
    ensures n > 0 && n < |s| ==> s[n - 1] == '\n'
    ensures n == 0 <==> s == []
    ensures n == |s| && n > 0 && s[n - 1] != '\n' ==> forall i :: 0 <= i < |s| ==> s[i] != '\n'
  {
    if s == [] then 0 else if s[0] == '\n' then 1 else 1 + LineEnd(s[1..])
  }

  /** What `nextLine` leaves: the rest of the file and the caller's buffer,
      absent when the caller passed none. `stray` records a write one past the
      buffer's end. */
  datatype LineResult = LineResult(rest: string, buf: Option<string>, stray: bool)

  /** The read loop of `nextLine` as written: read attempt `i` goes into
      `buf[i]` while `i < bufSize - 1` and into a scratch character after
      that; a failed read (end of file) stores nothing but still counts as an
      attempt. Returns the rest, the buffer and the number of attempts. */
  function LineLoopAsWritten(s: string, buf: Option<string>, i: nat): (r: (string, Option<string>, nat))
    ensures buf.Some? <==> r.1.Some?
    ensures buf.Some? ==> |r.1.value| == |buf.value|
    ensures r.0 == s[LineEnd(s)..]
    decreases |s|
  {
    var store := buf.Some? && i < |buf.value| - 1;
    if s == [] then ([], buf, i + 1)
    else
      var buf' := if store then Some(buf.value[i := s[0]]) else buf;
      if s[0] == '\n' then (s[1..], buf', i + 1) else LineLoopAsWritten(s[1..], buf', i + 1)
  }

  /** `nextLine` as written: the terminator goes at the attempt count, or at
      `buf[bufSize]` when that count has reached the buffer size. */
  function NextLineAsWritten(s: string, buf: Option<string>): (r: LineResult)
    ensures r.rest == s[LineEnd(s)..]
  {
    var r := LineLoopAsWritten(s, buf, 0);
    if r.1.None? then LineResult(r.0, None, false)
    else if r.2 < |r.1.value| then LineResult(r.0, Some(r.1.value[r.2 := Nul]), false)
    else LineResult(r.0, r.1, true)
  }

  /** At end of file the terminator lands one past the last character read,
      so the old buffer content in between becomes part of the line. */
  lemma AsWrittenEofKeepsStaleChar()
    ensures NextLineAsWritten("ab", Some("xxxx")) == LineResult([], Some("abx" + [Nul]), false)
    ensures NextLine("ab", Some("xxxx")) == LineResult([], Some("ab" + [Nul] + "x"), false)
  {
    var s, b := "ab", "xxxx";
    assert s[0] != '\n' && s[1] != '\n';
    assert LineEnd(s) == 2 && !Terminated(s);
    AsWrittenEofOneLate(s, b);
    assert s + [b[2]] + [Nul] + b[4..] == "abx" + [Nul];
    assert s[..2] + [Nul] + b[3..] == "ab" + [Nul] + "x";
    assert s[2..] == [];
  }

  /** A line longer than the buffer makes the terminator land one past it. */
  lemma AsWrittenLongLineWritesPastEnd()
    ensures NextLineAsWritten("abcdef\n", Some("xxxx")).stray
    ensures NextLine("abcdef\n", Some("xxxx")) == LineResult([], Some("abc" + [Nul]), false)
  {
    var s := "abcdef\n";
    assert s[6] == '\n' && forall i :: 0 <= i < 6 ==> s[i] != '\n';
    assert LineEnd(s) == 7 && Terminated(s);
    StrayIffAttemptsFill(s, "xxxx");
    assert s[..3] + [Nul] + "xxxx"[4..] == "abc" + [Nul];
    assert s[7..] == [];
  }

  /** `nextLine` as evidently intended: skips the rest of the line, keeping
      its first `bufSize - 1` characters (the newline included) followed by a
      terminator, and never writes outside the buffer. */
  function NextLine(s: string, buf: Option<string>): (r: LineResult)
    ensures r.rest == s[LineEnd(s)..] && !r.stray
    ensures buf.None? <==> r.buf.None?
    ensures buf.Some? ==> |r.buf.value| == |buf.value|
    ensures buf.Some? && |buf.value| >= 1 ==>
              var m := Min(LineEnd(s), |buf.value| - 1);
              r.buf.value[..m] == s[..m] && r.buf.value[m] == Nul &&
              r.buf.value[m + 1..] == buf.value[m + 1..]
  {
    match buf
    case None => LineResult(s[LineEnd(s)..], None, false)
    case Some(b) =>
      if |b| == 0 then LineResult(s[LineEnd(s)..], buf, false)
      else
        var m := Min(LineEnd(s), |b| - 1);
        LineResult(s[LineEnd(s)..], Some(s[..m] + [Nul] + b[m + 1..]), false)
  }

  /** The line ends in a newline (rather than at the end of the file). */
  predicate Terminated(s: string) {
    LineEnd(s) > 0 && s[LineEnd(s) - 1] == '\n'
  }

  /** While the line fits before the buffer's last slot, the loop as written
      stores each character it reads at the attempt's index, and makes one
      attempt more than it read characters when it hits the end of file. */
  lemma {:induction false} LoopStores(s: string, b: string, i: nat)
    requires i + LineEnd(s) < |b|
    ensures var n := LineEnd(s);
            LineLoopAsWritten(s, Some(b), i) ==
              (s[n..], Some(b[..i] + s[..n] + b[i + n..]), i + n + (if Terminated(s) then 0 else 1))
    decreases |s|
  {
    var n := LineEnd(s);
    if s == [] {
      assert b[..i] + s[..n] + b[i + n..] == b;
    } else if s[0] == '\n' {
      assert b[i := s[0]] == b[..i] + s[..n] + b[i + n..];
    } else {
      var b' := b[i := s[0]];
      LoopStores(s[1..], b', i + 1);
      assert LineEnd(s[1..]) == n - 1;
      assert s[1..][..n - 1] == s[1..n];
      StoreThenCopy(b, i, s, n);
      assert Terminated(s) == Terminated(s[1..]);
    }
  }

  /** Storing the first character at `i` and then copying the rest of the
      line after it is copying the whole line at `i`. */
  lemma StoreThenCopy(b: string, i: nat, s: string, n: nat)
    requires 0 < n <= |s| && i + n <= |b|
    ensures b[i := s[0]][..i + 1] + s[1..n] + b[i := s[0]][i + 1 + (n - 1)..] == b[..i] + s[..n] + b[i + n..]
  {
    var b' := b[i := s[0]];
    assert b'[..i + 1] == b[..i] + [s[0]];
    assert b'[i + n..] == b[i + n..];
    assert [s[0]] + s[1..n] == s[..n];
  }

  /** The loop makes one read attempt per character of the line, and one
      more when the line is cut off by the end of the file. */
  lemma {:induction false} LoopCount(s: string, buf: Option<string>, i: nat)
    ensures LineLoopAsWritten(s, buf, i).2 == i + LineEnd(s) + (if Terminated(s) then 0 else 1)
    decreases |s|
  {
    if s != [] && s[0] != '\n' {
      var buf' := if buf.Some? && i < |buf.value| - 1 then Some(buf.value[i := s[0]]) else buf;
      LoopCount(s[1..], buf', i + 1);
      assert Terminated(s) == Terminated(s[1..]);
    }
  }

  /** The as-written terminator lands outside the buffer exactly when the
      read attempts reach its size. */
  lemma StrayIffAttemptsFill(s: string, b: string)
    ensures NextLineAsWritten(s, Some(b)).stray <==> LineEnd(s) + (if Terminated(s) then 0 else 1) >= |b|
  {
    LoopCount(s, Some(b), 0);
  }

  /** For a line that ends in a newline and fits the buffer, the version as
      written stores the line and a terminator right after it. */
  lemma AsWrittenShortTerminated(s: string, b: string)
    requires Terminated(s) && LineEnd(s) < |b|
    ensures var n := LineEnd(s);
            NextLineAsWritten(s, Some(b)) == LineResult(s[n..], Some(s[..n] + [Nul] + b[n + 1..]), false)
  {
    var n := LineEnd(s);
    LoopStores(s, b, 0);
    var c := s[..n] + b[n..];
    assert b[..0] + s[..n] + b[0 + n..] == c;
    var r := LineLoopAsWritten(s, Some(b), 0);
    assert r == (s[n..], Some(c), n);
    assert NextLineAsWritten(s, Some(b)) == LineResult(r.0, Some(c[n := Nul]), false);
    SetAfterPrefix(s[..n], b[n..], Nul);
    assert b[n..][1..] == b[n + 1..];
  }

  /** Overwriting the first element after a prefix. */
  lemma SetAfterPrefix<T>(p: seq<T>, q: seq<T>, x: T)
    requires |q| > 0
    ensures (p + q)[|p| := x] == p + [x] + q[1..]
  {
  }

  /** On such a line the version as written and the corrected one agree. */
  lemma AgreeOnShortTerminatedLine(s: string, b: string)
    requires Terminated(s) && LineEnd(s) < |b|
    ensures NextLineAsWritten(s, Some(b)) == NextLine(s, Some(b))
  {
    AsWrittenShortTerminated(s, b);
  }

  /** For a short line cut off by the end of the file, the version as written
      puts the terminator one slot late, after an unwritten character. */
  lemma AsWrittenEofOneLate(s: string, b: string)
    requires !Terminated(s) && |s| + 1 < |b|
    ensures NextLineAsWritten(s, Some(b)).buf == Some(s + [b[|s|]] + [Nul] + b[|s| + 2..])
  {
    var n := LineEnd(s);
    assert n == |s|;
    LoopStores(s, b, 0);
    var r := LineLoopAsWritten(s, Some(b), 0);
    assert r.2 == n + 1;
    assert s[..n] == s;
    var c := s + b[n..];
    assert r.1.value == c;
    assert c[n + 1 := Nul] == s + [b[n]] + [Nul] + b[n + 2..];
  }
}
