/** The clean-up script that strips trailing whitespace from every line of a
    source file and makes sure the file ends with a line break. A file is the
    list of lines Python's `readlines` returns: each line keeps its `\n`, only
    the last one may lack it. */
module TrailingWhitespace {
  import opened Strings

  /** Python's `str.rstrip()` with no argument. */
  function RStrip(line: string): (r: string)
    ensures r <= line
    ensures |r| == 0 || !IsPySpace(r[|r| - 1])
    ensures forall i :: |r| <= i < |line| ==> IsPySpace(line[i])
  {
    DropLastWhile(line, IsPySpace)
  }

  /** What the script writes for one line: `line.rstrip() + "\n"`. */
  function WriteLine(line: string): (r: string)
    ensures |r| >= 1 && r[|r| - 1] == '\n'
    ensures r[..|r| - 1] <= line
    ensures |r| == 1 || !IsPySpace(r[|r| - 2])
    ensures forall i :: |r| - 1 <= i < |line| ==> IsPySpace(line[i])
  {
    RStrip(line) + "\n"
  }

  /** The last line is non-empty and does not end with a line break. */
  predicate LacksTerminator(lines: seq<string>) {
    |lines| > 0 && |lines[|lines| - 1]| > 0 && lines[|lines| - 1][|lines[|lines| - 1]| - 1] != '\n'
  }

  /** The lines the script writes back for one file. */
  function Process(lines: seq<string>): (r: seq<string>)
    ensures |r| == |lines| + (if LacksTerminator(lines) then 1 else 0)
    ensures forall i :: 0 <= i < |lines| ==> r[i] == WriteLine(lines[i])
    ensures LacksTerminator(lines) ==> r[|lines|] == "\n"
  {
    WriteAll(lines) + (if LacksTerminator(lines) then ["\n"] else [])
  }

  /** The `for line in lines` loop. */
  function WriteAll(lines: seq<string>): (r: seq<string>)
    ensures |r| == |lines|
    ensures forall i :: 0 <= i < |lines| ==> r[i] == WriteLine(lines[i])
  {
    if lines == [] then [] else [WriteLine(lines[0])] + WriteAll(lines[1..])
  }

  /** A whitespace-only line (including a bare line break) is written as `"\n"`. */
  lemma BlankLineBecomesNewline(line: string)
    requires forall i :: 0 <= i < |line| ==> IsPySpace(line[i])
    ensures WriteLine(line) == "\n"
  {
  }

  /** Leading and interior text is kept: the written line is the input up to its
      last non-whitespace character, followed by one line break. */
  lemma WriteLineKeepsText(line: string, k: nat)
    requires k < |line| && !IsPySpace(line[k])
    ensures |WriteLine(line)| > k + 1 && WriteLine(line)[k] == line[k]
  {
  }

  /** An empty file stays empty. */
  lemma EmptyFileStaysEmpty()
    ensures Process([]) == []
  {
  }

  /** A written line is a fixed point of the per-line rewrite. */
  lemma WriteLineFixed(line: string)
    ensures WriteLine(WriteLine(line)) == WriteLine(line)
  {
    var w := WriteLine(line);
    var s := RStrip(line);
    assert w == s + "\n";
    assert IsPySpace('\n');
    DropLastWhileUnique(w, IsPySpace, s);
  }

  /** Running the script on its own output changes nothing. */
  lemma {:induction false} ProcessIdempotent(lines: seq<string>)
    ensures Process(Process(lines)) == Process(lines)
  {
    var out := Process(lines);
    forall i | 0 <= i < |out|
      ensures WriteLine(out[i]) == out[i]
    {
      ProcessedLineFixed(lines, i);
    }
    ProcessedIsTerminated(lines);
    FixedLinesUnchanged(out);
  }

  /** Each line of the script's output is a fixed point of the per-line
      rewrite. */
  lemma ProcessedLineFixed(lines: seq<string>, i: nat)
    requires i < |Process(lines)|
    ensures WriteLine(Process(lines)[i]) == Process(lines)[i]
  {
    var out := Process(lines);
    if i < |lines| {
      assert out[i] == WriteLine(lines[i]);
      WriteLineFixed(lines[i]);
    } else {
      assert out[i] == "\n";
      NewlineFixed();
    }
  }

  /** A bare line break is written as itself. */
  lemma NewlineFixed()
    ensures WriteLine("\n") == "\n"
  {
    BlankLineBecomesNewline("\n");
  }

  /** The script's output always ends with a line break (or is empty). */
  lemma ProcessedIsTerminated(lines: seq<string>)
    ensures !LacksTerminator(Process(lines))
  {
    var out := Process(lines);
    if LacksTerminator(lines) {
      assert out[|out| - 1] == "\n";
    } else if |lines| > 0 {
      var w := WriteLine(lines[|lines| - 1]);
      assert out[|out| - 1] == w;
      assert w[|w| - 1] == '\n';
    }
  }

  /** A terminated file whose every line the per-line rewrite keeps is kept
      whole. */
  lemma FixedLinesUnchanged(out: seq<string>)
    requires !LacksTerminator(out)
    requires forall i :: 0 <= i < |out| ==> WriteLine(out[i]) == out[i]
    ensures Process(out) == out
  {
    assert WriteAll(out) == out;
  }

  // ---------------------------------------------------------------------------
  // The file as text

  /** The text of a list of lines (what `file.write` produces). */
  function Join(lines: seq<string>): string {
    if lines == [] then [] else lines[0] + Join(lines[1..])
  }

  /** Index of the first `\n` in `s`, or `|s|`. */
  function LineEnd(s: string): (r: nat)
    ensures r <= |s|
    ensures forall i :: 0 <= i < r ==> s[i] != '\n'
    ensures r < |s| ==> s[r] == '\n'
  {
    if s == [] then 0 else if s[0] == '\n' then 0 else 1 + LineEnd(s[1..])
  }

  /** Python's `readlines`: split after every `\n`; a last piece without one is
      a line too. The lines put together are the text, none is empty, and
      every line but the last is terminated. */
  function ReadLines(s: string): (lines: seq<string>)
    ensures Join(lines) == s
    ensures forall k :: 0 <= k < |lines| ==> |lines[k]| > 0
    ensures forall k :: 0 <= k < |lines| - 1 ==> IsTerminatedLine(lines[k])
    decreases |s|
  {
    if s == [] then []
    else
      var e := LineEnd(s);
      if e == |s| then
        assert Join([s]) == s + Join([]);
        [s]
      else
        var rest := ReadLines(s[e + 1..]);
        var lines := [s[..e + 1]] + rest;
        assert lines[0] == s[..e + 1] && lines[1..] == rest;
        assert s[..e + 1] + s[e + 1..] == s;
        assert forall k :: 1 <= k < |lines| ==> lines[k] == rest[k - 1];
        lines
  }

  /** A line as `readlines` delivers it: it ends with its only `\n`. */
  predicate IsTerminatedLine(line: string) {
    |line| > 0 && line[|line| - 1] == '\n' &&
    forall i :: 0 <= i < |line| - 1 ==> line[i] != '\n'
  }

  /** Every written line is terminated, provided the input line had no line break
      before its end. */
  lemma WriteLineTerminated(line: string)
    requires forall i :: 0 <= i < |line| - 1 ==> line[i] != '\n'
    ensures IsTerminatedLine(WriteLine(line))
  {
  }

  lemma LineEndOfTerminated(line: string, rest: string)
    requires IsTerminatedLine(line)
    ensures LineEnd(line + rest) == |line| - 1
  {
    var s := line + rest;
    assert s[|line| - 1] == '\n';
    assert forall i :: 0 <= i < |line| - 1 ==> s[i] == line[i];
  }

  /** Reading back the text of terminated lines gives the same lines. */
  lemma {:induction false} ReadJoinRoundTrip(lines: seq<string>)
    requires forall k :: 0 <= k < |lines| ==> IsTerminatedLine(lines[k])
    ensures ReadLines(Join(lines)) == lines
  {
    if lines != [] {
      var rest := Join(lines[1..]);
      var s := lines[0] + rest;
      LineEndOfTerminated(lines[0], rest);
      assert s[..|lines[0]|] == lines[0];
      assert s[|lines[0]|..] == rest;
      ReadJoinRoundTrip(lines[1..]);
      assert lines == [lines[0]] + lines[1..];
    }
  }

  /** The written file, read again, is the written list of lines; hence the
      script applied to its own output file leaves the file unchanged. */
  lemma RewrittenFileIsStable(lines: seq<string>)
    requires forall k :: 0 <= k < |lines| ==> forall i :: 0 <= i < |lines[k]| - 1 ==> lines[k][i] != '\n'
    ensures ReadLines(Join(Process(lines))) == Process(lines)
    ensures Join(Process(ReadLines(Join(Process(lines))))) == Join(Process(lines))
  {
    var out := Process(lines);
    forall k | 0 <= k < |out|
      ensures IsTerminatedLine(out[k])
    {
      if k < |lines| {
        WriteLineTerminated(lines[k]);
      }
    }
    ReadJoinRoundTrip(out);
    ProcessIdempotent(lines);
  }
}
