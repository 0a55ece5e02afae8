/** The refactoring script that retires the `RTS_INTERNAL` build flag: it folds
    combined `RTS_DEBUG`/`RTS_INTERNAL` conditions into `RTS_DEBUG` alone and drops
    whole `#ifdef RTS_INTERNAL` blocks, tracking `#if`/`#endif` nesting. */
module RemoveRtsInternal {
  import opened Common
  import opened Strings

  const Flag: string := "RTS_INTERNAL"

  /** The phrases searched for, in table order ... */
  const SearchPhrases: seq<string> := [
    "!defined(RTS_DEBUG) && !defined(" + Flag + ")",
    "!defined(" + Flag + ") && !defined(RTS_DEBUG)",
    "defined(RTS_DEBUG) || defined(" + Flag + ")",
    "defined(" + Flag + ") || defined(RTS_DEBUG)",
    "defined( " + Flag + " ) || defined( RTS_DEBUG )",
    "defined RTS_DEBUG || defined " + Flag,
    "RTS_DEBUG || " + Flag
  ]

  /** ... and what each is replaced by, paired by index. */
  const ReplacePhrases: seq<string> := [
    "!defined(RTS_DEBUG)",
    "!defined(RTS_DEBUG)",
    "defined(RTS_DEBUG)",
    "defined(RTS_DEBUG)",
    "defined(RTS_DEBUG)",
    "defined(RTS_DEBUG)",
    "RTS_DEBUG"
  ]

  /** `modifyLine`: the first phrase in table order that occurs is replaced at its
      first occurrence; nothing else changes. */
  function ModifyLine(line: string): (r: string)
    ensures var k := FirstContainedFrom(line, SearchPhrases, 0);
            k == |SearchPhrases| ==> r == line
    ensures var k := FirstContainedFrom(line, SearchPhrases, 0);
            k < |SearchPhrases| ==>
              var f := Find(line, SearchPhrases[k]);
              0 <= f && f + |SearchPhrases[k]| <= |line| &&
              r == line[..f] + ReplacePhrases[k] + line[f + |SearchPhrases[k]|..]
  {
    var k := FirstContainedFrom(line, SearchPhrases, 0);
    if k == |SearchPhrases| then line
    else
      var f := Find(line, SearchPhrases[k]);
      line[..f] + ReplacePhrases[k] + line[f + |SearchPhrases[k]|..]
  }

  /** `mid` occurs in `pre + mid + post` right after `pre`. */
  lemma OccursBetween(pre: string, mid: string, post: string)
    ensures OccursAt(pre + mid + post, mid, |pre|)
  {
    assert (pre + mid + post)[|pre|..|pre| + |mid|] == mid;
  }

  /** Every search phrase mentions the flag. */
  lemma PhrasesMentionFlag(k: nat)
    requires k < |SearchPhrases|
    ensures Contains(SearchPhrases[k], Flag)
  {
    var pre, post := "", "";
    if k == 0 { pre, post := "!defined(RTS_DEBUG) && !defined(", ")"; }
    else if k == 1 { pre, post := "!defined(", ") && !defined(RTS_DEBUG)"; }
    else if k == 2 { pre, post := "defined(RTS_DEBUG) || defined(", ")"; }
    else if k == 3 { pre, post := "defined(", ") || defined(RTS_DEBUG)"; }
    else if k == 4 { pre, post := "defined( ", " ) || defined( RTS_DEBUG )"; }
    else if k == 5 { pre, post := "defined RTS_DEBUG || defined ", ""; }
    else { pre, post := "RTS_DEBUG || ", ""; }
    assert SearchPhrases[k] == pre + Flag + post;
    OccursBetween(pre, Flag, post);
  }

  /** A line that does not mention `RTS_INTERNAL` (for instance one already folded
      from a single-flag line) is a fixed point of `modifyLine`. */
  lemma NoFlagUnchanged(line: string)
    requires !Contains(line, Flag)
    ensures ModifyLine(line) == line
  {
    var k := FirstContainedFrom(line, SearchPhrases, 0);
    if k < |SearchPhrases| {
      PhrasesMentionFlag(k);
      var i := Find(SearchPhrases[k], Flag);
      ContainsPiece(line, SearchPhrases[k], i, i + |Flag|);
    }
  }

  // ---------------------------------------------------------------------------
  // The block filter of `main`

  /** The two lines (newline included) that open a block to drop. */
  predicate IsOpener(line: string) {
    line == "#ifdef RTS_INTERNAL\n" || line == "#if defined(RTS_INTERNAL)\n"
  }

  /** Nesting depth after reading `line` at depth `d`: inside a dropped block a line
      containing `#if` opens, otherwise one containing `#endif` closes; at depth 0
      only an opener line starts a block. */
  function NextDepth(d: nat, line: string): nat {
    if d > 0 then
      if Contains(line, "#if") then d + 1
      else if Contains(line, "#endif") then d - 1
      else d
    else if IsOpener(line) then 1
    else 0
  }

  /** The script's loop state: `skipLine` and the lines written so far. */
  datatype FilterState = FilterState(depth: nat, written: seq<string>)

  function Step(st: FilterState, line: string): FilterState {
    if st.depth > 0 || IsOpener(line) then FilterState(NextDepth(st.depth, line), st.written)
    else FilterState(0, st.written + [ModifyLine(line)])
  }

  /** The loop over a file's lines, from state `st`. Lines are only ever
      appended to the output, at most one per line read. */
  function Run(st: FilterState, lines: seq<string>): (r: FilterState)
    ensures |st.written| <= |r.written| <= |st.written| + |lines|
    ensures r.written[..|st.written|] == st.written
    decreases |lines|
  {
    if lines == [] then st
    else
      var next := Step(st, lines[0]);
      var r := Run(next, lines[1..]);
      assert r.written[..|st.written|] == r.written[..|next.written|][..|st.written|];
      r
  }

  /** What the script writes for one file; `skipLine` starts at 0 for every
      file. It never writes more lines than it reads. */
  function Process(lines: seq<string>): (r: seq<string>)
    ensures |r| <= |lines|
  {
    Run(FilterState(0, []), lines).written
  }

  /** Running over two pieces is running over their concatenation. */
  lemma {:induction false} RunAppend(st: FilterState, a: seq<string>, b: seq<string>)
    ensures Run(st, a + b) == Run(Run(st, a), b)
    decreases |a|
  {
    if a == [] {
      assert a + b == b;
    } else {
      var ab := a + b;
      assert ab[0] == a[0];
      assert ab[1..] == a[1..] + b;
      assert Run(st, ab) == Run(Step(st, a[0]), a[1..] + b);
      RunAppend(Step(st, a[0]), a[1..], b);
    }
  }

  /** The nesting depth in force before line `i`. */
  function DepthBefore(lines: seq<string>, i: nat): nat
    requires i <= |lines|
  {
    if i == 0 then 0 else NextDepth(DepthBefore(lines, i - 1), lines[i - 1])
  }

  /** A line is written iff it is read at depth 0 and is not an opener. */
  predicate Written(lines: seq<string>, i: nat)
    requires i < |lines|
  {
    DepthBefore(lines, i) == 0 && !IsOpener(lines[i])
  }

  /** The written lines of the first `n` input lines, by the selection rule above. */
  function WrittenUpTo(lines: seq<string>, n: nat): seq<string>
    requires n <= |lines|
  {
    if n == 0 then []
    else WrittenUpTo(lines, n - 1) + (if Written(lines, n - 1) then [ModifyLine(lines[n - 1])] else [])
  }

  /** The loop state after `n` lines is the depth before line `n` together with the
      selected lines, folded, in input order. */
  lemma {:induction false} RunMatchesSelection(lines: seq<string>, n: nat)
    requires n <= |lines|
    ensures Run(FilterState(0, []), lines[..n]) == FilterState(DepthBefore(lines, n), WrittenUpTo(lines, n))
  {
    if n > 0 {
      RunMatchesSelection(lines, n - 1);
      TakeSnoc(lines, n);
      RunSnoc(FilterState(0, []), lines[..n - 1], lines[n - 1]);
      StepMatchesSelection(lines, n);
    }
  }

  /** One more line read moves the depth and the selection together. */
  lemma StepMatchesSelection(lines: seq<string>, n: nat)
    requires 0 < n <= |lines|
    ensures Step(FilterState(DepthBefore(lines, n - 1), WrittenUpTo(lines, n - 1)), lines[n - 1])
            == FilterState(DepthBefore(lines, n), WrittenUpTo(lines, n))
  {
  }

  /** Emitted lines are exactly the depth-0, non-opener lines, each folded once. */
  lemma ProcessIsSelection(lines: seq<string>)
    ensures Process(lines) == WrittenUpTo(lines, |lines|)
  {
    RunMatchesSelection(lines, |lines|);
    assert lines[..|lines|] == lines;
  }

  /** A line in which `#` is never followed by `i` does not contain `#if`. */
  lemma NoHashIf(line: string)
    requires forall k :: 0 <= k < |line| - 1 ==> line[k] != '#' || line[k + 1] != 'i'
    ensures !Contains(line, "#if")
  {
    forall j ensures !OccursAt(line, "#if", j) {
      if 0 <= j && j + 3 <= |line| {
        assert line[j..j + 3][0] == line[j] && line[j..j + 3][1] == line[j + 1];
      }
    }
  }

  /** Running over one line more. */
  lemma RunSnoc(st: FilterState, a: seq<string>, line: string)
    ensures Run(st, a + [line]) == Step(Run(st, a), line)
  {
    RunAppend(st, a, [line]);
    assert Run(Run(st, a), [line]) == Run(Step(Run(st, a), line), []);
  }

  /** A block with one nested block inside: the opener, the nested `#if`, a body
      line, the two `#endif`s are all dropped; only the line after them is written. */
  lemma NestedBlockDropped(open: string, nested: string, body: string, end1: string, end2: string, next: string)
    requires IsOpener(open)
    requires Contains(nested, "#if")
    requires !Contains(body, "#if") && !Contains(body, "#endif")
    requires !Contains(end1, "#if") && Contains(end1, "#endif")
    requires !Contains(end2, "#if") && Contains(end2, "#endif")
    requires !IsOpener(next)
    ensures Process([open, nested, body, end1, end2, next]) == [ModifyLine(next)]
  {
    var s0 := FilterState(0, []);
    var ls := [open, nested, body, end1, end2, next];
    RunSnoc(s0, [], open);
    assert [] + [open] == ls[..1];
    assert Run(s0, ls[..1]) == FilterState(1, []);
    RunSnoc(s0, ls[..1], nested);
    assert ls[..1] + [nested] == ls[..2];
    assert Run(s0, ls[..2]) == FilterState(2, []);
    RunSnoc(s0, ls[..2], body);
    assert ls[..2] + [body] == ls[..3];
    assert Run(s0, ls[..3]) == FilterState(2, []);
    RunSnoc(s0, ls[..3], end1);
    assert ls[..3] + [end1] == ls[..4];
    assert Run(s0, ls[..4]) == FilterState(1, []);
    RunSnoc(s0, ls[..4], end2);
    assert ls[..4] + [end2] == ls[..5];
    assert Run(s0, ls[..5]) == FilterState(0, []);
    RunSnoc(s0, ls[..5], next);
    assert ls[..5] + [next] == ls;
  }
}
