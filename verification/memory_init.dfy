/** Sizing of the game's memory pools (`MemoryInit`): the table of initial
    and overflow allocation counts per pool name, the sizes read from the pools
    file (rounded up to the 4-byte memory bound) and the lookup that fills in a
    pool's counts when its caller left them unset. */
module MemoryInit {
  import opened Common
  import opened Strings

  const MemBoundAlignment := 4

  /** `roundUpMemBound`: at least the alignment, and otherwise rounded up to
      the next multiple of it. */
  function RoundUpMemBound(i: int): (r: int)
    ensures r >= MemBoundAlignment && r % MemBoundAlignment == 0
    ensures i < MemBoundAlignment ==> r == MemBoundAlignment
    ensures i >= MemBoundAlignment ==> i <= r < i + MemBoundAlignment
  {
    if i < MemBoundAlignment then MemBoundAlignment
    else (i + (MemBoundAlignment - 1)) / MemBoundAlignment * MemBoundAlignment
  }

  /** The rounded value is the least aligned size covering `i`. */
  lemma RoundUpIsLeast(i: int, m: int)
    requires m >= MemBoundAlignment && m % MemBoundAlignment == 0 && m >= i
    ensures RoundUpMemBound(i) <= m
  {
  }

  lemma RoundUpIdempotent(i: int)
    ensures RoundUpMemBound(RoundUpMemBound(i)) == RoundUpMemBound(i)
  {
  }

  /** One row of the pool-size table. */
  datatype PoolSize = PoolSize(name: string, initial: int, overflow: int)

  /** The index of the first row whose name `same` accepts, or `|table|`. */
  function FirstNamed(table: seq<PoolSize>, name: string, same: (string, string) -> bool): (k: nat)
    ensures k <= |table|
    ensures forall i :: 0 <= i < k ==> !same(table[i].name, name)
    ensures k < |table| ==> same(table[k].name, name)
    decreases |table|
  {
    if table == [] then 0
    else if same(table[0].name, name) then 0
    else 1 + FirstNamed(table[1..], name, same)
  }

  function SameName(a: string, b: string): bool {
    a == b
  }

  /** `userMemoryAdjustPoolSize`: counts already set by the caller stay;
      otherwise both are taken from the first row named exactly `poolName`,
      and they stay as they were when no row is. */
  function AdjustPoolSize(table: seq<PoolSize>, poolName: string, initial: int, overflow: int): (r: (int, int))
    ensures initial > 0 ==> r == (initial, overflow)
    ensures initial <= 0 && (forall i :: 0 <= i < |table| ==> table[i].name != poolName) ==> r == (initial, overflow)
    ensures initial <= 0 ==>
              forall i :: (0 <= i < |table| && table[i].name == poolName &&
                           (forall j :: 0 <= j < i ==> table[j].name != poolName)) ==>
                r == (table[i].initial, table[i].overflow)
  {
    if initial > 0 then (initial, overflow)
    else
      var k := FirstNamed(table, poolName, SameName);
      if k < |table| then (table[k].initial, table[k].overflow) else (initial, overflow)
  }

  /** A line of the pools file: `comment` when it starts with `;`, and
      `fields` the three values the line scans to (pool name, initial count,
      overflow count), or `None` when it does not scan. */
  datatype PoolLine = PoolLine(comment: bool, fields: Option<(string, int, int)>)

  /** Whether `line` sets row `i`: it is no comment, it scans, and row `i`
      is the first whose name equals the scanned one up to case. */
  predicate Sets(table: seq<PoolSize>, line: PoolLine, i: nat) {
    !line.comment && line.fields.Some? && FirstNamed(table, line.fields.value.0, EqualsNoCase) == i
  }

  /** `row` with the counts `line` scanned, each rounded up. */
  function SetRow(row: PoolSize, line: PoolLine): PoolSize
    requires line.fields.Some?
  {
    PoolSize(row.name, RoundUpMemBound(line.fields.value.1), RoundUpMemBound(line.fields.value.2))
  }

  /** One line of `userMemoryManagerInitPools`: the first row whose name
      equals the scanned name up to case gets both counts, rounded up. */
  function ApplyLine(table: seq<PoolSize>, line: PoolLine): (r: seq<PoolSize>)
    ensures |r| == |table|
    ensures line.comment || line.fields.None? ==> r == table
    ensures forall i :: 0 <= i < |table| ==> r[i].name == table[i].name
    ensures forall i :: 0 <= i < |table| && r[i] != table[i] ==>
              !line.comment && line.fields.Some? &&
              i == FirstNamed(table, line.fields.value.0, EqualsNoCase) &&
              r[i].initial == RoundUpMemBound(line.fields.value.1) &&
              r[i].overflow == RoundUpMemBound(line.fields.value.2)
    ensures !line.comment && line.fields.Some? && FirstNamed(table, line.fields.value.0, EqualsNoCase) < |table| ==>
              var k := FirstNamed(table, line.fields.value.0, EqualsNoCase);
              r[k] == SetRow(table[k], line)
  {
    if line.comment then table
    else match line.fields
      case None => table
      case Some(f) =>
        var k := FirstNamed(table, f.0, EqualsNoCase);
        if k < |table| then
          table[k := PoolSize(table[k].name, RoundUpMemBound(f.1), RoundUpMemBound(f.2))]
        else table
  }

  /** The loop over the lines of the pools file, first to last. */
  function ApplyFile(table: seq<PoolSize>, lines: seq<PoolLine>): seq<PoolSize>
    decreases |lines|
  {
    if lines == [] then table else ApplyFile(ApplyLine(table, lines[0]), lines[1..])
  }

  /** Row `i` after the whole file, stated without the loop: looking from
      the last line back, the rounded counts of the first line that sets it,
      or the row as it was when no line does. */
  function LastSet(table: seq<PoolSize>, lines: seq<PoolLine>, i: nat): PoolSize
    requires i < |table|
    decreases |lines|
  {
    if lines == [] then table[i]
    else if Sets(table, lines[|lines| - 1], i) then SetRow(table[i], lines[|lines| - 1])
    else LastSet(table, lines[..|lines| - 1], i)
  }

  /** A row that no line sets keeps its compiled-in counts. */
  lemma {:induction false} LastSetUnset(table: seq<PoolSize>, lines: seq<PoolLine>, i: nat)
    requires i < |table| && forall j :: 0 <= j < |lines| ==> !Sets(table, lines[j], i)
    ensures LastSet(table, lines, i) == table[i]
    decreases |lines|
  {
    if lines != [] {
      var n := |lines| - 1;
      assert forall j :: 0 <= j < n ==> lines[..n][j] == lines[j];
      LastSetUnset(table, lines[..n], i);
    }
  }

  /** A row takes the counts of line `j` when `j` sets it and no later line
      does. */
  lemma {:induction false} LastSetIsLast(table: seq<PoolSize>, lines: seq<PoolLine>, i: nat, j: nat)
    requires i < |table| && j < |lines| && Sets(table, lines[j], i)
    requires forall l :: j < l < |lines| ==> !Sets(table, lines[l], i)
    ensures LastSet(table, lines, i) == SetRow(table[i], lines[j])
    decreases |lines|
  {
    var n := |lines| - 1;
    if j < n {
      assert lines[..n][j] == lines[j];
      assert forall l :: j < l < n ==> lines[..n][l] == lines[l];
      LastSetIsLast(table, lines[..n], i, j);
    }
  }

  /** Tables whose rows carry the same names have the same first match. */
  lemma {:induction false} FirstNamedByNames(a: seq<PoolSize>, b: seq<PoolSize>, name: string,
                                              same: (string, string) -> bool)
    requires |a| == |b| && forall i :: 0 <= i < |a| ==> a[i].name == b[i].name
    ensures FirstNamed(a, name, same) == FirstNamed(b, name, same)
    decreases |a|
  {
    if a != [] && !same(a[0].name, name) {
      FirstNamedByNames(a[1..], b[1..], name, same);
    }
  }

  /** The last line of a file is applied last. */
  lemma {:induction false} ApplyFileLast(table: seq<PoolSize>, lines: seq<PoolLine>)
    requires lines != []
    ensures ApplyFile(table, lines) == ApplyLine(ApplyFile(table, lines[..|lines| - 1]), lines[|lines| - 1])
    decreases |lines|
  {
    var t1 := ApplyLine(table, lines[0]);
    if |lines| > 1 {
      ApplyFileLast(t1, lines[1..]);
      assert lines[..|lines| - 1][1..] == lines[1..][..|lines| - 2];
    }
  }

  /** After the file every row holds the rounded counts of the last line
      that set it, and a row no line sets is unchanged. */
  lemma {:induction false} ApplyFileIsLastSet(table: seq<PoolSize>, lines: seq<PoolLine>, i: nat)
    requires i < |table|
    ensures |ApplyFile(table, lines)| == |table| && ApplyFile(table, lines)[i] == LastSet(table, lines, i)
    decreases |lines|
  {
    ApplyFileAligns(table, lines);
    if lines != [] {
      var n := |lines| - 1;
      var t := ApplyFile(table, lines[..n]);
      ApplyFileIsLastSet(table, lines[..n], i);
      ApplyFileAligns(table, lines[..n]);
      ApplyFileLast(table, lines);
      if lines[n].fields.Some? {
        FirstNamedByNames(t, table, lines[n].fields.value.0, EqualsNoCase);
      }
    }
  }

  /** A count the memory manager can use as it stands. */
  predicate Aligned(n: int) {
    n >= MemBoundAlignment && n % MemBoundAlignment == 0
  }

  /** The file never renames or reorders rows, and any row it changes ends up
      with aligned counts. */
  lemma {:induction false} ApplyFileAligns(table: seq<PoolSize>, lines: seq<PoolLine>)
    ensures var r := ApplyFile(table, lines);
            |r| == |table| &&
            forall i :: 0 <= i < |table| ==>
              r[i].name == table[i].name &&
              (r[i] == table[i] || (Aligned(r[i].initial) && Aligned(r[i].overflow)))
    decreases |lines|
  {
    if lines != [] {
      var t1 := ApplyLine(table, lines[0]);
      ApplyFileAligns(t1, lines[1..]);
      var r := ApplyFile(table, lines);
      assert r == ApplyFile(t1, lines[1..]);
      forall i | 0 <= i < |table|
        ensures r[i].name == table[i].name &&
                (r[i] == table[i] || (Aligned(r[i].initial) && Aligned(r[i].overflow)))
      {
        if t1[i] != table[i] {
          assert Aligned(t1[i].initial) && Aligned(t1[i].overflow);
        }
      }
    }
  }

  /** A table already aligned stays aligned. */
  lemma AlignedTableStaysAligned(table: seq<PoolSize>, lines: seq<PoolLine>)
    requires forall i :: 0 <= i < |table| ==> Aligned(table[i].initial) && Aligned(table[i].overflow)
    ensures var r := ApplyFile(table, lines);
            forall i :: 0 <= i < |r| ==> Aligned(r[i].initial) && Aligned(r[i].overflow)
  {
    ApplyFileAligns(table, lines);
  }
}
