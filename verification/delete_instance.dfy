/** The refactoring script that turns a member call `obj->deleteInstance()` into
    the static call `MemoryPoolObject::deleteInstance(obj)`. One line in, one
    line out; the receiver is found by two backward character scans. */
module DeleteInstance {
  import opened Strings
  import Common

  const Call: string := "deleteInstance()"
  const FriendCall: string := "friend_deleteInstance()"
  /** The replacement text up to the receiver. */
  const StaticOpen: string := "MemoryPoolObject::deleteInstance("
  const StaticThis: string := "MemoryPoolObject::deleteInstance(this)"

  /** Characters the first backward scan skips: the `->` arrow and whitespace. */
  predicate IsArrowOrSpace(c: char) {
    c == '>' || c == '-' || IsPySpace(c)
  }

  /** Characters that end the receiver name on the left. */
  predicate IsNameStop(c: char) {
    IsPySpace(c) || c == '{' || c == '}'
  }

  predicate IsNamePart(c: char) {
    !IsNameStop(c)
  }

  /** Walk left from `i` while the character satisfies `skip`; the result is the
      index of the first character (from the right) that does not, or -1. */
  function ScanBack(line: string, i: int, skip: char -> bool): (j: int)
    requires -1 <= i < |line|
    ensures -1 <= j <= i
    ensures j >= 0 ==> !skip(line[j])
    ensures forall k :: j < k <= i ==> skip(line[k])
    decreases i + 1
  {
    if i < 0 || !skip(line[i]) then i
    else ScanBack(line, i - 1, skip)
  }

  /** The outcome of the receiver scans for a call found at `b`. */
  datatype Receiver = Receiver(begin: nat, end: nat)

  function FindReceiver(line: string, b: nat): (r: Receiver)
    requires b <= |line|
    ensures r.begin <= r.end <= b
    // the receiver is followed only by arrow/space characters up to the call
    ensures forall k :: r.end <= k < b ==> IsArrowOrSpace(line[k])
    ensures r.end > 0 ==> !IsArrowOrSpace(line[r.end - 1])
    // the receiver is a maximal run of non-stop characters
    ensures forall k :: r.begin <= k < r.end ==> !IsNameStop(line[k])
    ensures r.begin < r.end && r.begin > 0 ==> IsNameStop(line[r.begin - 1])
  {
    var e := ScanBack(line, b - 1, IsArrowOrSpace);
    var g := ScanBack(line, e, IsNamePart);
    Receiver(g + 1, e + 1)
  }

  /** The call is preceded by `::` (already a static call) or by `void ` (a declaration). */
  predicate SkippedContext(line: string, b: nat)
    requires b <= |line|
  {
    (b >= 2 && line[b - 2..b] == "::") || (b >= 5 && line[b - 5..b] == "void ")
  }

  /** `modifyLine`. */
  function ModifyLine(line: string): (r: string)
    ensures Contains(line, FriendCall) || !Contains(line, Call) ==> r == line
    ensures var b := Find(line, Call);
            b >= 0 && SkippedContext(line, b) ==> r == line
  {
    if Contains(line, FriendCall) then line
    else
      var b := Find(line, Call);
      if b < 0 then line
      else if SkippedContext(line, b) then line
      else
        var rc := FindReceiver(line, b);
        var name := line[rc.begin..rc.end];
        if |name| > 0 then line[..rc.begin] + StaticOpen + name + ")" + line[b + |Call|..]
        else line[..b] + StaticThis + line[b + |Call|..]
  }

  /** The backward scan stops exactly at `j` when every character in `(j, i]`
      is skipped and the one at `j` (if any) is not. */
  lemma {:induction false} ScanBackStopsAt(line: string, i: int, skip: char -> bool, j: int)
    requires -1 <= j <= i < |line|
    requires forall k :: j < k <= i ==> skip(line[k])
    requires j >= 0 ==> !skip(line[j])
    ensures ScanBack(line, i, skip) == j
    decreases i + 1
  {
    if i != j {
      ScanBackStopsAt(line, i - 1, skip, j);
    }
  }

  /** How `ModifyLine` rewrites once the call and the receiver scans are known. */
  lemma RewriteOnceKnown(line: string, b: nat, rc: Receiver)
    requires !Contains(line, FriendCall)
    requires Find(line, Call) == b && !SkippedContext(line, b)
    requires FindReceiver(line, b) == rc
    ensures rc.begin < rc.end ==>
              ModifyLine(line) == line[..rc.begin] + StaticOpen + line[rc.begin..rc.end] + ")" + line[b + |Call|..]
    ensures rc.begin == rc.end ==> ModifyLine(line) == line[..b] + StaticThis + line[b + |Call|..]
  {
  }

  /** The receiver scans on `pre ++ obj ++ arrow` followed by the call find exactly `obj`. */
  lemma ReceiverFound(line: string, pre: string, obj: string, arrow: string)
    requires pre == [] || IsNameStop(pre[|pre| - 1])
    requires |obj| > 0 && !IsArrowOrSpace(obj[|obj| - 1])
    requires forall k :: 0 <= k < |obj| ==> !IsNameStop(obj[k])
    requires forall k :: 0 <= k < |arrow| ==> IsArrowOrSpace(arrow[k])
    requires pre + obj + arrow <= line
    ensures FindReceiver(line, |pre + obj + arrow|) == Receiver(|pre|, |pre + obj|)
  {
    assert pre + obj <= line by {
      assert pre + obj + arrow == (pre + obj) + arrow;
    }
    ArrowScanStops(line, pre, obj, arrow);
    NameScanStops(line, pre, obj);
  }

  /** The scan over the arrow stops at the receiver's last character. */
  lemma ArrowScanStops(line: string, pre: string, obj: string, arrow: string)
    requires |obj| > 0 && !IsArrowOrSpace(obj[|obj| - 1])
    requires forall k :: 0 <= k < |arrow| ==> IsArrowOrSpace(arrow[k])
    requires pre + obj + arrow <= line
    ensures ScanBack(line, |pre + obj + arrow| - 1, IsArrowOrSpace) == |pre + obj| - 1
  {
    var b := |pre + obj + arrow|;
    var e := |pre + obj|;
    forall k | e <= k < b ensures IsArrowOrSpace(line[k]) {
      assert line[k] == (pre + obj + arrow)[k] == arrow[k - e];
    }
    assert line[e - 1] == (pre + obj + arrow)[e - 1] == obj[|obj| - 1];
    ScanBackStopsAt(line, b - 1, IsArrowOrSpace, e - 1);
  }

  /** The scan over the receiver stops just before it. */
  lemma NameScanStops(line: string, pre: string, obj: string)
    requires pre == [] || IsNameStop(pre[|pre| - 1])
    requires |obj| > 0 && forall k :: 0 <= k < |obj| ==> !IsNameStop(obj[k])
    requires pre + obj <= line
    ensures ScanBack(line, |pre + obj| - 1, IsNamePart) == |pre| - 1
  {
    var e := |pre + obj|;
    forall k | |pre| <= k < e ensures IsNamePart(line[k]) {
      assert line[k] == (pre + obj)[k] == obj[k - |pre|];
    }
    assert |pre| > 0 ==> line[|pre| - 1] == (pre + obj)[|pre| - 1] == pre[|pre| - 1];
    ScanBackStopsAt(line, e - 1, IsNamePart, |pre| - 1);
  }

  /** With only arrows and blanks between a brace (or the line start) and the
      call, the receiver scans find an empty name. */
  lemma NoReceiverFound(line: string, pre: string, blanks: string)
    requires pre == [] || pre[|pre| - 1] == '{' || pre[|pre| - 1] == '}'
    requires forall k :: 0 <= k < |blanks| ==> IsArrowOrSpace(blanks[k])
    requires pre + blanks <= line
    ensures FindReceiver(line, |pre + blanks|) == Receiver(|pre|, |pre|)
  {
    var b := |pre + blanks|;
    assert forall k :: |pre| <= k < b ==> line[k] == blanks[k - |pre|];
    assert |pre| > 0 ==> line[|pre| - 1] == pre[|pre| - 1];
    ScanBackStopsAt(line, b - 1, IsArrowOrSpace, |pre| - 1);
    ScanBackStopsAt(line, |pre| - 1, IsNamePart, |pre| - 1);
  }

  lemma SlicesOfJoin(pre: string, obj: string, arrow: string, post: string, line: string)
    requires line == pre + obj + arrow + Call + post
    ensures line[|pre|..|pre + obj|] == obj
    ensures line[..|pre|] == pre
    ensures line[|pre + obj + arrow| + |Call|..] == post
  {
  }

  /** `obj->deleteInstance()` (any run of `-`, `>` and blanks between receiver and
      call) becomes `MemoryPoolObject::deleteInstance(obj)`; text before the
      receiver and after the call is kept. */
  lemma ReceiverCallRewritten(pre: string, obj: string, arrow: string, post: string)
    requires pre == [] || IsNameStop(pre[|pre| - 1])
    requires |obj| > 0 && !IsArrowOrSpace(obj[|obj| - 1])
    requires forall k :: 0 <= k < |obj| ==> !IsNameStop(obj[k])
    requires forall k :: 0 <= k < |arrow| ==> IsArrowOrSpace(arrow[k])
    requires var line := pre + obj + arrow + Call + post;
             !Contains(line, FriendCall) &&
             (forall j :: 0 <= j < |pre + obj + arrow| ==> !OccursAt(line, Call, j)) &&
             !SkippedContext(line, |pre + obj + arrow|)
    ensures ModifyLine(pre + obj + arrow + Call + post) == pre + StaticOpen + obj + ")" + post
  {
    var line := pre + obj + arrow + Call + post;
    var b := |pre + obj + arrow|;
    assert line[b..b + |Call|] == Call;
    FindIsFirst(line, Call, b);
    assert pre + obj + arrow <= line;
    ReceiverFound(line, pre, obj, arrow);
    RewriteOnceKnown(line, b, Receiver(|pre|, |pre + obj|));
    SlicesOfJoin(pre, obj, arrow, post, line);
  }

  /** With nothing but blanks (and arrows) between the call and an opening brace or
      the start of the line, only the call is replaced, by the `this` form. */
  lemma BareCallRewritten(pre: string, blanks: string, post: string)
    requires pre == [] || pre[|pre| - 1] == '{' || pre[|pre| - 1] == '}'
    requires forall k :: 0 <= k < |blanks| ==> IsArrowOrSpace(blanks[k])
    requires var line := pre + blanks + Call + post;
             !Contains(line, FriendCall) &&
             (forall j :: 0 <= j < |pre + blanks| ==> !OccursAt(line, Call, j)) &&
             !SkippedContext(line, |pre + blanks|)
    ensures ModifyLine(pre + blanks + Call + post) == pre + blanks + StaticThis + post
  {
    var line := pre + blanks + Call + post;
    var b := |pre + blanks|;
    assert line[b..b + |Call|] == Call;
    FindIsFirst(line, Call, b);
    assert pre + blanks <= line;
    NoReceiverFound(line, pre, blanks);
    RewriteOnceKnown(line, b, Receiver(|pre|, |pre|));
    assert line[..b] == pre + blanks;
    assert line[b + |Call|..] == post;
  }

  /** No window of `out` that copies a window of `line` other than the call can be the call. */
  lemma CopiedWindowIsNotCall(out: string, p: int, line: string, q: int, b: int)
    requires 0 <= p && p + |Call| <= |out| && 0 <= q && q + |Call| <= |line| && q != b
    requires out[p..p + |Call|] == line[q..q + |Call|]
    requires forall j :: 0 <= j && j != b ==> !OccursAt(line, Call, j)
    ensures !OccursAt(out, Call, p)
  {
    assert !OccursAt(line, Call, q);
  }

  /** A window with one character off the pattern is not an occurrence. */
  lemma MismatchAt(s: string, pat: string, p: int, k: int, c: char)
    requires 0 <= p && 0 <= k < |pat| && p + |pat| <= |s| && s[p + k] == c && pat[k] != c
    ensures !OccursAt(s, pat, p)
  {
    assert s[p..p + |pat|][k] == s[p + k];
  }

  /** The replacement texts hold `d`, the first letter of the call, only where
      their own `deleteInstance` starts, and the call has no `M`. */
  lemma ReplacementLetters(i: int, k: int)
    requires 0 <= i < |StaticThis| && i != 18 && 0 <= k < |Call|
    ensures StaticThis[i] != 'd' && Call[0] == 'd' && Call[k] != 'M' && StaticThis[0] == 'M'
    ensures StaticThis[33] == 't' && Call[15] == ')'
    ensures i < |StaticOpen| ==> StaticOpen[i] == StaticThis[i]
  {
  }

  /** The text `ModifyLine` produces for a receiver `line[ob..oe]` and a call at `b`. */
  function ReceiverRewrite(line: string, b: nat, ob: nat, oe: nat): string
    requires ob <= oe <= b && b + |Call| <= |line|
  {
    line[..ob] + StaticOpen + line[ob..oe] + ")" + line[b + |Call|..]
  }

  /** A window starting in the copied receiver and running past it: it meets
      the closing `)` too early, or its first fifteen characters are the
      receiver's last fifteen, which are not `deleteInstance(`. */
  lemma NameWindowMeetsEnd(line: string, b: nat, ob: nat, oe: nat, p: nat)
    requires ob < oe <= b && b + |Call| <= |line|
    requires !OccursAt(line, Call[..15], oe - 15)
    requires ob + |StaticOpen| <= p < ob + |StaticOpen| + (oe - ob) < p + |Call|
    requires p + |Call| <= |ReceiverRewrite(line, b, ob, oe)|
    ensures !OccursAt(ReceiverRewrite(line, b, ob, oe), Call, p)
  {
    var out := ReceiverRewrite(line, b, ob, oe);
    var nEnd := ob + |StaticOpen| + (oe - ob);
    if nEnd - p < 15 {
      assert out[nEnd] == ')';
      MismatchAt(out, Call, p, nEnd - p, ')');
    } else {
      assert out[p..p + 15] == line[oe - 15..oe];
      assert out[p..p + |Call|][..15] != Call[..15];
    }
  }

  /** A window of the rewrite that starts inside the copied prefix. */
  lemma NoCallStartingInPrefix(line: string, b: nat, ob: nat, oe: nat, p: nat)
    requires ob < oe <= b && b + |Call| <= |line|
    requires forall j :: 0 <= j && j != b ==> !OccursAt(line, Call, j)
    requires p < ob
    ensures !OccursAt(ReceiverRewrite(line, b, ob, oe), Call, p)
  {
    var out := ReceiverRewrite(line, b, ob, oe);
    if p + |Call| <= ob {
      assert out[p..p + |Call|] == line[p..p + |Call|];
      CopiedWindowIsNotCall(out, p, line, p, b);
    } else if p + |Call| <= |out| {
      ReceiverRewriteAt(line, b, ob, oe, ob);
      ReplacementLetters(0, ob - p);
      MismatchAt(out, Call, p, ob - p, 'M');
    }
  }

  /** The replacement text sits where the receiver began, and the receiver's
      first character follows it. */
  lemma ReceiverRewriteAt(line: string, b: nat, ob: nat, oe: nat, j: nat)
    requires ob < oe <= b && b + |Call| <= |line| && ob <= j < ob + |StaticOpen|
    ensures ReceiverRewrite(line, b, ob, oe)[j] == StaticOpen[j - ob]
    ensures ReceiverRewrite(line, b, ob, oe)[ob + |StaticOpen|] == line[ob]
  {
    assert |line[..ob]| == ob;
  }

  /** A window starting inside the replacement text anywhere but at its own
      `deleteInstance(` does not start with `d`. */
  lemma OpenWindowStartsOff(line: string, b: nat, ob: nat, oe: nat, p: nat)
    requires ob < oe <= b && b + |Call| <= |line|
    requires ob <= p < ob + |StaticOpen| && p != ob + 18
    requires p + |Call| <= |ReceiverRewrite(line, b, ob, oe)|
    ensures !OccursAt(ReceiverRewrite(line, b, ob, oe), Call, p)
  {
    ReceiverRewriteAt(line, b, ob, oe, p);
    OpenLetterNotD(p - ob);
    MismatchAt(ReceiverRewrite(line, b, ob, oe), Call, p, 0, StaticOpen[p - ob]);
  }

  /** The only `d` of `MemoryPoolObject::deleteInstance(` that begins the call
      is the one at 18. */
  lemma OpenLetterNotD(i: int)
    requires 0 <= i < |StaticOpen| && i != 18
    ensures StaticOpen[i] != Call[0]
  {
    ReplacementLetters(i, 0);
  }

  /** A window of the rewrite that starts inside `MemoryPoolObject::deleteInstance(`;
      only the one at its `deleteInstance(` can match, when the receiver starts with `)`. */
  lemma NoCallStartingInStaticOpen(line: string, b: nat, ob: nat, oe: nat, p: nat)
    requires ob < oe <= b && b + |Call| <= |line|
    requires line[ob] != ')' || p != ob + 18
    requires ob <= p < ob + |StaticOpen|
    ensures !OccursAt(ReceiverRewrite(line, b, ob, oe), Call, p)
  {
    if p + |Call| <= |ReceiverRewrite(line, b, ob, oe)| {
      if p != ob + 18 {
        OpenWindowStartsOff(line, b, ob, oe, p);
      } else {
        ReceiverRewriteAt(line, b, ob, oe, p);
        ReplacementLetters(0, 0);
        MismatchAt(ReceiverRewrite(line, b, ob, oe), Call, p, 15, line[ob]);
      }
    }
  }

  /** A window lying wholly inside the copied receiver is the same window of the line. */
  lemma NameWindowCopied(line: string, b: nat, ob: nat, oe: nat, p: nat)
    requires ob < oe <= b && b + |Call| <= |line|
    requires ob + |StaticOpen| <= p && p + |Call| <= ob + |StaticOpen| + (oe - ob)
    ensures var out := ReceiverRewrite(line, b, ob, oe);
      out[p..p + |Call|] == line[p - |StaticOpen|..p - |StaticOpen| + |Call|]
  {
    var pre := line[..ob] + StaticOpen;
    var name := line[ob..oe];
    var rest := ")" + line[b + |Call|..];
    assert |pre| == ob + |StaticOpen|;
    assert ReceiverRewrite(line, b, ob, oe) == pre + name + rest;
    Common.MiddleWindow(pre, name, rest, p, p + |Call|);
    Common.SliceOfSlice(line, ob, oe, p - |pre|, p - |pre| + |Call|);
  }

  /** A window of the rewrite that starts inside the copied receiver name. */
  lemma NoCallStartingInName(line: string, b: nat, ob: nat, oe: nat, p: nat)
    requires ob < oe <= b && b + |Call| <= |line|
    requires forall j :: 0 <= j && j != b ==> !OccursAt(line, Call, j)
    requires !OccursAt(line, Call[..15], oe - 15)
    requires ob + |StaticOpen| <= p < ob + |StaticOpen| + (oe - ob)
    ensures !OccursAt(ReceiverRewrite(line, b, ob, oe), Call, p)
  {
    var out := ReceiverRewrite(line, b, ob, oe);
    var nEnd := ob + |StaticOpen| + (oe - ob);
    var d := |StaticOpen|;
    if p + |Call| <= nEnd {
      NameWindowCopied(line, b, ob, oe, p);
      CopiedWindowIsNotCall(out, p, line, p - d, b);
    } else if p + |Call| <= |out| {
      NameWindowMeetsEnd(line, b, ob, oe, p);
    }
  }

  /** A window of the rewrite that starts at the closing parenthesis or in the copied rest. */
  lemma NoCallStartingInRest(line: string, b: nat, ob: nat, oe: nat, p: nat)
    requires ob < oe <= b && b + |Call| <= |line|
    requires forall j :: 0 <= j && j != b ==> !OccursAt(line, Call, j)
    requires ob + |StaticOpen| + (oe - ob) <= p
    ensures !OccursAt(ReceiverRewrite(line, b, ob, oe), Call, p)
  {
    var out := ReceiverRewrite(line, b, ob, oe);
    var nEnd := ob + |StaticOpen| + (oe - ob);
    if p + |Call| <= |out| {
      if p == nEnd {
        assert out[p] == ')';
        assert out[p..p + |Call|][0] != Call[0];
      } else {
        var q := p - (nEnd + 1) + b + |Call|;
        assert out[p..p + |Call|] == line[q..q + |Call|];
        CopiedWindowIsNotCall(out, p, line, q, b);
      }
    }
  }

  /** After a rewrite with a receiver the output holds no `deleteInstance()`,
      provided the receiver does not start with `)` and does not end with
      `deleteInstance(`. */
  lemma NoCallAfterReceiverRewrite(line: string, b: nat, ob: nat, oe: nat)
    requires ob < oe <= b && b + |Call| <= |line|
    requires forall j :: 0 <= j && j != b ==> !OccursAt(line, Call, j)
    requires line[ob] != ')'
    requires !OccursAt(line, Call[..15], oe - 15)
    ensures !Contains(ReceiverRewrite(line, b, ob, oe), Call)
  {
    var out := ReceiverRewrite(line, b, ob, oe);
    forall p: nat
      ensures !OccursAt(out, Call, p)
    {
      if p < ob {
        NoCallStartingInPrefix(line, b, ob, oe, p);
      } else if p < ob + |StaticOpen| {
        NoCallStartingInStaticOpen(line, b, ob, oe, p);
      } else if p < ob + |StaticOpen| + (oe - ob) {
        NoCallStartingInName(line, b, ob, oe, p);
      } else {
        NoCallStartingInRest(line, b, ob, oe, p);
      }
    }
  }

  /** The text `ModifyLine` produces for a call at `b` with no receiver. */
  function ThisRewrite(line: string, b: nat): string
    requires b + |Call| <= |line|
  {
    line[..b] + StaticThis + line[b + |Call|..]
  }

  /** After a rewrite to the `this` form the output holds no `deleteInstance()`. */
  lemma NoCallAfterThisRewrite(line: string, b: nat)
    requires b + |Call| <= |line|
    requires forall j :: 0 <= j && j != b ==> !OccursAt(line, Call, j)
    ensures !Contains(ThisRewrite(line, b), Call)
  {
    forall p: nat | p + |Call| <= |ThisRewrite(line, b)|
      ensures !OccursAt(ThisRewrite(line, b), Call, p)
    {
      NoCallAtInThisRewrite(line, b, p);
    }
  }

  /** The replacement text sits at the call's place. */
  lemma ThisRewriteAt(line: string, b: nat, j: nat)
    requires b + |Call| <= |line| && b <= j < b + |StaticThis|
    ensures ThisRewrite(line, b)[j] == StaticThis[j - b]
  {
    assert |line[..b]| == b;
  }

  /** One window of the `this` rewrite: before the replacement it copies the
      line, across its start it meets the `M`, inside it the only `d` is at
      `deleteInstance(this)`, which `this` ends early, and after it the line's
      tail is copied. */
  lemma NoCallAtInThisRewrite(line: string, b: nat, p: nat)
    requires b + |Call| <= |line|
    requires forall j :: 0 <= j && j != b ==> !OccursAt(line, Call, j)
    requires p + |Call| <= |ThisRewrite(line, b)|
    ensures !OccursAt(ThisRewrite(line, b), Call, p)
  {
    var out := ThisRewrite(line, b);
    var t := |StaticThis|;
    if p + |Call| <= b {
      assert out[p..p + |Call|] == line[p..p + |Call|];
      CopiedWindowIsNotCall(out, p, line, p, b);
    } else if p < b + t {
      ThisWindowInside(line, b, p);
    } else {
      var q := p - t + |Call|;
      assert out[p..p + |Call|] == line[q..q + |Call|];
      CopiedWindowIsNotCall(out, p, line, q, b);
    }
  }

  /** A window of the `this` rewrite that meets the replacement text. */
  lemma ThisWindowInside(line: string, b: nat, p: nat)
    requires b + |Call| <= |line|
    requires p + |Call| <= |ThisRewrite(line, b)| && b < p + |Call| && p < b + |StaticThis|
    ensures !OccursAt(ThisRewrite(line, b), Call, p)
  {
    var out := ThisRewrite(line, b);
    if p < b {
      ThisRewriteAt(line, b, b);
      ReplacementLetters(0, b - p);
      MismatchAt(out, Call, p, b - p, 'M');
    } else if p != b + 18 {
      ThisRewriteAt(line, b, p);
      ReplacementLetters(p - b, 0);
      MismatchAt(out, Call, p, 0, StaticThis[p - b]);
    } else {
      ThisRewriteAt(line, b, p + 15);
      ReplacementLetters(0, 0);
      MismatchAt(out, Call, p, 15, 't');
    }
  }

  /** When the receiver starts with `)`, the rewrite's first call is the one inside
      `MemoryPoolObject::deleteInstance(`, which the `::` rule then leaves alone. */
  lemma ParenReceiverRewriteIsSkipped(line: string, b: nat, ob: nat, oe: nat)
    requires ob < oe <= b && b + |Call| <= |line|
    requires forall j :: 0 <= j && j != b ==> !OccursAt(line, Call, j)
    requires line[ob] == ')'
    ensures var out := ReceiverRewrite(line, b, ob, oe);
            Find(out, Call) == ob + 18 && SkippedContext(out, ob + 18)
  {
    var out := ReceiverRewrite(line, b, ob, oe);
    forall p: nat | p < ob + 18
      ensures !OccursAt(out, Call, p)
    {
      if p < ob {
        NoCallStartingInPrefix(line, b, ob, oe, p);
      } else {
        NoCallStartingInStaticOpen(line, b, ob, oe, p);
      }
    }
    CallInsideStaticOpen(line, b, ob, oe);
    FindIsFirst(out, Call, ob + 18);
  }

  /** With a receiver starting with `)`, the rewrite holds `::` and then the
      call itself, 16 characters into the inserted text. */
  lemma CallInsideStaticOpen(line: string, b: nat, ob: nat, oe: nat)
    requires ob < oe <= b && b + |Call| <= |line|
    requires line[ob] == ')'
    ensures var out := ReceiverRewrite(line, b, ob, oe);
            out[ob + 18..ob + 34] == Call && out[ob + 16..ob + 18] == "::"
  {
    var out := ReceiverRewrite(line, b, ob, oe);
    assert out[ob + 18..ob + 34] == Call by {
      forall k | 0 <= k < 16
        ensures out[ob + 18..ob + 34][k] == Call[k]
      {
        OpenHoldsCall(line, b, ob, oe, k);
      }
    }
    assert out[ob + 16..ob + 18] == "::" by {
      ReceiverRewriteAt(line, b, ob, oe, ob + 16);
      ReceiverRewriteAt(line, b, ob, oe, ob + 17);
    }
  }

  /** `MemoryPoolObject::deleteInstance(` holds the call but its `)` from
      index 18 on, and a receiver starting with `)` supplies that. */
  lemma OpenHoldsCall(line: string, b: nat, ob: nat, oe: nat, k: int)
    requires ob < oe <= b && b + |Call| <= |line|
    requires line[ob] == ')' && 0 <= k < 16
    ensures ReceiverRewrite(line, b, ob, oe)[ob + 18 + k] == Call[k]
  {
    if k < 15 {
      ReceiverRewriteAt(line, b, ob, oe, ob + 18 + k);
      assert StaticOpen[18 + k] == Call[k];
    } else {
      ReceiverRewriteAt(line, b, ob, oe, ob);
    }
  }

  /** Running the script twice is running it once, for a line with a single
      `deleteInstance()` whose receiver does not end in `deleteInstance(`. */
  lemma RewriteIsFinal(line: string)
    requires !Contains(line, FriendCall)
    requires Find(line, Call) >= 0
    requires forall j :: 0 <= j && j != Find(line, Call) ==> !OccursAt(line, Call, j)
    requires var rc := FindReceiver(line, Find(line, Call));
             rc.begin < rc.end ==> !OccursAt(line, Call[..15], rc.end - 15)
    ensures ModifyLine(ModifyLine(line)) == ModifyLine(line)
  {
    var b := Find(line, Call);
    if !SkippedContext(line, b) {
      var rc := FindReceiver(line, b);
      RewriteOnceKnown(line, b, rc);
      if rc.begin < rc.end {
        assert ModifyLine(line) == ReceiverRewrite(line, b, rc.begin, rc.end);
        ReceiverOutputFixed(line, b, rc.begin, rc.end);
      } else {
        assert ModifyLine(line) == ThisRewrite(line, b);
        ThisOutputFixed(line, b);
      }
    }
  }

  /** The receiver rewrite of a line with one call is left alone by a second run. */
  lemma ReceiverOutputFixed(line: string, b: nat, ob: nat, oe: nat)
    requires ob < oe <= b && b + |Call| <= |line|
    requires forall j :: 0 <= j && j != b ==> !OccursAt(line, Call, j)
    requires !OccursAt(line, Call[..15], oe - 15)
    ensures ModifyLine(ReceiverRewrite(line, b, ob, oe)) == ReceiverRewrite(line, b, ob, oe)
  {
    if line[ob] != ')' {
      NoCallAfterReceiverRewrite(line, b, ob, oe);
    } else {
      ParenReceiverRewriteIsSkipped(line, b, ob, oe);
    }
    OutputIsFixed(ReceiverRewrite(line, b, ob, oe));
  }

  /** The `this` rewrite of a line with one call is left alone by a second run. */
  lemma ThisOutputFixed(line: string, b: nat)
    requires b + |Call| <= |line|
    requires forall j :: 0 <= j && j != b ==> !OccursAt(line, Call, j)
    ensures ModifyLine(ThisRewrite(line, b)) == ThisRewrite(line, b)
  {
    NoCallAfterThisRewrite(line, b);
    OutputIsFixed(ThisRewrite(line, b));
  }

  /** A line without the call, or whose first call is in a skipped context,
      is left alone. */
  lemma OutputIsFixed(out: string)
    requires !Contains(out, Call) || (Find(out, Call) >= 0 && SkippedContext(out, Find(out, Call)))
    ensures ModifyLine(out) == out
  {
  }
}
