/** The game's message plumbing: a `GameMessage` with its typed argument list,
    the doubly linked `GameMessageList`, and the `MessageStream`'s list of
    translators kept in priority order. The linked lists are sequences in
    list order; a pointer to a member of a list is its index. */
module MessageStream {
  import opened Common

  /** The argument kinds a message can carry; `Unknown` is the answer for an
      argument that does not exist. */
  datatype ArgType =
    | Integer | Real | Boolean | ObjectId | DrawableId | TeamId
    | Location | Pixel | PixelRegion | Timestamp | WideChar | Unknown

  /** A message: its type, its argument types in order (the count is the
      length), and the list that holds it (`None` for none). */
  datatype Message = Message(ty: int, args: seq<ArgType>, owner: Option<nat>)

  /** A fresh message of the given type: no arguments, on no list. */
  function NewMessage(ty: int): (m: Message)
    ensures m.ty == ty && |m.args| == 0 && m.owner.None?
  {
    Message(ty, [], None)
  }

  /** `allocArg` followed by the type store of one of the `append*Argument`
      members: the argument goes at the tail and the count grows by one. */
  function AppendArgument(m: Message, t: ArgType): (r: Message)
    ensures |r.args| == |m.args| + 1
    ensures r.args[..|m.args|] == m.args && r.args[|m.args|] == t
    ensures r.ty == m.ty && r.owner == m.owner
  {
    m.(args := m.args + [t])
  }

  /** `getArgumentDataType(argIndex)`: `Unknown` for an index at or past the
      count; otherwise the walk stops after `argIndex` steps, so a negative
      index reads the first argument. */
  function ArgumentDataType(m: Message, argIndex: int): (r: ArgType)
    ensures argIndex >= |m.args| ==> r == Unknown
    ensures 0 <= argIndex < |m.args| ==> r == m.args[argIndex]
    ensures argIndex < 0 && |m.args| > 0 ==> r == m.args[0]
    ensures argIndex < 0 && |m.args| == 0 ==> r == Unknown
  {
    if argIndex >= |m.args| then Unknown
    else if argIndex < 0 then (if |m.args| > 0 then m.args[0] else Unknown)
    else m.args[argIndex]
  }

  /** Each argument appended is read back at its position, and the ones before
      it keep their types. */
  lemma ArgumentRoundTrip(m: Message, t: ArgType, i: int)
    requires 0 <= i <= |m.args|
    ensures ArgumentDataType(AppendArgument(m, t), i) == (if i == |m.args| then t else ArgumentDataType(m, i))
  {
  }

  // ---------------------------------------------------------------------------
  // GameMessageList

  /** A message list: its identity (what a message's `owner` refers to) and its
      messages from first to last. */
  datatype MessageList = MessageList(id: nat, msgs: seq<Message>)

  /** Every message on the list records the list as its owner. */
  predicate OwnsAll(l: MessageList) {
    forall i :: 0 <= i < |l.msgs| ==> l.msgs[i].owner == Some(l.id)
  }

  /** `appendMessage`: the message becomes the last one and records the list. */
  function AppendMessage(l: MessageList, m: Message): (r: MessageList)
    ensures r.id == l.id && |r.msgs| == |l.msgs| + 1
    ensures r.msgs[..|l.msgs|] == l.msgs
    ensures r.msgs[|l.msgs|] == m.(owner := Some(l.id))
    ensures OwnsAll(l) ==> OwnsAll(r)
  {
    var r := MessageList(l.id, l.msgs + [m.(owner := Some(l.id))]);
    assert forall i :: 0 <= i < |l.msgs| ==> r.msgs[i] == l.msgs[i];
    r
  }

  /** `insertMessage(msg, after)`: the message goes right after the one at
      `after`, which the caller guarantees is on the list. */
  function InsertMessage(l: MessageList, m: Message, after: nat): (r: MessageList)
    requires after < |l.msgs|
    ensures r.id == l.id && |r.msgs| == |l.msgs| + 1
    ensures r.msgs[..after + 1] == l.msgs[..after + 1]
    ensures r.msgs[after + 1] == m.(owner := Some(l.id))
    ensures r.msgs[after + 2..] == l.msgs[after + 1..]
    ensures (after + 1 == |r.msgs| - 1) <==> (after == |l.msgs| - 1)
  {
    MessageList(l.id, l.msgs[..after + 1] + [m.(owner := Some(l.id))] + l.msgs[after + 1..])
  }

  /** `removeMessage(msg)` for the message at index `i` of the list: it is
      unlinked, the others keep their order, and it is returned with its owner
      cleared. */
  function RemoveMessage(l: MessageList, i: nat): (r: (MessageList, Message))
    requires i < |l.msgs|
    ensures r.0.id == l.id && |r.0.msgs| == |l.msgs| - 1
    ensures r.0.msgs[..i] == l.msgs[..i] && r.0.msgs[i..] == l.msgs[i + 1..]
    ensures r.1 == l.msgs[i].(owner := None)
  {
    (MessageList(l.id, l.msgs[..i] + l.msgs[i + 1..]), l.msgs[i].(owner := None))
  }

  /** Removing what was just appended gives the list back. */
  lemma RemoveUndoesAppend(l: MessageList, m: Message)
    ensures RemoveMessage(AppendMessage(l, m), |l.msgs|).0 == l
  {
  }

  /** Removing what was just inserted gives the list back. */
  lemma RemoveUndoesInsert(l: MessageList, m: Message, after: nat)
    requires after < |l.msgs|
    ensures RemoveMessage(InsertMessage(l, m, after), after + 1).0 == l
  {
    var r := InsertMessage(l, m, after).msgs;
    assert r[..after + 1] + r[after + 2..] == l.msgs[..after + 1] + l.msgs[after + 1..];
    assert l.msgs[..after + 1] + l.msgs[after + 1..] == l.msgs;
  }

  /** `containsMessageOfType`: walk the list from the first message and stop at
      the first one of that type. */
  method ContainsMessageOfType(l: MessageList, ty: int) returns (found: bool)
    ensures found <==> exists i :: 0 <= i < |l.msgs| && l.msgs[i].ty == ty
  {
    var k := 0;
    while k < |l.msgs|
      invariant 0 <= k <= |l.msgs|
      invariant forall i :: 0 <= i < k ==> l.msgs[i].ty != ty
    {
      if l.msgs[k].ty == ty {
        return true;
      }
      k := k + 1;
    }
    return false;
  }

  // ---------------------------------------------------------------------------
  // MessageStream translators

  /** An attached translator: the translator itself (an opaque handle), its
      priority and the id handed out for it. */
  datatype TranslatorData = TranslatorData(translator: nat, priority: nat, id: nat)

  /** The stream's translator list, first to last, and the next id to hand
      out. */
  datatype Stream = Stream(translators: seq<TranslatorData>, nextId: nat)

  /** The constructor: no translators, ids start at 1. */
  const EmptyStream := Stream([], 1)

  /** Translators are in non-decreasing priority order. */
  predicate SortedByPriority(ts: seq<TranslatorData>) {
    forall i, j :: 0 <= i < j < |ts| ==> ts[i].priority <= ts[j].priority
  }

  /** Every id on the list was handed out before `nextId`, and no two are
      equal. */
  predicate IdsFresh(st: Stream) {
    st.nextId >= 1 &&
    (forall i :: 0 <= i < |st.translators| ==> 1 <= st.translators[i].id < st.nextId) &&
    (forall i, j :: 0 <= i < j < |st.translators| ==> st.translators[i].id != st.translators[j].id)
  }

  /** The invariant `attachTranslator` and `removeTranslator` keep. */
  predicate Valid(st: Stream) {
    SortedByPriority(st.translators) && IdsFresh(st)
  }

  lemma EmptyStreamValid()
    ensures Valid(EmptyStream)
  {
  }

  /** Where the search in `attachTranslator` stops: the first entry with a
      strictly greater priority, or the end. */
  function InsertPos(ts: seq<TranslatorData>, priority: nat): (k: nat)
    ensures k <= |ts|
    ensures forall i :: 0 <= i < k ==> ts[i].priority <= priority
    ensures k < |ts| ==> ts[k].priority > priority
  {
    if ts == [] || ts[0].priority > priority then 0
    else 1 + InsertPos(ts[1..], priority)
  }

  /** `attachTranslator(translator, priority)`: the new entry goes just before
      the first entry of strictly greater priority, so among equal priorities
      the order of attaching is kept. Returns the new stream and the id. */
  function AttachTranslator(st: Stream, translator: nat, priority: nat): (r: (Stream, nat))
    ensures r.1 == st.nextId && r.0.nextId == st.nextId + 1
    ensures var k := InsertPos(st.translators, priority);
            r.0.translators == st.translators[..k] + [TranslatorData(translator, priority, r.1)] + st.translators[k..]
  {
    var k := InsertPos(st.translators, priority);
    var e := TranslatorData(translator, priority, st.nextId);
    (Stream(st.translators[..k] + [e] + st.translators[k..], st.nextId + 1), st.nextId)
  }

  /** Position by position, inserting `e` at `k`. */
  lemma InsertShape(ts: seq<TranslatorData>, k: nat, e: TranslatorData)
    requires k <= |ts|
    ensures var r := ts[..k] + [e] + ts[k..];
            |r| == |ts| + 1 &&
            (forall i :: 0 <= i < k ==> r[i] == ts[i]) && r[k] == e &&
            (forall i :: k < i < |r| ==> r[i] == ts[i - 1])
  {
  }

  /** Attaching keeps the list sorted. */
  lemma AttachKeepsSorted(st: Stream, translator: nat, priority: nat)
    requires SortedByPriority(st.translators)
    ensures SortedByPriority(AttachTranslator(st, translator, priority).0.translators)
  {
    var ts := st.translators;
    var k := InsertPos(ts, priority);
    var e := TranslatorData(translator, priority, st.nextId);
    InsertShape(ts, k, e);
    var r := ts[..k] + [e] + ts[k..];
    forall i, j | 0 <= i < j < |r| ensures r[i].priority <= r[j].priority {
      if j < k {
        assert r[i] == ts[i] && r[j] == ts[j];
      } else if i > k {
        assert r[i] == ts[i - 1] && r[j] == ts[j - 1];
      } else if i == k {
        assert r[j] == ts[j - 1];
      } else if j == k {
        assert r[i] == ts[i];
      } else {
        assert r[i] == ts[i] && r[j] == ts[j - 1];
      }
    }
  }

  /** Attaching hands out a fresh id, so ids stay distinct. */
  lemma AttachKeepsIdsFresh(st: Stream, translator: nat, priority: nat)
    requires IdsFresh(st)
    ensures IdsFresh(AttachTranslator(st, translator, priority).0)
  {
    var ts := st.translators;
    var k := InsertPos(ts, priority);
    var e := TranslatorData(translator, priority, st.nextId);
    InsertShape(ts, k, e);
    var r := ts[..k] + [e] + ts[k..];
    forall i | 0 <= i < |r| ensures 1 <= r[i].id < st.nextId + 1 {
      if i < k { assert r[i] == ts[i]; } else if i > k { assert r[i] == ts[i - 1]; }
    }
    forall i, j | 0 <= i < j < |r| ensures r[i].id != r[j].id {
      if j < k {
        assert r[i] == ts[i] && r[j] == ts[j];
      } else if i > k {
        assert r[i] == ts[i - 1] && r[j] == ts[j - 1];
      } else if i == k {
        assert r[j] == ts[j - 1];
      } else if j == k {
        assert r[i] == ts[i];
      } else {
        assert r[i] == ts[i] && r[j] == ts[j - 1];
      }
    }
  }

  /** Attaching keeps the stream valid. */
  lemma AttachKeepsValid(st: Stream, translator: nat, priority: nat)
    requires Valid(st)
    ensures Valid(AttachTranslator(st, translator, priority).0)
  {
    AttachKeepsSorted(st, translator, priority);
    AttachKeepsIdsFresh(st, translator, priority);
  }

  /** Equal priorities keep attach order: an entry attached with the same
      priority as one already present lands after it. */
  lemma AttachAfterEqualPriority(st: Stream, translator: nat, priority: nat, i: nat)
    requires SortedByPriority(st.translators)
    requires i < |st.translators| && st.translators[i].priority == priority
    ensures i < InsertPos(st.translators, priority)
  {
  }

  /** `findTranslator(id)`: the translator of the first entry with that id,
      or `None` (NULL). */
  function FindTranslator(ts: seq<TranslatorData>, id: nat): (r: Option<nat>)
    ensures r.None? <==> forall i :: 0 <= i < |ts| ==> ts[i].id != id
    ensures r.Some? ==> exists i :: 0 <= i < |ts| && ts[i].id == id && ts[i].translator == r.value
  {
    if ts == [] then None
    else if ts[0].id == id then Some(ts[0].translator)
    else
      var r := FindTranslator(ts[1..], id);
      assert forall i :: 1 <= i < |ts| ==> ts[i] == ts[1..][i - 1];
      r
  }

  /** `removeTranslator(id)`: unlink the first entry with that id; nothing
      happens when there is none. At most one entry goes. */
  function RemoveTranslator(ts: seq<TranslatorData>, id: nat): (r: seq<TranslatorData>)
    ensures |r| == |ts| || |r| == |ts| - 1
  {
    if ts == [] then []
    else if ts[0].id == id then ts[1..]
    else [ts[0]] + RemoveTranslator(ts[1..], id)
  }

  /** With no entry carrying the id, the list is left as it is. */
  lemma {:induction false} RemoveAbsent(ts: seq<TranslatorData>, id: nat)
    requires forall i :: 0 <= i < |ts| ==> ts[i].id != id
    ensures RemoveTranslator(ts, id) == ts
  {
    if ts != [] {
      assert forall i :: 0 <= i < |ts| - 1 ==> ts[1..][i] == ts[i + 1];
      RemoveAbsent(ts[1..], id);
      assert ts == [ts[0]] + ts[1..];
    }
  }

  /** Removal keeps the others in order: the result is a subsequence that
      drops exactly the first entry with the id. */
  lemma {:induction false} RemoveTranslatorSplits(ts: seq<TranslatorData>, id: nat, k: nat)
    requires k < |ts| && ts[k].id == id
    requires forall i :: 0 <= i < k ==> ts[i].id != id
    ensures RemoveTranslator(ts, id) == ts[..k] + ts[k + 1..]
  {
    if k > 0 {
      RemoveTranslatorSplits(ts[1..], id, k - 1);
      assert ts[1..][..k - 1] == ts[1..k];
      assert ts[1..][k..] == ts[k + 1..];
      assert [ts[0]] + ts[1..k] == ts[..k];
    }
  }

  /** Removing a translator keeps the stream valid: what is left is the list
      with one entry taken out. */
  lemma RemoveKeepsValid(st: Stream, id: nat)
    requires Valid(st)
    ensures Valid(Stream(RemoveTranslator(st.translators, id), st.nextId))
  {
    var ts := st.translators;
    if k :| 0 <= k < |ts| && ts[k].id == id {
      forall i | 0 <= i < |ts| && i != k ensures ts[i].id != id {
        if i < k { assert ts[i].id != ts[k].id; } else { assert ts[k].id != ts[i].id; }
      }
      RemoveTranslatorSplits(ts, id, k);
      DropKeepsValid(st, k);
    } else {
      RemoveAbsent(ts, id);
    }
  }

  /** Taking any one entry out of a valid stream's list leaves it valid. */
  lemma DropKeepsValid(st: Stream, k: nat)
    requires Valid(st) && k < |st.translators|
    ensures Valid(Stream(st.translators[..k] + st.translators[k + 1..], st.nextId))
  {
    var ts := st.translators;
    var r := ts[..k] + ts[k + 1..];
    assert forall i :: 0 <= i < |r| ==> r[i] == ts[if i < k then i else i + 1];
    forall i, j | 0 <= i < j < |r|
      ensures r[i].priority <= r[j].priority && r[i].id != r[j].id
    {
      var i', j' := if i < k then i else i + 1, if j < k then j else j + 1;
      assert r[i] == ts[i'] && r[j] == ts[j'] && i' < j';
    }
  }

  /** After removing an id from a valid stream, it is no longer found. */
  lemma FindAfterRemove(st: Stream, id: nat)
    requires Valid(st)
    ensures FindTranslator(RemoveTranslator(st.translators, id), id).None?
  {
    var ts := st.translators;
    if k :| 0 <= k < |ts| && ts[k].id == id {
      forall i | 0 <= i < |ts| && i != k ensures ts[i].id != id {
        if i < k { assert ts[i].id != ts[k].id; } else { assert ts[k].id != ts[i].id; }
      }
      RemoveTranslatorSplits(ts, id, k);
      var r := ts[..k] + ts[k + 1..];
      forall i | 0 <= i < |r| ensures r[i].id != id {
        assert r[i] == ts[if i < k then i else i + 1];
      }
    } else {
      RemoveAbsent(ts, id);
    }
  }

  /** Attaching then finding the returned id gives the translator back; on a
      valid stream the new id is on no other entry. */
  lemma FindAfterAttach(st: Stream, translator: nat, priority: nat)
    requires Valid(st)
    ensures var (st', id) := AttachTranslator(st, translator, priority);
            FindTranslator(st'.translators, id) == Some(translator)
  {
    var (st', id) := AttachTranslator(st, translator, priority);
    var ts := st.translators;
    var k := InsertPos(ts, priority);
    var r := st'.translators;
    assert r[k].id == id && r[k].translator == translator;
    FindFirst(r, id, k);
  }

  /** With ids distinct, finding an id that sits at position `k` gives that
      entry's translator. */
  lemma {:induction false} FindFirst(ts: seq<TranslatorData>, id: nat, k: nat)
    requires k < |ts| && ts[k].id == id
    requires forall i :: 0 <= i < k ==> ts[i].id != id
    ensures FindTranslator(ts, id) == Some(ts[k].translator)
  {
    if k > 0 {
      FindFirst(ts[1..], id, k - 1);
    }
  }

  /** Removing the translator just attached gives the list back. */
  lemma RemoveUndoesAttach(st: Stream, translator: nat, priority: nat)
    requires Valid(st)
    ensures var (st', id) := AttachTranslator(st, translator, priority);
            RemoveTranslator(st'.translators, id) == st.translators
  {
    var (st', id) := AttachTranslator(st, translator, priority);
    var ts := st.translators;
    var k := InsertPos(ts, priority);
    var r := st'.translators;
    forall i | 0 <= i < k ensures r[i].id != id {
      assert r[i] == ts[i];
    }
    RemoveTranslatorSplits(r, id, k);
    assert r[..k] == ts[..k] && r[k + 1..] == ts[k..];
  }

  // ---------------------------------------------------------------------------
  // buildRegion

  datatype Coord = Coord(x: int, y: int)
  datatype Region = Region(lo: Coord, hi: Coord)

  /** `buildRegion(anchor, dest)`: the rectangle spanned by the drag. */
  function BuildRegion(anchor: Coord, dest: Coord): (r: Region)
    ensures r.lo.x == Min(anchor.x, dest.x) && r.hi.x == Max(anchor.x, dest.x)
    ensures r.lo.y == Min(anchor.y, dest.y) && r.hi.y == Max(anchor.y, dest.y)
    ensures r.lo.x <= r.hi.x && r.lo.y <= r.hi.y
  {
    var (lx, hx) := if anchor.x < dest.x then (anchor.x, dest.x) else (dest.x, anchor.x);
    var (ly, hy) := if anchor.y < dest.y then (anchor.y, dest.y) else (dest.y, anchor.y);
    Region(Coord(lx, ly), Coord(hx, hy))
  }

  /** The region does not depend on which corner the drag started from. */
  lemma BuildRegionSymmetric(a: Coord, d: Coord)
    ensures BuildRegion(a, d) == BuildRegion(d, a)
  {
  }
}
