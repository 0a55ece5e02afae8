/** The local address list of `IPEnumeration`: addresses are kept in
    ascending order of their 32-bit value by `addNewIP`, the list is built
    once and then served from the cache, and each extra client instance gets a
    loopback address of its own. */
module IpEnumeration {
  import opened Common
  import opened Bytes

  /** An enumerated address: its numeric value and its four bytes (from which
      the dotted text is printed). */
  datatype IpEntry = IpEntry(ip: nat, quad: seq<Byte>)

  predicate Sorted(list: seq<IpEntry>) {
    forall i, j :: 0 <= i < j < |list| ==> list[i].ip <= list[j].ip
  }

  /** The walk of `addNewIP` from node `p`: move on while the next node holds a
      strictly smaller address. */
  function WalkFrom(list: seq<IpEntry>, ip: nat, p: nat): (q: nat)
    requires p < |list|
    ensures p <= q < |list|
    ensures forall i :: p < i <= q ==> list[i].ip < ip
    ensures q + 1 == |list| || list[q + 1].ip >= ip
    decreases |list| - p
  {
    if p + 1 < |list| && list[p + 1].ip < ip then WalkFrom(list, ip, p + 1) else p
  }

  /** Where `addNewIP` links the new node in: at the head of an empty list or
      before a head holding a strictly larger address, otherwise just after
      the node where the walk from the head stops. */
  function InsertPos(list: seq<IpEntry>, ip: nat): (k: nat)
    ensures k <= |list|
    ensures k == 0 <==> |list| == 0 || ip < list[0].ip
    ensures k > 0 ==> (forall i :: 1 <= i < k ==> list[i].ip < ip) && (k == |list| || list[k].ip >= ip)
  {
    if |list| == 0 || ip < list[0].ip then 0 else WalkFrom(list, ip, 0) + 1
  }

  /** `addNewIP`: the list grows by exactly the new node, and every old node
      keeps its place relative to the others. */
  function AddNewIp(list: seq<IpEntry>, e: IpEntry): (r: seq<IpEntry>)
    ensures |r| == |list| + 1
    ensures var k := InsertPos(list, e.ip);
            r[..k] == list[..k] && r[k] == e && r[k + 1..] == list[k..]
    ensures multiset(r) == multiset(list) + multiset{e}
  {
    var k := InsertPos(list, e.ip);
    assert list == list[..k] + list[k..];
    list[..k] + [e] + list[k..]
  }

  /** Inserting into a sorted list keeps it sorted. */
  lemma AddKeepsSorted(list: seq<IpEntry>, e: IpEntry)
    requires Sorted(list)
    ensures Sorted(AddNewIp(list, e))
  {
    var k := InsertPos(list, e.ip);
    forall i | 0 <= i < k ensures list[i].ip <= e.ip {
      if i > 0 { assert list[i].ip < e.ip; }
    }
    forall i | k <= i < |list| ensures e.ip <= list[i].ip {
      assert list[k].ip <= list[i].ip;
    }
    var r := AddNewIp(list, e);
    forall i, j | 0 <= i < j < |r| ensures r[i].ip <= r[j].ip {
      AddAt(list, e, i);
      AddAt(list, e, j);
    }
  }

  /** The entry at each place after an insertion. */
  lemma AddAt(list: seq<IpEntry>, e: IpEntry, i: nat)
    requires i <= |list|
    ensures var k := InsertPos(list, e.ip);
            AddNewIp(list, e)[i] == if i < k then list[i] else if i == k then e else list[i - 1]
  {
    var k := InsertPos(list, e.ip);
    var r := AddNewIp(list, e);
    if i < k {
      assert r[i] == r[..k][i];
    } else if i > k {
      assert r[i] == r[k + 1..][i - k - 1];
    }
  }

  /** An address equal to the head's goes after the head, never before it. */
  lemma EqualToHeadGoesAfter(list: seq<IpEntry>, e: IpEntry)
    requires Sorted(list) && |list| > 0 && e.ip == list[0].ip
    ensures AddNewIp(list, e)[0] == list[0] && AddNewIp(list, e)[1] == e
  {
  }

  /** Adding the addresses one by one, as `getAddresses` does. */
  function AddAll(list: seq<IpEntry>, es: seq<IpEntry>): (r: seq<IpEntry>)
    ensures multiset(r) == multiset(list) + multiset(es)
    decreases |es|
  {
    if es == [] then list
    else
      assert es == [es[0]] + es[1..];
      AddAll(AddNewIp(list, es[0]), es[1..])
  }

  lemma {:induction false} AddAllSorted(list: seq<IpEntry>, es: seq<IpEntry>)
    requires Sorted(list)
    ensures Sorted(AddAll(list, es))
    decreases |es|
  {
    if es != [] {
      AddKeepsSorted(list, es[0]);
      AddAllSorted(AddNewIp(list, es[0]), es[1..]);
    }
  }

  /** The loopback address of client instance `id`: 127 followed by the low
      three bytes of the id, most significant first. */
  function LoopbackQuad(id: nat): (q: seq<Byte>)
    ensures |q| == 4 && q[0] == 127
    ensures q[1] == (id / 0x1_0000) % 0x100 && q[2] == (id / 0x100) % 0x100 && q[3] == id % 0x100
  {
    [127, (id / 0x1_0000) % 0x100, (id / 0x100) % 0x100, id % 0x100]
  }

  lemma ShiftBytes(id: nat)
    ensures id / 0x1_0000 == id / 0x100 / 0x100
  {
  }

  /** The last three bytes of the loopback address are the low three bytes of
      the id, most significant first; distinct instances below 2^24 get
      distinct addresses. */
  lemma LoopbackIsLowBytes(id: nat)
    ensures LoopbackQuad(id)[1..] == BigEndian(id, 3)
  {
    ShiftBytes(id);
    var a, b := id / 0x100, id / 0x100 / 0x100;
    assert BigEndian(b, 1) == [b % 0x100];
    assert BigEndian(a, 2) == BigEndian(b, 1) + [a % 0x100];
    assert BigEndian(id, 3) == BigEndian(a, 2) + [id % 0x100];
    assert BigEndian(id, 3) == [(id / 0x100 / 0x100) % 0x100, (id / 0x100) % 0x100, id % 0x100];
  }

  lemma LoopbackDistinct(id1: nat, id2: nat)
    requires id1 < 0x100_0000 && id2 < 0x100_0000 && id1 != id2
    ensures LoopbackQuad(id1) != LoopbackQuad(id2)
  {
    LoopbackIsLowBytes(id1);
    LoopbackIsLowBytes(id2);
    assert Pow256(3) == 0x100_0000;
    BigEndianRoundTrip(id1, 3);
    BigEndianRoundTrip(id2, 3);
    assert LoopbackQuad(id1)[1..] != LoopbackQuad(id2)[1..];
  }

  /** What the host lookup found, or `None` when Winsock, the host name or
      the host entry could not be obtained or the entry has odd-sized
      addresses. */
  type HostLookup = Option<seq<IpEntry>>

  /** The entry `addNewIP` makes for the loopback address of instance `id`.
      `assemble` is `AssembleIp`, which is not part of this model. */
  function LoopbackEntry(id: nat, assemble: seq<Byte> -> nat): (e: IpEntry)
    ensures e.quad == LoopbackQuad(id) && e.ip == assemble(LoopbackQuad(id))
  {
    IpEntry(assemble(LoopbackQuad(id)), LoopbackQuad(id))
  }

  /** `getAddresses`: the cached list once there is one; otherwise the lookup,
      with the loopback address of instance `id` first when several instances
      run, inserted into the list. `Some([])`, a lookup that lists no address
      in a single instance, is the same NULL in C++ as `None`: the list pointer
      stays empty either way. */
  function GetAddresses(cache: seq<IpEntry>, lookup: HostLookup, multiInstance: bool, id: nat,
                        assemble: seq<Byte> -> nat): (r: Option<seq<IpEntry>>)
    ensures |cache| > 0 ==> r == Some(cache)
    ensures |cache| == 0 && lookup.None? ==> r.None?
    ensures |cache| == 0 && lookup.Some? ==>
              r.Some? && multiset(r.value) ==
                (if multiInstance then multiset{LoopbackEntry(id, assemble)} else multiset{}) + multiset(lookup.value)
  {
    if |cache| > 0 then Some(cache)
    else match lookup
      case None => None
      case Some(hosts) =>
        var start := if multiInstance then AddNewIp(cache, LoopbackEntry(id, assemble)) else cache;
        Some(AddAll(start, hosts))
  }

  /** A freshly built list is sorted. */
  lemma GetAddressesSorted(cache: seq<IpEntry>, lookup: HostLookup, multiInstance: bool, id: nat,
                           assemble: seq<Byte> -> nat)
    requires Sorted(cache)
    requires GetAddresses(cache, lookup, multiInstance, id, assemble).Some?
    ensures Sorted(GetAddresses(cache, lookup, multiInstance, id, assemble).value)
  {
    if |cache| == 0 {
      var loopback := LoopbackEntry(id, assemble);
      var start := if multiInstance then AddNewIp(cache, loopback) else cache;
      if multiInstance { AddKeepsSorted(cache, loopback); }
      AddAllSorted(start, lookup.value);
    }
  }
}
