/** `SparseMatchFinder`: choosing, for a set of condition bits, the entry
    whose "yes" conditions fit best, and caching the choice per bit set.
    A bit set is a set of flag numbers; each entry (a model, say) lists the
    condition sets it was declared for. */
module SparseMatchFinder {
  import opened Common

  type Bits = set<nat>

  /** `countConditionIntersection(bits, yes)`: the wanted bits the condition
      has; `countConditionInverseIntersection(bits, yes)`: the condition's
      bits that are not wanted. */
  function YesMatch(bits: Bits, yes: Bits): nat {
    |bits * yes|
  }

  function Extraneous(bits: Bits, yes: Bits): nat {
    |yes - bits|
  }

  /** One (entry, condition) pair as the search visits it, with its scores. */
  datatype Candidate = Candidate(owner: nat, cond: Bits, yes: nat, extra: nat)

  /** The conditions of entry `owner`, last condition first. */
  function ConditionsOf(owner: nat, conds: seq<Bits>, bits: Bits): (r: seq<Candidate>)
    ensures |r| == |conds|
    ensures forall k :: 0 <= k < |r| ==>
              r[k] == Candidate(owner, conds[|conds| - 1 - k], YesMatch(bits, conds[|conds| - 1 - k]),
                                Extraneous(bits, conds[|conds| - 1 - k]))
    decreases |conds|
  {
    if conds == [] then []
    else
      var last := conds[|conds| - 1];
      [Candidate(owner, last, YesMatch(bits, last), Extraneous(bits, last))]
        + ConditionsOf(owner, conds[..|conds| - 1], bits)
  }

  /** The visiting order of `findBestInfoSlow`: entries in order, and within
      an entry its conditions from the last to the first. */
  function Candidates(v: seq<seq<Bits>>, from: nat, bits: Bits): (r: seq<Candidate>)
    requires from <= |v|
    ensures forall k :: 0 <= k < |r| ==>
              from <= r[k].owner < |v| && r[k].cond in v[r[k].owner] &&
              r[k].yes == YesMatch(bits, r[k].cond) && r[k].extra == Extraneous(bits, r[k].cond)
    decreases |v| - from
  {
    if from == |v| then []
    else ConditionsOf(from, v[from], bits) + Candidates(v, from + 1, bits)
  }

  /** Some candidate of `r` is condition `c` of entry `m`. */
  predicate Visits(r: seq<Candidate>, m: nat, c: Bits) {
    exists k :: 0 <= k < |r| && r[k].owner == m && r[k].cond == c
  }

  /** Every condition of every entry is visited. */
  lemma {:induction false} CandidatesComplete(v: seq<seq<Bits>>, from: nat, bits: Bits, m: nat, i: nat)
    requires from <= m < |v| && i < |v[m]|
    ensures Visits(Candidates(v, from, bits), m, v[m][i])
    decreases |v| - from
  {
    var head := ConditionsOf(from, v[from], bits);
    var rest := Candidates(v, from + 1, bits);
    var r := Candidates(v, from, bits);
    assert r == head + rest;
    if m == from {
      var k := |v[m]| - 1 - i;
      assert head[k].owner == m && head[k].cond == v[m][i];
      assert r[k] == head[k];
    } else {
      CandidatesComplete(v, from + 1, bits, m, i);
      var k :| 0 <= k < |rest| && rest[k].owner == m && rest[k].cond == v[m][i];
      assert r[|head| + k] == rest[k];
    }
  }

  /** The running best: its "yes" count, its extraneous count and the
      candidate it came from. */
  datatype Best = Best(yes: int, extra: int, at: Option<nat>)

  const NoBest := Best(0, 999, None)

  /** One step of the search: a candidate replaces the best when it has more
      "yes" matches, or at least as many and strictly fewer extraneous bits. */
  function Step(b: Best, c: Candidate, k: nat): Best {
    if c.yes > b.yes || (c.yes >= b.yes && c.extra < b.extra) then Best(c.yes, c.extra, Some(k)) else b
  }

  /** The best after the first `n` candidates. */
  function Search(cs: seq<Candidate>, n: nat): Best
    requires n <= |cs|
  {
    if n == 0 then NoBest else Step(Search(cs, n - 1), cs[n - 1], n - 1)
  }

  /** What the search has established after the first `n` candidates: no
      candidate so far has more "yes" matches; the chosen one has the fewest
      extraneous bits among those with as many, and is the first visited with
      that pair of counts, and it beats the starting scores; nothing is
      chosen only if no candidate ever beat them. */
  predicate SearchInvariant(cs: seq<Candidate>, n: nat, b: Best)
    requires n <= |cs|
  {
    b.yes >= 0 &&
    (forall j :: 0 <= j < n ==> cs[j].yes <= b.yes) &&
    (b.at.None? ==> b.yes == 0 && b.extra == 999 &&
                    forall j :: 0 <= j < n ==> cs[j].extra >= 999) &&
    (b.at.Some? ==>
       (b.yes > 0 || b.extra < 999) &&
       b.at.value < n && cs[b.at.value].yes == b.yes && cs[b.at.value].extra == b.extra &&
       (forall j :: 0 <= j < n && cs[j].yes == b.yes ==> cs[j].extra >= b.extra) &&
       (forall j :: 0 <= j < b.at.value && cs[j].yes == b.yes ==> cs[j].extra > b.extra))
  }

  lemma {:induction false} SearchKeepsInvariant(cs: seq<Candidate>, n: nat)
    requires n <= |cs|
    ensures SearchInvariant(cs, n, Search(cs, n))
  {
    if n > 0 {
      SearchKeepsInvariant(cs, n - 1);
      var b := Search(cs, n - 1);
      var c := cs[n - 1];
      var b' := Search(cs, n);
      assert b' == Step(b, c, n - 1);
      if c.yes > b.yes || (c.yes >= b.yes && c.extra < b.extra) {
        forall j | 0 <= j < n - 1 && cs[j].yes == c.yes ensures cs[j].extra > c.extra {
          assert c.yes == b.yes;
        }
      }
    }
  }

  /** `findBestInfoSlow`: the entry of the chosen candidate, if any. */
  function FindBestInfoSlow(v: seq<seq<Bits>>, bits: Bits): (r: Option<nat>)
    ensures r.Some? ==> r.value < |v|
  {
    var cs := Candidates(v, 0, bits);
    var b := Search(cs, |cs|);
    SearchKeepsInvariant(cs, |cs|);
    match b.at
    case None => None
    case Some(k) => Some(cs[k].owner)
  }

  /** Nothing is found exactly when every condition of every entry has no
      wanted bit and 999 or more unwanted ones. */
  lemma NoneIffNothingBeatsStart(v: seq<seq<Bits>>, bits: Bits)
    ensures FindBestInfoSlow(v, bits).None? <==>
              forall m, i :: 0 <= m < |v| && 0 <= i < |v[m]| ==>
                YesMatch(bits, v[m][i]) == 0 && Extraneous(bits, v[m][i]) >= 999
  {
    var cs := Candidates(v, 0, bits);
    var b := Search(cs, |cs|);
    SearchKeepsInvariant(cs, |cs|);
    if b.at.None? {
      forall m, i | 0 <= m < |v| && 0 <= i < |v[m]|
        ensures YesMatch(bits, v[m][i]) == 0 && Extraneous(bits, v[m][i]) >= 999
      {
        CandidatesComplete(v, 0, bits, m, i);
      }
    } else {
      var k := b.at.value;
      var m := cs[k].owner;
      var i :| 0 <= i < |v[m]| && v[m][i] == cs[k].cond;
      assert YesMatch(bits, v[m][i]) == cs[k].yes && Extraneous(bits, v[m][i]) == cs[k].extra;
    }
  }

  /** The chosen entry has a condition with the most "yes" matches over all
      conditions of all entries, and among those the fewest extraneous bits;
      of several such pairs the first visited wins. */
  lemma BestIsOptimal(v: seq<seq<Bits>>, bits: Bits, m: nat, i: nat)
    requires m < |v| && i < |v[m]|
    requires FindBestInfoSlow(v, bits).Some?
    ensures var cs := Candidates(v, 0, bits);
            var b := Search(cs, |cs|);
            b.at.Some? && b.at.value < |cs| && cs[b.at.value].owner == FindBestInfoSlow(v, bits).value &&
            cs[b.at.value].yes == b.yes && cs[b.at.value].extra == b.extra &&
            (forall j :: 0 <= j < b.at.value && cs[j].yes == b.yes ==> cs[j].extra > b.extra) &&
            YesMatch(bits, v[m][i]) <= b.yes &&
            (YesMatch(bits, v[m][i]) == b.yes ==> Extraneous(bits, v[m][i]) >= b.extra)
  {
    var cs := Candidates(v, 0, bits);
    SearchKeepsInvariant(cs, |cs|);
    CandidatesComplete(v, 0, bits, m, i);
  }

  /** The finder's cache: the chosen entry per bit set. */
  type Cache = map<Bits, nat>

  /** The cache holds only what the slow search would answer. */
  predicate CacheSound(cache: Cache, v: seq<seq<Bits>>) {
    forall bits :: bits in cache ==> FindBestInfoSlow(v, bits) == Some(cache[bits])
  }

  /** `findBestInfo`: a cached answer for the same bits if there is one;
      otherwise the slow search, whose answer is cached when something was
      found. */
  function FindBestInfo(cache: Cache, v: seq<seq<Bits>>, bits: Bits): (r: (Option<nat>, Cache))
    ensures bits in cache ==> r == (Some(cache[bits]), cache)
    ensures bits !in cache && FindBestInfoSlow(v, bits).None? ==> r == (None, cache)
    ensures bits !in cache && FindBestInfoSlow(v, bits).Some? ==>
              r.0 == FindBestInfoSlow(v, bits) && r.1 == cache[bits := r.0.value]
  {
    if bits in cache then (Some(cache[bits]), cache)
    else
      var info := FindBestInfoSlow(v, bits);
      match info
      case None => (None, cache)
      case Some(x) => (info, cache[bits := x])
  }

  /** With a sound cache the fast path answers as the slow search does, and
      the cache stays sound. */
  lemma CachedAgreesWithSlow(cache: Cache, v: seq<seq<Bits>>, bits: Bits)
    requires CacheSound(cache, v)
    ensures FindBestInfo(cache, v, bits).0 == FindBestInfoSlow(v, bits)
    ensures CacheSound(FindBestInfo(cache, v, bits).1, v)
  {
  }

  /** `clear()` empties the cache, which is trivially sound. */
  function Clear(cache: Cache): (r: Cache)
    ensures |r| == 0
  {
    map[]
  }

  /** Assignment copies the other finder's cache unless the finder type is
      flagged not to copy. */
  function Assign(self: Cache, other: Cache, noCopy: bool): (r: Cache)
    ensures noCopy ==> r == self
    ensures !noCopy ==> r == other
  {
    if noCopy then self else other
  }
}
