/**
  `Topo.MarshalRESP` of `cluster2/topo.go`: groups the nodes into one entry
  per exact slot range, orders the entries by the start of their range and
  writes the outer header followed by every entry.
*/
module TopoEncode {
  import opened Slots
  import opened Topology
  import opened Wire
  import opened SlotSetCodec
  import Sorting

  // ----------------------------------------------------------- grouping spec

  /** `t` once for every time `r` occurs among the ranges `ss`. */
  ghost function Copies(t: Node, ss: seq<SlotRange>, r: SlotRange): seq<Node> {
    if |ss| == 0 then [] else Copies(t, ss[..|ss| - 1], r) + (if ss[|ss| - 1] == r then [t] else [])
  }

  /** The copies are all `t`, as many as `ss` holds `r`. */
  lemma {:induction false} CopiesShape(t: Node, ss: seq<SlotRange>, r: SlotRange)
    ensures |Copies(t, ss, r)| == multiset(ss)[r]
    ensures forall k :: 0 <= k < |Copies(t, ss, r)| ==> Copies(t, ss, r)[k] == t
    decreases |ss|
  {
    if |ss| > 0 {
      assert ss == ss[..|ss| - 1] + [ss[|ss| - 1]];
      CopiesShape(t, ss[..|ss| - 1], r);
    }
  }

  /** The set of ranges in `ss`. */
  ghost function SetOf(ss: seq<SlotRange>): set<SlotRange> {
    set x | x in ss
  }

  /** Every range some node owns. */
  ghost function RangesOf(tt: Topo): set<SlotRange> {
    if |tt| == 0 then {} else RangesOf(tt[..|tt| - 1]) + SetOf(tt[|tt| - 1].slots)
  }

  /** A range occurs exactly when some node owns it. */
  lemma {:induction false} RangesOfIff(tt: Topo, r: SlotRange)
    ensures r in RangesOf(tt) <==> exists i :: 0 <= i < |tt| && r in tt[i].slots
    decreases |tt|
  {
    if |tt| > 0 {
      var init := tt[..|tt| - 1];
      RangesOfIff(init, r);
      if r in RangesOf(init) {
        var i :| 0 <= i < |init| && r in init[i].slots;
        assert tt[i] == init[i];
      }
      if i :| 0 <= i < |tt| - 1 && r in tt[i].slots {
        assert init[i] == tt[i];
      }
    }
  }

  /**
    The nodes the entry for range `r` lists: the nodes of `tt` in topology
    order, each once per time it owns `r`.
  */
  ghost function Bucket(tt: Topo, r: SlotRange): seq<Node> {
    if |tt| == 0 then [] else Bucket(tt[..|tt| - 1], r) + Copies(tt[|tt| - 1], tt[|tt| - 1].slots, r)
  }

  /** Every node listed under `r` is a node of the topology that owns `r`. */
  lemma {:induction false} BucketMembers(tt: Topo, r: SlotRange, k: int)
    requires 0 <= k < |Bucket(tt, r)|
    ensures Bucket(tt, r)[k] in tt && r in Bucket(tt, r)[k].slots
    decreases |tt|
  {
    var init := tt[..|tt| - 1];
    var last := tt[|tt| - 1];
    if k < |Bucket(init, r)| {
      BucketMembers(init, r, k);
      assert Bucket(tt, r)[k] == Bucket(init, r)[k];
    } else {
      CopiesShape(last, last.slots, r);
      assert Bucket(tt, r)[k] == last;
    }
  }

  /** The entry for `r` is empty exactly when no node owns `r`. */
  lemma {:induction false} BucketEmptyIff(tt: Topo, r: SlotRange)
    ensures Bucket(tt, r) == [] <==> r !in RangesOf(tt)
    decreases |tt|
  {
    if |tt| > 0 {
      var last := tt[|tt| - 1];
      BucketEmptyIff(tt[..|tt| - 1], r);
      CopiesShape(last, last.slots, r);
    }
  }

  /** What the grouping loop of `Topo.MarshalRESP` leaves in its map. */
  ghost function Buckets(tt: Topo): (m: map<SlotRange, SlotSet>)
    ensures m.Keys == RangesOf(tt)
    ensures forall r :: r in m ==> m[r].slots == r
  {
    map r | r in RangesOf(tt) :: SlotSet(r, Bucket(tt, r))
  }

  /** Each node is listed under a range as often as it owns that range. */
  lemma {:induction false} BucketCount(tt: Topo, r: SlotRange, a: string)
    ensures multiset(Addrs(Bucket(tt, r)))[a] == multiset(SlotsAt(tt, a))[r]
    decreases |tt|
  {
    if |tt| > 0 {
      var init := tt[..|tt| - 1];
      var last := tt[|tt| - 1];
      var cs := Copies(last, last.slots, r);
      CopiesShape(last, last.slots, r);
      BucketCount(init, r, a);
      assert Addrs(Bucket(tt, r)) == Addrs(Bucket(init, r)) + Addrs(cs);
      if last.addr == a {
        assert forall k :: 0 <= k < |cs| ==> Addrs(cs)[k] == a;
        assert Addrs(cs) == seq(|cs|, k => a);
        SameElementCount(Addrs(cs), a);
      } else {
        assert a !in Addrs(cs);
      }
    }
  }

  /** A sequence made of `k` copies of `a` counts `a` exactly `k` times. */
  lemma {:induction false} SameElementCount(s: seq<string>, a: string)
    requires forall k :: 0 <= k < |s| ==> s[k] == a
    ensures multiset(s)[a] == |s|
    decreases |s|
  {
    if |s| > 0 {
      assert s == s[..|s| - 1] + [a];
      SameElementCount(s[..|s| - 1], a);
    }
  }

  /** The map after the first `i` nodes and the first ranges `ss` of the next node `t`. */
  ghost function Grouped(tt: Topo, t: Node, ss: seq<SlotRange>): (m: map<SlotRange, SlotSet>)
    ensures m.Keys == RangesOf(tt) + SetOf(ss)
  {
    map r | r in RangesOf(tt) + SetOf(ss) :: SlotSet(r, Bucket(tt, r) + Copies(t, ss, r))
  }

  lemma GroupStart(tt: Topo, t: Node)
    ensures Grouped(tt, t, []) == Buckets(tt)
  {
    assert SetOf([]) == {};
    assert forall r :: Bucket(tt, r) + Copies(t, [], r) == Bucket(tt, r);
  }

  lemma GroupedAt(tt: Topo, t: Node, ss: seq<SlotRange>, x: SlotRange, r: SlotRange)
    requires r in RangesOf(tt) + SetOf(ss + [x])
    ensures r in Grouped(tt, t, ss + [x])
    ensures Grouped(tt, t, ss + [x])[r] ==
      if r == x then SlotSet(x, (if x in Grouped(tt, t, ss) then Grouped(tt, t, ss)[x].nodes else []) + [t])
      else Grouped(tt, t, ss)[r]
  {
    assert (ss + [x])[..|ss|] == ss;
    assert Copies(t, ss + [x], r) == Copies(t, ss, r) + (if x == r then [t] else []);
    if r != x {
      assert r in RangesOf(tt) + SetOf(ss);
    } else if x !in Grouped(tt, t, ss) {
      BucketEmptyIff(tt, x);
      CopiesShape(t, ss, x);
    }
  }

  /** Adding one more node under range `x`, as one step of the grouping loop does. */
  lemma GroupStep(tt: Topo, t: Node, ss: seq<SlotRange>, x: SlotRange)
    ensures Grouped(tt, t, ss + [x]) ==
      Grouped(tt, t, ss)[x := SlotSet(x, (if x in Grouped(tt, t, ss) then Grouped(tt, t, ss)[x].nodes else []) + [t])]
  {
    var g := Grouped(tt, t, ss);
    var g' := Grouped(tt, t, ss + [x]);
    var upd := g[x := SlotSet(x, (if x in g then g[x].nodes else []) + [t])];
    assert SetOf(ss + [x]) == SetOf(ss) + {x};
    assert g'.Keys == upd.Keys;
    forall r | r in g'
      ensures g'[r] == upd[r]
    {
      GroupedAt(tt, t, ss, x, r);
    }
  }

  lemma GroupEnd(tt: Topo, t: Node)
    ensures Grouped(tt, t, t.slots) == Buckets(tt + [t])
  {
    assert (tt + [t])[..|tt|] == tt;
  }

  /**
    The grouping loop of `Topo.MarshalRESP`: for every node and every range
    it owns, the node is appended to the entry kept under that exact range.
  */
  method BucketByRange(tt: Topo) returns (m: map<SlotRange, SlotSet>)
    ensures m == Buckets(tt)
  {
    m := map[];
    for i := 0 to |tt|
      invariant m == Buckets(tt[..i])
    {
      var t := tt[i];
      GroupStart(tt[..i], t);
      for j := 0 to |t.slots|
        invariant m == Grouped(tt[..i], t, t.slots[..j])
      {
        var slots := t.slots[j];
        GroupStep(tt[..i], t, t.slots[..j], slots);
        assert t.slots[..j + 1] == t.slots[..j] + [slots];
        var tss := if slots in m then m[slots] else SlotSet(SlotRange(0, 0), []);
        tss := tss.(slots := slots);
        tss := tss.(nodes := tss.nodes + [t]);
        m := m[slots := tss];
      }
      assert t.slots[..|t.slots|] == t.slots;
      GroupEnd(tt[..i], t);
      assert tt[..i + 1] == tt[..i] + [t];
    }
    assert tt[..|tt|] == tt;
  }

  // ---------------------------------------------------------- entry ordering

  /** Sort key of an entry: the start of its range. */
  function SetStart(tss: SlotSet): int {
    tss.slots.start as int
  }

  /** The ranges of the entries. */
  ghost function RangeSet(sets: seq<SlotSet>): set<SlotRange> {
    set i | 0 <= i < |sets| :: sets[i].slots
  }

  lemma RangeSetSnoc(sets: seq<SlotSet>, tss: SlotSet)
    ensures RangeSet(sets + [tss]) == RangeSet(sets) + {tss.slots}
  {
    var s' := sets + [tss];
    forall r | r in RangeSet(s')
      ensures r in RangeSet(sets) + {tss.slots}
    {
      var i :| 0 <= i < |s'| && s'[i].slots == r;
      if i < |sets| { assert sets[i].slots == r; }
    }
    forall r | r in RangeSet(sets)
      ensures r in RangeSet(s')
    {
      var i :| 0 <= i < |sets| && sets[i].slots == r;
      assert s'[i].slots == r;
    }
    assert s'[|sets|].slots == tss.slots;
  }

  /**
    `sets` lists the entries of `m`: one entry per key, each as stored, no
    range twice, in order of start.
  */
  ghost predicate IsBucketList(sets: seq<SlotSet>, m: map<SlotRange, SlotSet>) {
    && |sets| == |m.Keys|
    && RangeSet(sets) == m.Keys
    && (forall i :: 0 <= i < |sets| ==> sets[i].slots in m && m[sets[i].slots] == sets[i])
    && (forall p, q :: 0 <= p < q < |sets| ==> sets[p].slots != sets[q].slots)
    && Sorting.SortedBy(sets, SetStart)
  }

  /** Two entries taken from the map under distinct keys are distinct. */
  lemma DistinctEntries(all: seq<SlotSet>, m: map<SlotRange, SlotSet>)
    requires forall i :: 0 <= i < |all| ==> all[i].slots in m && m[all[i].slots] == all[i]
    requires forall p, q :: 0 <= p < q < |all| ==> all[p].slots != all[q].slots
    ensures Sorting.Distinct(all)
  {
  }

  /**
    The collecting and sorting part of `Topo.MarshalRESP`: the map's entries
    in iteration order, then sorted by start.
  */
  method SlotSetsOf(m: map<SlotRange, SlotSet>) returns (sets: seq<SlotSet>)
    requires forall r :: r in m ==> m[r].slots == r
    ensures IsBucketList(sets, m)
  {
    var all := CollectEntries(m);
    var a := new SlotSet[|all|](i requires 0 <= i < |all| => all[i]);
    assert a[..] == all;
    Sorting.SortInPlace(a, SetStart);
    sets := a[..];
    SortedEntries(all, sets, m);
  }

  /** Partway through collecting: `all` holds, once each, the entries of the keys no longer in `keys`. */
  ghost predicate Collected(all: seq<SlotSet>, m: map<SlotRange, SlotSet>, keys: set<SlotRange>) {
    && keys <= m.Keys
    && |all| + |keys| == |m.Keys|
    && RangeSet(all) == m.Keys - keys
    && (forall i :: 0 <= i < |all| ==> all[i].slots in m && m[all[i].slots] == all[i])
    && (forall p, q :: 0 <= p < q < |all| ==> all[p].slots != all[q].slots)
  }

  lemma {:induction false} CollectStep(all: seq<SlotSet>, m: map<SlotRange, SlotSet>, keys: set<SlotRange>, r: SlotRange)
    requires forall r :: r in m ==> m[r].slots == r
    requires Collected(all, m, keys) && r in keys
    ensures Collected(all + [m[r]], m, keys - {r})
  {
    var all', keys' := all + [m[r]], keys - {r};
    assert m[r].slots == r;
    RangeSetSnoc(all, m[r]);
    assert RangeSet(all') == m.Keys - keys' by {
      assert RangeSet(all) + {r} == m.Keys - keys';
    }
    forall i | 0 <= i < |all'|
      ensures all'[i].slots in m && m[all'[i].slots] == all'[i]
    {
      if i < |all| {
        assert all'[i] == all[i];
      }
    }
    forall p, q | 0 <= p < q < |all'|
      ensures all'[p].slots != all'[q].slots
    {
      assert all'[p] == all[p];
      if q == |all| {
        assert all[p].slots in RangeSet(all);
      } else {
        assert all'[q] == all[q];
      }
    }
  }

  /** The map's entries, each once, in iteration order. */
  method CollectEntries(m: map<SlotRange, SlotSet>) returns (all: seq<SlotSet>)
    requires forall r :: r in m ==> m[r].slots == r
    ensures |all| == |m.Keys| && RangeSet(all) == m.Keys
    ensures forall i :: 0 <= i < |all| ==> all[i].slots in m && m[all[i].slots] == all[i]
    ensures forall p, q :: 0 <= p < q < |all| ==> all[p].slots != all[q].slots
  {
    all := [];
    var keys := m.Keys;
    while keys != {}
      invariant Collected(all, m, keys)
      decreases keys
    {
      var r :| r in keys;
      CollectStep(all, m, keys, r);
      all := all + [m[r]];
      keys := keys - {r};
    }
  }

  /** A sorted permutation of the collected entries is still a list of the map's entries. */
  lemma SortedEntries(all: seq<SlotSet>, sets: seq<SlotSet>, m: map<SlotRange, SlotSet>)
    requires |all| == |m.Keys| && RangeSet(all) == m.Keys
    requires forall i :: 0 <= i < |all| ==> all[i].slots in m && m[all[i].slots] == all[i]
    requires forall p, q :: 0 <= p < q < |all| ==> all[p].slots != all[q].slots
    requires multiset(sets) == multiset(all) && Sorting.SortedBy(sets, SetStart)
    ensures IsBucketList(sets, m)
  {
    assert |sets| == |multiset(sets)| == |all|;
    forall i | 0 <= i < |sets|
      ensures sets[i].slots in m && m[sets[i].slots] == sets[i]
    {
      assert sets[i] in multiset(all);
    }
    DistinctEntries(all, m);
    Sorting.DistinctPermutation(sets, all);
    forall r | r in m.Keys
      ensures r in RangeSet(sets)
    {
      var k :| 0 <= k < |all| && all[k].slots == r;
      assert all[k] in multiset(sets);
      var i :| 0 <= i < |sets| && sets[i] == all[k];
    }
  }

  /**
    The entries the encoder lists: the header counts the distinct ranges;
    there is an entry for every range some node owns and for no other; each
    entry lists that range's nodes and is not empty; entries are in
    ascending order of start.
  */
  lemma EncodedEntries(tt: Topo, sets: seq<SlotSet>)
    requires IsBucketList(sets, Buckets(tt))
    ensures TopoTokens(sets)[0] == ArrayHead(|RangesOf(tt)|)
    ensures forall r :: r in RangesOf(tt) <==> exists i :: 0 <= i < |sets| && sets[i].slots == r
    ensures forall i :: 0 <= i < |sets| ==> sets[i].nodes == Bucket(tt, sets[i].slots) && |sets[i].nodes| > 0
    ensures forall p, q :: 0 <= p < q < |sets| ==> sets[p].slots.start <= sets[q].slots.start
  {
    forall i | 0 <= i < |sets|
      ensures sets[i].nodes == Bucket(tt, sets[i].slots) && |sets[i].nodes| > 0
    {
      BucketEmptyIff(tt, sets[i].slots);
    }
    forall p, q | 0 <= p < q < |sets|
      ensures sets[p].slots.start <= sets[q].slots.start
    {
      assert SetStart(sets[p]) <= SetStart(sets[q]);
    }
  }

  /**
    With unique addresses, node `tt[k]` is listed in an entry exactly as many
    times as it owns that entry's range; a node owning `n` distinct ranges
    therefore appears in `n` entries.
  */
  lemma EntryListsOwner(tt: Topo, sets: seq<SlotSet>, k: int, i: int)
    requires IsBucketList(sets, Buckets(tt)) && UniqueAddrs(tt)
    requires 0 <= k < |tt| && 0 <= i < |sets|
    ensures multiset(Addrs(sets[i].nodes))[tt[k].addr] == multiset(tt[k].slots)[sets[i].slots]
  {
    BucketCount(tt, sets[i].slots, tt[k].addr);
    SlotsAtUnique(tt, k);
  }

  // ------------------------------------------------------------------ tokens

  /** The values written for the entries, one entry after the other. */
  function SetsTokens(sets: seq<SlotSet>): seq<Token> {
    if |sets| == 0 then [] else SetsTokens(sets[..|sets| - 1]) + SlotSetTokens(sets[|sets| - 1])
  }

  /** The whole reply: a header counting the entries, then the entries. */
  function TopoTokens(sets: seq<SlotSet>): seq<Token> {
    [ArrayHead(|sets|)] + SetsTokens(sets)
  }

  lemma {:induction false} SetsTokensConcat(s: seq<SlotSet>, t: seq<SlotSet>)
    ensures SetsTokens(s + t) == SetsTokens(s) + SetsTokens(t)
    decreases |t|
  {
    if |t| == 0 {
      assert s + t == s;
    } else {
      var t' := t[..|t| - 1];
      assert (s + t)[..|s + t| - 1] == s + t';
      SetsTokensConcat(s, t');
    }
  }

  /** The reply around entry `i`: what precedes it, its own values, what follows. */
  lemma {:induction false} TokensAround(sets: seq<SlotSet>, i: int)
    requires 0 <= i < |sets|
    ensures SetsTokens(sets[..i + 1]) == SetsTokens(sets[..i]) + SlotSetTokens(sets[i])
    ensures SetsTokens(sets) == SetsTokens(sets[..i]) + SlotSetTokens(sets[i]) + SetsTokens(sets[i + 1..])
  {
    assert sets[..i + 1][..i] == sets[..i];
    assert sets == sets[..i + 1] + sets[i + 1..];
    SetsTokensConcat(sets[..i + 1], sets[i + 1..]);
  }

  /** Writing stopped `k` values into entry `i`: the reply's prefix so far. */
  lemma StoppedInEntry(sets: seq<SlotSet>, i: int, k: int)
    requires 0 <= i < |sets| && 0 <= k < |SlotSetTokens(sets[i])|
    ensures var n := |SetsTokens(sets[..i])| + k;
      n < |SetsTokens(sets)| &&
      SetsTokens(sets)[..Min(|SetsTokens(sets)|, n)] == SetsTokens(sets[..i]) + SlotSetTokens(sets[i])[..k]
  {
    TokensAround(sets, i);
    PrefixInMiddle(SetsTokens(sets[..i]), SlotSetTokens(sets[i]), SetsTokens(sets[i + 1..]), |SetsTokens(sets[..i])| + k);
  }

  /** Cutting a sequence behind its first element. */
  lemma HeadThenPrefix(h: Token, s: seq<Token>, k: int)
    requires k >= 1
    ensures ([h] + s)[..Min(1 + |s|, k)] == [h] + s[..Min(|s|, k - 1)]
  {
  }

  /** Cutting a concatenation inside its middle part. */
  lemma PrefixInMiddle(a: seq<Token>, b: seq<Token>, c: seq<Token>, k: int)
    requires |a| <= k <= |a| + |b|
    ensures (a + b + c)[..k] == a + b[..k - |a|]
  {
  }

  /**
    The writing loop of `Topo.MarshalRESP`: each entry in turn, stopping at
    the first entry whose writing failed.
  */
  method WriteEntries(sets: seq<SlotSet>, w: Writer) returns (ok: bool)
    modifies w
    ensures ok == (|SetsTokens(sets)| <= old(w.room))
    ensures w.written == old(w.written) + SetsTokens(sets)[..Min(|SetsTokens(sets)|, old(w.room))]
  {
    ghost var room := w.room;
    ghost var before := w.written;
    ok := true;
    for i := 0 to |sets|
      invariant w.written == before + SetsTokens(sets[..i])
      invariant w.room == room - |SetsTokens(sets[..i])|
    {
      ghost var entry, k := SlotSetTokens(sets[i]), w.room;
      ok := WriteSlotSet(sets[i], w);
      if !ok {
        assert Min(|entry|, k) == k;
        StoppedInEntry(sets, i, k);
        assert w.written == before + (SetsTokens(sets[..i]) + entry[..k]);
        return;
      }
      assert entry[..Min(|entry|, k)] == entry;
      assert sets[..i + 1][..i] == sets[..i];
      assert SetsTokens(sets[..i + 1]) == SetsTokens(sets[..i]) + entry;
    }
    assert sets[..|sets|] == sets;
    assert SetsTokens(sets)[..Min(|SetsTokens(sets)|, room)] == SetsTokens(sets);
  }

  /** The writing part of `Topo.MarshalRESP`: the header, then the entries. */
  method WriteReply(sets: seq<SlotSet>, w: Writer) returns (ok: bool)
    modifies w
    ensures ok == (|TopoTokens(sets)| <= old(w.room))
    ensures w.written == old(w.written) + TopoTokens(sets)[..Min(|TopoTokens(sets)|, old(w.room))]
  {
    ghost var room := w.room;
    ghost var before := w.written;
    ok := w.Write(ArrayHead(|sets|));
    if !ok {
      assert TopoTokens(sets)[..0] == [];
      return;
    }
    ok := WriteEntries(sets, w);
    HeadThenPrefix(ArrayHead(|sets|), SetsTokens(sets), room);
    assert w.written == before + ([ArrayHead(|sets|)] + SetsTokens(sets)[..Min(|SetsTokens(sets)|, room - 1)]);
  }

  /**
    `Topo.MarshalRESP`: groups the nodes by range, orders the entries by
    start, then writes the header and each entry; the first failing write
    ends the encoding, and what was written is the longest prefix of the
    reply the transport accepted.
  */
  method Marshal(tt: Topo, w: Writer) returns (ok: bool, ghost sets: seq<SlotSet>)
    modifies w
    ensures IsBucketList(sets, Buckets(tt))
    ensures ok == (|TopoTokens(sets)| <= old(w.room))
    ensures w.written == old(w.written) + TopoTokens(sets)[..Min(|TopoTokens(sets)|, old(w.room))]
  {
    var m := BucketByRange(tt);
    var allTSS := SlotSetsOf(m);
    sets := allTSS;
    ok := WriteReply(allTSS, w);
  }
}
