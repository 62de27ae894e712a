/**
  Encoding a topology and decoding the reply gives the topology back, up to
  the order sorting leaves open, when the topology is one a CLUSTER SLOTS
  reply can describe: addresses are unique and of the form `host:port`,
  every node owns a range, and in every range's entry the first node is a
  master and every later node a replica of it.
*/
module RoundTrip {
  import opened Wrappers
  import opened Slots
  import opened Topology
  import opened Wire
  import opened SlotSetCodec
  import opened TopoDecode
  import opened TopoEncode
  import Sorting

  // ------------------------------------------------------------ preconditions

  /** The first node is a master and every later node a replica of the first. */
  ghost predicate MasterFirst(ns: seq<Node>) {
    && (|ns| > 0 ==> ns[0].slaveOfAddr == "" && ns[0].slaveOfId == "")
    && (forall j :: 0 < j < |ns| ==> ns[j].slaveOfAddr == ns[0].addr && ns[j].slaveOfId == ns[0].id)
  }

  /** Every node's address splits back into the host and port it was joined from. */
  ghost predicate AllSplitBack(ns: seq<Node>) {
    forall j :: 0 <= j < |ns| ==> SplitsBack(ns[j].addr)
  }

  /** A topology the CLUSTER SLOTS reply can describe. */
  ghost predicate Encodable(tt: Topo) {
    && UniqueAddrs(tt)
    && AllSplitBack(tt)
    && AllOwnSlots(tt)
    && forall r :: r in RangesOf(tt) ==> MasterFirst(Bucket(tt, r))
  }

  // ------------------------------------------------------------- reading back

  /** The entries decode rebuilds from the values written for `sets`. */
  ghost function RedecodedAll(sets: seq<SlotSet>): seq<SlotSet>
  {
    seq(|sets|, i requires 0 <= i < |sets| => Redecoded(sets[i]))
  }

  /** Values `a + b` standing at `pos` are `a` there and `b` right after. */
  lemma TokensAtSplit(input: seq<Token>, pos: nat, a: seq<Token>, b: seq<Token>)
    requires TokensAt(input, pos, a + b)
    ensures TokensAt(input, pos, a) && TokensAt(input, pos + |a|, b)
  {
    forall j | 0 <= j < |a|
      ensures input[pos + j] == a[j]
    {
      assert (a + b)[j] == a[j];
    }
    forall j | 0 <= j < |b|
      ensures input[pos + |a| + j] == b[j]
    {
      assert (a + b)[|a| + j] == b[j];
    }
  }

  /** Where the values written for entry `i` start, counted from `pos`. */
  ghost function EntryEnds(pos: nat, sets: seq<SlotSet>): seq<nat> {
    seq(|sets| + 1, i requires 0 <= i <= |sets| => pos + |SetsTokens(sets[..i])|)
  }

  /** The values written for entry `i` stand right after those of the entries before it. */
  lemma EntryTokensAt(input: seq<Token>, pos: nat, sets: seq<SlotSet>, i: int)
    requires TokensAt(input, pos, SetsTokens(sets)) && 0 <= i < |sets|
    ensures TokensAt(input, pos + |SetsTokens(sets[..i])|, SlotSetTokens(sets[i]))
    ensures |SetsTokens(sets[..i + 1])| == |SetsTokens(sets[..i])| + |SlotSetTokens(sets[i])|
  {
    var pre, entry, post := SetsTokens(sets[..i]), SlotSetTokens(sets[i]), SetsTokens(sets[i + 1..]);
    TokensAround(sets, i);
    TokensAtSplit(input, pos, pre + entry, post);
    TokensAtSplit(input, pos, pre, entry);
  }

  /** Entry `i` of a written list reads back from where it was written. */
  lemma {:induction false} EntryReadsBack(input: seq<Token>, pos: nat, sets: seq<SlotSet>, i: int)
    requires TokensAt(input, pos, SetsTokens(sets)) && 0 <= i < |sets|
    ensures var ends := EntryEnds(pos, sets);
      ParseSlotSet(input, ends[i]) == Success((RedecodedAll(sets)[i], ends[i + 1]))
  {
    var ends := EntryEnds(pos, sets);
    EntryTokensAt(input, pos, sets, i);
    assert ends[i] == pos + |SetsTokens(sets[..i])|;
    assert ends[i + 1] == ends[i] + |SlotSetTokens(sets[i])|;
    assert RedecodedAll(sets)[i] == Redecoded(sets[i]);
    ParseSlotSetTokens(input, ends[i], sets[i]);
  }

  /**
    Reading entries from where the values written for `sets` start, wherever
    that is, gives every entry back and stops right after them.
  */
  lemma {:induction false} ParseSetsAt(input: seq<Token>, pos: nat, sets: seq<SlotSet>)
    requires TokensAt(input, pos, SetsTokens(sets))
    ensures ParseSets(input, pos, |sets|) == Success((RedecodedAll(sets), pos + |SetsTokens(sets)|))
  {
    var ds, ends := RedecodedAll(sets), EntryEnds(pos, sets);
    forall i | 0 <= i < |ds|
      ensures ParseSlotSet(input, ends[i]) == Success((ds[i], ends[i + 1]))
    {
      EntryReadsBack(input, pos, sets, i);
    }
    assert sets[..|sets|] == sets;
    assert |ds| == |sets| && ends[|sets|] == pos + |SetsTokens(sets)|;
    ParseSetsFrom(input, pos, ds, ends);
  }

  /** Decoding the whole written reply succeeds and gives every entry back. */
  lemma ParseTopoTokens(sets: seq<SlotSet>)
    ensures ParseTopo(TopoTokens(sets)) == Success(RedecodedAll(sets))
  {
    var input := TopoTokens(sets);
    assert TokensAt(input, 1, SetsTokens(sets));
    ParseSetsAt(input, 1, sets);
  }

  /**
    A node decoded from what was written for entry `tss` has the written
    node's address and id and only that entry's range; the first is a master
    and every later one names the first as its master.
  */
  lemma RedecodedNodeAt(tss: SlotSet, j: int)
    requires 0 <= j < |tss.nodes| && AllSplitBack(tss.nodes)
    ensures var d := Redecoded(tss).nodes[j];
      && d.addr == tss.nodes[j].addr
      && d.id == tss.nodes[j].id
      && d.slots == [tss.slots]
      && d.slaveOfAddr == (if j == 0 then "" else tss.nodes[0].addr)
      && d.slaveOfId == (if j == 0 then "" else tss.nodes[0].id)
  {
    var strs := NodeStrs(tss.nodes[j]);
    var strs0 := NodeStrs(tss.nodes[0]);
    assert JoinAddr(strs[0], strs[1]) == tss.nodes[j].addr;
    assert JoinAddr(strs0[0], strs0[1]) == tss.nodes[0].addr;
  }

  lemma RedecodedAddrs(tss: SlotSet)
    requires AllSplitBack(tss.nodes)
    ensures Addrs(Redecoded(tss).nodes) == Addrs(tss.nodes)
  {
    forall j | 0 <= j < |tss.nodes|
      ensures Redecoded(tss).nodes[j].addr == tss.nodes[j].addr
    {
      RedecodedNodeAt(tss, j);
    }
  }

  lemma RedecodedProvisional(sets: seq<SlotSet>)
    ensures Provisional(RedecodedAll(sets))
  {
  }

  // ------------------------------------------------------------ listings

  /** With distinct ranges, the listings for range `x` are those of its one entry. */
  lemma {:induction false} ListingsFound(sets: seq<SlotSet>, a: string, x: SlotRange, i: int)
    requires forall p, q :: 0 <= p < q < |sets| ==> sets[p].slots != sets[q].slots
    requires 0 <= i < |sets| && sets[i].slots == x
    ensures Listings(sets, a, x) == multiset(Addrs(sets[i].nodes))[a]
    decreases |sets|
  {
    var init := sets[..|sets| - 1];
    if i == |sets| - 1 {
      ListingsAbsent(init, a, x);
    } else {
      assert init[i] == sets[i];
      ListingsFound(init, a, x, i);
    }
  }

  /** A range without an entry is listed nowhere. */
  lemma {:induction false} ListingsAbsent(sets: seq<SlotSet>, a: string, x: SlotRange)
    requires forall i :: 0 <= i < |sets| ==> sets[i].slots != x
    ensures Listings(sets, a, x) == 0
    decreases |sets|
  {
    if |sets| > 0 {
      ListingsAbsent(sets[..|sets| - 1], a, x);
    }
  }

  /** Decoding a written entry keeps the addresses it lists. */
  lemma {:induction false} ListingsRedecoded(sets: seq<SlotSet>, a: string, x: SlotRange)
    requires forall i :: 0 <= i < |sets| ==> AllSplitBack(sets[i].nodes)
    ensures Listings(RedecodedAll(sets), a, x) == Listings(sets, a, x)
    decreases |sets|
  {
    if |sets| > 0 {
      var init := sets[..|sets| - 1];
      assert RedecodedAll(sets)[..|sets| - 1] == RedecodedAll(init);
      ListingsRedecoded(init, a, x);
      RedecodedAddrs(sets[|sets| - 1]);
    }
  }

  /** In the encoder's entries, an address is listed under a range as often as it owns it. */
  lemma BucketListListings(tt: Topo, sets: seq<SlotSet>, a: string, x: SlotRange)
    requires IsBucketList(sets, Buckets(tt))
    ensures Listings(sets, a, x) == multiset(SlotsAt(tt, a))[x]
  {
    BucketCount(tt, x, a);
    if x in RangesOf(tt) {
      assert x in RangeSet(sets);
      var i :| 0 <= i < |sets| && sets[i].slots == x;
      ListingsFound(sets, a, x, i);
    } else {
      BucketEmptyIff(tt, x);
      ListingsAbsent(sets, a, x);
    }
  }

  /** The encoder only lists nodes of the topology. */
  lemma EntriesSplitBack(tt: Topo, sets: seq<SlotSet>)
    requires IsBucketList(sets, Buckets(tt)) && AllSplitBack(tt)
    ensures forall i :: 0 <= i < |sets| ==> AllSplitBack(sets[i].nodes)
  {
    forall i, j | 0 <= i < |sets| && 0 <= j < |sets[i].nodes|
      ensures SplitsBack(sets[i].nodes[j].addr)
    {
      BucketMembers(tt, sets[i].slots, j);
    }
  }

  /** After the round trip an address owns every range as often as it did before. */
  lemma CountsAgree(tt: Topo, sets: seq<SlotSet>, a: string, x: SlotRange)
    requires IsBucketList(sets, Buckets(tt)) && AllSplitBack(tt)
    ensures multiset(SlotsAt(Flatten(RedecodedAll(sets)), a))[x] == multiset(SlotsAt(tt, a))[x]
  {
    RedecodedProvisional(sets);
    MergedSlots(RedecodedAll(sets), a, x);
    EntriesSplitBack(tt, sets);
    ListingsRedecoded(sets, a, x);
    BucketListListings(tt, sets, a, x);
  }

  /** The decoded nodes carry exactly the addresses of the topology. */
  lemma KeysAgree(tt: Topo, sets: seq<SlotSet>)
    requires IsBucketList(sets, Buckets(tt)) && AllSplitBack(tt) && AllOwnSlots(tt)
    ensures AddrSet(Flatten(RedecodedAll(sets))) == AddrSet(tt)
  {
    var ps := Flatten(RedecodedAll(sets));
    RedecodedProvisional(sets);
    FlattenOwnSlots(RedecodedAll(sets));
    forall a | a in AddrSet(ps)
      ensures a in AddrSet(tt)
    {
      SlotsAtNonEmpty(ps, a);
      var x := SlotsAt(ps, a)[0];
      CountsAgree(tt, sets, a, x);
      assert x in multiset(SlotsAt(tt, a));
      SlotsAtOwned(tt, a, x);
    }
    forall a | a in AddrSet(tt)
      ensures a in AddrSet(ps)
    {
      SlotsAtNonEmpty(tt, a);
      var x := SlotsAt(tt, a)[0];
      CountsAgree(tt, sets, a, x);
      assert x in multiset(SlotsAt(ps, a));
      SlotsAtOwned(ps, a, x);
    }
  }

  // --------------------------------------------------------------- identity

  /** Position `f` of the flattened nodes is node `j` of entry `e`. */
  lemma {:induction false} FlattenAt(sets: seq<SlotSet>, f: int) returns (e: int, j: int)
    requires 0 <= f < |Flatten(sets)|
    ensures 0 <= e < |sets| && 0 <= j < |sets[e].nodes| && Flatten(sets)[f] == sets[e].nodes[j]
    decreases |sets|
  {
    var init := sets[..|sets| - 1];
    if f < |Flatten(init)| {
      e, j := FlattenAt(init, f);
      assert init[e] == sets[e];
    } else {
      e, j := |sets| - 1, f - |Flatten(init)|;
    }
  }

  /** Each node of the topology comes back with the same ranges, up to order. */
  lemma SlotsComeBack(tt: Topo, sets: seq<SlotSet>, k: int)
    requires IsBucketList(sets, Buckets(tt)) && AllSplitBack(tt) && UniqueAddrs(tt) && 0 <= k < |tt|
    ensures multiset(SlotsAt(Flatten(RedecodedAll(sets)), tt[k].addr)) == multiset(tt[k].slots)
  {
    var ps := Flatten(RedecodedAll(sets));
    forall x
      ensures multiset(SlotsAt(ps, tt[k].addr))[x] == multiset(tt[k].slots)[x]
    {
      CountsAgree(tt, sets, tt[k].addr, x);
      SlotsAtUnique(tt, k);
    }
  }

  /** The first decoded node with a node's address has that node's id and master. */
  lemma IdentityComesBack(tt: Topo, sets: seq<SlotSet>, k: int)
    requires Encodable(tt) && IsBucketList(sets, Buckets(tt)) && 0 <= k < |tt|
    ensures var ps := Flatten(RedecodedAll(sets));
      && tt[k].addr in AddrSet(ps)
      && ps[FirstIndex(ps, tt[k].addr)].id == tt[k].id
      && ps[FirstIndex(ps, tt[k].addr)].slaveOfAddr == tt[k].slaveOfAddr
      && ps[FirstIndex(ps, tt[k].addr)].slaveOfId == tt[k].slaveOfId
  {
    var ds := RedecodedAll(sets);
    var ps := Flatten(ds);
    var a := tt[k].addr;
    KeysAgree(tt, sets);
    assert a in AddrSet(tt);
    var f := FirstIndex(ps, a);
    var e, j := FlattenAt(ds, f);
    EntriesSplitBack(tt, sets);
    RedecodedNodeAt(sets[e], j);
    var r := sets[e].slots;
    assert sets[e].nodes == Bucket(tt, r);
    BucketMembers(tt, r, j);
    var n := sets[e].nodes[j];
    var k' :| 0 <= k' < |tt| && tt[k'] == n;
    assert n == tt[k];
    assert r in RangesOf(tt);
    assert MasterFirst(Bucket(tt, r));
  }

  /** Each node of the topology comes back with the same view. */
  lemma NodeComesBack(tt: Topo, sets: seq<SlotSet>, k: int)
    requires Encodable(tt) && IsBucketList(sets, Buckets(tt)) && 0 <= k < |tt|
    ensures var m := MergeSpec(Flatten(RedecodedAll(sets)));
      tt[k].addr in m && View(m[tt[k].addr]) == View(tt[k])
  {
    var ps := Flatten(RedecodedAll(sets));
    IdentityComesBack(tt, sets, k);
    SlotsComeBack(tt, sets, k);
    assert MergeSpec(ps)[tt[k].addr] == MergedAt(ps, tt[k].addr);
  }

  // ------------------------------------------------------------- round trip

  /** Listing the nodes of a map gives the views of any topology whose nodes the map holds by address. */
  lemma SameViewsByAddr(s: Topo, t: Topo, m: map<string, Node>)
    requires Enumerates(s, m) && UniqueAddrs(t) && AddrSet(t) == m.Keys
    requires forall i :: 0 <= i < |t| ==> t[i].addr in m && View(m[t[i].addr]) == View(t[i])
    ensures multiset(Views(s)) == multiset(Views(t))
  {
    var vs, vt := Views(s), Views(t);
    forall v | v in vs
      ensures v in vt
    {
      var k :| 0 <= k < |vs| && vs[k] == v;
      var a := s[k].addr;
      assert a in AddrSet(s);
      var i :| 0 <= i < |t| && t[i].addr == a;
      assert vt[i] == v;
    }
    forall v | v in vt
      ensures v in vs
    {
      var i :| 0 <= i < |vt| && vt[i] == v;
      var a := t[i].addr;
      assert a in AddrSet(t);
      var k :| 0 <= k < |s| && s[k].addr == a;
      assert vs[k] == v;
    }
    Sorting.DistinctSameElements(vs, vt);
  }

  /**
    The round trip: decoding what the encoder writes for an encodable
    topology succeeds, and the merged nodes, in whatever order the map
    yields them, are the topology's nodes up to the order of each node's
    ranges.
  */
  lemma RoundTripViews(tt: Topo, sets: seq<SlotSet>, added: Topo)
    requires Encodable(tt) && IsBucketList(sets, Buckets(tt))
    ensures ParseTopo(TopoTokens(sets)) == Success(RedecodedAll(sets))
    ensures Enumerates(added, MergeSpec(Flatten(RedecodedAll(sets)))) ==>
      multiset(Views(added)) == multiset(Views(tt))
  {
    ParseTopoTokens(sets);
    var m := MergeSpec(Flatten(RedecodedAll(sets)));
    if Enumerates(added, m) {
      KeysAgree(tt, sets);
      forall i | 0 <= i < |tt|
        ensures tt[i].addr in m && View(m[tt[i].addr]) == View(tt[i])
      {
        NodeComesBack(tt, sets, i);
      }
      SameViewsByAddr(added, tt, m);
    }
  }

  /**
    Encoding into a transport that accepts `room` writes and decoding what
    was written into an empty topology: when the whole reply was written, the
    decoded topology is in canonical order and holds the original nodes, as
    sorting the original would (the order of ties aside).
  */
  method EncodeThenDecode(tt: Topo, room: nat) returns (ok: bool, out: Topo, ghost sets: seq<SlotSet>)
    requires Encodable(tt)
    ensures IsBucketList(sets, Buckets(tt))
    ensures ok == (|TopoTokens(sets)| <= room)
    ensures ok ==> Canonical(out) && multiset(Views(out)) == multiset(Views(tt))
  {
    var w := new Writer(room);
    ok, sets := Marshal(tt, w);
    out := [];
    if ok {
      assert w.written == TopoTokens(sets);
      var err, decoded, added := Unmarshal([], w.written);
      RoundTripViews(tt, sets, added);
      assert [] + added == added;
      out := decoded;
    }
  }
}
