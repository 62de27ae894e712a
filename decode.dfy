/**
  `Topo.UnmarshalRESP` of `cluster2/topo.go`: reads the CLUSTER SLOTS reply
  entry by entry, merges the nodes that share an address into one, appends
  the merged nodes to the topology and sorts it.
*/
module TopoDecode {
  import opened Wrappers
  import opened Slots
  import opened Topology
  import opened Wire
  import opened SlotSetCodec

  // ---------------------------------------------------------------- parsing

  /** Reading `k` entries one after the other from position `p`. */
  ghost function ParseSets(input: seq<Token>, p: nat, k: nat): Result<(seq<SlotSet>, nat), DecodeError>
    decreases k
  {
    if k == 0 then Success(([], p))
    else
      match ParseSets(input, p, k - 1)
      case Failure(e) => Failure(e)
      case Success((sets, q)) =>
        match ParseSlotSet(input, q)
        case Failure(e) => Failure(e)
        case Success((tss, q')) => Success((sets + [tss], q'))
  }

  /** The whole reply: the outer header, then as many entries as it announces. */
  ghost function ParseTopo(input: seq<Token>): Result<seq<SlotSet>, DecodeError> {
    if !IsHeaderAt(input, 0) then Failure(ReadFailure(0))
    else
      match ParseSets(input, 1, input[0].n)
      case Failure(e) => Failure(e)
      case Success((sets, _)) => Success(sets)
  }

  /**
    Reading entries one after another: when entry `i` reads from `ends[i]` to
    `ends[i + 1]` giving `ds[i]`, reading them all gives `ds` and stops at the
    last end.
  */
  lemma {:induction false} ParseSetsFrom(input: seq<Token>, p: nat, ds: seq<SlotSet>, ends: seq<nat>)
    requires |ends| == |ds| + 1 && ends[0] == p
    requires forall i :: 0 <= i < |ds| ==> ParseSlotSet(input, ends[i]) == Success((ds[i], ends[i + 1]))
    ensures ParseSets(input, p, |ds|) == Success((ds, ends[|ds|]))
    decreases |ds|
  {
    if |ds| > 0 {
      var n := |ds| - 1;
      var ds', ends' := ds[..n], ends[..n + 1];
      forall i | 0 <= i < |ds'|
        ensures ParseSlotSet(input, ends'[i]) == Success((ds'[i], ends'[i + 1]))
      {
        assert ds'[i] == ds[i] && ends'[i] == ends[i] && ends'[i + 1] == ends[i + 1];
      }
      ParseSetsFrom(input, p, ds', ends');
      assert ParseSlotSet(input, ends[n]) == Success((ds[n], ends[n + 1]));
      assert ds' + [ds[n]] == ds;
    }
  }

  /** Once reading an entry failed, reading more entries fails the same way. */
  lemma {:induction false} ParseSetsFailurePersists(input: seq<Token>, p: nat, i: nat, k: nat)
    requires i <= k && ParseSets(input, p, i).Failure?
    ensures ParseSets(input, p, k) == ParseSets(input, p, i)
    decreases k
  {
    if i < k {
      ParseSetsFailurePersists(input, p, i, k - 1);
    }
  }

  /** Every node of every decoded entry owns exactly that entry's range. */
  ghost predicate Provisional(sets: seq<SlotSet>) {
    forall i, j :: 0 <= i < |sets| && 0 <= j < |sets[i].nodes| ==> sets[i].nodes[j].slots == [sets[i].slots]
  }

  lemma {:induction false} ParsedSetsProvisional(input: seq<Token>, p: nat, k: nat)
    requires ParseSets(input, p, k).Success?
    ensures Provisional(ParseSets(input, p, k).value.0)
    decreases k
  {
    if k > 0 {
      ParsedSetsProvisional(input, p, k - 1);
    }
  }

  // ------------------------------------------------------------------ merge

  /** The provisional nodes of all entries, entry by entry. */
  ghost function Flatten(sets: seq<SlotSet>): Topo {
    if |sets| == 0 then [] else Flatten(sets[..|sets| - 1]) + sets[|sets| - 1].nodes
  }

  /**
    The nodes after merging by address: one node per address that occurs;
    its ranges are those of all nodes with that address, in input order; its
    id and master fields are those of the first node with that address.
  */
  ghost function MergeSpec(ps: Topo): (m: map<string, Node>)
    ensures m.Keys == AddrSet(ps)
    ensures forall a :: a in m ==> m[a].addr == a
  {
    map a | a in AddrSet(ps) :: MergedAt(ps, a)
  }

  /** The merged node for one address that occurs. */
  ghost function MergedAt(ps: Topo, a: string): Node
    requires a in AddrSet(ps)
  {
    ps[FirstIndex(ps, a)].(slots := SlotsAt(ps, a))
  }

  lemma AddrSetSnoc(ps: Topo, n: Node)
    ensures AddrSet(ps + [n]) == AddrSet(ps) + {n.addr}
  {
    var ps' := ps + [n];
    forall a | a in AddrSet(ps')
      ensures a in AddrSet(ps) + {n.addr}
    {
      var i :| 0 <= i < |ps'| && ps'[i].addr == a;
      if i < |ps| { assert ps[i].addr == a; }
    }
    forall a | a in AddrSet(ps)
      ensures a in AddrSet(ps')
    {
      var i :| 0 <= i < |ps| && ps[i].addr == a;
      assert ps'[i].addr == a;
    }
    assert ps'[|ps|].addr == n.addr;
  }

  lemma FirstIndexSnoc(ps: Topo, n: Node, a: string)
    requires a in AddrSet(ps)
    ensures a in AddrSet(ps + [n]) && FirstIndex(ps + [n], a) == FirstIndex(ps, a)
  {
    AddrSetSnoc(ps, n);
    var ps' := ps + [n];
    var i := FirstIndex(ps, a);
    var i' := FirstIndex(ps', a);
    assert ps'[i].addr == a;
    assert i' <= i;
    assert ps[i'] == ps'[i'];
  }

  lemma FirstIndexNew(ps: Topo, n: Node)
    requires n.addr !in AddrSet(ps)
    ensures n.addr in AddrSet(ps + [n]) && FirstIndex(ps + [n], n.addr) == |ps|
  {
    AddrSetSnoc(ps, n);
    var ps' := ps + [n];
    assert ps'[|ps|].addr == n.addr;
    assert forall j :: 0 <= j < |ps| ==> ps'[j] == ps[j];
  }

  lemma SlotsAtSnoc(ps: Topo, n: Node, a: string)
    ensures SlotsAt(ps + [n], a) == SlotsAt(ps, a) + (if n.addr == a then n.slots else [])
  {
    assert (ps + [n])[..|ps|] == ps;
  }

  lemma MergedAtSnoc(ps: Topo, n: Node, a: string)
    requires a in AddrSet(ps)
    ensures a in AddrSet(ps + [n])
    ensures MergedAt(ps + [n], a) ==
      if a == n.addr then MergedAt(ps, a).(slots := MergedAt(ps, a).slots + n.slots) else MergedAt(ps, a)
  {
    SlotsAtSnoc(ps, n, a);
    FirstIndexSnoc(ps, n, a);
    var f := FirstIndex(ps, a);
    assert (ps + [n])[f] == ps[f];
  }

  lemma MergedAtNew(ps: Topo, n: Node)
    requires n.addr !in AddrSet(ps)
    ensures n.addr in AddrSet(ps + [n]) && MergedAt(ps + [n], n.addr) == n
  {
    SlotsAtSnoc(ps, n, n.addr);
    FirstIndexNew(ps, n);
    SlotsAtAbsent(ps, n.addr);
  }

  /** A map that agrees with `m[k := v]` on the same keys is `m[k := v]`. */
  lemma UpdatedAt<K, V>(m': map<K, V>, m: map<K, V>, k: K, v: V)
    requires k in m && m'.Keys == m.Keys
    requires forall a :: a in m' ==> m'[a] == if a == k then v else m[a]
    ensures m' == m[k := v]
  {
  }

  /** A node whose address is already present adds no address to the merge. */
  lemma MergeKeysPresent(ps: Topo, n: Node)
    requires n.addr in AddrSet(ps)
    ensures n.addr in MergeSpec(ps) && MergeSpec(ps + [n]).Keys == MergeSpec(ps).Keys
  {
    AddrSetSnoc(ps, n);
  }

  /** One address of the merge after a node whose address is already present. */
  lemma MergePresentAt(ps: Topo, n: Node, a: string)
    requires n.addr in AddrSet(ps) && a in AddrSet(ps + [n])
    ensures a in MergeSpec(ps)
    ensures MergeSpec(ps + [n])[a] ==
      if a == n.addr then MergeSpec(ps)[a].(slots := MergeSpec(ps)[a].slots + n.slots) else MergeSpec(ps)[a]
  {
    AddrSetSnoc(ps, n);
    MergedAtSnoc(ps, n, a);
  }

  /** Merging a node whose address is already present adds its ranges there. */
  lemma MergeStepPresent(ps: Topo, n: Node)
    requires n.addr in AddrSet(ps)
    ensures MergeSpec(ps + [n]) ==
      MergeSpec(ps)[n.addr := MergeSpec(ps)[n.addr].(slots := MergeSpec(ps)[n.addr].slots + n.slots)]
  {
    var m := MergeSpec(ps);
    var m' := MergeSpec(ps + [n]);
    var v := m[n.addr].(slots := m[n.addr].slots + n.slots);
    MergeKeysPresent(ps, n);
    forall a | a in m'
      ensures m'[a] == if a == n.addr then v else m[a]
    {
      MergePresentAt(ps, n, a);
    }
    UpdatedAt(m', m, n.addr, v);
  }

  /** Merging a node with a new address stores it as it is. */
  lemma MergeStepNew(ps: Topo, n: Node)
    requires n.addr !in AddrSet(ps)
    ensures MergeSpec(ps + [n]) == MergeSpec(ps)[n.addr := n]
  {
    var m := MergeSpec(ps);
    var m' := MergeSpec(ps + [n]);
    var upd := m[n.addr := n];
    AddrSetSnoc(ps, n);
    assert m'.Keys == upd.Keys;
    forall a | a in m'
      ensures m'[a] == upd[a]
    {
      if a == n.addr {
        MergedAtNew(ps, n);
      } else {
        MergedAtSnoc(ps, n, a);
      }
    }
  }

  /**
    The merge loop of `Topo.UnmarshalRESP`: a map from address to node,
    filled entry by entry; a node whose address is already present only adds
    its ranges to the node stored there.
  */
  method MergeByAddr(sets: seq<SlotSet>) returns (m: map<string, Node>)
    ensures m == MergeSpec(Flatten(sets))
  {
    m := map[];
    for i := 0 to |sets|
      invariant m == MergeSpec(Flatten(sets[..i]))
    {
      var tss := sets[i];
      assert sets[..i + 1][..i] == sets[..i];
      assert Flatten(sets[..i]) + tss.nodes[..0] == Flatten(sets[..i]);
      for j := 0 to |tss.nodes|
        invariant m == MergeSpec(Flatten(sets[..i]) + tss.nodes[..j])
      {
        var n := tss.nodes[j];
        ghost var ps := Flatten(sets[..i]) + tss.nodes[..j];
        assert tss.nodes[..j + 1] == tss.nodes[..j] + [n];
        assert Flatten(sets[..i]) + tss.nodes[..j + 1] == Flatten(sets[..i]) + tss.nodes[..j] + [n];
        if n.addr in m {
          MergeStepPresent(ps, n);
          var existing := m[n.addr];
          existing := existing.(slots := existing.slots + n.slots);
          m := m[n.addr := existing];
        } else {
          MergeStepNew(ps, n);
          m := m[n.addr := n];
        }
      }
      assert tss.nodes[..|tss.nodes|] == tss.nodes;
    }
    assert sets[..|sets|] == sets;
  }

  // ------------------------------------------------------------- properties

  /** The number of times address `a` is listed among the entries for range `x`. */
  ghost function Listings(sets: seq<SlotSet>, a: string, x: SlotRange): nat {
    if |sets| == 0 then 0
    else
      Listings(sets[..|sets| - 1], a, x)
      + (if sets[|sets| - 1].slots == x then multiset(Addrs(sets[|sets| - 1].nodes))[a] else 0)
  }

  /** In nodes that all own one range `r`, address `a` owns `r` once per listing. */
  lemma {:induction false} SlotsAtUniform(ns: Topo, r: SlotRange, a: string, x: SlotRange)
    requires forall j :: 0 <= j < |ns| ==> ns[j].slots == [r]
    ensures multiset(SlotsAt(ns, a))[x] == if x == r then multiset(Addrs(ns))[a] else 0
    decreases |ns|
  {
    if |ns| > 0 {
      var init := ns[..|ns| - 1];
      SlotsAtUniform(init, r, a, x);
      assert Addrs(ns) == Addrs(init) + [ns[|ns| - 1].addr];
    }
  }

  /**
    Merging gives an address exactly the ranges of the entries that listed
    it, counted as often as they listed it.
  */
  lemma {:induction false} MergedSlots(sets: seq<SlotSet>, a: string, x: SlotRange)
    requires Provisional(sets)
    ensures multiset(SlotsAt(Flatten(sets), a))[x] == Listings(sets, a, x)
    decreases |sets|
  {
    if |sets| > 0 {
      var init := sets[..|sets| - 1];
      var last := sets[|sets| - 1];
      assert Provisional(init) by {
        forall i, j | 0 <= i < |init| && 0 <= j < |init[i].nodes|
          ensures init[i].nodes[j].slots == [init[i].slots]
        {
          assert init[i] == sets[i];
        }
      }
      MergedSlots(init, a, x);
      SlotsAtConcat(Flatten(init), last.nodes, a);
      SlotsAtUniform(last.nodes, last.slots, a, x);
    }
  }

  /**
    Merging takes a node's id and master fields from the first provisional
    node with its address.
  */
  lemma MergedIdentity(ps: Topo, i: int)
    requires 0 <= i < |ps| && forall j :: 0 <= j < i ==> ps[j].addr != ps[i].addr
    ensures var n := MergeSpec(ps)[ps[i].addr];
      n.id == ps[i].id && n.slaveOfAddr == ps[i].slaveOfAddr && n.slaveOfId == ps[i].slaveOfId
  {
    assert ps[i].addr in AddrSet(ps);
    var f := FirstIndex(ps, ps[i].addr);
    assert f == i;
  }

  /** Every merged node owns a range when every provisional node does. */
  lemma MergedOwnSlots(ps: Topo, a: string)
    requires AllOwnSlots(ps) && a in MergeSpec(ps)
    ensures |MergeSpec(ps)[a].slots| > 0
  {
    SlotsAtNonEmpty(ps, a);
  }

  lemma {:induction false} FlattenOwnSlots(sets: seq<SlotSet>)
    requires Provisional(sets)
    ensures AllOwnSlots(Flatten(sets))
    decreases |sets|
  {
    if |sets| > 0 {
      var init := sets[..|sets| - 1];
      assert Provisional(init) by {
        forall i, j | 0 <= i < |init| && 0 <= j < |init[i].nodes|
          ensures init[i].nodes[j].slots == [init[i].slots]
        {
          assert init[i] == sets[i];
        }
      }
      FlattenOwnSlots(init);
    }
  }

  // ------------------------------------------------------------------ decode

  /** `s` lists the nodes of `m`, each exactly once, in some order. */
  ghost predicate Enumerates(s: Topo, m: map<string, Node>) {
    && AddrSet(s) == m.Keys
    && UniqueAddrs(s)
    && forall i :: 0 <= i < |s| ==> s[i].addr in m && m[s[i].addr] == s[i]
  }

  /**
    The reading half of `Topo.UnmarshalRESP`: the outer header, then each
    entry in turn; the first error ends the read.
  */
  method ReadSlotSets(input: seq<Token>) returns (res: Result<seq<SlotSet>, DecodeError>)
    ensures res == ParseTopo(input)
  {
    if !IsHeaderAt(input, 0) {
      return Failure(ReadFailure(0));
    }
    var n := input[0].n;
    var slotSets: seq<SlotSet> := [];
    var pos := 1;
    for i := 0 to n
      invariant ParseSets(input, 1, i) == Success((slotSets, pos))
    {
      var r := ReadSlotSet(input, pos);
      if r.Failure? {
        ParseSetsFailurePersists(input, 1, i + 1, n);
        return Failure(r.error);
      }
      slotSets := slotSets + [r.value.0];
      pos := r.value.1;
    }
    return Success(slotSets);
  }

  /** Distinct addresses are as many as the nodes that carry them. */
  lemma {:induction false} UniqueAddrsCount(s: Topo)
    requires UniqueAddrs(s)
    ensures |AddrSet(s)| == |s|
  {
    if s != [] {
      var p := s[..|s| - 1];
      assert s == p + [s[|s| - 1]];
      AddrSetSnoc(p, s[|s| - 1]);
      assert UniqueAddrs(p);
      UniqueAddrsCount(p);
      assert s[|s| - 1].addr !in AddrSet(p);
    }
  }

  /** A sequence that enumerates a map has one node per key. */
  lemma EnumeratesCount(s: Topo, m: map<string, Node>)
    requires Enumerates(s, m)
    ensures |s| == |m|
  {
    UniqueAddrsCount(s);
  }

  /**
    The appending half of `Topo.UnmarshalRESP`: every merged node is appended
    once, in the map's iteration order, which Go leaves unspecified and the
    model leaves open.
  */
  method AppendMerged(tt: Topo, m: map<string, Node>) returns (out: Topo, ghost added: Topo)
    requires forall a :: a in m ==> m[a].addr == a
    ensures out == tt + added && Enumerates(added, m)
  {
    added := [];
    out := tt;
    var keys := m.Keys;
    while keys != {}
      invariant keys <= m.Keys
      invariant out == tt + added
      invariant AddrSet(added) == m.Keys - keys
      invariant UniqueAddrs(added)
      invariant forall i :: 0 <= i < |added| ==> added[i].addr in m && m[added[i].addr] == added[i]
      decreases keys
    {
      var a :| a in keys;
      AddrSetSnoc(added, m[a]);
      out := out + [m[a]];
      added := added + [m[a]];
      keys := keys - {a};
    }
  }

  /**
    `Topo.UnmarshalRESP`. On failure the topology `tt` is returned unchanged,
    since nothing is appended before every entry has been read. On success
    the merged nodes are appended to the nodes already in `tt`, and the whole
    topology is sorted. The sort compares nodes only when there are two or
    more of them, and only then needs each node to own a range.
  */
  method Unmarshal(tt: Topo, input: seq<Token>) returns (err: Option<DecodeError>, out: Topo, ghost added: Topo)
    requires ParseTopo(input).Success? && |tt| + |MergeSpec(Flatten(ParseTopo(input).value))| >= 2 ==> AllOwnSlots(tt)
    ensures err.Some? <==> ParseTopo(input).Failure?
    ensures err.Some? ==> err.value == ParseTopo(input).error && out == tt
    ensures err.None? ==>
      && Enumerates(added, MergeSpec(Flatten(ParseTopo(input).value)))
      && multiset(Views(out)) == multiset(Views(tt + added))
      && |out| == |tt| + |MergeSpec(Flatten(ParseTopo(input).value))|
      && Canonical(out)
      && (AllOwnSlots(tt) ==> AllOwnSlots(out))
  {
    added := [];
    var res := ReadSlotSets(input);
    if res.Failure? {
      return Some(res.error), tt, added;
    }
    var slotSets := res.value;
    ParsedSetsProvisional(input, 1, input[0].n);
    FlattenOwnSlots(slotSets);
    var m := MergeByAddr(slotSets);
    out, added := AppendMerged(tt, m);
    EnumeratesCount(added, m);
    assert AllOwnSlots(tt) ==> AllOwnSlots(out) by {
      forall i | |tt| <= i < |out|
        ensures |out[i].slots| > 0
      {
        assert out[i] == added[i - |tt|];
        MergedOwnSlots(Flatten(slotSets), added[i - |tt|].addr);
      }
    }
    var a := new Node[|out|](i requires 0 <= i < |out| => out[i]);
    assert a[..] == out;
    Sort(a);
    out := a[..];
    err := None;
  }
}
