/**
  The topology model of `cluster2/topo.go`: a `Node` per cluster member and a
  `Topo` as a sequence of nodes, their canonical order (`Topo.sort`) and the
  lookup by address (`Topo.Map`).
*/
module Topology {
  import opened Wrappers
  import opened Slots
  import Sorting

  /**
    One cluster member. `id` may be empty (older servers omit it). Each range
    in `slots` is half-open. A replica names its master by copied address and
    id; a master has both empty.
  */
  datatype Node = Node(addr: string, id: string, slots: seq<SlotRange>, slaveOfAddr: string, slaveOfId: string)

  /** The topology: a Go slice of nodes. */
  type Topo = seq<Node>

  // ---------------------------------------------------------------- addresses

  /** The address decode builds from a host and a port. */
  function JoinAddr(host: string, port: string): string {
    host + ":" + port
  }

  /** Index of the last ':' in `s`, or -1 when there is none. */
  function LastColon(s: string): (i: int)
    ensures -1 <= i < |s|
    ensures 0 <= i ==> s[i] == ':' && forall k :: i < k < |s| ==> s[k] != ':'
    ensures i == -1 ==> forall k :: 0 <= k < |s| ==> s[k] != ':'
  {
    if |s| == 0 then -1
    else if s[|s| - 1] == ':' then |s| - 1
    else LastColon(s[..|s| - 1])
  }

  /** Index of the first `c` in `s`, or -1 when there is none. */
  function IndexOfChar(s: string, c: char): (i: int)
    ensures -1 <= i < |s|
    ensures 0 <= i ==> s[i] == c && forall k :: 0 <= k < i ==> s[k] != c
    ensures i == -1 ==> c !in s
  {
    if |s| == 0 then -1
    else if s[0] == c then 0
    else
      var j := IndexOfChar(s[1..], c);
      if j < 0 then -1 else j + 1
  }

  /**
    Go's `net.SplitHostPort`: the port follows the last ':'. A host in
    brackets must be closed by the ']' just before that ':'; an unbracketed
    host may hold no ':' ("too many colons"). No other '[' or ']' may occur.
    `None` stands for each of the function's errors.
  */
  function SplitHostPort(addr: string): (r: Option<(string, string)>)
    ensures r.Some? ==> ':' !in r.value.1
    ensures r.Some? ==> |addr| > 0 && (addr[0] != '[' ==> JoinAddr(r.value.0, r.value.1) == addr)
  {
    var i := LastColon(addr);
    if i < 0 then None
    else if addr[0] == '[' then
      var end := IndexOfChar(addr, ']');
      if end < 0 || end + 1 != i then None
      else if '[' in addr[1..] || ']' in addr[end + 1..] then None
      else Some((addr[1..end], addr[i + 1..]))
    else if ':' in addr[..i] || '[' in addr || ']' in addr then None
    else Some((addr[..i], addr[i + 1..]))
  }

  /**
    The host and port the encoder writes for an address: `net.SplitHostPort`'s
    result, whose error the encoder ignores, so that an address it rejects
    gives two empty strings.
  */
  function SplitAddr(addr: string): (string, string) {
    var r := SplitHostPort(addr);
    if r.Some? then r.value else ("", "")
  }

  /** An address that splits back into the very pair it was joined from. */
  predicate SplitsBack(addr: string) {
    JoinAddr(SplitAddr(addr).0, SplitAddr(addr).1) == addr
  }

  /** A host or port that holds no ':', '[' or ']'. */
  predicate Plain(s: string) {
    ':' !in s && '[' !in s && ']' !in s
  }

  /** Splitting undoes joining whenever host and port are plain. */
  lemma SplitJoin(host: string, port: string)
    requires Plain(host) && Plain(port)
    ensures SplitAddr(JoinAddr(host, port)) == (host, port)
  {
    var a := JoinAddr(host, port);
    assert a[|host|] == ':';
    assert forall k :: 0 <= k < |host| ==> a[k] == host[k];
    assert forall k :: |host| < k < |a| ==> a[k] == port[k - |host| - 1];
    var i := LastColon(a);
    assert i == |host|;
    assert a[..i] == host;
    assert a[i + 1..] == port;
    assert '[' !in a && ']' !in a;
  }

  /**
    An address splits back exactly when it holds exactly one ':' and no
    bracket: a bracketed host loses its brackets when split, and a host with
    a ':' of its own is rejected.
  */
  lemma SplitsBackIff(addr: string)
    ensures SplitsBack(addr) <==>
      && '[' !in addr && ']' !in addr
      && exists k :: 0 <= k < |addr| && addr[k] == ':' && ':' !in addr[..k] && ':' !in addr[k + 1..]
  {
    var i := LastColon(addr);
    if SplitsBack(addr) {
      assert addr[i] == ':' && ':' !in addr[..i] && ':' !in addr[i + 1..];
    }
    if '[' !in addr && ']' !in addr && exists k :: 0 <= k < |addr| && addr[k] == ':' && ':' !in addr[..k] && ':' !in addr[k + 1..] {
      var k :| 0 <= k < |addr| && addr[k] == ':' && ':' !in addr[..k] && ':' !in addr[k + 1..];
      assert i == k;
      assert addr == addr[..k] + ":" + addr[k + 1..];
    }
  }

  /**
    The address decode builds for an IPv6 host, such as `::1`, holds more
    than one ':', so the encoder writes it back as two empty strings.
  */
  lemma ColonHostLost(host: string, port: string)
    requires ':' in host && '[' !in host
    ensures SplitAddr(JoinAddr(host, port)) == ("", "")
    ensures !SplitsBack(JoinAddr(host, port))
  {
    var a := JoinAddr(host, port);
    var k :| 0 <= k < |host| && host[k] == ':';
    assert a[k] == ':' && a[|host|] == ':' && a[0] == host[0];
    var i := LastColon(a);
    assert a[..i][k] == ':';
    assert |JoinAddr("", "")| == 1 < |a|;
  }

  // ------------------------------------------------------- nodes by address

  /** The addresses of the nodes, in order. */
  function Addrs(tt: Topo): (as_: seq<string>)
    ensures |as_| == |tt| && forall i :: 0 <= i < |tt| ==> as_[i] == tt[i].addr
  {
    seq(|tt|, i requires 0 <= i < |tt| => tt[i].addr)
  }

  /** The set of addresses that occur. */
  ghost function AddrSet(tt: Topo): set<string> {
    set i | 0 <= i < |tt| :: tt[i].addr
  }

  /** No address occurs twice. */
  ghost predicate UniqueAddrs(tt: Topo) {
    forall i, j :: 0 <= i < j < |tt| ==> tt[i].addr != tt[j].addr
  }

  /** All ranges of the nodes with address `a`, in node order. */
  ghost function SlotsAt(tt: Topo, a: string): seq<SlotRange> {
    if |tt| == 0 then []
    else SlotsAt(tt[..|tt| - 1], a) + (if tt[|tt| - 1].addr == a then tt[|tt| - 1].slots else [])
  }

  /** The position of the first node with address `a`. */
  ghost function FirstIndex(tt: Topo, a: string): (i: nat)
    requires a in AddrSet(tt)
    ensures i < |tt| && tt[i].addr == a
    ensures forall j :: 0 <= j < i ==> tt[j].addr != a
  {
    if tt[0].addr == a then 0
    else
      var j :| 0 <= j < |tt| && tt[j].addr == a;
      assert tt[1..][j - 1].addr == a;
      1 + FirstIndex(tt[1..], a)
  }

  lemma {:induction false} SlotsAtConcat(p: Topo, q: Topo, a: string)
    ensures SlotsAt(p + q, a) == SlotsAt(p, a) + SlotsAt(q, a)
    decreases |q|
  {
    if |q| > 0 {
      assert (p + q)[..|p + q| - 1] == p + q[..|q| - 1];
      SlotsAtConcat(p, q[..|q| - 1], a);
    } else {
      assert p + q == p;
    }
  }

  /** With unique addresses, the ranges at a node's address are that node's own. */
  lemma {:induction false} SlotsAtUnique(tt: Topo, k: int)
    requires UniqueAddrs(tt) && 0 <= k < |tt|
    ensures SlotsAt(tt, tt[k].addr) == tt[k].slots
    decreases |tt|
  {
    var init := tt[..|tt| - 1];
    if k < |tt| - 1 {
      SlotsAtUnique(init, k);
    } else {
      SlotsAtAbsent(init, tt[k].addr);
    }
  }

  /** An address that does not occur owns no ranges. */
  lemma {:induction false} SlotsAtAbsent(tt: Topo, a: string)
    requires forall i :: 0 <= i < |tt| ==> tt[i].addr != a
    ensures SlotsAt(tt, a) == []
    decreases |tt|
  {
    if |tt| > 0 {
      SlotsAtAbsent(tt[..|tt| - 1], a);
    }
  }

  /** Every range at address `a` is a range of some node. */
  lemma {:induction false} SlotsAtOwned(tt: Topo, a: string, x: SlotRange)
    requires x in SlotsAt(tt, a)
    ensures exists i :: 0 <= i < |tt| && tt[i].addr == a && x in tt[i].slots
    decreases |tt|
  {
    var init := tt[..|tt| - 1];
    if x in SlotsAt(init, a) {
      SlotsAtOwned(init, a, x);
      var i :| 0 <= i < |init| && init[i].addr == a && x in init[i].slots;
      assert tt[i] == init[i];
    }
  }

  /** An address that occurs on a node owning a range has at least one. */
  lemma {:induction false} SlotsAtNonEmpty(tt: Topo, a: string)
    requires a in AddrSet(tt) && AllOwnSlots(tt)
    ensures |SlotsAt(tt, a)| > 0
    decreases |tt|
  {
    var init := tt[..|tt| - 1];
    if tt[|tt| - 1].addr != a {
      var j :| 0 <= j < |tt| && tt[j].addr == a;
      assert init[j].addr == a;
      SlotsAtNonEmpty(init, a);
    }
  }

  // ----------------------------------------------------------- canonical order

  /** A master has no master of its own. */
  predicate IsMaster(n: Node) {
    n.slaveOfAddr == ""
  }

  /**
    The sort key of a node: the start of its first range, with a master
    placed before a replica of the same start. A node without ranges gets
    key 0; the source sorts such a node only as the single element of a
    topology, where no comparison happens.
  */
  function NodeKey(n: Node): int {
    if |n.slots| == 0 then 0
    else 2 * (n.slots[0].start as int) + (if IsMaster(n) then 0 else 1)
  }

  /** Every node owns at least one range. */
  ghost predicate AllOwnSlots(tt: Topo) {
    forall i :: 0 <= i < |tt| ==> |tt[i].slots| > 0
  }

  /** The order `Topo.sort` leaves behind. */
  ghost predicate Canonical(tt: Topo) {
    && (forall i :: 0 <= i < |tt| ==> StartsSorted(tt[i].slots))
    && Sorting.SortedBy(tt, NodeKey)
  }

  /**
    What the canonical order means: nodes are in non-decreasing order of the
    start of their first range, and of two nodes whose first range is the same
    a master never follows a replica.
  */
  lemma CanonicalOrder(tt: Topo, i: int, j: int)
    requires Canonical(tt) && AllOwnSlots(tt)
    requires 0 <= i < j < |tt|
    ensures tt[i].slots[0].start <= tt[j].slots[0].start
    ensures tt[i].slots[0] == tt[j].slots[0] && IsMaster(tt[j]) ==> IsMaster(tt[i])
  {
    assert NodeKey(tt[i]) <= NodeKey(tt[j]);
  }

  // ------------------------------------------------- nodes up to range order

  /** A node with its ranges taken as a multiset: what sorting leaves intact. */
  datatype NodeView = NodeView(addr: string, id: string, slots: multiset<SlotRange>, slaveOfAddr: string, slaveOfId: string)

  function View(n: Node): NodeView {
    NodeView(n.addr, n.id, multiset(n.slots), n.slaveOfAddr, n.slaveOfId)
  }

  function Views(tt: Topo): (vs: seq<NodeView>)
    ensures |vs| == |tt|
    ensures forall i :: 0 <= i < |tt| ==> vs[i] == View(tt[i])
  {
    seq(|tt|, i requires 0 <= i < |tt| => View(tt[i]))
  }

  lemma ViewsConcat(s: Topo, t: Topo)
    ensures Views(s + t) == Views(s) + Views(t)
  {
  }

  /** Permuting nodes permutes their views. */
  lemma {:induction false} ViewsPermutation(s: Topo, t: Topo)
    requires multiset(s) == multiset(t)
    ensures multiset(Views(s)) == multiset(Views(t))
    decreases |s|
  {
    if |s| > 0 {
      var x := s[0];
      assert x in multiset(t);
      var k :| 0 <= k < |t| && t[k] == x;
      var t' := t[..k] + t[k + 1..];
      assert t == t[..k] + [x] + t[k + 1..];
      assert s == [x] + s[1..];
      assert multiset(s) == multiset([x]) + multiset(s[1..]);
      assert multiset(t) == multiset(t[..k]) + multiset([x]) + multiset(t[k + 1..]);
      assert multiset(t') == multiset(t[..k]) + multiset(t[k + 1..]);
      assert multiset(s[1..]) == multiset(s) - multiset{x};
      assert multiset(t') == multiset(t) - multiset{x};
      ViewsPermutation(s[1..], t');
      ViewsConcat([x], s[1..]);
      ViewsConcat(t[..k], [x]);
      ViewsConcat(t[..k] + [x], t[k + 1..]);
      ViewsConcat(t[..k], t[k + 1..]);
    }
  }

  // ------------------------------------------------------------------ sorting

  /**
    `Topo.sort`: each node's ranges are sorted by start, then the nodes by
    `NodeKey`, both in place. The nodes keep what they hold; only the order
    of nodes and of each node's ranges changes.
  */
  method Sort(tt: array<Node>)
    requires tt.Length <= 1 || AllOwnSlots(tt[..])
    modifies tt
    ensures Canonical(tt[..])
    ensures multiset(Views(tt[..])) == multiset(Views(old(tt[..])))
    ensures AllOwnSlots(old(tt[..])) ==> AllOwnSlots(tt[..])
  {
    for i := 0 to tt.Length
      invariant forall k :: 0 <= k < i ==> StartsSorted(tt[k].slots)
      invariant forall k :: 0 <= k < tt.Length ==> View(tt[k]) == View(old(tt[k]))
    {
      var slots := Sorting.Sort(tt[i].slots, RangeStart);
      tt[i] := tt[i].(slots := slots);
    }
    assert Views(tt[..]) == Views(old(tt[..]));
    ghost var ranged := tt[..];
    Sorting.SortInPlace(tt, NodeKey);
    ViewsPermutation(tt[..], ranged);
    forall k | 0 <= k < tt.Length
      ensures StartsSorted(tt[k].slots)
    {
      assert tt[k] in multiset(ranged);
    }
    if AllOwnSlots(old(tt[..])) {
      forall k | 0 <= k < tt.Length
        ensures |tt[k].slots| > 0
      {
        assert tt[k] in multiset(ranged);
      }
    }
  }

  // ------------------------------------------------------------------- lookup

  /**
    `Topo.Map`: a map from each address to its node. When an address occurs
    more than once the later node overwrites the earlier one.
  */
  method AddrMap(tt: Topo) returns (m: map<string, Node>)
    ensures forall i :: 0 <= i < |tt| ==> tt[i].addr in m
    ensures forall a :: a in m ==> m[a].addr == a && m[a] in tt
    ensures forall i :: 0 <= i < |tt| && (forall j :: i < j < |tt| ==> tt[j].addr != tt[i].addr) ==> m[tt[i].addr] == tt[i]
  {
    m := map[];
    for i := 0 to |tt|
      invariant forall k :: 0 <= k < i ==> tt[k].addr in m
      invariant forall a :: a in m ==> m[a].addr == a && m[a] in tt[..i]
      invariant forall k :: 0 <= k < i && (forall j :: k < j < i ==> tt[j].addr != tt[k].addr) ==> m[tt[k].addr] == tt[k]
    {
      m := m[tt[i].addr := tt[i]];
    }
  }
}
