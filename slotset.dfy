/**
  `topoSlotSet` of `cluster2/topo.go`: one entry of the CLUSTER SLOTS reply, a
  slot range with the nodes serving it, master first, and its two codec
  directions.

  On the wire an entry is `[start, end, node_1, ..., node_k]` with an
  INCLUSIVE end; each node entry is `[host, port]` or `[host, port, id]`. In
  the model the end is exclusive, so decode adds one and encode subtracts one,
  both in uint16 arithmetic.
*/
module SlotSetCodec {
  import opened Wrappers
  import opened Slots
  import opened Topology
  import opened Wire

  /** One decoded or to-be-encoded entry: a range and its nodes, master first. */
  datatype SlotSet = SlotSet(slots: SlotRange, nodes: seq<Node>)

  // ------------------------------------------------------------------ decode

  /** A node entry the decoder accepts: an array of at least two strings. */
  predicate IsNodeEntryAt(input: seq<Token>, q: nat) {
    IsStringArrayAt(input, q) && |input[q].strs| >= 2
  }

  /** The `k` values from `p` on are all accepted node entries. */
  ghost predicate NodeEntriesOk(input: seq<Token>, p: nat, k: nat) {
    forall q :: p <= q < p + k ==> IsNodeEntryAt(input, q)
  }

  /** The error a rejected node entry at `q` produces. */
  function EntryError(input: seq<Token>, q: nat): DecodeError {
    if IsStringArrayAt(input, q) then MalformedNodeArray(input[q].strs) else ReadFailure(q)
  }

  /** The error of the first rejected node entry among `k` from `p` on. */
  function FirstEntryError(input: seq<Token>, p: nat, k: nat): Option<DecodeError>
    decreases k
  {
    if k == 0 then None
    else if !IsNodeEntryAt(input, p) then Some(EntryError(input, p))
    else FirstEntryError(input, p + 1, k - 1)
  }

  lemma {:induction false} NoEntryError(input: seq<Token>, p: nat, k: nat)
    ensures FirstEntryError(input, p, k).None? <==> NodeEntriesOk(input, p, k)
    decreases k
  {
    if k > 0 {
      NoEntryError(input, p + 1, k - 1);
    }
  }

  /** When entry `p + i` is the first rejected one, its error is the one reported. */
  lemma {:induction false} FirstEntryErrorAt(input: seq<Token>, p: nat, k: nat, i: nat)
    requires i < k && NodeEntriesOk(input, p, i) && !IsNodeEntryAt(input, p + i)
    ensures FirstEntryError(input, p, k) == Some(EntryError(input, p + i))
    decreases i
  {
    if i > 0 {
      assert IsNodeEntryAt(input, p);
      FirstEntryErrorAt(input, p + 1, k - 1, i - 1);
    }
  }

  /** The string arrays of `k` accepted node entries from `p` on. */
  ghost function EntryStrs(input: seq<Token>, p: nat, k: nat): (ss: seq<seq<string>>)
    requires NodeEntriesOk(input, p, k)
    ensures |ss| == k
    ensures forall i :: 0 <= i < k ==> IsNodeEntryAt(input, p + i) && StringArray(ss[i]) == input[p + i]
    ensures AllEntries(ss)
  {
    seq(k, i => if 0 <= i && IsNodeEntryAt(input, p + i) then input[p + i].strs else [])
  }

  /** The provisional node one node entry decodes to, before master linking. */
  function EntryNode(strs: seq<string>, r: SlotRange): Node
    requires |strs| >= 2
  {
    Node(JoinAddr(strs[0], strs[1]), if |strs| > 2 then strs[2] else "", [r], "", "")
  }

  /** Every string array is a decodable node entry. */
  ghost predicate AllEntries(strsList: seq<seq<string>>) {
    forall i :: 0 <= i < |strsList| ==> |strsList[i]| >= 2
  }

  /**
    The nodes an entry for range `r` decodes to: node `i` is `host:port` with
    the third string, if any, as its id, and owns exactly the range `r`; the
    first node is the master and every later one a replica of that first
    node, never of another replica.
  */
  ghost function EntryNodes(strsList: seq<seq<string>>, r: SlotRange): (ns: seq<Node>)
    requires AllEntries(strsList)
    ensures |ns| == |strsList|
    ensures forall i :: 0 <= i < |ns| ==>
      && ns[i].addr == JoinAddr(strsList[i][0], strsList[i][1])
      && ns[i].id == (if |strsList[i]| > 2 then strsList[i][2] else "")
      && ns[i].slots == [r]
    ensures |ns| > 0 ==> ns[0].slaveOfAddr == "" && ns[0].slaveOfId == ""
    ensures forall i :: 0 < i < |ns| ==> ns[i].slaveOfAddr == ns[0].addr && ns[i].slaveOfId == ns[0].id
  {
    seq(|strsList|, i requires 0 <= i < |strsList| =>
      if i == 0 then EntryNode(strsList[0], r)
      else EntryNode(strsList[i], r).(slaveOfAddr := EntryNode(strsList[0], r).addr,
                                      slaveOfId := EntryNode(strsList[0], r).id))
  }

  /** The number of node entries behind a header of `n` elements. */
  function NodeCount(n: nat): nat {
    if n >= 2 then n - 2 else 0
  }

  /**
    Decoding one entry from position `pos`: the header, the two slot numbers,
    then the node entries the header announces beyond those two. Yields the
    entry and the position after it, or the first error.
  */
  ghost function ParseSlotSet(input: seq<Token>, pos: nat): Result<(SlotSet, nat), DecodeError> {
    if !IsHeaderAt(input, pos) then Failure(ReadFailure(pos))
    else if !IsIntegerAt(input, pos + 1) then Failure(ReadFailure(pos + 1))
    else if !IsIntegerAt(input, pos + 2) then Failure(ReadFailure(pos + 2))
    else
      var k := NodeCount(input[pos].n);
      var r := SlotRange(input[pos + 1].v, Inc16(input[pos + 2].v));
      match FirstEntryError(input, pos + 3, k)
      case Some(e) => Failure(e)
      case None =>
        NoEntryError(input, pos + 3, k);
        Success((SlotSet(r, EntryNodes(EntryStrs(input, pos + 3, k), r)), pos + 3 + k))
  }

  /**
    Decoding an entry succeeds exactly when the header, both slot numbers and
    every announced node entry can be read; the range is then the start and
    the inclusive end plus one, in uint16 arithmetic, and the entry ends
    after the announced node entries.
  */
  lemma ParseSlotSetMeaning(input: seq<Token>, pos: nat)
    ensures ParseSlotSet(input, pos).Success? <==>
      IsHeaderAt(input, pos) && IsIntegerAt(input, pos + 1) && IsIntegerAt(input, pos + 2)
      && NodeEntriesOk(input, pos + 3, NodeCount(input[pos].n))
    ensures ParseSlotSet(input, pos).Success? ==>
      var res := ParseSlotSet(input, pos);
      var k := NodeCount(input[pos].n);
      && res.value.1 == pos + 3 + k
      && res.value.0.slots == SlotRange(input[pos + 1].v, Inc16(input[pos + 2].v))
      && res.value.0.nodes == EntryNodes(EntryStrs(input, pos + 3, k), res.value.0.slots)
  {
    if IsHeaderAt(input, pos) && IsIntegerAt(input, pos + 1) && IsIntegerAt(input, pos + 2) {
      NoEntryError(input, pos + 3, NodeCount(input[pos].n));
    }
  }

  /**
    A node entry of fewer than two strings makes the entry fail with
    `MalformedNodeArray`, provided the entry's header, slot numbers and
    earlier node entries were read.
  */
  lemma ShortNodeEntryFails(input: seq<Token>, pos: nat, i: nat)
    requires IsHeaderAt(input, pos) && IsIntegerAt(input, pos + 1) && IsIntegerAt(input, pos + 2)
    requires i < NodeCount(input[pos].n) && NodeEntriesOk(input, pos + 3, i)
    requires IsStringArrayAt(input, pos + 3 + i) && |input[pos + 3 + i].strs| < 2
    ensures ParseSlotSet(input, pos) == Failure(MalformedNodeArray(input[pos + 3 + i].strs))
  {
    FirstEntryErrorAt(input, pos + 3, NodeCount(input[pos].n), i);
  }

  lemma EntryNodesSnoc(strsList: seq<seq<string>>, strs: seq<string>, r: SlotRange)
    requires AllEntries(strsList) && |strs| >= 2
    ensures AllEntries(strsList + [strs])
    ensures EntryNodes(strsList + [strs], r) == EntryNodes(strsList, r) +
      [if |strsList| == 0 then EntryNode(strs, r)
       else EntryNode(strs, r).(slaveOfAddr := EntryNode(strsList[0], r).addr,
                                slaveOfId := EntryNode(strsList[0], r).id)]
  {
    var l := strsList + [strs];
    assert AllEntries(l);
    var lhs := EntryNodes(l, r);
    var rhs := EntryNodes(strsList, r) +
      [if |strsList| == 0 then EntryNode(strs, r)
       else EntryNode(strs, r).(slaveOfAddr := EntryNode(strsList[0], r).addr,
                                slaveOfId := EntryNode(strsList[0], r).id)];
    assert |lhs| == |rhs|;
    forall i | 0 <= i < |lhs|
      ensures lhs[i] == rhs[i]
    {
      if i < |strsList| {
        assert l[i] == strsList[i];
      }
    }
  }

  /** One more accepted node entry read: one more node, the first one unchanged. */
  lemma EntriesStep(input: seq<Token>, p: nat, i: nat, r: SlotRange)
    requires NodeEntriesOk(input, p, i) && IsNodeEntryAt(input, p + i)
    ensures NodeEntriesOk(input, p, i + 1)
    ensures var before, strs := EntryStrs(input, p, i), input[p + i].strs;
      EntryStrs(input, p, i + 1)[0] == (if i == 0 then strs else before[0]) &&
      EntryNodes(EntryStrs(input, p, i + 1), r) == EntryNodes(before, r) +
        [if i == 0 then EntryNode(strs, r)
         else EntryNode(strs, r).(slaveOfAddr := EntryNode(before[0], r).addr,
                                  slaveOfId := EntryNode(before[0], r).id)]
  {
    var before, strs := EntryStrs(input, p, i), input[p + i].strs;
    EntryNodesSnoc(before, strs, r);
    assert EntryStrs(input, p, i + 1) == before + [strs];
  }

  /**
    `topoSlotSet.UnmarshalRESP`: reads one entry, incrementing the inclusive
    end to an exclusive one and linking every node after the first to the
    first as its master.
  */
  method ReadSlotSet(input: seq<Token>, pos: nat) returns (res: Result<(SlotSet, nat), DecodeError>)
    ensures res == ParseSlotSet(input, pos)
  {
    if !IsHeaderAt(input, pos) {
      return Failure(ReadFailure(pos));
    }
    var n := input[pos].n;
    // The source's two-step loop over the slot numbers, unrolled.
    if !IsIntegerAt(input, pos + 1) {
      return Failure(ReadFailure(pos + 1));
    }
    var start := input[pos + 1].v;
    if !IsIntegerAt(input, pos + 2) {
      return Failure(ReadFailure(pos + 2));
    }
    var end := input[pos + 2].v;
    end := Inc16(end);
    var r := SlotRange(start, end);
    var count := n as int - 2;
    var nodes: seq<Node> := [];
    var master := Node("", "", [], "", "");
    var i := 0;
    while i < count
      invariant 0 <= i <= NodeCount(n)
      invariant NodeEntriesOk(input, pos + 3, i)
      invariant nodes == EntryNodes(EntryStrs(input, pos + 3, i), r)
      invariant 0 < i ==> master == EntryNode(EntryStrs(input, pos + 3, i)[0], r)
    {
      var q := pos + 3 + i;
      if !IsStringArrayAt(input, q) {
        FirstEntryErrorAt(input, pos + 3, NodeCount(n), i);
        return Failure(ReadFailure(q));
      }
      var strs := input[q].strs;
      if |strs| < 2 {
        FirstEntryErrorAt(input, pos + 3, NodeCount(n), i);
        return Failure(MalformedNodeArray(strs));
      }
      var id := if |strs| > 2 then strs[2] else "";
      var node := Node(strs[0] + ":" + strs[1], id, [r], "", "");
      if i == 0 {
        master := node;
      } else {
        node := node.(slaveOfAddr := master.addr, slaveOfId := master.id);
      }
      EntriesStep(input, pos + 3, i, r);
      nodes := nodes + [node];
      i := i + 1;
    }
    NoEntryError(input, pos + 3, NodeCount(n));
    return Success((SlotSet(r, nodes), pos + 3 + NodeCount(n)));
  }

  // ------------------------------------------------------------------ encode

  /** A node entry as written: host and port split from the address, then the id if it is not empty. */
  function NodeStrs(n: Node): seq<string> {
    var (host, port) := SplitAddr(n.addr);
    [host, port] + (if n.id != "" then [n.id] else [])
  }

  /** The node entries of `ns`, in order. */
  function NodeTokens(ns: seq<Node>): (ts: seq<Token>)
    ensures |ts| == |ns|
  {
    seq(|ns|, i requires 0 <= i < |ns| => StringArray(NodeStrs(ns[i])))
  }

  /**
    The values one entry is written as: a header counting two slot numbers and
    the nodes, the start, the end made inclusive again, then the node entries.
  */
  function SlotSetTokens(tss: SlotSet): (ts: seq<Token>)
    ensures |ts| == 3 + |tss.nodes|
  {
    [ArrayHead(2 + |tss.nodes|), Integer(tss.slots.start), Integer(Dec16(tss.slots.end))]
    + NodeTokens(tss.nodes)
  }

  function Min(x: int, y: int): int {
    if x <= y then x else y
  }

  /** Writes `t` unless an earlier write failed; reports whether all writes so far succeeded. */
  method WriteIfOk(w: Writer, ok: bool, t: Token) returns (ok': bool)
    modifies w
    ensures ok' == (ok && old(w.room) > 0)
    ensures ok' ==> w.written == old(w.written) + [t] && w.room == old(w.room) - 1
    ensures !ok' ==> w.written == old(w.written) && (ok ==> w.room == old(w.room))
  {
    ok' := ok;
    if ok {
      ok' := w.Write(t);
    }
  }

  /**
    One node entry of `topoSlotSet.MarshalRESP`: host and port split from the
    address, then the id if it is not empty, written unless an earlier write
    failed.
  */
  method WriteNode(w: Writer, ok: bool, n: Node) returns (ok': bool)
    modifies w
    ensures ok' == (ok && old(w.room) > 0)
    ensures ok' ==> w.written == old(w.written) + [StringArray(NodeStrs(n))] && w.room == old(w.room) - 1
    ensures !ok' ==> w.written == old(w.written) && (ok ==> w.room == old(w.room))
  {
    var (host, port) := SplitAddr(n.addr);
    var node := [host, port];
    if n.id != "" {
      node := node + [n.id];
    }
    assert node == NodeStrs(n);
    ok' := WriteIfOk(w, ok, StringArray(node));
  }

  /**
    `topoSlotSet.MarshalRESP`: writes the entry's values in order and stops
    writing at the first failure; what was written is the longest prefix the
    transport accepted.
  */
  method WriteSlotSet(tss: SlotSet, w: Writer) returns (ok: bool)
    modifies w
    ensures ok == (|SlotSetTokens(tss)| <= old(w.room))
    ensures w.written == old(w.written) + SlotSetTokens(tss)[..Min(|SlotSetTokens(tss)|, old(w.room))]
    ensures ok ==> w.room == old(w.room) - |SlotSetTokens(tss)|
  {
    ghost var toks := SlotSetTokens(tss);
    ghost var room := w.room;
    ghost var before := w.written;
    ok := true;
    ok := WriteIfOk(w, ok, ArrayHead(2 + |tss.nodes|));
    ok := WriteIfOk(w, ok, Integer(tss.slots.start));
    ok := WriteIfOk(w, ok, Integer(Dec16(tss.slots.end)));
    assert toks[..3] == [ArrayHead(2 + |tss.nodes|), Integer(tss.slots.start), Integer(Dec16(tss.slots.end))];
    for i := 0 to |tss.nodes|
      invariant ok == (3 + i <= room)
      invariant w.written == before + toks[..Min(3 + i, room)]
      invariant ok ==> w.room == room - (3 + i)
    {
      assert toks[3 + i] == StringArray(NodeStrs(tss.nodes[i]));
      ok := WriteNode(w, ok, tss.nodes[i]);
      if ok {
        assert toks[..3 + i + 1] == toks[..3 + i] + [toks[3 + i]];
      }
    }
  }

  // -------------------------------------------------------------- round trip

  /** The values `toks` stand in `input` from position `pos` on. */
  ghost predicate TokensAt(input: seq<Token>, pos: nat, toks: seq<Token>) {
    pos + |toks| <= |input| && forall j :: 0 <= j < |toks| ==> input[pos + j] == toks[j]
  }

  /** The entry decode rebuilds from what encode wrote for `tss`. */
  ghost function Redecoded(tss: SlotSet): SlotSet {
    var strsList := seq(|tss.nodes|, i requires 0 <= i < |tss.nodes| => NodeStrs(tss.nodes[i]));
    SlotSet(tss.slots, EntryNodes(strsList, tss.slots))
  }

  /**
    Decoding the values written for an entry, wherever they stand in the
    input, succeeds, gives back the same range (decode's +1 undoes encode's
    -1) and the nodes rebuilt from their written strings, and moves past
    exactly those values.
  */
  /** Written node entries read back as node entries with the strings written. */
  lemma NodeEntriesWritten(input: seq<Token>, p: nat, ns: seq<Node>)
    requires TokensAt(input, p, NodeTokens(ns))
    ensures NodeEntriesOk(input, p, |ns|)
    ensures EntryStrs(input, p, |ns|) == seq(|ns|, i requires 0 <= i < |ns| => NodeStrs(ns[i]))
  {
    var ts := NodeTokens(ns);
    forall q | p <= q < p + |ns|
      ensures IsNodeEntryAt(input, q)
    {
      assert input[p + (q - p)] == ts[q - p];
    }
    var strsList := seq(|ns|, i requires 0 <= i < |ns| => NodeStrs(ns[i]));
    forall i | 0 <= i < |ns|
      ensures EntryStrs(input, p, |ns|)[i] == strsList[i]
    {
      assert input[p + i] == ts[i];
    }
  }

  /** What the values written for `tss` look like to the reader. */
  lemma SlotSetTokensRead(input: seq<Token>, pos: nat, tss: SlotSet)
    requires TokensAt(input, pos, SlotSetTokens(tss))
    ensures pos + 3 + |tss.nodes| <= |input|
    ensures input[pos] == ArrayHead(2 + |tss.nodes|)
    ensures input[pos + 1] == Integer(tss.slots.start)
    ensures input[pos + 2] == Integer(Dec16(tss.slots.end))
    ensures NodeEntriesOk(input, pos + 3, |tss.nodes|)
    ensures EntryStrs(input, pos + 3, |tss.nodes|) == seq(|tss.nodes|, i requires 0 <= i < |tss.nodes| => NodeStrs(tss.nodes[i]))
  {
    var toks := SlotSetTokens(tss);
    assert input[pos + 0] == toks[0];
    assert input[pos + 1] == toks[1];
    assert input[pos + 2] == toks[2];
    forall j | 0 <= j < |tss.nodes|
      ensures input[pos + 3 + j] == NodeTokens(tss.nodes)[j]
    {
      assert input[pos + (3 + j)] == toks[3 + j];
    }
    NodeEntriesWritten(input, pos + 3, tss.nodes);
  }

  /** An entry whose values were read as written gives back its range and node strings. */
  lemma ParseSlotSetWritten(input: seq<Token>, pos: nat, r: SlotRange, strsList: seq<seq<string>>)
    requires pos + 3 + |strsList| <= |input|
    requires input[pos] == ArrayHead(2 + |strsList|)
    requires input[pos + 1] == Integer(r.start) && input[pos + 2] == Integer(Dec16(r.end))
    requires NodeEntriesOk(input, pos + 3, |strsList|)
    requires EntryStrs(input, pos + 3, |strsList|) == strsList
    ensures ParseSlotSet(input, pos) == Success((SlotSet(r, EntryNodes(strsList, r)), pos + 3 + |strsList|))
  {
    IncDec(r.end);
    assert NodeCount(input[pos].n) == |strsList|;
    NoEntryError(input, pos + 3, |strsList|);
    ParseSlotSetMeaning(input, pos);
  }

  lemma ParseSlotSetTokens(input: seq<Token>, pos: nat, tss: SlotSet)
    requires TokensAt(input, pos, SlotSetTokens(tss))
    ensures ParseSlotSet(input, pos) == Success((Redecoded(tss), pos + |SlotSetTokens(tss)|))
  {
    SlotSetTokensRead(input, pos, tss);
    var strsList := seq(|tss.nodes|, i requires 0 <= i < |tss.nodes| => NodeStrs(tss.nodes[i]));
    ParseSlotSetWritten(input, pos, tss.slots, strsList);
  }
}
