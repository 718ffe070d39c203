/**
 * The bounded, recency-ordered address store of packages/parser/lru.go: a
 * map from address to list node plus a doubly linked list with head and
 * tail sentinels. Go pointers to nodes are modelled as integer node
 * identities: `next` and `previous` hold the link fields of every node ever
 * allocated, `nodeData` the record each node embeds, and `freshNode` is the
 * next identity the allocator hands out. Ghost fields give the public view:
 * the entry nodes from head to tail, their addresses, and the records.
 */
module Lru {
  import opened Types
  import CacheSpec

  const HeadNode: int := 0
  const TailNode: int := 1
  const Nil: int := -1

  /** The node sequence from head sentinel to tail sentinel. */
  function Chain(ns: seq<int>): seq<int> {
    [HeadNode] + ns + [TailNode]
  }

  /** Position i of the chain links forward to position i + 1, and back. */
  ghost predicate Step(l: seq<int>, next: map<int, int>, previous: map<int, int>, i: int)
    requires 0 <= i < |l| - 1
  {
    && l[i] in next && next[l[i]] == l[i + 1]
    && l[i + 1] in previous && previous[l[i + 1]] == l[i]
  }

  /** The list runs head -> ns[0] -> ... -> ns[|ns| - 1] -> tail, and the
      `previous` links mirror the `next` links. */
  ghost predicate Linked(ns: seq<int>, next: map<int, int>, previous: map<int, int>) {
    forall i :: 0 <= i < |ns| + 1 ==> Step(Chain(ns), next, previous, i)
  }

  /** Entry nodes are pairwise distinct and are neither sentinel nor nil. */
  ghost predicate Proper(ns: seq<int>) {
    && (forall i :: 0 <= i < |ns| ==> ns[i] >= 2)
    && (forall i, j :: 0 <= i < j < |ns| ==> ns[i] != ns[j])
  }

  /** The sentinels' own links. */
  lemma LinkedEnds(ns: seq<int>, next: map<int, int>, previous: map<int, int>)
    requires Linked(ns, next, previous)
    ensures HeadNode in next && next[HeadNode] == Chain(ns)[1]
    ensures TailNode in previous && previous[TailNode] == Chain(ns)[|ns|]
    ensures ns != [] ==> next[HeadNode] == ns[0] && previous[TailNode] == ns[|ns| - 1]
  {
    assert Step(Chain(ns), next, previous, 0);
    assert Step(Chain(ns), next, previous, |ns|);
    if ns != [] {
      assert Chain(ns)[1] == ns[0] && Chain(ns)[|ns|] == ns[|ns| - 1];
    }
  }

  /** The four link assignments that put a node right after the head
      sentinel (lru.go:47-50, and in another order lru.go:68-72) make it
      the first entry of the list. */
  lemma LinkedPushFront(ns: seq<int>, next: map<int, int>, previous: map<int, int>, node: int)
    requires Linked(ns, next, previous) && Proper(ns)
    requires node >= 2 && node !in ns
    ensures HeadNode in next
    ensures Proper([node] + ns)
    ensures Linked([node] + ns,
                   next[node := next[HeadNode]][HeadNode := node],
                   previous[next[HeadNode] := node][node := HeadNode])
  {
    LinkedEnds(ns, next, previous);
    var l, l' := Chain(ns), Chain([node] + ns);
    var next' := next[node := next[HeadNode]][HeadNode := node];
    var previous' := previous[next[HeadNode] := node][node := HeadNode];
    forall i | 0 <= i < |l'| - 1 ensures Step(l', next', previous', i) {
      if i >= 2 {
        assert Step(l, next, previous, i - 1);
        assert l'[i] == l[i - 1] && l'[i + 1] == l[i];
        assert l[i] != l[1] && l[i] != node by {
          if i < |l| - 1 { assert l[i] == ns[i - 1] && l[1] == ns[0]; }
        }
      } else if i == 1 {
        assert l'[2] == l[1];
        assert l[1] != node by { if |ns| > 0 { assert l[1] == ns[0]; } }
      }
    }
    forall i, j | 0 <= i < j < |[node] + ns| ensures ([node] + ns)[i] != ([node] + ns)[j] {
      if i == 0 {
        assert ([node] + ns)[j] == ns[j - 1];
      }
    }
  }

  /** The two link assignments that cut the node at index p out of the list
      (lru.go:65-66 and lru.go:91-92) leave the other entries, in order. */
  lemma LinkedUnlink(ns: seq<int>, next: map<int, int>, previous: map<int, int>, p: nat)
    requires Linked(ns, next, previous) && Proper(ns) && p < |ns|
    ensures ns[p] in next && ns[p] in previous
    ensures Proper(ns[..p] + ns[p + 1..])
    ensures var node := ns[p];
      var next' := next[previous[node] := next[node]];
      Linked(ns[..p] + ns[p + 1..], next', previous[next'[node] := previous[node]])
  {
    var node := ns[p];
    var ns' := ns[..p] + ns[p + 1..];
    var l, l' := Chain(ns), Chain(ns');
    assert l[p + 1] == node;
    assert Step(l, next, previous, p);
    assert Step(l, next, previous, p + 1);
    var next' := next[previous[node] := next[node]];
    var previous' := previous[next'[node] := previous[node]];
    forall i | 0 <= i < |l'| ensures l'[i] == if i <= p then l[i] else l[i + 1] {
      if 0 < i <= p { assert l'[i] == ns'[i - 1] == ns[i - 1]; }
      else if p < i < |l'| - 1 { assert l'[i] == ns'[i - 1] == ns[i]; }
    }
    forall i | 0 <= i < |l'| - 1 ensures Step(l', next', previous', i) {
      if i < p {
        assert Step(l, next, previous, i);
        assert l[i] != l[p] by { if 0 < i { assert l[i] == ns[i - 1]; } if 0 < p { assert l[p] == ns[p - 1]; } }
        assert l[i + 1] != l[p + 2] by { assert l[i + 1] == ns[i]; if p + 1 < |ns| { assert l[p + 2] == ns[p + 1]; } }
      } else if i > p {
        assert Step(l, next, previous, i + 1);
        assert l[i + 1] != l[p] by { if i + 1 < |l| - 1 { assert l[i + 1] == ns[i]; } if 0 < p { assert l[p] == ns[p - 1]; } }
        assert l[i + 2] != l[p + 2] by { if i + 2 < |l| - 1 { assert l[i + 2] == ns[i + 1]; } if p + 1 < |ns| { assert l[p + 2] == ns[p + 1]; } }
      }
    }
    forall i, j | 0 <= i < j < |ns'| ensures ns'[i] != ns'[j] {
    }
  }

  /** The whole link structure: the entries' chain plus the sentinels' nil
      ends (the head sentinel has no predecessor, the tail no successor). */
  ghost predicate Links(ns: seq<int>, next: map<int, int>, previous: map<int, int>) {
    && Linked(ns, next, previous)
    && Proper(ns)
    && TailNode in next && next[TailNode] == Nil
    && HeadNode in previous && previous[HeadNode] == Nil
  }

  lemma LinksPushFront(ns: seq<int>, next: map<int, int>, previous: map<int, int>, node: int)
    requires Links(ns, next, previous)
    requires node >= 2 && node !in ns
    ensures HeadNode in next
    ensures Links([node] + ns,
                  next[node := next[HeadNode]][HeadNode := node],
                  previous[next[HeadNode] := node][node := HeadNode])
  {
    LinkedPushFront(ns, next, previous, node);
    LinkedEnds(ns, next, previous);
    assert ns != [] ==> Chain(ns)[1] == ns[0];
  }

  lemma LinksUnlink(ns: seq<int>, next: map<int, int>, previous: map<int, int>, p: nat)
    requires Links(ns, next, previous) && p < |ns|
    ensures ns[p] in next && ns[p] in previous
    ensures previous[ns[p]] == Chain(ns)[p] && next[ns[p]] == Chain(ns)[p + 2]
    ensures var node := ns[p];
      var next' := next[previous[node] := next[node]];
      Links(ns[..p] + ns[p + 1..], next', previous[next'[node] := previous[node]])
  {
    LinkedUnlink(ns, next, previous, p);
    assert Chain(ns)[p + 1] == ns[p];
    assert Step(Chain(ns), next, previous, p);
    assert Step(Chain(ns), next, previous, p + 1);
    assert p > 0 ==> Chain(ns)[p] == ns[p - 1];
    assert p + 1 < |ns| ==> Chain(ns)[p + 2] == ns[p + 1];
  }

  /** The map from address to node agrees with the list: the i-th entry's
      address maps to the i-th node, which holds its record, and every node
      ever handed out is below `firstFree`. */
  ghost predicate Indexed(dataMap: map<string, int>, nodeData: map<int, AddressRecord>, firstFree: int,
                          nodes: seq<int>, order: seq<string>, entries: map<string, AddressRecord>) {
    && 2 <= firstFree
    && |nodes| == |order|
    && dataMap.Keys == entries.Keys
    && forall i :: 0 <= i < |nodes| ==>
         && nodes[i] < firstFree
         && order[i] in dataMap && dataMap[order[i]] == nodes[i]
         && nodes[i] in nodeData && order[i] in entries && nodeData[nodes[i]] == entries[order[i]]
  }

  lemma IndexedRemoveLast(dataMap: map<string, int>, nodeData: map<int, AddressRecord>, firstFree: int,
                          nodes: seq<int>, order: seq<string>, entries: map<string, AddressRecord>)
    requires CacheSpec.Valid(CacheSpec.Cache(order, entries))
    requires Indexed(dataMap, nodeData, firstFree, nodes, order, entries) && nodes != []
    ensures var p := |nodes| - 1;
      && nodes[p] in nodeData && nodeData[nodes[p]].address == order[p]
      && Indexed(dataMap - {order[p]}, nodeData, firstFree, nodes[..p], order[..p], entries - {order[p]})
  {
    var p := |nodes| - 1;
    forall i | 0 <= i < p ensures order[i] != order[p] {
    }
  }

  lemma IndexedPushFront(dataMap: map<string, int>, nodeData: map<int, AddressRecord>, firstFree: int,
                         nodes: seq<int>, order: seq<string>, entries: map<string, AddressRecord>,
                         data: AddressRecord)
    requires Indexed(dataMap, nodeData, firstFree, nodes, order, entries)
    requires data.address !in entries
    ensures firstFree !in nodes
    ensures Indexed(dataMap[data.address := firstFree], nodeData[firstFree := data], firstFree + 1,
                    [firstFree] + nodes, [data.address] + order, entries[data.address := data])
  {
    var nodes', order' := [firstFree] + nodes, [data.address] + order;
    forall i | 0 <= i < |nodes'|
      ensures order'[i] in dataMap[data.address := firstFree]
      ensures dataMap[data.address := firstFree][order'[i]] == nodes'[i]
    {
      if i > 0 {
        assert order'[i] == order[i - 1] && nodes'[i] == nodes[i - 1];
      }
    }
  }

  lemma IndexedMoveToFront(dataMap: map<string, int>, nodeData: map<int, AddressRecord>, firstFree: int,
                           nodes: seq<int>, order: seq<string>, entries: map<string, AddressRecord>,
                           p: nat)
    requires Indexed(dataMap, nodeData, firstFree, nodes, order, entries) && p < |nodes|
    ensures Indexed(dataMap, nodeData, firstFree, [nodes[p]] + (nodes[..p] + nodes[p + 1..]),
                    [order[p]] + (order[..p] + order[p + 1..]), entries)
  {
    var nodes', order' := [nodes[p]] + (nodes[..p] + nodes[p + 1..]), [order[p]] + (order[..p] + order[p + 1..]);
    forall i | 0 <= i < |nodes'|
      ensures order'[i] in dataMap && dataMap[order'[i]] == nodes'[i]
    {
      if 0 < i <= p {
        assert order'[i] == order[i - 1] && nodes'[i] == nodes[i - 1];
      } else if i > p {
        assert order'[i] == order[i] && nodes'[i] == nodes[i];
      }
    }
  }

  lemma IndexedStore(dataMap: map<string, int>, nodeData: map<int, AddressRecord>, firstFree: int,
                     nodes: seq<int>, order: seq<string>, entries: map<string, AddressRecord>,
                     a: string, txs: seq<Transaction>)
    requires CacheSpec.Valid(CacheSpec.Cache(order, entries)) && Proper(nodes)
    requires Indexed(dataMap, nodeData, firstFree, nodes, order, entries) && a in dataMap
    ensures var n := dataMap[a];
      Indexed(dataMap, nodeData[n := nodeData[n].(transactions := txs)], firstFree,
              nodes, order, entries[a := entries[a].(transactions := txs)])
  {
    var n := dataMap[a];
    assert a in order;
    var j :| 0 <= j < |order| && order[j] == a;
    forall b | b in dataMap && b != a ensures dataMap[b] != n {
      assert b in order;
      var i :| 0 <= i < |order| && order[i] == b;
      assert nodes[i] == dataMap[b] && nodes[j] == n;
    }
  }


  /** A snapshot of the object's fields, concrete and ghost. */
  datatype ListState = ListState(
    dataMap: map<string, int>,
    nodeData: map<int, AddressRecord>,
    next: map<int, int>,
    previous: map<int, int>,
    freshNode: int,
    nodes: seq<int>,
    order: seq<string>,
    entries: map<string, AddressRecord>)

  /** The representation invariant: a well-formed cache, a well-formed
      list holding its nodes in order, and a map that agrees with both. */
  ghost predicate Rep(s: ListState) {
    match s
    case ListState(dataMap, nodeData, next, previous, freshNode, nodes, order, entries) =>
      && CacheSpec.Valid(CacheSpec.Cache(order, entries))
      && Links(nodes, next, previous)
      && Indexed(dataMap, nodeData, freshNode, nodes, order, entries)
  }

  /** The node before the tail sentinel is the last entry, whose record
      carries the last address. */
  lemma LastNode(s: ListState)
    requires Rep(s) && s.nodes != []
    ensures var p := |s.nodes| - 1;
      && TailNode in s.previous && s.previous[TailNode] == s.nodes[p]
      && s.nodes[p] in s.next && s.nodes[p] in s.previous && s.nodes[p] in s.nodeData
      && s.nodeData[s.nodes[p]].address == s.order[p]
  {
    var p := |s.nodes| - 1;
    LinkedEnds(s.nodes, s.next, s.previous);
    assert Chain(s.nodes)[|s.nodes|] == s.nodes[p];
    LinksUnlink(s.nodes, s.next, s.previous, p);
    IndexedRemoveLast(s.dataMap, s.nodeData, s.freshNode, s.nodes, s.order, s.entries);
  }

  /** Where a stored address sits in the list, and the links of its node. */
  lemma NodeOf(s: ListState, a: string) returns (p: nat)
    requires Rep(s) && a in s.dataMap
    ensures p < |s.nodes| && s.order[p] == a && s.nodes[p] == s.dataMap[a]
    ensures s.nodes[p] >= 2 && s.nodes[p] in s.next && s.nodes[p] in s.previous
    ensures s.previous[s.nodes[p]] == HeadNode <==> p == 0
    ensures HeadNode in s.next
  {
    assert a in s.order;
    p :| 0 <= p < |s.order| && s.order[p] == a;
    LinkedEnds(s.nodes, s.next, s.previous);
    LinksUnlink(s.nodes, s.next, s.previous, p);
    assert p > 0 ==> Chain(s.nodes)[p] == s.nodes[p - 1];
  }

  /** What a walk along the `next` links meets: entry i's node holds the
      record of the i-th address and links to the node after it; the map
      holds one node per entry. */
  lemma WalkFacts(s: ListState)
    requires Rep(s)
    ensures HeadNode in s.next && s.next[HeadNode] == if s.nodes == [] then TailNode else s.nodes[0]
    ensures TailNode in s.next && s.next[TailNode] == Nil
    ensures |s.dataMap| == |s.nodes|
    ensures forall i :: 0 <= i < |s.nodes| ==>
      s.nodes[i] >= 2 && s.nodes[i] in s.nodeData && s.nodeData[s.nodes[i]].address == s.order[i]
    ensures forall i :: 0 <= i < |s.nodes| ==>
      s.nodes[i] in s.next && s.next[s.nodes[i]] == if i + 1 < |s.nodes| then s.nodes[i + 1] else TailNode
  {
    WalkLinks(s.nodes, s.next, s.previous);
    WalkRecords(s);
  }

  /** The `next` links of a linked list, read one entry at a time. */
  lemma WalkLinks(nodes: seq<int>, next: map<int, int>, previous: map<int, int>)
    requires Links(nodes, next, previous)
    ensures HeadNode in next && next[HeadNode] == if nodes == [] then TailNode else nodes[0]
    ensures TailNode in next && next[TailNode] == Nil
    ensures forall i :: 0 <= i < |nodes| ==>
      nodes[i] in next && next[nodes[i]] == if i + 1 < |nodes| then nodes[i + 1] else TailNode
  {
    LinkedEnds(nodes, next, previous);
    forall i | 0 <= i < |nodes|
      ensures nodes[i] in next && next[nodes[i]] == if i + 1 < |nodes| then nodes[i + 1] else TailNode
    {
      assert Step(Chain(nodes), next, previous, i + 1);
      assert Chain(nodes)[i + 1] == nodes[i];
      assert i + 1 < |nodes| ==> Chain(nodes)[i + 2] == nodes[i + 1];
    }
  }

  /** Each entry node holds the record of its address, and the map holds
      one node per entry. */
  lemma WalkRecords(s: ListState)
    requires Rep(s)
    ensures |s.dataMap| == |s.nodes|
    ensures forall i :: 0 <= i < |s.nodes| ==>
      s.nodes[i] >= 2 && s.nodes[i] in s.nodeData && s.nodeData[s.nodes[i]].address == s.order[i]
  {
    var c := CacheSpec.Cache(s.order, s.entries);
    CacheSpec.SizeIsLength(c);
    assert |s.dataMap| == |s.dataMap.Keys| == |s.entries.Keys| == |s.entries|;
  }

  /** removeTail on a non-empty list (lru.go:88-92). */
  lemma RemoveTailStep(s: ListState, s': ListState)
    requires Rep(s) && s.nodes != []
    requires var node := s.nodes[|s.nodes| - 1]; node in s.next && node in s.previous
    requires var p := |s.nodes| - 1;
      var node := s.nodes[p];
      var next' := s.next[s.previous[node] := s.next[node]];
      s' == s.(dataMap := s.dataMap - {s.order[p]},
               next := next',
               previous := s.previous[next'[node] := s.previous[node]],
               nodes := s.nodes[..p], order := s.order[..p], entries := s.entries - {s.order[p]})
    ensures Rep(s')
    ensures CacheSpec.Cache(s'.order, s'.entries) == CacheSpec.RemoveTail(CacheSpec.Cache(s.order, s.entries))
  {
    var p := |s.nodes| - 1;
    LinksUnlink(s.nodes, s.next, s.previous, p);
    assert s.nodes[..p] + s.nodes[p + 1..] == s.nodes[..p];
    IndexedRemoveLast(s.dataMap, s.nodeData, s.freshNode, s.nodes, s.order, s.entries);
    CacheSpec.RemoveTailSpec(CacheSpec.Cache(s.order, s.entries));
  }

  /** The insertion of a new node right after the head sentinel
      (lru.go:43-50). */
  lemma PushFrontStep(s: ListState, data: AddressRecord, s': ListState)
    requires Rep(s) && data.address !in s.entries && HeadNode in s.next
    requires var node := s.freshNode;
      s' == s.(dataMap := s.dataMap[data.address := node],
               nodeData := s.nodeData[node := data],
               next := s.next[node := s.next[HeadNode]][HeadNode := node],
               previous := s.previous[s.next[HeadNode] := node][node := HeadNode],
               freshNode := node + 1,
               nodes := [node] + s.nodes,
               order := [data.address] + s.order,
               entries := s.entries[data.address := data])
    ensures Rep(s')
  {
    IndexedPushFront(s.dataMap, s.nodeData, s.freshNode, s.nodes, s.order, s.entries, data);
    LinksPushFront(s.nodes, s.next, s.previous, s.freshNode);
    CacheSpec.ConsValid(CacheSpec.Cache(s.order, s.entries), data);
  }

  /** The relinking of the node at index p > 0 right after the head
      sentinel (lru.go:65-72). */
  lemma MoveToFrontStep(s: ListState, p: nat, s': ListState)
    requires Rep(s) && 0 < p < |s.nodes|
    requires s.nodes[p] in s.next && s.nodes[p] in s.previous && HeadNode in s.next
    requires var node := s.nodes[p];
      var next1 := s.next[s.previous[node] := s.next[node]];
      var previous1 := s.previous[next1[node] := s.previous[node]];
      s' == s.(next := next1[node := next1[HeadNode]][HeadNode := node],
               previous := previous1[next1[HeadNode] := node][node := HeadNode],
               nodes := [node] + (s.nodes[..p] + s.nodes[p + 1..]),
               order := [s.order[p]] + (s.order[..p] + s.order[p + 1..]))
    ensures Rep(s')
    ensures CacheSpec.Cache(s'.order, s'.entries) == CacheSpec.Get(CacheSpec.Cache(s.order, s.entries), s.order[p]).1
  {
    var node := s.nodes[p];
    var c := CacheSpec.Cache(s.order, s.entries);
    LinksUnlink(s.nodes, s.next, s.previous, p);
    var rest := s.nodes[..p] + s.nodes[p + 1..];
    assert node !in rest;
    var next1 := s.next[s.previous[node] := s.next[node]];
    var previous1 := s.previous[next1[node] := s.previous[node]];
    LinksPushFront(rest, next1, previous1, node);
    IndexedMoveToFront(s.dataMap, s.nodeData, s.freshNode, s.nodes, s.order, s.entries, p);
    assert s.order[p] in s.entries;
    CacheSpec.WithoutAt(s.order, p);
    CacheSpec.GetSpec(c, s.order[p]);
  }

  /** A write through the record pointer of one entry. */
  lemma StoreStep(s: ListState, a: string, txs: seq<Transaction>, s': ListState)
    requires Rep(s) && a in s.dataMap
    requires var node := s.dataMap[a];
      s' == s.(nodeData := s.nodeData[node := s.nodeData[node].(transactions := txs)],
               entries := s.entries[a := s.entries[a].(transactions := txs)])
    ensures Rep(s')
    ensures CacheSpec.Cache(s'.order, s'.entries) == CacheSpec.SetTransactions(CacheSpec.Cache(s.order, s.entries), a, txs)
  {
    IndexedStore(s.dataMap, s.nodeData, s.freshNode, s.nodes, s.order, s.entries, a, txs);
    CacheSpec.SetTransactionsSpec(CacheSpec.Cache(s.order, s.entries), a, txs);
  }

  /** addressTransactionLRU: the recency list of tracked addresses. */
  class AddressTransactionLRU {
    const capability: int
    var dataMap: map<string, int>
    var nodeData: map<int, AddressRecord>
    var next: map<int, int>
    var previous: map<int, int>
    var freshNode: int

    /** The entry nodes from head to tail, their addresses, and the records. */
    ghost var nodes: seq<int>
    ghost var order: seq<string>
    ghost var entries: map<string, AddressRecord>

    ghost function Snapshot(): ListState
      reads this
    {
      ListState(dataMap, nodeData, next, previous, freshNode, nodes, order, entries)
    }

    ghost predicate Valid()
      reads this
    {
      Rep(Snapshot())
    }

    /** The cache this object stands for. */
    ghost function Abstract(): CacheSpec.Cache
      reads this
    {
      CacheSpec.Cache(order, entries)
    }

    /** newAddressTransactionLRU: an empty list, the two sentinels linked
        to each other. */
    constructor (capability: int)
      ensures Valid()
      ensures this.capability == capability
      ensures Abstract() == CacheSpec.Empty
    {
      this.capability := capability;
      dataMap := map[];
      nodeData := map[];
      next := map[HeadNode := TailNode, TailNode := Nil];
      previous := map[TailNode := HeadNode, HeadNode := Nil];
      freshNode := 2;
      nodes := [];
      order := [];
      entries := map[];
      new;
      assert Step(Chain([]), next, previous, 0);
    }

    /** size(): the number of entries in the map. */
    method Size() returns (n: int)
      requires Valid()
      ensures n == CacheSpec.Size(Abstract())
    {
      assert |dataMap| == |dataMap.Keys| == |entries.Keys| == |entries|;
      n := |dataMap|;
    }

    /** getAddressIn: the stored record, without touching the order. */
    method GetAddressIn(addr: string) returns (r: Option<AddressRecord>)
      requires Valid()
      ensures r == CacheSpec.Peek(Abstract(), addr)
    {
      if addr in dataMap {
        r := Some(nodeData[dataMap[addr]]);
      } else {
        r := None;
      }
    }

    /** removeTail: unlinks the node before the tail sentinel and deletes
        its address from the map; on an empty list it does nothing. */
    method RemoveTail()
      requires Valid()
      modifies this
      ensures Valid()
      ensures Abstract() == CacheSpec.RemoveTail(old(Abstract()))
    {
      ghost var s := Snapshot();
      LinkedEnds(nodes, next, previous);
      var node := previous[TailNode];
      if node == HeadNode {
        return;
      }
      LastNode(s);
      ghost var p := |nodes| - 1;
      dataMap := dataMap - {nodeData[node].address};
      next := next[previous[node] := next[node]];
      previous := previous[next[node] := previous[node]];
      nodes := nodes[..p];
      order := order[..p];
      entries := entries - {s.order[p]};
      RemoveTailStep(s, Snapshot());
    }

    /** putAddress: a no-op when the address is present; otherwise evicts
        the tail if the map is full and links a new node at the front. */
    method PutAddress(data: AddressRecord)
      requires Valid()
      modifies this
      ensures Valid()
      ensures Abstract() == CacheSpec.Put(old(Abstract()), capability, data)
    {
      if data.address in dataMap {
        return;
      }
      assert |dataMap| == |dataMap.Keys| == |entries.Keys| == |entries|;
      if |dataMap| >= capability {
        RemoveTail();
      }
      InsertFront(data);
    }

    /** The tail of putAddress (lru.go:43-50): a new node holding `data`,
        entered in the map and linked right after the head sentinel. */
    method InsertFront(data: AddressRecord)
      requires Valid() && data.address !in Abstract().entries
      modifies this
      ensures Valid()
      ensures Abstract() == CacheSpec.Cache([data.address] + old(order), old(entries)[data.address := data])
    {
      ghost var s := Snapshot();
      LinkedEnds(nodes, next, previous);
      var node := freshNode;
      freshNode := freshNode + 1;
      nodeData := nodeData[node := data];
      dataMap := dataMap[data.address := node];
      next := next[node := next[HeadNode]];
      previous := previous[next[HeadNode] := node];
      next := next[HeadNode := node];
      previous := previous[node := HeadNode];
      nodes := [node] + nodes;
      order := [data.address] + order;
      entries := entries[data.address := data];
      PushFrontStep(s, data, Snapshot());
    }

    /** getAddress: the stored record; a hit not already at the front is
        unlinked and relinked right after the head sentinel. */
    method GetAddress(addr: string) returns (r: Option<AddressRecord>)
      requires Valid()
      modifies this
      ensures Valid()
      ensures (r, Abstract()) == CacheSpec.Get(old(Abstract()), addr)
    {
      if addr !in dataMap {
        return None;
      }
      ghost var s := Snapshot();
      var node := dataMap[addr];
      ghost var p := NodeOf(s, addr);
      if previous[node] == HeadNode {
        CacheSpec.GetAtFront(Abstract(), addr);
        return Some(nodeData[node]);
      }
      MoveToFront(node, p);
      r := Some(nodeData[node]);
    }

    /** The relinking of a hit not at the front: node `p` of the list is
        unlinked and relinked right after the head sentinel. */
    method MoveToFront(node: int, ghost p: nat)
      requires Valid() && 0 < p < |nodes| && nodes[p] == node
      requires node in next && node in previous && HeadNode in next
      modifies this
      ensures Valid()
      ensures Abstract() == CacheSpec.Get(old(Abstract()), old(order)[p]).1
      ensures dataMap == old(dataMap) && nodeData == old(nodeData)
    {
      ghost var s := Snapshot();
      next := next[previous[node] := next[node]];
      previous := previous[next[node] := previous[node]];
      next := next[node := next[HeadNode]];
      previous := previous[next[HeadNode] := node];
      previous := previous[node := HeadNode];
      next := next[HeadNode := node];
      nodes := [node] + (nodes[..p] + nodes[p + 1..]);
      order := [order[p]] + (order[..p] + order[p + 1..]);
      MoveToFrontStep(s, p, Snapshot());
    }

    /** Writes new transactions into the record a lookup handed out, as the
        assignment through the returned pointer does; order is untouched. */
    method StoreTransactions(addr: string, txs: seq<Transaction>)
      requires Valid() && addr in Abstract().entries
      modifies this
      ensures Valid()
      ensures Abstract() == CacheSpec.SetTransactions(old(Abstract()), addr, txs)
    {
      ghost var s := Snapshot();
      var node := dataMap[addr];
      nodeData := nodeData[node := nodeData[node].(transactions := txs)];
      entries := entries[addr := entries[addr].(transactions := txs)];
      StoreStep(s, addr, txs, Snapshot());
    }

    /** allAddresses: walks from the head sentinel, filling a slice of
        size() addresses. */
    method AllAddresses() returns (addresses: seq<string>)
      requires Valid()
      ensures addresses == CacheSpec.AllAddresses(Abstract())
    {
      ghost var s := Snapshot();
      WalkFacts(s);
      var buffer := new string[|dataMap|];
      var i, node := 0, next[HeadNode];
      while i < buffer.Length && node != Nil
        invariant 0 <= i <= buffer.Length == |s.nodes|
        invariant nodeData == s.nodeData && next == s.next
        invariant node == if i < |s.nodes| then s.nodes[i] else TailNode
        invariant forall k :: 0 <= k < i ==> buffer[k] == s.order[k]
      {
        buffer[i] := nodeData[node].address;
        i, node := i + 1, next[node];
      }
      addresses := buffer[..];
      assert addresses == s.order;
    }
  }
}
