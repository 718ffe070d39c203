/**
 * The bounded address cache (packages/parser/lru.go) as a value: the recency
 * order of the tracked addresses, most recently touched first, and the record
 * stored for each. The class in lru.dfy is proved to follow these functions;
 * the lemmas below state what the cache promises.
 */
module CacheSpec {
  import opened Types

  predicate Distinct(s: seq<string>) {
    forall i, j :: 0 <= i < j < |s| ==> s[i] != s[j]
  }

  /** `order` runs from the node after the head sentinel to the node before
      the tail sentinel; `entries` is the address-to-record map. */
  datatype Cache = Cache(order: seq<string>, entries: map<string, AddressRecord>)

  /** The list holds each key of the map exactly once, and every record is
      filed under its own address. */
  ghost predicate Valid(c: Cache) {
    && Distinct(c.order)
    && (forall a :: a in c.order <==> a in c.entries)
    && (forall a :: a in c.entries ==> c.entries[a].address == a)
  }

  /** The largest size a cache of this capability reaches: a capability
      below one still admits one entry, since evicting from an empty list
      does nothing. */
  function Bound(capability: int): (b: nat)
    ensures b >= 1 && b >= capability
  {
    if capability >= 1 then capability else 1
  }

  const Empty: Cache := Cache([], map[])

  function Size(c: Cache): nat {
    |c.entries|
  }

  /** The tracked addresses from most to least recently touched. */
  function AllAddresses(c: Cache): seq<string> {
    c.order
  }

  /** The non-promoting lookup. */
  function Peek(c: Cache, a: string): (r: Option<AddressRecord>)
    ensures r.Some? <==> a in c.entries
    ensures r.Some? ==> r.value == c.entries[a]
  {
    if a in c.entries then Some(c.entries[a]) else None
  }

  /** Drops the least recently touched entry, if there is one. */
  function RemoveTail(c: Cache): (r: Cache)
    ensures r.order <= c.order && |r.order| == if c.order == [] then 0 else |c.order| - 1
    ensures forall a :: a in r.entries ==> a in c.entries && r.entries[a] == c.entries[a]
  {
    if c.order == [] then c
    else Cache(c.order[..|c.order| - 1], c.entries - {c.order[|c.order| - 1]})
  }

  /** Inserts a record for a new address at the front, evicting the tail
      first when the map already holds `capability` entries; an address that
      is already present is left as it is. */
  function Put(c: Cache, capability: int, data: AddressRecord): (r: Cache)
    ensures data.address in r.entries
    ensures data.address !in c.entries ==> r.entries[data.address] == data && r.order != [] && r.order[0] == data.address
    ensures forall a :: a in r.entries ==> a in c.entries || a == data.address
  {
    if data.address in c.entries then c
    else
      var room := if |c.entries| >= capability then RemoveTail(c) else c;
      Cache([data.address] + room.order, room.entries[data.address := data])
  }

  /** `s` with every occurrence of `a` taken out, the rest in order. */
  function Without(s: seq<string>, a: string): seq<string> {
    if s == [] then []
    else (if s[0] == a then [] else [s[0]]) + Without(s[1..], a)
  }

  /** The promoting lookup: the record, and the cache with the address moved
      to the front. */
  function Get(c: Cache, a: string): (r: (Option<AddressRecord>, Cache))
    ensures r.0 == Peek(c, a)
    ensures r.1.entries == c.entries
    ensures a in c.entries ==> r.1.order != [] && r.1.order[0] == a
  {
    if a !in c.entries then (None, c)
    else (Some(c.entries[a]), Cache([a] + Without(c.order, a), c.entries))
  }

  /** Overwrites the transactions of one stored record, as a write through
      the pointer handed out by a lookup does. */
  function SetTransactions(c: Cache, a: string, txs: seq<Transaction>): (r: Cache)
    requires a in c.entries
    ensures r.order == c.order && r.entries.Keys == c.entries.Keys
    ensures r.entries[a].transactions == txs && r.entries[a].address == c.entries[a].address
  {
    Cache(c.order, c.entries[a := c.entries[a].(transactions := txs)])
  }

  // ---------------------------------------------------------------------
  // Sequences without a key

  lemma {:induction false} WithoutMembers(s: seq<string>, a: string)
    ensures forall x :: x in Without(s, a) <==> x in s && x != a
  {
    if s != [] {
      WithoutMembers(s[1..], a);
      assert s == [s[0]] + s[1..];
    }
  }

  lemma {:induction false} WithoutNotIn(s: seq<string>, a: string)
    requires a !in s
    ensures Without(s, a) == s
  {
    if s != [] {
      WithoutNotIn(s[1..], a);
      assert s == [s[0]] + s[1..];
    }
  }

  lemma {:induction false} WithoutDistinct(s: seq<string>, a: string)
    requires Distinct(s)
    ensures Distinct(Without(s, a))
  {
    if s != [] {
      WithoutDistinct(s[1..], a);
      WithoutMembers(s[1..], a);
      var w := Without(s[1..], a);
      if s[0] != a {
        assert s[0] !in s[1..];
        assert Without(s, a) == [s[0]] + w;
      }
    }
  }

  /** In a list without duplicates, removing the key at index p leaves the
      entries before and after it, in order. */
  lemma {:induction false} WithoutAt(s: seq<string>, p: nat)
    requires Distinct(s) && p < |s|
    ensures Without(s, s[p]) == s[..p] + s[p + 1..]
  {
    if p == 0 {
      assert s[0] !in s[1..];
      WithoutNotIn(s[1..], s[0]);
    } else {
      WithoutAt(s[1..], p - 1);
      assert s[1..][p - 1] == s[p];
      assert s[1..][..p - 1] + s[1..][p..] == s[1..p] + s[p + 1..];
      assert s[..p] + s[p + 1..] == [s[0]] + (s[1..p] + s[p + 1..]);
    }
  }

  // ---------------------------------------------------------------------
  // Size

  lemma {:induction false} DistinctCard(s: seq<string>)
    requires Distinct(s)
    ensures |(set x | x in s)| == |s|
  {
    if s != [] {
      DistinctCard(s[1..]);
      assert (set x | x in s) == (set x | x in s[1..]) + {s[0]};
      assert s[0] !in s[1..];
    }
  }

  /** size() counts the map; the list it walks has the same length, so the
      snapshot has exactly size() addresses. */
  lemma SizeIsLength(c: Cache)
    requires Valid(c)
    ensures Size(c) == |c.order| == |AllAddresses(c)|
  {
    assert c.entries.Keys == (set x | x in c.order);
    DistinctCard(c.order);
  }

  // ---------------------------------------------------------------------
  // removeTail

  lemma RemoveTailValid(c: Cache)
    requires Valid(c) && c.order != []
    ensures Valid(RemoveTail(c))
  {
    var r := RemoveTail(c);
    var n := |c.order|;
    forall a | a in r.entries ensures a in r.order {
      assert a in c.order;
      var i :| 0 <= i < n && c.order[i] == a;
      assert r.order[i] == a;
    }
    forall a | a in r.order ensures a in r.entries {
      var i :| 0 <= i < n - 1 && r.order[i] == a;
      assert c.order[i] == a;
    }
  }

  lemma RemoveTailSpec(c: Cache)
    requires Valid(c)
    ensures var r := RemoveTail(c);
      && Valid(r)
      && (c.order == [] ==> r == c)
      && (c.order != [] ==>
            var lru := c.order[|c.order| - 1];
            && c.order == r.order + [lru]
            && lru !in r.entries
            && Size(r) == Size(c) - 1
            && forall a :: a in r.entries ==> a in c.entries && r.entries[a] == c.entries[a])
  {
    if c.order != [] {
      var r := RemoveTail(c);
      var lru := c.order[|c.order| - 1];
      RemoveTailValid(c);
      assert c.order == r.order + [lru];
      assert Size(c) == |c.order| by { SizeIsLength(c); }
      assert Size(r) == |r.order| by { SizeIsLength(r); }
    }
  }

  // ---------------------------------------------------------------------
  // putAddress

  /** Entering a new address at the front keeps the cache well formed. */
  lemma ConsValid(c: Cache, data: AddressRecord)
    requires Valid(c) && data.address !in c.entries
    ensures Valid(Cache([data.address] + c.order, c.entries[data.address := data]))
  {
    ConsDistinct(data.address, c.order);
  }

  lemma PutPreservesValid(c: Cache, capability: int, data: AddressRecord)
    requires Valid(c)
    ensures Valid(Put(c, capability, data))
    ensures data.address in Put(c, capability, data).entries
  {
    if data.address !in c.entries {
      RemoveTailSpec(c);
      var room := if |c.entries| >= capability then RemoveTail(c) else c;
      ConsValid(room, data);
    }
  }

  /** Putting an address that is already tracked changes nothing: neither
      its record nor the recency order. */
  lemma PutExistingIsNoOp(c: Cache, capability: int, data: AddressRecord)
    requires data.address in c.entries
    ensures Put(c, capability, data) == c
  {
  }

  /** Putting a new address into a full map puts its record at the front
      and drops exactly the least recently touched entry off the back;
      every other record stays as it was. */
  lemma PutNewEvictsTail(c: Cache, capability: int, data: AddressRecord)
    requires Valid(c) && data.address !in c.entries
    requires Size(c) >= capability && c.order != []
    ensures var r := Put(c, capability, data);
      var lru := c.order[|c.order| - 1];
      && r.entries[data.address] == data
      && [data.address] + c.order == r.order + [lru]
      && lru !in r.entries
      && Size(r) == Size(c)
      && forall a :: a in c.entries && a != lru ==> a in r.entries && r.entries[a] == c.entries[a]
  {
    var r := Put(c, capability, data);
    var lru := c.order[|c.order| - 1];
    var room := RemoveTail(c);
    assert |c.entries| >= capability;
    assert r.order == [data.address] + room.order;
    assert r.entries == room.entries[data.address := data];
    assert room.entries == c.entries - {lru};
    assert c.order == room.order + [lru];
    PutNewFullSize(c, capability, data);
  }

  lemma PutNewFullSize(c: Cache, capability: int, data: AddressRecord)
    requires Valid(c) && data.address !in c.entries
    requires Size(c) >= capability && c.order != []
    ensures Size(Put(c, capability, data)) == Size(c)
  {
    var r := Put(c, capability, data);
    assert |r.order| == |c.order|;
    assert Valid(r) by { PutPreservesValid(c, capability, data); }
    assert Size(r) == |r.order| by { SizeIsLength(r); }
    assert Size(c) == |c.order| by { SizeIsLength(c); }
  }

  /** Putting a new address while there is room puts its record at the
      front and keeps every other record and its place. */
  lemma PutNewInsertsFront(c: Cache, capability: int, data: AddressRecord)
    requires Valid(c) && data.address !in c.entries
    requires Size(c) < capability || c.order == []
    ensures var r := Put(c, capability, data);
      && r.entries[data.address] == data
      && r.order == [data.address] + c.order
      && Size(r) == Size(c) + 1
      && forall a :: a in c.entries ==> a in r.entries && r.entries[a] == c.entries[a]
  {
    SizeIsLength(c);
  }

  /** For capability >= 1 the cache never holds more than capability
      entries; below one it never holds more than one. */
  lemma PutWithinCapacity(c: Cache, capability: int, data: AddressRecord)
    requires Valid(c) && Size(c) <= Bound(capability)
    ensures Size(Put(c, capability, data)) <= Bound(capability)
    ensures capability >= 1 ==> Size(Put(c, capability, data)) <= capability
  {
    if data.address !in c.entries {
      if Size(c) >= capability && c.order != [] {
        PutNewEvictsTail(c, capability, data);
      } else {
        PutNewInsertsFront(c, capability, data);
        SizeIsLength(c);
      }
    }
  }

  /** With a new address and a cache within its bound, the result keeps the
      Bound(capability) most recent addresses, newest first. */
  lemma PutNewWindow(c: Cache, capability: int, data: AddressRecord)
    requires Valid(c) && data.address !in c.entries && |c.order| <= Bound(capability)
    ensures Put(c, capability, data).order
         == ([data.address] + c.order)[..if Bound(capability) < |c.order| + 1 then Bound(capability) else |c.order| + 1]
  {
    SizeIsLength(c);
    var s := [data.address] + c.order;
    if Size(c) >= capability && c.order != [] {
      assert s[..|c.order|] == [data.address] + c.order[..|c.order| - 1];
    } else {
      assert s[..|s|] == s;
    }
  }

  // ---------------------------------------------------------------------
  // getAddress and getAddressIn

  /** Put never rewrites a stored record: every record afterwards is the
      one stored before under that address, or the new one. */
  lemma PutEntries(c: Cache, capability: int, data: AddressRecord)
    ensures var r := Put(c, capability, data);
      forall a :: a in r.entries ==>
        || (a in c.entries && r.entries[a] == c.entries[a])
        || (a == data.address && r.entries[a] == data)
  {
    if data.address !in c.entries {
      var room := if |c.entries| >= capability then RemoveTail(c) else c;
      assert forall a :: a in room.entries ==> a in c.entries && room.entries[a] == c.entries[a];
    }
  }

  /** The promoting lookup finds exactly the stored record; a hit moves the
      address to the front and leaves the relative order of all other
      addresses as it was; a miss changes nothing; the map is never touched. */
  lemma GetSpec(c: Cache, a: string)
    requires Valid(c)
    ensures var (r, c') := Get(c, a);
      && Valid(c')
      && c'.entries == c.entries
      && r == Peek(c, a)
      && (a !in c.entries ==> c' == c)
      && (a in c.entries ==>
            && c'.order[0] == a
            && Without(c'.order, a) == Without(c.order, a)
            && |c'.order| == |c.order|)
  {
    if a in c.entries {
      var w := Without(c.order, a);
      var c' := Get(c, a).1;
      assert c'.order == [a] + w;
      WithoutMembers(c.order, a);
      assert Without(c'.order, a) == w by {
        WithoutNotIn(w, a);
        assert c'.order[1..] == w;
      }
      assert Valid(c') by {
        WithoutDistinct(c.order, a);
        ConsDistinct(a, w);
      }
      assert |c'.order| == |c.order| by {
        SizeIsLength(c);
        SizeIsLength(c');
      }
    }
  }

  lemma ConsDistinct(a: string, w: seq<string>)
    requires Distinct(w) && a !in w
    ensures Distinct([a] + w)
  {
    var s := [a] + w;
    forall i, j | 0 <= i < j < |s| ensures s[i] != s[j] {
      assert s[j] == w[j - 1];
      if i > 0 {
        assert s[i] == w[i - 1];
      }
    }
  }

  /** An address that is already the most recent one stays where it is. */
  lemma GetAtFront(c: Cache, a: string)
    requires Valid(c) && c.order != [] && c.order[0] == a
    ensures Get(c, a) == (Some(c.entries[a]), c)
  {
    WithoutAt(c.order, 0);
    assert c.order[..0] + c.order[1..] == c.order[1..];
    assert [a] + c.order[1..] == c.order;
  }

  // ---------------------------------------------------------------------
  // Writing through a looked-up record

  /** Changing a record's transactions keeps the order, the key set and
      the record's block number, and touches no other record. */
  lemma SetTransactionsSpec(c: Cache, a: string, txs: seq<Transaction>)
    requires Valid(c) && a in c.entries
    ensures var r := SetTransactions(c, a, txs);
      && Valid(r)
      && r.order == c.order
      && r.entries.Keys == c.entries.Keys
      && r.entries[a] == AddressRecord(a, c.entries[a].blockNum, txs)
      && forall b :: b in c.entries && b != a ==> r.entries[b] == c.entries[b]
  {
  }

  // ---------------------------------------------------------------------
  // The cache's own test scenarios

  /** A record with no transactions yet, as a subscription admits it. */
  function Rec(a: string, blockNum: int): AddressRecord {
    AddressRecord(a, blockNum, [])
  }

  /** Capacity 2; putting "1", "2", "3" evicts "1" and keeps the others. */
  lemma EvictionScenario()
    ensures var c := Put(Put(Put(Empty, 2, Rec("1", 0)), 2, Rec("2", 0)), 2, Rec("3", 0));
      && Size(c) == 2
      && Peek(c, "1") == None
      && Peek(c, "2") == Some(Rec("2", 0))
      && Peek(c, "3") == Some(Rec("3", 0))
      && AllAddresses(c) == ["3", "2"]
  {
    var c1 := Put(Empty, 2, Rec("1", 0));
    assert c1 == Cache(["1"], map["1" := Rec("1", 0)]);
    var c2 := Put(c1, 2, Rec("2", 0));
    assert "2" != "1";
    assert c2 == Cache(["2", "1"], map["1" := Rec("1", 0), "2" := Rec("2", 0)]);
    var c3 := Put(c2, 2, Rec("3", 0));
    assert "3" != "1" && "3" != "2";
    assert RemoveTail(c2) == Cache(["2"], map["2" := Rec("2", 0)]);
    assert c3 == Cache(["3", "2"], map["2" := Rec("2", 0), "3" := Rec("3", 0)]);
  }

  /** Capacity 2; after `a`, `b`, reading `a` promotes it, so putting `e`
      evicts `b`. */
  lemma ReadPromotes(a: string, b: string, e: string, blockNum: int)
    requires a != b && e != a && e != b
    ensures var c := Get(Put(Put(Empty, 2, Rec(a, blockNum)), 2, Rec(b, blockNum)), a).1;
      var d := Put(c, 2, Rec(e, blockNum));
      && Peek(d, b) == None
      && Peek(d, a) == Some(Rec(a, blockNum))
      && Peek(d, e) == Some(Rec(e, blockNum))
      && AllAddresses(d) == [e, a]
  {
    var ra, rb, re := Rec(a, blockNum), Rec(b, blockNum), Rec(e, blockNum);
    var c := Cache([a, b], map[a := ra, b := rb]);
    PutTwo(a, b, blockNum);
    assert Get(Cache([b, a], map[a := ra, b := rb]), a).1 == c by {
      assert Without([b, a], a) == [b] by {
        assert [b, a][1..] == [a];
        assert Without([a], a) == [];
      }
    }
    var d := Cache([e, a], map[a := ra, e := re]);
    assert Put(c, 2, re) == d by {
      assert RemoveTail(c) == Cache([a], map[a := ra]);
    }
  }

  /** Two distinct addresses put into an empty cache of capacity 2. */
  lemma PutTwo(a: string, b: string, blockNum: int)
    requires a != b
    ensures Put(Put(Empty, 2, Rec(a, blockNum)), 2, Rec(b, blockNum))
      == Cache([b, a], map[a := Rec(a, blockNum), b := Rec(b, blockNum)])
  {
    assert Put(Empty, 2, Rec(a, blockNum)) == Cache([a], map[a := Rec(a, blockNum)]);
  }

  /** The promotion scenario with the test's addresses "1", "2", "3". */
  lemma PromotionScenario()
    ensures var c := Get(Put(Put(Empty, 2, Rec("1", 0)), 2, Rec("2", 0)), "1").1;
      var d := Put(c, 2, Rec("3", 0));
      && Peek(d, "2") == None
      && Peek(d, "1") == Some(Rec("1", 0))
      && Peek(d, "3") == Some(Rec("3", 0))
      && AllAddresses(d) == ["3", "1"]
  {
    assert "1" != "2" && "3" != "1" && "3" != "2";
    ReadPromotes("1", "2", "3", 0);
  }

  /** Capacity 2; after "1", "2", removing the tail leaves only "2". */
  lemma RemoveTailScenario()
    ensures var c := RemoveTail(Put(Put(Empty, 2, Rec("1", 1)), 2, Rec("2", 2)));
      && Size(c) == 1
      && Peek(c, "1") == None
      && Peek(c, "2") == Some(Rec("2", 2))
  {
    var c2 := Put(Put(Empty, 2, Rec("1", 1)), 2, Rec("2", 2));
    assert "2" != "1";
    assert c2 == Cache(["2", "1"], map["1" := Rec("1", 1), "2" := Rec("2", 2)]);
    assert RemoveTail(c2) == Cache(["2"], map["2" := Rec("2", 2)]);
  }

  /** Capacity 2; after "1", "2" the snapshot is ["2", "1"]. */
  lemma AllAddressesScenario()
    ensures AllAddresses(Put(Put(Empty, 2, Rec("1", 1)), 2, Rec("2", 2))) == ["2", "1"]
  {
    assert "2" != "1";
  }

  /** Capability 0 still admits one entry; a second address replaces it. */
  lemma ZeroCapacityScenario()
    ensures var c1 := Put(Empty, 0, Rec("1", 0));
      var c2 := Put(c1, 0, Rec("2", 0));
      && Size(c1) == 1
      && AllAddresses(c2) == ["2"]
      && Size(c2) == 1
  {
    var c1 := Put(Empty, 0, Rec("1", 0));
    assert c1 == Cache(["1"], map["1" := Rec("1", 0)]);
    assert "2" != "1";
    assert RemoveTail(c1) == Empty;
    assert Put(c1, 0, Rec("2", 0)) == Cache(["2"], map["2" := Rec("2", 0)]);
  }
}
