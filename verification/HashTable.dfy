/**
 The chained hash table: an array of head pointers, nodes that cache their hash, growth to a
 prime capacity.  Every operation is proved to do to the table what it does to a map.
 */
module HashTable {
  import opened LinkedLists
  import opened Options
  import opened Primes
  import opened Sequences

  /** An entry keeps the hash of its key so that growing the table need not compute it again. */
  datatype Entry<K, V> = Entry(key: K, value: V, hash: nat)

  type Chain<K, V> = seq<Entry<K, V>>

  const DEFAULT_CAPACITY := 101

  // ----- One bucket -----

  /** Where the key is in the chain; its length if it is not. */
  function IndexOf<K(==), V>(chain: Chain<K, V>, key: K): (i: nat)
    ensures i <= |chain|
    ensures i < |chain| ==> chain[i].key == key
    ensures forall j | 0 <= j < i :: chain[j].key != key
  {
    if chain == [] then 0 else if chain[0].key == key then 0 else 1 + IndexOf(chain[1..], key)
  }

  function ChainGet<K(==), V>(chain: Chain<K, V>, key: K): Option<V> {
    var i := IndexOf(chain, key);
    if i < |chain| then Some(chain[i].value) else None
  }

  ghost predicate DistinctKeys<K, V>(chain: Chain<K, V>) {
    forall i, j | 0 <= i < j < |chain| :: chain[i].key != chain[j].key
  }

  lemma IndexUnique<K, V>(chain: Chain<K, V>, i: nat)
    requires DistinctKeys(chain) && i < |chain|
    ensures IndexOf(chain, chain[i].key) == i
  {
  }

  lemma ChainGetHit<K, V>(chain: Chain<K, V>, i: nat, key: K)
    requires i < |chain| && chain[i].key == key && forall j | 0 <= j < i :: chain[j].key != key
    ensures IndexOf(chain, key) == i && ChainGet(chain, key) == Some(chain[i].value)
  {
  }

  lemma ChainGetMiss<K, V>(chain: Chain<K, V>, key: K)
    requires forall j | 0 <= j < |chain| :: chain[j].key != key
    ensures ChainGet(chain, key) == None
  {
  }

  lemma ChainUpdate<K, V>(chain: Chain<K, V>, i: nat, v: V, key: K)
    requires DistinctKeys(chain) && i < |chain|
    ensures ChainGet(chain[i := chain[i].(value := v)], key) ==
            if key == chain[i].key then Some(v) else ChainGet(chain, key)
  {
    var c := chain[i := chain[i].(value := v)];
    var j := IndexOf(chain, key);
    if j < |chain| { ChainGetHit(c, j, key); } else { ChainGetMiss(c, key); }
  }

  lemma ChainRemove<K, V>(chain: Chain<K, V>, i: nat, key: K)
    requires DistinctKeys(chain) && i < |chain|
    ensures DistinctKeys(chain[..i] + chain[i + 1..])
    ensures ChainGet(chain[..i] + chain[i + 1..], key) ==
            if key == chain[i].key then None else ChainGet(chain, key)
  {
    var c := chain[..i] + chain[i + 1..];
    var j := IndexOf(chain, key);
    if j < i {
      ChainGetHit(c, j, key);
    } else if i < j < |chain| {
      ChainGetHit(c, j - 1, key);
    } else {
      ChainGetMiss(c, key);
    }
  }

  lemma ChainExtend<K, V>(chain: Chain<K, V>, n: nat, key: K)
    requires DistinctKeys(chain) && n < |chain|
    ensures ChainGet(chain[..n + 1], key) ==
            if key == chain[n].key then Some(chain[n].value) else ChainGet(chain[..n], key)
    ensures ChainGet(chain[..n], chain[n].key) == None
  {
    var c := chain[..n + 1];
    var j := IndexOf(chain[..n], key);
    ChainGetMiss(chain[..n], chain[n].key);
    if key == chain[n].key { ChainGetHit(c, n, key); }
    else if j < n { ChainGetHit(c, j, key); }
    else { ChainGetMiss(c, key); }
  }

  lemma IndexFrom<K, V>(chain: Chain<K, V>, i: nat, key: K)
    requires i <= |chain|
    ensures IndexOf(chain[i..], key) ==
            if i == |chain| || chain[i].key == key then 0 else 1 + IndexOf(chain[i + 1..], key)
  {
    if i < |chain| { assert chain[i..][1..] == chain[i + 1..]; }
  }

  // ----- All buckets -----

  /** The hash function applied with the seed of one table. */
  type Hash<!K> = K -> nat

  ghost predicate BucketOk<K, V>(chain: Chain<K, V>, i: nat, cap: nat, h: Hash<K>)
    requires cap > 0
  {
    && DistinctKeys(chain)
    && forall j | 0 <= j < |chain| :: chain[j].hash == h(chain[j].key) && chain[j].hash % cap == i
  }

  ghost predicate BucketsOk<K, V>(buckets: seq<Chain<K, V>>, h: Hash<K>) {
    forall i | 0 <= i < |buckets| :: BucketOk(buckets[i], i, |buckets|, h)
  }

  function Lookup<K(==), V>(buckets: seq<Chain<K, V>>, h: Hash<K>, key: K): Option<V>
    requires |buckets| > 0
  {
    ChainGet(buckets[h(key) % |buckets|], key)
  }

  function MapGet<K, V>(m: map<K, V>, key: K): Option<V> {
    if key in m then Some(m[key]) else None
  }

  ghost predicate Represents<K(!new), V>(buckets: seq<Chain<K, V>>, h: Hash<K>, m: map<K, V>)
    requires |buckets| > 0
  {
    forall key :: Lookup(buckets, h, key) == MapGet(m, key)
  }

  // ----- What an operation means for all buckets -----

  lemma OverwriteMeans<K(!new), V>(buckets: seq<Chain<K, V>>, h: Hash<K>, m: map<K, V>, b: nat, i: nat, v: V)
    requires b < |buckets| && i < |buckets[b]| && BucketsOk(buckets, h) && Represents(buckets, h, m)
    ensures var chain := buckets[b];
            var now := buckets[b := chain[i := chain[i].(value := v)]];
            && chain[i].key in m && BucketsOk(now, h) && Represents(now, h, m[chain[i].key := v])
  {
    var chain := buckets[b];
    var now, key := buckets[b := chain[i := chain[i].(value := v)]], chain[i].key;
    assert BucketOk(chain, b, |buckets|, h);
    IndexUnique(chain, i);
    assert Lookup(buckets, h, key) == MapGet(m, key);
    forall k ensures Lookup(now, h, k) == MapGet(m[key := v], k) {
      assert Lookup(buckets, h, k) == MapGet(m, k);
      if h(k) % |buckets| == b { ChainUpdate(chain, i, v, k); }
    }
  }

  lemma InsertOk<K, V>(buckets: seq<Chain<K, V>>, h: Hash<K>, e: Entry<K, V>)
    requires 0 < |buckets| && e.hash == h(e.key) && BucketsOk(buckets, h) && Lookup(buckets, h, e.key) == None
    ensures var b := e.hash % |buckets|; BucketsOk(buckets[b := [e] + buckets[b]], h)
  {
    var b := e.hash % |buckets|;
    assert BucketOk(buckets[b], b, |buckets|, h);
    var now := [e] + buckets[b];
    assert forall j | 0 < j < |now| :: now[j] == buckets[b][j - 1];
    assert IndexOf(buckets[b], e.key) == |buckets[b]|;
    assert BucketOk(now, b, |buckets|, h);
  }

  lemma InsertMeans<K(!new), V>(buckets: seq<Chain<K, V>>, h: Hash<K>, m: map<K, V>, b: nat, e: Entry<K, V>)
    requires 0 < |buckets| && e.hash == h(e.key) && b == e.hash % |buckets| && e.key !in m
    requires BucketsOk(buckets, h) && Represents(buckets, h, m)
    ensures var now := buckets[b := [e] + buckets[b]];
            BucketsOk(now, h) && Represents(now, h, m[e.key := e.value])
  {
    var now := buckets[b := [e] + buckets[b]];
    assert Lookup(buckets, h, e.key) == MapGet(m, e.key) == None;
    InsertOk(buckets, h, e);
    hide BucketsOk;
    forall k ensures Lookup(now, h, k) == MapGet(m[e.key := e.value], k) {
      assert Lookup(buckets, h, k) == MapGet(m, k);
      if h(k) % |buckets| == b { ChainPrepend(e, buckets[b], k); }
    }
  }

  lemma RemoveMeans<K(!new), V>(buckets: seq<Chain<K, V>>, h: Hash<K>, m: map<K, V>, b: nat, i: nat)
    requires b < |buckets| && i < |buckets[b]| && BucketsOk(buckets, h) && Represents(buckets, h, m)
    ensures var key := buckets[b][i].key;
            var now := buckets[b := Without(buckets[b], i)];
            && key in m && BucketsOk(now, h) && Represents(now, h, m - {key})
  {
    var chain := buckets[b];
    var now, key := buckets[b := Without(chain, i)], chain[i].key;
    assert BucketOk(chain, b, |buckets|, h);
    IndexUnique(chain, i);
    assert Lookup(buckets, h, key) == MapGet(m, key);
    ChainRemove(chain, i, key);
    forall k ensures Lookup(now, h, k) == MapGet(m - {key}, k) {
      assert Lookup(buckets, h, k) == MapGet(m, k);
      if h(k) % |buckets| == b { ChainRemove(chain, i, k); }
    }
  }

  // ----- Nodes -----

  /** A node of a bucket's singly linked list. */
  class Node<K, V> {
    const key: K
    var value: V
    const hash: nat
    var next: Node?<K, V>

    constructor (k: K, v: V, h: nat)
      ensures next == null && Holds() == Entry(k, v, h)
    {
      key, value, hash, next := k, v, h, null;
    }

    ghost function Holds(): Entry<K, V>
      reads this`value
    {
      Entry(key, value, hash)
    }
  }

  ghost function NodeAt<K, V>(nodes: seq<Node<K, V>>, i: int): Node?<K, V> {
    if 0 <= i < |nodes| then nodes[i] else null
  }

  ghost predicate NodeOk<K, V>(nodes: seq<Node<K, V>>, chain: Chain<K, V>, i: nat)
    requires |nodes| == |chain|
    reads nodes`next, nodes`value
  {
    i < |nodes| ==> nodes[i].next == NodeAt(nodes, i + 1) && nodes[i].Holds() == chain[i]
  }

  /** Following the links from the head meets these nodes, which hold this chain. */
  ghost predicate Hangs<K, V>(head: Node?<K, V>, nodes: seq<Node<K, V>>, chain: Chain<K, V>)
    reads nodes`next, nodes`value
  {
    && |nodes| == |chain|
    && head == NodeAt(nodes, 0)
    && forall i: nat | i < |nodes| :: NodeOk(nodes, chain, i)
  }

  lemma HangsFront<K, V>(n: Node<K, V>, nodes: seq<Node<K, V>>, chain: Chain<K, V>)
    requires Hangs(n.next, nodes, chain)
    ensures Hangs(n, [n] + nodes, [n.Holds()] + chain)
  {
    var now, c := [n] + nodes, [n.Holds()] + chain;
    forall i: nat | i < |now| ensures NodeOk(now, c, i) {
      if i > 0 { assert NodeOk(nodes, chain, i - 1); }
    }
  }

  lemma HangsTail<K, V>(head: Node?<K, V>, nodes: seq<Node<K, V>>, chain: Chain<K, V>)
    requires Hangs(head, nodes, chain)
    ensures head == null ==> nodes == [] && chain == []
    ensures head != null ==> nodes != [] && chain != [] && head == nodes[0] && head.Holds() == chain[0]
    ensures head != null ==> Hangs(head.next, nodes[1..], chain[1..])
  {
    if nodes != [] {
      assert NodeOk(nodes, chain, 0);
      forall i: nat | i < |nodes| - 1 ensures NodeOk(nodes[1..], chain[1..], i) {
        assert NodeOk(nodes, chain, i + 1);
      }
    }
  }

  /** A row of head pointers, the nodes that hang from each, and what they hold. */
  datatype Row<K, V> = Row(heads: seq<Node?<K, V>>, nodes: seq<seq<Node<K, V>>>, chains: seq<Chain<K, V>>)

  ghost function With<K, V>(r: Row<K, V>, k: nat, head: Node?<K, V>, nodes: seq<Node<K, V>>, chain: Chain<K, V>)
    : Row<K, V>
    requires k < |r.heads| == |r.nodes| == |r.chains|
  {
    Row(r.heads[k := head], r.nodes[k := nodes], r.chains[k := chain])
  }

  ghost predicate InPlace<K, V>(r: Row<K, V>, k: int, j: nat)
    requires |r.heads| == |r.nodes| == |r.chains|
    reads Outside(r.nodes, k)`next, Outside(r.nodes, k)`value
  {
    j < |r.nodes| && j != k ==>
      (forall n | n in r.nodes[j] :: n in Outside(r.nodes, k)) && Hangs(r.heads[j], r.nodes[j], r.chains[j])
  }

  /** Every list of the row but one is in place. */
  ghost predicate HangBut<K, V>(r: Row<K, V>, k: int)
    reads Outside(r.nodes, k)`next, Outside(r.nodes, k)`value
  {
    && |r.heads| == |r.nodes| == |r.chains|
    && forall j: nat | j < |r.nodes| :: InPlace(r, k, j)
  }

  lemma Split<K, V>(r: Row<K, V>, k: nat)
    requires HangBut(r, -1) && Disjoint(r.nodes) && k < |r.nodes|
    ensures HangBut(r, k)
    ensures Hangs(r.heads[k], r.nodes[k], r.chains[k])
    ensures forall n | n in r.nodes[k] :: n !in Outside(r.nodes, k)
  {
    InOneList(r.nodes, k);
    hide Hangs, Disjoint;
    assert InPlace(r, -1, k);
    forall j: nat | j < |r.nodes| ensures InPlace(r, k, j) {
      assert InPlace(r, -1, j);
    }
  }

  lemma Join<K, V>(r: Row<K, V>, k: nat, head: Node?<K, V>, nodes: seq<Node<K, V>>, chain: Chain<K, V>)
    requires HangBut(r, k) && k < |r.nodes| && Hangs(head, nodes, chain)
    ensures HangBut(With(r, k, head, nodes, chain), -1)
  {
    hide Hangs;
    var now := With(r, k, head, nodes, chain);
    forall j: nat | j < |now.nodes| ensures InPlace(now, -1, j) {
      if j != k { assert InPlace(r, k, j); }
    }
  }

  /** A node in no list goes in front of one. */
  lemma FrontDisjoint<T>(all: seq<seq<T>>, k: nat, x: T)
    requires Disjoint(all) && k < |all| && x !in Outside(all, -1)
    ensures Disjoint(all[k := [x] + all[k]])
    ensures Outside(all[k := [x] + all[k]], -1) == Outside(all, -1) + {x}
  {
    var l := Chains(all, k);
    assert !l.Has(x);
    PushedOk(l, x);
    OutsideHas(l);
    OutsideHas(Pushed(l, x));
  }

  lemma OutsideHas<T>(l: Chains<T>)
    ensures forall x :: x in Outside(l.all, -1) <==> l.Has(x)
  {
  }

  lemma WithoutDisjoint<T>(all: seq<seq<T>>, k: nat, i: nat)
    requires Disjoint(all) && k < |all| && i < |all[k]|
    ensures Disjoint(all[k := Without(all[k], i)])
    ensures Outside(all[k := Without(all[k], i)], -1) == Outside(all, -1) - {all[k][i]}
  {
    var l, x := Chains(all, k), all[k][i];
    assert ChainOf(all, x) == k;
    UnlinkedOk(l, x);
    RemoveAt(all[k], i);
    OutsideHas(l);
    OutsideHas(Unlinked(l, x));
  }

  /** The node becomes the head of its list. */
  method PutFront<K, V>(heads: array<Node?<K, V>>, index: nat, e: Node<K, V>, ghost r: Row<K, V>, ghost k: nat)
    requires HangBut(r, -1) && Disjoint(r.nodes) && k < |r.nodes| && e !in Outside(r.nodes, -1)
    requires index < heads.Length && heads[index] == r.heads[k]
    modifies heads, e`next
    ensures heads[..] == old(heads[..])[index := e]
    ensures var now := With(r, k, e, [e] + r.nodes[k], [e.Holds()] + r.chains[k]);
            HangBut(now, -1) && Disjoint(now.nodes) && Outside(now.nodes, -1) == Outside(r.nodes, -1) + {e}
  {
    FrontDisjoint(r.nodes, k, e);
    hide HangBut, Disjoint, Outside, Hangs;
    OutsideAlive(r.nodes, -1);
    e.next := heads[index];
    Split(r, k);
    HangsFront(e, r.nodes[k], r.chains[k]);
    Join(r, k, e, [e] + r.nodes[k], [e.Holds()] + r.chains[k]);
    ghost var now := With(r, k, e, [e] + r.nodes[k], [e.Holds()] + r.chains[k]);
    OutsideAlive(now.nodes, -1);
    heads[index] := e;
  }

  /** The first node of a list leaves it. */
  lemma TakeFirst<K, V>(r: Row<K, V>, i: nat, e: Node<K, V>) returns (rest: Row<K, V>)
    requires HangBut(r, -1) && Disjoint(r.nodes) && i < |r.nodes| && r.heads[i] == e
    ensures r.chains[i] != [] && r.nodes[i] != [] && e.Holds() == r.chains[i][0] && e in Outside(r.nodes, -1)
    ensures rest == With(r, i, e.next, r.nodes[i][1..], r.chains[i][1..])
    ensures HangBut(rest, -1) && Disjoint(rest.nodes) && Outside(rest.nodes, -1) == Outside(r.nodes, -1) - {e}
  {
    Split(r, i);
    HangsTail(e, r.nodes[i], r.chains[i]);
    WithoutDisjoint(r.nodes, i, 0);
    assert Without(r.nodes[i], 0) == r.nodes[i][1..];
    assert e in r.nodes[i];
    hide HangBut, Hangs, Disjoint;
    Join(r, i, e.next, r.nodes[i][1..], r.chains[i][1..]);
    rest := With(r, i, e.next, r.nodes[i][1..], r.chains[i][1..]);
  }

  /** Empty lists behind the others. */
  lemma Widened<K, V>(r: Row<K, V>, heads: seq<Node?<K, V>>) returns (wide: Row<K, V>)
    requires HangBut(r, -1) && Disjoint(r.nodes) && forall k | 0 <= k < |heads| :: heads[k] == null
    ensures |wide.heads| == |wide.nodes| == |wide.chains| == |r.heads| + |heads| && wide.heads == r.heads + heads
    ensures wide.chains[..|r.heads|] == r.chains && forall k | |r.heads| <= k < |wide.chains| :: wide.chains[k] == []
    ensures HangBut(wide, -1) && Disjoint(wide.nodes) && Outside(wide.nodes, -1) == Outside(r.nodes, -1)
  {
    wide := Row(r.heads + heads, r.nodes + seq(|heads|, _ => []), r.chains + seq(|heads|, _ => []));
    var all := wide.nodes;
    forall j, k, c | 0 <= j < |all| && 0 <= k < |all| && c in all[j] && c in all[k] ensures j == k {
      assert j == ChainOf(r.nodes, c) == k;
    }
    DisjointFrom(all);
    hide Disjoint;
    assert forall k | 0 <= k < |r.nodes| :: wide.nodes[k] == r.nodes[k];
    assert Outside(wide.nodes, -1) == Outside(r.nodes, -1);
    hide Hangs;
    forall j: nat | j < |wide.nodes| ensures InPlace(wide, -1, j) {
      if j < |r.nodes| { assert InPlace(r, -1, j); } else { assert Hangs<K, V>(null, [], []); }
    }
  }

  lemma NoEntries<K, V>(heads: seq<Node?<K, V>>) returns (row: Row<K, V>)
    requires forall k | 0 <= k < |heads| :: heads[k] == null
    ensures row.heads == heads && |row.nodes| == |row.chains| == |heads|
    ensures forall k | 0 <= k < |heads| :: row.chains[k] == []
    ensures HangBut(row, -1) && Disjoint(row.nodes) && Outside(row.nodes, -1) == {}
  {
    assert Outside<Node<K, V>>([], -1) == {};
    row := Widened<K, V>(Row([], [], []), heads);
    assert [] + heads == heads;
  }

  lemma NothingThere<K(!new), V>(buckets: seq<Chain<K, V>>, h: Hash<K>)
    requires |buckets| > 0 && forall k | 0 <= k < |buckets| :: buckets[k] == []
    ensures BucketsOk(buckets, h) && Represents(buckets, h, map[])
  {
  }

  /** Without the first n lists. */
  lemma Narrowed<K, V>(r: Row<K, V>, n: nat)
    requires HangBut(r, -1) && Disjoint(r.nodes) && n <= |r.nodes|
    ensures HangBut(Row(r.heads[n..], r.nodes[n..], r.chains[n..]), -1) && Disjoint(r.nodes[n..])
    ensures Outside(r.nodes[n..], -1) <= Outside(r.nodes, -1)
  {
    var now := Row(r.heads[n..], r.nodes[n..], r.chains[n..]);
    var all := now.nodes;
    forall j, k, c | 0 <= j < |all| && 0 <= k < |all| && c in all[j] && c in all[k] ensures j == k {
      assert n + j == ChainOf(r.nodes, c) == n + k;
    }
    DisjointFrom(all);
    hide Disjoint, Hangs;
    forall j: nat | j < |now.nodes| ensures InPlace(now, -1, j) {
      assert InPlace(r, -1, n + j);
    }
  }

  class Table<K(==, !new), V> {
    var pool: array<Node?<K, V>>
    var size: nat
    const hash: Hash<K>
    /** The nodes of each bucket, the entries they hold, and the map this table stands for. */
    ghost var nodes: seq<seq<Node<K, V>>>
    ghost var buckets: seq<Chain<K, V>>
    ghost var contents: map<K, V>

    /** Every node of the table. */
    ghost function Entries(): set<Node<K, V>>
      reads this`nodes
    {
      Outside(nodes, -1)
    }

    /** The array's heads lead to the nodes, no node occurring twice. */
    ghost predicate Shown()
      reads this`pool, this`nodes, this`buckets, pool, Entries()`next, Entries()`value
    {
      Disjoint(nodes) && HangBut(Row(pool[..], nodes, buckets), -1)
    }

    ghost predicate Means()
      reads this`buckets, this`contents
    {
      |buckets| > 0 && BucketsOk(buckets, hash) && Represents(buckets, hash, contents)
    }

    ghost predicate Valid()
      reads this, pool, Entries()`next, Entries()`value
    {
      Shown() && Means() && size == |contents| && size < pool.Length
    }

    constructor (initialCapacity: nat, hashFunction: (K, nat) -> nat, seed: nat)
      ensures Valid() && contents == map[] && fresh(pool) && Entries() == {}
      ensures pool.Length == if initialCapacity > 0 then initialCapacity else DEFAULT_CAPACITY
      ensures forall k :: hash(k) == hashFunction(k, seed)
    {
      var heads := new Node?<K, V>[if initialCapacity > 0 then initialCapacity else DEFAULT_CAPACITY](_ => null);
      ghost var row := NoEntries<K, V>(heads[..]);
      hide HangBut, Disjoint, Outside, BucketsOk, Represents;
      size, pool := 0, heads;
      hash := k => hashFunction(k, seed);
      nodes, buckets, contents := row.nodes, row.chains, map[];
      new;
      NothingThere(buckets, hash);
    }

    lemma EntriesAlive()
      ensures forall e | e in Entries() :: allocated(e)
    {
    }

    /** What the walk has come to. */
    lemma EntryAt(index: nat, i: nat, e: Node?<K, V>)
      requires Shown() && index < |nodes| && e == NodeAt(nodes[index], i)
      ensures |nodes| == |buckets| == pool.Length
      ensures |nodes[index]| == |buckets[index]|
      ensures e == null <==> i >= |buckets[index]|
      ensures e != null ==> e.Holds() == buckets[index][i]
      ensures e != null ==> e in Entries()
    {
      Split(Row(pool[..], nodes, buckets), index);
      assert NodeOk(nodes[index], buckets[index], i);
      assert e != null ==> e in nodes[index];
    }

    /** The bucket is walked until the key is met. */
    method Find(index: nat, key: K) returns (prev: Node?<K, V>, e: Node?<K, V>)
      requires Shown() && index < pool.Length
      ensures index < |nodes| == |buckets|
      ensures var i := IndexOf(buckets[index], key); e == NodeAt(nodes[index], i) && prev == NodeAt(nodes[index], i - 1)
    {
      ghost var r := Row(pool[..], nodes, buckets);
      Split(r, index);
      ghost var ns, chain := nodes[index], buckets[index];
      ghost var i := 0;
      prev, e := null, pool[index];
      hide Disjoint, HangBut, IndexOf;
      assert chain[0..] == chain;
      while e != null && e.key != key
        invariant i <= |chain| == |ns| && e == NodeAt(ns, i) && prev == NodeAt(ns, i - 1)
        invariant IndexOf(chain, key) == i + IndexOf(chain[i..], key)
        decreases |chain| - i
      {
        assert NodeOk(ns, chain, i);
        IndexFrom(chain, i, key);
        prev, e, i := e, e.next, i + 1;
      }
      if e != null { assert NodeOk(ns, chain, i); }
      IndexFrom(chain, i, key);
    }

    method Get(key: K) returns (r: Option<V>)
      requires Valid()
      ensures r == MapGet(contents, key)
    {
      hide Shown, BucketsOk, Represents, IndexOf, Outside;
      EntriesAlive();
      var index := hash(key) % pool.Length;
      var _, e := Find(index, key);
      ghost var i := IndexOf(buckets[index], key);
      EntryAt(index, i, e);
      Looked(index, i, key);
      r := if e != null then Some(e.value) else None;
    }

    method Set(key: K, value: V)
      requires Valid()
      modifies this, pool, Entries()
      ensures Valid() && (pool == old(pool) || fresh(pool)) && fresh(Entries() - old(Entries()))
      ensures contents == old(contents)[key := value]
      ensures pool == old(pool) <==> key in old(contents) || old(size) + 1 < old(pool.Length)
      ensures pool != old(pool) ==> IsNextPrime(2 * old(pool.Length), pool.Length)
    {
      hide Shown, BucketsOk, Represents, IndexOf, Outside;
      EntriesAlive();
      var h := hash(key);
      var index := h % pool.Length;
      var _, e := Find(index, key);
      ghost var i := IndexOf(buckets[index], key);
      EntryAt(index, i, e);
      Looked(index, i, key);
      if e != null {
        Overwrite(e, index, i, value);
        return;
      }
      if size + 1 >= pool.Length {
        Resize();
        index := h % pool.Length;
      }
      EntriesAlive();
      e := new Node(key, value, h);
      Insert(index, e);
    }

    lemma Looked(index: nat, i: nat, key: K)
      requires Means() && index == hash(key) % |buckets| && i == IndexOf(buckets[index], key)
      ensures MapGet(contents, key) == if i < |buckets[index]| then Some(buckets[index][i].value) else None
      ensures i < |buckets[index]| ==> buckets[index][i].key == key
    {
      assert Lookup(buckets, hash, key) == MapGet(contents, key);
    }

    method Overwrite(e: Node<K, V>, ghost b: nat, ghost i: nat, value: V)
      requires Valid() && b < |nodes| && i < |nodes[b]| && nodes[b][i] == e
      modifies this`contents, this`buckets, e`value
      ensures Valid() && contents == old(contents)[e.key := value] && e.key in old(contents)
      ensures nodes == old(nodes) && b < |old(buckets)| && i < |old(buckets[b])|
      ensures buckets == old(buckets)[b := old(buckets[b])[i := Entry(e.key, value, e.hash)]]
    {
      EntryAt(b, i, e);
      OverwriteMeans(buckets, hash, contents, b, i, value);
      hide Shown, BucketsOk, Represents;
      WriteValue(e, b, i, value);
      contents := contents[e.key := value];
    }

    method WriteValue(e: Node<K, V>, ghost b: nat, ghost i: nat, value: V)
      requires Shown() && b < |nodes| == |buckets| && i < |nodes[b]| == |buckets[b]| && nodes[b][i] == e
      modifies this`buckets, e`value
      ensures Shown() && buckets == old(buckets)[b := old(buckets[b])[i := old(buckets[b][i]).(value := value)]]
    {
      ghost var r, ns, chain := Row(pool[..], nodes, buckets), nodes[b], buckets[b];
      ghost var now := chain[i := chain[i].(value := value)];
      Split(r, b);
      hide HangBut, Outside;
      e.value := value;
      forall j: nat | j < |ns| ensures NodeOk(ns, now, j) {
        assert old(NodeOk(ns, chain, j));
      }
      Join(r, b, pool[b], ns, now);
      buckets := buckets[b := now];
      assert Row(pool[..], nodes, buckets) == With(r, b, pool[b], ns, now);
    }

    /** A new node goes to the head of its bucket. */
    method Insert(index: nat, e: Node<K, V>)
      requires Valid() && e !in Entries() && e.hash == hash(e.key) && index == e.hash % pool.Length
      requires e.key !in contents && size + 1 < pool.Length
      modifies this`contents, this`size, this`nodes, this`buckets, pool, e`next
      ensures Valid() && contents == old(contents)[e.key := e.value] && Entries() == old(Entries()) + {e}
      ensures buckets == old(buckets)[index := [Entry(e.key, e.value, e.hash)] + old(buckets[index])]
    {
      Parts();
      InsertMeans(buckets, hash, contents, index, e.Holds());
      hide HangBut, Disjoint, BucketsOk, Represents, Outside;
      ghost var r := Row(pool[..], nodes, buckets);
      PutFront(pool, index, e, r, index);
      nodes, buckets := nodes[index := [e] + nodes[index]], buckets[index := [e.Holds()] + buckets[index]];
      assert Row(pool[..], nodes, buckets) == With(r, index, e, [e] + r.nodes[index], [e.Holds()] + r.chains[index]);
      size := size + 1;
      contents := contents[e.key := e.value];
    }

    method Delete(key: K) returns (found: bool)
      requires Valid()
      modifies this`contents, this`size, this`nodes, this`buckets, pool, Entries()`next
      ensures Valid() && found == (key in old(contents)) && Entries() <= old(Entries())
      ensures contents == old(contents) - {key}
    {
      hide Shown, BucketsOk, Represents, IndexOf, Outside;
      EntriesAlive();
      var index := hash(key) % pool.Length;
      var prev, e := Find(index, key);
      ghost var i := IndexOf(buckets[index], key);
      EntryAt(index, i, e);
      if i > 0 { EntryAt(index, i - 1, prev); }
      Looked(index, i, key);
      if e == null { return false; }
      Unlink(index, prev, e, i);
      found := true;
    }

    method Unlink(index: nat, prev: Node?<K, V>, e: Node<K, V>, ghost i: nat)
      requires Valid() && index < pool.Length == |nodes| && i < |nodes[index]|
      requires e == nodes[index][i] && prev == NodeAt(nodes[index], i - 1)
      modifies this`contents, this`size, this`nodes, this`buckets, pool, Entries()`next
      ensures Valid() && contents == old(contents) - {e.key} && Entries() == old(Entries()) - {e}
      ensures |old(buckets)| == |old(nodes)| && i < |old(buckets[index])|
      ensures buckets == old(buckets)[index := Without(old(buckets[index]), i)]
    {
      EntryAt(index, i, e);
      RemoveMeans(buckets, hash, contents, index, i);
      hide Shown, BucketsOk, Represents;
      OneLess(contents, e.key);
      hide Outside;
      CutOut(index, prev, e, i);
      contents := contents - {e.key};
      size := size - 1;
    }

    lemma OneLess(m: map<K, V>, key: K)
      requires key in m
      ensures |m - {key}| == |m| - 1
    {
      assert m.Keys == (m - {key}).Keys + {key};
    }

    /** The node before it, or the head, skips the node. */
    method CutOut(index: nat, prev: Node?<K, V>, e: Node<K, V>, ghost i: nat)
      requires Shown() && index < pool.Length == |nodes| == |buckets| && i < |nodes[index]| == |buckets[index]|
      requires e == nodes[index][i] && prev == NodeAt(nodes[index], i - 1)
      modifies this`nodes, this`buckets, pool, Entries()`next
      ensures Shown() && nodes == old(nodes)[index := Without(old(nodes[index]), i)]
      ensures buckets == old(buckets)[index := Without(old(buckets[index]), i)] && Entries() == old(Entries()) - {e}
    {
      ghost var r, ns, chain := Row(pool[..], nodes, buckets), nodes[index], buckets[index];
      Split(r, index);
      WithoutDisjoint(nodes, index, i);
      if i > 0 { EntryAt(index, i - 1, prev); }
      hide HangBut, Outside, Disjoint;
      assert NodeOk(ns, chain, i);
      assert Distinct(ns);
      OutsideAlive(r.nodes, index);
      if prev != null { prev.next := e.next; } else { pool[index] := e.next; }
      ghost var now, rest := Without(ns, i), Without(chain, i);
      forall j: nat | j < |now| ensures NodeOk(now, rest, j) {
        assert old(NodeOk(ns, chain, if j < i then j else j + 1));
      }
      assert pool[index] == NodeAt(now, 0);
      Join(r, index, pool[index], now, rest);
      nodes, buckets := nodes[index := now], buckets[index := rest];
      assert Row(pool[..], nodes, buckets) == With(r, index, pool[index], now, rest);
    }

    /** Growing changes no binding: the nodes themselves move to the buckets of the new capacity. */
    method Resize()
      requires Valid()
      modifies this`pool, this`nodes, this`buckets, Entries()`next
      ensures Valid() && fresh(pool) && Entries() <= old(Entries())
      ensures pool.Length >= 2 * old(pool.Length) && IsNextPrime(2 * old(pool.Length), pool.Length)
    {
      Parts();
      ghost var n, before := pool.Length, buckets;
      var newCap := NextPrime(pool.Length * 2);
      assert newCap >= pool.Length * 2;
      hide *;
      EntriesAlive();
      var newPool := new Node?<K, V>[newCap](_ => null);
      ghost var r := Widened(Row(pool[..], nodes, buckets), newPool[..]);
      r := MoveAll(newPool, r, before);
      AllMoved(r.chains[n..], before);
      Adopt(newPool, r, n);
    }

    /** The new array takes the place of the old one. */
    method Adopt(newPool: array<Node?<K, V>>, ghost r: Row<K, V>, ghost n: nat)
      requires Moving(newPool, r, n) && size == |contents| && size < newPool.Length
      requires BucketsOk(r.chains[n..], hash) && newPool.Length > 0 && Represents(r.chains[n..], hash, contents)
      modifies this`pool, this`nodes, this`buckets
      ensures Valid() && pool == newPool && Entries() <= Outside(r.nodes, -1)
    {
      hide HangBut, Disjoint, Outside, BucketsOk, Represents;
      Narrowed(r, n);
      OutsideAlive(r.nodes[n..], -1);
      pool, nodes, buckets := newPool, r.nodes[n..], r.chains[n..];
    }

    lemma Parts()
      requires Valid()
      ensures |nodes| == |buckets| == pool.Length > 0 && Disjoint(nodes) && HangBut(Row(pool[..], nodes, buckets), -1)
      ensures BucketsOk(buckets, hash) && Represents(buckets, hash, contents) && size == |contents| < pool.Length
      ensures Entries() == Outside(nodes, -1)
    {
    }

    method MoveAll(newPool: array<Node?<K, V>>, ghost was: Row<K, V>, ghost before: seq<Chain<K, V>>)
      returns (ghost r: Row<K, V>)
      requires newPool != pool && newPool.Length > 0 && |before| == pool.Length > 0 && BucketsOk(before, hash)
      requires Moving(newPool, was, |before|) && was.heads[..|before|] == pool[..] && was.chains[..|before|] == before
      requires forall k | |before| <= k < |was.chains| :: was.chains[k] == []
      modifies newPool, Outside(was.nodes, -1)`next
      ensures Moving(newPool, r, |before|) && Outside(r.nodes, -1) <= Outside(was.nodes, -1)
      ensures BucketsOk(r.chains[|before|..], hash) && Moved(r.chains[|before|..], before, |before|, 0)
    {
      hide BucketsOk, HangBut, Disjoint, Outside, Moved;
      r := was;
      ghost var n := |before|;
      NothingMoved(r.chains[n..], before);
      for i := 0 to pool.Length
        invariant Moving(newPool, r, n) && Outside(r.nodes, -1) <= Outside(was.nodes, -1)
        invariant forall j | i <= j < n :: r.heads[j] == pool[j] && r.chains[j] == before[j]
        invariant BucketsOk(r.chains[n..], hash) && Moved(r.chains[n..], before, i, 0)
      {
        r := MoveChain(newPool, i, r, before);
      }
    }

    /** The old heads and the new, together: the new ones are those of `newPool`. */
    ghost predicate Moving(newPool: array<Node?<K, V>>, r: Row<K, V>, n: nat)
      reads newPool, Outside(r.nodes, -1)`next, Outside(r.nodes, -1)`value
    {
      && |r.heads| == |r.nodes| == |r.chains| == n + newPool.Length && r.heads[n..] == newPool[..]
      && Disjoint(r.nodes) && HangBut(r, -1)
    }

    /** What the new buckets have for a key when bucket i is moved up to its j-th entry. */
    ghost function MovedFor(before: seq<Chain<K, V>>, i: nat, j: nat, key: K): Option<V>
      requires |before| > 0 && (i < |before| ==> j <= |before[i]|)
    {
      var b := hash(key) % |before|;
      if b < i then ChainGet(before[b], key) else if b == i then ChainGet(before[b][..j], key) else None
    }

    ghost predicate Moved(now: seq<Chain<K, V>>, before: seq<Chain<K, V>>, i: nat, j: nat) {
      |now| > 0 && |before| > 0 && (i < |before| ==> j <= |before[i]|) &&
      forall key :: Lookup(now, hash, key) == MovedFor(before, i, j, key)
    }

    lemma NothingMoved(now: seq<Chain<K, V>>, before: seq<Chain<K, V>>)
      requires |now| > 0 && |before| > 0 && forall k | 0 <= k < |now| :: now[k] == []
      ensures BucketsOk(now, hash) && Moved(now, before, 0, 0)
    {
    }

    lemma AllMoved(now: seq<Chain<K, V>>, before: seq<Chain<K, V>>)
      requires Moved(now, before, |before|, 0) && Represents(before, hash, contents)
      ensures Represents(now, hash, contents)
    {
      forall k ensures Lookup(now, hash, k) == MapGet(contents, k) {
        assert Lookup(before, hash, k) == MapGet(contents, k);
      }
    }

    lemma ChainMoved(now: seq<Chain<K, V>>, before: seq<Chain<K, V>>, i: nat)
      requires i < |before| && Moved(now, before, i, |before[i]|)
      ensures Moved(now, before, i + 1, 0)
    {
      assert before[i][..|before[i]|] == before[i];
    }

    /** The nodes of bucket i move, one after the other. */
    method MoveChain(newPool: array<Node?<K, V>>, i: nat, ghost was: Row<K, V>, ghost before: seq<Chain<K, V>>)
      returns (ghost r: Row<K, V>)
      requires newPool != pool && newPool.Length > 0 && i < |before| == pool.Length && BucketsOk(before, hash)
      requires Moving(newPool, was, |before|)
      requires forall j | i <= j < |before| :: was.heads[j] == pool[j] && was.chains[j] == before[j]
      requires BucketsOk(was.chains[|before|..], hash) && Moved(was.chains[|before|..], before, i, 0)
      modifies newPool, Outside(was.nodes, -1)`next
      ensures Moving(newPool, r, |before|) && Outside(r.nodes, -1) <= Outside(was.nodes, -1)
      ensures forall j | i < j < |before| :: r.heads[j] == pool[j] && r.chains[j] == before[j]
      ensures BucketsOk(r.chains[|before|..], hash) && Moved(r.chains[|before|..], before, i + 1, 0)
    {
      hide BucketsOk, HangBut, Disjoint, Outside, Moved;
      r := was;
      ghost var n, j := |before|, 0;
      var e := pool[i];
      while e != null
        invariant Moving(newPool, r, n) && Outside(r.nodes, -1) <= Outside(was.nodes, -1)
        invariant r.heads[i] == e && j <= |before[i]| && r.chains[i] == before[i][j..]
        invariant forall k | i < k < n :: r.heads[k] == pool[k] && r.chains[k] == before[k]
        invariant BucketsOk(r.chains[n..], hash) && Moved(r.chains[n..], before, i, j)
        decreases |before[i]| - j
      {
        var next := e.next;
        First(r, i);
        ghost var s := r;
        r := MoveOne(newPool, e, i, n, s);
        MoveEntry(s.chains[n..], r.chains[n..], before, i, j);
        e, j := next, j + 1;
      }
      First(r, i);
      ChainMoved(r.chains[n..], before, i);
    }

    lemma First(r: Row<K, V>, i: nat)
      requires HangBut(r, -1) && Disjoint(r.nodes) && i < |r.nodes|
      ensures if r.heads[i] == null then r.chains[i] == [] else r.heads[i] in Outside(r.nodes, -1)
    {
      Split(r, i);
      HangsTail(r.heads[i], r.nodes[i], r.chains[i]);
      assert r.heads[i] != null ==> r.heads[i] in r.nodes[i];
    }

    /** The first node of bucket i goes to the head of its new bucket. */
    method MoveOne(newPool: array<Node?<K, V>>, e: Node<K, V>, ghost i: nat, ghost n: nat, ghost was: Row<K, V>)
      returns (ghost r: Row<K, V>)
      requires newPool.Length > 0 && Moving(newPool, was, n) && i < n && was.heads[i] == e
      modifies newPool, e`next
      ensures Moving(newPool, r, n) && e in Outside(was.nodes, -1) && Outside(r.nodes, -1) == Outside(was.nodes, -1)
      ensures was.chains[i] != [] && e.hash == was.chains[i][0].hash
      ensures var x := n + e.hash % newPool.Length;
              && r.heads == was.heads[i := old(e.next)][x := e]
              && r.chains == was.chains[i := was.chains[i][1..]][x := [was.chains[i][0]] + was.chains[x]]
    {
      ghost var rest := TakeFirst(was, i, e);
      hide HangBut, Disjoint, Outside;
      var index := e.hash % newPool.Length;
      PutFront(newPool, index, e, rest, n + index);
      r := With(rest, n + index, e, [e] + rest.nodes[n + index], [e.Holds()] + rest.chains[n + index]);
    }

    lemma MoveEntry(was: seq<Chain<K, V>>, now: seq<Chain<K, V>>, before: seq<Chain<K, V>>, i: nat, j: nat)
      requires i < |before| && j < |before[i]| && BucketsOk(before, hash)
      requires BucketsOk(was, hash) && Moved(was, before, i, j)
      requires var e := before[i][j]; var x := e.hash % |was|; now == was[x := [e] + was[x]]
      ensures BucketsOk(now, hash) && Moved(now, before, i, j + 1)
    {
      var e := before[i][j];
      assert BucketOk(before[i], i, |before|, hash);
      ChainExtend(before[i], j, e.key);
      assert Lookup(was, hash, e.key) == MovedFor(before, i, j, e.key) == None;
      InsertOk(was, hash, e);
      hide BucketsOk, MovedFor, Lookup;
      forall key ensures Lookup(now, hash, key) == MovedFor(before, i, j + 1, key) {
        MoveKey(was, before, i, j, key);
      }
    }

    lemma MoveKey(was: seq<Chain<K, V>>, before: seq<Chain<K, V>>, i: nat, j: nat, key: K)
      requires i < |before| && j < |before[i]| && BucketOk(before[i], i, |before|, hash) && |was| > 0
      requires Lookup(was, hash, key) == MovedFor(before, i, j, key)
      ensures var e := before[i][j];
              var x := e.hash % |was|;
              Lookup(was[x := [e] + was[x]], hash, key) == MovedFor(before, i, j + 1, key)
    {
      var e := before[i][j];
      ChainPrepend(e, was[e.hash % |was|], key);
      ChainExtend(before[i], j, key);
      hide ChainGet, DistinctKeys;
    }
  }

  lemma ChainPrepend<K, V>(e: Entry<K, V>, chain: Chain<K, V>, key: K)
    ensures ChainGet([e] + chain, key) == if key == e.key then Some(e.value) else ChainGet(chain, key)
  {
    assert ([e] + chain)[1..] == chain;
  }
}
