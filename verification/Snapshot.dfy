/** The table on disk: saving every entry, loading what a file holds, and what survives the trip. */
module Snapshot {
  import opened Bytes
  import opened HashTable
  import opened Options

  type Buffer = seq<byte>
  type ByteTable = Table<Buffer, Buffer>

  const MAX_KEY_LEN := 0x1000
  const MAX_VALUE_SIZE := 0x10_0000
  const SIZE_T := 8

  // ----- size_t, little endian -----

  function Pow256(k: nat): (r: nat)
    ensures r > 0
  {
    if k == 0 then 1 else 256 * Pow256(k - 1)
  }

  function ToBytes(n: nat, k: nat): (b: Buffer)
    ensures |b| == k
  {
    if k == 0 then [] else [n % 256] + ToBytes(n / 256, k - 1)
  }

  function FromBytes(b: Buffer): nat {
    if b == [] then 0 else b[0] + 256 * FromBytes(b[1..])
  }

  lemma {:induction false} FromToBytes(n: nat, k: nat)
    requires n < Pow256(k)
    ensures FromBytes(ToBytes(n, k)) == n
  {
    if k > 0 {
      FromToBytes(n / 256, k - 1);
      assert ToBytes(n, k)[1..] == ToBytes(n / 256, k - 1);
    }
  }

  function SaveSize(n: nat): (b: Buffer)
    ensures |b| == SIZE_T
  {
    ToBytes(n, SIZE_T)
  }

  /** A length that the machine can hold. */
  const SIZE_LIMIT := 0x1_0000_0000_0000_0000

  lemma SizeRoundTrip(n: nat)
    requires n < SIZE_LIMIT
    ensures FromBytes(SaveSize(n)) == n
  {
    assert Pow256(4) == 0x1_0000_0000;
    assert Pow256(8) == SIZE_LIMIT;
    FromToBytes(n, SIZE_T);
  }

  // ----- Files -----

  datatype Pair = Pair(key: Buffer, value: Buffer)

  function SavePair(p: Pair): Buffer {
    SaveSize(|p.key|) + p.key + SaveSize(|p.value|) + p.value
  }

  function SaveAll(ps: seq<Pair>): Buffer {
    if ps == [] then [] else SavePair(ps[0]) + SaveAll(ps[1..])
  }

  predicate KeyLenOk(n: nat) { 0 < n <= MAX_KEY_LEN }
  predicate ValueLenOk(n: nat) { 0 < n <= MAX_VALUE_SIZE }

  /** What the loader accepts; it stops at the first entry that is not. */
  predicate Loadable(p: Pair) {
    KeyLenOk(|p.key|) && ValueLenOk(|p.value|)
  }

  /** The limits of hash_table.h: a key of 1 to 4096 octets, a value of 1 octet to a mebibyte. */
  predicate WithinLimits(key: Buffer, value: Buffer) {
    1 <= |key| <= 4096 && 1 <= |value| <= 1048576
  }

  lemma LimitsAreLoadable(p: Pair)
    ensures Loadable(p) <==> WithinLimits(p.key, p.value)
  {
  }

  /** Sizes are machine words. */
  predicate Sized(p: Pair) {
    |p.key| < SIZE_LIMIT && |p.value| < SIZE_LIMIT
  }

  /** One length-prefixed field at i: its contents, if the file has all of it. */
  function ReadField(file: Buffer, i: nat, keep: nat -> bool): (r: Option<Buffer>)
    requires i <= |file|
    ensures r.Some? ==> i + SIZE_T + |r.value| <= |file| && keep(|r.value|)
  {
    if |file| < i + SIZE_T then None
    else
      var n := FromBytes(file[i..i + SIZE_T]);
      if !keep(n) || |file| < i + SIZE_T + n then None
      else Some(file[i + SIZE_T..i + SIZE_T + n])
  }

  /** The pairs a loader takes from a file, in order. */
  function Load(file: Buffer, i: nat := 0): seq<Pair>
    requires i <= |file|
    decreases |file| - i
  {
    match ReadField(file, i, KeyLenOk)
    case None => []
    case Some(key) =>
      var j := i + SIZE_T + |key|;
      match ReadField(file, j, ValueLenOk)
      case None => []
      case Some(value) => [Pair(key, value)] + Load(file, j + SIZE_T + |value|)
  }

  /** Storing pairs one after the other. */
  function StoreAll(m: map<Buffer, Buffer>, ps: seq<Pair>): map<Buffer, Buffer>
    decreases |ps|
  {
    if ps == [] then m else StoreAll(m[ps[0].key := ps[0].value], ps[1..])
  }

  lemma {:induction false} OctetOf(n: nat, m: nat, k: nat)
    requires k < m
    ensures ToBytes(n, m)[k] == n / Pow256(k) % 256
    decreases m
  {
    if k > 0 {
      OctetOf(n / 256, m - 1, k - 1);
      DivTwice(n, Pow256(k - 1));
    }
  }

  lemma DivTwice(n: nat, d: nat)
    requires d > 0
    ensures n / 256 / d == n / (256 * d)
  {
    var q, r := n / 256 / d, n / 256 % d;
    assert n == 256 * (d * q + r) + n % 256;
    assert 256 * r + n % 256 < 256 * d;
    assert n == (256 * d) * q + (256 * r + n % 256);
    Quotient(n, 256 * d, q, 256 * r + n % 256);
  }

  lemma Multiples(d: nat, a: nat, b: nat)
    ensures a < b ==> d * a + d <= d * b
  {
    if a < b { assert d * b == d * (a + 1) + d * (b - (a + 1)); }
  }

  lemma Quotient(n: nat, d: nat, q: nat, r: nat)
    requires d > 0 && n == d * q + r && r < d
    ensures n / d == q
  {
    assert n == d * (n / d) + n % d;
    Multiples(d, n / d, q);
    Multiples(d, q, n / d);
  }

  /** What a pair is in the file: the length of the key in eight octets, the least significant first, the key, the
      length of the value likewise, the value. */
  lemma PairLayout(p: Pair)
    ensures var s, n := SavePair(p), |p.key|;
            && |s| == 8 + n + 8 + |p.value|
            && (forall k: nat | k < 8 :: s[k] == n / Pow256(k) % 256)
            && s[8..8 + n] == p.key
            && (forall k: nat | k < 8 :: s[8 + n + k] == |p.value| / Pow256(k) % 256)
            && s[8 + n + 8..] == p.value
  {
    var s, n := SavePair(p), |p.key|;
    forall k: nat | k < 8
      ensures s[k] == n / Pow256(k) % 256 && s[8 + n + k] == |p.value| / Pow256(k) % 256
    {
      OctetOf(n, SIZE_T, k);
      OctetOf(|p.value|, SIZE_T, k);
      assert s[k] == SaveSize(n)[k] && s[8 + n + k] == SaveSize(|p.value|)[k];
    }
  }

  // ----- Reading back what was saved -----

  lemma ReadFieldBack(file: Buffer, i: nat, text: Buffer, keep: nat -> bool)
    requires |text| < SIZE_LIMIT && Holds(file, i, SaveSize(|text|) + text)
    ensures ReadField(file, i, keep) == if keep(|text|) then Some(text) else None
  {
    HoldsSplit(file, i, SaveSize(|text|), text);
    SizeRoundTrip(|text|);
  }

  /** A field cut short is not read. */
  lemma ReadFieldCut(file: Buffer, i: nat, text: Buffer, keep: nat -> bool)
    requires |text| < SIZE_LIMIT && i <= |file| < i + SIZE_T + |text|
    requires file[i..] <= SaveSize(|text|) + text
    ensures ReadField(file, i, keep) == None
  {
    if |file| >= i + SIZE_T {
      assert file[i..i + SIZE_T] == file[i..][..SIZE_T] == SaveSize(|text|);
      SizeRoundTrip(|text|);
    }
  }

  function LoadablePrefix(ps: seq<Pair>): (k: nat)
    ensures k <= |ps|
  {
    if ps == [] || !Loadable(ps[0]) then 0 else 1 + LoadablePrefix(ps[1..])
  }

  /** How many of the pairs lie wholly within the first n octets of their file. */
  function WholeWithin(ps: seq<Pair>, n: nat): (k: nat)
    ensures k <= |ps|
  {
    if ps == [] || |SavePair(ps[0])| > n then 0 else 1 + WholeWithin(ps[1..], n - |SavePair(ps[0])|)
  }

  lemma LoadStep(file: Buffer, i: nat, p: Pair)
    requires Sized(p) && Holds(file, i, SavePair(p))
    ensures Load(file, i) == if Loadable(p) then [p] + Load(file, i + |SavePair(p)|) else []
  {
    hide ReadField, SaveSize;
    var k, v := SaveSize(|p.key|) + p.key, SaveSize(|p.value|) + p.value;
    assert SavePair(p) == k + v;
    HoldsSplit(file, i, k, v);
    ReadFieldBack(file, i, p.key, KeyLenOk);
    ReadFieldBack(file, i + |k|, p.value, ValueLenOk);
  }

  lemma LoadCut(file: Buffer, i: nat, p: Pair)
    requires Sized(p) && i <= |file| < i + |SavePair(p)| && file[i..] <= SavePair(p)
    ensures Load(file, i) == []
  {
    hide ReadField, SaveSize;
    var k, v := SaveSize(|p.key|) + p.key, SaveSize(|p.value|) + p.value;
    assert SavePair(p) == k + v;
    if |file| < i + |k| {
      assert file[i..] <= k;
      ReadFieldCut(file, i, p.key, KeyLenOk);
    } else {
      assert file[i..i + |k|] == file[i..][..|k|] == k;
      ReadFieldBack(file, i, p.key, KeyLenOk);
      var j := i + |k|;
      assert file[j..] == file[i..][|k|..] <= v;
      if KeyLenOk(|p.key|) { ReadFieldCut(file, j, p.value, ValueLenOk); }
    }
  }

  lemma LoadEmpty(file: Buffer)
    ensures Load(file, |file|) == []
  {
    hide FromBytes;
  }

  /** A file cut inside its first pair. */
  lemma CutInFirst(file: Buffer, i: nat, ps: seq<Pair>)
    requires i <= |file| && file[i..] <= SaveAll(ps) && ps != [] && Sized(ps[0])
    requires |file| - i < |SavePair(ps[0])|
    ensures Load(file, i) == [] && WholeWithin(ps, |file| - i) == 0
  {
    hide SavePair, Loadable, Sized, Load;
    var s, n := SavePair(ps[0]), |file| - i;
    assert file[i..] == (s + SaveAll(ps[1..]))[..n] == s[..n];
    LoadCut(file, i, ps[0]);
  }

  /** A file that goes on behind its first pair. */
  lemma PastFirst(file: Buffer, i: nat, ps: seq<Pair>)
    requires i <= |file| && file[i..] <= SaveAll(ps) && ps != [] && Sized(ps[0])
    requires |file| - i >= |SavePair(ps[0])|
    ensures var j := i + |SavePair(ps[0])|;
            && file[j..] <= SaveAll(ps[1..])
            && Load(file, i) == (if Loadable(ps[0]) then [ps[0]] + Load(file, j) else [])
            && WholeWithin(ps, |file| - i) == 1 + WholeWithin(ps[1..], |file| - j)
  {
    hide SavePair, Loadable, Sized, Load;
    var s, t := SavePair(ps[0]), SaveAll(ps[1..]);
    assert file[i..i + |s|] == file[i..][..|s|] == s;
    LoadStep(file, i, ps[0]);
    assert file[i + |s|..] == file[i..][|s|..] <= t;
  }

  /** Loading any prefix of a saved file gives the pairs that are wholly in the prefix, as far as they are loadable. */
  lemma {:induction false} LoadPrefix(file: Buffer, i: nat, ps: seq<Pair>)
    requires i <= |file| && file[i..] <= SaveAll(ps)
    requires forall k | 0 <= k < |ps| :: Sized(ps[k])
    ensures Load(file, i) == ps[..LoadablePrefix(ps[..WholeWithin(ps, |file| - i)])]
    decreases |ps|
  {
    hide SavePair, Loadable, Sized, Load;
    var w := WholeWithin(ps, |file| - i);
    if ps == [] {
      assert Load(file, i) == [] by { LoadEmpty(file); }
    } else if |file| - i < |SavePair(ps[0])| {
      CutInFirst(file, i, ps);
    } else {
      PastFirst(file, i, ps);
      hide SaveAll, WholeWithin;
      LoadPrefix(file, i + |SavePair(ps[0])|, ps[1..]);
      assert ps[..w][1..] == ps[1..][..w - 1];
    }
  }

  lemma {:induction false} WholeOfAll(ps: seq<Pair>)
    ensures WholeWithin(ps, |SaveAll(ps)|) == |ps|
  {
    if ps != [] { WholeOfAll(ps[1..]); }
  }

  lemma {:induction false} AllLoadablePrefix(ps: seq<Pair>)
    ensures LoadablePrefix(ps) == |ps| <==> forall k | 0 <= k < |ps| :: Loadable(ps[k])
    ensures forall k | 0 <= k < LoadablePrefix(ps) :: Loadable(ps[k])
    decreases |ps|
  {
    if ps != [] {
      AllLoadablePrefix(ps[1..]);
      assert forall k | 1 <= k < |ps| :: ps[k] == ps[1..][k - 1];
    }
  }

  lemma AllWithinLimits(ps: seq<Pair>)
    requires forall k | 0 <= k < |ps| :: WithinLimits(ps[k].key, ps[k].value)
    ensures forall k | 0 <= k < |ps| :: Sized(ps[k])
    ensures forall k | 0 <= k < |ps| :: Loadable(ps[k])
  {
  }

  /** Loading a prefix of the file of loadable pairs yields exactly the pairs wholly contained in it. */
  lemma PrefixLoadsWholePairs(ps: seq<Pair>, n: nat)
    requires n <= |SaveAll(ps)| && forall k | 0 <= k < |ps| :: WithinLimits(ps[k].key, ps[k].value)
    ensures var w := WholeWithin(ps, n);
            && Load(SaveAll(ps)[..n]) == ps[..w]
            && |SaveAll(ps[..w])| <= n
            && (w < |ps| ==> n < |SaveAll(ps[..w + 1])|)
  {
    hide SaveAll, WholeWithin, Load, Loadable, Sized, WithinLimits;
    AllWithinLimits(ps);
    var file, w := SaveAll(ps)[..n], WholeWithin(ps, n);
    assert file[0..] == file;
    LoadPrefix(file, 0, ps);
    AllLoadablePrefix(ps[..w]);
    assert ps[..w][..w] == ps[..w];
    WholeWithinMeaning(ps, n);
  }

  lemma {:induction false} WholeWithinMeaning(ps: seq<Pair>, n: nat)
    ensures var w := WholeWithin(ps, n);
            |SaveAll(ps[..w])| <= n && (w < |ps| ==> n < |SaveAll(ps[..w + 1])|)
    decreases |ps|
  {
    if ps != [] {
      var w := WholeWithin(ps, n);
      if w == 0 {
        assert ps[..1][1..] == [];
      } else {
        WholeWithinMeaning(ps[1..], n - |SavePair(ps[0])|);
        assert ps[..w][1..] == ps[1..][..w - 1];
        if w < |ps| { assert ps[..w + 1][1..] == ps[1..][..w]; }
      }
    }
  }

  // ----- What a table saves -----

  function ChainPairs(chain: Chain<Buffer, Buffer>): (ps: seq<Pair>)
    ensures |ps| == |chain|
    ensures forall i | 0 <= i < |chain| :: ps[i] == Pair(chain[i].key, chain[i].value)
  {
    seq(|chain|, i requires 0 <= i < |chain| => Pair(chain[i].key, chain[i].value))
  }

  /** The pairs of the first n buckets, in the order the snapshot writes them. */
  function TablePairs(buckets: seq<Chain<Buffer, Buffer>>, n: nat): seq<Pair>
    requires n <= |buckets|
  {
    if n == 0 then [] else TablePairs(buckets, n - 1) + ChainPairs(buckets[n - 1])
  }

  lemma {:induction false} SaveAllAppend(a: seq<Pair>, b: seq<Pair>)
    ensures SaveAll(a + b) == SaveAll(a) + SaveAll(b)
  {
    if a == [] {
      assert a + b == b;
    } else {
      assert (a + b)[1..] == a[1..] + b;
      SaveAllAppend(a[1..], b);
    }
  }

  /** Each key once, with the value the map gives it. */
  ghost predicate Lists(ps: seq<Pair>, m: map<Buffer, Buffer>) {
    && (forall i, j | 0 <= i < j < |ps| :: ps[i].key != ps[j].key)
    && (forall i | 0 <= i < |ps| :: ps[i].key in m && m[ps[i].key] == ps[i].value)
    && (forall k | k in m :: exists i | 0 <= i < |ps| :: ps[i].key == k)
  }

  /** The bindings whose keys hash to the first n buckets, and to bucket n. */
  ghost function Below(m: map<Buffer, Buffer>, h: Hash<Buffer>, cap: nat, n: nat): map<Buffer, Buffer>
    requires cap > 0
  {
    map k | k in m && h(k) % cap < n :: m[k]
  }

  ghost function Here(m: map<Buffer, Buffer>, h: Hash<Buffer>, cap: nat, n: nat): map<Buffer, Buffer>
    requires cap > 0
  {
    map k | k in m && h(k) % cap == n :: m[k]
  }

  lemma BelowSteps(m: map<Buffer, Buffer>, h: Hash<Buffer>, cap: nat, n: nat)
    requires cap > 0
    ensures Below(m, h, cap, 0) == map[] && Below(m, h, cap, cap) == m
    ensures Below(m, h, cap, n + 1) == Below(m, h, cap, n) + Here(m, h, cap, n)
    ensures Below(m, h, cap, n).Keys !! Here(m, h, cap, n).Keys
  {
  }

  lemma {:induction false} TablePairsList(buckets: seq<Chain<Buffer, Buffer>>, n: nat, h: Hash<Buffer>, m: map<Buffer, Buffer>)
    requires 0 < |buckets| && n <= |buckets| && BucketsOk(buckets, h) && Represents(buckets, h, m)
    ensures Lists(TablePairs(buckets, n), Below(m, h, |buckets|, n))
    decreases n
  {
    hide BucketsOk, Represents, ChainPairs, Below, Here, Lists;
    var cap := |buckets|;
    BelowSteps(m, h, cap, 0);
    NothingListed();
    if n > 0 {
      TablePairsList(buckets, n - 1, h, m);
      BucketPairs(buckets, n - 1, h, m);
      BelowSteps(m, h, cap, n - 1);
      ListsAppend(TablePairs(buckets, n - 1), ChainPairs(buckets[n - 1]), Below(m, h, cap, n - 1), Here(m, h, cap, n - 1));
    }
  }

  lemma NothingListed()
    ensures Lists([], map[])
  {
  }

  lemma ListsAppend(ps: seq<Pair>, qs: seq<Pair>, a: map<Buffer, Buffer>, b: map<Buffer, Buffer>)
    requires Lists(ps, a) && Lists(qs, b) && a.Keys !! b.Keys
    ensures Lists(ps + qs, a + b)
  {
    var rs := ps + qs;
    forall k | k in a + b ensures exists i | 0 <= i < |rs| :: rs[i].key == k {
      if k in b {
        var i :| 0 <= i < |qs| && qs[i].key == k;
        assert rs[|ps| + i].key == k;
      } else {
        var i :| 0 <= i < |ps| && ps[i].key == k;
        assert rs[i].key == k;
      }
    }
  }

  lemma BucketPairs(buckets: seq<Chain<Buffer, Buffer>>, b: nat, h: Hash<Buffer>, m: map<Buffer, Buffer>)
    requires b < |buckets| && BucketsOk(buckets, h) && Represents(buckets, h, m)
    ensures var qs := ChainPairs(buckets[b]);
            Lists(qs, Here(m, h, |buckets|, b))
  {
    var chain, qs := buckets[b], ChainPairs(buckets[b]);
    assert BucketOk(chain, b, |buckets|, h);
    forall i | 0 <= i < |qs|
      ensures h(qs[i].key) % |buckets| == b && qs[i].key in m && m[qs[i].key] == qs[i].value
    {
      IndexUnique(chain, i);
      assert Lookup(buckets, h, qs[i].key) == MapGet(m, qs[i].key);
    }
    forall k | k in m && h(k) % |buckets| == b ensures exists i | 0 <= i < |qs| :: qs[i].key == k {
      assert Lookup(buckets, h, k) == MapGet(m, k);
      assert qs[IndexOf(chain, k)].key == k;
    }
  }

  /** Storing the pairs of a map, in any order, gives the map; storing only some does not. */
  lemma {:induction false} StoreListed(base: map<Buffer, Buffer>, ps: seq<Pair>, m: map<Buffer, Buffer>)
    requires Lists(ps, m) && base.Keys !! m.Keys
    ensures StoreAll(base, ps) == base + m
    decreases |ps|
  {
    if ps == [] {
      assert m == map[];
    } else {
      ListsTail(ps, m);
      hide Lists;
      var p, m' := ps[0], m - {ps[0].key};
      StoreListed(base[p.key := p.value], ps[1..], m');
      PutBack(base, m, p);
    }
  }

  lemma PutBack(base: map<Buffer, Buffer>, m: map<Buffer, Buffer>, p: Pair)
    requires p.key in m && m[p.key] == p.value
    ensures base[p.key := p.value] + (m - {p.key}) == base + m
  {
  }

  lemma ListsTail(ps: seq<Pair>, m: map<Buffer, Buffer>)
    requires Lists(ps, m) && ps != []
    ensures Lists(ps[1..], m - {ps[0].key}) && ps[0].key in m && m[ps[0].key] == ps[0].value
  {
    var m' := m - {ps[0].key};
    forall k | k in m' ensures exists i | 0 <= i < |ps[1..]| :: ps[1..][i].key == k {
      var i :| 0 <= i < |ps| && ps[i].key == k;
      assert ps[1..][i - 1].key == k;
    }
  }

  lemma {:induction false} StoreAllKeys(base: map<Buffer, Buffer>, ps: seq<Pair>, k: Buffer)
    requires k !in base && forall i | 0 <= i < |ps| :: ps[i].key != k
    ensures k !in StoreAll(base, ps)
    decreases |ps|
  {
    if ps != [] { StoreAllKeys(base[ps[0].key := ps[0].value], ps[1..], k); }
  }

  /** Saving a table and loading it elsewhere gives the same map, whatever the seeds, the capacities and the
      order of the buckets, exactly when every key and value has a length the loader accepts. */
  lemma SnapshotRoundTrip(buckets: seq<Chain<Buffer, Buffer>>, h: Hash<Buffer>, m: map<Buffer, Buffer>)
    requires 0 < |buckets| && BucketsOk(buckets, h) && Represents(buckets, h, m)
    requires forall k | k in m :: Sized(Pair(k, m[k]))
    ensures StoreAll(map[], Load(SaveAll(TablePairs(buckets, |buckets|)))) == m
            <==> forall k | k in m :: WithinLimits(k, m[k])
  {
    hide BucketsOk, Represents, TablePairs, Below, Here, Load, SaveAll, StoreAll, Loadable, Sized, WithinLimits;
    forall k | k in m ensures Loadable(Pair(k, m[k])) <==> WithinLimits(k, m[k]) { LimitsAreLoadable(Pair(k, m[k])); }
    var ps := TablePairs(buckets, |buckets|);
    TablePairsList(buckets, |buckets|, h, m);
    BelowSteps(m, h, |buckets|, 0);
    assert forall i | 0 <= i < |ps| :: ps[i] == Pair(ps[i].key, m[ps[i].key]);
    LoadWholeFile(ps);
    AllLoadablePrefix(ps);
    StoreSome(ps, m, LoadablePrefix(ps));
    ListedAll(ps, m);
  }

  lemma LoadWholeFile(ps: seq<Pair>)
    requires forall k | 0 <= k < |ps| :: Sized(ps[k])
    ensures Load(SaveAll(ps)) == ps[..LoadablePrefix(ps)]
  {
    var file := SaveAll(ps);
    assert file[0..] == file;
    LoadPrefix(file, 0, ps);
    WholeOfAll(ps);
    assert ps[..|ps|] == ps;
  }

  /** The first n pairs of a map give the map exactly when they are all of them. */
  lemma StoreSome(ps: seq<Pair>, m: map<Buffer, Buffer>, n: nat)
    requires Lists(ps, m) && n <= |ps|
    ensures StoreAll(map[], ps[..n]) == m <==> n == |ps|
  {
    if n == |ps| {
      assert ps[..n] == ps;
      StoreListed(map[], ps, m);
      assert map[] + m == m;
    } else {
      StoreAllKeys(map[], ps[..n], ps[n].key);
      assert ps[n].key in m;
    }
  }

  lemma ListedAll(ps: seq<Pair>, m: map<Buffer, Buffer>)
    requires Lists(ps, m)
    ensures (forall i | 0 <= i < |ps| :: Loadable(ps[i])) <==> forall k | k in m :: Loadable(Pair(k, m[k]))
  {
    forall k | k in m ensures exists i | 0 <= i < |ps| :: ps[i] == Pair(k, m[k]) {
      var i :| 0 <= i < |ps| && ps[i].key == k;
    }
  }

  // ----- The loops -----

  /** ht_get into a buffer: at most destSize octets of the value. */
  method GetInto(table: ByteTable, key: Buffer, dest: array<byte>, destSize: nat) returns (found: bool)
    requires table.Valid() && destSize <= dest.Length
    modifies dest
    ensures found == (key in table.contents)
    ensures found ==> var v := table.contents[key];
                      var n := if |v| < destSize then |v| else destSize;
                      dest[..n] == v[..n] && forall k | n <= k < dest.Length :: dest[k] == old(dest[k])
    ensures !found ==> unchanged(dest)
  {
    var r := table.Get(key);
    if r == None { return false; }
    var n := if |r.value| < destSize then |r.value| else destSize;
    forall i | 0 <= i < n { dest[i] := r.value[i]; }
    found := true;
  }

  /** The bucket is walked from its head. */
  method SaveChain(head: Node?<Buffer, Buffer>, ghost nodes: seq<Node<Buffer, Buffer>>,
                   ghost chain: Chain<Buffer, Buffer>) returns (file: Buffer)
    requires Hangs(head, nodes, chain)
    ensures file == SaveAll(ChainPairs(chain))
  {
    hide ToBytes, SaveAll, ChainPairs;
    file := [];
    SaveNone(chain);
    var e := head;
    ghost var j := 0;
    while e != null
      invariant j <= |chain| && e == NodeAt(nodes, j) && file == SaveAll(ChainPairs(chain[..j]))
      decreases |chain| - j
    {
      assert NodeOk(nodes, chain, j);
      file := file + SaveSize(|e.key|) + e.key + SaveSize(|e.value|) + e.value;
      SaveOneMore(chain, j);
      e, j := e.next, j + 1;
    }
    assert chain[..|chain|] == chain;
  }

  lemma SaveNone(chain: Chain<Buffer, Buffer>)
    ensures SaveAll(ChainPairs(chain[..0])) == []
  {
  }

  /** Every bucket, every entry of its chain. */
  method Save(table: ByteTable) returns (file: Buffer)
    requires table.Valid()
    ensures file == SaveAll(TablePairs(table.buckets, |table.buckets|))
  {
    hide *;
    table.Parts();
    table.EntriesAlive();
    SaveNothing(table.buckets);
    file := [];
    for i := 0 to table.pool.Length
      invariant file == SaveAll(TablePairs(table.buckets, i))
    {
      table.Parts();
      Split(Row(table.pool[..], table.nodes, table.buckets), i);
      var chain := SaveChain(table.pool[i], table.nodes[i], table.buckets[i]);
      file := file + chain;
      SaveBucket(table.buckets, i);
    }
  }

  lemma SaveNothing(buckets: seq<Chain<Buffer, Buffer>>)
    ensures SaveAll(TablePairs(buckets, 0)) == []
  {
  }

  lemma SaveBucket(buckets: seq<Chain<Buffer, Buffer>>, i: nat)
    requires i < |buckets|
    ensures SaveAll(TablePairs(buckets, i + 1)) == SaveAll(TablePairs(buckets, i)) + SaveAll(ChainPairs(buckets[i]))
  {
    SaveAllAppend(TablePairs(buckets, i), ChainPairs(buckets[i]));
  }

  lemma SaveOneMore(chain: Chain<Buffer, Buffer>, j: nat)
    requires j < |chain|
    ensures SaveAll(ChainPairs(chain[..j + 1])) ==
            SaveAll(ChainPairs(chain[..j])) + SavePair(Pair(chain[j].key, chain[j].value))
  {
    hide SavePair;
    var p := Pair(chain[j].key, chain[j].value);
    assert ChainPairs(chain[..j + 1]) == ChainPairs(chain[..j]) + [p];
    SaveAllAppend(ChainPairs(chain[..j]), [p]);
    assert SaveAll([p]) == SavePair(p) + SaveAll([]);
  }

  lemma StoreOneMore(m: map<Buffer, Buffer>, p: Pair, ps: seq<Pair>)
    ensures StoreAll(m, [p] + ps) == StoreAll(m[p.key := p.value], ps)
    ensures StoreAll(m, []) == m
  {
    assert ([p] + ps)[1..] == ps;
  }

  lemma LoadOneMore(file: Buffer, i: nat, key: Buffer, value: Buffer)
    requires i <= |file| && ReadField(file, i, KeyLenOk) == Some(key)
    requires ReadField(file, i + SIZE_T + |key|, ValueLenOk) == Some(value)
    ensures Load(file, i) == [Pair(key, value)] + Load(file, i + SIZE_T + |key| + SIZE_T + |value|)
  {
    hide ReadField;
  }

  lemma LoadNoMore(file: Buffer, i: nat)
    requires i <= |file|
    requires var key := ReadField(file, i, KeyLenOk);
             key == None || ReadField(file, i + SIZE_T + |key.value|, ValueLenOk) == None
    ensures Load(file, i) == []
  {
    hide ReadField;
  }

  /** Read the next pair, if the file holds one the loader accepts. */
  method ReadPair(file: Buffer, i: nat) returns (p: Option<Pair>, next: nat)
    requires i <= |file|
    ensures match p
            case None => Load(file, i) == []
            case Some(q) => i < next <= |file| && Load(file, i) == [q] + Load(file, next)
  {
    hide Load;
    next := i;
    var key := ReadField(file, i, KeyLenOk);
    if key == None { LoadNoMore(file, i); return None, i; }
    var j := i + SIZE_T + |key.value|;
    var value := ReadField(file, j, ValueLenOk);
    if value == None { LoadNoMore(file, i); return None, i; }
    LoadOneMore(file, i, key.value, value.value);
    p, next := Some(Pair(key.value, value.value)), j + SIZE_T + |value.value|;
  }

  method LoadFile(table: ByteTable, file: Buffer) returns (ok: bool)
    requires table.Valid()
    modifies table, table.pool, table.Entries()
    ensures table.Valid() && ok == (old(table.size) == 0)
    ensures ok ==> table.contents == StoreAll(map[], Load(file))
    ensures !ok ==> table.contents == old(table.contents)
  {
    hide Load, StoreAll, BucketsOk, Represents;
    if table.size > 0 { return false; }
    assert table.contents == map[];
    var i := 0;
    while true
      invariant i <= |file| && table.Valid()
      invariant (table.pool == old(table.pool) || fresh(table.pool)) && fresh(table.Entries() - old(table.Entries()))
      invariant StoreAll(map[], Load(file)) == StoreAll(table.contents, Load(file, i))
      decreases |file| - i
    {
      var p, next := ReadPair(file, i);
      if p == None { break; }
      StoreOneMore(table.contents, p.value, Load(file, next));
      table.Set(p.value.key, p.value.value);
      i := next;
    }
    StoreOneMore(table.contents, Pair([], []), []);
    ok := true;
  }

  /** The trip through a file, on the tables themselves. */
  method SaveThenLoad(from: ByteTable, to: ByteTable)
    requires from.Valid() && to.Valid() && to.size == 0 && from != to
    requires forall k | k in from.contents :: Sized(Pair(k, from.contents[k]))
    modifies to, to.pool, to.Entries()
    ensures to.Valid()
    ensures to.contents == from.contents <==> forall k | k in from.contents :: WithinLimits(k, from.contents[k])
  {
    hide WithinLimits, Sized, Load, SaveAll, StoreAll, TablePairs, BucketsOk, Represents, Table.Valid;
    from.Parts();
    SnapshotRoundTrip(from.buckets, from.hash, from.contents);
    to.EntriesAlive();
    var file := Save(from);
    var ok := LoadFile(to, file);
  }

  // ----- Any sequence of operations -----

  datatype Op = Get(key: Buffer) | Set(key: Buffer, value: Buffer) | Delete(key: Buffer)

  function After(m: map<Buffer, Buffer>, ops: seq<Op>): map<Buffer, Buffer>
    decreases |ops|
  {
    if ops == [] then m
    else
      match ops[0]
      case Get(_) => After(m, ops[1..])
      case Set(k, v) => After(m[k := v], ops[1..])
      case Delete(k) => After(m - {k}, ops[1..])
  }

  /** The answers of the Gets, in order. */
  function Answers(m: map<Buffer, Buffer>, ops: seq<Op>): seq<Option<Buffer>>
    decreases |ops|
  {
    if ops == [] then []
    else
      match ops[0]
      case Get(k) => [MapGet(m, k)] + Answers(m, ops[1..])
      case Set(k, v) => Answers(m[k := v], ops[1..])
      case Delete(k) => Answers(m - {k}, ops[1..])
  }

  lemma OneMore(m: map<Buffer, Buffer>, ops: seq<Op>)
    requires ops != []
    ensures After(m, ops) == After(After(m, ops[..1]), ops[1..])
    ensures Answers(m, ops) == Answers(m, ops[..1]) + Answers(After(m, ops[..1]), ops[1..])
  {
    assert ops[..1][1..] == [];
  }

  method Perform(table: ByteTable, op: Op) returns (answer: seq<Option<Buffer>>)
    requires table.Valid()
    modifies table, table.pool, table.Entries()
    ensures table.Valid()
    ensures (table.pool == old(table.pool) || fresh(table.pool)) && fresh(table.Entries() - old(table.Entries()))
    ensures table.contents == After(old(table.contents), [op])
    ensures answer == Answers(old(table.contents), [op])
  {
    hide Table.Valid;
    assert [op][1..] == [];
    answer := [];
    match op {
      case Get(k) =>
        var r := table.Get(k);
        answer := [r];
      case Set(k, v) => table.Set(k, v);
      case Delete(k) => var _ := table.Delete(k);
    }
  }

  /** Every run of operations answers and ends as it would on a map. */
  method Replay(table: ByteTable, ops: seq<Op>) returns (answers: seq<Option<Buffer>>)
    requires table.Valid()
    modifies table, table.pool, table.Entries()
    ensures table.Valid()
    ensures table.contents == After(old(table.contents), ops)
    ensures answers == Answers(old(table.contents), ops)
  {
    hide Table.Valid;
    answers := [];
    assert ops[0..] == ops;
    for i := 0 to |ops|
      invariant table.Valid()
      invariant (table.pool == old(table.pool) || fresh(table.pool)) && fresh(table.Entries() - old(table.Entries()))
      invariant After(old(table.contents), ops) == After(table.contents, ops[i..])
      invariant Answers(old(table.contents), ops) == answers + Answers(table.contents, ops[i..])
    {
      OneMore(table.contents, ops[i..]);
      assert ops[i..][..1] == [ops[i]] && ops[i..][1..] == ops[i + 1..];
      var answer := Perform(table, ops[i]);
      answers := answers + answer;
    }
  }
}
