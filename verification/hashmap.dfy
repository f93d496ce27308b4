/**
 * The chained hash map: a vector of buckets, each a vector of key/value
 * pairs, and an entry count. A key lives in bucket `FNV-1a(key) % buckets`;
 * the bytes a key feeds the hasher are a parameter of the map (`keyBytes`).
 */
module HashMaps {
  import opened Wrappers
  import Fnv
  import Bytes

  type Bucket<K, V> = seq<(K, V)>

  datatype HashMap<!K(==), V> = HashMap(buckets: seq<Bucket<K, V>>, entryCnt: nat, keyBytes: K -> seq<Bytes.byte>)

  // ---------------------------------------------------------------------------
  // Buckets

  /** The bucket `key` hashes to among `n` buckets: the FNV-1a hash modulo `n`. */
  function Slot<K>(keyBytes: K -> seq<Bytes.byte>, key: K, n: nat): (i: nat)
    requires 0 < n
    ensures i < n
  {
    (Fnv.Fnv1a(keyBytes(key)) as int) % n
  }

  function Home<K(==), V>(m: HashMap<K, V>, key: K): (i: nat)
    requires 0 < |m.buckets|
    ensures i < |m.buckets|
  {
    Slot(m.keyBytes, key, |m.buckets|)
  }

  /** `bucket`: no bucket before the first resize, else the key's slot. */
  function BucketOf<K(==), V>(m: HashMap<K, V>, key: K): (r: Option<nat>)
    ensures r.None? <==> |m.buckets| == 0
    ensures r.Some? ==> r.value == Home(m, key)
  {
    if |m.buckets| == 0 then None else Some(Home(m, key))
  }

  /** No key occurs twice in the bucket. */
  ghost predicate DistinctKeys<K, V>(b: Bucket<K, V>) {
    forall j1, j2 :: 0 <= j1 < |b| && 0 <= j2 < |b| && b[j1].0 == b[j2].0 ==> j1 == j2
  }

  /** Some pair of the bucket has key `key`. */
  ghost predicate KeyIn<K, V>(b: Bucket<K, V>, key: K) {
    exists j :: 0 <= j < |b| && b[j].0 == key
  }

  /** Bucket `i` holds only keys whose slot is `i`, each once. */
  ghost predicate GoodBucket<K, V>(keyBytes: K -> seq<Bytes.byte>, bs: seq<Bucket<K, V>>, i: nat)
    requires i < |bs|
  {
    DistinctKeys(bs[i]) && forall p :: p in bs[i] ==> Slot(keyBytes, p.0, |bs|) == i
  }

  /** The number of pairs in all buckets. */
  function TotalLen<K, V>(bs: seq<Bucket<K, V>>): nat {
    if bs == [] then 0 else |bs[0]| + TotalLen(bs[1..])
  }

  /** The pairs of all buckets, bucket by bucket: the order `iter` yields them in. */
  function Flatten<K, V>(bs: seq<Bucket<K, V>>): (ps: seq<(K, V)>)
    ensures |ps| == TotalLen(bs)
  {
    if bs == [] then [] else bs[0] + Flatten(bs[1..])
  }

  /** Every key is in its own slot's bucket, once, and the count is the number of pairs. */
  ghost predicate Valid<K, V>(m: HashMap<K, V>) {
    (forall i :: 0 <= i < |m.buckets| ==> GoodBucket(m.keyBytes, m.buckets, i))
    && m.entryCnt == TotalLen(m.buckets)
  }

  /** Some bucket holds `p`. */
  ghost predicate InSome<K, V>(bs: seq<Bucket<K, V>>, p: (K, V)) {
    exists i :: 0 <= i < |bs| && p in bs[i]
  }

  /** The map holds `key` with value `value`, in whichever bucket. */
  ghost predicate Stored<K, V>(m: HashMap<K, V>, key: K, value: V) {
    InSome(m.buckets, (key, value))
  }

  /** The map has a value for `key`. */
  ghost predicate HasKey<K, V>(m: HashMap<K, V>, key: K) {
    exists i :: 0 <= i < |m.buckets| && KeyIn(m.buckets[i], key)
  }

  /** A stored pair is in its key's home bucket. */
  lemma StoredAtHome<K, V>(m: HashMap<K, V>, key: K, value: V)
    requires Valid(m)
    ensures Stored(m, key, value) <==> 0 < |m.buckets| && (key, value) in m.buckets[Home(m, key)]
  {
    if Stored(m, key, value) {
      var i :| 0 <= i < |m.buckets| && (key, value) in m.buckets[i];
      assert GoodBucket(m.keyBytes, m.buckets, i);
    }
  }

  // ---------------------------------------------------------------------------
  // Operations within one bucket

  /** `position`: the first index of a pair with key `key`. */
  function Position<K(==), V>(b: Bucket<K, V>, key: K): (r: Option<nat>)
    ensures r.Some? ==> r.value < |b| && b[r.value].0 == key
                        && forall j :: 0 <= j < r.value ==> b[j].0 != key
    ensures r.None? ==> forall j :: 0 <= j < |b| ==> b[j].0 != key
  {
    if b == [] then None
    else if b[0].0 == key then Some(0)
    else
      match Position(b[1..], key)
      case None => None
      case Some(j) => Some(j + 1)
  }

  /** `Vec::swap_remove`: the last pair takes the place of the removed one. */
  function SwapRemove<K, V>(b: Bucket<K, V>, j: nat): (b': Bucket<K, V>)
    requires j < |b|
    ensures |b'| == |b| - 1
  {
    b[j := b[|b| - 1]][..|b| - 1]
  }

  lemma SwapRemoveContents<K, V>(b: Bucket<K, V>, j: nat)
    requires j < |b| && DistinctKeys(b)
    ensures DistinctKeys(SwapRemove(b, j))
    ensures forall p :: p in SwapRemove(b, j) <==> p in b && p.0 != b[j].0
  {
    var b' := SwapRemove(b, j);
    var n := |b| - 1;
    forall p
      ensures p in b' <==> p in b && p.0 != b[j].0
    {
      if p in b' {
        var t :| 0 <= t < n && b'[t] == p;
        var s := if t == j then n else t;
        assert b[s] == p && s != j;
      }
      if p in b && p.0 != b[j].0 {
        var s :| 0 <= s < |b| && b[s] == p;
        var t := if s == n then j else s;
        assert b'[t] == p;
      }
    }
    forall t1, t2 | 0 <= t1 < n && 0 <= t2 < n && b'[t1].0 == b'[t2].0
      ensures t1 == t2
    {
      var s1 := if t1 == j then n else t1;
      var s2 := if t2 == j then n else t2;
      assert b[s1] == b'[t1] && b[s2] == b'[t2];
    }
  }

  lemma ReplaceValueContents<K, V>(b: Bucket<K, V>, j: nat, value: V)
    requires j < |b| && DistinctKeys(b)
    ensures DistinctKeys(b[j := (b[j].0, value)])
    ensures forall p :: p in b[j := (b[j].0, value)] <==> (p.0 == b[j].0 && p.1 == value) || (p in b && p.0 != b[j].0)
  {
    var b' := b[j := (b[j].0, value)];
    forall p
      ensures p in b' <==> (p.0 == b[j].0 && p.1 == value) || (p in b && p.0 != b[j].0)
    {
      if p in b && p.0 != b[j].0 {
        var s :| 0 <= s < |b| && b[s] == p;
        assert b'[s] == p;
      }
      if p in b' {
        var s :| 0 <= s < |b'| && b'[s] == p;
        if s != j {
          assert b[s] == p && b[s].0 != b[j].0;
        }
      }
      if p.0 == b[j].0 && p.1 == value {
        assert b'[j] == p;
      }
    }
  }

  lemma PushContents<K, V>(b: Bucket<K, V>, p: (K, V))
    requires DistinctKeys(b) && !KeyIn(b, p.0)
    ensures DistinctKeys(b + [p])
  {
  }

  // ---------------------------------------------------------------------------
  // Changing one bucket

  /** Replace bucket `i` by `b`, a bucket that keeps the slot discipline, adjusting the count. */
  function WithBucket<K(==), V>(m: HashMap<K, V>, i: nat, b: Bucket<K, V>): (m': HashMap<K, V>)
    requires Valid(m) && i < |m.buckets|
    requires DistinctKeys(b) && forall p :: p in b ==> Home(m, p.0) == i
    ensures Valid(m') && |m'.buckets| == |m.buckets| && m'.keyBytes == m.keyBytes
  {
    TotalLenUpdate(m.buckets, i, b);
    BucketSwapValid(m, i, b);
    HashMap(m.buckets[i := b], m.entryCnt - |m.buckets[i]| + |b|, m.keyBytes)
  }

  lemma BucketSwapValid<K, V>(m: HashMap<K, V>, i: nat, b: Bucket<K, V>)
    requires Valid(m) && i < |m.buckets|
    requires DistinctKeys(b) && forall p :: p in b ==> Home(m, p.0) == i
    requires |m.buckets[i]| <= m.entryCnt
    ensures Valid(HashMap(m.buckets[i := b], m.entryCnt - |m.buckets[i]| + |b|, m.keyBytes))
  {
    var m' := HashMap(m.buckets[i := b], m.entryCnt - |m.buckets[i]| + |b|, m.keyBytes);
    forall t | 0 <= t < |m'.buckets|
      ensures GoodBucket(m'.keyBytes, m'.buckets, t)
    {
      assert GoodBucket(m.keyBytes, m.buckets, t);
    }
    TotalLenUpdate(m.buckets, i, b);
  }

  lemma {:induction false} TotalLenUpdate<K, V>(bs: seq<Bucket<K, V>>, i: nat, b: Bucket<K, V>)
    requires i < |bs|
    ensures TotalLen(bs[i := b]) + |bs[i]| == TotalLen(bs) + |b|
    ensures |bs[i]| <= TotalLen(bs)
  {
    if i == 0 {
      assert bs[i := b][1..] == bs[1..];
    } else {
      assert bs[i := b][1..] == bs[1..][i - 1 := b];
      TotalLenUpdate(bs[1..], i - 1, b);
    }
  }

  /**
   * A bucket that keeps the slot discipline can replace bucket `i`: the map
   * stays valid, keys homed elsewhere keep their values, and keys homed at
   * `i` have exactly the pairs of the new bucket.
   */
  lemma WithBucketStored<K, V>(m: HashMap<K, V>, i: nat, b: Bucket<K, V>)
    requires Valid(m) && i < |m.buckets|
    requires DistinctKeys(b) && forall p :: p in b ==> Home(m, p.0) == i
    ensures Valid(WithBucket(m, i, b))
    ensures forall k, v :: Stored(WithBucket(m, i, b), k, v)
                           <==> if Home(m, k) == i then (k, v) in b else Stored(m, k, v)
  {
    var m' := WithBucket(m, i, b);
    forall k, v
      ensures Stored(m', k, v) <==> if Home(m, k) == i then (k, v) in b else Stored(m, k, v)
    {
      StoredAtHome(m, k, v);
      StoredAtHome(m', k, v);
    }
  }

  // ---------------------------------------------------------------------------
  // Lookups

  /** `get`: search the key's bucket. */
  function Get<K(==), V>(m: HashMap<K, V>, key: K): Option<V> {
    match BucketOf(m, key)
    case None => None
    case Some(i) =>
      match Position(m.buckets[i], key)
      case None => None
      case Some(j) => Some(m.buckets[i][j].1)
  }

  /** `get` finds exactly the stored value, and nothing for a key the map lacks. */
  lemma GetStored<K, V>(m: HashMap<K, V>, key: K)
    requires Valid(m)
    ensures forall v :: Get(m, key) == Some(v) <==> Stored(m, key, v)
    ensures Get(m, key).None? <==> !HasKey(m, key)
  {
    forall v
      ensures Get(m, key) == Some(v) <==> Stored(m, key, v)
    {
      StoredAtHome(m, key, v);
      if Stored(m, key, v) {
        var b := m.buckets[Home(m, key)];
        var s :| 0 <= s < |b| && b[s] == (key, v);
        assert GoodBucket(m.keyBytes, m.buckets, Home(m, key));
      }
    }
    if HasKey(m, key) {
      var i :| 0 <= i < |m.buckets| && KeyIn(m.buckets[i], key);
      var j :| 0 <= j < |m.buckets[i]| && m.buckets[i][j].0 == key;
      assert m.buckets[i][j] == (key, m.buckets[i][j].1);
      assert Stored(m, key, m.buckets[i][j].1);
    }
    if Get(m, key).Some? {
      var i := Home(m, key);
      var j := Position(m.buckets[i], key).value;
      assert KeyIn(m.buckets[i], key);
    }
  }

  /** `contains_key`. */
  function ContainsKey<K(==), V>(m: HashMap<K, V>, key: K): bool {
    Get(m, key).Some?
  }

  /** `contains_key` holds exactly for the keys the map stores. */
  lemma ContainsKeyHas<K, V>(m: HashMap<K, V>, key: K)
    requires Valid(m)
    ensures ContainsKey(m, key) <==> HasKey(m, key)
  {
    GetStored(m, key);
  }

  function Len<K(==), V>(m: HashMap<K, V>): nat {
    m.entryCnt
  }

  function IsEmpty<K(==), V>(m: HashMap<K, V>): bool {
    m.entryCnt == 0
  }

  /** `new`: no buckets and no entries. */
  function New<K(==), V>(keyBytes: K -> seq<Bytes.byte>): (m: HashMap<K, V>)
    ensures Valid(m) && IsEmpty(m) && |m.buckets| == 0
  {
    HashMap([], 0, keyBytes)
  }

  /** A valid map is empty exactly when it stores nothing. */
  lemma EmptyStoresNothing<K, V>(m: HashMap<K, V>)
    requires Valid(m)
    ensures IsEmpty(m) <==> forall k, v :: !Stored(m, k, v)
  {
    if !IsEmpty(m) {
      var p := FlattenNonEmpty(m.buckets);
      FlattenMembers(m.buckets, p);
      var i :| 0 <= i < |m.buckets| && p in m.buckets[i];
      assert Stored(m, p.0, p.1);
    } else {
      forall k, v
        ensures !Stored(m, k, v)
      {
        if Stored(m, k, v) {
          var i :| 0 <= i < |m.buckets| && (k, v) in m.buckets[i];
          FlattenMembers(m.buckets, (k, v));
        }
      }
    }
  }

  // ---------------------------------------------------------------------------
  // Iteration

  lemma {:induction false} FlattenMembers<K, V>(bs: seq<Bucket<K, V>>, p: (K, V))
    ensures p in Flatten(bs) <==> InSome(bs, p)
  {
    if bs != [] {
      FlattenMembers(bs[1..], p);
      if p in Flatten(bs[1..]) {
        var i :| 0 <= i < |bs[1..]| && p in bs[1..][i];
        assert p in bs[i + 1];
      }
      if InSome(bs, p) {
        var i :| 0 <= i < |bs| && p in bs[i];
        if i > 0 {
          assert p in bs[1..][i - 1];
        }
      }
    }
  }

  lemma FlattenNonEmpty<K, V>(bs: seq<Bucket<K, V>>) returns (p: (K, V))
    requires TotalLen(bs) > 0
    ensures p in Flatten(bs)
  {
    p := Flatten(bs)[0];
  }

  /** Pairs in buckets tagged `off`, `off + 1`, ... by `tag`, each bucket with distinct keys, flatten to distinct keys. */
  lemma {:induction false} FlattenDistinct<K, V>(bs: seq<Bucket<K, V>>, tag: K -> nat, off: nat)
    requires forall i :: 0 <= i < |bs| ==> DistinctKeys(bs[i])
    requires forall i, p :: 0 <= i < |bs| && p in bs[i] ==> tag(p.0) == off + i
    ensures DistinctKeys(Flatten(bs))
    ensures forall p :: p in Flatten(bs) ==> off <= tag(p.0) < off + |bs|
  {
    if bs != [] {
      var rest := Flatten(bs[1..]);
      FlattenDistinct(bs[1..], tag, off + 1);
      assert DistinctKeys(bs[0]);
      var all := bs[0] + rest;
      forall j1, j2 | 0 <= j1 < |all| && 0 <= j2 < |all| && all[j1].0 == all[j2].0
        ensures j1 == j2
      {
        if j1 >= |bs[0]| && j2 >= |bs[0]| {
          assert rest[j1 - |bs[0]|].0 == rest[j2 - |bs[0]|].0;
        }
      }
      forall p | p in all
        ensures off <= tag(p.0) < off + |bs|
      {
        if p in bs[0] {
        } else {
          assert p in rest;
        }
      }
    }
  }

  /** `iter`: the pairs bucket by bucket, each in bucket order. */
  function Iter<K(==), V>(m: HashMap<K, V>): seq<(K, V)> {
    Flatten(m.buckets)
  }

  /**
   * Iteration yields every stored pair exactly once: as many pairs as
   * `len`, no key twice, and exactly the stored pairs.
   */
  lemma IterYieldsEachOnce<K, V>(m: HashMap<K, V>)
    requires Valid(m)
    ensures |Iter(m)| == Len(m)
    ensures DistinctKeys(Iter(m))
    ensures forall k, v :: (k, v) in Iter(m) <==> Stored(m, k, v)
  {
    if 0 < |m.buckets| {
      var tag := (k: K) => Home(m, k);
      forall i, p | 0 <= i < |m.buckets| && p in m.buckets[i]
        ensures tag(p.0) == 0 + i
      {
        assert GoodBucket(m.keyBytes, m.buckets, i);
      }
      forall i | 0 <= i < |m.buckets|
        ensures DistinctKeys(m.buckets[i])
      {
        assert GoodBucket(m.keyBytes, m.buckets, i);
      }
      FlattenDistinct(m.buckets, tag, 0);
    }
    forall k, v
      ensures (k, v) in Iter(m) <==> Stored(m, k, v)
    {
      FlattenMembers(m.buckets, (k, v));
    }
  }

  // ---------------------------------------------------------------------------
  // Resizing

  /** Push every pair of `ps` onto its slot's bucket, in order. */
  function Place<K(==), V>(keyBytes: K -> seq<Bytes.byte>, bs: seq<Bucket<K, V>>, ps: seq<(K, V)>): (r: seq<Bucket<K, V>>)
    requires 0 < |bs|
    ensures |r| == |bs|
    decreases |ps|
  {
    if ps == [] then bs
    else
      var i := Slot(keyBytes, ps[0].0, |bs|);
      Place(keyBytes, bs[i := bs[i] + [ps[0]]], ps[1..])
  }

  /** Every bucket keeps the slot discipline. */
  ghost predicate AllGood<K, V>(keyBytes: K -> seq<Bytes.byte>, bs: seq<Bucket<K, V>>) {
    forall i :: 0 <= i < |bs| ==> GoodBucket(keyBytes, bs, i)
  }

  /** Placing pairs with fresh, distinct keys keeps the slot discipline and adds their number to the total. */
  lemma {:induction false} PlaceGood<K, V>(keyBytes: K -> seq<Bytes.byte>, bs: seq<Bucket<K, V>>, ps: seq<(K, V)>)
    requires 0 < |bs| && AllGood(keyBytes, bs) && DistinctKeys(ps)
    requires forall p, i :: p in ps && 0 <= i < |bs| ==> !KeyIn(bs[i], p.0)
    ensures AllGood(keyBytes, Place(keyBytes, bs, ps))
    ensures TotalLen(Place(keyBytes, bs, ps)) == TotalLen(bs) + |ps|
    decreases |ps|
  {
    if ps != [] {
      var p0 := ps[0];
      var i := Slot(keyBytes, p0.0, |bs|);
      var bs' := bs[i := bs[i] + [p0]];
      assert p0 in ps;
      assert !KeyIn(bs[i], p0.0);
      assert AllGood(keyBytes, bs') by {
        forall t | 0 <= t < |bs'|
          ensures GoodBucket(keyBytes, bs', t)
        {
          assert GoodBucket(keyBytes, bs, t);
          if t == i {
            PushContents(bs[i], p0);
          }
        }
      }
      TotalLenUpdate(bs, i, bs[i] + [p0]);
      forall p, t | p in ps[1..] && 0 <= t < |bs'|
        ensures !KeyIn(bs'[t], p.0)
      {
        assert p in ps;
        if t == i {
          var a :| 0 <= a < |ps| - 1 && ps[1..][a] == p;
          assert ps[a + 1] == p;
        }
      }
      PlaceGood(keyBytes, bs', ps[1..]);
    }
  }

  /** After placing, a pair is in some bucket exactly when it was placed or was there before. */
  lemma {:induction false} PlaceMembers<K, V>(keyBytes: K -> seq<Bytes.byte>, bs: seq<Bucket<K, V>>, ps: seq<(K, V)>, p: (K, V))
    requires 0 < |bs|
    ensures InSome(Place(keyBytes, bs, ps), p) <==> p in ps || InSome(bs, p)
    decreases |ps|
  {
    if ps != [] {
      var p0 := ps[0];
      var i := Slot(keyBytes, p0.0, |bs|);
      var bs' := bs[i := bs[i] + [p0]];
      PlaceMembers(keyBytes, bs', ps[1..], p);
      if p == p0 {
        assert p in bs'[i];
      }
      if InSome(bs, p) {
        var t :| 0 <= t < |bs| && p in bs[t];
        assert p in bs'[t];
      }
      if InSome(bs', p) && p != p0 {
        var t :| 0 <= t < |bs'| && p in bs'[t];
        assert p in bs[t];
      }
      assert ps == [p0] + ps[1..];
    }
  }

  /** The pairs moved into `size` fresh buckets. */
  function Rehash<K(==), V>(m: HashMap<K, V>, size: nat): HashMap<K, V>
    requires 0 < size
  {
    HashMap(Place(m.keyBytes, EmptyBuckets(size), Flatten(m.buckets)), m.entryCnt, m.keyBytes)
  }

  /** Rehashing keeps the map valid and keeps every stored pair. */
  lemma RehashKeeps<K, V>(m: HashMap<K, V>, size: nat)
    requires Valid(m) && 0 < size
    ensures Valid(Rehash(m, size)) && |Rehash(m, size).buckets| == size
    ensures forall k, v :: Stored(Rehash(m, size), k, v) <==> Stored(m, k, v)
  {
    var empty: seq<Bucket<K, V>> := EmptyBuckets(size);
    IterYieldsEachOnce(m);
    EmptyBucketsLen<K, V>(size);
    PlaceGood(m.keyBytes, empty, Flatten(m.buckets));
    var m' := Rehash(m, size);
    forall k, v
      ensures Stored(m', k, v) <==> Stored(m, k, v)
    {
      PlaceMembers(m.keyBytes, empty, Flatten(m.buckets), (k, v));
      FlattenMembers(m.buckets, (k, v));
    }
  }

  /** `size` empty buckets. */
  function EmptyBuckets<K, V>(size: nat): (bs: seq<Bucket<K, V>>)
    ensures |bs| == size
  {
    seq(size, _ => [])
  }

  lemma {:induction false} EmptyBucketsLen<K, V>(size: nat)
    ensures TotalLen(EmptyBuckets<K, V>(size)) == 0
  {
    if size > 0 {
      assert EmptyBuckets<K, V>(size)[1..] == EmptyBuckets<K, V>(size - 1);
      EmptyBucketsLen<K, V>(size - 1);
    }
  }

  /**
   * `resize_if_needed` as written: it returns at once for any non-empty
   * map, so it only ever resizes an empty one (to one bucket, or double).
   */
  function ResizeIfNeeded<K(==), V>(m: HashMap<K, V>): HashMap<K, V>
    requires Valid(m)
  {
    if !IsEmpty(m) || m.entryCnt < 3 * |m.buckets| / 4 then m
    else Rehash(m, if |m.buckets| == 0 then 1 else 2 * |m.buckets|)
  }

  /** Resizing keeps the contents, and afterwards there is a bucket. */
  lemma ResizeKeeps<K, V>(m: HashMap<K, V>)
    requires Valid(m)
    ensures Valid(ResizeIfNeeded(m)) && 0 < |ResizeIfNeeded(m).buckets|
    ensures ResizeIfNeeded(m).keyBytes == m.keyBytes
    ensures forall k, v :: Stored(ResizeIfNeeded(m), k, v) <==> Stored(m, k, v)
  {
    if !(!IsEmpty(m) || m.entryCnt < 3 * |m.buckets| / 4) {
      RehashKeeps(m, if |m.buckets| == 0 then 1 else 2 * |m.buckets|);
    }
  }

  // ---------------------------------------------------------------------------
  // Updates

  /**
   * `insert` after a given resize policy: replace the value of an existing
   * key and return the old one, or push a new pair and bump the count.
   */
  function InsertAfter<K(==), V>(m1: HashMap<K, V>, key: K, value: V): (res: (HashMap<K, V>, Option<V>))
    requires Valid(m1) && 0 < |m1.buckets|
    ensures Valid(res.0) && |res.0.buckets| == |m1.buckets|
  {
    var i := Home(m1, key);
    var b := m1.buckets[i];
    assert GoodBucket(m1.keyBytes, m1.buckets, i);
    match Position(b, key)
    case Some(j) =>
      ReplaceValueContents(b, j, value);
      (WithBucket(m1, i, b[j := (b[j].0, value)]), Some(b[j].1))
    case None =>
      PushContents(b, (key, value));
      (WithBucket(m1, i, b + [(key, value)]), None)
  }

  /** `insert`. */
  function Insert<K(==), V>(m: HashMap<K, V>, key: K, value: V): (res: (HashMap<K, V>, Option<V>))
    requires Valid(m)
    ensures Valid(res.0)
  {
    ResizeKeeps(m);
    InsertAfter(ResizeIfNeeded(m), key, value)
  }

  /**
   * Inserting into a valid map with a bucket stores `key -> value`, keeps
   * every other pair, returns the old value if there was one, and counts
   * one more entry exactly when the key is new.
   */
  lemma InsertAfterSpec<K, V>(m1: HashMap<K, V>, key: K, value: V)
    requires Valid(m1) && 0 < |m1.buckets|
    ensures var (m', prev) := InsertAfter(m1, key, value);
            Valid(m') && m'.keyBytes == m1.keyBytes && |m'.buckets| == |m1.buckets|
            && (forall k, v :: Stored(m', k, v) <==> if k == key then v == value else Stored(m1, k, v))
            && prev == Get(m1, key)
            && Len(m') == (if prev.None? then Len(m1) + 1 else Len(m1))
  {
    var i := Home(m1, key);
    var b := m1.buckets[i];
    assert GoodBucket(m1.keyBytes, m1.buckets, i);
    GetStored(m1, key);
    match Position(b, key)
    case Some(j) =>
      var b' := b[j := (b[j].0, value)];
      ReplaceValueContents(b, j, value);
      WithBucketStored(m1, i, b');
      forall k, v
        ensures Stored(WithBucket(m1, i, b'), k, v) <==> if k == key then v == value else Stored(m1, k, v)
      {
        StoredAtHome(m1, k, v);
      }
    case None =>
      var b' := b + [(key, value)];
      PushContents(b, (key, value));
      WithBucketStored(m1, i, b');
      forall k, v
        ensures Stored(WithBucket(m1, i, b'), k, v) <==> if k == key then v == value else Stored(m1, k, v)
      {
        StoredAtHome(m1, k, v);
      }
  }

  /** `insert`, as written: the same contract on any valid map. */
  lemma InsertSpec<K, V>(m: HashMap<K, V>, key: K, value: V)
    requires Valid(m)
    ensures var (m', prev) := Insert(m, key, value);
            Valid(m')
            && (forall k, v :: Stored(m', k, v) <==> if k == key then v == value else Stored(m, k, v))
            && prev == Get(m, key)
            && Len(m') == (if prev.None? then Len(m) + 1 else Len(m))
  {
    var m1 := ResizeIfNeeded(m);
    ResizeKeeps(m);
    InsertAfterSpec(m1, key, value);
    GetStored(m, key);
    GetStored(m1, key);
    if Get(m1, key).Some? {
      assert Stored(m, key, Get(m1, key).value);
    }
    if Get(m, key).Some? {
      assert Stored(m1, key, Get(m, key).value);
    }
  }

  /** `remove`: swap-remove the key's pair from its bucket and return its value. */
  function Remove<K(==), V>(m: HashMap<K, V>, key: K): (HashMap<K, V>, Option<V>)
    requires Valid(m)
  {
    match BucketOf(m, key)
    case None => (m, None)
    case Some(i) =>
      match Position(m.buckets[i], key)
      case None => (m, None)
      case Some(j) =>
        assert GoodBucket(m.keyBytes, m.buckets, i);
        SwapRemoveContents(m.buckets[i], j);
        (WithBucket(m, i, SwapRemove(m.buckets[i], j)), Some(m.buckets[i][j].1))
  }

  /**
   * Removing drops exactly `key`, returns its value if it had one, and
   * counts one entry fewer exactly then; an absent key changes nothing.
   */
  lemma RemoveSpec<K, V>(m: HashMap<K, V>, key: K)
    requires Valid(m)
    ensures var (m', prev) := Remove(m, key);
            Valid(m')
            && (forall k, v :: Stored(m', k, v) <==> k != key && Stored(m, k, v))
            && prev == Get(m, key)
            && Len(m') == (if prev.None? then Len(m) else Len(m) - 1)
            && (prev.None? ==> m' == m)
  {
    GetStored(m, key);
    if 0 < |m.buckets| {
      var i := Home(m, key);
      var b := m.buckets[i];
      assert GoodBucket(m.keyBytes, m.buckets, i);
      match Position(b, key)
      case Some(j) =>
        var b' := SwapRemove(b, j);
        SwapRemoveContents(b, j);
        forall p | p in b'
          ensures Home(m, p.0) == i
        {
        }
        WithBucketStored(m, i, b');
        forall k, v
          ensures Stored(WithBucket(m, i, b'), k, v) <==> k != key && Stored(m, k, v)
        {
          StoredAtHome(m, k, v);
        }
      case None =>
        forall k, v
          ensures Stored(m, k, v) <==> k != key && Stored(m, k, v)
        {
          StoredAtHome(m, k, v);
        }
    } else {
      forall k, v
        ensures !Stored(m, k, v)
      {
        StoredAtHome(m, k, v);
      }
    }
  }

  /**
   * Inserting a new key and removing it again returns the inserted value
   * and gives back the original length and contents.
   */
  lemma InsertThenRemove<K, V>(m: HashMap<K, V>, key: K, value: V)
    requires Valid(m) && Get(m, key).None?
    ensures var m1 := Insert(m, key, value).0;
            var (m2, r) := Remove(m1, key);
            r == Some(value) && Len(m2) == Len(m)
            && forall k, v :: Stored(m2, k, v) <==> Stored(m, k, v)
  {
    InsertSpec(m, key, value);
    var m1 := Insert(m, key, value).0;
    RemoveSpec(m1, key);
    GetStored(m1, key);
    GetStored(m, key);
    assert Stored(m1, key, value);
  }

  /** Where `get_mut` points: the bucket and the position of the key's pair. */
  function GetMut<K(==), V>(m: HashMap<K, V>, key: K): (r: Option<(nat, nat)>)
    ensures r.Some? ==> r.value.0 < |m.buckets| && r.value.1 < |m.buckets[r.value.0]|
  {
    match BucketOf(m, key)
    case None => None
    case Some(i) =>
      match Position(m.buckets[i], key)
      case None => None
      case Some(j) => Some((i, j))
  }

  /** A write through the reference `get_mut` returned. */
  function WriteThrough<K(==), V>(m: HashMap<K, V>, at: (nat, nat), value: V): HashMap<K, V>
    requires at.0 < |m.buckets| && at.1 < |m.buckets[at.0]|
  {
    var b := m.buckets[at.0];
    m.(buckets := m.buckets[at.0 := b[at.1 := (b[at.1].0, value)]])
  }

  /** `get_mut` finds a stored key, and a write through it is what `get` then returns; other keys are untouched. */
  lemma GetMutWrite<K, V>(m: HashMap<K, V>, key: K, value: V)
    requires Valid(m)
    ensures GetMut(m, key).Some? <==> HasKey(m, key)
    ensures GetMut(m, key).Some? ==>
              var m' := WriteThrough(m, GetMut(m, key).value, value);
              Valid(m') && Get(m', key) == Some(value)
              && forall k :: k != key ==> Get(m', k) == Get(m, k)
  {
    GetStored(m, key);
    if GetMut(m, key).Some? {
      var (i, j) := GetMut(m, key).value;
      var b := m.buckets[i];
      assert GoodBucket(m.keyBytes, m.buckets, i);
      ReplaceValueContents(b, j, value);
      var m' := WriteThrough(m, (i, j), value);
      assert m' == WithBucket(m, i, b[j := (b[j].0, value)]);
      WithBucketStored(m, i, b[j := (b[j].0, value)]);
      GetStored(m', key);
      assert Stored(m', key, value) by {
        StoredAtHome(m', key, value);
      }
      forall k | k != key
        ensures Get(m', k) == Get(m, k)
      {
        GetStored(m, k);
        GetStored(m', k);
        forall v
          ensures Stored(m', k, v) <==> Stored(m, k, v)
        {
          StoredAtHome(m, k, v);
        }
        if Get(m', k).Some? {
          assert Stored(m, k, Get(m', k).value);
        } else if Get(m, k).Some? {
          assert Stored(m', k, Get(m, k).value);
        }
      }
    }
  }

  /** An entry: the pair's place in an occupied bucket, or the bucket a new key goes to. */
  datatype Entry<K> = Occupied(bucket: nat, pos: nat) | Vacant(key: K, bucket: nat)

  /** `entry`: resize if needed, then locate the key. */
  function EntryOf<K(==), V>(m: HashMap<K, V>, key: K): (HashMap<K, V>, Entry<K>)
    requires Valid(m)
  {
    ResizeKeeps(m);
    var m1 := ResizeIfNeeded(m);
    var i := Home(m1, key);
    match Position(m1.buckets[i], key)
    case Some(j) => (m1, Occupied(i, j))
    case None => (m1, Vacant(key, i))
  }

  /** `VacantEntry::insert`: push the pair and bump the count. */
  function VacantInsert<K(==), V>(m: HashMap<K, V>, e: Entry<K>, value: V): HashMap<K, V>
    requires e.Vacant? && e.bucket < |m.buckets|
  {
    m.(buckets := m.buckets[e.bucket := m.buckets[e.bucket] + [(e.key, value)]], entryCnt := m.entryCnt + 1)
  }

  /**
   * `entry` is occupied exactly for a stored key, and then refers to that
   * key's pair; for a vacant entry, inserting through it is `insert`.
   */
  lemma EntrySpec<K, V>(m: HashMap<K, V>, key: K, value: V)
    requires Valid(m)
    ensures var (m1, e) := EntryOf(m, key);
            (e.Occupied? <==> HasKey(m, key))
            && (e.Occupied? ==> e.bucket < |m1.buckets| && e.pos < |m1.buckets[e.bucket]|
                                && Stored(m, key, m1.buckets[e.bucket][e.pos].1)
                                && m1.buckets[e.bucket][e.pos].0 == key)
            && (e.Vacant? ==> e.bucket < |m1.buckets| && VacantInsert(m1, e, value) == Insert(m, key, value).0)
  {
    ResizeKeeps(m);
    var m1 := ResizeIfNeeded(m);
    var i := Home(m1, key);
    GetStored(m1, key);
    match Position(m1.buckets[i], key)
    case Some(j) =>
      assert Stored(m1, key, m1.buckets[i][j].1);
    case None =>
      TotalLenUpdate(m1.buckets, i, m1.buckets[i] + [(key, value)]);
  }

  // ---------------------------------------------------------------------------
  // The resize defect

  /** A map with at most two buckets. */
  predicate FewBuckets<K(==), V>(m: HashMap<K, V>) {
    |m.buckets| <= 2
  }

  /** As written, `insert` never grows a map past two buckets, whatever its length. */
  lemma InsertKeepsFewBuckets<K, V>(m: HashMap<K, V>, key: K, value: V)
    requires Valid(m) && FewBuckets(m)
    ensures FewBuckets(Insert(m, key, value).0)
  {
    ResizeKeeps(m);
    if IsEmpty(m) && |m.buckets| == 2 {
      assert 3 * 2 / 4 == 1;
    }
    if !(!IsEmpty(m) || m.entryCnt < 3 * |m.buckets| / 4) {
      RehashKeeps(m, if |m.buckets| == 0 then 1 else 2 * |m.buckets|);
    }
    InsertAfterSpec(ResizeIfNeeded(m), key, value);
  }

  /** Three distinct keys inserted into a new map: three entries, at most two buckets. */
  lemma ThreeKeysTwoBuckets<K, V>(keyBytes: K -> seq<Bytes.byte>, a: K, b: K, c: K, v: V)
    requires a != b && b != c && a != c
    ensures var m1 := Insert(New(keyBytes), a, v).0;
            var m2 := Insert(m1, b, v).0;
            var m3 := Insert(m2, c, v).0;
            Len(m3) == 3 && |m3.buckets| <= 2
  {
    var m0: HashMap<K, V> := New(keyBytes);
    InsertCounts(m0, a, v);
    InsertKeepsFewBuckets(m0, a, v);
    var m1 := Insert(m0, a, v).0;
    InsertCounts(m1, b, v);
    InsertKeepsFewBuckets(m1, b, v);
    var m2 := Insert(m1, b, v).0;
    InsertCounts(m2, c, v);
    InsertKeepsFewBuckets(m2, c, v);
  }

  /** After `insert`, the keys with a value are the old ones and `key`; the count grows exactly for a new key. */
  lemma InsertCounts<K, V>(m: HashMap<K, V>, key: K, value: V)
    requires Valid(m)
    ensures var m' := Insert(m, key, value).0;
            (Len(m') == if Get(m, key).None? then Len(m) + 1 else Len(m))
            && forall k :: Get(m', k).Some? <==> k == key || Get(m, k).Some?
  {
    InsertSpec(m, key, value);
    var m' := Insert(m, key, value).0;
    forall k
      ensures Get(m', k).Some? <==> k == key || Get(m, k).Some?
    {
      GetStored(m, k);
      GetStored(m', k);
      if Get(m, k).Some? {
        assert Stored(m, k, Get(m, k).value);
      }
      if Get(m', k).Some? {
        assert Stored(m', k, Get(m', k).value);
      }
      if k == key {
        assert Stored(m', k, value);
      }
    }
  }

  /** `resize_if_needed` with the load-factor test alone: grow once the count reaches three quarters of the buckets. */
  function ResizeByLoad<K(==), V>(m: HashMap<K, V>): HashMap<K, V>
    requires Valid(m)
  {
    if m.entryCnt < 3 * |m.buckets| / 4 then m
    else Rehash(m, if |m.buckets| == 0 then 1 else 2 * |m.buckets|)
  }

  /** `insert` with the load-factor resize. */
  function InsertByLoad<K(==), V>(m: HashMap<K, V>, key: K, value: V): (HashMap<K, V>, Option<V>)
    requires Valid(m)
  {
    ResizeByLoadKeeps(m);
    InsertAfter(ResizeByLoad(m), key, value)
  }

  lemma ResizeByLoadKeeps<K, V>(m: HashMap<K, V>)
    requires Valid(m)
    ensures Valid(ResizeByLoad(m)) && 0 < |ResizeByLoad(m).buckets|
    ensures ResizeByLoad(m).entryCnt == m.entryCnt
    ensures forall k, v :: Stored(ResizeByLoad(m), k, v) <==> Stored(m, k, v)
    ensures m.entryCnt < 3 * |m.buckets| / 4 ==> ResizeByLoad(m) == m
    ensures m.entryCnt >= 3 * |m.buckets| / 4 ==> |ResizeByLoad(m).buckets| == if |m.buckets| == 0 then 1 else 2 * |m.buckets|
  {
    if m.entryCnt < 3 * |m.buckets| / 4 {
      assert 0 < |m.buckets|;
    } else {
      RehashKeeps(m, if |m.buckets| == 0 then 1 else 2 * |m.buckets|);
    }
  }

  /** There are never more entries than buckets. */
  predicate LoadBounded<K(==), V>(m: HashMap<K, V>) {
    m.entryCnt <= |m.buckets|
  }

  /** With the load-factor resize, inserting keeps at most one entry per bucket on average, and stores the pair like `insert`. */
  lemma InsertByLoadBounded<K, V>(m: HashMap<K, V>, key: K, value: V)
    requires Valid(m) && LoadBounded(m)
    ensures var (m', prev) := InsertByLoad(m, key, value);
            Valid(m') && LoadBounded(m')
            && (forall k, v :: Stored(m', k, v) <==> if k == key then v == value else Stored(m, k, v))
  {
    ResizeByLoadKeeps(m);
    var m1 := ResizeByLoad(m);
    InsertAfterSpec(m1, key, value);
    if m.entryCnt < 3 * |m.buckets| / 4 {
      assert m.entryCnt + 1 <= |m.buckets|;
    }
  }
}
