/** The browser's cache of objects: buckets named by a time of expiry, a limit on the number
    of objects, and an eviction that spares the first bucket. */
module ObjectCache {
  import opened Collections
  import opened Wrappers

  /** `expires` is the bucket the object was put into. */
  datatype Obj = Obj(id: string, data: string, expires: int)

  type Buckets = map<int, seq<Obj>>

  /** Keys below this limit are visited in ascending order, the others as they came. */
  const INDEX_LIMIT: int := 0xFFFF_FFFF

  predicate IsIndex(key: int) {
    0 <= key < INDEX_LIMIT
  }

  /** The keys of a JavaScript object in the order it visits them, with one more key. */
  function Enter(order: seq<int>, key: int): (r: seq<int>)
    ensures forall k :: k in r <==> k in order || k == key
    ensures key !in order && Distinct(order) ==> Distinct(r)
  {
    if order == [] || (IsIndex(key) && (!IsIndex(order[0]) || key < order[0])) then
      DistinctParts([key] + order);
      assert ([key] + order)[1..] == order;
      [key] + order
    else
      DistinctParts(order);
      var rest := Enter(order[1..], key);
      DistinctParts([order[0]] + rest);
      assert forall k :: k in order <==> k == order[0] || k in order[1..];
      assert ([order[0]] + rest)[1..] == rest;
      [order[0]] + rest
  }

  /** The order of the keys of a JavaScript object, section 10.1.11 of ECMA-262: those that
      are array indices first, ascending. */
  ghost predicate InKeyOrder(order: seq<int>) {
    forall i, j | 0 <= i < j < |order| && 0 <= order[j] < 0xFFFF_FFFF :: 0 <= order[i] < order[j]
  }

  /** A new key has been put among the keys; behind all of them if it is no array index. */
  ghost predicate Placed(before: seq<int>, key: int, after: seq<int>) {
    && InKeyOrder(after)
    && exists i | 0 <= i < |after| :: PlacedAt(before, key, after, i)
  }

  predicate PlacedAt(before: seq<int>, key: int, after: seq<int>, i: nat)
    requires i < |after|
  {
    after[i] == key && after[..i] + after[i + 1..] == before && (!(0 <= key < 0xFFFF_FFFF) ==> i == |before|)
  }

  lemma KeyOrderParts(order: seq<int>)
    requires order != []
    ensures InKeyOrder(order)
       <==> InKeyOrder(order[1..]) && forall k | k in order[1..] && 0 <= k < 0xFFFF_FFFF :: 0 <= order[0] < k
  {
    var rest := order[1..];
    if InKeyOrder(rest) && forall k | k in rest && 0 <= k < 0xFFFF_FFFF :: 0 <= order[0] < k {
      forall i, j | 0 <= i < j < |order| && 0 <= order[j] < 0xFFFF_FFFF ensures 0 <= order[i] < order[j] {
        assert rest[j - 1] in rest;
        assert i > 0 ==> order[i] == rest[i - 1];
      }
    }
    if InKeyOrder(order) {
      forall k | k in rest && 0 <= k < 0xFFFF_FFFF ensures 0 <= order[0] < k {
        var j :| 0 <= j < |rest| && rest[j] == k;
        assert order[j + 1] == k;
      }
    }
  }

  lemma PlacedLater(first: int, before: seq<int>, key: int, after: seq<int>, i: nat)
    requires i < |after| && PlacedAt(before, key, after, i)
    ensures PlacedAt([first] + before, key, [first] + after, i + 1)
  {
    var longer := [first] + after;
    assert longer[..i + 1] == [first] + after[..i] && longer[i + 2..] == after[i + 1..];
    assert [first] + after[..i] + after[i + 1..] == [first] + (after[..i] + after[i + 1..]);
  }

  lemma {:induction false} EnterPlaces(order: seq<int>, key: int) returns (i: nat)
    ensures i < |Enter(order, key)| && PlacedAt(order, key, Enter(order, key), i)
  {
    if order == [] || (IsIndex(key) && (!IsIndex(order[0]) || key < order[0])) {
      i := 0;
      assert ([key] + order)[1..] == order;
    } else {
      i := EnterPlaces(order[1..], key);
      PlacedLater(order[0], order[1..], key, Enter(order[1..], key), i);
      assert [order[0]] + order[1..] == order;
      i := i + 1;
    }
  }

  lemma {:induction false} EnterInOrder(order: seq<int>, key: int)
    requires InKeyOrder(order) && key !in order
    ensures InKeyOrder(Enter(order, key))
  {
    hide InKeyOrder;
    var after := Enter(order, key);
    if order != [] {
      KeyOrderParts(order);
      assert forall k :: k in order <==> k == order[0] || k in order[1..];
    }
    if order == [] || (IsIndex(key) && (!IsIndex(order[0]) || key < order[0])) {
      assert after[1..] == order;
      NoKeys();
    } else {
      EnterInOrder(order[1..], key);
      assert after[1..] == Enter(order[1..], key);
    }
    KeyOrderParts(after);
  }

  lemma NoKeys()
    ensures InKeyOrder([])
  {
  }

  /** A key has been taken out from among the keys. */
  ghost predicate TakenOut(before: seq<int>, key: int, after: seq<int>) {
    exists i | 0 <= i < |before| :: before[i] == key && after == before[..i] + before[i + 1..]
  }

  lemma {:induction false} WithoutNone(order: seq<int>, key: int)
    requires key !in order
    ensures Without(order, key) == order
  {
    if order != [] {
      WithoutNone(order[1..], key);
      assert [order[0]] + order[1..] == order;
    }
  }

  lemma {:induction false} WithoutAt(order: seq<int>, key: int)
    requires Distinct(order) && key in order
    ensures TakenOut(order, key, Without(order, key))
  {
    DistinctParts(order);
    if order[0] == key {
      WithoutNone(order[1..], key);
      assert order[..0] + order[1..] == order[1..];
    } else {
      WithoutAt(order[1..], key);
      TakenLater(order[0], order[1..], key, Without(order[1..], key));
      assert [order[0]] + order[1..] == order;
    }
  }

  lemma TakenLater(first: int, before: seq<int>, key: int, after: seq<int>)
    requires TakenOut(before, key, after)
    ensures TakenOut([first] + before, key, [first] + after)
  {
    var i :| 0 <= i < |before| && before[i] == key && after == before[..i] + before[i + 1..];
    var longer := [first] + before;
    assert longer[..i + 1] == [first] + before[..i] && longer[i + 2..] == before[i + 1..];
    assert longer[i + 1] == key && [first] + after == longer[..i + 1] + longer[i + 2..];
  }

  lemma {:induction false} WithoutInOrder(order: seq<int>, key: int)
    requires InKeyOrder(order)
    ensures InKeyOrder(Without(order, key))
  {
    if order != [] {
      KeyOrderParts(order);
      WithoutInOrder(order[1..], key);
      var r := Without(order, key);
      if r != [] {
        KeyOrderParts(r);
        assert order[0] != key ==> r[1..] == Without(order[1..], key);
      }
    }
  }

  /** The least array index among the keys is the first of them. */
  lemma LeastIsFirst(order: seq<int>, key: int)
    requires InKeyOrder(order) && key in order && 0 <= key < 0xFFFF_FFFF
    requires forall k | k in order && 0 <= k < 0xFFFF_FFFF :: key <= k
    ensures order[0] == key
  {
    var j :| 0 <= j < |order| && order[j] == key;
    assert order[0] in order;
  }

  function Without(order: seq<int>, key: int): (r: seq<int>)
    ensures forall k :: k in r <==> k in order && k != key
    ensures Distinct(order) ==> Distinct(r)
  {
    if order == [] then []
    else
      DistinctParts(order);
      var rest := Without(order[1..], key);
      DistinctParts([order[0]] + rest);
      assert forall k :: k in order <==> k == order[0] || k in order[1..];
      assert ([order[0]] + rest)[1..] == rest;
      if order[0] == key then rest else [order[0]] + rest
  }

  function WithoutId(objs: seq<Obj>, id: string): (r: seq<Obj>)
    ensures forall o :: o in r <==> o in objs && o.id != id
  {
    if objs == [] then []
    else
      assert forall o :: o in objs <==> o == objs[0] || o in objs[1..];
      (if objs[0].id != id then [objs[0]] else []) + WithoutId(objs[1..], id)
  }

  function Ids(objs: seq<Obj>): set<string> {
    set o | o in objs :: o.id
  }

  /** No id comes twice. */
  predicate Single(objs: seq<Obj>) {
    forall i, j | 0 <= i < j < |objs| :: objs[i].id != objs[j].id
  }

  /** The objects of the buckets `order`, one bucket after the other. */
  function Flat(order: seq<int>, expire: Buckets): seq<Obj>
  {
    if order == [] then [] else (if order[0] in expire then expire[order[0]] else []) + Flat(order[1..], expire)
  }

  lemma {:induction false} FlatSame(order: seq<int>, e: Buckets, f: Buckets)
    requires forall i | 0 <= i < |order| :: order[i] in e && order[i] in f && e[order[i]] == f[order[i]]
    ensures Flat(order, e) == Flat(order, f)
  {
    if order != [] {
      FlatSame(order[1..], e, f);
    }
  }

  lemma {:induction false} InFlat(order: seq<int>, expire: Buckets, o: Obj)
    ensures o in Flat(order, expire) <==> exists i :: 0 <= i < |order| && order[i] in expire && o in expire[order[i]]
  {
    if order != [] {
      InFlat(order[1..], expire, o);
      if exists i :: 0 <= i < |order| && order[i] in expire && o in expire[order[i]] {
        var i :| 0 <= i < |order| && order[i] in expire && o in expire[order[i]];
        assert i > 0 ==> order[1..][i - 1] == order[i];
      }
      if exists i :: 0 <= i < |order[1..]| && order[1..][i] in expire && o in expire[order[1..][i]] {
        var i :| 0 <= i < |order[1..]| && order[1..][i] in expire && o in expire[order[1..][i]];
        assert order[i + 1] == order[1..][i];
      }
    }
  }

  // ------------------------------------------------------------------- what is kept

  /** One bucket: nothing but stored objects that belong to it, each once. */
  predicate BucketOk(key: int, objs: seq<Obj>, storage: map<string, Obj>) {
    && objs != [] && Single(objs)
    && forall o | o in objs :: o.expires == key && o.id in storage && storage[o.id] == o
  }

  ghost predicate Consistent(storage: map<string, Obj>, expire: Buckets, order: seq<int>) {
    && InKeyOrder(order) && Distinct(order) && (forall k :: k in order <==> k in expire)
    && (forall k | k in expire :: BucketOk(k, expire[k], storage))
    && forall id | id in storage :: storage[id].id == id && storage[id].expires in expire
                                    && storage[id] in expire[storage[id].expires]
  }

  lemma {:induction false} SingleSize(objs: seq<Obj>)
    requires Single(objs)
    ensures |Ids(objs)| == |objs|
  {
    if objs != [] {
      var init, last := objs[..|objs| - 1], objs[|objs| - 1];
      SingleSize(init);
      assert objs == init + [last];
      assert Ids(objs) == Ids(init) + {last.id};
    }
  }

  lemma {:induction false} FlatSingle(storage: map<string, Obj>, expire: Buckets, order: seq<int>)
    requires Distinct(order) && forall i | 0 <= i < |order| :: order[i] in expire && BucketOk(order[i], expire[order[i]], storage)
    ensures Single(Flat(order, expire))
  {
    if order != [] {
      DistinctParts(order);
      FlatSingle(storage, expire, order[1..]);
      var first, rest := expire[order[0]], Flat(order[1..], expire);
      forall i, j | 0 <= i < |first| && 0 <= j < |rest| ensures first[i].id != rest[j].id {
        InFlat(order[1..], expire, rest[j]);
        var n :| 0 <= n < |order[1..]| && order[1..][n] in expire && rest[j] in expire[order[1..][n]];
        assert BucketOk(order[n + 1], expire[order[n + 1]], storage) && BucketOk(order[0], first, storage);
        assert order[1..][n] in order[1..];
        assert first[i] in first;
      }
    }
  }

  lemma KeysAreKnown(storage: map<string, Obj>, expire: Buckets, order: seq<int>)
    requires Consistent(storage, expire, order)
    ensures forall i | 0 <= i < |order| :: order[i] in expire && BucketOk(order[i], expire[order[i]], storage)
  {
    forall i | 0 <= i < |order| ensures order[i] in expire {
      var k := order[i];
      assert k in order;
    }
  }

  /** The buckets together hold as many objects as the storage. */
  lemma SizesAgree(storage: map<string, Obj>, expire: Buckets, order: seq<int>)
    requires Consistent(storage, expire, order)
    ensures |Flat(order, expire)| == |storage|
  {
    var all := Flat(order, expire);
    KeysAreKnown(storage, expire, order);
    FlatSingle(storage, expire, order);
    SingleSize(all);
    assert Ids(all) == storage.Keys by {
      forall id | id in storage ensures id in Ids(all) {
        InFlat(order, expire, storage[id]);
        var k := storage[id].expires;
        assert k in order;
        var n :| 0 <= n < |order| && order[n] == k;
        assert storage[id] in all;
      }
      forall o | o in all ensures o.id in storage {
        InFlat(order, expire, o);
        var n :| 0 <= n < |order| && order[n] in expire && o in expire[order[n]];
        assert BucketOk(order[n], expire[order[n]], storage);
      }
    }
    assert |storage.Keys| == |storage|;
  }

  // -------------------------------------------------------------- one bucket shrinks

  lemma {:induction false} WithoutAbsent(order: seq<int>, key: int)
    requires key !in order
    ensures Without(order, key) == order
  {
    if order != [] {
      WithoutAbsent(order[1..], key);
    }
  }

  lemma WithoutSecond(order: seq<int>)
    requires Distinct(order) && |order| > 1
    ensures Without(order, order[1]) == [order[0]] + order[2..]
  {
    var rest := order[1..];
    DistinctParts(order);
    DistinctParts(rest);
    assert Distinct(rest) && rest[0] == order[1] && order[0] != order[1] && rest[1..] == order[2..];
    WithoutAbsent(order[2..], order[1]);
  }

  lemma OtherIds(front: seq<Obj>, back: seq<Obj>, x: Obj, y: Obj)
    requires Single(front + back) && x in front && y in back
    ensures x.id != y.id
  {
    var i :| 0 <= i < |front| && front[i] == x;
    var j :| 0 <= j < |back| && back[j] == y;
    assert (front + back)[i] == x && (front + back)[|front| + j] == y;
  }

  lemma FrontSingle(front: seq<Obj>, back: seq<Obj>)
    requires Single(front + back)
    ensures Single(front)
  {
    forall i, j | 0 <= i < j < |front| ensures front[i].id != front[j].id {
      assert (front + back)[i] == front[i] && (front + back)[j] == front[j];
    }
  }

  lemma SplitIds(objs: seq<Obj>, n: nat)
    requires Single(objs) && n <= |objs|
    ensures |Ids(objs[..n])| == n && Ids(objs[..n]) !! Ids(objs[n..]) && Ids(objs[..n]) + Ids(objs[n..]) == Ids(objs)
  {
    hide Single;
    var front, back := objs[..n], objs[n..];
    assert front + back == objs;
    FrontSingle(front, back);
    SingleSize(front);
    IdsOfBoth(front, back);
    forall x, y | x in front && y in back ensures x.id != y.id {
      OtherIds(front, back, x, y);
    }
  }

  lemma IdsOfBoth(front: seq<Obj>, back: seq<Obj>)
    ensures Ids(front + back) == Ids(front) + Ids(back)
  {
  }

  function Shrunk(expire: Buckets, key: int, n: nat): Buckets
    requires key in expire && n <= |expire[key]|
  {
    if n == |expire[key]| then expire - {key} else expire[key := expire[key][n..]]
  }

  lemma ShrunkStored(storage: map<string, Obj>, expire: Buckets, order: seq<int>, key: int, n: nat, id: string)
    requires Consistent(storage, expire, order) && key in expire && n <= |expire[key]|
    requires id in storage && id !in Ids(expire[key][..n])
    ensures var o := storage[id]; o.expires in Shrunk(expire, key, n) && o in Shrunk(expire, key, n)[o.expires]
  {
    var o, objs := storage[id], expire[key];
    if o.expires == key {
      assert objs == objs[..n] + objs[n..];
      assert o !in objs[..n];
    }
  }

  lemma FewerStored(storage: map<string, Obj>, gone: set<string>)
    requires gone <= storage.Keys
    ensures |storage - gone| == |storage| - |gone| && (storage - gone).Keys == storage.Keys - gone
  {
    assert (storage - gone).Keys == storage.Keys - gone;
    assert |storage.Keys| == |storage.Keys - gone| + |gone|;
    assert |storage - gone| == |(storage - gone).Keys|;
  }

  /** Dropping the first `n` objects of a bucket, and the bucket when nothing is left. */
  lemma ShrunkKeys(expire: Buckets, order: seq<int>, key: int, n: nat)
    requires key in expire && n <= |expire[key]| && InKeyOrder(order) && Distinct(order)
    requires forall k :: k in order <==> k in expire
    ensures var order' := if n == |expire[key]| then Without(order, key) else order;
            && InKeyOrder(order') && Distinct(order') && forall k :: k in order' <==> k in Shrunk(expire, key, n)
  {
    hide InKeyOrder, Distinct, Without;
    WithoutInOrder(order, key);
    WithoutKeys(order, key);
  }

  lemma ShrunkConsistent(storage: map<string, Obj>, expire: Buckets, order: seq<int>, key: int, n: nat)
    requires Consistent(storage, expire, order) && key in expire && n <= |expire[key]|
    ensures var gone := Ids(expire[key][..n]);
            && Consistent(storage - gone, Shrunk(expire, key, n), if n == |expire[key]| then Without(order, key) else order)
            && |storage - gone| == |storage| - n
  {
    hide Ids, BucketOk, Distinct, InKeyOrder, Without;
    var gone := Ids(expire[key][..n]);
    var storage', expire' := storage - gone, Shrunk(expire, key, n);
    SplitBucket(storage, expire, key, n);
    ShrunkKeys(expire, order, key, n);
    FewerStored(storage, gone);
    forall k | k in expire' ensures BucketOk(k, expire'[k], storage') {
      ShrunkBucket(storage, expire, key, n, k);
    }
    forall id | id in storage'
      ensures storage'[id].id == id && storage'[id].expires in expire' && storage'[id] in expire'[storage'[id].expires]
    {
      ShrunkStored(storage, expire, order, key, n, id);
    }
  }

  lemma SplitBucket(storage: map<string, Obj>, expire: Buckets, key: int, n: nat)
    requires key in expire && n <= |expire[key]| && BucketOk(key, expire[key], storage)
    ensures |Ids(expire[key][..n])| == n && Ids(expire[key][..n]) <= storage.Keys
  {
    SplitIds(expire[key], n);
  }

  lemma ShrunkBucket(storage: map<string, Obj>, expire: Buckets, key: int, n: nat, k: int)
    requires key in expire && n <= |expire[key]| && k in Shrunk(expire, key, n)
    requires BucketOk(k, expire[k], storage) && BucketOk(key, expire[key], storage)
    ensures BucketOk(k, Shrunk(expire, key, n)[k], storage - Ids(expire[key][..n]))
  {
    var objs := expire[key];
    SplitIds(objs, n);
    if k != key {
      OtherBucket(storage, k, expire[k], key, objs, n);
    } else {
      RestOfBucket(storage, key, objs, n);
    }
    hide BucketOk, Ids;
  }

  lemma OtherBucket(storage: map<string, Obj>, k: int, others: seq<Obj>, key: int, objs: seq<Obj>, n: nat)
    requires k != key && n <= |objs| && BucketOk(k, others, storage) && BucketOk(key, objs, storage)
    ensures BucketOk(k, others, storage - Ids(objs[..n]))
  {
    hide Single;
    forall o | o in others ensures o.id !in Ids(objs[..n]) {
    }
  }

  lemma RestOfBucket(storage: map<string, Obj>, key: int, objs: seq<Obj>, n: nat)
    requires n < |objs| && BucketOk(key, objs, storage) && Ids(objs[..n]) !! Ids(objs[n..])
    ensures BucketOk(key, objs[n..], storage - Ids(objs[..n]))
  {
    forall o | o in objs[n..] ensures o in objs && o.id !in Ids(objs[..n]) {
      assert o.id in Ids(objs[n..]);
    }
  }

  lemma LaterUntouched(storage: map<string, Obj>, expire: Buckets, order: seq<int>, n: nat)
    requires Consistent(storage, expire, order) && |order| > 1 && order[1] in expire && n <= |expire[order[1]]|
    ensures Flat(order[2..], Shrunk(expire, order[1], n)) == Flat(order[2..], expire)
  {
    var later, key := order[2..], order[1];
    var ks := order[1..];
    DistinctParts(order);
    DistinctParts(ks);
    assert ks[1..] == later && ks[0] == key && Distinct(ks);
    KeysAreKnown(storage, expire, order);
    forall i | 0 <= i < |later| ensures later[i] in expire && later[i] != key {
      assert later[i] == order[i + 2];
      var k := later[i];
      assert k in later;
    }
    FlatSame(later, expire, Shrunk(expire, key, n));
  }

  /** The objects of the second and later buckets lose their first `n`. */
  lemma ShrunkFlat(storage: map<string, Obj>, expire: Buckets, order: seq<int>, n: nat)
    requires Consistent(storage, expire, order) && |order| > 1 && order[1] in expire && n <= |expire[order[1]]|
    ensures var key := order[1];
            var order' := if n == |expire[key]| then [order[0]] + order[2..] else order;
            && n <= |Flat(order[1..], expire)| && expire[key][..n] == Flat(order[1..], expire)[..n]
            && Flat(order'[1..], Shrunk(expire, key, n)) == Flat(order[1..], expire)[n..]
  {
    hide Consistent;
    LaterUntouched(storage, expire, order, n);
    assert order[1..][1..] == order[2..] && order[1..][0] == order[1];
    assert ([order[0]] + order[2..])[1..] == order[2..];
  }

  // ------------------------------------------------------------------------ the cache

  /** The objects outside the first bucket, in the order of the buckets. */
  function Later(order: seq<int>, expire: Buckets): seq<Obj> {
    if order == [] then [] else Flat(order[1..], expire)
  }

  function Min(a: int, b: int): int { if a < b then a else b }

  class Cache {
    const limit: int
    const delta: nat
    var count: int
    var storage: map<string, Obj>
    var expire: Buckets
    /** `Object.keys(expire)`. */
    var keys: seq<int>

    constructor (limit: int, delta: nat)
      ensures this.limit == limit && this.delta == delta && Valid() && storage == map[]
    {
      this.limit, this.delta := limit, delta;
      count, storage, expire, keys := 0, map[], map[], [];
    }

    ghost predicate Valid()
      reads this
    {
      Consistent(storage, expire, keys) && count == |storage|
    }

    /** The objects that may be evicted, in the order in which they are. */
    ghost function Evictable(): seq<Obj>
      requires Valid()
      reads this
    {
      Later(keys, expire)
    }

    /** How many of them go when room is made. */
    ghost function Gone(): (n: nat)
      requires Valid() && count >= limit
      reads this
      ensures n <= |Evictable()|
    {
      Min(|Evictable()|, count - limit + delta)
    }

    /** How many of `n` objects have to go. */
    function ToDrop(n: nat): nat
      reads this
    {
      if limit - count >= delta then 0 else if n < count - limit + delta then n else count - limit + delta
    }

    /** `filter` on one bucket, which drops objects from the front while there are too many. */
    method FilterBucket(objs: seq<Obj>) returns (kept: seq<Obj>)
      modifies this`count, this`storage
      ensures count == old(count) - old(ToDrop(|objs|))
      ensures kept == objs[old(ToDrop(|objs|))..]
      ensures storage == old(storage) - Ids(objs[..old(ToDrop(|objs|))])
    {
      kept := [];
      ghost var dropped := 0;
      for i := 0 to |objs|
        invariant dropped == old(ToDrop(i)) && count == old(count) - dropped
        invariant kept == objs[dropped..i]
        invariant storage == old(storage) - Ids(objs[..dropped])
      {
        if limit - count >= delta {
          kept := kept + [objs[i]];
        } else {
          assert Ids(objs[..dropped + 1]) == Ids(objs[..dropped]) + {objs[i].id};
          storage := storage - {objs[i].id};
          count := count - 1;
          dropped := dropped + 1;
        }
      }
    }

    /** The second bucket gives up as many objects as have to go, and goes itself when it is
        empty. */
    method EvictFrom(key: int)
      requires Valid() && |keys| > 1 && keys[1] == key && key in expire && limit - count < delta
      modifies this
      ensures Valid()
      ensures var n := old(ToDrop(|expire[key]|));
              && n <= |old(Evictable())|
              && count == old(count) - n
              && Evictable() == old(Evictable())[n..]
              && storage == old(storage) - Ids(old(Evictable())[..n])
      ensures keys != [] && keys[0] == old(keys[0])
      ensures keys == if old(ToDrop(|expire[key]|)) == old(|expire[key]|) then old([keys[0]] + keys[2..]) else old(keys)
      ensures keys[0] in expire && expire[keys[0]] == old(expire)[keys[0]]
    {
      hide Consistent, Flat, BucketOk, Ids, Distinct;
      ghost var n := ToDrop(|expire[key]|);
      FirstKey(storage, expire, keys);
      WithoutSecondOf(storage, expire, keys);
      ShrunkConsistent(storage, expire, keys, key, n);
      ShrunkFlat(storage, expire, keys, n);
      var kept := FilterBucket(expire[key]);
      expire := expire[key := kept];
      if kept == [] {
        expire := expire - {key};
        keys := Without(keys, key);
      }
      assert expire == Shrunk(old(expire), key, n);
    }

    /** `EvictFrom`, with the objects `every` of which `gone` had been evicted before. */
    method EvictNext(key: int, ghost every: seq<Obj>, ghost start: map<string, Obj>,
            ghost gone: nat) returns (ghost more: nat)
      requires Valid() && |keys| > 1 && keys[1] == key && limit - count < delta
      requires gone <= |every| && Evictable() == every[gone..] && storage == start - Ids(every[..gone])
      modifies this
      ensures Valid() && gone <= more <= |every| && count == old(count) - (more - gone) && limit - count <= delta
      ensures Evictable() == every[more..] && storage == start - Ids(every[..more])
      ensures keys != [] && keys[0] == old(keys[0]) && keys[0] in expire && keys[0] in old(expire)
              && expire[keys[0]] == old(expire)[keys[0]]
      ensures limit - count < delta ==> keys == old([keys[0]] + keys[2..])
    {
      hide Consistent, Flat, Ids;
      FirstIsKnown(storage, expire, keys);
      SecondIsKnown(storage, expire, keys);
      ghost var n := ToDrop(|expire[key]|);
      EvictFrom(key);
      IdsOn(start, every, gone, n);
      more := gone + n;
    }

    /** The second and later buckets in turn, while there are too many objects: as many go as
        have to, or as there are, the first in the order of the buckets first. */
    method Evict()
      requires Valid() && count >= limit
      modifies this
      ensures Valid()
      ensures var gone := old(Gone());
              && count == old(count) - gone
              && Evictable() == old(Evictable())[gone..]
              && storage == old(storage) - Ids(old(Evictable())[..gone])
      ensures keys == [] <==> old(keys) == []
      ensures keys != [] ==> keys[0] == old(keys[0]) && keys[0] in expire && keys[0] in old(expire)
                             && expire[keys[0]] == old(expire)[keys[0]]
    {
      hide Consistent, Flat, Ids, Later, Distinct, BucketOk;
      var all := keys;
      ghost var every := Evictable();
      ghost var gone := 0;
      FirstIsKnown(storage, expire, keys);
      assert every[0..] == every && every[..0] == [];
      NoIds(storage);
      var i := 1;
      while i < |all| && limit - count < delta
        invariant 1 <= i && (all != [] ==> i <= |all|) && Valid() && (keys == [] <==> all == [])
        invariant all != [] ==> keys[0] == all[0] && keys[0] in expire && keys[0] in old(expire)
                                && expire[keys[0]] == old(expire)[keys[0]]
        invariant i <= |all| && limit - count < delta ==> keys == [all[0]] + all[i..]
        invariant gone == old(count) - count && 0 <= gone <= |every| && limit - count <= delta
        invariant Evictable() == every[gone..]
        invariant storage == old(storage) - Ids(every[..gone])
      {
        assert keys[1] == all[i] && keys[2..] == all[i + 1..];
        gone := EvictNext(all[i], every, old(storage), gone);
        i := i + 1;
      }
      AllEvicted(keys, expire);
    }

    /** Makes room if it has to, and files the object. `spared` and `order` are the buckets
        that making room has left, and their keys. */
    method Set(id: string, data: string, expires: Option<int>, now: int) returns (ghost spared: Buckets, ghost order: seq<int>)
      requires Valid()
      modifies this
      ensures var obj := Obj(id, data, if expires.Some? then expires.value else now);
              var kept := old(Kept());
              && storage == kept[id := obj]
              && (Valid() <==> id !in kept)
              && expire == Added(spared, obj.expires, obj) && obj in Filed(obj.expires)
              && (if obj.expires in spared then keys == order else Placed(order, obj.expires, keys))
              && Consistent(kept, spared, order)
      ensures old(count) < limit ==> spared == old(expire) && order == old(keys) && count == old(count) + 1
      ensures old(count) >= limit ==> Later(order, spared) == old(Evictable())[old(Gone())..]
                                      && count == old(count) - old(Gone()) + 1
      ensures order == [] <==> old(keys) == []
      ensures order != [] ==> order[0] == old(keys[0]) && order[0] in spared && order[0] in old(expire)
                              && spared[order[0]] == old(expire)[order[0]]
    {
      hide Consistent, Later, Kept, Gone, Added, Enter, Placed;
      MakeRoom();
      spared, order := expire, keys;
      var key := if expires.Some? then expires.value else now;
      File(Obj(id, data, key));
    }

    method MakeRoom()
      requires Valid()
      modifies this
      ensures Valid() && storage == old(Kept())
      ensures old(count) < limit ==> expire == old(expire) && keys == old(keys) && count == old(count)
      ensures old(count) >= limit ==> Evictable() == old(Evictable())[old(Gone())..] && count == old(count) - old(Gone())
      ensures keys == [] <==> old(keys) == []
      ensures keys != [] ==> keys[0] == old(keys[0]) && keys[0] in expire && keys[0] in old(expire)
                             && expire[keys[0]] == old(expire)[keys[0]]
    {
      hide Consistent, Ids, Flat, Later;
      FirstIsKnown(storage, expire, keys);
      if count >= limit {
        Evict();
      }
    }

    method File(obj: Obj)
      requires Valid()
      modifies this
      ensures storage == old(storage)[obj.id := obj] && count == old(count) + 1
      ensures expire == Added(old(expire), obj.expires, obj) && obj in Filed(obj.expires)
      ensures if obj.expires in old(expire) then keys == old(keys) else Placed(old(keys), obj.expires, keys)
      ensures Valid() <==> obj.id !in old(storage)
    {
      hide Consistent, Added, Enter, InKeyOrder;
      if obj.id !in storage {
        AddConsistent(storage, expire, keys, obj);
      } else {
        SameSize(storage, obj);
      }
      OrderOf(storage, expire, keys);
      if obj.expires !in expire {
        var _ := EnterPlaces(keys, obj.expires);
        EnterInOrder(keys, obj.expires);
      }
      storage := storage[obj.id := obj];
      PutIntoBucket(obj.expires, obj);
      count := count + 1;
    }

    method PutIntoBucket(key: int, obj: Obj)
      modifies this`expire, this`keys
      ensures expire == Added(old(expire), key, obj) && obj in Filed(key)
      ensures keys == if key in old(expire) then old(keys) else Enter(old(keys), key)
    {
      if key !in expire {
        expire := expire[key := []];
        keys := Enter(keys, key);
      }
      expire := expire[key := expire[key] + [obj]];
      assert expire == Added(old(expire), key, obj);
      assert (expire[key])[|expire[key]| - 1] == obj;
    }

    function Filed(key: int): seq<Obj>
      reads this
    {
      if key in expire then expire[key] else []
    }

    /** What is left in the storage when room has been made. */
    ghost function Kept(): map<string, Obj>
      requires Valid()
      reads this
    {
      if count >= limit then storage - Ids(Evictable()[..Gone()]) else storage
    }

    method Remove(id: string) returns (ok: bool)
      requires Valid()
      modifies this
      ensures Valid() && ok == (id in old(storage)) && storage == old(storage) - {id}
      ensures ok ==> var key := old(storage)[id].expires;
                     key in old(expire) && Filed(key) == WithoutId(old(expire)[key], id)
                     && (forall k | k != key :: (k in expire <==> k in old(expire)) && Filed(k) == old(Filed(k)))
                     && if key in expire then keys == old(keys) else TakenOut(old(keys), key, keys)
    {
      hide Consistent, BucketOk, TakenOut, InKeyOrder, Distinct, Without, WithoutId;
      if id !in storage {
        assert storage == storage - {id};
        return false;
      }
      var key := storage[id].expires;
      RemoveConsistent(storage, expire, keys, id);
      OrderOf(storage, expire, keys);
      WithoutAt(keys, key);
      TakeFromBucket(key, id);
      count := count - 1;
      storage := storage - {id};
      return true;
    }

    method TakeFromBucket(key: int, id: string)
      requires key in expire
      modifies this`expire, this`keys
      ensures expire == Removed(old(expire), key, id)
      ensures keys == if WithoutId(old(expire)[key], id) == [] then Without(old(keys), key) else old(keys)
    {
      hide Without, WithoutId;
      expire := expire[key := WithoutId(expire[key], id)];
      if expire[key] == [] {
        expire := expire - {key};
        keys := Without(keys, key);
      }
      assert expire == Removed(old(expire), key, id);
    }

    method Clear()
      modifies this
      ensures Valid() && storage == map[] && count == 0
    {
      count, storage, expire, keys := 0, map[], map[], [];
    }
  }

  // ------------------------------------------------------------------------------ runs

  datatype Op = Put(id: string, data: string, expires: Option<int>, now: int) | Drop(id: string)

  /** The ids that may be cached after the operations, when `ids` may be before. */
  function IdsAfter(ids: set<string>, ops: seq<Op>): set<string> {
    if ops == [] then ids
    else
      var before := IdsAfter(ids, ops[..|ops| - 1]);
      match ops[|ops| - 1]
      case Put(id, _, _, _) => before + {id}
      case Drop(id) => before - {id}
  }

  /** No object is cached under an id that may be cached already. */
  predicate NewIds(ids: set<string>, ops: seq<Op>) {
    ops == [] ||
    (NewIds(ids, ops[..|ops| - 1]) && (ops[|ops| - 1].Put? ==> ops[|ops| - 1].id !in IdsAfter(ids, ops[..|ops| - 1])))
  }

  lemma {:induction false} NewIdsSoFar(ids: set<string>, ops: seq<Op>, n: nat)
    requires NewIds(ids, ops) && n <= |ops|
    ensures NewIds(ids, ops[..n])
    decreases |ops|
  {
    if n == |ops| {
      assert ops[..n] == ops;
    } else {
      NewIdsSoFar(ids, ops[..|ops| - 1], n);
      assert ops[..|ops| - 1][..n] == ops[..n];
    }
  }

  /** Over any run of caching new objects and removing any, with all the evictions on the way,
      the cache stays consistent: its count is the size of its storage and of all buckets
      together, no bucket is empty, and every object is in the bucket it names, once. */
  method RunOps(c: Cache, ops: seq<Op>)
    requires c.Valid() && NewIds(c.storage.Keys, ops)
    modifies c
    ensures c.Valid() && c.count == |c.storage| == |Flat(c.keys, c.expire)|
    ensures c.storage.Keys <= IdsAfter(old(c.storage.Keys), ops)
  {
    hide Cache.Valid, Cache.Kept, Consistent, Added;
    ghost var ids := c.storage.Keys;
    for i := 0 to |ops|
      invariant c.Valid() && c.storage.Keys <= IdsAfter(ids, ops[..i])
    {
      assert ops[..i + 1][..i] == ops[..i];
      NewIdsSoFar(ids, ops, i + 1);
      match ops[i] {
        case Put(id, data, expires, now) =>
          KeptIsLess(c);
          var _, _ := c.Set(id, data, expires, now);
        case Drop(id) =>
          var _ := c.Remove(id);
      }
    }
    assert ops[..|ops|] == ops;
    Sizes(c);
  }

  /** The bucket an object is put into. */
  function KeyOf(op: Op): int
    requires op.Put?
  {
    if op.expires.Some? then op.expires.value else op.now
  }

  /** Objects are only put into the bucket `key` or into buckets behind it. */
  predicate PutsBehind(ops: seq<Op>, key: int) {
    forall op | op in ops :: op.Put? && (0 <= KeyOf(op) < 0xFFFF_FFFF ==> key <= KeyOf(op))
  }

  /** `key` is the least array index among the buckets. */
  predicate IsLeast(expire: Buckets, key: int) {
    0 <= key < 0xFFFF_FFFF && key in expire && forall k | k in expire && 0 <= k < 0xFFFF_FFFF :: key <= k
  }

  /** The bucket of the least array index, where the ontology is, is the first one, and no run
      of additions to it and behind it ever evicts one of its objects. */
  method RunPuts(c: Cache, ops: seq<Op>, key: int)
    requires c.Valid() && NewIds(c.storage.Keys, ops) && PutsBehind(ops, key) && IsLeast(c.expire, key)
    modifies c
    ensures c.Valid() && IsLeast(c.expire, key) && c.keys != [] && c.keys[0] == key
    ensures old(c.expire)[key] <= c.expire[key]
    ensures forall o | o in old(c.expire)[key] :: o.id in c.storage && c.storage[o.id] == o
  {
    hide Cache.Valid, Cache.Kept, Consistent, Added, Placed, InKeyOrder;
    ghost var ids, start := c.storage.Keys, c.expire[key];
    LeastFirst(c, key);
    for i := 0 to |ops|
      invariant c.Valid() && c.storage.Keys <= IdsAfter(ids, ops[..i])
      invariant IsLeast(c.expire, key) && c.keys != [] && c.keys[0] == key && key in c.expire && start <= c.expire[key]
    {
      assert ops[..i + 1][..i] == ops[..i];
      NewIdsSoFar(ids, ops, i + 1);
      KeptIsLess(c);
      assert ops[i] in ops;
      ghost var kept := c.Kept();
      ghost var spared, order := c.Set(ops[i].id, ops[i].data, ops[i].expires, ops[i].now);
      OrderOf(kept, spared, order);
      FirstIsLeast(order, spared, key);
      AddedBehind(spared, key, KeyOf(ops[i]), Obj(ops[i].id, ops[i].data, KeyOf(ops[i])));
      LeastFirst(c, key);
    }
    assert ops[..|ops|] == ops;
    FirstIsStored(c, key);
  }

  lemma LeastFirst(c: Cache, key: int)
    requires c.Valid() && IsLeast(c.expire, key)
    ensures c.keys != [] && c.keys[0] == key
  {
    OrderOf(c.storage, c.expire, c.keys);
    LeastIsFirst(c.keys, key);
  }

  lemma FirstIsLeast(order: seq<int>, expire: Buckets, key: int)
    requires InKeyOrder(order) && (forall k :: k in order <==> k in expire)
    requires order != [] && order[0] == key && 0 <= key < 0xFFFF_FFFF
    ensures IsLeast(expire, key)
  {
    assert order[0] in order;
    forall k | k in expire && 0 <= k < 0xFFFF_FFFF ensures key <= k {
      var j :| 0 <= j < |order| && order[j] == k;
    }
  }

  lemma AddedBehind(expire: Buckets, key: int, k: int, o: Obj)
    requires IsLeast(expire, key) && (0 <= k < 0xFFFF_FFFF ==> key <= k)
    ensures IsLeast(Added(expire, k, o), key) && expire[key] <= Added(expire, k, o)[key]
  {
  }

  lemma FirstIsStored(c: Cache, key: int)
    requires c.Valid() && key in c.expire
    ensures forall o | o in c.expire[key] :: o.id in c.storage && c.storage[o.id] == o
  {
    assert BucketOk(key, c.expire[key], c.storage);
  }

  lemma KeptIsLess(c: Cache)
    requires c.Valid()
    ensures c.Kept().Keys <= c.storage.Keys
  {
  }

  lemma Sizes(c: Cache)
    requires c.Valid()
    ensures c.count == |c.storage| == |Flat(c.keys, c.expire)|
  {
    SizesAgree(c.storage, c.expire, c.keys);
  }

  lemma NoIds(storage: map<string, Obj>)
    ensures storage - Ids([]) == storage
  {
  }

  lemma IdsOn(storage: map<string, Obj>, every: seq<Obj>, gone: nat, n: nat)
    requires gone + n <= |every|
    ensures storage - Ids(every[..gone]) - Ids(every[gone..][..n]) == storage - Ids(every[..gone + n])
    ensures every[gone..][n..] == every[gone + n..]
  {
    assert every[..gone + n] == every[..gone] + every[gone..][..n];
  }

  lemma AllEvicted(order: seq<int>, expire: Buckets)
    ensures |order| <= 1 ==> Later(order, expire) == []
  {
  }

  lemma OrderOf(storage: map<string, Obj>, expire: Buckets, order: seq<int>)
    requires Consistent(storage, expire, order)
    ensures InKeyOrder(order) && Distinct(order) && forall k :: k in order <==> k in expire
  {
    hide BucketOk;
  }

  lemma FirstIsKnown(storage: map<string, Obj>, expire: Buckets, order: seq<int>)
    requires Consistent(storage, expire, order)
    ensures order != [] ==> order[0] in expire
  {
    if order != [] {
      var k := order[0];
      assert k in order;
    }
  }

  lemma SecondIsKnown(storage: map<string, Obj>, expire: Buckets, order: seq<int>)
    requires Consistent(storage, expire, order) && |order| > 1
    ensures order[1] in expire
  {
    var k := order[1];
    assert k in order;
  }

  function Added(expire: Buckets, key: int, o: Obj): Buckets {
    expire[key := (if key in expire then expire[key] else []) + [o]]
  }

  lemma SameSize(storage: map<string, Obj>, o: Obj)
    requires o.id in storage
    ensures |storage[o.id := o]| == |storage|
  {
    assert storage[o.id := o].Keys == storage.Keys;
    assert |storage[o.id := o].Keys| == |storage.Keys|;
  }

  lemma AddedStored(storage: map<string, Obj>, expire: Buckets, order: seq<int>, o: Obj, x: string)
    requires Consistent(storage, expire, order) && o.id !in storage && x in storage[o.id := o]
    ensures var y := storage[o.id := o][x];
            && y.id == x && y.expires in Added(expire, o.expires, o) && y in Added(expire, o.expires, o)[y.expires]
  {
    if x == o.id {
      var objs := Added(expire, o.expires, o)[o.expires];
      assert objs[|objs| - 1] == o;
    }
  }

  lemma AddConsistent(storage: map<string, Obj>, expire: Buckets, order: seq<int>, o: Obj)
    requires Consistent(storage, expire, order) && o.id !in storage
    ensures Consistent(storage[o.id := o], Added(expire, o.expires, o), if o.expires in expire then order else Enter(order, o.expires))
    ensures |storage[o.id := o]| == |storage| + 1
  {
    hide Enter, BucketOk;
    var storage', expire' := storage[o.id := o], Added(expire, o.expires, o);
    EnterKeys(order, o.expires);
    if o.expires !in expire {
      EnterInOrder(order, o.expires);
    }
    hide InKeyOrder;
    forall k | k in expire' ensures BucketOk(k, expire'[k], storage') {
      AddedBucket(storage, expire, o, k);
    }
    forall x | x in storage'
      ensures storage'[x].id == x && storage'[x].expires in expire' && storage'[x] in expire'[storage'[x].expires]
    {
      AddedStored(storage, expire, order, o, x);
    }
  }

  lemma EnterKeys(order: seq<int>, key: int)
    ensures (forall k :: k in Enter(order, key) <==> k in order || k == key)
    ensures key !in order && Distinct(order) ==> Distinct(Enter(order, key))
  {
  }

  lemma AddedBucket(storage: map<string, Obj>, expire: Buckets, o: Obj, k: int)
    requires k in Added(expire, o.expires, o) && o.id !in storage && (k in expire ==> BucketOk(k, expire[k], storage))
    ensures BucketOk(k, Added(expire, o.expires, o)[k], storage[o.id := o])
  {
  }

  lemma {:induction false} WithoutIdSingle(objs: seq<Obj>, id: string)
    requires Single(objs)
    ensures Single(WithoutId(objs, id))
  {
    if objs != [] {
      WithoutIdSingle(objs[1..], id);
      var rest := WithoutId(objs[1..], id);
      forall o | o in rest ensures o.id != objs[0].id {
        assert o in objs[1..];
      }
    }
  }

  function Removed(expire: Buckets, key: int, id: string): Buckets
    requires key in expire
  {
    if WithoutId(expire[key], id) == [] then expire - {key} else expire[key := WithoutId(expire[key], id)]
  }

  lemma RemovedBucket(storage: map<string, Obj>, expire: Buckets, id: string, key: int, k: int)
    requires key in expire && k in Removed(expire, key, id) && BucketOk(k, expire[k], storage)
    requires id in storage && storage[id].expires == key
    ensures BucketOk(k, Removed(expire, key, id)[k], storage - {id})
  {
    if k == key {
      WithoutIdOf(expire[key], id);
      WithoutIdSingle(expire[key], id);
    }
  }

  lemma RemovedStored(storage: map<string, Obj>, expire: Buckets, order: seq<int>, id: string, x: string)
    requires Consistent(storage, expire, order) && id in storage && storage[id].expires in expire && x in storage && x != id
    ensures var o := storage[x];
            && o.id == x && o.expires in Removed(expire, storage[id].expires, id)
            && o in Removed(expire, storage[id].expires, id)[o.expires]
  {
    WithoutIdOf(expire[storage[id].expires], id);
  }

  /** The keys that are left, in the order in which they were. */
  lemma RemovedKeys(expire: Buckets, order: seq<int>, key: int, id: string)
    requires key in expire && Distinct(order) && forall k :: k in order <==> k in expire
    ensures var order' := if WithoutId(expire[key], id) == [] then Without(order, key) else order;
            Distinct(order') && forall k :: k in order' <==> k in Removed(expire, key, id)
  {
    hide Distinct, Without, WithoutId;
    WithoutKeys(order, key);
  }

  lemma RemoveConsistent(storage: map<string, Obj>, expire: Buckets, order: seq<int>, id: string)
    requires Consistent(storage, expire, order) && id in storage
    ensures var key := storage[id].expires;
            && key in expire
            && Consistent(storage - {id}, Removed(expire, key, id), if WithoutId(expire[key], id) == [] then Without(order, key) else order)
            && |storage - {id}| == |storage| - 1
  {
    hide Without, WithoutId, BucketOk, Distinct, Removed, InKeyOrder;
    var key := storage[id].expires;
    var storage', expire' := storage - {id}, Removed(expire, key, id);
    FewerStored(storage, {id});
    RemovedKeys(expire, order, key, id);
    WithoutInOrder(order, key);
    forall k | k in expire' ensures BucketOk(k, expire'[k], storage') {
      KeysLeft(expire, key, id, k);
      RemovedBucket(storage, expire, id, key, k);
    }
    forall x | x in storage'
      ensures storage'[x].id == x && storage'[x].expires in expire' && storage'[x] in expire'[storage'[x].expires]
    {
      RemovedStored(storage, expire, order, id, x);
    }
  }

  lemma KeysLeft(expire: Buckets, key: int, id: string, k: int)
    requires key in expire && k in Removed(expire, key, id)
    ensures k in expire
  {
  }

  lemma WithoutKeys(order: seq<int>, key: int)
    ensures (forall k :: k in Without(order, key) <==> k in order && k != key) && (Distinct(order) ==> Distinct(Without(order, key)))
  {
  }

  lemma WithoutIdOf(objs: seq<Obj>, id: string)
    ensures forall o :: o in WithoutId(objs, id) <==> o in objs && o.id != id
  {
  }


  lemma FirstKey(storage: map<string, Obj>, expire: Buckets, order: seq<int>)
    requires Consistent(storage, expire, order) && |order| > 1
    ensures order[0] in expire && order[0] != order[1]
  {
    var k := order[0];
    DistinctParts(order);
    assert k in order && order[1..][0] == order[1];
  }

  lemma WithoutSecondOf(storage: map<string, Obj>, expire: Buckets, order: seq<int>)
    requires Consistent(storage, expire, order) && |order| > 1
    ensures Without(order, order[1]) == [order[0]] + order[2..]
  {
    WithoutSecond(order);
  }
}
