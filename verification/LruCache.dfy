/** The least-recently-used cache of patches, previews and sources, bounded in number and in total size. */
module LruCache {
  import opened Base

  datatype Config<!V> = Config(limit: nat, maxItems: nat, size: V -> nat) {
    ghost predicate Valid() {
      maxItems > 0 && limit < USIZE_MAX
    }
  }

  datatype Entry<K, V> = Entry(key: K, value: V)

  const MIB: nat := 1024 * 1024

  datatype Preview = Preview(original: string, modified: string)

  /** 32 MiB in at most 3 patch sets, each counted with the bytes it keeps. */
  function PatchConfig<P(!new)>(bytes: P -> nat): (c: Config<P>)
    ensures c.Valid() && c.limit == 33_554_432 && c.maxItems == 3
    ensures forall p :: c.size(p) == bytes(p)
  {
    Config(32 * MIB, 3, bytes)
  }

  function PreviewConfig(): (c: Config<Preview>)
    ensures c.Valid() && c.limit == 16_777_216 && c.maxItems == 8
    ensures forall p: Preview | |p.original| + |p.modified| <= c.limit :: c.size(p) == |p.original| + |p.modified|
    ensures forall p: Preview | |p.original| + |p.modified| > c.limit :: c.size(p) > c.limit
  {
    Config(16 * MIB, 8, (p: Preview) => SaturatingAdd(|p.original|, |p.modified|))
  }

  function SourceConfig(): (c: Config<seq<Byte>>)
    ensures c.Valid() && c.limit == 33_554_432 && c.maxItems == 64
    ensures forall source :: c.size(source) == |source|
  {
    Config(32 * MIB, 64, (source: seq<Byte>) => |source|)
  }

  // ---- the cache as a list of entries, least recently used first ----

  function Keys<K, V>(e: seq<Entry<K, V>>): seq<K> {
    seq(|e|, i requires 0 <= i < |e| => e[i].key)
  }

  function Drop<K(==)>(keys: seq<K>, gone: set<K>): seq<K> {
    if keys == [] then []
    else if keys[0] in gone then Drop(keys[1..], gone)
    else [keys[0]] + Drop(keys[1..], gone)
  }

  function Without<K(==), V>(e: seq<Entry<K, V>>, gone: set<K>): (r: seq<Entry<K, V>>)
    ensures |r| <= |e|
  {
    if e == [] then []
    else if e[0].key in gone then Without(e[1..], gone)
    else [e[0]] + Without(e[1..], gone)
  }

  function Total<K, V>(c: Config<V>, e: seq<Entry<K, V>>): nat {
    if e == [] then 0 else c.size(e[0].value) + Total(c, e[1..])
  }

  function Find<K(==), V>(e: seq<Entry<K, V>>, key: K): Option<V> {
    if e == [] then None
    else if e[0].key == key then Some(e[0].value)
    else Find(e[1..], key)
  }

  ghost predicate Distinct<K>(keys: seq<K>) {
    forall i, j | 0 <= i < j < |keys| :: keys[i] != keys[j]
  }

  /** Whether a value of `size` bytes may be added as it is. */
  predicate Room<K, V>(c: Config<V>, e: seq<Entry<K, V>>, size: nat) {
    |e| < c.maxItems && Total(c, e) + size <= c.limit
  }

  function Evict<K, V>(c: Config<V>, e: seq<Entry<K, V>>, size: nat): seq<Entry<K, V>> {
    if e == [] || Room(c, e, size) then e else Evict(c, e[1..], size)
  }

  function Inserted<K(==), V>(c: Config<V>, e: seq<Entry<K, V>>, key: K, value: V): seq<Entry<K, V>> {
    if c.size(value) > c.limit then e
    else Evict(c, Without(e, {key}), c.size(value)) + [Entry(key, value)]
  }

  function Touched<K(==), V>(e: seq<Entry<K, V>>, key: K): seq<Entry<K, V>> {
    match Find(e, key)
    case None => e
    case Some(value) => Without(e, {key}) + [Entry(key, value)]
  }

  ghost predicate Bounded<K, V>(c: Config<V>, e: seq<Entry<K, V>>) {
    Distinct(Keys(e)) && |e| <= c.maxItems && Total(c, e) <= c.limit
  }

  lemma KeysConcat<K, V>(a: seq<Entry<K, V>>, b: seq<Entry<K, V>>)
    ensures Keys(a + b) == Keys(a) + Keys(b)
  {
  }

  lemma KeysTail<K, V>(e: seq<Entry<K, V>>)
    requires e != []
    ensures Keys(e) == [e[0].key] + Keys(e[1..]) && Keys(e)[1..] == Keys(e[1..])
  {
  }

  lemma {:induction false} TotalConcat<K, V>(c: Config<V>, a: seq<Entry<K, V>>, b: seq<Entry<K, V>>)
    ensures Total(c, a + b) == Total(c, a) + Total(c, b)
  {
    if a == [] {
      assert a + b == b;
    } else {
      TotalConcat(c, a[1..], b);
      assert (a + b)[1..] == a[1..] + b;
    }
  }

  lemma {:induction false} KeysWithout<K, V>(e: seq<Entry<K, V>>, gone: set<K>)
    ensures Keys(Without(e, gone)) == Drop(Keys(e), gone)
  {
    if e != [] {
      KeysWithout(e[1..], gone);
      KeysTail(e);
      if e[0].key !in gone {
        KeysConcat([e[0]], Without(e[1..], gone));
      }
    }
  }

  lemma {:induction false} DropConcat<K>(a: seq<K>, b: seq<K>, gone: set<K>)
    ensures Drop(a + b, gone) == Drop(a, gone) + Drop(b, gone)
  {
    if a == [] {
      assert a + b == b;
    } else {
      var first, rest := a[0], a[1..];
      assert a + b == [first] + (rest + b) && a == [first] + rest;
      DropConcat(rest, b, gone);
      DropCons(first, rest, gone);
      DropCons(first, rest + b, gone);
      ConcatAssociative([first], Drop(rest, gone), Drop(b, gone));
    }
  }

  lemma DropCons<K>(first: K, rest: seq<K>, gone: set<K>)
    ensures Drop([first] + rest, gone) == if first in gone then Drop(rest, gone) else [first] + Drop(rest, gone)
  {
    assert ([first] + rest)[1..] == rest;
  }

  /** Dropping keeps exactly the other keys, and keeps them distinct. */
  lemma {:induction false} DropKeeps<K>(keys: seq<K>, gone: set<K>)
    ensures forall k :: k in Drop(keys, gone) <==> k in keys && k !in gone
    ensures Distinct(keys) ==> Distinct(Drop(keys, gone))
    ensures (forall k | k in keys :: k !in gone) ==> Drop(keys, gone) == keys
  {
    if keys != [] {
      DropKeeps(keys[1..], gone);
      assert keys == [keys[0]] + keys[1..];
    }
  }

  lemma {:induction false} TotalWithout<K, V>(c: Config<V>, e: seq<Entry<K, V>>, gone: set<K>)
    ensures Total(c, Without(e, gone)) <= Total(c, e)
  {
    if e != [] {
      TotalWithout(c, e[1..], gone);
    }
  }

  /** A key is found exactly when it is present, and its entry is the one found. */
  lemma {:induction false} FindEntry<K, V>(e: seq<Entry<K, V>>, key: K)
    ensures Find(e, key).Some? <==> key in Keys(e)
    ensures Find(e, key).Some? ==> Entry(key, Find(e, key).value) in e
  {
    if e != [] {
      KeysTail(e);
      FindEntry(e[1..], key);
    }
  }

  lemma {:induction false} FindWithout<K, V>(e: seq<Entry<K, V>>, gone: set<K>, key: K)
    ensures Find(Without(e, gone), key) == if key in gone then None else Find(e, key)
  {
    if e != [] {
      FindWithout(e[1..], gone, key);
    }
  }

  lemma {:induction false} FindConcat<K, V>(a: seq<Entry<K, V>>, b: seq<Entry<K, V>>, key: K)
    ensures Find(a + b, key) == if Find(a, key).Some? then Find(a, key) else Find(b, key)
  {
    if a == [] {
      assert a + b == b;
    } else {
      FindConcat(a[1..], b, key);
      assert (a + b)[1..] == a[1..] + b;
    }
  }

  /** Removing one entry by its key takes exactly that entry's size away. */
  lemma {:induction false} TotalWithoutOne<K, V>(c: Config<V>, e: seq<Entry<K, V>>, key: K)
    requires Distinct(Keys(e)) && Find(e, key).Some?
    ensures Total(c, Without(e, {key})) + c.size(Find(e, key).value) == Total(c, e)
    ensures |Without(e, {key})| == |e| - 1
  {
    KeysTail(e);
    DistinctTail(Keys(e));
    if e[0].key == key {
      WithoutAbsent(e[1..], {key});
    } else {
      TotalWithoutOne(c, e[1..], key);
    }
  }

  lemma {:induction false} WithoutAbsent<K, V>(e: seq<Entry<K, V>>, gone: set<K>)
    requires forall k | k in Keys(e) :: k !in gone
    ensures Without(e, gone) == e
  {
    if e != [] {
      KeysTail(e);
      WithoutAbsent(e[1..], gone);
      assert e == [e[0]] + e[1..];
    }
  }

  /** What is evicted is the shortest prefix of the oldest entries that makes room. */
  lemma {:induction false} EvictsShortestPrefix<K, V>(c: Config<V>, e: seq<Entry<K, V>>, size: nat) returns (n: nat)
    requires c.Valid() && size <= c.limit
    ensures n <= |e| && Evict(c, e, size) == e[n..]
    ensures Room(c, e[n..], size)
    ensures forall m | 0 <= m < n :: !Room(c, e[m..], size)
  {
    if e == [] || Room(c, e, size) {
      n := 0;
      assert e[0..] == e;
    } else {
      var k := EvictsShortestPrefix(c, e[1..], size);
      n := k + 1;
      assert e[n..] == e[1..][k..];
      forall m | 0 <= m < n
        ensures !Room(c, e[m..], size)
      {
        assert e[m..] == if m == 0 then e else e[1..][m - 1..];
      }
    }
  }

  lemma SuffixDistinct<K, V>(e: seq<Entry<K, V>>, n: nat)
    requires n <= |e| && Distinct(Keys(e))
    ensures Distinct(Keys(e[n..])) && forall k | k in Keys(e[n..]) :: k in Keys(e)
  {
    assert Keys(e[n..]) == Keys(e)[n..];
  }

  lemma {:induction false} InsertedBounded<K, V>(c: Config<V>, e: seq<Entry<K, V>>, key: K, value: V)
    requires c.Valid() && Bounded(c, e)
    ensures Bounded(c, Inserted(c, e, key, value))
  {
    if c.size(value) <= c.limit {
      var rest := Without(e, {key});
      var n := EvictsShortestPrefix(c, rest, c.size(value));
      KeysWithout(e, {key});
      DropKeeps(Keys(e), {key});
      SuffixDistinct(rest, n);
      KeysConcat(rest[n..], [Entry(key, value)]);
      TotalConcat(c, rest[n..], [Entry(key, value)]);
    }
  }

  lemma {:induction false} TouchedBounded<K, V>(c: Config<V>, e: seq<Entry<K, V>>, key: K)
    requires Bounded(c, e)
    ensures Bounded(c, Touched(e, key)) && Total(c, Touched(e, key)) == Total(c, e)
  {
    var found := Find(e, key);
    if found.Some? {
      TotalWithoutOne(c, e, key);
      KeysWithout(e, {key});
      DropKeeps(Keys(e), {key});
      KeysConcat(Without(e, {key}), [Entry(key, found.value)]);
      TotalConcat(c, Without(e, {key}), [Entry(key, found.value)]);
    }
  }

  lemma {:induction false} WithoutBounded<K, V>(c: Config<V>, e: seq<Entry<K, V>>, gone: set<K>)
    requires Bounded(c, e)
    ensures Bounded(c, Without(e, gone))
  {
    KeysWithout(e, gone);
    DropKeeps(Keys(e), gone);
    TotalWithout(c, e, gone);
  }

  /**
   * A value is found after its insertion exactly when it is not oversized, or was there already: an oversized value
   * is dropped without touching what the cache holds under its key.
   */
  lemma {:induction false} InsertedIsFound<K, V>(c: Config<V>, e: seq<Entry<K, V>>, key: K, value: V)
    requires c.Valid()
    ensures Find(Inserted(c, e, key, value), key) == Some(value)
       <==> c.size(value) <= c.limit || Find(e, key) == Some(value)
  {
    if c.size(value) <= c.limit {
      FittingIsFound(c, e, key, value);
    }
  }

  lemma {:induction false} FittingIsFound<K, V>(c: Config<V>, e: seq<Entry<K, V>>, key: K, value: V)
    requires c.Valid() && c.size(value) <= c.limit
    ensures Find(Inserted(c, e, key, value), key) == Some(value)
  {
    var n := EvictsShortestPrefix(c, Without(e, {key}), c.size(value));
    AbsentBehind(e, key, n);
    FindLast(Without(e, {key})[n..], key, value);
  }

  lemma {:induction false} FindLast<K, V>(e: seq<Entry<K, V>>, key: K, value: V)
    requires Find(e, key) == None
    ensures Find(e + [Entry(key, value)], key) == Some(value)
  {
    FindConcat(e, [Entry(key, value)], key);
  }

  lemma {:induction false} AbsentBehind<K, V>(e: seq<Entry<K, V>>, key: K, n: nat)
    requires n <= |Without(e, {key})|
    ensures Find(Without(e, {key})[n..], key) == None
  {
    var rest := Without(e, {key});
    FindWithout(e, {key}, key);
    FindConcat(rest[..n], rest[n..], key);
    assert rest == rest[..n] + rest[n..];
  }

  lemma {:induction false} NotInBoth<K, V>(a: seq<Entry<K, V>>, b: seq<Entry<K, V>>, key: K)
    requires Distinct(Keys(a + b))
    ensures Find(a, key).None? || Find(b, key).None?
  {
    KeysConcat(a, b);
    FindEntry(a, key);
    FindEntry(b, key);
    Apart(Keys(a), Keys(b));
  }

  lemma Apart<K>(a: seq<K>, b: seq<K>)
    requires Distinct(a + b)
    ensures forall k | k in a :: k !in b
  {
    forall i, j | 0 <= i < |a| && 0 <= j < |b|
      ensures a[i] != b[j]
    {
      assert (a + b)[i] != (a + b)[|a| + j];
    }
  }

  /** Dropping the first entries keeps a key's value or loses it. */
  lemma {:induction false} KeptOrGone<K, V>(e: seq<Entry<K, V>>, n: nat, key: K)
    requires n <= |e| && Distinct(Keys(e))
    ensures Find(e[n..], key) == Find(e, key) || Find(e[n..], key) == None
  {
    var front, back := e[..n], e[n..];
    assert e == front + back;
    FindConcat(front, back, key);
    NotInBoth(front, back, key);
  }

  /** No insertion changes what is found under another key, except that it may be evicted. */
  lemma {:induction false} OthersKeepTheirValue<K, V>(c: Config<V>, e: seq<Entry<K, V>>, key: K, value: V, other: K)
    requires c.Valid() && Bounded(c, e) && other != key
    ensures var found := Find(Inserted(c, e, key, value), other); found == Find(e, other) || found == None
  {
    if c.size(value) <= c.limit {
      var rest := Without(e, {key});
      var n := EvictsShortestPrefix(c, rest, c.size(value));
      FindWithout(e, {key}, other);
      FindConcat(rest[n..], [Entry(key, value)], other);
      KeysWithout(e, {key});
      DropKeeps(Keys(e), {key});
      KeptOrGone(rest, n, other);
    }
  }

  // ---- runs ----

  datatype Op<K, V> = Get(key: K) | Insert(key: K, value: V) | Remove(gone: set<K>) | Clear

  function Apply<K(==), V>(c: Config<V>, e: seq<Entry<K, V>>, op: Op<K, V>): seq<Entry<K, V>> {
    match op
    case Get(key) => Touched(e, key)
    case Insert(key, value) => Inserted(c, e, key, value)
    case Remove(gone) => Without(e, gone)
    case Clear => []
  }

  function Run<K(==), V>(c: Config<V>, ops: seq<Op<K, V>>): seq<Entry<K, V>> {
    if ops == [] then [] else Apply(c, Run(c, ops[..|ops| - 1]), ops[|ops| - 1])
  }

  /** The value of the last insertion that fitted, unless the key was removed since. */
  function Latest<K(==), V>(c: Config<V>, ops: seq<Op<K, V>>, key: K): Option<V> {
    if ops == [] then None
    else
      var before := Latest(c, ops[..|ops| - 1], key);
      match ops[|ops| - 1]
      case Get(_) => before
      case Insert(k, value) => if k == key && c.size(value) <= c.limit then Some(value) else before
      case Remove(gone) => if key in gone then None else before
      case Clear => None
  }

  /** Keys in the order of their last use, however long ago: a use is a hit or an insertion that fitted. */
  function Recency<K(==), V>(c: Config<V>, ops: seq<Op<K, V>>): seq<K> {
    if ops == [] then []
    else
      var before := Recency(c, ops[..|ops| - 1]);
      match ops[|ops| - 1]
      case Get(key) => if Find(Run(c, ops[..|ops| - 1]), key).Some? then Drop(before, {key}) + [key] else before
      case Insert(key, value) => if c.size(value) <= c.limit then Drop(before, {key}) + [key] else before
      case Remove(gone) => Drop(before, gone)
      case Clear => []
  }

  lemma {:induction false} RunBounded<K, V>(c: Config<V>, ops: seq<Op<K, V>>)
    requires c.Valid()
    ensures Bounded(c, Run(c, ops))
  {
    if ops != [] {
      var e := Run(c, ops[..|ops| - 1]);
      RunBounded(c, ops[..|ops| - 1]);
      match ops[|ops| - 1]
      case Get(key) => TouchedBounded(c, e, key);
      case Insert(key, value) => InsertedBounded(c, e, key, value);
      case Remove(gone) => WithoutBounded(c, e, gone);
      case Clear =>
    }
  }

  /** Whatever the cache was put through, a hit yields the value inserted last. */
  lemma {:induction false} HitIsLatest<K, V>(c: Config<V>, ops: seq<Op<K, V>>, key: K)
    requires c.Valid()
    ensures Find(Run(c, ops), key) == Latest(c, ops, key) || Find(Run(c, ops), key) == None
  {
    if ops != [] {
      var before := ops[..|ops| - 1];
      var e := Run(c, before);
      HitIsLatest(c, before, key);
      RunBounded(c, before);
      match ops[|ops| - 1]
      case Get(k) =>
        if Find(e, k).Some? {
          FindWithout(e, {k}, key);
          FindConcat(Without(e, {k}), [Entry(k, Find(e, k).value)], key);
        }
      case Insert(k, value) =>
        if k == key {
          InsertedIsFound(c, e, key, value);
        } else {
          OthersKeepTheirValue(c, e, k, value, key);
        }
      case Remove(gone) => FindWithout(e, gone, key);
      case Clear =>
    }
  }

  /** The cache always holds the keys used most recently, in the order of their use. */
  lemma {:induction false} HoldsMostRecent<K, V>(c: Config<V>, ops: seq<Op<K, V>>) returns (forgotten: seq<K>)
    requires c.Valid()
    ensures Recency(c, ops) == forgotten + Keys(Run(c, ops))
  {
    forgotten := [];
    if ops != [] {
      var before := ops[..|ops| - 1];
      var e := Run(c, before);
      var f := HoldsMostRecent(c, before);
      match ops[|ops| - 1]
      case Get(k) =>
        if Find(e, k).Some? {
          forgotten := UseAtTheEnd(f, e, k, Find(e, k).value, 0);
          assert Without(e, {k})[0..] == Without(e, {k});
        } else {
          forgotten := f;
        }
      case Insert(k, value) =>
        if c.size(value) <= c.limit {
          var n := EvictsShortestPrefix(c, Without(e, {k}), c.size(value));
          forgotten := UseAtTheEnd(f, e, k, value, n);
        } else {
          forgotten := f;
        }
      case Remove(gone) =>
        forgotten := Drop(f, gone);
        DropConcat(f, Keys(e), gone);
        KeysWithout(e, gone);
      case Clear =>
    }
  }

  lemma {:induction false} UseAtTheEnd<K, V>(f: seq<K>, e: seq<Entry<K, V>>, key: K, value: V, n: nat)
    returns (forgotten: seq<K>)
    requires n <= |Without(e, {key})|
    ensures Drop(f + Keys(e), {key}) + [key] == forgotten + Keys(Without(e, {key})[n..] + [Entry(key, value)])
  {
    var rest := Without(e, {key});
    forgotten := Drop(f, {key}) + Keys(rest[..n]);
    DropConcat(f, Keys(e), {key});
    KeysWithout(e, {key});
    assert rest == rest[..n] + rest[n..];
    KeysConcat(rest[..n], rest[n..]);
    KeysConcat(rest[n..], [Entry(key, value)]);
  }

  // ---- the cache object ----

  /** The entries of an order and a table. */
  ghost function View<K, V>(order: seq<K>, items: map<K, V>): (r: seq<Entry<K, V>>)
    requires forall k | k in order :: k in items
    ensures |r| == |order| && Keys(r) == order
  {
    if order == [] then []
    else
      var r := [Entry(order[0], items[order[0]])] + View(order[1..], items);
      assert r[1..] == View(order[1..], items);
      r
  }

  lemma {:induction false} ViewFrame<K, V>(order: seq<K>, items: map<K, V>, others: map<K, V>)
    requires forall k | k in order :: k in items && k in others && items[k] == others[k]
    ensures View(order, items) == View(order, others)
  {
    if order != [] {
      ViewFrame(order[1..], items, others);
    }
  }

  lemma {:induction false} ViewDrop<K, V>(order: seq<K>, items: map<K, V>, gone: set<K>)
    requires forall k | k in order :: k in items
    ensures forall k | k in Drop(order, gone) :: k in items - gone
    ensures View(Drop(order, gone), items - gone) == Without(View(order, items), gone)
  {
    DropKeeps(order, gone);
    if order != [] {
      assert View(order, items)[1..] == View(order[1..], items);
      ViewDrop(order[1..], items, gone);
      DropKeeps(order[1..], gone);
    }
  }

  lemma {:induction false} ViewFind<K, V>(order: seq<K>, items: map<K, V>, key: K)
    requires forall k | k in order :: k in items
    ensures Find(View(order, items), key) == if key in order then Some(items[key]) else None
  {
    if order != [] {
      assert View(order, items)[1..] == View(order[1..], items);
      ViewFind(order[1..], items, key);
    }
  }

  lemma {:induction false} ViewPush<K, V>(order: seq<K>, items: map<K, V>, key: K, value: V)
    requires key !in order && forall k | k in order :: k in items
    ensures View(order + [key], items[key := value]) == View(order, items) + [Entry(key, value)]
  {
    if order == [] {
      assert order + [key] == [key];
    } else {
      ViewPush(order[1..], items, key, value);
      assert (order + [key])[1..] == order[1..] + [key];
    }
  }

  /** The order lists exactly the keys of the table, each once. */
  ghost predicate Matches<K, V>(order: seq<K>, items: map<K, V>) {
    && Distinct(order)
    && (forall k | k in order :: k in items)
    && (forall k | k in items :: k in order)
  }

  lemma {:induction false} MatchesDrop<K, V>(order: seq<K>, items: map<K, V>, gone: set<K>)
    requires Matches(order, items)
    ensures Matches(Drop(order, gone), items - gone)
    ensures View(Drop(order, gone), items - gone) == Without(View(order, items), gone)
  {
    DropKeeps(order, gone);
    ViewDrop(order, items, gone);
  }

  lemma {:induction false} MatchesPush<K, V>(order: seq<K>, items: map<K, V>, key: K, value: V)
    requires Matches(order, items) && key !in items
    ensures Matches(order + [key], items[key := value])
    ensures View(order + [key], items[key := value]) == View(order, items) + [Entry(key, value)]
  {
    ViewPush(order, items, key, value);
  }

  lemma DistinctTail<K>(keys: seq<K>)
    requires keys != [] && Distinct(keys)
    ensures Distinct(keys[1..]) && forall k :: k in keys[1..] <==> k in keys && k != keys[0]
  {
    assert keys == [keys[0]] + keys[1..];
    assert forall i | 0 < i < |keys| :: keys[i] in keys[1..] && keys[i] != keys[0];
  }

  lemma {:induction false} MatchesPop<K, V>(order: seq<K>, items: map<K, V>)
    requires Matches(order, items) && order != []
    ensures Matches(order[1..], items - {order[0]})
    ensures View(order[1..], items - {order[0]}) == View(order, items)[1..]
  {
    DistinctTail(order);
    ViewFrame(order[1..], items, items - {order[0]});
  }

  lemma PutBack<K, V>(items: map<K, V>, key: K)
    requires key in items
    ensures (items - {key})[key := items[key]] == items
  {
  }

  lemma {:induction false} MatchesTouch<K, V>(order: seq<K>, items: map<K, V>, key: K)
    requires Matches(order, items) && key in items
    ensures Matches(Drop(order, {key}) + [key], items)
    ensures View(Drop(order, {key}) + [key], items) == Touched(View(order, items), key)
  {
    MatchesDrop(order, items, {key});
    MatchesPush(Drop(order, {key}), items - {key}, key, items[key]);
    PutBack(items, key);
    ViewFind(order, items, key);
  }

  /** The table has as many values as the order has keys. */
  lemma {:induction false} MatchesCount<K, V>(order: seq<K>, items: map<K, V>)
    requires Matches(order, items)
    ensures |items| == |order|
  {
    if order == [] {
      assert items.Keys == {};
    } else {
      MatchesPop(order, items);
      MatchesCount(order[1..], items - {order[0]});
      CountWithout(items, order[0]);
    }
  }

  lemma CountWithout<K, V>(items: map<K, V>, key: K)
    requires key in items
    ensures |items| == |items - {key}| + 1
  {
    assert items.Keys == (items - {key}).Keys + {key};
  }

  lemma {:induction false} TailBounded<K, V>(c: Config<V>, e: seq<Entry<K, V>>)
    requires Bounded(c, e) && e != []
    ensures Bounded(c, e[1..]) && Total(c, e[1..]) == Total(c, e) - c.size(e[0].value)
  {
    KeysTail(e);
  }

  class Cache<K(==), !V> {
    const config: Config<V>
    var items: map<K, V>
    var order: seq<K>
    var bytes: nat

    ghost predicate Valid()
      reads this
    {
      && config.Valid()
      && Matches(order, items)
      && Bounded(config, Entries())
      && bytes == Total(config, Entries())
    }

    ghost function Entries(): seq<Entry<K, V>>
      reads this
      requires Matches(order, items)
    {
      View(order, items)
    }

    constructor (config: Config<V>)
      requires config.Valid()
      ensures Valid() && Entries() == [] && this.config == config
    {
      this.config := config;
      items, order, bytes := map[], [], 0;
    }

    method Get(key: K) returns (r: Option<V>)
      requires Valid()
      modifies this`order
      ensures Valid()
      ensures r == Find(old(Entries()), key)
      ensures Entries() == Touched(old(Entries()), key)
    {
      ViewFind(order, items, key);
      TouchedBounded(config, Entries(), key);
      if key !in items {
        return None;
      }
      r := Some(items[key]);
      MatchesTouch(order, items, key);
      order := Drop(order, {key}) + [key];
    }

    method Insert(key: K, value: V)
      requires Valid()
      modifies this`items, this`order, this`bytes
      ensures Valid()
      ensures Entries() == Inserted(config, old(Entries()), key, value)
    {
      var size := config.size(value);
      if size > config.limit {
        return;
      }
      Forget(key);
      MakeRoom(size);
      MatchesPush(order, items, key, value);
      TotalConcat(config, Entries(), [Entry(key, value)]);
      bytes := SaturatingAdd(bytes, size);
      order := order + [key];
      items := items[key := value];
    }

    /** Evicts in the order of the last use; with nothing left there is room for every value within the limit. */
    method MakeRoom(size: nat)
      requires Valid() && size <= config.limit
      modifies this`items, this`order, this`bytes
      ensures Valid() && items.Keys <= old(items.Keys)
      ensures Entries() == Evict(config, old(Entries()), size) && Room(config, Entries(), size)
    {
      MatchesCount(order, items);
      while |items| >= config.maxItems || SaturatingAdd(bytes, size) > config.limit
        invariant Valid() && items.Keys <= old(items.Keys) && |items| == |order|
        invariant Evict(config, Entries(), size) == Evict(config, old(Entries()), size)
        decreases |order|
      {
        EvictOldest();
        MatchesCount(order, items);
      }
    }

    method Forget(key: K)
      requires Valid()
      modifies this`items, this`order, this`bytes
      ensures Valid() && items == old(items) - {key}
      ensures Entries() == Without(old(Entries()), {key})
    {
      ViewFind(order, items, key);
      if key in items {
        MatchesDrop(order, items, {key});
        WithoutBounded(config, Entries(), {key});
        TotalWithoutOne(config, Entries(), key);
        bytes := SaturatingSub(bytes, config.size(items[key]));
        items := items - {key};
        order := Drop(order, {key});
      } else {
        WithoutAbsent(Entries(), {key});
      }
    }

    method EvictOldest()
      requires Valid() && order != []
      modifies this`items, this`order, this`bytes
      ensures Valid() && Entries() == old(Entries())[1..] && |order| < |old(order)|
      ensures items == old(items) - {old(order)[0]}
    {
      var oldest := order[0];
      MatchesPop(order, items);
      TailBounded(config, Entries());
      order := order[1..];
      bytes := SaturatingSub(bytes, config.size(items[oldest]));
      items := items - {oldest};
    }

    method Clear()
      requires Valid()
      modifies this`items, this`order, this`bytes
      ensures Valid() && Entries() == []
    {
      items, order, bytes := map[], [], 0;
    }

    /** Forgets every key that `selects` picks, in any order, and keeps all others as they are. */
    method ClearWhere(selects: K -> bool)
      requires Valid()
      modifies this`items, this`order, this`bytes
      ensures Valid()
      ensures Entries() == Without(old(Entries()), set k | k in old(items) && selects(k))
      ensures items == map k | k in old(items) && !selects(k) :: old(items)[k]
    {
      var picked := set k | k in items && selects(k);
      ForgetAll(picked);
    }

    method ForgetAll(picked: set<K>)
      requires Valid()
      modifies this`items, this`order, this`bytes
      ensures Valid() && items == old(items) - picked
      ensures Entries() == Without(old(Entries()), picked)
    {
      var left := picked;
      ghost var gone: set<K> := {};
      ghost var was := Entries();
      WithoutAbsent(was, {});
      while left != {}
        invariant Valid() && gone + left == picked
        invariant Entries() == Without(was, gone)
        invariant items == old(items) - gone
        decreases left
      {
        var key :| key in left;
        WithoutTwice(was, gone, {key});
        Forget(key);
        left := left - {key};
        gone := gone + {key};
      }
      assert gone == picked;
    }
  }

  lemma {:induction false} WithoutTwice<K, V>(e: seq<Entry<K, V>>, a: set<K>, b: set<K>)
    ensures Without(Without(e, a), b) == Without(e, a + b)
  {
    if e != [] {
      WithoutTwice(e[1..], a, b);
    }
  }
}
