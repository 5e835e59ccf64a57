/**
  The storage engine: the insertion-ordered dictionary `storage` and the
  counter `currentValueBytes`, bounded by MAX_VALUE_BYTES. The value `Cache`
  and the functions over it are the specification; the class `Store` is the
  mutable object the request handler updates in place.
 */
module Storage {
  import opened Wrappers

  /** MAX_VALUE_BYTES: the budget for the total length of the stored values. */
  const MaxValueBytes: int := 1000000 * 128

  /**
    The store as a value: its keys in insertion order (the order an
    OrderedDictionary enumerates), the key-to-value map and the counter.
   */
  datatype Cache = Cache(order: seq<string>, values: map<string, string>, used: int)

  /** The store at process start. */
  const Empty: Cache := Cache([], map[], 0)

  function LengthOf(values: map<string, string>, key: string): nat {
    if key in values then |values[key]| else 0
  }

  /** The total length of the values stored under `keys`. */
  function SumLengths(keys: seq<string>, values: map<string, string>): nat {
    if keys == [] then 0 else LengthOf(values, keys[0]) + SumLengths(keys[1..], values)
  }

  predicate Distinct(keys: seq<string>) {
    forall i, j :: 0 <= i < j < |keys| ==> keys[i] != keys[j]
  }

  /**
    The store's invariant: each key appears once in the order, the order and
    the map hold the same keys, and the counter is the sum of the lengths.
   */
  ghost predicate Consistent(c: Cache) {
    && Distinct(c.order)
    && (forall k :: k in c.values <==> k in c.order)
    && c.used == SumLengths(c.order, c.values)
  }

  predicate WithinCapacity(c: Cache) {
    c.used <= MaxValueBytes
  }

  /** The value stored under `key`, if any (Program.cs:154-158). */
  function Find(c: Cache, key: string): Option<string> {
    if key in c.values then Some(c.values[key]) else None
  }

  /** One pass of the eviction loop: the first key in insertion order goes, and its length is subtracted. */
  function DropOldest(c: Cache): Cache
    requires |c.order| > 0
  {
    var oldest := c.order[0];
    Cache(c.order[1..], c.values - {oldest}, c.used - LengthOf(c.values, oldest))
  }

  /**
    The store once the eviction loop is done: oldest keys are dropped while
    the counter plus `size` exceeds the budget. What survives is a suffix of
    the old insertion order, and nothing goes when the budget already holds.
   */
  function Evicted(c: Cache, size: int): (r: Cache)
    ensures |r.order| <= |c.order|
    ensures c.used + size <= MaxValueBytes ==> r == c
    decreases |c.order|
  {
    if c.used + size > MaxValueBytes && |c.order| > 0 then Evicted(DropOldest(c), size) else c
  }

  /**
    The commit of a completed payload. A fresh key goes to the end of the
    insertion order; a present key keeps its place and its value is replaced.
    The counter gains the new length and, for a present key, loses the old
    one. Program.cs:245 does not subtract the old length; that version is
    CommittedAsWritten below.
   */
  function Committed(c: Cache, key: string, value: string): Cache {
    if key in c.values then Cache(c.order, c.values[key := value], c.used - |c.values[key]| + |value|)
    else Cache(c.order + [key], c.values[key := value], c.used + |value|)
  }

  /** The commit exactly as Program.cs:244-245 writes it: the counter always gains the full new length. */
  function CommittedAsWritten(c: Cache, key: string, value: string): Cache {
    Cache(if key in c.values then c.order else c.order + [key], c.values[key := value], c.used + |value|)
  }

  lemma {:induction false} SumLengthsIgnores(keys: seq<string>, values: map<string, string>, k: string, v: string)
    requires k !in keys
    ensures SumLengths(keys, values[k := v]) == SumLengths(keys, values)
    ensures SumLengths(keys, values - {k}) == SumLengths(keys, values)
  {
    if keys != [] {
      SumLengthsIgnores(keys[1..], values, k, v);
    }
  }

  lemma {:induction false} SumLengthsAppend(keys: seq<string>, values: map<string, string>, k: string)
    ensures SumLengths(keys + [k], values) == SumLengths(keys, values) + LengthOf(values, k)
  {
    if keys == [] {
      assert [] + [k] == [k];
    } else {
      assert (keys + [k])[1..] == keys[1..] + [k];
      SumLengthsAppend(keys[1..], values, k);
    }
  }

  lemma {:induction false} SumLengthsReplace(keys: seq<string>, values: map<string, string>, k: string, v: string)
    requires Distinct(keys) && k in keys
    ensures SumLengths(keys, values[k := v]) == SumLengths(keys, values) - LengthOf(values, k) + |v|
  {
    if keys[0] == k {
      assert k !in keys[1..];
      SumLengthsIgnores(keys[1..], values, k, v);
    } else {
      SumLengthsReplace(keys[1..], values, k, v);
    }
  }

  /** The total over a prefix and the total over the rest add up. */
  lemma {:induction false} SumLengthsSplit(keys: seq<string>, values: map<string, string>, n: nat)
    requires n <= |keys|
    ensures SumLengths(keys, values) == SumLengths(keys[..n], values) + SumLengths(keys[n..], values)
  {
    if n > 0 {
      assert keys[..n][1..] == keys[1..][..n - 1];
      assert keys[n..] == keys[1..][n - 1..];
      SumLengthsSplit(keys[1..], values, n - 1);
    }
  }

  /** The counter never falls below the length of any one stored value. */
  lemma {:induction false} SumLengthsCovers(keys: seq<string>, values: map<string, string>, k: string)
    requires k in keys
    ensures LengthOf(values, k) <= SumLengths(keys, values)
  {
    if keys[0] != k {
      SumLengthsCovers(keys[1..], values, k);
    }
  }

  lemma PrefixCons(s: seq<string>, n: nat)
    requires 1 <= n <= |s|
    ensures s[..n] == [s[0]] + s[1..][..n - 1]
  {
  }

  lemma DropOldestConsistent(c: Cache)
    requires Consistent(c) && |c.order| > 0
    ensures Consistent(DropOldest(c))
  {
    var oldest := c.order[0];
    assert oldest !in c.order[1..];
    SumLengthsIgnores(c.order[1..], c.values, oldest, []);
  }

  /** Eviction keeps the invariant. */
  lemma {:induction false} EvictedConsistent(c: Cache, size: int)
    requires Consistent(c)
    ensures Consistent(Evicted(c, size))
    decreases |c.order|
  {
    if c.used + size > MaxValueBytes && |c.order| > 0 {
      DropOldestConsistent(c);
      EvictedConsistent(DropOldest(c), size);
    }
  }

  /**
    The eviction loop ends with room for `size` (Program.cs:197): once every
    key is gone the counter is zero and a value within the budget fits.
   */
  lemma {:induction false} EvictedFits(c: Cache, size: int)
    requires Consistent(c) && size <= MaxValueBytes
    ensures Evicted(c, size).used + size <= MaxValueBytes
    decreases |c.order|
  {
    if c.used + size > MaxValueBytes && |c.order| > 0 {
      DropOldestConsistent(c);
      EvictedFits(DropOldest(c), size);
    }
  }

  /**
    What eviction removes: the first n keys of the insertion order, their
    entries and their lengths; every other entry is kept as it was.
   */
  lemma EvictedRemovesPrefix(c: Cache, size: int)
    requires Distinct(c.order)
    ensures var r := Evicted(c, size); RemovesPrefix(c, r, |c.order| - |r.order|)
  {
    var n := EvictedDropsFirst(c, size);
    DropFirstRemovesPrefix(c, n);
  }

  /** The first n keys dropped one by one, oldest first. */
  function DropFirst(c: Cache, n: nat): (r: Cache)
    requires n <= |c.order|
    ensures |r.order| == |c.order| - n
    decreases n
  {
    if n == 0 then c else DropFirst(DropOldest(c), n - 1)
  }

  /** Eviction drops some number of the oldest keys. */
  lemma {:induction false} EvictedDropsFirst(c: Cache, size: int) returns (n: nat)
    ensures n <= |c.order| && n == |c.order| - |Evicted(c, size).order|
    ensures Evicted(c, size) == DropFirst(c, n)
    decreases |c.order|
  {
    if c.used + size > MaxValueBytes && |c.order| > 0 {
      var m := EvictedDropsFirst(DropOldest(c), size);
      n := m + 1;
    } else {
      n := 0;
    }
  }

  lemma {:induction false} DropFirstRemovesPrefix(c: Cache, n: nat)
    requires Distinct(c.order) && n <= |c.order|
    ensures RemovesPrefix(c, DropFirst(c, n), n)
    decreases n
  {
    if n == 0 {
      RemovesNothing(c);
    } else {
      var d := DropOldest(c);
      DistinctTail(c.order);
      DropFirstRemovesPrefix(d, n - 1);
      RemovesOneMore(c, DropFirst(d, n - 1), n - 1);
    }
  }

  /** `r` is `c` without the entries and lengths of its first n keys. */
  ghost predicate RemovesPrefix(c: Cache, r: Cache, n: int)
    requires 0 <= n <= |c.order|
  {
    && r.order == c.order[n..]
    && (forall k :: k in r.values <==> k in c.values && k !in c.order[..n])
    && (forall k :: k in r.values ==> r.values[k] == c.values[k])
    && r.used == c.used - SumLengths(c.order[..n], c.values)
  }

  /** Removing n keys after the oldest is removing n + 1 keys. */
  lemma RemovesOneMore(c: Cache, r: Cache, n: int)
    requires Distinct(c.order) && 0 <= n < |c.order|
    requires RemovesPrefix(DropOldest(c), r, n)
    ensures RemovesPrefix(c, r, n + 1)
  {
    var d := DropOldest(c);
    var oldest := c.order[0];
    PrefixCons(c.order, n + 1);
    assert c.order[n + 1..] == d.order[n..];
    assert oldest !in d.order[..n];
    SumLengthsIgnores(d.order[..n], c.values, oldest, []);
  }

  lemma DistinctTail(keys: seq<string>)
    requires Distinct(keys) && |keys| > 0
    ensures Distinct(keys[1..])
  {
  }

  lemma RemovesNothing(c: Cache)
    ensures RemovesPrefix(c, c, 0)
  {
    assert c.order[..0] == [];
  }

  /**
    Eviction removes no more than it must: keeping the last key it removed
    would still leave too little room.
   */
  lemma {:induction false} EvictedIsMinimal(c: Cache, size: int)
    requires Consistent(c)
    ensures var n := |c.order| - |Evicted(c, size).order|;
      n > 0 ==> c.used - SumLengths(c.order[..n - 1], c.values) + size > MaxValueBytes
    decreases |c.order|
  {
    var r := Evicted(c, size);
    var n := |c.order| - |r.order|;
    if c.used + size > MaxValueBytes && |c.order| > 0 {
      var d := DropOldest(c);
      var oldest := c.order[0];
      DropOldestConsistent(c);
      EvictedIsMinimal(d, size);
      assert |d.order| - |r.order| == n - 1;
      if n > 1 {
        PrefixCons(c.order, n - 1);
        assert oldest !in d.order[..n - 2];
        SumLengthsIgnores(d.order[..n - 2], c.values, oldest, []);
      } else {
        assert c.order[..n - 1] == [];
      }
    }
  }

  /**
    The commit keeps the invariant, and the counter moves by the difference
    between the new and the replaced length. A replaced key keeps its place
    in the insertion order; a fresh key goes last.
   */
  lemma CommittedConsistent(c: Cache, key: string, value: string)
    requires Consistent(c)
    ensures Consistent(Committed(c, key, value))
    ensures Committed(c, key, value).used == c.used - LengthOf(c.values, key) + |value|
    ensures key in c.order ==> Committed(c, key, value).order == c.order
    ensures key !in c.order ==> Committed(c, key, value).order == c.order + [key]
  {
    if key in c.values {
      SumLengthsReplace(c.order, c.values, key, value);
    } else {
      SumLengthsIgnores(c.order, c.values, key, value);
      SumLengthsAppend(c.order, c.values[key := value], key);
    }
  }

  /** After the commit a lookup of the key gives the committed value. */
  lemma CommittedFinds(c: Cache, key: string, value: string)
    ensures Find(Committed(c, key, value), key) == Some(value)
    ensures forall k :: k != key ==> Find(Committed(c, key, value), k) == Find(c, k)
  {
  }

  /** For a key not yet present the commit as written and the corrected commit agree. */
  lemma AsWrittenAgreesOnFreshKeys(c: Cache, key: string, value: string)
    requires key !in c.values
    ensures CommittedAsWritten(c, key, value) == Committed(c, key, value)
  {
  }

  /**
    Re-setting a key with the commit as written breaks the invariant: on an
    empty store, committing v and then w (both non-empty) under the same key
    leaves a counter of |v| + |w| while only w is stored. When |v| + |w| fits
    the budget the evictions before the two commits remove nothing
    (NoEvictionBeforeDrift), so this is what `set k` with v, then `set k`
    with w, does.
   */
  lemma AsWrittenDrifts(k: string, v: string, w: string)
    requires 0 < |v| && 0 < |w|
    ensures var c := CommittedAsWritten(Empty, k, v);
      && Consistent(c)
      && !Consistent(CommittedAsWritten(c, k, w))
  {
    TwiceCommittedAsWritten(k, v, w);
    OneKeyConsistent(k, v);
    OneKeySum(k, w);
  }

  /** Neither eviction before the two commits of AsWrittenDrifts removes anything. */
  lemma NoEvictionBeforeDrift(k: string, v: string, w: string)
    requires |v| + |w| <= MaxValueBytes
    ensures Evicted(Empty, |v|) == Empty
    ensures Evicted(CommittedAsWritten(Empty, k, v), |w|) == CommittedAsWritten(Empty, k, v)
  {
    TwiceCommittedAsWritten(k, v, w);
  }

  /**
    With the commit as written the eviction loop can run out of keys while
    its condition still holds: after the two commits of AsWrittenDrifts, a `set` of the
    whole budget evicts k and is left with an empty store whose counter is
    |v|, so the `while` at Program.cs:197 never ends.
   */
  lemma AsWrittenEvictionNeverEnds(k: string, v: string, w: string)
    requires 0 < |v| && 0 < |w|
    ensures var r := Evicted(CommittedAsWritten(CommittedAsWritten(Empty, k, v), k, w), MaxValueBytes);
      r.order == [] && r.used + MaxValueBytes > MaxValueBytes
  {
    TwiceCommittedAsWritten(k, v, w);
    EvictionStuck(k, w, |v|);
  }

  /** The store after two commits as written of the same key. */
  lemma TwiceCommittedAsWritten(k: string, v: string, w: string)
    ensures CommittedAsWritten(Empty, k, v) == Cache([k], map[k := v], |v|)
    ensures CommittedAsWritten(CommittedAsWritten(Empty, k, v), k, w) == Cache([k], map[k := w], |v| + |w|)
  {
    assert [] + [k] == [k];
    assert map[k := v][k := w] == map[k := w];
  }

  /** Evicting from a one-key store whose counter overstates its value by n leaves an empty store that still counts n. */
  lemma EvictionStuck(k: string, w: string, n: int)
    requires n > 0
    ensures Evicted(Cache([k], map[k := w], n + |w|), MaxValueBytes) == Cache([], map[], n)
  {
    var c := Cache([k], map[k := w], n + |w|);
    var d := Cache([], map[], n);
    assert DropOldest(c) == d by {
      assert c.order[1..] == [];
      assert map[k := w] - {k} == map[];
    }
  }

  lemma OneKeySum(k: string, v: string)
    ensures SumLengths([k], map[k := v]) == |v|
  {
    assert [k][1..] == [];
  }

  lemma OneKeyConsistent(k: string, v: string)
    ensures Consistent(Cache([k], map[k := v], |v|))
  {
    OneKeySum(k, v);
  }

  /** The mutable store: `storage`, its key order and `currentValueBytes` (Program.cs:34-39). */
  class Store {
    var order: seq<string>
    var storage: map<string, string>
    var currentValueBytes: int

    function Snapshot(): Cache
      reads this
    {
      Cache(order, storage, currentValueBytes)
    }

    ghost predicate Valid()
      reads this
    {
      Consistent(Snapshot())
    }

    constructor ()
      ensures Valid() && Snapshot() == Empty
    {
      order := [];
      storage := map[];
      currentValueBytes := 0;
    }

    /** storage.Contains(key) and storage[key] (Program.cs:154-158). */
    method Lookup(key: string) returns (r: Option<string>)
      requires Valid()
      ensures r.Some? <==> key in order
      ensures r.Some? ==> key in storage && r.value == storage[key]
      ensures r == Find(Snapshot(), key)
    {
      if key in storage {
        r := Some(storage[key]);
      } else {
        r := None;
      }
    }

    /**
      The eviction loop (Program.cs:197-205): while the counter plus `size`
      exceeds the budget, remove the first key in insertion order and
      subtract its length. The caller has checked `size` against the budget.
     */
    method Evict(size: int)
      requires Valid() && size <= MaxValueBytes
      modifies this
      ensures Valid()
      ensures Snapshot() == Evicted(old(Snapshot()), size)
      ensures currentValueBytes + size <= MaxValueBytes
    {
      while currentValueBytes + size > MaxValueBytes
        invariant Valid()
        invariant Evicted(Snapshot(), size) == Evicted(old(Snapshot()), size)
        decreases |order|
      {
        var oldest := order[0];
        DropOldestConsistent(Snapshot());
        currentValueBytes := currentValueBytes - |storage[oldest]|;
        storage := storage - {oldest};
        order := order[1..];
      }
      EvictedFits(old(Snapshot()), size);
    }

    /**
      storage[key] = value and the counter update (Program.cs:244-245). The
      counter loses the replaced value's length, unlike line 245.
     */
    method Commit(key: string, value: string)
      requires Valid()
      modifies this
      ensures Valid()
      ensures Snapshot() == Committed(old(Snapshot()), key, value)
    {
      CommittedConsistent(Snapshot(), key, value);
      if key in storage {
        currentValueBytes := currentValueBytes - |storage[key]| + |value|;
      } else {
        order := order + [key];
        currentValueBytes := currentValueBytes + |value|;
      }
      storage := storage[key := value];
    }
  }
}
