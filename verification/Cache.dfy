/** The bounded, aging cache, against the plain map of what was added to it. */
module Caches {
  import opened Options
  import opened Bytes

  const RANGE32 := 0x1_0000_0000
  const RANGE64 := 0x1_0000_0000_0000_0000

  datatype Entry<V> = Entry(value: V, access: int)

  datatype Added<V> = Added(value: V, at: int)

  datatype Status = Success | NotFound

  /** Additional sizes of all entries of a map. */
  ghost function Total<K, V>(m: map<K, Entry<V>>, keySize: K -> nat, valueSize: V -> nat): nat
    decreases |m|
  {
    if m == map[] then 0
    else
      var k :| k in m;
      assert |m - {k}| < |m| by { Smaller(m, k); }
      keySize(k) + valueSize(m[k].value) + Total(m - {k}, keySize, valueSize)
  }

  lemma Smaller<K, V>(m: map<K, V>, k: K)
    requires k in m
    ensures |m - {k}| == |m| - 1
  {
    assert m.Keys == (m - {k}).Keys + {k};
    assert |m.Keys| == |m| && |(m - {k}).Keys| == |m - {k}|;
  }

  /** Any entry can be counted first. */
  lemma {:induction false} TotalWithout<K, V>(m: map<K, Entry<V>>, k: K, keySize: K -> nat, valueSize: V -> nat)
    requires k in m
    ensures Total(m, keySize, valueSize) == keySize(k) + valueSize(m[k].value) + Total(m - {k}, keySize, valueSize)
    decreases |m|
  {
    var first :| first in m && Total(m, keySize, valueSize) ==
      keySize(first) + valueSize(m[first].value) + Total(m - {first}, keySize, valueSize);
    if first != k {
      Smaller(m, first);
      Smaller(m, k);
      TotalWithout(m - {first}, k, keySize, valueSize);
      TotalWithout(m - {k}, first, keySize, valueSize);
      assert m - {first} - {k} == m - {k} - {first};
    }
  }

  lemma TotalWith<K, V>(m: map<K, Entry<V>>, k: K, e: Entry<V>, keySize: K -> nat, valueSize: V -> nat)
    ensures Total(m[k := e], keySize, valueSize) == keySize(k) + valueSize(e.value) + Total(m - {k}, keySize, valueSize)
  {
    TotalWithout(m[k := e], k, keySize, valueSize);
    assert m[k := e] - {k} == m - {k};
  }

  /** Entries with other access times are as large. */
  lemma {:induction false} TotalOfValues<K, V>(
    m: map<K, Entry<V>>, n: map<K, Entry<V>>, keySize: K -> nat, valueSize: V -> nat)
    requires m.Keys == n.Keys && forall k :: k in m ==> m[k].value == n[k].value
    ensures Total(m, keySize, valueSize) == Total(n, keySize, valueSize)
    decreases |m|
  {
    if k :| k in m {
      Smaller(m, k);
      TotalWithout(m, k, keySize, valueSize);
      TotalWithout(n, k, keySize, valueSize);
      TotalOfValues(m - {k}, n - {k}, keySize, valueSize);
    }
  }

  // ---------- oldest first ----------

  /** Keys of a map, each once, the longest not accessed first. */
  ghost predicate OldestFirst<K, V>(m: map<K, Entry<V>>, list: seq<K>) {
    && (forall i :: 0 <= i < |list| ==> list[i] in m)
    && (forall i, j :: 0 <= i < j < |list| ==> list[i] != list[j])
    && (forall i, j :: 0 <= i < j < |list| ==> Access(m, list[i]) <= Access(m, list[j]))
  }

  function Access<K, V>(m: map<K, Entry<V>>, k: K): int {
    if k in m then m[k].access else 0
  }

  /** Puts a key behind all that were not accessed later. */
  method InsertByAccess<K(==), V>(m: map<K, Entry<V>>, list: seq<K>, k: K) returns (r: seq<K>)
    requires OldestFirst(m, list) && k in m && k !in list
    ensures OldestFirst(m, r) && forall x :: x in r <==> x == k || x in list
  {
    var i := |list|;
    while i > 0 && Access(m, k) < Access(m, list[i - 1])
      invariant 0 <= i <= |list| && forall j :: i <= j < |list| ==> Access(m, k) < Access(m, list[j])
    {
      i := i - 1;
    }
    r := list[..i] + [k] + list[i..];
    Inserted(m, list, k, i);
    SplicedMembers(list, k, i);
  }

  lemma Spliced<K>(list: seq<K>, k: K, n: nat)
    requires n <= |list|
    ensures var r := list[..n] + [k] + list[n..];
      |r| == |list| + 1 &&
      forall j :: 0 <= j < |r| ==> r[j] == if j < n then list[j] else if j == n then k else list[j - 1]
  {
  }

  lemma SplicedMembers<K>(list: seq<K>, k: K, n: nat)
    requires n <= |list|
    ensures forall x :: x in list[..n] + [k] + list[n..] <==> x == k || x in list
  {
    assert list == list[..n] + list[n..];
  }

  lemma Inserted<K, V>(m: map<K, Entry<V>>, list: seq<K>, k: K, n: nat)
    requires OldestFirst(m, list) && k in m && k !in list && n <= |list|
    requires n > 0 ==> Access(m, list[n - 1]) <= Access(m, k)
    requires forall j :: n <= j < |list| ==> Access(m, k) < Access(m, list[j])
    ensures OldestFirst(m, list[..n] + [k] + list[n..])
  {
    var r := list[..n] + [k] + list[n..];
    Spliced(list, k, n);
    forall i, j | 0 <= i < j < |r| ensures r[i] != r[j] && Access(m, r[i]) <= Access(m, r[j]) {
      if j == n {
        assert i == n - 1 || Access(m, list[i]) <= Access(m, list[n - 1]);
      }
    }
  }

  /** The sorted list of all keys. */
  method Sorted<K(==), V>(m: map<K, Entry<V>>) returns (list: seq<K>)
    ensures OldestFirst(m, list) && forall k :: k in list <==> k in m
  {
    var rest := m.Keys;
    list := [];
    while rest != {}
      invariant OldestFirst(m, list) && rest <= m.Keys && forall k :: k in list <==> k in m && k !in rest
      decreases |rest|
    {
      var k :| k in rest;
      list := InsertByAccess(m, list, k);
      rest := rest - {k};
    }
  }

  lemma ListIsAll<K, V>(m: map<K, Entry<V>>, list: seq<K>)
    requires OldestFirst(m, list) && forall k :: k in list <==> k in m
    ensures |list| == |m|
  {
    FirstOnes(list, |list|);
    assert First(list, |list|) == m.Keys;
    assert |m.Keys| == |m|;
  }

  /** The first `n` members of a list. */
  function First<K>(list: seq<K>, n: nat): set<K>
    requires n <= |list|
  {
    set i | 0 <= i < n :: list[i]
  }

  lemma FirstStep<K>(list: seq<K>, n: nat)
    requires n < |list| && forall i, j :: 0 <= i < j < |list| ==> list[i] != list[j]
    ensures First(list, n + 1) == First(list, n) + {list[n]} && list[n] !in First(list, n)
  {
  }

  lemma {:induction false} FirstOnes<K>(list: seq<K>, n: nat)
    requires n <= |list| && forall i, j :: 0 <= i < j < |list| ==> list[i] != list[j]
    ensures |First(list, n)| == n
  {
    if n > 0 {
      FirstOnes(list, n - 1);
      assert First(list, n) == First(list, n - 1) + {list[n - 1]};
    }
  }

  /** The number of entries a purge removes. */
  function ToDelete(n: nat, ratio: real): int {
    (n as real * ratio).Floor
  }

  /** Five percent are every twentieth entry. */
  lemma Twentieth(n: nat)
    ensures ToDelete(n, 0.05) == n / 20
  {
    var q := n / 20;
    assert 20 * q <= n < 20 * q + 20;
    assert q as real <= n as real * 0.05 < q as real + 1.0;
  }

  /** `size` is `sum` in 64 bits; if sizes are not `exact`, only their low 32 bits are sure to agree. */
  ghost predicate AccountsFor(size: int, sum: int, exact: bool) {
    (size - sum) % RANGE32 == 0 && (exact ==> size == sum % RANGE64)
  }

  lemma Shift(size: int, sum: int, d: int, e: int, exact: bool)
    requires AccountsFor(size, sum, exact) && (d - e) % RANGE32 == 0 && (exact ==> d == e)
    ensures AccountsFor((size + d) % RANGE64, sum + e, exact)
  {
    var q := (size + d) / RANGE64;
    assert (size + d) % RANGE64 == size + d - q * RANGE64;
    var a, b := (size - sum) / RANGE32, (d - e) / RANGE32;
    assert size - sum == a * RANGE32 && d - e == b * RANGE32;
    assert (size + d) % RANGE64 - (sum + e) == (a + b - q * RANGE32) * RANGE32;
    if exact {
      SumMod(sum, d);
    }
  }

  lemma SumMod(sum: int, d: int)
    ensures (sum % RANGE64 + d) % RANGE64 == (sum + d) % RANGE64
  {
    var q := sum / RANGE64;
    assert sum % RANGE64 + d == sum + d - q * RANGE64;
    AddMultiple(sum + d, q);
  }

  lemma AddMultiple(x: int, q: int)
    ensures (x - q * RANGE64) % RANGE64 == x % RANGE64
  {
    var p := x / RANGE64;
    assert x == p * RANGE64 + x % RANGE64;
    assert x - q * RANGE64 == (p - q) * RANGE64 + x % RANGE64;
  }

  /** A replacement is accounted exactly just when the difference of the sizes fits an `int`. */
  lemma ReplacementExact(sum: int, before: nat, after: nat)
    requires before < RANGE32 && after < RANGE32
    ensures (sum + ToInt32(after - before)) % RANGE64 == (sum + (after - before)) % RANGE64 <==>
      -0x8000_0000 <= after - before < 0x8000_0000
  {
    var d := after - before;
    var e := ToInt32(d);
    assert e == d || e == d + RANGE32 || e == d - RANGE32;
    if e != d {
      OffByRange(sum + d, e - d);
    }
  }

  /** A replacement that is not: a value of 2^31 bytes for an empty one makes the size smaller. */
  lemma ReplacementDrifts()
    ensures ToInt32(0x8000_0000 - 0) == -0x8000_0000
    ensures (0 + ToInt32(0x8000_0000 - 0)) % RANGE64 != (0 + 0x8000_0000) % RANGE64
  {
    ReplacementExact(0, 0, 0x8000_0000);
  }

  lemma OffByRange(x: int, off: int)
    requires off == RANGE32 || off == -RANGE32
    ensures (x + off) % RANGE64 != x % RANGE64
  {
    var p, q := x / RANGE64, (x + off) / RANGE64;
    assert x == p * RANGE64 + x % RANGE64 && x + off == q * RANGE64 + (x + off) % RANGE64;
    assert off == (q - p) * RANGE64 + ((x + off) % RANGE64 - x % RANGE64);
  }

  /** Two sizes are added, one after the other. */
  lemma TwoShifts(size: int, sum: nat, expired: nat, a: nat, b: nat, exact: bool)
    requires AccountsFor(size, sum + expired, exact)
    ensures ((size + a) % RANGE64 + b) % RANGE64 == (size + a + b) % RANGE64
    ensures AccountsFor((size + a + b) % RANGE64, (b + a + sum) + expired, exact)
  {
    SumMod(size + a, b);
    Shift(size, sum + expired, a + b, a + b, exact);
  }

  class Cache<K(==), V(!new)> {
    const maxSize: int
    const maxAge: int
    const entrySize: nat
    const keySize: K -> nat
    const valueSize: V -> nat
    var entries: map<K, Entry<V>>
    var size: int
    var hits: nat
    var valid: nat
    ghost var added: map<K, Added<V>>
    ghost var expired: nat

    /** No value is so large that a difference of sizes leaves the range of an `int`. */
    ghost predicate Light() {
      forall v :: valueSize(v) < 0x8000_0000
    }

    /** What is present was added last under its key, at that time if the cache ages. */
    ghost predicate Current()
      reads this
    {
      forall k :: k in entries ==>
        k in added && entries[k].value == added[k].value && (maxAge != 0 ==> entries[k].access == added[k].at)
    }

    /** The size is that of the present entries and of those dropped for their age. */
    ghost predicate Accounted()
      reads this
    {
      AccountsFor(size, Total(entries, keySize, valueSize) + expired, Light()) && (maxAge == 0 ==> expired == 0)
    }

    ghost predicate Valid()
      reads this
    {
      Current() && Accounted()
    }

    constructor (maxSize: int, maxAge: int, entrySize: nat, keySize: K -> nat, valueSize: V -> nat)
      ensures Valid() && entries == map[] && added == map[] && size == 0 && expired == 0 && hits == 0 && valid == 0
    {
      this.maxSize, this.maxAge, this.entrySize := maxSize, maxAge, entrySize;
      this.keySize, this.valueSize := keySize, valueSize;
      entries, size, hits, valid, added, expired := map[], 0, 0, 0, map[], 0;
    }

    /** Size in bytes, as compared with the maximum. */
    function Size(): int
      reads this
    {
      SizeOf(|entries|, size)
    }

    function SizeOf(count: nat, additional: int): int {
      (count * entrySize + additional) % RANGE64
    }

    method ClearCache()
      modifies this
      ensures Valid() && entries == map[] && added == map[] && size == 0 && expired == 0 && hits == 0 && valid == 0
    {
      entries, size, hits, valid := map[], 0, 0, 0;
      added, expired := map[], 0;
    }

    /** Takes one entry out, with its sizes. */
    method Erase(key: K)
      requires Valid() && key in entries
      modifies this`entries, this`size
      ensures Valid() && entries == old(entries) - {key}
    {
      ghost var sum := Total(entries, keySize, valueSize) + expired;
      TotalWithout(entries, key, keySize, valueSize);
      var a: int, b: int := valueSize(entries[key].value), keySize(key);
      Shift(size, sum, -a, -a, Light());
      size := (size - a) % RANGE64;
      Shift(size, sum - a, -b, -b, Light());
      size := (size - b) % RANGE64;
      entries := entries - {key};
    }

    method RemoveCacheItem(key: K) returns (er: Status)
      requires Valid()
      modifies this
      ensures Valid() && er == (if key in old(entries) then Success else NotFound)
      ensures entries == old(entries) - {key} && added == old(added)
    {
      if key !in entries {
        return NotFound;
      }
      Erase(key);
      er := Success;
    }

    /** Old enough to be dropped. */
    predicate TooOld(e: Entry<V>, now: int) {
      maxAge != 0 && now - e.access >= maxAge
    }

    /** Takes some entries out, and not their sizes. */
    method EraseAll(keys: set<K>)
      requires keys <= entries.Keys
      modifies this`entries
      ensures entries == old(entries) - keys
      ensures Total(entries, keySize, valueSize) <= Total(old(entries), keySize, valueSize)
    {
      var rest := keys;
      while rest != {}
        invariant rest <= keys && rest <= entries.Keys && entries == old(entries) - (keys - rest)
        invariant Total(entries, keySize, valueSize) <= Total(old(entries), keySize, valueSize)
        decreases |rest|
      {
        var k :| k in rest;
        TotalWithout(entries, k, keySize, valueSize);
        entries := entries - {k};
        rest := rest - {k};
      }
    }

    /** The entries that are not too old. */
    function Young(m: map<K, Entry<V>>, now: int): map<K, Entry<V>> {
      map k | k in m && !TooOld(m[k], now) :: m[k]
    }

    /** Drops all entries that are too old; their sizes stay accounted. */
    method Expire(now: int)
      requires Valid() && maxAge != 0
      modifies this`entries, this`expired
      ensures Valid() && entries == Young(old(entries), now)
    {
      ghost var before := Total(entries, keySize, valueSize);
      var dl := set k | k in entries && TooOld(entries[k], now);
      EraseAll(dl);
      expired := expired + (before - Total(entries, keySize, valueSize));
    }

    /** Looks a key up; a hit renews the access time unless the cache ages. */
    method GetCacheItem(key: K, now: int) returns (er: Status, value: Option<V>)
      requires Valid()
      modifies this
      ensures Valid() && added == old(added) && hits == old(hits) + 1
      ensures er == if key in old(entries) && !TooOld(old(entries)[key], now) then Success else NotFound
      ensures er == Success <==>
        key in old(entries) && (maxAge == 0 || now - old(entries)[key].access < maxAge)
      ensures er != Success && key in old(entries) ==>
        forall k :: k in entries <==> k in old(entries) && now - old(entries)[k].access < maxAge
      ensures forall k :: k in entries && k != key ==> k in old(entries) && entries[k] == old(entries)[k]
      ensures er == Success ==> key in added && value == Some(added[key].value) && valid == old(valid) + 1
      ensures er == Success && maxAge != 0 ==> now - added[key].at < maxAge
      ensures er != Success ==> value == None && valid == old(valid)
      ensures er == Success ==>
        entries == if maxAge == 0 then old(entries)[key := Entry(value.value, now)] else old(entries)
      ensures er != Success ==> entries == if key in old(entries) then Young(old(entries), now) else old(entries)
    {
      er, value := NotFound, None;
      if key in entries {
        if TooOld(entries[key], now) {
          Expire(now);
        } else {
          value := Some(entries[key].value);
          if maxAge == 0 {
            Touch(key, now);
          }
          er := Success;
        }
      }
      hits := hits + 1;
      if er == Success {
        valid := valid + 1;
      }
    }

    method Touch(key: K, now: int)
      requires Valid() && key in entries && maxAge == 0
      modifies this`entries
      ensures Valid() && entries == old(entries)[key := Entry(old(entries)[key].value, now)]
    {
      entries := entries[key := Entry(entries[key].value, now)];
      TotalOfValues(entries, old(entries), keySize, valueSize);
    }

    /** Adds a value or replaces the one under its key; a new key may cause a purge. */
    method AddCacheItem(key: K, value: V, now: int)
      returns (ghost removed: set<K>)
      requires Valid()
      modifies this
      ensures Valid()
      ensures maxSize == 0 ==> entries == old(entries) && added == old(added)
      ensures maxSize != 0 ==> added == old(added)[key := Added(value, now)]
      ensures maxSize != 0 && key in old(entries) ==> entries == old(entries)[key := Entry(value, now)]
      ensures maxSize != 0 && key !in old(entries) ==>
        if Grown(|old(entries)|, old(size), key, value) > maxSize then
          Purged(old(entries)[key := Entry(value, now)], entries, removed, 0.05)
        else entries == old(entries)[key := Entry(value, now)]
      ensures maxSize != 0 && key !in old(entries) ==>
        |removed| == if LargerThan(maxSize, (|old(entries)| + 1) * entrySize,
                                   old(size) + valueSize(value) + keySize(key)) then (|old(entries)| + 1) / 20 else 0
    {
      removed := {};
      if maxSize == 0 {
        return;
      }
      if key in entries {
        Overwrite(key, value, now);
      } else {
        removed := AddNew(key, value, now);
      }
    }

    /** Adds a value under a new key. */
    method AddNew(key: K, value: V, now: int) returns (ghost removed: set<K>)
      requires Valid() && key !in entries
      modifies this
      ensures Valid() && added == old(added)[key := Added(value, now)]
      ensures if Grown(|old(entries)|, old(size), key, value) > maxSize then
                Purged(old(entries)[key := Entry(value, now)], entries, removed, 0.05)
              else entries == old(entries)[key := Entry(value, now)]
      ensures |removed| == if LargerThan(maxSize, (|old(entries)| + 1) * entrySize,
                                         old(size) + valueSize(value) + keySize(key)) then (|old(entries)| + 1) / 20
                           else 0
    {
      GrownSum(|entries|, size, key, value);
      removed := {};
      var full := InsertNew(key, value, now);
      if full {
        ghost var before := entries;
        removed := PurgeCache(0.05);
        PurgedCount(before, entries, removed);
      }
    }

    /** A size in 64 bits, that of the map and the additional one, is larger than a limit. */
    ghost predicate LargerThan(limit: int, table: int, additional: int) {
      (table + additional) % RANGE64 > limit
    }

    lemma GrownSum(count: nat, size: int, key: K, value: V)
      ensures Grown(count, size, key, value) > maxSize <==>
        LargerThan(maxSize, (count + 1) * entrySize, size + valueSize(value) + keySize(key))
    {
      SumMod(size + valueSize(value) + keySize(key), (count + 1) * entrySize);
    }

    /** The size of the cache with one more entry, before any purge. */
    function Grown(count: nat, size: int, key: K, value: V): int {
      SizeOf(count + 1, (size + valueSize(value) + keySize(key)) % RANGE64)
    }

    /** Replaces the value under a key; the difference of the sizes is taken as an `int`. */
    method Overwrite(key: K, value: V, now: int)
      requires Valid() && key in entries
      modifies this
      ensures Valid() && entries == old(entries)[key := Entry(value, now)]
      ensures added == old(added)[key := Added(value, now)]
    {
      TotalWithout(entries, key, keySize, valueSize);
      TotalWith(entries, key, Entry(value, now), keySize, valueSize);
      var d := valueSize(value) - valueSize(entries[key].value);
      Shift(size, Total(entries, keySize, valueSize) + expired, ToInt32(d), d, Light());
      size := (size + ToInt32(d)) % RANGE64;
      entries := entries[key := Entry(value, now)];
      added := added[key := Added(value, now)];
    }

    /** Adds the two sizes of a new entry. */
    method CountIn(key: K, value: V)
      requires Accounted()
      modifies this`size
      ensures size == (old(size) + valueSize(value) + keySize(key)) % RANGE64
      ensures AccountsFor(size, (keySize(key) + valueSize(value) + Total(entries, keySize, valueSize)) + expired,
                          Light())
    {
      TwoShifts(size, Total(entries, keySize, valueSize), expired, valueSize(value), keySize(key), Light());
      size := (size + valueSize(value)) % RANGE64;
      size := (size + keySize(key)) % RANGE64;
    }

    method Insert(key: K, value: V, now: int)
      requires Valid() && key !in entries
      modifies this
      ensures Valid() && entries == old(entries)[key := Entry(value, now)]
      ensures added == old(added)[key := Added(value, now)]
      ensures size == (old(size) + valueSize(value) + keySize(key)) % RANGE64
    {
      TotalWith(entries, key, Entry(value, now), keySize, valueSize);
      assert entries - {key} == entries;
      CountIn(key, value);
      entries := entries[key := Entry(value, now)];
      added := added[key := Added(value, now)];
    }

    /** Adds a new entry; tells whether the cache is now too large. */
    method InsertNew(key: K, value: V, now: int) returns (full: bool)
      requires Valid() && key !in entries
      modifies this
      ensures full <==> Grown(|old(entries)|, old(size), key, value) > maxSize
      ensures |entries| == |old(entries)| + 1
      ensures Valid() && entries == old(entries)[key := Entry(value, now)]
      ensures added == old(added)[key := Added(value, now)]
    {
      Insert(key, value, now);
      assert |entries| == |old(entries)| + 1 by {
        Smaller(entries, key);
        assert entries - {key} == old(entries);
      }
      full := Size() > maxSize;
    }

    /** `removed` is the given part of all entries, and none of it was accessed later than what is left. */
    ghost predicate Purged(before: map<K, Entry<V>>, after: map<K, Entry<V>>, removed: set<K>, ratio: real) {
      && removed <= before.Keys && after == before - removed
      && |removed| == (if ToDelete(|before|, ratio) > |before| then |before|
        else if ToDelete(|before|, ratio) < 0 then 0 else ToDelete(|before|, ratio))
      && forall x, y :: x in removed && y in after ==> before[x].access <= after[y].access
    }

    lemma PurgedCount(before: map<K, Entry<V>>, after: map<K, Entry<V>>, removed: set<K>)
      requires Purged(before, after, removed, 0.05)
      ensures |removed| == |before| / 20
    {
      Twentieth(|before|);
    }

    /** Removes the first `count` entries of a list, or all. */
    method EraseFirst(list: seq<K>, count: int) returns (i: nat)
      requires Valid() && OldestFirst(entries, list)
      modifies this`entries, this`size
      ensures Valid() && i <= |list| && entries == old(entries) - First(list, i)
      ensures i == if count > |list| then |list| else if count < 0 then 0 else count
    {
      i := 0;
      while i < |list| && i < count
        invariant Valid() && i <= |list| && (i == 0 || i <= count) && entries == old(entries) - First(list, i)
      {
        FirstStep(list, i);
        Erase(list[i]);
        i := i + 1;
      }
    }

    /** Removes the part of the entries that was not accessed for the longest time. */
    method PurgeCache(ratio: real) returns (ghost removed: set<K>)
      requires Valid()
      modifies this`entries, this`size
      ensures Valid() && Purged(old(entries), entries, removed, ratio)
    {
      var list := Sorted(entries);
      ListIsAll(entries, list);
      var i := EraseFirst(list, ToDelete(|entries|, ratio));
      removed := First(list, i);
      FirstOnes(list, i);
      SplitByAccess(old(entries), list, i);
    }
  }

  lemma SplitByAccess<K, V>(m: map<K, Entry<V>>, list: seq<K>, n: nat)
    requires OldestFirst(m, list) && n <= |list| && forall k :: k in list <==> k in m
    ensures First(list, n) <= m.Keys
    ensures forall x, y :: x in First(list, n) && y in m && y !in First(list, n) ==> m[x].access <= m[y].access
  {
    forall x, y | x in First(list, n) && y in m && y !in First(list, n) ensures m[x].access <= m[y].access {
      var i :| 0 <= i < n && list[i] == x;
      var j :| 0 <= j < |list| && list[j] == y;
      assert j >= n;
      assert Access(m, list[i]) <= Access(m, list[j]);
    }
  }
}
