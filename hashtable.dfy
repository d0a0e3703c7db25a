/**
 * The open-addressing, linear-probing hash table of library.c (struct hashtab_s and
 * the ht_* functions). The caller-supplied hash function is a constructor parameter;
 * key equality is Dafny equality. The ghost map `contents` is the table's abstract
 * value and `slotOf` says in which bucket each key lives.
 */
module HashTable {
  import opened Wrappers
  import opened Buckets

  /** INITIAL_CAPACITY (library.h:37). */
  const InitialCapacity: nat := 16
  /** RESIZE_FACTOR (library.h:41). */
  const ResizeFactor: nat := 2

  /**
   * `loadFactor(t) >= LOAD_THRESHOLD` with LOAD_THRESHOLD = 0.75 (library.h:39),
   * as exact integer arithmetic.
   */
  predicate AtLoadThreshold(size: nat, capacity: nat)
  {
    4 * size >= 3 * capacity
  }

  function Pow2(k: nat): (p: nat)
    ensures p >= 1
  {
    if k == 0 then 1 else 2 * Pow2(k - 1)
  }

  ghost predicate TableInvariant<K, V>(hash: K -> nat, s: seq<Bucket<K, V>>, size: nat, rehashes: nat,
                                     contents: map<K, V>, slotOf: map<K, nat>)
  {
    |s| == InitialCapacity * Pow2(rehashes) &&
    4 * size <= 3 * |s| &&
    size == |Entries(s)| &&
    size == |contents| &&
    ProbeInvariant(hash, s) &&
    Represents(s, contents, slotOf)
  }

  /** What ht_dump reports: size and capacity, and with contents the collisions and rehashes. */
  datatype Report = Report(size: nat, capacity: nat, details: Option<(nat, nat)>)

  class Table<K(==, 0), V(0)> {
    const hash: K -> nat
    /** Whether a `delete` callback was supplied to ht_create. */
    const deleteSupplied: bool
    var capacity: nat
    var size: nat
    var rehashes: nat
    var table: array<Bucket<K, V>>
    ghost var contents: map<K, V>
    ghost var slotOf: map<K, nat>

    ghost predicate Valid()
      reads this, table
    {
      table.Length == capacity &&
      TableInvariant(hash, table[..], size, rehashes, contents, slotOf)
    }

    /** ht_create: 16 empty buckets, size 0, no rehash yet. */
    constructor (hash: K -> nat, deleteSupplied: bool)
      ensures Valid() && fresh(table)
      ensures this.hash == hash && this.deleteSupplied == deleteSupplied
      ensures capacity == InitialCapacity && size == 0 && rehashes == 0
      ensures contents == map[]
      ensures forall i :: 0 <= i < table.Length ==> table[i] == Empty
    {
      this.hash := hash;
      this.deleteSupplied := deleteSupplied;
      capacity := InitialCapacity;
      size := 0;
      rehashes := 0;
      table := new Bucket<K, V>[InitialCapacity](_ => Empty);
      contents := map[];
      slotOf := map[];
      new;
      EntriesOfEmptyTable(table[..]);
    }

    /**
     * resize: a fresh bucket array twice as large, every pair re-inserted at the
     * first empty slot of its probe from `hash(key) % newCapacity`.
     */
    method Resize()
      requires Valid()
      modifies this
      ensures Valid() && fresh(table)
      ensures capacity == ResizeFactor * old(capacity) && rehashes == old(rehashes) + 1
      ensures size == old(size) && contents == old(contents)
    {
      var newCapacity := capacity * ResizeFactor;
      var newTable := new Bucket<K, V>[newCapacity](_ => Empty);
      ghost var newSlotOf := Rehash(hash, table, newTable, contents, slotOf);
      assert Pow2(rehashes + 1) == 2 * Pow2(rehashes);
      Install(newTable, newCapacity, rehashes + 1, newSlotOf);
    }

    /**
     * The probe loop of ht_get and ht_put: from `hash(key) % capacity`, step over
     * buckets holding other keys. It stops at the bucket holding `key` when the key
     * is present, and otherwise at the first empty bucket of the probe, which every
     * earlier bucket of the probe precedes occupied.
     */
    method Probe(key: K) returns (index: nat)
      requires Valid()
      ensures index < capacity
      ensures key in contents ==> index == slotOf[key] && table[index] == Occupied(key, contents[key])
      ensures key !in contents ==> table[index] == Empty
      ensures key !in contents ==>
                forall j {:trigger Dist(Home(hash, key, capacity), j, capacity)} :: 0 <= j < capacity &&
                  Dist(Home(hash, key, capacity), j, capacity) < Dist(Home(hash, key, capacity), index, capacity)
                  ==> table[j].Occupied?
    {
      ghost var s := table[..];
      ghost var h := Home(hash, key, capacity);
      ghost var e := EmptyBucketExists(s);
      index := hash(key) % capacity;
      while table[index].Occupied? && table[index].key != key
        invariant index < capacity
        invariant forall j {:trigger Dist(h, j, capacity)} :: 0 <= j < capacity && Dist(h, j, capacity) < Dist(h, index, capacity) ==>
                    s[j].Occupied? && s[j].key != key
        invariant Dist(h, index, capacity) <= Dist(h, e, capacity)
        decreases Dist(h, e, capacity) - Dist(h, index, capacity)
      {
        StepForward(h, index, capacity);
        index := (index + 1) % capacity;
      }
      if table[index] == Empty {
        AbsentWhenProbeHitsEmpty(hash, s, contents, slotOf, key, index);
      }
    }

    /** ht_get: the value of the bucket the probe stops at, or None (NULL) at an empty one. */
    method Get(key: K) returns (r: Option<V>)
      requires Valid()
      ensures r == if key in contents then Some(contents[key]) else None
    {
      var index := Probe(key);
      if table[index].Occupied? {
        r := Some(table[index].value);
      } else {
        r := None;
      }
    }

    /** ht_has: whether ht_get finds a value. */
    method Has(key: K) returns (b: bool)
      requires Valid()
      ensures b <==> key in contents
    {
      var r := Get(key);
      b := r.Some?;
    }

    /**
     * ht_put: resize first when the load factor has reached 0.75; then probe from
     * `hash(key) % capacity`. A bucket holding `key` gets the new value and the old
     * value is returned; otherwise the pair goes into the empty bucket that ended
     * the probe, size grows by one and None (NULL) is returned. The ghost `slot` is
     * the bucket written; without a resize it is the only bucket that changes.
     */
    method Put(key: K, value: V) returns (previous: Option<V>, ghost slot: nat)
      requires Valid()
      modifies this, table
      ensures Valid()
      ensures previous == if key in old(contents) then Some(old(contents)[key]) else None
      ensures contents == old(contents)[key := value]
      ensures size == if key in old(contents) then old(size) else old(size) + 1
      ensures if AtLoadThreshold(old(size), old(capacity))
              then fresh(table) && capacity == ResizeFactor * old(capacity) && rehashes == old(rehashes) + 1
              else table == old(table) && capacity == old(capacity) && rehashes == old(rehashes)
      ensures slot < capacity && slotOf[key] == slot && table[slot] == Occupied(key, value)
      ensures !AtLoadThreshold(old(size), old(capacity)) ==>
                slot < |old(table[..])| && table[..] == old(table[..])[slot := Occupied(key, value)]
      ensures !AtLoadThreshold(old(size), old(capacity)) && key in old(contents) ==>
                slot == old(slotOf)[key] &&
                KeysOf(Entries(table[..])) == KeysOf(Entries(old(table[..]))) &&
                Collisions(hash, table[..], capacity) == Collisions(hash, old(table[..]), capacity)
      ensures !AtLoadThreshold(old(size), old(capacity)) && key !in old(contents) ==>
                old(table[..])[slot] == Empty
    {
      if AtLoadThreshold(size, capacity) {
        Resize();
      }
      var index := Probe(key);
      if table[index].Occupied? {
        previous := Some(table[index].value);
        ReplaceValue(index, value);
      } else {
        InsertPair(index, key, value);
        previous := None;
      }
      slot := index;
    }

    /** The update branch of ht_put: the bucket at `index` holding `key` gets the new value. */
    method ReplaceValue(index: nat, value: V)
      requires Valid() && index < capacity && table[index].Occupied?
      modifies this, table
      ensures Valid() && table == old(table) && capacity == old(capacity) && rehashes == old(rehashes)
      ensures size == old(size)
      ensures contents == old(contents)[old(table[index]).key := value]
      ensures slotOf == old(slotOf)
      ensures table[..] == old(table[..])[index := Occupied(old(table[index]).key, value)]
      ensures KeysOf(Entries(table[..])) == KeysOf(Entries(old(table[..])))
      ensures Collisions(hash, table[..], capacity) == Collisions(hash, old(table[..]), capacity)
    {
      ghost var s := table[..];
      var key := table[index].key;
      ReplaceKeepsLayout(hash, s, index, value, capacity);
      ReplaceKeepsProbeInvariant(hash, s, index, value);
      RepresentsReplace(s, contents, slotOf, key, value);
      EntriesCountUpdate(s, index, Occupied(key, value));
      table[index] := Occupied(key, value);
      contents := contents[key := value];
      assert table[..] == s[index := Occupied(key, value)];
    }

    /**
     * The insert branch of ht_put: the pair goes into the empty bucket that ended the
     * probe for the absent `key`.
     */
    method InsertPair(index: nat, key: K, value: V)
      requires Valid() && index < capacity && table[index] == Empty && key !in contents
      requires !AtLoadThreshold(size, capacity)
      requires forall j {:trigger Dist(Home(hash, key, capacity), j, capacity)} :: 0 <= j < capacity &&
                 Dist(Home(hash, key, capacity), j, capacity) < Dist(Home(hash, key, capacity), index, capacity)
                 ==> table[j].Occupied?
      modifies this, table
      ensures Valid() && table == old(table) && capacity == old(capacity) && rehashes == old(rehashes)
      ensures size == old(size) + 1 && contents == old(contents)[key := value]
      ensures slotOf == old(slotOf)[key := index]
      ensures table[..] == old(table[..])[index := Occupied(key, value)]
    {
      ghost var s := table[..];
      PlaceFresh(hash, s, contents, slotOf, index, key, value);
      assert 4 * (size + 1) <= 3 * capacity by {
        assert capacity == 16 * Pow2(rehashes);
      }
      table[index] := Occupied(key, value);
      size := size + 1;
      contents := contents[key := value];
      slotOf := slotOf[key := index];
      assert table[..] == s[index := Occupied(key, value)];
    }

    /**
     * ht_keys: a new array of `size` keys, filled from the occupied buckets in
     * bucket order. Each key of the table appears exactly once.
     */
    method Keys() returns (keys: array<K>)
      requires Valid()
      ensures fresh(keys) && keys[..] == KeysOf(Entries(table[..]))
      ensures keys.Length == size
      ensures forall k :: k in keys[..] <==> k in contents
      ensures forall a, b :: 0 <= a < b < keys.Length ==> keys[a] != keys[b]
    {
      ghost var s := table[..];
      keys := new K[size];
      var keysIndex := 0;
      for i := 0 to capacity
        invariant keysIndex == |Entries(s[..i])| <= size
        invariant keys[..keysIndex] == KeysOf(Entries(s[..i]))
      {
        EntriesSnoc(s, i);
        EntriesPrefix(s, i + 1);
        if table[i].Occupied? {
          keys[keysIndex] := table[i].key;
          keysIndex := keysIndex + 1;
        }
      }
      assert s[..capacity] == s;
      KeysAndValuesOfContents(s, contents, slotOf);
    }

    /**
     * ht_values: a new array of `size` values, filled from the occupied buckets in
     * bucket order, so that position i holds the value of the i-th key of Keys.
     */
    method Values() returns (values: array<V>)
      requires Valid()
      ensures fresh(values) && values[..] == ValuesOf(Entries(table[..]))
      ensures values.Length == size
      ensures forall a :: 0 <= a < size ==>
                KeysOf(Entries(table[..]))[a] in contents &&
                contents[KeysOf(Entries(table[..]))[a]] == values[a]
    {
      ghost var s := table[..];
      values := new V[size];
      var valuesIndex := 0;
      for i := 0 to capacity
        invariant valuesIndex == |Entries(s[..i])| <= size
        invariant values[..valuesIndex] == ValuesOf(Entries(s[..i]))
      {
        EntriesSnoc(s, i);
        EntriesPrefix(s, i + 1);
        if table[i].Occupied? {
          values[valuesIndex] := table[i].value;
          valuesIndex := valuesIndex + 1;
        }
      }
      assert s[..capacity] == s;
      KeysAndValuesOfContents(s, contents, slotOf);
    }

    /**
     * ht_destroy: the calls made to the `delete` callback, in bucket order: one per
     * pair of the table when a callback was supplied, none otherwise.
     */
    method Destroy() returns (deleted: seq<(K, V)>)
      requires Valid()
      ensures deleted == if deleteSupplied then Entries(table[..]) else []
      ensures deleteSupplied ==> |deleted| == size
      ensures deleteSupplied ==> forall k, v :: (k, v) in deleted <==> k in contents && contents[k] == v
    {
      ghost var s := table[..];
      deleted := [];
      for i := 0 to capacity
        invariant deleted == if deleteSupplied then Entries(s[..i]) else []
      {
        EntriesSnoc(s, i);
        if table[i].Occupied? && deleteSupplied {
          deleted := deleted + [(table[i].key, table[i].value)];
        }
      }
      assert s[..capacity] == s;
      EntriesAreContents(s, contents, slotOf);
    }

    /**
     * ht_dump: size and capacity, and with `withContents` also the collision count
     * (occupied buckets that are not their key's home bucket) and the rehash count.
     */
    method Dump(withContents: bool) returns (report: Report)
      requires Valid()
      ensures report.size == size && report.capacity == capacity
      ensures report.details == if withContents then Some((Collisions(hash, table[..], capacity), rehashes)) else None
      ensures withContents ==> report.details.value.0 <= size
    {
      ghost var s := table[..];
      var collisions := 0;
      if withContents {
        for i := 0 to capacity
          invariant collisions == Collisions(hash, s[..i], capacity)
        {
          assert s[..i + 1][..i] == s[..i];
          if table[i].Occupied? && i != hash(table[i].key) % capacity {
            collisions := collisions + 1;
          }
        }
        assert s[..capacity] == s;
        CollisionsAtMostEntries(hash, s, capacity);
        report := Report(size, capacity, Some((collisions, rehashes)));
      } else {
        report := Report(size, capacity, None);
      }
    }

    /** Points the table at a bucket array that already satisfies the invariant. */
    method Install(newTable: array<Bucket<K, V>>, newCapacity: nat, newRehashes: nat, ghost newSlotOf: map<K, nat>)
      requires newTable.Length == newCapacity
      requires TableInvariant(hash, newTable[..], size, newRehashes, contents, newSlotOf)
      modifies this
      ensures Valid()
      ensures table == newTable && capacity == newCapacity && rehashes == newRehashes
      ensures size == old(size) && contents == old(contents)
    {
      rehashes, table, capacity, slotOf := newRehashes, newTable, newCapacity, newSlotOf;
    }
  }

  /**
   * The loop of resize: every pair of the old bucket array `from`, in slot order,
   * is relocated into the empty new bucket array `to`.
   */
  method Rehash<K, V>(hash: K -> nat, from: array<Bucket<K, V>>, to: array<Bucket<K, V>>,
                      ghost m: map<K, V>, ghost slot: map<K, nat>) returns (ghost newSlot: map<K, nat>)
    requires Represents(from[..], m, slot)
    requires from != to && |Entries(from[..])| < to.Length
    requires forall i :: 0 <= i < to.Length ==> to[i] == Empty
    modifies to
    ensures ProbeInvariant(hash, to[..]) && Represents(to[..], m, newSlot)
    ensures |Entries(to[..])| == |Entries(from[..])|
  {
    ghost var s := from[..];
    ghost var moved: map<K, V> := map[];
    newSlot := map[];
    EntriesOfEmptyTable(to[..]);

    for i := 0 to from.Length
      invariant from[..] == s
      invariant ProbeInvariant(hash, to[..])
      invariant Represents(to[..], moved, newSlot)
      invariant |Entries(to[..])| == |Entries(s[..i])|
      invariant MovedBelow(moved, m, slot, i)
    {
      EntriesSnoc(s, i);
      ScanStep(s, m, slot, moved, i);
      if from[i].Occupied? {
        var pair := from[i];
        EntriesPrefix(s, i + 1);
        ghost var index := Relocate(hash, to, pair.key, pair.value, moved, newSlot);
        moved := moved[pair.key := pair.value];
        newSlot := newSlot[pair.key := index];
      }
    }

    assert s[..from.Length] == s;
    MovedAll(m, slot, moved, from.Length);
  }

  /** moved holds exactly the pairs of m whose slot is below i. */
  ghost predicate MovedBelow<K, V>(moved: map<K, V>, m: map<K, V>, slot: map<K, nat>, i: nat)
  {
    (forall k :: k in moved ==> k in m && moved[k] == m[k] && k in slot && slot[k] < i) &&
    (forall k :: k in slot && slot[k] < i ==> k in moved)
  }

  /** Scanning slot i of the old array extends the moved pairs by that slot's pair. */
  lemma ScanStep<K, V>(s: seq<Bucket<K, V>>, m: map<K, V>, slot: map<K, nat>, moved: map<K, V>, i: nat)
    requires Represents(s, m, slot) && MovedBelow(moved, m, slot, i) && i < |s|
    ensures s[i].Occupied? ==> s[i].key !in moved && MovedBelow(moved[s[i].key := s[i].value], m, slot, i + 1)
    ensures s[i] == Empty ==> MovedBelow(moved, m, slot, i + 1)
  {
  }

  /** Once every slot is scanned, all pairs are moved. */
  lemma MovedAll<K, V>(m: map<K, V>, slot: map<K, nat>, moved: map<K, V>, n: nat)
    requires MovedBelow(moved, m, slot, n)
    requires m.Keys == slot.Keys && forall k :: k in slot ==> slot[k] < n
    ensures moved == m
  {
  }

  /**
   * The inner loop of resize: place a pair whose key is not yet in the new bucket
   * array t at the first empty slot of its probe from `hash(key) % t.Length`.
   */
  method Relocate<K, V>(hash: K -> nat, t: array<Bucket<K, V>>, key: K, value: V,
                        ghost m: map<K, V>, ghost slot: map<K, nat>) returns (index: nat)
    requires ProbeInvariant(hash, t[..]) && Represents(t[..], m, slot) && key !in m
    requires |Entries(t[..])| < t.Length
    modifies t
    ensures index < t.Length && old(t[index]) == Empty
    ensures t[..] == old(t[..])[index := Occupied(key, value)]
    ensures ProbeInvariant(hash, t[..]) && Represents(t[..], m[key := value], slot[key := index])
    ensures |Entries(t[..])| == |Entries(old(t[..]))| + 1
  {
    var n := t.Length;
    index := hash(key) % n;
    ghost var h := index;
    ghost var e := EmptyBucketExists(t[..]);
    while t[index].Occupied?
      modifies {}
      invariant index < n
      invariant forall j {:trigger Dist(h, j, n)} :: 0 <= j < n && Dist(h, j, n) < Dist(h, index, n) ==> t[j].Occupied?
      invariant Dist(h, index, n) <= Dist(h, e, n)
      decreases Dist(h, e, n) - Dist(h, index, n)
    {
      StepForward(h, index, n);
      index := (index + 1) % n;
    }
    ghost var before := t[..];
    assert before == old(t[..]);
    PlaceFresh(hash, before, m, slot, index, key, value);
    t[index] := Occupied(key, value);
    assert t[..] == before[index := Occupied(key, value)];
  }

  /** A set of naturals below n has at most n elements. */
  lemma {:induction false} BoundedSetSize(keys: set<nat>, n: nat)
    requires forall k :: k in keys ==> k < n
    ensures |keys| <= n
  {
    if n > 0 {
      BoundedSetSize(keys - {n - 1}, n - 1);
    }
  }

  /** n naturals below n are all of 0..n-1. */
  lemma {:induction false} FullKeyRange(keys: set<nat>, n: nat)
    requires |keys| == n && forall k :: k in keys ==> k < n
    ensures forall k: nat :: k < n ==> k in keys
  {
    if n > 0 {
      if n - 1 !in keys {
        BoundedSetSize(keys, n - 1);
      }
      FullKeyRange(keys - {n - 1}, n - 1);
    }
  }

  /**
   * The load policy on a run: with 16 buckets the 13th put of a new key is the first
   * to find the load factor at 0.75 (12/16); it doubles the capacity once, and all
   * 13 keys are then in the table.
   */
  method FillPastThreshold() returns (t: Table<nat, nat>)
    ensures t.Valid() && t.size == 13 && t.capacity == 32 && t.rehashes == 1
    ensures forall k: nat :: k in t.contents <==> k < 13
  {
    t := new Table(k => k, false);
    for i := 0 to 13
      invariant t.Valid() && fresh(t) && fresh(t.table)
      invariant t.size == i && forall k :: k in t.contents ==> k < i
      invariant t.capacity == (if i <= 12 then 16 else 32) && t.rehashes == (if i <= 12 then 0 else 1)
    {
      var previous, slot := t.Put(i, i);
    }
    FullKeyRange(t.contents.Keys, 13);
  }

  /** A value just put is what ht_get then returns; ht_has agrees. */
  method PutThenGet<K(==, 0), V(0)>(t: Table<K, V>, key: K, value: V, other: K) returns (r: Option<V>, present: bool, s: Option<V>)
    requires t.Valid() && other != key
    modifies t, t.table
    ensures r == Some(value) && present
    ensures s == if other in old(t.contents) then Some(old(t.contents)[other]) else None
  {
    var previous, slot := t.Put(key, value);
    r := t.Get(key);
    present := t.Has(key);
    s := t.Get(other);
  }
}
