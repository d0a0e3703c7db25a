/**
 * The bucket array of the open-addressing hash table (library.h:43-51), seen as a
 * sequence of slots, with the facts about linear probing that the table's methods
 * rely on. Everything here is pure; the class in module HashTable uses it to state
 * and keep its invariant.
 */
module Buckets {

  /** A slot: `Bucket.isOccupied == false`, or occupied by a key-value pair. */
  datatype Bucket<K, V> = Empty | Occupied(key: K, value: V)

  /** The home slot of a key: `hash(key) % capacity`. */
  function Home<K>(hash: K -> nat, key: K, n: nat): (h: nat)
    requires n > 0
    ensures h < n
  {
    hash(key) % n
  }

  /**
   * The number of forward probing steps (each `index = (index + 1) % n`) that take
   * the probe from slot h to slot i.
   */
  function Dist(h: nat, i: nat, n: nat): (d: nat)
    requires h < n && i < n
    ensures d < n
  {
    if h <= i then i - h else i + n - h
  }

  /** One probing step from slot i moves one step further away from the start h. */
  lemma StepForward(h: nat, i: nat, n: nat)
    requires h < n && i < n && Dist(h, i, n) + 1 < n
    ensures (i + 1) % n < n && Dist(h, (i + 1) % n, n) == Dist(h, i, n) + 1
  {
    if i + 1 < n {
      assert (i + 1) % n == i + 1;
    } else {
      assert (i + 1) % n == 0;
    }
  }

  /**
   * No empty slot lies between the home slot of the key in slot i and slot i itself:
   * a probe for that key that starts at its home slot reaches slot i.
   */
  ghost predicate ChainClosed<K, V>(hash: K -> nat, s: seq<Bucket<K, V>>, i: nat)
    requires i < |s| && s[i].Occupied?
  {
    var h := Home(hash, s[i].key, |s|);
    forall j {:trigger Dist(h, j, |s|)} :: 0 <= j < |s| && Dist(h, j, |s|) < Dist(h, i, |s|) ==> s[j].Occupied?
  }

  /** The probing invariant of a table without deletions: every chain is closed. */
  ghost predicate ProbeInvariant<K, V>(hash: K -> nat, s: seq<Bucket<K, V>>)
  {
    |s| > 0 &&
    forall i {:trigger ChainClosed(hash, s, i)} :: 0 <= i < |s| && s[i].Occupied? ==> ChainClosed(hash, s, i)
  }

  /**
   * The slots s hold exactly the map m, key k being in slot slot[k]. The third
   * conjunct makes keys unique: no key occupies two buckets.
   */
  ghost predicate Represents<K, V>(s: seq<Bucket<K, V>>, m: map<K, V>, slot: map<K, nat>)
  {
    m.Keys == slot.Keys &&
    (forall k :: k in slot ==> slot[k] < |s| && s[slot[k]] == Occupied(k, m[k])) &&
    (forall i :: 0 <= i < |s| && s[i].Occupied? ==> s[i].key in slot && slot[s[i].key] == i)
  }

  /** The pairs of the occupied slots, in slot order 0..|s|-1. */
  function Entries<K, V>(s: seq<Bucket<K, V>>): (es: seq<(K, V)>)
    ensures |es| <= |s|
  {
    if |s| == 0 then []
    else
      var last := s[|s| - 1];
      Entries(s[..|s| - 1]) + (if last.Occupied? then [(last.key, last.value)] else [])
  }

  /** Number of occupied slots that are not their key's home slot (the collision count of a dump). */
  function Collisions<K, V>(hash: K -> nat, s: seq<Bucket<K, V>>, n: nat): nat
    requires n > 0
  {
    if |s| == 0 then 0
    else
      var i := |s| - 1;
      Collisions(hash, s[..i], n) + (if s[i].Occupied? && i != Home(hash, s[i].key, n) then 1 else 0)
  }

  /** A table with no occupied slot has no entries. */
  lemma {:induction false} EntriesOfEmptyTable<K, V>(s: seq<Bucket<K, V>>)
    requires forall i :: 0 <= i < |s| ==> s[i] == Empty
    ensures Entries(s) == []
  {
    if |s| > 0 {
      EntriesOfEmptyTable(s[..|s| - 1]);
    }
  }

  /** Overwriting one slot changes the number of occupied slots by the change at that slot. */
  lemma {:induction false} EntriesCountUpdate<K, V>(s: seq<Bucket<K, V>>, j: nat, b: Bucket<K, V>)
    requires j < |s|
    ensures |Entries(s[j := b])| ==
            |Entries(s)| - (if s[j].Occupied? then 1 else 0) + (if b.Occupied? then 1 else 0)
  {
    var t := s[j := b];
    var n := |s|;
    if j < n - 1 {
      assert t[..n - 1] == s[..n - 1][j := b];
      EntriesCountUpdate(s[..n - 1], j, b);
    } else {
      assert t[..n - 1] == s[..n - 1];
    }
  }

  /** Extending a prefix by one slot adds that slot's pair, if any. */
  lemma EntriesSnoc<K, V>(s: seq<Bucket<K, V>>, i: nat)
    requires i < |s|
    ensures Entries(s[..i + 1]) ==
            Entries(s[..i]) + (if s[i].Occupied? then [(s[i].key, s[i].value)] else [])
  {
    assert s[..i + 1][..i] == s[..i];
  }

  /** A prefix of the table has at most as many occupied slots as the table. */
  lemma {:induction false} EntriesPrefix<K, V>(s: seq<Bucket<K, V>>, i: nat)
    requires i <= |s|
    ensures |Entries(s[..i])| <= |Entries(s)|
  {
    if i < |s| {
      var n := |s|;
      assert s[..n - 1][..i] == s[..i];
      EntriesPrefix(s[..n - 1], i);
    } else {
      assert s[..i] == s;
    }
  }

  /** Fewer occupied slots than slots: an empty slot exists, so every probe loop can stop. */
  lemma {:induction false} EmptyBucketExists<K, V>(s: seq<Bucket<K, V>>) returns (e: nat)
    requires |Entries(s)| < |s|
    ensures e < |s| && s[e] == Empty
  {
    var n := |s|;
    if s[n - 1] == Empty {
      e := n - 1;
    } else {
      e := EmptyBucketExists(s[..n - 1]);
    }
  }

  /** A pair is listed by Entries exactly when some slot holds it. */
  lemma {:induction false} EntriesMember<K, V>(s: seq<Bucket<K, V>>, k: K, v: V)
    ensures (k, v) in Entries(s) <==> exists i :: 0 <= i < |s| && s[i] == Occupied(k, v)
  {
    if |s| > 0 {
      var n := |s|;
      EntriesMember(s[..n - 1], k, v);
      if (exists i :: 0 <= i < n && s[i] == Occupied(k, v)) && s[n - 1] != Occupied(k, v) {
        var i :| 0 <= i < n && s[i] == Occupied(k, v);
        assert s[..n - 1][i] == s[i];
      }
    }
  }

  /** The listed pairs are exactly the entries of the map the slots represent. */
  lemma EntriesAreContents<K, V>(s: seq<Bucket<K, V>>, m: map<K, V>, slot: map<K, nat>)
    requires Represents(s, m, slot)
    ensures forall k, v :: (k, v) in Entries(s) <==> k in m && m[k] == v
  {
    forall k, v ensures (k, v) in Entries(s) <==> k in m && m[k] == v {
      EntriesMember(s, k, v);
      if k in m && m[k] == v {
        assert s[slot[k]] == Occupied(k, v);
      }
    }
  }

  /** There are as many occupied slots as keys in the represented map. */
  lemma {:induction false} EntriesKeysDistinct<K, V>(s: seq<Bucket<K, V>>, m: map<K, V>, slot: map<K, nat>)
    requires Represents(s, m, slot)
    ensures |Entries(s)| == |m|
  {
    EntriesKeysDistinctFrom(s, m, slot, |s|);
    assert s[..|s|] == s;
    assert (set k | k in slot && slot[k] < |s|) == m.Keys;
  }

  /** Helper for EntriesKeysDistinct: the first i slots list the keys whose slot is below i. */
  lemma {:induction false} EntriesKeysDistinctFrom<K, V>(s: seq<Bucket<K, V>>, m: map<K, V>, slot: map<K, nat>, i: nat)
    requires Represents(s, m, slot) && i <= |s|
    ensures |Entries(s[..i])| == |set k | k in slot && slot[k] < i|
  {
    if i == 0 {
      assert (set k | k in slot && slot[k] < 0) == {};
    } else {
      EntriesKeysDistinctFrom(s, m, slot, i - 1);
      EntriesSnoc(s, i - 1);
      var below := set k | k in slot && slot[k] < i - 1;
      if s[i - 1].Occupied? {
        assert (set k | k in slot && slot[k] < i) == below + {s[i - 1].key};
      } else {
        assert (set k | k in slot && slot[k] < i) == below;
      }
    }
  }

  /**
   * A probe for `key` that passed only slots holding other keys and then reached an
   * empty slot proves the key absent (the early exit of ht_get and ht_put).
   */
  lemma AbsentWhenProbeHitsEmpty<K, V>(
    hash: K -> nat, s: seq<Bucket<K, V>>, m: map<K, V>, slot: map<K, nat>, key: K, index: nat)
    requires ProbeInvariant(hash, s) && Represents(s, m, slot)
    requires index < |s| && s[index] == Empty
    requires forall j {:trigger Dist(Home(hash, key, |s|), j, |s|)} :: 0 <= j < |s| && Dist(Home(hash, key, |s|), j, |s|) < Dist(Home(hash, key, |s|), index, |s|) ==>
               s[j].Occupied? && s[j].key != key
    ensures key !in m
  {
    forall i | 0 <= i < |s| && s[i].Occupied?
      ensures Dist(Home(hash, s[i].key, |s|), i, |s|) < Dist(Home(hash, s[i].key, |s|), index, |s|)
    {
      assert ChainClosed(hash, s, i);
    }
  }

  /** Writing a fresh key into the first empty slot of its probe keeps every chain closed. */
  lemma InsertKeepsProbeInvariant<K, V>(hash: K -> nat, s: seq<Bucket<K, V>>, index: nat, key: K, value: V)
    requires ProbeInvariant(hash, s)
    requires index < |s| && s[index] == Empty
    requires forall j {:trigger Dist(Home(hash, key, |s|), j, |s|)} :: 0 <= j < |s| && Dist(Home(hash, key, |s|), j, |s|) < Dist(Home(hash, key, |s|), index, |s|) ==>
               s[j].Occupied?
    ensures ProbeInvariant(hash, s[index := Occupied(key, value)])
  {
    var t := s[index := Occupied(key, value)];
    forall i | 0 <= i < |t| && t[i].Occupied? ensures ChainClosed(hash, t, i) {
      if i != index {
        assert ChainClosed(hash, s, i);
      }
    }
  }

  /** Replacing the value of an occupied slot, key kept, keeps every chain closed. */
  lemma ReplaceKeepsProbeInvariant<K, V>(hash: K -> nat, s: seq<Bucket<K, V>>, index: nat, value: V)
    requires ProbeInvariant(hash, s)
    requires index < |s| && s[index].Occupied?
    ensures ProbeInvariant(hash, s[index := Occupied(s[index].key, value)])
  {
    var t := s[index := Occupied(s[index].key, value)];
    forall i | 0 <= i < |t| && t[i].Occupied? ensures ChainClosed(hash, t, i) {
      assert ChainClosed(hash, s, i);
    }
  }

  /** Inserting a new key into an empty slot extends the represented map by that key. */
  lemma RepresentsInsert<K, V>(s: seq<Bucket<K, V>>, m: map<K, V>, slot: map<K, nat>, index: nat, key: K, value: V)
    requires Represents(s, m, slot)
    requires index < |s| && s[index] == Empty && key !in m
    ensures Represents(s[index := Occupied(key, value)], m[key := value], slot[key := index])
  {
  }

  /**
   * Everything the table's invariant needs after a fresh key is written into the
   * first empty slot of its probe.
   */
  lemma PlaceFresh<K, V>(hash: K -> nat, s: seq<Bucket<K, V>>, m: map<K, V>, slot: map<K, nat>,
                         index: nat, key: K, value: V)
    requires ProbeInvariant(hash, s) && Represents(s, m, slot) && key !in m
    requires index < |s| && s[index] == Empty
    requires forall j {:trigger Dist(Home(hash, key, |s|), j, |s|)} :: 0 <= j < |s| && Dist(Home(hash, key, |s|), j, |s|) < Dist(Home(hash, key, |s|), index, |s|) ==>
               s[j].Occupied?
    ensures ProbeInvariant(hash, s[index := Occupied(key, value)])
    ensures Represents(s[index := Occupied(key, value)], m[key := value], slot[key := index])
    ensures |Entries(s[index := Occupied(key, value)])| == |Entries(s)| + 1
  {
    InsertKeepsProbeInvariant(hash, s, index, key, value);
    RepresentsInsert(s, m, slot, index, key, value);
    EntriesCountUpdate(s, index, Occupied(key, value));
  }

  /** Replacing the value of a present key updates only that key of the represented map. */
  lemma RepresentsReplace<K, V>(s: seq<Bucket<K, V>>, m: map<K, V>, slot: map<K, nat>, key: K, value: V)
    requires Represents(s, m, slot) && key in m
    ensures slot[key] < |s| && s[slot[key]].Occupied? && s[slot[key]].key == key
    ensures Represents(s[slot[key] := Occupied(key, value)], m[key := value], slot)
  {
  }

  /** Collisions count only occupied slots, so they never exceed the number of entries. */
  lemma {:induction false} CollisionsAtMostEntries<K, V>(hash: K -> nat, s: seq<Bucket<K, V>>, n: nat)
    requires n > 0
    ensures Collisions(hash, s, n) <= |Entries(s)|
  {
    if |s| > 0 {
      CollisionsAtMostEntries(hash, s[..|s| - 1], n);
    }
  }

  /** The collision count is zero exactly when every entry sits in its home slot. */
  lemma {:induction false} NoCollisionsIffAllHome<K, V>(hash: K -> nat, s: seq<Bucket<K, V>>, n: nat)
    requires n > 0
    ensures Collisions(hash, s, n) == 0 <==>
            forall i :: 0 <= i < |s| && s[i].Occupied? ==> i == Home(hash, s[i].key, n)
  {
    if |s| > 0 {
      var p := s[..|s| - 1];
      NoCollisionsIffAllHome(hash, p, n);
      assert forall i :: 0 <= i < |p| ==> p[i] == s[i];
    }
  }

  /** The keys of a list of pairs, in order. */
  function KeysOf<K, V>(es: seq<(K, V)>): seq<K>
  {
    seq(|es|, i requires 0 <= i < |es| => es[i].0)
  }

  /** The values of a list of pairs, in order. */
  function ValuesOf<K, V>(es: seq<(K, V)>): seq<V>
  {
    seq(|es|, i requires 0 <= i < |es| => es[i].1)
  }

  /** Listing the keys of two runs of pairs one after the other. */
  lemma KeysOfConcat<K, V>(a: seq<(K, V)>, b: seq<(K, V)>)
    ensures KeysOf(a + b) == KeysOf(a) + KeysOf(b)
  {
  }

  /**
   * Giving an occupied slot a new value keeps its key there, so the keys listed in
   * slot order and the collision count are the same as before.
   */
  lemma {:induction false} ReplaceKeepsLayout<K, V>(hash: K -> nat, s: seq<Bucket<K, V>>, i: nat, v: V, n: nat)
    requires n > 0 && i < |s| && s[i].Occupied?
    ensures KeysOf(Entries(s[i := Occupied(s[i].key, v)])) == KeysOf(Entries(s))
    ensures Collisions(hash, s[i := Occupied(s[i].key, v)], n) == Collisions(hash, s, n)
  {
    var t := s[i := Occupied(s[i].key, v)];
    var m := |s| - 1;
    var tail := if t[m].Occupied? then [(t[m].key, t[m].value)] else [];
    var stail := if s[m].Occupied? then [(s[m].key, s[m].value)] else [];
    if i < m {
      assert t[..m] == s[..m][i := Occupied(s[i].key, v)];
      ReplaceKeepsLayout(hash, s[..m], i, v, n);
      assert tail == stail;
    } else {
      assert t[..m] == s[..m];
      assert KeysOf(tail) == KeysOf(stail);
    }
    KeysOfConcat(Entries(t[..m]), tail);
    KeysOfConcat(Entries(s[..m]), stail);
  }

  /** Every pair listed from the first i slots belongs to a slot below i. */
  lemma EntriesBelow<K, V>(s: seq<Bucket<K, V>>, m: map<K, V>, slot: map<K, nat>, i: nat, k: K, v: V)
    requires Represents(s, m, slot) && i <= |s| && (k, v) in Entries(s[..i])
    ensures k in slot && slot[k] < i
  {
    EntriesMember(s[..i], k, v);
    var j :| 0 <= j < i && s[..i][j] == Occupied(k, v);
    assert s[j] == Occupied(k, v);
  }

  /** No key is listed twice: the keys of the table come out distinct. */
  lemma {:induction false} EntriesKeysUnique<K, V>(s: seq<Bucket<K, V>>, m: map<K, V>, slot: map<K, nat>, i: nat)
    requires Represents(s, m, slot) && i <= |s|
    ensures forall a, b :: 0 <= a < b < |Entries(s[..i])| ==> Entries(s[..i])[a].0 != Entries(s[..i])[b].0
  {
    if i > 0 {
      EntriesKeysUnique(s, m, slot, i - 1);
      EntriesSnoc(s, i - 1);
      var prev := Entries(s[..i - 1]);
      var es := Entries(s[..i]);
      if s[i - 1].Occupied? {
        forall a | 0 <= a < |prev|
          ensures es[a].0 != s[i - 1].key
        {
          assert es[a] == prev[a] && prev[a] in prev;
          EntriesBelow(s, m, slot, i - 1, prev[a].0, prev[a].1);
        }
      }
    }
  }

  /**
   * A list holding exactly the pairs of m lists each key of m and only those, and
   * pairs each listed key with its value in m.
   */
  lemma ListedPairs<K, V>(es: seq<(K, V)>, m: map<K, V>)
    requires forall k, v :: (k, v) in es <==> k in m && m[k] == v
    ensures forall k :: k in KeysOf(es) <==> k in m
    ensures forall a :: 0 <= a < |es| ==> KeysOf(es)[a] in m && m[KeysOf(es)[a]] == ValuesOf(es)[a]
  {
    forall k ensures k in KeysOf(es) <==> k in m {
      if k in m {
        assert (k, m[k]) in es;
        var a :| 0 <= a < |es| && es[a] == (k, m[k]);
        assert KeysOf(es)[a] == k;
      }
      if k in KeysOf(es) {
        var a :| 0 <= a < |es| && KeysOf(es)[a] == k;
        assert es[a] in es;
      }
    }
    forall a | 0 <= a < |es|
      ensures KeysOf(es)[a] in m && m[KeysOf(es)[a]] == ValuesOf(es)[a]
    {
      assert es[a] in es;
    }
  }

  /**
   * What ht_keys and ht_values hand out: as many keys as the map has, each key of
   * the map exactly once, and the value at each position is the map's value for
   * the key at that position.
   */
  lemma KeysAndValuesOfContents<K, V>(s: seq<Bucket<K, V>>, m: map<K, V>, slot: map<K, nat>)
    requires Represents(s, m, slot)
    ensures |KeysOf(Entries(s))| == |ValuesOf(Entries(s))| == |m|
    ensures forall k :: k in KeysOf(Entries(s)) <==> k in m
    ensures forall a, b :: 0 <= a < b < |KeysOf(Entries(s))| ==> KeysOf(Entries(s))[a] != KeysOf(Entries(s))[b]
    ensures forall a :: 0 <= a < |KeysOf(Entries(s))| ==>
              KeysOf(Entries(s))[a] in m && m[KeysOf(Entries(s))[a]] == ValuesOf(Entries(s))[a]
  {
    EntriesKeysDistinct(s, m, slot);
    EntriesAreContents(s, m, slot);
    EntriesKeysUnique(s, m, slot, |s|);
    assert s[..|s|] == s;
    ListedPairs(Entries(s), m);
  }
}
