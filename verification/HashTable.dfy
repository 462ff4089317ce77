/**
  The open-addressing hash table of src/utils/hashtable.c: an entries array probed
  linearly, updated in place and rehashed into a larger array.  It refines a finite map.
*/
module HashTables {
  import opened Common
  import opened Ring
  import opened HashSpec

  const PRIMES: seq<nat> := [
    2, 3, 5, 7, 11, 13, 17, 19, 23, 29, 31, 37, 41, 43,
    47, 53, 59, 61, 67, 71, 73, 79, 83, 89, 97, 101, 103,
    107, 109, 113, 127, 131, 137, 139, 149, 151, 157, 163,
    167, 173, 179, 181, 191, 193, 197, 199, 211, 223, 227,
    229, 233, 239, 241, 251, 257, 263, 269, 271, 277, 281,
    283, 293, 307, 311
  ]

  /** No prime of the table exceeds `n`. */
  ghost predicate BeyondPrimes(n: nat) {
    forall p :: p in PRIMES ==> p <= n
  }

  lemma SmallDemand(n: nat)
    requires n < 311
    ensures !BeyondPrimes(n)
  {
    assert PRIMES[63] == 311 && 311 in PRIMES;
  }

  /** Entry `i` of the table is the first above `n`. */
  ghost predicate FirstAbove(n: nat, i: int) {
    0 <= i < |PRIMES| && PRIMES[i] > n && forall j :: 0 <= j < i ==> PRIMES[j] <= n
  }

  ghost predicate PrimeAbove(n: nat, p: nat) {
    exists i :: FirstAbove(n, i) && PRIMES[i] == p
  }

  /** ht_find_prime: the first table entry above `n`; no entry means the kernel aborts. */
  method FindPrime(n: nat) returns (r: Option<nat>)
    ensures r.Some? ==> n < r.value && PrimeAbove(n, r.value)
    ensures r.None? <==> BeyondPrimes(n)
  {
    var i := 0;
    while i < |PRIMES|
      invariant 0 <= i <= |PRIMES|
      invariant forall j :: 0 <= j < i ==> PRIMES[j] <= n
    {
      if n < PRIMES[i] {
        assert FirstAbove(n, i) && PRIMES[i] in PRIMES;
        return Some(PRIMES[i]);
      }
      i := i + 1;
    }
    return None;
  }

  datatype Outcome = Stored | Full | Aborted

  class HashTable<K(==), V> {
    const hash: K -> nat    // ht_key
    const maxLoad: nat      // in percent
    const resizable: bool   // HT_RESIZE
    var entries: array<Slot<K, V>>
    var capacity: nat
    var size: nat           // slots that are not EMPTY, tombstones included
    ghost var model: map<K, V>

    /** The load arithmetic: room for one EMPTY slot now and after the next store. */
    ghost predicate LoadOk()
      reads this
    {
      && capacity * (100 - maxLoad) > 100 && capacity * maxLoad >= 100
      && size < capacity
      && (size > 0 ==> !Overloaded(size - 1, capacity, maxLoad))
    }

    ghost predicate Valid()
      reads this, entries
    {
      && capacity == entries.Length > 0
      && Refines(entries[..], hash, model)
      && size == Used(entries[..])
      && LoadOk()
    }

    constructor (hash: K -> nat, capacity: nat, maxLoad: nat, resizable: bool)
      requires capacity > 0
      ensures this.hash == hash && this.maxLoad == maxLoad && this.resizable == resizable
      ensures this.capacity == capacity && size == 0 && model == map[] && fresh(entries)
      ensures capacity * (100 - maxLoad) > 100 && capacity * maxLoad >= 100 ==> Valid()
    {
      this.hash := hash;
      this.maxLoad := maxLoad;
      this.resizable := resizable;
      this.capacity := capacity;
      size := 0;
      model := map[];
      entries := new Slot<K, V>[capacity](_ => Empty);
      new;
      UsedAllEmpty(entries[..]);
    }

    /** The probe loop of ht_get and ht_remove: up to the key or an EMPTY slot. */
    method FindEntry(k: K) returns (entry: nat, found: bool)
      requires Valid()
      ensures entry < capacity && (found <==> k in model)
      ensures found ==> entries[entry].Holds(k)
    {
      var index: nat := Home(hash, k, capacity);
      ghost var home := index;
      entry := index;
      ghost var slots := entries[..];
      ghost var e := EmptySlot(slots);
      assert NotMet(slots, home, entry, k) && Walk(capacity, home, index, entry, e);
      hide NotMet, Refines, Used, Dist, Walk;
      while !entries[entry].Empty?
        invariant entry < capacity && Walk(capacity, home, index, entry, e) && NotMet(slots, home, entry, k)
        decreases capacity - Dist(home, entry, capacity)
      {
        assert slots[entry] == entries[entry];
        if entries[entry].Valid? && entries[entry].key == k {
          RefinesHolds(slots, hash, model, entry);
          return entry, true;
        }
        NotMetOn(slots, home, index, entry, e, k);
        index := index + 1;
        entry := index % capacity;
      }
      assert slots[entry].Empty?;
      EmptyMeansAbsent(slots, hash, model, k, entry);
      return entry, false;
    }

    /** ht_get. */
    method Get(k: K) returns (r: Option<V>)
      requires Valid()
      ensures r == if k in model then Some(model[k]) else None
    {
      var entry, found := FindEntry(k);
      if found {
        assert entries[..][entry].Valid?;
        return Some(entries[entry].value);
      }
      return None;
    }

    /** The probe loop of ht_set: where the key goes. */
    method FindStop(k: K) returns (entry: nat)
      requires capacity == entries.Length && Used(entries[..]) < capacity
      ensures entry < capacity && StopsAt(entries[..], Home(hash, k, capacity), k, entry)
    {
      var index: nat := Home(hash, k, capacity);
      ghost var home := index;
      entry := index;
      ghost var slots := entries[..];
      ghost var e := EmptySlot(slots);
      while entries[entry].Valid?
        invariant Walk(capacity, home, index, entry, e)
        invariant forall j :: 0 <= j < capacity && Dist(home, j, capacity) < Dist(home, entry, capacity) ==>
                    slots[j].Valid? && slots[j].key != k
        decreases capacity - Dist(home, entry, capacity)
      {
        if entries[entry].key == k {
          return;
        }
        assert slots[entry].Valid? && slots[entry].key != k;
        WalkOn(capacity, home, index, entry, e);
        index := index + 1;
        entry := index % capacity;
      }
    }

    /** The end of ht_set: the key is written to the slot the probe stopped at. */
    method PutAt(entry: nat, k: K, v: V)
      requires Valid() && !Overloaded(size, capacity, maxLoad)
      requires entry < capacity && StopsAt(entries[..], Home(hash, k, capacity), k, entry)
      modifies this`size, this`model, entries
      ensures entries[..] == old(entries[..])[entry := Slot.Valid(k, v)]
      ensures old(size) <= size <= old(size) + 1 && model == old(model)[k := v]
      ensures !Shadowed(old(entries[..]), Home(hash, k, capacity), k) ==> Valid()
    {
      ghost var slots := entries[..];
      if entries[entry].Empty? {
        size := size + 1;
      }
      entries[entry] := Slot.Valid(k, v);
      assert entries[..] == slots[entry := Slot.Valid(k, v)];
      UsedUpdate(slots, entry, Slot.Valid(k, v));
      GateSparesLastSlotIff(capacity, maxLoad);
      if !Shadowed(slots, Home(hash, k, capacity), k) {
        StopIsKeySlot(slots, hash, k, entry);
        StoreRefines(slots, hash, model, k, v, entry);
      }
      model := model[k := v];
    }

    /**
      ht_set.  Stores the key unless the gate is shut on a table that may not grow.  The
      result is the map update, except that a store not preceded by a rehash must not be
      for a key shadowed by a tombstone.  The measure shows that a rehash never nests.
    */
    method Set(k: K, v: V) returns (r: Outcome)
      requires Valid()
      modifies this, entries
      ensures entries == old(entries) || fresh(entries)
      ensures r == Full <==> Overloaded(old(size), old(capacity), maxLoad) && !resizable
      ensures r == Full ==> Valid() && model == old(model) && entries == old(entries) && entries[..] == old(entries[..])
      ensures r == Full ==> size == old(size) && capacity == old(capacity)
      ensures r == Stored ==> model == old(model)[k := v]
      ensures r == Aborted <==>
                Overloaded(old(size), old(capacity), maxLoad) && resizable && BeyondPrimes(old(capacity) * 2)
      ensures r == Aborted ==> capacity == old(capacity)
      ensures r == Stored && Overloaded(old(size), old(capacity), maxLoad) ==> Valid()
      ensures r == Stored && !Shadowed(old(entries[..]), Home(hash, k, old(capacity)), k) ==> Valid()
      ensures !Overloaded(old(size), old(capacity), maxLoad) ==>
                && r == Stored && entries == old(entries) && capacity == old(capacity) && size <= old(size) + 1
                && OneStore(old(entries[..]), entries[..], k, v)
      decreases if Overloaded(size, capacity, maxLoad) then 3 else 0
    {
      hide BeyondPrimes;
      if Overloaded(size, capacity, maxLoad) {
        if !resizable {
          return Full;
        }
        var ok := Resize();
        if !ok {
          return Aborted;
        }
      }
      var entry := FindStop(k);
      PutAt(entry, k, v);
      return Stored;
    }

    /** The end of ht_remove: the slot becomes EMPTY if the next one is, else a tombstone. */
    method EraseAt(entry: nat)
      requires Valid() && entry < capacity && entries[entry].Valid?
      modifies this`size, this`model, entries
      ensures Valid() && model == old(model) - {old(entries[entry]).key}
      ensures if old(entries[Next(entry, capacity)]).Empty?
              then entries[..] == old(entries[..])[entry := Empty] && size == old(size) - 1
              else entries[..] == old(entries[..])[entry := Tombstone] && size == old(size)
    {
      ghost var slots := entries[..];
      var next := (entry + 1) % capacity;
      ModWraps(entry + 1, capacity);
      assert next == Next(entry, capacity);
      ghost var key := entries[entry].key;
      if entries[next].Empty? {
        SizePositive(slots, entry);
        size := size - 1;
        entries[entry] := Empty;
      } else {
        entries[entry] := Tombstone;
      }
      assert entries[..] == slots[entry := Erased(slots, entry)];
      UsedUpdate(slots, entry, Erased(slots, entry));
      EraseRefines(slots, hash, model, entry);
      model := model - {key};
    }

    /** ht_remove: false is the source's -1, for a key that is not there. */
    method Remove(k: K) returns (ok: bool)
      requires Valid()
      modifies this`size, this`model, entries
      ensures Valid() && model == old(model) - {k} && (ok <==> k in old(model))
    {
      var entry;
      entry, ok := FindEntry(k);
      if ok {
        EraseAt(entry);
      }
    }

    /** The loop of ht_resize: every valid entry of the old array is stored in the new one. */
    method Rehash(oldEntries: array<Slot<K, V>>)
      requires Valid() && model == map[] && size == 0 && NoTombstones(entries[..]) && capacity >= oldEntries.Length
      requires oldEntries != entries && Unique(oldEntries[..])
      requires Used(oldEntries[..]) > 0 ==> !Overloaded(Used(oldEntries[..]) - 1, oldEntries.Length, maxLoad)
      modifies this, entries
      ensures Valid() && Models(oldEntries[..], model) && NoTombstones(entries[..]) && size <= Used(oldEntries[..])
      ensures entries == old(entries) && capacity == old(capacity)
      decreases 1
    {
      hide Refines, Models, Unique, Used, Overloaded;
      ghost var slots, oldCap := oldEntries[..], oldEntries.Length;
      NothingCopied(slots);
      var i := 0;
      while i < oldEntries.Length
        invariant 0 <= i <= oldCap && oldEntries[..] == slots && entries == old(entries) && capacity == old(capacity)
        invariant Valid() && Models(slots[..i], model) && size <= Used(slots[..i]) && NoTombstones(entries[..])
      {
        UsedPrefix(slots, i);
        ModelsExtend(slots, i, model);
        if oldEntries[i].Valid? {
          RehashFits(size, Used(slots), oldCap, capacity, maxLoad);
          NotShadowedFresh(entries[..], Home(hash, oldEntries[i].key, capacity), oldEntries[i].key);
          var r := Set(oldEntries[i].key, oldEntries[i].value);
        }
        i := i + 1;
      }
      assert slots[..i] == slots;
    }

    /** ht_resize: the same map in an array of more than twice the size. */
    method Resize() returns (ok: bool)
      requires Valid() && Overloaded(size, capacity, maxLoad)
      modifies this
      ensures ok ==> Valid() && model == old(model) && fresh(entries) && !Overloaded(size, capacity, maxLoad)
      ensures ok ==> NoTombstones(entries[..]) && PrimeAbove(old(capacity) * 2, capacity)
      ensures !ok ==> entries == old(entries) && capacity == old(capacity)
      ensures ok <==> !BeyondPrimes(old(capacity) * 2)
      decreases 2
    {
      RefinesParts(entries[..], hash, model);
      hide Refines, Models, Unique, Used, BeyondPrimes, PrimeAbove;
      var oldEntries := entries;
      ghost var slots, oldSize, oldCap := entries[..], size, capacity;
      size := 0;
      var prime := FindPrime(capacity * 2);
      if prime.None? {
        return false;
      }
      capacity := prime.value;
      entries := new Slot<K, V>[capacity](_ => Empty);
      model := map[];
      AllEmptyRefines(entries[..], hash);
      LoadGrows(oldCap, capacity, maxLoad);
      Rehash(oldEntries);
      ModelsUnique(slots, model, old(model));
      DoublingMakesRoom(oldSize, oldCap, capacity, maxLoad);
      SmallerFits(size, oldSize, capacity, maxLoad);
      return true;
    }
  }

  lemma NothingCopied<K, V>(slots: seq<Slot<K, V>>)
    ensures Models(slots[..0], map[]) && Used(slots[..0]) == 0
  {
  }

  lemma NotShadowedFresh<K, V>(slots: seq<Slot<K, V>>, home: nat, k: K)
    requires NoTombstones(slots) && home < |slots|
    ensures !Shadowed(slots, home, k)
  {
  }

  lemma LoadGrows(cap: nat, bigger: nat, maxLoad: nat)
    requires cap * (100 - maxLoad) > 100 && cap * maxLoad >= 100 && bigger >= cap
    ensures bigger * (100 - maxLoad) > 100 && bigger * maxLoad >= 100
  {
    assert 100 - maxLoad <= 0 ==> cap * (100 - maxLoad) <= 0;
    assert bigger * (100 - maxLoad) >= cap * (100 - maxLoad);
    assert bigger * maxLoad >= cap * maxLoad;
  }

  /** ht_create, with its 32-bit size computation; a demand beyond the prime table aborts. */
  method Create<K(==), V>(hash: K -> nat, maxSize: nat, maxLoad: nat, resizable: bool)
    returns (t: Option<HashTable<K, V>>)
    requires maxLoad > 0
    ensures t.Some? ==> fresh(t.value) && fresh(t.value.entries) && t.value.model == map[] && t.value.hash == hash
    ensures t.Some? ==> t.value.maxLoad == maxLoad && t.value.resizable == resizable
    ensures t.Some? ==> t.value.capacity > maxSize * 100 % TWO32 / maxLoad
    ensures t.Some? ==> PrimeAbove(maxSize * 100 % TWO32 / maxLoad, t.value.capacity)
    ensures t.Some? && 0 < maxSize * 100 < TWO32 && t.value.capacity * (100 - maxLoad) > 100 ==> t.value.Valid()
    ensures t.None? <==> BeyondPrimes(maxSize * 100 % TWO32 / maxLoad)
  {
    hide PrimeAbove, BeyondPrimes;
    var n: nat := maxSize * 100 % TWO32 / maxLoad;
    var cap := FindPrime(n);
    if cap.None? {
      return None;
    }
    if 0 < maxSize * 100 < TWO32 {
      ChosenCapacity(maxSize * 100, maxLoad, n, cap.value);
    }
    var table := new HashTable(hash, cap.value, maxLoad, resizable);
    return Some(table);
  }

  /** A capacity above maxSize * 100 / maxLoad leaves the gate open for at least one entry. */
  lemma ChosenCapacity(demand: nat, maxLoad: nat, n: nat, cap: nat)
    requires demand >= 100 && maxLoad > 0 && n == demand / maxLoad && cap > n
    ensures cap * maxLoad >= 100
  {
  }

  // ---------- Whole runs ----------

  /** How bio_get and inode_get use a table: look up first, store only what is absent. */
  datatype Call<K, V> = Intern(key: K, value: V) | Drop(key: K)

  datatype Answer<V> = Found(value: V) | Set(outcome: Outcome) | Dropped(ok: bool)

  /** The map after a call that got this answer. */
  function After<K(==), V>(m: map<K, V>, c: Call<K, V>, a: Answer<V>): map<K, V> {
    match c
    case Intern(k, v) => if a.Set? && a.outcome == Stored then m[k := v] else m
    case Drop(k) => m - {k}
  }

  /** The answer a map would give; only the capacity decides between Stored and Full. */
  predicate Honest<K(==), V(==)>(m: map<K, V>, c: Call<K, V>, a: Answer<V>) {
    match c
    case Intern(k, v) => if k in m then a == Found(m[k]) else a.Set? && a.outcome != Aborted
    case Drop(k) => a == Dropped(k in m)
  }

  method Serve<K(==), V>(t: HashTable<K, V>, c: Call<K, V>) returns (a: Answer<V>)
    requires t.Valid()
    modifies t, t.entries
    ensures t.entries == old(t.entries) || fresh(t.entries)
    ensures a == Set(Full) <==>
              c.Intern? && c.key !in old(t.model) && Overloaded(old(t.size), old(t.capacity), t.maxLoad) && !t.resizable
    ensures a == Set(Aborted) ==> t.resizable && BeyondPrimes(t.capacity * 2)
    ensures a != Set(Aborted) ==> t.Valid() && t.model == After(old(t.model), c, a) && Honest(old(t.model), c, a)
  {
    match c {
      case Intern(k, v) =>
        var found := t.Get(k);
        if found.Some? {
          return Found(found.value);
        }
        NotShadowed(t.entries[..], t.model, k, Home(t.hash, k, t.capacity));
        var outcome := t.Set(k, v);
        return Set(outcome);
      case Drop(k) =>
        var ok := t.Remove(k);
        return Dropped(ok);
    }
  }

  /**
    Any sequence of such calls is answered as by a finite map.  The run stops early only
    when the prime table is exhausted.
  */
  method Run<K(==), V>(t: HashTable<K, V>, calls: seq<Call<K, V>>)
    returns (answers: seq<Answer<V>>, ghost maps: seq<map<K, V>>)
    requires t.Valid()
    modifies t, t.entries
    ensures |answers| <= |calls| && |maps| == |answers| + 1 && maps[0] == old(t.model)
    ensures forall i :: 0 <= i < |answers| ==> Honest(maps[i], calls[i], answers[i])
    ensures forall i :: 0 <= i < |answers| ==> After(maps[i], calls[i], answers[i]) == maps[i + 1]
    ensures t.resizable ==> forall i :: 0 <= i < |answers| ==> answers[i] != Set(Full)
    ensures |answers| == |calls| ==> t.Valid() && t.model == maps[|calls|]
    ensures |answers| < |calls| ==> t.resizable && BeyondPrimes(t.capacity * 2)
  {
    answers, maps := [], [t.model];
    var i := 0;
    while i < |calls|
      invariant 0 <= i == |answers| <= |calls| && |maps| == i + 1 && maps[0] == old(t.model)
      invariant t.Valid() && t.model == maps[i] && (t.entries == old(t.entries) || fresh(t.entries))
      invariant forall j :: 0 <= j < i ==> Honest(maps[j], calls[j], answers[j])
      invariant forall j :: 0 <= j < i ==> After(maps[j], calls[j], answers[j]) == maps[j + 1]
      invariant t.resizable ==> forall j :: 0 <= j < i ==> answers[j] != Set(Full)
    {
      var a := Serve(t, calls[i]);
      if a.Set? && a.outcome == Aborted {
        return;
      }
      answers, maps := answers + [a], maps + [t.model];
      i := i + 1;
    }
  }

  lemma NotShadowed<K, V>(slots: seq<Slot<K, V>>, m: map<K, V>, k: K, home: nat)
    requires Models(slots, m) && k !in m && home < |slots|
    ensures !Shadowed(slots, home, k)
  {
  }

  /** A slot in use makes the count of slots in use positive. */
  lemma SizePositive<K, V>(slots: seq<Slot<K, V>>, i: nat)
    requires i < |slots| && !slots[i].Empty?
    ensures Used(slots) > 0
  {
    UsedUpdate(slots, i, Empty);
  }
}
