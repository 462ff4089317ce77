/**
  The slots of src/utils/hashtable.c as a value: linear probing with tombstones, what the
  probe loops rely on, and which slot updates keep it.
*/
module HashSpec {
  import opened Ring

  /** HT_EMPTY, HT_VALID and HT_TOMBSTONE; only valid slots have a key that is ever read. */
  datatype Slot<K(==), V> = Empty | Valid(key: K, value: V) | Tombstone {
    predicate Holds(k: K) {
      Valid? && key == k
    }
  }

  function Home<K>(hash: K -> nat, k: K, cap: nat): (r: nat)
    requires cap > 0
    ensures r < cap
  {
    hash(k) % cap
  }

  /** The hash and the home differ by whole rounds. */
  lemma HomeIsResidue<K>(hash: K -> nat, k: K, cap: nat)
    requires cap > 0
    ensures hash(k) == hash(k) / cap * cap + Home(hash, k, cap)
  {
  }

  // ---------- The table invariant ----------

  /** No EMPTY slot on the way from `home` to slot `i`. */
  ghost predicate Reaches<K, V>(slots: seq<Slot<K, V>>, home: nat, i: nat)
    requires home < |slots| && i < |slots|
  {
    forall j :: 0 <= j < |slots| && Dist(home, j, |slots|) < Dist(home, i, |slots|) ==> !slots[j].Empty?
  }

  ghost predicate Unique<K, V>(slots: seq<Slot<K, V>>) {
    forall i, j :: 0 <= i < |slots| && 0 <= j < |slots| && slots[i].Valid? && slots[j].Holds(slots[i].key) ==> i == j
  }

  ghost predicate Probed<K, V>(slots: seq<Slot<K, V>>, hash: K -> nat) {
    forall i :: 0 <= i < |slots| && slots[i].Valid? ==> Reaches(slots, Home(hash, slots[i].key, |slots|), i)
  }

  ghost predicate HasKey<K, V>(slots: seq<Slot<K, V>>, k: K) {
    exists i :: 0 <= i < |slots| && slots[i].Holds(k)
  }

  /** The valid slots spell out the map `m`. */
  ghost predicate Models<K, V>(slots: seq<Slot<K, V>>, m: map<K, V>) {
    && (forall i :: 0 <= i < |slots| && slots[i].Valid? ==> slots[i].key in m && m[slots[i].key] == slots[i].value)
    && (forall k :: k in m ==> HasKey(slots, k))
  }

  ghost predicate Refines<K, V>(slots: seq<Slot<K, V>>, hash: K -> nat, m: map<K, V>) {
    |slots| > 0 && Unique(slots) && Probed(slots, hash) && Models(slots, m)
  }

  // ---------- Counting the slots in use ----------

  ghost function Used<K, V>(slots: seq<Slot<K, V>>): (n: nat)
    ensures n <= |slots|
  {
    if slots == [] then 0 else (if slots[0].Empty? then 0 else 1) + Used(slots[1..])
  }

  lemma {:induction false} UsedUpdate<K, V>(slots: seq<Slot<K, V>>, i: nat, s: Slot<K, V>)
    requires i < |slots|
    ensures Used(slots[i := s]) == Used(slots) - (if slots[i].Empty? then 0 else 1) + (if s.Empty? then 0 else 1)
    decreases i
  {
    if i == 0 {
      assert slots[0 := s][1..] == slots[1..];
    } else {
      UsedUpdate(slots[1..], i - 1, s);
      assert slots[i := s][1..] == slots[1..][i - 1 := s];
    }
  }

  /** Fewer slots in use than slots: some slot is EMPTY. */
  lemma {:induction false} EmptySlot<K, V>(slots: seq<Slot<K, V>>) returns (e: nat)
    requires Used(slots) < |slots|
    ensures e < |slots| && slots[e].Empty?
    decreases |slots|
  {
    if slots[0].Empty? {
      e := 0;
    } else {
      e := EmptySlot(slots[1..]);
      e := e + 1;
    }
  }

  lemma {:induction false} UsedAllEmpty<K, V>(slots: seq<Slot<K, V>>)
    requires forall i :: 0 <= i < |slots| ==> slots[i].Empty?
    ensures Used(slots) == 0
    decreases |slots|
  {
    if slots == [] {
    } else {
      UsedAllEmpty(slots[1..]);
    }
  }

  lemma {:induction false} UsedPrefix<K, V>(slots: seq<Slot<K, V>>, i: nat)
    requires i < |slots|
    ensures Used(slots[..i + 1]) == Used(slots[..i]) + (if slots[i].Empty? then 0 else 1)
    ensures Used(slots[..i + 1]) <= Used(slots)
    decreases i
  {
    if i == 0 {
      assert slots[..1][1..] == [];
      assert slots[..0] == [];
    } else {
      UsedPrefix(slots[1..], i - 1);
      assert slots[..i + 1][1..] == slots[1..][..i] && slots[..i][1..] == slots[1..][..i - 1];
    }
  }

  // ---------- Storing a key ----------

  /** Slot `i` is where ht_set stops: the first one on the path that is not valid or has the key. */
  ghost predicate StopsAt<K, V>(slots: seq<Slot<K, V>>, home: nat, k: K, i: nat)
    requires home < |slots| && i < |slots|
  {
    && (slots[i].Valid? ==> slots[i].key == k)
    && forall j :: 0 <= j < |slots| && Dist(home, j, |slots|) < Dist(home, i, |slots|) ==>
         slots[j].Valid? && slots[j].key != k
  }

  /** The key sits further down its path than a tombstone. */
  ghost predicate Shadowed<K, V>(slots: seq<Slot<K, V>>, home: nat, k: K)
    requires home < |slots|
  {
    exists i, j :: 0 <= i < |slots| && 0 <= j < |slots| && slots[i].Holds(k) && slots[j].Tombstone? &&
                   Dist(home, j, |slots|) < Dist(home, i, |slots|)
  }

  /** Unless the key is shadowed, the slot ht_set picks is the only one that could hold it. */
  lemma StopIsKeySlot<K, V>(slots: seq<Slot<K, V>>, hash: K -> nat, k: K, i: nat)
    requires |slots| > 0 && Unique(slots) && Probed(slots, hash) && i < |slots|
    requires StopsAt(slots, Home(hash, k, |slots|), k, i) && !Shadowed(slots, Home(hash, k, |slots|), k)
    ensures forall j :: 0 <= j < |slots| && slots[j].Holds(k) ==> j == i
  {
    var home := Home(hash, k, |slots|);
    forall j | 0 <= j < |slots| && slots[j].Holds(k)
      ensures j == i
    {
      assert Reaches(slots, home, j);
      DistInjective(home, i, j, |slots|);
    }
  }

  lemma StoreReaches<K, V>(slots: seq<Slot<K, V>>, k: K, v: V, i: nat, home: nat, j: nat)
    requires i < |slots| && j < |slots| && home < |slots| && Reaches(slots, home, j)
    ensures Reaches(slots[i := Valid(k, v)], home, j)
  {
  }

  /** Storing at that slot inserts or updates exactly that key. */
  lemma StoreRefines<K, V>(slots: seq<Slot<K, V>>, hash: K -> nat, m: map<K, V>, k: K, v: V, i: nat)
    requires Refines(slots, hash, m) && i < |slots|
    requires StopsAt(slots, Home(hash, k, |slots|), k, i)
    requires forall j :: 0 <= j < |slots| && slots[j].Holds(k) ==> j == i
    ensures Refines(slots[i := Valid(k, v)], hash, m[k := v])
  {
    var after := slots[i := Valid(k, v)];
    forall j | 0 <= j < |after| && after[j].Valid?
      ensures Reaches(after, Home(hash, after[j].key, |after|), j)
    {
      if j == i {
        assert forall n :: 0 <= n < |slots| && n != i ==> after[n] == slots[n];
      } else {
        assert Reaches(slots, Home(hash, slots[j].key, |slots|), j);
        StoreReaches(slots, k, v, i, Home(hash, slots[j].key, |slots|), j);
      }
    }
    StoreModels(slots, m, k, v, i);
  }

  lemma StoreModels<K, V>(slots: seq<Slot<K, V>>, m: map<K, V>, k: K, v: V, i: nat)
    requires Models(slots, m) && i < |slots| && (slots[i].Valid? ==> slots[i].key == k)
    requires forall j :: 0 <= j < |slots| && slots[j].Holds(k) ==> j == i
    ensures Models(slots[i := Valid(k, v)], m[k := v])
  {
    var after := slots[i := Valid(k, v)];
    assert after[i].Holds(k);
    forall c | c in m && c != k
      ensures HasKey(after, c)
    {
      assert HasKey(slots, c);
      var j :| 0 <= j < |slots| && slots[j].Holds(c);
      assert after[j].Holds(c);
    }
  }

  /**
    ht_set keeps keys unique exactly when the key is not shadowed by a tombstone; otherwise
    it stores a second copy in front of the first.
  */
  lemma StoreUniqueIff<K, V>(slots: seq<Slot<K, V>>, hash: K -> nat, m: map<K, V>, k: K, v: V, i: nat)
    requires Refines(slots, hash, m) && i < |slots|
    requires StopsAt(slots, Home(hash, k, |slots|), k, i)
    ensures Unique(slots[i := Valid(k, v)]) <==> !Shadowed(slots, Home(hash, k, |slots|), k)
  {
    var home := Home(hash, k, |slots|);
    if Shadowed(slots, home, k) {
      var j, t :| 0 <= j < |slots| && 0 <= t < |slots| && slots[j].Holds(k) && slots[t].Tombstone? &&
                  Dist(home, t, |slots|) < Dist(home, j, |slots|);
      assert Dist(home, i, |slots|) <= Dist(home, t, |slots|);
      var after := slots[i := Valid(k, v)];
      assert i != j && after[i].Holds(k) && after[j].Holds(k);
    } else {
      StopIsKeySlot(slots, hash, k, i);
      StoreRefines(slots, hash, m, k, v, i);
    }
  }

  // ---------- Erasing a key ----------

  /** What ht_remove leaves behind: EMPTY when the next slot is EMPTY, a tombstone otherwise. */
  ghost function Erased<K, V>(slots: seq<Slot<K, V>>, i: nat): Slot<K, V>
    requires i < |slots|
  {
    if slots[Next(i, |slots|)].Empty? then Empty else Tombstone
  }

  /** Writing EMPTY is safe: a path through slot `i` would go on to the EMPTY slot behind it. */
  lemma EraseReaches<K, V>(slots: seq<Slot<K, V>>, i: nat, home: nat, j: nat)
    requires i < |slots| && j < |slots| && j != i && home < |slots|
    requires slots[j].Valid? && Reaches(slots, home, j)
    ensures Reaches(slots[i := Erased(slots, i)], home, j)
  {
    var n := Next(i, |slots|);
    DistNext(home, i, |slots|);
    if Dist(home, i, |slots|) < Dist(home, j, |slots|) {
      DistInjective(home, n, j, |slots|);
      assert !slots[n].Empty?;
    }
  }

  lemma EraseRefines<K, V>(slots: seq<Slot<K, V>>, hash: K -> nat, m: map<K, V>, i: nat)
    requires Refines(slots, hash, m) && i < |slots| && slots[i].Valid?
    ensures Refines(slots[i := Erased(slots, i)], hash, m - {slots[i].key})
  {
    var after := slots[i := Erased(slots, i)];
    forall j | 0 <= j < |after| && after[j].Valid?
      ensures Reaches(after, Home(hash, after[j].key, |after|), j)
    {
      assert Reaches(slots, Home(hash, slots[j].key, |slots|), j);
      EraseReaches(slots, i, Home(hash, slots[j].key, |slots|), j);
    }
    forall c | c in m && c != slots[i].key
      ensures HasKey(after, c)
    {
      assert HasKey(slots, c);
      var j :| 0 <= j < |slots| && slots[j].Holds(c);
      assert after[j].Holds(c);
    }
  }

  /** Five slots in which keys 1 and 2, both at home in slot 0, were stored one after the other. */
  function TwoKeys(): seq<Slot<nat, nat>> {
    [Valid(1, 10), Valid(2, 20), Empty, Empty, Empty]
  }

  function OneHome(): nat -> nat {
    _ => 0
  }

  lemma TwoKeysStored()
    ensures var empty: seq<Slot<nat, nat>> := [Empty, Empty, Empty, Empty, Empty];
            && Refines(empty, OneHome(), map[]) && StopsAt(empty, 0, 1, 0)
            && StopsAt(empty[0 := Valid(1, 10)], 0, 2, 1)
            && TwoKeys() == empty[0 := Valid(1, 10)][1 := Valid(2, 20)]
            && Refines(TwoKeys(), OneHome(), map[1 := 10][2 := 20])
  {
    hide Refines, HasKey;
    var empty: seq<Slot<nat, nat>> := [Empty, Empty, Empty, Empty, Empty];
    AllEmptyRefines(empty, OneHome());
    StoreRefines(empty, OneHome(), map[], 1, 10, 0);
    StoreRefines(empty[0 := Valid(1, 10)], OneHome(), map[1 := 10], 2, 20, 1);
  }

  /**
    Removing key 1 leaves a tombstone in front of key 2, and setting key 2 again, with the
    load gate open, stores it a second time.
  */
  lemma SetBehindTombstoneDuplicates()
    ensures var removed := TwoKeys()[0 := Erased(TwoKeys(), 0)];
            && removed[0] == Tombstone && Refines(removed, OneHome(), map[2 := 20])
            && !Overloaded(2, 5, 75) && StopsAt(removed, 0, 2, 0) && Shadowed(removed, 0, 2)
            && !Unique(removed[0 := Valid(2, 30)])
  {
    hide Refines, Unique, HasKey;
    var removed := TwoKeys()[0 := Erased(TwoKeys(), 0)];
    TwoKeysStored();
    EraseRefines(TwoKeys(), OneHome(), map[1 := 10][2 := 20], 0);
    assert map[1 := 10][2 := 20] - {1} == map[2 := 20];
    assert removed[1].Holds(2) && removed[0].Tombstone?;
    StoreUniqueIff(removed, OneHome(), map[2 := 20], 2, 30, 0);
  }

  // ---------- Looking a key up ----------

  /** Reaching an EMPTY slot without having met the key proves it absent. */
  lemma EmptyMeansAbsent<K, V>(slots: seq<Slot<K, V>>, hash: K -> nat, m: map<K, V>, k: K, e: nat)
    requires Refines(slots, hash, m) && e < |slots| && slots[e].Empty?
    requires NotMet(slots, Home(hash, k, |slots|), e, k)
    ensures k !in m
  {
    if k in m {
      assert HasKey(slots, k);
      var j :| 0 <= j < |slots| && slots[j].Holds(k);
      assert Reaches(slots, Home(hash, k, |slots|), j);
      DistInjective(Home(hash, k, |slots|), j, e, |slots|);
    }
  }

  // ---------- The load gate ----------

  predicate Overloaded(size: nat, cap: nat, maxLoad: nat) {
    size * 100 > cap * maxLoad
  }

  /**
    The gate refuses to fill the last slot exactly when capacity * (100 - maxLoad) > 100;
    below that an absent key would be probed for ever.
  */
  lemma GateSparesLastSlotIff(cap: nat, maxLoad: nat)
    requires cap > 0
    ensures (forall size: nat :: size < cap && !Overloaded(size, cap, maxLoad) ==> size + 1 < cap) <==>
            cap * (100 - maxLoad) > 100
  {
    assert cap * (100 - maxLoad) == cap * 100 - cap * maxLoad;
    if cap * (100 - maxLoad) <= 100 {
      assert !Overloaded(cap - 1, cap, maxLoad);
    }
  }

  /**
    Two slots at 75 percent, what a demand for one entry gets: two stores pass the gate and
    leave no EMPTY slot, so that a probe for key 3 meets neither the key nor an end.
  */
  lemma GateFillsTwoSlots()
    ensures var empty: seq<Slot<nat, nat>> := [Empty, Empty];
            var one, two := empty[0 := Valid(1, 10)], empty[0 := Valid(1, 10)][1 := Valid(2, 20)];
            && Refines(empty, OneHome(), map[]) && Used(empty) == 0 && !Overloaded(0, 2, 75) && StopsAt(empty, 0, 1, 0)
            && Used(one) == 1 && !Overloaded(1, 2, 75) && StopsAt(one, 0, 2, 1)
            && Refines(two, OneHome(), map[1 := 10][2 := 20]) && Used(two) == |two|
            && forall j :: 0 <= j < |two| ==> !two[j].Empty? && !two[j].Holds(3)
  {
    hide Refines, HasKey, Used;
    var empty: seq<Slot<nat, nat>> := [Empty, Empty];
    AllEmptyRefines(empty, OneHome());
    UsedUpdate(empty, 0, Valid(1, 10));
    StoreRefines(empty, OneHome(), map[], 1, 10, 0);
    var one := empty[0 := Valid(1, 10)];
    UsedUpdate(one, 1, Valid(2, 20));
    StoreRefines(one, OneHome(), map[1 := 10], 2, 20, 1);
  }

  /** The gate compares the share of slots in use with max_load percent. */
  lemma OverloadedIsARatio(size: nat, cap: nat, maxLoad: nat)
    requires cap > 0
    ensures Overloaded(size, cap, maxLoad) <==> (size as real) / (cap as real) > (maxLoad as real) / 100.0
  {
    var share := (size as real) / (cap as real);
    assert share * (cap as real) == size as real;
    assert (size * 100) as real == (size as real) * 100.0;
    assert (cap * maxLoad) as real == (cap as real) * (maxLoad as real);
    assert size * 100 > cap * maxLoad <==> (size * 100) as real > (cap * maxLoad) as real;
    RatioCompares(share, cap as real, maxLoad as real);
  }

  lemma RatioCompares(share: real, cap: real, load: real)
    requires cap > 0.0
    ensures share * cap * 100.0 > cap * load <==> share > load / 100.0
  {
    var d := share * 100.0 - load;
    assert share * cap * 100.0 - cap * load == cap * d;
    assert d > 0.0 <==> cap * d > 0.0;
  }

  lemma SmallerFits(size: nat, larger: nat, cap: nat, maxLoad: nat)
    requires size <= larger && !Overloaded(larger, cap, maxLoad)
    ensures !Overloaded(size, cap, maxLoad)
  {
  }

  /** While entries are stored again, the gate of the larger array stays open. */
  lemma RehashFits(size: nat, oldSize: nat, oldCap: nat, cap: nat, maxLoad: nat)
    requires size < oldSize && !Overloaded(oldSize - 1, oldCap, maxLoad) && cap >= oldCap
    ensures !Overloaded(size, cap, maxLoad)
  {
    assert cap * maxLoad >= oldCap * maxLoad;
  }

  /** Doubling the capacity makes room even for the entry that tripped the gate. */
  lemma DoublingMakesRoom(size: nat, cap: nat, bigger: nat, maxLoad: nat)
    requires size > 0 && !Overloaded(size - 1, cap, maxLoad) && cap * maxLoad >= 100 && bigger >= 2 * cap
    ensures !Overloaded(size, bigger, maxLoad)
    ensures bigger * maxLoad >= cap * maxLoad
  {
    assert bigger * maxLoad >= 2 * cap * maxLoad;
  }

  // ---------- The probe walk ----------

  /** A probe that started at `home` stands at slot `entry` and has not passed slot `e`. */
  ghost predicate Walk(cap: nat, home: nat, index: nat, entry: nat, e: nat) {
    && home < cap && entry < cap && e < cap
    && index == home + Dist(home, entry, cap)
    && Dist(home, entry, cap) <= Dist(home, e, cap)
  }

  /** Incrementing the index modulo the capacity visits the next slot of the path. */
  lemma WalkOn(cap: nat, home: nat, index: nat, entry: nat, e: nat)
    requires Walk(cap, home, index, entry, e) && entry != e
    ensures Walk(cap, home, index + 1, (index + 1) % cap, e)
    ensures Dist(home, (index + 1) % cap, cap) == Dist(home, entry, cap) + 1
    ensures forall j :: 0 <= j < cap && Dist(home, j, cap) <= Dist(home, entry, cap) ==>
              j == entry || Dist(home, j, cap) < Dist(home, entry, cap)
  {
    DistInjective(home, entry, e, cap);
    DistNext(home, entry, cap);
    ModWraps(index + 1, cap);
    assert (index + 1) % cap == Next(entry, cap);
    forall j | 0 <= j < cap
      ensures Dist(home, j, cap) == Dist(home, entry, cap) ==> j == entry
    {
      DistInjective(home, j, entry, cap);
    }
  }

  /** The key was not met on the way from `home` to slot `i`. */
  ghost predicate NotMet<K, V>(slots: seq<Slot<K, V>>, home: nat, i: nat, k: K)
    requires home < |slots| && i < |slots|
  {
    forall j :: 0 <= j < |slots| && Dist(home, j, |slots|) < Dist(home, i, |slots|) ==> !slots[j].Holds(k)
  }

  lemma NotMetOn<K, V>(slots: seq<Slot<K, V>>, home: nat, index: nat, entry: nat, e: nat, k: K)
    requires home < |slots| && entry < |slots| && Walk(|slots|, home, index, entry, e) && entry != e
    requires NotMet(slots, home, entry, k) && !slots[entry].Holds(k)
    ensures (index + 1) % |slots| < |slots| && Walk(|slots|, home, index + 1, (index + 1) % |slots|, e)
    ensures NotMet(slots, home, (index + 1) % |slots|, k)
    ensures Dist(home, (index + 1) % |slots|, |slots|) == Dist(home, entry, |slots|) + 1
  {
    WalkOn(|slots|, home, index, entry, e);
  }

  // ---------- Rehashing ----------

  /** One more slot of the old array copied over. */
  lemma ModelsExtend<K, V>(slots: seq<Slot<K, V>>, i: nat, m: map<K, V>)
    requires i < |slots| && Unique(slots) && Models(slots[..i], m)
    ensures !slots[i].Valid? ==> Models(slots[..i + 1], m)
    ensures slots[i].Valid? ==> slots[i].key !in m && Models(slots[..i + 1], m[slots[i].key := slots[i].value])
  {
    var before, after := slots[..i], slots[..i + 1];
    forall k | k in m
      ensures HasKey(after, k) && (slots[i].Valid? ==> k != slots[i].key)
    {
      assert HasKey(before, k);
      var j :| 0 <= j < i && before[j].Holds(k);
      assert after[j].Holds(k) && slots[j].Holds(k);
    }
    assert slots[i].Valid? ==> after[i].Holds(slots[i].key);
  }

  /** The slots determine the map. */
  lemma ModelsUnique<K, V>(slots: seq<Slot<K, V>>, m: map<K, V>, n: map<K, V>)
    requires Models(slots, m) && Models(slots, n)
    ensures m == n
  {
    forall k | k in m
      ensures k in n && m[k] == n[k]
    {
      assert HasKey(slots, k);
    }
    forall k | k in n
      ensures k in m
    {
      assert HasKey(slots, k);
    }
  }

  lemma RefinesParts<K, V>(slots: seq<Slot<K, V>>, hash: K -> nat, m: map<K, V>)
    requires Refines(slots, hash, m)
    ensures Unique(slots) && Models(slots, m)
  {
  }

  lemma RefinesHolds<K, V>(slots: seq<Slot<K, V>>, hash: K -> nat, m: map<K, V>, i: nat)
    requires Refines(slots, hash, m) && i < |slots| && slots[i].Valid?
    ensures slots[i].key in m && m[slots[i].key] == slots[i].value
  {
  }

  /** A table of EMPTY slots is the empty map. */
  lemma AllEmptyRefines<K, V>(slots: seq<Slot<K, V>>, hash: K -> nat)
    requires |slots| > 0 && forall i :: 0 <= i < |slots| ==> slots[i].Empty?
    ensures Refines(slots, hash, map[]) && Used(slots) == 0 && Models(slots[..0], map[]) && NoTombstones(slots)
  {
  }

  ghost predicate NoTombstones<K, V>(slots: seq<Slot<K, V>>) {
    forall i :: 0 <= i < |slots| ==> !slots[i].Tombstone?
  }

  /** At most one slot differs, and it now holds the key and the value. */
  ghost predicate OneStore<K, V>(before: seq<Slot<K, V>>, after: seq<Slot<K, V>>, k: K, v: V) {
    |after| == |before| && forall i :: 0 <= i < |after| ==> after[i] == before[i] || after[i] == Valid(k, v)
  }
}
