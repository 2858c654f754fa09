/**
The open-addressing hash table (`include/lstd/hash_table.h`, lines 61-249), without
removal. `hash & (Allocated - 1)` is written as the remainder by `Allocated`, which is
always a power of two.
 */
module HashTable {
  import opened Powers
  import opened PowersOfTwo
  import opened Bits

  const FIRST_VALID_HASH: nat := 2
  const MINIMUM_SIZE: nat := 32
  const LOAD_FACTOR_PERCENT: nat := 60

  datatype Entry<K, V> = Entry(Hash: nat, Key: K, Value: V)

  /** What `search_prehashed` returns: no entry, or the slot it is in. */
  datatype Found = Missing | At(slot: nat)

  // Probing

  /** The slot reached from `start` after `d` steps with wrap-around. */
  function Slot(start: nat, d: nat, n: nat): (s: nat)
    requires start < n && d < n
    ensures s < n
  {
    if start + d < n then start + d else start + d - n
  }

  /** The number of steps from `start` to `s`. */
  function Distance(start: nat, s: nat, n: nat): (d: nat)
    requires start < n && s < n
    ensures d < n && Slot(start, d, n) == s
  {
    if s >= start then s - start else s + n - start
  }

  lemma DistanceUnique(start: nat, d: nat, n: nat)
    requires start < n && d < n
    ensures Distance(start, Slot(start, d, n), n) == d
  {
  }

  function Home(hash: nat, n: nat): (s: nat)
    requires n > 0
    ensures s < n
  {
    hash % n
  }

  /** The slot `hash & (n - 1)` that the code computes for a 64-bit hash. */
  lemma HomeIsMasked(hash: nat, n: nat)
    requires IsPow2(n) && n <= TWO64
    ensures Home(hash, n) == Word(And, hash, n - 1, 64)
  {
    hide Word;
    var k: nat :| n == Pow(2, k);
    Pow2Word();
    if k > 64 { PowGrows(64, k); }
    MaskIsRemainder(hash, k, 64, n);
  }

  lemma PowGrows(j: nat, k: nat)
    requires j < k
    ensures Pow(2, j) < Pow(2, k)
  {
    PowMonotone(2, j, k - 1);
  }

  ghost predicate Used<K, V>(e: seq<Entry<K, V>>, s: nat)
    requires s < |e|
  {
    e[s].Hash != 0
  }

  /** No free slot on the way from an entry's home to the entry. */
  ghost predicate Reachable<K, V>(e: seq<Entry<K, V>>, s: nat)
    requires s < |e|
  {
    var home := Home(e[s].Hash, |e|);
    forall d :: 0 <= d < Distance(home, s, |e|) ==> Used(e, Slot(home, d, |e|))
  }

  /** Entries of the table: reachable, with proper hashes, each pair of hash and key once. */
  ghost predicate WellPlaced<K, V>(e: seq<Entry<K, V>>) {
    && (forall s :: 0 <= s < |e| && Used(e, s) ==> e[s].Hash >= FIRST_VALID_HASH && Reachable(e, s))
    && (forall s, t :: 0 <= s < |e| && 0 <= t < |e| && Used(e, s) && Used(e, t) ==>
          e[s].Hash == e[t].Hash && e[s].Key == e[t].Key ==> s == t)
  }

  /** The map the entries stand for. */
  ghost predicate Represents<K, V>(e: seq<Entry<K, V>>, m: map<(nat, K), V>) {
    && (forall s :: 0 <= s < |e| && Used(e, s) ==>
          (e[s].Hash, e[s].Key) in m && m[(e[s].Hash, e[s].Key)] == e[s].Value)
    && (forall p :: p in m ==> exists s :: 0 <= s < |e| && Used(e, s) && e[s].Hash == p.0 && e[s].Key == p.1)
  }

  ghost function UsedCount<K, V>(e: seq<Entry<K, V>>): nat {
    if |e| == 0 then 0 else UsedCount(e[..|e| - 1]) + (if e[|e| - 1].Hash != 0 then 1 else 0)
  }

  lemma {:induction false} UsedCountBound<K, V>(e: seq<Entry<K, V>>)
    ensures UsedCount(e) <= |e|
    ensures UsedCount(e) < |e| ==> exists s :: 0 <= s < |e| && !Used(e, s)
  {
    if |e| > 0 {
      var n := |e| - 1;
      UsedCountBound(e[..n]);
      if e[n].Hash == 0 {
        assert !Used(e, n);
      } else if UsedCount(e) < |e| {
        var s :| 0 <= s < n && !Used(e[..n], s);
        assert !Used(e, s);
      }
    }
  }

  lemma {:induction false} UsedCountStore<K, V>(e: seq<Entry<K, V>>, s: nat, x: Entry<K, V>)
    requires s < |e|
    ensures UsedCount(e[s := x]) == UsedCount(e) + (if x.Hash != 0 then 1 else 0) - (if e[s].Hash != 0 then 1 else 0)
  {
    var n := |e| - 1;
    if s == n {
      assert e[s := x][..n] == e[..n];
    } else {
      UsedCountStore(e[..n], s, x);
      assert e[s := x][..n] == e[..n][s := x];
    }
  }

  lemma {:induction false} UsedCountEmpty<K, V>(e: seq<Entry<K, V>>)
    requires forall s :: 0 <= s < |e| ==> e[s].Hash == 0
    ensures UsedCount(e) == 0
  {
    if |e| > 0 { UsedCountEmpty(e[..|e| - 1]); }
  }

  /** A new entry in the first free slot of its probe sequence keeps everything in place. */
  lemma StoreKeepsPlaces<K, V>(e: seq<Entry<K, V>>, s: nat, x: Entry<K, V>)
    requires WellPlaced(e) && s < |e| && !Used(e, s) && x.Hash >= FIRST_VALID_HASH
    requires var home := Home(x.Hash, |e|);
      forall d :: 0 <= d < Distance(home, s, |e|) ==> Used(e, Slot(home, d, |e|))
    requires forall t :: 0 <= t < |e| && Used(e, t) ==> !(e[t].Hash == x.Hash && e[t].Key == x.Key)
    ensures WellPlaced(e[s := x])
  {
    hide Slot, Distance, Home;
    var e' := e[s := x];
    forall t | 0 <= t < |e'| && Used(e', t) ensures Reachable(e', t) {
      var home := Home(e'[t].Hash, |e|);
      forall d | 0 <= d < Distance(home, t, |e|) ensures Used(e', Slot(home, d, |e|)) {
        if t != s { assert Used(e, t) && Reachable(e, t); }
        assert Used(e, Slot(home, d, |e|));
      }
    }
  }

  /** Overwriting the value of an entry moves nothing. */
  lemma OverwriteKeepsPlaces<K, V>(e: seq<Entry<K, V>>, s: nat, v: V)
    requires WellPlaced(e) && s < |e| && Used(e, s)
    ensures WellPlaced(e[s := e[s].(Value := v)])
  {
    hide Slot, Distance, Home;
    var e' := e[s := e[s].(Value := v)];
    forall t | 0 <= t < |e'| && Used(e', t) ensures Reachable(e', t) {
      assert Used(e, t) && Reachable(e, t);
      var home := Home(e[t].Hash, |e|);
      forall d | 0 <= d < Distance(home, t, |e|) ensures Used(e', Slot(home, d, |e|)) {
        assert Used(e, Slot(home, d, |e|));
      }
    }
  }

  lemma StoreRepresents<K, V>(e: seq<Entry<K, V>>, m: map<(nat, K), V>, s: nat, x: Entry<K, V>)
    requires Represents(e, m) && s < |e| && x.Hash != 0
    requires !Used(e, s) || (e[s].Hash == x.Hash && e[s].Key == x.Key)
    requires forall t :: 0 <= t < |e| && Used(e, t) && e[t].Hash == x.Hash && e[t].Key == x.Key ==> t == s
    ensures Represents(e[s := x], m[(x.Hash, x.Key) := x.Value])
  {
    var e', m' := e[s := x], m[(x.Hash, x.Key) := x.Value];
    forall p | p in m' ensures exists t :: 0 <= t < |e'| && Used(e', t) && e'[t].Hash == p.0 && e'[t].Key == p.1 {
      if p == (x.Hash, x.Key) {
        assert Used(e', s);
      } else {
        var t :| 0 <= t < |e| && Used(e, t) && e[t].Hash == p.0 && e[t].Key == p.1;
        assert Used(e', t);
      }
    }
  }

  /** A probe that meets a free slot, or comes all the way round, has not missed the key. */
  lemma ProbeMissesNothing<K, V>(e: seq<Entry<K, V>>, hash: nat, key: K, steps: nat)
    requires WellPlaced(e) && |e| > 0 && steps <= |e|
    requires forall d :: 0 <= d < steps ==>
      var s := Slot(Home(hash, |e|), d, |e|); !(e[s].Hash == hash && e[s].Key == key)
    requires steps < |e| ==> !Used(e, Slot(Home(hash, |e|), steps, |e|))
    ensures forall t :: 0 <= t < |e| && Used(e, t) ==> !(e[t].Hash == hash && e[t].Key == key)
  {
    hide Home;
    var home := Home(hash, |e|);
    forall t | 0 <= t < |e| && Used(e, t) ensures !(e[t].Hash == hash && e[t].Key == key) {
      assert Reachable(e, t);
      assert Slot(home, Distance(home, t, |e|), |e|) == t;
    }
  }

  // Growing

  /** Slots that `resize` makes room for. */
  ghost function Target(slots: nat): nat {
    if CeilPow2(slots) > MINIMUM_SIZE then CeilPow2(slots) else MINIMUM_SIZE
  }

  // The load of the table

  predicate Calm(n: nat, filled: nat) {
    (filled + 1) * 100 < n * LOAD_FACTOR_PERCENT
  }

  /** What every sequence of additions keeps: `filled` is never below the number of entries, and
      may exceed it (growing does not reset the counter), but then by a factor of about two. */
  ghost predicate Load(n: nat, filled: nat, used: nat) {
    && used <= filled
    && (n == 0 ==> filled == 0)
    && (n != 0 ==> Loaded(n, filled, used))
  }

  ghost predicate Loaded(n: nat, filled: nat, used: nat) {
    && n >= MINIMUM_SIZE && IsPow2(n)
    && (filled - 1) * 100 < LOAD_FACTOR_PERCENT * n
    && (filled * 100 < LOAD_FACTOR_PERCENT * n || 2 * used <= filled + 1)
  }

  /** A table that has to grow grows to 32 slots or to exactly twice its slots, and the entries
      moved to it do not make it grow again. */
  lemma GrowthDoubles(n: nat, filled: nat, used: nat)
    requires Load(n, filled, used) && !Calm(n, filled)
    ensures 2 * filled >= n
    ensures Target(2 * filled) == if n == 0 then MINIMUM_SIZE else 2 * n
    ensures (filled + used) * 100 < Target(2 * filled) * LOAD_FACTOR_PERCENT
    ensures Calm(Target(2 * filled), filled + used) || filled + used > 0
  {
    hide IsPow2, CeilPow2;
    if n == 0 {
      CeilPow2Small(0);
    } else {
      assert n < 2 * filled <= 2 * n;
      PowerAgain(n);
      var p := CeilPow2(2 * filled);
      assert p < 4 * filled <= 4 * n;
      PowerBetween(n, p);
    }
  }

  /** Adding one entry, with or without growing first, keeps the load in bounds. */
  lemma LoadKept(n: nat, filled: nat, used: nat)
    requires Load(n, filled, used)
    ensures Calm(n, filled) ==> Load(n, filled + 1, used + 1)
    ensures !Calm(n, filled) ==> Load(Target(2 * filled), filled + used + 1, used + 1)
  {
    hide IsPow2, CeilPow2;
    if Calm(n, filled) {
    } else {
      GrowthDoubles(n, filled, used);
      Pow2OnePowers();
      if n != 0 { PowerAgain(n); }
    }
  }

  /** Moving `used` entries after `filled` slots were counted never fills the new table. */
  ghost predicate StaysCalm(slots: nat, filled: nat, used: nat) {
    (filled + used) * 100 < Target(slots) * LOAD_FACTOR_PERCENT
  }

  lemma CalmWhileMoving(slots: nat, filled: nat, used: nat, moved: nat)
    ensures StaysCalm(slots, filled, used) && moved < used ==> Calm(Target(slots), filled + moved)
  {
  }

  lemma TargetOf(slots: nat)
    ensures Target(slots) == if CeilPow2(slots) <= MINIMUM_SIZE then MINIMUM_SIZE else CeilPow2(slots)
  {
  }

  /** A larger table without entries is as little loaded. */
  lemma LoadWithNoEntries(n: nat, filled: nat, used: nat, slots: nat)
    requires Load(n, filled, used) && slots >= n
    ensures Load(Target(slots), filled, 0)
  {
    hide IsPow2, CeilPow2;
    Pow2OnePowers();
    assert IsCeilPow2(CeilPow2(slots), slots);
  }

  // Rehashing

  lemma RepresentsUnique<K, V>(e: seq<Entry<K, V>>, m: map<(nat, K), V>, w: map<(nat, K), V>)
    requires Represents(e, m) && Represents(e, w)
    ensures m == w
  {
    forall p | p in m ensures p in w && m[p] == w[p] {
      var s :| 0 <= s < |e| && Used(e, s) && e[s].Hash == p.0 && e[s].Key == p.1;
      assert p == (e[s].Hash, e[s].Key);
    }
    forall p | p in w ensures p in m {
      var s :| 0 <= s < |e| && Used(e, s) && e[s].Hash == p.0 && e[s].Key == p.1;
      assert p == (e[s].Hash, e[s].Key);
    }
  }

  /** One more old entry: it is not among those already moved, and joins them. */
  lemma MoveOne<K, V>(e: seq<Entry<K, V>>, i: nat, m: map<(nat, K), V>)
    requires WellPlaced(e) && i < |e| && Represents(e[..i], m)
    ensures !Used(e, i) ==> Represents(e[..i + 1], m) && UsedCount(e[..i + 1]) == UsedCount(e[..i])
    ensures Used(e, i) ==>
      var p := (e[i].Hash, e[i].Key);
      e[i].Hash >= FIRST_VALID_HASH && p !in m && Represents(e[..i + 1], m[p := e[i].Value])
      && UsedCount(e[..i + 1]) == UsedCount(e[..i]) + 1
  {
    hide Reachable;
    var was, now := e[..i], e[..i + 1];
    assert now[..i] == was && now[i] == e[i];
    var p := (e[i].Hash, e[i].Key);
    var m' := if Used(e, i) then m[p := e[i].Value] else m;
    forall s | 0 <= s < |now| && Used(now, s)
      ensures (now[s].Hash, now[s].Key) in m' && m'[(now[s].Hash, now[s].Key)] == now[s].Value
    {
      if s < i { assert Used(was, s); }
    }
    forall q | q in m' ensures exists s :: 0 <= s < |now| && Used(now, s) && now[s].Hash == q.0 && now[s].Key == q.1 {
      if q in m {
        var s :| 0 <= s < |was| && Used(was, s) && was[s].Hash == q.0 && was[s].Key == q.1;
        assert Used(now, s);
      } else {
        assert Used(now, i);
      }
    }
  }

  lemma {:induction false} UsedCountPrefix<K, V>(e: seq<Entry<K, V>>, i: nat)
    requires i <= |e|
    ensures UsedCount(e[..i]) <= UsedCount(e)
  {
    if i < |e| {
      UsedCountPrefix(e[..|e| - 1], i);
      assert e[..|e| - 1][..i] == e[..i];
    } else {
      assert e[..i] == e;
    }
  }

  lemma {:induction false} NoneUsed<K, V>(e: seq<Entry<K, V>>)
    requires UsedCount(e) == 0
    ensures forall s :: 0 <= s < |e| ==> !Used(e, s)
  {
    if |e| > 0 {
      var n := |e| - 1;
      NoneUsed(e[..n]);
      forall s | 0 <= s < |e| ensures !Used(e, s) {
        if s < n { assert !Used(e[..n], s); }
      }
    }
  }

  /** All slots free: nothing is represented. */
  lemma AllFree<K, V>(e: seq<Entry<K, V>>)
    requires forall s :: 0 <= s < |e| ==> e[s].Hash == 0
    ensures WellPlaced(e) && Represents(e, map[]) && UsedCount(e) == 0
  {
    hide Reachable;
    UsedCountEmpty(e);
  }

  /** Two pairs are the same key of the table. */
  predicate Same<K(==), V>(x: Entry<K, V>, hash: nat, key: K) {
    x.Hash == hash && x.Key == key
  }

  lemma SameEntry<K, V>(x: Entry<K, V>, hash: nat, key: K)
    ensures Same(x, hash, key) <==> x == Entry(hash, key, x.Value)
  {
  }

  ghost predicate Sound<K, V>(e: seq<Entry<K, V>>, m: map<(nat, K), V>) {
    WellPlaced(e) && Represents(e, m)
  }

  lemma NotThere<K, V>(e: seq<Entry<K, V>>, m: map<(nat, K), V>, hash: nat, key: K)
    requires Represents(e, m) && hash >= FIRST_VALID_HASH
    ensures (hash, key) in m <==> exists t :: 0 <= t < |e| && Used(e, t) && Same(e[t], hash, key)
  {
    if (hash, key) in m {
      var s :| 0 <= s < |e| && Used(e, s) && e[s].Hash == hash && e[s].Key == key;
      assert Same(e[s], hash, key);
    }
  }

  /** Storing a new entry in the slot its probe sequence ends at. */
  lemma StoreSound<K, V>(e: seq<Entry<K, V>>, m: map<(nat, K), V>, s: nat, x: Entry<K, V>, steps: nat)
    requires Sound(e, m) && s < |e| && !Used(e, s) && x.Hash >= FIRST_VALID_HASH && (x.Hash, x.Key) !in m
    requires steps < |e| && s == Slot(Home(x.Hash, |e|), steps, |e|)
    requires forall d :: 0 <= d < steps ==> Used(e, Slot(Home(x.Hash, |e|), d, |e|))
    ensures Sound(e[s := x], m[(x.Hash, x.Key) := x.Value]) && UsedCount(e[s := x]) == UsedCount(e) + 1
  {
    hide Reachable, WellPlaced, Represents, Home;
    DistanceUnique(Home(x.Hash, |e|), steps, |e|);
    NotThere(e, m, x.Hash, x.Key);
    assert forall t :: 0 <= t < |e| && Used(e, t) ==> !Same(e[t], x.Hash, x.Key);
    StoreKeepsPlaces(e, s, x);
    StoreRepresents(e, m, s, x);
    UsedCountStore(e, s, x);
  }

  /** Adding a pair that is present stores a second entry where its probe sequence ends. A search
      still comes to the first one before it, and finds the value that was there. */
  lemma SecondEntryHidden<K, V>(e: seq<Entry<K, V>>, m: map<(nat, K), V>, s: nat, x: Entry<K, V>, steps: nat)
      returns (first: nat)
    requires Sound(e, m) && s < |e| && !Used(e, s) && x.Hash >= FIRST_VALID_HASH && (x.Hash, x.Key) in m
    requires steps < |e| && s == Slot(Home(x.Hash, |e|), steps, |e|)
    requires forall d :: 0 <= d < steps ==> Used(e, Slot(Home(x.Hash, |e|), d, |e|))
    ensures first < steps && Same(e[s := x][Slot(Home(x.Hash, |e|), first, |e|)], x.Hash, x.Key)
    ensures e[s := x][Slot(Home(x.Hash, |e|), first, |e|)].Value == m[(x.Hash, x.Key)]
    ensures forall d :: 0 <= d < first ==>
      && Used(e[s := x], Slot(Home(x.Hash, |e|), d, |e|))
      && !Same(e[s := x][Slot(Home(x.Hash, |e|), d, |e|)], x.Hash, x.Key)
    ensures !WellPlaced(e[s := x]) && UsedCount(e[s := x]) == UsedCount(e) + 1
  {
    hide Home, UsedCount;
    var home := Home(x.Hash, |e|);
    var t :| 0 <= t < |e| && Used(e, t) && e[t].Hash == x.Hash && e[t].Key == x.Key;
    first := Distance(home, t, |e|);
    assert Reachable(e, t);
    forall d | 0 <= d < first
      ensures Used(e[s := x], Slot(home, d, |e|)) && !Same(e[s := x][Slot(home, d, |e|)], x.Hash, x.Key)
    {
      assert Used(e, Slot(home, d, |e|)) && Slot(home, d, |e|) != t;
    }
    assert Used(e[s := x], s) && Used(e[s := x], t);
    UsedCountStore(e, s, x);
  }

  class HashTable<K(==, 0), V(0)> {
    var Entries: array<Entry<K, V>>
    var Count: nat
    var SlotsFilled: nat
    var Allocated: nat
    /** The value last set for each pair of hash and key. */
    ghost var M: map<(nat, K), V>

    /** Between any two steps, also while the table is being rehashed. */
    ghost predicate Consistent()
      reads this, Entries
    {
      && Allocated == Entries.Length && Count == SlotsFilled
      && UsedCount(Entries[..]) <= SlotsFilled
      && Sound(Entries[..], M)
    }

    /** Between calls. */
    ghost predicate Valid()
      reads this, Entries
    {
      Consistent() && Load(Allocated, SlotsFilled, UsedCount(Entries[..]))
    }

    constructor ()
      ensures Valid() && M == map[] && fresh(Entries)
      ensures Count == SlotsFilled == Allocated == 0
    {
      Entries := new Entry<K, V>[0];
      Count, SlotsFilled, Allocated, M := 0, 0, 0, map[];
      new;
      AllFree(Entries[..]);
    }

    /** `search_prehashed`. */
    method Search(hash: nat, key: K) returns (r: Found)
      requires Valid()
      ensures r.At? <==> (hash, key) in M
      ensures r.At? ==> r.slot < Entries.Length && Used(Entries[..], r.slot) && Same(Entries[r.slot], hash, key)
      ensures r.At? ==> Entries[r.slot].Value == M[(hash, key)]
    {
      hide Load, Home;
      ghost var e := Entries[..];
      if Count == 0 {
        NoneUsed(e);
        return Missing;
      }
      Occupied(Allocated, SlotsFilled, UsedCount(e));
      var index := Home(hash, Allocated);
      var d := 0;
      while d < Allocated
        invariant d <= Allocated
        invariant d < Allocated ==> index == Slot(Home(hash, |e|), d, |e|)
        invariant forall k :: 0 <= k < d ==> !Same(e[Slot(Home(hash, |e|), k, |e|)], hash, key)
      {
        if Entries[index].Hash == 0 {
          break;
        }
        if Entries[index].Hash == hash && Entries[index].Key == key {
          assert Used(e, index);
          return At(index);
        }
        index := index + 1;
        if index >= Allocated { index := 0; }
        d := d + 1;
      }
      ProbeMissesNothing(e, hash, key, d);
      return Missing;
    }

    /** The probe loop of `add_prehashed` and the store at its end. */
    method Insert(hash: nat, key: K, value: V) returns (index: nat)
      requires Consistent() && SlotsFilled < Allocated && hash >= FIRST_VALID_HASH && (hash, key) !in M
      modifies this, Entries
      ensures Consistent() && Entries == old(Entries) && Allocated == old(Allocated)
      ensures SlotsFilled == old(SlotsFilled) + 1
      ensures UsedCount(Entries[..]) == old(UsedCount(Entries[..])) + 1
      ensures M == old(M)[(hash, key) := value]
      ensures index < Entries.Length && Entries[index] == Entry(hash, key, value)
    {
      hide Home, Sound, UsedCount;
      ghost var e := Entries[..];
      UsedCountBound(e);
      ghost var free :| 0 <= free < |e| && !Used(e, free);
      ghost var steps, far := 0, Distance(Home(hash, |e|), free, |e|);
      index := Home(hash, Allocated);
      while Entries[index].Hash != 0
        invariant steps <= far && index == Slot(Home(hash, |e|), steps, |e|)
        invariant forall d :: 0 <= d < steps ==> Used(e, Slot(Home(hash, |e|), d, |e|))
        decreases far - steps
      {
        index := index + 1;
        if index >= Allocated { index := 0; }
        steps := steps + 1;
      }
      Count := Count + 1;
      SlotsFilled := SlotsFilled + 1;
      StoreSound(e, M, index, Entry(hash, key, value), steps);
      Entries[index] := Entry(hash, key, value);
      M := M[(hash, key) := value];
      assert Entries[..] == e[index := Entry(hash, key, value)];
    }

    /** `add_prehashed`. When it makes the table grow, `Resize` calls it back for each old entry;
        the termination measure records that none of those calls grows the table again. */
    method Add(hash: nat, key: K, value: V) returns (index: nat)
      requires Consistent() && (Remapped(hash), key) !in M
      requires Calm(Allocated, SlotsFilled) || Load(Allocated, SlotsFilled, UsedCount(Entries[..]))
      modifies this, Entries
      ensures Consistent() && M == old(M)[(Remapped(hash), key) := value]
      ensures UsedCount(Entries[..]) == old(UsedCount(Entries[..])) + 1
      ensures index < Entries.Length && Entries[index] == Entry(Remapped(hash), key, value)
      ensures old(Calm(Allocated, SlotsFilled)) ==>
        Entries == old(Entries) && Allocated == old(Allocated) && SlotsFilled == old(SlotsFilled) + 1
      ensures !old(Calm(Allocated, SlotsFilled)) ==>
        fresh(Entries) && Allocated == (if old(Allocated) == 0 then MINIMUM_SIZE else 2 * old(Allocated))
        && SlotsFilled == old(SlotsFilled + UsedCount(Entries[..])) + 1
      ensures old(Valid()) ==> Valid()
      decreases if Calm(Allocated, SlotsFilled) then 0 else 3
    {
      hide UsedCount, Sound, Load, Target;
      ghost var n, filled, used := Allocated, SlotsFilled, UsedCount(Entries[..]);
      if (SlotsFilled + 1) * 100 >= Allocated * LOAD_FACTOR_PERCENT {
        GrowthDoubles(n, filled, used);
        Resize(SlotsFilled * 2);
      }
      assert SlotsFilled < Allocated;
      index := Insert(Remapped(hash), key, value);
      if Load(n, filled, used) { LoadKept(n, filled, used); }
    }

    /** `resize`. With few slots asked for, moving the entries may make the table grow again. */
    method Resize(slots: nat)
      requires Consistent()
      requires slots < Allocated || StaysCalm(slots, SlotsFilled, UsedCount(Entries[..]))
        || Load(Allocated, SlotsFilled, UsedCount(Entries[..]))
      modifies this, Entries
      ensures Consistent() && M == old(M) && UsedCount(Entries[..]) == old(UsedCount(Entries[..]))
      ensures old(Valid()) ==> Valid()
      ensures slots < old(Allocated) ==>
        Entries == old(Entries) && Allocated == old(Allocated) && SlotsFilled == old(SlotsFilled)
      ensures slots >= old(Allocated) ==> fresh(Entries) && Allocated >= Target(slots)
      ensures slots >= old(Allocated) && old(StaysCalm(slots, SlotsFilled, UsedCount(Entries[..]))) ==>
        Allocated == Target(slots) && SlotsFilled == old(SlotsFilled + UsedCount(Entries[..]))
      decreases if StaysCalm(slots, SlotsFilled, UsedCount(Entries[..])) then 2 else 5
    {
      hide UsedCount, Load, Represents, WellPlaced, Target, StaysCalm, Calm;
      if slots < Allocated { return; }
      var target := CeilPowerOf2(slots);
      if target <= MINIMUM_SIZE { target := MINIMUM_SIZE; }
      ghost var e, used, m := Entries[..], UsedCount(Entries[..]), M;
      if Load(Allocated, SlotsFilled, used) { LoadWithNoEntries(Allocated, SlotsFilled, used, slots); }
      TargetOf(slots);
      var oldEntries := Entries;
      Entries := FreeSlots(target);
      Allocated := target;
      M := map[];
      AllFree(Entries[..]);
      MoveEntries(oldEntries, slots);
      RepresentsUnique(e, m, M);
    }

    /** The loop of `resize`, which adds the old entries to the new table. */
    method MoveEntries(oldEntries: array<Entry<K, V>>, ghost slots: nat)
      requires Consistent() && M == map[] && UsedCount(Entries[..]) == 0 && Entries != oldEntries
      requires WellPlaced(oldEntries[..]) && Allocated == Target(slots)
      requires StaysCalm(slots, SlotsFilled, UsedCount(oldEntries[..])) || Load(Allocated, SlotsFilled, 0)
      modifies this, Entries
      ensures Consistent() && Represents(oldEntries[..], M)
      ensures UsedCount(Entries[..]) == UsedCount(oldEntries[..])
      ensures (Entries == old(Entries) || fresh(Entries)) && Allocated >= old(Allocated)
      ensures old(StaysCalm(slots, SlotsFilled, UsedCount(oldEntries[..]))) ==>
        Allocated == old(Allocated) && SlotsFilled == old(SlotsFilled + UsedCount(oldEntries[..]))
      ensures old(Load(Allocated, SlotsFilled, 0)) ==> Load(Allocated, SlotsFilled, UsedCount(Entries[..]))
      decreases if StaysCalm(slots, SlotsFilled, UsedCount(oldEntries[..])) then 1 else 4
    {
      hide UsedCount, Load, Represents, WellPlaced, Sound, Target, StaysCalm, Calm;
      ghost var e, filled, target := oldEntries[..], SlotsFilled, Allocated;
      ghost var calm := StaysCalm(slots, filled, UsedCount(e));
      ghost var loaded := Load(target, filled, 0);
      AllFree(e[..0]);
      var i := 0;
      while i < oldEntries.Length
        invariant 0 <= i <= oldEntries.Length && oldEntries[..] == e && Entries != oldEntries
        invariant (Entries == old(Entries) || fresh(Entries)) && Consistent() && Allocated >= target
        invariant Represents(e[..i], M) && UsedCount(Entries[..]) == UsedCount(e[..i])
        invariant calm ==> Allocated == target && SlotsFilled == filled + UsedCount(e[..i])
        invariant loaded ==> Load(Allocated, SlotsFilled, UsedCount(Entries[..]))
      {
        MoveOne(e, i, M);
        UsedCountPrefix(e, i + 1);
        CalmWhileMoving(slots, filled, UsedCount(e), UsedCount(e[..i]));
        if oldEntries[i].Hash >= FIRST_VALID_HASH {
          var _ := Add(oldEntries[i].Hash, oldEntries[i].Key, oldEntries[i].Value);
        }
        i := i + 1;
      }
      assert e[..i] == e;
    }

    /** `set_prehashed`. The search does not find what was set under the hashes 0 and 1. */
    method Set(hash: nat, key: K, value: V) returns (index: nat)
      requires Valid() && (hash >= FIRST_VALID_HASH || (Remapped(hash), key) !in M)
      modifies this, Entries
      ensures Valid() && M == old(M)[(Remapped(hash), key) := value]
      ensures Entries == old(Entries) || fresh(Entries)
      ensures index < Entries.Length && Entries[index] == Entry(Remapped(hash), key, value)
      ensures (Remapped(hash), key) in old(M) ==>
        Entries == old(Entries) && Allocated == old(Allocated) && SlotsFilled == old(SlotsFilled)
      ensures (Remapped(hash), key) !in old(M) ==>
        Fill(Allocated, SlotsFilled) == NextFill(old(Fill(Allocated, SlotsFilled)), old(|M|))
    {
      hide UsedCount, Load, Sound, Same, Used;
      EntriesCounted(Entries[..], M);
      var r := Search(hash, key);
      if r.At? {
        ghost var e := Entries[..];
        KeysAreRemapped(e, M, hash, key);
        Overwritten(e, M, r.slot, hash, key, value);
        Entries[r.slot] := Entries[r.slot].(Value := value);
        M := M[(hash, key) := value];
        index := r.slot;
        SameEntry(e[r.slot], hash, key);
        assert Entries[..] == e[r.slot := e[r.slot].(Value := value)];
      } else {
        index := Add(hash, key, value);
      }
    }

    /** `reset`. */
    method Reset()
      requires Valid()
      modifies this, Entries
      ensures Valid() && M == map[] && Entries == old(Entries) && Allocated == old(Allocated)
      ensures Count == SlotsFilled == 0
    {
      for i := 0 to Allocated
        modifies Entries
        invariant forall k :: 0 <= k < i ==> Entries[k].Hash == 0
      {
        Entries[i] := Entries[i].(Hash := 0);
      }
      Count, SlotsFilled, M := 0, 0, map[];
      AllFree(Entries[..]);
    }
  }

  /** Hashes below the first valid one are moved up when they are added. */
  function Remapped(hash: nat): (h: nat)
    ensures h >= FIRST_VALID_HASH
    ensures if hash == 0 then h == 2 else if hash == 1 then h == 3 else h == hash
  {
    if hash < FIRST_VALID_HASH then hash + FIRST_VALID_HASH else hash
  }

  lemma Occupied(n: nat, filled: nat, used: nat)
    requires Load(n, filled, used) && filled > 0
    ensures n >= MINIMUM_SIZE
  {
  }

  /** Overwriting the value of the entry that was found. */
  lemma Overwritten<K, V>(e: seq<Entry<K, V>>, m: map<(nat, K), V>, s: nat, hash: nat, key: K, v: V)
    requires Sound(e, m) && s < |e| && Used(e, s) && Same(e[s], hash, key)
    ensures var e' := e[s := e[s].(Value := v)];
      Sound(e', m[(hash, key) := v]) && UsedCount(e') == UsedCount(e)
  {
    hide Reachable, Represents;
    var x := e[s].(Value := v);
    OverwriteKeepsPlaces(e, s, v);
    StoreRepresents(e, m, s, x);
    UsedCountStore(e, s, x);
  }

  // The counters

  /** The slots, and the counter, which is `Count` and `SlotsFilled` alike. */
  datatype Filling = Fill(slots: nat, count: nat)

  /** One more pair after `pairs` of them. */
  function NextFill(f: Filling, pairs: nat): Filling {
    if Calm(f.slots, f.count) then Fill(f.slots, f.count + 1)
    else Fill(if f.slots == 0 then MINIMUM_SIZE else 2 * f.slots, f.count + pairs + 1)
  }

  /** The table after that many different pairs. */
  function FillAfter(pairs: nat): Filling {
    if pairs == 0 then Fill(0, 0) else NextFill(FillAfter(pairs - 1), pairs - 1)
  }

  /** The counter is right for up to 19 pairs. From the second growth on, it is too large, so that the
      table doubles again with the very next pair, and then with the 38th. */
  lemma CountIsRight(pairs: nat)
    ensures FillAfter(pairs).count >= pairs
    ensures FillAfter(pairs).count == pairs <==> pairs <= 19
    ensures FillAfter(pairs).slots == 32 <==> 1 <= pairs <= 19
    ensures FillAfter(pairs).slots == 64 <==> pairs == 20
    ensures FillAfter(pairs).slots == 128 <==> 21 <= pairs <= 37
  {
    if pairs <= 19 {
      FillSmall(pairs);
    } else if pairs <= 37 {
      FillMiddle(pairs);
    } else {
      FillLarge(pairs);
    }
  }

  lemma {:induction false} FillMiddle(pairs: nat)
    requires 20 <= pairs <= 37
    ensures FillAfter(pairs) == if pairs == 20 then Fill(64, 39) else Fill(128, pairs + 39)
  {
    if pairs == 20 { FillSmall(19); } else { FillMiddle(pairs - 1); }
  }

  lemma {:induction false} FillSmall(pairs: nat)
    requires pairs <= 19
    ensures FillAfter(pairs) == if pairs == 0 then Fill(0, 0) else Fill(MINIMUM_SIZE, pairs)
  {
    if pairs > 0 { FillSmall(pairs - 1); }
  }

  lemma {:induction false} FillLarge(pairs: nat)
    requires pairs >= 38
    ensures FillAfter(pairs).count > pairs && FillAfter(pairs).slots >= 256
  {
    if pairs == 38 { FillMiddle(37); } else { FillLarge(pairs - 1); }
  }

  /** There are as many entries as pairs. */
  lemma EntriesCounted<K, V>(e: seq<Entry<K, V>>, m: map<(nat, K), V>)
    requires Sound(e, m)
    ensures UsedCount(e) == |m|
  {
    hide Represents, UsedCount, WellPlaced;
    var w := PrefixCounted(e, |e|);
    assert e[..|e|] == e;
    RepresentsUnique(e, m, w);
  }

  lemma {:induction false} PrefixCounted<K, V>(e: seq<Entry<K, V>>, i: nat) returns (w: map<(nat, K), V>)
    requires WellPlaced(e) && i <= |e|
    ensures Represents(e[..i], w) && UsedCount(e[..i]) == |w|
  {
    hide Represents, UsedCount, WellPlaced;
    if i == 0 {
      w := map[];
      AllFree(e[..0]);
    } else {
      w := PrefixCounted(e, i - 1);
      MoveOne(e, i - 1, w);
      if Used(e, i - 1) { w := w[(e[i - 1].Hash, e[i - 1].Key) := e[i - 1].Value]; }
    }
  }

  // Whole runs

  /** The map that a run of `set_prehashed` calls is to leave behind. */
  ghost function Replayed<K, V>(run: seq<Entry<K, V>>): map<(nat, K), V> {
    if run == [] then map[]
    else
      var last := run[|run| - 1];
      Replayed(run[..|run| - 1])[(last.Hash, last.Key) := last.Value]
  }

  /** Exactly the keys that were set, each with the value it was set to last. */
  lemma {:induction false} ReplayedIsLatest<K, V>(run: seq<Entry<K, V>>, hash: nat, key: K)
    ensures (hash, key) in Replayed(run) <==> exists i :: 0 <= i < |run| && Same(run[i], hash, key)
    ensures forall i :: 0 <= i < |run| && Same(run[i], hash, key) && NotLater(run, i, hash, key) ==>
      Replayed(run)[(hash, key)] == run[i].Value
  {
    if |run| > 0 {
      var n := |run| - 1;
      ReplayedIsLatest(run[..n], hash, key);
      if Same(run[n], hash, key) {
        assert NotLater(run, n, hash, key);
      } else {
        forall i | 0 <= i < |run| && Same(run[i], hash, key) && NotLater(run, i, hash, key)
          ensures Replayed(run)[(hash, key)] == run[i].Value
        {
          assert Same(run[..n][i], hash, key) && NotLater(run[..n], i, hash, key);
        }
        if (hash, key) in Replayed(run) {
          var i :| 0 <= i < n && Same(run[..n][i], hash, key);
          assert Same(run[i], hash, key);
        }
        if i :| 0 <= i < |run| && Same(run[i], hash, key) {
          assert Same(run[..n][i], hash, key);
        }
      }
    }
  }

  ghost predicate NotLater<K, V>(run: seq<Entry<K, V>>, i: nat, hash: nat, key: K)
    requires i < |run|
  {
    forall j :: i < j < |run| ==> !Same(run[j], hash, key)
  }

  /** Any run of `set_prehashed` from an empty table, growth included, followed by a search. The
      counter and the slots depend on the number of different pairs alone. */
  method SetsThenSearch<K(==, 0), V(0)>(run: seq<Entry<K, V>>, hash: nat, key: K)
    returns (found: bool, value: V, filling: Filling)
    requires forall i :: 0 <= i < |run| ==> run[i].Hash >= FIRST_VALID_HASH
    ensures filling == FillAfter(|Replayed(run)|)
    ensures found <==> exists i :: 0 <= i < |run| && Same(run[i], hash, key)
    ensures forall i :: 0 <= i < |run| && Same(run[i], hash, key) && NotLater(run, i, hash, key) ==>
      value == run[i].Value
  {
    hide NotLater, Calm;
    var table := new HashTable<K, V>();
    for i := 0 to |run|
      invariant table.Valid() && fresh(table) && fresh(table.Entries)
      invariant table.M == Replayed(run[..i])
      invariant Fill(table.Allocated, table.Count) == FillAfter(|table.M|)
    {
      assert run[..i + 1][..i] == run[..i];
      var _ := table.Set(run[i].Hash, run[i].Key, run[i].Value);
    }
    assert run[..|run|] == run;
    ReplayedIsLatest(run, hash, key);
    filling := Fill(table.Allocated, table.Count);
    var r := table.Search(hash, key);
    found := r.At?;
    if found {
      value := table.Entries[r.slot].Value;
    } else {
      value := *;
    }
  }

  lemma KeysAreRemapped<K, V>(e: seq<Entry<K, V>>, m: map<(nat, K), V>, hash: nat, key: K)
    requires Sound(e, m) && (hash, key) in m
    ensures hash >= FIRST_VALID_HASH
  {
    var s :| 0 <= s < |e| && Used(e, s) && e[s].Hash == hash && e[s].Key == key;
  }

  /** `search_prehashed` does not move the hashes 0 and 1 up as `add_prehashed` does: what is added
      under a hash is found under it again if and only if the hash is a valid one. */
  method AddThenSearch<K(==, 0), V(0)>(table: HashTable<K, V>, hash: nat, key: K, value: V)
    returns (found: bool)
    requires table.Valid() && (Remapped(hash), key) !in table.M
    modifies table, table.Entries
    ensures found <==> hash >= FIRST_VALID_HASH
  {
    var _ := table.Add(hash, key, value);
    var r := table.Search(hash, key);
    found := r.At?;
    if found { KeysAreRemapped(table.Entries[..], table.M, hash, key); }
  }

  /** The zeroed entries of a new table. */
  method FreeSlots<K(0), V(0)>(n: nat) returns (entries: array<Entry<K, V>>)
    ensures fresh(entries) && entries.Length == n
    ensures forall s :: 0 <= s < n ==> entries[s].Hash == 0
  {
    var key: K := *;
    var value: V := *;
    entries := new Entry<K, V>[n](_ => Entry(0, key, value));
  }
}
