/** `cu_HashMap`: open addressing with linear probing over a power-of-two table. */
module HashMaps {
  import opened Options
  import opened Bits
  import opened Utility

  /** The hash (already mixed with the map's seed) and the key comparison. Two keys
      are equal when `rep` maps them to the same representative, and the hash is a
      function of it: exactly the hashes that respect the comparison. */
  datatype Hashing<!K, !C(==)> = Hashing(rep: K -> C, code: C -> nat)
  {
    predicate Eq(a: K, b: K) { rep(a) == rep(b) }

    function Hash(k: K): nat { code(rep(k)) }
  }

  // ---------------------------------------------------------------------------
  // Tables.

  datatype Bucket<K, V> =
    Bucket(used: bool, deleted: bool, hash: nat, key: Option<K>, value: Option<V>)
  {
    predicate Live() { used && !deleted }
  }

  function Unused<K, V>(): Bucket<K, V> { Bucket(false, false, 0, None, None) }

  function Occupied<K, V>(hash: nat, k: K, v: V): Bucket<K, V> {
    Bucket(true, false, hash, Some(k), Some(v))
  }

  /** The bucket `d` probes after `home`. */
  function At(home: nat, d: nat, n: nat): nat {
    if home + d < n then home + d else home + d - n
  }

  /** How many probes lead from `home` to `i`. */
  function Dist(home: nat, i: nat, n: nat): nat
    requires home < n && i < n
  {
    if home <= i then i - home else i + n - home
  }

  lemma AtDist(home: nat, i: nat, n: nat)
    requires home < n && i < n
    ensures Dist(home, i, n) < n && At(home, Dist(home, i, n), n) == i
    ensures forall d: nat :: d < n ==> At(home, d, n) < n && Dist(home, At(home, d, n), n) == d
  {
  }

  function Home(h: nat, n: nat): (r: nat)
    requires n > 0
    ensures r < n
  {
    h % n
  }

  /** Masking with `capacity - 1` finds the home bucket... */
  lemma MaskIsHome(h: nat, n: nat)
    requires IsPow2(n)
    ensures And(h, n - 1) == Home(h, n)
  {
    AndMaskIsMod(h, Log2(n));
  }

  /** ...and wraps the probe around. */
  lemma MaskIsNext(home: nat, d: nat, n: nat)
    requires IsPow2(n) && home < n && d + 1 < n
    ensures And(At(home, d, n) + 1, n - 1) == At(home, d + 1, n)
  {
    AndMaskIsMod(At(home, d, n) + 1, Log2(n));
    WrapAt(At(home, d, n) + 1, n);
  }

  /** Live buckets carry a key, its hash and a value. */
  ghost predicate Tagged<K, C, V>(f: Hashing<K, C>, t: seq<Bucket<K, V>>) {
    forall i :: 0 <= i < |t| && t[i].Live() ==>
      t[i].key.Some? && t[i].value.Some? && t[i].hash == f.Hash(t[i].key.value)
  }

  ghost predicate NoKeyTwice<K, C, V>(f: Hashing<K, C>, t: seq<Bucket<K, V>>)
    requires Tagged(f, t)
  {
    forall i, j :: 0 <= i < |t| && 0 <= j < |t| && i != j && t[i].Live() && t[j].Live() ==>
      !f.Eq(t[i].key.value, t[j].key.value)
  }

  ghost predicate PathUsed<K, V>(t: seq<Bucket<K, V>>, home: nat, i: nat)
    requires home < |t| && i < |t|
  {
    forall d: nat :: d < Dist(home, i, |t|) ==> t[At(home, d, |t|)].used
  }

  /** Every bucket between a key's home and its place is in use. */
  ghost predicate NoGaps<K, V>(t: seq<Bucket<K, V>>) {
    forall i :: 0 <= i < |t| && t[i].Live() ==> PathUsed(t, Home(t[i].hash, |t|), i)
  }

  /** The table's invariant; it tolerates deleted buckets. */
  ghost predicate Good<K, C, V>(f: Hashing<K, C>, t: seq<Bucket<K, V>>) {
    Tagged(f, t) && NoKeyTwice(f, t) && NoGaps(t)
  }

  ghost predicate Absent<K, C, V>(f: Hashing<K, C>, t: seq<Bucket<K, V>>, k: K)
    requires Tagged(f, t)
  {
    forall i :: 0 <= i < |t| && t[i].Live() ==> !f.Eq(t[i].key.value, k)
  }

  function CountUsed<K, V>(t: seq<Bucket<K, V>>): (c: nat)
    ensures c <= |t|
  {
    if t == [] then 0 else CountUsed(t[..|t| - 1]) + (if t[|t| - 1].used then 1 else 0)
  }

  lemma {:induction false} CountUsedUpdate<K, V>(t: seq<Bucket<K, V>>, i: nat, b: Bucket<K, V>)
    requires i < |t|
    ensures CountUsed(t[i := b]) ==
            CountUsed(t) - (if t[i].used then 1 else 0) + (if b.used then 1 else 0)
  {
    var n := |t| - 1;
    if i == n {
      assert t[i := b][..n] == t[..n];
    } else {
      CountUsedUpdate(t[..n], i, b);
      assert t[i := b][..n] == t[..n][i := b];
    }
  }

  lemma {:induction false} CountUsedNone<K, V>(t: seq<Bucket<K, V>>)
    requires forall i :: 0 <= i < |t| ==> !t[i].used
    ensures CountUsed(t) == 0
  {
    if t != [] { CountUsedNone(t[..|t| - 1]); }
  }

  /** A table that is not full has an unused bucket. */
  lemma {:induction false} UnusedExists<K, V>(t: seq<Bucket<K, V>>) returns (i: nat)
    requires CountUsed(t) < |t|
    ensures i < |t| && !t[i].used
  {
    if !t[|t| - 1].used {
      i := |t| - 1;
    } else {
      i := UnusedExists(t[..|t| - 1]);
    }
  }

  // ---------------------------------------------------------------------------
  // The finite map a table stores: from representative to the key as stored and
  // the current value.

  ghost predicate Holds<K, C, V>(f: Hashing<K, C>, t: seq<Bucket<K, V>>, c: C, k: K, v: V) {
    exists i :: 0 <= i < |t| && t[i].Live() && t[i].key == Some(k) && t[i].value == Some(v) && f.rep(k) == c
  }

  ghost function Stored<K, C, V>(f: Hashing<K, C>, t: seq<Bucket<K, V>>): (m: map<C, (K, V)>)
    requires Tagged(f, t) && NoKeyTwice(f, t)
    ensures forall i :: 0 <= i < |t| && t[i].Live() ==>
      var c := f.rep(t[i].key.value); c in m && m[c] == (t[i].key.value, t[i].value.value)
    ensures forall c :: c in m ==> Holds(f, t, c, m[c].0, m[c].1)
  {
    map i | 0 <= i < |t| && t[i].Live() ::
      f.rep(t[i].key.value) := (t[i].key.value, t[i].value.value)
  }

  /** Writing keeps the key already stored and replaces its value. */
  function Put<K, C, V>(f: Hashing<K, C>, m: map<C, (K, V)>, k: K, v: V): map<C, (K, V)> {
    var c := f.rep(k);
    m[c := (if c in m then m[c].0 else k, v)]
  }

  /** The key is found with the new value afterwards, and every other key as before. */
  lemma PutThenGet<K, C, V>(f: Hashing<K, C>, m: map<C, (K, V)>, k: K, v: V, c: C)
    ensures f.rep(k) in Put(f, m, k, v) && Put(f, m, k, v)[f.rep(k)].1 == v
    ensures Put(f, m, k, v)[f.rep(k)].0 == if f.rep(k) in m then m[f.rep(k)].0 else k
    ensures c != f.rep(k) ==> (c in Put(f, m, k, v) <==> c in m) && (c in m ==> Put(f, m, k, v)[c] == m[c])
  {
  }

  /** `idx` is where a probe for `k` may end: at `k`'s own bucket or, when the key
      is absent, at a bucket free to take it. */
  ghost predicate SlotFor<K, C, V>(f: Hashing<K, C>, t: seq<Bucket<K, V>>, k: K, idx: nat)
    requires Tagged(f, t)
  {
    && idx < |t|
    && (t[idx].Live() ==> f.Eq(t[idx].key.value, k))
    && (!t[idx].Live() ==> Absent(f, t, k) && PathUsed(t, Home(f.Hash(k), |t|), idx))
  }

  ghost predicate Scanned<K, C, V>(f: Hashing<K, C>, t: seq<Bucket<K, V>>, k: K, d: nat)
    requires Tagged(f, t) && d <= |t| && |t| > 0
  {
    var home := Home(f.Hash(k), |t|);
    forall e: nat :: e < d ==>
      var b := t[At(home, e, |t|)];
      b.used && (b.Live() ==> !f.Eq(b.key.value, k))
  }

  /** Once the probe meets an unused bucket, the key is nowhere in the table. */
  lemma ProbeMiss<K, C, V>(f: Hashing<K, C>, t: seq<Bucket<K, V>>, k: K, d: nat)
    requires Good(f, t) && d < |t| && Scanned(f, t, k, d)
    requires !t[At(Home(f.Hash(k), |t|), d, |t|)].used
    ensures Absent(f, t, k)
    ensures PathUsed(t, Home(f.Hash(k), |t|), At(Home(f.Hash(k), |t|), d, |t|))
  {
    var home := Home(f.Hash(k), |t|);
    AtDist(home, At(home, d, |t|), |t|);
    forall i | 0 <= i < |t| && t[i].Live() ensures !f.Eq(t[i].key.value, k) {
      AtDist(home, i, |t|);
      assert PathUsed(t, Home(t[i].hash, |t|), i);
      assert t[i].hash == f.Hash(k) ==> Dist(home, i, |t|) < d;
    }
  }

  /** Where a probe starts, and an unused bucket that it cannot pass. */
  lemma ScanStart<K, C, V>(f: Hashing<K, C>, t: seq<Bucket<K, V>>, k: K) returns (free: nat)
    requires Tagged(f, t) && CountUsed(t) < |t| && IsPow2(|t|)
    ensures free < |t| && !t[free].used && Scanned(f, t, k, 0)
    ensures var home := Home(f.Hash(k), |t|); And(f.Hash(k), |t| - 1) == At(home, 0, |t|)
  {
    free := UnusedExists(t);
    MaskIsHome(f.Hash(k), |t|);
  }

  /** A probe that passes bucket `d` has not come to the unused one, and goes on to
      the next. */
  lemma ScanOn<K, C, V>(f: Hashing<K, C>, t: seq<Bucket<K, V>>, k: K, d: nat, free: nat)
    requires Tagged(f, t) && IsPow2(|t|) && free < |t| && !t[free].used
    requires var home := Home(f.Hash(k), |t|);
      && d <= Dist(home, free, |t|) < |t| && Scanned(f, t, k, d)
      && var b := t[At(home, d, |t|)];
      b.used && (b.Live() ==> !(b.hash == f.Hash(k) && f.Eq(b.key.value, k)))
    ensures var home := Home(f.Hash(k), |t|);
      && d < Dist(home, free, |t|) && Scanned(f, t, k, d + 1) && PathUsed(t, home, At(home, d, |t|))
      && And(At(home, d, |t|) + 1, |t| - 1) == At(home, d + 1, |t|) < |t|
  {
    hide NoKeyTwice, NoGaps, IsPow2;
    var home := Home(f.Hash(k), |t|);
    AtDist(home, free, |t|);
    MaskIsNext(home, d, |t|);
    AtDist(home, At(home, d, |t|), |t|);
  }

  lemma UpdateKeepsPath<K, V>(t: seq<Bucket<K, V>>, idx: nat, b: Bucket<K, V>, home: nat, i: nat)
    requires idx < |t| && home < |t| && i < |t| && b.used && PathUsed(t, home, i)
    ensures PathUsed(t[idx := b], home, i)
  {
  }

  lemma UpdateKeepsGood<K, C, V>(f: Hashing<K, C>, t: seq<Bucket<K, V>>, k: K, v: V, idx: nat)
    requires Good(f, t) && SlotFor(f, t, k, idx)
    ensures Good(f, t[idx := Occupied(f.Hash(k), if t[idx].Live() then t[idx].key.value else k, v)])
  {
    var b := Occupied(f.Hash(k), if t[idx].Live() then t[idx].key.value else k, v);
    var u := t[idx := b];
    assert Tagged(f, u);
    assert NoKeyTwice(f, u);
    forall i | 0 <= i < |u| && u[i].Live() ensures PathUsed(u, Home(u[i].hash, |u|), i) {
      if t[i].Live() { assert PathUsed(t, Home(t[i].hash, |t|), i); }
      UpdateKeepsPath(t, idx, b, Home(u[i].hash, |u|), i);
    }
  }

  lemma StoredIs<K, C, V>(f: Hashing<K, C>, t: seq<Bucket<K, V>>, m: map<C, (K, V)>)
    requires Tagged(f, t) && NoKeyTwice(f, t)
    requires forall c, k, v :: Holds(f, t, c, k, v) <==> c in m && m[c] == (k, v)
    ensures Stored(f, t) == m
  {
    var n := Stored(f, t);
    forall c | c in m ensures c in n && n[c] == m[c] {
      assert Holds(f, t, c, m[c].0, m[c].1);
    }
    forall c | c in n ensures c in m {
      assert Holds(f, t, c, n[c].0, n[c].1);
    }
  }

  lemma HoldsIsStored<K, C, V>(f: Hashing<K, C>, t: seq<Bucket<K, V>>, c: C, k: K, v: V)
    requires Tagged(f, t) && NoKeyTwice(f, t)
    ensures Holds(f, t, c, k, v) <==> c in Stored(f, t) && Stored(f, t)[c] == (k, v)
  {
  }

  /** Storing a pair in the bucket the probe ended at updates the map at that key. */
  lemma StoreAtSlot<K, C, V>(f: Hashing<K, C>, t: seq<Bucket<K, V>>, k: K, v: V, idx: nat)
    requires Good(f, t) && SlotFor(f, t, k, idx)
    ensures var u := t[idx := Occupied(f.Hash(k), if t[idx].Live() then t[idx].key.value else k, v)];
            Good(f, u) && Stored(f, u) == Put(f, Stored(f, t), k, v)
  {
    UpdateKeepsGood(f, t, k, v, idx);
    var stored := if t[idx].Live() then t[idx].key.value else k;
    var u := t[idx := Occupied(f.Hash(k), stored, v)];
    var m, r := Stored(f, t), f.rep(k);
    assert r in m ==> t[idx].Live() by {
      if r in m { assert Holds(f, t, r, m[r].0, m[r].1); }
    }
    assert Put(f, m, k, v) == m[r := (stored, v)];
    forall c, a, w ensures Holds(f, u, c, a, w) <==> if c == r then (a, w) == (stored, v) else Holds(f, t, c, a, w) {
      HoldsAfterStore(f, t, k, v, idx, c, a, w);
    }
    forall c, a, w ensures Holds(f, t, c, a, w) <==> c in m && m[c] == (a, w) { HoldsIsStored(f, t, c, a, w); }
    StoredIs(f, u, m[r := (stored, v)]);
  }

  /** The same step with everything the map object keeps track of. */
  lemma StoreResult<K, C, V>(f: Hashing<K, C>, t: seq<Bucket<K, V>>, k: K, v: V, idx: nat)
    requires Good(f, t) && SlotFor(f, t, k, idx) && !t[idx].deleted
    ensures f.rep(k) in Stored(f, t) <==> t[idx].Live()
    ensures var b := Occupied(f.Hash(k), if t[idx].Live() then t[idx].key.value else k, v);
            var u := t[idx := b];
            && (t[idx].Live() ==> b == t[idx].(value := Some(v)))
            && Good(f, u)
            && Stored(f, u) == Put(f, Stored(f, t), k, v)
            && CountUsed(u) == CountUsed(t) + (if t[idx].Live() then 0 else 1)
  {
    StoreAtSlot(f, t, k, v, idx);
    AbsentIs(f, t, k);
    CountUsedUpdate(t, idx, Occupied(f.Hash(k), if t[idx].Live() then t[idx].key.value else k, v));
  }

  lemma HoldsAfterStore<K, C, V>(f: Hashing<K, C>, t: seq<Bucket<K, V>>, k: K, v: V, idx: nat, c: C, a: K, w: V)
    requires Good(f, t) && SlotFor(f, t, k, idx)
    ensures var stored := if t[idx].Live() then t[idx].key.value else k;
            var u := t[idx := Occupied(f.Hash(k), stored, v)];
            Holds(f, u, c, a, w) <==> if c == f.rep(k) then (a, w) == (stored, v) else Holds(f, t, c, a, w)
  {
    var stored := if t[idx].Live() then t[idx].key.value else k;
    var u := t[idx := Occupied(f.Hash(k), stored, v)];
    assert u[idx].Live() && u[idx].key == Some(stored) && u[idx].value == Some(v);
    if Holds(f, u, c, a, w) {
      var i :| 0 <= i < |u| && u[i].Live() && u[i].key == Some(a) && u[i].value == Some(w) && f.rep(a) == c;
      if i != idx { assert t[i].Live(); }
    }
    if c != f.rep(k) && Holds(f, t, c, a, w) {
      var i :| 0 <= i < |t| && t[i].Live() && t[i].key == Some(a) && t[i].value == Some(w) && f.rep(a) == c;
      assert u[i].Live();
    }
  }

  /** A prefix of a table still names each key at most once. */
  lemma PrefixTagged<K, C, V>(f: Hashing<K, C>, t: seq<Bucket<K, V>>, n: nat)
    requires Tagged(f, t) && NoKeyTwice(f, t) && n <= |t|
    ensures Tagged(f, t[..n]) && NoKeyTwice(f, t[..n])
  {
  }

  /** The map of a table, one bucket at a time. */
  lemma PrefixStep<K, C, V>(f: Hashing<K, C>, t: seq<Bucket<K, V>>, i: nat)
    requires Tagged(f, t) && NoKeyTwice(f, t) && i < |t|
    requires Tagged(f, t[..i]) && NoKeyTwice(f, t[..i]) && Tagged(f, t[..i + 1]) && NoKeyTwice(f, t[..i + 1])
    ensures !t[i].Live() ==> Stored(f, t[..i + 1]) == Stored(f, t[..i])
    ensures t[i].Live() ==>
      && f.rep(t[i].key.value) !in Stored(f, t[..i])
      && Stored(f, t[..i + 1]) == Put(f, Stored(f, t[..i]), t[i].key.value, t[i].value.value)
  {
    var p, q := t[..i], t[..i + 1];
    var m := Stored(f, p);
    if t[i].Live() {
      var k, v := t[i].key.value, t[i].value.value;
      assert forall c :: c in m ==> Holds(f, p, c, m[c].0, m[c].1);
      assert f.rep(k) !in m;
      m := m[f.rep(k) := (k, v)];
    }
    forall c, a, w ensures Holds(f, q, c, a, w) <==> c in m && m[c] == (a, w) {
      HoldsIsStored(f, p, c, a, w);
      HoldsInLonger(f, t, i, c, a, w);
    }
    StoredIs(f, q, m);
  }

  lemma HoldsInLonger<K, C, V>(f: Hashing<K, C>, t: seq<Bucket<K, V>>, i: nat, c: C, a: K, w: V)
    requires i < |t|
    ensures Holds(f, t[..i + 1], c, a, w) <==>
      Holds(f, t[..i], c, a, w)
      || (t[i].Live() && t[i].key == Some(a) && t[i].value == Some(w) && f.rep(a) == c)
  {
    var p, q := t[..i], t[..i + 1];
    assert q[i] == t[i] && forall j :: 0 <= j < i ==> p[j] == q[j];
  }

  lemma {:induction false} PrefixCount<K, V>(t: seq<Bucket<K, V>>, i: nat)
    requires i <= |t|
    ensures CountUsed(t[..i]) <= CountUsed(t)
    ensures i < |t| ==> CountUsed(t[..i + 1]) == CountUsed(t[..i]) + (if t[i].used then 1 else 0)
  {
    if i < |t| { assert t[..i + 1][..i] == t[..i]; }
    if i < |t| {
      PrefixCount(t[..|t| - 1], i);
      assert t[..|t| - 1][..i] == t[..i];
    } else {
      assert t[..i] == t;
    }
  }

  lemma AbsentIs<K, C, V>(f: Hashing<K, C>, t: seq<Bucket<K, V>>, k: K)
    requires Tagged(f, t) && NoKeyTwice(f, t)
    ensures Absent(f, t, k) <==> f.rep(k) !in Stored(f, t)
  {
    var m, r := Stored(f, t), f.rep(k);
    if r in m { assert Holds(f, t, r, m[r].0, m[r].1); }
  }

  // ---------------------------------------------------------------------------
  // Enumeration.

  /** The pairs at index `i` and beyond, in table order. */
  function Entries<K, V>(t: seq<Bucket<K, V>>, i: nat): seq<(K, V)>
    decreases |t| - i
  {
    if i >= |t| then []
    else if t[i].Live() && t[i].key.Some? && t[i].value.Some? then
      [(t[i].key.value, t[i].value.value)] + Entries(t, i + 1)
    else Entries(t, i + 1)
  }

  lemma {:induction false} EntriesFrom<K, C, V>(f: Hashing<K, C>, t: seq<Bucket<K, V>>, i: nat, e: (K, V))
    requires Tagged(f, t)
    ensures e in Entries(t, i) <==>
      exists j :: i <= j < |t| && t[j].Live() && e == (t[j].key.value, t[j].value.value)
    decreases |t| - i
  {
    if i < |t| {
      EntriesFrom(f, t, i + 1, e);
      var rest := Entries(t, i + 1);
      if t[i].Live() {
        var x := (t[i].key.value, t[i].value.value);
        assert Entries(t, i) == [x] + rest;
        assert e in Entries(t, i) <==> e == x || e in rest;
      } else {
        assert Entries(t, i) == rest;
      }
    }
  }

  lemma {:induction false} EntriesDistinct<K, C, V>(f: Hashing<K, C>, t: seq<Bucket<K, V>>, i: nat)
    requires Good(f, t)
    ensures forall a, b :: 0 <= a < b < |Entries(t, i)| ==> !f.Eq(Entries(t, i)[a].0, Entries(t, i)[b].0)
    decreases |t| - i
  {
    if i < |t| {
      EntriesDistinct(f, t, i + 1);
      if t[i].Live() {
        var rest := Entries(t, i + 1);
        forall b | 0 <= b < |rest| ensures !f.Eq(t[i].key.value, rest[b].0) {
          EntriesFrom(f, t, i + 1, rest[b]);
          assert rest[b] in rest;
        }
      }
    }
  }

  /** Iterating a whole table yields each stored pair exactly once. */
  lemma EntriesEnumerateStored<K(!new), C, V(!new)>(f: Hashing<K, C>, t: seq<Bucket<K, V>>)
    requires Good(f, t)
    ensures forall k, v :: (k, v) in Entries(t, 0) <==> f.rep(k) in Stored(f, t) && Stored(f, t)[f.rep(k)] == (k, v)
    ensures forall a, b :: 0 <= a < b < |Entries(t, 0)| ==> !f.Eq(Entries(t, 0)[a].0, Entries(t, 0)[b].0)
    ensures |Entries(t, 0)| == |Stored(f, t)|
  {
    var es, m := Entries(t, 0), Stored(f, t);
    EntriesDistinct(f, t, 0);
    forall k, v ensures (k, v) in es <==> f.rep(k) in m && m[f.rep(k)] == (k, v) {
      EntriesFrom(f, t, 0, (k, v));
      HoldsIsStored(f, t, f.rep(k), k, v);
    }
    forall c | c in m ensures f.rep(m[c].0) == c {
      assert Holds(f, t, c, m[c].0, m[c].1);
    }
    EntriesCount(f, es, m);
  }

  function Reps<K, C, V>(f: Hashing<K, C>, es: seq<(K, V)>): set<C> {
    if es == [] then {} else Reps(f, es[..|es| - 1]) + {f.rep(es[|es| - 1].0)}
  }

  lemma {:induction false} RepsOf<K, C, V>(f: Hashing<K, C>, es: seq<(K, V)>, c: C)
    ensures c in Reps(f, es) <==> exists i :: 0 <= i < |es| && f.rep(es[i].0) == c
  {
    if es != [] { RepsOf(f, es[..|es| - 1], c); }
  }

  lemma {:induction false} RepsCount<K, C, V>(f: Hashing<K, C>, es: seq<(K, V)>)
    requires forall a, b :: 0 <= a < b < |es| ==> !f.Eq(es[a].0, es[b].0)
    ensures |Reps(f, es)| == |es|
  {
    if es != [] {
      RepsCount(f, es[..|es| - 1]);
      RepsOf(f, es[..|es| - 1], f.rep(es[|es| - 1].0));
    }
  }

  lemma EntriesCount<K(!new), C, V(!new)>(f: Hashing<K, C>, es: seq<(K, V)>, m: map<C, (K, V)>)
    requires forall k, v :: (k, v) in es <==> f.rep(k) in m && m[f.rep(k)] == (k, v)
    requires forall c :: c in m ==> f.rep(m[c].0) == c
    requires forall a, b :: 0 <= a < b < |es| ==> !f.Eq(es[a].0, es[b].0)
    ensures |es| == |m|
  {
    hide Reps;
    RepsCount(f, es);
    forall c | c in m.Keys ensures c in Reps(f, es) {
      RepsOf(f, es, c);
      assert (m[c].0, m[c].1) in es;
    }
    forall c | c in Reps(f, es) ensures c in m.Keys {
      RepsOf(f, es, c);
      var i :| 0 <= i < |es| && f.rep(es[i].0) == c;
      assert (es[i].0, es[i].1) in es;
    }
    assert m.Keys == Reps(f, es);
  }

  // ---------------------------------------------------------------------------
  // The map object.

  datatype Error = Oom

  const MIN_REHASH_CAPACITY: nat := 16

  // 2^58 buckets of 40 bytes are all a 64-bit address space holds; no allocator
  // grants more.
  const MAX_CAPACITY: nat := WORD_LIMIT / 64

  lemma TableSize(x: nat)
    requires x <= MAX_CAPACITY
    ensures CeilPow2(x) <= MAX_CAPACITY
  {
    hide CeilPow2;
    WordLimitIs();
    assert Pow2(3) == 8;
    Pow2Sum(3, 3);
    Pow2Sum(6, 58);
    Pow2IsPow2(58);
    CeilPow2IsLeast(x, MAX_CAPACITY);
  }

  class HashMap<K, C(==), V> {
    const hashing: Hashing<K, C>
    var buckets: array<Bucket<K, V>>
    var capacity: nat
    var length: nat
    // Blocks obtained and not given back: the table, and two for every pair.
    ghost var blocks: nat

    ghost predicate Valid()
      reads this, buckets
    {
      && blocks == (if capacity > 0 then 1 else 0) + 2 * length
      && buckets.Length == capacity
      && (capacity == 0 || (IsPow2(capacity) && capacity <= MAX_CAPACITY))
      && Sound()
      && CountUsed(buckets[..]) == length
      && (capacity > 0 ==> 2 * length < capacity)
    }

    /** The table is well formed and, since nothing is ever removed, holds no
        deleted bucket. */
    ghost predicate Sound()
      reads this, buckets
    {
      Good(hashing, buckets[..]) && forall i :: 0 <= i < buckets.Length ==> !buckets[i].deleted
    }

    ghost function Contents(): (m: map<C, (K, V)>)
      requires Valid()
      reads this, buckets
    {
      Stored(hashing, buckets[..])
    }

    constructor Empty(hashing: Hashing<K, C>, capacity: nat)
      requires IsPow2(capacity) && capacity <= MAX_CAPACITY
      ensures Valid() && Contents() == map[] && length == 0 && this.capacity == capacity
      ensures this.hashing == hashing && fresh(buckets)
    {
      this.hashing := hashing;
      this.capacity := capacity;
      length, blocks := 0, 1;
      buckets := new Bucket<K, V>[capacity](_ => Unused());
      new;
      CountUsedNone(buckets[..]);
    }

    /** `granted` is the allocator's answer to the request for the table. */
    static method Create(hashing: Hashing<K, C>, initialCapacity: Option<nat>, granted: bool)
      returns (r: HashMap?<K, C, V>)
      requires initialCapacity.Some? ==> initialCapacity.value < WORD_LIMIT
      requires granted && initialCapacity.Some? ==> initialCapacity.value <= MAX_CAPACITY
      ensures r == null <==> !granted
      ensures r != null ==> fresh(r) && fresh(r.buckets) && r.Valid() && r.hashing == hashing
      ensures r != null ==> r.Contents() == map[] && r.length == 0
      ensures r != null ==> r.capacity == if initialCapacity.Some? then CeilPow2(initialCapacity.value) else 16
    {
      var cap := 16;
      if initialCapacity.Some? {
        cap := initialCapacity.value;
      }
      if granted { TableSize(cap); }
      cap := NextPow2Size(cap);
      if !granted {
        return null;
      }
      r := new HashMap.Empty(hashing, cap);
    }

    /** Linear probe for the bucket that holds `key` or should receive it. */
    method FindSlot(key: K, hash: nat) returns (idx: nat)
      requires hash == hashing.Hash(key)
      requires buckets.Length == capacity && IsPow2(capacity)
      requires Good(hashing, buckets[..]) && CountUsed(buckets[..]) < capacity
      ensures SlotFor(hashing, buckets[..], key, idx)
    {
      hide Scanned, NoKeyTwice, NoGaps, PathUsed, IsPow2, CountUsed, Absent, Dist;
      var mask := capacity - 1;
      idx := And(hash, mask);
      var firstDel: Option<nat> := None;
      ghost var t, home, d := buckets[..], Home(hash, capacity), 0;
      ghost var free := ScanStart(hashing, t, key);
      AtDist(home, free, capacity);
      while true
        invariant d <= Dist(home, free, capacity) && idx == At(home, d, capacity) < capacity
        invariant Scanned(hashing, t, key, d)
        invariant firstDel.Some? ==> firstDel.value < capacity
        invariant firstDel.Some? ==> !t[firstDel.value].Live() && PathUsed(t, home, firstDel.value)
        decreases Dist(home, free, capacity) - d
      {
        if !buckets[idx].used {
          ProbeMiss(hashing, t, key, d);
          if firstDel.Some? {
            return firstDel.value;
          }
          return;
        }
        if buckets[idx].deleted {
          if firstDel.None? {
            firstDel := Some(idx);
          }
        } else if buckets[idx].hash == hash && hashing.Eq(buckets[idx].key.value, key) {
          return;
        }
        ScanOn(hashing, t, key, d, free);
        idx := And(idx + 1, mask);
        d := d + 1;
      }
    }

    /** Linear probe that only reads; no bucket when the key is absent. */
    method LookupBucket(key: K, hash: nat) returns (r: Option<nat>)
      requires hash == hashing.Hash(key)
      requires buckets.Length == capacity && IsPow2(capacity)
      requires Good(hashing, buckets[..]) && CountUsed(buckets[..]) < capacity
      ensures r.None? ==> Absent(hashing, buckets[..], key)
      ensures r.Some? ==> r.value < capacity && buckets[r.value].Live()
      ensures r.Some? ==> hashing.Eq(buckets[r.value].key.value, key)
    {
      hide Scanned, NoKeyTwice, NoGaps, PathUsed, IsPow2, CountUsed, Absent, Dist;
      var mask := capacity - 1;
      var idx := And(hash, mask);
      ghost var t, home, d := buckets[..], Home(hash, capacity), 0;
      ghost var free := ScanStart(hashing, t, key);
      AtDist(home, free, capacity);
      while true
        invariant d <= Dist(home, free, capacity) && idx == At(home, d, capacity) < capacity
        invariant Scanned(hashing, t, key, d)
        decreases Dist(home, free, capacity) - d
      {
        if !buckets[idx].used {
          ProbeMiss(hashing, t, key, d);
          return None;
        }
        if !buckets[idx].deleted && buckets[idx].hash == hash && hashing.Eq(buckets[idx].key.value, key) {
          return Some(idx);
        }
        ScanOn(hashing, t, key, d, free);
        idx := And(idx + 1, mask);
        d := d + 1;
      }
    }

    /** Copies one bucket whose key the table does not hold yet. */
    method Reinsert(b: Bucket<K, V>)
      requires buckets.Length == capacity && IsPow2(capacity)
      requires Sound() && CountUsed(buckets[..]) < capacity
      requires b.Live() && b.key.Some? && b.value.Some? && b.hash == hashing.Hash(b.key.value)
      requires hashing.rep(b.key.value) !in Stored(hashing, buckets[..])
      modifies this`length, buckets
      ensures Sound() && length == old(length) + 1
      ensures CountUsed(buckets[..]) == old(CountUsed(buckets[..])) + 1
      ensures Stored(hashing, buckets[..]) ==
        Put(hashing, old(Stored(hashing, buckets[..])), b.key.value, b.value.value)
    {
      hide CountUsed, NoGaps, NoKeyTwice, PathUsed, IsPow2, Absent;
      var slot := FindSlot(b.key.value, b.hash);
      ghost var t := buckets[..];
      AbsentIs(hashing, t, b.key.value);
      StoreAtSlot(hashing, t, b.key.value, b.value.value, slot);
      buckets[slot] := Bucket(true, false, b.hash, b.key, b.value);
      CountUsedUpdate(t, slot, buckets[slot]);
      assert buckets[..] == t[slot := buckets[slot]];
      length := length + 1;
    }

    /** Reinserts every live bucket of another table into an empty one. */
    method CopyFrom(source: array<Bucket<K, V>>)
      requires source != buckets
      requires buckets.Length == capacity && IsPow2(capacity)
      requires Sound() && length == 0 && CountUsed(buckets[..]) == 0
      requires Stored(hashing, buckets[..]) == map[]
      requires Tagged(hashing, source[..]) && NoKeyTwice(hashing, source[..])
      requires forall i :: 0 <= i < source.Length ==> !source[i].deleted
      requires CountUsed(source[..]) < capacity
      modifies this`length, buckets
      ensures Sound() && length == CountUsed(buckets[..]) == CountUsed(source[..])
      ensures Stored(hashing, buckets[..]) == Stored(hashing, source[..])
    {
      ghost var was := source[..];
      for i := 0 to source.Length
        invariant Sound()
        invariant source[..] == was
        invariant Tagged(hashing, was[..i]) && NoKeyTwice(hashing, was[..i])
        invariant CountUsed(buckets[..]) == length == CountUsed(was[..i])
        invariant Stored(hashing, buckets[..]) == Stored(hashing, was[..i])
      {
        PrefixTagged(hashing, was, i + 1);
        PrefixStep(hashing, was, i);
        PrefixCount(was, i);
        PrefixCount(was, i + 1);
        if !source[i].used || source[i].deleted {
          continue;
        }
        Reinsert(source[i]);
      }
      assert was[..source.Length] == was;
    }

    /** Moves every pair into a fresh table of at least 16 buckets. */
    method Rehash(requested: nat, granted: bool) returns (err: Option<Error>)
      requires Valid()
      requires length == 0 || 2 * length < requested
      requires requested <= 2 * MAX_CAPACITY
      requires granted ==> requested <= MAX_CAPACITY
      modifies this
      ensures Valid() && Contents() == old(Contents()) && length == old(length)
      ensures err.Some? <==> !granted
      ensures !granted ==> capacity == old(capacity) && buckets == old(buckets)
      ensures granted ==> fresh(buckets) && capacity == CeilPow2(if requested < 16 then 16 else requested)
    {
      hide CountUsed, NoGaps, NoKeyTwice, PathUsed, IsPow2, CeilPow2;
      var newCap := requested;
      if newCap < MIN_REHASH_CAPACITY {
        newCap := MIN_REHASH_CAPACITY;
      }
      if granted { TableSize(newCap); }
      newCap := NextPow2Size(newCap);
      if !granted {
        return Some(Oom);
      }
      var oldBuckets := buckets;
      blocks := blocks + (if capacity > 0 then 0 else 1);
      buckets := new Bucket<K, V>[newCap](_ => Unused());
      capacity := newCap;
      length := 0;
      CountUsedNone(buckets[..]);
      CopyFrom(oldBuckets);
      err := None;
    }

    /** `granted` answers the request for a larger table, `keyGranted` and
        `valueGranted` those for a new pair's storage. When one of the latter is
        refused the new key's bucket stays reserved without a key. */
    method Insert(key: K, value: V, granted: bool, keyGranted: bool, valueGranted: bool)
      returns (err: Option<Error>)
      requires Valid()
      requires granted ==> 2 * capacity <= MAX_CAPACITY
      modifies this, buckets
      ensures fresh(buckets) || buckets == old(buckets)
      ensures err.None? ==> Valid() && Contents() == Put(hashing, old(Contents()), key, value)
      ensures old(2 * (length + 1) >= capacity) && !granted ==>
        err.Some? && Valid() && Contents() == old(Contents())
      ensures old(2 * (length + 1) < capacity) || granted ==>
        (err.Some? <==> hashing.rep(key) !in old(Contents()) && !(keyGranted && valueGranted))
      ensures Valid() <==> err.None? || (old(2 * (length + 1) >= capacity) && !granted)
    {
      if (length + 1) * 2 >= capacity {
        err := Rehash(capacity * 2, granted);
        if err.Some? {
          return;
        }
      }
      err := Place(key, value, keyGranted, valueGranted);
    }

    /** The part of an insertion that works on a table with room to spare. */
    method Place(key: K, value: V, keyGranted: bool, valueGranted: bool) returns (err: Option<Error>)
      requires Valid() && 2 * (length + 1) < capacity
      modifies this`length, this`blocks, buckets
      ensures err.None? ==> Valid() && Contents() == Put(hashing, old(Contents()), key, value)
      ensures err.Some? <==> hashing.rep(key) !in old(Contents()) && !(keyGranted && valueGranted)
      ensures err.Some? ==> !Valid()
    {
      hide Stored, Good, IsPow2, CountUsed, Put;
      var hash := hashing.Hash(key);
      var slot := FindSlot(key, hash);
      ghost var t := buckets[..];
      StoreResult(hashing, t, key, value, slot);
      if buckets[slot].used && !buckets[slot].deleted {
        buckets[slot] := buckets[slot].(value := Some(value));
        assert buckets[..] == t[slot := buckets[slot]];
        return None;
      }
      err := Occupy(slot, key, value, keyGranted, valueGranted);
    }

    /** Gives a new key the bucket its probe ended at. */
    method Occupy(slot: nat, key: K, value: V, keyGranted: bool, valueGranted: bool) returns (err: Option<Error>)
      requires Valid() && 2 * (length + 1) < capacity
      requires SlotFor(hashing, buckets[..], key, slot) && !buckets[slot].Live()
      modifies this`length, this`blocks, buckets
      ensures err.None? ==> Valid() && Contents() == Put(hashing, old(Contents()), key, value)
      ensures err.Some? <==> !(keyGranted && valueGranted)
      ensures err.Some? ==> !Valid() && blocks == old(blocks)
    {
      hide Stored, IsPow2, CountUsed, Put;
      var hash := hashing.Hash(key);
      ghost var t := buckets[..];
      StoreResult(hashing, t, key, value, slot);
      buckets[slot] := Bucket(true, false, hash, None, None);
      if !keyGranted {
        assert buckets[..][slot].Live();
        return Some(Oom);
      }
      blocks := blocks + 1;
      if !valueGranted {
        blocks := blocks - 1;
        assert buckets[..][slot].Live();
        return Some(Oom);
      }
      blocks := blocks + 1;
      buckets[slot] := buckets[slot].(key := Some(key), value := Some(value));
      assert buckets[..] == t[slot := buckets[slot]];
      length := length + 1;
      err := None;
    }

    method Get(key: K) returns (r: Option<V>)
      requires Valid()
      ensures hashing.rep(key) in Contents() ==> r == Some(Contents()[hashing.rep(key)].1)
      ensures hashing.rep(key) !in Contents() ==> r == None
    {
      if capacity == 0 {
        return None;
      }
      var hash := hashing.Hash(key);
      var b := LookupBucket(key, hash);
      AbsentIs(hashing, buckets[..], key);
      if b.Some? {
        return buckets[b.value].value;
      }
      return None;
    }

    /** One step of an iteration: the next pair at or after `index`, if any. */
    method Iter(index: nat) returns (found: bool, next: nat, pair: Option<(K, V)>)
      requires Valid()
      ensures found <==> Entries(buckets[..], index) != []
      ensures found ==> pair.Some? && Entries(buckets[..], index) == [pair.value] + Entries(buckets[..], next)
      ensures found ==> index < next <= capacity
      ensures !found ==> pair == None && Entries(buckets[..], next) == []
    {
      next := index;
      while next < capacity
        invariant index <= next && Entries(buckets[..], next) == Entries(buckets[..], index)
      {
        var b := buckets[next];
        next := next + 1;
        if b.used && !b.deleted {
          return true, next, Some((b.key.value, b.value.value));
        }
      }
      return false, next, None;
    }

    /** Gives every block back; the map may be used again. */
    method Destroy()
      requires Valid()
      modifies this
      ensures Valid() && fresh(buckets) && capacity == 0 && length == 0 && Contents() == map[] && blocks == 0
    {
      FreePairs();
      if capacity > 0 {
        blocks := blocks - 1;
      }
      buckets := new Bucket<K, V>[0];
      capacity := 0;
      length := 0;
    }

    method FreePairs()
      requires Valid()
      modifies this`blocks
      ensures blocks == if capacity > 0 then 1 else 0
    {
      hide Good, IsPow2, CountUsed;
      ghost var t, held := buckets[..], blocks;
      assert t[..0] == [];
      CountUsedNone(t[..0]);
      for i := 0 to capacity
        invariant blocks + 2 * CountUsed(t[..i]) == held
      {
        PrefixCount(t, i);
        PrefixCount(t, i + 1);
        if buckets[i].used && !buckets[i].deleted {
          blocks := blocks - 2;
        }
      }
      assert t[..capacity] == t;
    }
  }

  /** The map's length is the number of its pairs. */
  lemma {:induction false} CountIsSize<K, C, V>(f: Hashing<K, C>, t: seq<Bucket<K, V>>)
    requires Tagged(f, t) && NoKeyTwice(f, t) && forall i :: 0 <= i < |t| ==> !t[i].deleted
    ensures |Stored(f, t)| == CountUsed(t)
  {
    if t != [] {
      var n := |t| - 1;
      assert t[..n + 1] == t;
      PrefixTagged(f, t, n);
      PrefixStep(f, t, n);
      CountIsSize(f, t[..n]);
    }
  }
}
