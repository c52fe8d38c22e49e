/** `cu_SkipList`: a sorted map over nodes with several forward links. */
module SkipLists {
  import opened Options

  /** The comparison function. Keys have a fixed size, so any total order on them
      comes from a rank; only the sign of a comparison matters. */
  datatype Order<!K> = Order(rank: K -> int)
  {
    function Cmp(a: K, b: K): int {
      if rank(a) < rank(b) then -1 else if rank(a) > rank(b) then 1 else 0
    }
  }

  class Node<K, V> {
    const key: Option<K>
    const level: nat
    const forward: array<Node?<K, V>>
    var value: Option<V>

    constructor (level: nat, key: Option<K>, value: Option<V>)
      ensures this.level == level && this.key == key && this.value == value
      ensures forward.Length == level && fresh(forward)
      ensures forall l :: 0 <= l < level ==> forward[l] == null
    {
      this.level := level;
      this.key := key;
      this.value := value;
      forward := new Node?<K, V>[level](_ => null);
    }
  }

  type Chain<K, V> = seq<Node<K, V>>

  /** The first node after `p` that reaches above level `l`, or the chain's length. */
  ghost function Next<K, V>(c: Chain<K, V>, p: nat, l: nat): (q: nat)
    requires p < |c|
    ensures p < q <= |c|
    ensures q < |c| ==> c[q].level > l
    ensures forall r :: p < r < q ==> c[r].level <= l
    decreases |c| - p
  {
    if p + 1 == |c| || c[p + 1].level > l then p + 1 else Next(c, p + 1, l)
  }

  lemma NextIs<K, V>(c: Chain<K, V>, p: nat, l: nat, q: nat)
    requires p < q <= |c|
    requires q < |c| ==> c[q].level > l
    requires forall r :: p < r < q ==> c[r].level <= l
    ensures Next(c, p, l) == q
  {
  }

  ghost function NodeAt<K, V>(c: Chain<K, V>, q: nat): Node?<K, V> {
    if q < |c| then c[q] else null
  }

  /** Chain `l` is the subsequence of nodes reaching above `l`, in order. */
  ghost predicate Linked<K, V>(c: Chain<K, V>)
    requires forall p :: 0 <= p < |c| ==> c[p].forward.Length == c[p].level
    reads set n | n in c :: n.forward
  {
    forall p, l :: 0 <= p < |c| && 0 <= l < c[p].level ==> c[p].forward[l] == NodeAt(c, Next(c, p, l))
  }

  /** The static shape: a head and then nodes in strictly increasing key order. */
  ghost predicate Shaped<K, V>(o: Order<K>, c: Chain<K, V>) {
    && |c| >= 1
    && (forall p :: 0 <= p < |c| ==> c[p].forward.Length == c[p].level >= 1)
    && (forall p, q :: 0 <= p < q < |c| ==> c[p] != c[q] && c[p].forward != c[q].forward)
    && (forall p :: 1 <= p < |c| ==> c[p].key.Some?)
    && Ascending(o, c)
  }

  ghost predicate Ascending<K, V>(o: Order<K>, c: Chain<K, V>)
    requires forall p :: 1 <= p < |c| ==> c[p].key.Some?
  {
    forall p, q :: 1 <= p < q < |c| ==> o.rank(c[p].key.value) < o.rank(c[q].key.value)
  }

  /** `b` is the last position whose key is below rank `r`. */
  ghost predicate LastBelow<K, V>(o: Order<K>, c: Chain<K, V>, r: int, b: nat)
    requires forall p :: 1 <= p < |c| ==> c[p].key.Some?
  {
    && b < |c|
    && (b > 0 ==> o.rank(c[b].key.value) < r)
    && (forall q :: b < q < |c| ==> r <= o.rank(c[q].key.value))
  }

  lemma {:induction false} LastBelowExists<K, V>(o: Order<K>, c: Chain<K, V>, r: int, n: nat) returns (b: nat)
    requires 1 <= n <= |c| && (forall p :: 1 <= p < |c| ==> c[p].key.Some?) && Ascending(o, c)
    requires forall q :: n <= q < |c| ==> r <= o.rank(c[q].key.value)
    ensures LastBelow(o, c, r, b)
  {
    b := n - 1;
    if b > 0 && r <= o.rank(c[b].key.value) {
      b := LastBelowExists(o, c, r, n - 1);
    }
  }

  /** The predecessor of position `b + 1` on level `l`. */
  ghost predicate Before<K, V>(c: Chain<K, V>, b: nat, l: nat, u: nat) {
    u <= b < |c| && c[u].level > l && Next(c, u, l) > b
  }

  ghost function Inserted<K, V>(c: Chain<K, V>, b: nat, n: Node<K, V>): Chain<K, V>
    requires b < |c|
  {
    c[..b + 1] + [n] + c[b + 1..]
  }

  /** How inserting a node after `b` moves positions. */
  function Shift(b: nat, q: nat): nat { if q <= b then q else q + 1 }

  lemma NextAfterInsert<K, V>(c: Chain<K, V>, b: nat, n: Node<K, V>, p: nat, l: nat)
    requires p < |c| && b < |c| && l < c[p].level
    ensures Next(Inserted(c, b, n), Shift(b, p), l) ==
      if l < n.level && Before(c, b, l, p) then b + 1 else Shift(b, Next(c, p, l))
  {
    var d, q := Inserted(c, b, n), Next(c, p, l);
    if l < n.level && Before(c, b, l, p) {
      forall r | p < r < b + 1 ensures d[r].level <= l { assert d[r] == c[r]; }
      assert d[b + 1] == n;
      NextIs(d, p, l, b + 1);
    } else {
      forall r | Shift(b, p) < r < Shift(b, q) ensures d[r].level <= l {
        assert d[r] == if r <= b then c[r] else if r == b + 1 then n else c[r - 1];
      }
      assert q < |c| ==> d[Shift(b, q)] == c[q];
      NextIs(d, Shift(b, p), l, Shift(b, q));
    }
  }

  lemma NextOfInserted<K, V>(c: Chain<K, V>, b: nat, n: Node<K, V>, u: nat, l: nat)
    requires Before(c, b, l, u) && l < n.level
    ensures Next(Inserted(c, b, n), b + 1, l) == Next(c, u, l) + 1
  {
    var d, q := Inserted(c, b, n), Next(c, u, l);
    assert forall i :: b + 1 < i < |d| ==> d[i] == c[i - 1];
    NextIs(d, b + 1, l, q + 1);
  }

  ghost function Removed<K, V>(c: Chain<K, V>, m: nat): Chain<K, V>
    requires m < |c|
  {
    c[..m] + c[m + 1..]
  }

  lemma NextAfterRemove<K, V>(c: Chain<K, V>, m: nat, p: nat, l: nat)
    requires p < |c| && 0 < m < |c| && p != m && l < c[p].level
    ensures var q := if Next(c, p, l) == m then Next(c, m, l) else Next(c, p, l);
      Next(Removed(c, m), if p < m then p else p - 1, l) == if q < m then q else q - 1
  {
    var d := Removed(c, m);
    var q := if Next(c, p, l) == m then Next(c, m, l) else Next(c, p, l);
    assert forall i :: 0 <= i < |d| ==> d[i] == c[if i < m then i else i + 1];
    NextIs(d, if p < m then p else p - 1, l, if q < m then q else q - 1);
  }

  // ---------------------------------------------------------------------------
  // The abstract contents: pairs in chain order, and the finite map they form.

  ghost predicate Carries<K, V>(c: Chain<K, V>, s: seq<(K, V)>)
    reads c
  {
    && |c| == |s| + 1
    && forall i :: 0 <= i < |s| ==> c[i + 1].key == Some(s[i].0) && c[i + 1].value == Some(s[i].1)
  }

  /** From rank to the pair stored there. */
  function MapOf<K, V>(o: Order<K>, s: seq<(K, V)>): map<int, (K, V)> {
    if s == [] then map[]
    else MapOf(o, s[..|s| - 1])[o.rank(s[|s| - 1].0) := s[|s| - 1]]
  }

  lemma {:induction false} MapOfKeys<K, V>(o: Order<K>, s: seq<(K, V)>, r: int)
    ensures r in MapOf(o, s) <==> exists i :: 0 <= i < |s| && o.rank(s[i].0) == r
    ensures r in MapOf(o, s) ==> MapOf(o, s)[r] in s && o.rank(MapOf(o, s)[r].0) == r
  {
    if s != [] { MapOfKeys(o, s[..|s| - 1], r); }
  }

  lemma {:induction false} MapOfConcat<K, V>(o: Order<K>, s: seq<(K, V)>, t: seq<(K, V)>)
    ensures MapOf(o, s + t) == MapOf(o, s) + MapOf(o, t)
  {
    if t == [] {
      assert s + t == s;
    } else {
      var n := |t| - 1;
      MapOfConcat(o, s, t[..n]);
      assert (s + t)[..|s| + n] == s + t[..n];
    }
  }

  /** A pair with a rank of its own adds one entry wherever it stands. */
  lemma MapOfMiddle<K, V>(o: Order<K>, s: seq<(K, V)>, x: (K, V), t: seq<(K, V)>)
    requires forall i :: 0 <= i < |t| ==> o.rank(t[i].0) != o.rank(x.0)
    ensures MapOf(o, s + [x] + t) == (MapOf(o, s) + MapOf(o, t))[o.rank(x.0) := x]
  {
    MapOfConcat(o, s + [x], t);
    MapOfConcat(o, s, [x]);
    MapOfKeys(o, t, o.rank(x.0));
    assert [x][..0] == [];
  }

  ghost predicate Sorted<K, V>(o: Order<K>, s: seq<(K, V)>) {
    forall i, j :: 0 <= i < j < |s| ==> o.rank(s[i].0) < o.rank(s[j].0)
  }

  /** Position `b` splits a sorted sequence at rank `r`. */
  ghost predicate SplitAt<K, V>(o: Order<K>, s: seq<(K, V)>, r: int, b: nat) {
    && b <= |s|
    && (forall i :: 0 <= i < b ==> o.rank(s[i].0) < r)
    && (forall i :: b <= i < |s| ==> r <= o.rank(s[i].0))
  }

  /** Lookup in a sorted sequence is a look at the split. */
  lemma SortedLookup<K, V>(o: Order<K>, s: seq<(K, V)>, r: int, b: nat)
    requires Sorted(o, s) && SplitAt(o, s, r, b)
    ensures r in MapOf(o, s) <==> b < |s| && o.rank(s[b].0) == r
    ensures r in MapOf(o, s) ==> MapOf(o, s)[r] == s[b]
  {
    MapOfKeys(o, s, r);
  }

  lemma SortedInsert<K, V>(o: Order<K>, s: seq<(K, V)>, x: (K, V), b: nat)
    requires Sorted(o, s) && SplitAt(o, s, o.rank(x.0), b)
    requires b < |s| ==> o.rank(s[b].0) != o.rank(x.0)
    ensures MapOf(o, s[..b] + [x] + s[b..]) == MapOf(o, s)[o.rank(x.0) := x]
  {
    hide MapOf;
    MapOfMiddle(o, s[..b], x, s[b..]);
    MapOfConcat(o, s[..b], s[b..]);
    assert s[..b] + s[b..] == s;
  }

  lemma SortedReplace<K, V>(o: Order<K>, s: seq<(K, V)>, x: (K, V), b: nat)
    requires Sorted(o, s) && b < |s| && o.rank(s[b].0) == o.rank(x.0)
    ensures MapOf(o, s[b := x]) == MapOf(o, s)[o.rank(x.0) := x]
  {
    hide MapOf;
    MapOfMiddle(o, s[..b], x, s[b + 1..]);
    MapOfMiddle(o, s[..b], s[b], s[b + 1..]);
    assert s[b := x] == s[..b] + [x] + s[b + 1..];
    assert s == s[..b] + [s[b]] + s[b + 1..];
  }

  lemma SortedRemove<K, V>(o: Order<K>, s: seq<(K, V)>, b: nat)
    requires Sorted(o, s) && b < |s|
    ensures MapOf(o, s[..b] + s[b + 1..]) == MapOf(o, s) - {o.rank(s[b].0)}
  {
    hide MapOf;
    MapOfMiddle(o, s[..b], s[b], s[b + 1..]);
    MapOfConcat(o, s[..b], s[b + 1..]);
    MapOfKeys(o, s[..b], o.rank(s[b].0));
    MapOfKeys(o, s[b + 1..], o.rank(s[b].0));
    assert s == s[..b] + [s[b]] + s[b + 1..];
  }

  lemma PairsSplit<K, V>(o: Order<K>, c: Chain<K, V>, s: seq<(K, V)>, r: int, b: nat)
    requires Carries(c, s) && (forall p :: 1 <= p < |c| ==> c[p].key.Some?)
    requires Ascending(o, c) && LastBelow(o, c, r, b)
    ensures Sorted(o, s) && SplitAt(o, s, r, b)
  {
    assert forall i :: 0 <= i < |s| ==> s[i].0 == c[i + 1].key.value;
  }

  ghost function Footprint<K, V>(c: Chain<K, V>): set<object> {
    (set n: Node<K, V> | n in c :: n as object) + (set n: Node<K, V> | n in c :: n.forward as object)
  }

  lemma InsertedMembers<K, V>(c: Chain<K, V>, b: nat, n: Node<K, V>)
    requires b < |c|
    ensures Inserted(c, b, n)[0] == c[0]
    ensures forall m :: m in Inserted(c, b, n) ==> m in c || m == n
  {
  }

  lemma FootprintInserted<K, V>(c: Chain<K, V>, b: nat, n: Node<K, V>)
    requires b < |c|
    ensures Footprint(Inserted(c, b, n)) == Footprint(c) + {n, n.forward}
  {
    var d := Inserted(c, b, n);
    assert d[b + 1] == n;
    forall m ensures m in d <==> m in c || m == n {
      assert c == c[..b + 1] + c[b + 1..];
    }
    forall x: object ensures x in Footprint(d) ==> x in Footprint(c) + {n, n.forward} {
      if x in Footprint(d) {
        var m: Node<K, V> :| m in d && (x == m || x == m.forward);
      }
    }
    forall x: object ensures x in Footprint(c) + {n, n.forward} ==> x in Footprint(d) {
      if x in Footprint(c) {
        var m: Node<K, V> :| m in c && (x == m || x == m.forward);
        assert m in d;
      }
    }
  }

  lemma FootprintRemoved<K, V>(c: Chain<K, V>, m: nat)
    requires m < |c|
    ensures Footprint(Removed(c, m)) <= Footprint(c)
  {
    assert forall n :: n in Removed(c, m) ==> n in c;
  }

  /** The nodes whose links change when something happens after position `b`. */
  ghost predicate Updates<K, V>(c: Chain<K, V>, b: nat, update: seq<Node<K, V>>, us: seq<nat>) {
    |update| == |us| && forall l: nat :: l < |us| ==> Before(c, b, l, us[l]) && update[l] == c[us[l]]
  }

  lemma NextOnBottom<K, V>(o: Order<K>, c: Chain<K, V>, b: nat, p: nat)
    requires Shaped(o, c) && Before(c, b, 0, p)
    ensures p == b && Next(c, p, 0) == b + 1
  {
    NextIs(c, p, 0, p + 1);
  }

  /** Above the levels in use the head is everyone's predecessor. */
  lemma HeadIsBefore<K, V>(c: Chain<K, V>, b: nat, level: nat)
    requires b < |c| && forall n :: n in c ==> n == c[0] || n.level <= level
    requires forall p :: 1 <= p < |c| ==> c[p] != c[0]
    ensures forall l: nat :: level <= l < c[0].level ==> Before(c, b, l, 0)
  {
    forall l: nat | level <= l < c[0].level ensures Before(c, b, l, 0) {
      NextIs(c, 0, l, |c|);
    }
  }

  lemma BeforeUnique<K, V>(c: Chain<K, V>, b: nat, l: nat, u: nat, v: nat)
    requires Before(c, b, l, u) && Before(c, b, l, v)
    ensures u == v
  {
  }

  lemma InsertedAt<K, V>(c: Chain<K, V>, b: nat, n: Node<K, V>, i: nat)
    requires b < |c| && i <= |c|
    ensures Inserted(c, b, n)[i] == if i <= b then c[i] else if i == b + 1 then n else c[i - 1]
  {
  }

  lemma NodeAtInserted<K, V>(c: Chain<K, V>, b: nat, n: Node<K, V>, t: nat)
    requires b < |c| && t <= |c|
    ensures NodeAt(Inserted(c, b, n), Shift(b, t)) == NodeAt(c, t)
  {
  }

  lemma InsertedIsShaped<K, V>(o: Order<K>, c: Chain<K, V>, b: nat, n: Node<K, V>)
    requires Shaped(o, c) && n.key.Some? && n.forward.Length == n.level >= 1
    requires LastBelow(o, c, o.rank(n.key.value), b)
    requires b + 1 < |c| ==> o.rank(c[b + 1].key.value) != o.rank(n.key.value)
    requires forall p :: 0 <= p < |c| ==> c[p] != n && c[p].forward != n.forward
    ensures Shaped(o, Inserted(c, b, n))
  {
    var d := Inserted(c, b, n);
    forall p | 0 <= p < |d| ensures d[p].forward.Length == d[p].level >= 1 && (p > 0 ==> d[p].key.Some?) {
      InsertedAt(c, b, n, p);
    }
    forall p, q | 0 <= p < q < |d| ensures d[p] != d[q] && d[p].forward != d[q].forward {
      InsertedAt(c, b, n, p);
      InsertedAt(c, b, n, q);
    }
    forall p, q | 1 <= p < q < |d| ensures o.rank(d[p].key.value) < o.rank(d[q].key.value) {
      InsertedAt(c, b, n, p);
      InsertedAt(c, b, n, q);
    }
  }

  /** The links a splice leaves are those of the longer chain. */
  lemma InsertedIsLinked<K, V>(c: Chain<K, V>, b: nat, n: Node<K, V>, us: seq<nat>)
    requires forall p :: 0 <= p < |c| ==> c[p].forward.Length == c[p].level
    requires n.forward.Length == n.level == |us| && b < |c|
    requires forall l: nat :: l < |us| ==> Before(c, b, l, us[l])
    requires forall l: nat :: l < |us| ==> us[l] < |c| && n.forward[l] == NodeAt(c, Next(c, us[l], l))
    requires forall p, l :: 0 <= p < |c| && 0 <= l < c[p].level ==>
      c[p].forward[l] == if l < n.level && p == us[l] then n else NodeAt(c, Next(c, p, l))
    ensures forall p :: 0 <= p < |Inserted(c, b, n)| ==>
      Inserted(c, b, n)[p].forward.Length == Inserted(c, b, n)[p].level
    ensures Linked(Inserted(c, b, n))
  {
    hide Next, NodeAt, Before;
    var d := Inserted(c, b, n);
    forall p | 0 <= p < |d| ensures d[p].forward.Length == d[p].level { InsertedAt(c, b, n, p); }
    forall p, l | 0 <= p < |d| && 0 <= l < d[p].level
      ensures d[p].forward[l] == NodeAt(d, Next(d, p, l))
    {
      InsertedAt(c, b, n, p);
      if p == b + 1 {
        NewNodeIsLinked(c, b, n, us[l], l);
      } else {
        OldNodeIsLinked(c, b, n, us, if p <= b then p else p - 1, l);
      }
    }
  }

  lemma NewNodeIsLinked<K, V>(c: Chain<K, V>, b: nat, n: Node<K, V>, u: nat, l: nat)
    requires b < |c| && Before(c, b, l, u) && l < n.level == n.forward.Length
    requires n.forward[l] == NodeAt(c, Next(c, u, l))
    ensures n.forward[l] == NodeAt(Inserted(c, b, n), Next(Inserted(c, b, n), b + 1, l))
  {
    NextOfInserted(c, b, n, u, l);
    NodeAtInserted(c, b, n, Next(c, u, l));
  }

  lemma OldNodeIsLinked<K, V>(c: Chain<K, V>, b: nat, n: Node<K, V>, us: seq<nat>, q: nat, l: nat)
    requires q < |c| && l < c[q].level == c[q].forward.Length && n.level == |us| && b < |c|
    requires forall l: nat :: l < |us| ==> Before(c, b, l, us[l])
    requires c[q].forward[l] == if l < n.level && q == us[l] then n else NodeAt(c, Next(c, q, l))
    ensures c[q].forward[l] == NodeAt(Inserted(c, b, n), Next(Inserted(c, b, n), Shift(b, q), l))
  {
    NextAfterInsert(c, b, n, q, l);
    NodeAtInserted(c, b, n, Next(c, q, l));
    InsertedAt(c, b, n, b + 1);
    if l < n.level && Before(c, b, l, q) { BeforeUnique(c, b, l, q, us[l]); }
  }

  lemma RemovedAt<K, V>(c: Chain<K, V>, m: nat, i: nat)
    requires m < |c| && i < |c| - 1
    ensures Removed(c, m)[i] == if i < m then c[i] else c[i + 1]
  {
  }

  /** The links left after unsplicing position `m` are those of the shorter chain. */
  lemma RemovedIsLinked<K, V>(c: Chain<K, V>, m: nat, us: seq<nat>)
    requires forall p :: 0 <= p < |c| ==> c[p].forward.Length == c[p].level
    requires 0 < m < |c| && c[m].level <= |us|
    requires forall l: nat :: l < |us| ==> Before(c, m - 1, l, us[l])
    requires forall p, l :: 0 <= p < |c| && 0 <= l < c[p].level ==>
      c[p].forward[l] == NodeAt(c, if l < c[m].level && p == us[l] then Next(c, m, l) else Next(c, p, l))
    ensures forall p :: 0 <= p < |Removed(c, m)| ==> Removed(c, m)[p].forward.Length == Removed(c, m)[p].level
    ensures Linked(Removed(c, m))
  {
    hide Before;
    var d := Removed(c, m);
    forall p | 0 <= p < |d| ensures d[p].forward.Length == d[p].level { RemovedAt(c, m, p); }
    forall p, l | 0 <= p < |d| && 0 <= l < d[p].level
      ensures d[p].forward[l] == NodeAt(d, Next(d, p, l))
    {
      RemovedAt(c, m, p);
      KeptNodeIsLinked(c, m, us, if p < m then p else p + 1, l);
    }
  }

  lemma KeptNodeIsLinked<K, V>(c: Chain<K, V>, m: nat, us: seq<nat>, q: nat, l: nat)
    requires 0 < m < |c| && c[m].level <= |us| && q < |c| && q != m && l < c[q].level == c[q].forward.Length
    requires l < |us| ==> Before(c, m - 1, l, us[l])
    requires c[q].forward[l] == NodeAt(c, if l < c[m].level && q == us[l] then Next(c, m, l) else Next(c, q, l))
    ensures c[q].forward[l] == NodeAt(Removed(c, m), Next(Removed(c, m), if q < m then q else q - 1, l))
  {
    NextAfterRemove(c, m, q, l);
    var t := if Next(c, q, l) == m then Next(c, m, l) else Next(c, q, l);
    assert l < c[m].level && q == us[l] <==> Next(c, q, l) == m by {
      if Next(c, q, l) == m { BeforeUnique(c, m - 1, l, q, us[l]); }
      if l < c[m].level && q == us[l] { NextIs(c, q, l, m); }
    }
    NodeAtRemoved(c, m, t);
  }

  lemma NodeAtRemoved<K, V>(c: Chain<K, V>, m: nat, t: nat)
    requires m < |c| && t != m && t <= |c|
    ensures NodeAt(Removed(c, m), if t < m then t else t - 1) == NodeAt(c, t)
  {
  }

  lemma RemovedIsShaped<K, V>(o: Order<K>, c: Chain<K, V>, m: nat)
    requires Shaped(o, c) && 0 < m < |c|
    ensures Shaped(o, Removed(c, m))
  {
    var d := Removed(c, m);
    forall p | 0 <= p < |d| ensures d[p].forward.Length == d[p].level >= 1 && (p > 0 ==> d[p].key.Some?) {
      RemovedAt(c, m, p);
    }
    forall p, q | 0 <= p < q < |d| ensures d[p] != d[q] && d[p].forward != d[q].forward {
      RemovedAt(c, m, p);
      RemovedAt(c, m, q);
    }
    forall p, q | 1 <= p < q < |d| ensures o.rank(d[p].key.value) < o.rank(d[q].key.value) {
      RemovedAt(c, m, p);
      RemovedAt(c, m, q);
    }
  }

  ghost function InsertPair<K, V>(s: seq<(K, V)>, b: nat, x: (K, V)): seq<(K, V)>
    requires b <= |s|
  {
    s[..b] + [x] + s[b..]
  }

  lemma PairsInserted<K, V>(c: Chain<K, V>, s: seq<(K, V)>, b: nat, n: Node<K, V>, x: (K, V))
    requires b < |c| && n.key == Some(x.0) && n.value == Some(x.1) && Carries(c, s)
    ensures Carries(Inserted(c, b, n), InsertPair(s, b, x))
  {
    var d, t := Inserted(c, b, n), InsertPair(s, b, x);
    forall i | 0 <= i < |t| ensures d[i + 1].key == Some(t[i].0) && d[i + 1].value == Some(t[i].1) {
      InsertedAt(c, b, n, i + 1);
    }
  }

  lemma PairsRemoved<K, V>(c: Chain<K, V>, s: seq<(K, V)>, m: nat)
    requires 0 < m < |c| && Carries(c, s)
    ensures Carries(Removed(c, m), s[..m - 1] + s[m..])
  {
    var d, t := Removed(c, m), s[..m - 1] + s[m..];
    forall i | 0 <= i < |t| ensures d[i + 1].key == Some(t[i].0) && d[i + 1].value == Some(t[i].1) {
      RemovedAt(c, m, i + 1);
    }
  }

  lemma RemovedMembers<K, V>(c: Chain<K, V>, m: nat)
    requires 0 < m < |c|
    ensures Removed(c, m)[0] == c[0]
    ensures forall n :: n in Removed(c, m) ==> n in c
  {
  }

  /** A predecessor points to the node right after `b` on exactly that node's levels. */
  lemma UpdateReaches<K, V>(c: Chain<K, V>, b: nat, u: nat, l: nat)
    requires b + 1 < |c| && Before(c, b, l, u)
    requires forall p, q :: 0 <= p < q < |c| ==> c[p] != c[q]
    ensures c[u] != c[b + 1]
    ensures NodeAt(c, Next(c, u, l)) == c[b + 1] <==> l < c[b + 1].level
  {
    if l < c[b + 1].level { NextIs(c, u, l, b + 1); }
  }

  /** A level on which the head points nowhere is used by no node. */
  lemma LevelUnused<K, V>(o: Order<K>, c: Chain<K, V>, l: nat)
    requires Shaped(o, c) && Linked(c) && l < c[0].level && c[0].forward[l] == null
    ensures forall n :: n in c && n != c[0] ==> n.level <= l
  {
    assert c[0].forward[l] == NodeAt(c, Next(c, 0, l));
  }

  ghost predicate Fits<K, V>(o: Order<K>, c: Chain<K, V>, s: seq<(K, V)>, h: Node<K, V>, level: nat, maxLevel: nat)
    reads c, set n | n in c :: n.forward
  {
    && Shaped(o, c)
    && c[0] == h && h.level == maxLevel
    && 1 <= level <= maxLevel
    && Carries(c, s)
    && (forall n :: n in c ==> n == h || n.level <= level)
    && Linked(c)
  }

  /** Levels above those in use can be opened; there the head is the predecessor. */
  lemma LevelsOf<K, V>(o: Order<K>, c: Chain<K, V>, s: seq<(K, V)>, h: Node<K, V>, level: nat, maxLevel: nat, lvl: nat,
      update: seq<Node<K, V>>, us: seq<nat>, b: nat)
    requires Fits(o, c, s, h, level, maxLevel) && lvl <= maxLevel && b < |c|
    requires Updates(c, b, update, us) && |us| == level
    ensures |update| == level && 1 <= level
    ensures lvl > level ==> Fits(o, c, s, h, lvl, maxLevel)
    ensures lvl > level ==> Updates(c, b, update + seq(lvl - level, _ => h), us + seq(lvl - level, _ => 0))
  {
    hide Next, Linked, Carries;
    HeadIsBefore(c, b, level);
    hide Before;
  }

  lemma LevelsInRange<K, V>(o: Order<K>, c: Chain<K, V>, s: seq<(K, V)>, h: Node<K, V>, level: nat, maxLevel: nat)
    requires Fits(o, c, s, h, level, maxLevel)
    ensures 1 <= level <= maxLevel
  {
  }

  lemma LinkAt<K, V>(c: Chain<K, V>, p: nat, l: nat)
    requires forall q :: 0 <= q < |c| ==> c[q].forward.Length == c[q].level
    requires Linked(c) && p < |c| && l < c[p].level
    ensures c[p].forward[l] == NodeAt(c, Next(c, p, l))
  {
  }

  lemma InFootprint<K, V>(c: Chain<K, V>, p: nat)
    requires p < |c|
    ensures c[p] in Footprint(c) && c[p].forward in Footprint(c)
  {
    var n := c[p];
    assert n in c && n as object in Footprint(c) && n.forward as object in Footprint(c);
  }

  lemma PathPrefix<K, V>(c: Chain<K, V>, b: nat, path: seq<Node<K, V>>, ps: seq<nat>, n: nat)
    requires Updates(c, b, path, ps) && n <= |ps|
    ensures n <= |path| && Updates(c, b, path[..n], ps[..n])
  {
    hide Before;
  }

  datatype Error = Oom | Invalid

  class SkipList<K, V> {
    const order: Order<K>
    const maxLevel: nat
    // The random source: its n-th draw, and how many draws were made.
    const source: nat -> nat
    var drawn: nat
    var head: Node<K, V>
    var level: nat
    // Blocks obtained from the allocator and not given back.
    ghost var blocks: nat
    ghost var chain: Chain<K, V>
    ghost var pairs: seq<(K, V)>

    ghost predicate Structured()
      reads this, chain, set n | n in chain :: n.forward
    {
      Fits(order, chain, pairs, head, level, maxLevel)
    }

    ghost predicate Valid()
      reads this, chain, set n | n in chain :: n.forward
    {
      Structured() && blocks == 1 + 3 * (|chain| - 1)
    }

    ghost function Contents(): map<int, (K, V)>
      reads this
    {
      MapOf(order, pairs)
    }

    constructor (order: Order<K>, maxLevel: nat, source: nat -> nat)
      requires maxLevel > 0
      ensures Valid() && Contents() == map[] && fresh(Footprint(chain))
      ensures this.order == order && this.maxLevel == maxLevel && level == 1
    {
      this.order := order;
      this.maxLevel := maxLevel;
      this.source := source;
      drawn := 0;
      level := 1;
      var h := new Node<K, V>(maxLevel, None, None);
      head := h;
      chain, pairs := [h], [];
      blocks := 1;
    }

    /** `cu_SkipList_create`: no list without levels, and none when its head is
        refused. */
    static method Create(order: Order<K>, maxLevel: nat, source: nat -> nat, granted: bool)
      returns (r: SkipList?<K, V>, err: Option<Error>)
      ensures err == if maxLevel == 0 then Some(Invalid) else if !granted then Some(Oom) else None
      ensures r == null <==> err.Some?
      ensures r != null ==>
        && fresh(r) && fresh(Footprint(r.chain)) && r.Valid() && r.Contents() == map[]
        && r.order == order && r.maxLevel == maxLevel && r.level == 1
    {
      if maxLevel == 0 {
        return null, Some(Invalid);
      }
      if !granted {
        return null, Some(Oom);
      }
      r := new SkipList(order, maxLevel, source);
      err := None;
    }

    /** Walks along level `i` to the last node whose key is below `key`. */
    method Advance(x: Node<K, V>, i: nat, key: K, ghost p: nat, ghost b: nat)
      returns (y: Node<K, V>, ghost u: nat)
      requires Valid() && LastBelow(order, chain, order.rank(key), b)
      requires p <= b && x == chain[p] && i < x.level
      ensures u < |chain| && y == chain[u] && Before(chain, b, i, u)
    {
      y, u := x, p;
      while y.forward[i] != null && order.Cmp(y.forward[i].key.value, key) < 0
        invariant u <= b && y == chain[u] && i < y.level
        decreases b - u
      {
        u := Next(chain, u, i);
        y := y.forward[i];
      }
      assert y.forward[i] == NodeAt(chain, Next(chain, u, i));
    }

    /** The search shared by insertion and removal: the node before `key`'s place
        on every level in use, and the first node not below `key`. */
    method Search(key: K, ghost b: nat) returns (update: seq<Node<K, V>>, x: Node?<K, V>, ghost us: seq<nat>)
      requires Valid() && LastBelow(order, chain, order.rank(key), b)
      ensures x == NodeAt(chain, b + 1)
      ensures Updates(chain, b, update, us) && |us| == level
    {
      hide Linked, Carries, MapOf, Next;
      var y := head;
      ghost var p: nat := 0;
      update, us := seq(level, _ => y), seq(level, _ => 0);
      var i := level;
      while i > 0
        invariant 0 <= i <= level && |us| == |update| == level
        invariant p <= b && y == chain[p] && i <= y.level
        invariant i == 0 ==> Before(chain, b, 0, p)
        invariant forall l: nat :: i <= l < level ==> Before(chain, b, l, us[l]) && update[l] == chain[us[l]]
      {
        i := i - 1;
        y, p := Advance(y, i, key, p, b);
        update, us := update[i := y], us[i := p];
      }
      x := y.forward[0];
      LinkAt(chain, p, 0);
      NextOnBottom(order, chain, b, p);
    }

    method Find(key: K) returns (r: Option<V>)
      requires Valid()
      ensures order.rank(key) in Contents() ==> r == Some(Contents()[order.rank(key)].1)
      ensures order.rank(key) !in Contents() ==> r == None
    {
      ghost var b := LastBelowExists(order, chain, order.rank(key), |chain|);
      var x: Node?<K, V> := head;
      ghost var p: nat := 0;
      var i := level;
      while i > 0
        invariant 0 <= i <= level && p <= b && x == chain[p] && i <= x.level
        invariant i == 0 ==> Before(chain, b, 0, p)
      {
        i := i - 1;
        x, p := Advance(x, i, key, p, b);
      }
      NextOnBottom(order, chain, b, p);
      PairsSplit(order, chain, pairs, order.rank(key), b);
      SortedLookup(order, pairs, order.rank(key), b);
      x := x.forward[0];
      if x != null && order.Cmp(x.key.value, key) == 0 {
        return x.value;
      }
      r := None;
    }

    predicate Heads(n: nat) { source(n) % 0x1_0000 < 0x8000 }

    /** Coin tosses up to the first failure, at most `maxLevel` levels. */
    method RandomLevel() returns (lvl: nat)
      requires maxLevel >= 1
      modifies this`drawn
      ensures 1 <= lvl <= maxLevel
      ensures forall n: nat :: old(drawn) <= n < old(drawn) + lvl - 1 ==> Heads(n)
      ensures lvl < maxLevel ==> !Heads(old(drawn) + lvl - 1)
    {
      lvl := 1;
      var toss := source(drawn);
      drawn := drawn + 1;
      while toss % 0x1_0000 < 0x8000 && lvl < maxLevel
        invariant 1 <= lvl <= maxLevel && drawn == old(drawn) + lvl && toss == source(drawn - 1)
        invariant forall n: nat :: old(drawn) <= n < old(drawn) + lvl - 1 ==> Heads(n)
        decreases maxLevel - lvl
      {
        lvl := lvl + 1;
        toss := source(drawn);
        drawn := drawn + 1;
      }
    }

    /** The node, its key and its value come from three requests; a refusal gives
        back what was already granted. */
    method AllocNode(lvl: nat, key: K, value: V, nodeGranted: bool, keyGranted: bool, valueGranted: bool)
      returns (n: Node?<K, V>)
      modifies this`blocks
      ensures n == null <==> !(nodeGranted && keyGranted && valueGranted)
      ensures n == null ==> blocks == old(blocks)
      ensures n != null ==> fresh(n) && fresh(n.forward) && blocks == old(blocks) + 3
      ensures n != null ==> n.level == lvl == n.forward.Length && n.key == Some(key) && n.value == Some(value)
    {
      if !nodeGranted {
        return null;
      }
      blocks := blocks + 1;
      if !keyGranted {
        blocks := blocks - 1;
        return null;
      }
      blocks := blocks + 1;
      if !valueGranted {
        blocks := blocks - 1;
        blocks := blocks - 1;
        return null;
      }
      blocks := blocks + 1;
      n := new Node(lvl, Some(key), Some(value));
    }

    /** Splices a new node into every level it reaches. */
    static method Splice(n: Node<K, V>, update: seq<Node<K, V>>, ghost c: Chain<K, V>, ghost us: seq<nat>)
      requires forall p :: 0 <= p < |c| ==> c[p].forward.Length == c[p].level && c[p].forward != n.forward
      requires forall p, q :: 0 <= p < q < |c| ==> c[p].forward != c[q].forward
      requires n.forward.Length == n.level == |update| == |us|
      requires forall l :: 0 <= l < n.level ==> us[l] < |c| && update[l] == c[us[l]] && l < update[l].level
      modifies n.forward, set m | m in c :: m.forward
      ensures forall l :: 0 <= l < n.level ==> n.forward[l] == old(c[us[l]].forward[l])
      ensures forall p, l :: 0 <= p < |c| && 0 <= l < c[p].level ==>
        c[p].forward[l] == if l < n.level && p == us[l] then n else old(c[p].forward[l])
    {
      for i := 0 to n.level
        invariant forall l :: 0 <= l < i ==> n.forward[l] == old(c[us[l]].forward[l])
        invariant forall p, l :: 0 <= p < |c| && 0 <= l < c[p].level ==>
          c[p].forward[l] == if l < i && p == us[l] then n else old(c[p].forward[l])
      {
        n.forward[i] := update[i].forward[i];
        update[i].forward[i] := n;
      }
    }

    /** Takes a node out of every level it reaches. */
    static method Unsplice(x: Node<K, V>, update: seq<Node<K, V>>, ghost c: Chain<K, V>, ghost m: nat,
        ghost us: seq<nat>)
      requires m < |c| && x == c[m]
      requires forall p :: 0 <= p < |c| ==> c[p].forward.Length == c[p].level
      requires forall p, q :: 0 <= p < q < |c| ==> c[p] != c[q] && c[p].forward != c[q].forward
      requires x.level <= |update| == |us|
      requires forall l :: 0 <= l < |us| ==> us[l] < |c| && update[l] == c[us[l]] && l < update[l].level
      requires forall l :: 0 <= l < |us| ==> update[l] != x && (update[l].forward[l] == x <==> l < x.level)
      modifies set m | m in c :: m.forward
      ensures forall p, l :: 0 <= p < |c| && 0 <= l < c[p].level ==>
        c[p].forward[l] == old(c[if l < c[m].level && p == us[l] then m else p].forward[l])
    {
      var i := 0;
      while i < |update|
        invariant 0 <= i <= |update| && i <= x.level
        invariant forall p, l :: 0 <= p < |c| && 0 <= l < c[p].level ==>
          c[p].forward[l] == old(c[if l < i && p == us[l] then m else p].forward[l])
      {
        if update[i].forward[i] != x {
          break;
        }
        update[i].forward[i] := x.forward[i];
        i := i + 1;
      }
    }

    method Insert(key: K, value: V, nodeGranted: bool, keyGranted: bool, valueGranted: bool)
      returns (err: Option<Error>)
      requires Valid()
      modifies this, Footprint(chain)
      ensures Valid() && fresh(Footprint(chain) - old(Footprint(chain)))
      ensures err == None <==> order.rank(key) in old(Contents()) || (nodeGranted && keyGranted && valueGranted)
      ensures err.Some? ==> err.value == Oom && Contents() == old(Contents()) && blocks == old(blocks)
      ensures err.None? ==>
        var m, r := old(Contents()), order.rank(key);
        Contents() == m[r := (if r in m then m[r].0 else key, value)]
    {
      hide MapOf, Linked, Updates;
      ghost var b := LastBelowExists(order, chain, order.rank(key), |chain|);
      var update, x, us := Search(key, b);
      PairsSplit(order, chain, pairs, order.rank(key), b);
      SortedLookup(order, pairs, order.rank(key), b);
      if x != null && order.Cmp(x.key.value, key) == 0 {
        SortedReplace(order, pairs, (x.key.value, value), b);
        InFootprint(chain, b + 1);
        Overwrite(x, value, b);
        assert Footprint(chain) - old(Footprint(chain)) == {};
        return None;
      }
      SortedInsert(order, pairs, (key, value), b);
      err := InsertNew(key, value, nodeGranted, keyGranted, valueGranted, update, b, us);
    }

    method Overwrite(x: Node<K, V>, value: V, ghost b: nat)
      requires Structured() && b + 1 < |chain| && x == chain[b + 1]
      modifies x`value, this`pairs
      ensures Structured() && pairs == old(pairs)[b := (old(pairs)[b].0, value)]
    {
      x.value := Some(value);
      pairs := pairs[b := (pairs[b].0, value)];
    }

    method InsertNew(key: K, value: V, nodeGranted: bool, keyGranted: bool, valueGranted: bool,
        update: seq<Node<K, V>>, ghost b: nat, ghost us: seq<nat>) returns (err: Option<Error>)
      requires Valid() && LastBelow(order, chain, order.rank(key), b)
      requires b + 1 < |chain| ==> order.rank(chain[b + 1].key.value) != order.rank(key)
      requires Updates(chain, b, update, us) && |us| == level
      modifies this, Footprint(chain)
      ensures Valid() && fresh(Footprint(chain) - old(Footprint(chain)))
      ensures err == if nodeGranted && keyGranted && valueGranted then None else Some(Oom)
      ensures err.Some? ==> pairs == old(pairs) && blocks == old(blocks)
      ensures err.None? ==> pairs == InsertPair(old(pairs), b, (key, value))
    {
      hide Fits, Updates, MapOf;
      var lvl, path, ps := ChooseLevel(update, b, us);
      var n := AllocNode(lvl, key, value, nodeGranted, keyGranted, valueGranted);
      if n == null {
        return Some(Oom);
      }
      Attach(n, path, b, ps, (key, value));
      err := None;
    }

    /** Draws a level; the levels it opens up start at the head. */
    method ChooseLevel(update: seq<Node<K, V>>, ghost b: nat, ghost us: seq<nat>)
      returns (lvl: nat, path: seq<Node<K, V>>, ghost ps: seq<nat>)
      requires Structured() && b < |chain| && Updates(chain, b, update, us) && |us| == level
      modifies this`drawn, this`level
      ensures Structured() && 1 <= lvl <= level
      ensures Updates(chain, b, path, ps) && |ps| == lvl
    {
      hide Fits, Updates;
      LevelsInRange(order, chain, pairs, head, level, maxLevel);
      lvl := RandomLevel();
      path, ps := update, us;
      LevelsOf(order, chain, pairs, head, level, maxLevel, lvl, update, us, b);
      if lvl > level {
        var h := head;
        path, ps := path + seq(lvl - level, _ => h), ps + seq(lvl - level, _ => 0);
        level := lvl;
      }
      PathPrefix(chain, b, path, ps, lvl);
      path, ps := path[..lvl], ps[..lvl];
    }

    method Attach(n: Node<K, V>, path: seq<Node<K, V>>, ghost b: nat, ghost ps: seq<nat>, ghost x: (K, V))
      requires Structured() && n.key == Some(x.0) && n.value == Some(x.1)
      requires LastBelow(order, chain, order.rank(x.0), b)
      requires b + 1 < |chain| ==> order.rank(chain[b + 1].key.value) != order.rank(x.0)
      requires 1 <= n.level == n.forward.Length == |ps| && n.level <= level
      requires Updates(chain, b, path, ps)
      requires n !in Footprint(chain) && n.forward !in Footprint(chain)
      modifies this`chain, this`pairs, n.forward, set m | m in chain :: m.forward
      ensures Structured() && Footprint(chain) == old(Footprint(chain)) + {n, n.forward} &&
        |chain| == |old(chain)| + 1 > 1
      ensures pairs == InsertPair(old(pairs), b, x)
    {
      SpliceAfter(order, n, path, chain, b, ps, pairs, x, level, maxLevel);
      chain, pairs := Inserted(chain, b, n), InsertPair(pairs, b, x);
    }

    /** The same splice seen as an insertion into the whole chain. */
    static method SpliceAfter(ghost o: Order<K>, n: Node<K, V>, path: seq<Node<K, V>>,
        ghost c: Chain<K, V>, ghost b: nat, ghost ps: seq<nat>,
        ghost s: seq<(K, V)>, ghost x: (K, V), ghost level: nat, ghost maxLevel: nat)
      requires |c| > 0 && Fits(o, c, s, c[0], level, maxLevel)
      requires n.key == Some(x.0) && n.value == Some(x.1) && LastBelow(o, c, o.rank(x.0), b)
      requires b + 1 < |c| ==> o.rank(c[b + 1].key.value) != o.rank(x.0)
      requires 1 <= n.level == n.forward.Length == |ps| && n.level <= level
      requires Updates(c, b, path, ps)
      requires n !in Footprint(c) && n.forward !in Footprint(c)
      modifies n.forward, set m | m in c :: m.forward
      ensures Fits(o, Inserted(c, b, n), InsertPair(s, b, x), c[0], level, maxLevel)
      ensures Footprint(Inserted(c, b, n)) == Footprint(c) + {n, n.forward}
    {
      Splice(n, path, c, ps);
      assert Shaped(o, Inserted(c, b, n)) by { InsertedIsShaped(o, c, b, n); }
      assert Linked(Inserted(c, b, n)) by { InsertedIsLinked(c, b, n, ps); }
      InsertedMembers(c, b, n);
      PairsInserted(c, s, b, n, x);
      FootprintInserted(c, b, n);
    }

    method Remove(key: K) returns (err: Option<Error>)
      requires Valid()
      modifies this, Footprint(chain)
      ensures Valid() && Footprint(chain) <= old(Footprint(chain))
      ensures err == if order.rank(key) in old(Contents()) then None else Some(Invalid)
      ensures err.Some? ==> unchanged(this) && unchanged(old(Footprint(chain)))
      ensures Contents() == old(Contents()) - {order.rank(key)}
    {
      hide MapOf, Linked, Updates;
      ghost var b := LastBelowExists(order, chain, order.rank(key), |chain|);
      var update, x, us := Search(key, b);
      PairsSplit(order, chain, pairs, order.rank(key), b);
      SortedLookup(order, pairs, order.rank(key), b);
      if x == null || order.Cmp(x.key.value, key) != 0 {
        return Some(Invalid);
      }
      SortedRemove(order, pairs, b);
      Detach(x, update, b, us);
      LowerLevel();
      err := None;
    }

    /** Gives up every level no node reaches, but the lowest. */
    method LowerLevel()
      requires Valid()
      modifies this`level
      ensures Valid() && level <= old(level) && (level == 1 || head.forward[level - 1] != null)
    {
      while level > 1 && head.forward[level - 1] == null
        invariant Valid() && level <= old(level)
      {
        LevelUnused(order, chain, level - 1);
        level := level - 1;
      }
    }

    method Detach(x: Node<K, V>, update: seq<Node<K, V>>, ghost b: nat, ghost us: seq<nat>)
      requires Valid() && b + 1 < |chain| && x == chain[b + 1]
      requires Updates(chain, b, update, us) && |us| == level
      modifies this`chain, this`pairs, this`blocks, set m | m in chain :: m.forward
      ensures Valid() && Footprint(chain) <= old(Footprint(chain))
      ensures pairs == old(pairs[..b] + pairs[b + 1..])
    {
      UnspliceAfter(order, x, update, chain, b, us, pairs, level, maxLevel);
      chain, pairs, blocks := Removed(chain, b + 1), pairs[..b] + pairs[b + 1..], blocks - 3;
    }

    static method UnspliceAfter(ghost o: Order<K>, x: Node<K, V>, update: seq<Node<K, V>>,
        ghost c: Chain<K, V>, ghost b: nat, ghost us: seq<nat>,
        ghost s: seq<(K, V)>, ghost level: nat, ghost maxLevel: nat)
      requires |c| > 0 && Fits(o, c, s, c[0], level, maxLevel)
      requires b + 1 < |c| && x == c[b + 1]
      requires Updates(c, b, update, us) && |us| == level
      modifies set m | m in c :: m.forward
      ensures Fits(o, Removed(c, b + 1), s[..b] + s[b + 1..], c[0], level, maxLevel)
      ensures Footprint(Removed(c, b + 1)) <= Footprint(c)
    {
      UnspliceLinks(o, x, update, c, b, us);
      RemovedIsShaped(o, c, b + 1);
      RemovedMembers(c, b + 1);
      PairsRemoved(c, s, b + 1);
      FootprintRemoved(c, b + 1);
    }

    static method UnspliceLinks(ghost o: Order<K>, x: Node<K, V>, update: seq<Node<K, V>>,
        ghost c: Chain<K, V>, ghost b: nat, ghost us: seq<nat>)
      requires Shaped(o, c) && Linked(c) && b + 1 < |c| && x == c[b + 1]
      requires Updates(c, b, update, us) && x.level <= |us|
      modifies set m | m in c :: m.forward
      ensures Shaped(o, Removed(c, b + 1))
      ensures Linked(Removed(c, b + 1))
    {
      forall l: nat | l < |us| ensures update[l] != x && (update[l].forward[l] == x <==> l < x.level) {
        UpdateReaches(c, b, us[l], l);
      }
      Unsplice(x, update, c, b + 1, us);
      RemovedIsShaped(o, c, b + 1);
      RemovedIsLinked(c, b + 1, us);
    }

    /** One step of an iteration; null starts at the head. */
    method Iter(node: Node?<K, V>, ghost p: nat) returns (next: Node?<K, V>, pair: Option<(K, V)>)
      requires Valid() && p < |chain|
      requires if node == null then p == 0 else node == chain[p]
      ensures next == NodeAt(chain, p + 1)
      ensures pair == if p < |pairs| then Some(pairs[p]) else None
    {
      var cur: Node?<K, V>;
      if node != null {
        cur := node.forward[0];
      } else {
        cur := head.forward[0];
      }
      assert cur == NodeAt(chain, Next(chain, p, 0));
      NextIs(chain, p, 0, p + 1);
      if cur == null {
        return null, None;
      }
      assert chain[p + 1].value == Some(pairs[p].1);
      return cur, Some((cur.key.value, cur.value.value));
    }

    /** Gives every block back to the allocator. */
    method Destroy()
      requires Valid()
      modifies this`blocks
      ensures blocks == 0
    {
      var node := head.forward[0];
      ghost var q := 0;
      assert node == NodeAt(chain, Next(chain, 0, 0));
      NextIs(chain, 0, 0, 1);
      while node != null
        invariant 0 <= q < |chain| && node == NodeAt(chain, q + 1)
        invariant blocks == 1 + 3 * (|chain| - 1 - q)
        decreases |chain| - q
      {
        NextIs(chain, q + 1, 0, q + 2);
        node := node.forward[0];
        blocks := blocks - 3;
        q := q + 1;
      }
      blocks := blocks - 1;
    }
  }

  /** The positions met by following the links of level `l` from position `p`. */
  ghost function Visited<K, V>(c: Chain<K, V>, p: nat, l: nat): seq<nat>
    requires p < |c|
    decreases |c| - p
  {
    var q := Next(c, p, l);
    if q == |c| then [] else [q] + Visited(c, q, l)
  }

  /** Level `l` visits exactly the nodes that reach above it, in chain order. */
  lemma {:induction false} VisitedAreTheTall<K, V>(c: Chain<K, V>, p: nat, l: nat, q: nat)
    requires p < |c|
    ensures q in Visited(c, p, l) <==> p < q < |c| && c[q].level > l
    ensures forall i, j :: 0 <= i < j < |Visited(c, p, l)| ==> Visited(c, p, l)[i] < Visited(c, p, l)[j]
    ensures forall i :: 0 <= i < |Visited(c, p, l)| ==> p < Visited(c, p, l)[i]
    decreases |c| - p
  {
    var n := Next(c, p, l);
    if n < |c| { VisitedAreTheTall(c, n, l, q); }
  }

  /** Each level's chain is the subsequence of the one below made of its taller
      nodes, and the head's unused levels point nowhere. */
  lemma LevelsNest<K, V>(o: Order<K>, c: Chain<K, V>, s: seq<(K, V)>, h: Node<K, V>, level: nat, maxLevel: nat, l: nat)
    requires Fits(o, c, s, h, level, maxLevel)
    ensures forall q: nat :: q in Visited(c, 0, l + 1) <==>
      q in Visited(c, 0, l) && q < |c| && c[q].level > l + 1
    ensures level <= l < maxLevel ==> h.forward[l] == null
  {
    forall q: nat ensures q in Visited(c, 0, l + 1) <==> q in Visited(c, 0, l) && q < |c| && c[q].level > l + 1 {
      VisitedAreTheTall(c, 0, l, q);
      VisitedAreTheTall(c, 0, l + 1, q);
    }
    if level <= l < maxLevel {
      assert c[0].forward[l] == NodeAt(c, Next(c, 0, l));
      NextIs(c, 0, l, |c|);
    }
  }

  /** The pairs in chain order enumerate the map in ascending order, each once. */
  lemma {:induction false} PairsEnumerateMap<K, V>(o: Order<K>, s: seq<(K, V)>)
    requires Sorted(o, s)
    ensures |MapOf(o, s)| == |s|
    ensures forall i :: 0 <= i < |s| ==> o.rank(s[i].0) in MapOf(o, s) && MapOf(o, s)[o.rank(s[i].0)] == s[i]
  {
    if s != [] {
      var n := |s| - 1;
      PairsEnumerateMap(o, s[..n]);
      MapOfKeys(o, s[..n], o.rank(s[n].0));
      assert MapOf(o, s).Keys == MapOf(o, s[..n]).Keys + {o.rank(s[n].0)};
    }
  }
}
