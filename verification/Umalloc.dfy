/** The Kernighan and Ritchie allocator of user/umalloc.c. Addresses count header-sized units
    (16 bytes); the heap lies above the static header `base`. */
module Umalloc {
  import opened Common

  const NULL := 0
  const BASE := 1
  const UNIT := 16
  const MORE := 4096                 // the least that morecore asks for, in units

  // ---------------------------------------------------------------- the free ring

  function Next(n: nat, i: nat): (j: nat)
    requires i < n
    ensures j < n
  {
    if i + 1 == n then 0 else i + 1
  }

  /** Steps along a ring of n from i to f. */
  function Dist(n: nat, i: nat, f: nat): (d: nat)
    requires i < n && f < n
    ensures d < n && (d == 0 <==> i == f)
  {
    if i <= f then f - i else n - i + f
  }

  ghost predicate LinkedAt(ring: seq<nat>, ptr: map<nat, nat>, i: nat)
    requires i < |ring|
  {
    ring[i] in ptr && ptr[ring[i]] == ring[Next(|ring|, i)]
  }

  ghost predicate Links(ring: seq<nat>, ptr: map<nat, nat>)
  {
    forall i | 0 <= i < |ring| :: LinkedAt(ring, ptr, i)
  }

  ghost predicate Before(ring: seq<nat>, size: map<nat, nat>, i: nat, j: nat)
    requires i < |ring| && j < |ring|
  {
    ring[i] in size && ring[i] < ring[j] && ring[i] + size[ring[i]] <= ring[j]
  }

  /** One wrap point: the ring starts at base and its blocks lie in address order. */
  ghost predicate Ordered(ring: seq<nat>, size: map<nat, nat>)
  {
    && |ring| > 0 && ring[0] == BASE && BASE in size && size[BASE] == 0
    && (forall i | 0 <= i < |ring| :: ring[i] in size)
    && (forall i, j | 0 <= i < j < |ring| :: Before(ring, size, i, j))
  }

  ghost predicate GapAfter(ring: seq<nat>, size: map<nat, nat>, i: nat)
    requires i + 1 < |ring|
  {
    ring[i] in size && ring[i] + size[ring[i]] < ring[i + 1]
  }

  /** No two ring neighbours are adjacent in memory, except where x says. */
  ghost predicate Separate(ring: seq<nat>, size: map<nat, nat>, x: set<int>)
  {
    forall i | 0 <= i < |ring| - 1 && i !in x :: GapAfter(ring, size, i)
  }

  // ---------------------------------------------------------------- who owns each unit

  ghost predicate IsBlock(ring: seq<nat>, live: set<nat>, b: nat) { b in live || (b in ring && b != BASE) }

  ghost predicate Covers(size: map<nat, nat>, owner: map<nat, nat>, b: nat)
  {
    b in size && size[b] >= 1 && forall u | b <= u < b + size[b] :: u in owner && owner[u] == b
  }

  /** Every unit obtained from sbrk lies in exactly one block, free or live. */
  ghost predicate Owned(ring: seq<nat>, size: map<nat, nat>, live: set<nat>, owner: map<nat, nat>)
  {
    && (forall b | b in live :: b !in ring && BASE < b)
    && (forall b | IsBlock(ring, live, b) :: Covers(size, owner, b))
    && (forall u | u in owner :: IsBlock(ring, live, owner[u]) && owner[u] in size
                                 && owner[u] <= u < owner[u] + size[owner[u]])
  }

  /** Two blocks never overlap. */
  lemma BlocksDisjoint(ring: seq<nat>, size: map<nat, nat>, live: set<nat>, owner: map<nat, nat>, b: nat, c: nat)
    requires Owned(ring, size, live, owner) && IsBlock(ring, live, b) && IsBlock(ring, live, c) && b < c
    ensures b in size && c in size && b + size[b] <= c
  {
    assert Covers(size, owner, b) && Covers(size, owner, c);
    assert owner[c] == c;
  }

  ghost predicate HeapOk(ring: seq<nat>, size: map<nat, nat>, ptr: map<nat, nat>, live: set<nat>,
                         owner: map<nat, nat>, x: set<int>)
  {
    Links(ring, ptr) && Ordered(ring, size) && Separate(ring, size, x) && Owned(ring, size, live, owner)
  }

  // ---------------------------------------------------------------- inserting

  /** Where an address belongs: after ring[k] and before its successor, if any. */
  predicate IsSlot(ring: seq<nat>, k: nat, a: nat)
  {
    k < |ring| && ring[k] < a && (k + 1 < |ring| ==> a < ring[k + 1])
  }

  lemma {:induction false} SlotExists(ring: seq<nat>, size: map<nat, nat>, a: nat, i: nat) returns (k: nat)
    requires Ordered(ring, size) && a !in ring && i < |ring| && ring[i] < a
    ensures IsSlot(ring, k, a)
    decreases |ring| - i
  {
    k := i;
    if i + 1 < |ring| && ring[i + 1] < a {
      k := SlotExists(ring, size, a, i + 1);
    }
  }

  function Inserted(ring: seq<nat>, k: nat, a: nat): (r: seq<nat>)
    requires k < |ring|
    ensures |r| == |ring| + 1
  {
    ring[..k + 1] + [a] + ring[k + 1..]
  }

  function Removed(ring: seq<nat>, j: nat): (r: seq<nat>)
    requires j < |ring|
    ensures |r| == |ring| - 1
  {
    ring[..j] + ring[j + 1..]
  }

  lemma InsertedAt(ring: seq<nat>, k: nat, a: nat, i: nat)
    requires k < |ring| && i <= |ring|
    ensures Inserted(ring, k, a)[i] == if i <= k then ring[i] else if i == k + 1 then a else ring[i - 1]
  {
  }

  lemma InsertedHas(ring: seq<nat>, k: nat, a: nat, b: nat)
    requires k < |ring|
    ensures b in Inserted(ring, k, a) <==> b in ring || b == a
  {
    var r := Inserted(ring, k, a);
    assert r[k + 1] == a;
    if b in ring {
      var i :| 0 <= i < |ring| && ring[i] == b;
      assert b == r[if i <= k then i else i + 1];
    }
  }

  lemma RemovedAt(ring: seq<nat>, j: nat)
    requires j < |ring|
    ensures forall i | 0 <= i < |ring| - 1 :: Removed(ring, j)[i] == ring[if i < j then i else i + 1]
  {
  }

  lemma RemovedHas(ring: seq<nat>, size: map<nat, nat>, j: nat, b: nat)
    requires Ordered(ring, size) && j < |ring|
    ensures b in Removed(ring, j) <==> b in ring && b != ring[j]
  {
    var r := Removed(ring, j);
    if b in r {
      var i :| 0 <= i < |r| && r[i] == b;
      assert Before(ring, size, if i < j then i else j, if i < j then j else i + 1);
    }
    if b in ring && b != ring[j] {
      var i :| 0 <= i < |ring| && ring[i] == b;
      assert b == r[if i < j then i else i - 1];
    }
  }

  lemma InsertLinks(ring: seq<nat>, size: map<nat, nat>, ptr: map<nat, nat>, k: nat, b: nat)
    requires Links(ring, ptr) && Ordered(ring, size) && b !in ring && k < |ring| && ring[k] in ptr
    ensures Links(Inserted(ring, k, b), ptr[b := ptr[ring[k]]][ring[k] := b])
  {
    hide Inserted;
    var r, p := Inserted(ring, k, b), ptr[b := ptr[ring[k]]][ring[k] := b];
    forall i | 0 <= i < |r| ensures LinkedAt(r, p, i) {
      InsertedAt(ring, k, b, i);
      InsertedAt(ring, k, b, Next(|r|, i));
      if i < k {
        assert LinkedAt(ring, ptr, i) && Before(ring, size, i, k);
      } else if i <= k + 1 {
        assert LinkedAt(ring, ptr, k);
      } else {
        assert LinkedAt(ring, ptr, i - 1) && Before(ring, size, k, i - 1);
      }
    }
  }

  lemma LiveCovered(ring: seq<nat>, size: map<nat, nat>, live: set<nat>, owner: map<nat, nat>, b: nat)
    requires Owned(ring, size, live, owner) && b in live
    ensures b in size && size[b] >= 1 && BASE < b && b !in ring
  {
    assert IsBlock(ring, live, b);
  }

  lemma SlotAfter(ring: seq<nat>, size: map<nat, nat>, live: set<nat>, owner: map<nat, nat>, k: nat, b: nat, i: nat)
    requires Ordered(ring, size) && Owned(ring, size, live, owner) && b in live && IsSlot(ring, k, b) && i <= k
    ensures ring[i] < b && ring[i] + size[ring[i]] <= b
  {
    hide Owned;
    if i < k {
      assert Before(ring, size, i, k);
    }
    if i > 0 {
      assert Before(ring, size, 0, i);
      BlocksDisjoint(ring, size, live, owner, ring[i], b);
    }
  }

  lemma SlotBefore(ring: seq<nat>, size: map<nat, nat>, live: set<nat>, owner: map<nat, nat>, k: nat, b: nat, i: nat)
    requires Ordered(ring, size) && Owned(ring, size, live, owner) && b in live && IsSlot(ring, k, b) && k < i < |ring|
    ensures b in size && b < ring[i] && b + size[b] <= ring[i]
  {
    hide Owned;
    if k + 1 < i {
      assert Before(ring, size, k + 1, i);
    }
    assert Before(ring, size, 0, i);
    BlocksDisjoint(ring, size, live, owner, b, ring[i]);
  }

  lemma InsertOrdered(ring: seq<nat>, size: map<nat, nat>, live: set<nat>, owner: map<nat, nat>, k: nat, b: nat)
    requires Ordered(ring, size) && Owned(ring, size, live, owner) && b in live && IsSlot(ring, k, b)
    ensures Ordered(Inserted(ring, k, b), size)
  {
    hide Inserted, Owned;
    var r := Inserted(ring, k, b);
    LiveCovered(ring, size, live, owner, b);
    InsertedAt(ring, k, b, 0);
    forall i | 0 <= i < |r| ensures r[i] in size {
      InsertedAt(ring, k, b, i);
    }
    forall i, j | 0 <= i < j < |r| ensures Before(r, size, i, j) {
      InsertedAt(ring, k, b, i);
      InsertedAt(ring, k, b, j);
      if j == k + 1 {
        SlotAfter(ring, size, live, owner, k, b, i);
      } else if i == k + 1 {
        SlotBefore(ring, size, live, owner, k, b, j - 1);
      } else {
        assert Before(ring, size, if i <= k then i else i - 1, if j <= k then j else j - 1);
      }
    }
  }

  lemma SeparateInserted(ring: seq<nat>, size: map<nat, nat>, k: nat, b: nat)
    requires Separate(ring, size, {}) && k < |ring|
    ensures Separate(Inserted(ring, k, b), size, {k, k + 1})
  {
    hide Inserted;
    var r := Inserted(ring, k, b);
    forall i | 0 <= i < |r| - 1 && i !in {k, k + 1} ensures GapAfter(r, size, i) {
      InsertedAt(ring, k, b, i);
      InsertedAt(ring, k, b, i + 1);
      assert GapAfter(ring, size, if i < k then i else i - 1);
    }
  }

  lemma InsertOwned(ring: seq<nat>, size: map<nat, nat>, live: set<nat>, owner: map<nat, nat>, k: nat, b: nat)
    requires Owned(ring, size, live, owner) && b in live && k < |ring|
    ensures Owned(Inserted(ring, k, b), size, live - {b}, owner)
  {
    hide Inserted, Covers;
    var r := Inserted(ring, k, b);
    forall c ensures IsBlock(r, live - {b}, c) <==> IsBlock(ring, live, c) ensures c in r ==> c in ring || c == b {
      InsertedHas(ring, k, b, c);
    }
  }

  /** Linking a live block in at its place; only its two new neighbours may be adjacent. */
  lemma Insert(ring: seq<nat>, size: map<nat, nat>, ptr: map<nat, nat>, live: set<nat>, owner: map<nat, nat>, k: nat,
               b: nat)
    requires HeapOk(ring, size, ptr, live, owner, {}) && b in live && IsSlot(ring, k, b)
    ensures ring[k] in ptr
    ensures HeapOk(Inserted(ring, k, b), size, ptr[b := ptr[ring[k]]][ring[k] := b], live - {b}, owner, {k, k + 1})
  {
    hide Inserted, Ordered, Separate;
    assert LinkedAt(ring, ptr, k);
    InsertLinks(ring, size, ptr, k, b);
    InsertOrdered(ring, size, live, owner, k, b);
    SeparateInserted(ring, size, k, b);
    InsertOwned(ring, size, live, owner, k, b);
  }

  // ---------------------------------------------------------------- coalescing

  /** Units of block c now belong to block b. */
  ghost function Reowned(owner: map<nat, nat>, b: nat, c: nat): (o: map<nat, nat>)
    ensures o.Keys == owner.Keys
  {
    map u | u in owner :: if owner[u] == c then b else owner[u]
  }

  lemma AbsorbLinks(ring: seq<nat>, size: map<nat, nat>, ptr: map<nat, nat>, j: nat)
    requires Links(ring, ptr) && Ordered(ring, size) && 0 <= j < |ring| - 1 && ring[j + 1] in ptr
    ensures Links(Removed(ring, j + 1), ptr[ring[j] := ptr[ring[j + 1]]])
  {
    hide Removed;
    RemovedAt(ring, j + 1);
    var r, p := Removed(ring, j + 1), ptr[ring[j] := ptr[ring[j + 1]]];
    forall i | 0 <= i < |r| ensures LinkedAt(r, p, i) {
      if i < j {
        assert LinkedAt(ring, ptr, i) && Before(ring, size, i, j);
      } else if i == j {
        assert LinkedAt(ring, ptr, j + 1);
      } else {
        assert LinkedAt(ring, ptr, i + 1) && Before(ring, size, j, i + 1);
      }
    }
  }

  lemma AbsorbOrdered(ring: seq<nat>, size: map<nat, nat>, j: nat)
    requires Ordered(ring, size) && 1 <= j < |ring| - 1 && ring[j] + size[ring[j]] == ring[j + 1]
    ensures Ordered(Removed(ring, j + 1), size[ring[j] := size[ring[j]] + size[ring[j + 1]]])
  {
    hide Removed;
    RemovedAt(ring, j + 1);
    var r, s := Removed(ring, j + 1), size[ring[j] := size[ring[j]] + size[ring[j + 1]]];
    assert Before(ring, size, 0, j);
    forall i, m | 0 <= i < m < |r| ensures Before(r, s, i, m) {
      var i1, m1 := if i <= j then i else i + 1, if m <= j then m else m + 1;
      assert Before(ring, size, i1, m1);
      if i < j {
        assert Before(ring, size, i, j);
      } else if i == j {
        assert Before(ring, size, j + 1, m1);
      } else {
        assert Before(ring, size, j, i1);
      }
    }
  }

  lemma AbsorbSeparate(ring: seq<nat>, size: map<nat, nat>, x: set<int>, j: nat)
    requires Ordered(ring, size) && Separate(ring, size, x) && 1 <= j < |ring| - 1
    requires x <= {j - 1, j} && ring[j] + size[ring[j]] == ring[j + 1]
    ensures Separate(Removed(ring, j + 1), size[ring[j] := size[ring[j]] + size[ring[j + 1]]], x - {j})
  {
    hide Removed;
    RemovedAt(ring, j + 1);
    var r, s := Removed(ring, j + 1), size[ring[j] := size[ring[j]] + size[ring[j + 1]]];
    forall i | 0 <= i < |r| - 1 && i !in x - {j} ensures GapAfter(r, s, i) {
      if i < j {
        assert GapAfter(ring, size, i) && Before(ring, size, i, j);
      } else {
        assert i + 1 !in x;
        assert GapAfter(ring, size, i + 1) && Before(ring, size, j, i + 1);
      }
    }
  }

  lemma OrderedAt(ring: seq<nat>, size: map<nat, nat>, i: nat, j: nat)
    requires Ordered(ring, size) && i < j < |ring|
    ensures Before(ring, size, i, j)
  {
  }

  lemma Merged(ring: seq<nat>, r: seq<nat>, size: map<nat, nat>, live: set<nat>, owner: map<nat, nat>, b: nat, c: nat)
    requires Owned(ring, size, live, owner) && b in ring && c in ring && BASE < b < c
    requires forall a :: a in r <==> a in ring && a != c
    requires b in size && c in size && b + size[b] == c
    ensures Owned(r, size[b := size[b] + size[c]], live, Reowned(owner, b, c))
  {
    var s, o := size[b := size[b] + size[c]], Reowned(owner, b, c);
    assert IsBlock(ring, live, b) && IsBlock(ring, live, c);
    assert Covers(size, owner, b) && Covers(size, owner, c);
    forall a | IsBlock(r, live, a) ensures Covers(s, o, a) {
      assert IsBlock(ring, live, a);
      assert Covers(size, owner, a);
    }
  }

  lemma OrderedStart(ring: seq<nat>, size: map<nat, nat>)
    requires Ordered(ring, size)
    ensures |ring| > 0 && ring[0] == BASE && BASE in size && size[BASE] == 0
  {
  }

  lemma AbsorbOwned(ring: seq<nat>, size: map<nat, nat>, live: set<nat>, owner: map<nat, nat>, j: nat)
    requires Ordered(ring, size) && Owned(ring, size, live, owner) && 1 <= j < |ring| - 1
    requires ring[j] in size && ring[j + 1] in size && ring[j] + size[ring[j]] == ring[j + 1]
    ensures Owned(Removed(ring, j + 1), size[ring[j] := size[ring[j]] + size[ring[j + 1]]], live,
                  Reowned(owner, ring[j], ring[j + 1]))
  {
    hide Removed, Ordered;
    var b, c := ring[j], ring[j + 1];
    var r := Removed(ring, j + 1);
    OrderedStart(ring, size);
    OrderedAt(ring, size, 0, j);
    OrderedAt(ring, size, j, j + 1);
    forall a ensures a in r <==> a in ring && a != c {
      RemovedHas(ring, size, j + 1, a);
    }
    Merged(ring, r, size, live, owner, b, c);
  }

  /** Ring block j takes over its adjacent successor. */
  lemma Absorb(ring: seq<nat>, size: map<nat, nat>, ptr: map<nat, nat>, live: set<nat>, owner: map<nat, nat>,
               x: set<int>, j: nat)
    requires HeapOk(ring, size, ptr, live, owner, x) && 1 <= j < |ring| - 1 && x <= {j - 1, j}
    requires ring[j] in size && ring[j] + size[ring[j]] == ring[j + 1]
    ensures ring[j + 1] in size && ring[j + 1] in ptr
    ensures HeapOk(Removed(ring, j + 1), size[ring[j] := size[ring[j]] + size[ring[j + 1]]],
                   ptr[ring[j] := ptr[ring[j + 1]]],
                   live, Reowned(owner, ring[j], ring[j + 1]), x - {j})
  {
    hide Removed, Separate, Reowned, Owned;
    assert LinkedAt(ring, ptr, j + 1);
    AbsorbLinks(ring, size, ptr, j);
    AbsorbOrdered(ring, size, j);
    AbsorbSeparate(ring, size, x, j);
    AbsorbOwned(ring, size, live, owner, j);
  }

  lemma WholeOrdered(ring: seq<nat>, size: map<nat, nat>, j: nat)
    requires Ordered(ring, size) && Separate(ring, size, {}) && 1 <= j < |ring|
    ensures Ordered(Removed(ring, j), size) && Separate(Removed(ring, j), size, {})
  {
    hide Removed;
    RemovedAt(ring, j);
    var r := Removed(ring, j);
    forall i, m | 0 <= i < m < |r| ensures Before(r, size, i, m) {
      assert Before(ring, size, if i < j then i else i + 1, if m < j then m else m + 1);
    }
    forall i | 0 <= i < |r| - 1 ensures GapAfter(r, size, i) {
      if i < j - 1 {
        assert GapAfter(ring, size, i);
      } else if i == j - 1 {
        assert GapAfter(ring, size, i) && Before(ring, size, j, j + 1);
      } else {
        assert GapAfter(ring, size, i + 1);
      }
    }
  }

  lemma WholeOwned(ring: seq<nat>, size: map<nat, nat>, live: set<nat>, owner: map<nat, nat>, j: nat)
    requires Ordered(ring, size) && Owned(ring, size, live, owner) && 1 <= j < |ring|
    ensures Owned(Removed(ring, j), size, live + {ring[j]}, owner)
  {
    hide Removed, Ordered, Covers;
    OrderedAt(ring, size, 0, j);
    OrderedStart(ring, size);
    var r := Removed(ring, j);
    forall c
      ensures IsBlock(r, live + {ring[j]}, c) <==> IsBlock(ring, live, c)
      ensures c in r <==> c in ring && c != ring[j]
    {
      RemovedHas(ring, size, j, c);
    }
  }

  // ---------------------------------------------------------------- allocating

  /** A ring block handed out whole. */
  lemma TakeWhole(ring: seq<nat>, size: map<nat, nat>, ptr: map<nat, nat>, live: set<nat>, owner: map<nat, nat>, j: nat)
    requires HeapOk(ring, size, ptr, live, owner, {}) && 1 <= j < |ring|
    ensures ring[j] in ptr
    ensures HeapOk(Removed(ring, j), size, ptr[ring[j - 1] := ptr[ring[j]]], live + {ring[j]}, owner, {})
  {
    hide Removed, Ordered, Separate, Owned;
    assert LinkedAt(ring, ptr, j);
    AbsorbLinks(ring, size, ptr, j - 1);
    WholeOrdered(ring, size, j);
    WholeOwned(ring, size, live, owner, j);
  }

  /** No block starts strictly inside another. */
  lemma InsideNotBlock(ring: seq<nat>, size: map<nat, nat>, live: set<nat>, owner: map<nat, nat>, b: nat, q: nat)
    requires Owned(ring, size, live, owner) && IsBlock(ring, live, b) && b in size && b < q < b + size[b]
    ensures !IsBlock(ring, live, q)
  {
    assert Covers(size, owner, b);
    assert q in owner && owner[q] == b;
    assert IsBlock(ring, live, q) ==> Covers(size, owner, q);
  }

  lemma TailOrdered(ring: seq<nat>, size: map<nat, nat>, live: set<nat>, j: nat, n: nat)
    requires Ordered(ring, size) && Separate(ring, size, {}) && 1 <= j < |ring| && 1 <= n < size[ring[j]]
    requires !IsBlock(ring, live, ring[j] + size[ring[j]] - n)
    ensures Ordered(ring, size[ring[j] := size[ring[j]] - n][ring[j] + size[ring[j]] - n := n])
    ensures Separate(ring, size[ring[j] := size[ring[j]] - n][ring[j] + size[ring[j]] - n := n], {})
  {
    var q := ring[j] + size[ring[j]] - n;
    var s := size[ring[j] := size[ring[j]] - n][q := n];
    assert Before(ring, size, 0, j);
    forall i | 0 <= i < |ring| ensures ring[i] in s && s[ring[i]] <= size[ring[i]] {
      if i == 0 {
        assert ring[0] < q;
      } else {
        assert IsBlock(ring, live, ring[i]) || ring[i] == BASE;
      }
      if i < j {
        assert Before(ring, size, i, j);
      } else if i > j {
        assert Before(ring, size, j, i);
      }
    }
    forall i, m | 0 <= i < m < |ring| ensures Before(ring, s, i, m) {
      assert Before(ring, size, i, m);
    }
    forall i | 0 <= i < |ring| - 1 ensures GapAfter(ring, s, i) {
      assert GapAfter(ring, size, i);
    }
  }

  /** The units of b from q on become block q. */
  ghost function Carved(owner: map<nat, nat>, b: nat, q: nat): (o: map<nat, nat>)
    ensures o.Keys == owner.Keys
  {
    map u | u in owner :: if owner[u] == b && u >= q then q else owner[u]
  }

  /** A block other than the carved one covers its units as before; the two parts cover theirs. */
  lemma CarveCovers(size: map<nat, nat>, owner: map<nat, nat>, b: nat, q: nat, a: nat, other: bool)
    requires Covers(size, owner, b) && b < q < b + size[b]
    requires (if other then a != q && Covers(size, owner, a) else a == q)
    ensures Covers(size[b := q - b][q := b + size[b] - q], Carved(owner, b, q), a)
  {
  }

  lemma CarveUnit(size: map<nat, nat>, owner: map<nat, nat>, b: nat, q: nat, u: nat)
    requires b in size && b < q < b + size[b] && u in owner && owner[u] in size && owner[u] != q
    requires owner[u] <= u < owner[u] + size[owner[u]]
    ensures var s, o := size[b := q - b][q := b + size[b] - q], Carved(owner, b, q);
            u in o && (o[u] == q || o[u] == owner[u]) && o[u] in s && o[u] <= u < o[u] + s[o[u]]
  {
  }

  lemma CarveOwned(ring: seq<nat>, size: map<nat, nat>, live: set<nat>, owner: map<nat, nat>, b: nat, q: nat)
    requires Owned(ring, size, live, owner) && b in ring && b != BASE && !IsBlock(ring, live, q)
    requires b in size && BASE < b < q < b + size[b]
    ensures Owned(ring, size[b := q - b][q := b + size[b] - q], live + {q}, Carved(owner, b, q))
  {
    hide Covers, Carved;
    var s, o := size[b := q - b][q := b + size[b] - q], Carved(owner, b, q);
    assert IsBlock(ring, live, b);
    forall a | IsBlock(ring, live + {q}, a) ensures Covers(s, o, a) {
      CarveCovers(size, owner, b, q, a, a != q);
    }
    forall u | u in o ensures IsBlock(ring, live + {q}, o[u]) && o[u] in s && o[u] <= u < o[u] + s[o[u]] {
      CarveUnit(size, owner, b, q, u);
    }
  }

  /** The tail of a larger ring block handed out. */
  lemma TakeTail(ring: seq<nat>, size: map<nat, nat>, ptr: map<nat, nat>, live: set<nat>, owner: map<nat, nat>,
                 j: nat, n: nat)
    requires HeapOk(ring, size, ptr, live, owner, {}) && 1 <= j < |ring| && ring[j] in size && 1 <= n < size[ring[j]]
    ensures HeapOk(ring, size[ring[j] := size[ring[j]] - n][ring[j] + size[ring[j]] - n := n], ptr,
                   live + {ring[j] + size[ring[j]] - n}, Carved(owner, ring[j], ring[j] + size[ring[j]] - n), {})
    ensures ring[j] + size[ring[j]] - n !in live
  {
    hide Links, Ordered, Owned, Separate;
    var b := ring[j];
    var q := b + size[b] - n;
    OrderedAt(ring, size, 0, j);
    OrderedStart(ring, size);
    InsideNotBlock(ring, size, live, owner, b, q);
    TailOrdered(ring, size, live, j, n);
    CarveOwned(ring, size, live, owner, b, q);
  }

  // ---------------------------------------------------------------- free

  /** The exit test of free's search holds exactly at the place where the block belongs. */
  lemma StopExactly(ring: seq<nat>, size: map<nat, nat>, ptr: map<nat, nat>, k: nat, i: nat, a: nat)
    requires Links(ring, ptr) && Ordered(ring, size) && IsSlot(ring, k, a) && i < |ring| && BASE < a && a !in ring
    ensures ring[i] in ptr && ptr[ring[i]] == ring[Next(|ring|, i)]
    ensures var p, q := ring[i], ptr[ring[i]];
            (p < a < q || (p >= q && (p < a || a < q))) <==> i == k
  {
    assert LinkedAt(ring, ptr, i);
    if i < k {
      assert Before(ring, size, i, k);
      if i + 1 < k {
        assert Before(ring, size, i + 1, k);
      }
    } else if k < i {
      assert Before(ring, size, k, i);
      if k + 1 < i {
        assert Before(ring, size, k + 1, i);
      }
    }
    if i + 1 < |ring| {
      assert Before(ring, size, i, i + 1);
    }
    if i > 0 {
      assert Before(ring, size, 0, i);
    }
  }

  lemma Around(ring: seq<nat>, size: map<nat, nat>, ptr: map<nat, nat>, live: set<nat>, owner: map<nat, nat>, k: nat,
               b: nat)
    requires HeapOk(ring, size, ptr, live, owner, {}) && b in live && IsSlot(ring, k, b)
    ensures BASE < b && b !in ring && ring[k] in ptr && ptr[ring[k]] == (if k + 1 < |ring| then ring[k + 1] else BASE)
    ensures k + 1 < |ring| ==> ring[k] != ring[k + 1]
    ensures k == 0 ==> ring[k] == BASE && BASE in size && size[BASE] == 0
  {
    hide Separate, Covers;
    assert LinkedAt(ring, ptr, k);
    if k + 1 < |ring| {
      assert Before(ring, size, k, k + 1);
    }
  }

  /** An exception that is not needed. */
  lemma Narrow(ring: seq<nat>, size: map<nat, nat>, ptr: map<nat, nat>, live: set<nat>, owner: map<nat, nat>,
               x: set<int>, j: nat)
    requires HeapOk(ring, size, ptr, live, owner, x)
    requires j + 1 < |ring| ==> ring[j] in size && ring[j] + size[ring[j]] != ring[j + 1]
    ensures HeapOk(ring, size, ptr, live, owner, x - {j})
  {
    hide Links, Owned;
    if j + 1 < |ring| {
      assert Before(ring, size, j, j + 1);
    }
  }

  /** Linked in, and merged with the successor if they touch. */
  lemma JoinNext(ring: seq<nat>, size: map<nat, nat>, ptr: map<nat, nat>, live: set<nat>, owner: map<nat, nat>,
                 k: nat, b: nat)
    returns (ring1: seq<nat>, size1: map<nat, nat>, ptr1: map<nat, nat>, owner1: map<nat, nat>)
    requires HeapOk(ring, size, ptr, live, owner, {}) && b in live && b in size && IsSlot(ring, k, b) && ring[k] in ptr
    requires ptr[ring[k]] in size && ptr[ring[k]] in ptr
    ensures HeapOk(ring1, size1, ptr1, live - {b}, owner1, {k}) && owner1.Keys == owner.Keys
    ensures k + 1 < |ring1| && ring1[k] == ring[k] && ring1[k + 1] == b
    ensures var n := ptr[ring[k]];
            if b + size[b] == n then size1 == size[b := size[b] + size[n]] && ptr1 == ptr[b := ptr[n]][ring[k] := b]
            else size1 == size && ptr1 == ptr[b := n][ring[k] := b]
  {
    hide HeapOk, Inserted, Removed, Reowned;
    var n := ptr[ring[k]];
    Insert(ring, size, ptr, live, owner, k, b);
    Around(ring, size, ptr, live, owner, k, b);
    ring1, size1, ptr1, owner1 := Inserted(ring, k, b), size, ptr[b := n][ring[k] := b], owner;
    InsertedAt(ring, k, b, k);
    InsertedAt(ring, k, b, k + 1);
    if b + size[b] == n {
      InsertedAt(ring, k, b, k + 2);
      Absorb(ring1, size, ptr1, live - {b}, owner, {k, k + 1}, k + 1);
      RemovedAt(ring1, k + 2);
      assert ptr1[b := ptr1[n]] == ptr[b := ptr[n]][ring[k] := b];
      assert {k, k + 1} - {k + 1} == {k};
      ring1, size1, ptr1, owner1 :=
        Removed(ring1, k + 2), size[b := size[b] + size[n]], ptr1[b := ptr1[n]], Reowned(owner, b, n);
    } else {
      if k + 2 < |ring1| {
        InsertedAt(ring, k, b, k + 2);
      }
      Narrow(ring1, size, ptr1, live - {b}, owner, {k, k + 1}, k + 1);
      assert {k, k + 1} - {k + 1} == {k};
    }
  }

  lemma LinkKnown(ring: seq<nat>, ptr: map<nat, nat>, i: nat)
    requires Links(ring, ptr) && i < |ring|
    ensures ring[i] in ptr && ptr[ring[i]] == ring[Next(|ring|, i)]
  {
    assert LinkedAt(ring, ptr, i);
  }

  /** Merged with the predecessor if they touch. */
  lemma JoinPrev(ring: seq<nat>, size: map<nat, nat>, ptr: map<nat, nat>, live: set<nat>, owner: map<nat, nat>, k: nat)
    returns (ring1: seq<nat>, size1: map<nat, nat>, ptr1: map<nat, nat>, owner1: map<nat, nat>)
    requires HeapOk(ring, size, ptr, live, owner, {k}) && k + 1 < |ring|
    ensures ring[k] in size && ring[k + 1] in size && ring[k + 1] in ptr
    ensures HeapOk(ring1, size1, ptr1, live, owner1, {}) && owner1.Keys == owner.Keys
    ensures k < |ring1| && ring1[k] == ring[k]
    ensures var p, b := ring[k], ring[k + 1];
            if p + size[p] == b then size1 == size[p := size[p] + size[b]] && ptr1 == ptr[p := ptr[b]]
            else size1 == size && ptr1 == ptr
  {
    hide Removed, Reowned, Separate, Owned, Links;
    assert Before(ring, size, k, k + 1);
    LinkKnown(ring, ptr, k + 1);
    var p, b := ring[k], ring[k + 1];
    ring1, size1, ptr1, owner1 := ring, size, ptr, owner;
    if p + size[p] == b {
      Absorb(ring, size, ptr, live, owner, {k}, k);
      RemovedAt(ring, k + 1);
      ring1, size1, ptr1, owner1 :=
        Removed(ring, k + 1), size[p := size[p] + size[b]], ptr[p := ptr[b]], Reowned(owner, p, b);
    } else {
      Narrow(ring, size, ptr, live, owner, {k}, k);
    }
    assert {k} - {k} == {};
  }

  // ---------------------------------------------------------------- sbrk

  /** Units for a request: the payload rounded up, and the header. */
  function UnitsFor(nbytes: nat): (n: nat)
    ensures n >= 1 && (n - 1) * UNIT >= nbytes && (nbytes > 0 ==> (n - 2) * UNIT < nbytes)
  {
    (nbytes + UNIT - 1) / UNIT + 1
  }

  function Asked(nu: nat): (n: nat) { if nu < MORE then MORE else nu }

  /** A number of bytes as the int argument of sbrk receives it. */
  function AsInt(n: nat): (k: int)
  {
    var m := n % 0x1_0000_0000;
    if m < 0x8000_0000 then m else m - 0x1_0000_0000
  }

  const LARGEST := 0x7fff_ffe0

  /** sbrk is asked for the block's bytes exactly for requests up to 2^31 - 32; for every
      larger uint request the break ends up below the end of the block that malloc lays out. */
  lemma SbrkArgument(nbytes: nat)
    requires nbytes < 0x1_0000_0000
    ensures AsInt(Asked(UnitsFor(nbytes)) * UNIT) == Asked(UnitsFor(nbytes)) * UNIT <==> nbytes <= LARGEST
    ensures nbytes > LARGEST ==> AsInt(Asked(UnitsFor(nbytes)) * UNIT) < Asked(UnitsFor(nbytes)) * UNIT
  {
  }

  /** The first request beyond the limit makes sbrk give memory back. */
  lemma SbrkTurnsNegative()
    ensures AsInt(Asked(UnitsFor(LARGEST + 1)) * UNIT) == -0x8000_0000
  {
  }

  // ---------------------------------------------------------------- more units, and the search

  predicate InRegion(hp: nat, nu: nat, u: nat) { hp <= u < hp + nu }

  /** Fresh units, as one block. */
  ghost function Region(hp: nat, nu: nat): (o: map<nat, nat>)
  {
    map u | 0 <= u < hp + nu && InRegion(hp, nu, u) :: hp
  }

  lemma SameSizes(ring: seq<nat>, size: map<nat, nat>, size1: map<nat, nat>)
    requires Ordered(ring, size) && Separate(ring, size, {})
    requires forall i | 0 <= i < |ring| :: ring[i] in size && ring[i] in size1 && size1[ring[i]] == size[ring[i]]
    ensures Ordered(ring, size1) && Separate(ring, size1, {})
  {
    forall i, j | 0 <= i < j < |ring| ensures Before(ring, size1, i, j) {
      assert Before(ring, size, i, j);
    }
    forall i | 0 <= i < |ring| - 1 ensures GapAfter(ring, size1, i) {
      assert GapAfter(ring, size, i);
    }
  }

  lemma Sized(ring: seq<nat>, size: map<nat, nat>, i: nat)
    requires Ordered(ring, size) && i < |ring|
    ensures ring[i] in size
  {
  }

  lemma AddRegion(ring: seq<nat>, size: map<nat, nat>, ptr: map<nat, nat>, live: set<nat>, owner: map<nat, nat>,
                  brk: nat, hp: nat, nu: nat, owner1: map<nat, nat>)
    requires HeapOk(ring, size, ptr, live, owner, {}) && BASE < brk <= hp && nu >= 1
    requires forall u | u in owner :: u < brk
    requires owner1 == owner + Region(hp, nu)
    ensures HeapOk(ring, size[hp := nu], ptr, live + {hp}, owner1, {}) && hp !in live && hp !in ring
  {
    hide Links, Separate, Ordered;
    forall b: nat | IsBlock(ring, live, b) ensures b < brk {
      assert Covers(size, owner, b);
      assert b in owner;
    }
    OrderedStart(ring, size);
    assert !IsBlock(ring, live, hp);
    forall b | IsBlock(ring, live + {hp}, b) ensures Covers(size[hp := nu], owner1, b) {
      if b != hp {
        assert IsBlock(ring, live, b) && Covers(size, owner, b);
      }
    }
    forall i | 0 <= i < |ring| ensures ring[i] in size && ring[i] != hp {
      Sized(ring, size, i);
    }
    SameSizes(ring, size, size[hp := nu]);
  }

  /** base alone is a free list. */
  lemma Fresh(size: map<nat, nat>, ptr: map<nat, nat>)
    ensures HeapOk([BASE], size[BASE := 0], ptr[BASE := BASE], {}, map[], {})
  {
  }

  /** No free block has n units. */
  ghost predicate NoFit(freep: nat, ring: seq<nat>, size: map<nat, nat>, n: nat)
  {
    freep == NULL || forall i | 0 <= i < |ring| :: ring[i] in size && size[ring[i]] < n
  }

  lemma Fits(freep: nat, ring: seq<nat>, size: map<nat, nat>, n: nat, i: nat)
    requires freep != NULL && i < |ring| && ring[i] in size && size[ring[i]] >= n
    ensures !NoFit(freep, ring, size, n)
  {
  }

  lemma AllSmall(freep: nat, ring: seq<nat>, size: map<nat, nat>, n: nat)
    requires forall j | 0 <= j < |ring| :: ring[j] in size && size[ring[j]] < n
    ensures NoFit(freep, ring, size, n)
  {
  }

  lemma NextIs(n: nat, i: nat)
    requires i < n
    ensures Next(n, i) == if i + 1 == n then 0 else i + 1
  {
  }

  /** Going round from i, w comes no later than f. */
  ghost predicate Ahead(n: nat, i: nat, w: nat, f: nat)
  {
    i < n && w < n && f < n && Dist(n, i, w) <= Dist(n, i, f)
  }

  lemma AheadStart(n: nat, f: nat)
    requires f < n
    ensures Ahead(n, Next(n, f), f, f) && Ahead(n, Next(n, f), Next(n, f), f)
  {
  }

  lemma AheadStep(n: nat, i: nat, w: nat, f: nat)
    requires Ahead(n, i, w, f) && i != w
    ensures i != f && Ahead(n, Next(n, i), w, f) && Dist(n, Next(n, i), f) < Dist(n, i, f)
  {
  }

  /** Everything passed since freep is too small. */
  ghost predicate Scanned(ring: seq<nat>, size: map<nat, nat>, n: nat, f: nat, i: nat)
    requires f < |ring| && i < |ring|
  {
    forall j | 0 <= j < |ring| && Dist(|ring|, j, f) > Dist(|ring|, i, f) :: ring[j] in size && size[ring[j]] < n
  }

  lemma ScanStep(ring: seq<nat>, size: map<nat, nat>, n: nat, f: nat, i: nat)
    requires f < |ring| && i < |ring| && Scanned(ring, size, n, f, i) && ring[i] in size && size[ring[i]] < n
    ensures i == f ==> forall j | 0 <= j < |ring| :: ring[j] in size && size[ring[j]] < n
    ensures i != f ==>
            Scanned(ring, size, n, f, Next(|ring|, i)) && Dist(|ring|, Next(|ring|, i), f) < Dist(|ring|, i, f)
  {
  }

  /** The assignments of free, after its search found p. */
  ghost function Coalesced(size: map<nat, nat>, ptr: map<nat, nat>, p: nat, b: nat): (r: (map<nat, nat>, map<nat, nat>))
    requires b in size && p in size && p in ptr && ptr[p] in size && ptr[p] in ptr
  {
    var n := ptr[p];
    var (s1, t1) := if b + size[b] == n then (size[b := size[b] + size[n]], ptr[b := ptr[n]]) else (size, ptr[b := n]);
    if p + s1[p] == b then (s1[p := s1[p] + s1[b]], t1[p := t1[b]]) else (s1, t1[p := b])
  }

  lemma CoalescedIs(size: map<nat, nat>, ptr: map<nat, nat>, p: nat, b: nat)
    requires b in size && p in size && p in ptr && ptr[p] in size && ptr[p] in ptr
    ensures var n := ptr[p];
            var s1 := if b + size[b] == n then size[b := size[b] + size[n]] else size;
            var t1 := if b + size[b] == n then ptr[b := ptr[n]] else ptr[b := n];
            Coalesced(size, ptr, p, b) ==
            if p + s1[p] == b then (s1[p := s1[p] + s1[b]], t1[p := t1[b]]) else (s1, t1[p := b])
  {
  }

  lemma RingNotLive(ring: seq<nat>, size: map<nat, nat>, live: set<nat>, owner: map<nat, nat>)
    requires Owned(ring, size, live, owner)
    ensures forall b | b in live :: b !in ring && BASE < b
  {
  }

  /** What free's assignments do to the heap. */
  lemma Freed(ring: seq<nat>, size: map<nat, nat>, ptr: map<nat, nat>, live: set<nat>, owner: map<nat, nat>, k: nat,
              b: nat)
    returns (ring1: seq<nat>, owner1: map<nat, nat>)
    requires HeapOk(ring, size, ptr, live, owner, {}) && b in live && IsSlot(ring, k, b)
    ensures b in size && ring[k] in size && ring[k] in ptr && ptr[ring[k]] in size && ptr[ring[k]] in ptr
    ensures var p := ring[k]; var (s1, t1) := Coalesced(size, ptr, p, b);
            && HeapOk(ring1, s1, t1, live - {b}, owner1, {}) && owner1.Keys == owner.Keys && p in ring1
            && p in s1 && p in t1 && t1[p] in s1 && (s1[p] >= size[b] || s1[t1[p]] >= size[b])
            && forall c | c in live && c != b :: c in s1 && c in size && s1[c] == size[c]
  {
    hide Links, Ordered, Separate, Owned;
    var p := ring[k];
    LiveCovered(ring, size, live, owner, b);
    LinkKnown(ring, ptr, k);
    LinkKnown(ring, ptr, Next(|ring|, k));
    Sized(ring, size, k);
    Sized(ring, size, Next(|ring|, k));
    RingNotLive(ring, size, live, owner);
    var n := ptr[p];
    var ringA, sizeA, ptrA, ownerA := JoinNext(ring, size, ptr, live, owner, k, b);
    var ringB, sizeB, ptrB, ownerB := JoinPrev(ringA, sizeA, ptrA, live - {b}, ownerA, k);
    ring1, owner1 := ringB, ownerB;
    var x := if b + size[b] == n then ptr[n] else n;
    assert ptrA[p := ptrA[b]] == ptr[b := x][p := x];
    assert (sizeB, ptrB) == Coalesced(size, ptr, p, b);
    Sized(ring1, sizeB, k);
    LinkKnown(ring1, ptrB, k);
    Sized(ring1, sizeB, Next(|ring1|, k));
    forall c | c in live && c != b ensures c in sizeB && c in size && sizeB[c] == size[c] {
      LiveCovered(ring, size, live, owner, c);
      assert c != p && c != n;
    }
  }

  lemma LiveSized(ring: seq<nat>, size: map<nat, nat>, ptr: map<nat, nat>, live: set<nat>, owner: map<nat, nat>)
    requires HeapOk(ring, size, ptr, live, owner, {})
    ensures forall b | b in live :: b in size && b !in ring
  {
    hide Links, Ordered, Separate;
    forall b | b in live ensures b in size && b !in ring {
      LiveCovered(ring, size, live, owner, b);
    }
  }

  lemma RegionBelow(hp: nat, nu: nat)
    ensures forall u | u in Region(hp, nu) :: u < hp + nu
  {
  }

  lemma Positive(ring: seq<nat>, size: map<nat, nat>, i: nat)
    requires Ordered(ring, size) && i < |ring|
    ensures ring[i] != NULL
  {
    if i > 0 {
      assert Before(ring, size, 0, i);
    }
  }

  /** One step along the ring; base is empty. */
  lemma StepTo(ring: seq<nat>, size: map<nat, nat>, ptr: map<nat, nat>, live: set<nat>, owner: map<nat, nat>, i: nat)
    requires HeapOk(ring, size, ptr, live, owner, {}) && i < |ring|
    ensures ring[i] in ptr && ptr[ring[i]] == ring[Next(|ring|, i)] && ring[i] in size && ring[i] != NULL
    ensures i == 0 ==> size[ring[i]] == 0
  {
    hide Separate, Owned;
    LinkKnown(ring, ptr, i);
    Positive(ring, size, i);
  }

  lemma Distinct(ring: seq<nat>, size: map<nat, nat>, ptr: map<nat, nat>, live: set<nat>, owner: map<nat, nat>,
                 i: nat, j: nat)
    requires HeapOk(ring, size, ptr, live, owner, {}) && i < |ring| && j < |ring| && ring[i] == ring[j]
    ensures i == j
  {
    hide Separate, Owned, Links;
    if i != j {
      OrderedAt(ring, size, if i < j then i else j, if i < j then j else i);
    }
  }

  lemma ScanStart(ring: seq<nat>, size: map<nat, nat>, n: nat, f: nat)
    requires f < |ring|
    ensures Scanned(ring, size, n, f, Next(|ring|, f))
  {
  }

  // ---------------------------------------------------------------- conservation by count

  ghost function Pick(bs: set<nat>): (b: nat)
    requires bs != {}
    ensures b in bs
  {
    var b :| b in bs;
    b
  }

  /** The units in a set of blocks, by their headers. */
  ghost function Total(bs: set<nat>, size: map<nat, nat>): (n: nat)
    requires forall b | b in bs :: b in size
  {
    if bs == {} then 0 else size[Pick(bs)] + Total(bs - {Pick(bs)}, size)
  }

  ghost function UnitsOf(owner: map<nat, nat>, bs: set<nat>): (s: set<nat>) { set u | u in owner && owner[u] in bs }

  ghost function Units(b: nat, n: nat): (s: set<nat>) { set u | b <= u < b + n && InRegion(b, n, u) }

  lemma {:induction false} UnitsCard(b: nat, n: nat)
    ensures |Units(b, n)| == n
  {
    if n == 0 {
      assert Units(b, n) == {};
    } else {
      UnitsCard(b, n - 1);
      assert Units(b, n) == Units(b, n - 1) + {b + n - 1};
    }
  }

  lemma UnitIn(ring: seq<nat>, size: map<nat, nat>, live: set<nat>, owner: map<nat, nat>, b: nat, u: nat)
    requires Owned(ring, size, live, owner) && IsBlock(ring, live, b) && b in size
    ensures u in owner && owner[u] == b <==> u in Units(b, size[b])
  {
    assert Covers(size, owner, b);
  }

  lemma OneBlock(ring: seq<nat>, size: map<nat, nat>, live: set<nat>, owner: map<nat, nat>, bs: set<nat>, b: nat)
    requires Owned(ring, size, live, owner) && b in bs && IsBlock(ring, live, b) && b in size
    ensures |UnitsOf(owner, bs)| == |UnitsOf(owner, bs - {b})| + |Units(b, size[b])|
  {
    hide Owned, IsBlock;
    forall u: nat ensures u in owner && owner[u] == b <==> u in Units(b, size[b]) {
      UnitIn(ring, size, live, owner, b, u);
    }
    UnionCard(UnitsOf(owner, bs - {b}), Units(b, size[b]));
    assert UnitsOf(owner, bs) == UnitsOf(owner, bs - {b}) + Units(b, size[b]);
  }

  lemma {:induction false} TotalCounts(ring: seq<nat>, size: map<nat, nat>, live: set<nat>, owner: map<nat, nat>,
                                       bs: set<nat>)
    requires Owned(ring, size, live, owner) && forall b | b in bs :: IsBlock(ring, live, b) && b in size
    ensures |UnitsOf(owner, bs)| == Total(bs, size)
  {
    if bs == {} {
      assert UnitsOf(owner, bs) == {};
    } else {
      var b := Pick(bs);
      TotalCounts(ring, size, live, owner, bs - {b});
      UnitsCard(b, size[b]);
      OneBlock(ring, size, live, owner, bs, b);
    }
  }

  ghost function FreeBlocks(ring: seq<nat>): (bs: set<nat>) { set b | b in ring && b != BASE }

  lemma BlockSized(ring: seq<nat>, size: map<nat, nat>, live: set<nat>, owner: map<nat, nat>, b: nat)
    requires Owned(ring, size, live, owner) && IsBlock(ring, live, b)
    ensures b in size
  {
    assert Covers(size, owner, b);
  }

  lemma FreeOrLive(ring: seq<nat>, size: map<nat, nat>, live: set<nat>, owner: map<nat, nat>)
    requires Owned(ring, size, live, owner)
    ensures UnitsOf(owner, FreeBlocks(ring)) !! UnitsOf(owner, live)
    ensures owner.Keys == UnitsOf(owner, FreeBlocks(ring)) + UnitsOf(owner, live)
  {
    hide Covers;
  }

  /** The sizes of the free and of the live blocks add up to the units obtained from sbrk. */
  lemma UnitsConserved(ring: seq<nat>, size: map<nat, nat>, ptr: map<nat, nat>, live: set<nat>, owner: map<nat, nat>)
    requires HeapOk(ring, size, ptr, live, owner, {})
    ensures forall b | b in FreeBlocks(ring) + live :: b in size
    ensures Total(FreeBlocks(ring), size) + Total(live, size) == |owner|
  {
    hide Links, Ordered, Separate, Owned, Total;
    var f := FreeBlocks(ring);
    forall b | b in f + live ensures b in size && IsBlock(ring, live, b) {
      BlockSized(ring, size, live, owner, b);
    }
    TotalCounts(ring, size, live, owner, f);
    TotalCounts(ring, size, live, owner, live);
    FreeOrLive(ring, size, live, owner);
    UnionCard(UnitsOf(owner, f), UnitsOf(owner, live));
    assert owner.Keys == UnitsOf(owner, f) + UnitsOf(owner, live);
    assert |owner| == |owner.Keys|;
  }

  // ---------------------------------------------------------------- the allocator

  class Heap {
    var size: map<nat, nat>          // s.size of the header at an address
    var ptr: map<nat, nat>           // s.ptr of the header at an address
    var freep: nat
    ghost var ring: seq<nat>         // the free list from base on
    ghost var live: set<nat>         // headers of the blocks handed out
    ghost var owner: map<nat, nat>   // for each unit obtained from sbrk, its block
    ghost var brk: nat               // everything obtained lies below

    ghost predicate Valid()
      reads this
    {
      && BASE < brk && (forall u | u in owner :: u < brk)
      && if freep == NULL then live == {} && owner == map[]
         else freep in ring && HeapOk(ring, size, ptr, live, owner, {})
    }

    /** Live blocks keep their place and size. */
    twostate predicate LiveKept(gone: set<nat>)
      reads this
    {
      forall b | b in old(live) && b !in gone :: b in live && b in size && b in old(size) && size[b] == old(size)[b]
    }

    constructor ()
      ensures Valid() && live == {} && owner == map[]
    {
      size, ptr, freep := map[], map[], NULL;
      ring, live, owner, brk := [], {}, map[], BASE + 1;
    }

    /** free's search: the ring block after which bp belongs. */
    method FindSlot(bp: nat) returns (p: nat, ghost k: nat)
      requires Valid() && bp in live
      ensures freep != NULL && IsSlot(ring, k, bp) && p == ring[k] && p != NULL
    {
      hide Links, Ordered, Separate, Owned;
      assert freep != NULL;
      LiveCovered(ring, size, live, owner, bp);
      OrderedStart(ring, size);
      k := SlotExists(ring, size, bp, 0);
      p := freep;
      ghost var i := IndexIn(ring, freep);
      StopExactly(ring, size, ptr, k, i, bp);
      while !(bp > p && bp < ptr[p])
        invariant 0 <= i < |ring| && p == ring[i]
        invariant p in ptr && ptr[p] == ring[Next(|ring|, i)]
        invariant (p < bp < ptr[p] || (p >= ptr[p] && (p < bp || bp < ptr[p]))) <==> i == k
        decreases Dist(|ring|, i, k)
      {
        if p >= ptr[p] && (bp > p || bp < ptr[p]) {
          break;
        }
        p := ptr[p];
        i := Next(|ring|, i);
        StopExactly(ring, size, ptr, k, i, bp);
      }
      if k > 0 {
        OrderedAt(ring, size, 0, k);
      }
    }

    /** free: the block goes back to the ring, merged with the neighbours it touches. */
    method Free(ap: nat)
      requires Valid() && ap >= 1 && ap - 1 in live
      modifies this
      ensures Valid() && freep != NULL
      ensures live == old(live) - {ap - 1} && owner.Keys == old(owner.Keys) && brk == old(brk)
      ensures LiveKept({ap - 1})
      ensures ap - 1 in old(size) && freep in size && freep in ptr && ptr[freep] in size
      ensures size[freep] >= old(size)[ap - 1] || size[ptr[freep]] >= old(size)[ap - 1]
    {
      hide HeapOk, Coalesced;
      var bp := ap - 1;
      var p, k := FindSlot(bp);
      ghost var size0, ptr0 := size, ptr;
      ghost var ring1, owner1 := Freed(ring, size, ptr, live, owner, k, bp);
      CoalescedIs(size, ptr, p, bp);
      if bp + size[bp] == ptr[p] {
        size := size[bp := size[bp] + size[ptr[p]]];
        ptr := ptr[bp := ptr[ptr[p]]];
      } else {
        ptr := ptr[bp := ptr[p]];
      }
      if p + size[p] == bp {
        size := size[p := size[p] + size[bp]];
        ptr := ptr[p := ptr[bp]];
      } else {
        ptr := ptr[p := bp];
      }
      assert (size, ptr) == Coalesced(size0, ptr0, p, bp);
      freep := p;
      ring, live, owner := ring1, live - {bp}, owner1;
    }

    /** morecore: fresh units join the ring. sbrk's answer is the argument `grant`. The heap is
        sound afterwards unless sbrk granted a size that its int argument had changed; then the
        block would not be memory of the process, and nothing is promised. */
    method Morecore(nunits: nat, grant: nat) returns (p: nat, sound: bool)
      requires Valid() && freep != NULL && nunits >= 1 && (grant == NULL || grant >= brk)
      modifies this
      ensures sound <==> grant == NULL || AsInt(Asked(nunits) * UNIT) == Asked(nunits) * UNIT
      ensures sound ==> Valid() && freep != NULL && live == old(live) && LiveKept({})
      ensures sound ==> p == (if grant == NULL then NULL else freep)
      ensures sound ==>
              owner.Keys == old(owner.Keys) +
                      (if grant == NULL then {} else Region(grant, Asked(nunits)).Keys)
      ensures sound && p != NULL ==> freep in size && freep in ptr && ptr[freep] in size
      ensures sound && p != NULL ==> size[freep] >= nunits || size[ptr[freep]] >= nunits
    {
      hide HeapOk, Region, AsInt;
      var nu := nunits;
      if nu < MORE {
        nu := MORE;
      }
      LiveSized(ring, size, ptr, live, owner);
      if grant == NULL {
        return NULL, true;
      }
      if AsInt(nu * UNIT) != nu * UNIT {
        return NULL, false;
      }
      AddRegion(ring, size, ptr, live, owner, brk, grant, nu, owner + Region(grant, nu));
      RegionBelow(grant, nu);
      size := size[grant := nu];
      live, owner, brk := live + {grant}, owner + Region(grant, nu), grant + nu;
      Free(grant + 1);
      return freep, true;
    }

    /** Hand out n units of the ring block p, whose predecessor is prevp. */
    method Take(prevp: nat, p: nat, n: nat, ghost i: nat) returns (ap: nat)
      requires Valid() && freep != NULL && 1 <= i < |ring| && p == ring[i] && prevp == ring[i - 1]
      requires p in size && size[p] >= n >= 1
      modifies this
      ensures Valid() && freep == prevp && freep != NULL && brk == old(brk)
      ensures ap >= 1 && ap - 1 !in old(live) && live == old(live) + {ap - 1}
      ensures owner.Keys == old(owner.Keys) && LiveKept({})
      ensures ap - 1 in size && size[ap - 1] == n
    {
      hide Links, Ordered, Separate, Owned;
      var q := p;
      ghost var size0, live0 := size, live;
      LiveSized(ring, size, ptr, live, owner);
      LinkKnown(ring, ptr, i);
      LinkKnown(ring, ptr, i - 1);
      if size[p] == n {
        TakeWhole(ring, size, ptr, live, owner, i);
        RemovedAt(ring, i);
        ptr := ptr[prevp := ptr[p]];
        ring := Removed(ring, i);
        assert ring[i - 1] == prevp;
      } else {
        TakeTail(ring, size, ptr, live, owner, i, n);
        size := size[p := size[p] - n];
        q := p + size[p];
        size := size[q := n];
        owner := Carved(owner, p, q);
      }
      live := live + {q};
      freep := prevp;
      Positive(old(ring), size0, i - 1);
      return q + 1;
    }

    /** malloc's walk round the ring, with at most one call of morecore. */
    method Search(n: nat, grant: nat) returns (ap: nat, asked: bool, sound: bool)
      requires Valid() && freep != NULL && n >= 1 && (grant == NULL || grant >= brk)
      modifies this
      ensures asked <==> NoFit(old(freep), old(ring), old(size), n)
      ensures sound <==> !asked || grant == NULL || AsInt(Asked(n) * UNIT) == Asked(n) * UNIT
      ensures sound ==> Valid() && LiveKept({})
      ensures sound ==> (ap == NULL <==> asked && grant == NULL)
      ensures sound && ap == NULL ==> live == old(live)
      ensures sound && ap != NULL ==> ap - 1 !in old(live) && live == old(live) + {ap - 1}
      ensures sound && ap != NULL ==> ap - 1 in size && size[ap - 1] == n
      ensures sound ==>
                owner.Keys == old(owner.Keys) +
                      (if asked && grant != NULL then Region(grant, Asked(n)).Keys else {})
    {
      hide HeapOk, Region, Scanned, Asked, AsInt, NoFit, Dist, Next;
      LiveSized(ring, size, ptr, live, owner);
      asked, sound := false, true;
      ghost var f, w := IndexIn(ring, freep), 0;
      ghost var i := Next(|ring|, f);
      StepTo(ring, size, ptr, live, owner, f);
      ScanStart(ring, size, n, f);
      NextIs(|ring|, f);
      var prevp := freep;
      var p := ptr[prevp];
      while true
        invariant Valid() && freep != NULL && 0 <= f < |ring| && freep == ring[f]
        invariant 0 <= i < |ring| && p == ring[i] && (i > 0 ==> prevp == ring[i - 1])
        invariant !asked ==> unchanged(this) && Scanned(ring, size, n, f, i)
        invariant sound && (asked ==> AsInt(Asked(n) * UNIT) == Asked(n) * UNIT)
        invariant asked ==>
                grant != NULL && NoFit(old(freep), old(ring), old(size), n) && live == old(live) && LiveKept({})
        invariant asked ==> owner.Keys == old(owner.Keys) + Region(grant, Asked(n)).Keys
        invariant asked ==> 0 <= w < |ring| && ring[w] in size && size[ring[w]] >= n && Ahead(|ring|, i, w, f)
        decreases if asked then 0 else 1, Dist(|ring|, i, f)
      {
        StepTo(ring, size, ptr, live, owner, i);
        if size[p] >= n {
          if !asked {
            Fits(freep, ring, size, n, i);
          }
          ap := Take(prevp, p, n, i);
          return;
        }
        if !asked {
          ScanStep(ring, size, n, f, i);
        } else {
          AheadStep(|ring|, i, w, f);
        }
        if p == freep {
          Distinct(ring, size, ptr, live, owner, i, f);
          assert !asked;
          AllSmall(freep, ring, size, n);
          asked := true;
          p, sound := Morecore(n, grant);
          if !sound || p == NULL {
            return NULL, asked, sound;
          }
          f := IndexIn(ring, freep);
          i := f;
          StepTo(ring, size, ptr, live, owner, f);
          w := if size[freep] >= n then f else Next(|ring|, f);
          AheadStart(|ring|, f);
        }
        prevp := p;
        p := ptr[p];
        NextIs(|ring|, i);
        i := Next(|ring|, i);
      }
    }

    /** malloc of any uint. sbrk is asked exactly when no free block is large enough, and at most
        once; the heap stays sound exactly unless it then grants more than 2^31 - 32 bytes. */
    method Malloc(nbytes: nat, grant: nat) returns (ap: nat, asked: bool, sound: bool)
      requires Valid() && nbytes < 0x1_0000_0000 && (grant == NULL || grant >= brk)
      modifies this
      ensures asked <==> NoFit(old(freep), old(ring), old(size), UnitsFor(nbytes))
      ensures sound <==> !asked || grant == NULL || nbytes <= LARGEST
      ensures sound ==> Valid() && LiveKept({})
      ensures sound ==> (ap == NULL <==> asked && grant == NULL)
      ensures sound && ap == NULL ==> live == old(live)
      ensures sound && ap != NULL ==> ap - 1 !in old(live) && live == old(live) + {ap - 1}
      ensures sound && ap != NULL ==> ap - 1 in size && size[ap - 1] == UnitsFor(nbytes)
      ensures sound ==>
        owner.Keys == old(owner.Keys) +
                      (if asked && grant != NULL then Region(grant, Asked(UnitsFor(nbytes))).Keys else {})
    {
      hide HeapOk, Region, UnitsFor, Asked, AsInt;
      var n := UnitsFor(nbytes);
      SbrkArgument(nbytes);
      if freep == NULL {
        Fresh(size, ptr);
        ptr, size, freep := ptr[BASE := BASE], size[BASE := 0], BASE;
        ring := [BASE];
      } else {
        LiveSized(ring, size, ptr, live, owner);
      }
      ap, asked, sound := Search(n, grant);
    }
  }
}
