/** The block cache of kernel/bio.c: NBUF buffers on a doubly linked ring that is kept
    in order of last release, in front of a block device. */
module BufferCache {
  import opened Blocks
  import opened Common

  const NBUF := 30
  const HEAD := NBUF        // bcache.head, the ring's sentinel
  const ROOTDEV := 1        // the one device the kernel runs with

  datatype Buf = Buf(valid: bool, dev: nat, blockno: nat, locked: bool,
                     refcnt: nat, prev: nat, next: nat, data: Block)

  // ---------------------------------------------------------------- the ring

  /** Position k of the ring when the buffers are met in `order`, most recent first;
      the sentinel sits on both ends. */
  ghost function At(order: seq<nat>, k: int): (b: nat)
  {
    if 0 <= k < |order| then order[k] else HEAD
  }

  /** The prev and next links are exactly the cyclic sequence HEAD, order[0], order[1], ... */
  ghost predicate Linked(bufs: seq<Buf>, order: seq<nat>)
    requires |bufs| == NBUF + 1
  {
    && (forall k | 0 <= k < |order| :: order[k] < NBUF)
    && (forall i, j | 0 <= i < j < |order| :: order[i] != order[j])
    && (forall k | -1 <= k < |order| :: bufs[At(order, k)].next == At(order, k + 1))
    && (forall k | 0 <= k <= |order| :: bufs[At(order, k)].prev == At(order, k - 1))
  }

  function SetNext(bufs: seq<Buf>, b: nat, x: nat): (r: seq<Buf>)
    requires b < |bufs|
  {
    bufs[b := bufs[b].(next := x)]
  }

  function SetPrev(bufs: seq<Buf>, b: nat, x: nat): (r: seq<Buf>)
    requires b < |bufs|
  {
    bufs[b := bufs[b].(prev := x)]
  }

  /** The two assignments that take b out of the ring. */
  function Unlink(bufs: seq<Buf>, b: nat): (r: seq<Buf>)
    requires b < |bufs| && bufs[b].next < |bufs| && bufs[b].prev < |bufs|
  {
    var bufs1 := SetPrev(bufs, bufs[b].next, bufs[b].prev);
    SetNext(bufs1, bufs1[b].prev, bufs1[b].next)
  }

  /** The four assignments that put b right after the sentinel. */
  function PushFront(bufs: seq<Buf>, b: nat): (r: seq<Buf>)
    requires b < |bufs| && HEAD < |bufs| && bufs[HEAD].next < |bufs| && b != HEAD
  {
    var bufs1 := SetPrev(SetNext(bufs, b, bufs[HEAD].next), b, HEAD);
    SetNext(SetPrev(bufs1, bufs1[HEAD].next, b), HEAD, b)
  }

  /** Two buffer tables that differ in their links only. */
  ghost predicate SameButLinks(s: seq<Buf>, t: seq<Buf>)
  {
    && |s| == |t|
    && forall i | 0 <= i < |s| :: t[i] == s[i].(prev := t[i].prev, next := t[i].next)
  }

  /** What the neighbours of position k of the ring are. */
  lemma LinksAt(bufs: seq<Buf>, order: seq<nat>, k: int)
    requires |bufs| == NBUF + 1 && Linked(bufs, order) && -1 <= k <= |order|
    ensures At(order, k) <= HEAD
    ensures k < |order| ==> bufs[At(order, k)].next == At(order, k + 1) <= HEAD
    ensures 0 <= k ==> bufs[At(order, k)].prev == At(order, k - 1) <= HEAD
  {
  }

  /** Dropping position k shifts the later positions down by one. */
  lemma AtWithout(order: seq<nat>, k: nat, j: int)
    requires k < |order| && -1 <= j < |order|
    ensures At(order[..k] + order[k+1..], j) == At(order, if j < k then j else j + 1)
  {
  }

  lemma UnlinkAt(bufs: seq<Buf>, order: seq<nat>, k: nat, j: int)
    requires |bufs| == NBUF + 1 && Linked(bufs, order) && k < |order|
    requires bufs[order[k]].next <= HEAD && bufs[order[k]].prev <= HEAD
    requires -1 <= j <= |order| && j != k
    ensures var r := Unlink(bufs, order[k]);
            && At(order, j) <= HEAD
            && (j < |order| ==> r[At(order, j)].next == At(order, if j + 1 == k then k + 1 else j + 1))
            && (0 <= j ==> r[At(order, j)].prev == At(order, if j - 1 == k then k - 1 else j - 1))
  {
    LinksAt(bufs, order, k);
    LinksAt(bufs, order, j);
  }

  lemma UnlinkLinked(bufs: seq<Buf>, order: seq<nat>, k: nat)
    requires |bufs| == NBUF + 1 && Linked(bufs, order) && k < |order|
    ensures bufs[order[k]].next <= HEAD && bufs[order[k]].prev <= HEAD
    ensures Linked(Unlink(bufs, order[k]), order[..k] + order[k+1..])
    ensures SameButLinks(bufs, Unlink(bufs, order[k]))
  {
    LinksAt(bufs, order, k);
    var r, order1 := Unlink(bufs, order[k]), order[..k] + order[k+1..];
    forall j | -1 <= j < |order|
      ensures && At(order1, j) <= HEAD
              && (j < |order1| ==> r[At(order1, j)].next == At(order1, j + 1))
              && (0 <= j ==> r[At(order1, j)].prev == At(order1, j - 1))
    {
      AtWithout(order, k, j);
      if j < |order1| { AtWithout(order, k, j + 1); }
      if 0 <= j { AtWithout(order, k, j - 1); }
      UnlinkAt(bufs, order, k, if j < k then j else j + 1);
    }
  }

  lemma PushFrontLinked(bufs: seq<Buf>, order: seq<nat>, b: nat)
    requires |bufs| == NBUF + 1 && Linked(bufs, order) && b < NBUF && b !in order
    ensures bufs[HEAD].next == At(order, 0) <= HEAD
    ensures Linked(PushFront(bufs, b), [b] + order)
    ensures SameButLinks(bufs, PushFront(bufs, b))
  {
    assert bufs[At(order, -1)].next == At(order, 0);
    var r := PushFront(bufs, b);
    var order1 := [b] + order;
    assert forall j | 0 <= j < |order| :: order[j] in order;
    forall j | -1 <= j < |order1| ensures r[At(order1, j)].next == At(order1, j + 1) {
      if j >= 0 { assert At(order1, j + 1) == At(order, j); }
      if j >= 1 { assert At(order1, j) == At(order, j - 1); }
    }
    forall j | 0 <= j <= |order1| ensures r[At(order1, j)].prev == At(order1, j - 1) {
      if j >= 1 { assert At(order1, j) == At(order, j - 1); }
      if j >= 2 { assert At(order1, j - 1) == At(order, j - 2); }
    }
  }

  /** Changing fields other than prev and next keeps the ring. */
  lemma KeepLinked(s: seq<Buf>, t: seq<Buf>, order: seq<nat>)
    requires |s| == |t| == NBUF + 1 && Linked(s, order)
    requires forall i | 0 <= i < |s| :: t[i].prev == s[i].prev && t[i].next == s[i].next
    ensures Linked(t, order)
  {
  }

  // ---------------------------------------------------------------- the invariant

  /** The ring is a permutation of all NBUF buffers, sorted by the time of the last move to the front. */
  ghost predicate RingOk(bufs: seq<Buf>, order: seq<nat>, stamp: seq<nat>, clock: nat)
  {
    && |bufs| == NBUF + 1 && |order| == NBUF && |stamp| == NBUF
    && Linked(bufs, order)
    && (forall b | 0 <= b < NBUF :: b in order)
    && (forall b | 0 <= b < NBUF :: stamp[b] < clock)
    && (forall i, j | 0 <= i < j < NBUF :: stamp[order[i]] > stamp[order[j]])
  }

  /** A block of ROOTDEV is carried by the one buffer slot names, and by no other. */
  ghost predicate KeysOk(bufs: seq<Buf>, slot: map<nat, nat>, size: nat)
  {
    && |bufs| == NBUF + 1
    && (forall b | 0 <= b < NBUF ::
          || (bufs[b].dev == ROOTDEV && bufs[b].blockno in slot && slot[bufs[b].blockno] == b)
          || (bufs[b].dev == 0 && bufs[b].refcnt == 0))
    && (forall n | n in slot ::
          && n < size && slot[n] < NBUF
          && bufs[slot[n]].dev == ROOTDEV && bufs[slot[n]].blockno == n)
  }

  /** The reader's view: a valid buffer is authoritative, and where the view
      differs from the disk a referenced buffer holds the difference. */
  ghost predicate ViewOk(bufs: seq<Buf>, slot: map<nat, nat>, disk: Disk, view: Disk)
    requires KeysOk(bufs, slot, |disk|)
  {
    && |view| == |disk|
    && (forall n | n in slot && bufs[slot[n]].valid :: view[n] == bufs[slot[n]].data)
    && (forall n | 0 <= n < |disk| && view[n] != disk[n] ::
          n in slot && bufs[slot[n]].valid && bufs[slot[n]].refcnt > 0)
  }

  /** refs counts the references of each block, held is the set of locked blocks. */
  ghost predicate RefsOk(bufs: seq<Buf>, slot: map<nat, nat>, refs: seq<nat>, held: set<nat>)
    requires KeysOk(bufs, slot, |refs|)
  {
    && (forall n | 0 <= n < |refs| :: refs[n] == if n in slot then bufs[slot[n]].refcnt else 0)
    && (forall n | n in held :: n in slot && bufs[slot[n]].refcnt > 0)
    && (forall n | n in slot :: bufs[slot[n]].locked == (n in held))
  }

  /** The buffers handed out are carriers of their block, locked and valid. */
  ghost predicate HandOk(bufs: seq<Buf>, slot: map<nat, nat>, hand: map<nat, nat>, held: set<nat>)
  {
    forall n | n in hand ::
      n in held && n in slot && slot[n] == hand[n] && hand[n] < |bufs| && bufs[hand[n]].valid
  }

  /** b is unreferenced and was moved to the front longest ago of all unreferenced buffers. */
  ghost predicate IsVictim(bufs: seq<Buf>, stamp: seq<nat>, b: nat)
  {
    && |stamp| == NBUF < |bufs| && b < NBUF && bufs[b].refcnt == 0
    && forall c | 0 <= c < NBUF && c != b && bufs[c].refcnt == 0 :: stamp[b] < stamp[c]
  }

  /** Blocks whose buffer may not be recycled. */
  ghost function BusyOf(refs: seq<nat>): (s: set<nat>)
  {
    set n | 0 <= n < |refs| && refs[n] > 0
  }

  // ---------------------------------------------------------------- preservation

  lemma KeepRing(s: seq<Buf>, t: seq<Buf>, order: seq<nat>, stamp: seq<nat>, clock: nat)
    requires RingOk(s, order, stamp, clock) && |s| == |t|
    requires forall i | 0 <= i < |s| :: t[i].prev == s[i].prev && t[i].next == s[i].next
    ensures RingOk(t, order, stamp, clock)
  {
    KeepLinked(s, t, order);
  }

  lemma KeepContents(s: seq<Buf>, t: seq<Buf>, slot: map<nat, nat>,
                     disk: Disk, view: Disk, refs: seq<nat>, held: set<nat>, hand: map<nat, nat>)
    requires |refs| == |disk| && SameButLinks(s, t)
    requires KeysOk(s, slot, |disk|) && ViewOk(s, slot, disk, view) && RefsOk(s, slot, refs, held)
    requires HandOk(s, slot, hand, held)
    ensures KeysOk(t, slot, |disk|) && ViewOk(t, slot, disk, view) && RefsOk(t, slot, refs, held)
    ensures HandOk(t, slot, hand, held)
  {
    forall n | n in slot ensures t[slot[n]] == s[slot[n]].(prev := t[slot[n]].prev, next := t[slot[n]].next) {
    }
  }

  /** Changing the count and the lock of one carried buffer. */
  lemma Touch(s: seq<Buf>, b: nat, x: Buf, slot: map<nat, nat>,
              disk: Disk, view: Disk, refs: seq<nat>, held: set<nat>)
    requires |refs| == |disk| && b < NBUF
    requires KeysOk(s, slot, |disk|) && ViewOk(s, slot, disk, view) && RefsOk(s, slot, refs, held)
    requires s[b].dev == ROOTDEV && x == s[b].(refcnt := x.refcnt, locked := x.locked)
    requires x.locked ==> x.refcnt > 0
    requires x.refcnt > 0 || view[s[b].blockno] == disk[s[b].blockno]
    ensures var n, t := s[b].blockno, s[b := x];
            && KeysOk(t, slot, |disk|) && ViewOk(t, slot, disk, view)
            && RefsOk(t, slot, refs[n := x.refcnt], if x.locked then held + {n} else held - {n})
  {
  }

  lemma KeepHand(s: seq<Buf>, t: seq<Buf>, slot: map<nat, nat>, hand: map<nat, nat>, held: set<nat>)
    requires HandOk(s, slot, hand, held) && |s| == |t|
    requires forall b | 0 <= b < |s| && s[b].valid :: t[b].valid
    ensures HandOk(t, slot, hand, held)
  {
  }

  lemma ShrinkHand(s: seq<Buf>, slot: map<nat, nat>, hand: map<nat, nat>, held: set<nat>, n: nat)
    requires HandOk(s, slot, hand, held)
    ensures HandOk(s, slot, hand - {n}, held)
  {
  }

  /** Reading an invalid buffer from disk. */
  lemma Fill(s: seq<Buf>, b: nat, slot: map<nat, nat>,
             disk: Disk, view: Disk, refs: seq<nat>, held: set<nat>)
    requires |refs| == |disk| && b < NBUF && s != []
    requires KeysOk(s, slot, |disk|) && ViewOk(s, slot, disk, view) && RefsOk(s, slot, refs, held)
    requires s[b].dev == ROOTDEV && !s[b].valid
    ensures var n, t := s[b].blockno, s[b := s[b].(data := disk[s[b].blockno], valid := true)];
            && view[n] == disk[n]
            && KeysOk(t, slot, |disk|) && ViewOk(t, slot, disk, view) && RefsOk(t, slot, refs, held)
  {
  }

  /** The holder of a buffer changing its bytes. */
  lemma Overwrite(s: seq<Buf>, b: nat, data: Block, slot: map<nat, nat>,
                  disk: Disk, view: Disk, refs: seq<nat>, held: set<nat>)
    requires |refs| == |disk| && b < NBUF && KeysOk(s, slot, |disk|)
    requires ViewOk(s, slot, disk, view) && RefsOk(s, slot, refs, held)
    requires s[b].dev == ROOTDEV && s[b].valid && s[b].blockno in held
    ensures var t, view1 := s[b := s[b].(data := data)], view[s[b].blockno := data];
            && KeysOk(t, slot, |disk|) && ViewOk(t, slot, disk, view1) && RefsOk(t, slot, refs, held)
  {
  }

  /** Writing a valid buffer to the disk. */
  lemma WriteThrough(s: seq<Buf>, b: nat, slot: map<nat, nat>, disk: Disk, view: Disk)
    requires b < NBUF && KeysOk(s, slot, |disk|) && ViewOk(s, slot, disk, view)
    requires s[b].dev == ROOTDEV && s[b].valid
    ensures s[b].blockno < |disk| && view[s[b].blockno] == s[b].data
    ensures ViewOk(s, slot, disk[s[b].blockno := s[b].data], view)
  {
    assert slot[s[b].blockno] == b;
  }

  /** Giving an unreferenced buffer to a block that is not cached. */
  lemma Reuse(s: seq<Buf>, b: nat, blockno: nat, slot: map<nat, nat>,
              disk: Disk, view: Disk, refs: seq<nat>, held: set<nat>)
    requires |refs| == |disk| && b < NBUF && blockno < |disk| && blockno !in slot
    requires KeysOk(s, slot, |disk|) && ViewOk(s, slot, disk, view) && RefsOk(s, slot, refs, held)
    requires s[b].refcnt == 0
    ensures var t, slot1 := s[b := Reused(s[b], blockno)], Assign(slot, s[b], b, blockno);
            && KeysOk(t, slot1, |disk|) && ViewOk(t, slot1, disk, view)
            && RefsOk(t, slot1, refs[blockno := refs[blockno] + 1], held + {blockno})
  {
    ReuseKeys(s, b, blockno, slot, |disk|);
    ReuseView(s, b, blockno, slot, disk, view);
    ReuseRefs(s, b, blockno, slot, refs, held);
  }

  lemma ReuseKeys(s: seq<Buf>, b: nat, blockno: nat, slot: map<nat, nat>, size: nat)
    requires b < NBUF && blockno < size && blockno !in slot && KeysOk(s, slot, size)
    ensures KeysOk(s[b := Reused(s[b], blockno)], Assign(slot, s[b], b, blockno), size)
  {
  }

  lemma ReuseView(s: seq<Buf>, b: nat, blockno: nat, slot: map<nat, nat>, disk: Disk, view: Disk)
    requires b < NBUF && blockno < |disk| && blockno !in slot
    requires KeysOk(s, slot, |disk|) && ViewOk(s, slot, disk, view) && s[b].refcnt == 0
    requires KeysOk(s[b := Reused(s[b], blockno)], Assign(slot, s[b], b, blockno), |disk|)
    ensures ViewOk(s[b := Reused(s[b], blockno)], Assign(slot, s[b], b, blockno), disk, view)
  {
  }

  lemma ReuseRefs(s: seq<Buf>, b: nat, blockno: nat, slot: map<nat, nat>, refs: seq<nat>, held: set<nat>)
    requires b < NBUF && blockno < |refs| && blockno !in slot
    requires KeysOk(s, slot, |refs|) && RefsOk(s, slot, refs, held) && s[b].refcnt == 0
    requires KeysOk(s[b := Reused(s[b], blockno)], Assign(slot, s[b], b, blockno), |refs|)
    ensures RefsOk(s[b := Reused(s[b], blockno)], Assign(slot, s[b], b, blockno),
                   refs[blockno := refs[blockno] + 1], held + {blockno})
  {
  }

  lemma ReuseHand(s: seq<Buf>, b: nat, blockno: nat, slot: map<nat, nat>,
                  refs: seq<nat>, hand: map<nat, nat>, held: set<nat>)
    requires b < NBUF && blockno < |refs| && blockno !in slot
    requires KeysOk(s, slot, |refs|) && RefsOk(s, slot, refs, held) && HandOk(s, slot, hand, held)
    requires s[b].refcnt == 0
    ensures HandOk(s[b := Reused(s[b], blockno)], Assign(slot, s[b], b, blockno), hand, held + {blockno})
  {
  }

  function Reused(was: Buf, blockno: nat): (r: Buf)
  {
    was.(dev := ROOTDEV, blockno := blockno, valid := false, refcnt := 1, locked := true)
  }

  /** slot after buffer b, which was `was`, is given to blockno. */
  ghost function Assign(slot: map<nat, nat>, was: Buf, b: nat, blockno: nat): (r: map<nat, nat>)
  {
    (if was.dev == ROOTDEV then slot - {was.blockno} else slot)[blockno := b]
  }

  /** Unlinking b and pushing it to the front keeps the ring and makes b the latest. */
  lemma Front(s: seq<Buf>, order: seq<nat>, stamp: seq<nat>, clock: nat, b: nat) returns (k: nat)
    requires RingOk(s, order, stamp, clock) && b < NBUF
    ensures |s| == NBUF + 1 && |order| == |stamp| == NBUF && k < NBUF && order[k] == b
    ensures s[b].next <= HEAD && s[b].prev <= HEAD && Unlink(s, b)[HEAD].next <= HEAD
    ensures var t, rest := PushFront(Unlink(s, b), b), order[..k] + order[k+1..];
            && |t| == NBUF + 1 && SameButLinks(s, t)
            && RingOk(t, [b] + rest, stamp[b := clock], clock + 1)
  {
    k := IndexIn(order, b);
    var rest := order[..k] + order[k+1..];
    UnlinkLinked(s, order, k);
    PushFrontLinked(Unlink(s, b), rest, b);
    FrontOrder(order, stamp, clock, k);
  }

  lemma FrontOrder(order: seq<nat>, stamp: seq<nat>, clock: nat, k: nat)
    requires |order| == |stamp| == NBUF && k < NBUF
    requires forall k | 0 <= k < |order| :: order[k] < NBUF
    requires forall i, j | 0 <= i < j < |order| :: order[i] != order[j]
    requires forall b | 0 <= b < NBUF :: b in order
    requires forall b | 0 <= b < NBUF :: stamp[b] < clock
    requires forall i, j | 0 <= i < j < NBUF :: stamp[order[i]] > stamp[order[j]]
    ensures var order1, stamp1 := [order[k]] + (order[..k] + order[k+1..]), stamp[order[k] := clock];
            && (forall b | 0 <= b < NBUF :: b in order1)
            && (forall i, j | 0 <= i < j < NBUF :: stamp1[order1[i]] > stamp1[order1[j]])
  {
    var order1 := [order[k]] + (order[..k] + order[k+1..]);
    forall b | 0 <= b < NBUF ensures b in order1 {
      var i := IndexIn(order, b);
      assert order1[if i < k then i + 1 else if i == k then 0 else i] == b;
    }
  }

  /** With every buffer referenced, NBUF distinct blocks are busy. */
  lemma AllBusy(bufs: seq<Buf>, slot: map<nat, nat>, refs: seq<nat>, held: set<nat>)
    requires KeysOk(bufs, slot, |refs|) && RefsOk(bufs, slot, refs, held)
    requires forall b | 0 <= b < NBUF :: bufs[b].refcnt > 0
    ensures |BusyOf(refs)| >= NBUF
  {
    var s: set<nat> := {};
    for k := 0 to NBUF
      invariant |s| == k && s <= BusyOf(refs)
      invariant forall n | n in s :: n in slot && slot[n] < k
    {
      s := s + {bufs[k].blockno};
    }
    CardLe(s, BusyOf(refs));
  }

  // ---------------------------------------------------------------- the cache

  /** What callers see of the cache: the disk, what reads show, how often each block is
      referenced, the buffer handed out for each locked block, and the disk after each write. */
  datatype Abs = Abs(disk: Disk, view: Disk, refs: seq<nat>, hand: map<nat, nat>, trace: seq<Disk>)
  {
    ghost predicate Ok()
    {
      |disk| == |view| == |refs| && forall n | n in hand :: n < |refs| && refs[n] > 0
    }

    /** Can bread return, rather than panic with "bget: no buffers"? */
    ghost predicate Room(n: nat)
    {
      n < |refs| && (refs[n] > 0 || |BusyOf(refs)| < NBUF)
    }

    ghost function Take(n: nat, b: nat): (r: Abs)
      requires n < |refs|
    {
      this.(refs := refs[n := refs[n] + 1], hand := hand[n := b])
    }

    ghost function Drop(n: nat): (r: Abs)
      requires n < |refs| && refs[n] > 0
    {
      this.(refs := refs[n := refs[n] - 1], hand := hand - {n})
    }

    ghost function Edited(n: nat, data: Block): (r: Abs)
      requires n < |view|
    {
      this.(view := view[n := data])
    }

    ghost function Written(n: nat): (r: Abs)
      requires n < |disk| == |view|
    {
      this.(disk := disk[n := view[n]], trace := trace + [disk[n := view[n]]])
    }

    ghost function Pinned(n: nat): (r: Abs)
      requires n < |refs|
    {
      this.(refs := refs[n := refs[n] + 1])
    }

    ghost function Unpinned(n: nat): (r: Abs)
      requires n < |refs| && refs[n] > 0
    {
      this.(refs := refs[n := refs[n] - 1])
    }
  }

  /** The block cache together with the disk behind it. */
  class Bcache {
    var bufs: seq<Buf>              // bcache.buf, and bcache.head at index HEAD
    var disk: Disk                  // what the device holds

    ghost var order: seq<nat>       // the ring, most recently released buffer first
    ghost var stamp: seq<nat>       // when each buffer was last moved to the front
    ghost var clock: nat
    ghost var slot: map<nat, nat>   // the buffer that carries a block of ROOTDEV
    ghost var held: set<nat>        // blocks whose buffer is locked
    ghost var a: Abs

    /** The invariant every critical section keeps. */
    ghost predicate Inv()
      reads this
    {
      && |bufs| == NBUF + 1 && disk == a.disk && a.Ok()
      && RingOk(bufs, order, stamp, clock)
      && KeysOk(bufs, slot, |disk|)
      && ViewOk(bufs, slot, disk, a.view)
      && RefsOk(bufs, slot, a.refs, held)
      && HandOk(bufs, slot, a.hand, held)
    }

    /** Between calls, a locked buffer is one that bread has handed out. */
    ghost predicate Valid()
      reads this
    {
      Inv() && held == a.hand.Keys
    }

    /** Empty cache over a disk (binit), as after a boot. */
    constructor (d: Disk)
      ensures Valid() && a == Abs(d, d, seq(|d|, _ => 0), map[], [])
    {
      disk, a := d, Abs(d, d, seq(|d|, _ => 0), map[], []);
      slot, held := map[], {};
      var all := seq(NBUF + 1, i => Buf(false, 0, 0, false, 0, HEAD, HEAD, Zeros()));
      ghost var ring: seq<nat> := [];
      var b := 0;
      while b < NBUF
        invariant 0 <= b <= NBUF && |all| == NBUF + 1 && |ring| == b && Linked(all, ring)
        invariant forall c | 0 <= c < b :: ring[c] == b - 1 - c
        invariant forall c | 0 <= c < NBUF :: all[c].dev == 0 && all[c].refcnt == 0
      {
        PushFrontLinked(all, ring, b);
        all := PushFront(all, b);
        ring := [b] + ring;
        b := b + 1;
      }
      bufs, order, stamp, clock := all, ring, seq(NBUF, i => i), NBUF;
      forall c | 0 <= c < NBUF ensures c in ring {
        assert ring[NBUF - 1 - c] == c;
      }
    }

    /** bget: the locked buffer of a block, recycling the least recently used unreferenced
        buffer if the block is not cached. Waiting for the buffer's sleep lock is the
        caller's wait for `blockno !in held`; Room is the complement of "bget: no buffers". */
    method Bget(dev: nat, blockno: nat) returns (b: nat)
      requires Inv() && dev == ROOTDEV && blockno !in held && a.Room(blockno)
      modifies this`bufs, this`slot, this`held, this`a
      ensures Inv() && b < NBUF && blockno in slot && slot[blockno] == b
      ensures a == old(a).Pinned(blockno) && held == old(held) + {blockno}
      ensures blockno in old(slot) ==> slot == old(slot)
      ensures blockno !in old(slot) ==> IsVictim(old(bufs), stamp, b)
    {
      hide RingOk, KeysOk, ViewOk, RefsOk, HandOk;
      b := FindCached(dev, blockno);
      if b != HEAD {
        Acquire(b, blockno);
      } else {
        RoomMeans(blockno);
        b := FindUnused();
        Recycle(b, dev, blockno);
      }
    }

    /** Scan the ring for the buffer of a block; HEAD if there is none. */
    method FindCached(dev: nat, blockno: nat) returns (b: nat)
      requires Inv() && dev == ROOTDEV
      ensures b == HEAD ==> blockno !in slot
      ensures b != HEAD ==> b < NBUF && blockno in slot && slot[blockno] == b
    {
      LinksAt(bufs, order, -1);
      b := bufs[HEAD].next;
      ghost var k := 0;
      while b != HEAD && (bufs[b].dev != dev || bufs[b].blockno != blockno)
        invariant 0 <= k <= NBUF && b == At(order, k)
        invariant forall j | 0 <= j < k :: bufs[order[j]].dev != dev || bufs[order[j]].blockno != blockno
        decreases NBUF - k
      {
        LinksAt(bufs, order, k);
        b := bufs[b].next;
        k := k + 1;
      }
      if blockno in slot {
        ghost var i := IndexIn(order, slot[blockno]);
        assert k <= i;
      }
    }

    /** The least recently used unreferenced buffer, scanning the ring backwards. */
    method FindUnused() returns (b: nat)
      requires Inv() && |BusyOf(a.refs)| < NBUF
      ensures IsVictim(bufs, stamp, b)
    {
      LinksAt(bufs, order, NBUF);
      b := bufs[HEAD].prev;
      ghost var k := NBUF - 1;
      while b == HEAD || bufs[b].refcnt != 0
        invariant -1 <= k < NBUF && b == At(order, k)
        invariant forall j | k < j < NBUF :: bufs[order[j]].refcnt > 0
        decreases k
      {
        if b == HEAD {
          forall c | 0 <= c < NBUF ensures bufs[c].refcnt > 0 {
            ghost var i := IndexIn(order, c);
          }
          AllBusy(bufs, slot, a.refs, held);
          assert false;
        }
        LinksAt(bufs, order, k);
        b := bufs[b].prev;
        k := k - 1;
      }
      forall c | 0 <= c < NBUF && c != b && bufs[c].refcnt == 0 ensures stamp[b] < stamp[c] {
        ghost var i := IndexIn(order, c);
      }
    }

    /** b->refcnt++ on a cache hit, then the sleep lock. */
    method Acquire(b: nat, ghost n: nat)
      requires Inv() && b < NBUF && n in slot && slot[n] == b && n !in held
      modifies this`bufs, this`held, this`a
      ensures Inv() && a == old(a).Pinned(n) && held == old(held) + {n}
    {
      hide RingOk, KeysOk, ViewOk, RefsOk, HandOk;
      CarriedIs(b, n);
      Recount(b, n, bufs[b].(refcnt := bufs[b].refcnt + 1, locked := true));
      bufs := bufs[b := bufs[b].(refcnt := bufs[b].refcnt + 1, locked := true)];
      held := held + {n};
      a := a.Pinned(n);
    }

    /** Give an unreferenced buffer to a block that is not cached. */
    method Recycle(b: nat, dev: nat, blockno: nat)
      requires Inv() && b < NBUF && bufs[b].refcnt == 0
      requires dev == ROOTDEV && blockno < |disk| && blockno !in slot
      modifies this`bufs, this`held, this`slot, this`a
      ensures Inv() && a == old(a).Pinned(blockno) && held == old(held) + {blockno}
      ensures blockno in slot && slot[blockno] == b
    {
      hide RingOk, KeysOk, ViewOk, RefsOk, HandOk;
      Reuse(bufs, b, blockno, slot, disk, a.view, a.refs, held);
      ReuseHand(bufs, b, blockno, slot, a.refs, a.hand, held);
      KeepRing(bufs, bufs[b := Reused(bufs[b], blockno)], order, stamp, clock);
      slot := Assign(slot, bufs[b], b, blockno);
      bufs := bufs[b := bufs[b].(dev := dev, blockno := blockno, valid := false, refcnt := 1, locked := true)];
      held := held + {blockno};
      a := a.Pinned(blockno);
    }

    /** bread: the locked buffer of a block, holding the block's current contents. */
    method Bread(dev: nat, blockno: nat) returns (b: nat)
      requires Valid() && dev == ROOTDEV && blockno !in a.hand && a.Room(blockno)
      modifies this`bufs, this`slot, this`held, this`a
      ensures Valid() && a == old(a).Take(blockno, b)
      ensures b < NBUF < |bufs| && bufs[b].data == a.view[blockno]
    {
      hide RingOk, KeysOk, ViewOk, RefsOk, HandOk;
      b := Bget(dev, blockno);
      CarriedIs(b, blockno);
      if !bufs[b].valid {
        DiskRead(b, blockno);
      }
      HandOut(b, blockno);
      a := a.(hand := a.hand[blockno := b]);
    }

    /** virtio_disk_rw(b, 0), then b->valid = 1. */
    method DiskRead(b: nat, ghost n: nat)
      requires Inv() && b < NBUF && n in slot && slot[n] == b && !bufs[b].valid
      modifies this`bufs
      ensures Inv() && bufs[b].valid
    {
      hide RingOk, KeysOk, ViewOk, RefsOk, HandOk;
      CarriedIs(b, n);
      Fill(bufs, b, slot, disk, a.view, a.refs, held);
      KeepHand(bufs, bufs[b := bufs[b].(data := disk[n], valid := true)], slot, a.hand, held);
      KeepRing(bufs, bufs[b := bufs[b].(data := disk[n], valid := true)], order, stamp, clock);
      bufs := bufs[b := bufs[b].(data := disk[bufs[b].blockno], valid := true)];
    }

    /** The holder of a buffer changes its bytes. */
    method Edit(b: nat, ghost n: nat, data: Block)
      requires Valid() && n in a.hand && a.hand[n] == b
      modifies this`bufs, this`a
      ensures Valid() && n < |old(a).view| && a == old(a).Edited(n, data)
    {
      hide RingOk, KeysOk, ViewOk, RefsOk, HandOk;
      HandIs(b, n);
      Overwrite(bufs, b, data, slot, disk, a.view, a.refs, held);
      KeepHand(bufs, bufs[b := bufs[b].(data := data)], slot, a.hand, held);
      KeepRing(bufs, bufs[b := bufs[b].(data := data)], order, stamp, clock);
      bufs := bufs[b := bufs[b].(data := data)];
      a := a.Edited(n, data);
    }

    /** bwrite: one synchronous write of the buffer's block. */
    method Bwrite(b: nat, ghost n: nat)
      requires Valid() && n in a.hand && a.hand[n] == b
      modifies this`disk, this`a
      ensures Valid() && n < |old(a).disk| == |old(a).view| && a == old(a).Written(n)
    {
      hide RingOk, KeysOk, ViewOk, RefsOk, HandOk;
      HandIs(b, n);
      WriteThrough(bufs, b, slot, disk, a.view);
      disk := disk[bufs[b].blockno := bufs[b].data];
      a := a.Written(n);
    }

    /** brelse: unlock and drop one reference; the last reference moves the buffer to the
        front of the ring. A buffer that differs from the disk must stay referenced. */
    method Brelse(b: nat, ghost n: nat)
      requires Valid() && n in a.hand && a.hand[n] == b
      requires a.refs[n] > 1 || a.view[n] == a.disk[n]
      modifies this`bufs, this`order, this`stamp, this`clock, this`held, this`a
      ensures Valid() && a == old(a).Drop(n)
      ensures old(a).refs[n] > 1 ==> order == old(order) && stamp == old(stamp)
      ensures old(a).refs[n] == 1 ==>
              order != [] && order[0] == b < |old(stamp)| && stamp == old(stamp)[b := old(clock)]
    {
      hide RingOk, KeysOk, ViewOk, RefsOk, HandOk;
      HandIs(b, n);
      ShrinkHand(bufs, slot, a.hand, held, n);
      a := a.(hand := a.hand - {n});
      Recount(b, n, bufs[b].(locked := false, refcnt := bufs[b].refcnt - 1));
      bufs := bufs[b := bufs[b].(locked := false, refcnt := bufs[b].refcnt - 1)];
      held := held - {n};
      a := a.(refs := a.refs[n := a.refs[n] - 1]);
      if bufs[b].refcnt == 0 {
        MoveToFront(b);
      }
    }

    method MoveToFront(b: nat)
      requires Inv() && b < NBUF
      modifies this`bufs, this`order, this`stamp, this`clock
      ensures Inv()
      ensures order != [] && order[0] == b < |old(stamp)| && stamp == old(stamp)[b := old(clock)]
    {
      hide RingOk, KeysOk, ViewOk, RefsOk, HandOk, SameButLinks;
      ghost var k := Front(bufs, order, stamp, clock, b);
      KeepContents(bufs, PushFront(Unlink(bufs, b), b), slot, disk, a.view, a.refs, held, a.hand);
      bufs := PushFront(Unlink(bufs, b), b);
      order, stamp, clock := [b] + (order[..k] + order[k+1..]), stamp[b := clock], clock + 1;
    }

    method Bpin(b: nat, ghost n: nat)
      requires Valid() && n in a.hand && a.hand[n] == b
      modifies this`bufs, this`a
      ensures Valid() && n < |old(a).refs| && a == old(a).Pinned(n)
    {
      hide RingOk, KeysOk, ViewOk, RefsOk, HandOk;
      HandIs(b, n);
      Recount(b, n, bufs[b].(refcnt := bufs[b].refcnt + 1));
      assert held + {n} == held;
      bufs := bufs[b := bufs[b].(refcnt := bufs[b].refcnt + 1)];
      a := a.Pinned(n);
    }

    method Bunpin(b: nat, ghost n: nat)
      requires Valid() && n in a.hand && a.hand[n] == b && a.refs[n] > 1
      modifies this`bufs, this`a
      ensures Valid() && n < |old(a).refs| && a == old(a).Unpinned(n)
    {
      hide RingOk, KeysOk, ViewOk, RefsOk, HandOk;
      HandIs(b, n);
      Recount(b, n, bufs[b].(refcnt := bufs[b].refcnt - 1));
      assert held + {n} == held;
      bufs := bufs[b := bufs[b].(refcnt := bufs[b].refcnt - 1)];
      a := a.Unpinned(n);
    }

    /** b->blockno of a handed-out buffer. */
    method BlockOf(b: nat, ghost n: nat) returns (blockno: nat)
      requires Valid() && n in a.hand && a.hand[n] == b
      ensures blockno == n
    {
      HandIs(b, n);
      blockno := bufs[b].blockno;
    }

    // ------------------------------------------------------------ what the invariant gives

    lemma RoomMeans(n: nat)
      requires Inv() && a.Room(n)
      ensures n in slot || |BusyOf(a.refs)| < NBUF
    {
    }

    lemma CarriedIs(b: nat, n: nat)
      requires Inv() && b < NBUF && n in slot && slot[n] == b
      ensures n < |disk| && bufs[b].dev == ROOTDEV && bufs[b].blockno == n && bufs[b].refcnt == a.refs[n]
      ensures n in held ==> bufs[b].locked && a.refs[n] > 0
      ensures bufs[b].valid ==> bufs[b].data == a.view[n]
    {
    }

    lemma HandIs(b: nat, n: nat)
      requires Inv() && n in a.hand && a.hand[n] == b
      ensures b < NBUF && n in slot && slot[n] == b && n in held && bufs[b].valid
      ensures n < |disk| && bufs[b].dev == ROOTDEV && bufs[b].blockno == n
      ensures bufs[b].locked && bufs[b].refcnt == a.refs[n] > 0
    {
    }

    lemma HandOut(b: nat, n: nat)
      requires Inv() && b < NBUF && n in slot && slot[n] == b && n in held && bufs[b].valid
      ensures HandOk(bufs, slot, a.hand[n := b], held)
      ensures n < |a.refs| && a.refs[n] > 0 && bufs[b].data == a.view[n]
    {
    }

    lemma HandShows(b: nat, n: nat)
      requires Valid() && n in a.hand && a.hand[n] == b
      ensures n < |a.view| && b < NBUF < |bufs| && bufs[b].data == a.view[n]
    {
    }

    /** An unreferenced block is as on the disk. */
    lemma Clean(n: nat)
      requires Valid() && n < |a.disk| == |a.refs| && a.refs[n] == 0
      ensures n < |a.view| && a.view[n] == a.disk[n]
    {
    }

    /** Changing the count and the lock of the buffer that carries n. */
    lemma Recount(b: nat, n: nat, x: Buf)
      requires Inv() && b < NBUF && n in slot && slot[n] == b && n < |disk|
      requires x == bufs[b].(refcnt := x.refcnt, locked := x.locked)
      requires x.locked ==> x.refcnt > 0
      requires x.refcnt > 0 || a.view[n] == a.disk[n]
      requires x.locked || n !in a.hand
      ensures var t := bufs[b := x];
              var held1 := if x.locked then held + {n} else held - {n};
              && RingOk(t, order, stamp, clock) && KeysOk(t, slot, |disk|) && ViewOk(t, slot, disk, a.view)
              && RefsOk(t, slot, a.refs[n := x.refcnt], held1) && HandOk(t, slot, a.hand, held1)
    {
      CarriedIs(b, n);
      Touch(bufs, b, x, slot, disk, a.view, a.refs, held);
      KeepRing(bufs, bufs[b := x], order, stamp, clock);
    }
  }
}
