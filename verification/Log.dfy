/** The write-ahead log of kernel/log.c on top of the buffer cache. */
module Log {
  import opened Blocks
  import opened Common
  import opened BufferCache
  import opened LogSpec
  import A = LogAdmission

  /** The books of references: one pin for each listed block, one for each buffer handed out. */
  ghost predicate Balanced(refs: seq<nat>, lh: seq<nat>, hand: map<nat, nat>)
  {
    forall b | 0 <= b < |refs| :: refs[b] == (if b in lh then 1 else 0) + if b in hand then 1 else 0
  }

  /** Buffers that others hold while the log works: neither listed nor in the log, and unchanged. */
  ghost predicate Readers(l: Layout, lh: seq<nat>, s: Abs)
  {
    forall b | b in s.hand :: b < |s.disk| == |s.view| && b !in lh && !InLog(l, b) && s.view[b] == s.disk[b]
  }

  /** As many buffers are busy as blocks are listed or handed out, at most. */
  lemma PinsLeaveRoom(refs: seq<nat>, lh: seq<nat>, hand: map<nat, nat>)
    requires Balanced(refs, lh, hand)
    ensures |BusyOf(refs)| <= |lh| + |hand|
  {
    CardLe(BusyOf(refs), Elements(lh) + hand.Keys);
    ElementsCard(lh);
    assert |hand.Keys| == |hand|;
    UnionCard(Elements(lh), hand.Keys);
  }

  lemma FreeOfPins(refs: seq<nat>, pins: seq<nat>, hand: map<nat, nat>, b: nat)
    requires Balanced(refs, pins, hand) && b < |refs| && b !in pins && b !in hand
    ensures refs[b] == 0
  {
  }

  /** Giving back the first of the pins keeps the books. */
  lemma FirstPin(refs: seq<nat>, pins: seq<nat>, hand: map<nat, nat>)
    requires Balanced(refs, pins, hand) && pins != [] && pins[0] < |refs| && pins[0] !in hand
    requires forall i, j | 0 <= i < j < |pins| :: pins[i] != pins[j]
    ensures refs[pins[0]] == 1 && Balanced(refs[pins[0] := 0], pins[1..], hand)
  {
    assert pins[0] !in pins[1..];
    assert forall b | b in pins :: b == pins[0] || b in pins[1..];
  }

  /** A block that is neither listed nor held can be read exactly while fewer than NBUF blocks
      are listed or held. */
  lemma PinsRoomExact(s: Abs, lh: seq<nat>, x: nat)
    requires Balanced(s.refs, lh, s.hand) && (forall i, j | 0 <= i < j < |lh| :: lh[i] != lh[j])
    requires (forall b | b in lh || b in s.hand :: b < |s.refs|) && (forall b | b in s.hand :: b !in lh)
    requires x < |s.refs| && x !in lh && x !in s.hand
    ensures s.Room(x) <==> |lh| + |s.hand| < NBUF
  {
    assert BusyOf(s.refs) == Elements(lh) + s.hand.Keys;
    ElementsCard(lh);
    assert |s.hand.Keys| == |s.hand|;
    UnionCard(Elements(lh), s.hand.Keys);
  }

  /** On a log of at most LOGSIZE blocks, as mkfs makes it, no run lists NBUF blocks, so a commit
      that nobody else holds buffers beside finds one. */
  lemma CommitFindsBuffer(size: nat, nproc: nat, es: seq<A.Event>, t: A.State)
    requires A.Path(A.Boot(size, nproc), es, t) && size <= LOGSIZE
    ensures |t.lh| < NBUF
  {
    A.ListBound(size, nproc, es, t);
  }

  /** On every larger log there is a run that commits with NBUF blocks listed. */
  lemma CommitWithoutBuffer(size: nat, first: nat) returns (es: seq<A.Event>, t: A.State)
    requires size > LOGSIZE
    ensures A.Path(A.Boot(size, 3), es, t) && t.committing
    ensures |t.lh| == NBUF && forall b | b in t.lh :: first <= b < first + NBUF
  {
    es, t := A.ReachFullCommit(size, first);
  }

  /** The header block with the in-memory header copied into it. */
  method FillHead(was: Block, n: nat, block: seq<nat>) returns (hb: Block)
    requires n <= LOGSIZE == |block| && forall i | 0 <= i < n :: block[i] < 0x1_0000_0000
    ensures hb == PutHead(was, block[..n], n)
  {
    hb := PutWord(was, 0, n);
    var i := 0;
    while i < n
      invariant 0 <= i <= n && hb == PutHead(was, block[..n], i)
    {
      hb := PutWord(hb, i + 1, block[i]);
      i := i + 1;
    }
  }

  /** One block written through the cache. */
  ghost function Copied(s: Abs, x: nat, data: Block): (r: Abs)
    requires x < |s.disk| == |s.view|
  {
    s.(disk := s.disk[x := data], view := s.view[x := data], trace := s.trace + [s.disk[x := data]])
  }

  /** Block a now holds, on disk as well, what block h shows. */
  ghost predicate CopiedFrom(s: Abs, t: Abs, a: nat, h: nat)
  {
    a < |s.disk| == |s.view| && h < |s.view| && t == Copied(s, a, s.view[h])
  }

  /** Two breads in a row find room. */
  lemma TakeTwo(s: Abs, x: nat, b: nat, y: nat, c: nat)
    requires s.Ok() && x < |s.refs| && y < |s.refs| && x != y && x !in s.hand && y !in s.hand
    requires |BusyOf(s.refs)| < NBUF && (s.refs[y] > 0 || |BusyOf(s.refs)| + 1 < NBUF)
    ensures var t := s.Take(x, b);
            && s.Room(x) && y !in t.hand && t.Room(y) && t.view == s.view
            && var u := t.Take(y, c);
               && u.Ok() && u.view == s.view && u.disk == s.disk && u.trace == s.trace
               && u.hand == s.hand[x := b][y := c]
               && u.refs == s.refs[x := s.refs[x] + 1][y := s.refs[y] + 1]
  {
    var r := s.refs[x := s.refs[x] + 1];
    assert BusyOf(r) == BusyOf(s.refs) + {x};
    UnionCard(BusyOf(s.refs), {x});
  }

  /** Write `data` over x while x and y are held, then release y and x. */
  lemma WriteAndDrop(s: Abs, u: Abs, x: nat, b: nat, y: nat, c: nat, data: Block)
    requires s.Ok() && u.Ok() && x < |s.refs| && y < |s.refs| && x != y && x !in s.hand && y !in s.hand
    requires u == s.(hand := s.hand[x := b][y := c], refs := s.refs[x := s.refs[x] + 1][y := s.refs[y] + 1])
    requires s.refs[y] > 0 || s.view[y] == s.disk[y]
    ensures var v := u.Edited(x, data).Written(x);
            && x in v.hand && v.hand[x] == b && y in v.hand && v.hand[y] == c
            && y < |v.refs| && v.refs[y] > 0 && (v.refs[y] > 1 || v.view[y] == v.disk[y])
            && var w := v.Drop(y);
               && x in w.hand && w.hand[x] == b && x < |w.refs| && w.refs[x] > 0 && w.view[x] == w.disk[x]
               && w.Drop(x) == Copied(s, x, data)
  {
    assert s.refs[x := s.refs[x] + 1][y := s.refs[y] + 1][y := s.refs[y]][x := s.refs[x]] == s.refs;
    assert s.hand[x := b][y := c] - {y} - {x} == s.hand;
  }

  /** A block is listed once: at the end if it was not listed, otherwise where it was. */
  ghost predicate Listed(lh: seq<nat>, lh1: seq<nat>, bn: nat) { lh1 == if bn in lh then lh else lh + [bn] }

  ghost predicate NoneListed(hand: map<nat, nat>, lh: seq<nat>) { forall b | b in hand :: b !in lh }

  ghost predicate ThroughTrace(l: Layout, s: Abs, lh: seq<nat>, t: Abs)
  {
    && Fits(l, s.disk) && Homes(l, |s.disk|, lh) && |s.view| == |s.disk|
    && var trace := CommitTrace(l, s.disk, s.view, lh);
       t.trace == s.trace + trace && t.disk == trace[|trace| - 1]
  }

  /** From cache state s with list lh, a commit led to t through exactly its write trace. */
  ghost predicate Committed(l: Layout, s: Abs, lh: seq<nat>, t: Abs)
  {
    && |t.disk| == |s.disk| == |s.view| && t.view == t.disk && HomeEq(l, t.disk, s.view) && t.hand == s.hand
    && (lh == [] ==> t == s)
    && (lh != [] ==> ThroughTrace(l, s, lh, t))
  }

  /** A commit of the code is a transaction of the history model: its outcome is the disk left
      behind, and a crash after any of its writes leaves the disk that the model says. */
  lemma CommitIsTxn(l: Layout, s: Abs, lh: seq<nat>, t: Abs, crash: bool, at: nat, again: seq<nat>)
    requires Fits(l, s.disk) && HeadCount(s.disk[l.start]) == 0 && lh != [] && Committed(l, s, lh, t)
    ensures TxnOk(l, |s.disk|, Txn(lh, s.view, crash, at, again)) && WellFormed(l, s.disk)
    ensures !crash ==> t.disk == AfterTxn(l, s.disk, Txn(lh, s.view, crash, at, again))
    ensures 0 < at <= |t.trace| - |s.trace| ==>
              t.trace[|s.trace| + at - 1] == CrashAt(s.disk, CommitTrace(l, s.disk, s.view, lh), at)
  {
    hide CommitTrace, HomeEq;
  }

  /** The log's counters are those of the operations under way. */
  ghost predicate Coupled(adm: A.State, l: Layout, lh: seq<nat>, outstanding: nat, committing: bool)
  {
    && adm.size == l.size && adm.lh == lh && adm.committing == committing
    && A.Outstanding(adm.procs) == outstanding && A.Inv(adm)
  }

  /** Only home blocks are handed out; a block that differs from the disk is listed, or held by
      a running operation that has not called log_write yet. */
  ghost predicate EditsOk(l: Layout, s: Abs, lh: seq<nat>, edits: map<nat, nat>, procs: seq<A.Proc>)
  {
    && |s.view| == |s.disk| && (forall b | b in s.hand :: b < |s.disk| && !InLog(l, b)) && edits.Keys <= s.hand.Keys
    && (forall b | b in edits :: edits[b] < |procs| && procs[edits[b]].Running?)
    && (forall b | 0 <= b < |s.disk| && b !in lh && b !in edits :: s.view[b] == s.disk[b])
  }

  lemma CoupledIs(adm: A.State, l: Layout, lh: seq<nat>, outstanding: nat, committing: bool)
    requires Coupled(adm, l, lh, outstanding, committing)
    ensures adm.size == l.size && A.Inv(adm)
  {
  }

  lemma KeepEdits(l: Layout, s: Abs, lh: seq<nat>, edits: map<nat, nat>, procs: seq<A.Proc>, procs1: seq<A.Proc>)
    requires EditsOk(l, s, lh, edits, procs) && |procs1| == |procs|
    requires forall b | b in edits && edits[b] < |procs| && procs[edits[b]].Running? :: procs1[edits[b]].Running?
    ensures EditsOk(l, s, lh, edits, procs1)
  {
  }

  lemma LoggedEdits(l: Layout, s: Abs, t: Abs, lh: seq<nat>, lh1: seq<nat>, edits: map<nat, nat>,
                    procs: seq<A.Proc>, procs1: seq<A.Proc>, bn: nat)
    requires EditsOk(l, s, lh, edits, procs) && |procs1| == |procs|
    requires forall q | 0 <= q < |procs| && procs[q].Running? :: procs1[q].Running?
    requires t.disk == s.disk && t.view == s.view && t.hand == s.hand && bn in lh1 && forall b | b in lh :: b in lh1
    ensures EditsOk(l, t, lh1, edits - {bn}, procs1)
  {
  }

  /** With no operation running, nothing is half changed. */
  lemma NoEdits(l: Layout, s: Abs, lh: seq<nat>, edits: map<nat, nat>, procs: seq<A.Proc>)
    requires EditsOk(l, s, lh, edits, procs) && (forall p | 0 <= p < |procs| :: !procs[p].Running?)
    ensures edits == map[] && (NoneListed(s.hand, lh) ==> Readers(l, lh, s))
  {
  }

  /** The disk and the trace at the end of a commit. */
  lemma CommitEnd(l: Layout, s: Abs, lh: seq<nat>, t: Abs)
    requires Fits(l, s.disk) && HeadCount(s.disk[l.start]) == 0 && Homes(l, |s.disk|, lh) && |s.view| == |s.disk|
    requires var sealed := Sealed(l, s.disk, s.view, lh);
             && t.disk == WithHead(l, Install(l, sealed, lh, |lh|), [])
             && t.trace == s.trace + WriteLogTrace(l, s.disk, s.view, lh) + [sealed]
                         + InstallTrace(l, sealed, lh) + [t.disk]
    ensures var trace := CommitTrace(l, s.disk, s.view, lh);
            t.trace == s.trace + trace && t.disk == trace[|trace| - 1]
    ensures HeadCount(t.disk[l.start]) == 0 && HomeEq(l, t.disk, Applied(s.disk, s.view, lh))
  {
    var trace := CommitTrace(l, s.disk, s.view, lh);
    var sealed := Sealed(l, s.disk, s.view, lh);
    assert t.trace ==
           s.trace + (WriteLogTrace(l, s.disk, s.view, lh) + [sealed] + InstallTrace(l, sealed, lh) + [t.disk]);
    CommitAtomic(l, s.disk, s.view, lh, |trace| - 1);
    RecoverEmpty(l, t.disk);
  }

  /** Writing a block that nobody else holds leaves the readers' blocks alone. */
  lemma ReadersKept(l: Layout, lh: seq<nat>, s: Abs, t: Abs, x: nat)
    requires Readers(l, lh, s) && t.hand == s.hand && x < |s.disk| == |t.disk| == |s.view| == |t.view| && x !in s.hand
    requires t.disk == s.disk[x := t.disk[x]] && t.view == s.view[x := t.view[x]]
    ensures Readers(l, lh, t)
  {
  }

  lemma FewerListed(l: Layout, lh: seq<nat>, s: Abs)
    requires Readers(l, lh, s)
    ensures Readers(l, [], s)
  {
  }

  lemma EditKeepsHand(u: Abs, n: nat, data: Block)
    requires n < |u.view|
    ensures u.Edited(n, data).hand == u.hand
  {
  }

  /** Write `data` over h while a and h are held, unpin h if asked, then release a and h. */
  lemma InstallAndDrop(s: Abs, u: Abs, a: nat, b: nat, h: nat, c: nat, data: Block, unpin: bool)
    requires s.Ok() && u.Ok() && a < |s.refs| && h < |s.refs| && a != h && a !in s.hand && h !in s.hand
    requires u == s.(hand := s.hand[a := b][h := c], refs := s.refs[a := s.refs[a] + 1][h := s.refs[h] + 1])
    requires s.view[a] == s.disk[a] && (unpin ==> s.refs[h] > 0)
    ensures var v0 := u.Edited(h, data).Written(h);
            && h in v0.hand && v0.hand[h] == c && h < |v0.refs| && (unpin ==> v0.refs[h] > 1)
            && var v := if unpin then v0.Unpinned(h) else v0;
               && a in v.hand && v.hand[a] == b && a < |v.refs| && v.refs[a] > 0 && v.view[a] == v.disk[a]
               && var w := v.Drop(a);
                  && h in w.hand && w.hand[h] == c && h < |w.refs| && w.refs[h] > 0 && w.view[h] == w.disk[h]
                  && var refs1 := if unpin then s.refs[h := s.refs[h] - 1] else s.refs;
                     w.Drop(h) == Copied(s, h, data).(refs := refs1)
  {
    var r := s.refs;
    assert r[a := r[a] + 1][h := r[h] + 1][a := r[a]][h := r[h]] == r;
    if unpin {
      assert r[a := r[a] + 1][h := r[h] + 1][h := r[h]][a := r[a]][h := r[h] - 1] == r[h := r[h] - 1];
    }
    assert s.hand[a := b][h := c] - {a} - {h} == s.hand;
  }

  /** The cache after `tail` rounds of write_log. */
  ghost function LogState(l: Layout, s: Abs, lh: seq<nat>, tail: nat): (r: Abs)
    requires Homes(l, |s.disk|, lh) && Fits(l, s.disk) && |s.view| == |s.disk| && tail <= |lh|
  {
    s.(disk := LogWritten(l, s.disk, s.view, lh, tail), view := LogWritten(l, s.view, s.view, lh, tail),
       trace := s.trace + WriteLogTrace(l, s.disk, s.view, lh)[..tail])
  }

  lemma WriteLogStep(l: Layout, s: Abs, lh: seq<nat>, tail: nat)
    requires Homes(l, |s.disk|, lh) && Fits(l, s.disk) && |s.view| == |s.disk| && tail <= |lh|
    ensures LogState(l, s, lh, 0) == s && LogState(l, s, lh, tail).hand == s.hand
    ensures |LogState(l, s, lh, tail).disk| == |LogState(l, s, lh, tail).view| == |s.disk|
    ensures LogState(l, s, lh, |lh|)
         == s.(disk := LogWritten(l, s.disk, s.view, lh, |lh|), view := LogWritten(l, s.view, s.view, lh, |lh|),
               trace := s.trace + WriteLogTrace(l, s.disk, s.view, lh))
    ensures tail < |lh| ==>
      LogState(l, s, lh, tail + 1) ==
      Copied(LogState(l, s, lh, tail), l.start + tail + 1, LogState(l, s, lh, tail).view[lh[tail]])
  {
    var all := WriteLogTrace(l, s.disk, s.view, lh);
    assert all[..|lh|] == all;
    if tail < |lh| {
      assert !InLog(l, lh[tail]);
      assert all[..tail + 1] == all[..tail] + [all[tail]];
    }
  }

  class Log {
    const cache: Bcache
    const l: Layout                 // log.start and log.size
    var outstanding: nat
    var committing: bool
    var n: nat                      // log.lh.n
    var block: seq<nat>             // log.lh.block
    ghost var adm: A.State          // the operations under way
    ghost var edits: map<nat, nat>  // blocks changed and not yet given to log_write, with the process

    ghost function Lh(): (s: seq<nat>)
      reads this
      requires n <= |block|
    {
      block[..n]
    }

    ghost predicate Valid()
      reads this, cache
    {
      && cache.Valid() && cache.a.Ok() && Fits(l, cache.a.disk)
      && |block| == LOGSIZE && n <= LOGSIZE && Homes(l, |cache.a.disk|, Lh())
    }

    /** The state commit starts from: the books balance and other holders only read. */
    ghost predicate Quiet()
      reads this, cache
      requires n <= |block|
    {
      Balanced(cache.a.refs, Lh(), cache.a.hand) && Readers(l, Lh(), cache.a)
    }

    /** Boot: an empty cache over a disk, and the log's place on it. */
    constructor (d: Disk, layout: Layout, nproc: nat)
      requires Fits(layout, d)
      ensures Valid() && fresh(cache) && l == layout && n == 0 && outstanding == 0 && !committing
      ensures cache.a.disk == cache.a.view == d && cache.a.trace == [] && cache.a.hand == map[] && Quiet()
      ensures adm == A.Boot(layout.size, nproc) && edits == map[] && (HeadCount(d[layout.start]) == 0 ==> Good())
    {
      cache := new Bcache(d);
      l := layout;
      outstanding, committing, n, block := 0, false, 0, seq(LOGSIZE, _ => 0);
      adm, edits := A.Boot(layout.size, nproc), map[];
      A.BootInv(layout.size, nproc);
    }

    /** What holds whenever log.lock is free: the header on disk is empty, every reference is
        accounted for, the counters are those of the operations under way, and a block that
        differs from the disk is listed or in the hands of an operation. */
    ghost predicate Good()
      reads this, cache
    {
      && Valid() && HeadCount(cache.a.disk[l.start]) == 0 && Balanced(cache.a.refs, Lh(), cache.a.hand)
      && Coupled(adm, l, Lh(), outstanding, committing) && EditsOk(l, cache.a, Lh(), edits, adm.procs)
    }

    /** What others may use of the invariant. */
    lemma Books()
      requires Good()
      ensures n <= |block| && |Lh()| == n && adm.lh == Lh() && Balanced(cache.a.refs, Lh(), cache.a.hand)
      ensures |cache.a.refs| == |cache.a.view| == |cache.a.disk| && A.Inv(adm)
    {
    }

    /** With no buffer handed out nothing is half changed. */
    lemma NothingHeld()
      requires Good() && cache.a.hand == map[]
      ensures edits == map[]
    {
    }

    /** Before round `tail` of write_log: the log block is unused, the home block pinned. */
    lemma TailFacts(tail: nat)
      requires Valid() && Quiet() && tail < n && n + |cache.a.hand| < NBUF
      ensures var a, h := l.start + tail + 1, block[tail];
              && a < |cache.a.disk| && h < |cache.a.disk| && a != h && cache.a.Ok()
              && a !in cache.a.hand && h !in cache.a.hand
              && cache.a.refs[a] == 0 && cache.a.refs[h] == 1 && |BusyOf(cache.a.refs)| < NBUF
    {
      var a, h := l.start + tail + 1, block[tail];
      assert h == Lh()[tail] && InLog(l, a) && !InLog(l, h);
      PinsLeaveRoom(cache.a.refs, Lh(), cache.a.hand);
    }

    /** One round of write_log: copy a pinned block from the cache into its log block. */
    method CopyToLog(tail: nat)
      requires Valid() && Quiet() && tail < n && n + |cache.a.hand| < NBUF
      modifies cache
      ensures Valid() && Quiet()
      ensures CopiedFrom(old(cache.a), cache.a, l.start + tail + 1, block[tail])
    {
      hide Bcache.Valid, Balanced, Readers, Homes, BusyOf;
      TailFacts(tail);
      ghost var s := cache.a;
      CopyPinned(l.start + tail + 1, block[tail]);
      ReadersKept(l, Lh(), s, cache.a, l.start + tail + 1);
    }

    /** Copy the pinned block h over block a and release both. */
    method CopyPinned(a: nat, h: nat)
      requires cache.Valid() && cache.a.Ok() && a < |cache.a.refs| && h < |cache.a.refs| && a != h
      requires a !in cache.a.hand && h !in cache.a.hand && |BusyOf(cache.a.refs)| < NBUF && cache.a.refs[h] > 0
      modifies cache
      ensures cache.Valid() && cache.a.Ok() && CopiedFrom(old(cache.a), cache.a, a, h)
    {
      hide Bcache.Valid, BusyOf, Abs.Drop, Abs.Edited, Abs.Written;
      ghost var s := cache.a;
      var to, from := CopyOut(a, h);
      ghost var u := s.(hand := s.hand[a := to][h := from], refs := s.refs[a := s.refs[a] + 1][h := s.refs[h] + 1]);
      WriteAndDrop(s, u, a, to, h, from, s.view[h]);
      cache.Brelse(from, h);
      cache.Brelse(to, a);
    }

    /** The reads, the copy and the write of one round of write_log. */
    method CopyOut(a: nat, h: nat) returns (to: nat, from: nat)
      requires cache.Valid() && cache.a.Ok() && a < |cache.a.refs| && h < |cache.a.refs| && a != h
      requires a !in cache.a.hand && h !in cache.a.hand && |BusyOf(cache.a.refs)| < NBUF && cache.a.refs[h] > 0
      modifies cache
      ensures var s := old(cache.a);
              var u := s.(hand := s.hand[a := to][h := from], refs := s.refs[a := s.refs[a] + 1][h := s.refs[h] + 1]);
              cache.Valid() && u.Ok() && cache.a == u.Edited(a, s.view[h]).Written(a)
    {
      hide Bcache.Valid, BusyOf, Abs.Take, Abs.Edited, Abs.Written, Abs.Room;
      ghost var s := cache.a;
      TakeTwo(s, a, 0, h, 0);
      to := cache.Bread(ROOTDEV, a);
      TakeTwo(s, a, to, h, 0);
      from := cache.Bread(ROOTDEV, h);
      TakeTwo(s, a, to, h, from);
      EditKeepsHand(cache.a, a, s.view[h]);
      cache.Edit(to, a, cache.bufs[from].data);
      cache.Bwrite(to, a);
    }

    /** write_log: write modified blocks from the cache to the log. */
    method WriteLog()
      requires Valid() && Quiet() && n + |cache.a.hand| < NBUF
      modifies cache
      ensures Valid() && Quiet()
      ensures var s, lh := old(cache.a), Lh();
              cache.a == s.(disk := LogWritten(l, s.disk, s.view, lh, n), view := LogWritten(l, s.view, s.view, lh, n),
                            trace := s.trace + WriteLogTrace(l, s.disk, s.view, lh))
    {
      hide Bcache.Valid, Balanced, Readers, BusyOf, LogState, Copied;
      ghost var s, lh := cache.a, Lh();
      WriteLogStep(l, s, lh, 0);
      var tail := 0;
      while tail < n
        invariant 0 <= tail <= n && Valid() && Quiet() && cache.a.hand == s.hand
        invariant cache.a == LogState(l, s, lh, tail)
      {
        WriteLogStep(l, s, lh, tail);
        CopyToLog(tail);
        tail := tail + 1;
        WriteLogStep(l, s, lh, tail);
      }
    }

    /** write_head: write the in-memory header to disk. */
    method WriteHead()
      requires Valid() && l.start !in cache.a.hand && cache.a.refs[l.start] == 0 && |BusyOf(cache.a.refs)| < NBUF
      modifies cache
      ensures Valid() && old(cache.a).view[l.start] == old(cache.a).disk[l.start]
      ensures cache.a == Copied(old(cache.a), l.start, PutHead(old(cache.a).disk[l.start], Lh(), n))
    {
      hide Bcache.Valid, BusyOf;
      cache.Clean(l.start);
      ghost var s := cache.a;
      var b := cache.Bread(ROOTDEV, l.start);
      var hb := FillHead(cache.bufs[b].data, n, block);
      cache.Edit(b, l.start, hb);
      cache.Bwrite(b, l.start);
      cache.Brelse(b, l.start);
      assert s.refs[l.start := 1][l.start := 0] == s.refs;
      assert s.hand[l.start := b] - {l.start} == s.hand;
    }

    /** The pins that are left before round `tail` of install_trans. */
    ghost function PinsFrom(tail: nat, recovering: bool): (pins: seq<nat>)
      reads this
      requires tail <= n <= |block|
    {
      if recovering then [] else Lh()[tail..]
    }

    /** Enough buffers for install_trans: recovery reads the home blocks as well. */
    ghost predicate Roomy(recovering: bool)
      reads this, cache
    {
      if recovering then |cache.a.hand| + 1 < NBUF else n + |cache.a.hand| < NBUF
    }

    /** Before round `tail` of install_trans. */
    lemma InstallFacts(tail: nat, recovering: bool)
      requires Valid() && tail < n && Balanced(cache.a.refs, PinsFrom(tail, recovering), cache.a.hand)
      requires Readers(l, Lh(), cache.a) && Roomy(recovering)
      ensures var a, h := l.start + tail + 1, block[tail];
              && a < |cache.a.disk| && h < |cache.a.disk| && a != h && a !in cache.a.hand && h !in cache.a.hand
              && cache.a.refs[a] == 0 && cache.a.view[a] == cache.a.disk[a] && InLog(l, a)
              && |BusyOf(cache.a.refs)| < NBUF && (recovering ==> |BusyOf(cache.a.refs)| + 1 < NBUF)
              && (if recovering then cache.a.refs[h] == 0
                  else cache.a.refs[h] == 1 && Balanced(cache.a.refs[h := 0], PinsFrom(tail + 1, false), cache.a.hand))
    {
      hide BusyOf, Bcache.Inv, Balanced;
      var a, h := l.start + tail + 1, block[tail];
      var pins := PinsFrom(tail, recovering);
      assert h == Lh()[tail] && InLog(l, a) && !InLog(l, h);
      PinsLeaveRoom(cache.a.refs, pins, cache.a.hand);
      FreeOfPins(cache.a.refs, pins, cache.a.hand, a);
      cache.Clean(a);
      if recovering {
        FreeOfPins(cache.a.refs, pins, cache.a.hand, h);
      } else {
        assert pins[0] == h && pins[1..] == Lh()[tail + 1..];
        FirstPin(cache.a.refs, pins, cache.a.hand);
      }
    }

    /** One round of install_trans: copy a log block to its home and drop the log's pin. */
    method InstallOne(tail: nat, recovering: bool)
      requires Valid() && tail < n && Balanced(cache.a.refs, PinsFrom(tail, recovering), cache.a.hand)
      requires Readers(l, Lh(), cache.a) && Roomy(recovering)
      modifies cache
      ensures Valid() && cache.a.hand == old(cache.a).hand && Readers(l, Lh(), cache.a)
      ensures Balanced(cache.a.refs, PinsFrom(tail + 1, recovering), cache.a.hand)
      ensures cache.a.disk == old(cache.a).disk[block[tail] := old(cache.a).disk[l.start + tail + 1]]
      ensures cache.a.trace == old(cache.a).trace + [cache.a.disk]
    {
      hide Bcache.Valid, Balanced, Readers, Homes, BusyOf;
      InstallFacts(tail, recovering);
      ghost var s := cache.a;
      CopyAndRelease(l.start + tail + 1, block[tail], !recovering);
      ReadersKept(l, Lh(), s, cache.a, block[tail]);
    }

    /** Copy block a over block h; drop h's pin if asked; release both. */
    method CopyAndRelease(a: nat, h: nat, unpin: bool)
      requires cache.Valid() && cache.a.Ok() && a < |cache.a.refs| && h < |cache.a.refs| && a != h
      requires a !in cache.a.hand && h !in cache.a.hand && |BusyOf(cache.a.refs)| < NBUF
      requires cache.a.view[a] == cache.a.disk[a]
      requires if unpin then cache.a.refs[h] > 0 else |BusyOf(cache.a.refs)| + 1 < NBUF
      modifies cache
      ensures cache.Valid() && cache.a.Ok()
      ensures var s := old(cache.a);
              cache.a == Copied(s, h, s.disk[a]).(refs := if unpin then s.refs[h := s.refs[h] - 1] else s.refs)
    {
      hide Bcache.Valid, BusyOf, Abs.Drop, Abs.Edited, Abs.Written, Abs.Unpinned;
      ghost var s := cache.a;
      var lbuf, dbuf := CopyHome(a, h);
      ghost var u := s.(hand := s.hand[a := lbuf][h := dbuf], refs := s.refs[a := s.refs[a] + 1][h := s.refs[h] + 1]);
      InstallAndDrop(s, u, a, lbuf, h, dbuf, s.disk[a], unpin);
      if unpin {
        cache.Bunpin(dbuf, h);
      }
      cache.Brelse(lbuf, a);
      cache.Brelse(dbuf, h);
    }

    /** The reads, the copy and the write of one round of install_trans. */
    method CopyHome(a: nat, h: nat) returns (lbuf: nat, dbuf: nat)
      requires cache.Valid() && cache.a.Ok() && a < |cache.a.refs| && h < |cache.a.refs| && a != h
      requires a !in cache.a.hand && h !in cache.a.hand && |BusyOf(cache.a.refs)| < NBUF
      requires cache.a.refs[h] > 0 || |BusyOf(cache.a.refs)| + 1 < NBUF
      modifies cache
      ensures var s := old(cache.a);
              var u := s.(hand := s.hand[a := lbuf][h := dbuf], refs := s.refs[a := s.refs[a] + 1][h := s.refs[h] + 1]);
              cache.Valid() && u.Ok() && cache.a == u.Edited(h, s.view[a]).Written(h)
    {
      hide Bcache.Valid, BusyOf, Abs.Take, Abs.Edited, Abs.Written, Abs.Room;
      ghost var s := cache.a;
      TakeTwo(s, a, 0, h, 0);
      lbuf := cache.Bread(ROOTDEV, a);
      TakeTwo(s, a, lbuf, h, 0);
      dbuf := cache.Bread(ROOTDEV, h);
      TakeTwo(s, a, lbuf, h, dbuf);
      cache.HandShows(lbuf, a);
      EditKeepsHand(cache.a, h, s.view[a]);
      cache.Edit(dbuf, h, cache.bufs[lbuf].data);
      cache.Bwrite(dbuf, h);
    }

    /** install_trans: copy committed blocks from the log to their homes. */
    method InstallTrans(recovering: bool)
      requires Valid() && Balanced(cache.a.refs, PinsFrom(0, recovering), cache.a.hand)
      requires Readers(l, Lh(), cache.a) && Roomy(recovering)
      modifies cache
      ensures Valid() && cache.a.hand == old(cache.a).hand && Readers(l, Lh(), cache.a)
      ensures Balanced(cache.a.refs, [], cache.a.hand)
      ensures cache.a.disk == Install(l, old(cache.a).disk, Lh(), n)
      ensures cache.a.trace == old(cache.a).trace + InstallTrace(l, old(cache.a).disk, Lh())
    {
      hide Bcache.Valid, Balanced, Readers, BusyOf;
      ghost var s, lh := cache.a, Lh();
      ghost var all := InstallTrace(l, s.disk, lh);
      assert lh[0..] == lh && all[..0] == [] && s.trace + [] == s.trace;
      var tail := 0;
      while tail < n
        invariant 0 <= tail <= n && Valid() && cache.a.hand == s.hand && Readers(l, Lh(), cache.a)
        invariant Balanced(cache.a.refs, PinsFrom(tail, recovering), cache.a.hand)
        invariant cache.a.disk == Install(l, s.disk, lh, tail)
        invariant cache.a.trace == s.trace + all[..tail]
      {
        assert all[..tail + 1] == all[..tail] + [all[tail]];
        InstallOne(tail, recovering);
        tail := tail + 1;
      }
      assert all[..n] == all && lh[n..] == [];
    }

    /** commit: with nothing outstanding, make the logged blocks durable as a whole. Others may
        hold buffers that are not logged. */
    method Commit()
      requires Valid() && Quiet() && n + |cache.a.hand| < NBUF && HeadCount(cache.a.disk[l.start]) == 0
      modifies this`n, cache
      ensures Valid() && Quiet() && n == 0 && HeadCount(cache.a.disk[l.start]) == 0
      ensures Committed(l, old(cache.a), old(Lh()), cache.a)
    {
      hide Bcache.Valid, BusyOf, PutHead, Balanced, Readers, Homes, Sealed, CommitTrace, Applied;
      ghost var s, lh := cache.a, Lh();
      UnloggedClean();
      if n > 0 {
        Seal();
        InstallTrans(false);
        Erase();
        CommitEnd(l, s, lh, cache.a);
      }
      AllClean();
    }

    /** The first half of commit: the log blocks and then the header, the real commit. */
    method Seal()
      requires Valid() && Quiet() && n + |cache.a.hand| < NBUF && HeadCount(cache.a.disk[l.start]) == 0
      modifies cache
      ensures Valid() && Quiet() && cache.a.hand == old(cache.a).hand
      ensures cache.a.disk == Sealed(l, old(cache.a).disk, old(cache.a).view, Lh())
      ensures cache.a.trace ==
              old(cache.a).trace + WriteLogTrace(l, old(cache.a).disk, old(cache.a).view, Lh()) + [cache.a.disk]
    {
      hide Bcache.Valid, BusyOf, PutHead, Balanced, Readers, Homes, LogWritten, WriteLogTrace;
      WriteLog();
      PinnedOutsideLog();
      ghost var t := cache.a;
      WriteHead();
      ReadersKept(l, Lh(), t, cache.a, l.start);
    }

    /** The end of commit: an empty header. */
    method Erase()
      requires Valid() && n + |cache.a.hand| < NBUF
      requires Balanced(cache.a.refs, [], cache.a.hand) && Readers(l, Lh(), cache.a)
      modifies this`n, cache
      ensures Valid() && Quiet() && n == 0 && cache.a.hand == old(cache.a).hand
      ensures cache.a.disk == WithHead(l, old(cache.a).disk, []) && cache.a.trace == old(cache.a).trace + [cache.a.disk]
    {
      hide Bcache.Valid, BusyOf, PutHead, Balanced, Readers;
      FewerListed(l, Lh(), cache.a);
      n := 0;
      PinnedOutsideLog();
      ghost var t := cache.a;
      WriteHead();
      ReadersKept(l, [], t, cache.a, l.start);
    }

    /** The header block is not referenced, and some buffer can be recycled. */
    lemma PinnedOutsideLog()
      requires Valid() && n + |cache.a.hand| < NBUF && Quiet()
      ensures l.start !in cache.a.hand && cache.a.refs[l.start] == 0 && |BusyOf(cache.a.refs)| < NBUF
    {
      assert InLog(l, l.start);
      PinsLeaveRoom(cache.a.refs, Lh(), cache.a.hand);
    }

    /** Blocks that are not logged are as on the disk. */
    lemma UnloggedClean()
      requires Valid() && Quiet()
      ensures HomeEq(l, Applied(cache.a.disk, cache.a.view, Lh()), cache.a.view)
    {
      forall b | 0 <= b < |cache.a.disk| && b !in Lh() ensures cache.a.view[b] == cache.a.disk[b] {
        if b !in cache.a.hand {
          cache.Clean(b);
        }
      }
    }

    lemma AllClean()
      requires Valid() && Balanced(cache.a.refs, [], cache.a.hand) && Readers(l, [], cache.a)
      ensures cache.a.view == cache.a.disk
    {
      forall b | 0 <= b < |cache.a.disk| ensures cache.a.view[b] == cache.a.disk[b] {
        if b !in cache.a.hand {
          cache.Clean(b);
        }
      }
    }

    /** read_head: read the log header from disk into the in-memory header. */
    method ReadHead()
      requires Valid() && Quiet() && n == 0 && |cache.a.hand| < NBUF && WellFormed(l, cache.a.disk)
      modifies this`n, this`block, cache
      ensures Valid() && cache.a == old(cache.a) && Lh() == HeadBlocks(cache.a.disk[l.start])
    {
      hide Bcache.Valid, BusyOf;
      ghost var s := cache.a;
      PinnedOutsideLog();
      cache.Clean(l.start);
      var b := cache.Bread(ROOTDEV, l.start);
      DecodeHead(cache.bufs[b].data);
      cache.Brelse(b, l.start);
      assert s.refs[l.start := 1][l.start := 0] == s.refs;
      assert s.hand[l.start := b] - {l.start} == s.hand;
    }

    /** Copy the words of a header block into the in-memory header. */
    method DecodeHead(hb: Block)
      requires |block| == LOGSIZE && HeadCount(hb) <= LOGSIZE
      modifies this`n, this`block
      ensures |block| == LOGSIZE && n <= LOGSIZE && Lh() == HeadBlocks(hb)
    {
      n := GetWord(hb, 0);
      var i := 0;
      while i < n
        invariant 0 <= i <= n == HeadCount(hb) && |block| == LOGSIZE
        invariant forall j | 0 <= j < i :: block[j] == GetWord(hb, j + 1)
      {
        block := block[i := GetWord(hb, i + 1)];
        i := i + 1;
      }
    }

    /** recover_from_log: install a committed transaction, then clear the log. */
    method RecoverFromLog()
      requires Valid() && Quiet() && n == 0 && cache.a.hand == map[] && WellFormed(l, cache.a.disk)
      modifies this`n, this`block, cache
      ensures Valid() && Quiet() && n == 0 && cache.a.hand == map[] && HeadCount(cache.a.disk[l.start]) == 0
      ensures cache.a.disk == cache.a.view == Recover(l, old(cache.a).disk)
      ensures cache.a.trace == old(cache.a).trace + RecoverTrace(l, old(cache.a).disk)
      ensures Coupled(adm, l, [], outstanding, committing) && edits == map[] ==> Good()
    {
      hide Bcache.Valid, BusyOf, PutHead, A.Inv;
      ghost var s := cache.a;
      ReadHead();
      InstallTrans(true);
      n := 0;
      PinnedOutsideLog();
      WriteHead();
      AllClean();
      ghost var blocks := HeadBlocks(s.disk[l.start]);
      assert s.trace + InstallTrace(l, s.disk, blocks) + [cache.a.disk]
          == s.trace + (InstallTrace(l, s.disk, blocks) + [cache.a.disk]);
    }

    // ------------------------------------------------------------ operations

    /** begin_op by process p: the step of the admission protocol. Once admitted, its whole
        budget is reserved beside everyone else's. */
    method BeginOp(p: nat) returns (admitted: bool)
      requires Good() && A.Enabled(adm, A.Begin(p))
      modifies this`outstanding, this`adm
      ensures Good() && A.Does(old(adm), A.Begin(p), adm) && p < |adm.procs|
      ensures if admitted then adm.procs[p] == A.Running(0, 0) && |Lh()| + A.Reserved(adm.procs) <= LOGSIZE
              else adm.procs[p] == A.Asleep && !A.Admissible(adm)
    {
      hide Bcache.Valid, Balanced, Homes, A.Sum;
      A.BeginKeeps(adm, p);
      A.BeginCounts(adm, p);
      KeepEdits(l, cache.a, Lh(), edits, adm.procs, A.Step(adm, A.Begin(p)).s.procs);
      admitted := !(committing || n + (outstanding + 1) * MAXOPBLOCKS > LOGSIZE);
      if admitted {
        outstanding := outstanding + 1;
      }
      adm := A.Step(adm, A.Begin(p)).s;
    }

    /** bread of a home block, in an operation or outside. */
    method Read(bn: nat) returns (b: nat)
      requires Good() && bn !in cache.a.hand && cache.a.Room(bn) && !InLog(l, bn)
      modifies cache
      ensures Good() && cache.a == old(cache.a).Take(bn, b) && b < |cache.bufs|
      ensures cache.bufs[b].data == cache.a.view[bn]
    {
      hide Bcache.Valid, Homes, A.Inv;
      b := cache.Bread(ROOTDEV, bn);
    }

    /** An operation changes the bytes of a buffer it holds. */
    method Change(p: nat, b: nat, ghost bn: nat, data: Block)
      requires Good() && bn in cache.a.hand && cache.a.hand[bn] == b && p < |adm.procs| && adm.procs[p].Running?
      modifies cache, this`edits
      ensures Good() && bn < |old(cache.a).view| && cache.a == old(cache.a).Edited(bn, data)
      ensures edits == old(edits)[bn := p]
    {
      hide Bcache.Valid, Homes, A.Inv, Balanced;
      cache.Edit(b, bn, data);
      edits := edits[bn := p];
    }

    /** log_write by process p: the step of the admission protocol, whose panic is this one's.
        A new block is listed and pinned once, a listed one absorbed. */
    method LogWrite(p: nat, b: nat, ghost bn: nat) returns (panicked: bool)
      requires Good() && A.Enabled(adm, A.Write(p, bn)) && bn in cache.a.hand && cache.a.hand[bn] == b
      modifies this`n, this`block, this`adm, this`edits, cache
      ensures panicked <==> A.Step(old(adm), A.Write(p, bn)).Panic?
      ensures panicked ==> cache.a == old(cache.a) && adm == old(adm)
      ensures !panicked ==> Good() && A.Does(old(adm), A.Write(p, bn), adm) && edits == old(edits) - {bn}
      ensures !panicked ==> Listed(old(Lh()), Lh(), bn)
      ensures !panicked ==>
              bn < |old(cache.a).refs| && cache.a == if bn in old(Lh()) then old(cache.a) else old(cache.a).Pinned(bn)
    {
      hide Bcache.Valid, A.Sum, A.Inv, Homes, Balanced;
      A.WriteKeeps(adm, p, bn);
      A.WriteCounts(adm, p, bn);
      if n >= LOGSIZE || n >= l.size - 1 {
        return true;
      }
      if outstanding < 1 {
        return true;
      }
      ghost var s, lh := cache.a, Lh();
      ListBlock(b, bn);
      LoggedEdits(l, s, cache.a, lh, Lh(), edits, adm.procs, A.Step(adm, A.Write(p, bn)).s.procs, bn);
      adm := A.Step(adm, A.Write(p, bn)).s;
      edits := edits - {bn};
      return false;
    }

    /** The loop and the pin of log_write. */
    method ListBlock(b: nat, ghost bn: nat)
      requires Valid() && bn in cache.a.hand && cache.a.hand[bn] == b && !InLog(l, bn)
      requires n < LOGSIZE && n < l.size - 1 && Balanced(cache.a.refs, Lh(), cache.a.hand)
      modifies this`n, this`block, cache
      ensures Valid() && Balanced(cache.a.refs, Lh(), cache.a.hand) && Listed(old(Lh()), Lh(), bn)
      ensures cache.a == if bn in old(Lh()) then old(cache.a) else old(cache.a).Pinned(bn)
    {
      hide Bcache.Valid;
      var num := cache.BlockOf(b, bn);
      var i := FindListed(num);
      ghost var lh := Lh();
      block := block[i := num];
      if i == n {
        cache.Bpin(b, bn);
        n := n + 1;
        assert Lh() == lh + [bn];
      } else {
        assert Lh() == lh;
      }
    }

    /** log_write's search: the place of a listed block, or n. */
    method FindListed(num: nat) returns (i: nat)
      requires n <= |block|
      ensures i <= n && (i < n ==> Lh()[i] == num) && (i == n ==> num !in Lh())
    {
      i := 0;
      while i < n && block[i] != num
        invariant 0 <= i <= n
        invariant forall j | 0 <= j < i :: block[j] != num
      {
        i := i + 1;
      }
    }

    /** brelse of a home block that is unchanged or has been given to log_write. */
    method Release(b: nat, ghost bn: nat)
      requires Good() && bn in cache.a.hand && cache.a.hand[bn] == b && bn !in edits
      modifies cache
      ensures Good() && bn < |old(cache.a).refs| && old(cache.a).refs[bn] > 0 && cache.a == old(cache.a).Drop(bn)
    {
      hide Bcache.Valid, Homes, A.Inv;
      cache.Brelse(b, bn);
    }

    /** The sequence every file-system operation is made of: bread, change, log_write, brelse.
        With two blocks of its budget to spare it cannot panic on any log of LOGSIZE blocks. */
    method Update(p: nat, bn: nat, data: Block)
      requires Good() && l.size >= LOGSIZE && p < |adm.procs| && adm.procs[p].Running?
      requires adm.procs[p].used + 2 <= MAXOPBLOCKS
      requires bn !in cache.a.hand && cache.a.Room(bn) && !InLog(l, bn)
      modifies this`n, this`block, this`adm, this`edits, cache
      ensures Good() && A.Does(old(adm), A.Write(p, bn), adm)
      ensures bn < |old(cache.a).view| && cache.a.view == old(cache.a).view[bn := data]
      ensures cache.a.disk == old(cache.a).disk
      ensures cache.a.hand == old(cache.a).hand && bn in Lh()
    {
      hide Bcache.Valid, Homes, A.Inv, Balanced, Coupled, EditsOk;
      CoupledIs(adm, l, Lh(), outstanding, committing);
      A.SpareNeverPanics(adm, p, bn);
      var b := Read(bn);
      Change(p, b, bn, data);
      var panicked := LogWrite(p, b, bn);
      Release(b, bn);
    }

    /** The first critical section of end_op: the panic is unreachable, and exactly the
        operation that leaves last turns commit on. */
    method EndOp(p: nat) returns (doCommit: bool)
      requires Good() && A.Enabled(adm, A.End(p)) && forall b | b in edits :: edits[b] != p
      modifies this`outstanding, this`committing, this`adm
      ensures Good() && A.Does(old(adm), A.End(p), adm) && !old(committing)
      ensures doCommit == committing == (A.Outstanding(adm.procs) == 0)
    {
      hide Bcache.Valid, Balanced, Homes, A.Sum;
      A.EndKeeps(adm, p);
      A.EndCounts(adm, p);
      KeepEdits(l, cache.a, Lh(), edits, adm.procs, A.Step(adm, A.End(p)).s.procs);
      outstanding := outstanding - 1;
      assert !committing;
      doCommit := outstanding == 0;
      if doCommit {
        committing := true;
      }
      adm := A.Step(adm, A.End(p)).s;
    }

    /** The rest of end_op for that operation: commit, with nothing outstanding, and the second
        critical section. It waits until nobody holds a listed block; other blocks may be held. */
    method EndCommit()
      requires Good() && committing && NoneListed(cache.a.hand, Lh()) && n + |cache.a.hand| < NBUF
      modifies this`n, this`committing, this`adm, cache
      ensures Good() && A.Does(old(adm), A.CommitDone, adm) && n == 0
      ensures Committed(l, old(cache.a), old(Lh()), cache.a)
    {
      hide Bcache.Valid, Balanced, Homes, A.Sum, A.Inv, CommitTrace;
      A.NoneRunning(adm);
      NoEdits(l, cache.a, Lh(), edits, adm.procs);
      Commit();
      A.CommitKeeps(adm);
      A.CommitCounts(adm);
      committing := false;
      adm := A.Step(adm, A.CommitDone).s;
    }
  }
}
