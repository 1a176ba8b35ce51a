/** The file system's operations run through the log: its log_write calls as the log sees them. */
module FsLog {
  import opened Blocks
  import opened Common
  import opened BufferCache
  import opened LogSpec
  import opened FsSpec
  import opened FsDisk
  import opened FsLaws
  import opened FsRoom
  import C = FsCrash
  import A = LogAdmission
  import L = Log
  import F = Fs

  /** A process inside an operation that has recorded at most the blocks of these writes. */
  ghost predicate Spending(adm: A.State, p: nat, writes: Writes)
  {
    && p < |adm.procs| && adm.procs[p].Running? && adm.procs[p].used <= |Touched(writes)|
    && forall b | b in Touched(writes) :: b in adm.lh
  }

  lemma TouchOne(writes: Writes, b: nat, data: Block)
    ensures Touched(writes + [(b, data)]) == Touched(writes) + {b}
  {
    hide PutWord;
    ApplyOne(seq(b + 1, _ => Zeros()), writes, b, data);
  }

  /** One more log_write costs budget and a place in the list only if its block is new. */
  lemma SpendOne(adm: A.State, adm1: A.State, p: nat, writes: Writes, b: nat, data: Block)
    requires Spending(adm, p, writes) && A.Does(adm, A.Write(p, b), adm1)
    ensures Spending(adm1, p, writes + [(b, data)])
    ensures |adm1.lh| - |Touched(writes + [(b, data)])| <= |adm.lh| - |Touched(writes)|
  {
    TouchOne(writes, b, data);
    assert b in adm1.lh;
    if b !in Touched(writes) {
      assert |Touched(writes) + {b}| == |Touched(writes)| + 1;
    } else {
      assert Touched(writes) + {b} == Touched(writes);
    }
  }

  lemma TouchedLess(writes: Writes, i: nat)
    requires i <= |writes|
    ensures Touched(writes[..i]) <= Touched(writes) && |Touched(writes[..i])| <= |Touched(writes)|
  {
    forall x | x in Touched(writes[..i]) ensures x in Touched(writes) {
      var w :| w in writes[..i] && w.0 == x;
      assert w in writes;
    }
    CardLe(Touched(writes[..i]), Touched(writes));
  }

  /** There is a buffer for the next block. */
  lemma NextHasRoom(s: Abs, lh: seq<nat>, b: nat)
    requires L.Balanced(s.refs, lh, s.hand) && b < |s.refs| && b !in s.hand
    requires b in lh || |lh| + |s.hand| < NBUF
    ensures s.Room(b)
  {
    L.PinsLeaveRoom(s.refs, lh, s.hand);
  }

  /** Every block of these writes can be changed through the log: it lies on the disk outside the
      log, and nobody holds it. */
  ghost predicate Writable(l: Layout, s: Abs, writes: Writes)
  {
    forall w | w in writes :: w.0 < |s.disk| && !InLog(l, w.0) && w.0 !in s.hand
  }

  /** Before a call: budget to spare, and a buffer. */
  lemma MaySpend(s: Abs, adm: A.State, p: nat, writes: Writes, i: nat, n0: nat)
    requires i < |writes| && Spending(adm, p, writes[..i]) && |Touched(writes)| <= MAXOPBLOCKS - 2
    requires L.Balanced(s.refs, adm.lh, s.hand) && writes[i].0 < |s.refs| && writes[i].0 !in s.hand
    requires |adm.lh| - |Touched(writes[..i])| <= n0 && n0 + |Touched(writes)| + |s.hand| <= NBUF
    ensures p < |adm.procs| && adm.procs[p].Running? && adm.procs[p].used + 2 <= MAXOPBLOCKS && s.Room(writes[i].0)
  {
    hide Touched, L.Balanced, Abs.Room;
    var b := writes[i].0;
    TouchedLess(writes, i);
    TouchedLess(writes, i + 1);
    TouchOne(writes[..i], b, writes[i].1);
    assert writes[..i] + [(b, writes[i].1)] == writes[..i + 1];
    if b !in Touched(writes[..i]) {
      assert |Touched(writes[..i]) + {b}| == |Touched(writes[..i])| + 1;
    }
    NextHasRoom(s, adm.lh, b);
  }

  /** log_write ends no operation and starts none. */
  lemma WriteStays(adm: A.State, adm1: A.State, p: nat, b: nat)
    requires A.Does(adm, A.Write(p, b), adm1)
    ensures A.Outstanding(adm1.procs) == A.Outstanding(adm.procs)
  {
    hide A.Sum;
    A.SumAt(adm.procs, A.One, p, adm1.procs[p]);
  }

  lemma BeginStarts(adm: A.State, adm1: A.State, p: nat)
    requires A.Does(adm, A.Begin(p), adm1)
    ensures A.Admissible(adm) <==> adm1.procs[p].Running?
    ensures A.Admissible(adm) ==> A.Outstanding(adm1.procs) == A.Outstanding(adm.procs) + 1
  {
    hide A.Sum;
    A.BeginCounts(adm, p);
  }

  lemma EndEnds(adm: A.State, adm1: A.State, p: nat)
    requires A.Does(adm, A.End(p), adm1) && A.Inv(adm)
    ensures A.Outstanding(adm1.procs) == A.Outstanding(adm.procs) - 1
  {
    hide A.Sum;
    A.EndCounts(adm, p);
  }

  /** One call. */
  method SubmitOne(log: L.Log, p: nat, writes: Writes, i: nat, ghost n0: nat)
    requires log.Good() && log.l.size >= LOGSIZE && i < |writes| && |Touched(writes)| <= MAXOPBLOCKS - 2
    requires Spending(log.adm, p, writes[..i]) && Writable(log.l, log.cache.a, writes)
    requires log.n - |Touched(writes[..i])| <= n0 && n0 + |Touched(writes)| + |log.cache.a.hand| <= NBUF
    modifies log, log.cache
    ensures log.Good() && Spending(log.adm, p, writes[..i + 1])
    ensures writes[i].0 < |old(log.cache.a).view| == |old(log.cache.a).disk|
    ensures log.cache.a.view == old(log.cache.a).view[writes[i].0 := writes[i].1]
    ensures log.cache.a.disk == old(log.cache.a).disk && log.cache.a.hand == old(log.cache.a).hand
    ensures log.n - |Touched(writes[..i + 1])| <= n0
    ensures A.Outstanding(log.adm.procs) == A.Outstanding(old(log.adm).procs)
  {
    hide L.Log.Good, Touched, A.Does, L.Balanced, Spending, Abs.Room, A.Sum;
    var b, data := writes[i].0, writes[i].1;
    assert writes[..i] + [(b, data)] == writes[..i + 1] && writes[i] in writes;
    ghost var adm := log.adm;
    log.Books();
    MaySpend(log.cache.a, adm, p, writes, i, n0);
    log.Update(p, b, data);
    log.Books();
    SpendOne(adm, log.adm, p, writes[..i], b, data);
    WriteStays(adm, log.adm, p, b);
  }

  lemma ApplyNext(d: Disk, writes: Writes, i: nat)
    requires i < |writes| && writes[i].0 < |d|
    ensures Apply(d, writes[..i + 1]) == Apply(d, writes[..i])[writes[i].0 := writes[i].1]
  {
    hide Apply;
    assert writes[..i] + [(writes[i].0, writes[i].1)] == writes[..i + 1];
    ApplyOne(d, writes[..i], writes[i].0, writes[i].1);
  }

  lemma NoWrites(d: Disk)
    ensures Apply(d, []) == d && Touched([]) == {}
  {
  }

  /** The log_write calls of one operation, however many, on at most MAXOPBLOCKS - 2 different
      blocks: none panics on a log region of LOGSIZE blocks, and reads then show all of them. */
  method Submit(log: L.Log, p: nat, writes: Writes)
    requires log.Good() && log.l.size >= LOGSIZE && Spending(log.adm, p, []) && |Touched(writes)| <= MAXOPBLOCKS - 2
    requires Writable(log.l, log.cache.a, writes) && log.n + |Touched(writes)| + |log.cache.a.hand| <= NBUF
    modifies log, log.cache
    ensures log.Good() && Spending(log.adm, p, writes)
    ensures log.cache.a.view == Apply(old(log.cache.a).view, writes)
    ensures log.cache.a.disk == old(log.cache.a).disk && log.cache.a.hand == old(log.cache.a).hand
    ensures log.n - |Touched(writes)| <= old(log.n)
    ensures A.Outstanding(log.adm.procs) == A.Outstanding(old(log.adm).procs)
  {
    hide L.Log.Good, Apply, Touched, Spending, A.Sum;
    ghost var s, n0 := log.cache.a, log.n;
    NoWrites(s.view);
    var i := 0;
    while i < |writes|
      invariant 0 <= i <= |writes| && log.Good() && Spending(log.adm, p, writes[..i])
      invariant log.cache.a.view == Apply(s.view, writes[..i]) && log.cache.a.disk == s.disk
      invariant log.cache.a.hand == s.hand && log.n - |Touched(writes[..i])| <= n0
      invariant A.Outstanding(log.adm.procs) == A.Outstanding(old(log.adm).procs)
    {
      log.Books();
      SubmitOne(log, p, writes, i, n0);
      ApplyNext(s.view, writes, i);
      i := i + 1;
    }
    assert writes[..i] == writes;
  }

  /** Writes that change two disks alike. */
  lemma {:induction false} ApplySame(a: nat, d: Disk, e: Disk, writes: Writes)
    requires SameFrom(a, d, e)
    ensures SameFrom(a, Apply(d, writes), Apply(e, writes))
  {
    if writes != [] {
      ApplySame(a, d, e, writes[..|writes| - 1]);
    }
  }

  lemma SameLength(a: nat, d: Disk, e: Disk)
    requires SameFrom(a, d, e)
    ensures |d| == |e|
  {
  }

  /** Just admitted: the whole budget is left, so the list has room for it. */
  lemma Admitted(adm: A.State, p: nat)
    requires A.Inv(adm) && p < |adm.procs| && adm.procs[p] == A.Running(0, 0)
    ensures |adm.lh| + MAXOPBLOCKS <= LOGSIZE && Spending(adm, p, [])
  {
    hide A.Sum;
    A.SumBound(adm.procs, A.Left, p);
  }

  lemma Running(adm: A.State, p: nat, writes: Writes)
    requires Spending(adm, p, writes)
    ensures A.Enabled(adm, A.End(p))
  {
  }

  lemma AllWritable(l: Layout, s: Abs, sb: Sb, writes: Writes)
    requires l.start + l.size <= sb.inodestart && s.hand == map[]
    requires forall b | b in Touched(writes) :: sb.inodestart <= b < |s.disk|
    ensures Writable(l, s, writes)
  {
    forall w | w in writes ensures sb.inodestart <= w.0 < |s.disk| {
      assert w.0 in Touched(writes);
    }
  }

  /** After a commit the disk, too, shows what the file system shows. */
  lemma HomesSame(l: Layout, sb: Sb, view: Disk, disk: Disk, blk: Disk)
    requires HomeEq(l, disk, view) && C.LogBelow(l, sb)
    ensures SameFrom(sb.inodestart, blk, view) ==> SameFrom(sb.inodestart, blk, disk)
  {
  }

  lemma CommittedHomes(l: Layout, s: Abs, lh: seq<nat>, t: Abs)
    requires L.Committed(l, s, lh, t)
    ensures t.view == t.disk && t.hand == s.hand && HomeEq(l, t.disk, s.view)
  {
    hide L.ThroughTrace, HomeEq;
  }

  /** end_op with nothing held: the last operation out commits. */
  method Leave(log: L.Log, p: nat) returns (committed: bool)
    requires log.Good() && A.Enabled(log.adm, A.End(p)) && log.cache.a.hand == map[] && log.n < NBUF
    modifies log, log.cache
    ensures log.Good() && log.cache.a.hand == map[]
    ensures committed <==> A.Outstanding(old(log.adm).procs) == 1
    ensures !committed ==> log.cache.a == old(log.cache.a)
    ensures committed ==> log.n == 0 && log.cache.a.disk == log.cache.a.view
    ensures committed ==> HomeEq(log.l, log.cache.a.disk, old(log.cache.a).view)
  {
    hide L.Log.Good, L.Committed, A.Does, A.Sum, A.Inv, HomeEq;
    log.NothingHeld();
    log.Books();
    ghost var before := log.adm;
    committed := log.EndOp(p);
    EndEnds(before, log.adm, p);
    if committed {
      ghost var s, lh := log.cache.a, log.Lh();
      log.EndCommit();
      CommittedHomes(log.l, s, lh, log.cache.a);
    }
  }

  /** Disk d, read from scratch, shows the write. */
  ghost predicate Lands(sb: Sb, blk0: Disk, inodes0: map<nat, Inode>, d: Disk, inum: nat, off: nat, src: seq<Byte>,
                        tot: nat, got: nat)
  {
    && LayoutOk(sb) && sb.bmapstart <= |d|
    && Wrote(blk0, inodes0, d, Inodes(sb, d), inum, off, src, tot, got)
  }

  lemma WriteLands(sb: Sb, blk0: Disk, inodes0: map<nat, Inode>, blk: Disk, owner: Owner, d: Disk,
                   inum: nat, off: nat, src: seq<Byte>, tot: nat, got: nat)
    requires Consistent(sb, blk, owner) && SameFrom(sb.inodestart, blk, d)
    requires Wrote(blk0, inodes0, blk, Inodes(sb, blk), inum, off, src, tot, got)
    ensures Lands(sb, blk0, inodes0, d, inum, off, src, tot, got)
  {
    hide Wrote, SameFrom, FsOk, C.SameFiles;
    C.SameFromSameFiles(sb, blk, d);
    C.WroteSame(sb, blk0, inodes0, blk, d, inum, off, src, tot, got);
  }

  /** A chunk of filewrite from begin_op to end_op, on a disk whose free map is one block. */
  method ChunkThroughLog(fs: F.FileSystem, log: L.Log, p: nat, inum: nat, src: seq<Byte>, readable: nat, off: nat,
                         n: nat)
    returns (admitted: bool, r: int, committed: bool, ghost got: nat)
    requires log.Good() && log.l.size >= LOGSIZE && A.Enabled(log.adm, A.Begin(p)) && log.cache.a.hand == map[]
    requires fs.Valid() && fs.Synced() && fs.stray == {} && inum in fs.inodes && fs.sb.size <= BPB
    requires off < UINT && n <= CHUNK && |src| == n && log.l.start + log.l.size <= fs.sb.inodestart
    requires SameFrom(fs.sb.inodestart, fs.blk, log.cache.a.view) && |log.cache.a.disk| == |log.cache.a.view|
    modifies fs, log, log.cache
    ensures log.Good() && fs.Valid() && fs.Synced() && log.cache.a.hand == map[]
    ensures !admitted ==> fs.blk == old(fs.blk) && fs.inodes == old(fs.inodes) && log.cache.a == old(log.cache.a)
    ensures admitted ==> (r == -1 <==> WriteRefused(old(fs.inodes)[inum], off, n))
    ensures admitted && r == -1 ==> fs.blk == old(fs.blk) && fs.inodes == old(fs.inodes)
    ensures admitted && r != -1 ==>
              && 0 <= r <= n && Wrote(old(fs.blk), old(fs.inodes), fs.blk, fs.inodes, inum, off, src, r, got)
              && Outcome(old(fs.Spare(inum)), off, n, readable, r, got)
    ensures fs.stray == {} ==> SameFrom(fs.sb.inodestart, fs.blk, log.cache.a.view)
    ensures committed ==> log.n == 0 && log.cache.a.disk == log.cache.a.view
    ensures committed && r >= 0 && fs.stray == {} ==>
              Lands(fs.sb, old(fs.blk), old(fs.inodes), log.cache.a.disk, inum, off, src, r, got)
    ensures admitted <==> A.Admissible(old(log.adm))
    ensures committed <==> admitted && A.Outstanding(old(log.adm).procs) == 0
    ensures admitted && r != -1 ==>
              (fs.stray == {} <==> !Torn(old(fs.Spare(inum)), off, n, readable))
  {
    hide L.Log.Good, F.FileSystem.Valid, Apply, Touched, Spending, SameFrom, L.Balanced, Covers, StepOk, Wrote,
         RoomOf, Outcome, Spared, Full, L.Committed, Writable, A.Does, A.Sum, A.Inv, HomeEq,
         A.Admissible, Lands, Consistent, Inodes;
    committed, r, got := false, 0, 0;
    SameLength(fs.sb.inodestart, fs.blk, log.cache.a.view);
    admitted := log.BeginOp(p);
    BeginStarts(old(log.adm), log.adm, p);
    if !admitted {
      return;
    }
    ghost var view, adm := log.cache.a.view, log.adm;
    log.Books();
    Admitted(adm, p);
    ghost var step;
    r, got, step := fs.WriteChunk(inum, src, readable, off, n, 0);
    if r != -1 {
      TornExactly(old(fs.Spare(inum)), off, n, readable, r, got);
    } else {
      NoWrites(view);
    }
    AllWritable(log.l, log.cache.a, fs.sb, fs.writes);
    Submit(log, p, fs.writes);
    ApplySame(fs.sb.inodestart, old(fs.blk), view, fs.writes);
    log.Books();
    Running(log.adm, p, fs.writes);
    ghost var shown := log.cache.a.view;
    committed := Leave(log, p);
    if committed {
      HomesSame(log.l, fs.sb, shown, log.cache.a.disk, fs.blk);
      if r != -1 && fs.stray == {} {
        fs.SyncedConsistent();
        WriteLands(fs.sb, old(fs.blk), old(fs.inodes), fs.blk, fs.owner, log.cache.a.disk, inum, off, src, r, got);
      }
    }
  }
}
