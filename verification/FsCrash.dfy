/** File operations through the log: whatever the crash points, the recovered disk holds a consistent
    file system with the files as the last committed operation left them. */
module FsCrash {
  import opened Blocks
  import opened Common
  import opened LogSpec
  import opened FsSpec
  import opened FsDisk
  import opened FsLaws

  /** The log lies before the inodes. */
  predicate LogBelow(l: Layout, sb: Sb) { l.start + l.size <= sb.inodestart }

  /** A transaction that carries a step of the file system. */
  ghost predicate Carries(x: Txn, s: Step)
  {
    && |x.view| == |s.view|
    && (forall b :: b in x.blocks <==> b in s.logged)
    && (forall b | b in x.blocks :: b < |x.view| && x.view[b] == s.view[b])
  }

  /** The same files, byte for byte. */
  ghost predicate SameFiles(sb: Sb, d: Disk, e: Disk)
  {
    && LayoutOk(sb) && sb.bmapstart <= |d| && sb.bmapstart <= |e| && Inodes(sb, e) == Inodes(sb, d)
    && forall i | i in Inodes(sb, d) :: KeepsBytes(d, Inodes(sb, d)[i], e, Inodes(sb, d)[i])
  }

  lemma {:induction false} Listing(s: set<nat>) returns (blocks: seq<nat>)
    ensures |blocks| == |s| && (forall b :: b in blocks <==> b in s)
    ensures forall i, j | 0 <= i < j < |blocks| :: blocks[i] != blocks[j]
  {
    if s == {} {
      blocks := [];
    } else {
      var x :| x in s;
      var rest := Listing(s - {x});
      blocks := rest + [x];
    }
  }

  /** A step of few enough blocks fits one transaction, wherever it may crash. */
  lemma StepFits(l: Layout, sb: Sb, d: Disk, s: Step, crash: bool, at: nat, again: seq<nat>) returns (x: Txn)
    requires Covered(sb, d, s.view, s.logged) && LogBelow(l, sb) && |s.logged| <= LOGSIZE && |s.logged| < l.size
    ensures TxnOk(l, |d|, x) && Carries(x, s) && x.crash == crash && x.at == at && x.again == again
  {
    var blocks := Listing(s.logged);
    assert forall i | 0 <= i < |blocks| :: blocks[i] in s.logged;
    x := Txn(blocks, s.view, crash, at, again);
  }

  /** What a committed step puts on a disk that shows the step's start. */
  lemma StepLands(l: Layout, sb: Sb, d: Disk, e: Disk, x: Txn, s: Step)
    requires SameFrom(sb.inodestart, d, e) && Covered(sb, d, s.view, s.logged) && Carries(x, s)
    ensures SameFrom(sb.inodestart, s.view, Applied(e, x.view, x.blocks))
  {
  }

  /** Disks that agree from the inodes on hold the same files. */
  lemma SameFromSameFiles(sb: Sb, d: Disk, e: Disk)
    requires HoldsFs(sb, d) && SameFrom(sb.inodestart, d, e)
    ensures HoldsFs(sb, e) && SameFiles(sb, d, e)
  {
    hide FsOk, KeepsBytes, SameFrom;
    var owner :| Consistent(sb, d, owner);
    ConsistentFrame(sb, d, e, owner);
  }

  lemma SameFromRefl(a: nat, d: Disk)
    ensures SameFrom(a, d, d)
  {
  }

  lemma SameFromTrans(a: nat, d: Disk, e: Disk, f: Disk)
    requires SameFrom(a, d, e) && SameFrom(a, e, f)
    ensures SameFrom(a, d, f)
  {
  }

  lemma HomeEqSameFrom(l: Layout, sb: Sb, d: Disk, e: Disk)
    requires HomeEq(l, e, d) && LogBelow(l, sb)
    ensures SameFrom(sb.inodestart, d, e)
  {
  }

  /** One transaction: the disk then shows the step, or what it showed before. */
  lemma TxnLands(l: Layout, sb: Sb, start: Disk, live: Disk, x: Txn, s: Step)
    requires WellFormed(l, live) && HeadCount(live[l.start]) == 0 && LogBelow(l, sb) && TxnOk(l, |live|, x)
    requires SameFrom(sb.inodestart, start, live) && Covered(sb, start, s.view, s.logged) && Carries(x, s)
    ensures SameFrom(sb.inodestart, if Survives(x) then s.view else start, AfterTxn(l, live, x))
  {
    hide WellFormed, Survives, Covered, Carries, SameFrom, HomeEq, AfterTxn, Applied;
    var r := AfterTxn(l, live, x);
    if Survives(x) {
      StepLands(l, sb, start, live, x, s);
      HomeEqSameFrom(l, sb, Applied(live, x.view, x.blocks), r);
      SameFromTrans(sb.inodestart, s.view, Applied(live, x.view, x.blocks), r);
    } else {
      HomeEqSameFrom(l, sb, live, r);
      SameFromTrans(sb.inodestart, start, live, r);
    }
  }

  // ---------------------------------------------------------------- histories

  ghost predicate AllOk(l: Layout, d: Disk, txns: seq<Txn>)
  {
    forall i | 0 <= i < |txns| :: TxnOk(l, |d|, txns[i])
  }

  /** What the disk shows after the steps that survived: the view of the last of them. */
  ghost function Shown(d: Disk, txns: seq<Txn>, steps: seq<Step>): (r: Disk)
    requires |steps| == |txns|
  {
    if txns == [] then d
    else if Survives(txns[|txns| - 1]) then steps[|txns| - 1].view
    else Shown(d, txns[..|txns| - 1], steps[..|txns| - 1])
  }

  /** The k-th step starts from what the disk then holds, and its transaction carries it. */
  ghost predicate Starts(l: Layout, sb: Sb, d: Disk, txns: seq<Txn>, steps: seq<Step>, k: nat)
    requires WellFormed(l, d) && HeadCount(d[l.start]) == 0 && AllOk(l, d, txns) && k < |txns| == |steps|
  {
    Carries(txns[k], steps[k]) && StepOk(sb, Live(l, d, txns[..k]), steps[k])
  }

  lemma StartsBefore(l: Layout, sb: Sb, d: Disk, txns: seq<Txn>, steps: seq<Step>, n: nat, k: nat)
    requires WellFormed(l, d) && HeadCount(d[l.start]) == 0 && AllOk(l, d, txns) && k < n <= |txns| == |steps|
    requires Starts(l, sb, d, txns, steps, k)
    ensures Starts(l, sb, d, txns[..n], steps[..n], k)
  {
    hide WellFormed, Live, Carries, StepOk, TxnOk;
    assert txns[..n][..k] == txns[..k];
  }

  lemma StartsAt(l: Layout, sb: Sb, d: Disk, txns: seq<Txn>, steps: seq<Step>, k: nat)
    requires WellFormed(l, d) && HeadCount(d[l.start]) == 0 && AllOk(l, d, txns) && k < |txns| == |steps|
    requires Starts(l, sb, d, txns, steps, k)
    ensures Carries(txns[k], steps[k]) && HoldsFs(sb, steps[k].view)
    ensures Covered(sb, Live(l, d, txns[..k]), steps[k].view, steps[k].logged)
  {
    hide WellFormed, Live, Carries, HoldsFs, Covered, TxnOk;
  }

  lemma {:induction false} HistoryLands(l: Layout, sb: Sb, d: Disk, txns: seq<Txn>, steps: seq<Step>)
    requires WellFormed(l, d) && HeadCount(d[l.start]) == 0 && LogBelow(l, sb) && HoldsFs(sb, d)
    requires |steps| == |txns| && AllOk(l, d, txns)
    requires forall k: nat | k < |txns| :: Starts(l, sb, d, txns, steps, k)
    ensures HoldsFs(sb, Shown(d, txns, steps))
    ensures SameFrom(sb.inodestart, Shown(d, txns, steps), Live(l, d, txns))
  {
    hide WellFormed, HoldsFs, Carries, TxnOk, SameFrom, Survives, Covered, Starts, AfterTxn;
    if txns == [] {
      SameFromRefl(sb.inodestart, d);
    } else {
      var n := |txns| - 1;
      forall k: nat | k < n ensures Starts(l, sb, d, txns[..n], steps[..n], k) {
        StartsBefore(l, sb, d, txns, steps, n, k);
      }
      HistoryLands(l, sb, d, txns[..n], steps[..n]);
      StartsAt(l, sb, d, txns, steps, n);
      var live := Live(l, d, txns[..n]);
      SameFromRefl(sb.inodestart, live);
      TxnLands(l, sb, live, live, txns[n], steps[n]);
      if !Survives(txns[n]) {
        SameFromTrans(sb.inodestart, Shown(d, txns[..n], steps[..n]), live, Live(l, d, txns));
      }
    }
  }

  /** Crash-safe files: over any history of file operations, crashes and interrupted recoveries,
      the disk holds a consistent file system, and its files are byte for byte those of the last
      operation that survived; an operation survives exactly if its header write was reached. */
  lemma CrashSafe(l: Layout, sb: Sb, d: Disk, txns: seq<Txn>, steps: seq<Step>)
    requires WellFormed(l, d) && HeadCount(d[l.start]) == 0 && LogBelow(l, sb) && HoldsFs(sb, d)
    requires |steps| == |txns| && AllOk(l, d, txns)
    requires forall k: nat | k < |txns| :: Starts(l, sb, d, txns, steps, k)
    ensures HoldsFs(sb, Live(l, d, txns)) && SameFiles(sb, Shown(d, txns, steps), Live(l, d, txns))
  {
    hide WellFormed, HoldsFs, SameFrom, SameFiles, Live, Shown, Starts;
    HistoryLands(l, sb, d, txns, steps);
    SameFromSameFiles(sb, Shown(d, txns, steps), Live(l, d, txns));
  }

  // ---------------------------------------------------------------- several operations in one transaction

  ghost function AllLogged(steps: seq<Step>): (s: set<nat>)
  {
    if steps == [] then {} else AllLogged(steps[..|steps| - 1]) + steps[|steps| - 1].logged
  }

  /** Operations that share a transaction, as one: the last one's view, and all that any of them logged. */
  ghost function Group(steps: seq<Step>): (s: Step)
    requires steps != []
  {
    Step(steps[|steps| - 1].view, AllLogged(steps), steps[|steps| - 1].upto)
  }

  lemma CoveredTrans(sb: Sb, d: Disk, e: Disk, f: Disk, s: set<nat>, t: set<nat>)
    requires Covered(sb, d, e, s) && Covered(sb, e, f, t)
    ensures Covered(sb, d, f, s + t)
  {
  }

  lemma CoveredRefl(sb: Sb, d: Disk)
    ensures Covered(sb, d, d, {})
  {
  }

  lemma ChainAt(sb: Sb, d: Disk, steps: seq<Step>, k: nat)
    requires Chain(sb, d, steps) && k < |steps|
    ensures HoldsFs(sb, steps[k].view) && Covered(sb, Before(d, steps, k), steps[k].view, steps[k].logged)
  {
    assert Follows(sb, d, steps, k);
  }

  lemma {:induction false} ChainCovered(sb: Sb, d: Disk, steps: seq<Step>, k: nat)
    requires Chain(sb, d, steps) && k <= |steps|
    ensures Covered(sb, d, Before(d, steps, k), AllLogged(steps[..k]))
  {
    hide Chain, Covered;
    if k == 0 {
      CoveredRefl(sb, d);
    } else {
      ChainCovered(sb, d, steps, k - 1);
      ChainAt(sb, d, steps, k - 1);
      assert steps[..k][..k - 1] == steps[..k - 1];
      CoveredTrans(sb, d, Before(d, steps, k - 1), steps[k - 1].view, AllLogged(steps[..k - 1]), steps[k - 1].logged);
    }
  }

  /** Operations one after the other are one operation that logs what any of them logged. */
  lemma GroupOk(sb: Sb, d: Disk, steps: seq<Step>)
    requires Chain(sb, d, steps) && steps != []
    ensures StepOk(sb, d, Group(steps))
  {
    hide Chain, Covered, HoldsFs;
    ChainAt(sb, d, steps, |steps| - 1);
    ChainCovered(sb, d, steps, |steps|);
    assert steps[..|steps|] == steps;
  }

  ghost function Grouped(groups: seq<seq<Step>>): (steps: seq<Step>)
    requires forall k | 0 <= k < |groups| :: groups[k] != []
    ensures |steps| == |groups|
  {
    seq(|groups|, k requires 0 <= k < |groups| => Group(groups[k]))
  }

  /** The k-th group is a chain of operations from what the disk then holds. */
  ghost predicate GroupStarts(l: Layout, sb: Sb, d: Disk, txns: seq<Txn>, groups: seq<seq<Step>>, k: nat)
    requires WellFormed(l, d) && HeadCount(d[l.start]) == 0 && AllOk(l, d, txns) && k < |txns| == |groups|
  {
    groups[k] != [] && Carries(txns[k], Group(groups[k])) && Chain(sb, Live(l, d, txns[..k]), groups[k])
  }

  /** Crash-safe files when operations share transactions: a group survives as a whole or not at
      all, and the files are those that the last surviving group's last operation left. */
  lemma GroupCrashSafe(l: Layout, sb: Sb, d: Disk, txns: seq<Txn>, groups: seq<seq<Step>>)
    requires WellFormed(l, d) && HeadCount(d[l.start]) == 0 && LogBelow(l, sb) && HoldsFs(sb, d)
    requires |groups| == |txns| && AllOk(l, d, txns)
    requires forall k: nat | k < |txns| :: GroupStarts(l, sb, d, txns, groups, k)
    ensures forall k | 0 <= k < |groups| :: groups[k] != []
    ensures HoldsFs(sb, Live(l, d, txns)) && SameFiles(sb, Shown(d, txns, Grouped(groups)), Live(l, d, txns))
  {
    hide WellFormed, HoldsFs, SameFiles, Live, Shown, Carries, Chain, StepOk, TxnOk;
    forall k: nat | k < |groups| ensures groups[k] != [] {
      assert GroupStarts(l, sb, d, txns, groups, k);
    }
    var steps := Grouped(groups);
    forall k: nat | k < |txns| ensures Starts(l, sb, d, txns, steps, k) {
      assert GroupStarts(l, sb, d, txns, groups, k);
      GroupOk(sb, Live(l, d, txns[..k]), groups[k]);
    }
    CrashSafe(l, sb, d, txns, steps);
  }

  // ---------------------------------------------------------------- a crash in the middle of a filewrite

  /** The transactions of the first chunks of a filewrite; only the last may have crashed. */
  ghost predicate CutShort(l: Layout, d: Disk, steps: seq<Step>, txns: seq<Txn>)
  {
    && |txns| <= |steps| && AllOk(l, d, txns)
    && (forall k | 0 <= k < |txns| :: Carries(txns[k], steps[k]))
    && (forall k | 0 <= k < |txns| - 1 :: Survives(txns[k]))
  }

  /** How many steps are on the disk then. */
  ghost function Landed(txns: seq<Txn>): (k: nat)
    ensures k <= |txns|
  {
    if txns == [] then 0 else if Survives(txns[|txns| - 1]) then |txns| else |txns| - 1
  }

  lemma {:induction false} ChainLands(l: Layout, sb: Sb, d: Disk, steps: seq<Step>, txns: seq<Txn>)
    requires WellFormed(l, d) && HeadCount(d[l.start]) == 0 && LogBelow(l, sb)
    requires Chain(sb, d, steps) && CutShort(l, d, steps, txns)
    ensures SameFrom(sb.inodestart, Before(d, steps, Landed(txns)), Live(l, d, txns))
    decreases |txns|
  {
    hide WellFormed, HoldsFs, Carries, TxnOk, SameFrom, Survives, Covered, AfterTxn, Chain;
    if txns == [] {
      SameFromRefl(sb.inodestart, d);
    } else {
      var n := |txns| - 1;
      ChainLands(l, sb, d, steps, txns[..n]);
      assert Landed(txns[..n]) == n;
      ChainAt(sb, d, steps, n);
      TxnLands(l, sb, Before(d, steps, n), Live(l, d, txns[..n]), txns[n], steps[n]);
    }
  }

  lemma NothingWrote(sb: Sb, d: Disk, inum: nat, off: nat, src: seq<Byte>)
    requires HoldsFs(sb, d) && LayoutOk(sb) && sb.bmapstart <= |d|
    requires inum < sb.ninodes && off <= InodeOf(sb, d, inum).size
    ensures Wrote(d, Inodes(sb, d), d, Inodes(sb, d), inum, off, src, 0, 0)
  {
    hide FsOk, Wrote;
    var owner :| Consistent(sb, d, owner);
    WroteNothing(sb, d, Inodes(sb, d), owner, inum, off, src);
  }

  /** A disk with the same files shows the same write. */
  lemma WroteSame(sb: Sb, blk0: Disk, inodes0: map<nat, Inode>, d: Disk, e: Disk,
                  inum: nat, off: nat, src: seq<Byte>, tot: nat, got: nat)
    requires SameFiles(sb, d, e) && Wrote(blk0, inodes0, d, Inodes(sb, d), inum, off, src, tot, got)
    ensures Wrote(blk0, inodes0, e, Inodes(sb, e), inum, off, src, tot, got)
  {
    hide Bytes, Splice, Mapped, InodeOf;
    var inodes := Inodes(sb, d);
    KeptMapped(d, inodes[inum], e, inodes[inum], inodes[inum].size);
    UpdateOthers(blk0, inodes0, d, inodes, e, inum);
  }

  /** A filewrite cut short by a crash at any block write of any of its operations: after recovery
      the file system is consistent, the file holds exactly the chunks whose operations survived,
      and no other file changed. */
  lemma WriteCutShort(l: Layout, sb: Sb, d: Disk, steps: seq<Step>, txns: seq<Txn>, inum: nat, off: nat, src: seq<Byte>)
    requires WellFormed(l, d) && HeadCount(d[l.start]) == 0 && LogBelow(l, sb) && HoldsFs(sb, d)
    requires Chain(sb, d, steps) && Growing(sb, d, steps, inum, off, src) && CutShort(l, d, steps, txns)
    requires inum < sb.ninodes && off <= InodeOf(sb, d, inum).size
    ensures HoldsFs(sb, Live(l, d, txns)) && sb.bmapstart <= |Live(l, d, txns)|
    ensures var upto := if Landed(txns) == 0 then 0 else steps[Landed(txns) - 1].upto;
            Wrote(d, Inodes(sb, d), Live(l, d, txns), Inodes(sb, Live(l, d, txns)), inum, off, src, upto, upto)
  {
    hide WellFormed, HoldsFs, SameFrom, SameFiles, Live, Landed, Wrote, StepOk, Inodes;
    ChainLands(l, sb, d, steps, txns);
    var k, r := Landed(txns), Live(l, d, txns);
    var e := Before(d, steps, k);
    if k == 0 {
      NothingWrote(sb, d, inum, off, src);
    } else {
      ChainAt(sb, d, steps, k - 1);
    }
    SameFromSameFiles(sb, e, r);
    var upto := if k == 0 then 0 else steps[k - 1].upto;
    WroteSame(sb, d, Inodes(sb, d), e, r, inum, off, src, upto, upto);
  }
}
