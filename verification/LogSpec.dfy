/** What the on-disk log of kernel/log.c means: the header codec, what recovery makes of
    a disk, and the disks that commit and recovery pass through one block write at a time. */
module LogSpec {
  import opened Blocks

  const MAXOPBLOCKS := 10
  const LOGSIZE := 30       // MAXOPBLOCKS * 3

  /** Where the log lies: header at start, log blocks at start+1 .. start+size-1. */
  datatype Layout = Layout(start: nat, size: nat)

  predicate InLog(l: Layout, b: nat) { l.start <= b < l.start + l.size }

  ghost predicate Fits(l: Layout, d: Disk)
  {
    0 < l.size && l.start + l.size <= |d| <= 0x1_0000_0000
  }

  /** A list of logged home blocks: distinct, on the disk, outside the log, and few enough. */
  ghost predicate Homes(l: Layout, dsize: nat, blocks: seq<nat>)
  {
    && |blocks| <= LOGSIZE && |blocks| < l.size
    && (forall i | 0 <= i < |blocks| :: blocks[i] < dsize && !InLog(l, blocks[i]))
    && (forall i, j | 0 <= i < j < |blocks| :: blocks[i] != blocks[j])
  }

  /** Two disks with the same home blocks. */
  ghost predicate HomeEq(l: Layout, d: Disk, e: Disk)
  {
    |d| == |e| && forall b | 0 <= b < |d| && !InLog(l, b) :: d[b] == e[b]
  }

  // ---------------------------------------------------------------- the header codec

  /** hb->n and hb->block[..k] stored into a header block; the other words stay. */
  function PutHead(b: Block, blocks: seq<nat>, k: nat): (r: Block)
    requires k <= |blocks| <= LOGSIZE
    requires forall i | 0 <= i < |blocks| :: blocks[i] < 0x1_0000_0000
    ensures GetWord(r, 0) == |blocks|
    ensures forall i | 0 <= i < k :: GetWord(r, i + 1) == blocks[i]
  {
    if k == 0 then PutWord(b, 0, |blocks|) else PutWord(PutHead(b, blocks, k - 1), k, blocks[k - 1])
  }

  function HeadCount(b: Block): (n: nat) { GetWord(b, 0) }

  function HeadBlocks(b: Block): (s: seq<nat>)
    requires HeadCount(b) <= LOGSIZE
    ensures |s| == HeadCount(b)
  {
    seq(HeadCount(b), i requires 0 <= i < LOGSIZE => GetWord(b, i + 1))
  }

  lemma HeadRoundTrip(b: Block, blocks: seq<nat>)
    requires |blocks| <= LOGSIZE
    requires forall i | 0 <= i < |blocks| :: blocks[i] < 0x1_0000_0000
    ensures HeadBlocks(PutHead(b, blocks, |blocks|)) == blocks
  {
  }

  // ---------------------------------------------------------------- recovery

  /** A disk whose log can be recovered. */
  ghost predicate WellFormed(l: Layout, d: Disk)
  {
    && Fits(l, d)
    && HeadCount(d[l.start]) <= LOGSIZE
    && Homes(l, |d|, HeadBlocks(d[l.start]))
  }

  /** install_trans stopped after k copies. */
  function Install(l: Layout, d: Disk, blocks: seq<nat>, k: nat): (r: Disk)
    requires k <= |blocks| && l.start + k < |d|
    requires forall i | 0 <= i < |blocks| :: blocks[i] < |d|
    ensures |r| == |d|
  {
    if k == 0 then d else
    var e := Install(l, d, blocks, k - 1);
    e[blocks[k - 1] := e[l.start + k]]
  }

  /** write_head: the header block now lists `blocks`. */
  function WithHead(l: Layout, d: Disk, blocks: seq<nat>): (r: Disk)
    requires l.start < |d| && |blocks| <= LOGSIZE
    requires forall i | 0 <= i < |blocks| :: blocks[i] < 0x1_0000_0000
    ensures |r| == |d|
  {
    d[l.start := PutHead(d[l.start], blocks, |blocks|)]
  }

  /** recover_from_log, run to the end. */
  ghost function Recover(l: Layout, d: Disk): (r: Disk)
    requires WellFormed(l, d)
    ensures |r| == |d|
  {
    var blocks := HeadBlocks(d[l.start]);
    WithHead(l, Install(l, d, blocks, |blocks|), [])
  }

  /** Installing touches the listed homes only, and each gets its log block. */
  lemma {:induction false} InstallAt(l: Layout, d: Disk, blocks: seq<nat>, k: nat, b: nat)
    requires Fits(l, d) && Homes(l, |d|, blocks) && k <= |blocks| && b < |d|
    ensures b !in blocks[..k] ==> Install(l, d, blocks, k)[b] == d[b]
    ensures forall i | 0 <= i < k && blocks[i] == b :: Install(l, d, blocks, k)[b] == d[l.start + 1 + i]
  {
    if k > 0 {
      InstallAt(l, d, blocks, k - 1, b);
      InstallAt(l, d, blocks, k - 1, l.start + k);
      assert blocks[..k] == blocks[..k-1] + [blocks[k-1]];
    }
  }

  /** A crash inside install_trans loses nothing: the log is intact and starting over
      completes to the same home blocks. */
  lemma InstallAgain(l: Layout, d: Disk, blocks: seq<nat>, k: nat)
    requires Fits(l, d) && Homes(l, |d|, blocks) && k <= |blocks|
    ensures Install(l, d, blocks, k)[l.start] == d[l.start]
    ensures HomeEq(l, Install(l, Install(l, d, blocks, k), blocks, |blocks|), Install(l, d, blocks, |blocks|))
  {
    var e, n := Install(l, d, blocks, k), |blocks|;
    InstallAt(l, d, blocks, k, l.start);
    forall b | 0 <= b < |d| && !InLog(l, b)
      ensures Install(l, e, blocks, n)[b] == Install(l, d, blocks, n)[b]
    {
      InstallAt(l, e, blocks, n, b);
      InstallAt(l, d, blocks, n, b);
      if b in blocks {
        var i :| 0 <= i < n && blocks[i] == b;
        InstallAt(l, d, blocks, k, l.start + 1 + i);
      } else {
        assert blocks[..n] == blocks;
        InstallAt(l, d, blocks, k, b);
      }
    }
  }

  /** With an empty header recovery changes no home block. */
  lemma RecoverEmpty(l: Layout, d: Disk)
    requires WellFormed(l, d) && HeadCount(d[l.start]) == 0
    ensures HomeEq(l, Recover(l, d), d)
  {
  }

  lemma RecoverDone(l: Layout, d: Disk)
    requires WellFormed(l, d)
    ensures WellFormed(l, Recover(l, d)) && HeadCount(Recover(l, d)[l.start]) == 0
    ensures HomeEq(l, Recover(l, Recover(l, d)), Recover(l, d))
  {
    RecoverEmpty(l, Recover(l, d));
  }

  /** The disks recovery passes through, one per block write. */
  ghost function RecoverTrace(l: Layout, d: Disk): (t: seq<Disk>)
    requires WellFormed(l, d)
  {
    var blocks := HeadBlocks(d[l.start]);
    InstallTrace(l, d, blocks) + [Recover(l, d)]
  }

  ghost function InstallTrace(l: Layout, d: Disk, blocks: seq<nat>): (t: seq<Disk>)
    requires l.start + |blocks| < |d|
    requires forall i | 0 <= i < |blocks| :: blocks[i] < |d|
    ensures |t| == |blocks|
  {
    seq(|blocks|, k requires 0 <= k < |blocks| => Install(l, d, blocks, k + 1))
  }

  /** After a crash at any write of recovery, recovering again reaches the same home blocks. */
  lemma RecoverTraceSafe(l: Layout, d: Disk, j: nat)
    requires WellFormed(l, d) && j < |RecoverTrace(l, d)|
    ensures WellFormed(l, RecoverTrace(l, d)[j])
    ensures HomeEq(l, Recover(l, RecoverTrace(l, d)[j]), Recover(l, d))
  {
    var blocks := HeadBlocks(d[l.start]);
    if j < |blocks| {
      InstallAgain(l, d, blocks, j + 1);
    } else {
      RecoverDone(l, d);
    }
  }

  // ---------------------------------------------------------------- commit

  /** write_log stopped after k copies: log block i holds the view of home block blocks[i]. */
  function LogWritten(l: Layout, d: Disk, view: Disk, blocks: seq<nat>, k: nat): (r: Disk)
    requires k <= |blocks| && l.start + k < |d|
    requires forall i | 0 <= i < |blocks| :: blocks[i] < |view|
    ensures |r| == |d|
    ensures forall b | 0 <= b < |d| && !(l.start < b <= l.start + k) :: r[b] == d[b]
    ensures forall i | 0 <= i < k :: r[l.start + 1 + i] == view[blocks[i]]
  {
    if k == 0 then d else
    LogWritten(l, d, view, blocks, k - 1)[l.start + k := view[blocks[k - 1]]]
  }

  /** The disk right after the first write_head of commit. */
  ghost function Sealed(l: Layout, d: Disk, view: Disk, blocks: seq<nat>): (r: Disk)
    requires Fits(l, d) && Homes(l, |d|, blocks) && |view| == |d|
  {
    WithHead(l, LogWritten(l, d, view, blocks, |blocks|), blocks)
  }

  /** The disks a commit passes through, one per block write. */
  ghost function CommitTrace(l: Layout, d: Disk, view: Disk, blocks: seq<nat>): (t: seq<Disk>)
    requires Fits(l, d) && Homes(l, |d|, blocks) && |view| == |d|
    ensures |t| == 2 * |blocks| + 2
  {
    var sealed := Sealed(l, d, view, blocks);
    WriteLogTrace(l, d, view, blocks) + [sealed] + InstallTrace(l, sealed, blocks) +
    [WithHead(l, Install(l, sealed, blocks, |blocks|), [])]
  }

  ghost function WriteLogTrace(l: Layout, d: Disk, view: Disk, blocks: seq<nat>): (t: seq<Disk>)
    requires l.start + |blocks| < |d|
    requires forall i | 0 <= i < |blocks| :: blocks[i] < |view|
    ensures |t| == |blocks|
  {
    seq(|blocks|, k requires 0 <= k < |blocks| => LogWritten(l, d, view, blocks, k + 1))
  }

  /** The transaction as a whole: every listed block takes its new contents. */
  ghost function Applied(d: Disk, view: Disk, blocks: seq<nat>): (r: Disk)
    requires |view| == |d|
    ensures |r| == |d|
  {
    seq(|d|, b requires 0 <= b < |d| => if b in blocks then view[b] else d[b])
  }

  lemma SealedAt(l: Layout, d: Disk, view: Disk, blocks: seq<nat>, b: nat)
    requires Fits(l, d) && Homes(l, |d|, blocks) && |view| == |d|
    requires b < |d| && !InLog(l, b)
    ensures Install(l, Sealed(l, d, view, blocks), blocks, |blocks|)[b] == Applied(d, view, blocks)[b]
  {
    hide PutHead, Install;
    var e := Sealed(l, d, view, blocks);
    InstallAt(l, e, blocks, |blocks|, b);
    assert blocks[..|blocks|] == blocks;
    if b in blocks {
      var i :| 0 <= i < |blocks| && blocks[i] == b;
      assert e[l.start + 1 + i] == view[b];
    }
  }

  /** The sealed disk recovers to the whole transaction. */
  lemma SealedRecovers(l: Layout, d: Disk, view: Disk, blocks: seq<nat>)
    requires Fits(l, d) && Homes(l, |d|, blocks) && |view| == |d|
    ensures WellFormed(l, Sealed(l, d, view, blocks))
    ensures HeadBlocks(Sealed(l, d, view, blocks)[l.start]) == blocks
    ensures HomeEq(l, Recover(l, Sealed(l, d, view, blocks)), Applied(d, view, blocks))
  {
    HeadRoundTrip(d[l.start], blocks);
    forall b | 0 <= b < |d| && !InLog(l, b) {
      SealedAt(l, d, view, blocks, b);
    }
  }

  /** Crash atomicity of commit: a crash after any of its block writes recovers to the old
      home blocks up to the last log write, and to the whole transaction from the header
      write on. */
  lemma CommitAtomic(l: Layout, d: Disk, view: Disk, blocks: seq<nat>, j: nat)
    requires WellFormed(l, d) && HeadCount(d[l.start]) == 0
    requires Homes(l, |d|, blocks) && |view| == |d|
    requires j < |CommitTrace(l, d, view, blocks)|
    ensures WellFormed(l, CommitTrace(l, d, view, blocks)[j])
    ensures HomeEq(l, Recover(l, CommitTrace(l, d, view, blocks)[j]),
                      if j < |blocks| then d else Applied(d, view, blocks))
  {
    var n, t := |blocks|, CommitTrace(l, d, view, blocks);
    var sealed := Sealed(l, d, view, blocks);
    if j < n {
      assert t[j] == LogWritten(l, d, view, blocks, j + 1);
      RecoverEmpty(l, t[j]);
    } else {
      SealedRecovers(l, d, view, blocks);
      if j > n {
        assert t[j] == RecoverTrace(l, sealed)[j - n - 1];
        RecoverTraceSafe(l, sealed, j - n - 1);
      }
    }
  }

  // ---------------------------------------------------------------- whole histories

  /** The disk a crash leaves when j block writes of a trace that starts at d were done. */
  ghost function CrashAt(d: Disk, trace: seq<Disk>, j: nat): (r: Disk)
  {
    if j == 0 || trace == [] then d else if j <= |trace| then trace[j - 1] else trace[|trace| - 1]
  }

  /** Recovery interrupted by crashes after crashes[0], crashes[1], ... block writes, each
      followed by a reboot, and finally run to the end. */
  ghost function RecoverThrough(l: Layout, d: Disk, crashes: seq<nat>): (r: Disk)
    requires WellFormed(l, d)
    ensures |r| == |d| && WellFormed(l, r) && HeadCount(r[l.start]) == 0
    ensures HomeEq(l, r, Recover(l, d))
    decreases |crashes|
  {
    RecoverDone(l, d);
    if crashes == [] then Recover(l, d) else
    var e := CrashAt(d, RecoverTrace(l, d), crashes[0]);
    assert WellFormed(l, e) && HomeEq(l, Recover(l, e), Recover(l, d)) by {
      if crashes[0] > 0 {
        var len := |RecoverTrace(l, d)|;
        RecoverTraceSafe(l, d, if crashes[0] <= len then crashes[0] - 1 else len - 1);
      }
    }
    RecoverThrough(l, e, crashes[1..])
  }

  /** One transaction in the life of a disk: what it logs, and either a commit that
      finishes or a crash after `at` block writes followed by an interrupted recovery. */
  datatype Txn = Txn(blocks: seq<nat>, view: Disk, crash: bool, at: nat, again: seq<nat>)

  ghost predicate TxnOk(l: Layout, dsize: nat, x: Txn)
  {
    Homes(l, dsize, x.blocks) && |x.view| == dsize
  }

  /** The disk once a transaction is over: committed, or crashed and recovered. */
  ghost function AfterTxn(l: Layout, d: Disk, x: Txn): (r: Disk)
    requires WellFormed(l, d) && HeadCount(d[l.start]) == 0 && TxnOk(l, |d|, x)
    ensures |r| == |d| && WellFormed(l, r) && HeadCount(r[l.start]) == 0
    ensures HomeEq(l, r, if Survives(x) then Applied(d, x.view, x.blocks) else d)
  {
    var trace := CommitTrace(l, d, x.view, x.blocks);
    var e := CrashAt(d, trace, if x.crash then x.at else |trace|);
    TxnRecovers(l, d, x);
    if x.crash then RecoverThrough(l, e, x.again) else
    RecoverEmpty(l, e);
    e
  }

  lemma TxnRecovers(l: Layout, d: Disk, x: Txn)
    requires WellFormed(l, d) && HeadCount(d[l.start]) == 0 && TxnOk(l, |d|, x)
    ensures var trace := CommitTrace(l, d, x.view, x.blocks);
            var e := CrashAt(d, trace, if x.crash then x.at else |trace|);
            && WellFormed(l, e)
            && HomeEq(l, Recover(l, e), if Survives(x) then Applied(d, x.view, x.blocks) else d)
            && (!x.crash ==> HeadCount(e[l.start]) == 0)
  {
    var trace := CommitTrace(l, d, x.view, x.blocks);
    var j := if x.crash then x.at else |trace|;
    if j == 0 {
      RecoverEmpty(l, d);
    } else {
      CommitAtomic(l, d, x.view, x.blocks, if j <= |trace| then j - 1 else |trace| - 1);
    }
  }

  /** A transaction takes effect exactly if its header write was reached. */
  ghost predicate Survives(x: Txn) { !x.crash || x.at > |x.blocks| }

  /** The disk after a history of transactions, crashes and interrupted recoveries. */
  ghost function Live(l: Layout, d: Disk, txns: seq<Txn>): (r: Disk)
    requires WellFormed(l, d) && HeadCount(d[l.start]) == 0
    requires forall i | 0 <= i < |txns| :: TxnOk(l, |d|, txns[i])
    ensures |r| == |d| && WellFormed(l, r) && HeadCount(r[l.start]) == 0
  {
    if txns == [] then d else
    AfterTxn(l, Live(l, d, txns[..|txns| - 1]), txns[|txns| - 1])
  }

  /** The same history on a disk that cannot crash: surviving transactions are applied in
      order as a whole, the others not at all. */
  ghost function Logical(l: Layout, d: Disk, txns: seq<Txn>): (r: Disk)
    requires forall i | 0 <= i < |txns| :: TxnOk(l, |d|, txns[i])
    ensures |r| == |d|
  {
    if txns == [] then d else
    var before := Logical(l, d, txns[..|txns| - 1]);
    var x := txns[|txns| - 1];
    assert TxnOk(l, |d|, x);
    if Survives(x) then Applied(before, x.view, x.blocks) else before
  }

  /** Over any history, whatever the crash points, the home blocks are those of the
      crash-free history. */
  lemma {:induction false} HistoryAtomic(l: Layout, d: Disk, txns: seq<Txn>)
    requires WellFormed(l, d) && HeadCount(d[l.start]) == 0
    requires forall i | 0 <= i < |txns| :: TxnOk(l, |d|, txns[i])
    ensures HomeEq(l, Live(l, d, txns), Logical(l, d, txns))
  {
    if txns != [] {
      HistoryAtomic(l, d, txns[..|txns| - 1]);
    }
  }
}
