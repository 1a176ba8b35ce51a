/** What the operations of Fs promise one another, and why each of their steps keeps it. */
module FsLaws {
  import opened Blocks
  import opened Common
  import opened FsSpec
  import opened FsDisk
  import LogSpec

  /** All blocks of the free map. */
  ghost function MapBlocks(sb: Sb): (s: set<nat>)
  {
    set b | 0 <= b < sb.size :: BBlock(sb, b)
  }

  /** The length of the file once tot bytes at off are written. */
  function Reach(ino: Inode, off: nat, tot: nat): (len: nat) { if ino.size < off + tot then off + tot else ino.size }

  /** The one that byte off lies in. */
  ghost function BlockOf(off: nat): (s: set<nat>) { {off / BSIZE} }

  predicate Touches(off: nat, n: nat, bn: nat) { n > 0 && off / BSIZE <= bn <= (off + n - 1) / BSIZE }

  /** The file blocks that the bytes off .. off+n-1 lie in. */
  ghost function BlockRange(off: nat, n: nat): (s: set<nat>)
  {
    set bn | 0 <= bn <= (off + n) / BSIZE && Touches(off, n, bn)
  }

  ghost function DataBlocks(blk: Disk, ino: Inode, bns: set<nat>): (s: set<nat>)
    requires |ino.addrs| == NDIRECT + 1
  {
    set bn | bn in bns && bn < MAXFILE && Addr(blk, ino, bn) != 0 :: Addr(blk, ino, bn)
  }

  /** The block itself, or nothing for 0. */
  ghost function Just(b: nat): (s: set<nat>) { if b == 0 then {} else {b} }

  /** Blocks a write of the file blocks bns may log, the inode aside: free map, indirect table, data. */
  ghost function Charge(sb: Sb, blk: Disk, inodes: map<nat, Inode>, inum: nat, bns: set<nat>): (s: set<nat>)
    requires inum in inodes && |inodes[inum].addrs| == NDIRECT + 1
  {
    MapBlocks(sb) + Just(inodes[inum].addrs[NDIRECT]) + DataBlocks(blk, inodes[inum], bns)
  }

  /** Nothing happened to the other files since (blk0, inodes0). */
  ghost predicate OtherFiles(blk0: Disk, inodes0: map<nat, Inode>, blk: Disk, inodes: map<nat, Inode>, inum: nat)
  {
    && inodes.Keys == inodes0.Keys
    && forall i | i in inodes && i != inum :: inodes[i] == inodes0[i] && KeepsBytes(blk0, inodes0[i], blk, inodes[i])
  }

  /** No slot in use changed. */
  ghost predicate SlotsKept(blk: Disk, inodes: map<nat, Inode>, blk1: Disk, inodes1: map<nat, Inode>)
  {
    && inodes1.Keys == inodes.Keys && InodesOk(inodes) && InodesOk(inodes1)
    && forall i, k | i in inodes && 0 <= k < NSLOTS && Slot(blk, inodes[i], k) != 0 ::
         Slot(blk1, inodes1[i], k) == Slot(blk, inodes[i], k)
  }

  /** Beyond logged0, only blocks that a write of the file blocks bns needs were logged. */
  ghost predicate Charged(sb: Sb, logged0: set<nat>, blk: Disk, inodes: map<nat, Inode>, logged: set<nat>,
                          inum: nat, bns: set<nat>)
  {
    && inum in inodes && |inodes[inum].addrs| == NDIRECT + 1
    && logged <= logged0 + Charge(sb, blk, inodes, inum, bns)
  }

  /** The file's first |c| bytes are mapped and are c. */
  ghost predicate Shows(blk: Disk, ino: Inode, c: seq<Byte>)
  {
    Mapped(blk, ino, |c|) && Bytes(blk, ino, |c|) == c
  }

  /** What one round has to establish for the next. */
  ghost predicate Progress(sb: Sb, blk0: Disk, inodes0: map<nat, Inode>, logged0: set<nat>,
                           blk: Disk, inodes: map<nat, Inode>, logged: set<nat>,
                           inum: nat, off: nat, n: nat, src: seq<Byte>, tot: nat)
  {
    && inum in inodes0 && inum in inodes && tot <= n == |src| && off <= inodes0[inum].size == inodes[inum].size
    && |inodes[inum].addrs| == NDIRECT + 1 && inodes[inum].attr == inodes0[inum].attr
    && OtherFiles(blk0, inodes0, blk, inodes, inum) && SlotsKept(blk0, inodes0, blk, inodes)
    && logged <= logged0 + Charge(sb, blk, inodes, inum, BlockRange(off, n))
    && Mapped(blk0, inodes0[inum], inodes0[inum].size)
    && Shows(blk, inodes[inum], Splice(Bytes(blk0, inodes0[inum], inodes0[inum].size), off, src[..tot]))
  }

  /** writei returns -1 without doing anything. */
  predicate WriteRefused(ino: Inode, off: nat, n: nat)
  {
    off > ino.size || (off + n) % UINT < off || off + n > MAXFILE * BSIZE
  }

  /** The most filewrite passes to writei at a time. */
  const CHUNK := (LogSpec.MAXOPBLOCKS - 1 - 1 - 2) / 2 * BSIZE

  /** Nothing happened to the other files, and no block changed hands. */
  ghost predicate OthersKept(blk0: Disk, inodes0: map<nat, Inode>, owner0: Owner,
                             blk: Disk, inodes: map<nat, Inode>, owner: Owner, inum: nat)
  {
    && OtherFiles(blk0, inodes0, blk, inodes, inum)
    && (forall b | b in owner :: b in owner0 && owner0[b] == owner[b])
    && (forall b | b in owner0 && owner0[b].0 != inum :: b in owner)
  }

  /** No block is free. */
  ghost predicate Full(sb: Sb, blk: Disk)
  {
    SbOk(sb, blk) && forall b | 0 <= b < sb.size :: InUse(sb, blk, b)
  }

  /** What bmap promises: contents and slots in use are kept, the other inodes untouched,
      the block returned is the one now mapped, 0 means a full disk, and a block that was
      already mapped costs nothing. */
  ghost predicate Bmapped(sb: Sb, blk: Disk, inodes: map<nat, Inode>, logged: set<nat>,
                          blk1: Disk, inodes1: map<nat, Inode>, logged1: set<nat>, inum: nat, bn: nat, addr: nat)
  {
    && inum in inodes && inum in inodes1 && bn < MAXFILE && |blk1| == |blk|
    && |inodes[inum].addrs| == |inodes1[inum].addrs| == NDIRECT + 1
    && inodes1 == inodes[inum := inodes[inum].(addrs := inodes1[inum].addrs)]
    && KeepsAll(blk, inodes, blk1, inodes1) && SlotsKept(blk, inodes, blk1, inodes1)
    && addr == Addr(blk1, inodes1[inum], bn) < |blk1|
    && (addr == 0 ==> Full(sb, blk1))
    && (Addr(blk, inodes[inum], bn) == 0 && addr != 0 ==> blk1[addr] == Zeros())
    && (Addr(blk, inodes[inum], bn) != 0 ==> blk1 == blk && inodes1 == inodes && logged1 == logged)
    && logged1 <= logged + MapBlocks(sb) + Just(inodes1[inum].addrs[NDIRECT]) + Just(addr)
  }

  lemma BmapKnown(sb: Sb, blk: Disk, inodes: map<nat, Inode>, logged: set<nat>,
                  blk1: Disk, inodes1: map<nat, Inode>, logged1: set<nat>, inum: nat, bn: nat, addr: nat)
    requires Bmapped(sb, blk, inodes, logged, blk1, inodes1, logged1, inum, bn, addr)
    requires Addr(blk, inodes[inum], bn) != 0
    ensures blk1 == blk && inodes1 == inodes && logged1 == logged && addr == Addr(blk, inodes[inum], bn)
  {
  }

  /** The write of src at off counts tot bytes, and the file shows the first got of them as far as
      it reaches; type, device numbers and link count stay, and no other file changed. */
  ghost predicate Wrote(blk0: Disk, inodes0: map<nat, Inode>, blk: Disk, inodes: map<nat, Inode>,
                        inum: nat, off: nat, src: seq<Byte>, tot: nat, got: nat)
  {
    && inum in inodes0 && inum in inodes && tot <= got <= |src|
    && var ino0, ino := inodes0[inum], inodes[inum];
       && off <= ino0.size && Mapped(blk0, ino0, ino0.size) && Mapped(blk, ino, ino.size)
       && ino.size == Reach(ino0, off, tot) <= |Splice(Bytes(blk0, ino0, ino0.size), off, src[..got])|
       && Bytes(blk, ino, ino.size) == Splice(Bytes(blk0, ino0, ino0.size), off, src[..got])[..ino.size]
       && ino.attr == ino0.attr && OtherFiles(blk0, inodes0, blk, inodes, inum)
  }

  /** Another block was changed without being logged, if so. */
  ghost predicate Strayed(stray0: set<nat>, stray: set<nat>, torn: bool)
  {
    if torn then exists b :: stray == stray0 + {b} else stray == stray0
  }

  /** One operation of the file system: what the disk shows afterwards, the blocks it logged, and
      how many of the caller's bytes are in. */
  datatype Step = Step(view: Disk, logged: set<nat>, upto: nat)

  ghost predicate StepOk(sb: Sb, d: Disk, s: Step)
  {
    HoldsFs(sb, s.view) && Covered(sb, d, s.view, s.logged)
  }

  /** What the disk shows before the k-th of some steps from d on. */
  ghost function Before(d: Disk, steps: seq<Step>, k: nat): (r: Disk)
    requires k <= |steps|
  {
    if k == 0 then d else steps[k - 1].view
  }

  /** The k-th step starts where the one before it ended. */
  ghost predicate Follows(sb: Sb, d: Disk, steps: seq<Step>, k: nat)
    requires k < |steps|
  {
    StepOk(sb, Before(d, steps, k), steps[k])
  }

  ghost predicate Chain(sb: Sb, d: Disk, steps: seq<Step>)
  {
    forall k: nat | k < |steps| :: Follows(sb, d, steps, k)
  }

  /** After every step the disk holds the file with a longer part of src written into it. */
  ghost predicate Growing(sb: Sb, d: Disk, steps: seq<Step>, inum: nat, off: nat, src: seq<Byte>)
  {
    && LayoutOk(sb) && sb.bmapstart <= |d|
    && (forall k | 0 <= k < |steps| :: sb.bmapstart <= |steps[k].view| &&
          Wrote(d, Inodes(sb, d), steps[k].view, Inodes(sb, steps[k].view), inum, off, src,
                steps[k].upto, steps[k].upto))
    && (forall j, k | 0 <= j < k < |steps| :: steps[j].upto <= steps[k].upto)
  }

  /** Where a filewrite at off stands after some steps from d on: the first upto bytes of src are in
      the file, or nothing happened because off lies beyond its end; each step left a consistent
      disk behind; and with a one-block free map each logged at most seven blocks. */
  ghost predicate Run(sb: Sb, d: Disk, inodes0: map<nat, Inode>, steps: seq<Step>, blk: Disk, inodes: map<nat, Inode>,
                      inum: nat, off: nat, src: seq<Byte>, upto: nat)
  {
    && LayoutOk(sb) && sb.bmapstart <= |d| && Inodes(sb, d) == inodes0 && inum in inodes0
    && (if off <= inodes0[inum].size then Wrote(d, inodes0, blk, inodes, inum, off, src, upto, upto)
        else upto == 0 && blk == d && inodes == inodes0 && steps == [])
    && Chain(sb, d, steps) && Growing(sb, d, steps, inum, off, src)
    && blk == Before(d, steps, |steps|) && (steps != [] ==> steps[|steps| - 1].upto == upto)
    && (sb.size <= BPB ==> forall k | 0 <= k < |steps| :: |steps[k].logged| <= 7)
  }

  // ---------------------------------------------------------------- laws

  lemma OwnsBasics(sb: Sb, blk: Disk, inodes: map<nat, Inode>, owner: Owner, inum: nat, dead: nat)
    requires OwnsBut(sb, blk, inodes, owner, inum, dead)
    ensures SbOk(sb, blk) && InodesOk(inodes) && MapOk(sb, blk, owner)
  {
  }

  lemma FilesRefl(blk: Disk, inodes: map<nat, Inode>, inum: nat)
    ensures OtherFiles(blk, inodes, blk, inodes, inum)
  {
  }

  lemma EmptySplice(blk: Disk, ino: Inode, off: nat, src: seq<Byte>)
    requires Mapped(blk, ino, ino.size)
    ensures off <= ino.size ==> Splice(Bytes(blk, ino, ino.size), off, src[..0]) == Bytes(blk, ino, ino.size)
  {
  }

  lemma FsBasics(sb: Sb, blk: Disk, inodes: map<nat, Inode>, owner: Owner)
    requires FsOk(sb, blk, inodes, owner)
    ensures InodesOk(inodes) && |blk| >= sb.size > 0 && forall i | i in inodes :: |inodes[i].addrs| == NDIRECT + 1
  {
  }

  lemma FsOwns(sb: Sb, blk: Disk, inodes: map<nat, Inode>, owner: Owner)
    requires FsOk(sb, blk, inodes, owner)
    ensures Owns(sb, blk, inodes, owner)
  {
  }

  lemma KeepsRefl(blk: Disk, inodes: map<nat, Inode>)
    requires InodesOk(inodes)
    ensures KeepsAll(blk, inodes, blk, inodes) && SlotsKept(blk, inodes, blk, inodes)
  {
  }

  lemma ProgressStart(sb: Sb, blk: Disk, inodes: map<nat, Inode>, owner: Owner, logged: set<nat>,
                      inum: nat, off: nat, n: nat, src: seq<Byte>)
    requires FsOk(sb, blk, inodes, owner) && inum in inodes && off <= inodes[inum].size && |src| == n
    ensures Progress(sb, blk, inodes, logged, blk, inodes, logged, inum, off, n, src, 0)
  {
    hide OwnsBut, Mapped, Bytes;
    FsBasics(sb, blk, inodes, owner);
    KeepsRefl(blk, inodes);
    var c := Bytes(blk, inodes[inum], inodes[inum].size);
    assert src[..0] == [];
    assert Splice(c, off, []) == c;
  }

  lemma SpliceLen(c: seq<Byte>, off: nat, d: seq<Byte>)
    requires off <= |c|
    ensures |Splice(c, off, d)| == if off + |d| < |c| then |c| else off + |d|
  {
  }

  lemma BytesPrefix(blk: Disk, ino: Inode, len: nat, len1: nat)
    requires Mapped(blk, ino, len) && len1 <= len
    ensures Mapped(blk, ino, len1) && Bytes(blk, ino, len1) == Bytes(blk, ino, len)[..len1]
  {
    forall o: nat | o < len1 ensures ByteAt(blk, ino, len1, o) == ByteAt(blk, ino, len, o) {
    }
  }

  lemma ProgressEnd(sb: Sb, blk0: Disk, inodes0: map<nat, Inode>, logged0: set<nat>,
                    blk: Disk, inodes: map<nat, Inode>, logged: set<nat>,
                    inum: nat, off: nat, n: nat, src: seq<Byte>, got: nat, len: nat)
    requires Progress(sb, blk0, inodes0, logged0, blk, inodes, logged, inum, off, n, src, got)
    requires len <= Reach(inodes0[inum], off, got)
    ensures Mapped(blk, inodes[inum], len) && Mapped(blk0, inodes0[inum], inodes0[inum].size)
    ensures len <= |Splice(Bytes(blk0, inodes0[inum], inodes0[inum].size), off, src[..got])|
    ensures Bytes(blk, inodes[inum], len) ==
            Splice(Bytes(blk0, inodes0[inum], inodes0[inum].size), off, src[..got])[..len]
  {
    hide OtherFiles, SlotsKept, Charge, Bytes, Mapped;
    SpliceLen(Bytes(blk0, inodes0[inum], inodes0[inum].size), off, src[..got]);
    BytesPrefix(blk, inodes[inum], Reach(inodes0[inum], off, got), len);
  }

  lemma SpliceNone(c: seq<Byte>, off: nat, data: seq<Byte>)
    requires off <= |c|
    ensures Splice(c, off, data[..0]) == c
  {
  }

  lemma SpliceTwice(c: seq<Byte>, off: nat, src: seq<Byte>, tot: nat, m: nat)
    requires off <= |c| && tot + m <= |src|
    ensures off + tot <= |Splice(c, off, src[..tot])|
    ensures Splice(Splice(c, off, src[..tot]), off + tot, src[tot..tot + m]) == Splice(c, off, src[..tot + m])
  {
    assert src[..tot + m] == src[..tot] + src[tot..tot + m];
  }

  lemma OtherFilesTrans(blk0: Disk, inodes0: map<nat, Inode>, blk: Disk, inodes: map<nat, Inode>,
                        blk1: Disk, inodes1: map<nat, Inode>, inum: nat)
    requires OtherFiles(blk0, inodes0, blk, inodes, inum) && OtherFiles(blk, inodes, blk1, inodes1, inum)
    ensures OtherFiles(blk0, inodes0, blk1, inodes1, inum)
  {
    hide Mapped;
  }

  lemma ChargeMono(sb: Sb, blk: Disk, inodes: map<nat, Inode>, blk1: Disk, inodes1: map<nat, Inode>,
                   inum: nat, bns: set<nat>, bns1: set<nat>)
    requires inum in inodes && inum in inodes1 && |inodes[inum].addrs| == |inodes1[inum].addrs| == NDIRECT + 1
    requires bns <= bns1
    requires SlotsKept(blk, inodes, blk1, inodes1) || (blk1 == blk && inodes1[inum].addrs == inodes[inum].addrs)
    ensures Charge(sb, blk, inodes, inum, bns) <= Charge(sb, blk1, inodes1, inum, bns1)
  {
    assert Slot(blk, inodes[inum], NDIRECT) == inodes[inum].addrs[NDIRECT];
    forall bn | bn in bns && bn < MAXFILE && Addr(blk, inodes[inum], bn) != 0
      ensures Addr(blk1, inodes1[inum], bn) == Addr(blk, inodes[inum], bn) {
    }
  }

  lemma SlotsKeptTrans(blk: Disk, inodes: map<nat, Inode>, blk1: Disk, inodes1: map<nat, Inode>,
                       blk2: Disk, inodes2: map<nat, Inode>)
    requires SlotsKept(blk, inodes, blk1, inodes1) && SlotsKept(blk1, inodes1, blk2, inodes2)
    ensures SlotsKept(blk, inodes, blk2, inodes2)
  {
  }

  lemma ProgressStep(sb: Sb, blk0: Disk, inodes0: map<nat, Inode>, logged0: set<nat>,
                     blk: Disk, inodes: map<nat, Inode>, logged: set<nat>,
                     blk1: Disk, inodes1: map<nat, Inode>, logged1: set<nat>,
                     inum: nat, off: nat, n: nat, src: seq<Byte>, tot: nat, m: nat, got: nat)
    requires Progress(sb, blk0, inodes0, logged0, blk, inodes, logged, inum, off, n, src, tot)
    requires tot + m <= n && m > 0 && got <= m && off + n <= MAXFILE * BSIZE && (off + tot) % BSIZE + m <= BSIZE
    requires inum in inodes1 && |inodes1[inum].addrs| == NDIRECT + 1
    requires inodes1[inum] == inodes[inum].(addrs := inodes1[inum].addrs)
    requires OtherFiles(blk, inodes, blk1, inodes1, inum) && SlotsKept(blk, inodes, blk1, inodes1)
    requires Charged(sb, logged, blk1, inodes1, logged1, inum, BlockOf(off + tot))
    requires var c := Splice(Bytes(blk0, inodes0[inum], inodes0[inum].size), off, src[..tot]);
             Shows(blk1, inodes1[inum], Splice(c, off + tot, src[tot..tot + got]))
    ensures Progress(sb, blk0, inodes0, logged0, blk1, inodes1, logged1, inum, off, n, src, tot + got)
  {
    hide Mapped, Bytes, KeepsBytes, OtherFiles, SlotsKept, Charge, Shows;
    OtherFilesTrans(blk0, inodes0, blk, inodes, blk1, inodes1, inum);
    SlotsKeptTrans(blk0, inodes0, blk, inodes, blk1, inodes1);
    ChargeMono(sb, blk, inodes, blk1, inodes1, inum, BlockRange(off, n), BlockRange(off, n));
    assert (off + tot) / BSIZE in BlockRange(off, n);
    ChargeMono(sb, blk1, inodes1, blk1, inodes1, inum, {(off + tot) / BSIZE}, BlockRange(off, n));
    SpliceTwice(Bytes(blk0, inodes0[inum], inodes0[inum].size), off, src, tot, got);
  }

  lemma SizeMapped(sb: Sb, blk: Disk, inodes: map<nat, Inode>, owner: Owner, i: nat)
    requires FsOk(sb, blk, inodes, owner) && i in inodes
    ensures Mapped(blk, inodes[i], inodes[i].size) && inodes[i].size <= MAXFILE * BSIZE
  {
  }

  /** Changing a file's size changes no slot. */
  lemma ResizeOwns(sb: Sb, blk: Disk, inodes: map<nat, Inode>, owner: Owner, inum: nat, size: nat)
    requires Owns(sb, blk, inodes, owner) && inum in inodes
    ensures Owns(sb, blk, inodes[inum := inodes[inum].(size := size)], owner)
  {
    var inodes1 := inodes[inum := inodes[inum].(size := size)];
    assert forall i, k | i in inodes && 0 <= k < NSLOTS :: Slot(blk, inodes1[i], k) == Slot(blk, inodes[i], k);
  }

  /** The size field catches up with what is mapped. */
  lemma ResizeOk(sb: Sb, blk: Disk, inodes: map<nat, Inode>, owner: Owner, inum: nat, len: nat,
                 blk0: Disk, inodes0: map<nat, Inode>)
    requires FsOk(sb, blk, inodes, owner) && inum in inodes && Mapped(blk, inodes[inum], len)
    requires OtherFiles(blk0, inodes0, blk, inodes, inum)
    ensures var ino := inodes[inum].(size := len);
            && FsOk(sb, blk, inodes[inum := ino], owner) && OtherFiles(blk0, inodes0, blk, inodes[inum := ino], inum)
            && Mapped(blk, ino, len) && Bytes(blk, ino, len) == Bytes(blk, inodes[inum], len)
  {
    hide OwnsBut;
    var ino := inodes[inum].(size := len);
    ResizeOwns(sb, blk, inodes, owner, inum, len);
    forall bn: nat | bn < MAXFILE ensures Addr(blk, ino, bn) == Addr(blk, inodes[inum], bn) {
    }
    forall o: nat | o < len ensures ByteAt(blk, ino, len, o) == ByteAt(blk, inodes[inum], len, o) {
    }
  }

  lemma SmallRange(off: nat, n: nat)
    requires n <= CHUNK
    ensures |BlockRange(off, n)| <= 4
  {
    var a := off / BSIZE;
    var s := {a, a + 1, a + 2, a + 3};
    forall bn | bn in BlockRange(off, n) ensures bn in s {
      assert (off + n - 1) / BSIZE <= a + 3;
    }
    CardLe(BlockRange(off, n), s);
  }

  lemma {:induction false} DataCard(blk: Disk, ino: Inode, bns: set<nat>)
    requires |ino.addrs| == NDIRECT + 1
    ensures |DataBlocks(blk, ino, bns)| <= |bns|
    decreases bns
  {
    if bns != {} {
      var x :| x in bns;
      DataCard(blk, ino, bns - {x});
      var more := if x < MAXFILE then Just(Addr(blk, ino, x)) else {};
      assert DataBlocks(blk, ino, bns) == DataBlocks(blk, ino, bns - {x}) + more;
    }
  }

  lemma OneMapBlock(sb: Sb)
    requires 0 < sb.size <= BPB
    ensures MapBlocks(sb) <= {sb.bmapstart}
  {
  }

  /** With a one-block free map, a chunk of filewrite logs at most seven distinct blocks:
      up to four data blocks, the indirect table, the free map and the inode. */
  lemma ChunkFits(sb: Sb, blk: Disk, inodes: map<nat, Inode>, inum: nat, off: nat, n: nat, logged: set<nat>)
    requires inum in inodes && |inodes[inum].addrs| == NDIRECT + 1 && 0 < sb.size <= BPB && n <= CHUNK
    requires logged <= {IBlock(sb, inum)} + Charge(sb, blk, inodes, inum, BlockRange(off, n))
    ensures |logged| <= 7 <= LogSpec.MAXOPBLOCKS - 2
  {
    hide DataBlocks, MapBlocks, BlockRange;
    var bns := BlockRange(off, n);
    var data := DataBlocks(blk, inodes[inum], bns);
    DataCard(blk, inodes[inum], bns);
    SmallRange(off, n);
    OneMapBlock(sb);
    var rest := {IBlock(sb, inum), sb.bmapstart, inodes[inum].addrs[NDIRECT]};
    assert logged <= rest + data;
    CardLe(logged, rest + data);
  }

  lemma BmapOthers(blk: Disk, inodes: map<nat, Inode>, blk1: Disk, inodes1: map<nat, Inode>, inum: nat, len: nat)
    requires KeepsAll(blk, inodes, blk1, inodes1) && inum in inodes && inum in inodes1
    requires inodes1 == inodes[inum := inodes1[inum]] && Mapped(blk, inodes[inum], len)
    ensures OtherFiles(blk, inodes, blk1, inodes1, inum) && inodes1[inum].size == inodes[inum].size
    ensures Mapped(blk1, inodes1[inum], len) && Bytes(blk1, inodes1[inum], len) == Bytes(blk, inodes[inum], len)
  {
    hide Mapped;
  }

  lemma PatchFsOk(sb: Sb, blk: Disk, inodes: map<nat, Inode>, owner: Owner, inum: nat, bn: nat, r: Block)
    requires FsOk(sb, blk, inodes, owner) && inum in inodes && |inodes[inum].addrs| == NDIRECT + 1
    requires bn < MAXFILE && 0 < Addr(blk, inodes[inum], bn) < |blk|
    ensures var blk1 := blk[Addr(blk, inodes[inum], bn) := r];
            FsOk(sb, blk1, inodes, owner) && Addr(blk1, inodes[inum], bn) == Addr(blk, inodes[inum], bn)
  {
    hide OwnsBut;
    PatchOwns(sb, blk, inodes, owner, inum, DataSlot(bn), r);
    var blk1 := blk[Addr(blk, inodes[inum], bn) := r];
    forall i | i in inodes ensures Mapped(blk1, inodes[i], inodes[i].size) {
      forall b: nat | b < MAXFILE ensures Addr(blk1, inodes[i], b) == Addr(blk, inodes[i], b) {
      }
    }
  }

  lemma PatchedOk(sb: Sb, blk: Disk, inodes: map<nat, Inode>, owner: Owner, inum: nat, off: nat, data: seq<Byte>,
                  len: nat)
    requires FsOk(sb, blk, inodes, owner) && inum in inodes && |inodes[inum].addrs| == NDIRECT + 1
    requires Mapped(blk, inodes[inum], len) && off <= len && off + |data| <= MAXFILE * BSIZE && data != []
    requires off % BSIZE + |data| <= BSIZE && 0 < Addr(blk, inodes[inum], off / BSIZE) < |blk|
    ensures var a := Addr(blk, inodes[inum], off / BSIZE);
            var blk1 := blk[a := Patch(blk[a], off % BSIZE, data)];
            var len1 := if off + |data| < len then len else off + |data|;
            && FsOk(sb, blk1, inodes, owner) && Mapped(blk1, inodes[inum], len1)
            && Bytes(blk1, inodes[inum], len1) == Splice(Bytes(blk, inodes[inum], len), off, data)
            && Addr(blk1, inodes[inum], off / BSIZE) == a
  {
    hide OwnsBut, Patch, Splice;
    var a := Addr(blk, inodes[inum], off / BSIZE);
    var r := Patch(blk[a], off % BSIZE, data);
    PatchBytes(sb, blk, inodes, owner, inum, off, data, len);
    PatchFsOk(sb, blk, inodes, owner, inum, off / BSIZE, r);
  }

  lemma PatchedOthers(sb: Sb, blk0: Disk, inodes0: map<nat, Inode>, blk: Disk, inodes: map<nat, Inode>,
                      owner: Owner, inum: nat, off: nat, data: seq<Byte>)
    requires FsOk(sb, blk, inodes, owner) && inum in inodes && |inodes[inum].addrs| == NDIRECT + 1
    requires OtherFiles(blk0, inodes0, blk, inodes, inum) && SlotsKept(blk0, inodes0, blk, inodes)
    requires off < MAXFILE * BSIZE && off % BSIZE + |data| <= BSIZE && 0 < Addr(blk, inodes[inum], off / BSIZE) < |blk|
    ensures var a := Addr(blk, inodes[inum], off / BSIZE);
            var blk1 := blk[a := Patch(blk[a], off % BSIZE, data)];
            OtherFiles(blk0, inodes0, blk1, inodes, inum) && SlotsKept(blk0, inodes0, blk1, inodes)
  {
    hide OwnsBut, Mapped, Patch;
    var a := Addr(blk, inodes[inum], off / BSIZE);
    var r := Patch(blk[a], off % BSIZE, data);
    PatchOwns(sb, blk, inodes, owner, inum, DataSlot(off / BSIZE), r);
    forall i | i in inodes && i != inum ensures KeepsBytes(blk0, inodes0[i], blk[a := r], inodes[i]) {
      PatchOthers(sb, blk, inodes, owner, inum, DataSlot(off / BSIZE), r, i);
    }
  }

  lemma KeptRefl(blk: Disk, inodes: map<nat, Inode>, owner: Owner, inum: nat)
    ensures OthersKept(blk, inodes, owner, blk, inodes, owner, inum)
  {
  }

  /** Freeing the block of a live slot of inum keeps the others. */
  lemma FreeStep(sb: Sb, blk: Disk, inodes: map<nat, Inode>, owner: Owner, inum: nat, dead: nat, k: nat,
                 inodes1: map<nat, Inode>, blk0: Disk, inodes0: map<nat, Inode>, owner0: Owner)
    requires OwnsBut(sb, blk, inodes, owner, inum, dead) && inum in inodes && k < NSLOTS
    requires |inodes[inum].addrs| == NDIRECT + 1 && Slot(blk, inodes[inum], k) != 0 && !Gone(inum, k, inum, dead)
    requires OthersKept(blk0, inodes0, owner0, blk, inodes, owner, inum)
    requires inum in inodes1 && inodes1 == inodes[inum := inodes1[inum]]
    requires BBlock(sb, Slot(blk, inodes[inum], k)) < |blk|
    ensures var addr := Slot(blk, inodes[inum], k);
            OthersKept(blk0, inodes0, owner0, Mark(sb, blk, addr, false), inodes1, owner - {addr}, inum)
  {
    hide OwnsBut, Mapped;
    var addr := Slot(blk, inodes[inum], k);
    SlotOwned(sb, blk, inodes, owner, inum, dead, inum, k);
    forall i | i in inodes && i != inum ensures KeepsBytes(blk0, inodes0[i], Mark(sb, blk, addr, false), inodes1[i]) {
      FreeKeeps(sb, blk, inodes, owner, inum, dead, addr, i);
    }
  }

  /** An inode whose slots are all empty owns nothing. */
  lemma NoSlotsNoBlocks(sb: Sb, blk: Disk, inodes: map<nat, Inode>, owner: Owner, inum: nat)
    requires Owns(sb, blk, inodes, owner) && inum in inodes && inodes[inum].addrs == Emptied(inodes[inum]).addrs
    ensures forall b | b in owner :: owner[b].0 != inum
  {
  }

  lemma KeptMapped(blk0: Disk, ino0: Inode, blk: Disk, ino: Inode, len: nat)
    requires KeepsBytes(blk0, ino0, blk, ino) && Mapped(blk0, ino0, len)
    ensures Mapped(blk, ino, len) && Bytes(blk, ino, len) == Bytes(blk0, ino0, len)
  {
  }

  /** The state at the end of itrunc. */
  lemma TruncatedOk(sb: Sb, blk0: Disk, inodes0: map<nat, Inode>, owner0: Owner,
                    blk: Disk, inodes: map<nat, Inode>, owner: Owner, inum: nat)
    requires FsOk(sb, blk0, inodes0, owner0) && Owns(sb, blk, inodes, owner) && inum in inodes
    requires OthersKept(blk0, inodes0, owner0, blk, inodes, owner, inum)
    requires inodes[inum].addrs == Emptied(inodes[inum]).addrs
    ensures var inodes1 := inodes[inum := inodes[inum].(size := 0)];
            && FsOk(sb, blk, inodes1, owner)
            && OthersKept(blk0, inodes0, owner0, blk, inodes1, owner, inum)
            && forall b | b in owner :: owner[b].0 != inum
  {
    hide KeepsBytes, OwnsBut;
    var inodes1 := inodes[inum := inodes[inum].(size := 0)];
    ResizeOwns(sb, blk, inodes, owner, inum, 0);
    forall i | i in inodes && i != inum ensures Mapped(blk, inodes1[i], inodes1[i].size) {
      KeptMapped(blk0, inodes0[i], blk, inodes[i], inodes[i].size);
    }
    NoSlotsNoBlocks(sb, blk, inodes, owner, inum);
  }

  /** An offset below the size lies in a mapped block. */
  lemma BlockMapped(blk: Disk, ino: Inode, len: nat, o: nat)
    requires Mapped(blk, ino, len) && o < len
    ensures |ino.addrs| == NDIRECT + 1 && len <= MAXFILE * BSIZE && o / BSIZE < MAXFILE
    ensures 0 < Addr(blk, ino, o / BSIZE) < |blk|
  {
    assert o / BSIZE * BSIZE <= o;
  }

  /** Bytes of one block are a slice of the contents. */
  lemma BlockSlice(blk: Disk, ino: Inode, len: nat, o: nat, k: nat)
    requires Mapped(blk, ino, len) && o < len && o + k <= len && o % BSIZE + k <= BSIZE
    ensures |ino.addrs| == NDIRECT + 1 && o / BSIZE < MAXFILE && 0 < Addr(blk, ino, o / BSIZE) < |blk|
    ensures blk[Addr(blk, ino, o / BSIZE)][o % BSIZE..o % BSIZE + k] == Bytes(blk, ino, len)[o..o + k]
  {
    BlockMapped(blk, ino, len, o);
    var s, t := blk[Addr(blk, ino, o / BSIZE)][o % BSIZE..o % BSIZE + k], Bytes(blk, ino, len)[o..o + k];
    forall x | 0 <= x < k ensures s[x] == t[x] {
      assert (o + x) / BSIZE == o / BSIZE && (o + x) % BSIZE == o % BSIZE + x;
    }
  }

  lemma NewTable(sb: Sb, blk: Disk, inodes: map<nat, Inode>, logged: set<nat>,
                 blk1: Disk, inodes1: map<nat, Inode>, logged1: set<nat>, inum: nat, bn: nat, t: nat)
    requires inum in inodes && NDIRECT <= bn < MAXFILE && |inodes[inum].addrs| == NDIRECT + 1 && |blk| > 0
    requires inodes[inum].addrs[NDIRECT] == 0 && |blk1| == |blk|
    requires KeepsAll(blk, inodes, blk1, inodes1) && SlotsKept(blk, inodes, blk1, inodes1)
    requires t == 0 ==> Full(sb, blk1) && blk1 == blk && inodes1 == inodes && logged1 == logged
    ensures t == 0 ==> Bmapped(sb, blk, inodes, logged, blk1, inodes1, logged1, inum, bn, 0)
  {
    hide KeepsAll, SlotsKept, Full, MapBlocks;
  }

  lemma TableStays(blk: Disk, inodes: map<nat, Inode>, blk1: Disk, inodes1: map<nat, Inode>, inum: nat)
    requires SlotsKept(blk, inodes, blk1, inodes1) && inum in inodes
    ensures inum in inodes1 && |inodes[inum].addrs| == |inodes1[inum].addrs| == NDIRECT + 1
    ensures inodes[inum].addrs[NDIRECT] != 0 ==> inodes1[inum].addrs[NDIRECT] == inodes[inum].addrs[NDIRECT]
  {
    assert Slot(blk, inodes[inum], NDIRECT) == inodes[inum].addrs[NDIRECT];
  }

  lemma MapBlockOf(sb: Sb, b: nat)
    ensures b < sb.size ==> BBlock(sb, b) in MapBlocks(sb)
  {
  }

  lemma ThenEntry(sb: Sb, blk: Disk, inodes: map<nat, Inode>, logged: set<nat>,
                  blk1: Disk, inodes1: map<nat, Inode>, logged1: set<nat>,
                  blk2: Disk, inodes2: map<nat, Inode>, logged2: set<nat>, inum: nat, bn: nat, t: nat, addr: nat)
    requires inum in inodes && NDIRECT <= bn < MAXFILE && |inodes[inum].addrs| == NDIRECT + 1
    requires inodes[inum].addrs[NDIRECT] == 0 && |blk1| == |blk|
    requires KeepsAll(blk, inodes, blk1, inodes1) && SlotsKept(blk, inodes, blk1, inodes1)
    requires 0 < t < sb.size && inodes1 == WithAddr(inodes, inum, NDIRECT, t) && logged1 == logged + {BBlock(sb, t), t}
    requires t < |blk1| && blk1[t] == Zeros()
    requires Bmapped(sb, blk1, inodes1, logged1, blk2, inodes2, logged2, inum, bn, addr)
    ensures Bmapped(sb, blk, inodes, logged, blk2, inodes2, logged2, inum, bn, addr)
  {
    hide KeepsAll, SlotsKept, Full, MapBlocks, GetWord, Zeros;
    KeepsAllTrans(blk, inodes, blk1, inodes1, blk2, inodes2);
    SlotsKeptTrans(blk, inodes, blk1, inodes1, blk2, inodes2);
    MapBlockOf(sb, t);
    TableStays(blk1, inodes1, blk2, inodes2, inum);
    ZeroWords(bn - NDIRECT);
    assert Addr(blk1, inodes1[inum], bn) == 0;
  }

  lemma SlotBlockOf(sb: Sb, blk: Disk, inodes: map<nat, Inode>, owner: Owner, inum: nat, dead: nat, k: nat)
    requires OwnsBut(sb, blk, inodes, owner, inum, dead) && inum in inodes && k < NSLOTS
    requires |inodes[inum].addrs| == NDIRECT + 1 && Slot(blk, inodes[inum], k) != 0 && !Gone(inum, k, inum, dead)
    ensures BBlock(sb, Slot(blk, inodes[inum], k)) in MapBlocks(sb)
  {
    hide OwnsBut;
    SlotOwned(sb, blk, inodes, owner, inum, dead, inum, k);
    MapBlockOf(sb, Slot(blk, inodes[inum], k));
  }

  lemma MappedInRange(sb: Sb, blk: Disk, inodes: map<nat, Inode>, owner: Owner, i: nat, bn: nat)
    requires FsOk(sb, blk, inodes, owner) && i in inodes && bn < MAXFILE
    ensures |inodes[i].addrs| == NDIRECT + 1 && Addr(blk, inodes[i], bn) < |blk|
    ensures Addr(blk, inodes[i], bn) != 0 ==> Addr(blk, inodes[i], bn) > sb.bmapstart
  {
    if Addr(blk, inodes[i], bn) != 0 {
      SlotOwned(sb, blk, inodes, owner, 0, 0, i, DataSlot(bn));
    }
  }

  lemma TableInRange(sb: Sb, blk: Disk, inodes: map<nat, Inode>, owner: Owner, i: nat)
    requires FsOk(sb, blk, inodes, owner) && i in inodes
    ensures |inodes[i].addrs| == NDIRECT + 1 && inodes[i].addrs[NDIRECT] < |blk|
  {
    TableOwned(sb, blk, inodes, owner, 0, 0, i);
  }

  lemma KeepsFsOk(sb: Sb, blk: Disk, inodes: map<nat, Inode>, owner: Owner,
                  blk1: Disk, inodes1: map<nat, Inode>, owner1: Owner)
    requires FsOk(sb, blk, inodes, owner) && Owns(sb, blk1, inodes1, owner1) && KeepsAll(blk, inodes, blk1, inodes1)
    ensures FsOk(sb, blk1, inodes1, owner1)
  {
    hide OwnsBut, Mapped;
  }

  lemma AllocSlotSlots(sb: Sb, blk: Disk, inodes: map<nat, Inode>, owner: Owner, i: nat, k: nat, addr: nat)
    requires Owns(sb, blk, inodes, owner) && i in inodes && k <= NDIRECT && inodes[i].addrs[k] == 0
    requires sb.nmeta <= addr < sb.size && !InUse(sb, blk, addr) && BBlock(sb, addr) < |blk|
    ensures SlotsKept(blk, inodes, Allocated(sb, blk, addr), WithAddr(inodes, i, k, addr))
  {
    hide SlotsOk, MapOk;
    forall i1, k1 | i1 in inodes && 0 <= k1 < NSLOTS {
      AllocSlotAt(sb, blk, inodes, owner, i, k, addr, i1, k1);
    }
  }

  lemma AllocEntrySlots(sb: Sb, blk: Disk, inodes: map<nat, Inode>, owner: Owner, i: nat, j: nat, addr: nat)
    requires Owns(sb, blk, inodes, owner) && i in inodes && j < NINDIRECT && 0 < inodes[i].addrs[NDIRECT] < |blk|
    requires Slot(blk, inodes[i], NDIRECT + 1 + j) == 0
    requires sb.nmeta <= addr < sb.size && !InUse(sb, blk, addr) && BBlock(sb, addr) < |blk|
    ensures SlotsKept(blk, inodes, Entered(sb, blk, inodes[i].addrs[NDIRECT], j, addr), inodes)
  {
    hide SlotsOk, MapOk;
    forall i1, k1 | i1 in inodes && 0 <= k1 < NSLOTS {
      AllocEntryAt(sb, blk, inodes, owner, i, j, addr, i1, k1);
    }
  }

  lemma SameMapBlock(sb: Sb, b: nat, c: nat)
    requires b % BPB == 0 && b <= c < b + BPB
    ensures BBlock(sb, c) == BBlock(sb, b) && c % BPB == c - b
  {
  }

  /** A block whose bit is clear is a data block. */
  lemma FreeIsData(sb: Sb, blk: Disk, owner: Owner, b: nat)
    requires SbOk(sb, blk) && MapOk(sb, blk, owner) && b < sb.size && !InUse(sb, blk, b)
    ensures b >= sb.nmeta
  {
  }

  /** Writing an inode back changes no file. */
  lemma UpdateOthers(blk0: Disk, inodes0: map<nat, Inode>, blk: Disk, inodes: map<nat, Inode>, blk1: Disk, inum: nat)
    requires OtherFiles(blk0, inodes0, blk, inodes, inum) && KeepsAll(blk, inodes, blk1, inodes)
    ensures OtherFiles(blk0, inodes0, blk1, inodes, inum)
  {
    hide KeepsBytes;
    OtherFilesTrans(blk0, inodes0, blk, inodes, blk1, inodes, inum);
  }

  lemma UpdateKept(blk0: Disk, inodes0: map<nat, Inode>, owner0: Owner,
                   blk: Disk, inodes: map<nat, Inode>, owner: Owner, blk1: Disk, inum: nat)
    requires OthersKept(blk0, inodes0, owner0, blk, inodes, owner, inum) && KeepsAll(blk, inodes, blk1, inodes)
    ensures OthersKept(blk0, inodes0, owner0, blk1, inodes, owner, inum)
  {
    hide KeepsBytes;
    UpdateOthers(blk0, inodes0, blk, inodes, blk1, inum);
  }

  lemma UpdateBytes(blk: Disk, inodes: map<nat, Inode>, blk1: Disk, i: nat)
    requires KeepsAll(blk, inodes, blk1, inodes) && i in inodes && Mapped(blk, inodes[i], inodes[i].size)
    ensures Mapped(blk1, inodes[i], inodes[i].size)
    ensures Bytes(blk1, inodes[i], inodes[i].size) == Bytes(blk, inodes[i], inodes[i].size)
  {
    hide Mapped, Bytes;
  }

  /** Neither does it move a block or free one. */
  lemma UpdateSlots(sb: Sb, blk: Disk, inodes: map<nat, Inode>, owner: Owner, blk1: Disk)
    requires FsOk(sb, blk, inodes, owner) && SameFrom(sb.bmapstart, blk, blk1)
    ensures SlotsKept(blk, inodes, blk1, inodes) && (Full(sb, blk) ==> Full(sb, blk1))
  {
    forall i, k | i in inodes && 0 <= k < NSLOTS ensures Slot(blk1, inodes[i], k) == Slot(blk, inodes[i], k) {
      SlotsFrame(sb, blk, blk1, inodes, owner, i, k);
    }
    forall b | 0 <= b < sb.size ensures InUse(sb, blk1, b) == InUse(sb, blk, b) {
      assert b / BPB <= (sb.size - 1) / BPB;
    }
  }

  /** With nothing uncounted, the contents are the old ones with the bytes spliced in. */
  lemma WroteAll(blk0: Disk, inodes0: map<nat, Inode>, blk: Disk, inodes: map<nat, Inode>,
                 inum: nat, off: nat, src: seq<Byte>, tot: nat)
    requires Wrote(blk0, inodes0, blk, inodes, inum, off, src, tot, tot)
    ensures Bytes(blk, inodes[inum], inodes[inum].size) ==
            Splice(Bytes(blk0, inodes0[inum], inodes0[inum].size), off, src[..tot])
  {
    hide Mapped, KeepsBytes, Bytes, OtherFiles;
    SpliceLen(Bytes(blk0, inodes0[inum], inodes0[inum].size), off, src[..tot]);
  }

  /** A write that goes on where an earlier one ended. */
  lemma WroteOn(blk0: Disk, inodes0: map<nat, Inode>, blk: Disk, inodes: map<nat, Inode>,
                blk1: Disk, inodes1: map<nat, Inode>, inum: nat, off: nat, src: seq<Byte>,
                i: nat, n: nat, r: nat, g: nat)
    requires Wrote(blk0, inodes0, blk, inodes, inum, off, src, i, i) && i + n <= |src|
    requires Wrote(blk, inodes, blk1, inodes1, inum, off + i, src[i..i + n], r, g)
    ensures Wrote(blk0, inodes0, blk1, inodes1, inum, off, src, i + r, i + g)
  {
    hide Mapped, KeepsBytes, Bytes, Splice, OtherFiles;
    OtherFilesTrans(blk0, inodes0, blk, inodes, blk1, inodes1, inum);
    var c := Bytes(blk0, inodes0[inum], inodes0[inum].size);
    WroteAll(blk0, inodes0, blk, inodes, inum, off, src, i);
    assert src[i..i + n][..g] == src[i..i + g];
    SpliceTwice(c, off, src, i, g);
  }

  lemma WroteBounds(blk0: Disk, inodes0: map<nat, Inode>, blk: Disk, inodes: map<nat, Inode>,
                    inum: nat, off: nat, src: seq<Byte>, tot: nat, got: nat)
    requires Wrote(blk0, inodes0, blk, inodes, inum, off, src, tot, got)
    ensures off <= inodes0[inum].size && off + tot <= inodes[inum].size <= MAXFILE * BSIZE && tot <= got <= |src|
    ensures inodes == inodes0[inum := inodes[inum]] && inodes[inum].attr == inodes0[inum].attr
  {
    hide KeepsBytes, Bytes, Splice;
  }

  lemma WroteNothing(sb: Sb, blk: Disk, inodes: map<nat, Inode>, owner: Owner, inum: nat, off: nat, src: seq<Byte>)
    requires FsOk(sb, blk, inodes, owner) && inum in inodes && off <= inodes[inum].size
    ensures Wrote(blk, inodes, blk, inodes, inum, off, src, 0, 0)
  {
    hide OwnsBut, Mapped, KeepsBytes, Bytes;
    FilesRefl(blk, inodes, inum);
    EmptySplice(blk, inodes[inum], off, src);
  }

  /** What an operation leaves behind is a step. */
  lemma DoneOk(sb: Sb, home: Disk, blk: Disk, logged: set<nat>, writes: Writes, inodes: map<nat, Inode>, owner: Owner)
    requires FsOk(sb, blk, inodes, owner) && Tracked(sb, home, blk, logged, writes, {}, inodes)
    ensures forall upto :: StepOk(sb, home, Step(blk, logged, upto))
    ensures Apply(home, writes) == blk && Touched(writes) == logged
  {
    hide FsOk, Inodes, Covered;
    assert logged + {} == logged;
    assert Consistent(sb, blk, owner);
  }

  lemma StartGrowing(sb: Sb, home: Disk, blk: Disk, logged: set<nat>, writes: Writes, stray: set<nat>,
                     dinodes: map<nat, Inode>,
                     inum: nat, off: nat, src: seq<Byte>)
    requires Tracked(sb, home, blk, logged, writes, stray, dinodes)
    ensures LayoutOk(sb) && sb.bmapstart <= |blk| && Inodes(sb, blk) == dinodes
    ensures Chain(sb, blk, []) && Growing(sb, blk, [], inum, off, src)
  {
  }

  /** A chain of steps goes on. */
  lemma ChainOn(sb: Sb, d: Disk, steps: seq<Step>, s: Step)
    requires Chain(sb, d, steps) && StepOk(sb, Before(d, steps, |steps|), s)
    ensures Chain(sb, d, steps + [s])
  {
    hide StepOk;
    var more := steps + [s];
    forall k: nat | k < |more| ensures Follows(sb, d, more, k) {
      if k < |steps| {
        assert Follows(sb, d, steps, k);
      }
    }
  }

  lemma GrowOn(sb: Sb, d: Disk, inodes0: map<nat, Inode>, steps: seq<Step>, home: Disk, logged: set<nat>,
               writes: Writes, stray: set<nat>, s: Step, inodes: map<nat, Inode>, inum: nat, off: nat, src: seq<Byte>)
    requires LayoutOk(sb) && sb.bmapstart <= |d| && Inodes(sb, d) == inodes0 && Growing(sb, d, steps, inum, off, src)
    requires Tracked(sb, home, s.view, logged, writes, stray, inodes)
    requires Wrote(d, inodes0, s.view, inodes, inum, off, src, s.upto, s.upto)
    requires steps != [] ==> steps[|steps| - 1].upto <= s.upto
    ensures Growing(sb, d, steps + [s], inum, off, src)
  {
    hide Wrote, Inodes;
  }

  lemma RunStart(sb: Sb, home: Disk, blk: Disk, logged: set<nat>, writes: Writes, stray: set<nat>,
                 inodes: map<nat, Inode>,
                 owner: Owner, inum: nat, off: nat, src: seq<Byte>)
    requires FsOk(sb, blk, inodes, owner) && Tracked(sb, home, blk, logged, writes, stray, inodes) && inum in inodes
    ensures Run(sb, blk, inodes, [], blk, inodes, inum, off, src, 0)
  {
    hide FsOk, Wrote;
    StartGrowing(sb, home, blk, logged, writes, stray, inodes, inum, off, src);
    if off <= inodes[inum].size {
      WroteNothing(sb, blk, inodes, owner, inum, off, src);
    }
  }

  /** Another chunk of a filewrite. */
  lemma RunOn(sb: Sb, d: Disk, inodes0: map<nat, Inode>, steps: seq<Step>, blk: Disk, inodes: map<nat, Inode>,
              home: Disk, logged: set<nat>, writes: Writes, stray: set<nat>,
              s: Step, blk1: Disk, inodes1: map<nat, Inode>,
              inum: nat, off: nat, src: seq<Byte>, i: nat, n: nat, r: nat, g: nat)
    requires Run(sb, d, inodes0, steps, blk, inodes, inum, off, src, i) && i + n <= |src| && r <= n
    requires Wrote(blk, inodes, blk1, inodes1, inum, off + i, src[i..i + n], r, g)
    requires Tracked(sb, home, blk1, logged, writes, stray, inodes1)
    requires g == r ==> StepOk(sb, blk, s) && s.view == blk1 && s.upto == i + r && (sb.size <= BPB ==> |s.logged| <= 7)
    ensures Wrote(d, inodes0, blk1, inodes1, inum, off, src, i + r, i + g)
    ensures Chain(sb, d, steps) && Growing(sb, d, steps, inum, off, src)
    ensures g == r ==> Run(sb, d, inodes0, steps + [s], blk1, inodes1, inum, off, src, i + r)
  {
    hide Chain, Growing, StepOk, Tracked, Wrote, Inodes;
    WroteBounds(blk, inodes, blk1, inodes1, inum, off + i, src[i..i + n], r, g);
    WroteOn(d, inodes0, blk, inodes, blk1, inodes1, inum, off, src, i, n, r, g);
    if g == r {
      ChainOn(sb, d, steps, s);
      GrowOn(sb, d, inodes0, steps, home, logged, writes, stray, s, inodes1, inum, off, src);
    }
  }

  lemma RunBounds(sb: Sb, d: Disk, inodes0: map<nat, Inode>, steps: seq<Step>, blk: Disk, inodes: map<nat, Inode>,
                  inum: nat, off: nat, src: seq<Byte>, upto: nat)
    requires Run(sb, d, inodes0, steps, blk, inodes, inum, off, src, upto)
    ensures inum in inodes0 && inum in inodes
    ensures if off <= inodes0[inum].size then off + upto <= inodes[inum].size <= MAXFILE * BSIZE
            else upto == 0 && inodes == inodes0
  {
    hide Wrote, Chain, Growing;
    if off <= inodes0[inum].size {
      WroteBounds(d, inodes0, blk, inodes, inum, off, src, upto, upto);
    }
  }
}
