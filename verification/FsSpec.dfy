/** Block ownership and file contents of kernel/fs.c, over the blocks as bread shows them. */
module FsSpec {
  import opened Blocks
  import opened Common

  const NDIRECT := 12
  const NINDIRECT := 256            // BSIZE / sizeof(uint)
  const MAXFILE := 268              // NDIRECT + NINDIRECT
  const NSLOTS := 269               // direct blocks, the indirect table, its entries
  const IPB := 16                   // inodes per block

  /** The superblock fields in use; blocks below nmeta (boot, super, log, inodes, bitmap)
      belong to no file. */
  datatype Sb = Sb(size: nat, nmeta: nat, inodestart: nat, ninodes: nat, bmapstart: nat)

  type Half = x: int | 0 <= x < 0x1_0000

  /** The four shorts of an inode. */
  datatype Attr = Attr(kind: Half, major: Half, minor: Half, nlink: Half)

  datatype Inode = Inode(attr: Attr, size: nat, addrs: seq<nat>)

  /** The inode once its file is empty. */
  function Emptied(was: Inode): (ino: Inode)
    ensures ino.attr == was.attr && ino.size == 0 && |ino.addrs| == NDIRECT + 1
    ensures forall k | 0 <= k <= NDIRECT :: ino.addrs[k] == 0
  {
    was.(size := 0, addrs := seq(NDIRECT + 1, _ => 0))
  }

  type Owner = map<nat, (nat, nat)>   // block -> (inode number, slot)

  ghost predicate SbOk(sb: Sb, blk: Disk)
  {
    && 0 < sb.nmeta <= sb.size <= |blk| && sb.size < 0x1_0000_0000
    && sb.bmapstart + (sb.size - 1) / BPB < sb.nmeta
  }

  // ---------------------------------------------------------------- the free map

  function BBlock(sb: Sb, b: nat): (r: nat) { b / BPB + sb.bmapstart }

  function IBlock(sb: Sb, inum: nat): (r: nat) { inum / IPB + sb.inodestart }

  predicate InUse(sb: Sb, blk: Disk, b: nat)
    requires BBlock(sb, b) < |blk|
  {
    GetBit(blk[BBlock(sb, b)], b % BPB)
  }

  /** The free map with the bit of block b written. */
  function Mark(sb: Sb, blk: Disk, b: nat, on: bool): (r: Disk)
    requires BBlock(sb, b) < |blk|
    ensures |r| == |blk|
    ensures forall c | 0 <= c < |blk| && c != BBlock(sb, b) :: r[c] == blk[c]
  {
    blk[BBlock(sb, b) := PutBit(blk[BBlock(sb, b)], b % BPB, on)]
  }

  lemma MarkBits(sb: Sb, blk: Disk, b: nat, on: bool, c: nat)
    requires BBlock(sb, b) < |blk| && BBlock(sb, c) < |blk|
    ensures InUse(sb, Mark(sb, blk, b, on), c) == if c == b then on else InUse(sb, blk, c)
  {
    if BBlock(sb, c) == BBlock(sb, b) {
      PutBitBits(blk[BBlock(sb, b)], b % BPB, on, c % BPB);
    }
  }

  // ---------------------------------------------------------------- slots of an inode

  /** The block numbers an inode refers to: slots 0..11 are direct, slot 12 is the indirect
      table, slots 13.. are the table's entries. 0 means none. */
  function Slot(blk: Disk, ino: Inode, k: nat): (b: nat)
    requires |ino.addrs| == NDIRECT + 1 && k < NSLOTS
  {
    if k <= NDIRECT then ino.addrs[k]
    else if ino.addrs[NDIRECT] == 0 || ino.addrs[NDIRECT] >= |blk| then 0
    else GetWord(blk[ino.addrs[NDIRECT]], k - NDIRECT - 1)
  }

  /** The slot of the bn-th data block. */
  function DataSlot(bn: nat): (k: nat) { if bn < NDIRECT then bn else bn + 1 }

  /** Table entries that itrunc has already freed while they still stand in the table. */
  predicate Gone(i: nat, k: nat, inum: nat, dead: nat) { i == inum && NDIRECT < k <= NDIRECT + dead }

  ghost predicate InodesOk(inodes: map<nat, Inode>)
  {
    forall i | i in inodes :: |inodes[i].addrs| == NDIRECT + 1
  }

  /** Every nonzero slot owns its block and every owned block is in exactly one slot. */
  ghost predicate SlotsOk(sb: Sb, blk: Disk, inodes: map<nat, Inode>, owner: Owner, inum: nat, dead: nat)
    requires InodesOk(inodes)
  {
    && (forall i, k | i in inodes && 0 <= k < NSLOTS && Slot(blk, inodes[i], k) != 0 && !Gone(i, k, inum, dead) ::
          Slot(blk, inodes[i], k) in owner && owner[Slot(blk, inodes[i], k)] == (i, k))
    && (forall b | b in owner ::
          && sb.nmeta <= b < sb.size
          && owner[b].0 in inodes && owner[b].1 < NSLOTS && !Gone(owner[b].0, owner[b].1, inum, dead)
          && Slot(blk, inodes[owner[b].0], owner[b].1) == b)
  }

  /** The set bits of the free map are exactly the metadata blocks and the owned blocks. */
  ghost predicate MapOk(sb: Sb, blk: Disk, owner: Owner)
    requires SbOk(sb, blk)
  {
    forall b | 0 <= b < sb.size :: InUse(sb, blk, b) <==> b < sb.nmeta || b in owner
  }

  /** Block ownership, with dead table entries of inum excepted. */
  ghost predicate OwnsBut(sb: Sb, blk: Disk, inodes: map<nat, Inode>, owner: Owner, inum: nat, dead: nat)
  {
    && SbOk(sb, blk) && InodesOk(inodes)
    && SlotsOk(sb, blk, inodes, owner, inum, dead) && MapOk(sb, blk, owner)
  }

  ghost predicate Owns(sb: Sb, blk: Disk, inodes: map<nat, Inode>, owner: Owner)
  {
    OwnsBut(sb, blk, inodes, owner, 0, 0)
  }

  /** What ownership says in plain words: all nonzero block numbers of all inodes are
      pairwise distinct, lie in the data area and are marked in use; and every marked
      data block belongs to some inode. */
  lemma OwnershipMeans(sb: Sb, blk: Disk, inodes: map<nat, Inode>, owner: Owner)
    requires Owns(sb, blk, inodes, owner)
    ensures forall i, k | i in inodes && 0 <= k < NSLOTS && Slot(blk, inodes[i], k) != 0 ::
              sb.nmeta <= Slot(blk, inodes[i], k) < sb.size && InUse(sb, blk, Slot(blk, inodes[i], k))
    ensures forall i, k, j, m | i in inodes && 0 <= k < NSLOTS && j in inodes && 0 <= m < NSLOTS &&
              Slot(blk, inodes[i], k) == Slot(blk, inodes[j], m) != 0 :: i == j && k == m
    ensures forall b | sb.nmeta <= b < sb.size && InUse(sb, blk, b) ::
              exists i, k :: i in inodes && 0 <= k < NSLOTS && Slot(blk, inodes[i], k) == b
  {
    forall i, k, j, m | i in inodes && 0 <= k < NSLOTS && j in inodes && 0 <= m < NSLOTS &&
              Slot(blk, inodes[i], k) == Slot(blk, inodes[j], m) != 0 ensures i == j && k == m {
      assert owner[Slot(blk, inodes[i], k)] == (i, k) && owner[Slot(blk, inodes[j], m)] == (j, m);
    }
    forall b | sb.nmeta <= b < sb.size && InUse(sb, blk, b)
      ensures exists i, k :: i in inodes && 0 <= k < NSLOTS && Slot(blk, inodes[i], k) == b {
      assert Slot(blk, inodes[owner[b].0], owner[b].1) == b;
    }
  }

  // ---------------------------------------------------------------- allocation keeps ownership

  /** Table blocks are owned: they are neither free, nor metadata, nor anyone else's. */
  lemma TableOwned(sb: Sb, blk: Disk, inodes: map<nat, Inode>, owner: Owner, inum: nat, dead: nat, i: nat)
    requires OwnsBut(sb, blk, inodes, owner, inum, dead) && i in inodes
    ensures var t := inodes[i].addrs[NDIRECT];
            t == 0 || (sb.nmeta <= t < sb.size && t in owner && owner[t] == (i, NDIRECT) && InUse(sb, blk, t))
  {
    assert Slot(blk, inodes[i], NDIRECT) == inodes[i].addrs[NDIRECT];
  }

  /** balloc's effect on the blocks. */
  function Allocated(sb: Sb, blk: Disk, addr: nat): (r: Disk)
    requires BBlock(sb, addr) < |blk| && addr < |blk|
    ensures |r| == |blk|
  {
    Mark(sb, blk, addr, true)[addr := Zeros()]
  }

  lemma AllocatedBlocks(sb: Sb, blk: Disk, owner: Owner, addr: nat)
    requires SbOk(sb, blk) && MapOk(sb, blk, owner) && sb.nmeta <= addr < sb.size && !InUse(sb, blk, addr)
    ensures BBlock(sb, addr) < sb.nmeta && addr !in owner
    ensures var r := Allocated(sb, blk, addr);
            && r[addr] == Zeros()
            && (forall c | sb.nmeta <= c < |blk| && c != addr :: r[c] == blk[c])
            && (forall b | 0 <= b < sb.size :: InUse(sb, r, b) == (b == addr || InUse(sb, blk, b)))
  {
    assert addr / BPB <= (sb.size - 1) / BPB;
    var r := Allocated(sb, blk, addr);
    forall b | 0 <= b < sb.size ensures InUse(sb, r, b) == (b == addr || InUse(sb, blk, b)) {
      assert BBlock(sb, b) <= sb.bmapstart + (sb.size - 1) / BPB;
      MarkBits(sb, blk, addr, true, b);
    }
  }

  function WithAddr(inodes: map<nat, Inode>, i: nat, k: nat, addr: nat): (r: map<nat, Inode>)
    requires i in inodes && k < |inodes[i].addrs|
  {
    inodes[i := inodes[i].(addrs := inodes[i].addrs[k := addr])]
  }

  lemma AllocSlotAt(sb: Sb, blk: Disk, inodes: map<nat, Inode>, owner: Owner,
                    i: nat, k: nat, addr: nat, i1: nat, k1: nat)
    requires Owns(sb, blk, inodes, owner) && i in inodes && k <= NDIRECT && inodes[i].addrs[k] == 0
    requires sb.nmeta <= addr < sb.size && !InUse(sb, blk, addr)
    requires i1 in inodes && k1 < NSLOTS
    ensures BBlock(sb, addr) < |blk|
    ensures Slot(Allocated(sb, blk, addr), WithAddr(inodes, i, k, addr)[i1], k1)
         == if i1 == i && k1 == k then addr else Slot(blk, inodes[i1], k1)
  {
    AllocatedBlocks(sb, blk, owner, addr);
    TableOwned(sb, blk, inodes, owner, 0, 0, i1);
    if i1 == i && k == NDIRECT && k1 > NDIRECT {
      ZeroWords(k1 - NDIRECT - 1);
    }
  }

  /** Ownership after slot (i, k), which was empty, came to hold the free block addr. */
  lemma Gained(sb: Sb, blk: Disk, inodes: map<nat, Inode>, owner: Owner,
               blk1: Disk, inodes1: map<nat, Inode>, i: nat, k: nat, addr: nat)
    requires Owns(sb, blk, inodes, owner) && |blk1| == |blk| && SbOk(sb, blk1)
    requires inodes1.Keys == inodes.Keys && InodesOk(inodes1)
    requires i in inodes && k < NSLOTS && Slot(blk, inodes[i], k) == 0
    requires sb.nmeta <= addr < sb.size && addr !in owner
    requires forall i1, k1 | i1 in inodes && 0 <= k1 < NSLOTS ::
               Slot(blk1, inodes1[i1], k1) == if i1 == i && k1 == k then addr else Slot(blk, inodes[i1], k1)
    requires forall b | 0 <= b < sb.size :: InUse(sb, blk1, b) == (b == addr || InUse(sb, blk, b))
    ensures Owns(sb, blk1, inodes1, owner[addr := (i, k)])
  {
  }

  /** A fresh block put into a direct slot, or as a new indirect table. The table reads as
      empty because balloc zeroed it. */
  lemma AllocSlot(sb: Sb, blk: Disk, inodes: map<nat, Inode>, owner: Owner, i: nat, k: nat, addr: nat)
    requires Owns(sb, blk, inodes, owner) && i in inodes && k <= NDIRECT && inodes[i].addrs[k] == 0
    requires sb.nmeta <= addr < sb.size && !InUse(sb, blk, addr)
    ensures BBlock(sb, addr) < |blk| && addr !in owner
    ensures Owns(sb, Allocated(sb, blk, addr), WithAddr(inodes, i, k, addr), owner[addr := (i, k)])
  {
    hide SlotsOk, MapOk;
    AllocatedBlocks(sb, blk, owner, addr);
    var blk1, inodes1 := Allocated(sb, blk, addr), WithAddr(inodes, i, k, addr);
    forall i1, k1 | i1 in inodes && 0 <= k1 < NSLOTS
      ensures Slot(blk1, inodes1[i1], k1) == if i1 == i && k1 == k then addr else Slot(blk, inodes[i1], k1)
    {
      AllocSlotAt(sb, blk, inodes, owner, i, k, addr, i1, k1);
    }
    Gained(sb, blk, inodes, owner, blk1, inodes1, i, k, addr);
  }

  /** bmap's effect on the blocks when it fills entry j of the indirect table t. */
  function Entered(sb: Sb, blk: Disk, t: nat, j: nat, addr: nat): (r: Disk)
    requires BBlock(sb, addr) < |blk| && addr < |blk| && t < |blk| && j < NINDIRECT && addr < 0x1_0000_0000
    ensures |r| == |blk|
  {
    Allocated(sb, blk, addr)[t := PutWord(Allocated(sb, blk, addr)[t], j, addr)]
  }

  lemma AllocEntryAt(sb: Sb, blk: Disk, inodes: map<nat, Inode>, owner: Owner,
                     i: nat, j: nat, addr: nat, i1: nat, k1: nat)
    requires Owns(sb, blk, inodes, owner) && i in inodes && j < NINDIRECT && inodes[i].addrs[NDIRECT] != 0
    requires sb.nmeta <= addr < sb.size && !InUse(sb, blk, addr)
    requires i1 in inodes && k1 < NSLOTS
    ensures BBlock(sb, addr) < |blk| && inodes[i].addrs[NDIRECT] < |blk|
    ensures Slot(Entered(sb, blk, inodes[i].addrs[NDIRECT], j, addr), inodes[i1], k1)
         == if i1 == i && k1 == NDIRECT + 1 + j then addr else Slot(blk, inodes[i1], k1)
  {
    AllocatedBlocks(sb, blk, owner, addr);
    TableOwned(sb, blk, inodes, owner, 0, 0, i1);
    TableOwned(sb, blk, inodes, owner, 0, 0, i);
  }

  /** A fresh block put into an empty entry of the indirect table. */
  lemma AllocEntry(sb: Sb, blk: Disk, inodes: map<nat, Inode>, owner: Owner, i: nat, j: nat, addr: nat)
    requires Owns(sb, blk, inodes, owner) && i in inodes && j < NINDIRECT && inodes[i].addrs[NDIRECT] != 0
    requires Slot(blk, inodes[i], NDIRECT + 1 + j) == 0
    requires sb.nmeta <= addr < sb.size && !InUse(sb, blk, addr)
    ensures BBlock(sb, addr) < |blk| && addr !in owner && inodes[i].addrs[NDIRECT] < |blk|
    ensures Owns(sb, Entered(sb, blk, inodes[i].addrs[NDIRECT], j, addr), inodes,
                 owner[addr := (i, NDIRECT + 1 + j)])
  {
    hide SlotsOk, MapOk;
    AllocatedBlocks(sb, blk, owner, addr);
    TableOwned(sb, blk, inodes, owner, 0, 0, i);
    var t := inodes[i].addrs[NDIRECT];
    var blk1 := Entered(sb, blk, t, j, addr);
    forall i1, k1 | i1 in inodes && 0 <= k1 < NSLOTS
      ensures Slot(blk1, inodes[i1], k1)
           == if i1 == i && k1 == NDIRECT + 1 + j then addr else Slot(blk, inodes[i1], k1)
    {
      AllocEntryAt(sb, blk, inodes, owner, i, j, addr, i1, k1);
    }
    forall b | 0 <= b < sb.size ensures InUse(sb, blk1, b) == (b == addr || InUse(sb, blk, b)) {
      assert b / BPB <= (sb.size - 1) / BPB;
      assert blk1[BBlock(sb, b)] == Allocated(sb, blk, addr)[BBlock(sb, b)];
    }
    Gained(sb, blk, inodes, owner, blk1, inodes, i, NDIRECT + 1 + j, addr);
  }

  // ---------------------------------------------------------------- freeing keeps ownership

  lemma FreedBlocks(sb: Sb, blk: Disk, addr: nat)
    requires SbOk(sb, blk) && sb.nmeta <= addr < sb.size
    ensures BBlock(sb, addr) < sb.nmeta
    ensures var r := Mark(sb, blk, addr, false);
            && (forall c | sb.nmeta <= c < |blk| :: r[c] == blk[c])
            && (forall b | 0 <= b < sb.size :: InUse(sb, r, b) == (b != addr && InUse(sb, blk, b)))
  {
    assert addr / BPB <= (sb.size - 1) / BPB;
    var r := Mark(sb, blk, addr, false);
    forall b | 0 <= b < sb.size ensures InUse(sb, r, b) == (b != addr && InUse(sb, blk, b)) {
      assert b / BPB <= (sb.size - 1) / BPB;
      MarkBits(sb, blk, addr, false, b);
    }
  }

  /** Clearing a bit of the free map changes no table, hence no slot. */
  lemma FreedSlots(sb: Sb, blk: Disk, inodes: map<nat, Inode>, owner: Owner, inum: nat, dead: nat, addr: nat)
    requires OwnsBut(sb, blk, inodes, owner, inum, dead) && sb.nmeta <= addr < sb.size
    ensures BBlock(sb, addr) < |blk|
    ensures forall i, k | i in inodes && 0 <= k < NSLOTS ::
              Slot(Mark(sb, blk, addr, false), inodes[i], k) == Slot(blk, inodes[i], k)
  {
    FreedBlocks(sb, blk, addr);
    forall i, k | i in inodes && 0 <= k < NSLOTS
      ensures Slot(Mark(sb, blk, addr, false), inodes[i], k) == Slot(blk, inodes[i], k)
    {
      TableOwned(sb, blk, inodes, owner, inum, dead, i);
    }
  }

  /** A nonzero live slot holds an owned block whose bit is set: bfree cannot panic on it. */
  lemma SlotOwned(sb: Sb, blk: Disk, inodes: map<nat, Inode>, owner: Owner, inum: nat, dead: nat, i: nat, k: nat)
    requires OwnsBut(sb, blk, inodes, owner, inum, dead) && i in inodes && k < NSLOTS
    requires Slot(blk, inodes[i], k) != 0 && !Gone(i, k, inum, dead)
    ensures var b := Slot(blk, inodes[i], k);
            sb.nmeta <= b < sb.size && b in owner && owner[b] == (i, k) && InUse(sb, blk, b)
  {
  }

  /** Ownership after the live slot (i, k), which held addr, ceased to be live. */
  lemma Lost(sb: Sb, blk: Disk, inodes: map<nat, Inode>, owner: Owner, inum: nat, dead: nat,
             inodes1: map<nat, Inode>, dead1: nat, i: nat, k: nat)
    requires OwnsBut(sb, blk, inodes, owner, inum, dead) && i in inodes && k < NSLOTS
    requires inodes1.Keys == inodes.Keys && InodesOk(inodes1)
    requires Slot(blk, inodes[i], k) != 0 && !Gone(i, k, inum, dead)
    requires sb.nmeta <= Slot(blk, inodes[i], k) < sb.size && BBlock(sb, Slot(blk, inodes[i], k)) < |blk|
    requires var blk1 := Mark(sb, blk, Slot(blk, inodes[i], k), false);
             forall i1, k1 | i1 in inodes && 0 <= k1 < NSLOTS ::
               && (Slot(blk1, inodes1[i1], k1) != 0 && !Gone(i1, k1, inum, dead1) <==>
                     Slot(blk, inodes[i1], k1) != 0 && !Gone(i1, k1, inum, dead) && (i1, k1) != (i, k))
               && (Slot(blk1, inodes1[i1], k1) != 0 ==> Slot(blk1, inodes1[i1], k1) == Slot(blk, inodes[i1], k1))
    ensures var addr := Slot(blk, inodes[i], k);
            OwnsBut(sb, Mark(sb, blk, addr, false), inodes1, owner - {addr}, inum, dead1)
  {
    FreedBlocks(sb, blk, Slot(blk, inodes[i], k));
  }

  /** itrunc frees a direct block. */
  lemma FreeSlot(sb: Sb, blk: Disk, inodes: map<nat, Inode>, owner: Owner, i: nat, k: nat)
    requires Owns(sb, blk, inodes, owner) && i in inodes && k < NDIRECT && inodes[i].addrs[k] != 0
    ensures var addr := inodes[i].addrs[k];
            && addr < sb.size && BBlock(sb, addr) < |blk| && InUse(sb, blk, addr)
            && Owns(sb, Mark(sb, blk, addr, false), WithAddr(inodes, i, k, 0), owner - {addr})
  {
    hide SlotsOk, MapOk;
    SlotOwned(sb, blk, inodes, owner, 0, 0, i, k);
    FreedBlocks(sb, blk, inodes[i].addrs[k]);
    FreedSlots(sb, blk, inodes, owner, 0, 0, inodes[i].addrs[k]);
    Lost(sb, blk, inodes, owner, 0, 0, WithAddr(inodes, i, k, 0), 0, i, k);
  }

  lemma PassEmpty(sb: Sb, blk: Disk, inodes: map<nat, Inode>, owner: Owner, i: nat, j: nat)
    requires OwnsBut(sb, blk, inodes, owner, i, j) && i in inodes && j < NINDIRECT
    requires Slot(blk, inodes[i], NDIRECT + 1 + j) == 0
    ensures OwnsBut(sb, blk, inodes, owner, i, j + 1)
  {
    hide MapOk;
  }

  /** itrunc passes entry j of the indirect table, freeing its block if it has one. */
  lemma FreeEntry(sb: Sb, blk: Disk, inodes: map<nat, Inode>, owner: Owner, i: nat, j: nat)
    requires OwnsBut(sb, blk, inodes, owner, i, j) && i in inodes && j < NINDIRECT
    ensures var addr := Slot(blk, inodes[i], NDIRECT + 1 + j);
            && (addr == 0 ==> OwnsBut(sb, blk, inodes, owner, i, j + 1))
            && (addr != 0 ==>
                  && addr < sb.size && BBlock(sb, addr) < |blk| && InUse(sb, blk, addr)
                  && OwnsBut(sb, Mark(sb, blk, addr, false), inodes, owner - {addr}, i, j + 1))
  {
    hide SlotsOk, MapOk;
    var addr := Slot(blk, inodes[i], NDIRECT + 1 + j);
    if addr == 0 {
      PassEmpty(sb, blk, inodes, owner, i, j);
    } else {
      SlotOwned(sb, blk, inodes, owner, i, j, i, NDIRECT + 1 + j);
      FreedBlocks(sb, blk, addr);
      FreedSlots(sb, blk, inodes, owner, i, j, addr);
      Lost(sb, blk, inodes, owner, i, j, inodes, j + 1, i, NDIRECT + 1 + j);
    }
  }

  /** itrunc frees the indirect table once all its entries are freed. */
  lemma FreeTable(sb: Sb, blk: Disk, inodes: map<nat, Inode>, owner: Owner, i: nat)
    requires OwnsBut(sb, blk, inodes, owner, i, NINDIRECT) && i in inodes && inodes[i].addrs[NDIRECT] != 0
    ensures var addr := inodes[i].addrs[NDIRECT];
            && addr < sb.size && BBlock(sb, addr) < |blk| && InUse(sb, blk, addr)
            && OwnsBut(sb, Mark(sb, blk, addr, false), WithAddr(inodes, i, NDIRECT, 0), owner - {addr}, i, 0)
  {
    hide SlotsOk, MapOk;
    SlotOwned(sb, blk, inodes, owner, i, NINDIRECT, i, NDIRECT);
    FreedBlocks(sb, blk, inodes[i].addrs[NDIRECT]);
    FreedSlots(sb, blk, inodes, owner, i, NINDIRECT, inodes[i].addrs[NDIRECT]);
    Lost(sb, blk, inodes, owner, i, NINDIRECT, WithAddr(inodes, i, NDIRECT, 0), 0, i, NDIRECT);
  }

  /** With no dead entries it does not matter whose entries are excepted. */
  lemma NoneDead(sb: Sb, blk: Disk, inodes: map<nat, Inode>, owner: Owner, i: nat)
    ensures OwnsBut(sb, blk, inodes, owner, i, 0) == Owns(sb, blk, inodes, owner)
  {
    assert forall i1, k1 :: !Gone(i1, k1, i, 0) && !Gone(i1, k1, 0, 0);
  }

  // ---------------------------------------------------------------- file contents

  /** The disk block that holds file block bn, 0 if none. */
  function Addr(blk: Disk, ino: Inode, bn: nat): (b: nat)
    requires |ino.addrs| == NDIRECT + 1 && bn < MAXFILE
  {
    Slot(blk, ino, DataSlot(bn))
  }

  /** Every block index that the first len bytes of the file need is mapped. */
  ghost predicate Mapped(blk: Disk, ino: Inode, len: nat)
  {
    && |ino.addrs| == NDIRECT + 1 && len <= MAXFILE * BSIZE
    && forall bn: nat | bn < MAXFILE && bn * BSIZE < len :: 0 < Addr(blk, ino, bn) < |blk|
  }

  ghost function ByteAt(blk: Disk, ino: Inode, len: nat, o: nat): (x: Byte)
    requires Mapped(blk, ino, len) && o < len
  {
    blk[Addr(blk, ino, o / BSIZE)][o % BSIZE]
  }

  /** The first len bytes of a file. */
  ghost function Bytes(blk: Disk, ino: Inode, len: nat): (s: seq<Byte>)
    requires Mapped(blk, ino, len)
    ensures |s| == len
  {
    seq(len, o requires 0 <= o < len && Mapped(blk, ino, len) => ByteAt(blk, ino, len, o))
  }

  /** The file system invariant: ownership, and every file mapped up to its size. */
  ghost predicate FsOk(sb: Sb, blk: Disk, inodes: map<nat, Inode>, owner: Owner)
  {
    && Owns(sb, blk, inodes, owner)
    && forall i | i in inodes :: Mapped(blk, inodes[i], inodes[i].size)
  }

  /** Whatever was mapped still is, with the same bytes. */
  ghost predicate KeepsBytes(blk: Disk, ino: Inode, blk1: Disk, ino1: Inode)
  {
    forall len: nat | Mapped(blk, ino, len) :: Mapped(blk1, ino1, len) && Bytes(blk1, ino1, len) == Bytes(blk, ino, len)
  }

  ghost predicate KeepsAll(blk: Disk, inodes: map<nat, Inode>, blk1: Disk, inodes1: map<nat, Inode>)
  {
    && inodes1.Keys == inodes.Keys
    && forall i | i in inodes :: inodes1[i].size == inodes[i].size && KeepsBytes(blk, inodes[i], blk1, inodes1[i])
  }

  lemma KeepsAllTrans(blk: Disk, inodes: map<nat, Inode>, blk1: Disk, inodes1: map<nat, Inode>,
                      blk2: Disk, inodes2: map<nat, Inode>)
    requires KeepsAll(blk, inodes, blk1, inodes1) && KeepsAll(blk1, inodes1, blk2, inodes2)
    ensures KeepsAll(blk, inodes, blk2, inodes2)
  {
  }

  /** Slots that were in use still hold the same block, and data blocks the same bytes. */
  lemma SameDataSameBytes(blk: Disk, ino: Inode, blk1: Disk, ino1: Inode)
    requires |blk1| == |blk| && |ino.addrs| == |ino1.addrs| == NDIRECT + 1
    requires forall k | 0 <= k < NSLOTS && Slot(blk, ino, k) != 0 :: Slot(blk1, ino1, k) == Slot(blk, ino, k)
    requires forall k | 0 <= k < NSLOTS && k != NDIRECT && 0 < Slot(blk, ino, k) < |blk| ::
               blk1[Slot(blk, ino, k)] == blk[Slot(blk, ino, k)]
    ensures KeepsBytes(blk, ino, blk1, ino1)
  {
    forall len: nat | Mapped(blk, ino, len)
      ensures Mapped(blk1, ino1, len) && Bytes(blk1, ino1, len) == Bytes(blk, ino, len)
    {
      assert Mapped(blk1, ino1, len) by {
        forall bn: nat | bn < MAXFILE && bn * BSIZE < len ensures Addr(blk1, ino1, bn) == Addr(blk, ino, bn) > 0 {
        }
      }
      forall o: nat | o < len ensures ByteAt(blk1, ino1, len, o) == ByteAt(blk, ino, len, o) {
        assert o / BSIZE * BSIZE <= o;
        assert DataSlot(o / BSIZE) != NDIRECT;
      }
    }
  }

  lemma AllocSlotKeeps(sb: Sb, blk: Disk, inodes: map<nat, Inode>, owner: Owner, i: nat, k: nat, addr: nat)
    requires Owns(sb, blk, inodes, owner) && i in inodes && k <= NDIRECT && inodes[i].addrs[k] == 0
    requires sb.nmeta <= addr < sb.size && !InUse(sb, blk, addr) && BBlock(sb, addr) < |blk|
    ensures KeepsAll(blk, inodes, Allocated(sb, blk, addr), WithAddr(inodes, i, k, addr))
  {
    hide SlotsOk, MapOk, Mapped, KeepsBytes;
    AllocatedBlocks(sb, blk, owner, addr);
    var blk1, inodes1 := Allocated(sb, blk, addr), WithAddr(inodes, i, k, addr);
    forall i1 | i1 in inodes ensures KeepsBytes(blk, inodes[i1], blk1, inodes1[i1]) {
      forall k1 | 0 <= k1 < NSLOTS && Slot(blk, inodes[i1], k1) != 0
        ensures Slot(blk1, inodes1[i1], k1) == Slot(blk, inodes[i1], k1)
        ensures Slot(blk, inodes[i1], k1) < |blk| && blk1[Slot(blk, inodes[i1], k1)] == blk[Slot(blk, inodes[i1], k1)]
      {
        AllocSlotAt(sb, blk, inodes, owner, i, k, addr, i1, k1);
        SlotOwned(sb, blk, inodes, owner, 0, 0, i1, k1);
      }
      SameDataSameBytes(blk, inodes[i1], blk1, inodes1[i1]);
    }
  }

  lemma AllocEntryKeeps(sb: Sb, blk: Disk, inodes: map<nat, Inode>, owner: Owner, i: nat, j: nat, addr: nat)
    requires Owns(sb, blk, inodes, owner) && i in inodes && j < NINDIRECT && 0 < inodes[i].addrs[NDIRECT] < |blk|
    requires Slot(blk, inodes[i], NDIRECT + 1 + j) == 0
    requires sb.nmeta <= addr < sb.size && !InUse(sb, blk, addr) && BBlock(sb, addr) < |blk|
    ensures KeepsAll(blk, inodes, Entered(sb, blk, inodes[i].addrs[NDIRECT], j, addr), inodes)
  {
    hide SlotsOk, MapOk, Mapped, KeepsBytes;
    AllocatedBlocks(sb, blk, owner, addr);
    TableOwned(sb, blk, inodes, owner, 0, 0, i);
    var blk1 := Entered(sb, blk, inodes[i].addrs[NDIRECT], j, addr);
    forall i1 | i1 in inodes ensures KeepsBytes(blk, inodes[i1], blk1, inodes[i1]) {
      forall k1 | 0 <= k1 < NSLOTS && Slot(blk, inodes[i1], k1) != 0
        ensures Slot(blk1, inodes[i1], k1) == Slot(blk, inodes[i1], k1)
        ensures Slot(blk, inodes[i1], k1) < |blk|
        ensures k1 != NDIRECT ==> blk1[Slot(blk, inodes[i1], k1)] == blk[Slot(blk, inodes[i1], k1)]
      {
        AllocEntryAt(sb, blk, inodes, owner, i, j, addr, i1, k1);
        SlotOwned(sb, blk, inodes, owner, 0, 0, i1, k1);
      }
      SameDataSameBytes(blk, inodes[i1], blk1, inodes[i1]);
    }
  }

  /** Freeing a block leaves the contents of every file that does not use it. */
  lemma FreeKeeps(sb: Sb, blk: Disk, inodes: map<nat, Inode>, owner: Owner, inum: nat, dead: nat, addr: nat, i: nat)
    requires OwnsBut(sb, blk, inodes, owner, inum, dead) && i in inodes && i != inum
    requires sb.nmeta <= addr < sb.size && BBlock(sb, addr) < |blk|
    ensures KeepsBytes(blk, inodes[i], Mark(sb, blk, addr, false), inodes[i])
  {
    hide SlotsOk, MapOk, Mapped, KeepsBytes;
    FreedBlocks(sb, blk, addr);
    FreedSlots(sb, blk, inodes, owner, inum, dead, addr);
    forall k1 | 0 <= k1 < NSLOTS && Slot(blk, inodes[i], k1) != 0
      ensures Slot(blk, inodes[i], k1) < |blk|
      ensures Mark(sb, blk, addr, false)[Slot(blk, inodes[i], k1)] == blk[Slot(blk, inodes[i], k1)]
    {
      SlotOwned(sb, blk, inodes, owner, inum, dead, i, k1);
    }
    SameDataSameBytes(blk, inodes[i], Mark(sb, blk, addr, false), inodes[i]);
  }

  // ---------------------------------------------------------------- writing data

  /** m bytes of a block replaced from position lo on. */
  function Patch(b: Block, lo: nat, data: seq<Byte>): (r: Block)
    requires lo + |data| <= BSIZE
    ensures forall x | 0 <= x < BSIZE :: r[x] == if lo <= x < lo + |data| then data[x - lo] else b[x]
  {
    b[..lo] + data + b[lo + |data|..]
  }

  /** Contents c with the bytes from off on overwritten or extended by d. */
  ghost function Splice(c: seq<Byte>, off: nat, d: seq<Byte>): (r: seq<Byte>)
    requires off <= |c|
  {
    c[..off] + d + if off + |d| < |c| then c[off + |d|..] else []
  }

  /** Overwriting bytes of a data block keeps ownership and all slots. */
  lemma PatchOwns(sb: Sb, blk: Disk, inodes: map<nat, Inode>, owner: Owner, i: nat, k: nat, r: Block)
    requires Owns(sb, blk, inodes, owner) && i in inodes && k < NSLOTS && k != NDIRECT && Slot(blk, inodes[i], k) != 0
    ensures Slot(blk, inodes[i], k) < |blk|
    ensures var blk1 := blk[Slot(blk, inodes[i], k) := r];
            && Owns(sb, blk1, inodes, owner)
            && forall i1, k1 | i1 in inodes && 0 <= k1 < NSLOTS ::
                 Slot(blk1, inodes[i1], k1) == Slot(blk, inodes[i1], k1)
  {
    SlotOwned(sb, blk, inodes, owner, 0, 0, i, k);
    var d := Slot(blk, inodes[i], k);
    var blk1 := blk[d := r];
    forall i1, k1 | i1 in inodes && 0 <= k1 < NSLOTS
      ensures Slot(blk1, inodes[i1], k1) == Slot(blk, inodes[i1], k1)
    {
      TableOwned(sb, blk, inodes, owner, 0, 0, i1);
    }
    forall b | 0 <= b < sb.size ensures InUse(sb, blk1, b) == InUse(sb, blk, b) {
      assert b / BPB <= (sb.size - 1) / BPB;
    }
  }

  lemma PatchOthers(sb: Sb, blk: Disk, inodes: map<nat, Inode>, owner: Owner, i: nat, k: nat, r: Block, i1: nat)
    requires Owns(sb, blk, inodes, owner) && i in inodes && k < NSLOTS && k != NDIRECT && Slot(blk, inodes[i], k) != 0
    requires Slot(blk, inodes[i], k) < |blk| && i1 in inodes && i1 != i
    ensures KeepsBytes(blk, inodes[i1], blk[Slot(blk, inodes[i], k) := r], inodes[i1])
  {
    hide SlotsOk, MapOk, Mapped, KeepsBytes;
    PatchOwns(sb, blk, inodes, owner, i, k, r);
    SlotOwned(sb, blk, inodes, owner, 0, 0, i, k);
    var blk1 := blk[Slot(blk, inodes[i], k) := r];
    forall k1 | 0 <= k1 < NSLOTS && Slot(blk, inodes[i1], k1) != 0
      ensures Slot(blk, inodes[i1], k1) < |blk| && blk1[Slot(blk, inodes[i1], k1)] == blk[Slot(blk, inodes[i1], k1)]
    {
      SlotOwned(sb, blk, inodes, owner, 0, 0, i1, k1);
    }
    SameDataSameBytes(blk, inodes[i1], blk1, inodes[i1]);
  }

  lemma PatchByte(sb: Sb, blk: Disk, inodes: map<nat, Inode>, owner: Owner, i: nat, off: nat, data: seq<Byte>, o: nat)
    requires Owns(sb, blk, inodes, owner) && i in inodes
    requires off < MAXFILE * BSIZE && off % BSIZE + |data| <= BSIZE
    requires 0 < Addr(blk, inodes[i], off / BSIZE) < |blk|
    requires o < MAXFILE * BSIZE && 0 < Addr(blk, inodes[i], o / BSIZE) < |blk|
    ensures var a, c := Addr(blk, inodes[i], off / BSIZE), Addr(blk, inodes[i], o / BSIZE);
            var x := blk[a := Patch(blk[a], off % BSIZE, data)][c][o % BSIZE];
            x == if off <= o < off + |data| then data[o - off] else blk[c][o % BSIZE]
  {
    hide MapOk;
    SlotOwned(sb, blk, inodes, owner, 0, 0, i, DataSlot(off / BSIZE));
    SlotOwned(sb, blk, inodes, owner, 0, 0, i, DataSlot(o / BSIZE));
  }

  /** The file after m bytes at offset off were written into the block that holds them:
      the other bytes stay, and the file may have grown by the bytes written. */
  lemma PatchBytes(sb: Sb, blk: Disk, inodes: map<nat, Inode>, owner: Owner, i: nat, off: nat, data: seq<Byte>,
                   len: nat)
    requires Owns(sb, blk, inodes, owner) && i in inodes
    requires Mapped(blk, inodes[i], len) && off <= len && off + |data| <= MAXFILE * BSIZE && data != []
    requires off % BSIZE + |data| <= BSIZE && Addr(blk, inodes[i], off / BSIZE) != 0
    ensures Addr(blk, inodes[i], off / BSIZE) < |blk|
    ensures var a := Addr(blk, inodes[i], off / BSIZE);
            var blk1 := blk[a := Patch(blk[a], off % BSIZE, data)];
            var len1 := if off + |data| < len then len else off + |data|;
            && Mapped(blk1, inodes[i], len1)
            && Bytes(blk1, inodes[i], len1) == Splice(Bytes(blk, inodes[i], len), off, data)
  {
    hide SlotsOk, MapOk;
    var bn, ino := off / BSIZE, inodes[i];
    var a := Addr(blk, ino, bn);
    SlotOwned(sb, blk, inodes, owner, 0, 0, i, DataSlot(bn));
    PatchOwns(sb, blk, inodes, owner, i, DataSlot(bn), Patch(blk[a], off % BSIZE, data));
    var blk1 := blk[a := Patch(blk[a], off % BSIZE, data)];
    var len1 := if off + |data| < len then len else off + |data|;
    forall b: nat | b < MAXFILE && b * BSIZE < len1 ensures 0 < Addr(blk1, ino, b) < |blk1| {
      assert Addr(blk1, ino, b) == Addr(blk, ino, b);
      assert b <= bn || b * BSIZE < len;
      if b < bn { assert b * BSIZE < len; }
    }
    forall o: nat | o < len1 ensures ByteAt(blk1, ino, len1, o) == Splice(Bytes(blk, ino, len), off, data)[o] {
      assert Addr(blk1, ino, o / BSIZE) == Addr(blk, ino, o / BSIZE) && o / BSIZE * BSIZE <= o;
      PatchByte(sb, blk, inodes, owner, i, off, data, o);
    }
  }
}
