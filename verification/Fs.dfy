/** balloc, bfree, bmap, itrunc, readi and writei of kernel/fs.c, and the chunking of
    filewrite in kernel/file.c. `blk` is what bread shows; log_write adds to `logged`. */
module Fs {
  import opened Blocks
  import opened Common
  import opened FsSpec
  import opened FsDisk
  import opened FsLaws
  import opened FsRoom

  /** The first clear bit of a free-map block among the first `limit` bits. */
  method FirstClear(bp: Block, limit: nat) returns (bi: nat)
    ensures bi <= BPB && bi <= limit && forall c | 0 <= c < bi :: GetBit(bp, c)
    ensures bi < BPB && bi < limit ==> !GetBit(bp, bi)
  {
    bi := 0;
    while bi < BPB && bi < limit && GetBit(bp, bi)
      invariant bi <= BPB && bi <= limit && forall c | 0 <= c < bi :: GetBit(bp, c)
    {
      bi := bi + 1;
    }
  }

  class FileSystem {
    const sb: Sb
    var blk: Disk                       // block contents as seen through the cache
    var inodes: map<nat, Inode>         // in-memory inodes
    var writes: Writes                  // the log_write calls since the last begin_op
    ghost var owner: Owner
    ghost var dinodes: map<nat, Inode>  // inodes as last written by iupdate
    ghost var home: Disk                // the blocks at the last begin_op
    ghost var logged: set<nat>          // the blocks of those calls
    ghost var stray: set<nat>           // blocks changed in the cache without log_write

    ghost predicate Valid()
      reads this
    {
      FsOk(sb, blk, inodes, owner) && Attached()
    }

    /** Memory and disk know the same inodes, and every change of a block is accounted for. */
    ghost predicate Attached()
      reads this
    {
      Tracked(sb, home, blk, logged, writes, stray, dinodes) && inodes.Keys == dinodes.Keys
    }

    /** Between operations every inode in memory is also on disk. */
    ghost predicate Synced()
      reads this
    {
      inodes == dinodes
    }

    /** The free blocks, and the empty slots of a file. */
    ghost function Spare(inum: nat): (r: Room)
      reads this
    {
      RoomOf(sb, blk, inodes, inum)
    }

    /** Then the disk itself is a consistent file system with these inodes. */
    lemma SyncedConsistent()
      requires Valid() && Synced()
      ensures Consistent(sb, blk, owner) && inodes == Inodes(sb, blk)
    {
      hide FsOk, Inodes;
    }

    constructor (sb: Sb, blk: Disk, inodes: map<nat, Inode>, ghost owner: Owner)
      requires Consistent(sb, blk, owner) && inodes == Inodes(sb, blk)
      ensures Valid() && Synced() && logged == stray == {}
      ensures this.sb == sb && this.blk == home == blk && this.inodes == inodes
    {
      this.sb, this.blk, this.inodes, this.owner := sb, blk, inodes, owner;
      this.home, this.dinodes, this.logged, this.writes, this.stray := blk, inodes, {}, [], {};
    }

    /** balloc: the lowest free block, marked in use and zeroed; 0 if there is none. */
    method Balloc() returns (addr: nat)
      requires SbOk(sb, blk) && MapOk(sb, blk, owner) && Tracked(sb, home, blk, logged, writes, stray, dinodes)
      modifies this`blk, this`logged, this`writes
      ensures Tracked(sb, home, blk, logged, writes, stray, dinodes)
      ensures addr == 0 ==> blk == old(blk) && logged == old(logged) && forall b | 0 <= b < sb.size :: InUse(sb, blk, b)
      ensures addr != 0 ==>
        && sb.nmeta <= addr < sb.size && BBlock(sb, addr) < |old(blk)| && !InUse(sb, old(blk), addr)
        && (forall b | 0 <= b < addr :: InUse(sb, old(blk), b))
        && blk == Allocated(sb, old(blk), addr) && logged == old(logged) + {BBlock(sb, addr), addr}
    {
      hide MapOk, Tracked, Allocated, GetBit;
      var b := 0;
      while b < sb.size
        invariant b % BPB == 0 && blk == old(blk) && logged == old(logged) && writes == old(writes)
        invariant forall c | 0 <= c < b && c < sb.size :: InUse(sb, blk, c)
      {
        var bi := FirstClear(blk[BBlock(sb, b)], sb.size - b);
        forall c | b <= c < b + bi ensures InUse(sb, blk, c) {
          SameMapBlock(sb, b, c);
        }
        if bi < BPB && b + bi < sb.size {
          SameMapBlock(sb, b, b + bi);
          Claim(b + bi);
          return b + bi;
        }
        b := b + BPB;
      }
      return 0;
    }

    /** Mark a free block and zero it. */
    method Claim(b: nat)
      requires SbOk(sb, blk) && MapOk(sb, blk, owner) && Tracked(sb, home, blk, logged, writes, stray, dinodes)
      requires b < sb.size && !InUse(sb, blk, b)
      modifies this`blk, this`logged, this`writes
      ensures Tracked(sb, home, blk, logged, writes, stray, dinodes) && b >= sb.nmeta
      ensures blk == Allocated(sb, old(blk), b) && logged == old(logged) + {BBlock(sb, b), b}
    {
      hide MapOk, Tracked, PutBit;
      FreeIsData(sb, blk, owner, b);
      var bp := PutBit(blk[BBlock(sb, b)], b % BPB, true);
      TrackData(sb, home, blk, logged, writes, stray, dinodes, BBlock(sb, b), bp);
      blk := blk[BBlock(sb, b) := bp];
      LogWrite(BBlock(sb, b));
      Bzero(b);
    }

    /** A block handed to log_write. */
    method LogWrite(b: nat)
      requires b < |blk|
      modifies this`logged, this`writes
      ensures logged == old(logged) + {b} && writes == old(writes) + [(b, blk[b])]
    {
      writes := writes + [(b, blk[b])];
      logged := logged + {b};
    }

    method Bzero(b: nat)
      requires sb.bmapstart <= b < |blk| && Tracked(sb, home, blk, logged, writes, stray, dinodes)
      modifies this`blk, this`logged, this`writes
      ensures Tracked(sb, home, blk, logged, writes, stray, dinodes)
      ensures blk == old(blk)[b := Zeros()] && logged == old(logged) + {b}
    {
      TrackData(sb, home, blk, logged, writes, stray, dinodes, b, Zeros());
      blk := blk[b := Zeros()];
      LogWrite(b);
    }

    /** bfree: clear a block's bit; the requires is the complement of "freeing free block". */
    method Bfree(b: nat)
      requires BBlock(sb, b) < |blk| && InUse(sb, blk, b) && Tracked(sb, home, blk, logged, writes, stray, dinodes)
      modifies this`blk, this`logged, this`writes
      ensures Tracked(sb, home, blk, logged, writes, stray, dinodes)
      ensures blk == Mark(sb, old(blk), b, false) && logged == old(logged) + {BBlock(sb, b)}
    {
      var bp := blk[BBlock(sb, b)];
      TrackData(sb, home, blk, logged, writes, stray, dinodes, BBlock(sb, b), PutBit(bp, b % BPB, false));
      blk := blk[BBlock(sb, b) := PutBit(bp, b % BPB, false)];
      LogWrite(BBlock(sb, b));
    }

    /** Give the empty slot k of an inode (a direct block or the indirect table) a fresh block. */
    method AllocInto(inum: nat, k: nat) returns (addr: nat)
      requires Valid() && inum in inodes && k <= NDIRECT < |inodes[inum].addrs| && inodes[inum].addrs[k] == 0
      modifies this`blk, this`inodes, this`owner, this`logged, this`writes
      ensures Valid() && KeepsAll(old(blk), old(inodes), blk, inodes)
      ensures SlotsKept(old(blk), old(inodes), blk, inodes)
      ensures addr == 0 ==> Full(sb, blk) && blk == old(blk) && inodes == old(inodes) && logged == old(logged)
      ensures addr != 0 ==>
              inodes == WithAddr(old(inodes), inum, k, addr) && sb.nmeta <= addr < sb.size <= |blk| == |old(blk)|
      ensures addr != 0 ==> blk == Allocated(sb, old(blk), addr) && logged == old(logged) + {BBlock(sb, addr), addr}
      ensures if addr == 0 then old(Spare(inum)).free == 0 else Took(old(Spare(inum)), Spare(inum), k)
    {
      hide OwnsBut, Mapped, KeepsBytes, KeepsAll, SlotsKept, Tracked, RoomOf;
      OwnsBasics(sb, blk, inodes, owner, 0, 0);
      addr := Balloc();
      if addr == 0 {
        KeepsRefl(blk, inodes);
        NoRoom(sb, blk, inodes, inum);
        return;
      }
      RoomAlloc(sb, old(blk), inodes, owner, inum, k, addr);
      AllocSlot(sb, old(blk), inodes, owner, inum, k, addr);
      AllocSlotKeeps(sb, old(blk), inodes, owner, inum, k, addr);
      AllocSlotSlots(sb, old(blk), inodes, owner, inum, k, addr);
      inodes := inodes[inum := inodes[inum].(addrs := inodes[inum].addrs[k := addr])];
      owner := owner[addr := (inum, k)];
      KeepsFsOk(sb, old(blk), old(inodes), old(owner), blk, inodes, owner);
    }

    /** Give entry j of an inode's indirect table, which is empty, a fresh block. */
    method AllocIntoTable(inum: nat, j: nat) returns (addr: nat)
      requires Valid() && inum in inodes && NDIRECT < |inodes[inum].addrs| && inodes[inum].addrs[NDIRECT] != 0
      requires j < NINDIRECT && |inodes[inum].addrs| == NDIRECT + 1 && Slot(blk, inodes[inum], NDIRECT + 1 + j) == 0
      modifies this`blk, this`owner, this`logged, this`writes
      ensures Valid() && KeepsAll(old(blk), inodes, blk, inodes)
      ensures SlotsKept(old(blk), inodes, blk, inodes)
      ensures addr == Slot(blk, inodes[inum], NDIRECT + 1 + j)
      ensures addr == 0 ==> Full(sb, blk) && blk == old(blk) && logged == old(logged)
      ensures addr != 0 ==> sb.nmeta <= addr < sb.size <= |blk| == |old(blk)| && blk[addr] == Zeros()
      ensures addr != 0 ==> logged == old(logged) + {BBlock(sb, addr), addr, inodes[inum].addrs[NDIRECT]}
      ensures if addr == 0 then old(Spare(inum)).free == 0 else Took(old(Spare(inum)), Spare(inum), NDIRECT + 1 + j)
    {
      hide OwnsBut, Mapped, KeepsBytes, KeepsAll, SlotsKept, PutWord, GetWord, Tracked, RoomOf;
      OwnsBasics(sb, blk, inodes, owner, 0, 0);
      addr := Balloc();
      if addr == 0 {
        KeepsRefl(blk, inodes);
        NoRoom(sb, blk, inodes, inum);
        return;
      }
      var t := inodes[inum].addrs[NDIRECT];
      TableOwned(sb, old(blk), inodes, owner, 0, 0, inum);
      RoomEntry(sb, old(blk), inodes, owner, inum, j, addr);
      AllocEntry(sb, old(blk), inodes, owner, inum, j, addr);
      AllocEntryKeeps(sb, old(blk), inodes, owner, inum, j, addr);
      AllocEntrySlots(sb, old(blk), inodes, owner, inum, j, addr);
      AllocEntryAt(sb, old(blk), inodes, owner, inum, j, addr, inum, NDIRECT + 1 + j);
      TrackData(sb, home, blk, logged, writes, stray, dinodes, t, PutWord(blk[t], j, addr));
      blk := blk[t := PutWord(blk[t], j, addr)];
      LogWrite(t);
      owner := owner[addr := (inum, NDIRECT + 1 + j)];
      KeepsFsOk(sb, old(blk), inodes, old(owner), blk, inodes, owner);
    }

    /** bmap: the disk block of file block bn, allocating it (and the indirect table) if
        there is none; 0 when the disk is full. `bn < MAXFILE` is the complement of
        "bmap: out of range". */
    method Bmap(inum: nat, bn: nat) returns (addr: nat)
      requires Valid() && inum in inodes && bn < MAXFILE
      modifies this`blk, this`inodes, this`owner, this`logged, this`writes
      ensures Valid() && Bmapped(sb, old(blk), old(inodes), old(logged), blk, inodes, logged, inum, bn, addr)
      ensures Bought(old(Spare(inum)), Spare(inum), bn, addr)
    {
      hide FsOk, Bmapped, Tracked, RoomOf, Bought;
      if bn < NDIRECT {
        addr := BmapDirect(inum, bn);
      } else {
        addr := BmapIndirect(inum, bn);
      }
    }

    method BmapDirect(inum: nat, bn: nat) returns (addr: nat)
      requires Valid() && inum in inodes && bn < NDIRECT
      modifies this`blk, this`inodes, this`owner, this`logged, this`writes
      ensures Valid() && Bmapped(sb, old(blk), old(inodes), old(logged), blk, inodes, logged, inum, bn, addr)
      ensures Bought(old(Spare(inum)), Spare(inum), bn, addr)
    {
      hide OwnsBut, Mapped, KeepsBytes, KeepsAll, SlotsKept, SbOk, MapBlocks, InodesOk, FsOk, Tracked,
           RoomOf, Bought, Took;
      FsBasics(sb, blk, inodes, owner);
      KeepsRefl(blk, inodes);
      SlotEmpty(sb, blk, inodes, inum, bn);
      addr := inodes[inum].addrs[bn];
      MappedInRange(sb, blk, inodes, owner, inum, bn);
      if addr == 0 {
        addr := AllocInto(inum, bn);
        MapBlockOf(sb, addr);
      }
      DirectBought(old(Spare(inum)), Spare(inum), bn, addr);
    }

    method BmapIndirect(inum: nat, bn: nat) returns (addr: nat)
      requires Valid() && inum in inodes && NDIRECT <= bn < MAXFILE
      modifies this`blk, this`inodes, this`owner, this`logged, this`writes
      ensures Valid() && Bmapped(sb, old(blk), old(inodes), old(logged), blk, inodes, logged, inum, bn, addr)
      ensures Bought(old(Spare(inum)), Spare(inum), bn, addr)
    {
      hide OwnsBut, Mapped, KeepsBytes, KeepsAll, SlotsKept, SbOk, MapBlocks, InodesOk, FsOk, Bmapped, Tracked,
           RoomOf, Bought, Took;
      FsBasics(sb, blk, inodes, owner);
      if inodes[inum].addrs[NDIRECT] == 0 {
        ghost var blk0, inodes0, logged0 := blk, inodes, logged;
        SlotEmpty(sb, blk, inodes, inum, NDIRECT);
        SlotEmpty(sb, blk, inodes, inum, bn + 1);
        var t := AllocInto(inum, NDIRECT);
        ghost var mid := Spare(inum);
        NewTable(sb, blk0, inodes0, logged0, blk, inodes, logged, inum, bn, t);
        if t == 0 {
          TableBought(old(Spare(inum)), mid, mid, bn, 0, 0);
          return 0;
        }
        ghost var blk1, inodes1, logged1 := blk, inodes, logged;
        FsBasics(sb, blk, inodes, owner);
        addr := BmapEntry(inum, bn);
        ThenEntry(sb, blk0, inodes0, logged0, blk1, inodes1, logged1, blk, inodes, logged, inum, bn, t, addr);
        TableBought(old(Spare(inum)), mid, Spare(inum), bn, t, addr);
      } else {
        addr := BmapEntry(inum, bn);
      }
    }

    /** The part of bmap that looks into an existing indirect table. */
    method BmapEntry(inum: nat, bn: nat) returns (addr: nat)
      requires Valid() && inum in inodes && NDIRECT <= bn < MAXFILE
      requires NDIRECT < |inodes[inum].addrs| && inodes[inum].addrs[NDIRECT] != 0
      modifies this`blk, this`owner, this`logged, this`writes
      ensures Valid() && Bmapped(sb, old(blk), inodes, old(logged), blk, inodes, logged, inum, bn, addr)
      ensures Bought(old(Spare(inum)), Spare(inum), bn, addr)
    {
      hide OwnsBut, Mapped, KeepsBytes, KeepsAll, SlotsKept, SbOk, MapBlocks, InodesOk, FsOk, PutWord, Tracked,
           RoomOf, Bought, Took;
      FsBasics(sb, blk, inodes, owner);
      KeepsRefl(blk, inodes);
      SlotEmpty(sb, blk, inodes, inum, NDIRECT);
      SlotEmpty(sb, blk, inodes, inum, bn + 1);
      TableInRange(sb, blk, inodes, owner, inum);
      MappedInRange(sb, blk, inodes, owner, inum, bn);
      addr := GetWord(blk[inodes[inum].addrs[NDIRECT]], bn - NDIRECT);
      if addr == 0 {
        addr := AllocIntoTable(inum, bn - NDIRECT);
        MapBlockOf(sb, addr);
      }
      EntryBought(old(Spare(inum)), Spare(inum), bn, addr);
    }

    /** iupdate: copy a modified in-memory inode to disk. */
    method Iupdate(inum: nat)
      requires Valid() && inum in inodes
      modifies this`blk, this`dinodes, this`logged, this`writes
      ensures Valid() && dinodes == old(dinodes)[inum := inodes[inum]] && logged == old(logged) + {IBlock(sb, inum)}
      ensures SameFrom(sb.bmapstart, old(blk), blk) && KeepsAll(old(blk), inodes, blk, inodes)
    {
      hide FsOk, Tracked, KeepsBytes, GetInode, PutInode;
      EncodableOk(sb, blk, inodes, owner, inum);
      TrackInode(sb, home, blk, logged, writes, stray, dinodes, inum, inodes[inum]);
      var b := IBlock(sb, inum);
      blk := blk[b := PutInode(blk[b], inum % IPB, inodes[inum])];
      dinodes := dinodes[inum := inodes[inum]];
      LogWrite(b);
      FsFrame(sb, old(blk), blk, inodes, owner);
    }

    /** itrunc: discard a file's contents. Exactly the blocks the file owned become free,
        and no other file changes. */
    method Itrunc(inum: nat)
      requires Valid() && inum in inodes
      modifies this`blk, this`inodes, this`dinodes, this`owner, this`logged, this`writes
      ensures Valid() && inodes == old(inodes)[inum := Emptied(old(inodes)[inum])]
      ensures dinodes == old(dinodes)[inum := inodes[inum]]
      ensures OthersKept(old(blk), old(inodes), old(owner), blk, inodes, owner, inum)
      ensures forall b | b in owner :: owner[b].0 != inum
      ensures logged <= old(logged) + MapBlocks(sb) + {IBlock(sb, inum)}
      ensures old(Synced()) ==> Synced() && (stray == {} ==> StepOk(sb, home, Step(blk, logged, 0)))
    {
      hide OwnsBut, Mapped, KeepsBytes, KeepsAll, OthersKept, Tracked, SameFrom, InodesOk, Emptied, MapBlocks, StepOk;
      KeptRefl(blk, inodes, owner, inum);
      FreeDirects(inum, blk, inodes, owner);
      if inodes[inum].addrs[NDIRECT] != 0 {
        FreeIndirect(inum, old(blk), old(inodes), old(owner));
      }
      ghost var before := inodes;
      assert inodes[inum].addrs == Emptied(inodes[inum]).addrs;
      inodes := inodes[inum := inodes[inum].(size := 0)];
      assert inodes[inum] == Emptied(old(inodes)[inum]);
      TruncatedOk(sb, old(blk), old(inodes), old(owner), blk, before, owner, inum);
      ghost var blk1 := blk;
      Iupdate(inum);
      UpdateKept(old(blk), old(inodes), old(owner), blk1, inodes, owner, blk, inum);
      if Synced() && stray == {} {
        DoneOk(sb, home, blk, logged, writes, inodes, owner);
      }
    }

    /** The first loop of itrunc. */
    method FreeDirects(inum: nat, ghost blk0: Disk, ghost inodes0: map<nat, Inode>, ghost owner0: Owner)
      requires Owns(sb, blk, inodes, owner) && Attached() && inum in inodes
      requires OthersKept(blk0, inodes0, owner0, blk, inodes, owner, inum)
      modifies this`blk, this`inodes, this`owner, this`logged, this`writes
      ensures Owns(sb, blk, inodes, owner) && Attached() && OthersKept(blk0, inodes0, owner0, blk, inodes, owner, inum)
      ensures inum in inodes && |inodes[inum].addrs| == NDIRECT + 1
      ensures forall k | 0 <= k < NDIRECT :: inodes[inum].addrs[k] == 0
      ensures inodes == old(inodes)[inum := old(inodes)[inum].(addrs := inodes[inum].addrs)]
      ensures logged <= old(logged) + MapBlocks(sb)
    {
      hide OwnsBut, Mapped, KeepsBytes, OthersKept, Tracked, MapBlocks;
      OwnsBasics(sb, blk, inodes, owner, 0, 0);
      var i := 0;
      while i < NDIRECT
        invariant 0 <= i <= NDIRECT && Owns(sb, blk, inodes, owner) && Attached()
        invariant inum in inodes && |inodes[inum].addrs| == NDIRECT + 1
        invariant inodes == old(inodes)[inum := old(inodes)[inum].(addrs := inodes[inum].addrs)]
        invariant forall k | 0 <= k < i :: inodes[inum].addrs[k] == 0
        invariant OthersKept(blk0, inodes0, owner0, blk, inodes, owner, inum) && logged <= old(logged) + MapBlocks(sb)
      {
        if inodes[inum].addrs[i] != 0 {
          FreeDirect(inum, i, blk0, inodes0, owner0);
        }
        i := i + 1;
      }
    }

    /** One round of the first loop of itrunc. */
    method FreeDirect(inum: nat, i: nat, ghost blk0: Disk, ghost inodes0: map<nat, Inode>, ghost owner0: Owner)
      requires Owns(sb, blk, inodes, owner) && Attached() && inum in inodes
      requires OthersKept(blk0, inodes0, owner0, blk, inodes, owner, inum)
      requires i < NDIRECT < |inodes[inum].addrs| && inodes[inum].addrs[i] != 0
      modifies this`blk, this`inodes, this`owner, this`logged, this`writes
      ensures Owns(sb, blk, inodes, owner) && Attached() && inodes == WithAddr(old(inodes), inum, i, 0)
      ensures OthersKept(blk0, inodes0, owner0, blk, inodes, owner, inum) && logged <= old(logged) + MapBlocks(sb)
    {
      hide OwnsBut, Mapped, KeepsBytes, OthersKept, Tracked, MapBlocks;
      var addr := inodes[inum].addrs[i];
      OwnsBasics(sb, blk, inodes, owner, 0, 0);
      FreeSlot(sb, blk, inodes, owner, inum, i);
      NoneDead(sb, blk, inodes, owner, inum);
      FreeStep(sb, blk, inodes, owner, inum, 0, i, WithAddr(inodes, inum, i, 0), blk0, inodes0, owner0);
      SlotBlockOf(sb, blk, inodes, owner, inum, 0, i);
      Bfree(addr);
      inodes := inodes[inum := inodes[inum].(addrs := inodes[inum].addrs[i := 0])];
      owner := owner - {addr};
    }

    /** The second half of itrunc: the entries of the indirect table, then the table. */
    method FreeIndirect(inum: nat, ghost blk0: Disk, ghost inodes0: map<nat, Inode>, ghost owner0: Owner)
      requires Owns(sb, blk, inodes, owner) && Attached() && inum in inodes
      requires OthersKept(blk0, inodes0, owner0, blk, inodes, owner, inum)
      requires NDIRECT < |inodes[inum].addrs| && inodes[inum].addrs[NDIRECT] != 0
      modifies this`blk, this`inodes, this`owner, this`logged, this`writes
      ensures Owns(sb, blk, inodes, owner) && Attached() && inodes == WithAddr(old(inodes), inum, NDIRECT, 0)
      ensures OthersKept(blk0, inodes0, owner0, blk, inodes, owner, inum) && logged <= old(logged) + MapBlocks(sb)
    {
      hide OwnsBut, Mapped, KeepsBytes, OthersKept, PutWord, GetWord, Tracked, MapBlocks;
      NoneDead(sb, blk, inodes, owner, inum);
      var j := 0;
      while j < NINDIRECT
        invariant 0 <= j <= NINDIRECT && OwnsBut(sb, blk, inodes, owner, inum, j) && Attached() && inodes == old(inodes)
        invariant OthersKept(blk0, inodes0, owner0, blk, inodes, owner, inum) && logged <= old(logged) + MapBlocks(sb)
      {
        PassEntry(inum, j, blk0, inodes0, owner0);
        j := j + 1;
      }
      var t := inodes[inum].addrs[NDIRECT];
      OwnsBasics(sb, blk, inodes, owner, inum, NINDIRECT);
      FreeTable(sb, blk, inodes, owner, inum);
      FreeStep(sb, blk, inodes, owner, inum, NINDIRECT, NDIRECT, WithAddr(inodes, inum, NDIRECT, 0), blk0, inodes0,
               owner0);
      SlotBlockOf(sb, blk, inodes, owner, inum, NINDIRECT, NDIRECT);
      Bfree(t);
      inodes := inodes[inum := inodes[inum].(addrs := inodes[inum].addrs[NDIRECT := 0])];
      owner := owner - {t};
      NoneDead(sb, blk, inodes, owner, inum);
    }

    /** One round of the second loop of itrunc. */
    method PassEntry(inum: nat, j: nat, ghost blk0: Disk, ghost inodes0: map<nat, Inode>, ghost owner0: Owner)
      requires j < NINDIRECT && OwnsBut(sb, blk, inodes, owner, inum, j) && Attached() && inum in inodes
      requires OthersKept(blk0, inodes0, owner0, blk, inodes, owner, inum)
      requires NDIRECT < |inodes[inum].addrs| && inodes[inum].addrs[NDIRECT] != 0
      modifies this`blk, this`owner, this`logged, this`writes
      ensures OwnsBut(sb, blk, inodes, owner, inum, j + 1) && Attached()
      ensures OthersKept(blk0, inodes0, owner0, blk, inodes, owner, inum) && logged <= old(logged) + MapBlocks(sb)
    {
      hide OwnsBut, Mapped, KeepsBytes, OthersKept, PutWord, GetWord, Tracked, MapBlocks;
      OwnsBasics(sb, blk, inodes, owner, inum, j);
      TableOwned(sb, blk, inodes, owner, inum, j, inum);
      FreeEntry(sb, blk, inodes, owner, inum, j);
      var addr := GetWord(blk[inodes[inum].addrs[NDIRECT]], j);
      if addr != 0 {
        FreeStep(sb, blk, inodes, owner, inum, j, NDIRECT + 1 + j, inodes, blk0, inodes0, owner0);
        SlotBlockOf(sb, blk, inodes, owner, inum, j, NDIRECT + 1 + j);
        Bfree(addr);
        owner := owner - {addr};
      }
    }

    /** readi: copy out the requested slice, clipped to the file's size. `room` is how many
        destination bytes can be stored before a copy fails. Nothing is allocated. */
    method Readi(inum: nat, off: nat, n: nat, room: nat) returns (tot: int, dst: seq<Byte>)
      requires Valid() && inum in inodes && off < UINT && n < UINT
      modifies this`blk, this`inodes, this`owner, this`logged, this`writes
      ensures Valid() && blk == old(blk) && inodes == old(inodes) && logged == old(logged)
      ensures var size := inodes[inum].size;
              if off > size || (off + n) % UINT < off then tot == 0 && dst == []
              else
                var m := if n < size - off then n else size - off;
                if m > room then tot == -1
                else tot == m && dst == Bytes(blk, inodes[inum], size)[off..off + m]
    {
      hide OwnsBut, Mapped, KeepsAll, SlotsKept, MapBlocks, ByteAt, Bytes, Tracked, RoomOf, Bought, Bmapped;
      var size := inodes[inum].size;
      if off > size || (off + n) % UINT < off {
        return 0, [];
      }
      var m := if off + n > size then size - off else n;
      ghost var c := Bytes(blk, inodes[inum], size);
      dst := [];
      tot := 0;
      while tot < m
        invariant 0 <= tot <= m && tot <= room && Valid()
        invariant blk == old(blk) && inodes == old(inodes) && logged == old(logged)
        invariant dst == c[off..off + tot]
      {
        var at := off + tot;
        BlockMapped(blk, inodes[inum], size, at);
        ghost var blk0, inodes0, logged0 := blk, inodes, logged;
        var addr := Bmap(inum, at / BSIZE);
        BmapKnown(sb, blk0, inodes0, logged0, blk, inodes, logged, inum, at / BSIZE, addr);
        var k := if m - tot < BSIZE - at % BSIZE then m - tot else BSIZE - at % BSIZE;
        if tot + k > room {
          return -1, dst;
        }
        BlockSlice(blk, inodes[inum], size, at, k);
        dst := dst + blk[addr][at % BSIZE..at % BSIZE + k];
        assert c[off..off + tot] + c[at..at + k] == c[off..off + tot + k];
        tot := tot + k;
      }
    }

    /** One round of the loop of writei: map the block, copy the bytes in, log it. `fetch` is how
        many bytes can be fetched before the copy fails; those stay in the cached block, unlogged. */
    method WriteRound(inum: nat, off: nat, data: seq<Byte>, fetch: nat, ghost c: seq<Byte>)
      returns (ok: bool, ghost got: nat)
      requires Valid() && inum in inodes && data != [] && off % BSIZE + |data| <= BSIZE
      requires off <= |c| && off + |data| <= MAXFILE * BSIZE && Shows(blk, inodes[inum], c)
      modifies this`blk, this`inodes, this`owner, this`logged, this`writes, this`stray
      ensures Valid() && inum in inodes && inodes[inum] == old(inodes)[inum].(addrs := inodes[inum].addrs)
      ensures OtherFiles(old(blk), old(inodes), blk, inodes, inum) && SlotsKept(old(blk), old(inodes), blk, inodes)
      ensures Round(old(Spare(inum)), Spare(inum), off / BSIZE, |data|, fetch, ok, got)
      ensures ok || got == fetch < |data| || Full(sb, blk)
      ensures got <= |data| && Shows(blk, inodes[inum], Splice(c, off, data[..got]))
      ensures Charged(sb, old(logged), blk, inodes, logged, inum, BlockOf(off))
      ensures Strayed(old(stray), stray, !ok && got > 0)
    {
      hide OwnsBut, Mapped, KeepsBytes, KeepsAll, SlotsKept, Bytes, Splice, MapBlocks, OtherFiles, Patch, Tracked,
           RoomOf, Affords, Pay;
      var addr := Bmap(inum, off / BSIZE);
      BmapOthers(old(blk), old(inodes), blk, inodes, inum, |c|);
      SpliceNone(c, off, data);
      if addr == 0 || fetch == 0 {
        return false, 0;
      }
      var part := if fetch < |data| then data[..fetch] else data[..|data|];
      MappedInRange(sb, blk, inodes, owner, inum, off / BSIZE);
      PatchedOk(sb, blk, inodes, owner, inum, off, part, |c|);
      SpliceLen(c, off, part);
      PatchedOthers(sb, old(blk), old(inodes), blk, inodes, owner, inum, off, part);
      PatchRoom(sb, blk, inodes, owner, inum, off / BSIZE, Patch(blk[addr], off % BSIZE, part));
      TrackData(sb, home, blk, logged, writes, stray, dinodes, addr, Patch(blk[addr], off % BSIZE, part));
      blk := blk[addr := Patch(blk[addr], off % BSIZE, part)];
      if fetch < |data| {
        stray := stray + {addr};
        return false, fetch;
      }
      LogWrite(addr);
      return true, |data|;
    }

    /** The loop of writei. `got` counts the bytes that reached the cache. */
    method WriteLoop(inum: nat, src: seq<Byte>, readable: nat, off: nat, n: nat) returns (tot: nat, ghost got: nat)
      requires Valid() && inum in inodes && |src| == n && off <= inodes[inum].size && off + n <= MAXFILE * BSIZE
      modifies this`blk, this`inodes, this`owner, this`logged, this`writes, this`stray
      ensures Valid() && tot <= got <= n && Outcome(old(Spare(inum)), off, n, readable, tot, got)
      ensures tot == n ==> Spared(old(Spare(inum)), Spare(inum), off, n)
      ensures tot < n ==> (got == tot && Full(sb, blk)) || got == readable < n
      ensures Progress(sb, old(blk), old(inodes), old(logged), blk, inodes, logged, inum, off, n, src, got)
      ensures Strayed(old(stray), stray, got > tot)
    {
      hide OwnsBut, Mapped, KeepsBytes, KeepsAll, SlotsKept, Bytes, Splice, OtherFiles, FsOk, Full, Charge, MapBlocks,
           Tracked, Shows, RoomOf, Affords, Pay, Covers, Left, Outcome;
      ghost var room := Spare(inum);
      ProgressStart(sb, blk, inodes, owner, logged, inum, off, n, src);
      NoBytes(room, off);
      tot, got := 0, 0;
      while tot < n
        invariant Valid() && got == tot <= n && tot <= readable && stray == old(stray)
        invariant Spared(room, Spare(inum), off, tot) && (tot == 0 || tot == n || (off + tot) % BSIZE == 0)
        invariant Progress(sb, old(blk), old(inodes), old(logged), blk, inodes, logged, inum, off, n, src, tot)
      {
        var at := off + tot;
        var m := if n - tot < BSIZE - at % BSIZE then n - tot else BSIZE - at % BSIZE;
        ghost var blk1, inodes1, logged1 := blk, inodes, logged;
        ghost var c := Splice(Bytes(old(blk), old(inodes)[inum], old(inodes)[inum].size), off, src[..tot]);
        SpliceLen(Bytes(old(blk), old(inodes)[inum], old(inodes)[inum].size), off, src[..tot]);
        var ok, g := WriteRound(inum, at, src[tot..tot + m], readable - tot, c);
        assert src[tot..tot + m][..g] == src[tot..tot + g];
        ProgressStep(sb, old(blk), old(inodes), old(logged), blk1, inodes1, logged1, blk, inodes, logged,
                     inum, off, n, src, tot, m, g);
        RoundRoom(room, off, n, tot, m);
        got := got + g;
        if !ok {
          RoundEnds(room, off, n, readable, tot, m, got);
          return;
        }
        tot := tot + m;
      }
      AllDone(room, off, n, readable);
    }

    /** writei: write n bytes of src at off. `readable` is how many source bytes can be
        fetched before a copy fails. The file's contents become the old ones with the
        bytes written spliced in; every other file is untouched. How much that is depends on the
        room and on where the source ends (Outcome); if the source ends inside a block, the bytes
        before that point are in the cache as far as the file reaches, uncounted and unlogged. */
    method Writei(inum: nat, src: seq<Byte>, readable: nat, off: nat, n: nat) returns (tot: int, ghost got: nat)
      requires Valid() && inum in inodes && off < UINT && n < UINT && |src| == n
      modifies this`blk, this`inodes, this`dinodes, this`owner, this`logged, this`writes, this`stray
      ensures Valid() && inum in inodes
      ensures tot == -1 <==> WriteRefused(old(inodes)[inum], off, n)
      ensures tot == -1 ==> blk == old(blk) && inodes == old(inodes) && dinodes == old(dinodes)
      ensures tot == -1 ==> logged == old(logged) && writes == old(writes) && stray == old(stray) && got == 0
      ensures tot != -1 ==>
        && 0 <= tot <= n && Wrote(old(blk), old(inodes), blk, inodes, inum, off, src, tot, got)
        && Outcome(old(Spare(inum)), off, n, readable, tot, got)
        && dinodes == old(dinodes)[inum := inodes[inum]]
        && (tot == n ==> Spared(old(Spare(inum)), Spare(inum), off, n))
        && (tot < n ==> (got == tot && Full(sb, blk)) || got == readable < n)
        && Strayed(old(stray), stray, Torn(old(Spare(inum)), off, n, readable))
        && Charged(sb, old(logged) + {IBlock(sb, inum)}, blk, inodes, logged, inum, BlockRange(off, n))
    {
      hide OwnsBut, Mapped, KeepsBytes, KeepsAll, SlotsKept, Bytes, Splice, OtherFiles, FsOk, Full, Charge,
           MapBlocks, InodesOk, Tracked, SameFrom, Strayed, RoomOf, Outcome, Torn, Covers, Left;
      ghost var size0 := inodes[inum].size;
      SizeMapped(sb, blk, inodes, owner, inum);
      if off > inodes[inum].size || (off + n) % UINT < off || off + n > MAXFILE * BSIZE {
        return -1, 0;
      }
      tot, got := WriteLoop(inum, src, readable, off, n);
      TornExactly(old(Spare(inum)), off, n, readable, tot, got);
      ghost var len := if size0 < off + tot then off + tot else size0;
      ProgressEnd(sb, old(blk), old(inodes), old(logged), blk, inodes, logged, inum, off, n, src, got, len);
      ResizeOk(sb, blk, inodes, owner, inum, len, old(blk), old(inodes));
      ChargeMono(sb, blk, inodes, blk, inodes[inum := inodes[inum].(size := len)], inum,
                 BlockRange(off, n), BlockRange(off, n));
      ghost var blk1, inodes1 := blk, inodes;
      if off + tot > inodes[inum].size {
        inodes := inodes[inum := inodes[inum].(size := off + tot)];
      }
      Iupdate(inum);
      UpdateOthers(old(blk), old(inodes), blk1, inodes, blk, inum);
      UpdateSlots(sb, blk1, inodes, owner, blk);
      UpdateBytes(blk1, inodes, blk, inum);
      FsOwns(sb, blk1, inodes, owner);
      UpdateRoom(sb, blk1, inodes, owner, blk, inodes1, inum);
      ChargeMono(sb, blk1, inodes, blk, inodes, inum, BlockRange(off, n), BlockRange(off, n));
    }

    /** A write of two bytes at the start of a file that has them, from a source that ends after
        one: nothing counts, the first byte is in the cache, and its block is not logged. */
    method TornRun(inum: nat, src: seq<Byte>) returns (tot: int)
      requires Valid() && stray == {} && inum in inodes && inodes[inum].size >= 2 && |src| == 2
      modifies this`blk, this`inodes, this`dinodes, this`owner, this`logged, this`writes, this`stray
      ensures Valid() && inum in inodes && tot == 0 && |stray| == 1
      ensures inodes[inum].size == old(inodes)[inum].size >= 2
      ensures Mapped(blk, inodes[inum], inodes[inum].size) && Bytes(blk, inodes[inum], inodes[inum].size)[0] == src[0]
    {
      hide FsOk, Full, Charge, MapBlocks, Tracked, RoomOf, Covers, Mapped, Bytes, OtherFiles;
      SizeMapped(sb, blk, inodes, owner, inum);
      InsideCovers(sb, blk, inodes, inum, 0, 1);
      ghost var got;
      tot, got := Writei(inum, src, 1, 0, 2);
      assert src[..1][0] == src[0];
    }

    /** One round of filewrite's loop: begin_op, writei, end_op. */
    method WriteChunk(inum: nat, src: seq<Byte>, readable: nat, off: nat, n: nat, ghost done: nat)
      returns (r: int, ghost got: nat, ghost step: Step)
      requires Valid() && Synced() && stray == {} && inum in inodes && off < UINT && n <= CHUNK && |src| == n
      modifies this`blk, this`inodes, this`dinodes, this`owner, this`home, this`logged, this`writes, this`stray
      ensures Valid() && Synced() && inum in inodes
      ensures r == -1 <==> WriteRefused(old(inodes)[inum], off, n)
      ensures r == -1 ==> blk == old(blk) && inodes == old(inodes) && stray == {} && got == 0 && writes == []
      ensures r != -1 ==> Touched(writes) == step.logged && forall b | b in step.logged :: sb.inodestart <= b < |blk|
      ensures |blk| == |old(blk)|
      ensures r != -1 ==>
        && 0 <= r <= got <= n && Wrote(old(blk), old(inodes), blk, inodes, inum, off, src, r, got)
        && Outcome(old(Spare(inum)), off, n, readable, r, got)
        && (r == n ==> Spared(old(Spare(inum)), Spare(inum), off, n))
        && (r < n ==> (got == r && Full(sb, blk)) || got == readable < n)
        && (stray == {} <==> got == r)
        && (got == r ==> StepOk(sb, old(blk), step) && step.view == blk && step.upto == done + r)
        && (got == r ==> Apply(old(blk), writes) == blk)
        && (sb.size <= BPB ==> |step.logged| <= 7)
    {
      hide FsOk, Full, Charge, MapBlocks, Tracked, Wrote, RoomOf, Outcome, Torn, Spared;
      BeginOp();
      r, got := Writei(inum, src, readable, off, n);
      step := Step(blk, logged, if r == -1 then done else done + r);
      if r != -1 {
        TornExactly(old(Spare(inum)), off, n, readable, r, got);
        WroteBounds(old(blk), old(inodes), blk, inodes, inum, off, src, r, got);
        FsBasics(sb, blk, inodes, owner);
        TrackedBlocks(sb, home, blk, logged, writes, stray, dinodes);
        if got == r {
          DoneOk(sb, home, blk, logged, writes, inodes, owner);
        }
        if sb.size <= BPB {
          ChunkFits(sb, blk, inodes, inum, off, n, logged);
        }
      }
    }

    /** begin_op: from here on blocks are logged for a new operation. */
    method BeginOp()
      requires Attached() && stray == {}
      modifies this`home, this`logged, this`writes
      ensures Attached() && home == blk && logged == {} && writes == []
    {
      home, logged, writes := blk, {}, [];
    }

    /** The FD_INODE case of filewrite: write in chunks, each its own log operation. `steps` are
        the operations. Returns n, or -1 if the write stopped early; off is the new file offset.
        A block is left changed and unlogged exactly if the source ends inside a block and inside
        a chunk (FileTorn); then all chunks but the last are still as they should be. */
    method Filewrite(inum: nat, src: seq<Byte>, readable: nat, off0: nat, n: int)
      returns (ret: int, off: nat, ghost got: nat, ghost steps: seq<Step>)
      requires Valid() && Synced() && stray == {} && inum in inodes
      requires off0 < UINT && n < UINT / 2 && |src| == (if n < 0 then 0 else n)
      modifies this`blk, this`inodes, this`dinodes, this`owner, this`home, this`logged, this`writes, this`stray
      ensures Valid() && Synced() && inum in inodes && off0 <= off
      ensures n < 0 ==> ret == -1 && off == off0
      ensures n >= 0 ==> ret == if off == off0 + n then n else -1
      ensures n >= 0 && off0 > old(inodes)[inum].size ==> off == off0 && got == 0 && stray == {}
      ensures n >= 0 && off0 <= old(inodes)[inum].size ==>
        && FileOutcome(old(Spare(inum)), off0, Limit(off0, n), readable, off - off0, got)
        && (stray == {} <==> !FileTorn(old(Spare(inum)), off0, n, readable))
        && (ret == n <==> n == 0 || (off0 + n <= MAXFILE * BSIZE && n <= readable && Covers(old(Spare(inum)), off0, n)))
        && (off < off0 + Limit(off0, n) ==> got == readable || Full(sb, blk))
      ensures stray == {} ==> Run(sb, old(blk), old(inodes), steps, blk, inodes, inum, off0, src, off - off0)
      ensures stray != {} ==>
        && Wrote(old(blk), old(inodes), blk, inodes, inum, off0, src, off - off0, got)
        && Chain(sb, old(blk), steps) && Growing(sb, old(blk), steps, inum, off0, src)
    {
      hide FsOk, Full, Tracked, Wrote, StepOk, Run, Chain, Growing, RoomOf, Outcome, FileOutcome, FileTorn, ChunkAt,
           Limit, Spared, Covers, Touched, Apply;
      ghost var room := Spare(inum);
      var i := 0;
      off, got, steps := off0, 0, [];
      RunStart(sb, home, blk, logged, writes, stray, inodes, owner, inum, off0, src);
      FirstChunk(room, off0, |src|, readable);
      while i < n
        invariant Valid() && Synced() && stray == {} && inum in inodes
        invariant 0 <= i && (i <= n || i == 0) && off == off0 + i && got == i <= readable
        invariant off0 > old(inodes)[inum].size ==> i == 0
        invariant Run(sb, old(blk), old(inodes), steps, blk, inodes, inum, off0, src, i)
        invariant ChunkAt(room, Spare(inum), off0, |src|, readable, i)
      {
        RunBounds(sb, old(blk), old(inodes), steps, blk, inodes, inum, off0, src, i);
        var n1 := if n - i > CHUNK then CHUNK else n - i;
        ghost var blk1, inodes1, room1 := blk, inodes, Spare(inum);
        var r, g, step := WriteChunk(inum, src[i..i + n1], readable - i, off, n1, i);
        got := i + g;
        if r != -1 {
          RunOn(sb, old(blk), old(inodes), steps, blk1, inodes1, home, logged, writes, stray, step, blk, inodes,
                inum, off0, src, i, n1, r, g);
          if g == r {
            steps := steps + [step];
          }
        }
        assert r != -1 ==> off0 <= old(inodes)[inum].size;
        if off0 <= old(inodes)[inum].size {
          ChunkDone(room, room1, Spare(inum), off0, |src|, readable, i, n1, r, g);
        }
        if r > 0 {
          off := off + r;
        }
        if r != n1 {
          break;
        }
        i := i + r;
      }
      ret := if i == n then n else -1;
      if n >= 0 && off0 <= old(inodes)[inum].size {
        if i == n {
          AllChunks(room, Spare(inum), off0, n, readable);
        }
        FileTornExactly(room, off0, n, readable, off - off0, got);
      }
    }
  }
}
