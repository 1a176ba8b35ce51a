/** The file system as it lies on the disk: inodes in their blocks, and what a disk that differs
    only below the free map still holds. */
module FsDisk {
  import opened Blocks
  import opened FsSpec

  const DWORDS := 16                // words of a struct dinode
  const SIZE_AT := 2                // the word of its size field
  const ADDRS_AT := 3               // the first word of its addrs field

  // ---------------------------------------------------------------- the dinode codec

  /** n addresses from word `base` on. */
  function GetAddrs(b: Block, base: nat, n: nat): (addrs: seq<nat>)
    requires base + n <= WORDS
    ensures |addrs| == n && forall j | 0 <= j < n :: addrs[j] == GetWord(b, base + j)
  {
    if n == 0 then [] else GetAddrs(b, base, n - 1) + [GetWord(b, base + n - 1)]
  }

  /** Two shorts in a word, the first one in its low half. */
  function Pair(lo: Half, hi: Half): (w: Word)
    ensures w % 0x1_0000 == lo && w / 0x1_0000 == hi
  {
    lo + 0x1_0000 * hi
  }

  function GetAttr(v: Word, w: Word): (a: Attr) { Attr(v % 0x1_0000, v / 0x1_0000, w % 0x1_0000, w / 0x1_0000) }

  /** The k-th inode of an inode block. */
  function GetInode(b: Block, k: nat): (ino: Inode)
    requires k < IPB
    ensures |ino.addrs| == NDIRECT + 1
  {
    Inode(GetAttr(GetWord(b, DWORDS * k), GetWord(b, DWORDS * k + 1)), GetWord(b, DWORDS * k + SIZE_AT),
          GetAddrs(b, DWORDS * k + ADDRS_AT, NDIRECT + 1))
  }

  predicate Encodable(ino: Inode)
  {
    && |ino.addrs| == NDIRECT + 1 && ino.size < 0x1_0000_0000
    && forall j | 0 <= j < |ino.addrs| :: ino.addrs[j] < 0x1_0000_0000
  }

  /** The first j addresses of an inode stored from word `base` on. */
  function PutAddrs(b: Block, base: nat, addrs: seq<nat>, j: nat): (r: Block)
    requires j <= |addrs| && base + |addrs| <= WORDS && forall x | 0 <= x < |addrs| :: addrs[x] < 0x1_0000_0000
    ensures forall i: nat | i < WORDS ::
              GetWord(r, i) == if base <= i < base + j then addrs[i - base] else GetWord(b, i)
  {
    if j == 0 then b else PutWord(PutAddrs(b, base, addrs, j - 1), base + j - 1, addrs[j - 1])
  }

  /** The first three words of an inode. */
  function PutFields(b: Block, base: nat, ino: Inode): (r: Block)
    requires base + SIZE_AT < WORDS && ino.size < 0x1_0000_0000
    ensures GetAttr(GetWord(r, base), GetWord(r, base + 1)) == ino.attr && GetWord(r, base + SIZE_AT) == ino.size
    ensures forall i: nat | i < WORDS && !(base <= i <= base + SIZE_AT) :: GetWord(r, i) == GetWord(b, i)
  {
    var a := ino.attr;
    var b1 := PutWord(b, base, Pair(a.kind, a.major));
    var b2 := PutWord(b1, base + 1, Pair(a.minor, a.nlink));
    PutWord(b2, base + SIZE_AT, ino.size)
  }

  /** An inode block with its k-th inode replaced. */
  function PutInode(b: Block, k: nat, ino: Inode): (r: Block)
    requires k < IPB && Encodable(ino)
  {
    PutAddrs(PutFields(b, DWORDS * k, ino), DWORDS * k + ADDRS_AT, ino.addrs, NDIRECT + 1)
  }

  /** An inode written to its place reads back, and the block's other inodes stay. */
  lemma InodeRoundTrip(b: Block, k: nat, ino: Inode, k1: nat)
    requires k < IPB && k1 < IPB && Encodable(ino)
    ensures GetInode(PutInode(b, k, ino), k1) == if k1 == k then ino else GetInode(b, k1)
  {
    hide PutAddrs, PutFields, GetAttr, GetWord, PutWord;
    var r := PutInode(b, k, ino);
    var got, want := GetInode(r, k1), if k1 == k then ino else GetInode(b, k1);
    assert got.attr == want.attr && got.size == want.size;
    forall j | 0 <= j < NDIRECT + 1 ensures got.addrs[j] == want.addrs[j] {
      assert got.addrs[j] == GetWord(r, DWORDS * k1 + ADDRS_AT + j);
    }
    assert got.addrs == want.addrs;
  }

  // ---------------------------------------------------------------- the inodes of a disk

  /** The inode blocks lie before the free map. */
  predicate LayoutOk(sb: Sb)
  {
    sb.inodestart <= sb.bmapstart && (sb.ninodes > 0 ==> IBlock(sb, sb.ninodes - 1) < sb.bmapstart)
  }

  lemma InodeBlockIn(sb: Sb, i: nat)
    requires LayoutOk(sb) && i < sb.ninodes
    ensures sb.inodestart <= IBlock(sb, i) < sb.bmapstart
  {
  }

  function InodeOf(sb: Sb, blk: Disk, i: nat): (ino: Inode)
    requires LayoutOk(sb) && sb.bmapstart <= |blk| && i < sb.ninodes
    ensures |ino.addrs| == NDIRECT + 1
  {
    InodeBlockIn(sb, i);
    GetInode(blk[IBlock(sb, i)], i % IPB)
  }

  /** All inodes, as the disk has them. */
  ghost function Inodes(sb: Sb, blk: Disk): (inodes: map<nat, Inode>)
    requires LayoutOk(sb) && sb.bmapstart <= |blk|
  {
    map i | 0 <= i < sb.ninodes :: InodeOf(sb, blk, i)
  }

  /** A disk that holds a file system. */
  ghost predicate Consistent(sb: Sb, blk: Disk, owner: Owner)
  {
    LayoutOk(sb) && sb.bmapstart <= |blk| && FsOk(sb, blk, Inodes(sb, blk), owner)
  }

  ghost predicate HoldsFs(sb: Sb, d: Disk)
  {
    exists owner :: Consistent(sb, d, owner)
  }

  /** iupdate on the disk: one inode changes and no other. */
  lemma InodeWritten(sb: Sb, blk: Disk, i: nat, ino: Inode)
    requires LayoutOk(sb) && sb.bmapstart <= |blk| && i < sb.ninodes && Encodable(ino)
    ensures IBlock(sb, i) < |blk|
    ensures Inodes(sb, blk[IBlock(sb, i) := PutInode(blk[IBlock(sb, i)], i % IPB, ino)]) == Inodes(sb, blk)[i := ino]
  {
    hide GetInode, PutInode;
    InodeBlockIn(sb, i);
    var x := IBlock(sb, i);
    var blk1 := blk[x := PutInode(blk[x], i % IPB, ino)];
    forall j: nat | j < sb.ninodes ensures InodeOf(sb, blk1, j) == if j == i then ino else InodeOf(sb, blk, j) {
      InodeBlockIn(sb, j);
      if IBlock(sb, j) == x {
        InodeRoundTrip(blk[x], i % IPB, ino, j % IPB);
      }
    }
  }

  /** Whatever a valid inode holds fits its fields. */
  lemma EncodableOk(sb: Sb, blk: Disk, inodes: map<nat, Inode>, owner: Owner, i: nat)
    requires FsOk(sb, blk, inodes, owner) && i in inodes
    ensures Encodable(inodes[i])
  {
    hide SlotsOk, MapOk;
    forall j | 0 <= j < NDIRECT + 1 ensures inodes[i].addrs[j] < 0x1_0000_0000 {
      if inodes[i].addrs[j] != 0 {
        assert Slot(blk, inodes[i], j) == inodes[i].addrs[j];
        SlotOwned(sb, blk, inodes, owner, 0, 0, i, j);
      }
    }
  }

  // ---------------------------------------------------------------- what an operation changes

  /** Disk e differs from d only in logged blocks, none of them before the inodes. */
  ghost predicate Covered(sb: Sb, d: Disk, e: Disk, logged: set<nat>)
  {
    && |e| == |d|
    && (forall b | 0 <= b < |d| && b !in logged :: e[b] == d[b])
    && (forall b | b in logged :: sb.inodestart <= b < |d|)
  }

  /** Blocks given to log_write, with their bytes at that time. */
  type Writes = seq<(nat, Block)>

  ghost function Touched(writes: Writes): (s: set<nat>) { set w | w in writes :: w.0 }

  /** A disk after these writes. */
  ghost function Apply(d: Disk, writes: Writes): (e: Disk)
    ensures |e| == |d|
  {
    if writes == [] then d else
    var before, w := Apply(d, writes[..|writes| - 1]), writes[|writes| - 1];
    if w.0 < |d| then before[w.0 := w.1] else before
  }

  lemma ApplyOne(d: Disk, writes: Writes, b: nat, data: Block)
    requires b < |d|
    ensures Apply(d, writes + [(b, data)]) == Apply(d, writes)[b := data]
    ensures Touched(writes + [(b, data)]) == Touched(writes) + {b}
  {
    assert (writes + [(b, data)])[..|writes|] == writes;
    assert forall w :: w in writes + [(b, data)] <==> w in writes || w == (b, data);
    assert Touched(writes + [(b, data)]) == Touched(writes) + {b} by {
      forall x | x in Touched(writes) + {b} ensures x in Touched(writes + [(b, data)]) {
        if x in Touched(writes) {
          var w :| w in writes && w.0 == x;
          assert w in writes + [(b, data)];
        } else {
          assert (b, data) in writes + [(b, data)];
        }
      }
    }
  }

  ghost predicate Recorded(home: Disk, blk: Disk, logged: set<nat>, writes: Writes, stray: set<nat>)
  {
    && logged == Touched(writes) && |home| == |blk|
    && forall b | 0 <= b < |blk| && b !in stray :: Apply(home, writes)[b] == blk[b]
  }

  /** The blocks written since `home` are logged or `stray`, the calls of log_write made the logged
      ones what they are, and the inodes on disk are `dinodes`. */
  ghost predicate Tracked(sb: Sb, home: Disk, blk: Disk, logged: set<nat>, writes: Writes, stray: set<nat>,
                          dinodes: map<nat, Inode>)
  {
    && LayoutOk(sb) && sb.bmapstart <= |blk| && dinodes == Inodes(sb, blk)
    && Covered(sb, home, blk, logged + stray) && Recorded(home, blk, logged, writes, stray)
  }

  lemma RecordOne(home: Disk, blk: Disk, logged: set<nat>, writes: Writes, stray: set<nat>, b: nat, data: Block)
    requires Recorded(home, blk, logged, writes, stray) && b < |blk|
    ensures Recorded(home, blk[b := data], logged + {b}, writes + [(b, data)], stray)
    ensures Recorded(home, blk[b := data], logged, writes, stray + {b})
  {
    ApplyOne(home, writes, b, data);
  }

  lemma TrackedBlocks(sb: Sb, home: Disk, blk: Disk, logged: set<nat>, writes: Writes, stray: set<nat>,
                      dinodes: map<nat, Inode>)
    requires Tracked(sb, home, blk, logged, writes, stray, dinodes)
    ensures Touched(writes) == logged && |blk| == |home| && forall b | b in logged :: sb.inodestart <= b < |blk|
  {
  }

  /** Writing a block after the inodes, logged or not. */
  lemma TrackData(sb: Sb, home: Disk, blk: Disk, logged: set<nat>, writes: Writes, stray: set<nat>,
                  dinodes: map<nat, Inode>, b: nat, data: Block)
    requires Tracked(sb, home, blk, logged, writes, stray, dinodes) && sb.bmapstart <= b < |blk|
    ensures Tracked(sb, home, blk[b := data], logged + {b}, writes + [(b, data)], stray, dinodes)
    ensures Tracked(sb, home, blk[b := data], logged, writes, stray + {b}, dinodes)
  {
    hide GetInode, Recorded;
    RecordOne(home, blk, logged, writes, stray, b, data);
    forall i: nat | i < sb.ninodes ensures InodeOf(sb, blk[b := data], i) == InodeOf(sb, blk, i) {
      InodeBlockIn(sb, i);
    }
  }

  /** Writing and logging an inode. */
  lemma TrackInode(sb: Sb, home: Disk, blk: Disk, logged: set<nat>, writes: Writes, stray: set<nat>,
                   dinodes: map<nat, Inode>, i: nat, ino: Inode)
    requires Tracked(sb, home, blk, logged, writes, stray, dinodes) && i in dinodes && Encodable(ino)
    ensures IBlock(sb, i) < sb.bmapstart <= |blk|
    ensures var data := PutInode(blk[IBlock(sb, i)], i % IPB, ino);
            Tracked(sb, home, blk[IBlock(sb, i) := data], logged + {IBlock(sb, i)}, writes + [(IBlock(sb, i), data)],
                    stray, dinodes[i := ino])
  {
    hide GetInode, PutInode, Recorded;
    InodeBlockIn(sb, i);
    InodeWritten(sb, blk, i, ino);
    RecordOne(home, blk, logged, writes, stray, IBlock(sb, i), PutInode(blk[IBlock(sb, i)], i % IPB, ino));
  }

  // ---------------------------------------------------------------- what depends on which blocks

  /** The same blocks from a on. */
  ghost predicate SameFrom(a: nat, d: Disk, e: Disk)
  {
    |e| == |d| && forall b | a <= b < |d| :: e[b] == d[b]
  }

  lemma SlotsFrame(sb: Sb, d: Disk, e: Disk, inodes: map<nat, Inode>, owner: Owner, i: nat, k: nat)
    requires Owns(sb, d, inodes, owner) && SameFrom(sb.bmapstart, d, e) && i in inodes && k < NSLOTS
    ensures Slot(e, inodes[i], k) == Slot(d, inodes[i], k)
  {
    hide SlotsOk, MapOk;
    TableOwned(sb, d, inodes, owner, 0, 0, i);
  }

  /** Ownership does not look below the free map. */
  lemma OwnsFrame(sb: Sb, d: Disk, e: Disk, inodes: map<nat, Inode>, owner: Owner)
    requires Owns(sb, d, inodes, owner) && SameFrom(sb.bmapstart, d, e)
    ensures Owns(sb, e, inodes, owner)
  {
    forall i, k | i in inodes && 0 <= k < NSLOTS ensures Slot(e, inodes[i], k) == Slot(d, inodes[i], k) {
      SlotsFrame(sb, d, e, inodes, owner, i, k);
    }
    forall b | 0 <= b < sb.size ensures InUse(sb, e, b) == InUse(sb, d, b) {
      assert b / BPB <= (sb.size - 1) / BPB;
    }
  }

  lemma FileFrame(sb: Sb, d: Disk, e: Disk, inodes: map<nat, Inode>, owner: Owner, i: nat)
    requires Owns(sb, d, inodes, owner) && SameFrom(sb.bmapstart, d, e) && i in inodes
    requires Mapped(d, inodes[i], inodes[i].size)
    ensures KeepsBytes(d, inodes[i], e, inodes[i]) && Mapped(e, inodes[i], inodes[i].size)
  {
    hide SlotsOk, MapOk, Bytes;
    forall k: nat | k < NSLOTS && Slot(d, inodes[i], k) != 0
      ensures Slot(e, inodes[i], k) == Slot(d, inodes[i], k)
      ensures (Slot(d, inodes[i], k) < |d| ==> e[Slot(d, inodes[i], k)] == d[Slot(d, inodes[i], k)])
    {
      SlotsFrame(sb, d, e, inodes, owner, i, k);
      SlotOwned(sb, d, inodes, owner, 0, 0, i, k);
    }
    SameDataSameBytes(d, inodes[i], e, inodes[i]);
  }

  /** Neither do file contents. */
  lemma FsFrame(sb: Sb, d: Disk, e: Disk, inodes: map<nat, Inode>, owner: Owner)
    requires FsOk(sb, d, inodes, owner) && SameFrom(sb.bmapstart, d, e)
    ensures FsOk(sb, e, inodes, owner)
    ensures forall i | i in inodes :: KeepsBytes(d, inodes[i], e, inodes[i])
  {
    hide OwnsBut, KeepsBytes;
    OwnsFrame(sb, d, e, inodes, owner);
    forall i | i in inodes ensures KeepsBytes(d, inodes[i], e, inodes[i]) && Mapped(e, inodes[i], inodes[i].size) {
      FileFrame(sb, d, e, inodes, owner, i);
    }
  }

  /** A disk with the same blocks from the inodes on holds the same file system. */
  lemma ConsistentFrame(sb: Sb, d: Disk, e: Disk, owner: Owner)
    requires Consistent(sb, d, owner) && SameFrom(sb.inodestart, d, e)
    ensures Consistent(sb, e, owner) && Inodes(sb, e) == Inodes(sb, d)
    ensures forall i | i in Inodes(sb, d) :: KeepsBytes(d, Inodes(sb, d)[i], e, Inodes(sb, d)[i])
  {
    hide Owns, Mapped, Bytes, GetInode, KeepsBytes;
    forall i: nat | i < sb.ninodes ensures InodeOf(sb, e, i) == InodeOf(sb, d, i) {
      InodeBlockIn(sb, i);
    }
    assert Inodes(sb, e) == Inodes(sb, d);
    FsFrame(sb, d, e, Inodes(sb, d), owner);
  }
}
