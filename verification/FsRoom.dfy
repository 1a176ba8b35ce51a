/** What a write needs and what there is: the empty slots of a file and the free blocks of the disk. */
module FsRoom {
  import opened Blocks
  import opened Common
  import opened FsSpec
  import opened FsDisk
  import opened FsLaws

  /** Free blocks, and the slots of one file that have none yet. */
  datatype Room = Room(free: nat, empty: set<nat>)

  ghost function FreeBlocks(sb: Sb, blk: Disk): (s: set<nat>)
  {
    set b | 0 <= b < sb.size && BBlock(sb, b) < |blk| && !InUse(sb, blk, b)
  }

  ghost function EmptySlots(blk: Disk, ino: Inode): (s: set<nat>)
    requires |ino.addrs| == NDIRECT + 1
  {
    set k | 0 <= k < NSLOTS && Slot(blk, ino, k) == 0
  }

  /** The room of inode inum. */
  ghost function RoomOf(sb: Sb, blk: Disk, inodes: map<nat, Inode>, inum: nat): (r: Room)
  {
    if inum in inodes && |inodes[inum].addrs| == NDIRECT + 1
    then Room(|FreeBlocks(sb, blk)|, EmptySlots(blk, inodes[inum])) else Room(0, {})
  }

  /** File blocks lo .. hi-1 use slot k: a data slot of theirs, or the indirect table. */
  predicate Uses(lo: nat, hi: nat, k: nat)
  {
    lo < hi && if k < NDIRECT then lo <= k < hi else if k == NDIRECT then hi > NDIRECT else lo < k <= hi
  }

  ghost function Needs(lo: nat, hi: nat): (s: set<nat>) { set k | 0 <= k < NSLOTS && Uses(lo, hi, k) }

  /** There are blocks for all empty slots that file blocks lo .. hi-1 use. */
  ghost predicate Affords(r: Room, lo: nat, hi: nat) { |r.empty * Needs(lo, hi)| <= r.free }

  /** The room left once they are filled. */
  ghost function Pay(r: Room, lo: nat, hi: nat): (s: Room)
    requires Affords(r, lo, hi)
  {
    Room(r.free - |r.empty * Needs(lo, hi)|, r.empty - Needs(lo, hi))
  }

  lemma PayNone(r: Room, lo: nat)
    ensures Affords(r, lo, lo) && Pay(r, lo, lo) == r
  {
    assert r.empty * Needs(lo, lo) == {};
  }

  /** Going on from any block already paid for is paying for the whole range. */
  lemma PayOn(r: Room, lo: nat, mid: nat, lo1: nat, hi: nat)
    requires lo <= lo1 <= mid <= hi && Affords(r, lo, mid)
    ensures Affords(Pay(r, lo, mid), lo1, hi) <==> Affords(r, lo, hi)
    ensures Affords(r, lo, hi) ==> Pay(Pay(r, lo, mid), lo1, hi) == Pay(r, lo, hi)
  {
    var a, b, c := r.empty * Needs(lo, mid), (r.empty - Needs(lo, mid)) * Needs(lo1, hi), r.empty * Needs(lo, hi);
    assert Needs(lo, hi) == Needs(lo, mid) + Needs(lo1, hi);
    assert c == a + b;
    UnionCard(a, b);
    assert r.empty - Needs(lo, mid) - Needs(lo1, hi) == r.empty - Needs(lo, hi);
  }

  lemma AffordsLess(r: Room, lo: nat, mid: nat, hi: nat)
    requires lo <= mid <= hi && Affords(r, lo, hi)
    ensures Affords(r, lo, mid)
  {
    CardLe(r.empty * Needs(lo, mid), r.empty * Needs(lo, hi));
  }

  /** Slot k got a block. */
  ghost predicate Took(a: Room, b: Room, k: nat) { a.free > 0 && k in a.empty && b == Room(a.free - 1, a.empty - {k}) }

  /** What bmap does to the room: it fills the slots of file block bn, or there are not enough blocks. */
  ghost predicate Bought(a: Room, b: Room, bn: nat, addr: nat)
  {
    if Affords(a, bn, bn + 1) then addr != 0 && b == Pay(a, bn, bn + 1) else addr == 0
  }

  lemma DirectBought(a: Room, b: Room, bn: nat, addr: nat)
    requires bn < NDIRECT
    requires if bn !in a.empty then b == a && addr != 0 else if addr == 0 then a.free == 0 else Took(a, b, bn)
    ensures Bought(a, b, bn, addr)
  {
    assert Needs(bn, bn + 1) == {bn};
    assert a.empty * {bn} == if bn in a.empty then {bn} else {};
  }

  lemma EntryBought(a: Room, b: Room, bn: nat, addr: nat)
    requires NDIRECT <= bn < MAXFILE && NDIRECT !in a.empty
    requires if bn + 1 !in a.empty then b == a && addr != 0 else if addr == 0 then a.free == 0 else Took(a, b, bn + 1)
    ensures Bought(a, b, bn, addr)
  {
    assert Needs(bn, bn + 1) == {NDIRECT, bn + 1};
    assert a.empty * {NDIRECT, bn + 1} == if bn + 1 in a.empty then {bn + 1} else {};
    assert a.empty - {NDIRECT, bn + 1} == a.empty - {bn + 1};
  }

  lemma TableBought(a: Room, m: Room, b: Room, bn: nat, t: nat, addr: nat)
    requires NDIRECT <= bn < MAXFILE && NDIRECT in a.empty && bn + 1 in a.empty
    requires if t == 0 then a.free == 0 && addr == 0 else Took(a, m, NDIRECT) && Bought(m, b, bn, addr)
    ensures Bought(a, b, bn, addr)
  {
    assert Needs(bn, bn + 1) == {NDIRECT, bn + 1};
    assert a.empty * {NDIRECT, bn + 1} == {NDIRECT, bn + 1};
    if t != 0 {
      assert m.empty * {NDIRECT, bn + 1} == {bn + 1};
      assert m.empty - {NDIRECT, bn + 1} == a.empty - {NDIRECT, bn + 1};
    }
  }

  // ---------------------------------------------------------------- in bytes

  /** The block after the last one that len bytes at off touch. */
  function EndBlock(off: nat, len: nat): (b: nat) { if len == 0 then off / BSIZE else (off + len - 1) / BSIZE + 1 }

  ghost predicate Covers(r: Room, off: nat, len: nat) { Affords(r, off / BSIZE, EndBlock(off, len)) }

  ghost function Left(r: Room, off: nat, len: nat): (s: Room)
    requires Covers(r, off, len)
  {
    Pay(r, off / BSIZE, EndBlock(off, len))
  }

  lemma CoversLess(r: Room, off: nat, len: nat, len1: nat)
    requires Covers(r, off, len1) && len <= len1
    ensures Covers(r, off, len)
  {
    AffordsLess(r, off / BSIZE, EndBlock(off, len), EndBlock(off, len1));
  }

  /** Bytes written in two pieces need what the whole needs. */
  lemma CoversOn(r: Room, off: nat, i: nat, len: nat)
    requires Covers(r, off, i)
    ensures Covers(Left(r, off, i), off + i, len) <==> Covers(r, off, i + len)
    ensures Covers(r, off, i + len) && len > 0 ==> Left(Left(r, off, i), off + i, len) == Left(r, off, i + len)
  {
    if len == 0 {
      PayNone(Left(r, off, i), (off + i) / BSIZE);
    } else {
      PayOn(r, off / BSIZE, EndBlock(off, i), (off + i) / BSIZE, EndBlock(off, i + len));
    }
  }

  /** b is what r leaves after len bytes at off. */
  ghost predicate Spared(r: Room, b: Room, off: nat, len: nat) { Covers(r, off, len) && b == Left(r, off, len) }

  // ---------------------------------------------------------------- where writei stops

  /** How many bytes count when the source ends after m of n bytes: all, or the last block
      boundary before m. */
  function Whole(off: nat, m: nat, n: nat): (tot: nat)
    requires m <= n
    ensures tot <= m
  {
    var edge := (off + m) / BSIZE * BSIZE;
    if m == n then n else if edge <= off then 0 else edge - off
  }

  /** What writei counts (tot) and what reaches the cache (got) of n bytes at off, of which
      `readable` can be fetched, with room r. */
  ghost predicate Outcome(r: Room, off: nat, n: nat, readable: nat, tot: nat, got: nat)
  {
    var m := Min(readable, n);
    if Covers(r, off, m) then got == m && tot == Whole(off, m, n)
    else got == tot < m && Covers(r, off, tot) && !Covers(r, off, tot + 1)
         && (tot == 0 || (off + tot) % BSIZE == 0)
  }

  /** Bytes are left in the cache uncounted exactly if the source ends inside a block that there
      is room for. */
  ghost predicate Torn(r: Room, off: nat, n: nat, readable: nat)
  {
    0 < readable < n && (off + readable) % BSIZE != 0 && Covers(r, off, readable)
  }

  lemma TornExactly(r: Room, off: nat, n: nat, readable: nat, tot: nat, got: nat)
    requires Outcome(r, off, n, readable, tot, got)
    ensures tot <= got <= n && tot <= readable
    ensures got > tot <==> Torn(r, off, n, readable)
    ensures tot == n <==> n <= readable && Covers(r, off, n)
    ensures got > tot ==> got == readable && (off + tot) / BSIZE == (off + got) / BSIZE
  {
    hide Covers;
  }

  /** The outcome is determined. */
  lemma OutcomeUnique(r: Room, off: nat, n: nat, readable: nat, tot: nat, got: nat, tot1: nat, got1: nat)
    requires Outcome(r, off, n, readable, tot, got) && Outcome(r, off, n, readable, tot1, got1)
    ensures tot == tot1 && got == got1
  {
    hide Covers;
    if tot < tot1 && !Covers(r, off, Min(readable, n)) {
      CoversLess(r, off, tot + 1, tot1);
    }
    if tot1 < tot && !Covers(r, off, Min(readable, n)) {
      CoversLess(r, off, tot1 + 1, tot);
    }
  }

  /** One round of writei's loop, at tot with m bytes to copy. */
  predicate RoundAt(off: nat, n: nat, tot: nat, m: nat)
  {
    tot < n && (tot == 0 || (off + tot) % BSIZE == 0) && m == Min(n - tot, BSIZE - (off + tot) % BSIZE)
  }

  lemma RoundRoom(r: Room, off: nat, n: nat, tot: nat, m: nat)
    requires RoundAt(off, n, tot, m) && Covers(r, off, tot)
    ensures var bn := (off + tot) / BSIZE;
            && (Affords(Left(r, off, tot), bn, bn + 1) <==> Covers(r, off, tot + 1))
            && (Covers(r, off, tot + 1) ==>
                  Covers(r, off, tot + m) && Pay(Left(r, off, tot), bn, bn + 1) == Left(r, off, tot + m))
    ensures tot + m == n || (off + tot + m) % BSIZE == 0
  {
    hide Affords, Pay;
    assert EndBlock(off, tot + 1) == EndBlock(off, tot + m) == (off + tot) / BSIZE + 1;
    CoversOn(r, off, tot, 1);
  }

  /** The loop ends because there is no block, or because the source ends. */
  lemma RoundEnds(r: Room, off: nat, n: nat, readable: nat, tot: nat, m: nat, got: nat)
    requires RoundAt(off, n, tot, m) && Covers(r, off, tot) && tot <= readable
    requires if Covers(r, off, tot + 1) then readable < tot + m && got == readable else got == tot
    ensures Outcome(r, off, n, readable, tot, got)
  {
    hide Affords;
    var k := Min(readable, n);
    if Covers(r, off, tot + 1) {
      assert k == readable && (readable > tot ==> EndBlock(off, readable) == EndBlock(off, tot + 1));
      assert (off + readable) / BSIZE == (off + tot) / BSIZE;
    } else if Covers(r, off, k) {
      if k > tot {
        CoversLess(r, off, tot + 1, k);
      }
    }
  }

  lemma AllDone(r: Room, off: nat, n: nat, readable: nat)
    requires Covers(r, off, n) && n <= readable
    ensures Outcome(r, off, n, readable, n, n)
  {
  }

  /** One round: what was copied of `size` bytes, `fetch` of which could be fetched. */
  ghost predicate Round(a: Room, b: Room, bn: nat, size: nat, fetch: nat, ok: bool, got: nat)
  {
    if Affords(a, bn, bn + 1) then (ok <==> size <= fetch) && got == Min(size, fetch) && b == Pay(a, bn, bn + 1)
    else !ok && got == 0
  }

  // ---------------------------------------------------------------- where filewrite stops

  /** How many of n bytes at off filewrite tries: its last chunks are refused if they end beyond
      the largest file. */
  function Limit(off: nat, n: nat): (lim: nat)
    ensures lim <= n
  {
    if off + n <= MAXFILE * BSIZE then n
    else if off > MAXFILE * BSIZE then 0 else (MAXFILE * BSIZE - off) / CHUNK * CHUNK
  }

  /** How many bytes count when the source ends after m of lim bytes: all, or the last block
      boundary or chunk start before m. */
  function FileWhole(off: nat, m: nat, lim: nat): (upto: nat)
    requires m <= lim
    ensures upto <= m
  {
    var edge, start := (off + m) / BSIZE * BSIZE, m / CHUNK * CHUNK;
    if m == lim then lim else if edge <= off + start then start else edge - off
  }

  /** What filewrite counts (upto) and what reaches the cache (got) of lim bytes at off. */
  ghost predicate FileOutcome(r: Room, off: nat, lim: nat, readable: nat, upto: nat, got: nat)
  {
    var m := Min(readable, lim);
    if Covers(r, off, m) then got == m && upto == FileWhole(off, m, lim)
    else got == upto < m && Covers(r, off, upto) && !Covers(r, off, upto + 1)
         && (upto % CHUNK == 0 || (off + upto) % BSIZE == 0)
  }

  /** The source ends inside a block and inside a chunk, at a byte that there is room for. */
  ghost predicate FileTorn(r: Room, off: nat, n: nat, readable: nat)
  {
    readable < Limit(off, n) && readable % CHUNK != 0 && (off + readable) % BSIZE != 0 && Covers(r, off, readable)
  }

  lemma NoBytes(r: Room, off: nat)
    ensures Covers(r, off, 0) && Left(r, off, 0) == r
  {
    PayNone(r, off / BSIZE);
  }

  lemma FileTornExactly(r: Room, off: nat, n: nat, readable: nat, upto: nat, got: nat)
    requires FileOutcome(r, off, Limit(off, n), readable, upto, got)
    ensures upto <= got <= n && (got > upto <==> FileTorn(r, off, n, readable)) && (got > upto ==> got == readable)
    ensures upto == n <==> n == 0 || (off + n <= MAXFILE * BSIZE && n <= readable && Covers(r, off, n))
  {
    hide Covers;
    if n == 0 {
      PayNone(r, off / BSIZE);
      NoBytes(r, off);
    }
  }

  /** Where filewrite stands before a chunk. */
  ghost predicate ChunkAt(r: Room, b: Room, off: nat, n: nat, readable: nat, i: nat)
  {
    && (i % CHUNK == 0 || i == n) && i <= Limit(off, n) && i <= readable
    && Covers(r, off, i) && b == Left(r, off, i)
  }

  lemma FirstChunk(r: Room, off: nat, n: nat, readable: nat)
    ensures ChunkAt(r, r, off, n, readable, 0)
  {
    NoBytes(r, off);
  }

  /** A chunk of n1 bytes fits the largest file unless the limit is reached. */
  lemma ChunkLimit(off: nat, n: nat, i: nat, n1: nat)
    requires off <= MAXFILE * BSIZE && i % CHUNK == 0 && i <= Limit(off, n) && i < n && n1 == Min(n - i, CHUNK)
    ensures off + i + n1 <= MAXFILE * BSIZE <==> i < Limit(off, n)
    ensures i < Limit(off, n) ==> i + n1 <= Limit(off, n)
  {
    assert CHUNK == 3 * BSIZE;
    var q := i / CHUNK;
    assert i == CHUNK * q;
    if off + n > MAXFILE * BSIZE {
      var cap := (MAXFILE * BSIZE - off) / CHUNK;
      assert Limit(off, n) == CHUNK * cap && q <= cap;
      assert CHUNK * cap <= MAXFILE * BSIZE - off < CHUNK * (cap + 1);
    }
  }

  /** A refused chunk is the end. */
  lemma ChunkRefused(r: Room, b: Room, off: nat, n: nat, readable: nat, i: nat)
    requires ChunkAt(r, b, off, n, readable, i) && i == Limit(off, n)
    ensures FileOutcome(r, off, Limit(off, n), readable, i, i)
  {
  }

  lemma WholeAll(off: nat, n: nat)
    ensures Whole(off, n, n) == n
  {
  }

  /** Where a chunk from i on stops is where the whole write stops. */
  lemma WholeShift(off: nat, i: nat, m: nat, n1: nat, lim: nat)
    requires i % CHUNK == 0 && i <= m < i + n1 <= lim && n1 <= CHUNK
    ensures FileWhole(off, m, lim) == i + Whole(off + i, m - i, n1)
  {
    assert CHUNK == 3 * BSIZE;
    assert m / CHUNK * CHUNK == i;
  }

  /** A chunk that was not written whole is the end. */
  lemma ChunkEnds(r: Room, b: Room, off: nat, n: nat, readable: nat, i: nat, n1: nat, tot: nat, got: nat)
    requires ChunkAt(r, b, off, n, readable, i) && i % CHUNK == 0 && 0 < n1 <= CHUNK && i + n1 <= Limit(off, n)
    requires Outcome(b, off + i, n1, readable - i, tot, got) && tot < n1
    ensures FileOutcome(r, off, Limit(off, n), readable, i + tot, i + got)
  {
    hide Covers, Left, Limit, FileWhole, Whole;
    var m1, m := Min(readable - i, n1), Min(readable, Limit(off, n));
    CoversOn(r, off, i, m1);
    if Covers(r, off, i + m1) {
      WholeAll(off + i, n1);
      assert m1 == readable - i && m == readable;
      WholeShift(off, i, readable, n1, Limit(off, n));
    } else {
      CoversOn(r, off, i, tot);
      CoversOn(r, off, i, tot + 1);
      if Covers(r, off, m) {
        CoversLess(r, off, i + m1, m);
      }
    }
  }

  /** A chunk written whole. */
  lemma ChunkOn(r: Room, b: Room, c: Room, off: nat, n: nat, readable: nat, i: nat, n1: nat, got: nat)
    requires ChunkAt(r, b, off, n, readable, i) && i % CHUNK == 0 && i + n1 <= Limit(off, n)
    requires 0 < n1 == Min(n - i, CHUNK) && Outcome(b, off + i, n1, readable - i, n1, got)
    requires Covers(b, off + i, n1) ==> c == Left(b, off + i, n1)
    ensures ChunkAt(r, c, off, n, readable, i + n1) && got == n1
  {
    hide Covers, Left, Limit;
    TornExactly(b, off + i, n1, readable - i, n1, got);
    CoversOn(r, off, i, n1);
  }

  /** One chunk of filewrite, refused (-1), cut short or whole. */
  lemma ChunkDone(r: Room, b: Room, c: Room, off: nat, n: nat, readable: nat, i: nat, n1: nat, tot: int, got: nat)
    requires ChunkAt(r, b, off, n, readable, i) && i < n && n1 == Min(n - i, CHUNK) && off <= MAXFILE * BSIZE
    requires if off + i + n1 > MAXFILE * BSIZE then tot == -1 && got == 0
             else 0 <= tot <= n1 && Outcome(b, off + i, n1, readable - i, tot, got)
    requires tot == n1 ==> Spared(b, c, off + i, n1)
    ensures tot == n1 ==> got == n1 && i + n1 <= readable && ChunkAt(r, c, off, n, readable, i + n1)
    ensures tot == -1 ==> i == Limit(off, n)
    ensures tot != n1 ==> FileOutcome(r, off, Limit(off, n), readable, if tot == -1 then i else i + tot, i + got)
  {
    hide Covers, Left, Limit, Outcome, FileOutcome;
    ChunkLimit(off, n, i, n1);
    if tot == -1 {
      ChunkRefused(r, b, off, n, readable, i);
    } else if tot < n1 {
      ChunkEnds(r, b, off, n, readable, i, n1, tot, got);
    } else {
      ChunkOn(r, b, c, off, n, readable, i, n1, got);
    }
  }

  lemma AllChunks(r: Room, b: Room, off: nat, n: nat, readable: nat)
    requires ChunkAt(r, b, off, n, readable, n)
    ensures FileOutcome(r, off, Limit(off, n), readable, n, n)
  {
  }

  // ---------------------------------------------------------------- where the room comes from

  lemma MapFrame(sb: Sb, blk: Disk, blk1: Disk)
    requires SbOk(sb, blk) && |blk1| == |blk| && forall b | sb.bmapstart <= b < sb.nmeta :: blk1[b] == blk[b]
    ensures FreeBlocks(sb, blk1) == FreeBlocks(sb, blk)
  {
    forall b | 0 <= b < sb.size ensures InUse(sb, blk1, b) == InUse(sb, blk, b) {
      assert b / BPB <= (sb.size - 1) / BPB;
    }
  }

  lemma FreeLess(sb: Sb, blk: Disk, blk1: Disk, addr: nat)
    requires SbOk(sb, blk) && |blk1| == |blk| && addr < sb.size && BBlock(sb, addr) < |blk| && !InUse(sb, blk, addr)
    requires forall b | 0 <= b < sb.size ::
               BBlock(sb, b) < |blk| && InUse(sb, blk1, b) == (b == addr || InUse(sb, blk, b))
    ensures addr in FreeBlocks(sb, blk) && FreeBlocks(sb, blk1) == FreeBlocks(sb, blk) - {addr}
  {
  }

  /** A block given to the empty slot k. */
  lemma RoomAlloc(sb: Sb, blk: Disk, inodes: map<nat, Inode>, owner: Owner, i: nat, k: nat, addr: nat)
    requires Owns(sb, blk, inodes, owner) && i in inodes && k <= NDIRECT && inodes[i].addrs[k] == 0
    requires sb.nmeta <= addr < sb.size && !InUse(sb, blk, addr) && BBlock(sb, addr) < |blk|
    ensures var r := RoomOf(sb, blk, inodes, i);
            && k in r.empty && r.free > 0
            && RoomOf(sb, Allocated(sb, blk, addr), WithAddr(inodes, i, k, addr), i) == Room(r.free - 1, r.empty - {k})
  {
    hide SlotsOk, MapOk, Allocated;
    var blk1, inodes1 := Allocated(sb, blk, addr), WithAddr(inodes, i, k, addr);
    AllocatedBlocks(sb, blk, owner, addr);
    FreeLess(sb, blk, blk1, addr);
    forall k1 | 0 <= k1 < NSLOTS
      ensures Slot(blk1, inodes1[i], k1) == if k1 == k then addr else Slot(blk, inodes[i], k1)
    {
      AllocSlotAt(sb, blk, inodes, owner, i, k, addr, i, k1);
    }
    assert Slot(blk, inodes[i], k) == 0;
    assert EmptySlots(blk1, inodes1[i]) == EmptySlots(blk, inodes[i]) - {k};
  }

  /** A block given to the empty entry j of the indirect table. */
  lemma RoomEntry(sb: Sb, blk: Disk, inodes: map<nat, Inode>, owner: Owner, i: nat, j: nat, addr: nat)
    requires Owns(sb, blk, inodes, owner) && i in inodes && j < NINDIRECT && 0 < inodes[i].addrs[NDIRECT] < |blk|
    requires Slot(blk, inodes[i], NDIRECT + 1 + j) == 0
    requires sb.nmeta <= addr < sb.size && !InUse(sb, blk, addr) && BBlock(sb, addr) < |blk|
    ensures var r := RoomOf(sb, blk, inodes, i);
            && NDIRECT + 1 + j in r.empty && r.free > 0
            && RoomOf(sb, Entered(sb, blk, inodes[i].addrs[NDIRECT], j, addr), inodes, i)
            == Room(r.free - 1, r.empty - {NDIRECT + 1 + j})
  {
    hide SlotsOk, MapOk, Allocated, PutWord;
    var t := inodes[i].addrs[NDIRECT];
    var mid, blk1 := Allocated(sb, blk, addr), Entered(sb, blk, t, j, addr);
    AllocatedBlocks(sb, blk, owner, addr);
    FreeLess(sb, blk, mid, addr);
    TableOwned(sb, blk, inodes, owner, 0, 0, i);
    MapFrame(sb, mid, blk1);
    forall k | 0 <= k < NSLOTS
      ensures Slot(blk1, inodes[i], k) == if k == NDIRECT + 1 + j then addr else Slot(blk, inodes[i], k)
    {
      AllocEntryAt(sb, blk, inodes, owner, i, j, addr, i, k);
    }
    assert EmptySlots(blk1, inodes[i]) == EmptySlots(blk, inodes[i]) - {NDIRECT + 1 + j};
  }

  /** The same slots and the same free map are the same room. */
  lemma RoomSame(sb: Sb, blk: Disk, inodes: map<nat, Inode>, blk1: Disk, inodes1: map<nat, Inode>, i: nat)
    requires SbOk(sb, blk) && |blk1| == |blk| && forall b | sb.bmapstart <= b < sb.nmeta :: blk1[b] == blk[b]
    requires i in inodes && i in inodes1 && |inodes[i].addrs| == |inodes1[i].addrs| == NDIRECT + 1
    requires forall k | 0 <= k < NSLOTS :: Slot(blk1, inodes1[i], k) == Slot(blk, inodes[i], k)
    ensures RoomOf(sb, blk1, inodes1, i) == RoomOf(sb, blk, inodes, i)
  {
    MapFrame(sb, blk, blk1);
  }

  lemma SlotEmpty(sb: Sb, blk: Disk, inodes: map<nat, Inode>, i: nat, k: nat)
    requires i in inodes && |inodes[i].addrs| == NDIRECT + 1 && k < NSLOTS
    ensures k in RoomOf(sb, blk, inodes, i).empty <==> Slot(blk, inodes[i], k) == 0
  {
  }

  /** No free block, no room. */
  lemma NoRoom(sb: Sb, blk: Disk, inodes: map<nat, Inode>, i: nat)
    requires SbOk(sb, blk) && forall b | 0 <= b < sb.size :: InUse(sb, blk, b)
    ensures RoomOf(sb, blk, inodes, i).free == 0
  {
    assert FreeBlocks(sb, blk) == {};
  }

  /** Writing inside the file needs no room. */
  lemma InsideCovers(sb: Sb, blk: Disk, inodes: map<nat, Inode>, i: nat, off: nat, len: nat)
    requires i in inodes && Mapped(blk, inodes[i], inodes[i].size) && off + len <= inodes[i].size
    ensures Covers(RoomOf(sb, blk, inodes, i), off, len)
  {
    var ino, r := inodes[i], RoomOf(sb, blk, inodes, i);
    var lo, hi := off / BSIZE, EndBlock(off, len);
    forall k | 0 <= k < NSLOTS && Uses(lo, hi, k) ensures Slot(blk, ino, k) != 0 {
      var bn := if k < NDIRECT then k else if k == NDIRECT then hi - 1 else k - 1;
      assert bn * BSIZE < off + len && 0 < Addr(blk, ino, bn);
    }
    assert r.empty * Needs(lo, hi) == {};
  }

  /** Inside the file, a write leaves a block changed and unlogged if and only if the source ends
      before the write does, and not on a block boundary. */
  lemma InsideTorn(sb: Sb, blk: Disk, inodes: map<nat, Inode>, i: nat, off: nat, n: nat, readable: nat)
    requires i in inodes && Mapped(blk, inodes[i], inodes[i].size) && off + n <= inodes[i].size
    ensures Torn(RoomOf(sb, blk, inodes, i), off, n, readable) <==>
            0 < readable < n && (off + readable) % BSIZE != 0
  {
    hide Mapped, RoomOf, Covers;
    if readable < n {
      InsideCovers(sb, blk, inodes, i, off, readable);
    }
  }

  /** Overwriting a data block takes no room. */
  lemma PatchRoom(sb: Sb, blk: Disk, inodes: map<nat, Inode>, owner: Owner, i: nat, bn: nat, r: Block)
    requires Owns(sb, blk, inodes, owner) && i in inodes && |inodes[i].addrs| == NDIRECT + 1
    requires bn < MAXFILE && 0 < Addr(blk, inodes[i], bn) < |blk|
    ensures RoomOf(sb, blk[Addr(blk, inodes[i], bn) := r], inodes, i) == RoomOf(sb, blk, inodes, i)
  {
    hide OwnsBut, RoomOf;
    OwnsBasics(sb, blk, inodes, owner, 0, 0);
    PatchOwns(sb, blk, inodes, owner, i, DataSlot(bn), r);
    SlotOwned(sb, blk, inodes, owner, 0, 0, i, DataSlot(bn));
    RoomSame(sb, blk, inodes, blk[Addr(blk, inodes[i], bn) := r], inodes, i);
  }

  /** Neither does writing the inode back, whatever its size field. */
  lemma UpdateRoom(sb: Sb, blk: Disk, inodes: map<nat, Inode>, owner: Owner, blk1: Disk, inodes0: map<nat, Inode>,
                   i: nat)
    requires Owns(sb, blk, inodes, owner) && SameFrom(sb.bmapstart, blk, blk1) && i in inodes
    requires i in inodes0 && inodes0[i].addrs == inodes[i].addrs
    ensures RoomOf(sb, blk1, inodes, i) == RoomOf(sb, blk, inodes0, i)
  {
    hide OwnsBut, RoomOf;
    OwnsBasics(sb, blk, inodes, owner, 0, 0);
    forall k | 0 <= k < NSLOTS ensures Slot(blk1, inodes[i], k) == Slot(blk, inodes0[i], k) {
      SlotsFrame(sb, blk, blk1, inodes, owner, i, k);
    }
    RoomSame(sb, blk, inodes0, blk1, inodes, i);
  }
}
