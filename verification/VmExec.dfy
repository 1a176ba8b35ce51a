/** The memory side of exec in kernel/exec.c: segments, stack, arguments, and the bad: path. */
module VmExec {
  import opened Common
  import opened VmSpec
  import opened Vm
  import opened VmCopy
  import Blocks
  import FsSpec

  const MAXARG := 32

  const MAXSIZE := FsSpec.MAXFILE * Blocks.BSIZE

  /** The file from off on. */
  function From(file: seq<Byte>, off: nat): (s: seq<Byte>) { if off > |file| then [] else file[off..] }

  /** A program header as exec reads it: whether it could be read, whether it is ELF_PROG_LOAD, its
      fields, and the contents of the file it stands in. */
  datatype Segment = Segment(readable: bool, load: bool, flags: nat, off: nat, vaddr: nat, memsz: nat, filesz: nat,
                             file: seq<Byte>)
  {
    /** Bit 0 of the flags asks for execution, bit 1 for writing. */
    predicate Executable() { flags % 2 == 1 }

    predicate Writable() { flags / 2 % 2 == 1 }

    function End(): (a: nat) { vaddr + memsz }

    /** loadseg receives offset and size as unsigned ints. */
    function Len(): (n: nat) { filesz % UINT }

    function Bytes(): (s: seq<Byte>) { From(file, off % UINT) }

    predicate Fits() { vaddr < WRAP && memsz < WRAP && |file| <= MAXSIZE }
  }

  /** What readi copies of k bytes at off. */
  function ReadAt(file: seq<Byte>, off: nat, k: nat): (s: seq<Byte>)
    ensures |s| <= k
  {
    if off > |file| || (off + k) % UINT < off then [] else file[off..Min(off + k, |file|)]
  }

  /** What uvmalloc maps with: PTE_R, PTE_U and the permissions asked for. */
  function UserPerm(x: bool, w: bool): (f: Flags) { Flags(true, true, w, x, true) }

  /** The same for flags2perm of a program header's flags. */
  function Flags2Perm(flags: nat): (f: Flags) { UserPerm(flags % 2 == 1, flags / 2 % 2 == 1) }

  /** A user page that can be read, executed exactly if x and written exactly if w. */
  predicate Permits(f: Flags, x: bool, w: bool) { f.v && f.r && f.u && (f.x <==> x) && (f.w <==> w) }

  /** A new image under construction: its tables and its n user pages came out of the free
      pages free0 and nothing else was touched. */
  ghost predicate Built(mem0: Mem, free0: set<nat>, mem: Mem, free: set<nat>, sp: Space, n: nat)
  {
    && mem.Keys == mem0.Keys && Tables(sp) !! free
    && Tables(sp) + free + Ppns(mem, sp, 0, n) == free0 && Untouched(mem0, mem, free0)
  }

  lemma BuiltStart(mem0: Mem, free0: set<nat>, mem: Mem, free: set<nat>, sp: Space)
    requires Building(mem0, free0, mem, free, sp)
    ensures Built(mem0, free0, mem, free, sp, 0)
  {
    hide Look, Tables;
  }

  lemma BuiltMore(mem0: Mem, free0: set<nat>, mem: Mem, free: set<nat>, sp: Space, n: nat,
                  mem1: Mem, free1: set<nat>, sp1: Space, want: seq<Want>)
    requires Built(mem0, free0, mem, free, sp, n) && Alloced(mem, free, sp, mem1, free1, sp1, n, want) && n <= TRAPFRAME
    ensures Built(mem0, free0, mem1, free1, sp1, n + |want|)
  {
    hide Look, Tables, IsWanted;
    assert forall v: nat | v < n :: Look(mem1, sp1, v) == Look(mem, sp, v);
    assert Ppns(mem1, sp1, 0, n + |want|) == Ppns(mem, sp, 0, n) + Ppns(mem1, sp1, n, |want|);
  }

  lemma BuiltStored(mem0: Mem, free0: set<nat>, mem: Mem, free: set<nat>, sp: Space, n: nat, mem1: Mem, dst: nat,
                    src: seq<Byte>)
    requires Built(mem0, free0, mem, free, sp, n) && Stored(mem, mem1, sp, n, dst, src) && n <= TRAPFRAME
    ensures Built(mem0, free0, mem1, free, sp, n)
  {
    hide Look, Tables, ByteOf;
    assert forall v: nat | v < n :: Look(mem1, sp, v) == Look(mem, sp, v);
    assert Ppns(mem1, sp, 0, n) == Ppns(mem, sp, 0, n);
  }

  /** Growing keeps the trapframe and trampoline entries. */
  lemma ProcMore(mem: Mem, free: set<nat>, sp: Space, n: nat, mem1: Mem, free1: set<nat>, sp1: Space, want: seq<Want>,
                 tf: nat, tr: nat)
    requires ProcSpace(mem, sp, free, n, tf, tr) && Alloced(mem, free, sp, mem1, free1, sp1, n, want)
    requires User(mem1, sp1, free1, n + |want|)
    ensures ProcSpace(mem1, sp1, free1, n + |want|, tf, tr)
  {
    hide Look, Tables, IsWanted, Ppns, AllDisposable;
  }

  /** Every user page can be reached from user mode. */
  ghost predicate AllUser(mem: Mem, sp: Space, n: nat)
  {
    forall v | 0 <= v < n :: Accessible(mem, sp, v)
  }

  lemma AllUserMore(mem: Mem, free: set<nat>, sp: Space, n: nat, mem1: Mem, free1: set<nat>, sp1: Space, perm: Flags,
                    k: nat)
    requires AllUser(mem, sp, n) && n + k <= TRAPFRAME && perm.u
    requires Alloced(mem, free, sp, mem1, free1, sp1, n, Zeros(perm, k))
    ensures AllUser(mem1, sp1, n + k)
  {
    hide Look, Tables, Ppns;
    forall v | 0 <= v < n + k ensures Accessible(mem1, sp1, v) {
      if v < n {
        assert Accessible(mem, sp, v);
      } else {
        assert IsWanted(mem1, Look(mem1, sp1, v), Zeros(perm, k)[v - n]);
      }
    }
  }

  lemma StoredProc(mem: Mem, sp: Space, free: set<nat>, n: nat, mem1: Mem, dst: nat, src: seq<Byte>, tf: nat, tr: nat)
    requires ProcSpace(mem, sp, free, n, tf, tr) && Stored(mem, mem1, sp, n, dst, src) && Image(mem1, sp, free, n)
    ensures ProcSpace(mem1, sp, free, n, tf, tr) && (AllUser(mem, sp, n) ==> AllUser(mem1, sp, n))
  {
    hide Look, Tables, ByteOf, User, Untouched;
    if AllUser(mem, sp, n) {
      forall v | 0 <= v < n ensures Accessible(mem1, sp, v) {
        assert Accessible(mem, sp, v);
      }
    }
  }

  /** The state exec keeps for the new image between its steps. */
  ghost predicate Imaged(vm: Vm, mem0: Mem, free0: set<nat>, sp: Space, sz: nat, tf: nat, tr: nat)
    reads vm
  {
    && vm.Valid() && Tree(vm.mem, sp) && Tables(sp) !! Elements(vm.free)
    && ProcSpace(vm.mem, sp, Elements(vm.free), Up(sz), tf, tr)
    && Built(mem0, free0, vm.mem, Elements(vm.free), sp, Up(sz))
  }

  /** User memory went from n pages to m: the old bytes are there, the new ones are zero. */
  ghost predicate Extended(mem: Mem, sp: Space, n: nat, mem1: Mem, sp1: Space, m: nat)
  {
    forall a: nat | a / PGSIZE < m :: ByteOf(mem1, sp1, a) == if a / PGSIZE < n then ByteOf(mem, sp, a) else 0
  }

  lemma AllocedBytes(mem: Mem, free: set<nat>, sp: Space, mem1: Mem, free1: set<nat>, sp1: Space, n: nat, perm: Flags,
                     k: nat)
    requires User(mem, sp, free, n) && Tree(mem, sp) && n + k <= TRAPFRAME
    requires Alloced(mem, free, sp, mem1, free1, sp1, n, Zeros(perm, k))
    ensures Extended(mem, sp, n, mem1, sp1, n + k)
  {
    hide Look, Tables, Ppns, Tree;
    forall a: nat | a / PGSIZE < n + k
      ensures ByteOf(mem1, sp1, a) == if a / PGSIZE < n then ByteOf(mem, sp, a) else 0
    {
      var v := a / PGSIZE;
      if v < n {
        assert Disposable(mem, sp, free, Look(mem, sp, v).ppn);
      } else {
        assert IsWanted(mem1, Look(mem1, sp1, v), Zeros(perm, k)[v - n]);
      }
    }
  }

  /** User memory went from n pages to m: the old entries have their flags, the new ones perm. */
  ghost predicate Granted(mem: Mem, sp: Space, n: nat, mem1: Mem, sp1: Space, m: nat, perm: Flags)
  {
    forall v: nat | v < m ::
      Look(mem1, sp1, v).flags == if v < n then Look(mem, sp, v).flags else perm.(v := true)
  }

  lemma AllocedFlags(mem: Mem, free: set<nat>, sp: Space, mem1: Mem, free1: set<nat>, sp1: Space, n: nat, perm: Flags,
                     k: nat)
    requires n + k <= TRAPFRAME && Alloced(mem, free, sp, mem1, free1, sp1, n, Zeros(perm, k))
    ensures Granted(mem, sp, n, mem1, sp1, n + k, perm)
  {
    hide Look, Tables, Ppns;
    forall v: nat | v < n + k
      ensures Look(mem1, sp1, v).flags == if v < n then Look(mem, sp, v).flags else perm.(v := true)
    {
      if v >= n {
        assert IsWanted(mem1, Look(mem1, sp1, v), Zeros(perm, k)[v - n]);
      }
    }
  }

  lemma ImageKeys(mem0: Mem, free0: set<nat>, mem: Mem, free: set<nat>, sp: Space, n: nat)
    requires Built(mem0, free0, mem, free, sp, n)
    ensures mem.Keys == mem0.Keys
  {
  }

  lemma ZerosLen(perm: Flags, k: int, want: seq<Want>)
    requires k >= 0 && (want == Zeros(perm, k) || (k == 0 && want == []))
    ensures |want| == k && want == Zeros(perm, k)
  {
  }

  lemma ProcBound(mem: Mem, sp: Space, free: set<nat>, n: nat, tf: nat, tr: nat)
    requires ProcSpace(mem, sp, free, n, tf, tr)
    ensures n <= TRAPFRAME && User(mem, sp, free, n) && Image(mem, sp, free, n)
  {
    hide AllDisposable, Look;
    ProcImage(mem, sp, free, n, tf, tr);
  }

  /** One uvmalloc of exec, keeping the books. */
  method Grow(vm: Vm, root: nat, sz: nat, newsz: nat, perm: Flags, ghost sp: Space,
              ghost mem0: Mem, ghost free0: set<nat>, ghost tf: nat, ghost tr: nat)
    returns (sz1: nat, ghost sp1: Space, ghost sz2: nat)
    requires Imaged(vm, mem0, free0, sp, sz, tf, tr) && root == sp.root && |mem0.Keys| <= TRAPFRAME
    requires perm.r && perm.u && AllUser(vm.mem, sp, Up(sz))
    modifies vm
    ensures sz2 == if sz1 == 0 then sz else sz1
    ensures Imaged(vm, mem0, free0, sp1, sz2, tf, tr) && sp1.root == sp.root && AllUser(vm.mem, sp1, Up(sz2))
    ensures sz1 != 0 ==> sz1 == (if newsz < sz then sz else newsz)
    ensures vm.dry >= old(vm.dry) && (sz1 == 0 ==> vm.dry > old(vm.dry) || newsz == 0)
    ensures Extended(old(vm.mem), sp, Up(sz), vm.mem, sp1, Up(sz2))
    ensures Granted(old(vm.mem), sp, Up(sz), vm.mem, sp1, Up(sz2), perm)
  {
    hide FreeOk, Tree, Look, Tables, Ppns, User, Alloced, Zeros, AllUser, Built;
    ghost var mem1, free1 := vm.mem, Elements(vm.free);
    ImageKeys(mem0, free0, mem1, free1, sp, Up(sz));
    var s, sp2, ok := vm.Uvmalloc(root, sz, newsz, perm, sp);
    sp1, sz1, sz2 := sp2, s, if ok then s else sz;
    ghost var want := if ok then Zeros(perm, Up(s) - Up(sz)) else [];
    ZerosLen(perm, Up(sz2) - Up(sz), want);
    ProcBound(mem1, sp, free1, Up(sz), tf, tr);
    BuiltMore(mem0, free0, mem1, free1, sp, Up(sz), vm.mem, Elements(vm.free), sp1, want);
    ProcMore(mem1, free1, sp, Up(sz), vm.mem, Elements(vm.free), sp1, want, tf, tr);
    ProcBound(vm.mem, sp1, Elements(vm.free), Up(sz2), tf, tr);
    AllUserMore(mem1, free1, sp, Up(sz), vm.mem, Elements(vm.free), sp1, perm, |want|);
    AllocedBasics(mem1, free1, sp, vm.mem, Elements(vm.free), sp1, Up(sz), want);
    AllocedBytes(mem1, free1, sp, vm.mem, Elements(vm.free), sp1, Up(sz), perm, |want|);
    AllocedFlags(mem1, free1, sp, vm.mem, Elements(vm.free), sp1, Up(sz), perm, |want|);
  }

  // ---------------------------------------------------------------- segments

  /** A program header that exec turns down. */
  predicate Rejected(seg: Segment)
  {
    || !seg.readable
    || (seg.load && (seg.memsz < seg.filesz || (seg.vaddr + seg.memsz) % WRAP < seg.vaddr || seg.vaddr % PGSIZE != 0
                     || |seg.Bytes()| < seg.Len()))
  }

  /** A segment that would leave the image empty, which exec takes for a failed uvmalloc. */
  predicate Hollow(seg: Segment) { seg.load && seg.vaddr + seg.memsz == 0 }

  /** The rest of a range that was accessible before the stores so far. */
  lemma PieceAccessible(mem0: Mem, mem: Mem, sp: Space, n: nat, va: nat, len: nat, src: seq<Byte>, i: nat)
    requires AllAccessible(mem0, sp, va, len) && Stored(mem0, mem, sp, n, va, src) && i < len && (va + i) % PGSIZE == 0
    ensures Accessible(mem, sp, (va + i) / PGSIZE)
    ensures AllAccessible(mem, sp, va + i, Min(PGSIZE, len - i))
  {
    hide Accessible, Stored;
    forall a | va + i <= a < va + len ensures Accessible(mem, sp, a / PGSIZE) {
      StoredAccess(mem0, mem, sp, n, va, src, a / PGSIZE);
    }
  }

  lemma AllSmaller(mem: Mem, sp: Space, a: nat, len: nat, m: nat)
    requires AllAccessible(mem, sp, a, len) && m <= len
    ensures AllAccessible(mem, sp, a, m)
  {
  }

  /** While all pages before could be read, the offset has not wrapped. */
  lemma ReadPiece(file: seq<Byte>, offset: nat, i: nat, k: nat)
    requires |file| <= MAXSIZE && offset < UINT && i <= |From(file, offset)| && k <= PGSIZE
    ensures ReadAt(file, (offset + i) % UINT, k) == From(file, offset)[i..Min(i + k, |From(file, offset)|)]
  {
    assert MAXSIZE == 274432;
    if offset <= |file| {
      assert offset + i <= |file| && (offset + i) % UINT == offset + i;
      assert (offset + i + k) % UINT == offset + i + k;
      var bytes, end := From(file, offset), Min(offset + i + k, |file|);
      assert Min(i + k, |bytes|) == end - offset;
      assert file[offset..][i..end - offset] == file[offset + i..end];
    } else {
      assert i == 0 && offset % UINT == offset;
    }
  }

  /** loadseg: page by page, the bytes that readi finds; `address should exist` is unreachable.
      Fails exactly if the file is short. */
  method Loadseg(vm: Vm, root: nat, va: nat, file: seq<Byte>, offset: nat, filesz: nat, ghost sp: Space, ghost n: nat)
    returns (ok: bool, ghost data: seq<Byte>)
    requires vm.Valid() && Tree(vm.mem, sp) && root == sp.root && Tables(sp) !! Elements(vm.free)
    requires Image(vm.mem, sp, Elements(vm.free), n) && AllAccessible(vm.mem, sp, va, filesz) && va % PGSIZE == 0
    requires |file| <= MAXSIZE && offset < UINT && filesz < UINT
    modifies vm
    ensures vm.Valid() && Tree(vm.mem, sp) && vm.free == old(vm.free) && Image(vm.mem, sp, Elements(vm.free), n)
    ensures vm.dry == old(vm.dry) && (ok <==> |From(file, offset)| >= filesz)
    ensures data == From(file, offset)[..Min(filesz, |From(file, offset)|)]
    ensures Stored(old(vm.mem), vm.mem, sp, n, va, data)
  {
    hide FreeOk, Tree, Look, Tables, Image, Stored, AllAccessible, From, ReadAt;
    ghost var bytes := From(file, offset);
    ghost var mem0, all := vm.mem, bytes[..Min(filesz, |bytes|)];
    ImageBound(mem0, sp, Elements(vm.free), n);
    StoredNone(mem0, sp, n, va, all);
    var i := 0;
    while i < filesz
      invariant 0 <= i && i % PGSIZE == 0 && vm.Valid() && Tree(vm.mem, sp) && vm.free == old(vm.free)
      invariant vm.dry == old(vm.dry)
      invariant Image(vm.mem, sp, Elements(vm.free), n) && Min(i, filesz) <= |bytes|
      invariant Stored(mem0, vm.mem, sp, n, va, all[..Min(i, filesz)])
    {
      ghost var mem1 := vm.mem;
      PieceAccessible(mem0, mem1, sp, n, va, filesz, all[..i], i);
      var pa := Walkaddr(vm, root, (va + i) / PGSIZE, sp, n);
      assert pa != 0;
      var k := if filesz - i < PGSIZE then filesz - i else PGSIZE;
      var piece := ReadAt(file, (offset + i) % UINT, k);
      ReadPiece(file, offset, i, k);
      AllSmaller(mem1, sp, va + i, k, |piece|);
      var stored, done := Copyout(vm, root, va + i, piece, sp, n);
      assert piece[..done] == piece == all[i..i + |piece|];
      StoredMore(mem0, mem1, vm.mem, sp, n, va, all, i, |piece|);
      if |piece| < k {
        assert all[..i + |piece|] == all;
        return false, all;
      }
      i := i + PGSIZE;
    }
    assert all[..Min(i, filesz)] == all;
    return true, all;
  }

  /** The byte a loaded segment gives an address, or the byte that was there. */
  function Laid(seg: Segment, a: nat, was: Byte): (x: Byte)
  {
    if seg.load && seg.vaddr <= a < seg.vaddr + seg.Len() && a - seg.vaddr < |seg.Bytes()|
    then seg.Bytes()[a - seg.vaddr] else was
  }

  ghost predicate Overlaid(mem: Mem, sp: Space, n: nat, mem1: Mem, sp1: Space, m: nat, seg: Segment)
  {
    forall a: nat | a / PGSIZE < m ::
      ByteOf(mem1, sp1, a) == Laid(seg, a, if a / PGSIZE < n then ByteOf(mem, sp, a) else 0)
  }

  lemma Overlay(mem0: Mem, sp0: Space, n: nat, mem: Mem, mem1: Mem, sp: Space, m: nat, seg: Segment)
    requires Extended(mem0, sp0, n, mem, sp, m) && seg.load && |seg.Bytes()| >= seg.Len()
    requires Stored(mem, mem1, sp, m, seg.vaddr, seg.Bytes()[..seg.Len()])
    ensures Overlaid(mem0, sp0, n, mem1, sp, m, seg)
  {
    hide ByteOf, Untouched;
  }

  /** Addresses below the size lie in accessible pages. */
  lemma InUser(mem: Mem, sp: Space, sz: nat, a: nat, len: nat)
    requires AllUser(mem, sp, Up(sz)) && a + len <= sz
    ensures AllAccessible(mem, sp, a, len)
  {
    forall i | a <= i < a + len ensures Accessible(mem, sp, i / PGSIZE) {
      assert i / PGSIZE < Up(sz);
    }
  }

  /** The pages from n on got the permissions of the segment, the ones before kept theirs. */
  ghost predicate Opened(mem: Mem, sp: Space, n: nat, mem1: Mem, sp1: Space, m: nat, seg: Segment)
  {
    forall v: nat | v < m ::
      if v < n then Look(mem1, sp1, v).flags == Look(mem, sp, v).flags
      else Permits(Look(mem1, sp1, v).flags, seg.Executable(), seg.Writable())
  }

  lemma OpenedNone(mem: Mem, sp: Space, n: nat, seg: Segment)
    ensures Opened(mem, sp, n, mem, sp, n, seg)
  {
  }

  lemma GrantedOpens(mem0: Mem, sp0: Space, n: nat, mem: Mem, mem1: Mem, sp: Space, m: nat, seg: Segment,
                     dst: nat, src: seq<Byte>)
    requires Granted(mem0, sp0, n, mem, sp, m, Flags2Perm(seg.flags)) && m <= TRAPFRAME
    requires Stored(mem, mem1, sp, m, dst, src)
    ensures Opened(mem0, sp0, n, mem1, sp, m, seg)
  {
    hide Look, ByteOf, Untouched;
  }

  /** One round of the loading loop; `loadseg: address should exist` is unreachable. */
  method LoadOne(vm: Vm, root: nat, sz: nat, seg: Segment, ghost sp: Space,
                 ghost mem0: Mem, ghost free0: set<nat>, ghost tf: nat, ghost tr: nat)
    returns (ok: bool, sz1: nat, ghost sp1: Space)
    requires Imaged(vm, mem0, free0, sp, sz, tf, tr) && root == sp.root && |mem0.Keys| <= TRAPFRAME
    requires AllUser(vm.mem, sp, Up(sz)) && seg.Fits()
    modifies vm
    ensures Imaged(vm, mem0, free0, sp1, sz1, tf, tr) && sp1.root == sp.root && AllUser(vm.mem, sp1, Up(sz1))
    ensures ok ==> sz1 == if seg.load then Max(sz, seg.End()) else sz
    ensures ok ==> Opened(old(vm.mem), sp, Up(sz), vm.mem, sp1, Up(sz1), seg)
    ensures ok ==> Overlaid(old(vm.mem), sp, Up(sz), vm.mem, sp1, Up(sz1), seg)
    ensures vm.dry >= old(vm.dry) && (ok ==> !Rejected(seg))
    ensures !ok ==> vm.dry > old(vm.dry) || Rejected(seg) || Hollow(seg)
  {
    hide FreeOk, Tree, Look, Tables, Ppns, User, AllUser, Built, ProcSpace, Stored, Image, AllAccessible, Extended,
         ByteOf, Granted, Opened;
    ghost var start := vm.mem;
    sp1, sz1 := sp, sz;
    if !seg.readable {
      return false, sz1, sp1;
    }
    if !seg.load {
      OpenedNone(vm.mem, sp, Up(sz), seg);
      return true, sz1, sp1;
    }
    if seg.memsz < seg.filesz || (seg.vaddr + seg.memsz) % WRAP < seg.vaddr || seg.vaddr % PGSIZE != 0 {
      return false, sz1, sp1;
    }
    var s;
    ghost var sz2;
    s, sp1, sz2 := Grow(vm, root, sz, seg.vaddr + seg.memsz, Flags2Perm(seg.flags), sp, mem0, free0, tf, tr);
    if s == 0 {
      return false, sz1, sp1;
    }
    sz1 := s;
    ghost var mem1 := vm.mem;
    ProcBound(vm.mem, sp1, Elements(vm.free), Up(sz1), tf, tr);
    InUser(vm.mem, sp1, sz1, seg.vaddr, seg.Len());
    ghost var data;
    ok, data := Loadseg(vm, root, seg.vaddr, seg.file, seg.off % UINT, seg.Len(), sp1, Up(sz1));
    BuiltStored(mem0, free0, mem1, Elements(vm.free), sp1, Up(sz1), vm.mem, seg.vaddr, data);
    StoredProc(mem1, sp1, Elements(vm.free), Up(sz1), vm.mem, seg.vaddr, data, tf, tr);
    if ok {
      Overlay(start, sp, Up(sz), mem1, vm.mem, sp1, Up(sz1), seg);
      GrantedOpens(start, sp, Up(sz), mem1, vm.mem, sp1, Up(sz1), seg, seg.vaddr, data);
    }
  }

  /** The byte of the new image at an address, after the first k program headers: what the
      last segment to cover it says, and zero where none does. */
  function ImageByte(segs: seq<Segment>, k: nat, a: nat): (x: Byte)
    requires k <= |segs|
  {
    if k == 0 then 0 else Laid(segs[k - 1], a, ImageByte(segs, k - 1, a))
  }

  ghost predicate Loaded(mem: Mem, sp: Space, segs: seq<Segment>, k: nat, n: nat)
  {
    k <= |segs| && forall a: nat | a / PGSIZE < n :: ByteOf(mem, sp, a) == ImageByte(segs, k, a)
  }

  /** The size of the image after the first k program headers. */
  function ImageSize(segs: seq<Segment>, k: nat): (sz: nat)
    requires k <= |segs|
  {
    if k == 0 then 0
    else if segs[k - 1].load then Max(ImageSize(segs, k - 1), segs[k - 1].End()) else ImageSize(segs, k - 1)
  }

  /** It is the largest end of a loaded segment, and 0 without one. */
  lemma {:induction false} SizeIsLargest(segs: seq<Segment>, k: nat)
    requires k <= |segs|
    ensures forall i | 0 <= i < k && segs[i].load :: segs[i].End() <= ImageSize(segs, k)
    ensures ImageSize(segs, k) == 0 || exists i :: 0 <= i < k && segs[i].load && segs[i].End() == ImageSize(segs, k)
  {
    if k > 0 {
      SizeIsLargest(segs, k - 1);
    }
  }

  /** A loaded segment that reaches page v or beyond. */
  predicate Reaches(seg: Segment, v: nat) { seg.load && v * PGSIZE < seg.End() }

  /** The first of k segments that reaches page v, or k. */
  function First(segs: seq<Segment>, k: nat, v: nat): (i: nat)
    requires k <= |segs|
    ensures i <= k && (i < k ==> Reaches(segs[i], v)) && forall j | 0 <= j < i :: !Reaches(segs[j], v)
  {
    if k == 0 then 0 else
    var i := First(segs, k - 1, v);
    if i < k - 1 || Reaches(segs[k - 1], v) then i else k
  }

  /** Every page has the permissions of the first segment that reached it. */
  ghost predicate Permitted(mem: Mem, sp: Space, segs: seq<Segment>, k: nat, n: nat)
  {
    k <= |segs| && forall v: nat | v < n ::
      First(segs, k, v) < k && var seg := segs[First(segs, k, v)];
      Permits(Look(mem, sp, v).flags, seg.Executable(), seg.Writable())
  }

  lemma PageBelow(v: nat, sz: nat)
    ensures v < Up(sz) <==> v * PGSIZE < sz
  {
  }

  /** Pages below the size were reached by some segment, pages above by none. */
  lemma {:induction false} FirstBelow(segs: seq<Segment>, k: nat, v: nat)
    requires k <= |segs|
    ensures First(segs, k, v) < k <==> v < Up(ImageSize(segs, k))
  {
    hide Up;
    PageBelow(v, ImageSize(segs, k));
    if k > 0 {
      FirstBelow(segs, k - 1, v);
      PageBelow(v, ImageSize(segs, k - 1));
    }
  }

  lemma PermittedMore(mem: Mem, sp: Space, mem1: Mem, sp1: Space, segs: seq<Segment>, k: nat)
    requires k < |segs| && Permitted(mem, sp, segs, k, Up(ImageSize(segs, k)))
    requires Opened(mem, sp, Up(ImageSize(segs, k)), mem1, sp1, Up(ImageSize(segs, k + 1)), segs[k])
    ensures Permitted(mem1, sp1, segs, k + 1, Up(ImageSize(segs, k + 1)))
  {
    hide Look, Up, ImageSize;
    forall v: nat | v < Up(ImageSize(segs, k + 1))
      ensures First(segs, k + 1, v) < k + 1
      ensures var seg := segs[First(segs, k + 1, v)];
              Permits(Look(mem1, sp1, v).flags, seg.Executable(), seg.Writable())
    {
      FirstBelow(segs, k, v);
      FirstBelow(segs, k + 1, v);
    }
  }

  /** Every segment so far ends at or below the size. */
  ghost predicate Within(segs: seq<Segment>, k: nat, sz: nat)
  {
    k <= |segs| && forall i | 0 <= i < k :: segs[i].load ==> segs[i].vaddr + segs[i].Len() <= sz
  }

  lemma {:induction false} SizeWithin(segs: seq<Segment>, k: nat)
    requires k <= |segs| && forall i | 0 <= i < k :: !Rejected(segs[i])
    ensures Within(segs, k, ImageSize(segs, k))
  {
    SizeIsLargest(segs, k);
    forall i | 0 <= i < k && segs[i].load ensures segs[i].vaddr + segs[i].Len() <= ImageSize(segs, k) {
      assert segs[i].filesz <= segs[i].memsz;
    }
  }

  lemma {:induction false} AboveZero(segs: seq<Segment>, k: nat, sz: nat, a: nat)
    requires Within(segs, k, sz) && a >= sz
    ensures ImageByte(segs, k, a) == 0
  {
    if k > 0 {
      AboveZero(segs, k - 1, sz, a);
    }
  }

  lemma LoadedMore(mem: Mem, sp: Space, mem1: Mem, sp1: Space, segs: seq<Segment>, k: nat, sz: nat, sz1: nat)
    requires Loaded(mem, sp, segs, k, Up(sz)) && Within(segs, k, sz) && k < |segs|
    requires Overlaid(mem, sp, Up(sz), mem1, sp1, Up(sz1), segs[k])
    ensures Loaded(mem1, sp1, segs, k + 1, Up(sz1))
  {
    hide ByteOf, Laid, Within;
    forall a: nat | a / PGSIZE < Up(sz1) ensures ByteOf(mem1, sp1, a) == ImageByte(segs, k + 1, a) {
      if a / PGSIZE >= Up(sz) {
        AboveZero(segs, k, sz, a);
      }
    }
  }

  /** Growing by zero pages keeps the image. */
  lemma LoadedGrows(mem: Mem, sp: Space, mem1: Mem, sp1: Space, segs: seq<Segment>, sz: nat, n: nat)
    requires Loaded(mem, sp, segs, |segs|, Up(sz)) && Extended(mem, sp, Up(sz), mem1, sp1, n) && n >= Up(sz)
    ensures Loaded(mem1, sp1, segs, |segs|, Up(sz))
  {
    hide ByteOf, ImageByte;
  }

  lemma NoneLoaded(mem: Mem, sp: Space, segs: seq<Segment>)
    ensures Loaded(mem, sp, segs, 0, Up(0)) && Permitted(mem, sp, segs, 0, Up(0)) && AllUser(mem, sp, Up(0))
  {
  }

  /** The loading loop. */
  method LoadAll(vm: Vm, root: nat, segs: seq<Segment>, ghost sp: Space,
                 ghost mem0: Mem, ghost free0: set<nat>, ghost tf: nat, ghost tr: nat)
    returns (ok: bool, sz: nat, ghost sp1: Space)
    requires Imaged(vm, mem0, free0, sp, 0, tf, tr) && root == sp.root && |mem0.Keys| <= TRAPFRAME
    requires forall g | g in segs :: g.Fits()
    modifies vm
    ensures Imaged(vm, mem0, free0, sp1, sz, tf, tr) && sp1.root == sp.root && AllUser(vm.mem, sp1, Up(sz))
    ensures ok ==> sz == ImageSize(segs, |segs|)
    ensures ok ==> Loaded(vm.mem, sp1, segs, |segs|, Up(sz)) && Permitted(vm.mem, sp1, segs, |segs|, Up(sz))
    ensures vm.dry >= old(vm.dry) && (ok ==> forall g | g in segs :: !Rejected(g))
    ensures !ok ==> vm.dry > old(vm.dry) || exists g :: g in segs && (Rejected(g) || Hollow(g))
  {
    hide Imaged, Loaded, Overlaid, Within, Rejected, Hollow, Opened, Permitted;
    sz, sp1, ok := 0, sp, true;
    var i := 0;
    NoneLoaded(vm.mem, sp, segs);
    while i < |segs|
      invariant 0 <= i <= |segs| && sz == ImageSize(segs, i)
      invariant Loaded(vm.mem, sp1, segs, i, Up(sz)) && Permitted(vm.mem, sp1, segs, i, Up(sz))
      invariant ok && vm.dry >= old(vm.dry) && forall k | 0 <= k < i :: !Rejected(segs[k])
      invariant Imaged(vm, mem0, free0, sp1, sz, tf, tr) && sp1.root == sp.root && AllUser(vm.mem, sp1, Up(sz))
    {
      ghost var mem1, sp2, was := vm.mem, sp1, sz;
      ok, sz, sp1 := LoadOne(vm, root, sz, segs[i], sp1, mem0, free0, tf, tr);
      if !ok {
        return;
      }
      SizeWithin(segs, i);
      LoadedMore(mem1, sp2, vm.mem, sp1, segs, i, was, sz);
      PermittedMore(mem1, sp2, vm.mem, sp1, segs, i);
      i := i + 1;
    }
  }

  // ---------------------------------------------------------------- the stack

  /** The largest multiple of 16 at or below t. */
  function Below16(t: int): (r: int)
    ensures r % 16 == 0 && r <= t < r + 16
  {
    t - t % 16
  }

  /** Where the k-th argument string starts, on a stack that ends at sz. */
  function Position(argv: seq<seq<Byte>>, k: nat, sz: int): (t: int)
    requires k <= |argv|
  {
    if k == 0 then sz else Below16(Position(argv, k - 1, sz) - (|argv[k - 1]| + 1))
  }

  /** Where the array of pointers starts. */
  function StackTop(argv: seq<seq<Byte>>, sz: int): (t: int) { Below16(Position(argv, |argv|, sz) - 8 * (|argv| + 1)) }

  /** The strings and the pointers fit into the one stack page. */
  predicate ArgsFit(argv: seq<seq<Byte>>) { StackTop(argv, 0) >= -PGSIZE }

  /** Exactly MAXARG strings that fit: only then the terminating 0 is stored past the array of
      MAXARG pointers. */
  predicate Overruns(argv: seq<seq<Byte>>) { |argv| == MAXARG && Position(argv, MAXARG, 0) >= -PGSIZE }

  lemma Below16Shift(t: int, sz: int)
    requires sz % 16 == 0
    ensures Below16(sz + t) == sz + Below16(t)
  {
    var q := sz / 16;
    assert sz == 16 * q;
    assert (16 * q + t) % 16 == t % 16;
  }

  lemma {:induction false} PositionShift(argv: seq<seq<Byte>>, k: nat, sz: int)
    requires k <= |argv| && sz % 16 == 0
    ensures Position(argv, k, sz) == sz + Position(argv, k, 0)
  {
    hide Below16;
    if k > 0 {
      PositionShift(argv, k - 1, sz);
      Below16Shift(Position(argv, k - 1, 0) - (|argv[k - 1]| + 1), sz);
    }
  }

  lemma FitShift(argv: seq<seq<Byte>>, sz: int)
    requires sz % 16 == 0
    ensures ArgsFit(argv) <==> StackTop(argv, sz) >= sz - PGSIZE
  {
    hide Below16, Position;
    PositionShift(argv, |argv|, sz);
    Below16Shift(Position(argv, |argv|, 0) - 8 * (|argv| + 1), sz);
  }

  lemma {:induction false} PositionDown(argv: seq<seq<Byte>>, k: nat, m: nat, sz: int)
    requires k <= m <= |argv|
    ensures Position(argv, m, sz) <= Position(argv, k, sz)
    decreases m - k
  {
    if k < m {
      PositionDown(argv, k, m - 1, sz);
    }
  }

  lemma PositionStep(argv: seq<seq<Byte>>, k: nat, sz: int)
    requires k < |argv|
    ensures Position(argv, k + 1, sz) == Below16(Position(argv, k, sz) - (|argv[k]| + 1))
  {
  }

  lemma PositionZero(argv: seq<seq<Byte>>, sz: int)
    ensures Position(argv, 0, sz) == sz
  {
  }

  lemma TooFar(argv: seq<seq<Byte>>, k: nat, sz: int)
    requires k <= |argv| && sz % 16 == 0 && Position(argv, k, sz) < sz - PGSIZE
    ensures !ArgsFit(argv) && !Overruns(argv)
  {
    PositionDown(argv, k, |argv|, sz);
    PositionShift(argv, |argv|, sz);
    FitShift(argv, sz);
  }

  lemma {:induction false} EmptyPositions(argv: seq<seq<Byte>>, k: nat)
    requires k <= |argv| && forall s | s in argv :: s == []
    ensures Position(argv, k, 0) == -16 * k
  {
    if k > 0 {
      EmptyPositions(argv, k - 1);
      assert argv[k - 1] in argv;
    }
  }

  /** MAXARG empty strings do it. */
  lemma OverrunHappens(argv: seq<seq<Byte>>)
    requires |argv| == MAXARG && forall s | s in argv :: s == []
    ensures Overruns(argv)
  {
    EmptyPositions(argv, MAXARG);
  }

  lemma ManyNoOverrun(argv: seq<seq<Byte>>)
    requires |argv| > MAXARG
    ensures !Overruns(argv)
  {
  }

  lemma AllPushed(argv: seq<seq<Byte>>, sz: int)
    requires sz % 16 == 0 && Position(argv, |argv|, sz) >= sz - PGSIZE
    ensures Overruns(argv) <==> |argv| == MAXARG
  {
    PositionShift(argv, |argv|, sz);
  }

  lemma PageAligned(sz: nat)
    requires sz % PGSIZE == 0
    ensures sz % 16 == 0 && Up(sz) == sz / PGSIZE && Up(sz) * PGSIZE == sz
  {
    var q := sz / PGSIZE;
    assert sz == 16 * (256 * q);
    assert (PGSIZE * q + PGSIZE - 1) / PGSIZE == q;
  }

  lemma NilNotValid() ensures !Leaf(Nil) {}

  lemma UserLeaf(mem: Mem, sp: Space, free: set<nat>, n: nat, v: nat)
    requires User(mem, sp, free, n) && v < n
    ensures Leaf(Look(mem, sp, v))
  {
    hide Look;
  }

  lemma LowIsTable(sp: Space, k: nat)
    requires k in sp.low
    ensures sp.low[k] in Tables(sp)
  {
  }

  lemma ClearedProc(mem: Mem, mem1: Mem, sp: Space, free: set<nat>, n: nat, vpn: nat, pte: Pte, t: nat, tf: nat,
                    tr: nat)
    requires ProcSpace(mem, sp, free, n, tf, tr) && vpn < n && IsTable(mem, t) && IsTable(mem1, t)
    requires mem1 == mem[t := mem1[t]]
    requires forall v: nat | v < MAXVPN :: Look(mem1, sp, v) == if v == vpn then pte else Look(mem, sp, v)
    requires Leaf(pte) && pte.ppn == Look(mem, sp, vpn).ppn
    ensures ProcSpace(mem1, sp, free, n, tf, tr)
    ensures forall a: nat | a / PGSIZE < MAXVPN :: ByteOf(mem1, sp, a) == ByteOf(mem, sp, a)
  {
    hide Look, Tables;
  }

  lemma ClearedBuilt(mem: Mem, mem1: Mem, sp: Space, free: set<nat>, n: nat, t: nat, mem0: Mem, free0: set<nat>)
    requires Built(mem0, free0, mem, free, sp, n) && n <= MAXVPN && t in Tables(sp) && t in mem && t in mem1
    requires mem1 == mem[t := mem1[t]]
    requires forall v: nat | v < MAXVPN :: Look(mem1, sp, v).ppn == Look(mem, sp, v).ppn
    ensures Built(mem0, free0, mem1, free, sp, n)
  {
    hide Look, Tables;
    assert Ppns(mem1, sp, 0, n) == Ppns(mem, sp, 0, n);
  }

  /** Changing the flags of one user entry, keeping its page, keeps everything else. */
  lemma Clearing(mem: Mem, sp: Space, freelist: nat, free: seq<nat>, n: nat, vpn: nat, pte: Pte,
                 mem0: Mem, free0: set<nat>, tf: nat, tr: nat)
    requires FreeOk(mem, freelist, free) && Tree(mem, sp) && Tables(sp) !! Elements(free) && vpn < n <= TRAPFRAME
    requires ProcSpace(mem, sp, Elements(free), n, tf, tr) && Built(mem0, free0, mem, Elements(free), sp, n)
    requires vpn / NPTE in sp.low && Leaf(pte) && pte.ppn == Look(mem, sp, vpn).ppn
    ensures IsTable(mem, sp.low[vpn / NPTE])
    ensures var mem1 := SetEntry(mem, sp.low[vpn / NPTE], vpn % NPTE, pte);
            && FreeOk(mem1, freelist, free) && Tree(mem1, sp)
            && ProcSpace(mem1, sp, Elements(free), n, tf, tr) && Built(mem0, free0, mem1, Elements(free), sp, n)
            && (forall v: nat | v < MAXVPN :: Look(mem1, sp, v) == if v == vpn then pte else Look(mem, sp, v))
            && forall a: nat | a / PGSIZE < MAXVPN :: ByteOf(mem1, sp, a) == ByteOf(mem, sp, a)
  {
    hide FreeOk, Links, NoSharing, Look, Tables, ProcSpace, Built, Ppns;
    SetLeaf(mem, sp, vpn, pte);
    TablesAre(mem, sp);
    LowIsTable(sp, vpn / NPTE);
    var t := sp.low[vpn / NPTE];
    var mem1 := SetEntry(mem, t, vpn % NPTE, pte);
    FreeFrame(mem, mem1, freelist, free);
    ClearedProc(mem, mem1, sp, Elements(free), n, vpn, pte, t, tf, tr);
    ClearedBuilt(mem, mem1, sp, Elements(free), n, t, mem0, free0);
  }

  /** uvmclear: take a page away from user mode. */
  method Uvmclear(vm: Vm, root: nat, vpn: nat, ghost sp: Space, ghost sz: nat,
                  ghost mem0: Mem, ghost free0: set<nat>, ghost tf: nat, ghost tr: nat)
    requires Imaged(vm, mem0, free0, sp, sz, tf, tr) && root == sp.root && vpn < Up(sz)
    modifies vm
    ensures Imaged(vm, mem0, free0, sp, sz, tf, tr) && !Accessible(vm.mem, sp, vpn)
    ensures forall v: nat | v < MAXVPN :: Look(vm.mem, sp, v) ==
              var e := Look(old(vm.mem), sp, v); if v == vpn then e.(flags := e.flags.(u := false)) else e
    ensures forall v: nat | v != vpn :: Accessible(vm.mem, sp, v) == Accessible(old(vm.mem), sp, v)
    ensures forall a: nat | a / PGSIZE < MAXVPN :: ByteOf(vm.mem, sp, a) == ByteOf(old(vm.mem), sp, a)
    ensures vm.dry == old(vm.dry)
  {
    hide ByteOf, FreeOk, Tree, Look, Tables, Ppns, User, Built, ProcSpace, AllDisposable;
    ProcBound(vm.mem, sp, Elements(vm.free), Up(sz), tf, tr);
    UserLeaf(vm.mem, sp, Elements(vm.free), Up(sz), vpn);
    var pt, same := vm.Walk(root, vpn, false, sp);
    LookAt(vm.mem, sp, vpn, pt);
    NilNotValid();
    ghost var mem1 := vm.mem;
    var pte := vm.mem[pt].e[vpn % NPTE];
    var pte1 := pte.(flags := pte.flags.(u := false));
    Clearing(vm.mem, sp, vm.freelist, vm.free, Up(sz), vpn, pte1, mem0, free0, tf, tr);
    vm.mem := vm.mem[pt := Table(vm.mem[pt].e[vpn % NPTE := pte1])];
    forall v: nat | v != vpn ensures Accessible(vm.mem, sp, v) == Accessible(mem1, sp, v) {
    }
  }

  /** The n bytes of a number, least significant first, and back. */
  function LittleEndian(x: nat, n: nat): (s: seq<Byte>)
    ensures |s| == n
  {
    if n == 0 then [] else [x % 256] + LittleEndian(x / 256, n - 1)
  }

  function Decoded(s: seq<Byte>): (x: nat)
  {
    if s == [] then 0 else s[0] as int + 256 * Decoded(s[1..])
  }

  function Pow256(n: nat): (p: nat) { if n == 0 then 1 else 256 * Pow256(n - 1) }

  lemma {:induction false} LittleEndianRoundTrip(x: nat, n: nat)
    requires x < Pow256(n)
    ensures Decoded(LittleEndian(x, n)) == x
  {
    if n > 0 {
      LittleEndianRoundTrip(x / 256, n - 1);
      assert LittleEndian(x, n)[1..] == LittleEndian(x / 256, n - 1);
    }
  }

  /** The bytes of an array of 8-byte pointers. */
  function Pointers(us: seq<nat>): (s: seq<Byte>)
    ensures |s| == 8 * |us|
  {
    if us == [] then [] else Pointers(us[..|us| - 1]) + LittleEndian(us[|us| - 1], 8)
  }

  /** Slot j of the array, read as a 64-bit word, is pointer j. */
  lemma {:induction false} PointerAt(us: seq<nat>, j: nat)
    requires j < |us| && us[j] < WRAP
    ensures Decoded(Pointers(us)[8 * j..8 * j + 8]) == us[j]
  {
    var last := |us| - 1;
    if j == last {
      assert Pow256(8) == WRAP by {
        assert Pow256(4) == 0x1_0000_0000;
      }
      LittleEndianRoundTrip(us[j], 8);
      assert Pointers(us)[8 * j..8 * j + 8] == LittleEndian(us[j], 8);
    } else {
      PointerAt(us[..last], j);
      assert Pointers(us)[8 * j..8 * j + 8] == Pointers(us[..last])[8 * j..8 * j + 8];
    }
  }

  /** The argument strings on the stack: aligned, inside the stack page, NUL-terminated. */
  ghost predicate Placed(mem: Mem, sp: Space, argv: seq<seq<Byte>>, us: seq<nat>, lo: nat, sz: nat)
  {
    && |us| <= |argv|
    && forall j | 0 <= j < |us| ::
         && us[j] % 16 == 0 && lo <= us[j] && us[j] + |argv[j]| + 1 <= sz
         && Read(mem, sp, us[j], |argv[j]| + 1) == argv[j] + [0]
  }

  lemma ReadBack(mem: Mem, mem1: Mem, sp: Space, n: nat, dst: nat, src: seq<Byte>)
    requires Stored(mem, mem1, sp, n, dst, src) && dst + |src| <= n * PGSIZE
    ensures Read(mem1, sp, dst, |src|) == src
  {
    hide ByteOf, Look, Untouched;
    forall i | dst <= i < dst + |src| ensures ByteOf(mem1, sp, i) == src[i - dst] {
      assert i / PGSIZE < n;
    }
  }

  lemma PlacedKept(mem: Mem, mem1: Mem, sp: Space, n: nat, argv: seq<seq<Byte>>, us: seq<nat>, lo: nat, sz: nat,
                   dst: nat, src: seq<Byte>)
    requires Placed(mem, sp, argv, us, lo, sz) && sz <= n * PGSIZE && dst + |src| <= lo
    requires Stored(mem, mem1, sp, n, dst, src)
    ensures Placed(mem1, sp, argv, us, dst, sz)
  {
    hide Stored, Read;
    forall j | 0 <= j < |us| ensures Read(mem1, sp, us[j], |argv[j]| + 1) == Read(mem, sp, us[j], |argv[j]| + 1) {
      CopyElsewhere(mem, mem1, sp, n, dst, src, us[j], |argv[j]| + 1);
    }
  }

  lemma PlaceOne(mem: Mem, mem1: Mem, sp: Space, n: nat, argv: seq<seq<Byte>>, us: seq<nat>, lo: nat, sz: nat, top: nat)
    requires Placed(mem, sp, argv, us, lo, sz) && sz <= n * PGSIZE && |us| < |argv|
    requires top % 16 == 0 && top + |argv[|us|]| + 1 <= lo <= sz
    requires Stored(mem, mem1, sp, n, top, argv[|us|] + [0])
    ensures Placed(mem1, sp, argv, us + [top], top, sz)
  {
    hide ByteOf, Look, Untouched;
    ReadBack(mem, mem1, sp, n, top, argv[|us|] + [0]);
    PlacedKept(mem, mem1, sp, n, argv, us, lo, sz, top, argv[|us|] + [0]);
  }

  lemma InPage(mem: Mem, sp: Space, v: nat, a: nat, len: nat)
    requires Accessible(mem, sp, v) && v * PGSIZE <= a && a + len <= v * PGSIZE + PGSIZE
    ensures AllAccessible(mem, sp, a, len)
  {
    hide Accessible;
    forall i | a <= i < a + len ensures Accessible(mem, sp, i / PGSIZE) {
      assert i / PGSIZE == v;
    }
  }

  /** A copyout into the stack page, keeping the books. */
  method Push(vm: Vm, root: nat, top: nat, data: seq<Byte>, ghost sp: Space, ghost sz: nat,
              ghost mem0: Mem, ghost free0: set<nat>, ghost tf: nat, ghost tr: nat)
    requires Imaged(vm, mem0, free0, sp, sz, tf, tr) && root == sp.root && sz % PGSIZE == 0 && sz > 0
    requires Accessible(vm.mem, sp, sz / PGSIZE - 1) && sz - PGSIZE <= top && top + |data| <= sz
    modifies vm
    ensures Imaged(vm, mem0, free0, sp, sz, tf, tr) && Accessible(vm.mem, sp, sz / PGSIZE - 1)
    ensures Stored(old(vm.mem), vm.mem, sp, Up(sz), top, data) && vm.dry == old(vm.dry)
  {
    hide FreeOk, Tree, Look, Tables, Ppns, User, AllUser, Built, ProcSpace, Stored, Image, Accessible;
    ghost var mem1 := vm.mem;
    ProcBound(vm.mem, sp, Elements(vm.free), Up(sz), tf, tr);
    InPage(vm.mem, sp, sz / PGSIZE - 1, top, |data|);
    var ok, done := Copyout(vm, root, top, data, sp, Up(sz));
    assert data[..done] == data;
    BuiltStored(mem0, free0, mem1, Elements(vm.free), sp, Up(sz), vm.mem, top, data);
    StoredProc(mem1, sp, Elements(vm.free), Up(sz), vm.mem, top, data, tf, tr);
    StoredAccess(mem1, vm.mem, sp, Up(sz), top, data, sz / PGSIZE - 1);
  }

  /** The first n pages read as before, and all pages translate as before. */
  ghost predicate Same(mem: Mem, mem1: Mem, sp: Space, n: nat)
  {
    SameFlat(mem, sp, mem1, sp) && forall a: nat | a / PGSIZE < n :: ByteOf(mem1, sp, a) == ByteOf(mem, sp, a)
  }

  lemma SameBelow(mem0: Mem, mem: Mem, mem1: Mem, sp: Space, n: nat, m: nat, dst: nat, src: seq<Byte>)
    requires Same(mem0, mem, sp, m) && Stored(mem, mem1, sp, n, dst, src) && m * PGSIZE <= dst && m <= n
    ensures Same(mem0, mem1, sp, m)
  {
    hide ByteOf, Look, Untouched;
    forall a: nat | a / PGSIZE < m ensures ByteOf(mem1, sp, a) == ByteOf(mem0, sp, a) {
      assert a < m * PGSIZE;
    }
  }

  /** A string longer than the stack makes sp wrap around; copyout then refuses the address. */
  method PushWrapped(vm: Vm, root: nat, top: nat, data: seq<Byte>, ghost sp: Space, ghost sz: nat,
                     ghost mem0: Mem, ghost free0: set<nat>, ghost tf: nat, ghost tr: nat, ghost start: Mem)
    requires Imaged(vm, mem0, free0, sp, sz, tf, tr) && root == sp.root && sz % PGSIZE == 0 && sz >= 2 * PGSIZE
    requires data != [] && MAXVPN * PGSIZE <= top && Same(start, vm.mem, sp, sz / PGSIZE - 1)
    modifies vm
    ensures Imaged(vm, mem0, free0, sp, sz, tf, tr) && vm.dry == old(vm.dry)
    ensures Same(start, vm.mem, sp, sz / PGSIZE - 1)
  {
    hide FreeOk, Tree, Look, Tables, Ppns, User, AllUser, Built, ProcSpace, Stored, Image, Same;
    ghost var mem1 := vm.mem;
    ProcBound(vm.mem, sp, Elements(vm.free), Up(sz), tf, tr);
    PageAligned(sz);
    var ok, done := Copyout(vm, root, top, data, sp, Up(sz));
    assert !ok by {
      assert top / PGSIZE >= MAXVPN;
      NotAll(mem1, sp, top, |data|, top);
    }
    BuiltStored(mem0, free0, mem1, Elements(vm.free), sp, Up(sz), vm.mem, top, data[..done]);
    StoredProc(mem1, sp, Elements(vm.free), Up(sz), vm.mem, top, data[..done], tf, tr);
    SameBelow(start, mem1, vm.mem, sp, Up(sz), sz / PGSIZE - 1, top, data[..done]);
  }

  /** The end of PushArgs: the array of pointers below the strings. */
  method PushPointers(vm: Vm, root: nat, sz: nat, argv: seq<seq<Byte>>, us: seq<nat>, low: nat, ghost sp: Space,
                      ghost mem0: Mem, ghost free0: set<nat>, ghost tf: nat, ghost tr: nat, ghost start: Mem)
    returns (ok: bool, top: nat)
    requires Imaged(vm, mem0, free0, sp, sz, tf, tr) && root == sp.root && sz % PGSIZE == 0 && sz >= 2 * PGSIZE
    requires Accessible(vm.mem, sp, sz / PGSIZE - 1) && Same(start, vm.mem, sp, sz / PGSIZE - 1)
    requires |us| == |argv| < MAXARG && low == Position(argv, |argv|, sz) && sz - PGSIZE <= low <= sz
    requires Placed(vm.mem, sp, argv, us, low, sz)
    modifies vm
    ensures Imaged(vm, mem0, free0, sp, sz, tf, tr) && Same(start, vm.mem, sp, sz / PGSIZE - 1)
    ensures vm.dry == old(vm.dry) && (ok <==> ArgsFit(argv))
    ensures ok ==> top == StackTop(argv, sz) && Placed(vm.mem, sp, argv, us, top, sz)
    ensures ok ==> top % 16 == 0 && sz - PGSIZE <= top && top + 8 * (|argv| + 1) <= sz
    ensures ok ==> Read(vm.mem, sp, top, 8 * (|argv| + 1)) == Pointers(us + [0])
  {
    hide Imaged, Accessible, Stored, Placed, Pointers, Read, Same, Position, ArgsFit, Below16, Up;
    PageAligned(sz);
    FitShift(argv, sz);
    var t := Below16(low - 8 * (|us| + 1));
    if t < sz - PGSIZE {
      return false, low;
    }
    ghost var mem2 := vm.mem;
    Push(vm, root, t, Pointers(us + [0]), sp, sz, mem0, free0, tf, tr);
    SameBelow(start, mem2, vm.mem, sp, Up(sz), sz / PGSIZE - 1, t, Pointers(us + [0]));
    PlacedKept(mem2, vm.mem, sp, Up(sz), argv, us, low, sz, t, Pointers(us + [0]));
    ReadBack(mem2, vm.mem, sp, Up(sz), t, Pointers(us + [0]));
    return true, t;
  }

  lemma NonePlaced(mem: Mem, sp: Space, argv: seq<seq<Byte>>, sz: nat)
    ensures Placed(mem, sp, argv, [], sz, sz)
  {
  }

  lemma SameRefl(mem: Mem, sp: Space, n: nat)
    ensures Same(mem, mem, sp, n)
  {
  }

  /** Push the argument strings and the array of pointers to them. On an overrun the next store
      lies outside the array, and nothing more is promised. */
  method PushArgs(vm: Vm, root: nat, sz: nat, argv: seq<seq<Byte>>, ghost sp: Space,
                  ghost mem0: Mem, ghost free0: set<nat>, ghost tf: nat, ghost tr: nat)
    returns (ok: bool, overrun: bool, top: nat, us: seq<nat>)
    requires Imaged(vm, mem0, free0, sp, sz, tf, tr) && root == sp.root && sz % PGSIZE == 0 && sz >= 2 * PGSIZE
    requires Accessible(vm.mem, sp, sz / PGSIZE - 1)
    requires forall s | s in argv :: |s| < WRAP / 2
    modifies vm
    ensures Imaged(vm, mem0, free0, sp, sz, tf, tr)
    ensures Same(old(vm.mem), vm.mem, sp, sz / PGSIZE - 1)
    ensures vm.dry == old(vm.dry) && (ok <==> |argv| < MAXARG && ArgsFit(argv))
    ensures (overrun <==> Overruns(argv)) && (overrun ==> !ok)
    ensures ok ==> top == StackTop(argv, sz) && |us| == |argv|
    ensures ok ==> forall j | 0 <= j < |us| :: us[j] == Position(argv, j + 1, sz)
    ensures ok ==> |us| == |argv| && Placed(vm.mem, sp, argv, us, top, sz)
    ensures ok ==> top % 16 == 0 && sz - PGSIZE <= top && top + 8 * (|argv| + 1) <= sz
    ensures ok ==> Read(vm.mem, sp, top, 8 * (|argv| + 1)) == Pointers(us + [0])
  {
    hide Imaged, Accessible, Stored, Placed, Pointers, Read, Same, Position, ArgsFit, Below16, Up, Overruns;
    ghost var start := vm.mem;
    SameRefl(start, sp, sz / PGSIZE - 1);
    var stackbase := sz - PGSIZE;
    PageAligned(sz);
    NonePlaced(vm.mem, sp, argv, sz);
    PositionZero(argv, sz);
    top, us := sz, [];
    while |us| < |argv|
      invariant |us| <= |argv| && |us| <= MAXARG && stackbase <= top <= sz && vm.dry == old(vm.dry)
      invariant top == Position(argv, |us|, sz) && forall j | 0 <= j < |us| :: us[j] == Position(argv, j + 1, sz)
      invariant Imaged(vm, mem0, free0, sp, sz, tf, tr) && Accessible(vm.mem, sp, sz / PGSIZE - 1)
      invariant Placed(vm.mem, sp, argv, us, top, sz) && Same(start, vm.mem, sp, sz / PGSIZE - 1)
      decreases |argv| - |us|
    {
      var s := argv[|us|];
      PositionStep(argv, |us|, sz);
      if |us| >= MAXARG {
        ManyNoOverrun(argv);
        return false, false, top, us;
      }
      var t := Below16(top - (|s| + 1));
      if t < 0 {
        PushWrapped(vm, root, t + WRAP, s + [0], sp, sz, mem0, free0, tf, tr, start);
        TooFar(argv, |us| + 1, sz);
        return false, false, top, us;
      }
      if t < stackbase {
        TooFar(argv, |us| + 1, sz);
        return false, false, top, us;
      }
      ghost var mem1 := vm.mem;
      Push(vm, root, t, s + [0], sp, sz, mem0, free0, tf, tr);
      SameBelow(start, mem1, vm.mem, sp, Up(sz), sz / PGSIZE - 1, t, s + [0]);
      PlaceOne(mem1, vm.mem, sp, Up(sz), argv, us, top, sz, t);
      top, us := t, us + [t];
    }
    AllPushed(argv, sz);
    overrun := |us| == MAXARG;
    if overrun {
      return false, true, top, us;
    }
    ok, top := PushPointers(vm, root, sz, argv, us, top, sp, mem0, free0, tf, tr, start);
  }

  // ---------------------------------------------------------------- exec

  /** What a successful exec built: all segments, with their bytes and permissions, below a guard
      page, and a stack page, writable and not executable, with the argument strings and the array
      of pointers to them. */
  ghost predicate Program(mem: Mem, sp: Space, sz: nat, segs: seq<Segment>, argv: seq<seq<Byte>>, top: nat,
                          us: seq<nat>)
  {
    && var n := Up(ImageSize(segs, |segs|));
    && sz == (n + 2) * PGSIZE && top == StackTop(argv, sz)
    && Loaded(mem, sp, segs, |segs|, n) && Permitted(mem, sp, segs, |segs|, n)
    && !Accessible(mem, sp, n) && Permits(Look(mem, sp, n + 1).flags, false, true)
    && top % 16 == 0 && sz - PGSIZE <= top && |us| == |argv| && Placed(mem, sp, argv, us, top, sz)
    && top + 8 * (|argv| + 1) <= sz && Read(mem, sp, top, 8 * (|argv| + 1)) == Pointers(us + [0])
  }

  lemma RoundUp(vm: Vm, mem0: Mem, free0: set<nat>, sp: Space, sz: nat, tf: nat, tr: nat)
    requires Imaged(vm, mem0, free0, sp, sz, tf, tr)
    ensures Up(Up(sz) * PGSIZE) == Up(sz) && Imaged(vm, mem0, free0, sp, Up(sz) * PGSIZE, tf, tr)
  {
    hide FreeOk, Tree, Tables, ProcSpace, Built;
  }

  lemma StackPage(mem: Mem, sp: Space, sz: nat)
    requires AllUser(mem, sp, Up(sz)) && sz > 0 && sz % PGSIZE == 0
    ensures Up(sz) == sz / PGSIZE && Accessible(mem, sp, sz / PGSIZE - 1)
  {
    hide Accessible;
  }

  lemma ImagedBound(vm: Vm, mem0: Mem, free0: set<nat>, sp: Space, sz: nat, tf: nat, tr: nat)
    requires Imaged(vm, mem0, free0, sp, sz, tf, tr)
    ensures Up(sz) <= TRAPFRAME
  {
    hide FreeOk, Tree, Tables, Built, AllDisposable, Look;
  }

  lemma LoadedSame(mem: Mem, mem1: Mem, sp: Space, segs: seq<Segment>, n: nat)
    requires Loaded(mem, sp, segs, |segs|, n) && n <= MAXVPN
    requires forall a: nat | a / PGSIZE < MAXVPN :: ByteOf(mem1, sp, a) == ByteOf(mem, sp, a)
    ensures Loaded(mem1, sp, segs, |segs|, n)
  {
    hide ByteOf, ImageByte;
  }

  lemma LoadedBelow(mem: Mem, mem1: Mem, sp: Space, segs: seq<Segment>, n: nat, m: nat)
    requires Loaded(mem, sp, segs, |segs|, n) && Same(mem, mem1, sp, m) && n < m
    ensures Loaded(mem1, sp, segs, |segs|, n)
  {
    hide ByteOf, ImageByte, Look;
  }

  /** The permissions once the guard page has been taken from user mode. */
  ghost predicate Guarded(mem: Mem, sp: Space, segs: seq<Segment>, n: nat)
  {
    && Permitted(mem, sp, segs, |segs|, n) && !Accessible(mem, sp, n)
    && Permits(Look(mem, sp, n + 1).flags, false, true)
  }

  lemma GuardStands(mem1: Mem, sp1: Space, mem2: Mem, mem3: Mem, sp: Space, segs: seq<Segment>, n: nat)
    requires Permitted(mem1, sp1, segs, |segs|, n) && n + 2 <= TRAPFRAME
    requires Granted(mem1, sp1, n, mem2, sp, n + 2, UserPerm(false, true)) && !Accessible(mem3, sp, n)
    requires forall v: nat | v < MAXVPN :: Look(mem3, sp, v) ==
               var e := Look(mem2, sp, v); if v == n then e.(flags := e.flags.(u := false)) else e
    ensures Guarded(mem3, sp, segs, n)
  {
    hide Look, First, Accessible;
  }

  lemma GuardedSame(mem: Mem, mem1: Mem, sp: Space, segs: seq<Segment>, n: nat)
    requires Guarded(mem, sp, segs, n) && SameFlat(mem, sp, mem1, sp) && n + 2 <= TRAPFRAME
    ensures Guarded(mem1, sp, segs, n)
  {
    hide Look, First;
  }

  lemma GuardedMeans(mem: Mem, sp: Space, segs: seq<Segment>, n: nat)
    requires Guarded(mem, sp, segs, n)
    ensures Permitted(mem, sp, segs, |segs|, n) && !Accessible(mem, sp, n)
    ensures Permits(Look(mem, sp, n + 1).flags, false, true)
  {
  }

  lemma SameTranslates(mem: Mem, mem1: Mem, sp: Space, n: nat)
    requires Same(mem, mem1, sp, n)
    ensures SameFlat(mem, sp, mem1, sp)
  {
  }

  /** Everything exec does between creating the page table and committing or giving up. */
  method Build(vm: Vm, root: nat, segs: seq<Segment>, argv: seq<seq<Byte>>, ghost sp: Space,
               ghost mem0: Mem, ghost free0: set<nat>, ghost tf: nat, ghost tr: nat)
    returns (ok: bool, overrun: bool, sz: nat, top: nat, us: seq<nat>, ghost sp1: Space)
    requires Imaged(vm, mem0, free0, sp, 0, tf, tr) && root == sp.root && |mem0.Keys| <= TRAPFRAME
    requires forall g | g in segs :: g.Fits()
    requires forall s | s in argv :: |s| < WRAP / 2
    modifies vm
    ensures Imaged(vm, mem0, free0, sp1, sz, tf, tr) && sp1.root == sp.root
    ensures ok ==> Program(vm.mem, sp1, sz, segs, argv, top, us)
    ensures vm.dry >= old(vm.dry) && (ok ==> |argv| < MAXARG && ArgsFit(argv) && forall g | g in segs :: !Rejected(g))
    ensures !ok && !overrun ==> vm.dry > old(vm.dry) || |argv| > MAXARG || (|argv| == MAXARG && !Overruns(argv)) ||
                                !ArgsFit(argv) || exists g :: g in segs && (Rejected(g) || Hollow(g))
    ensures overrun ==> !ok && Overruns(argv) && forall g | g in segs :: !Rejected(g)
  {
    hide Rejected, Hollow, ArgsFit, Overruns, StackTop, Imaged, Loaded, AllUser, Accessible, Placed, Read, Pointers,
         Same, Extended, ByteOf, Granted, Permitted, Permits, Look, ImageSize, Guarded;
    overrun, top, us := false, 0, [];
    ok, sz, sp1 := LoadAll(vm, root, segs, sp, mem0, free0, tf, tr);
    if !ok {
      return;
    }
    RoundUp(vm, mem0, free0, sp1, sz, tf, tr);
    ghost var was := sz;
    sz := Up(sz) * PGSIZE;
    ghost var mem1, sp2 := vm.mem, sp1;
    var s;
    ghost var sz2;
    s, sp1, sz2 := Grow(vm, root, sz, sz + 2 * PGSIZE, UserPerm(false, true), sp1, mem0, free0, tf, tr);
    if s == 0 {
      return false, false, sz, 0, [], sp1;
    }
    LoadedGrows(mem1, sp2, vm.mem, sp1, segs, was, Up(s));
    StackPage(vm.mem, sp1, s);
    sz := s;
    ghost var mem2 := vm.mem;
    Uvmclear(vm, root, sz / PGSIZE - 2, sp1, sz, mem0, free0, tf, tr);
    ghost var mem3 := vm.mem;
    ImagedBound(vm, mem0, free0, sp1, sz, tf, tr);
    LoadedSame(mem2, mem3, sp1, segs, Up(was));
    GuardStands(mem1, sp2, mem2, mem3, sp1, segs, Up(was));
    ok, overrun, top, us := PushArgs(vm, root, sz, argv, sp1, mem0, free0, tf, tr);
    LoadedBelow(mem3, vm.mem, sp1, segs, Up(was), sz / PGSIZE - 1);
    SameTranslates(mem3, vm.mem, sp1, sz / PGSIZE - 1);
    GuardedSame(mem3, vm.mem, sp1, segs, Up(was));
    GuardedMeans(vm.mem, sp1, segs, Up(was));
  }

  /** A space whose tables and pages are not free survives whatever happens to the free pages. */
  lemma SpaceSurvives(mem: Mem, sp: Space, free: set<nat>, n: nat, mem1: Mem, free1: set<nat>, gone: set<nat>,
                      tf: nat, tr: nat)
    requires Tree(mem, sp) && ProcSpace(mem, sp, free, n, tf, tr)
    requires mem1.Keys == mem.Keys && Untouched(mem, mem1, gone)
    requires (gone + free1) !! (Tables(sp) + Ppns(mem, sp, 0, n))
    ensures Tree(mem1, sp) && ProcSpace(mem1, sp, free1, n, tf, tr) && Tables(sp) !! free1
    ensures Ppns(mem1, sp, 0, n) == Ppns(mem, sp, 0, n) && SameFlat(mem, sp, mem1, sp)
    ensures forall a: nat | a / PGSIZE < n :: ByteOf(mem1, sp, a) == ByteOf(mem, sp, a)
  {
    hide Look, Tables, Links, NoSharing;
    TablesAre(mem, sp);
    TreeFrame(mem, mem1, sp);
    assert forall v: nat | v < MAXVPN :: Look(mem1, sp, v) == Look(mem, sp, v);
    forall v | 0 <= v < n ensures Look(mem, sp, v).ppn !in gone + free1 {
      assert Look(mem, sp, v).ppn in Ppns(mem, sp, 0, n);
    }
  }

  lemma OwnNotFree(mem: Mem, sp: Space, free: set<nat>, n: nat, tf: nat, tr: nat)
    requires ProcSpace(mem, sp, free, n, tf, tr)
    ensures Ppns(mem, sp, 0, n) !! free + Tables(sp)
  {
    hide Look, Tables;
    forall v | 0 <= v < n ensures Look(mem, sp, v).ppn !in free + Tables(sp) {
      assert Disposable(mem, sp, free, Look(mem, sp, v).ppn);
    }
  }

  lemma ReadSame(mem: Mem, mem1: Mem, sp: Space, sz: nat, a: nat, len: nat)
    requires forall b: nat | b / PGSIZE < Up(sz) :: ByteOf(mem1, sp, b) == ByteOf(mem, sp, b)
    requires a + len <= sz
    ensures Read(mem1, sp, a, len) == Read(mem, sp, a, len)
  {
    hide ByteOf;
    forall i | a <= i < a + len ensures ByteOf(mem1, sp, i) == ByteOf(mem, sp, i) {
      assert i / PGSIZE < Up(sz);
    }
  }

  lemma ProgramSurvives(mem: Mem, mem1: Mem, sp: Space, sz: nat, segs: seq<Segment>, argv: seq<seq<Byte>>, top: nat,
                        us: seq<nat>)
    requires Program(mem, sp, sz, segs, argv, top, us) && SameFlat(mem, sp, mem1, sp) && Up(sz) <= TRAPFRAME
    requires forall a: nat | a / PGSIZE < Up(sz) :: ByteOf(mem1, sp, a) == ByteOf(mem, sp, a)
    ensures Program(mem1, sp, sz, segs, argv, top, us)
  {
    hide ByteOf, Look, ImageByte, Pointers, First, Accessible, ImageSize, Permits, Permitted;
    PageAligned(sz);
    var n := Up(ImageSize(segs, |segs|));
    assert Guarded(mem, sp, segs, n) && Up(sz) == n + 2;
    GuardedSame(mem, mem1, sp, segs, n);
    ReadSame(mem, mem1, sp, sz, top, 8 * (|argv| + 1));
    forall j | 0 <= j < |us| ensures Read(mem1, sp, us[j], |argv[j]| + 1) == Read(mem, sp, us[j], |argv[j]| + 1) {
      ReadSame(mem, mem1, sp, sz, us[j], |argv[j]| + 1);
    }
  }

  /** exec on memory. If anything fails, every page taken is free again and nothing else
      changed; if it succeeds, exactly the old image's pages have been given back. After an
      overrun nothing is promised. */
  method Exec(vm: Vm, root: nat, oldsz: nat, header: bool, segs: seq<Segment>, argv: seq<seq<Byte>>,
              tf: nat, tr: nat, ghost sp: Space)
    returns (ok: bool, overrun: bool, newRoot: nat, sz: nat, top: nat, us: seq<nat>, ghost sp1: Space)
    requires vm.Valid() && Tree(vm.mem, sp) && root == sp.root && Tables(sp) !! Elements(vm.free)
    requires ProcSpace(vm.mem, sp, Elements(vm.free), Up(oldsz), tf, tr) && |vm.mem.Keys| <= TRAPFRAME
    requires forall g | g in segs :: g.Fits()
    requires forall s | s in argv :: |s| < WRAP / 2
    modifies vm
    ensures vm.Valid() && vm.mem.Keys == old(vm.mem).Keys
    ensures !ok && !overrun ==>
              Elements(vm.free) == Elements(old(vm.free)) && Untouched(old(vm.mem), vm.mem, Elements(old(vm.free)))
    ensures ok ==> newRoot == sp1.root && Tree(vm.mem, sp1) && Tables(sp1) !! Elements(vm.free)
    ensures ok ==> ProcSpace(vm.mem, sp1, Elements(vm.free), Up(sz), tf, tr)
    ensures ok ==> Elements(vm.free) + Tables(sp1) + Ppns(vm.mem, sp1, 0, Up(sz))
                   == Elements(old(vm.free)) + Tables(sp) + Ppns(old(vm.mem), sp, 0, Up(oldsz))
    ensures ok ==> Program(vm.mem, sp1, sz, segs, argv, top, us)
    ensures ok ==> header && |argv| < MAXARG && ArgsFit(argv) && forall g | g in segs :: !Rejected(g)
    ensures !ok && !overrun ==>
              || !header || vm.dry > old(vm.dry) || |argv| > MAXARG || (|argv| == MAXARG && !Overruns(argv))
              || !ArgsFit(argv) || exists g :: g in segs && (Rejected(g) || Hollow(g))
    ensures overrun ==> !ok && header && Overruns(argv) && forall g | g in segs :: !Rejected(g)
  {
    hide Rejected, Hollow, ArgsFit, Overruns, FreeOk, Tree, Tables, Ppns, ProcSpace, Program, Untouched, ByteOf,
         Look, SameFlat, Building;
    ghost var mem0, free0 := vm.mem, Elements(vm.free);
    overrun, newRoot, sz, top, us, sp1 := false, 0, 0, 0, [], sp;
    if !header {
      UntouchedRefl(mem0, free0);
      return false, false, 0, 0, 0, [], sp1;
    }
    newRoot, sp1 := vm.ProcPagetable(tf, tr);
    if newRoot == 0 {
      return false, false, 0, 0, 0, [], sp1;
    }
    BuiltStart(mem0, free0, vm.mem, Elements(vm.free), sp1);
    ok, overrun, sz, top, us, sp1 := Build(vm, newRoot, segs, argv, sp1, mem0, free0, tf, tr);
    ghost var mem1, free1 := vm.mem, Elements(vm.free);
    ghost var pages := Ppns(mem1, sp1, 0, Up(sz));
    if overrun {
      return;
    }
    if !ok {
      vm.ProcFreepagetable(newRoot, sz, sp1, tf, tr);
      UntouchedTwice(mem0, mem1, vm.mem, free0, Tables(sp1) + pages);
      return;
    }
    OwnNotFree(mem0, sp, free0, Up(oldsz), tf, tr);
    OwnNotFree(mem1, sp1, free1, Up(sz), tf, tr);
    ghost var oldPages := Ppns(mem0, sp, 0, Up(oldsz));
    SpaceSurvives(mem0, sp, free0, Up(oldsz), mem1, free1, free0, tf, tr);
    vm.ProcFreepagetable(root, oldsz, sp, tf, tr);
    SpaceSurvives(mem1, sp1, free1, Up(sz), vm.mem, Elements(vm.free), Tables(sp) + oldPages, tf, tr);
    ProcBound(mem1, sp1, free1, Up(sz), tf, tr);
    ProgramSurvives(mem1, vm.mem, sp1, sz, segs, argv, top, us);
  }
}
