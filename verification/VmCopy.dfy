/** copyout, copyin and copyinstr of kernel/vm.c: byte copies between the kernel and the
    user memory of an address space. */
module VmCopy {
  import opened Common
  import opened VmSpec
  import opened Vm

  /** A user page the kernel may copy to or from: PTE_V and PTE_U. */
  ghost predicate Accessible(mem: Mem, sp: Space, vpn: nat)
  {
    vpn < MAXVPN && Look(mem, sp, vpn).flags.v && Look(mem, sp, vpn).flags.u
  }

  /** The byte at a user address. */
  ghost function ByteOf(mem: Mem, sp: Space, a: nat): (x: Byte)
  {
    var p := Look(mem, sp, a / PGSIZE).ppn;
    if IsData(mem, p) then mem[p].b[a % PGSIZE] else 0
  }

  ghost function Read(mem: Mem, sp: Space, a: nat, len: nat): (s: seq<Byte>)
    ensures |s| == len
  {
    seq<Byte>(len, i requires 0 <= i => ByteOf(mem, sp, a + i))
  }

  /** Every page that a .. a+len-1 touches is accessible. */
  ghost predicate AllAccessible(mem: Mem, sp: Space, a: nat, len: nat)
  {
    forall i | a <= i < a + len :: Accessible(mem, sp, i / PGSIZE)
  }

  /** User memory of n pages in which only user pages are accessible. */
  ghost predicate Image(mem: Mem, sp: Space, free: set<nat>, n: nat)
  {
    User(mem, sp, free, n) && forall v | n <= v < MAXVPN :: !Accessible(mem, sp, v)
  }

  /** In a process's space only user memory is accessible: trapframe and trampoline lack PTE_U. */
  lemma ProcImage(mem: Mem, sp: Space, free: set<nat>, n: nat, tf: nat, tr: nat)
    requires ProcSpace(mem, sp, free, n, tf, tr)
    ensures Image(mem, sp, free, n)
  {
    hide Look;
  }

  /** The bytes at dst were replaced by src, and nothing else changed: no other byte of this
      space, no translation, no page but the user pages of this space. */
  ghost predicate Stored(mem0: Mem, mem: Mem, sp: Space, n: nat, dst: nat, src: seq<Byte>)
  {
    && mem.Keys == mem0.Keys && SameFlat(mem0, sp, mem, sp)
    && Untouched(mem0, mem, Ppns(mem0, sp, 0, n))
    && forall a: nat | a / PGSIZE < n ::
         ByteOf(mem, sp, a) == if dst <= a < dst + |src| then src[a - dst] else ByteOf(mem0, sp, a)
  }

  /** What was copied out can be copied in again. */
  lemma CopyRoundTrip(mem0: Mem, mem: Mem, sp: Space, free: set<nat>, n: nat, dst: nat, src: seq<Byte>)
    requires Image(mem0, sp, free, n) && Stored(mem0, mem, sp, n, dst, src) && AllAccessible(mem0, sp, dst, |src|)
    ensures AllAccessible(mem, sp, dst, |src|) && Read(mem, sp, dst, |src|) == src
  {
    hide Look, ByteOf, User, Untouched;
    forall i | dst <= i < dst + |src| ensures Accessible(mem, sp, i / PGSIZE) && ByteOf(mem, sp, i) == src[i - dst] {
      assert Accessible(mem0, sp, i / PGSIZE);
    }
  }

  /** Bytes outside the range stay. */
  lemma CopyElsewhere(mem0: Mem, mem: Mem, sp: Space, n: nat, dst: nat, src: seq<Byte>, a: nat, len: nat)
    requires Stored(mem0, mem, sp, n, dst, src) && a + len <= n * PGSIZE && (a + len <= dst || dst + |src| <= a)
    ensures Read(mem, sp, a, len) == Read(mem0, sp, a, len)
  {
    hide Look, ByteOf, Untouched;
    forall i | a <= i < a + len ensures ByteOf(mem, sp, i) == ByteOf(mem0, sp, i) {
      assert i / PGSIZE < n;
    }
  }

  lemma SameByte(mem0: Mem, mem: Mem, sp: Space, free: set<nat>, n: nat, s: set<nat>, a: nat)
    requires User(mem0, sp, free, n) && SameFlat(mem0, sp, mem, sp) && Untouched(mem0, mem, s)
    requires Ppns(mem0, sp, 0, n) !! s && a / PGSIZE < n
    ensures ByteOf(mem, sp, a) == ByteOf(mem0, sp, a)
  {
    hide Look, Tables;
    assert Look(mem0, sp, a / PGSIZE).ppn in Ppns(mem0, sp, 0, n);
    assert Look(mem, sp, a / PGSIZE) == Look(mem0, sp, a / PGSIZE);
  }

  /** Isolation: copying into one space changes nothing in a space whose tables and user
      pages are other pages, as after fork. */
  lemma CopyIsolated(mem0: Mem, mem: Mem, sp: Space, n: nat, dst: nat, src: seq<Byte>,
                     other: Space, free: set<nat>, m: nat)
    requires Stored(mem0, mem, sp, n, dst, src) && Tree(mem0, other) && Image(mem0, other, free, m)
    requires Apart(mem0, other, m, Ppns(mem0, sp, 0, n))
    ensures Tree(mem, other) && SameFlat(mem0, other, mem, other)
    ensures forall a, len: nat | a + len <= m * PGSIZE && a >= 0 ::
              Read(mem, other, a, len) == Read(mem0, other, a, len)
  {
    hide Links, NoSharing, Look, Tables, Ppns, ByteOf;
    TablesAre(mem0, other);
    TreeFrame(mem0, mem, other);
    forall a: nat | a / PGSIZE < m ensures ByteOf(mem, other, a) == ByteOf(mem0, other, a) {
      SameByte(mem0, mem, other, free, m, Ppns(mem0, sp, 0, n), a);
    }
    forall a, len: nat | a + len <= m * PGSIZE && a >= 0 ensures Read(mem, other, a, len) == Read(mem0, other, a, len) {
      forall i | a <= i < a + len ensures ByteOf(mem, other, i) == ByteOf(mem0, other, i) {
        assert i / PGSIZE < m;
      }
    }
  }

  lemma AccessMeans(mem: Mem, sp: Space, free: set<nat>, n: nat, vpn: nat)
    requires Image(mem, sp, free, n)
    ensures Accessible(mem, sp, vpn) <==> vpn < MAXVPN && Look(mem, sp, vpn).flags.v && Look(mem, sp, vpn).flags.u
    ensures Accessible(mem, sp, vpn) ==> vpn < n && Look(mem, sp, vpn).ppn != 0 && IsData(mem, Look(mem, sp, vpn).ppn)
  {
    hide Look;
  }

  lemma LookAt(mem: Mem, sp: Space, vpn: nat, pt: nat)
    requires Tree(mem, sp) && (pt == 0 <==> vpn / NPTE !in sp.low) && (pt != 0 ==> pt == sp.low[vpn / NPTE])
    ensures pt == 0 ==> Look(mem, sp, vpn) == Nil
    ensures pt != 0 ==> IsTable(mem, pt) && mem[pt].e[vpn % NPTE] == Look(mem, sp, vpn)
  {
  }

  // ---------------------------------------------------------------- the copies

  /** walkaddr: the physical page of an accessible user page, 0 otherwise. */
  method Walkaddr(vm: Vm, root: nat, vpn: nat, ghost sp: Space, ghost n: nat) returns (ppn: nat)
    requires vm.Valid() && Tree(vm.mem, sp) && root == sp.root && Tables(sp) !! Elements(vm.free)
    requires Image(vm.mem, sp, Elements(vm.free), n)
    modifies vm
    ensures vm.mem == old(vm.mem) && vm.free == old(vm.free) && vm.Valid() && vm.dry == old(vm.dry)
    ensures ppn != 0 <==> Accessible(vm.mem, sp, vpn)
    ensures ppn != 0 ==> vpn < n && ppn == Look(vm.mem, sp, vpn).ppn && IsData(vm.mem, ppn)
  {
    hide FreeOk, Tree, Look, Tables, Accessible, Image;
    AccessMeans(vm.mem, sp, Elements(vm.free), n, vpn);
    if vpn >= MAXVPN {
      return 0;
    }
    var pt, same := vm.Walk(root, vpn, false, sp);
    LookAt(vm.mem, sp, vpn, pt);
    if pt == 0 {
      return 0;
    }
    var pte := vm.mem[pt].e[vpn % NPTE];
    if !pte.flags.v || !pte.flags.u {
      return 0;
    }
    return pte.ppn;
  }

  /** Bytes of one page. */
  lemma PageSlice(mem: Mem, sp: Space, at: nat, k: nat, ppn: nat)
    requires ppn == Look(mem, sp, at / PGSIZE).ppn && IsData(mem, ppn) && at % PGSIZE + k <= PGSIZE
    requires Accessible(mem, sp, at / PGSIZE)
    ensures mem[ppn].b[at % PGSIZE..at % PGSIZE + k] == Read(mem, sp, at, k) && AllAccessible(mem, sp, at, k)
  {
    hide Look;
    forall i | at <= i < at + k
      ensures Accessible(mem, sp, i / PGSIZE) && ByteOf(mem, sp, i) == mem[ppn].b[at % PGSIZE + (i - at)] {
      assert i / PGSIZE == at / PGSIZE && i % PGSIZE == at % PGSIZE + (i - at);
    }
    var s, t := mem[ppn].b[at % PGSIZE..at % PGSIZE + k], Read(mem, sp, at, k);
    forall j | 0 <= j < k ensures s[j] == t[j] {
      assert ByteOf(mem, sp, at + j) == s[j];
    }
  }

  lemma ReadAppend(mem: Mem, sp: Space, a: nat, m: nat, k: nat)
    ensures Read(mem, sp, a, m + k) == Read(mem, sp, a, m) + Read(mem, sp, a + m, k)
    ensures AllAccessible(mem, sp, a, m) && AllAccessible(mem, sp, a + m, k) ==> AllAccessible(mem, sp, a, m + k)
  {
    hide ByteOf, Accessible;
  }

  /** copyin: fetch len bytes at srcva; false if a page is not accessible. */
  method Copyin(vm: Vm, root: nat, srcva: nat, len: nat, ghost sp: Space, ghost n: nat)
    returns (ok: bool, dst: seq<Byte>)
    requires vm.Valid() && Tree(vm.mem, sp) && root == sp.root && Tables(sp) !! Elements(vm.free)
    requires Image(vm.mem, sp, Elements(vm.free), n)
    modifies vm
    ensures vm.mem == old(vm.mem) && vm.free == old(vm.free) && vm.Valid() && vm.dry == old(vm.dry)
    ensures ok <==> AllAccessible(vm.mem, sp, srcva, len)
    ensures |dst| <= len && AllAccessible(vm.mem, sp, srcva, |dst|) && dst == Read(vm.mem, sp, srcva, |dst|)
    ensures if ok then |dst| == len else |dst| < len && !Accessible(vm.mem, sp, (srcva + |dst|) / PGSIZE)
  {
    hide FreeOk, Tree, Look, Tables, Accessible, Image, ByteOf;
    dst := [];
    while |dst| < len
      invariant |dst| <= len && vm.mem == old(vm.mem) && vm.free == old(vm.free) && vm.Valid() && vm.dry == old(vm.dry)
      invariant AllAccessible(vm.mem, sp, srcva, |dst|) && dst == Read(vm.mem, sp, srcva, |dst|)
    {
      var at := srcva + |dst|;
      var ppn := Walkaddr(vm, root, at / PGSIZE, sp, n);
      if ppn == 0 {
        assert !Accessible(vm.mem, sp, at / PGSIZE);
        return false, dst;
      }
      var k := Min(PGSIZE - at % PGSIZE, len - |dst|);
      PageSlice(vm.mem, sp, at, k, ppn);
      ReadAppend(vm.mem, sp, srcva, |dst|, k);
      dst := dst + vm.mem[ppn].b[at % PGSIZE..at % PGSIZE + k];
    }
    ok := true;
  }

  lemma ImageBound(mem: Mem, sp: Space, free: set<nat>, n: nat)
    requires Image(mem, sp, free, n)
    ensures n <= TRAPFRAME
  {
  }

  lemma StoredNone(mem: Mem, sp: Space, n: nat, dst: nat, src: seq<Byte>)
    ensures Stored(mem, mem, sp, n, dst, src[..0]) && AllAccessible(mem, sp, dst, 0)
  {
  }

  lemma StoredAccess(mem0: Mem, mem: Mem, sp: Space, n: nat, dst: nat, src: seq<Byte>, v: nat)
    requires Stored(mem0, mem, sp, n, dst, src)
    ensures Accessible(mem, sp, v) == Accessible(mem0, sp, v)
    ensures mem.Keys == mem0.Keys
  {
    hide Look;
  }

  lemma NotAll(mem: Mem, sp: Space, a: nat, len: nat, at: nat)
    requires a <= at < a + len && !Accessible(mem, sp, at / PGSIZE)
    ensures !AllAccessible(mem, sp, a, len)
  {
  }

  lemma MoreAccess(mem: Mem, sp: Space, a: nat, i: nat, k: nat)
    requires AllAccessible(mem, sp, a, i) && (a + i) % PGSIZE + k <= PGSIZE && Accessible(mem, sp, (a + i) / PGSIZE)
    ensures AllAccessible(mem, sp, a, i + k)
  {
    hide Accessible;
    forall x | a <= x < a + i + k ensures Accessible(mem, sp, x / PGSIZE) {
      if x >= a + i { assert x / PGSIZE == (a + i) / PGSIZE; }
    }
  }

  function Overlay(page: seq<Byte>, lo: nat, data: seq<Byte>): (r: seq<Byte>)
    requires |page| == PGSIZE && lo + |data| <= PGSIZE
    ensures |r| == PGSIZE
    ensures forall x | 0 <= x < PGSIZE :: r[x] == if lo <= x < lo + |data| then data[x - lo] else page[x]
  {
    page[..lo] + data + page[lo + |data|..]
  }

  lemma StillImage(mem: Mem, mem1: Mem, sp: Space, free: set<nat>, n: nat)
    requires Image(mem, sp, free, n) && SameFlat(mem, sp, mem1, sp) && mem1.Keys == mem.Keys
    requires forall p | p in mem && IsData(mem, p) :: IsData(mem1, p)
    ensures Image(mem1, sp, free, n)
  {
    hide Look, Tables;
    forall v: nat | v < MAXVPN ensures Accessible(mem1, sp, v) == Accessible(mem, sp, v) {
    }
  }

  lemma UserPage(mem: Mem, sp: Space, free: set<nat>, n: nat, v: nat)
    requires User(mem, sp, free, n) && v < n
    ensures var p := Look(mem, sp, v).ppn; p !in free && p !in Tables(sp) && p in Ppns(mem, sp, 0, n)
  {
    hide Look, Tables;
  }

  lemma StoreBytes(mem: Mem, mem1: Mem, sp: Space, free: set<nat>, n: nat, at: nat, data: seq<Byte>, ppn: nat)
    requires User(mem, sp, free, n) && SameFlat(mem, sp, mem1, sp) && at / PGSIZE < n
    requires ppn == Look(mem, sp, at / PGSIZE).ppn && IsData(mem, ppn) && at % PGSIZE + |data| <= PGSIZE
    requires mem1 == mem[ppn := Data(Overlay(mem[ppn].b, at % PGSIZE, data))]
    ensures forall a: nat | a / PGSIZE < n ::
              ByteOf(mem1, sp, a) == if at <= a < at + |data| then data[a - at] else ByteOf(mem, sp, a)
  {
    hide Look, Tables;
    forall a: nat | a / PGSIZE < n
      ensures ByteOf(mem1, sp, a) == if at <= a < at + |data| then data[a - at] else ByteOf(mem, sp, a)
    {
      assert Look(mem1, sp, a / PGSIZE) == Look(mem, sp, a / PGSIZE);
      if a / PGSIZE == at / PGSIZE {
        assert a - at == a % PGSIZE - at % PGSIZE;
      } else {
        assert Look(mem, sp, a / PGSIZE).ppn != ppn;
      }
    }
  }

  /** Overwriting bytes of one accessible user page. */
  lemma StorePage(mem: Mem, sp: Space, freelist: nat, free: seq<nat>, n: nat, at: nat, data: seq<Byte>, ppn: nat)
    requires FreeOk(mem, freelist, free) && Tree(mem, sp) && Image(mem, sp, Elements(free), n) && at / PGSIZE < n
    requires ppn == Look(mem, sp, at / PGSIZE).ppn && IsData(mem, ppn) && at % PGSIZE + |data| <= PGSIZE
    ensures var mem1 := mem[ppn := Data(Overlay(mem[ppn].b, at % PGSIZE, data))];
            && FreeOk(mem1, freelist, free) && Tree(mem1, sp) && Image(mem1, sp, Elements(free), n)
            && Stored(mem, mem1, sp, n, at, data)
  {
    hide FreeOk, Links, NoSharing, Look, Tables;
    var mem1 := mem[ppn := Data(Overlay(mem[ppn].b, at % PGSIZE, data))];
    UserPage(mem, sp, Elements(free), n, at / PGSIZE);
    TablesAre(mem, sp);
    TreeFrame(mem, mem1, sp);
    FreeFrame(mem, mem1, freelist, free);
    StoreBytes(mem, mem1, sp, Elements(free), n, at, data, ppn);
    StillImage(mem, mem1, sp, Elements(free), n);
  }

  lemma StoredMore(mem0: Mem, mem: Mem, mem1: Mem, sp: Space, n: nat, dst: nat, src: seq<Byte>, i: nat, k: nat)
    requires n <= TRAPFRAME
    requires i + k <= |src| && Stored(mem0, mem, sp, n, dst, src[..i])
    requires Stored(mem, mem1, sp, n, dst + i, src[i..i + k])
    ensures Stored(mem0, mem1, sp, n, dst, src[..i + k])
  {
    hide Look, ByteOf;
    assert forall v: nat | v < n :: Look(mem, sp, v) == Look(mem0, sp, v);
    assert Ppns(mem, sp, 0, n) == Ppns(mem0, sp, 0, n);
  }

  /** copyout: store src at dstva; false if a page is not accessible, with the bytes before
      that page stored. */
  method Copyout(vm: Vm, root: nat, dstva: nat, src: seq<Byte>, ghost sp: Space, ghost n: nat)
    returns (ok: bool, ghost done: nat)
    requires vm.Valid() && Tree(vm.mem, sp) && root == sp.root && Tables(sp) !! Elements(vm.free)
    requires Image(vm.mem, sp, Elements(vm.free), n)
    modifies vm
    ensures vm.Valid() && Tree(vm.mem, sp) && vm.free == old(vm.free) && Image(vm.mem, sp, Elements(vm.free), n)
    ensures vm.dry == old(vm.dry)
    ensures done <= |src| && Stored(old(vm.mem), vm.mem, sp, n, dstva, src[..done])
    ensures ok <==> AllAccessible(old(vm.mem), sp, dstva, |src|)
    ensures ok ==> done == |src|
    ensures !ok ==> done < |src| && !Accessible(old(vm.mem), sp, (dstva + done) / PGSIZE)
  {
    hide FreeOk, Tree, Look, Tables, Accessible, Image, Stored, AllAccessible;
    ghost var mem0 := vm.mem;
    StoredNone(mem0, sp, n, dstva, src);
    ImageBound(mem0, sp, Elements(vm.free), n);
    var i := 0;
    while i < |src|
      invariant 0 <= i <= |src| && vm.Valid() && Tree(vm.mem, sp) && vm.free == old(vm.free) && vm.dry == old(vm.dry)
      invariant Image(vm.mem, sp, Elements(vm.free), n)
      invariant Stored(mem0, vm.mem, sp, n, dstva, src[..i]) && AllAccessible(mem0, sp, dstva, i)
    {
      var at := dstva + i;
      var ppn := Walkaddr(vm, root, at / PGSIZE, sp, n);
      StoredAccess(mem0, vm.mem, sp, n, dstva, src[..i], at / PGSIZE);
      if ppn == 0 {
        NotAll(mem0, sp, dstva, |src|, at);
        return false, i;
      }
      var k := Min(PGSIZE - at % PGSIZE, |src| - i);
      ghost var mem1 := vm.mem;
      var page := vm.mem[ppn].b;
      vm.mem := vm.mem[ppn := Data(page[..at % PGSIZE] + src[i..i + k] + page[at % PGSIZE + k..])];
      StorePage(mem1, sp, vm.freelist, vm.free, n, at, src[i..i + k], ppn);
      StoredMore(mem0, mem1, vm.mem, sp, n, dstva, src, i, k);
      MoreAccess(mem0, sp, dstva, i, k);
      i := i + k;
    }
    assert src[..|src|] == src;
    return true, |src|;
  }

  lemma PpnsSame(mem0: Mem, sp: Space, mem: Mem, free0: set<nat>, n: nat)
    requires User(mem0, sp, free0, n) && SameFlat(mem0, sp, mem, sp)
    ensures Ppns(mem, sp, 0, n) == Ppns(mem0, sp, 0, n) && Ppns(mem0, sp, 0, n) !! free0
    ensures Ppns(mem0, sp, 0, n) !! Tables(sp)
  {
    hide Look, Tables;
    assert forall v: nat | v < n :: Look(mem, sp, v) == Look(mem0, sp, v);
  }

  lemma CopiedByte(mem0: Mem, free0: set<nat>, sp: Space, mem: Mem, child: Space, n: nat, a: nat)
    requires User(mem0, sp, free0, n) && Untouched(mem0, mem, free0) && SameFlat(mem0, sp, mem, sp)
    requires IsCopy(mem0, sp, mem, child, n) && a / PGSIZE < n
    ensures ByteOf(mem, child, a) == ByteOf(mem, sp, a) == ByteOf(mem0, sp, a)
  {
    hide Look, Tables;
    var v := a / PGSIZE;
    assert Look(mem, sp, v) == Look(mem0, sp, v);
    assert IsWanted(mem, Look(mem, child, v), CopyOf(mem0, Look(mem0, sp, v)));
  }

  // ---------------------------------------------------------------- after fork

  /** After a successful fork parent and child read the same bytes everywhere, and their
      pages are apart, so that no copy into one is seen by the other. */
  lemma ForkIsolates(mem0: Mem, free0: set<nat>, sp: Space, mem: Mem, child: Space, n: nat)
    requires Tree(mem0, sp) && Tables(sp) !! free0 && User(mem0, sp, free0, n) && Untouched(mem0, mem, free0)
    requires mem.Keys == mem0.Keys && Tables(child) + Ppns(mem, child, 0, n) <= free0
    requires IsCopy(mem0, sp, mem, child, n)
    ensures Tree(mem, sp) && SameFlat(mem0, sp, mem, sp)
    ensures Apart(mem, sp, n, Ppns(mem, child, 0, n)) && Apart(mem, child, n, Ppns(mem, sp, 0, n))
    ensures forall v: nat | v < n :: Look(mem, child, v).flags == Look(mem0, sp, v).flags
    ensures forall a, len: nat | a >= 0 && a + len <= n * PGSIZE ::
              Read(mem, child, a, len) == Read(mem, sp, a, len) == Read(mem0, sp, a, len)
  {
    hide Links, NoSharing, Look, Tables, ByteOf;
    TablesAre(mem0, sp);
    TreeFrame(mem0, mem, sp);
    PpnsSame(mem0, sp, mem, free0, n);
    forall a: nat | a / PGSIZE < n ensures ByteOf(mem, child, a) == ByteOf(mem, sp, a) == ByteOf(mem0, sp, a) {
      CopiedByte(mem0, free0, sp, mem, child, n, a);
    }
    forall a, len: nat | a >= 0 && a + len <= n * PGSIZE
      ensures Read(mem, child, a, len) == Read(mem, sp, a, len) == Read(mem0, sp, a, len) {
      forall i | a <= i < a + len ensures ByteOf(mem, child, i) == ByteOf(mem, sp, i) == ByteOf(mem0, sp, i) {
        assert i / PGSIZE < n;
      }
    }
  }

  /** The number of bytes before the first NUL. */
  method FindNul(s: seq<Byte>) returns (j: nat)
    ensures j <= |s| && 0 !in s[..j] && (j < |s| ==> s[j] == 0)
  {
    j := 0;
    while j < |s| && s[j] != 0
      invariant j <= |s| && 0 !in s[..j]
    {
      j := j + 1;
    }
  }

  // ---------------------------------------------------------------- strings

  /** copyinstr: fetch bytes up to a NUL, at most max of them with the NUL; false if there is
      none in reach. */
  method Copyinstr(vm: Vm, root: nat, srcva: nat, max: nat, ghost sp: Space, ghost n: nat)
    returns (ok: bool, dst: seq<Byte>)
    requires vm.Valid() && Tree(vm.mem, sp) && root == sp.root && Tables(sp) !! Elements(vm.free)
    requires Image(vm.mem, sp, Elements(vm.free), n)
    modifies vm
    ensures vm.mem == old(vm.mem) && vm.free == old(vm.free) && vm.Valid() && vm.dry == old(vm.dry)
    ensures dst == Read(vm.mem, sp, srcva, |dst|) && AllAccessible(vm.mem, sp, srcva, |dst|) && 0 !in dst
    ensures ok ==>
            |dst| < max && Accessible(vm.mem, sp, (srcva + |dst|) / PGSIZE) && ByteOf(vm.mem, sp, srcva + |dst|) == 0
    ensures !ok ==> |dst| == max || !Accessible(vm.mem, sp, (srcva + |dst|) / PGSIZE)
  {
    hide FreeOk, Tree, Look, Tables, Accessible, Image, ByteOf;
    dst := [];
    while |dst| < max
      invariant |dst| <= max && vm.mem == old(vm.mem) && vm.free == old(vm.free) && vm.Valid() && vm.dry == old(vm.dry)
      invariant AllAccessible(vm.mem, sp, srcva, |dst|) && dst == Read(vm.mem, sp, srcva, |dst|) && 0 !in dst
    {
      var at := srcva + |dst|;
      var ppn := Walkaddr(vm, root, at / PGSIZE, sp, n);
      if ppn == 0 {
        return false, dst;
      }
      var k := Min(PGSIZE - at % PGSIZE, max - |dst|);
      PageSlice(vm.mem, sp, at, k, ppn);
      var chunk := vm.mem[ppn].b[at % PGSIZE..at % PGSIZE + k];
      var j := FindNul(chunk);
      PageSlice(vm.mem, sp, at, j, ppn);
      ReadAppend(vm.mem, sp, srcva, |dst|, j);
      assert vm.mem[ppn].b[at % PGSIZE..at % PGSIZE + j] == chunk[..j];
      if j < k {
        assert Read(vm.mem, sp, at, k)[j] == 0;
        assert Accessible(vm.mem, sp, (at + j) / PGSIZE);
        return true, dst + chunk[..j];
      }
      dst := dst + chunk[..j];
    }
    ok := false;
  }
}
