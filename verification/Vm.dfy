/** kernel/kalloc.c and the page-table operations of kernel/vm.c. */
module Vm {
  import opened Common
  import opened VmSpec
  import opened VmSubtree

  /** The i-th page of the list, 0 past its end. */
  function Nth(s: seq<nat>, i: nat): (p: nat) { if i < |s| then s[i] else 0 }

  /** The free list: kmem.freelist and the next links in the free pages spell `free`. */
  ghost predicate FreeOk(mem: Mem, freelist: nat, free: seq<nat>)
  {
    && freelist == Nth(free, 0)
    && (forall i | 0 <= i < |free| :: free[i] != 0 && free[i] in mem && mem[free[i]] == Run(Nth(free, i + 1)))
    && (forall i, j | 0 <= i < j < |free| :: free[i] != free[j])
  }

  lemma PopFree(mem: Mem, freelist: nat, free: seq<nat>, page: Page)
    requires FreeOk(mem, freelist, free) && freelist != 0
    ensures freelist in mem && mem[freelist].Run? && free != [] && free[0] == freelist
    ensures FreeOk(mem[freelist := page], mem[freelist].next, free[1..])
    ensures Elements(free) == Elements(free[1..]) + {freelist} && freelist !in Elements(free[1..])
  {
  }

  lemma PushFree(mem: Mem, freelist: nat, free: seq<nat>, p: nat)
    requires FreeOk(mem, freelist, free) && p != 0 && p in mem && p !in Elements(free)
    ensures FreeOk(mem[p := Run(freelist)], p, [p] + free) && Elements([p] + free) == Elements(free) + {p}
  {
    assert forall i | 0 <= i < |free| :: free[i] in Elements(free);
  }

  /** Pages outside the free list can change without harm to it. */
  lemma FreeFrame(mem: Mem, mem1: Mem, freelist: nat, free: seq<nat>)
    requires FreeOk(mem, freelist, free)
    requires forall p | p in Elements(free) && p in mem :: p in mem1 && mem1[p] == mem[p]
    ensures FreeOk(mem1, freelist, free)
  {
    assert forall i | 0 <= i < |free| :: free[i] in Elements(free);
  }

  /** What a new user page must be: its flags and its bytes. */
  datatype Want = Want(flags: Flags, page: Page)

  ghost function CopyOf(mem: Mem, e: Pte): (w: Want)
  {
    Want(e.flags, if e.ppn in mem then mem[e.ppn] else Junk)
  }

  ghost predicate IsWanted(mem: Mem, e: Pte, w: Want) { e.flags == w.flags && e.ppn in mem && mem[e.ppn] == w.page }

  /** The child's first n pages have the parent's flags and bytes. */
  ghost predicate IsCopy(mem0: Mem, sp: Space, mem: Mem, child: Space, n: nat)
  {
    forall v | 0 <= v < n :: IsWanted(mem, Look(mem, child, v), CopyOf(mem0, Look(mem0, sp, v)))
  }

  /** Pages outside s are as before. */
  ghost predicate Untouched(mem0: Mem, mem: Mem, s: set<nat>)
  {
    forall p | p in mem0 && p !in s :: p in mem && mem[p] == mem0[p]
  }

  lemma UntouchedRefl(mem: Mem, s: set<nat>)
    ensures Untouched(mem, mem, s)
  {
  }

  lemma InMem(mem0: Mem, mem: Mem, p: nat)
    requires mem.Keys == mem0.Keys && p in mem0
    ensures p in mem
  {
  }

  /** proc_pagetable failed: freeing the trapframe page restores the free set. */
  lemma AfterFree(mem0: Mem, free0: set<nat>, mem1: Mem, free1: set<nat>, mem: Mem, tf: nat, next: nat)
    requires free0 == free1 + {tf} && mem1 == mem0[tf := Junk] && tf in mem0
    requires mem.Keys == mem1.Keys && Untouched(mem1, mem, free1)
    ensures Untouched(mem0, mem[tf := Run(next)], free0)
  {
  }

  /** The flags and bytes of the first n user pages. */
  ghost function Copies(mem: Mem, sp: Space, n: nat): (s: seq<Want>)
    ensures |s| == n
  {
    seq(n, v requires 0 <= v => CopyOf(mem, Look(mem, sp, v)))
  }

  /** The physical pages of n entries from vpn on. */
  ghost function Ppns(mem: Mem, sp: Space, vpn: nat, n: nat): (s: set<nat>)
  {
    set v | vpn <= v < vpn + n :: Look(mem, sp, v).ppn
  }

  /** The tables and the user pages of sp lie outside s. */
  ghost predicate Apart(mem: Mem, sp: Space, n: nat, s: set<nat>)
  {
    Tables(sp) !! s && Ppns(mem, sp, 0, n) !! s
  }

  const TrampolineFlags := Flags(true, true, false, true, false)    // PTE_R | PTE_X
  const TrapframeFlags := Flags(true, true, true, false, false)     // PTE_R | PTE_W

  /** A page that can be handed to kfree: in memory, not free, not a table. */
  ghost predicate Disposable(mem: Mem, sp: Space, free: set<nat>, p: nat)
  {
    p != 0 && p in mem && p !in free && p !in Tables(sp)
  }

  /** The pages mapped by n entries from vpn on are disposable and distinct. */
  ghost predicate AllDisposable(mem: Mem, sp: Space, free: set<nat>, vpn: nat, n: nat)
  {
    && (forall v | vpn <= v < vpn + n :: Disposable(mem, sp, free, Look(mem, sp, v).ppn))
    && (forall v, w | vpn <= v < w < vpn + n :: Look(mem, sp, v).ppn != Look(mem, sp, w).ppn)
  }

  predicate IsData(mem: Mem, p: nat) { p in mem && mem[p].Data? && |mem[p].b| == PGSIZE }

  /** n pages of user memory at the bottom of the space, each a page of its own, and
      nothing mapped between them and the trapframe. */
  ghost predicate User(mem: Mem, sp: Space, free: set<nat>, n: nat)
  {
    && n <= TRAPFRAME && AllDisposable(mem, sp, free, 0, n)
    && (forall v | 0 <= v < n :: Leaf(Look(mem, sp, v)) && IsData(mem, Look(mem, sp, v).ppn))
    && (forall v | n <= v < TRAPFRAME :: Look(mem, sp, v) == Nil)
  }

  /** A process's address space: n user pages, trapframe and trampoline, nothing else. */
  ghost predicate ProcSpace(mem: Mem, sp: Space, free: set<nat>, n: nat, trapframe: nat, trampoline: nat)
  {
    && User(mem, sp, free, n)
    && Look(mem, sp, TRAMPOLINE) == Pte(trampoline, TrampolineFlags)
    && Look(mem, sp, TRAPFRAME) == Pte(trapframe, TrapframeFlags)
  }

  /** A space that was made out of the free pages free0 alone. */
  ghost predicate Building(mem0: Mem, free0: set<nat>, mem: Mem, free: set<nat>, sp: Space)
  {
    mem.Keys == mem0.Keys && Tables(sp) + free == free0 && Tables(sp) !! free && Untouched(mem0, mem, free0)
  }

  lemma TablesAre(mem: Mem, sp: Space)
    requires Tree(mem, sp)
    ensures forall p | p in Tables(sp) :: p != 0 && IsTable(mem, p)
  {
  }

  /** The child's page table was made out of free pages, so it is apart from the parent. */
  lemma ForkStart(mem0: Mem, free0: set<nat>, sp: Space, n: nat, mem1: Mem, free1: set<nat>, tf: nat,
                  mem2: Mem, free2: set<nat>, child: Space, tf0: nat, trampoline: nat)
    requires Tree(mem0, sp) && Tables(sp) !! free0 && ProcSpace(mem0, sp, free0, n, tf0, trampoline)
    requires free0 == free1 + {tf} && tf !in free1 && tf in mem0 && mem1 == mem0[tf := Junk]
    requires Building(mem1, free1, mem2, free2, child)
    ensures Tree(mem2, sp) && Tables(sp) !! free2 && User(mem2, sp, free2, n) && n <= TRAPFRAME
    ensures Apart(mem2, sp, n, Tables(child) + free2) && Copies(mem2, sp, n) == Copies(mem0, sp, n)
  {
    hide Links, NoSharing, Look, Tables;
    TablesAre(mem0, sp);
    TreeFrame(mem0, mem2, sp);
  }

  /** Pages needed for sz bytes: PGROUNDUP(sz) / PGSIZE. */
  function Up(sz: nat): (n: nat) { (sz + PGSIZE - 1) / PGSIZE }

  /** After a failed copy: with the trapframe page freed, the page table is all that is left. */
  lemma ForkUndo(mem0: Mem, free0: set<nat>, tf: nat, mem3: Mem, free3: set<nat>, mem: Mem, child: Space,
                 trampoline: nat)
    requires Tree(mem3, child) && Tables(child) !! free3 && ProcSpace(mem3, child, free3, 0, tf, trampoline)
    requires tf in mem3 && tf !in Tables(child) && mem.Keys == mem3.Keys
    requires forall p | p in mem3 && p != tf :: mem[p] == mem3[p]
    requires free0 == free3 + {tf} + Tables(child) + Ppns(mem3, child, 0, 0) && Untouched(mem0, mem3, free0)
    ensures Tree(mem, child) && Tables(child) !! free3 + {tf}
    ensures ProcSpace(mem, child, free3 + {tf}, Up(0), tf, trampoline)
    ensures Ppns(mem, child, 0, Up(0)) == {} && free0 == free3 + {tf} + Tables(child) && Untouched(mem0, mem, free0)
  {
    hide Links, NoSharing, Look, Tables;
    TablesAre(mem3, child);
    TreeFrame(mem3, mem, child);
  }

  lemma UntouchedTwice(mem0: Mem, mem1: Mem, mem2: Mem, s: set<nat>, t: set<nat>)
    requires Untouched(mem0, mem1, s) && Untouched(mem1, mem2, t) && t <= s
    ensures Untouched(mem0, mem2, s)
  {
  }

  /** User memory grew by |want| pages from n0 on, with those flags and bytes; every page
      that left the free set is a table or one of the new user pages. */
  ghost predicate Alloced(mem0: Mem, free0: set<nat>, sp0: Space, mem: Mem, free: set<nat>, sp: Space,
                          n0: nat, want: seq<Want>)
  {
    && sp.root == sp0.root && mem.Keys == mem0.Keys
    && Tables(sp) + free + Ppns(mem, sp, n0, |want|) == Tables(sp0) + free0
    && Tables(sp0) <= Tables(sp) && Tables(sp) !! free
    && (forall v: nat | v < MAXVPN && !(n0 <= v < n0 + |want|) :: Look(mem, sp, v) == Look(mem0, sp0, v))
    && (forall v | n0 <= v < n0 + |want| :: IsWanted(mem, Look(mem, sp, v), want[v - n0]))
    && Untouched(mem0, mem, Tables(sp0) + free0)
  }

  lemma ForkCopied(mem0: Mem, free0: set<nat>, sp: Space, n: nat, mem1: Mem, free1: set<nat>, tf: nat,
                   mem2: Mem, free2: set<nat>, child2: Space, mem: Mem, free: set<nat>, child: Space,
                   ok: bool, trampoline: nat)
    requires free0 == free1 + {tf} && tf !in free1 && tf in mem0 && mem1 == mem0[tf := Junk]
    requires Building(mem1, free1, mem2, free2, child2) && ProcSpace(mem2, child2, free2, 0, tf, trampoline)
    requires Copies(mem2, sp, n) == Copies(mem0, sp, n) && n <= TRAPFRAME
    requires Alloced(mem2, free2, child2, mem, free, child, 0, if ok then Copies(mem2, sp, n) else [])
    requires User(mem, child, free, if ok then n else 0)
    ensures child.root == child2.root && mem.Keys == mem0.Keys && Tables(child) !! free && tf !in free
    ensures tf !in Tables(child)
    ensures ProcSpace(mem, child, free, if ok then n else 0, tf, trampoline)
    ensures Untouched(mem0, mem, free0)
    ensures free0 == free + {tf} + Tables(child) + Ppns(mem, child, 0, if ok then n else 0)
    ensures ok ==> IsCopy(mem0, sp, mem, child, n)
  {
    hide Look, Tables, User, Ppns;
    if ok {
      forall v | 0 <= v < n ensures Copies(mem0, sp, n)[v] == CopyOf(mem0, Look(mem0, sp, v)) {
      }
    }
  }

  lemma CopiesStep(mem: Mem, sp: Space, free: set<nat>, n: nat, i: nat)
    requires i <= n && User(mem, sp, free, n)
    ensures Copies(mem, sp, 0) == []
    ensures i < n ==> Copies(mem, sp, i + 1) == Copies(mem, sp, i) + [CopyOf(mem, Look(mem, sp, i))]
    ensures i < n ==> Leaf(Look(mem, sp, i)) && Look(mem, sp, i).flags.(v := true) == Look(mem, sp, i).flags
  {
    hide Look;
  }

  /** Building the child did not disturb the parent. */
  lemma ParentIntact(mem0: Mem, free0: set<nat>, child: Space, mem: Mem, free: set<nat>, child1: Space,
                     want: seq<Want>, sp: Space, n: nat, i: nat)
    requires Tree(mem0, sp) && User(mem0, sp, free0, n) && Apart(mem0, sp, n, Tables(child) + free0) && i < n
    requires Alloced(mem0, free0, child, mem, free, child1, 0, want)
    ensures Tree(mem, sp) && SameFlat(mem0, sp, mem, sp) && Tables(sp) !! free && i < MAXVPN
    ensures Look(mem, sp, i) == Look(mem0, sp, i) && Leaf(Look(mem, sp, i)) && IsData(mem, Look(mem, sp, i).ppn)
    ensures CopyOf(mem0, Look(mem0, sp, i)) == Want(Look(mem, sp, i).flags, mem[Look(mem, sp, i).ppn])
  {
    hide Links, NoSharing, Look, Tables;
    TablesAre(mem0, sp);
    TreeFrame(mem0, mem, sp);
  }

  lemma LookIn(mem: Mem, sp: Space, vpn: nat, pt: nat)
    requires Tree(mem, sp) && Look(mem, sp, vpn).flags.v && vpn / NPTE in sp.low ==> pt == sp.low[vpn / NPTE]
    requires Tree(mem, sp) && Look(mem, sp, vpn).flags.v
    ensures vpn / NPTE in sp.low && IsTable(mem, pt) && mem[pt].e[vpn % NPTE] == Look(mem, sp, vpn)
  {
  }

  ghost predicate Unmapped(mem0: Mem, mem: Mem, sp: Space, vpn: nat, n: nat)
  {
    forall v: nat | v < MAXVPN :: Look(mem, sp, v) == if vpn <= v < vpn + n then Nil else Look(mem0, sp, v)
  }

  /** User memory shrank from n to m pages. */
  ghost predicate Shrunk(mem0: Mem, free0: set<nat>, mem: Mem, free: set<nat>, sp: Space, m: nat, n: nat)
  {
    && m <= n && mem.Keys == mem0.Keys && Tables(sp) !! free
    && Unmapped(mem0, mem, sp, m, n - m)
    && free == free0 + Ppns(mem0, sp, m, n - m)
    && Untouched(mem0, mem, Tables(sp) + Ppns(mem0, sp, m, n - m))
  }

  lemma ShrunkIs(mem0: Mem, free0: set<nat>, mem: Mem, free: set<nat>, sp: Space, n: nat)
    requires mem.Keys == mem0.Keys && Tables(sp) !! free && Unmapped(mem0, mem, sp, 0, n)
    requires free == free0 + Ppns(mem0, sp, 0, n) && Untouched(mem0, mem, Tables(sp) + Ppns(mem0, sp, 0, n))
    ensures Shrunk(mem0, free0, mem, free, sp, 0, n)
  {
  }

  /** From (mem0, free0, sp0) to (mem, free, sp) the tree may have taken free pages as new
      tables; other pages and the total stayed the same. */
  ghost predicate Kept(mem0: Mem, free0: set<nat>, sp0: Space, mem: Mem, free: set<nat>, sp: Space)
  {
    && sp.root == sp0.root && mem.Keys == mem0.Keys
    && Tables(sp) + free == Tables(sp0) + free0 && Tables(sp) !! free
    && Tables(sp0) <= Tables(sp)
    && forall p | p in mem0 && p !in Tables(sp) && p !in free0 :: mem[p] == mem0[p]
  }

  lemma BuildingKept(mem0: Mem, free0: set<nat>, mem: Mem, free: set<nat>, sp: Space,
                     mem1: Mem, free1: set<nat>, sp1: Space)
    requires Building(mem0, free0, mem, free, sp) && Kept(mem, free, sp, mem1, free1, sp1)
    ensures Building(mem0, free0, mem1, free1, sp1) && sp1.root == sp.root
  {
    hide Tables;
  }

  lemma BuildingUnmap(mem0: Mem, free0: set<nat>, mem: Mem, free: set<nat>, sp: Space, mem1: Mem)
    requires Building(mem0, free0, mem, free, sp) && mem1.Keys == mem.Keys && Untouched(mem, mem1, Tables(sp))
    ensures Building(mem0, free0, mem1, free, sp)
  {
    hide Tables;
  }

  /** No translation at all. */
  ghost predicate Nothing(mem: Mem, sp: Space)
  {
    forall v: nat | v < MAXVPN :: Look(mem, sp, v) == Nil
  }

  lemma NothingUser(mem: Mem, sp: Space, free: set<nat>)
    requires Nothing(mem, sp)
    ensures User(mem, sp, free, Up(0)) && Ppns(mem, sp, 0, Up(0)) == {}
  {
    hide Look;
  }

  lemma NothingUserBut(mem: Mem, sp: Space, free: set<nat>)
    requires forall v: nat | v < TRAPFRAME :: Look(mem, sp, v) == Nil
    ensures User(mem, sp, free, 0)
  {
    hide Look;
  }

  /** Unmapping a page above user memory without freeing it leaves user memory alone. */
  lemma UnmapUser(mem: Mem, mem1: Mem, sp: Space, free: set<nat>, n: nat, vpn: nat)
    requires User(mem, sp, free, n) && vpn >= TRAPFRAME && mem1.Keys == mem.Keys
    requires Unmapped(mem, mem1, sp, vpn, 1) && Untouched(mem, mem1, Tables(sp))
    ensures User(mem1, sp, free, n) && Ppns(mem1, sp, 0, n) == Ppns(mem, sp, 0, n)
  {
    hide Look, Tables;
  }

  lemma UserDisjoint(mem: Mem, sp: Space, free: set<nat>, n: nat)
    requires User(mem, sp, free, n)
    ensures Tables(sp) !! Ppns(mem, sp, 0, n) && free !! Ppns(mem, sp, 0, n)
  {
    hide Look, Tables;
  }

  /** The pages freed once the first n entries of a table are done. */
  ghost function Done(sp: Space, level: nat, key: nat, n: nat): (s: set<nat>)
  {
    if level == 0 then {} else ChildPages(sp, level, key, n)
  }

  lemma DoneAll(sp: Space, level: nat, key: nat)
    requires level <= 2 && Has(sp, level, key) && NoSharing(sp)
    ensures Pages(sp, level, key) == Done(sp, level, key, NPTE) + {TableAt(sp, level, key)}
    ensures TableAt(sp, level, key) !in Done(sp, level, key, NPTE)
  {
    if level > 0 { EarlierDisjoint(sp, level, key, NPTE, NPTE); }
  }

  lemma NoLeavesChild(mem: Mem, sp: Space, level: nat, key: nat, i: nat)
    requires 1 <= level <= 2 && Has(sp, level, key) && NoLeaves(mem, sp, level, key) && i < NPTE
    requires Has(sp, level - 1, Child(level, key, i))
    ensures NoLeaves(mem, sp, level - 1, Child(level, key, i))
  {
  }

  lemma ChildFacts(mem0: Mem, mem: Mem, sp: Space, level: nat, key: nat, i: nat, free0: set<nat>, p: nat)
    requires 1 <= level <= 2 && Has(sp, level, key) && p == TableAt(sp, level, key) && NoSharing(sp) && i < NPTE
    requires Has(sp, level - 1, Child(level, key, i)) && NoLeaves(mem0, sp, level, key)
    requires Pages(sp, level, key) !! free0
    requires Untouched(mem0, mem, ChildPages(sp, level, key, i) + {p})
    ensures var kids := Pages(sp, level - 1, Child(level, key, i));
            && NoLeaves(mem, sp, level - 1, Child(level, key, i))
            && kids !! free0 && kids !! ChildPages(sp, level, key, i) && p !in kids
            && ChildPages(sp, level, key, i + 1) == ChildPages(sp, level, key, i) + kids
            && p !in free0 && p !in ChildPages(sp, level, key, i + 1)
  {
    hide NoSharing, NoLeaves, Pages, ChildPages;
    PagesParts(sp, level, key, i);
    EarlierDisjoint(sp, level, key, i, i);
    EarlierDisjoint(sp, level, key, i + 1, i + 1);
    ChildIn(sp, level, key, i, NPTE);
    NoLeavesChild(mem0, sp, level, key, i);
    NoLeavesFrame(mem0, mem, sp, level - 1, Child(level, key, i));
  }

  lemma AllocedRefl(mem: Mem, free: set<nat>, sp: Space, n: nat)
    requires Tables(sp) !! free
    ensures Alloced(mem, free, sp, mem, free, sp, n, []) && SameFlat(mem, sp, mem, sp)
  {
    hide Look, Tables;
  }

  lemma AllocedBasics(mem0: Mem, free0: set<nat>, sp0: Space, mem: Mem, free: set<nat>, sp: Space,
                      n0: nat, want: seq<Want>)
    requires Alloced(mem0, free0, sp0, mem, free, sp, n0, want)
    ensures sp.root == sp0.root && mem.Keys == mem0.Keys && Tables(sp) !! free
  {
  }

  lemma PpnsStep(mem: Mem, sp: Space, vpn: nat, k: nat, n: nat)
    requires k < n
    ensures Ppns(mem, sp, vpn, 0) == {}
    ensures Ppns(mem, sp, vpn, k + 1) == Ppns(mem, sp, vpn, k) + {Look(mem, sp, vpn + k).ppn}
    ensures (forall v, w | vpn <= v < w < vpn + n :: Look(mem, sp, v).ppn != Look(mem, sp, w).ppn) ==>
              Look(mem, sp, vpn + k).ppn !in Ppns(mem, sp, vpn, k)
  {
  }

  /** n distinct user pages need n pages of memory, so a space never grows into its trapframe. */
  lemma {:induction false} PagesBound(mem: Mem, sp: Space, free: set<nat>, n: nat)
    requires AllDisposable(mem, sp, free, 0, n)
    ensures |Ppns(mem, sp, 0, n)| == n && Ppns(mem, sp, 0, n) <= mem.Keys
  {
    if n > 0 {
      PagesBound(mem, sp, free, n - 1);
      PpnsStep(mem, sp, 0, n - 1, n);
    } else {
      assert Ppns(mem, sp, 0, 0) == {};
    }
  }

  /** A page just taken and filled: the tree is as before, and there is room below the trapframe. */
  lemma Cleared(mem: Mem, sp: Space, free0: set<nat>, page: nat, mem1: Mem, data: Page, freelist: nat, free: seq<nat>,
                a: nat)
    requires Tree(mem, sp) && Tables(sp) !! free0 && User(mem, sp, free0, a) && |mem.Keys| <= TRAPFRAME
    requires page in mem && page in free0 && free0 == Elements(free) + {page} && page !in Elements(free)
    requires mem1 == mem[page := Junk][page := data] && FreeOk(mem[page := Junk], freelist, free)
    ensures FreeOk(mem1, freelist, free) && Tree(mem1, sp) && SameFlat(mem, sp, mem1, sp)
    ensures Tables(sp) !! Elements(free)
    ensures a < TRAPFRAME && Look(mem1, sp, a) == Nil && mem1 == mem[page := data]
  {
    hide FreeOk, Links, NoSharing, Look, Tables;
    FreeFrame(mem[page := Junk], mem1, freelist, free);
    TablesAre(mem, sp);
    TreeFrame(mem, mem1, sp);
    PagesBound(mem, sp, free0, a);
    assert page !in Ppns(mem, sp, 0, a);
    CardLe(Ppns(mem, sp, 0, a) + {page}, mem.Keys);
  }

  /** Pages first .. first+n-1 translate to ppn .. ppn+n-1 with perm, the rest as before. */
  ghost predicate MapsTo(mem0: Mem, sp0: Space, mem: Mem, sp: Space, first: nat, n: nat, ppn: nat, perm: Flags)
  {
    forall v: nat | v < MAXVPN ::
      Look(mem, sp, v) == if first <= v < first + n then Pte(ppn + v - first, perm.(v := true)) else Look(mem0, sp0, v)
  }

  /** One round of uvmalloc: page p, taken from the free set and cleared, was mapped at a. */
  ghost predicate OneMore(mem: Mem, free: set<nat>, sp: Space, p: nat,
                          mem3: Mem, free3: set<nat>, sp3: Space, a: nat, perm: Flags, page: Page)
  {
    && Tree(mem, sp) && Tables(sp) !! free && p in free && p in mem && a < TRAPFRAME
    && Kept(mem[p := page], free - {p}, sp, mem3, free3, sp3)
    && MapsTo(mem[p := page], sp, mem3, sp3, a, 1, p, perm)
  }

  /** What MapOne left: a mapped page, or the page unmapped and still to be freed. */
  lemma MappedOrNot(mem: Mem, free0: set<nat>, sp: Space, page: nat, data: Page,
                    mem1: Mem, free1: set<nat>, sp1: Space, a: nat, perm: Flags, mapped: bool)
    requires Tree(mem, sp) && Tables(sp) !! free0 && page in free0 && page in mem && a < TRAPFRAME
    requires Kept(mem[page := data], free0 - {page}, sp, mem1, free1, sp1)
    requires mapped ==> MapsTo(mem[page := data], sp, mem1, sp1, a, 1, page, perm)
    ensures mapped ==> OneMore(mem, free0, sp, page, mem1, free1, sp1, a, perm, data)
    ensures page in mem1 && page !in free1 && page !in Tables(sp1)
  {
    hide Look, Tables, MapsTo;
  }

  /** Freeing the page that could not be mapped undoes the round, new tables aside. */
  lemma GiveBack(mem: Mem, free0: set<nat>, sp: Space, page: nat, data: Page,
                 mem1: Mem, free1: set<nat>, sp1: Space, next: nat)
    requires Tree(mem, sp) && Tables(sp) !! free0 && page in free0 && page in mem && Tree(mem1, sp1)
    requires Kept(mem[page := data], free0 - {page}, sp, mem1, free1, sp1)
    requires SameFlat(mem[page := data], sp, mem1, sp1)
    ensures var mem2 := mem1[page := Run(next)];
            && Kept(mem, free0, sp, mem2, free1 + {page}, sp1)
            && SameFlat(mem, sp, mem2, sp1) && Tree(mem2, sp1)
  {
    hide Look, Tables, Links, NoSharing;
    TablesAre(mem, sp);
    TablesAre(mem1, sp1);
    TreeFrame(mem, mem[page := data], sp);
    TreeFrame(mem1, mem1[page := Run(next)], sp1);
  }

  /** Growing the tree keeps user memory. */
  lemma KeptUser(mem: Mem, free: set<nat>, sp: Space, mem1: Mem, free1: set<nat>, sp1: Space, n: nat)
    requires User(mem, sp, free, n) && Kept(mem, free, sp, mem1, free1, sp1) && SameFlat(mem, sp, mem1, sp1)
    ensures User(mem1, sp1, free1, n)
  {
    hide Look, Tables;
  }

  lemma KeptAlloced(mem0: Mem, free0: set<nat>, sp0: Space, mem: Mem, free: set<nat>, sp: Space,
                    mem1: Mem, free1: set<nat>, sp1: Space, n0: nat, want: seq<Want>)
    requires Alloced(mem0, free0, sp0, mem, free, sp, n0, want) && User(mem, sp, free, n0 + |want|)
    requires Kept(mem, free, sp, mem1, free1, sp1) && SameFlat(mem, sp, mem1, sp1)
    ensures Alloced(mem0, free0, sp0, mem1, free1, sp1, n0, want)
  {
    hide Look, Tables;
    assert Ppns(mem1, sp1, n0, |want|) == Ppns(mem, sp, n0, |want|);
  }

  /** After the new user pages were taken away again, only tables are gone from the free set. */
  lemma RolledBack(mem0: Mem, free0: set<nat>, sp0: Space, mem: Mem, free: set<nat>, sp: Space,
                   mem1: Mem, free1: set<nat>, n0: nat, want: seq<Want>)
    requires Alloced(mem0, free0, sp0, mem, free, sp, n0, want) && User(mem0, sp0, free0, n0)
    requires User(mem, sp, free, n0 + |want|) && Shrunk(mem, free, mem1, free1, sp, n0, n0 + |want|)
    ensures Alloced(mem0, free0, sp0, mem1, free1, sp, n0, [])
  {
    hide Look, Tables;
    assert Ppns(mem1, sp, n0, 0) == {};
  }

  lemma UpMono(x: nat, y: nat)
    requires x <= y
    ensures Up(x) <= Up(y) && Up(Up(x) * PGSIZE) == Up(x)
  {
  }

  lemma ShrunkRefl(mem: Mem, free: set<nat>, sp: Space, n: nat)
    requires Tables(sp) !! free
    ensures Shrunk(mem, free, mem, free, sp, n, n)
  {
  }

  lemma UserTail(mem: Mem, sp: Space, free: set<nat>, m: nat, n: nat)
    requires User(mem, sp, free, n) && m <= n
    ensures AllDisposable(mem, sp, free, m, n - m) && forall v | m <= v < n :: Leaf(Look(mem, sp, v))
  {
    hide Look, Tables;
  }

  lemma ShrunkUser(mem0: Mem, free0: set<nat>, mem: Mem, free: set<nat>, sp: Space, m: nat, n: nat)
    requires User(mem0, sp, free0, n) && Shrunk(mem0, free0, mem, free, sp, m, n)
    ensures User(mem, sp, free, m)
  {
    hide Look, Tables;
    assert forall v | 0 <= v < m :: Look(mem0, sp, v).ppn !in Ppns(mem0, sp, m, n - m);
  }

  /** Writing a level-0 entry keeps the free list and everything outside the tables. */
  lemma WriteLeaf(mem: Mem, sp: Space, vpn: nat, e: Pte, freelist: nat, free: seq<nat>,
                  mem0: Mem, free0: set<nat>, sp0: Space)
    requires Tree(mem, sp) && vpn / NPTE in sp.low && FreeOk(mem, freelist, free)
    requires Kept(mem0, free0, sp0, mem, Elements(free), sp)
    ensures IsTable(mem, sp.low[vpn / NPTE])
    ensures var mem1 := SetEntry(mem, sp.low[vpn / NPTE], vpn % NPTE, e);
            FreeOk(mem1, freelist, free) && Kept(mem0, free0, sp0, mem1, Elements(free), sp)
  {
    hide FreeOk, Links;
    TablesAre(mem, sp);
    assert sp.low[vpn / NPTE] in Tables(sp);
    FreeFrame(mem, SetEntry(mem, sp.low[vpn / NPTE], vpn % NPTE, e), freelist, free);
  }

  /** Where walk stands at a level: the table whose entry Px(level, vpn) is next. */
  ghost predicate At(sp: Space, vpn: nat, level: nat, t: nat)
  {
    if level == 2 then t == sp.root
    else if level == 1 then vpn / NPTE / NPTE in sp.mid && t == sp.mid[vpn / NPTE / NPTE]
    else vpn / NPTE in sp.low && t == sp.low[vpn / NPTE]
  }

  /** The space with a new table q below level. */
  ghost function Below(sp: Space, vpn: nat, level: nat, q: nat): (r: Space)
  {
    if level == 2 then WithMid(sp, vpn / NPTE / NPTE, q) else WithLow(sp, vpn / NPTE, q)
  }

  /** What walk reads at a level, and where it goes if the entry is valid. */
  lemma AtTable(mem: Mem, sp: Space, vpn: nat, level: nat, t: nat)
    requires Tree(mem, sp) && level <= 2 && vpn < MAXVPN && At(sp, vpn, level, t)
    ensures t in Tables(sp) && t != 0 && IsTable(mem, t)
    ensures level > 0 && mem[t].e[Px(level, vpn)].flags.v ==> At(sp, vpn, level - 1, mem[t].e[Px(level, vpn)].ppn)
    ensures level > 0 && !mem[t].e[Px(level, vpn)].flags.v ==> vpn / NPTE !in sp.low
    ensures level == 2 && !mem[t].e[Px(level, vpn)].flags.v ==> vpn / NPTE / NPTE !in sp.mid
  {
    Indices(vpn);
    var i2 := vpn / NPTE / NPTE;
    if level == 2 {
      assert Entry(mem, t, Px(2, vpn)) == DirOf(sp.mid, i2);
    } else if level == 1 {
      assert Entry(mem, t, Px(1, vpn)) == DirOf(sp.low, Key(i2, Px(1, vpn)));
    }
  }

  /** A new table hung below level. */
  lemma Hung(mem: Mem, sp: Space, vpn: nat, level: nat, t: nat, q: nat)
    requires Tree(mem, sp) && 1 <= level <= 2 && vpn < MAXVPN && At(sp, vpn, level, t)
    requires IsTable(mem, t) && !mem[t].e[Px(level, vpn)].flags.v && q != 0 && q !in Tables(sp)
    ensures IsTable(mem[q := Empty()], t)
    ensures var mem1, sp1 := SetEntry(mem[q := Empty()], t, Px(level, vpn), Dir(q)), Below(sp, vpn, level, q);
            && Tree(mem1, sp1) && SameFlat(mem, sp, mem1, sp1)
            && Tables(sp1) == Tables(sp) + {q} && At(sp1, vpn, level - 1, q) && t in Tables(sp)
  {
    hide Links, NoSharing, Look, Tables;
    Indices(vpn);
    AtTable(mem, sp, vpn, level, t);
    if level == 2 {
      AddMid(mem, sp, vpn / NPTE / NPTE, q);
    } else {
      AddLow(mem, sp, vpn / NPTE, q);
    }
  }

  lemma EmptyFree(mem: Mem, freelist: nat, free: seq<nat>)
    requires FreeOk(mem, freelist, free)
    ensures freelist == 0 <==> free == []
  {
  }

  /** And no translation changed. */
  ghost predicate Grew(mem0: Mem, free0: set<nat>, sp0: Space, mem: Mem, free: set<nat>, sp: Space)
  {
    Kept(mem0, free0, sp0, mem, free, sp) && SameFlat(mem0, sp0, mem, sp)
  }

  lemma KeptRefl(mem: Mem, free: set<nat>, sp: Space)
    requires Tables(sp) !! free
    ensures Kept(mem, free, sp, mem, free, sp)
  {
  }

  lemma KeptDisjoint(mem0: Mem, free0: set<nat>, sp0: Space, mem: Mem, free: set<nat>, sp: Space)
    requires Kept(mem0, free0, sp0, mem, free, sp)
    ensures Tables(sp) !! free && sp.root == sp0.root
  {
  }

  lemma KeptTrans(mem0: Mem, free0: set<nat>, sp0: Space, mem: Mem, free: set<nat>, sp: Space,
                  mem1: Mem, free1: set<nat>, sp1: Space)
    requires Kept(mem0, free0, sp0, mem, free, sp) && Kept(mem, free, sp, mem1, free1, sp1)
    ensures Kept(mem0, free0, sp0, mem1, free1, sp1)
  {
    hide Tables;
  }

  lemma GrewRefl(mem: Mem, free: set<nat>, sp: Space)
    requires Tables(sp) !! free
    ensures Grew(mem, free, sp, mem, free, sp)
  {
  }

  lemma GrewDisjoint(mem0: Mem, free0: set<nat>, sp0: Space, mem: Mem, free: set<nat>, sp: Space)
    requires Grew(mem0, free0, sp0, mem, free, sp)
    ensures Tables(sp) !! free && sp.root == sp0.root && Kept(mem0, free0, sp0, mem, free, sp)
  {
  }

  lemma GrewStep(mem0: Mem, free0: set<nat>, sp0: Space, mem: Mem, free: set<nat>, sp: Space,
                 mem1: Mem, free1: set<nat>, sp1: Space, q: nat, t: nat)
    requires Grew(mem0, free0, sp0, mem, free, sp) && SameFlat(mem, sp, mem1, sp1)
    requires sp1.root == sp.root && q in mem && t in Tables(sp) && t in mem
    requires Tables(sp1) == Tables(sp) + {q} && free == free1 + {q} && q !in free1
    requires mem1.Keys == mem.Keys && forall p | p in mem && p != q && p != t :: mem1[p] == mem[p]
    ensures Grew(mem0, free0, sp0, mem1, free1, sp1)
  {
    hide Look, Tables;
  }

  function Zeroed(): (p: Page) { Data(seq(PGSIZE, _ => 0)) }

  ghost function Zeros(perm: Flags, k: nat): (s: seq<Want>) { seq(k, _ => Want(perm.(v := true), Zeroed())) }

  lemma OneMoreLook(mem: Mem, free: set<nat>, sp: Space, p: nat,
                    mem3: Mem, free3: set<nat>, sp3: Space, a: nat, perm: Flags, page: Page)
    requires OneMore(mem, free, sp, p, mem3, free3, sp3, a, perm, page)
    ensures forall v: nat | v < MAXVPN ::
              Look(mem3, sp3, v) == if v == a then Pte(p, perm.(v := true)) else Look(mem, sp, v)
    ensures Tables(sp3) <= Tables(sp) + (free - {p}) && p !in Tables(sp3) && p !in free3 && free3 <= free - {p}
    ensures mem3.Keys == mem.Keys && mem3[p] == page
    ensures forall q | q in mem && q !in Tables(sp) && q !in free :: mem3[q] == mem[q]
  {
    hide Links, NoSharing, Look;
    TablesAre(mem, sp);
    TreeFrame(mem, mem[p := page], sp);
  }

  lemma OneMoreUser(mem: Mem, free: set<nat>, sp: Space, p: nat,
                    mem3: Mem, free3: set<nat>, sp3: Space, a: nat, perm: Flags, page: Page)
    requires OneMore(mem, free, sp, p, mem3, free3, sp3, a, perm, page) && User(mem, sp, free, a)
    requires perm.r || perm.w || perm.x
    requires page.Data? && |page.b| == PGSIZE && p != 0
    ensures User(mem3, sp3, free3, a + 1)
  {
    hide Tree, Look, Tables, Kept, MapsTo;
    OneMoreLook(mem, free, sp, p, mem3, free3, sp3, a, perm, page);
  }

  lemma OneMorePpns(mem: Mem, free: set<nat>, sp: Space, p: nat,
                    mem3: Mem, free3: set<nat>, sp3: Space, n0: nat, k: nat, perm: Flags, page: Page)
    requires OneMore(mem, free, sp, p, mem3, free3, sp3, n0 + k, perm, page)
    ensures Ppns(mem3, sp3, n0, k + 1) == Ppns(mem, sp, n0, k) + {p}
  {
    hide Tree, Look, Tables, Kept, MapsTo;
    OneMoreLook(mem, free, sp, p, mem3, free3, sp3, n0 + k, perm, page);
    PpnsStep(mem3, sp3, n0, k, k + 1);
    assert Ppns(mem3, sp3, n0, k) == Ppns(mem, sp, n0, k) by {
      assert forall v: nat | n0 <= v < n0 + k :: Look(mem3, sp3, v) == Look(mem, sp, v);
    }
  }

  lemma AllocPageWanted(mem: Mem, free: set<nat>, sp: Space, p: nat,
                        mem3: Mem, free3: set<nat>, sp3: Space, n0: nat, want: seq<Want>, perm: Flags, page: Page)
    requires OneMore(mem, free, sp, p, mem3, free3, sp3, n0 + |want|, perm, page) && User(mem, sp, free, n0 + |want|)
    requires forall v | n0 <= v < n0 + |want| :: IsWanted(mem, Look(mem, sp, v), want[v - n0])
    ensures var want1 := want + [Want(perm.(v := true), page)];
            forall v | n0 <= v < n0 + |want1| :: IsWanted(mem3, Look(mem3, sp3, v), want1[v - n0])
  {
    hide Tree, Look, Tables, Kept, MapsTo;
    OneMoreLook(mem, free, sp, p, mem3, free3, sp3, n0 + |want|, perm, page);
  }

  lemma AllocPage(mem0: Mem, free0: set<nat>, sp0: Space, mem: Mem, free: set<nat>, sp: Space, p: nat,
                  mem3: Mem, free3: set<nat>, sp3: Space, n0: nat, want: seq<Want>, perm: Flags, page: Page)
    requires Alloced(mem0, free0, sp0, mem, free, sp, n0, want) && User(mem, sp, free, n0 + |want|)
    requires OneMore(mem, free, sp, p, mem3, free3, sp3, n0 + |want|, perm, page)
    ensures Alloced(mem0, free0, sp0, mem3, free3, sp3, n0, want + [Want(perm.(v := true), page)])
  {
    hide Tree, Look, Tables, MapsTo, User, Ppns, IsWanted;
    OneMoreLook(mem, free, sp, p, mem3, free3, sp3, n0 + |want|, perm, page);
    OneMorePpns(mem, free, sp, p, mem3, free3, sp3, n0, |want|, perm, page);
    AllocPageWanted(mem, free, sp, p, mem3, free3, sp3, n0, want, perm, page);
  }

  // ---------------------------------------------------------------- the page allocator and the page tables

  class Vm {
    var mem: Mem
    var freelist: nat
    ghost var free: seq<nat>
    ghost var dry: nat               // how often kalloc found no page

    ghost predicate Valid()
      reads this
    {
      FreeOk(mem, freelist, free)
    }

    /** kalloc: take the first free page, or 0. */
    method Kalloc() returns (p: nat)
      requires Valid()
      modifies this
      ensures dry == old(dry) + if p == 0 then 1 else 0
      ensures Valid()
      ensures p == 0 ==> mem == old(mem) && free == old(free) == []
      ensures p != 0 ==>
              p in old(mem) && mem == old(mem)[p := Junk] && p !in Elements(free)
              && Elements(old(free)) == Elements(free) + {p}
    {
      hide FreeOk;
      if freelist == 0 {
        EmptyFree(mem, freelist, free);
        dry := dry + 1;
        return 0;
      }
      p := freelist;
      PopFree(mem, freelist, free, Junk);
      freelist := mem[p].next;
      mem := mem[p := Junk];
      free := free[1..];
    }

    /** kfree: put a page in front of the free list. */
    method Kfree(p: nat)
      requires Valid() && p != 0 && p in mem && p !in Elements(free)
      modifies this
      ensures dry == old(dry)
      ensures Valid() && mem == old(mem)[p := Run(old(freelist))] && Elements(free) == Elements(old(free)) + {p}
    {
      hide FreeOk;
      PushFree(mem, freelist, free, p);
      mem := mem[p := Run(freelist)];
      freelist := p;
      free := [p] + free;
    }

    /** Take a free page, clear it, and make entry i of table t point to it; 0 if out of memory. */
    method NewTable(t: nat, i: nat, ghost sp: Space) returns (q: nat)
      requires Valid() && Tree(mem, sp) && t in Tables(sp) && i < NPTE && Tables(sp) !! Elements(free)
      modifies this
      ensures dry == old(dry) + if q == 0 then 1 else 0
      ensures Valid()
      ensures q == 0 ==> mem == old(mem) && free == old(free) == []
      ensures q != 0 ==>
        && q in old(mem) && q !in Tables(sp) && q !in Elements(free) && Elements(old(free)) == Elements(free) + {q}
        && IsTable(old(mem)[q := Empty()], t) && mem == SetEntry(old(mem)[q := Empty()], t, i, Dir(q))
    {
      hide FreeOk, Links, NoSharing;
      TablesAre(mem, sp);
      q := Kalloc();
      if q != 0 {
        assert mem[q := Empty()] == old(mem)[q := Empty()];
        ghost var was := mem;
        mem := mem[q := Empty()];
        mem := mem[t := Table(mem[t].e[i := Dir(q)])];
        FreeFrame(was, mem, freelist, free);
      }
    }

    /** walk: the level-0 table that holds the entry for a page (the entry is at vpn % NPTE),
        or 0. With alloc, missing tables are created. `vpn < MAXVPN` is the complement of
        panic("walk"). */
    method Walk(root: nat, vpn: nat, alloc: bool, ghost sp: Space) returns (pt: nat, ghost sp1: Space)
      requires Valid() && Tree(mem, sp) && root == sp.root && vpn < MAXVPN && Tables(sp) !! Elements(free)
      modifies this
      ensures dry >= old(dry) && (pt == 0 && alloc ==> dry > old(dry)) && (!alloc ==> dry == old(dry))
      ensures Valid() && Tree(mem, sp1) && Grew(old(mem), Elements(old(free)), sp, mem, Elements(free), sp1)
      ensures pt != 0 ==> vpn / NPTE in sp1.low && pt == sp1.low[vpn / NPTE]
      ensures pt == 0 ==> vpn / NPTE !in sp1.low && (alloc ==> free == [])
      ensures !alloc || vpn / NPTE in sp.low ==> sp1 == sp && mem == old(mem) && free == old(free)
    {
      hide FreeOk, Links, NoSharing, Look, Tables, Grew;
      sp1 := sp;
      GrewRefl(mem, Elements(free), sp);
      var t := root;
      var level := 2;
      while level > 0
        invariant 0 <= level <= 2 && Valid() && Tree(mem, sp1) && dry == old(dry)
        invariant Grew(old(mem), Elements(old(free)), sp, mem, Elements(free), sp1)
        invariant At(sp1, vpn, level, t)
        invariant !alloc || vpn / NPTE in sp.low ==> sp1 == sp && mem == old(mem) && free == old(free)
        invariant vpn / NPTE in sp.low ==> vpn / NPTE in sp1.low
      {
        AtTable(mem, sp1, vpn, level, t);
        GrewDisjoint(old(mem), Elements(old(free)), sp, mem, Elements(free), sp1);
        var pte := mem[t].e[Px(level, vpn)];
        if pte.flags.v {
          t := pte.ppn;
        } else {
          if !alloc {
            return 0, sp1;
          }
          ghost var mem1, free1 := mem, Elements(free);
          var q := NewTable(t, Px(level, vpn), sp1);
          if q == 0 {
            return 0, sp1;
          }
          ghost var sp2 := Below(sp1, vpn, level, q);
          Hung(mem1, sp1, vpn, level, t, q);
          GrewStep(old(mem), Elements(old(free)), sp, mem1, free1, sp1, mem, Elements(free), sp2, q, t);
          sp1 := sp2;
          t := q;
        }
        level := level - 1;
      }
      pt := t;
      AtTable(mem, sp1, vpn, 0, t);
    }

    /** One page of mappages: make vpn translate to ppn; false if a table cannot be allocated. */
    method MapOne(root: nat, vpn: nat, ppn: nat, perm: Flags, ghost sp: Space) returns (ok: bool, ghost sp1: Space)
      requires Valid() && Tree(mem, sp) && root == sp.root && vpn < MAXVPN && Tables(sp) !! Elements(free)
      requires !Look(mem, sp, vpn).flags.v
      modifies this
      ensures dry >= old(dry) && (!ok ==> dry > old(dry))
      ensures Valid() && Tree(mem, sp1) && Kept(old(mem), Elements(old(free)), sp, mem, Elements(free), sp1)
      ensures ok ==> MapsTo(old(mem), sp, mem, sp1, vpn, 1, ppn, perm)
      ensures !ok ==> SameFlat(old(mem), sp, mem, sp1) && free == []
    {
      hide FreeOk, Links, NoSharing, Look, Tables, Kept;
      var pt: nat;
      pt, sp1 := Walk(root, vpn, true, sp);
      if pt == 0 {
        return false, sp1;
      }
      WriteLeaf(mem, sp1, vpn, Pte(ppn, perm.(v := true)), freelist, free, old(mem), Elements(old(free)), sp);
      SetLeaf(mem, sp1, vpn, Pte(ppn, perm.(v := true)));
      mem := mem[pt := Table(mem[pt].e[vpn % NPTE := Pte(ppn, perm.(v := true))])];
      return true, sp1;
    }

    /** mappages: entries for all pages that va .. va+size-1 touches, in order; stops with
        false when a table cannot be allocated, `done` pages in. The requires exclude the
        panics "mappages: size", "walk" and "mappages: remap". */
    method Mappages(root: nat, va: nat, size: nat, pa: nat, perm: Flags, ghost sp: Space)
      returns (ok: bool, ghost sp1: Space, ghost done: nat)
      requires Valid() && Tree(mem, sp) && root == sp.root && Tables(sp) !! Elements(free)
      requires size > 0 && (va + size - 1) / PGSIZE < MAXVPN
      requires forall v | va / PGSIZE <= v <= (va + size - 1) / PGSIZE :: !Look(mem, sp, v).flags.v
      modifies this
      ensures dry >= old(dry) && (!ok ==> dry > old(dry))
      ensures Valid() && Tree(mem, sp1) && Kept(old(mem), Elements(old(free)), sp, mem, Elements(free), sp1)
      ensures MapsTo(old(mem), sp, mem, sp1, va / PGSIZE, done, pa / PGSIZE, perm)
      ensures ok ==> done == (va + size - 1) / PGSIZE - va / PGSIZE + 1
      ensures !ok ==> done <= (va + size - 1) / PGSIZE - va / PGSIZE && free == []
    {
      hide FreeOk, Links, NoSharing, Look, Tables, Kept;
      var a, last, ppn := va / PGSIZE, (va + size - 1) / PGSIZE, pa / PGSIZE;
      ghost var first := a;
      sp1, done, ok := sp, 0, true;
      KeptRefl(mem, Elements(free), sp);
      while true
        invariant Valid() && Tree(mem, sp1) && Kept(old(mem), Elements(old(free)), sp, mem, Elements(free), sp1)
        invariant a == first + done <= last && ppn == pa / PGSIZE + done && dry >= old(dry)
        invariant MapsTo(old(mem), sp, mem, sp1, first, done, pa / PGSIZE, perm)
        decreases last - a
      {
        ghost var mem1, free1, sp2 := mem, Elements(free), sp1;
        KeptDisjoint(old(mem), Elements(old(free)), sp, mem, Elements(free), sp1);
        ok, sp1 := MapOne(root, a, ppn, perm, sp1);
        KeptTrans(old(mem), Elements(old(free)), sp, mem1, free1, sp2, mem, Elements(free), sp1);
        if !ok {
          return;
        }
        done := done + 1;
        if a == last {
          return;
        }
        a, ppn := a + 1, ppn + 1;
      }
    }

    /** One page of uvmunmap. The requires exclude its panics. */
    method UnmapOne(root: nat, vpn: nat, doFree: bool, ghost sp: Space)
      requires Valid() && Tree(mem, sp) && root == sp.root && vpn < MAXVPN && Tables(sp) !! Elements(free)
      requires Leaf(Look(mem, sp, vpn))
      requires doFree ==> Disposable(mem, sp, Elements(free), Look(mem, sp, vpn).ppn)
      modifies this
      ensures dry == old(dry)
      ensures Valid() && Tree(mem, sp) && mem.Keys == old(mem).Keys
      ensures forall v: nat | v < MAXVPN :: Look(mem, sp, v) == if v == vpn then Nil else Look(old(mem), sp, v)
      ensures Elements(free) == Elements(old(free)) + if doFree then {Look(old(mem), sp, vpn).ppn} else {}
      ensures forall p | p in old(mem) && p !in Tables(sp) && !(doFree && p == Look(old(mem), sp, vpn).ppn) ::
                mem[p] == old(mem)[p]
    {
      hide FreeOk, Links, NoSharing;
      var pt, sp1 := Walk(root, vpn, false, sp);
      SetLeaf(mem, sp, vpn, Nil);
      assert pt in Tables(sp);
      var pte := mem[pt].e[vpn % NPTE];
      if doFree {
        ghost var was := mem;
        TablesAre(mem, sp);
        Kfree(pte.ppn);
        TreeFrame(was, mem, sp);
        SetLeaf(mem, sp, vpn, Nil);
      }
      FreeFrame(mem, mem[pt := Table(mem[pt].e[vpn % NPTE := Nil])], freelist, free);
      mem := mem[pt := Table(mem[pt].e[vpn % NPTE := Nil])];
    }

    /** uvmunmap: remove n mappings from vpn on, freeing the pages if asked. */
    method Uvmunmap(root: nat, vpn: nat, n: nat, doFree: bool, ghost sp: Space)
      requires Valid() && Tree(mem, sp) && root == sp.root && vpn + n <= MAXVPN && Tables(sp) !! Elements(free)
      requires forall v | vpn <= v < vpn + n :: Leaf(Look(mem, sp, v))
      requires doFree ==> AllDisposable(mem, sp, Elements(free), vpn, n)
      modifies this
      ensures dry == old(dry)
      ensures Valid() && Tree(mem, sp) && mem.Keys == old(mem).Keys && Tables(sp) !! Elements(free)
      ensures Unmapped(old(mem), mem, sp, vpn, n)
      ensures Elements(free) == Elements(old(free)) + if doFree then Ppns(old(mem), sp, vpn, n) else {}
      ensures Untouched(old(mem), mem, Tables(sp) + if doFree then Ppns(old(mem), sp, vpn, n) else {})
    {
      hide FreeOk, Links, NoSharing, Tables;
      var k := 0;
      while k < n
        invariant 0 <= k <= n && Valid() && Tree(mem, sp) && mem.Keys == old(mem).Keys && Tables(sp) !! Elements(free)
        invariant dry == old(dry)
        invariant Unmapped(old(mem), mem, sp, vpn, k)
        invariant Elements(free) == Elements(old(free)) + if doFree then Ppns(old(mem), sp, vpn, k) else {}
        invariant Untouched(old(mem), mem, Tables(sp) + if doFree then Ppns(old(mem), sp, vpn, k) else {})
      {
        PpnsStep(old(mem), sp, vpn, k, n);
        UnmapOne(root, vpn + k, doFree, sp);
        k := k + 1;
      }
    }

    /** uvmdealloc: shrink user memory from oldsz to newsz bytes, freeing the pages no longer needed. */
    method Uvmdealloc(root: nat, oldsz: nat, newsz: nat, ghost sp: Space) returns (sz: nat)
      requires Valid() && Tree(mem, sp) && root == sp.root && Tables(sp) !! Elements(free)
      requires User(mem, sp, Elements(free), Up(oldsz))
      modifies this
      ensures dry == old(dry)
      ensures Valid() && Tree(mem, sp) && sz == (if newsz < oldsz then newsz else oldsz)
      ensures User(mem, sp, Elements(free), Up(sz))
      ensures Shrunk(old(mem), Elements(old(free)), mem, Elements(free), sp, Up(sz), Up(oldsz))
    {
      hide FreeOk, Tree, Look, Tables, Ppns, AllDisposable;
      if newsz >= oldsz {
        ShrunkRefl(mem, Elements(free), sp, Up(oldsz));
        return oldsz;
      }
      UpMono(newsz, oldsz);
      if Up(newsz) < Up(oldsz) {
        UserTail(mem, sp, Elements(free), Up(newsz), Up(oldsz));
        Uvmunmap(root, Up(newsz), Up(oldsz) - Up(newsz), true, sp);
        ShrunkUser(old(mem), Elements(old(free)), mem, Elements(free), sp, Up(newsz), Up(oldsz));
      } else {
        ShrunkRefl(mem, Elements(free), sp, Up(oldsz));
      }
      return newsz;
    }

    /** uvmalloc: grow user memory from oldsz to newsz bytes. Returns the new size, or 0 when
        memory runs out, with the mapping and every user page as before the call; only table
        pages still reachable from the root are kept. */
    method Uvmalloc(root: nat, oldsz: nat, newsz: nat, perm: Flags, ghost sp: Space)
      returns (sz: nat, ghost sp1: Space, ghost ok: bool)
      requires Valid() && Tree(mem, sp) && root == sp.root && Tables(sp) !! Elements(free)
      requires User(mem, sp, Elements(free), Up(oldsz)) && |mem.Keys| <= TRAPFRAME && perm.r
      modifies this
      ensures dry >= old(dry) && (!ok ==> dry > old(dry))
      ensures Valid() && Tree(mem, sp1) && (!ok ==> sz == 0)
      ensures ok ==> sz == (if newsz < oldsz then oldsz else newsz) && Up(sz) >= Up(oldsz)
      ensures ok ==> User(mem, sp1, Elements(free), Up(sz)) &&
                     Alloced(old(mem), Elements(old(free)), sp, mem, Elements(free), sp1, Up(oldsz),
                             Zeros(perm, Up(sz) - Up(oldsz)))
      ensures !ok ==> User(mem, sp1, Elements(free), Up(oldsz)) &&
                      Alloced(old(mem), Elements(old(free)), sp, mem, Elements(free), sp1, Up(oldsz), [])
    {
      hide FreeOk, Tree, Look, Tables, Ppns, AllDisposable, User, Alloced, Zeroed, OneMore, Shrunk;
      sp1, ok := sp, true;
      AllocedRefl(mem, Elements(free), sp, Up(oldsz));
      assert Zeros(perm, 0) == [];
      if newsz < oldsz {
        return oldsz, sp1, true;
      }
      UpMono(oldsz, newsz);
      var a := Up(oldsz);
      while a < Up(newsz)
        invariant Up(oldsz) <= a <= Up(newsz) && Valid() && Tree(mem, sp1) && mem.Keys == old(mem).Keys
        invariant dry >= old(dry)
        invariant User(mem, sp1, Elements(free), a)
        invariant Alloced(old(mem), Elements(old(free)), sp, mem, Elements(free), sp1, Up(oldsz),
                          Zeros(perm, a - Up(oldsz)))
      {
        ghost var mem1, free1, sp2, want := mem, Elements(free), sp1, Zeros(perm, a - Up(oldsz));
        AllocedBasics(old(mem), Elements(old(free)), sp, mem, Elements(free), sp1, Up(oldsz), want);
        var page, mapped;
        page, mapped, sp1 := AllocOne(root, a, perm, Zeroed(), sp1);
        if !mapped {
          KeptAlloced(old(mem), Elements(old(free)), sp, mem1, free1, sp2, mem, Elements(free), sp1, Up(oldsz), want);
          AllocedBasics(old(mem), Elements(old(free)), sp, mem, Elements(free), sp1, Up(oldsz), want);
          ghost var mem2, free2 := mem, Elements(free);
          var s := Uvmdealloc(root, a * PGSIZE, Up(oldsz) * PGSIZE, sp1);
          RolledBack(old(mem), Elements(old(free)), sp, mem2, free2, sp1, mem, Elements(free), Up(oldsz), want);
          return 0, sp1, false;
        }
        AllocPage(old(mem), Elements(old(free)), sp, mem1, free1, sp2, page, mem, Elements(free), sp1, Up(oldsz),
                  want, perm, Zeroed());
        assert want + [Want(perm.(v := true), Zeroed())] == Zeros(perm, a + 1 - Up(oldsz));
        a := a + 1;
        AllocedBasics(old(mem), Elements(old(free)), sp, mem, Elements(free), sp1, Up(oldsz),
                      Zeros(perm, a - Up(oldsz)));
      }
      return newsz, sp1, true;
    }

    /** One round of uvmalloc or uvmcopy: a fresh page with the given bytes mapped at a; or,
        when memory runs out, nothing but new tables. */
    method AllocOne(root: nat, a: nat, perm: Flags, data: Page, ghost sp: Space)
      returns (page: nat, mapped: bool, ghost sp1: Space)
      requires Valid() && Tree(mem, sp) && root == sp.root && Tables(sp) !! Elements(free)
      requires User(mem, sp, Elements(free), a) && |mem.Keys| <= TRAPFRAME
      requires (perm.r || perm.w || perm.x) && data.Data? && |data.b| == PGSIZE
      modifies this
      ensures dry >= old(dry) && (!mapped ==> dry > old(dry))
      ensures Valid() && Tree(mem, sp1) && (mapped ==> page != 0)
      ensures mapped ==> OneMore(old(mem), Elements(old(free)), sp, page, mem, Elements(free), sp1, a, perm, data)
      ensures mapped ==> User(mem, sp1, Elements(free), a + 1)
      ensures !mapped ==>
              Kept(old(mem), Elements(old(free)), sp, mem, Elements(free), sp1) && SameFlat(old(mem), sp, mem, sp1)
      ensures !mapped ==> User(mem, sp1, Elements(free), a)
    {
      hide FreeOk, Tree, Look, Tables, Ppns, AllDisposable, User, OneMore, Kept, MapsTo, SameFlat;
      sp1, mapped := sp, false;
      page := Kalloc();
      if page == 0 {
        KeptRefl(mem, Elements(free), sp);
        AllocedRefl(mem, Elements(free), sp, a);
        return;
      }
      mem := mem[page := data];
      Cleared(old(mem), sp, Elements(old(free)), page, mem, data, freelist, free, a);
      assert Elements(old(free)) - {page} == Elements(free);
      mapped, sp1 := MapOne(root, a, page, perm, sp);
      MappedOrNot(old(mem), Elements(old(free)), sp, page, data, mem, Elements(free), sp1, a, perm, mapped);
      if mapped {
        OneMoreUser(old(mem), Elements(old(free)), sp, page, mem, Elements(free), sp1, a, perm, data);
      } else {
        GiveBack(old(mem), Elements(old(free)), sp, page, data, mem, Elements(free), sp1, freelist);
        Kfree(page);
        KeptUser(old(mem), Elements(old(free)), sp, mem, Elements(free), sp1, a);
      }
    }

    /** freewalk: give back every page of a subtree that maps nothing; "freewalk: leaf" is
        unreachable. The level is not passed in the source; it bounds the recursion. */
    method Freewalk(p: nat, ghost sp: Space, ghost level: nat, ghost key: nat)
      requires Valid() && level <= 2 && Has(sp, level, key) && p == TableAt(sp, level, key) && NoSharing(sp)
      requires NoLeaves(mem, sp, level, key) && Pages(sp, level, key) !! Elements(free)
      modifies this
      ensures dry == old(dry)
      ensures Valid() && mem.Keys == old(mem).Keys && Elements(free) == Elements(old(free)) + Pages(sp, level, key)
      ensures Untouched(old(mem), mem, Pages(sp, level, key))
      decreases level
    {
      hide FreeOk, NoSharing, NoLeaves, Pages, ChildPages;
      ValidMeansChild(mem, sp, level, key, 0);
      if level > 0 { PagesParts(sp, level, key, 0); }
      var i := 0;
      while i < NPTE
        invariant 0 <= i <= NPTE && Valid() && mem.Keys == old(mem).Keys && IsTable(mem, p) && dry == old(dry)
        invariant forall j | i <= j < NPTE :: Entry(mem, p, j) == Entry(old(mem), p, j)
        invariant Elements(free) == Elements(old(free)) + Done(sp, level, key, i)
        invariant Untouched(old(mem), mem, Done(sp, level, key, i) + {p})
      {
        var pte := mem[p].e[i];
        assert Entry(mem, p, i) == Entry(old(mem), p, i);
        ValidMeansChild(old(mem), sp, level, key, i);
        if level > 0 { PagesParts(sp, level, key, i); }
        if pte.flags.v && !pte.flags.r && !pte.flags.w && !pte.flags.x {
          FreeChild(p, i, sp, level, key, old(mem), Elements(old(free)));
        } else if pte.flags.v {
          assert false;
        }
        i := i + 1;
      }
      DoneAll(sp, level, key);
      Kfree(p);
    }

    /** freewalk(child); pagetable[i] = 0; */
    method FreeChild(p: nat, i: nat, ghost sp: Space, ghost level: nat, ghost key: nat, ghost mem0: Mem,
                     ghost free0: set<nat>)
      requires Valid() && 1 <= level <= 2 && Has(sp, level, key) && p == TableAt(sp, level, key) && NoSharing(sp)
      requires NoLeaves(mem0, sp, level, key) && Pages(sp, level, key) !! free0 && i < NPTE
      requires IsTable(mem, p) && mem.Keys == mem0.Keys && Entry(mem, p, i) == Entry(mem0, p, i)
      requires Entry(mem, p, i).flags.v
      requires Elements(free) == free0 + ChildPages(sp, level, key, i)
      requires Untouched(mem0, mem, ChildPages(sp, level, key, i) + {p})
      modifies this
      ensures dry == old(dry)
      ensures Valid() && mem.Keys == mem0.Keys && IsTable(mem, p)
      ensures forall j | 0 <= j < NPTE && j != i :: Entry(mem, p, j) == Entry(old(mem), p, j)
      ensures Elements(free) == free0 + ChildPages(sp, level, key, i + 1)
      ensures Untouched(mem0, mem, ChildPages(sp, level, key, i + 1) + {p})
      decreases level, 0
    {
      hide FreeOk, NoSharing, NoLeaves, Pages, ChildPages;
      ghost var c := Child(level, key, i);
      ValidMeansChild(mem0, sp, level, key, i);
      ChildFacts(mem0, mem, sp, level, key, i, free0, p);
      var child := mem[p].e[i].ppn;
      Freewalk(child, sp, level - 1, c);
      ghost var was := mem;
      mem := mem[p := Table(mem[p].e[i := Nil])];
      FreeFrame(was, mem, freelist, free);
    }

    /** uvmcreate: an empty page table, or 0. */
    method Uvmcreate() returns (root: nat, ghost sp: Space)
      requires Valid()
      modifies this
      ensures dry == old(dry) + if root == 0 then 1 else 0
      ensures Valid()
      ensures root == 0 ==> mem == old(mem) && free == old(free)
      ensures root != 0 ==> root == sp.root && Tree(mem, sp) && Tables(sp) == {root} && Nothing(mem, sp)
      ensures root != 0 ==> root in old(mem) && mem == old(mem)[root := Empty()]
      ensures root != 0 ==> root !in Elements(free) && Elements(old(free)) == Elements(free) + {root}
    {
      hide FreeOk;
      root := Kalloc();
      sp := Space(root, map[], map[]);
      if root != 0 {
        ghost var was := mem;
        mem := mem[root := Empty()];
        FreeFrame(was, mem, freelist, free);
        assert mem == old(mem)[root := Empty()];
      }
    }

    /** uvmfree: free user memory, then the page table. Every user page and every table page
        goes back to the free list exactly once. */
    method Uvmfree(root: nat, sz: nat, ghost sp: Space)
      requires Valid() && Tree(mem, sp) && root == sp.root && Tables(sp) !! Elements(free)
      requires User(mem, sp, Elements(free), Up(sz)) && Look(mem, sp, TRAPFRAME) == Look(mem, sp, TRAMPOLINE) == Nil
      modifies this
      ensures dry == old(dry)
      ensures Valid() && mem.Keys == old(mem).Keys
      ensures Tables(sp) !! Ppns(old(mem), sp, 0, Up(sz)) && Elements(old(free)) !! Ppns(old(mem), sp, 0, Up(sz))
      ensures Elements(free) == Elements(old(free)) + Tables(sp) + Ppns(old(mem), sp, 0, Up(sz))
      ensures Untouched(old(mem), mem, Tables(sp) + Ppns(old(mem), sp, 0, Up(sz)))
    {
      hide FreeOk, Links, NoSharing, Look, Tables, AllDisposable, NoLeaves, Pages, ChildPages;
      UserTail(mem, sp, Elements(free), 0, Up(sz));
      UserDisjoint(mem, sp, Elements(free), Up(sz));
      if sz > 0 {
        Uvmunmap(root, 0, Up(sz), true, sp);
      } else {
        PpnsStep(mem, sp, 0, 0, 1);
      }
      EmptyTree(mem, sp);
      PagesOfRoot(mem, sp);
      Freewalk(root, sp, 2, 0);
    }

    /** proc_pagetable: a page table with no user memory but with trampoline and trapframe
        mapped; 0 if out of memory, with the free set as before. */
    method ProcPagetable(trapframe: nat, trampoline: nat) returns (root: nat, ghost sp: Space)
      requires Valid()
      modifies this
      ensures dry >= old(dry) && (root == 0 ==> dry > old(dry))
      ensures Valid()
      ensures root == 0 ==>
              mem.Keys == old(mem).Keys && Elements(free) == Elements(old(free))
              && Untouched(old(mem), mem, Elements(old(free)))
      ensures root != 0 ==>
              root == sp.root && Tree(mem, sp) && ProcSpace(mem, sp, Elements(free), 0, trapframe, trampoline)
      ensures root != 0 ==> Building(old(mem), Elements(old(free)), mem, Elements(free), sp)
    {
      hide FreeOk, Links, NoSharing, Look, Tables, AllDisposable, Kept, User;
      root, sp := Uvmcreate();
      if root == 0 {
        return;
      }
      var ok;
      ghost var mem1, free1, sp1 := mem, Elements(free), sp;
      ok, sp := MapOne(root, TRAMPOLINE, trampoline, TrampolineFlags, sp);
      BuildingKept(old(mem), Elements(old(free)), mem1, free1, sp1, mem, Elements(free), sp);
      if !ok {
        NothingUser(mem, sp, Elements(free));
        Uvmfree(root, 0, sp);
        PpnsStep(mem1, sp1, 0, 0, 1);
        return 0, sp;
      }
      ghost var mem2, free2, sp2 := mem, Elements(free), sp;
      ok, sp := MapOne(root, TRAPFRAME, trapframe, TrapframeFlags, sp);
      BuildingKept(old(mem), Elements(old(free)), mem2, free2, sp2, mem, Elements(free), sp);
      if !ok {
        ghost var mem3 := mem;
        Uvmunmap(root, TRAMPOLINE, 1, false, sp);
        BuildingUnmap(old(mem), Elements(old(free)), mem3, Elements(free), sp, mem);
        NothingUser(mem, sp, Elements(free));
        Uvmfree(root, 0, sp);
        return 0, sp;
      }
      NothingUserBut(mem, sp, Elements(free));
    }

    /** proc_freepagetable: unmap trampoline and trapframe without freeing them, then free
        user memory and the page table. */
    method ProcFreepagetable(root: nat, sz: nat, ghost sp: Space, ghost trapframe: nat, ghost trampoline: nat)
      requires Valid() && Tree(mem, sp) && root == sp.root && Tables(sp) !! Elements(free)
      requires ProcSpace(mem, sp, Elements(free), Up(sz), trapframe, trampoline)
      modifies this
      ensures dry == old(dry)
      ensures Valid() && mem.Keys == old(mem).Keys
      ensures Elements(free) == Elements(old(free)) + Tables(sp) + Ppns(old(mem), sp, 0, Up(sz))
      ensures Tables(sp) !! Ppns(old(mem), sp, 0, Up(sz)) && Elements(old(free)) !! Ppns(old(mem), sp, 0, Up(sz))
      ensures Untouched(old(mem), mem, Tables(sp) + Ppns(old(mem), sp, 0, Up(sz)))
    {
      hide FreeOk, Links, NoSharing, Look, Tables, AllDisposable, User;
      ghost var mem0 := mem;
      Uvmunmap(root, TRAMPOLINE, 1, false, sp);
      assert Elements(free) == Elements(old(free));
      UnmapUser(mem0, mem, sp, Elements(free), Up(sz), TRAMPOLINE);
      ghost var mem1 := mem;
      Uvmunmap(root, TRAPFRAME, 1, false, sp);
      assert Elements(free) == Elements(old(free));
      UnmapUser(mem1, mem, sp, Elements(free), Up(sz), TRAPFRAME);
      Uvmfree(root, sz, sp);
    }

    /** uvmcopy: copy a parent's user memory, page by page, into the empty user memory of a
        child. On failure the child's user memory is empty again. The parent is only read. */
    method Uvmcopy(oldRoot: nat, newRoot: nat, sz: nat, ghost sp: Space, ghost child: Space)
      returns (ok: bool, ghost child1: Space)
      requires Valid() && Tree(mem, sp) && oldRoot == sp.root && Tree(mem, child) && newRoot == child.root
      requires Tables(sp) !! Elements(free) && Tables(child) !! Elements(free)
      requires User(mem, sp, Elements(free), Up(sz)) && User(mem, child, Elements(free), 0) && |mem.Keys| <= TRAPFRAME
      requires Apart(mem, sp, Up(sz), Tables(child) + Elements(free))
      modifies this
      ensures dry >= old(dry) && (!ok ==> dry > old(dry))
      ensures Valid() && Tree(mem, child1)
      ensures ok ==> User(mem, child1, Elements(free), Up(sz))
      ensures !ok ==> User(mem, child1, Elements(free), 0)
      ensures Alloced(old(mem), Elements(old(free)), child, mem, Elements(free), child1, 0,
                      if ok then Copies(old(mem), sp, Up(sz)) else [])
    {
      hide FreeOk, Tree, Look, Tables, Ppns, AllDisposable, User, Alloced, OneMore, Copies, Apart;
      child1 := child;
      ghost var mem0, free0 := mem, Elements(free);
      AllocedRefl(mem, Elements(free), child, 0);
      CopiesStep(mem0, sp, free0, Up(sz), 0);
      var i := 0;
      while i < Up(sz)
        invariant 0 <= i <= Up(sz) && Valid() && Tree(mem, child1) && mem.Keys == mem0.Keys && dry >= old(dry)
        invariant User(mem, child1, Elements(free), i)
        invariant Alloced(mem0, free0, child, mem, Elements(free), child1, 0, Copies(mem0, sp, i))
      {
        ghost var mem1, free1, child2, want := mem, Elements(free), child1, Copies(mem0, sp, i);
        CopiesStep(mem0, sp, free0, Up(sz), i);
        AllocedBasics(mem0, free0, child, mem, Elements(free), child1, 0, want);
        ParentIntact(mem0, free0, child, mem, Elements(free), child1, want, sp, Up(sz), i);
        var pt, same := Walk(oldRoot, i, false, sp);
        LookIn(mem, sp, i, pt);
        var pte := mem[pt].e[i % NPTE];
        var page, mapped;
        page, mapped, child1 := AllocOne(newRoot, i, pte.flags, mem[pte.ppn], child1);
        if !mapped {
          KeptAlloced(mem0, free0, child, mem1, free1, child2, mem, Elements(free), child1, 0, want);
          AllocedBasics(mem0, free0, child, mem, Elements(free), child1, 0, want);
          UserTail(mem, child1, Elements(free), 0, i);
          ghost var mem2, free2 := mem, Elements(free);
          Uvmunmap(newRoot, 0, i, true, child1);
          ShrunkIs(mem2, free2, mem, Elements(free), child1, i);
          ShrunkUser(mem2, free2, mem, Elements(free), child1, 0, i);
          RolledBack(mem0, free0, child, mem2, free2, child1, mem, Elements(free), 0, want);
          return false, child1;
        }
        AllocPage(mem0, free0, child, mem1, free1, child2, page, mem, Elements(free), child1, 0, want, pte.flags,
                  mem1[pte.ppn]);
        i := i + 1;
        AllocedBasics(mem0, free0, child, mem, Elements(free), child1, 0, Copies(mem0, sp, i));
      }
      return true, child1;
    }

    /** The memory side of fork: a trapframe page, a page table and a copy of user memory for
        the child. A failed fork leaves the free set as it was. */
    method Fork(root: nat, sz: nat, trampoline: nat, ghost sp: Space, ghost tf: nat)
      returns (ok: bool, childRoot: nat, childTf: nat, ghost child: Space)
      requires Valid() && Tree(mem, sp) && root == sp.root && Tables(sp) !! Elements(free)
      requires ProcSpace(mem, sp, Elements(free), Up(sz), tf, trampoline) && |mem.Keys| <= TRAPFRAME
      modifies this
      ensures dry >= old(dry) && (!ok ==> dry > old(dry))
      ensures Valid() && mem.Keys == old(mem).Keys && Untouched(old(mem), mem, Elements(old(free)))
      ensures !ok ==> Elements(free) == Elements(old(free))
      ensures ok ==> childRoot == child.root && Tree(mem, child) && childTf !in Elements(free)
      ensures ok ==> ProcSpace(mem, child, Elements(free), Up(sz), childTf, trampoline)
      ensures ok ==> Elements(old(free)) == Elements(free) + {childTf} + Tables(child) + Ppns(mem, child, 0, Up(sz))
      ensures ok ==> IsCopy(old(mem), sp, mem, child, Up(sz))
    {
      hide FreeOk, Tree, Look, Tables, Ppns, AllDisposable, User, Alloced, Copies, Apart, Untouched;
      ghost var mem0, free0 := mem, Elements(free);
      child, childRoot := sp, 0;
      childTf := Kalloc();
      if childTf == 0 {
        UntouchedRefl(mem0, free0);
        return false, 0, 0, child;
      }
      ghost var mem1, free1 := mem, Elements(free);
      childRoot, child := ProcPagetable(childTf, trampoline);
      if childRoot == 0 {
        AfterFree(mem0, free0, mem1, free1, mem, childTf, freelist);
        InMem(mem1, mem, childTf);
        Kfree(childTf);
        return false, 0, 0, child;
      }
      ghost var mem2, free2, child2 := mem, Elements(free), child;
      ForkStart(mem0, free0, sp, Up(sz), mem1, free1, childTf, mem2, free2, child2, tf, trampoline);
      ok, child := Uvmcopy(root, childRoot, sz, sp, child);
      ForkCopied(mem0, free0, sp, Up(sz), mem1, free1, childTf, mem2, free2, child2, mem, Elements(free), child, ok,
                 trampoline);
      if !ok {
        ghost var mem3, free3 := mem, Elements(free);
        Kfree(childTf);
        ForkUndo(mem0, free0, childTf, mem3, free3, mem, child, trampoline);
        ghost var mem4 := mem;
        ProcFreepagetable(childRoot, 0, child, childTf, trampoline);
        UntouchedTwice(mem0, mem4, mem, free0, Tables(child) + Ppns(mem4, child, 0, Up(0)));
      }
    }
  }
}
