/** freerange of kernel/kalloc.c and growproc of kernel/proc.c. */
module VmGrow {
  import opened Common
  import opened VmSpec
  import opened Vm

  predicate Within(a: nat, b: nat, p: nat) { a <= p < b }

  ghost function PagesIn(a: nat, b: nat): (s: set<nat>) { set p | 0 <= p < b && Within(a, b, p) }

  /** freerange: exactly the pages that lie wholly in the range become free. */
  method Freerange(vm: Vm, start: nat, end: nat)
    requires vm.Valid() && start > 0
    requires forall p | Up(start) <= p < end / PGSIZE :: p in vm.mem && p !in Elements(vm.free)
    modifies vm
    ensures vm.Valid() && vm.mem.Keys == old(vm.mem).Keys
    ensures Elements(vm.free) == Elements(old(vm.free)) + PagesIn(Up(start), end / PGSIZE)
    ensures Untouched(old(vm.mem), vm.mem, PagesIn(Up(start), end / PGSIZE))
  {
    hide FreeOk;
    var p := Up(start);
    ghost var mem0, free0 := vm.mem, Elements(vm.free);
    while (p + 1) * PGSIZE <= end
      invariant Up(start) <= p && (p == Up(start) || p <= end / PGSIZE) && vm.Valid() && vm.mem.Keys == mem0.Keys
      invariant Elements(vm.free) == free0 + PagesIn(Up(start), p) && Untouched(mem0, vm.mem, PagesIn(Up(start), p))
      decreases end - p
    {
      assert PagesIn(Up(start), p + 1) == PagesIn(Up(start), p) + {p};
      vm.Kfree(p);
      p := p + 1;
    }
    assert PagesIn(Up(start), p) == PagesIn(Up(start), end / PGSIZE);
  }

  /** growproc: the size moves by n bytes or the call fails and user memory is as before. A
      negative n beyond the size wraps around and changes nothing. */
  method Growproc(vm: Vm, root: nat, sz: nat, n: int, ghost sp: Space) returns (ok: bool, sz1: nat, ghost sp1: Space)
    requires vm.Valid() && Tree(vm.mem, sp) && root == sp.root && Tables(sp) !! Elements(vm.free)
    requires User(vm.mem, sp, Elements(vm.free), Up(sz)) && |vm.mem.Keys| <= TRAPFRAME
    requires -0x8000_0000 <= n < 0x8000_0000
    modifies vm
    ensures vm.Valid() && Tree(vm.mem, sp1) && User(vm.mem, sp1, Elements(vm.free), Up(sz1))
    ensures !ok ==> n > 0 && vm.dry > old(vm.dry) && sz1 == sz &&
                    Alloced(old(vm.mem), Elements(old(vm.free)), sp, vm.mem, Elements(vm.free), sp1, Up(sz), [])
    ensures ok ==> sz1 == if sz + n < 0 then sz else sz + n
    ensures ok && n > 0 ==> Up(sz1) >= Up(sz)
    ensures ok && n > 0 ==> Alloced(old(vm.mem), Elements(old(vm.free)), sp, vm.mem, Elements(vm.free), sp1, Up(sz),
                                    Zeros(Flags(true, true, true, false, true), Up(sz1) - Up(sz)))
    ensures n < 0 ==>
            sp1 == sp && Shrunk(old(vm.mem), Elements(old(vm.free)), vm.mem, Elements(vm.free), sp, Up(sz1), Up(sz))
    ensures n == 0 ==> sp1 == sp && vm.mem == old(vm.mem) && vm.free == old(vm.free)
  {
    hide FreeOk, Tree, Tables, User, Alloced, Shrunk, Zeros;
    ok, sz1, sp1 := true, sz, sp;
    if n > 0 {
      var s, sp2, grew := vm.Uvmalloc(root, sz, sz + n, Flags(true, true, true, false, true), sp);
      sp1 := sp2;
      if s == 0 {
        return false, sz, sp1;
      }
      sz1 := s;
    } else if n < 0 {
      SizeBound(vm.mem, sp, Elements(vm.free), sz);
      sz1 := vm.Uvmdealloc(root, sz, (sz + n) % WRAP, sp);
    }
  }

  lemma SizeBound(mem: Mem, sp: Space, free: set<nat>, sz: nat)
    requires User(mem, sp, free, Up(sz))
    ensures sz < WRAP / 2
  {
    hide Look, AllDisposable;
  }
}
