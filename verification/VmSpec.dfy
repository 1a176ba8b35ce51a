/** The Sv39 page-table tree of kernel/vm.c and the flat map it stands for. */
module VmSpec {
  import opened Common

  const PGSIZE := 4096
  const WRAP := 0x1_0000_0000_0000_0000    // uint64 arithmetic wraps here
  const NPTE := 512
  const MAXVPN := 0x400_0000          // MAXVA / PGSIZE
  const TRAMPOLINE := MAXVPN - 1      // as virtual page numbers
  const TRAPFRAME := MAXVPN - 2

  datatype Flags = Flags(v: bool, r: bool, w: bool, x: bool, u: bool)

  /** A page table entry; ppn is the physical page number, 0 for none. */
  datatype Pte = Pte(ppn: nat, flags: Flags)

  const NoFlags := Flags(false, false, false, false, false)
  const Nil := Pte(0, NoFlags)

  /** PA2PTE(pagetable) | PTE_V */
  function Dir(p: nat): (e: Pte) { Pte(p, NoFlags.(v := true)) }

  /** An entry that maps a page rather than pointing to a table. */
  predicate Leaf(e: Pte) { e.flags.v && (e.flags.r || e.flags.w || e.flags.x) }

  /** A physical page, by use: free and linked, a page table, user or kernel data, or junk. */
  datatype Page = Run(next: nat) | Table(e: seq<Pte>) | Data(b: seq<Byte>) | Junk

  type Mem = map<nat, Page>

  /** PX(level, va) of a virtual page number. */
  function Px(level: nat, vpn: nat): (i: nat)
    requires level <= 2
    ensures i < NPTE
  {
    (if level == 0 then vpn else if level == 1 then vpn / NPTE else vpn / (NPTE * NPTE)) % NPTE
  }

  /** The three indices identify the page: walk is injective below MAXVA. */
  lemma PxInjective(v: nat, w: nat)
    requires v < MAXVPN && w < MAXVPN
    requires Px(0, v) == Px(0, w) && Px(1, v) == Px(1, w) && Px(2, v) == Px(2, w)
    ensures v == w
  {
    Indices(v);
    Indices(w);
  }

  lemma Indices(v: nat)
    requires v < MAXVPN
    ensures v == NPTE * (v / NPTE) + Px(0, v)
    ensures v / NPTE == NPTE * Px(2, v) + Px(1, v) && Px(2, v) == v / NPTE / NPTE
  {
    assert v / (NPTE * NPTE) == v / NPTE / NPTE;
  }

  // ---------------------------------------------------------------- the tree

  /** The table pages of an address space: the root, the level-1 tables by root index and
      the level-0 tables by the upper 18 bits of the page number. */
  datatype Space = Space(root: nat, mid: map<nat, nat>, low: map<nat, nat>)

  predicate IsTable(mem: Mem, p: nat) { p in mem && mem[p].Table? && |mem[p].e| == NPTE }

  function Entry(mem: Mem, p: nat, i: nat): (e: Pte)
    requires IsTable(mem, p) && i < NPTE
  {
    mem[p].e[i]
  }

  function DirOf(m: map<nat, nat>, k: nat): (e: Pte) { if k in m then Dir(m[k]) else Nil }

  function Key(i: nat, j: nat): (k: nat) { NPTE * i + j }

  /** Only the lower half of the root is used, MAXVA being half the Sv39 range. The entries
      of the two upper levels are exactly the directory entries that mid and low
      list: no leaf, nothing else. */
  ghost predicate Links(mem: Mem, sp: Space)
  {
    && IsTable(mem, sp.root)
    && (forall i | i in sp.mid :: i < NPTE / 2 && IsTable(mem, sp.mid[i]))
    && (forall k | k in sp.low :: k / NPTE in sp.mid && IsTable(mem, sp.low[k]))
    && (forall i | 0 <= i < NPTE :: Entry(mem, sp.root, i) == DirOf(sp.mid, i))
    && (forall i, j | i in sp.mid && 0 <= j < NPTE :: Entry(mem, sp.mid[i], j) == DirOf(sp.low, Key(i, j)))
  }

  /** No table page is shared. */
  ghost predicate NoSharing(sp: Space)
  {
    && sp.root != 0
    && (forall i | i in sp.mid :: sp.mid[i] != sp.root && sp.mid[i] != 0)
    && (forall k | k in sp.low :: sp.low[k] != sp.root && sp.low[k] != 0)
    && (forall i, j | i in sp.mid && j in sp.mid && i != j :: sp.mid[i] != sp.mid[j])
    && (forall i, j | i in sp.low && j in sp.low && i != j :: sp.low[i] != sp.low[j])
    && (forall i, k | i in sp.mid && k in sp.low :: sp.mid[i] != sp.low[k])
  }

  ghost predicate Tree(mem: Mem, sp: Space)
  {
    Links(mem, sp) && NoSharing(sp)
  }

  ghost function Tables(sp: Space): (s: set<nat>)
  {
    {sp.root} + sp.mid.Values + sp.low.Values
  }

  /** The flat map: the entry for a page, Nil if there is none. */
  ghost function Look(mem: Mem, sp: Space, vpn: nat): (e: Pte)
  {
    if vpn / NPTE in sp.low && IsTable(mem, sp.low[vpn / NPTE]) then Entry(mem, sp.low[vpn / NPTE], vpn % NPTE) else Nil
  }

  /** The same translations. */
  ghost predicate SameFlat(mem: Mem, sp: Space, mem1: Mem, sp1: Space)
  {
    forall v: nat | v < MAXVPN :: Look(mem1, sp1, v) == Look(mem, sp, v)
  }

  function Empty(): (p: Page) { Table(seq(NPTE, _ => Nil)) }

  function SetEntry(mem: Mem, p: nat, i: nat, e: Pte): (r: Mem)
    requires IsTable(mem, p) && i < NPTE
  {
    mem[p := Table(mem[p].e[i := e])]
  }

  /** A page that is no table of the space. */
  ghost predicate Fresh(sp: Space, p: nat)
  {
    && p != 0 && p != sp.root
    && (forall i | i in sp.mid :: sp.mid[i] != p)
    && (forall k | k in sp.low :: sp.low[k] != p)
  }

  lemma NotATable(sp: Space, p: nat)
    requires p != 0 && p !in Tables(sp)
    ensures Fresh(sp, p)
  {
  }

  lemma ValuesAdd(m: map<nat, nat>, k: nat, p: nat)
    requires k !in m
    ensures m[k := p].Values == m.Values + {p}
  {
    var m1 := m[k := p];
    assert forall x | x in m :: x in m1 && m1[x] == m[x];
    assert k in m1 && m1[k] == p;
    forall y | y in m.Values ensures y in m1.Values {
      var x :| x in m && m[x] == y;
      assert m1[x] == y;
    }
  }

  ghost function WithMid(sp: Space, i: nat, p: nat): (r: Space) { sp.(mid := sp.mid[i := p]) }

  /** A fresh level-1 table hung into the root. */
  lemma AddMid(mem: Mem, sp: Space, i: nat, p: nat)
    requires Tree(mem, sp) && i < NPTE / 2 && i !in sp.mid && p != 0 && p !in Tables(sp)
    ensures IsTable(mem[p := Empty()], sp.root)
    ensures var mem1 := SetEntry(mem[p := Empty()], sp.root, i, Dir(p));
            && Tree(mem1, WithMid(sp, i, p)) && Tables(WithMid(sp, i, p)) == Tables(sp) + {p}
            && SameFlat(mem, sp, mem1, WithMid(sp, i, p))
  {
    hide Links, NoSharing, Look;
    NotATable(sp, p);
    ValuesAdd(sp.mid, i, p);
    AddMidLinks(mem, sp, i, p);
    AddMidFlat(mem, sp, i, p);
    AddMidSharing(sp, i, p);
  }

  lemma AddMidLinks(mem: Mem, sp: Space, i: nat, p: nat)
    requires Links(mem, sp) && NoSharing(sp) && Fresh(sp, p) && i < NPTE / 2 && i !in sp.mid
    ensures IsTable(mem[p := Empty()], sp.root)
    ensures Links(SetEntry(mem[p := Empty()], sp.root, i, Dir(p)), WithMid(sp, i, p))
  {
    var mem1, sp1 := SetEntry(mem[p := Empty()], sp.root, i, Dir(p)), WithMid(sp, i, p);
    forall j | 0 <= j < NPTE ensures Entry(mem1, sp1.root, j) == DirOf(sp1.mid, j) {
      assert Entry(mem, sp.root, j) == DirOf(sp.mid, j);
    }
    forall a, j | a in sp1.mid && 0 <= j < NPTE ensures Entry(mem1, sp1.mid[a], j) == DirOf(sp1.low, Key(a, j)) {
      if a == i {
        assert Key(i, j) / NPTE == i;
      } else {
        assert Entry(mem, sp.mid[a], j) == DirOf(sp.low, Key(a, j));
      }
    }
  }

  lemma AddMidSharing(sp: Space, i: nat, p: nat)
    requires NoSharing(sp) && Fresh(sp, p) && i !in sp.mid
    ensures NoSharing(WithMid(sp, i, p))
  {
  }

  lemma AddMidFlat(mem: Mem, sp: Space, i: nat, p: nat)
    requires Links(mem, sp) && NoSharing(sp) && Fresh(sp, p) && i < NPTE
    ensures IsTable(mem[p := Empty()], sp.root)
    ensures SameFlat(mem, sp, SetEntry(mem[p := Empty()], sp.root, i, Dir(p)), WithMid(sp, i, p))
  {
  }

  ghost function WithLow(sp: Space, k: nat, p: nat): (r: Space) { sp.(low := sp.low[k := p]) }

  /** A fresh level-0 table hung into a level-1 table. */
  lemma AddLow(mem: Mem, sp: Space, k: nat, p: nat)
    requires Tree(mem, sp) && k / NPTE in sp.mid && k !in sp.low && p != 0 && p !in Tables(sp)
    ensures IsTable(mem[p := Empty()], sp.mid[k / NPTE])
    ensures var mem1 := SetEntry(mem[p := Empty()], sp.mid[k / NPTE], k % NPTE, Dir(p));
            && Tree(mem1, WithLow(sp, k, p)) && Tables(WithLow(sp, k, p)) == Tables(sp) + {p}
            && SameFlat(mem, sp, mem1, WithLow(sp, k, p))
  {
    hide Links, NoSharing, Look;
    NotATable(sp, p);
    ValuesAdd(sp.low, k, p);
    AddLowLinks(mem, sp, k, p);
    AddLowFlat(mem, sp, k, p);
    AddLowSharing(sp, k, p);
  }

  lemma KeyParts(a: nat, j: nat)
    requires j < NPTE
    ensures Key(a, j) / NPTE == a && Key(a, j) % NPTE == j
  {
  }

  lemma AddLowAt(mem: Mem, sp: Space, k: nat, p: nat, a: nat, j: nat)
    requires Links(mem, sp) && NoSharing(sp) && Fresh(sp, p) && k / NPTE in sp.mid
    requires a in sp.mid && j < NPTE
    ensures IsTable(mem[p := Empty()], sp.mid[k / NPTE])
    ensures var mem1 := SetEntry(mem[p := Empty()], sp.mid[k / NPTE], k % NPTE, Dir(p));
            && IsTable(mem1, sp.root) && Entry(mem1, sp.root, j) == DirOf(sp.mid, j)
            && IsTable(mem1, sp.mid[a]) && Entry(mem1, sp.mid[a], j) == DirOf(sp.low[k := p], Key(a, j))
  {
    KeyParts(a, j);
    assert Entry(mem, sp.root, j) == DirOf(sp.mid, j);
    assert Entry(mem, sp.mid[a], j) == DirOf(sp.low, Key(a, j));
  }

  lemma AddLowTables(mem: Mem, sp: Space, k: nat, p: nat)
    requires Links(mem, sp) && NoSharing(sp) && Fresh(sp, p) && k / NPTE in sp.mid
    ensures IsTable(mem[p := Empty()], sp.mid[k / NPTE]) && IsTable(mem[p := Empty()], p)
    ensures var mem1 := SetEntry(mem[p := Empty()], sp.mid[k / NPTE], k % NPTE, Dir(p));
            IsTable(mem1, p) && forall x | x in sp.low :: IsTable(mem1, sp.low[x])
  {
  }

  lemma AddLowLinks(mem: Mem, sp: Space, k: nat, p: nat)
    requires Links(mem, sp) && NoSharing(sp) && Fresh(sp, p) && k / NPTE in sp.mid && k !in sp.low
    ensures IsTable(mem[p := Empty()], sp.mid[k / NPTE])
    ensures Links(SetEntry(mem[p := Empty()], sp.mid[k / NPTE], k % NPTE, Dir(p)), WithLow(sp, k, p))
  {
    hide DirOf, Key, Entry, Empty, Dir, NoSharing;
    AddLowAt(mem, sp, k, p, k / NPTE, 0);
    var mem1, sp1 := SetEntry(mem[p := Empty()], sp.mid[k / NPTE], k % NPTE, Dir(p)), WithLow(sp, k, p);
    assert IsTable(mem[p := Empty()], p) && forall x | x in sp.low :: IsTable(mem1, sp.low[x]) by {
      AddLowTables(mem, sp, k, p);
    }
    forall j | 0 <= j < NPTE ensures Entry(mem1, sp1.root, j) == DirOf(sp1.mid, j) {
      AddLowAt(mem, sp, k, p, k / NPTE, j);
    }
    forall a, j | a in sp1.mid && 0 <= j < NPTE ensures Entry(mem1, sp1.mid[a], j) == DirOf(sp1.low, Key(a, j)) {
      AddLowAt(mem, sp, k, p, a, j);
    }
  }

  lemma AddLowSharing(sp: Space, k: nat, p: nat)
    requires NoSharing(sp) && Fresh(sp, p) && k !in sp.low
    ensures NoSharing(WithLow(sp, k, p))
  {
  }

  lemma AddLowFlat(mem: Mem, sp: Space, k: nat, p: nat)
    requires Links(mem, sp) && NoSharing(sp) && Fresh(sp, p) && k / NPTE in sp.mid && k !in sp.low
    ensures IsTable(mem[p := Empty()], sp.mid[k / NPTE])
    ensures SameFlat(mem, sp, SetEntry(mem[p := Empty()], sp.mid[k / NPTE], k % NPTE, Dir(p)), WithLow(sp, k, p))
  {
  }

  lemma SetLeafLinks(mem: Mem, sp: Space, k: nat, j: nat, e: Pte)
    requires Tree(mem, sp) && k in sp.low && j < NPTE
    ensures IsTable(mem, sp.low[k]) && Links(SetEntry(mem, sp.low[k], j, e), sp)
  {
    hide Key, DirOf;
    var mem1 := SetEntry(mem, sp.low[k], j, e);
    forall i | 0 <= i < NPTE ensures Entry(mem1, sp.root, i) == Entry(mem, sp.root, i) {
    }
    forall a, b | a in sp.mid && 0 <= b < NPTE ensures Entry(mem1, sp.mid[a], b) == Entry(mem, sp.mid[a], b) {
    }
  }

  /** Writing a level-0 entry changes that translation and no other. */
  lemma SetLeaf(mem: Mem, sp: Space, vpn: nat, e: Pte)
    requires Tree(mem, sp) && vpn < MAXVPN && vpn / NPTE in sp.low
    ensures IsTable(mem, sp.low[vpn / NPTE])
    ensures var mem1 := SetEntry(mem, sp.low[vpn / NPTE], vpn % NPTE, e);
            && Tree(mem1, sp)
            && forall v: nat | v < MAXVPN :: Look(mem1, sp, v) == if v == vpn then e else Look(mem, sp, v)
  {
    hide Links;
    SetLeafLinks(mem, sp, vpn / NPTE, vpn % NPTE, e);
    forall v: nat | v < MAXVPN { SetLeafAt(mem, sp, vpn, e, v); }
  }

  lemma SetLeafAt(mem: Mem, sp: Space, vpn: nat, e: Pte, v: nat)
    requires Tree(mem, sp) && vpn / NPTE in sp.low
    ensures IsTable(mem, sp.low[vpn / NPTE])
    ensures Look(SetEntry(mem, sp.low[vpn / NPTE], vpn % NPTE, e), sp, v) == if v == vpn then e else Look(mem, sp, v)
  {
    assert v == vpn <==> v / NPTE == vpn / NPTE && v % NPTE == vpn % NPTE;
  }

  /** A tree does not notice changes to pages that are not its tables. */
  lemma TreeFrame(mem: Mem, mem1: Mem, sp: Space)
    requires Tree(mem, sp)
    requires forall p | p in Tables(sp) :: p in mem1 && mem1[p] == mem[p]
    ensures Tree(mem1, sp) && SameFlat(mem, sp, mem1, sp)
  {
    assert forall i | i in sp.mid :: sp.mid[i] in Tables(sp);
    assert forall k | k in sp.low :: sp.low[k] in Tables(sp);
  }
}
