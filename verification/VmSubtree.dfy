/** Subtrees of a page-table tree, level by level, as freewalk of kernel/vm.c takes them down. */
module VmSubtree {
  import opened VmSpec

  /** Is there a table at this level under this key? The key of a level-1 table is its root
      index, the key of a level-0 table the upper 18 bits of its page numbers. */
  ghost predicate Has(sp: Space, level: nat, key: nat)
  {
    if level == 0 then key in sp.low else if level == 1 then key in sp.mid else true
  }

  ghost function TableAt(sp: Space, level: nat, key: nat): (p: nat)
    requires Has(sp, level, key)
  {
    if level == 0 then sp.low[key] else if level == 1 then sp.mid[key] else sp.root
  }

  function Child(level: nat, key: nat, i: nat): (k: nat) { if level == 2 then i else Key(key, i) }

  /** All table pages of a subtree. */
  ghost function Pages(sp: Space, level: nat, key: nat): (s: set<nat>)
    requires Has(sp, level, key)
    decreases level, NPTE + 1
  {
    {TableAt(sp, level, key)} + if level == 0 then {} else ChildPages(sp, level, key, NPTE)
  }

  /** The pages under the first n entries of a table. */
  ghost function ChildPages(sp: Space, level: nat, key: nat, n: nat): (s: set<nat>)
    requires level > 0
    decreases level, n
  {
    if n == 0 then {} else
    ChildPages(sp, level, key, n - 1) +
    if Has(sp, level - 1, Child(level, key, n - 1)) then Pages(sp, level - 1, Child(level, key, n - 1)) else {}
  }

  /** A subtree whose directory entries are as in sp and which maps no page. */
  ghost predicate NoLeaves(mem: Mem, sp: Space, level: nat, key: nat)
    requires level <= 2 && Has(sp, level, key)
    decreases level
  {
    var p := TableAt(sp, level, key);
    && p != 0 && IsTable(mem, p)
    && if level == 0 then forall i | 0 <= i < NPTE :: Entry(mem, p, i) == Nil
       else forall i | 0 <= i < NPTE ::
         if Has(sp, level - 1, Child(level, key, i)) then
           && Entry(mem, p, i) == Dir(TableAt(sp, level - 1, Child(level, key, i)))
           && NoLeaves(mem, sp, level - 1, Child(level, key, i))
         else Entry(mem, p, i) == Nil
  }

  // ---------------------------------------------------------------- which pages these are

  lemma Pages0(sp: Space, key: nat)
    requires Has(sp, 0, key)
    ensures Pages(sp, 0, key) == {sp.low[key]}
  {
  }

  lemma {:induction false} ChildPages1(sp: Space, key: nat, n: nat, q: nat)
    requires n <= NPTE
    ensures q in ChildPages(sp, 1, key, n) <==> exists j: nat ::
              j < n && Key(key, j) in sp.low && sp.low[Key(key, j)] == q
  {
    if n > 0 {
      ChildPages1(sp, key, n - 1, q);
      if Has(sp, 0, Key(key, n - 1)) { Pages0(sp, Key(key, n - 1)); }
    }
  }

  lemma Pages1(sp: Space, key: nat, q: nat)
    requires Has(sp, 1, key)
    ensures q in Pages(sp, 1, key) <==>
              q == sp.mid[key] || exists k: nat :: k in sp.low && k / NPTE == key && sp.low[k] == q
  {
    ChildPages1(sp, key, NPTE, q);
    if k: nat :| k in sp.low && k / NPTE == key && sp.low[k] == q {
      assert k == Key(key, k % NPTE);
    }
    if j: nat :| j < NPTE && Key(key, j) in sp.low && sp.low[Key(key, j)] == q {
      KeyParts(key, j);
    }
  }

  lemma {:induction false} ChildPages2(sp: Space, key: nat, n: nat, q: nat)
    requires n <= NPTE
    ensures q in ChildPages(sp, 2, key, n) <==> exists i: nat :: i < n && i in sp.mid && q in Pages(sp, 1, i)
  {
    if n > 0 {
      ChildPages2(sp, key, n - 1, q);
    }
  }

  /** The whole tree is the subtree of the root. */
  lemma PagesOfRoot(mem: Mem, sp: Space)
    requires Tree(mem, sp)
    ensures Pages(sp, 2, 0) == Tables(sp)
  {
    hide Tree;
    forall q ensures q in Pages(sp, 2, 0) <==> q in Tables(sp) {
      if q in Pages(sp, 2, 0) { DownInTables(sp, q); }
      if q in Tables(sp) { TableInPages(mem, sp, q); }
    }
  }

  lemma DownInTables(sp: Space, q: nat)
    requires q in Pages(sp, 2, 0)
    ensures q in Tables(sp)
  {
    ChildPages2(sp, 0, NPTE, q);
    if q != sp.root {
      var i: nat :| i < NPTE && i in sp.mid && q in Pages(sp, 1, i);
      Pages1(sp, i, q);
    }
  }

  lemma TableInPages(mem: Mem, sp: Space, q: nat)
    requires Tree(mem, sp) && q in Tables(sp)
    ensures q in Pages(sp, 2, 0)
  {
    ChildPages2(sp, 0, NPTE, q);
    if q in sp.mid.Values {
      var i: nat :| i in sp.mid && sp.mid[i] == q;
      Pages1(sp, i, q);
    } else if q in sp.low.Values {
      var k: nat :| k in sp.low && sp.low[k] == q;
      Pages1(sp, k / NPTE, q);
    }
  }

  /** Sibling subtrees share no page, and a table is not in a subtree below it. */
  lemma PagesDisjoint(sp: Space, level: nat, key: nat, i: nat, j: nat)
    requires NoSharing(sp) && 1 <= level <= 2 && Has(sp, level, key) && i < NPTE && j < NPTE && i != j
    requires Has(sp, level - 1, Child(level, key, i))
    ensures TableAt(sp, level, key) !in Pages(sp, level - 1, Child(level, key, i))
    ensures Has(sp, level - 1, Child(level, key, j)) ==>
              Pages(sp, level - 1, Child(level, key, i)) !! Pages(sp, level - 1, Child(level, key, j))
  {
    if level == 1 {
      Pages0(sp, Key(key, i));
      KeyParts(key, i);
      KeyParts(key, j);
      if Key(key, j) in sp.low { Pages0(sp, Key(key, j)); }
    } else {
      Pages1(sp, i, sp.root);
      if j in sp.mid {
        forall q ensures !(q in Pages(sp, 1, i) && q in Pages(sp, 1, j)) {
          Pages1(sp, i, q);
          Pages1(sp, j, q);
        }
      }
    }
  }

  /** A subtree does not notice changes outside its pages. */
  lemma {:induction false} NoLeavesFrame(mem: Mem, mem1: Mem, sp: Space, level: nat, key: nat)
    requires level <= 2 && Has(sp, level, key) && NoLeaves(mem, sp, level, key)
    requires forall p | p in Pages(sp, level, key) && p in mem :: p in mem1 && mem1[p] == mem[p]
    ensures NoLeaves(mem1, sp, level, key)
    decreases level
  {
    var p := TableAt(sp, level, key);
    assert p in Pages(sp, level, key);
    forall i | 0 <= i < NPTE ensures Entry(mem1, p, i) == Entry(mem, p, i) {
    }
    if level > 0 {
      forall i | 0 <= i < NPTE && Has(sp, level - 1, Child(level, key, i))
        ensures NoLeaves(mem1, sp, level - 1, Child(level, key, i))
      {
        ChildIn(sp, level, key, i, NPTE);
        NoLeavesFrame(mem, mem1, sp, level - 1, Child(level, key, i));
      }
    }
  }

  lemma {:induction false} ChildIn(sp: Space, level: nat, key: nat, i: nat, n: nat)
    requires level > 0 && i < n <= NPTE && Has(sp, level - 1, Child(level, key, i))
    ensures Pages(sp, level - 1, Child(level, key, i)) <= ChildPages(sp, level, key, n)
  {
    if i < n - 1 {
      ChildIn(sp, level, key, i, n - 1);
    }
  }

  /** A tree without translations is a tree without leaves. */
  lemma EmptyTree(mem: Mem, sp: Space)
    requires Tree(mem, sp) && forall v: nat | v < MAXVPN :: Look(mem, sp, v) == Nil
    ensures NoLeaves(mem, sp, 2, 0)
  {
    forall i | i in sp.mid ensures NoLeaves(mem, sp, 1, i) {
      forall j | 0 <= j < NPTE && Key(i, j) in sp.low ensures NoLeaves(mem, sp, 0, Key(i, j)) {
        EmptyLow(mem, sp, Key(i, j));
      }
      forall j | 0 <= j < NPTE ensures Entry(mem, sp.mid[i], j) == DirOf(sp.low, Key(i, j)) {
      }
    }
    forall i | 0 <= i < NPTE ensures Entry(mem, sp.root, i) == DirOf(sp.mid, i) {
    }
  }

  lemma EmptyLow(mem: Mem, sp: Space, k: nat)
    requires Tree(mem, sp) && k in sp.low && forall v: nat | v < MAXVPN :: Look(mem, sp, v) == Nil
    ensures NoLeaves(mem, sp, 0, k)
  {
    forall j | 0 <= j < NPTE ensures Entry(mem, sp.low[k], j) == Nil {
      KeyParts(k, j);
      assert Key(k, j) < MAXVPN;
      assert Look(mem, sp, Key(k, j)) == Entry(mem, sp.low[k], j);
    }
  }

  /** The pages under the first n entries contain neither the table itself nor anything
      under a later entry. */
  lemma {:induction false} EarlierDisjoint(sp: Space, level: nat, key: nat, n: nat, i: nat)
    requires NoSharing(sp) && 1 <= level <= 2 && Has(sp, level, key) && n <= i <= NPTE
    ensures TableAt(sp, level, key) !in ChildPages(sp, level, key, n)
    ensures i < NPTE && Has(sp, level - 1, Child(level, key, i)) ==>
              Pages(sp, level - 1, Child(level, key, i)) !! ChildPages(sp, level, key, n)
  {
    if n > 0 {
      EarlierDisjoint(sp, level, key, n - 1, i);
      if Has(sp, level - 1, Child(level, key, n - 1)) {
        PagesDisjoint(sp, level, key, n - 1, if i < NPTE then i else if n == 1 then 1 else 0);
      }
    }
  }

  lemma PagesParts(sp: Space, level: nat, key: nat, i: nat)
    requires 1 <= level && Has(sp, level, key) && i < NPTE
    ensures Pages(sp, level, key) == {TableAt(sp, level, key)} + ChildPages(sp, level, key, NPTE)
    ensures ChildPages(sp, level, key, 0) == {}
    ensures ChildPages(sp, level, key, i + 1) == ChildPages(sp, level, key, i) +
              if Has(sp, level - 1, Child(level, key, i)) then Pages(sp, level - 1, Child(level, key, i)) else {}
  {
  }

  /** A valid entry of a subtree without leaves leads to a table. */
  lemma ValidMeansChild(mem: Mem, sp: Space, level: nat, key: nat, i: nat)
    requires level <= 2 && Has(sp, level, key) && NoLeaves(mem, sp, level, key) && i < NPTE
    ensures TableAt(sp, level, key) != 0 && IsTable(mem, TableAt(sp, level, key))
    ensures var e := Entry(mem, TableAt(sp, level, key), i);
            e.flags.v ==>
              && level > 0 && Has(sp, level - 1, Child(level, key, i))
              && e == Dir(TableAt(sp, level - 1, Child(level, key, i)))
    ensures var e := Entry(mem, TableAt(sp, level, key), i);
            !e.flags.v && level > 0 ==> !Has(sp, level - 1, Child(level, key, i))
  {
  }
}
