/** The process table of kernel/proc.c and the exit/wait/reparent protocol. Each method is one
    critical section of wait_lock or p->lock. */
module Procs {
  const NPROC := 64

  datatype Option<T> = None | Some(v: T)
  datatype ProcState = UNUSED | USED | SLEEPING | RUNNABLE | RUNNING | ZOMBIE

  /** wait sleeps on the address of its own table entry, everything else elsewhere. */
  datatype Chan = Nil | Entry(p: nat) | Other(x: int)

  datatype Proc = Proc(state: ProcState, chan: Chan, parent: Option<nat>, pid: nat, killed: bool, xstate: int)

  const Unused := Proc(UNUSED, Nil, None, 0, false, 0)

  /** A free entry is all zero, except that kill(0) may have marked it. */
  predicate IsUnused(q: Proc) { q == Unused.(killed := q.killed) }

  // ---------------------------------------------------------------- the invariant

  predicate Alive(s: ProcState) { s == SLEEPING || s == RUNNABLE || s == RUNNING }

  predicate ParentAlive(ps: seq<Proc>, c: nat)
    requires c < |ps|
  {
    ps[c].parent.Some? ==> ps[c].parent.v < |ps| && ps[c].parent.v != c && Alive(ps[ps[c].parent.v].state)
  }

  /** Every parent is alive, init is alive, and everything that ran has a parent. */
  ghost predicate Parents(ps: seq<Proc>, init: nat)
  {
    && |ps| == NPROC && init < NPROC && Alive(ps[init].state) && ps[init].parent == None
    && (forall c | 0 <= c < NPROC :: ParentAlive(ps, c))
    && (forall c | 0 <= c < NPROC && c != init && (Alive(ps[c].state) || ps[c].state == ZOMBIE) :: ps[c].parent.Some?)
    && (forall c | 0 <= c < NPROC && ps[c].state == UNUSED :: IsUnused(ps[c]))
  }

  predicate InWait(ps: seq<Proc>, p: nat)
    requires p < |ps|
  {
    ps[p].state == SLEEPING && ps[p].chan == Entry(p)
  }

  predicate ZombieChild(ps: seq<Proc>, p: nat, c: nat)
    requires c < |ps|
  {
    ps[c].parent == Some(p) && ps[c].state == ZOMBIE
  }

  /** Nobody sleeps in wait beside a zombie child, and only wait sleeps on a table entry. */
  ghost predicate Awake(ps: seq<Proc>)
  {
    && (forall p, c | 0 <= p < |ps| && 0 <= c < |ps| && ZombieChild(ps, p, c) :: !InWait(ps, p))
    && (forall p | 0 <= p < |ps| && ps[p].chan.Entry? :: ps[p].chan.p == p)
  }

  ghost predicate Pids(ps: seq<Proc>, nextpid: nat)
  {
    && nextpid > 0
    && (forall p | 0 <= p < |ps| && ps[p].state != UNUSED :: 0 < ps[p].pid < nextpid)
    && (forall p, q | 0 <= p < q < |ps| && ps[p].state != UNUSED && ps[q].state != UNUSED :: ps[p].pid != ps[q].pid)
  }

  /** Each process that exited is a zombie now or was reaped, once. */
  ghost predicate Ledger(ps: seq<Proc>, nextpid: nat, exited: set<nat>, reaped: set<nat>)
  {
    && (forall x | x in exited :: x < nextpid)
    && (forall p | 0 <= p < |ps| && ps[p].state != UNUSED ::
          ps[p].pid !in reaped && (ps[p].pid in exited <==> ps[p].state == ZOMBIE))
    && reaped <= exited
    && (forall x | x in exited && x !in reaped :: exists p :: 0 <= p < |ps| && ps[p].state == ZOMBIE && ps[p].pid == x)
  }

  /** A fork under way: the child is USED, the parent alive and not doing anything else. */
  ghost predicate Forks(ps: seq<Proc>, forking: map<nat, nat>)
  {
    && |ps| == NPROC
    && (forall p | p in forking :: p < NPROC && Alive(ps[p].state) && forking[p] < NPROC && ps[forking[p]].state == USED
          && (ps[forking[p]].parent == None || ps[forking[p]].parent == Some(p)))
    && (forall c | 0 <= c < NPROC && ps[c].state == USED :: exists p :: p in forking && forking[p] == c)
    && (forall p, q | p in forking && q in forking && p != q :: forking[p] != forking[q])
  }

  datatype Book = Book(forking: map<nat, nat>, exited: set<nat>, reaped: set<nat>)

  ghost predicate Ok(ps: seq<Proc>, init: nat, nextpid: nat, g: Book)
  {
    && Parents(ps, init) && Awake(ps) && Pids(ps, nextpid)
    && Ledger(ps, nextpid, g.exited, g.reaped) && Forks(ps, g.forking)
  }

  // ---------------------------------------------------------------- what a change keeps

  lemma ForksKept(ps: seq<Proc>, qs: seq<Proc>, forking: map<nat, nat>)
    requires Forks(ps, forking) && |qs| == NPROC
    requires forall c | 0 <= c < NPROC && (ps[c].state == USED || qs[c].state == USED) ::
               qs[c].state == ps[c].state && qs[c].parent == ps[c].parent
    requires forall p | p in forking && p < NPROC :: Alive(qs[p].state)
    ensures Forks(qs, forking)
  {
    forall c | 0 <= c < NPROC && qs[c].state == USED ensures exists p :: p in forking && forking[p] == c {
      assert ps[c].state == USED;
    }
  }

  /** Nobody dies, and a new parent is alive. */
  lemma ParentsKept(ps: seq<Proc>, qs: seq<Proc>, init: nat)
    requires Parents(ps, init) && |qs| == NPROC && qs[init].parent == None
    requires forall c | 0 <= c < NPROC :: Alive(ps[c].state) ==> Alive(qs[c].state)
    requires forall c | 0 <= c < NPROC && (Alive(qs[c].state) || qs[c].state == ZOMBIE) ::
               qs[c].parent.Some? || Alive(ps[c].state) || ps[c].state == ZOMBIE
    requires forall c | 0 <= c < NPROC :: qs[c].parent == ps[c].parent || ParentAlive(qs, c)
    requires forall c | 0 <= c < NPROC :: ps[c].parent.Some? && qs[c].parent == None ==> qs[c].state == UNUSED
    requires forall c | 0 <= c < NPROC && qs[c].state == UNUSED :: IsUnused(qs[c])
    ensures Parents(qs, init)
  {
    forall c | 0 <= c < NPROC ensures ParentAlive(qs, c) {
      assert ParentAlive(ps, c);
    }
  }

  lemma LedgerKept(ps: seq<Proc>, qs: seq<Proc>, nextpid: nat, exited: set<nat>, reaped: set<nat>)
    requires Pids(ps, nextpid) && Ledger(ps, nextpid, exited, reaped) && |qs| == |ps|
    requires forall i | 0 <= i < |ps| :: qs[i].pid == ps[i].pid && (qs[i].state == UNUSED <==> ps[i].state == UNUSED)
                                         && (qs[i].state == ZOMBIE <==> ps[i].state == ZOMBIE)
    ensures Pids(qs, nextpid) && Ledger(qs, nextpid, exited, reaped)
  {
    forall x | x in exited && x !in reaped
      ensures exists p :: 0 <= p < |qs| && qs[p].state == ZOMBIE && qs[p].pid == x
    {
      var p :| 0 <= p < |ps| && ps[p].state == ZOMBIE && ps[p].pid == x;
      assert qs[p].pid == x;
    }
  }

  /** A USED entry belongs to its forking parent. */
  lemma UsedHasForker(ps: seq<Proc>, forking: map<nat, nat>, c: nat)
    requires Forks(ps, forking) && c < NPROC && ps[c].state == USED
    ensures ps[c].parent.Some? ==> ps[c].parent.v in forking && forking[ps[c].parent.v] == c
  {
    var p :| p in forking && forking[p] == c;
  }

  // ---------------------------------------------------------------- waking

  /** Some sleepers became runnable, nothing else changed. */
  ghost predicate Roused(ps: seq<Proc>, qs: seq<Proc>)
  {
    |ps| == |qs| && forall i | 0 <= i < |ps| ::
      qs[i] == ps[i] || (ps[i].state == SLEEPING && qs[i] == ps[i].(state := RUNNABLE))
  }

  lemma RousedParents(ps: seq<Proc>, qs: seq<Proc>, init: nat)
    requires Roused(ps, qs) && Parents(ps, init)
    ensures Parents(qs, init)
  {
    hide ParentAlive;
    ParentsKept(ps, qs, init);
  }

  lemma RousedAwake(ps: seq<Proc>, qs: seq<Proc>)
    requires Roused(ps, qs) && Awake(ps)
    ensures Awake(qs)
  {
    forall p, c | 0 <= p < |qs| && 0 <= c < |qs| && ZombieChild(qs, p, c) ensures !InWait(qs, p) {
      assert ZombieChild(ps, p, c);
    }
  }

  lemma RousedRest(ps: seq<Proc>, qs: seq<Proc>, nextpid: nat, g: Book)
    requires Roused(ps, qs) && Pids(ps, nextpid)
    && Ledger(ps, nextpid, g.exited, g.reaped) && Forks(ps, g.forking)
    ensures Pids(qs, nextpid) && Ledger(qs, nextpid, g.exited, g.reaped) && Forks(qs, g.forking)
  {
    hide Ledger, Pids;
    LedgerKept(ps, qs, nextpid, g.exited, g.reaped);
    ForksKept(ps, qs, g.forking);
  }

  lemma RousedOk(ps: seq<Proc>, qs: seq<Proc>, init: nat, nextpid: nat, g: Book)
    requires Roused(ps, qs) && Ok(ps, init, nextpid, g)
    ensures Ok(qs, init, nextpid, g)
  {
    hide Roused, Parents, Awake, Pids, Ledger, Forks;
    RousedParents(ps, qs, init);
    RousedAwake(ps, qs);
    RousedRest(ps, qs, nextpid, g);
  }

  lemma ForkersAlive(ps: seq<Proc>, forking: map<nat, nat>)
    requires Forks(ps, forking)
    ensures |ps| == NPROC && forall p | p in forking :: p < NPROC && Alive(ps[p].state)
  {
  }

  // ---------------------------------------------------------------- one entry changed

  /** A running process changes only its own state and channel, among the living states. */
  lemma OwnMove(ps: seq<Proc>, init: nat, nextpid: nat, g: Book, p: nat, state: ProcState, chan: Chan, killed: bool)
    requires Ok(ps, init, nextpid, g) && p < NPROC && Alive(ps[p].state) && Alive(state)
    requires chan.Entry? ==> chan.p == p
    requires state == SLEEPING && chan == Entry(p) ==> forall c | 0 <= c < |ps| :: !ZombieChild(ps, p, c)
    ensures Ok(ps[p := ps[p].(state := state, chan := chan, killed := killed)], init, nextpid, g)
  {
    hide Pids, Ledger, Forks, ParentAlive;
    var qs := ps[p := ps[p].(state := state, chan := chan, killed := killed)];
    ForkersAlive(ps, g.forking);
    ParentsKept(ps, qs, init);
    LedgerKept(ps, qs, nextpid, g.exited, g.reaped);
    ForksKept(ps, qs, g.forking);
    forall q, c | 0 <= q < |qs| && 0 <= c < |qs| && ZombieChild(qs, q, c) ensures !InWait(qs, q) {
      assert ZombieChild(ps, q, c);
    }
  }

  // ---------------------------------------------------------------- exit

  predicate HasChild(ps: seq<Proc>, p: nat) { exists c :: 0 <= c < |ps| && ps[c].parent == Some(p) }

  lemma AdoptRest(ps: seq<Proc>, init: nat, nextpid: nat, g: Book, p: nat, c: nat)
    requires Ok(ps, init, nextpid, g) && p != init && p !in g.forking && c < NPROC && ps[c].parent == Some(p)
    ensures var rs := ps[c := ps[c].(parent := Some(init))];
            Parents(rs, init) && Pids(rs, nextpid) && Ledger(rs, nextpid, g.exited, g.reaped) && Forks(rs, g.forking)
  {
    hide Awake, Pids, Ledger, Forks;
    var rs := ps[c := ps[c].(parent := Some(init))];
    LedgerKept(ps, rs, nextpid, g.exited, g.reaped);
    ParentsKept(ps, rs, init);
    if ps[c].state == USED {
      UsedHasForker(ps, g.forking, c);
    }
    ForkersAlive(ps, g.forking);
    ForksKept(ps, rs, g.forking);
  }

  /** One child handed to init, which is then awake. */
  lemma AdoptOk(ps: seq<Proc>, qs: seq<Proc>, init: nat, nextpid: nat, g: Book, p: nat, c: nat)
    requires Ok(ps, init, nextpid, g) && p != init && p !in g.forking && c < NPROC && ps[c].parent == Some(p)
    requires Roused(ps[c := ps[c].(parent := Some(init))], qs) && !InWait(qs, init)
    ensures Ok(qs, init, nextpid, g)
  {
    hide Pids, Ledger, Forks;
    var rs := ps[c := ps[c].(parent := Some(init))];
    AdoptRest(ps, init, nextpid, g, p, c);
    RousedParents(rs, qs, init);
    RousedRest(rs, qs, nextpid, g);
    forall q, d | 0 <= q < |qs| && 0 <= d < |qs| && ZombieChild(qs, q, d) ensures !InWait(qs, q) {
      if q != init {
        assert ZombieChild(ps, q, d);
      }
    }
  }

  lemma ZombieLedger(ps: seq<Proc>, qs: seq<Proc>, nextpid: nat, g: Book, p: nat)
    requires Pids(ps, nextpid)
    && Ledger(ps, nextpid, g.exited, g.reaped) && p < |ps| && Alive(ps[p].state)
    requires |qs| == |ps| && qs[p].state == ZOMBIE && qs[p].pid == ps[p].pid && qs == ps[p := qs[p]]
    ensures Pids(qs, nextpid) && Ledger(qs, nextpid, g.exited + {ps[p].pid}, g.reaped)
  {
    forall x | x in g.exited + {ps[p].pid} && x !in g.reaped
      ensures exists q :: 0 <= q < |qs| && qs[q].state == ZOMBIE && qs[q].pid == x
    {
      if x == ps[p].pid {
        assert qs[p].pid == x;
      } else {
        var q :| 0 <= q < |ps| && ps[q].state == ZOMBIE && ps[q].pid == x;
        assert qs[q].pid == x;
      }
    }
  }

  lemma ZombieRest(ps: seq<Proc>, nextpid: nat, g: Book, p: nat, status: int)
    requires Pids(ps, nextpid)
    && Ledger(ps, nextpid, g.exited, g.reaped) && Forks(ps, g.forking)
    requires p < NPROC && Alive(ps[p].state) && p !in g.forking
    ensures var qs := ps[p := ps[p].(xstate := status, state := ZOMBIE)];
            Pids(qs, nextpid) && Ledger(qs, nextpid, g.exited + {ps[p].pid}, g.reaped) && Forks(qs, g.forking)
  {
    var qs := ps[p := ps[p].(xstate := status, state := ZOMBIE)];
    ZombieLedger(ps, qs, nextpid, g, p);
    ForksKept(ps, qs, g.forking);
  }

  /** A childless process whose parent is awake may become a zombie. */
  lemma ZombieOk(ps: seq<Proc>, init: nat, nextpid: nat, g: Book, p: nat, status: int)
    requires Ok(ps, init, nextpid, g) && p < NPROC && p != init && Alive(ps[p].state) && p !in g.forking
    requires !HasChild(ps, p)
    requires ps[p].parent.Some? && ps[p].parent.v < NPROC && !InWait(ps, ps[p].parent.v)
    ensures Ok(ps[p := ps[p].(xstate := status, state := ZOMBIE)], init, nextpid, g.(exited := g.exited + {ps[p].pid}))
  {
    hide Ledger, Forks, Pids;
    var qs := ps[p := ps[p].(xstate := status, state := ZOMBIE)];
    assert forall c | 0 <= c < NPROC :: ps[c].parent != Some(p);
    forall c | 0 <= c < NPROC ensures ParentAlive(qs, c) {
      assert ParentAlive(ps, c);
    }
    ZombieRest(ps, nextpid, g, p, status);
    forall q, c | 0 <= q < |qs| && 0 <= c < |qs| && ZombieChild(qs, q, c) ensures !InWait(qs, q) {
      if c != p {
        assert ZombieChild(ps, q, c);
      }
    }
  }

  lemma ReapLedger(ps: seq<Proc>, nextpid: nat, g: Book, c: nat)
    requires Pids(ps, nextpid)
    && Ledger(ps, nextpid, g.exited, g.reaped) && c < |ps| && ps[c].state == ZOMBIE
    ensures ps[c].pid in g.exited && ps[c].pid !in g.reaped
    ensures Pids(ps[c := Unused], nextpid) && Ledger(ps[c := Unused], nextpid, g.exited, g.reaped + {ps[c].pid})
  {
    var qs := ps[c := Unused];
    forall x | x in g.exited && x !in g.reaped + {ps[c].pid}
      ensures exists q :: 0 <= q < |qs| && qs[q].state == ZOMBIE && qs[q].pid == x
    {
      var q :| 0 <= q < |ps| && ps[q].state == ZOMBIE && ps[q].pid == x;
      assert qs[q].pid == x;
    }
  }

  lemma ReapRest(ps: seq<Proc>, nextpid: nat, g: Book, c: nat)
    requires Pids(ps, nextpid)
    && Ledger(ps, nextpid, g.exited, g.reaped) && Forks(ps, g.forking)
    requires c < NPROC && ps[c].state == ZOMBIE
    ensures ps[c].pid in g.exited && ps[c].pid !in g.reaped
    ensures var qs := ps[c := Unused];
            Pids(qs, nextpid) && Ledger(qs, nextpid, g.exited, g.reaped + {ps[c].pid}) && Forks(qs, g.forking)
  {
    var qs := ps[c := Unused];
    ReapLedger(ps, nextpid, g, c);
    ForksKept(ps, qs, g.forking);
  }

  // ---------------------------------------------------------------- wait

  /** freeproc on a zombie. */
  lemma ReapOk(ps: seq<Proc>, init: nat, nextpid: nat, g: Book, c: nat)
    requires Ok(ps, init, nextpid, g) && c < NPROC && ps[c].state == ZOMBIE
    ensures Ok(ps[c := Unused], init, nextpid, g.(reaped := g.reaped + {ps[c].pid}))
    ensures ps[c].pid in g.exited && ps[c].pid !in g.reaped
  {
    hide Ledger, Forks, Pids;
    var qs := ps[c := Unused];
    ReapRest(ps, nextpid, g, c);
    ParentsKept(ps, qs, init);
    forall q, d | 0 <= q < |qs| && 0 <= d < |qs| && ZombieChild(qs, q, d) ensures !InWait(qs, q) {
      assert ZombieChild(ps, q, d);
    }
  }

  lemma AllocLedger(ps: seq<Proc>, nextpid: nat, g: Book, c: nat)
    requires Pids(ps, nextpid)
    && Ledger(ps, nextpid, g.exited, g.reaped) && c < |ps| && ps[c].state == UNUSED
    ensures Pids(ps[c := ps[c].(pid := nextpid, state := USED)], nextpid + 1)
    ensures Ledger(ps[c := ps[c].(pid := nextpid, state := USED)], nextpid + 1, g.exited, g.reaped)
  {
    var qs := ps[c := ps[c].(pid := nextpid, state := USED)];
    forall x | x in g.exited && x !in g.reaped
      ensures exists q :: 0 <= q < |qs| && qs[q].state == ZOMBIE && qs[q].pid == x
    {
      var q :| 0 <= q < |ps| && ps[q].state == ZOMBIE && ps[q].pid == x;
      assert qs[q].pid == x;
    }
  }

  lemma AllocForks(ps: seq<Proc>, qs: seq<Proc>, forking: map<nat, nat>, p: nat, c: nat)
    requires Forks(ps, forking) && p < NPROC && Alive(ps[p].state) && p !in forking && c < NPROC
    requires ps[c].state == UNUSED
    requires |qs| == NPROC && qs == ps[c := qs[c]] && qs[c].state == USED && qs[c].parent == None
    ensures Forks(qs, forking[p := c])
  {
    var f := forking[p := c];
    forall d | 0 <= d < NPROC && qs[d].state == USED ensures exists q :: q in f && f[q] == d {
      if d == c {
        assert f[p] == d;
      } else {
        var q :| q in forking && forking[q] == d;
        assert f[q] == d;
      }
    }
  }

  // ---------------------------------------------------------------- fork

  lemma AllocOk(ps: seq<Proc>, init: nat, nextpid: nat, g: Book, p: nat, c: nat)
    requires Ok(ps, init, nextpid, g) && p < NPROC && Alive(ps[p].state) && p !in g.forking && c < NPROC
    requires ps[c].state == UNUSED
    ensures Ok(ps[c := ps[c].(pid := nextpid, state := USED)], init, nextpid + 1, g.(forking := g.forking[p := c]))
  {
    hide Ledger, Forks, Pids;
    var qs := ps[c := ps[c].(pid := nextpid, state := USED)];
    AllocLedger(ps, nextpid, g, c);
    ParentsKept(ps, qs, init);
    AllocForks(ps, qs, g.forking, p, c);
    forall q, d | 0 <= q < |qs| && 0 <= d < |qs| && ZombieChild(qs, q, d) ensures !InWait(qs, q) {
      assert ZombieChild(ps, q, d);
    }
  }

  lemma Forking(ps: seq<Proc>, forking: map<nat, nat>, p: nat)
    requires Forks(ps, forking) && p in forking
    ensures |ps| == NPROC && p < NPROC && forking[p] < NPROC && Alive(ps[p].state) && ps[forking[p]].state == USED
  {
  }

  lemma ParentForks(ps: seq<Proc>, forking: map<nat, nat>, p: nat)
    requires Forks(ps, forking) && p in forking && forking[p] < NPROC
    ensures Forks(ps[forking[p] := ps[forking[p]].(parent := Some(p))], forking)
  {
    var qs := ps[forking[p] := ps[forking[p]].(parent := Some(p))];
    forall d | 0 <= d < NPROC && qs[d].state == USED ensures exists q :: q in forking && forking[q] == d {
      assert ps[d].state == USED;
    }
  }

  /** The forking process sets its child's parent. */
  lemma ParentOk(ps: seq<Proc>, init: nat, nextpid: nat, g: Book, p: nat)
    requires Ok(ps, init, nextpid, g) && p in g.forking && g.forking[p] < NPROC
    ensures Ok(ps[g.forking[p] := ps[g.forking[p]].(parent := Some(p))], init, nextpid, g)
  {
    hide Ledger, Pids, Forks;
    var c := g.forking[p];
    var qs := ps[c := ps[c].(parent := Some(p))];
    LedgerKept(ps, qs, nextpid, g.exited, g.reaped);
    Forking(ps, g.forking, p);
    ParentsKept(ps, qs, init);
    ParentForks(ps, g.forking, p);
    forall q, d | 0 <= q < |qs| && 0 <= d < |qs| && ZombieChild(qs, q, d) ensures !InWait(qs, q) {
      assert ZombieChild(ps, q, d);
    }
  }

  lemma EndFork(ps: seq<Proc>, qs: seq<Proc>, forking: map<nat, nat>, p: nat)
    requires Forks(ps, forking) && p in forking && |qs| == NPROC && qs == ps[forking[p] := qs[forking[p]]]
    requires qs[forking[p]].state != USED
    ensures Forks(qs, forking - {p})
  {
    var f := forking - {p};
    forall d | 0 <= d < NPROC && qs[d].state == USED ensures exists q :: q in f && f[q] == d {
      assert ps[d].state == USED;
      var q :| q in forking && forking[q] == d;
      assert f[q] == d;
    }
  }

  /** The child, with its parent set, becomes runnable. */
  lemma BirthOk(ps: seq<Proc>, init: nat, nextpid: nat, g: Book, p: nat)
    requires Ok(ps, init, nextpid, g) && p in g.forking && g.forking[p] < NPROC && ps[g.forking[p]].parent == Some(p)
    ensures Ok(ps[g.forking[p] := ps[g.forking[p]].(state := RUNNABLE)], init, nextpid, g.(forking := g.forking - {p}))
  {
    hide Ledger, Pids, Forks;
    var c := g.forking[p];
    var qs := ps[c := ps[c].(state := RUNNABLE)];
    Forking(ps, g.forking, p);
    ParentsKept(ps, qs, init);
    LedgerKept(ps, qs, nextpid, g.exited, g.reaped);
    EndFork(ps, qs, g.forking, p);
    forall q, d | 0 <= q < |qs| && 0 <= d < |qs| && ZombieChild(qs, q, d) ensures !InWait(qs, q) {
      assert ZombieChild(ps, q, d);
    }
  }

  lemma AbortLedger(ps: seq<Proc>, nextpid: nat, g: Book, c: nat)
    requires Pids(ps, nextpid)
    && Ledger(ps, nextpid, g.exited, g.reaped) && c < |ps| && ps[c].state == USED
    ensures Pids(ps[c := Unused], nextpid) && Ledger(ps[c := Unused], nextpid, g.exited, g.reaped)
  {
    var qs := ps[c := Unused];
    forall x | x in g.exited && x !in g.reaped
      ensures exists q :: 0 <= q < |qs| && qs[q].state == ZOMBIE && qs[q].pid == x
    {
      var q :| 0 <= q < |ps| && ps[q].state == ZOMBIE && ps[q].pid == x;
      assert qs[q].pid == x;
    }
  }

  /** A fork that fails gives its entry back. */
  lemma AbortOk(ps: seq<Proc>, init: nat, nextpid: nat, g: Book, p: nat)
    requires Ok(ps, init, nextpid, g) && p in g.forking && g.forking[p] < NPROC
    ensures Ok(ps[g.forking[p] := Unused], init, nextpid, g.(forking := g.forking - {p}))
  {
    hide Ledger, Pids, Forks;
    var c := g.forking[p];
    var qs := ps[c := Unused];
    Forking(ps, g.forking, p);
    ParentsKept(ps, qs, init);
    AbortLedger(ps, nextpid, g, c);
    EndFork(ps, qs, g.forking, p);
    forall q, d | 0 <= q < |qs| && 0 <= d < |qs| && ZombieChild(qs, q, d) ensures !InWait(qs, q) {
      assert ZombieChild(ps, q, d);
    }
  }

  /** A free entry is marked as killed exactly if a kill(0) did it. */
  ghost predicate Marks(ps: seq<Proc>, marked: set<nat>)
  {
    forall c | 0 <= c < |ps| && ps[c].state == UNUSED :: ps[c].killed <==> c in marked
  }

  function Unslept(s: ProcState): (t: ProcState) { if s == SLEEPING then RUNNABLE else s }

  datatype WaitResult = Reaped(pid: nat, xstate: int) | Failed | Slept

  // ---------------------------------------------------------------- facts the methods use

  lemma Bounds(ps: seq<Proc>, init: nat, nextpid: nat, g: Book)
    requires Ok(ps, init, nextpid, g)
    ensures |ps| == NPROC && init < NPROC
  {
  }

  lemma NoChange(forking: map<nat, nat>, p: nat, c: nat)
    requires p !in forking
    ensures forking[p := c] - {p} == forking
  {
  }

  lemma OwnChan(ps: seq<Proc>, init: nat, nextpid: nat, g: Book, p: nat)
    requires Ok(ps, init, nextpid, g) && p < NPROC
    ensures ps[p].chan.Entry? ==> ps[p].chan.p == p
  {
    hide ParentAlive, Pids, Ledger, Forks;
  }

  lemma ForkBounds(ps: seq<Proc>, init: nat, nextpid: nat, g: Book, p: nat)
    requires Ok(ps, init, nextpid, g) && p in g.forking
    ensures |ps| == NPROC && g.forking[p] < NPROC
  {
  }

  lemma UnusedIs(ps: seq<Proc>, init: nat, nextpid: nat, g: Book, c: nat)
    requires Ok(ps, init, nextpid, g) && c < NPROC && ps[c].state == UNUSED
    ensures IsUnused(ps[c])
  {
  }

  lemma ZeroPid(ps: seq<Proc>, init: nat, nextpid: nat, g: Book, c: nat)
    requires Ok(ps, init, nextpid, g) && c < NPROC
    ensures ps[c].pid == 0 <==> ps[c].state == UNUSED
  {
    hide Ledger, Forks, Awake;
  }

  lemma HasParent(ps: seq<Proc>, init: nat, nextpid: nat, g: Book, p: nat)
    requires Ok(ps, init, nextpid, g) && p < NPROC && p != init && Alive(ps[p].state)
    ensures ps[p].parent.Some? && ps[p].parent.v < NPROC && ps[p].parent.v != p
  {
    assert ParentAlive(ps, p);
  }

  lemma KillAwake(ps: seq<Proc>, qs: seq<Proc>, v: nat)
    requires Awake(ps) && v < |ps|
    requires qs == ps[v := ps[v].(killed := true, state := if ps[v].state == SLEEPING then RUNNABLE else ps[v].state)]
    ensures Awake(qs)
  {
    forall q, d | 0 <= q < |qs| && 0 <= d < |qs| && ZombieChild(qs, q, d) ensures !InWait(qs, q) {
      assert ZombieChild(ps, q, d);
    }
  }

  lemma KillOk(ps: seq<Proc>, qs: seq<Proc>, init: nat, nextpid: nat, g: Book, v: nat)
    requires Ok(ps, init, nextpid, g) && v < NPROC
    requires qs == ps[v := ps[v].(killed := true, state := if ps[v].state == SLEEPING then RUNNABLE else ps[v].state)]
    ensures Ok(qs, init, nextpid, g)
  {
    hide Ledger, Pids, Forks, ParentAlive, Awake;
    LedgerKept(ps, qs, nextpid, g.exited, g.reaped);
    ForkersAlive(ps, g.forking);
    ForksKept(ps, qs, g.forking);
    ParentsKept(ps, qs, init);
    KillAwake(ps, qs, v);
  }

  // ---------------------------------------------------------------- the process table

  predicate Sleeps(q: Proc, chan: Chan) { q.state == SLEEPING && q.chan == chan }

  /** An entry after the children of p, if it had some, went to init and init was woken. */
  function Adopted(q: Proc, p: nat, init: nat, some: bool): (r: Proc)
  {
    q.(parent := if q.parent == Some(p) then Some(init) else q.parent,
       state := if some && Sleeps(q, Entry(init)) then RUNNABLE else q.state)
  }

  class Table {
    var ps: seq<Proc>
    var nextpid: nat
    const init: nat
    ghost var g: Book
    ghost var marked: set<nat>       // free entries that a kill(0) marked since they became free

    ghost predicate Valid()
      reads this
    {
      Ok(ps, init, nextpid, g) && Marks(ps, marked)
    }

    /** userinit: only init, runnable. */
    constructor (init: nat)
      requires init < NPROC
      ensures Valid() && this.init == init && g == Book(map[], {}, {}) && marked == {}
    {
      this.init := init;
      ps := seq(NPROC, i => if i == init then Proc(RUNNABLE, Nil, None, 1, false, 0) else Unused);
      nextpid := 2;
      g, marked := Book(map[], {}, {}), {};
    }

    /** wakeup by process me: exactly the others asleep on the channel become runnable. */
    method Wakeup(chan: Chan, me: nat)
      requires |ps| == NPROC
      modifies this`ps
      ensures Roused(old(ps), ps)
      ensures forall i | 0 <= i < NPROC ::
                ps[i] == if i != me && old(ps)[i].state == SLEEPING && old(ps)[i].chan == chan
                         then old(ps)[i].(state := RUNNABLE) else old(ps)[i]
    {
      var i := 0;
      while i < NPROC
        invariant 0 <= i <= NPROC && |ps| == NPROC
        invariant forall j | 0 <= j < NPROC ::
                    ps[j] == if j < i && j != me && old(ps)[j].state == SLEEPING && old(ps)[j].chan == chan
                             then old(ps)[j].(state := RUNNABLE) else old(ps)[j]
      {
        if i != me {
          if ps[i].state == SLEEPING && ps[i].chan == chan {
            ps := ps[i := ps[i].(state := RUNNABLE)];
          }
        }
        i := i + 1;
      }
    }

    /** reparent: p's children become init's, and init looks at them. */
    method Reparent(p: nat)
      requires Valid() && p < NPROC && p != init && ps[p].state == RUNNING && p !in g.forking
      modifies this`ps
      ensures Valid() && !HasChild(ps, p) && |ps| == |old(ps)| == NPROC
      ensures forall i | 0 <= i < NPROC :: ps[i] == Adopted(old(ps)[i], p, init, HasChild(old(ps), p))
    {
      hide Ok;
      Bounds(ps, init, nextpid, g);
      var i := 0;
      ghost var some := false;
      while i < NPROC
        invariant 0 <= i <= NPROC && Valid() && |ps| == NPROC && init < NPROC
        invariant some <==> exists d :: 0 <= d < i && old(ps)[d].parent == Some(p)
        invariant forall j | 0 <= j < i :: ps[j] == Adopted(old(ps)[j], p, init, some)
        invariant forall j | i <= j < NPROC :: ps[j] == old(ps)[j].(state := Adopted(old(ps)[j], p, init, some).state)
      {
        if ps[i].parent == Some(p) {
          ghost var before := ps;
          some := true;
          ps := ps[i := ps[i].(parent := Some(init))];
          Wakeup(Entry(init), p);
          AdoptOk(before, ps, init, nextpid, g, p, i);
        }
        i := i + 1;
      }
    }

    /** exit: the children go to init, the parent is woken, the process becomes a zombie. */
    method Exit(p: nat, status: int)
      requires Valid() && p < NPROC && p != init && ps[p].state == RUNNING && p !in g.forking
      modifies this`ps, this`g
      ensures Valid() && ps[p] == old(ps)[p].(state := ZOMBIE, xstate := status)
      ensures g == old(g).(exited := old(g).exited + {old(ps)[p].pid})
      ensures |ps| == |old(ps)| == NPROC && old(ps)[p].parent.Some?
      ensures forall i | 0 <= i < NPROC && i != p ::
                var q := Adopted(old(ps)[i], p, init, HasChild(old(ps), p));
                ps[i] == if Sleeps(q, Entry(old(ps)[p].parent.v)) then q.(state := RUNNABLE) else q
    {
      hide Ok, Roused;
      Bounds(ps, init, nextpid, g);
      HasParent(ps, init, nextpid, g, p);
      Reparent(p);
      ghost var before := ps;
      Bounds(ps, init, nextpid, g);
      Wakeup(Entry(ps[p].parent.v), p);
      RousedOk(before, ps, init, nextpid, g);
      assert !HasChild(ps, p) by {
        assert forall c | 0 <= c < NPROC :: before[c].parent != Some(p);
      }
      ZombieOk(ps, init, nextpid, g, p, status);
      ghost var mid := ps;
      g := g.(exited := g.exited + {ps[p].pid});
      ps := ps[p := ps[p].(xstate := status)];
      ps := ps[p := ps[p].(state := ZOMBIE)];
      assert ps == mid[p := mid[p].(xstate := status, state := ZOMBIE)];
    }

    /** One pass of wait by process p; copied says whether its copyout works. */
    method Wait(p: nat, copied: bool) returns (r: WaitResult, ghost c: nat)
      requires Valid() && p < NPROC && ps[p].state == RUNNING && p !in g.forking
      modifies this`ps, this`g, this`marked
      ensures Valid()
      ensures r.Reaped? ==> copied && c < NPROC && (forall d | 0 <= d < c :: !ZombieChild(old(ps), p, d))
      ensures marked == if r.Reaped? then old(marked) - {c} else old(marked)
      ensures r.Reaped? ==> c < NPROC && ZombieChild(old(ps), p, c) && r == Reaped(old(ps)[c].pid, old(ps)[c].xstate)
                            && ps == old(ps)[c := Unused] && g == old(g).(reaped := old(g).reaped + {r.pid})
                            && r.pid in old(g).exited && r.pid !in old(g).reaped
      ensures r.Failed? ==> ps == old(ps) && g == old(g)
      ensures r.Failed? ==> if (exists d :: 0 <= d < NPROC && ZombieChild(old(ps), p, d)) then !copied
                            else !HasChild(ps, p) || ps[p].killed
      ensures r.Slept? ==>
              HasChild(old(ps), p) && !old(ps)[p].killed && (forall d | 0 <= d < NPROC :: !ZombieChild(old(ps), p, d))
                           && ps == old(ps)[p := old(ps)[p].(chan := Entry(p), state := SLEEPING)] && g == old(g)
    {
      hide Ok;
      Bounds(ps, init, nextpid, g);
      var havekids := false;
      var i := 0;
      c := 0;
      while i < NPROC
        invariant 0 <= i <= NPROC && ps == old(ps) && g == old(g) && marked == old(marked)
        invariant havekids <==> exists d :: 0 <= d < i && ps[d].parent == Some(p)
        invariant forall d | 0 <= d < i :: !ZombieChild(ps, p, d)
      {
        if ps[i].parent == Some(p) {
          havekids := true;
          if ps[i].state == ZOMBIE {
            c := i;
            assert ZombieChild(ps, p, i);
            if !copied {
              return Failed, c;
            }
            ReapOk(ps, init, nextpid, g, i);
            r := Reaped(ps[i].pid, ps[i].xstate);
            g := g.(reaped := g.reaped + {ps[i].pid});
            ps := ps[i := Unused];
            marked := marked - {i};
            return;
          }
        }
        i := i + 1;
      }
      if !havekids || ps[p].killed {
        return Failed, c;
      }
      OwnMove(ps, init, nextpid, g, p, SLEEPING, Entry(p), ps[p].killed);
      ps := ps[p := ps[p].(chan := Entry(p), state := SLEEPING)];
      return Slept, c;
    }

    /** kill: the first entry with that pid is marked and, if asleep, made runnable. A positive
        pid names at most one process and a negative one none; pid 0 names every unused entry, so
        kill(0) succeeds by marking a process that does not exist yet. */
    method Kill(pid: int) returns (ok: bool, ghost v: nat)
      requires Valid()
      modifies this`ps, this`marked
      ensures Valid() && |ps| == |old(ps)| == NPROC
      ensures ok <==> exists i :: 0 <= i < NPROC && old(ps)[i].pid == pid
      ensures !ok ==> ps == old(ps) && marked == old(marked)
      ensures ok ==> v < NPROC && old(ps)[v].pid == pid && (pid == 0 <==> old(ps)[v].state == UNUSED)
      ensures ok ==> ps == old(ps)[v := old(ps)[v].(killed := true, state := Unslept(old(ps)[v].state))]
      ensures ok ==> marked == (if pid == 0 then old(marked) + {v} else old(marked))
      ensures ok ==> forall i | 0 <= i < v :: ps[i].pid != pid
    {
      hide Ok;
      Bounds(ps, init, nextpid, g);
      var i := 0;
      v := 0;
      while i < NPROC
        invariant 0 <= i <= NPROC && ps == old(ps) && marked == old(marked) && forall j | 0 <= j < i :: ps[j].pid != pid
      {
        if ps[i].pid == pid {
          v := i;
          ZeroPid(ps, init, nextpid, g, i);
          ps := ps[i := ps[i].(killed := true)];
          if ps[i].state == SLEEPING {
            ps := ps[i := ps[i].(state := RUNNABLE)];
          }
          KillOk(old(ps), ps, init, nextpid, g, i);
          marked := if pid == 0 then marked + {i} else marked;
          return true, v;
        }
        i := i + 1;
      }
      return false, v;
    }

    /** allocproc for a forking process p: the first unused entry gets a pid of its own. memory
        says whether its trapframe and page table can be allocated; if not, the entry is freed
        again. The new process is born killed exactly if a kill(0) marked its entry. */
    method AllocProc(p: nat, memory: bool) returns (ok: bool, c: nat)
      requires Valid() && p < NPROC && ps[p].state == RUNNING && p !in g.forking
      modifies this`ps, this`nextpid, this`g, this`marked
      ensures Valid() && |ps| == |old(ps)| == NPROC
      ensures ok <==> memory && exists i :: 0 <= i < NPROC && old(ps)[i].state == UNUSED
      ensures ok ==>
              c < NPROC && IsUnused(old(ps)[c]) && ps == old(ps)[c := old(ps)[c].(pid := old(nextpid), state := USED)]
      ensures ok ==> g == old(g).(forking := old(g).forking[p := c]) && (ps[c].killed <==> c in old(marked))
      ensures ok ==> forall i | 0 <= i < c :: old(ps)[i].state != UNUSED
      ensures nextpid == old(nextpid) + if exists i :: 0 <= i < NPROC && old(ps)[i].state == UNUSED then 1 else 0
      ensures ok ==> marked == old(marked)
      ensures !ok ==> g == old(g)
      ensures !ok && memory ==> ps == old(ps) && marked == old(marked)
      ensures !ok && !memory && c < NPROC ==>
              IsUnused(old(ps)[c]) && ps == old(ps)[c := Unused] && marked == old(marked) - {c}
      ensures !ok && !memory && c >= NPROC ==> ps == old(ps) && marked == old(marked)
    {
      hide Ok;
      Bounds(ps, init, nextpid, g);
      c := 0;
      while c < NPROC
        invariant 0 <= c <= NPROC && ps == old(ps) && g == old(g) && nextpid == old(nextpid) && marked == old(marked)
        invariant forall j | 0 <= j < c :: ps[j].state != UNUSED
      {
        if ps[c].state == UNUSED {
          AllocOk(ps, init, nextpid, g, p, c);
          UnusedIs(ps, init, nextpid, g, c);
          ps := ps[c := ps[c].(pid := nextpid)];
          nextpid := nextpid + 1;
          ps := ps[c := ps[c].(state := USED)];
          assert ps == old(ps)[c := old(ps)[c].(pid := old(nextpid), state := USED)];
          if !memory {
            NoChange(g.forking, p, c);
            AbortOk(ps, init, nextpid, g.(forking := g.forking[p := c]), p);
            ps := ps[c := Unused];
            marked := marked - {c};
            assert ps == old(ps)[c := Unused];
            return false, c;
          }
          g := g.(forking := g.forking[p := c]);
          return true, c;
        }
        c := c + 1;
      }
      return false, c;
    }

    /** kill(0) and then fork: the child is born killed. */
    method KillZeroThenFork(p: nat) returns (c: nat)
      requires Valid() && p < NPROC && ps[p].state == RUNNING && p !in g.forking
      requires exists i :: 0 <= i < |ps| && ps[i].state == UNUSED
      modifies this`ps, this`nextpid, this`g, this`marked
      ensures Valid() && c < NPROC == |ps| && p in g.forking && g.forking[p] == c && ps[c].state == USED && ps[c].killed
    {
      hide Ok;
      Bounds(ps, init, nextpid, g);
      forall i | 0 <= i < NPROC ensures ps[i].pid == 0 <==> ps[i].state == UNUSED {
        ZeroPid(ps, init, nextpid, g, i);
      }
      ghost var before := ps;
      var ok, v := Kill(0);
      assert forall i | 0 <= i < NPROC :: ps[i].state == UNUSED <==> before[i].state == UNUSED;
      assert ps[v].state == UNUSED;
      ok, c := AllocProc(p, true);
    }

    /** fork under wait_lock: the child gets its parent. */
    method ForkParent(p: nat, c: nat)
      requires Valid() && p in g.forking && g.forking[p] == c
      modifies this`ps
      ensures Valid() && c < NPROC == |old(ps)| && ps == old(ps)[c := old(ps)[c].(parent := Some(p))]
    {
      hide Ok;
      ForkBounds(ps, init, nextpid, g, p);
      ParentOk(ps, init, nextpid, g, p);
      ps := ps[c := ps[c].(parent := Some(p))];
    }

    /** The end of fork: the child, which has its parent, becomes runnable. */
    method ForkEnd(p: nat, c: nat)
      requires Valid() && p in g.forking && g.forking[p] == c && c < |ps| && ps[c].parent == Some(p)
      modifies this`ps, this`g
      ensures Valid() && ps == old(ps)[c := old(ps)[c].(state := RUNNABLE)]
      ensures g == old(g).(forking := old(g).forking - {p})
    {
      hide Ok;
      ForkBounds(ps, init, nextpid, g, p);
      BirthOk(ps, init, nextpid, g, p);
      ps := ps[c := ps[c].(state := RUNNABLE)];
      g := g.(forking := g.forking - {p});
    }

    /** A fork that fails frees the entry again. */
    method ForkAbort(p: nat, c: nat)
      requires Valid() && p in g.forking && g.forking[p] == c
      modifies this`ps, this`g, this`marked
      ensures Valid() && c < NPROC && ps == old(ps)[c := Unused] && g == old(g).(forking := old(g).forking - {p})
      ensures marked == old(marked) - {c}
    {
      hide Ok;
      ForkBounds(ps, init, nextpid, g, p);
      AbortOk(ps, init, nextpid, g, p);
      ps := ps[c := Unused];
      g := g.(forking := g.forking - {p});
      marked := marked - {c};
    }

    /** scheduler: a runnable process runs; when it comes from sleep it clears its channel. */
    method Schedule(p: nat)
      requires Valid() && p < NPROC && ps[p].state == RUNNABLE
      modifies this`ps
      ensures Valid() && p < |old(ps)| && ps == old(ps)[p := old(ps)[p].(state := RUNNING, chan := Nil)]
    {
      hide Ok;
      Bounds(ps, init, nextpid, g);
      OwnMove(ps, init, nextpid, g, p, RUNNING, Nil, ps[p].killed);
      ps := ps[p := ps[p].(state := RUNNING)];
      ps := ps[p := ps[p].(chan := Nil)];
      assert ps == old(ps)[p := old(ps)[p].(state := RUNNING, chan := Nil)];
    }

    /** yield: a running process stays runnable. */
    method Yield(p: nat)
      requires Valid() && p < NPROC && ps[p].state == RUNNING
      modifies this`ps
      ensures Valid() && p < |old(ps)| && ps == old(ps)[p := old(ps)[p].(state := RUNNABLE)]
    {
      hide Ok;
      Bounds(ps, init, nextpid, g);
      OwnChan(ps, init, nextpid, g, p);
      OwnMove(ps, init, nextpid, g, p, RUNNABLE, ps[p].chan, ps[p].killed);
      ps := ps[p := ps[p].(state := RUNNABLE)];
    }

    /** sleep on a channel that is not a table entry. */
    method SleepOn(p: nat, x: int)
      requires Valid() && p < NPROC && ps[p].state == RUNNING
      modifies this`ps
      ensures Valid() && p < |old(ps)| && ps == old(ps)[p := old(ps)[p].(chan := Other(x), state := SLEEPING)]
    {
      hide Ok;
      Bounds(ps, init, nextpid, g);
      OwnMove(ps, init, nextpid, g, p, SLEEPING, Other(x), ps[p].killed);
      ps := ps[p := ps[p].(chan := Other(x))];
      ps := ps[p := ps[p].(state := SLEEPING)];
      assert ps == old(ps)[p := old(ps)[p].(chan := Other(x), state := SLEEPING)];
    }
  }
}
