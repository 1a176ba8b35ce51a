/** sleep and wakeup of kernel/proc.c as a protocol of single steps. Any number of processes
    share a spinlock lk, a condition it protects and a channel; wakeup visits the process
    table one p->lock at a time while other processes run. */
module SleepWakeup {
  datatype Held = Free | By(p: nat)

  /** Where a process is. Scan and ScanAt are wakeup before and while holding the lock of
      table entry w; Committed is sleep after it has let go of lk. */
  datatype Pc = Out | Inside | Scan(w: nat) | ScanAt(w: nat) | Falling | Committed | Asleep | Woken | Back

  /** asleep[p]: p->state is SLEEPING on the channel. due: the condition became true and no
      wakeup has finished since. */
  datatype State = State(pc: seq<Pc>, asleep: seq<bool>, lk: Held, plock: seq<Held>, ready: bool, due: bool)

  /** sleep takes p->lock before it releases lk, or, as a variant, after. */
  datatype Order = LockFirst | ReleaseFirst

  datatype Action = Enter | Change(r: bool) | Wakeup | Acquire | Skip | Visit | EndScan | Leave
                  | SleepLock | SleepRelease | SleepEnd | Run | Resume | Kill

  ghost predicate Starts(s: State)
  {
    && |s.pc| == |s.asleep| == |s.plock| && s.lk == Free && !s.due
    && forall p | 0 <= p < |s.pc| :: s.pc[p] == Out && !s.asleep[p] && s.plock[p] == Free
  }

  ghost predicate Sized(s: State) { |s.pc| == |s.asleep| == |s.plock| }

  /** One step of process p (for Kill, of another process on p). */
  ghost predicate Step(o: Order, s: State, t: State, p: nat, a: Action)
  {
    Sized(s) && p < |s.pc| &&
    match a
    case Enter => (s.pc[p] == Out || s.pc[p] == Back) && s.lk == Free && t == s.(pc := s.pc[p := Inside], lk := By(p))
    case Change(r) => s.pc[p] == Inside && t == s.(ready := r, due := r && (s.due || !s.ready))
    case Wakeup => s.pc[p] == Inside && t == s.(pc := s.pc[p := Scan(0)])
    case Acquire => s.pc[p].Scan? && s.pc[p].w < |s.pc| && s.pc[p].w != p && s.plock[s.pc[p].w] == Free
                    && t == s.(pc := s.pc[p := ScanAt(s.pc[p].w)], plock := s.plock[s.pc[p].w := By(p)])
    case Skip => s.pc[p] == Scan(p) && t == s.(pc := s.pc[p := Scan(p + 1)])
    case Visit => s.pc[p].ScanAt? && s.pc[p].w < |s.pc|
                  && t == s.(pc := s.pc[p := Scan(s.pc[p].w + 1)], asleep := s.asleep[s.pc[p].w := false],
                             plock := s.plock[s.pc[p].w := Free])
    case EndScan => s.pc[p] == Scan(|s.pc|) && t == s.(pc := s.pc[p := Inside], due := false)
    case Leave => s.pc[p] == Inside && !s.due && t == s.(pc := s.pc[p := Out], lk := Free)
    case SleepLock => s.pc[p] == Inside && !s.ready &&
                      (match o
                       case LockFirst =>
                         s.plock[p] == Free && t == s.(pc := s.pc[p := Falling], plock := s.plock[p := By(p)])
                       case ReleaseFirst => t == s.(pc := s.pc[p := Falling], lk := Free))
    case SleepRelease => s.pc[p] == Falling &&
                         (match o
                          case LockFirst => t == s.(pc := s.pc[p := Committed], lk := Free)
                          case ReleaseFirst =>
                            s.plock[p] == Free && t == s.(pc := s.pc[p := Committed], plock := s.plock[p := By(p)]))
    case SleepEnd => s.pc[p] == Committed
                     && t == s.(pc := s.pc[p := Asleep], asleep := s.asleep[p := true], plock := s.plock[p := Free])
    case Run => s.pc[p] == Asleep && !s.asleep[p] && s.plock[p] == Free
                && t == s.(pc := s.pc[p := Woken], plock := s.plock[p := By(p)])
    case Resume => s.pc[p] == Woken && t == s.(pc := s.pc[p := Back], plock := s.plock[p := Free])
    case Kill => s.plock[p] == Free && t == s.(asleep := s.asleep[p := false])
  }

  // ---------------------------------------------------------------- the invariant

  predicate HasLk(c: Pc) { c.Inside? || c.Scan? || c.ScanAt? || c.Falling? }

  predicate HasOwn(c: Pc) { c.Falling? || c.Committed? || c.Woken? }

  /** p is asleep on the channel or can no longer be kept from it. */
  ghost predicate Waits(s: State, p: nat)
    requires Sized(s) && p < |s.pc|
  {
    s.asleep[p] || s.pc[p] == Committed
  }

  ghost predicate LkOk(s: State)
    requires Sized(s)
  {
    && (forall p | 0 <= p < |s.pc| :: HasLk(s.pc[p]) <==> s.lk == By(p))
    && (s.lk.By? ==> s.lk.p < |s.pc|)
  }

  /** Who holds the lock of table entry p. */
  ghost predicate PlockOk(s: State)
    requires Sized(s)
  {
    && (forall p | 0 <= p < |s.pc| :: HasOwn(s.pc[p]) <==> s.plock[p] == By(p))
    && (forall p | 0 <= p < |s.pc| && s.pc[p].ScanAt? ::
          s.pc[p].w < |s.pc| && s.pc[p].w != p && s.plock[s.pc[p].w] == By(p))
    && (forall p | 0 <= p < |s.pc| && s.plock[p].By? && s.plock[p].p != p ::
          s.plock[p].p < |s.pc| && s.pc[s.plock[p].p] == ScanAt(p))
  }

  predicate Ahead(c: Pc, p: nat) { c.Inside? || (c.Scan? && c.w <= p) || (c.ScanAt? && c.w <= p) }

  /** While the condition holds, every waiter still lies ahead of a wakeup that lk's holder owes. */
  ghost predicate Owed(s: State)
    requires Sized(s)
  {
    && (s.due ==> s.ready && s.lk.By?)
    && forall p | 0 <= p < |s.pc| && s.ready && Waits(s, p) ::
         s.due && s.lk.By? && s.lk.p < |s.pc| && Ahead(s.pc[s.lk.p], p)
  }

  ghost predicate Inv(s: State)
  {
    && Sized(s) && LkOk(s) && PlockOk(s) && Owed(s)
    && (forall p | 0 <= p < |s.pc| && s.asleep[p] :: s.pc[p] == Asleep)
    && (forall p | 0 <= p < |s.pc| && s.pc[p] == Falling :: !s.ready)
    && (forall p | 0 <= p < |s.pc| && s.pc[p].Scan? :: s.pc[p].w <= |s.pc|)
  }

  lemma StartInv(s: State)
    requires Starts(s)
    ensures Inv(s)
  {
  }

  lemma StepLk(s: State, t: State, p: nat, a: Action)
    requires Inv(s) && Step(LockFirst, s, t, p, a)
    ensures Sized(t) && LkOk(t) && |t.pc| == |s.pc|
  {
    hide Owed, PlockOk;
  }

  lemma OwnAt(s: State, t: State, p: nat, a: Action, q: nat)
    requires Inv(s) && Step(LockFirst, s, t, p, a) && Sized(t) && |t.pc| == |s.pc| && q < |t.pc|
    ensures HasOwn(t.pc[q]) <==> t.plock[q] == By(q)
  {
    hide Owed, LkOk;
  }

  lemma ScanLockAt(s: State, t: State, p: nat, a: Action, q: nat)
    requires Inv(s) && Step(LockFirst, s, t, p, a) && Sized(t) && |t.pc| == |s.pc| && q < |t.pc| && t.pc[q].ScanAt?
    ensures t.pc[q].w < |t.pc| && t.pc[q].w != q && t.plock[t.pc[q].w] == By(q)
  {
    hide Owed, LkOk;
  }

  lemma OtherLockAt(s: State, t: State, p: nat, a: Action, q: nat)
    requires Inv(s) && Step(LockFirst, s, t, p, a) && Sized(t) && |t.pc| == |s.pc|
    requires q < |t.pc| && t.plock[q].By? && t.plock[q].p != q
    ensures t.plock[q].p < |t.pc| && t.pc[t.plock[q].p] == ScanAt(q)
  {
    hide Owed, LkOk;
  }

  lemma StepPlock(s: State, t: State, p: nat, a: Action)
    requires Inv(s) && Step(LockFirst, s, t, p, a) && Sized(t) && |t.pc| == |s.pc|
    ensures PlockOk(t)
  {
    hide Step, Inv;
    forall q: nat | q < |t.pc| ensures HasOwn(t.pc[q]) <==> t.plock[q] == By(q) {
      OwnAt(s, t, p, a, q);
    }
    forall q: nat | q < |t.pc| && t.pc[q].ScanAt?
      ensures t.pc[q].w < |t.pc| && t.pc[q].w != q && t.plock[t.pc[q].w] == By(q)
    {
      ScanLockAt(s, t, p, a, q);
    }
    forall q: nat | q < |t.pc| && t.plock[q].By? && t.plock[q].p != q
      ensures t.plock[q].p < |t.pc| && t.pc[t.plock[q].p] == ScanAt(q)
    {
      OtherLockAt(s, t, p, a, q);
    }
  }

  lemma StepRest(s: State, t: State, p: nat, a: Action)
    requires Inv(s) && Step(LockFirst, s, t, p, a) && Sized(t)
    ensures forall q | 0 <= q < |t.pc| && t.asleep[q] :: t.pc[q] == Asleep
    ensures forall q | 0 <= q < |t.pc| && t.pc[q] == Falling :: !t.ready
  {
    hide Owed, PlockOk;
  }

  lemma StepScan(s: State, t: State, p: nat, a: Action)
    requires Inv(s) && Step(LockFirst, s, t, p, a) && Sized(t)
    ensures forall q | 0 <= q < |t.pc| && t.pc[q].Scan? :: t.pc[q].w <= |t.pc|
  {
    hide Owed, PlockOk, LkOk;
  }

  lemma StillOwed(s: State, t: State, p: nat, a: Action, q: nat)
    requires Inv(s) && Step(LockFirst, s, t, p, a) && Sized(t) && LkOk(t) && |t.pc| == |s.pc|
    requires q < |t.pc| && t.ready && Waits(t, q)
    ensures t.due && t.lk.By? && t.lk.p < |t.pc| && Ahead(t.pc[t.lk.p], q)
  {
    assert s.ready ==> Waits(s, q) by {
      hide Owed, PlockOk;
    }
    assert q == p ==> !HasLk(t.pc[p]);
  }

  /** A step makes nobody wait except the process that releases lk in sleep. */
  lemma StepOwed(s: State, t: State, p: nat, a: Action)
    requires Inv(s) && Step(LockFirst, s, t, p, a) && Sized(t) && LkOk(t) && |t.pc| == |s.pc|
    ensures Owed(t)
  {
    forall q | 0 <= q < |t.pc| && t.ready && Waits(t, q)
      ensures t.due && t.lk.By? && t.lk.p < |t.pc| && Ahead(t.pc[t.lk.p], q)
    {
      StillOwed(s, t, p, a, q);
    }
    assert t.due ==> t.ready && t.lk.By? by {
      hide PlockOk;
    }
  }

  lemma StepInv(s: State, t: State, p: nat, a: Action)
    requires Inv(s) && Step(LockFirst, s, t, p, a)
    ensures Inv(t)
  {
    hide Step;
    StepLk(s, t, p, a);
    StepPlock(s, t, p, a);
    StepRest(s, t, p, a);
    StepScan(s, t, p, a);
    StepOwed(s, t, p, a);
  }

  // ---------------------------------------------------------------- every run

  datatype Event = Event(p: nat, a: Action)

  ghost predicate IsRun(o: Order, ss: seq<State>, es: seq<Event>)
  {
    && |ss| == |es| + 1 && Starts(ss[0])
    && forall i | 0 <= i < |es| :: Step(o, ss[i], ss[i + 1], es[i].p, es[i].a)
  }

  lemma {:induction false} RunInv(ss: seq<State>, es: seq<Event>, i: nat)
    requires IsRun(LockFirst, ss, es) && i < |ss|
    ensures Inv(ss[i])
  {
    hide Step, Inv;
    if i == 0 {
      StartInv(ss[0]);
    } else {
      RunInv(ss, es, i - 1);
      StepInv(ss[i - 1], ss[i], es[i - 1].p, es[i - 1].a);
    }
  }

  /** In every run, once the condition holds and lk is free or no wakeup is owed, no process
      is asleep on the channel or on its way there. */
  lemma NoLostWakeup(ss: seq<State>, es: seq<Event>, i: nat, p: nat)
    requires IsRun(LockFirst, ss, es) && i < |ss| && ss[i].ready && (ss[i].lk == Free || !ss[i].due)
    requires p < |ss[i].pc|
    ensures Sized(ss[i]) && !Waits(ss[i], p)
  {
    RunInv(ss, es, i);
  }

  lemma Extend(o: Order, ss: seq<State>, es: seq<Event>, t: State, e: Event)
    requires IsRun(o, ss, es) && Step(o, ss[|es|], t, e.p, e.a)
    ensures IsRun(o, ss + [t], es + [e])
  {
    hide Step, Starts;
    var ss1, es1 := ss + [t], es + [e];
    forall i | 0 <= i < |es1| ensures Step(o, ss1[i], ss1[i + 1], es1[i].p, es1[i].a) {
      if i < |es| {
        assert Step(o, ss[i], ss[i + 1], es[i].p, es[i].a);
      }
    }
  }

  // ---------------------------------------------------------------- sleepers can come back

  /** n steps lead from s to t. */
  ghost predicate Leads(s: State, t: State, n: nat)
    decreases n
  {
    if n == 0 then s == t else exists m, p, a :: Step(LockFirst, s, m, p, a) && Leads(m, t, n - 1)
  }

  lemma Before(s: State, p: nat, a: Action, m: State, t: State, n: nat)
    requires Step(LockFirst, s, m, p, a) && Leads(m, t, n)
    ensures Leads(s, t, n + 1)
  {
  }

  lemma {:induction false} Joined(s: State, m: State, t: State, n: nat, k: nat)
    requires Leads(s, m, n) && Leads(m, t, k)
    ensures Leads(s, t, n + k)
    decreases n
  {
    hide Step;
    if n > 0 {
      var m1, p, a :| Step(LockFirst, s, m1, p, a) && Leads(m1, m, n - 1);
      Joined(m1, m, t, n - 1, k);
      Before(s, p, a, m1, t, n - 1 + k);
    }
  }

  /** The lock of a process is free unless the process itself or a scan holds it. */
  lemma OwnFree(s: State, p: nat)
    requires Inv(s) && p < |s.pc| && !HasOwn(s.pc[p]) && (s.lk == Free || s.lk == By(p) || s.pc[s.lk.p] != ScanAt(p))
    ensures s.plock[p] == Free
  {
  }

  /** A process that holds lk and finds the condition false can fall asleep, whatever the others do. */
  lemma CanFallAsleep(ss: seq<State>, es: seq<Event>, i: nat, p: nat) returns (t: State)
    requires IsRun(LockFirst, ss, es) && i < |ss| && p < |ss[i].pc| && ss[i].pc[p] == Inside && !ss[i].ready
    ensures Leads(ss[i], t, 3) && t.lk == Free && Sized(t) && p < |t.pc| && t.pc[p] == Asleep && t.asleep[p]
  {
    RunInv(ss, es, i);
    var s := ss[i];
    var s1 := s.(pc := s.pc[p := Falling], plock := s.plock[p := By(p)]);
    var s2 := s1.(pc := s1.pc[p := Committed], lk := Free);
    t := s2.(pc := s2.pc[p := Asleep], asleep := s2.asleep[p := true], plock := s2.plock[p := Free]);
    OwnFree(s, p);
    Before(s2, p, SleepEnd, t, t, 0);
    Before(s1, p, SleepRelease, s2, t, 1);
    Before(s, p, SleepLock, s1, t, 2);
  }

  /** How far the holder of lk is from letting go of it. */
  ghost function Work(s: State): (k: nat)
  {
    if !(s.lk.By? && s.lk.p < |s.pc|) then 0 else
    match s.pc[s.lk.p]
    case Inside => if s.due then 2 * |s.pc| + 4 else 2
    case Scan(w) => if w <= |s.pc| then 2 * (|s.pc| - w) + 3 else 1
    case ScanAt(w) => if w <= |s.pc| then 2 * (|s.pc| - w) + 2 else 1
    case _ => 1
  }

  /** What a step of the holder, or of a process in its way, leaves alone. */
  ghost predicate Beside(s: State, t: State, p: nat)
  {
    Inv(t) && |t.pc| == |s.pc| && p < |t.pc| && t.pc[p] == Asleep && t.ready == s.ready
  }

  ghost predicate Sleeper(s: State, p: nat) { Inv(s) && p < |s.pc| && s.pc[p] == Asleep }

  lemma OwnOrFree(s: State, h: nat, w: nat)
    requires Inv(s) && s.lk == By(h) && s.pc[h] == Scan(w) && w < |s.pc| && w != h && s.plock[w] != Free
    ensures s.pc[w] == Committed || s.pc[w] == Woken
  {
  }

  /** Whoever holds the lock that the scan of h needs next can let go of it. */
  lemma Unblock(s: State, h: nat, w: nat, p: nat) returns (t: State, n: nat)
    requires Sleeper(s, p) && s.lk == By(h) && s.pc[h] == Scan(w) && w < |s.pc| && w != h
    ensures Leads(s, t, n) && Beside(s, t, p) && t.lk == s.lk && t.pc[h] == s.pc[h] && t.due == s.due
    ensures t.plock[w] == Free && Work(t) == Work(s)
  {
    t, n := s, 0;
    if s.plock[w] != Free {
      OwnOrFree(s, h, w);
      var a := if s.pc[w] == Committed then SleepEnd else Resume;
      t := if s.pc[w] == Committed
      then s.(pc := s.pc[w := Asleep], asleep := s.asleep[w := true], plock := s.plock[w := Free])
      else s.(pc := s.pc[w := Back], plock := s.plock[w := Free]);
      n := 1;
      StepInv(s, t, w, a);
      Before(s, w, a, t, t, 0);
    }
  }

  lemma ScanLock(s: State, h: nat)
    requires Inv(s) && h < |s.pc| && s.pc[h].ScanAt?
    ensures s.pc[h].w < |s.pc| && s.pc[h].w != h
  {
  }

  lemma ScanStep(s: State, h: nat, p: nat) returns (a: Action, t: State)
    requires Sleeper(s, p) && s.lk == By(h) && h < |s.pc| && (s.pc[h].Scan? || s.pc[h].ScanAt?)
    requires var c := s.pc[h]; c.Scan? ==> c.w == |s.pc| || c.w == h || s.plock[c.w] == Free
    ensures Step(LockFirst, s, t, h, a) && Beside(s, t, p) && Work(t) < Work(s)
  {
    hide PlockOk, Owed;
    var w := s.pc[h].w;
    if s.pc[h].ScanAt? {
      ScanLock(s, h);
      a, t := Visit, s.(pc := s.pc[h := Scan(w + 1)], asleep := s.asleep[w := false], plock := s.plock[w := Free]);
    } else if w == h {
      a, t := Skip, s.(pc := s.pc[h := Scan(h + 1)]);
    } else if w == |s.pc| {
      a, t := EndScan, s.(pc := s.pc[h := Inside], due := false);
    } else {
      a, t := Acquire, s.(pc := s.pc[h := ScanAt(w)], plock := s.plock[w := By(h)]);
    }
    StepInv(s, t, h, a);
  }

  lemma HolderStep(s: State, h: nat, p: nat) returns (a: Action, t: State)
    requires Sleeper(s, p) && s.lk == By(h) && h < |s.pc| && !s.pc[h].Scan? && !s.pc[h].ScanAt?
    ensures Step(LockFirst, s, t, h, a) && Beside(s, t, p) && Work(t) < Work(s)
  {
    hide PlockOk, Owed;
    if s.pc[h].Falling? {
      a, t := SleepRelease, s.(pc := s.pc[h := Committed], lk := Free);
    } else if s.due {
      a, t := Wakeup, s.(pc := s.pc[h := Scan(0)]);
    } else {
      a, t := Leave, s.(pc := s.pc[h := Out], lk := Free);
    }
    StepInv(s, t, h, a);
  }

  lemma HolderIn(s: State) returns (h: nat)
    requires Inv(s) && s.lk.By?
    ensures s.lk == By(h) && h < |s.pc| && |s.plock| == |s.pc| && (s.pc[h].Scan? ==> s.pc[h].w <= |s.pc|)
  {
    h := s.lk.p;
  }

  lemma Stay(s: State)
    ensures Leads(s, s, 0)
  {
  }

  /** One step of the holder of lk towards letting go of it, others helping. */
  lemma Onward(s: State, p: nat) returns (t: State, n: nat)
    requires Sleeper(s, p) && s.lk.By?
    ensures Leads(s, t, n) && Beside(s, t, p) && Work(t) < Work(s)
  {
    hide Inv, Step, Leads, Work;
    var h := HolderIn(s);
    var c := s.pc[h];
    var m, k := s, 0;
    if c.Scan? && c.w < |s.pc| && c.w != h {
      m, k := Unblock(s, h, c.w, p);
    } else {
      Stay(s);
    }
    var a;
    if c.Scan? || c.ScanAt? {
      a, t := ScanStep(m, h, p);
    } else {
      a, t := HolderStep(m, h, p);
    }
    Stay(t);
    Before(m, h, a, t, t, 0);
    Joined(s, m, t, k, 1);
    n := k + 1;
  }

  /** Whoever holds lk can finish its wakeup and let go of it. */
  lemma {:induction false} Drains(s: State, p: nat) returns (t: State, n: nat)
    requires Sleeper(s, p)
    ensures Leads(s, t, n) && Beside(s, t, p) && t.lk == Free
    decreases Work(s)
  {
    hide Inv, Step, Work;
    if s.lk == Free {
      t, n := s, 0;
    } else {
      var m, k := Onward(s, p);
      var k2;
      t, k2 := Drains(m, p);
      Joined(s, m, t, k, k2);
      n := k + k2;
    }
  }

  lemma Returns(s: State, p: nat) returns (t: State)
    requires Sleeper(s, p) && s.ready && s.lk == Free
    ensures Leads(s, t, 3) && t.lk == By(p) && p < |t.pc| && t.pc[p] == Inside && t.ready
  {
    assert !Waits(s, p);
    OwnFree(s, p);
    var s1 := s.(pc := s.pc[p := Woken], plock := s.plock[p := By(p)]);
    var s2 := s1.(pc := s1.pc[p := Back], plock := s1.plock[p := Free]);
    t := s2.(pc := s2.pc[p := Inside], lk := By(p));
    Before(s2, p, Enter, t, t, 0);
    Before(s1, p, Resume, s2, t, 1);
    Before(s, p, Run, s1, t, 2);
  }

  /** From every state of every run in which the condition holds, a process in sleep can be woken
      and return to find lk its own and the condition true. */
  lemma SleeperReturns(ss: seq<State>, es: seq<Event>, i: nat, p: nat) returns (t: State, n: nat)
    requires IsRun(LockFirst, ss, es) && i < |ss| && p < |ss[i].pc| && ss[i].pc[p] == Asleep && ss[i].ready
    ensures Leads(ss[i], t, n) && t.lk == By(p) && p < |t.pc| && t.pc[p] == Inside && t.ready
  {
    hide Inv, Step, Leads, Starts;
    RunInv(ss, es, i);
    var m, k := Drains(ss[i], p);
    t := Returns(m, p);
    Joined(ss[i], m, t, k, 3);
    n := k + 3;
  }

  // ---------------------------------------------------------------- the other order

  ghost predicate Reachable(o: Order, s: State)
  {
    exists ss, es :: IsRun(o, ss, es) && ss[|es|] == s
  }

  lemma Reach(o: Order, s: State, t: State, p: nat, a: Action)
    requires Reachable(o, s) && Step(o, s, t, p, a)
    ensures Reachable(o, t)
  {
    hide Step;
    var ss, es :| IsRun(o, ss, es) && ss[|es|] == s;
    Extend(o, ss, es, t, Event(p, a));
    assert (ss + [t])[|es + [Event(p, a)]|] == t;
  }

  lemma StartReached(o: Order, s: State)
    requires Starts(s)
    ensures Reachable(o, s)
  {
    hide Step;
    var es: seq<Event> := [];
    assert IsRun(o, [s], es) && [s][|es|] == s;
  }

  lemma BeforeScan() returns (s: State)
    ensures s == State([Falling, Scan(0)], [false, false], By(1), [Free, Free], true, true)
    ensures Reachable(ReleaseFirst, s)
  {
    hide Reachable;
    var s0 := State([Out, Out], [false, false], Free, [Free, Free], false, false);
    StartReached(ReleaseFirst, s0);
    var s1 := s0.(pc := [Inside, Out], lk := By(0));
    Reach(ReleaseFirst, s0, s1, 0, Enter);
    var s2 := s1.(pc := [Falling, Out], lk := Free);
    Reach(ReleaseFirst, s1, s2, 0, SleepLock);
    var s3 := s2.(pc := [Falling, Inside], lk := By(1));
    Reach(ReleaseFirst, s2, s3, 1, Enter);
    var s4 := s3.(ready := true, due := true);
    Reach(ReleaseFirst, s3, s4, 1, Change(true));
    s := s4.(pc := [Falling, Scan(0)]);
    Reach(ReleaseFirst, s4, s, 1, Wakeup);
  }

  lemma AfterScan(s: State) returns (t: State)
    requires s == State([Falling, Scan(0)], [false, false], By(1), [Free, Free], true, true)
    requires Reachable(ReleaseFirst, s)
    ensures t == State([Falling, Inside], [false, false], By(1), [Free, Free], true, false)
    ensures Reachable(ReleaseFirst, t)
  {
    hide Reachable;
    var s1 := s.(pc := [Falling, ScanAt(0)], plock := [By(1), Free]);
    Reach(ReleaseFirst, s, s1, 1, Acquire);
    var s2 := s1.(pc := [Falling, Scan(1)], plock := [Free, Free]);
    Reach(ReleaseFirst, s1, s2, 1, Visit);
    var s3 := s2.(pc := [Falling, Scan(2)]);
    Reach(ReleaseFirst, s2, s3, 1, Skip);
    t := s3.(pc := [Falling, Inside], due := false);
    Reach(ReleaseFirst, s3, t, 1, EndScan);
  }

  lemma FallsAsleep(s: State)
    requires s == State([Falling, Inside], [false, false], By(1), [Free, Free], true, false)
    requires Reachable(ReleaseFirst, s)
    ensures Reachable(ReleaseFirst, State([Asleep, Out], [true, false], Free, [Free, Free], true, false))
  {
    hide Reachable;
    var s1 := s.(pc := [Falling, Out], lk := Free);
    Reach(ReleaseFirst, s, s1, 1, Leave);
    var s2 := s1.(pc := [Committed, Out], plock := [By(0), Free]);
    Reach(ReleaseFirst, s1, s2, 0, SleepRelease);
    Reach(ReleaseFirst, s2, State([Asleep, Out], [true, false], Free, [Free, Free], true, false), 0, SleepEnd);
  }

  /** Taking p->lock only after releasing lk loses the wakeup: a run of two processes ends
      with the condition true, every lock free, and the first process asleep. */
  lemma ReleaseFirstLoses()
    ensures Reachable(ReleaseFirst, State([Asleep, Out], [true, false], Free, [Free, Free], true, false))
  {
    hide Step, Reachable;
    var s := BeforeScan();
    var t := AfterScan(s);
    FallsAsleep(t);
  }
}

/** The sleep locks of kernel/sleeplock.c: the condition is that the lock is not taken. */
module SleepLocks {
  import opened SleepWakeup

  datatype Lock = Lock(s: State, holder: Held)

  /** acquiresleep changes the condition by taking a lock it found free under lk->lk,
      releasesleep by giving back one it holds. */
  ghost predicate LockStep(l: Lock, m: Lock, p: nat, a: Action)
  {
    && Step(LockFirst, l.s, m.s, p, a)
    && match a
       case Change(r) => if r then l.holder == By(p) && m.holder == Free else l.s.ready && m.holder == By(p)
       case _ => m.holder == l.holder
  }

  ghost predicate LockRun(ls: seq<Lock>, es: seq<Event>)
  {
    && |ls| == |es| + 1 && Starts(ls[0].s) && (ls[0].s.ready <==> ls[0].holder == Free)
    && forall i | 0 <= i < |es| :: LockStep(ls[i], ls[i + 1], es[i].p, es[i].a)
  }

  lemma {:induction false} LockInv(ls: seq<Lock>, es: seq<Event>, i: nat)
    requires LockRun(ls, es) && i < |ls|
    ensures Inv(ls[i].s) && (ls[i].s.ready <==> ls[i].holder == Free)
  {
    hide Inv, Starts;
    if i == 0 {
      StartInv(ls[0].s);
    } else {
      LockInv(ls, es, i - 1);
      assert LockStep(ls[i - 1], ls[i], es[i - 1].p, es[i - 1].a);
      StepInv(ls[i - 1].s, ls[i].s, es[i - 1].p, es[i - 1].a);
    }
  }

  /** A sleep lock that is free, with its spinlock free, has nobody asleep on it. */
  lemma FreeLockHasNoSleeper(ls: seq<Lock>, es: seq<Event>, i: nat, p: nat)
    requires LockRun(ls, es) && i < |ls| && ls[i].holder == Free && ls[i].s.lk == Free && p < |ls[i].s.pc|
    ensures Sized(ls[i].s) && !Waits(ls[i].s, p)
  {
    LockInv(ls, es, i);
  }

  /** Between a process taking the lock and giving it back, nobody else takes it. */
  lemma {:induction false} Exclusive(ls: seq<Lock>, es: seq<Event>, i: nat, j: nat, p: nat)
    requires LockRun(ls, es) && i <= j < |ls| && ls[i].holder == By(p)
    requires forall k | i <= k < j :: !(es[k].p == p && es[k].a == Change(true))
    ensures ls[j].holder == By(p)
  {
    hide Inv, Starts, Step;
    if i < j {
      Exclusive(ls, es, i, j - 1, p);
      LockInv(ls, es, j - 1);
      assert LockStep(ls[j - 1], ls[j], es[j - 1].p, es[j - 1].a);
    }
  }
}
