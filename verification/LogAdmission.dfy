/** begin_op, log_write and end_op of kernel/log.c as steps of many processes, each critical
    section under log.lock one step, with the sleepers of begin_op and the two panics. */
module LogAdmission {
  import opened Common
  import opened LogSpec

  /** Where a process is with respect to the log; `used` counts the new block numbers it
      has recorded, `calls` all its log_write calls. */
  datatype Proc = Idle | Asleep | Running(used: nat, calls: nat)

  datatype State = State(size: nat, lh: seq<nat>, committing: bool, procs: seq<Proc>)

  datatype Event = Begin(p: nat) | Write(p: nat, b: nat) | End(p: nat) | CommitDone

  datatype Outcome = Next(s: State) | Panic

  // ---------------------------------------------------------------- sums over processes

  function Sum(procs: seq<Proc>, f: Proc -> int): (n: int)
  {
    if procs == [] then 0 else Sum(procs[..|procs| - 1], f) + f(procs[|procs| - 1])
  }

  function One(x: Proc): (w: int) { if x.Running? then 1 else 0 }
  function Left(x: Proc): (w: int) { if x.Running? then MAXOPBLOCKS - x.used else 0 }
  function CallsLeft(x: Proc): (w: int) { if x.Running? then MAXOPBLOCKS - x.calls else 0 }

  /** log.outstanding */
  function Outstanding(procs: seq<Proc>): (n: int) { Sum(procs, One) }

  /** New block numbers that outstanding operations may still record. */
  function Reserved(procs: seq<Proc>): (n: int) { Sum(procs, Left) }

  lemma {:induction false} SumAt(procs: seq<Proc>, f: Proc -> int, p: nat, x: Proc)
    requires p < |procs|
    ensures Sum(procs[p := x], f) == Sum(procs, f) - f(procs[p]) + f(x)
  {
    var n := |procs| - 1;
    if p < n {
      SumAt(procs[..n], f, p, x);
      assert procs[p := x][..n] == procs[..n][p := x];
    } else {
      assert procs[p := x][..n] == procs[..n];
    }
  }

  /** One process accounts for no more than the whole sum. */
  lemma {:induction false} SumBound(procs: seq<Proc>, f: Proc -> int, p: nat)
    requires p < |procs| && forall q | 0 <= q < |procs| :: f(procs[q]) >= 0
    ensures 0 <= f(procs[p]) <= Sum(procs, f)
  {
    var n := |procs| - 1;
    if p < n {
      SumBound(procs[..n], f, p);
    } else if n > 0 {
      SumBound(procs[..n], f, 0);
    }
  }

  lemma {:induction false} SumLe(procs: seq<Proc>, f: Proc -> int, c: int)
    requires forall q | 0 <= q < |procs| :: f(procs[q]) <= c * One(procs[q])
    ensures Sum(procs, f) <= c * Sum(procs, One)
  {
    if procs != [] {
      SumLe(procs[..|procs| - 1], f, c);
    }
  }

  lemma {:induction false} WokenSum(procs: seq<Proc>, f: Proc -> int)
    requires f(Asleep) == f(Idle) == 0
    ensures Sum(Woken(procs), f) == Sum(procs, f)
  {
    if procs != [] {
      WokenSum(procs[..|procs| - 1], f);
      assert Woken(procs)[..|procs| - 1] == Woken(procs[..|procs| - 1]);
    }
  }

  // ---------------------------------------------------------------- the steps

  /** wakeup(&log): every sleeper becomes runnable and tests again from the top of begin_op. */
  function Woken(procs: seq<Proc>): (r: seq<Proc>)
    ensures |r| == |procs|
  {
    seq(|procs|, i requires 0 <= i < |procs| => if procs[i].Asleep? then Idle else procs[i])
  }

  /** The admission test of begin_op. */
  predicate Admissible(s: State)
  {
    !s.committing && |s.lh| + (Outstanding(s.procs) + 1) * MAXOPBLOCKS <= LOGSIZE
  }

  /** What a process may do next. A writer stays within its budget of new block numbers. */
  predicate Enabled(s: State, e: Event)
  {
    match e
    case Begin(p) => p < |s.procs| && s.procs[p].Idle?
    case Write(p, b) => p < |s.procs| && s.procs[p].Running? && (b in s.lh || s.procs[p].used < MAXOPBLOCKS)
    case End(p) => p < |s.procs| && s.procs[p].Running?
    case CommitDone => s.committing
  }

  function Step(s: State, e: Event): (r: Outcome)
    requires Enabled(s, e)
  {
    match e
    case Begin(p) =>
      if Admissible(s) then Next(s.(procs := s.procs[p := Running(0, 0)]))
      else Next(s.(procs := s.procs[p := Asleep]))
    case Write(p, b) =>
      var x := s.procs[p];
      if |s.lh| >= LOGSIZE || |s.lh| >= s.size - 1 || Outstanding(s.procs) < 1 then Panic
      else if b in s.lh then Next(s.(procs := s.procs[p := Running(x.used, x.calls + 1)]))
      else Next(s.(lh := s.lh + [b], procs := s.procs[p := Running(x.used + 1, x.calls + 1)]))
    case End(p) =>
      if s.committing then Panic
      else
        var procs := s.procs[p := Idle];
        if Outstanding(procs) == 0 then Next(s.(procs := procs, committing := true))
        else Next(s.(procs := Woken(procs)))
    case CommitDone =>
      Next(s.(lh := [], committing := false, procs := Woken(s.procs)))
  }

  /** One event leads from s to t. */
  ghost predicate Does(s: State, e: Event, t: State) { Enabled(s, e) && Step(s, e) == Next(t) }

  /** What holds whenever log.lock is free. */
  ghost predicate Inv(s: State)
  {
    && |s.lh| + Reserved(s.procs) <= LOGSIZE
    && (forall i, j | 0 <= i < j < |s.lh| :: s.lh[i] != s.lh[j])
    && (forall p | 0 <= p < |s.procs| && s.procs[p].Running? ::
          s.procs[p].used <= MAXOPBLOCKS && s.procs[p].used <= s.procs[p].calls)
    && (s.committing ==> Outstanding(s.procs) == 0)
    && (forall p | 0 <= p < |s.procs| && s.procs[p].Asleep? :: !Admissible(s))
  }

  lemma BeginKeeps(s: State, p: nat)
    requires Inv(s) && Enabled(s, Begin(p))
    ensures Step(s, Begin(p)).Next? && Inv(Step(s, Begin(p)).s)
  {
    SumAt(s.procs, One, p, Running(0, 0));
    SumAt(s.procs, Left, p, Running(0, 0));
    SumAt(s.procs, One, p, Asleep);
    SumAt(s.procs, Left, p, Asleep);
    SumLe(s.procs, Left, MAXOPBLOCKS);
  }

  /** What begin_op does to log.outstanding. */
  lemma BeginCounts(s: State, p: nat)
    requires Enabled(s, Begin(p))
    ensures Step(s, Begin(p)).s.procs[p].Running? <==> Admissible(s)
    ensures Outstanding(Step(s, Begin(p)).s.procs) == Outstanding(s.procs) + if Admissible(s) then 1 else 0
    ensures !Admissible(s) ==> !Admissible(Step(s, Begin(p)).s)
  {
    hide Sum;
    SumAt(s.procs, One, p, Running(0, 0));
    SumAt(s.procs, One, p, Asleep);
  }

  /** log_write leaves log.outstanding alone and finds it positive. */
  lemma WriteCounts(s: State, p: nat, b: nat)
    requires Enabled(s, Write(p, b))
    ensures Outstanding(s.procs) >= 1
    ensures Step(s, Write(p, b)).Next? ==> Outstanding(Step(s, Write(p, b)).s.procs) == Outstanding(s.procs)
  {
    hide Sum;
    var x := s.procs[p];
    SumBound(s.procs, One, p);
    SumAt(s.procs, One, p, Running(x.used, x.calls + 1));
    SumAt(s.procs, One, p, Running(x.used + 1, x.calls + 1));
  }

  lemma EndCounts(s: State, p: nat)
    requires Enabled(s, End(p)) && (s.committing ==> Outstanding(s.procs) == 0)
    ensures !s.committing && Step(s, End(p)).Next?
    ensures Outstanding(Step(s, End(p)).s.procs) == Outstanding(s.procs) - 1 >= 0
    ensures Step(s, End(p)).s.committing <==> Outstanding(s.procs) == 1
  {
    hide Sum;
    SumBound(s.procs, One, p);
    SumAt(s.procs, One, p, Idle);
    WokenSum(s.procs[p := Idle], One);
  }

  lemma CommitCounts(s: State)
    requires s.committing
    ensures Outstanding(Step(s, CommitDone).s.procs) == Outstanding(s.procs)
  {
    hide Sum;
    WokenSum(s.procs, One);
  }

  /** A commit runs only with no operation running. */
  lemma NoneRunning(s: State)
    requires Inv(s) && s.committing
    ensures forall p | 0 <= p < |s.procs| :: !s.procs[p].Running?
  {
    hide Sum;
    forall p | 0 <= p < |s.procs| ensures !s.procs[p].Running? {
      SumBound(s.procs, One, p);
    }
  }

  /** An operation with two blocks of its budget to spare cannot make log_write panic, on any
      log of LOGSIZE blocks or more. */
  lemma SpareNeverPanics(s: State, p: nat, b: nat)
    requires Inv(s) && s.size >= LOGSIZE && p < |s.procs| && s.procs[p].Running? && s.procs[p].used + 2 <= MAXOPBLOCKS
    ensures Enabled(s, Write(p, b)) && Step(s, Write(p, b)).Next?
  {
    hide Sum;
    SumBound(s.procs, Left, p);
    SumBound(s.procs, One, p);
  }

  /** log_write: exactly when it panics, and that it keeps the budget otherwise. */
  lemma WriteKeeps(s: State, p: nat, b: nat)
    requires Inv(s) && Enabled(s, Write(p, b))
    ensures b !in s.lh ==> |s.lh| < LOGSIZE
    ensures Step(s, Write(p, b)).Panic? <==> |s.lh| == LOGSIZE || |s.lh| >= s.size - 1
    ensures Step(s, Write(p, b)).Next? ==> Inv(Step(s, Write(p, b)).s)
  {
    hide Sum;
    var x := s.procs[p];
    var y := if b in s.lh then Running(x.used, x.calls + 1) else Running(x.used + 1, x.calls + 1);
    SumBound(s.procs, One, p);
    SumBound(s.procs, Left, p);
    SumAt(s.procs, One, p, y);
    SumAt(s.procs, Left, p, y);
  }

  lemma EndKeeps(s: State, p: nat)
    requires Inv(s) && Enabled(s, End(p))
    ensures Step(s, End(p)).Next? && Inv(Step(s, End(p)).s)
  {
    SumBound(s.procs, One, p);
    SumAt(s.procs, One, p, Idle);
    SumAt(s.procs, Left, p, Idle);
    WokenSum(s.procs[p := Idle], One);
    WokenSum(s.procs[p := Idle], Left);
  }

  lemma CommitKeeps(s: State)
    requires Inv(s) && s.committing
    ensures Inv(Step(s, CommitDone).s)
  {
    WokenSum(s.procs, One);
    WokenSum(s.procs, Left);
    SumLe(s.procs, Left, MAXOPBLOCKS);
  }

  // ---------------------------------------------------------------- whole runs

  /** Some sequence of enabled events leads from s to t without a panic. */
  ghost predicate Path(s: State, es: seq<Event>, t: State)
  {
    if es == [] then s == t else
    var u, e := es[..|es| - 1], es[|es| - 1];
    exists m: State :: Path(s, u, m) && Enabled(m, e) && Step(m, e) == Next(t)
  }

  function Boot(size: nat, nproc: nat): (s: State)
  {
    State(size, [], false, seq(nproc, _ => Idle))
  }

  lemma {:induction false} IdleSum(n: nat, f: Proc -> int)
    requires f(Idle) == 0
    ensures Sum(seq(n, _ => Idle), f) == 0
  {
    if n > 0 {
      IdleSum(n - 1, f);
      assert seq(n, _ => Idle)[..n - 1] == seq(n - 1, _ => Idle);
    }
  }

  lemma BootInv(size: nat, nproc: nat)
    ensures Inv(Boot(size, nproc)) && Outstanding(Boot(size, nproc).procs) == 0
  {
    IdleSum(nproc, Left);
    IdleSum(nproc, One);
  }

  /** Every reachable state keeps the log budget, lists distinct blocks, commits only with
      nothing outstanding, and has no sleeper that the admission test would let in. */
  lemma {:induction false} Always(size: nat, nproc: nat, es: seq<Event>, t: State)
    requires Path(Boot(size, nproc), es, t)
    ensures Inv(t) && t.size == size && |t.procs| == nproc
  {
    if es == [] {
      BootInv(size, nproc);
    } else {
      var u, e := es[..|es| - 1], es[|es| - 1];
      var m: State :| Path(Boot(size, nproc), u, m) && Enabled(m, e) && Step(m, e) == Next(t);
      Always(size, nproc, u, m);
      match e {
        case Begin(p) => BeginKeeps(m, p);
        case Write(p, b) => WriteKeeps(m, p, b);
        case End(p) => EndKeeps(m, p);
        case CommitDone => CommitKeeps(m);
      }
    }
  }

  /** Where the panics are, over all runs: end_op's is unreachable, and log_write's is
      reached exactly on a list that is as long as the log or the header allow. With
      room for LOGSIZE log blocks this can only be a write that would be absorbed. */
  lemma PanicExactly(size: nat, nproc: nat, es: seq<Event>, t: State, e: Event)
    requires Path(Boot(size, nproc), es, t) && Enabled(t, e)
    ensures Step(t, e).Panic? <==> e.Write? && (|t.lh| == LOGSIZE || |t.lh| >= size - 1)
    ensures size >= LOGSIZE + 1 && Step(t, e).Panic? ==> e.b in t.lh
  {
    Always(size, nproc, es, t);
    match e {
      case Begin(p) => BeginKeeps(t, p);
      case Write(p, b) => WriteKeeps(t, p, b);
      case End(p) => EndKeeps(t, p);
      case CommitDone =>
    }
  }

  /** A list that is not empty leaves room for the header in the log region. */
  lemma {:induction false} ListBound(size: nat, nproc: nat, es: seq<Event>, t: State)
    requires Path(Boot(size, nproc), es, t)
    ensures t.size == size && |t.lh| <= LOGSIZE && (t.lh == [] || |t.lh| <= size - 1)
  {
    if es != [] {
      var u, e := es[..|es| - 1], es[|es| - 1];
      var m: State :| Path(Boot(size, nproc), u, m) && Enabled(m, e) && Step(m, e) == Next(t);
      ListBound(size, nproc, u, m);
    }
  }

  // ------------------------------------------------- operations that keep to a few blocks

  /** From s on, process p stays in its operation and writes blocks of ls only. */
  ghost predicate KeepsTo(es: seq<Event>, p: nat, ls: set<nat>)
  {
    forall i | 0 <= i < |es| :: es[i] != End(p) && (es[i].Write? && es[i].p == p ==> es[i].b in ls)
  }

  /** What an operation has used of its budget are blocks it was allowed to write. */
  ghost predicate Within(s: State, p: nat, ls: set<nat>)
  {
    Inv(s) && p < |s.procs| && s.procs[p].Running? && s.procs[p].used <= |ls * Elements(s.lh)|
  }

  lemma WithinStep(s: State, e: Event, p: nat, ls: set<nat>)
    requires Within(s, p, ls) && Enabled(s, e) && Step(s, e).Next? && KeepsTo([e], p, ls)
    ensures Within(Step(s, e).s, p, ls)
  {
    hide Inv, Sum, KeepsTo;
    var t := Step(s, e).s;
    FirstKept(e, p, ls);
    match e
    case Begin(q) => BeginKeeps(s, q);
    case Write(q, b) =>
      WriteKeeps(s, q, b);
      MoreListed(ls, s.lh, b, q == p && b !in s.lh);
    case End(q) => EndKeeps(s, q);
    case CommitDone =>
      NoneRunning(s);
      assert false;
  }

  lemma FirstKept(e: Event, p: nat, ls: set<nat>)
    requires KeepsTo([e], p, ls)
    ensures e != End(p) && (e.Write? && e.p == p ==> e.b in ls)
  {
    assert [e][0] == e;
  }

  lemma MoreListed(ls: set<nat>, lh: seq<nat>, b: nat, added: bool)
    requires added ==> b in ls && b !in lh
    ensures |ls * Elements(lh)| + (if added then 1 else 0) <= |ls * Elements(lh + [b])|
  {
    var old1, new1 := ls * Elements(lh), ls * Elements(lh + [b]);
    if added {
      assert new1 == old1 + {b};
    } else if b in ls && b !in lh {
      assert new1 == old1 + {b};
    } else {
      assert new1 == old1;
    }
  }

  lemma {:induction false} WithinPath(s: State, es: seq<Event>, t: State, p: nat, ls: set<nat>)
    requires Within(s, p, ls) && Path(s, es, t) && KeepsTo(es, p, ls)
    ensures Within(t, p, ls) && t.size == s.size
  {
    if es != [] {
      var u, e := es[..|es| - 1], es[|es| - 1];
      var m: State :| Path(s, u, m) && Enabled(m, e) && Step(m, e) == Next(t);
      WithinPath(s, u, m, p, ls);
      WithinStep(m, e, p, ls);
    }
  }

  /** An operation that writes at most MAXOPBLOCKS - 2 different blocks, however often, never
      reaches "too big a transaction", whatever the others do, on any log of LOGSIZE blocks. A
      chunk of filewrite writes seven. */
  lemma FewBlocksNeverPanic(size: nat, nproc: nat, es0: seq<Event>, s: State, p: nat, ls: set<nat>,
                            es: seq<Event>, t: State, b: nat)
    requires Path(Boot(size, nproc), es0, s) && size >= LOGSIZE && p < nproc && |s.procs| == nproc
    requires s.procs[p] == Running(0, 0)
    requires Path(s, es, t) && KeepsTo(es, p, ls) && b in ls && |ls| <= MAXOPBLOCKS - 2
    ensures Enabled(t, Write(p, b)) && Step(t, Write(p, b)).Next?
  {
    hide Inv, Path, Step, Enabled;
    Always(size, nproc, es0, s);
    WithinPath(s, es, t, p, ls);
    CardLe(ls * Elements(t.lh), ls);
    SpareNeverPanics(t, p, b);
  }

  // ------------------------------------------------- operations that count every call

  /** The operation also stays within MAXOPBLOCKS log_write calls, absorbed or not. */
  ghost predicate Careful(s: State, e: Event)
  {
    Enabled(s, e) && (e.Write? ==> s.procs[e.p].calls < MAXOPBLOCKS)
  }

  ghost predicate CarefulPath(s: State, es: seq<Event>, t: State)
  {
    if es == [] then s == t else
    var u, e := es[..|es| - 1], es[|es| - 1];
    exists m: State :: CarefulPath(s, u, m) && Careful(m, e) && Step(m, e) == Next(t)
  }

  ghost predicate CarefulInv(s: State)
  {
    && |s.lh| + Sum(s.procs, CallsLeft) <= LOGSIZE
    && (s.committing ==> Outstanding(s.procs) == 0)
    && (forall p | 0 <= p < |s.procs| && s.procs[p].Running? :: s.procs[p].calls <= MAXOPBLOCKS)
  }

  lemma CarefulStep(s: State, e: Event)
    requires CarefulInv(s) && Careful(s, e)
    ensures s.size >= LOGSIZE + 1 ==> Step(s, e).Next?
    ensures Step(s, e).Next? ==> CarefulInv(Step(s, e).s)
  {
    match e {
      case Begin(p) => CarefulBegin(s, p);
      case Write(p, b) => CarefulWrite(s, p, b);
      case End(p) => CarefulEnd(s, p);
      case CommitDone =>
        WokenSum(s.procs, One);
        WokenSum(s.procs, CallsLeft);
        SumLe(s.procs, CallsLeft, MAXOPBLOCKS);
    }
  }

  lemma CarefulBegin(s: State, p: nat)
    requires CarefulInv(s) && Enabled(s, Begin(p))
    ensures Step(s, Begin(p)).Next? && CarefulInv(Step(s, Begin(p)).s)
  {
    var x := if Admissible(s) then Running(0, 0) else Asleep;
    SumAt(s.procs, One, p, x);
    SumAt(s.procs, CallsLeft, p, x);
    SumLe(s.procs, CallsLeft, MAXOPBLOCKS);
  }

  lemma CarefulEnd(s: State, p: nat)
    requires CarefulInv(s) && Enabled(s, End(p))
    ensures Step(s, End(p)).Next? && CarefulInv(Step(s, End(p)).s)
  {
    SumBound(s.procs, One, p);
    SumAt(s.procs, One, p, Idle);
    SumAt(s.procs, CallsLeft, p, Idle);
    WokenSum(s.procs[p := Idle], One);
    WokenSum(s.procs[p := Idle], CallsLeft);
  }

  lemma CarefulWrite(s: State, p: nat, b: nat)
    requires CarefulInv(s) && Careful(s, Write(p, b))
    ensures |s.lh| < LOGSIZE
    ensures s.size >= LOGSIZE + 1 ==> Step(s, Write(p, b)).Next?
    ensures Step(s, Write(p, b)).Next? ==> CarefulInv(Step(s, Write(p, b)).s)
  {
    hide Sum;
    var x := s.procs[p];
    var y := if b in s.lh then Running(x.used, x.calls + 1) else Running(x.used + 1, x.calls + 1);
    SumBound(s.procs, One, p);
    SumBound(s.procs, CallsLeft, p);
    SumAt(s.procs, One, p, y);
    SumAt(s.procs, CallsLeft, p, y);
  }

  /** Operations that make at most MAXOPBLOCKS log_write calls never panic, provided the
      log region has a header and LOGSIZE log blocks. */
  lemma {:induction false} CarefulNeverPanics(size: nat, nproc: nat, es: seq<Event>, t: State, e: Event)
    requires CarefulPath(Boot(size, nproc), es, t) && Careful(t, e) && size >= LOGSIZE + 1
    ensures Step(t, e).Next?
  {
    CarefulAlways(size, nproc, es, t);
    CarefulStep(t, e);
  }

  lemma {:induction false} CarefulAlways(size: nat, nproc: nat, es: seq<Event>, t: State)
    requires CarefulPath(Boot(size, nproc), es, t)
    ensures CarefulInv(t) && t.size == size
  {
    if es == [] {
      IdleSum(nproc, CallsLeft);
    } else {
      var u, e := es[..|es| - 1], es[|es| - 1];
      var m: State :| CarefulPath(Boot(size, nproc), u, m) && Careful(m, e) && Step(m, e) == Next(t);
      CarefulAlways(size, nproc, u, m);
      CarefulStep(m, e);
    }
  }

  // ---------------------------------------------------------------- the panics are reachable

  /** Three operations fill the log with k blocks from `first` on. */
  ghost function Filled(size: nat, first: nat, k: nat): (s: State)
    requires k <= LOGSIZE
  {
    var of := (p: nat) => if k <= 10 * p then 0 else if k >= 10 * p + 10 then 10 else k - 10 * p;
    State(size, seq(k, i requires 0 <= i => first + i), false,
          [Running(of(0), of(0)), Running(of(1), of(1)), Running(of(2), of(2))])
  }

  lemma Extend(s: State, u: seq<Event>, m: State, e: Event, t: State)
    requires CarefulPath(s, u, m) && Path(s, u, m) && Careful(m, e) && Step(m, e) == Next(t)
    ensures CarefulPath(s, u + [e], t) && Path(s, u + [e], t)
  {
    assert (u + [e])[..|u|] == u;
  }

  lemma Nowhere(s: State)
    ensures CarefulPath(s, [], s) && Path(s, [], s)
  {
  }

  lemma ThreeProcs(procs: seq<Proc>)
    requires |procs| == 3
    ensures Outstanding(procs) == One(procs[0]) + One(procs[1]) + One(procs[2])
  {
    var two, one := procs[..2], procs[..2][..1];
    assert Sum(one, One) == Sum(one[..0], One) + One(procs[0]);
    assert Sum(two, One) == Sum(one, One) + One(procs[1]);
  }

  lemma {:induction false} ReachFilled(size: nat, first: nat, k: nat) returns (es: seq<Event>)
    requires k <= LOGSIZE && k <= size - 1
    ensures CarefulPath(Boot(size, 3), es, Filled(size, first, k)) && Path(Boot(size, 3), es, Filled(size, first, k))
  {
    if k == 0 {
      es := ReachOpen(size, first);
    } else {
      var before := ReachFilled(size, first, k - 1);
      FillOne(size, first, k);
      Extend(Boot(size, 3), before, Filled(size, first, k - 1), Write((k - 1) / 10, first + k - 1),
             Filled(size, first, k));
      es := before + [Write((k - 1) / 10, first + k - 1)];
    }
  }

  lemma FillOne(size: nat, first: nat, k: nat)
    requires 0 < k <= LOGSIZE && k <= size - 1
    ensures Careful(Filled(size, first, k - 1), Write((k - 1) / 10, first + k - 1))
    ensures Step(Filled(size, first, k - 1), Write((k - 1) / 10, first + k - 1)) == Next(Filled(size, first, k))
  {
    ThreeProcs(Filled(size, first, k - 1).procs);
    assert first + k - 1 !in Filled(size, first, k - 1).lh;
    assert Filled(size, first, k - 1).lh + [first + k - 1] == Filled(size, first, k).lh;
  }

  lemma ReachOpen(size: nat, first: nat) returns (es: seq<Event>)
    ensures CarefulPath(Boot(size, 3), es, Filled(size, first, 0)) && Path(Boot(size, 3), es, Filled(size, first, 0))
  {
    hide Sum, Path, CarefulPath;
    Nowhere(Boot(size, 3));
    var r, s0 := Running(0, 0), Boot(size, 3);
    var s1, s2, s3 := s0.(procs := [r, Idle, Idle]), s0.(procs := [r, r, Idle]), s0.(procs := [r, r, r]);
    assert s0.procs == [Idle, Idle, Idle];
    ThreeProcs(s0.procs); ThreeProcs(s1.procs); ThreeProcs(s2.procs);
    Extend(s0, [], s0, Begin(0), s1);
    Extend(s0, [] + [Begin(0)], s1, Begin(1), s2);
    Extend(s0, [] + [Begin(0)] + [Begin(1)], s2, Begin(2), s3);
    assert s3 == Filled(size, first, 0);
    es := [] + [Begin(0)] + [Begin(1)] + [Begin(2)];
  }

  /** Whatever the size of the log and whichever blocks are written, an operation that stays within
      its budget of new blocks can panic: with the log full, by writing again a listed block. */
  lemma AbsorbedWritePanics(size: nat, first: nat) returns (es: seq<Event>)
    requires size >= LOGSIZE + 1
    ensures Path(Boot(size, 3), es, Filled(size, first, LOGSIZE))
    ensures Enabled(Filled(size, first, LOGSIZE), Write(0, first))
    ensures Step(Filled(size, first, LOGSIZE), Write(0, first)).Panic?
  {
    es := ReachFilled(size, first, LOGSIZE);
    assert Filled(size, first, LOGSIZE).lh[0] == first;
  }

  /** With the log that mkfs makes, nlog == LOGSIZE, even careful operations panic. */
  lemma MkfsLogTooSmall(first: nat) returns (es: seq<Event>)
    ensures CarefulPath(Boot(LOGSIZE, 3), es, Filled(LOGSIZE, first, LOGSIZE - 1))
    ensures Careful(Filled(LOGSIZE, first, LOGSIZE - 1), Write(2, first + LOGSIZE))
    ensures Step(Filled(LOGSIZE, first, LOGSIZE - 1), Write(2, first + LOGSIZE)).Panic?
  {
    es := ReachFilled(LOGSIZE, first, LOGSIZE - 1);
  }

  /** Three operations that filled the log end one after the other: the last one commits. */
  lemma ReachFullCommit(size: nat, first: nat) returns (es: seq<Event>, t: State)
    requires size >= LOGSIZE + 1
    ensures Path(Boot(size, 3), es, t) && t.committing && t.lh == Filled(size, first, LOGSIZE).lh
    ensures |t.lh| == LOGSIZE && forall b | b in t.lh :: first <= b < first + LOGSIZE
  {
    hide Sum, Path, CarefulPath;
    es := ReachFilled(size, first, LOGSIZE);
    var s0 := Filled(size, first, LOGSIZE);
    var r := Running(10, 10);
    var s1, s2 := s0.(procs := [Idle, r, r]), s0.(procs := [Idle, Idle, r]);
    t := s0.(procs := [Idle, Idle, Idle], committing := true);
    ThreeProcs(s1.procs); ThreeProcs(s2.procs); ThreeProcs(t.procs);
    assert Woken(s1.procs) == s1.procs && Woken(s2.procs) == s2.procs;
    assert s0.procs[0 := Idle] == s1.procs && s1.procs[1 := Idle] == s2.procs && s2.procs[2 := Idle] == t.procs;
    Extend(Boot(size, 3), es, s0, End(0), s1);
    Extend(Boot(size, 3), es + [End(0)], s1, End(1), s2);
    Extend(Boot(size, 3), es + [End(0)] + [End(1)], s2, End(2), t);
    es := es + [End(0)] + [End(1)] + [End(2)];
  }
}
