/** The pipe of kernel/pipe.c: a ring of PIPESIZE bytes with 32-bit counters that wrap. A write
    that sleeps is resumed by another call, so any interleaving is a sequence of calls. */
module Pipe {
  import opened Common

  const PIPESIZE := 512

  /** How pipewrite leaves the lock: finished, -1, or asleep, count bytes into its buffer. */
  datatype Written = Done(count: nat) | Broken(count: nat) | Full(count: nat)
  datatype Gotten = Got(bytes: seq<Byte>) | Killed | Empty

  lemma WrapAdd(t: nat, d: nat)
    requires d < UINT
    ensures (t + d) % UINT == if t % UINT + d < UINT then t % UINT + d else t % UINT + d - UINT
  {
  }

  lemma SlotOf(t: nat)
    ensures t % UINT % PIPESIZE == t % PIPESIZE
  {
  }

  /** The counters tell how many bytes wait, however often they wrapped. */
  lemma Counters(accepted: nat, taken: nat)
    requires taken <= accepted <= taken + PIPESIZE
    ensures taken % UINT == accepted % UINT <==> taken == accepted
    ensures accepted % UINT == (taken % UINT + PIPESIZE) % UINT <==> accepted == taken + PIPESIZE
    ensures (accepted % UINT - taken % UINT) % UINT == accepted - taken
  {
    WrapAdd(taken, accepted - taken);
  }

  class Pipe {
    const data: array<Byte>
    var nread: nat
    var nwrite: nat
    var readopen: bool
    var writeopen: bool
    ghost var accepted: seq<Byte>    // every byte ever put in
    ghost var taken: seq<Byte>       // every byte ever taken out
    ghost var readers: set<nat>      // processes asleep on nread
    ghost var writers: set<nat>      // processes asleep on nwrite

    ghost predicate Valid()
      reads this, data
    {
      && data.Length == PIPESIZE
      && taken <= accepted && |accepted| <= |taken| + PIPESIZE
      && nwrite == |accepted| % UINT && nread == |taken| % UINT
      && forall j | |taken| <= j < |accepted| :: data[j % PIPESIZE] == accepted[j]
    }

    /** No reader sleeps while bytes wait or no more can come, no writer while there is room
        or nobody can read. */
    ghost predicate Awake()
      reads this
    {
      && (readers != {} ==> |taken| == |accepted| && writeopen)
      && (writers != {} ==> |accepted| == |taken| + PIPESIZE && readopen)
    }

    constructor ()
      ensures Valid() && Awake() && accepted == [] && taken == [] && readers == {} && writers == {}
      ensures readopen && writeopen && fresh(data)
    {
      data := new Byte[PIPESIZE];
      nread, nwrite, readopen, writeopen := 0, 0, true, true;
      accepted, taken, readers, writers := [], [], {}, {};
    }

    /** pipeclose: the pipe is freed exactly when the second end closes, and nobody sleeps on
        for the end that is gone. */
    method Close(writable: bool) returns (free: bool)
      requires Valid()
      modifies this`readopen, this`writeopen, this`readers, this`writers
      ensures Valid() && writeopen == (old(writeopen) && !writable) && readopen == (old(readopen) && writable)
      ensures free <==> !readopen && !writeopen
      ensures if writable then readers == {} && writers == old(writers) else writers == {} && readers == old(readers)
      ensures old(Awake()) ==> Awake()
    {
      if writable {
        writeopen := false;
        readers := {};
      } else {
        readopen := false;
        writers := {};
      }
      free := !readopen && !writeopen;
    }

    /** One byte into the ring. */
    method Put(x: Byte)
      requires Valid() && |accepted| < |taken| + PIPESIZE
      modifies this`nwrite, this`accepted, data
      ensures Valid() && accepted == old(accepted) + [x]
    {
      SlotOf(|accepted|);
      WrapAdd(|accepted|, 1);
      forall j | |taken| <= j < |accepted| ensures j % PIPESIZE != |accepted| % PIPESIZE {
        OtherSlot(j, |accepted|, PIPESIZE);
      }
      data[nwrite % PIPESIZE] := x;
      nwrite := (nwrite + 1) % UINT;
      accepted := accepted + [x];
    }

    /** One byte out of the ring. */
    method Take() returns (x: Byte)
      requires Valid() && |taken| < |accepted|
      modifies this`nread, this`taken
      ensures Valid() && x == accepted[|old(taken)|] && taken == old(taken) + [x]
    {
      SlotOf(|taken|);
      WrapAdd(|taken|, 1);
      x := data[nread % PIPESIZE];
      nread := (nread + 1) % UINT;
      taken := taken + [x];
    }

    /** Where pipewrite stops that starts at byte i: after n bytes, when the read end is closed or
        the kill arrives (killed(pr) is true from round killAt on), when the pipe is full, or
        where copyin fails. */
    ghost function Stop(src: seq<Byte>, n: int, i: nat, killAt: nat): (k: int)
      reads this
    {
      Min(Min(Max(i, n), if readopen then Max(i, killAt) else i), Min(i + |taken| + PIPESIZE - |accepted|, |src|))
    }

    /** pipewrite by process me from byte i on, until it ends or must sleep. src is what copyin
        can reach of the n bytes asked for. Sleepers are left behind exactly when the kill
        arrives after bytes were stored and a reader was asleep. */
    method Write(me: nat, src: seq<Byte>, n: int, i: nat, killAt: nat) returns (r: Written)
      requires Valid() && i <= |src| && (n < 0 || |src| <= n)
      modifies this`nwrite, this`accepted, this`readers, this`writers, data
      ensures Valid() && r.count == old(Stop(src, n, i, killAt)) && i <= r.count <= |src|
      ensures accepted == old(accepted) + src[i..r.count]
      ensures r.Broken? <==> r.count < n && (!readopen || killAt <= r.count)
      ensures r.Full? <==> r.count < n && !r.Broken? && |accepted| == |taken| + PIPESIZE
      ensures readers == if r.Broken? then old(readers) else {}
      ensures writers == old(writers) + if r.Full? then {me} else {}
      ensures old(Awake()) ==> (Awake() <==> !(r.Broken? && r.count > i && old(readers) != {}))
    {
      var k := i;
      while k < n
        invariant i <= k <= |src| && k <= old(Stop(src, n, i, killAt)) && Valid()
        invariant accepted == old(accepted) + src[i..k]
        invariant readers == old(readers) && writers == old(writers)
      {
        if !readopen || killAt <= k {
          return Broken(k);
        }
        Counters(|accepted|, |taken|);
        if nwrite == (nread + PIPESIZE) % UINT {
          readers := {};
          writers := writers + {me};
          return Full(k);
        }
        if k == |src| {
          break;
        }
        Put(src[k]);
        k := k + 1;
      }
      readers := {};
      return Done(k);
    }

    /** piperead by process me. reach is how many bytes copyout can store. A byte is lost, taken
        from the pipe and not delivered, exactly when reach is less than what there is to read. */
    method Read(me: nat, n: int, reach: nat, killed: bool) returns (r: Gotten)
      requires Valid()
      modifies this`nread, this`taken, this`readers, this`writers
      ensures Valid()
      ensures r.Empty? <==> |old(taken)| == |accepted| && writeopen && !killed
      ensures r.Killed? <==> |old(taken)| == |accepted| && writeopen && killed
      ensures r.Got? ==>
                var m := Max(0, Min(n, |accepted| - |old(taken)|));
                && |r.bytes| == Min(reach, m) && r.bytes == accepted[|old(taken)|..|old(taken)| + |r.bytes|]
                && |taken| == |old(taken)| + (if reach < m then reach + 1 else m)
      ensures r.Got? && n > 0 && reach > 0 && r.bytes == [] ==> !writeopen && taken == accepted
      ensures !r.Got? ==> taken == old(taken)
      ensures writers == if r.Got? then {} else old(writers)
      ensures readers == old(readers) + if r.Empty? then {me} else {}
      ensures old(Awake()) ==> Awake()
    {
      Counters(|accepted|, |taken|);
      if nread == nwrite && writeopen {
        if killed {
          return Killed;
        }
        readers := readers + {me};
        return Empty;
      }
      ghost var start := |taken|;
      var bytes: seq<Byte> := [];
      var i := 0;
      while i < n
        invariant 0 <= i == |bytes| <= Max(0, n) && i <= reach && Valid() && accepted == old(accepted)
        invariant taken == old(taken) + bytes && readers == old(readers) && writers == old(writers)
      {
        Counters(|accepted|, |taken|);
        if nread == nwrite {
          break;
        }
        var ch := Take();
        if i >= reach {
          break;
        }
        bytes := bytes + [ch];
        i := i + 1;
      }
      assert bytes == accepted[start..start + |bytes|] by {
        assert taken[start..start + |bytes|] == bytes;
        assert taken == accepted[..|taken|];
      }
      writers := {};
      return Got(bytes);
    }
  }

  /** A run in which a byte waits, the write end is open, and a reader sleeps on: reader 1 finds
      the pipe empty, then writer 2 is killed after the first of two bytes. */
  method SleeperLeftBehind() returns (p: Pipe)
    ensures p.Valid() && p.readers == {1} && p.writeopen && |p.taken| < |p.accepted| && !p.Awake()
  {
    p := new Pipe();
    var r := p.Read(1, 1, 1, false);
    var w := p.Write(2, [0, 0], 2, 0, 1);
  }

  /** Two bytes wait and both are asked for, but only one can be stored: the second is lost. */
  method ByteLost() returns (p: Pipe, r: Gotten)
    ensures p.Valid() && p.accepted == [1, 2] && r == Got([1]) && p.taken == [1, 2]
  {
    p := new Pipe();
    var w := p.Write(2, [1, 2], 2, 0, 2);
    r := p.Read(1, 2, 1, false);
    assert p.accepted[0..1] == [1];
    assert p.taken == p.accepted[..2];
  }
}
