/** The split virtqueue of kernel/virtio_disk.c, shared with a device that may complete the
    requests it has taken in any order. */
module Virtio {
  import opened Blocks
  import opened Common

  const NUM := 8
  const U16 := 0x1_0000
  const BUSY := 0xff                 // the status byte before the device writes it

  datatype Target = Nowhere | Header(op: nat) | Data(b: nat) | Status(of: nat)
  datatype Desc = Desc(addr: Target, write: bool, more: bool, next: nat)
  datatype Info = Info(b: nat, status: nat)
  datatype Op = Op(write: bool, sector: nat)

  datatype Phase = Posted | Taken | Completed | Reported

  /** A request in flight, filed under the first descriptor of its chain; code is the status the
      device reported. */
  datatype Req = Req(data: nat, status: nat, b: nat, write: bool, blockno: nat, phase: Phase, code: nat)

  const Cleared := Desc(Nowhere, false, false, 0)

  // ---------------------------------------------------------------- chains

  function Parts(h: nat, r: Req): (s: set<nat>) { {h, r.data, r.status} }

  /** b->blockno * (BSIZE / 512) in 32-bit arithmetic. */
  function Sector(blockno: nat): (n: nat) { blockno * 2 % 0x1_0000_0000 }

  /** The three descriptors that the device walks for head h. */
  ghost predicate Chain(desc: seq<Desc>, info: seq<Info>, ops: seq<Op>, h: nat, r: Req)
  {
    && |desc| == |info| == |ops| == NUM && h < NUM && r.data < NUM && r.status < NUM
    && h != r.data && h != r.status && r.data != r.status
    && desc[h] == Desc(Header(h), false, true, r.data)
    && desc[r.data] == Desc(Data(r.b), !r.write, true, r.status)
    && desc[r.status] == Desc(Status(h), true, false, 0)
    && ops[h] == Op(r.write, Sector(r.blockno))
    && info[h].b == r.b && info[h].status == if r.phase.Completed? || r.phase.Reported? then r.code else BUSY
  }

  /** Different blocks have different sectors exactly while block numbers stay below 2^31. */
  lemma SectorExact(blockno: nat)
    requires blockno < 0x1_0000_0000
    ensures Sector(blockno) == blockno * 2 <==> blockno < 0x8000_0000
    ensures blockno >= 0x8000_0000 ==> Sector(blockno) == Sector(blockno - 0x8000_0000)
  {
  }

  /** Every descriptor is free or in exactly one chain. */
  ghost predicate Owned(free: seq<bool>, reqs: map<nat, Req>, owner: map<nat, nat>)
  {
    && |free| == NUM
    && (forall i | 0 <= i < NUM :: free[i] <==> i !in owner)
    && (forall i | i in owner :: i < NUM && owner[i] in reqs && i in Parts(owner[i], reqs[owner[i]]))
    && (forall h, i | h in reqs && i in Parts(h, reqs[h]) :: i in owner && owner[i] == h)
  }

  ghost predicate Chains(desc: seq<Desc>, info: seq<Info>, ops: seq<Op>, reqs: map<nat, Req>)
  {
    |desc| == |info| == |ops| == NUM && forall h | h in reqs :: Chain(desc, info, ops, h, reqs[h])
  }

  /** Requests in flight are for different buffers and different sectors. */
  ghost predicate Apart(reqs: map<nat, Req>)
  {
    && (forall h | h in reqs :: reqs[h].b != 0)
    && (forall g, h | g in reqs && h in reqs && g != h ::
          reqs[g].b != reqs[h].b && Sector(reqs[g].blockno) != Sector(reqs[h].blockno))
  }

  /** b->disk says whether the driver still waits; once the device has succeeded, buffer and disk
      agree, and only success is reported. */
  ghost predicate Buffers(busy: set<nat>, data: map<nat, Block>, media: map<nat, Block>, reqs: map<nat, Req>)
  {
    && (forall h | h in reqs :: reqs[h].b in busy <==> !reqs[h].phase.Reported?)
    && (forall b | b in busy :: exists h :: h in reqs && reqs[h].b == b)
    && (forall h | h in reqs :: reqs[h].b in data && Sector(reqs[h].blockno) in media)
    && (forall h | h in reqs && (reqs[h].phase.Completed? || reqs[h].phase.Reported?) && reqs[h].code == 0 ::
          data[reqs[h].b] == media[Sector(reqs[h].blockno)])
    && (forall h | h in reqs && reqs[h].phase.Reported? :: reqs[h].code == 0)
  }

  /** virtq_avail or virtq_used with the reader's position. */
  datatype Queue = Queue(ring: seq<nat>, produced: nat, consumed: nat)
  {
    function Put(x: nat): (q: Queue)
      requires |ring| == NUM
    {
      Queue(ring[produced % NUM := x], (produced + 1) % U16, consumed)
    }

    function Taken(): (q: Queue) { this.(consumed := (consumed + 1) % U16) }
  }

  // ---------------------------------------------------------------- the two rings

  /** A ring of NUM entries with 16-bit positions: log is everything ever put in, and its
      entries from k on are still to be taken out. */
  ghost predicate Ring(ring: seq<nat>, produced: nat, consumed: nat, log: seq<nat>, k: nat)
  {
    && |ring| == NUM && k <= |log| <= k + NUM && produced == |log| % U16 && consumed == k % U16
    && forall j | k <= j < |log| :: ring[j % NUM] == log[j]
  }

  /** The 16-bit positions decide emptiness and find the right entry, however often they wrapped. */
  lemma RingTake(ring: seq<nat>, produced: nat, consumed: nat, log: seq<nat>, k: nat)
    requires Ring(ring, produced, consumed, log, k)
    ensures consumed != produced <==> k < |log|
    ensures k < |log| ==> ring[consumed % NUM] == log[k] && Ring(ring, produced, (consumed + 1) % U16, log, k + 1)
  {
  }

  lemma SameSlot(n: nat)
    ensures n % U16 % NUM == n % NUM
  {
  }

  lemma RingPut(ring: seq<nat>, produced: nat, consumed: nat, log: seq<nat>, k: nat, x: nat)
    requires Ring(ring, produced, consumed, log, k) && |log| < k + NUM
    ensures Ring(ring[produced % NUM := x], (produced + 1) % U16, consumed, log + [x], k)
  {
    SameSlot(|log|);
    forall j | k <= j < |log| ensures j % NUM != |log| % NUM {
      OtherSlot(j, |log|, NUM);
    }
    assert (produced + 1) % U16 == (|log| + 1) % U16;
  }

  /** The waiting entries of a ring are exactly the requests of one phase, each once. */
  ghost predicate Waiting(log: seq<nat>, k: nat, reqs: map<nat, Req>, phase: Phase)
  {
    && k <= |log|
    && (forall j | k <= j < |log| :: log[j] in reqs && reqs[log[j]].phase == phase)
    && (forall i, j | k <= i < j < |log| :: log[i] != log[j])
    && (forall h | h in reqs && reqs[h].phase == phase :: h in log[k..])
  }

  /** A ring holds no more entries than there are requests. */
  lemma WaitingBound(log: seq<nat>, k: nat, reqs: map<nat, Req>, phase: Phase)
    requires Waiting(log, k, reqs, phase)
    ensures |log| - k <= |reqs|
  {
    var s := Elements(log[k..]);
    ElementsCard(log[k..]);
    forall h | h in s ensures h in reqs.Keys {
      var j :| 0 <= j < |log[k..]| && log[k..][j] == h;
      assert h == log[k + j];
    }
    CardLe(s, reqs.Keys);
    assert |reqs| == |reqs.Keys|;
  }

  // ---------------------------------------------------------------- how many

  ghost function Slots(): (s: set<nat>)
    ensures |s| == NUM && forall i: nat :: i in s <==> i < NUM
  {
    {0, 1, 2, 3, 4, 5, 6, 7}
  }

  /** The descriptors of a set of chains. */
  ghost function Used(owner: map<nat, nat>, hs: set<nat>): (s: set<nat>)
  {
    set i | i in owner && owner[i] in hs
  }

  lemma OneChain(desc: seq<Desc>, info: seq<Info>, ops: seq<Op>, free: seq<bool>, reqs: map<nat, Req>,
                 owner: map<nat, nat>, h: nat)
    requires Owned(free, reqs, owner) && Chains(desc, info, ops, reqs) && h in reqs
    ensures |Parts(h, reqs[h])| == 3
    ensures forall i :: i in Parts(h, reqs[h]) <==> i in owner && owner[i] == h
  {
    assert Chain(desc, info, ops, h, reqs[h]);
  }

  lemma {:induction false} ThreeEach(desc: seq<Desc>, info: seq<Info>, ops: seq<Op>, free: seq<bool>,
                                     reqs: map<nat, Req>,
                                     owner: map<nat, nat>, hs: set<nat>)
    requires Owned(free, reqs, owner) && Chains(desc, info, ops, reqs) && hs <= reqs.Keys
    ensures |Used(owner, hs)| == 3 * |hs|
  {
    hide Owned, Chains, Parts;
    if hs == {} {
      assert Used(owner, hs) == {};
    } else {
      var h :| h in hs;
      ThreeEach(desc, info, ops, free, reqs, owner, hs - {h});
      OneChain(desc, info, ops, free, reqs, owner, h);
      UnionCard(Used(owner, hs - {h}), Parts(h, reqs[h]));
      assert Used(owner, hs) == Used(owner, hs - {h}) + Parts(h, reqs[h]);
    }
  }

  ghost function FreeSet(free: seq<bool>): (s: set<nat>) { set i | 0 <= i < |free| && free[i] }

  lemma FreeOrUsed(free: seq<bool>, reqs: map<nat, Req>, owner: map<nat, nat>)
    requires Owned(free, reqs, owner)
    ensures Used(owner, reqs.Keys) !! FreeSet(free) && Slots() == Used(owner, reqs.Keys) + FreeSet(free)
  {
    hide Slots;
  }

  /** Each request holds three descriptors, so at most two are in flight. */
  lemma AtMostTwo(desc: seq<Desc>, info: seq<Info>, ops: seq<Op>, free: seq<bool>, reqs: map<nat, Req>,
                  owner: map<nat, nat>)
    requires Owned(free, reqs, owner) && Chains(desc, info, ops, reqs)
    ensures |reqs| <= 2 && |FreeSet(free)| == NUM - 3 * |reqs|
  {
    hide Chains;
    ThreeEach(desc, info, ops, free, reqs, owner, reqs.Keys);
    FreeOrUsed(free, reqs, owner);
    UnionCard(Used(owner, reqs.Keys), FreeSet(free));
    assert Slots() == Used(owner, reqs.Keys) + FreeSet(free);
    assert |reqs| == |reqs.Keys|;
  }

  // ---------------------------------------------------------------- a new request

  /** free after taking the descriptors in idx out of it. */
  ghost predicate Cut(free0: seq<bool>, free: seq<bool>, idx: seq<nat>)
  {
    && |free0| == |free| == NUM && (forall j | 0 <= j < |idx| :: idx[j] < NUM && free0[idx[j]])
    && (forall i, j | 0 <= i < j < |idx| :: idx[i] != idx[j])
    && forall i: nat | i < NUM :: free[i] <==> free0[i] && i !in idx
  }

  /** Descriptors in use are as before. */
  ghost predicate DescKept(free: seq<bool>, desc0: seq<Desc>, desc: seq<Desc>)
  {
    |free| == |desc0| == |desc| == NUM && forall i | 0 <= i < NUM && !free[i] :: desc[i] == desc0[i]
  }

  lemma CutMore(free0: seq<bool>, free: seq<bool>, idx: seq<nat>, d: nat)
    requires Cut(free0, free, idx) && d < NUM && free[d]
    ensures Cut(free0, free[d := false], idx + [d])
  {
    var idx1, free1 := idx + [d], free[d := false];
    forall i: nat | i < NUM ensures free1[i] <==> free0[i] && i !in idx1 {
      assert i in idx1 <==> i in idx || i == d;
    }
  }

  lemma CutBack(free0: seq<bool>, free: seq<bool>, idx: seq<nat>)
    requires Cut(free0, free, idx) && |idx| > 0
    ensures Cut(free0, free[idx[0] := true], idx[1..]) && !free[idx[0]]
  {
    var free1, rest := free[idx[0] := true], idx[1..];
    forall i: nat | i < NUM ensures free1[i] <==> free0[i] && i !in rest {
      if i in idx && i != idx[0] {
        var j :| 0 <= j < |idx| && idx[j] == i;
        assert rest[j - 1] == i;
      }
    }
  }

  lemma CutNone(free0: seq<bool>, free: seq<bool>, idx: seq<nat>)
    requires Cut(free0, free, idx) && forall i | 0 <= i < NUM :: !free[i]
    ensures |FreeSet(free0)| == |idx|
  {
    forall i: nat ensures i in FreeSet(free0) <==> i in idx {
      if i in idx {
        var j :| 0 <= j < |idx| && idx[j] == i;
      }
    }
    assert FreeSet(free0) == Elements(idx);
    ElementsCard(idx);
  }

  lemma CutAll(free0: seq<bool>, free: seq<bool>)
    requires Cut(free0, free, [])
    ensures free == free0
  {
  }

  lemma CutThree(free0: seq<bool>, free: seq<bool>, idx: seq<nat>)
    requires Cut(free0, free, idx) && |idx| == 3
    ensures |FreeSet(free0)| >= 3 && free0[idx[0]] && free0[idx[1]] && free0[idx[2]]
    ensures idx[0] != idx[1] && idx[0] != idx[2] && idx[1] != idx[2]
    ensures free == free0[idx[0] := false][idx[1] := false][idx[2] := false]
  {
    var s := Elements(idx);
    ElementsCard(idx);
    CardLe(s, FreeSet(free0));
    forall i: nat ensures i in idx <==> i == idx[0] || i == idx[1] || i == idx[2] {
    }
  }

  lemma StartOwned(free: seq<bool>, reqs: map<nat, Req>, owner: map<nat, nat>, h: nat, r: Req)
    requires Owned(free, reqs, owner) && h < NUM && r.data < NUM && r.status < NUM
    requires h != r.data && h != r.status && r.data != r.status && free[h] && free[r.data] && free[r.status]
    ensures Owned(free[h := false][r.data := false][r.status := false], reqs[h := r],
                  owner[h := h][r.data := h][r.status := h])
    ensures h !in reqs
  {
    assert h in reqs ==> h in Parts(h, reqs[h]);
    var owner1 := owner[h := h][r.data := h][r.status := h];
    forall g, i | g in reqs && i in Parts(g, reqs[g]) ensures i in owner1 && owner1[i] == g {
      assert i in owner;
    }
  }

  /** A free descriptor is in no chain. */
  lemma FreeNotPart(free: seq<bool>, reqs: map<nat, Req>, owner: map<nat, nat>, i: nat, h: nat)
    requires Owned(free, reqs, owner) && i < NUM && free[i] && h in reqs
    ensures i !in Parts(h, reqs[h])
  {
  }

  lemma StartChains(free: seq<bool>, desc: seq<Desc>, info: seq<Info>, ops: seq<Op>, reqs: map<nat, Req>,
                    owner: map<nat, nat>,
                    h: nat, r: Req, desc1: seq<Desc>, info1: seq<Info>, ops1: seq<Op>)
    requires Owned(free, reqs, owner) && Chains(desc, info, ops, reqs) && h < NUM && r.data < NUM && r.status < NUM
    requires free[h] && free[r.data] && free[r.status] && Chain(desc1, info1, ops1, h, r)
    requires forall i | 0 <= i < NUM && i !in Parts(h, r) :: desc1[i] == desc[i]
    requires forall i | 0 <= i < NUM && i != h :: info1[i] == info[i] && ops1[i] == ops[i]
    ensures Chains(desc1, info1, ops1, reqs[h := r])
  {
    hide Owned;
    forall g | g in reqs && g != h ensures Chain(desc1, info1, ops1, g, reqs[g]) {
      assert Chain(desc, info, ops, g, reqs[g]);
      FreeNotPart(free, reqs, owner, h, g);
      FreeNotPart(free, reqs, owner, r.data, g);
      FreeNotPart(free, reqs, owner, r.status, g);
    }
  }

  /** The buffer and the sector of a new request are not in flight already. */
  ghost predicate Idle(reqs: map<nat, Req>, b: nat, blockno: nat)
  {
    forall h | h in reqs :: reqs[h].b != b && Sector(reqs[h].blockno) != Sector(blockno)
  }

  lemma StartBuffers(busy: set<nat>, data: map<nat, Block>, media: map<nat, Block>, reqs: map<nat, Req>, h: nat, r: Req)
    requires Buffers(busy, data, media, reqs) && Apart(reqs) && h !in reqs && r.phase == Posted
    requires Idle(reqs, r.b, r.blockno)
    requires r.b != 0 && r.b in data && Sector(r.blockno) in media
    ensures Buffers(busy + {r.b}, data, media, reqs[h := r]) && Apart(reqs[h := r])
  {
    var reqs1 := reqs[h := r];
    forall b | b in busy + {r.b} ensures exists g :: g in reqs1 && reqs1[g].b == b {
      if b == r.b {
        assert reqs1[h].b == b;
      } else {
        var g :| g in reqs && reqs[g].b == b;
        assert reqs1[g].b == b;
      }
    }
  }

  /** Entering a phase at the back of its ring. */
  lemma WaitingEnter(log: seq<nat>, k: nat, reqs: map<nat, Req>, h: nat, r: Req)
    requires Waiting(log, k, reqs, r.phase) && (h in reqs ==> reqs[h].phase != r.phase)
    ensures Waiting(log + [h], k, reqs[h := r], r.phase)
  {
    var log1, reqs1 := log + [h], reqs[h := r];
    forall g | g in reqs1 && reqs1[g].phase == r.phase ensures g in log1[k..] {
      if g == h {
        assert log1[k..][|log| - k] == h;
      } else {
        assert g in log[k..];
        assert log1[k..] == log[k..] + [h];
      }
    }
  }

  /** Other phases do not notice. */
  lemma WaitingOther(log: seq<nat>, k: nat, reqs: map<nat, Req>, h: nat, r: Req, phase: Phase)
    requires Waiting(log, k, reqs, phase) && r.phase != phase && (h in reqs ==> reqs[h].phase != phase)
    ensures Waiting(log, k, reqs[h := r], phase)
  {
  }

  /** Leaving a phase at the front of its ring. */
  lemma WaitingLeave(log: seq<nat>, k: nat, reqs: map<nat, Req>, r: Req, phase: Phase)
    requires Waiting(log, k, reqs, phase) && k < |log| && r.phase != phase
    ensures Waiting(log, k + 1, reqs[log[k] := r], phase)
  {
    var reqs1 := reqs[log[k] := r];
    forall g | g in reqs1 && reqs1[g].phase == phase ensures g in log[k + 1..] {
      assert g in log[k..];
      var j :| 0 <= j < |log[k..]| && log[k..][j] == g;
      assert log[k + 1..][j - 1] == g;
    }
  }

  lemma WaitingGone(log: seq<nat>, k: nat, reqs: map<nat, Req>, h: nat, phase: Phase)
    requires Waiting(log, k, reqs, phase) && h in reqs && reqs[h].phase != phase
    ensures Waiting(log, k, reqs - {h}, phase)
  {
  }

  // ---------------------------------------------------------------- a change of phase

  lemma PhaseOwned(free: seq<bool>, reqs: map<nat, Req>, owner: map<nat, nat>, h: nat, p: Phase, code: nat)
    requires Owned(free, reqs, owner) && h in reqs
    ensures Owned(free, reqs[h := reqs[h].(phase := p, code := code)], owner)
  {
    var reqs1 := reqs[h := reqs[h].(phase := p, code := code)];
    assert forall g | g in reqs :: Parts(g, reqs1[g]) == Parts(g, reqs[g]);
  }

  lemma PhaseChains(desc: seq<Desc>, info: seq<Info>, ops: seq<Op>, reqs: map<nat, Req>, h: nat, p: Phase, code: nat,
                    info1: seq<Info>)
    requires Chains(desc, info, ops, reqs) && h in reqs && h < NUM
    requires info1 == info[h := info[h].(status := if p.Completed? || p.Reported? then code else BUSY)]
    ensures Chains(desc, info1, ops, reqs[h := reqs[h].(phase := p, code := code)])
  {
    assert Chain(desc, info, ops, h, reqs[h]);
    forall g | g in reqs && g != h ensures Chain(desc, info1, ops, g, reqs[g]) {
      assert Chain(desc, info, ops, g, reqs[g]);
    }
  }

  lemma PhaseApart(reqs: map<nat, Req>, h: nat, p: Phase, code: nat)
    requires Apart(reqs) && h in reqs
    ensures Apart(reqs[h := reqs[h].(phase := p, code := code)])
  {
  }

  /** What a request moves: the buffer to its sector, or the sector to the buffer; junk on an error. */
  ghost predicate Moved(r: Req, code: nat, junk: Block, data: map<nat, Block>, media: map<nat, Block>,
                        data1: map<nat, Block>, media1: map<nat, Block>)
  {
    var n := Sector(r.blockno);
    && r.b in data && n in media
    && data1 == (if r.write then data else data[r.b := if code == 0 then media[n] else junk])
    && media1 == if r.write then media[n := if code == 0 then data[r.b] else junk] else media
  }

  lemma BusyHas(busy: set<nat>, reqs: map<nat, Req>, reqs1: map<nat, Req>, busy1: set<nat>)
    requires forall b | b in busy :: exists h :: h in reqs && reqs[h].b == b
    requires (forall h | h in reqs :: h in reqs1 && reqs1[h].b == reqs[h].b) && busy1 <= busy
    ensures forall b | b in busy1 :: exists h :: h in reqs1 && reqs1[h].b == b
  {
    forall b | b in busy1 ensures exists h :: h in reqs1 && reqs1[h].b == b {
      var h :| h in reqs && reqs[h].b == b;
      assert reqs1[h].b == b;
    }
  }

  /** The device is done: after success the request's buffer and sector agree; the others' are untouched. */
  lemma CompleteBuffers(busy: set<nat>, data: map<nat, Block>, media: map<nat, Block>, reqs: map<nat, Req>, h: nat,
                        code: nat, junk: Block, data1: map<nat, Block>, media1: map<nat, Block>)
    requires Buffers(busy, data, media, reqs) && Apart(reqs) && h in reqs && reqs[h].phase == Taken
    requires Moved(reqs[h], code, junk, data, media, data1, media1)
    ensures Buffers(busy, data1, media1, reqs[h := reqs[h].(phase := Completed, code := code)])
  {
    hide Sector;
    BusyHas(busy, reqs, reqs[h := reqs[h].(phase := Completed, code := code)], busy);
  }

  lemma ReportBuffers(busy: set<nat>, data: map<nat, Block>, media: map<nat, Block>, reqs: map<nat, Req>, h: nat)
    requires Buffers(busy, data, media, reqs) && Apart(reqs) && h in reqs && reqs[h].phase == Completed
    requires reqs[h].code == 0
    ensures Buffers(busy - {reqs[h].b}, data, media, reqs[h := reqs[h].(phase := Reported)])
  {
    var reqs1 := reqs[h := reqs[h].(phase := Reported)];
    BusyHas(busy, reqs, reqs1, busy - {reqs[h].b});
  }

  lemma TakeBuffers(busy: set<nat>, data: map<nat, Block>, media: map<nat, Block>, reqs: map<nat, Req>, h: nat)
    requires Buffers(busy, data, media, reqs) && h in reqs && reqs[h].phase == Posted
    ensures Buffers(busy, data, media, reqs[h := reqs[h].(phase := Taken)])
  {
    BusyHas(busy, reqs, reqs[h := reqs[h].(phase := Taken)], busy);
  }

  // ---------------------------------------------------------------- the end of a request

  lemma EndOwned(free: seq<bool>, reqs: map<nat, Req>, owner: map<nat, nat>, h: nat, free1: seq<bool>)
    requires Owned(free, reqs, owner) && h in reqs && |free1| == NUM
    requires forall i: nat | i < NUM :: free1[i] <==> free[i] || i in Parts(h, reqs[h])
    ensures Owned(free1, reqs - {h}, owner - Parts(h, reqs[h]))
  {
    var owner1, reqs1 := owner - Parts(h, reqs[h]), reqs - {h};
    forall i | i in owner1 ensures owner1[i] in reqs1 && i in Parts(owner1[i], reqs1[owner1[i]]) {
      assert i in owner && i !in Parts(h, reqs[h]);
    }
    forall g, i | g in reqs1 && i in Parts(g, reqs1[g]) ensures i in owner1 && owner1[i] == g {
      assert i in owner && owner[i] == g;
    }
  }

  lemma PartsDisjoint(free: seq<bool>, reqs: map<nat, Req>, owner: map<nat, nat>, g: nat, h: nat)
    requires Owned(free, reqs, owner) && g in reqs && h in reqs && g != h
    ensures Parts(g, reqs[g]) !! Parts(h, reqs[h])
  {
    forall i | i in Parts(g, reqs[g]) ensures i !in Parts(h, reqs[h]) {
      assert i in owner && owner[i] == g;
    }
  }

  lemma EndChains(free: seq<bool>, desc: seq<Desc>, info: seq<Info>, ops: seq<Op>, reqs: map<nat, Req>,
                  owner: map<nat, nat>,
                  h: nat, desc1: seq<Desc>, info1: seq<Info>)
    requires Owned(free, reqs, owner) && Chains(desc, info, ops, reqs) && h in reqs && |desc1| == |info1| == NUM
    requires forall i | 0 <= i < NUM && i !in Parts(h, reqs[h]) :: desc1[i] == desc[i]
    requires forall i | 0 <= i < NUM && i != h :: info1[i] == info[i]
    ensures Chains(desc1, info1, ops, reqs - {h})
  {
    forall g | g in reqs && g != h ensures Chain(desc1, info1, ops, g, reqs[g]) {
      assert Chain(desc, info, ops, g, reqs[g]);
      PartsDisjoint(free, reqs, owner, g, h);
    }
  }

  lemma EndBuffers(busy: set<nat>, data: map<nat, Block>, media: map<nat, Block>, reqs: map<nat, Req>, h: nat)
    requires Buffers(busy, data, media, reqs) && h in reqs && reqs[h].phase == Reported && Apart(reqs)
    ensures Buffers(busy, data, media, reqs - {h}) && Apart(reqs - {h})
  {
    forall b | b in busy ensures exists g :: g in reqs - {h} && (reqs - {h})[g].b == b {
      var g :| g in reqs && reqs[g].b == b;
      assert (reqs - {h})[g].b == b;
    }
  }

  // ---------------------------------------------------------------- the whole state

  /** The disk structure, the buffers' disk and data fields, and what the device stores. */
  datatype State = State(free: seq<bool>, desc: seq<Desc>, info: seq<Info>, ops: seq<Op>, avail: Queue, used: Queue,
                         busy: set<nat>, data: map<nat, Block>, media: map<nat, Block>)

  /** The history of both rings and the requests in flight. */
  datatype Book = Book(reqs: map<nat, Req>, owner: map<nat, nat>,
                       posted: seq<nat>, taken: nat, done: seq<nat>, seen: nat)

  ghost predicate Ok(s: State, g: Book)
  {
    && Owned(s.free, g.reqs, g.owner) && Chains(s.desc, s.info, s.ops, g.reqs)
    && Apart(g.reqs) && Buffers(s.busy, s.data, s.media, g.reqs)
    && Ring(s.avail.ring, s.avail.produced, s.avail.consumed, g.posted, g.taken)
    && Waiting(g.posted, g.taken, g.reqs, Posted)
    && Ring(s.used.ring, s.used.produced, s.used.consumed, g.done, g.seen) && Waiting(g.done, g.seen, g.reqs, Completed)
  }

  /** A chain over three descriptors of idx, for a new request. */
  function Filled(s: State, idx: seq<nat>, b: nat, write: bool, blockno: nat): (t: State)
    requires |s.desc| == |s.info| == |s.ops| == NUM && |idx| == 3 && idx[0] < NUM && idx[1] < NUM && idx[2] < NUM
  {
    s.(ops := s.ops[idx[0] := Op(write, Sector(blockno))],
       desc := s.desc[idx[0] := Desc(Header(idx[0]), false, true, idx[1])]
                     [idx[1] := Desc(Data(b), !write, true, idx[2])]
                     [idx[2] := Desc(Status(idx[0]), true, false, 0)],
       info := s.info[idx[0] := Info(b, BUSY)],
       busy := s.busy + {b})
  }

  // ---------------------------------------------------------------- facts the methods use

  lemma Sizes(desc: seq<Desc>, info: seq<Info>, ops: seq<Op>, free: seq<bool>, reqs: map<nat, Req>,
              owner: map<nat, nat>)
    requires Owned(free, reqs, owner) && Chains(desc, info, ops, reqs)
    ensures |free| == |desc| == |info| == |ops| == NUM
  {
  }

  lemma CutIn(free0: seq<bool>, free: seq<bool>, idx: seq<nat>)
    requires Cut(free0, free, idx)
    ensures forall j | 0 <= j < |idx| :: idx[j] < NUM
  {
  }

  lemma Room(ring: seq<nat>, produced: nat, consumed: nat, log: seq<nat>, k: nat, reqs: map<nat, Req>, phase: Phase)
    requires Ring(ring, produced, consumed, log, k) && Waiting(log, k, reqs, phase) && |reqs| <= 2
    ensures |log| < k + NUM && |ring| == NUM
  {
    WaitingBound(log, k, reqs, phase);
  }

  lemma StartOk(s: State, g: Book, free1: seq<bool>, idx: seq<nat>, b: nat, write: bool, blockno: nat)
    returns (g1: Book)
    requires Ok(s, g) && Cut(s.free, free1, idx) && |idx| == 3
    requires b != 0 && Idle(g.reqs, b, blockno) && b in s.data && Sector(blockno) in s.media
    ensures |s.desc| == |s.info| == |s.ops| == |s.avail.ring| == NUM && idx[0] < NUM && idx[1] < NUM && idx[2] < NUM
    ensures idx[0] !in g.reqs && g1.reqs == g.reqs[idx[0] := Req(idx[1], idx[2], b, write, blockno, Posted, 0)]
    ensures Ok(Filled(s, idx, b, write, blockno).(free := free1, avail := s.avail.Put(idx[0])), g1)
  {
    hide Owned, Chains, Apart, Buffers, Ring, Waiting, Cut, FreeSet, Idle, Sector;
    Sizes(s.desc, s.info, s.ops, s.free, g.reqs, g.owner);
    AtMostTwo(s.desc, s.info, s.ops, s.free, g.reqs, g.owner);
    CutThree(s.free, free1, idx);
    CutIn(s.free, free1, idx);
    var h, r := idx[0], Req(idx[1], idx[2], b, write, blockno, Posted, 0);
    var t := Filled(s, idx, b, write, blockno);
    StartOwned(s.free, g.reqs, g.owner, h, r);
    StartChains(s.free, s.desc, s.info, s.ops, g.reqs, g.owner, h, r, t.desc, t.info, t.ops);
    StartBuffers(s.busy, s.data, s.media, g.reqs, h, r);
    Room(s.avail.ring, s.avail.produced, s.avail.consumed, g.posted, g.taken, g.reqs, Posted);
    RingPut(s.avail.ring, s.avail.produced, s.avail.consumed, g.posted, g.taken, h);
    WaitingEnter(g.posted, g.taken, g.reqs, h, r);
    WaitingOther(g.done, g.seen, g.reqs, h, r, Completed);
    g1 := g.(reqs := g.reqs[h := r], owner := g.owner[h := h][r.data := h][r.status := h], posted := g.posted + [h]);
  }

  lemma RingSize(ring: seq<nat>, produced: nat, consumed: nat, log: seq<nat>, k: nat)
    requires Ring(ring, produced, consumed, log, k)
    ensures |ring| == NUM && k <= |log|
  {
  }

  lemma First(log: seq<nat>, k: nat, reqs: map<nat, Req>, phase: Phase) returns (r: Req)
    requires Waiting(log, k, reqs, phase) && k < |log|
    ensures log[k] in reqs && r == reqs[log[k]] && r.phase == phase
  {
    r := reqs[log[k]];
  }

  lemma ChainOf(desc: seq<Desc>, info: seq<Info>, ops: seq<Op>, reqs: map<nat, Req>, h: nat)
    requires Chains(desc, info, ops, reqs) && h in reqs
    ensures Chain(desc, info, ops, h, reqs[h])
  {
  }

  lemma TakeOk(s: State, g: Book) returns (g1: Book, h: nat)
    requires Ok(s, g) && s.avail.consumed != s.avail.produced
    ensures |s.avail.ring| == NUM && h == s.avail.ring[s.avail.consumed % NUM] && h in g.reqs
    ensures g.reqs[h].phase == Posted
    ensures g1.reqs == g.reqs[h := g.reqs[h].(phase := Taken)] && Ok(s.(avail := s.avail.Taken()), g1)
  {
    hide Owned, Chains, Apart, Buffers, Ring, Waiting;
    RingTake(s.avail.ring, s.avail.produced, s.avail.consumed, g.posted, g.taken);
    RingSize(s.avail.ring, s.avail.produced, s.avail.consumed, g.posted, g.taken);
    h := g.posted[g.taken];
    var r := First(g.posted, g.taken, g.reqs, Posted);
    ChainOf(s.desc, s.info, s.ops, g.reqs, h);
    PhaseOwned(s.free, g.reqs, g.owner, h, Taken, r.code);
    PhaseChains(s.desc, s.info, s.ops, g.reqs, h, Taken, r.code, s.info);
    PhaseApart(g.reqs, h, Taken, r.code);
    TakeBuffers(s.busy, s.data, s.media, g.reqs, h);
    WaitingLeave(g.posted, g.taken, g.reqs, r.(phase := Taken), Posted);
    WaitingOther(g.done, g.seen, g.reqs, h, r.(phase := Taken), Completed);
    g1 := g.(reqs := g.reqs[h := r.(phase := Taken)], taken := g.taken + 1);
  }

  lemma CompleteOk(s: State, g: Book, h: nat, code: nat, junk: Block, data1: map<nat, Block>,
                   media1: map<nat, Block>, info1: seq<Info>)
    returns (g1: Book)
    requires Ok(s, g) && h in g.reqs && g.reqs[h].phase == Taken && h < NUM && |s.info| == NUM
    requires Moved(g.reqs[h], code, junk, s.data, s.media, data1, media1)
    requires info1 == s.info[h := s.info[h].(status := code)]
    ensures |s.used.ring| == NUM && g1.reqs == g.reqs[h := g.reqs[h].(phase := Completed, code := code)]
    ensures Ok(s.(data := data1, media := media1, info := info1, used := s.used.Put(h)), g1)
  {
    hide Owned, Chains, Apart, Buffers, Ring, Waiting, Sector, Moved;
    var r := g.reqs[h].(phase := Completed, code := code);
    CompleteBuffers(s.busy, s.data, s.media, g.reqs, h, code, junk, data1, media1);
    PhaseOwned(s.free, g.reqs, g.owner, h, Completed, code);
    PhaseChains(s.desc, s.info, s.ops, g.reqs, h, Completed, code, info1);
    PhaseApart(g.reqs, h, Completed, code);
    AtMostTwo(s.desc, s.info, s.ops, s.free, g.reqs, g.owner);
    Room(s.used.ring, s.used.produced, s.used.consumed, g.done, g.seen, g.reqs, Completed);
    RingPut(s.used.ring, s.used.produced, s.used.consumed, g.done, g.seen, h);
    WaitingEnter(g.done, g.seen, g.reqs, h, r);
    WaitingOther(g.posted, g.taken, g.reqs, h, r, Posted);
    g1 := g.(reqs := g.reqs[h := r], done := g.done + [h]);
  }

  /** The next completion the interrupt handler looks at, and the status it sees. */
  lemma NextDone(s: State, g: Book) returns (h: nat)
    requires Ok(s, g) && s.used.consumed != s.used.produced
    ensures |s.used.ring| == |s.info| == NUM && h == s.used.ring[s.used.consumed % NUM] && h < NUM
    ensures h in g.reqs && g.reqs[h].phase == Completed && s.info[h] == Info(g.reqs[h].b, g.reqs[h].code)
    ensures g.seen < |g.done| && h == g.done[g.seen]
  {
    hide Owned, Chains, Apart, Buffers, Ring, Waiting;
    RingTake(s.used.ring, s.used.produced, s.used.consumed, g.done, g.seen);
    RingSize(s.used.ring, s.used.produced, s.used.consumed, g.done, g.seen);
    h := g.done[g.seen];
    var r := First(g.done, g.seen, g.reqs, Completed);
    ChainOf(s.desc, s.info, s.ops, g.reqs, h);
  }

  /** One round of the interrupt handler on a successful request. */
  lemma ReportOk(s: State, g: Book, h: nat) returns (g1: Book)
    requires Ok(s, g) && s.used.consumed != s.used.produced && g.seen < |g.done| && h == g.done[g.seen]
    requires h in g.reqs && g.reqs[h].phase == Completed && g.reqs[h].code == 0 && h < |s.info| == NUM
    requires s.info[h] == Info(g.reqs[h].b, 0)
    ensures g1 == g.(reqs := g.reqs[h := g.reqs[h].(phase := Reported)], seen := g.seen + 1)
    ensures Ok(s.(busy := s.busy - {g.reqs[h].b}, used := s.used.Taken()), g1)
  {
    hide Owned, Chains, Apart, Buffers, Ring, Waiting;
    RingTake(s.used.ring, s.used.produced, s.used.consumed, g.done, g.seen);
    var r := g.reqs[h];
    PhaseOwned(s.free, g.reqs, g.owner, h, Reported, 0);
    assert s.info == s.info[h := s.info[h].(status := 0)];
    ChainOf(s.desc, s.info, s.ops, g.reqs, h);
    PhaseChains(s.desc, s.info, s.ops, g.reqs, h, Reported, 0, s.info);
    PhaseApart(g.reqs, h, Reported, 0);
    assert r.(phase := Reported, code := 0) == r.(phase := Reported);
    ReportBuffers(s.busy, s.data, s.media, g.reqs, h);
    WaitingLeave(g.done, g.seen, g.reqs, r.(phase := Reported), Completed);
    WaitingOther(g.posted, g.taken, g.reqs, h, r.(phase := Reported), Posted);
    g1 := g.(reqs := g.reqs[h := r.(phase := Reported)], seen := g.seen + 1);
  }

  lemma InBuffers(busy: set<nat>, data: map<nat, Block>, media: map<nat, Block>, reqs: map<nat, Req>, h: nat)
    requires Buffers(busy, data, media, reqs) && h in reqs
    ensures reqs[h].b in data && Sector(reqs[h].blockno) in media && (reqs[h].b in busy <==> !reqs[h].phase.Reported?)
    ensures reqs[h].phase.Reported? ==> data[reqs[h].b] == media[Sector(reqs[h].blockno)]
  {
  }

  lemma PartsTaken(free: seq<bool>, reqs: map<nat, Req>, owner: map<nat, nat>, h: nat)
    requires Owned(free, reqs, owner) && h in reqs
    ensures |free| == NUM && forall i | i in Parts(h, reqs[h]) :: i < NUM && !free[i]
  {
    forall i | i in Parts(h, reqs[h]) ensures i < NUM && !free[i] {
      assert i in owner;
    }
  }

  /** b->disk is 0 only once this buffer's own request has been served. */
  lemma ServedOnce(s: State, g: Book, h: nat)
    requires Ok(s, g) && h in g.reqs && g.reqs[h].b !in s.busy
    ensures g.reqs[h].phase == Reported && Chain(s.desc, s.info, s.ops, h, g.reqs[h])
    ensures g.reqs[h].b in s.data && Sector(g.reqs[h].blockno) in s.media
    ensures s.data[g.reqs[h].b] == s.media[Sector(g.reqs[h].blockno)]
    ensures |s.free| == NUM && forall i | i in Parts(h, g.reqs[h]) :: i < NUM && !s.free[i]
  {
    hide Owned, Chains, Apart, Buffers, Ring, Waiting, Sector;
    ChainOf(s.desc, s.info, s.ops, g.reqs, h);
    InBuffers(s.busy, s.data, s.media, g.reqs, h);
    PartsTaken(s.free, g.reqs, g.owner, h);
  }

  lemma FinishOk(s: State, g: Book, h: nat, free1: seq<bool>, desc1: seq<Desc>, info1: seq<Info>) returns (g1: Book)
    requires Ok(s, g) && h in g.reqs && g.reqs[h].phase == Reported && |free1| == |desc1| == |info1| == NUM
    requires |s.free| == |s.desc| == |s.info| == NUM
    requires forall i: nat | i < NUM :: free1[i] <==> s.free[i] || i in Parts(h, g.reqs[h])
    requires forall i | 0 <= i < NUM && i !in Parts(h, g.reqs[h]) :: desc1[i] == s.desc[i]
    requires forall i | 0 <= i < NUM && i != h :: info1[i] == s.info[i]
    ensures Ok(s.(free := free1, desc := desc1, info := info1), g1) && g1.reqs == g.reqs - {h}
  {
    hide Owned, Chains, Apart, Buffers, Ring, Waiting, Parts;
    EndOwned(s.free, g.reqs, g.owner, h, free1);
    EndChains(s.free, s.desc, s.info, s.ops, g.reqs, g.owner, h, desc1, info1);
    EndBuffers(s.busy, s.data, s.media, g.reqs, h);
    WaitingGone(g.posted, g.taken, g.reqs, h, Posted);
    WaitingGone(g.done, g.seen, g.reqs, h, Completed);
    g1 := g.(reqs := g.reqs - {h}, owner := g.owner - Parts(h, g.reqs[h]));
  }

  lemma KeptChains(free: seq<bool>, desc0: seq<Desc>, desc: seq<Desc>, info: seq<Info>, ops: seq<Op>,
                   reqs: map<nat, Req>,
                   owner: map<nat, nat>)
    requires Owned(free, reqs, owner) && Chains(desc0, info, ops, reqs) && DescKept(free, desc0, desc)
    ensures Chains(desc, info, ops, reqs)
  {
    hide Owned;
    forall h | h in reqs ensures Chain(desc, info, ops, h, reqs[h]) {
      assert Chain(desc0, info, ops, h, reqs[h]);
      PartsTaken(free, reqs, owner, h);
    }
  }

  lemma NoneLeft(log: seq<nat>, k: nat, reqs: map<nat, Req>, phase: Phase)
    requires Waiting(log, k, reqs, phase) && k == |log|
    ensures forall h | h in reqs :: reqs[h].phase != phase
  {
  }

  lemma ReadChain(s: State, g: Book, h: nat)
    requires Ok(s, g) && h in g.reqs
    ensures Chain(s.desc, s.info, s.ops, h, g.reqs[h])
    ensures g.reqs[h].b in s.data && Sector(g.reqs[h].blockno) in s.media
  {
    hide Owned, Chains, Apart, Buffers, Ring, Waiting, Sector;
    ChainOf(s.desc, s.info, s.ops, g.reqs, h);
    InBuffers(s.busy, s.data, s.media, g.reqs, h);
  }

  lemma Positions(s: State, g: Book)
    requires Ok(s, g)
    ensures g.seen <= |g.done|
  {
    hide Owned, Chains, Apart, Buffers, Waiting;
  }

  lemma AllReported(s: State, g: Book)
    requires Ok(s, g) && s.used.consumed == s.used.produced
    ensures forall h | h in g.reqs :: g.reqs[h].phase != Completed
  {
    hide Owned, Chains, Apart, Buffers, Ring, Waiting;
    RingTake(s.used.ring, s.used.produced, s.used.consumed, g.done, g.seen);
    RingSize(s.used.ring, s.used.produced, s.used.consumed, g.done, g.seen);
    NoneLeft(g.done, g.seen, g.reqs, Completed);
  }

  // ---------------------------------------------------------------- the driver and the device

  class Disk {
    var s: State
    ghost var g: Book

    ghost predicate Valid()
      reads this
    {
      Ok(s, g)
    }

    constructor (data: map<nat, Block>, media: map<nat, Block>)
      ensures Valid() && g.reqs == map[] && s.data == data && s.media == media
    {
      var empty := Queue(seq(NUM, _ => 0), 0, 0);
      s := State(seq(NUM, _ => true), seq(NUM, _ => Cleared), seq(NUM, _ => Info(0, 0)), seq(NUM, _ => Op(false, 0)),
                 empty, empty, {}, data, media);
      g := Book(map[], map[], [], 0, [], 0);
    }

    /** alloc_desc: the lowest free descriptor. */
    method AllocDesc() returns (i: int)
      requires |s.free| == NUM
      modifies this`s
      ensures i < 0 ==> s == old(s) && forall j | 0 <= j < NUM :: !s.free[j]
      ensures i >= 0 ==> i < NUM && old(s).free[i] && s == old(s).(free := old(s).free[i := false])
                         && forall j | 0 <= j < i :: !old(s).free[j]
    {
      i := 0;
      while i < NUM
        invariant 0 <= i <= NUM && s == old(s) && forall j | 0 <= j < i :: !s.free[j]
      {
        if s.free[i] {
          s := s.(free := s.free[i := false]);
          return;
        }
        i := i + 1;
      }
      i := -1;
    }

    /** free_desc; its two panics are the preconditions. */
    method FreeDesc(i: nat)
      requires |s.free| == |s.desc| == NUM && i < NUM && !s.free[i]
      modifies this`s
      ensures s == old(s).(free := old(s).free[i := true], desc := old(s).desc[i := Cleared])
    {
      s := s.(desc := s.desc[i := Cleared]);
      s := s.(free := s.free[i := true]);
    }

    /** alloc3_desc: three descriptors or none. */
    method Alloc3Desc() returns (ok: bool, idx: seq<nat>)
      requires |s.free| == |s.desc| == NUM
      modifies this`s
      ensures s == old(s).(free := s.free, desc := s.desc)
      ensures ok <==> |FreeSet(old(s).free)| >= 3
      ensures ok ==> |idx| == 3 && Cut(old(s).free, s.free, idx) && s.desc == old(s).desc
      ensures !ok ==> s.free == old(s).free && DescKept(s.free, old(s).desc, s.desc)
    {
      idx := [];
      var i := 0;
      while i < 3
        invariant 0 <= i <= 3 && |idx| == i && Cut(old(s).free, s.free, idx) && s == old(s).(free := s.free)
      {
        ghost var before := s.free;
        var d := AllocDesc();
        if d < 0 {
          CutNone(old(s).free, s.free, idx);
          var j := 0;
          while j < i
            invariant 0 <= j <= i && |idx| == i < 3 && Cut(old(s).free, s.free, idx[j..])
            invariant s == old(s).(free := s.free, desc := s.desc) && DescKept(old(s).free, old(s).desc, s.desc)
          {
            CutBack(old(s).free, s.free, idx[j..]);
            FreeDesc(idx[j]);
            j := j + 1;
          }
          CutAll(old(s).free, s.free);
          return false, idx;
        }
        CutMore(old(s).free, before, idx, d);
        idx := idx + [d];
        i := i + 1;
      }
      CutThree(old(s).free, s.free, idx);
      return true, idx;
    }

    /** free_chain on a chain of three. */
    method FreeChain(head: nat, ghost r: Req)
      requires |s.free| == |s.desc| == NUM && head < NUM && r.data < NUM && r.status < NUM
      requires head != r.data && head != r.status && r.data != r.status
      requires !s.free[head] && !s.free[r.data] && !s.free[r.status]
      requires s.desc[head].more && s.desc[head].next == r.data && s.desc[r.data].more
      requires s.desc[r.data].next == r.status
      requires !s.desc[r.status].more
      modifies this`s
      ensures s == old(s).(free := old(s).free[head := true][r.data := true][r.status := true],
                           desc := old(s).desc[head := Cleared][r.data := Cleared][r.status := Cleared])
    {
      var i := head;
      ghost var left := 3;
      while true
        invariant 1 <= left <= 3
        invariant i == if left == 3 then head else if left == 2 then r.data else r.status
        invariant s == if left == 3 then old(s)
                       else if left == 2
                       then old(s).(free := old(s).free[head := true], desc := old(s).desc[head := Cleared])
                       else old(s).(free := old(s).free[head := true][r.data := true],
                                    desc := old(s).desc[head := Cleared][r.data := Cleared])
        decreases left
      {
        var more, nxt := s.desc[i].more, s.desc[i].next;
        FreeDesc(i);
        if !more {
          break;
        }
        i := nxt;
        left := left - 1;
      }
    }

    /** The first half of virtio_disk_rw: it waits exactly when two requests are in flight,
        and otherwise posts a chain that no other request shares. */
    method Start(b: nat, write: bool, blockno: nat) returns (ok: bool, head: nat)
      requires Valid() && b != 0 && Idle(g.reqs, b, blockno)
      requires b in s.data && Sector(blockno) in s.media
      modifies this
      ensures Valid() && s.data == old(s.data) && s.media == old(s.media)
      ensures ok <==> |old(g.reqs)| < 2
      ensures !ok ==> g == old(g) && s == old(s).(desc := s.desc)
      ensures ok ==> head !in old(g.reqs) && head in g.reqs && g.reqs == old(g.reqs)[head := g.reqs[head]]
      ensures ok ==> s.busy == old(s.busy) + {b} && var r := g.reqs[head];
                     r.b == b && r.write == write && r.blockno == blockno && r.phase == Posted
    {
      hide Owned, Chains, Apart, Buffers, Ring, Waiting, Cut, FreeSet, Idle, Sector;
      Sizes(s.desc, s.info, s.ops, s.free, g.reqs, g.owner);
      AtMostTwo(s.desc, s.info, s.ops, s.free, g.reqs, g.owner);
      ghost var s0 := s;
      var idx;
      ok, idx := Alloc3Desc();
      if !ok {
        KeptChains(s.free, s0.desc, s.desc, s.info, s.ops, g.reqs, g.owner);
        return false, 0;
      }
      ghost var g1 := StartOk(s0, g, s.free, idx, b, write, blockno);
      head := idx[0];
      s := s.(ops := s.ops[head := Op(write, Sector(blockno))]);
      s := s.(desc := s.desc[head := Desc(Header(head), false, true, idx[1])]);
      s := s.(desc := s.desc[idx[1] := Desc(Data(b), !write, true, idx[2])]);
      s := s.(info := s.info[head := Info(s.info[head].b, BUSY)]);
      s := s.(desc := s.desc[idx[2] := Desc(Status(head), true, false, 0)]);
      s := s.(busy := s.busy + {b});
      s := s.(info := s.info[head := Info(b, BUSY)]);
      s := s.(avail := s.avail.Put(head));
      assert s == Filled(s0, idx, b, write, blockno).(free := s.free, avail := s0.avail.Put(idx[0]));
      g := g1;
    }

    /** The device reads the next entry of the avail ring. */
    method DeviceTake() returns (head: nat)
      requires Valid() && s.avail.consumed != s.avail.produced
      modifies this
      ensures Valid() && head in old(g.reqs) && old(g.reqs)[head].phase == Posted && s == old(s).(avail := s.avail)
      ensures g.reqs == old(g.reqs)[head := old(g.reqs)[head].(phase := Taken)]
    {
      hide Ok;
      ghost var h;
      g, h := TakeOk(s, g);
      head := s.avail.ring[s.avail.consumed % NUM];
      s := s.(avail := s.avail.Taken());
    }

    /** The device finishes any request it has taken, following the descriptors in memory, with
        status 0 if it moved the block; with another status the place the block should have gone
        to holds whatever the device left there, `junk`. */
    method DeviceComplete(head: nat, code: nat, junk: Block)
      requires Valid() && head in g.reqs && g.reqs[head].phase == Taken
      modifies this
      ensures Valid() && g.reqs == old(g.reqs)[head := old(g.reqs)[head].(phase := Completed, code := code)]
      ensures Moved(g.reqs[head], code, junk, old(s).data, old(s).media, s.data, s.media)
    {
      hide Owned, Chains, Apart, Buffers, Ring, Waiting, Sector, Ok;
      ghost var s0 := s;
      ReadChain(s, g, head);
      var op := s.ops[s.desc[head].addr.op];
      var payload := s.desc[head].next;
      var status := s.desc[payload].next;
      var b := s.desc[payload].addr.b;
      if op.write {
        s := s.(media := s.media[op.sector := if code == 0 then s.data[b] else junk]);
      } else {
        s := s.(data := s.data[b := if code == 0 then s.media[op.sector] else junk]);
      }
      var of := s.desc[status].addr.of;
      s := s.(info := s.info[of := s.info[of].(status := code)]);
      g := CompleteOk(s0, g, head, code, junk, s.data, s.media, s.info);
      s := s.(used := s.used.Put(head));
    }

    /** virtio_disk_intr: every completion so far is reported, unless the device reported an
        error for one of them: exactly then the handler panics. */
    method Intr() returns (panicked: bool)
      requires Valid()
      modifies this
      ensures panicked <==>
              exists h :: h in old(g.reqs) && old(g.reqs)[h].phase == Completed && old(g.reqs)[h].code != 0
      ensures !panicked ==> Valid() && s == old(s).(busy := s.busy, used := s.used) && g.reqs.Keys == old(g.reqs.Keys)
      ensures !panicked ==> forall h | h in g.reqs ::
                g.reqs[h] == if old(g.reqs)[h].phase == Completed
                             then old(g.reqs)[h].(phase := Reported)
                             else old(g.reqs)[h]
    {
      hide Ok;
      Positions(s, g);
      while s.used.consumed != s.used.produced
        invariant Valid() && s == old(s).(busy := s.busy, used := s.used) && g.reqs.Keys == old(g.reqs.Keys)
        invariant forall h | h in g.reqs :: g.reqs[h] == old(g.reqs)[h]
                    || (old(g.reqs)[h].phase == Completed && old(g.reqs)[h].code == 0
                        && g.reqs[h] == old(g.reqs)[h].(phase := Reported))
        invariant g.done == old(g.done) && g.seen <= |g.done|
        decreases |g.done| - g.seen
      {
        ghost var h := NextDone(s, g);
        var id := s.used.ring[s.used.consumed % NUM];
        if s.info[id].status != 0 {
          assert old(g.reqs)[h].phase == Completed && old(g.reqs)[h].code != 0;
          return true;
        }
        ghost var g1 := ReportOk(s, g, h);
        var b := s.info[id].b;
        s := s.(busy := s.busy - {b});
        s := s.(used := s.used.Taken());
        g := g1;
      }
      AllReported(s, g);
      return false;
    }

    /** The second half of virtio_disk_rw, once b->disk is 0: the request of this very buffer
        is complete, so buffer and disk block agree, and its three descriptors are free again. */
    method Finish(head: nat, b: nat)
      requires Valid() && head in g.reqs && g.reqs[head].b == b && b !in s.busy
      modifies this
      ensures Valid() && old(g.reqs)[head].phase == Reported && g.reqs == old(g.reqs) - {head}
      ensures s == old(s).(free := s.free, desc := s.desc, info := s.info)
      ensures b in s.data && Sector(old(g.reqs)[head].blockno) in s.media
      ensures s.data[b] == s.media[Sector(old(g.reqs)[head].blockno)]
    {
      hide Ok, Sector;
      ghost var r, s0 := g.reqs[head], s;
      ServedOnce(s, g, head);
      s := s.(info := s.info[head := s.info[head].(b := 0)]);
      FreeChain(head, r);
      g := FinishOk(s0, g, head, s.free, s.desc, s.info);
    }
  }
}
