/** xv6/kernel/virtio_disk.c: the split virtqueue of section 2.6 of VIRTIO 1.1, with
    the three-descriptor requests of section 5.2, a driver that serves any number of
    processes and a device that completes requests in any order. A method is one
    atomic section: the driver's run under the disk lock, the device's are its own. */
module Virtqueue {
  import opened Distinctness

  const NUM := 8
  const WORD := 0x1_0000     // the ring indices are 16 bits wide
  const BSIZE := 1024

  /** What a descriptor points to: a request header, a buffer's data, a status byte. */
  datatype Addr = Nowhere | Header(i: nat) | Buffer(b: nat) | Status(i: nat)

  datatype Desc = Desc(addr: Addr, len: nat, more: bool, write: bool, next: nat)

  datatype Op = Op(write: bool, sector: nat)

  datatype Info = Info(buf: int, status: nat)    // buf is NOBUF between requests

  /** BSIZE bytes, two sectors. */
  type Data = seq<bv8>

  function At(m: map<nat, Data>, k: nat): Data {
    if k in m then m[k] else []
  }

  const NOBUF := -1
  const EMPTY := Desc(Nowhere, 0, false, false, 0)

  /** Where a request is: in the avail ring, in the device, in the used ring, or seen
      by the interrupt handler and waiting for its process. */
  datatype Phase = Posted | Working | Used | Done

  datatype Req = Req(second: nat, third: nat, buf: nat, op: Op, phase: Phase)

  type Reqs = map<nat, Req>

  /** The chain at head h spells request r: header, data, status. */
  ghost predicate Spells(desc: seq<Desc>, ops: seq<Op>, info: seq<Info>, h: nat, r: Req)
    requires |desc| == |ops| == |info| == NUM
  {
    && h < NUM && r.second < NUM && r.third < NUM
    && desc[h] == Desc(Header(h), 16, true, false, r.second)
    && desc[r.second] == Desc(Buffer(r.buf), BSIZE, true, !r.op.write, r.third)
    && desc[r.third] == Desc(Status(h), 1, false, true, 0)
    && ops[h] == r.op && info[h].buf == r.buf
  }

  predicate InChain(h: nat, r: Req, i: nat) {
    i == h || i == r.second || i == r.third
  }

  /** Request h has three distinct descriptors, marked as its own. */
  ghost predicate HasChain(reqs: Reqs, part: map<nat, nat>, h: nat) {
    h in reqs && h != reqs[h].second && h != reqs[h].third && reqs[h].second != reqs[h].third
    && h in part && part[h] == h && reqs[h].second in part && part[reqs[h].second] == h
    && reqs[h].third in part && part[reqs[h].third] == h
  }

  /** Descriptor i is in the chain of the request it is marked for. */
  ghost predicate InPart(reqs: Reqs, part: map<nat, nat>, i: nat) {
    i in part && i < NUM && part[i] in reqs && InChain(part[i], reqs[part[i]], i)
  }

  /** The requests' chains and the free descriptors partition the table. */
  ghost predicate Partition(free: seq<bool>, reqs: Reqs, part: map<nat, nat>) {
    && |free| == NUM
    && (forall i {:trigger i in part} {:trigger free[i]} :: 0 <= i < NUM ==> (i in part <==> !free[i]))
    && (forall i {:trigger InPart(reqs, part, i)} :: i in part ==> InPart(reqs, part, i))
    && (forall h {:trigger HasChain(reqs, part, h)} :: h in reqs ==> HasChain(reqs, part, h))
  }

  /** Every request has a chain of its own that spells it. */
  ghost predicate Chained(free: seq<bool>, desc: seq<Desc>, ops: seq<Op>, info: seq<Info>, reqs: Reqs,
                          part: map<nat, nat>) {
    && |desc| == |ops| == |info| == NUM && Partition(free, reqs, part)
    && (forall h {:trigger Spells(desc, ops, info, h, reqs[h])} :: h in reqs ==> Spells(desc, ops, info, h, reqs[h]))
  }

  /** A change of phase, and of the status byte, leaves the chains as they are. */
  lemma MovedChained(free: seq<bool>, desc: seq<Desc>, ops: seq<Op>, info: seq<Info>, info': seq<Info>, reqs: Reqs,
                     part: map<nat, nat>, h: nat, phase: Phase)
    requires Chained(free, desc, ops, info, reqs, part) && h in reqs && |info'| == NUM
    requires forall k :: 0 <= k < NUM ==> info'[k].buf == info[k].buf
    ensures Chained(free, desc, ops, info', Moved(reqs, h, phase), part)
  {
    var reqs' := Moved(reqs, h, phase);
    forall g | g in reqs'
      ensures HasChain(reqs', part, g) && Spells(desc, ops, info', g, reqs'[g])
    {
      assert HasChain(reqs, part, g) && Spells(desc, ops, info, g, reqs[g]);
    }
    forall i | i in part
      ensures InPart(reqs', part, i)
    {
      assert InPart(reqs, part, i);
    }
  }

  /** A status byte is no part of a chain. */
  lemma SameChains(free: seq<bool>, desc: seq<Desc>, ops: seq<Op>, info: seq<Info>, info': seq<Info>, reqs: Reqs,
                   part: map<nat, nat>)
    requires Chained(free, desc, ops, info, reqs, part) && |info'| == NUM && forall k :: 0 <= k < NUM ==>
               info'[k].buf == info[k].buf
    ensures Chained(free, desc, ops, info', reqs, part)
  {
    forall g | g in reqs
      ensures Spells(desc, ops, info', g, reqs[g])
    {
      assert Spells(desc, ops, info, g, reqs[g]);
    }
  }

  /** b->disk is cleared exactly when the request is done. */
  lemma MovedBuffers(reqs: Reqs, busy: set<nat>, byBuf: map<nat, nat>, h: nat, phase: Phase)
    requires Buffers(reqs, busy, byBuf) && h in reqs && reqs[h].phase != Done
    ensures Buffers(Moved(reqs, h, phase), if phase == Done then busy - {reqs[h].buf} else busy, byBuf)
  {
    var reqs', busy' := Moved(reqs, h, phase), if phase == Done then busy - {reqs[h].buf} else busy;
    assert HasBuffer(reqs, busy, byBuf, h);
    forall g | g in reqs'
      ensures HasBuffer(reqs', busy', byBuf, g)
    {
      assert HasBuffer(reqs, busy, byBuf, g);
    }
    forall b | b in byBuf
      ensures InRequest(reqs', byBuf, b)
    {
      assert InRequest(reqs, byBuf, b);
    }
  }

  /** Every head is a descriptor. */
  lemma HeadsBelow(free: seq<bool>, reqs: Reqs, part: map<nat, nat>)
    requires Partition(free, reqs, part)
    ensures forall h :: h in reqs ==> h < NUM
  {
    forall h | h in reqs
      ensures h < NUM
    {
      assert HasChain(reqs, part, h) && InPart(reqs, part, h);
    }
  }

  /** What free descriptors hold does not matter. */
  lemma FreeDontMatter(free: seq<bool>, desc: seq<Desc>, desc': seq<Desc>, ops: seq<Op>, info: seq<Info>, reqs: Reqs,
                       part: map<nat, nat>)
    requires Chained(free, desc, ops, info, reqs, part) && |desc'| == NUM
    requires forall k :: 0 <= k < NUM && !free[k] ==> desc'[k] == desc[k]
    ensures Chained(free, desc', ops, info, reqs, part)
  {
    forall g | g in reqs
      ensures Spells(desc', ops, info, g, reqs[g])
    {
      assert HasChain(reqs, part, g) && Spells(desc, ops, info, g, reqs[g]);
    }
  }

  /** The request at head h moved to another phase. */
  function Moved(reqs: Reqs, h: nat, phase: Phase): Reqs
    requires h in reqs
  {
    reqs[h := reqs[h].(phase := phase)]
  }

  ghost predicate HasBuffer(reqs: Reqs, busy: set<nat>, byBuf: map<nat, nat>, h: nat) {
    h in reqs && reqs[h].buf in byBuf && byBuf[reqs[h].buf] == h && (reqs[h].buf in busy <==> reqs[h].phase != Done)
  }

  ghost predicate InRequest(reqs: Reqs, byBuf: map<nat, nat>, b: nat) {
    b in byBuf && byBuf[b] in reqs && reqs[byBuf[b]].buf == b
  }

  /** No buffer is in two requests, and b->disk is set until the request is done. */
  ghost predicate Buffers(reqs: Reqs, busy: set<nat>, byBuf: map<nat, nat>) {
    && (forall h {:trigger HasBuffer(reqs, busy, byBuf, h)} :: h in reqs ==> HasBuffer(reqs, busy, byBuf, h))
    && (forall b {:trigger InRequest(reqs, byBuf, b)} :: b in byBuf ==> InRequest(reqs, byBuf, b))
    && busy <= byBuf.Keys
  }

  /** A ring holds a queue of heads in one phase, from position `first` on. */
  ghost predicate Ring(ring: seq<nat>, queue: seq<nat>, first: nat, reqs: Reqs, phase: Phase) {
    && |ring| == NUM && Distinct(queue) && |queue| <= NUM
    && (forall k {:trigger queue[k]} :: 0 <= k < |queue| ==> ring[(first + k) % NUM] == queue[k])
    && (forall h {:trigger h in queue} :: h in queue <==> h in reqs && reqs[h].phase == phase)
  }

  lemma AtMostNum(queue: seq<nat>)
    requires Distinct(queue) && forall h :: h in queue ==> h < NUM
    ensures |queue| <= NUM
  {
    DistinctSize(queue);
    BelowSize(NUM);
    SubsetSize(Elements(queue), Below(NUM));
  }

  /** Indices that count up to NUM apart are told apart by their 16 bits. */
  lemma IndicesTell(first: nat, n: nat)
    requires n <= NUM
    ensures first % WORD == (first + n) % WORD <==> n == 0
    ensures first % WORD % NUM == first % NUM && (first % WORD + 1) % WORD == (first + 1) % WORD
  {
    IndexSlot(first);
  }

  lemma IndexSlot(n: nat)
    ensures n % WORD % NUM == n % NUM
  {
    var q := n / WORD;
    assert n == q * WORD + n % WORD && WORD == 0x2000 * NUM;
    assert n % WORD == (n % WORD / NUM) * NUM + n % WORD % NUM;
    Multiple(q * 0x2000 + n % WORD / NUM, n % WORD % NUM);
  }

  lemma Multiple(q: nat, r: nat)
    requires r < NUM
    ensures (q * NUM + r) % NUM == r
  {
  }

  lemma SlotsApart(j: nat, k: nat)
    requires j < k < j + NUM
    ensures j % NUM != k % NUM
  {
  }

  /** A head added behind the queue overwrites no entry of it. */
  lemma RingAdd(ring: seq<nat>, queue: seq<nat>, first: nat, reqs: Reqs, reqs': Reqs, phase: Phase, h: nat)
    requires Ring(ring, queue, first, reqs, phase) && |queue| < NUM
    requires h in reqs' && reqs'[h].phase == phase && h !in queue && reqs'.Keys == reqs.Keys + {h}
    requires forall g {:trigger reqs'[g]} :: g in reqs && g != h ==> reqs'[g].phase == reqs[g].phase
    ensures Ring(ring[(first + |queue|) % NUM := h], queue + [h], first, reqs', phase)
  {
    var ring', queue' := ring[(first + |queue|) % NUM := h], queue + [h];
    forall k | 0 <= k < |queue'|
      ensures ring'[(first + k) % NUM] == queue'[k]
    {
      if k < |queue| {
        SlotsApart(first + k, first + |queue|);
        assert queue[k] == queue'[k];
      }
    }
  }

  /** The first head taken from a queue, for another phase. */
  lemma RingTake(ring: seq<nat>, queue: seq<nat>, first: nat, reqs: Reqs, reqs': Reqs, phase: Phase)
    requires Ring(ring, queue, first, reqs, phase) && |queue| > 0
    requires reqs'.Keys == reqs.Keys && queue[0] in reqs' && reqs'[queue[0]].phase != phase
    requires forall g {:trigger reqs'[g]} :: g in reqs && g != queue[0] ==> reqs'[g].phase == reqs[g].phase
    ensures ring[first % NUM] == queue[0] && Ring(ring, queue[1..], first + 1, reqs', phase)
  {
    var rest := queue[1..];
    assert queue == [queue[0]] + rest;
    forall h
      ensures h in rest <==> h in queue && h != queue[0]
    {
    }
    forall k | 0 <= k < |rest|
      ensures ring[(first + 1 + k) % NUM] == rest[k]
    {
      assert queue[k + 1] == rest[k];
    }
  }

  /** A change of requests in other phases leaves a queue alone. */
  lemma RingKeep(ring: seq<nat>, queue: seq<nat>, first: nat, reqs: Reqs, reqs': Reqs, phase: Phase)
    requires Ring(ring, queue, first, reqs, phase)
    requires forall h :: h in reqs && reqs[h].phase == phase <==> h in reqs' && reqs'[h].phase == phase
    ensures Ring(ring, queue, first, reqs', phase)
  {
  }

  /** A ring between two 16-bit indices: lo, the reader's, and hi, the writer's. */
  ghost predicate Indexed(ring: seq<nat>, queue: seq<nat>, first: nat, reqs: Reqs, phase: Phase, lo: nat, hi: nat) {
    Ring(ring, queue, first, reqs, phase) && lo == first % WORD && hi == (first + |queue|) % WORD
  }

  lemma IndexedAdd(ring: seq<nat>, queue: seq<nat>, first: nat, reqs: Reqs, reqs': Reqs, phase: Phase, lo: nat,
                   hi: nat, h: nat)
    requires Indexed(ring, queue, first, reqs, phase, lo, hi) && h < NUM && h !in queue && forall g :: g in reqs ==>
               g < NUM
    requires h in reqs' && reqs'[h].phase == phase && reqs'.Keys == reqs.Keys + {h}
    requires forall g {:trigger reqs'[g]} :: g in reqs && g != h ==> reqs'[g].phase == reqs[g].phase
    ensures |queue| < NUM && Indexed(ring[hi % NUM := h], queue + [h], first, reqs', phase, lo, (hi + 1) % WORD)
  {
    AtMostNum(queue + [h]);
    IndicesTell(first + |queue|, 0);
    RingAdd(ring, queue, first, reqs, reqs', phase, h);
  }

  lemma IndexedTake(ring: seq<nat>, queue: seq<nat>, first: nat, reqs: Reqs, reqs': Reqs, phase: Phase, lo: nat,
                    hi: nat)
    requires Indexed(ring, queue, first, reqs, phase, lo, hi) && |queue| > 0
    requires reqs'.Keys == reqs.Keys && queue[0] in reqs' && reqs'[queue[0]].phase != phase
    requires forall g {:trigger reqs'[g]} :: g in reqs && g != queue[0] ==> reqs'[g].phase == reqs[g].phase
    ensures ring[lo % NUM] == queue[0] && Indexed(ring, queue[1..], first + 1, reqs', phase, (lo + 1) % WORD, hi)
  {
    IndicesTell(first, 0);
    RingTake(ring, queue, first, reqs, reqs', phase);
  }

  /** The 16-bit indices agree exactly when the queue is empty. */
  lemma IndexedEmpty(ring: seq<nat>, queue: seq<nat>, first: nat, reqs: Reqs, phase: Phase, lo: nat, hi: nat)
    requires Indexed(ring, queue, first, reqs, phase, lo, hi)
    ensures lo == hi <==> queue == []
  {
    IndicesTell(first, |queue|);
  }

  class Disk {
    var free: seq<bool>
    var desc: seq<Desc>
    var ops: seq<Op>
    var info: seq<Info>
    var availRing: seq<nat>
    var availIdx: nat          // driver's index, in memory the device reads
    var usedIdx: nat           // how far the driver has looked
    var usedRing: seq<nat>     // written by the device
    var usedDev: nat           // device's index, in memory the driver reads
    var devIdx: nat            // how far the device has looked
    var busy: set<nat>         // buffers with b->disk set
    var mem: map<nat, Data>    // the data of each buffer
    var disk: map<nat, Data>   // what the device keeps, by first sector
    ghost var reqs: Reqs
    ghost var part: map<nat, nat>
    ghost var byBuf: map<nat, nat>
    ghost var availQ: seq<nat> // posted, not yet taken by the device
    ghost var usedQ: seq<nat>  // completed, not yet seen by the driver
    ghost var taken: nat       // requests ever taken by the device
    ghost var seen: nat        // completions ever seen by the driver

    ghost predicate Rings()
      reads `availRing, `availQ, `taken, `devIdx, `availIdx, `usedRing, `usedQ, `seen, `usedIdx, `usedDev, `reqs
    {
      && Indexed(availRing, availQ, taken, reqs, Posted, devIdx, availIdx)
      && Indexed(usedRing, usedQ, seen, reqs, Used, usedIdx, usedDev)
    }

    ghost predicate Valid()
      reads `free, `desc, `ops, `info, `part, `busy, `byBuf
      reads `availRing, `availQ, `taken, `devIdx, `availIdx, `usedRing, `usedQ, `seen, `usedIdx, `usedDev, `reqs
    {
      Chained(free, desc, ops, info, reqs, part) && Rings() && Buffers(reqs, busy, byBuf)
    }

    constructor (disk: map<nat, Data>)
      ensures Valid() && reqs == map[] && busy == {} && this.disk == disk
    {
      mem, this.disk := map[], disk;
      free := seq(NUM, _ => true);
      desc := seq(NUM, _ => EMPTY);
      ops := seq(NUM, _ => Op(false, 0));
      info := seq(NUM, _ => Info(NOBUF, 0));
      availRing, usedRing := seq(NUM, _ => 0), seq(NUM, _ => 0);
      availIdx, usedIdx, usedDev, devIdx, busy := 0, 0, 0, 0, {};
      reqs, part, byBuf, availQ, usedQ, taken, seen := map[], map[], map[], [], [], 0, 0;
    }

    /** alloc_desc: the lowest free descriptor, or -1. */
    method AllocDesc() returns (i: int)
      requires |free| == NUM
      modifies `free
      ensures i == -1 ==> free == old(free) && forall k :: 0 <= k < NUM ==> !free[k]
      ensures i != -1 ==> 0 <= i < NUM && old(free)[i] && free == old(free)[i := false] && forall k :: 0 <= k < i ==>
                !free[k]
    {
      i := 0;
      while i < NUM
        invariant 0 <= i <= NUM && free == old(free) && forall k :: 0 <= k < i ==> !free[k]
      {
        if free[i] {
          free := free[i := false];
          return;
        }
        i := i + 1;
      }
      i := -1;
    }

    /** free_desc: false stands for its panics. */
    method FreeDesc(i: nat) returns (ok: bool)
      requires |free| == |desc| == NUM
      modifies `free, `desc
      ensures ok <==> i < NUM && !old(free)[i]
      ensures ok ==> free == old(free)[i := true] && desc == old(desc)[i := EMPTY]
      ensures !ok ==> free == old(free) && desc == old(desc)
    {
      if i >= NUM || free[i] {
        return false;
      }
      desc := desc[i := EMPTY];
      free := free[i := true];
      return true;
    }

    /** alloc3_desc: three free descriptors, or none, and then no more than two were. */
    method Alloc3Desc() returns (ok: bool, idx: seq<nat>)
      requires |free| == |desc| == NUM
      modifies `free, `desc
      ensures |free| == |desc| == NUM && forall k :: 0 <= k < NUM && !old(free)[k] ==> desc[k] == old(desc)[k]
      ensures ok ==> |idx| == 3 && idx[0] < NUM && idx[1] < NUM && idx[2] < NUM && idx[0] != idx[1] && idx[0] != idx[2]
                     && idx[1] != idx[2]
                     && old(free)[idx[0]] && old(free)[idx[1]] && old(free)[idx[2]] && desc == old(desc)
                     && free == old(free)[idx[0] := false][idx[1] := false][idx[2] := false]
      ensures !ok ==> free == old(free) && |idx| <= 2 && forall k :: 0 <= k < NUM && free[k] ==> k in idx
    {
      idx := [];
      for i := 0 to 3
        invariant |idx| == i && Reserved(old(free), free, idx) && desc == old(desc)
      {
        var d := AllocDesc();
        if d < 0 {
          forall k | 0 <= k < NUM && old(free)[k]
            ensures k in idx
          {
            assert !free[k];
          }
          ok := GiveBack(idx, old(free));
          return false, idx;
        }
        idx := idx + [d];
      }
      ok := true;
      assert idx == [idx[0], idx[1], idx[2]];
    }

    /** alloc3_desc's way back. */
    method GiveBack(idx: seq<nat>, ghost free0: seq<bool>) returns (ok: bool)
      requires |desc| == NUM && |idx| <= 2 && Reserved(free0, free, idx)
      modifies `free, `desc
      ensures ok && free == free0 && |desc| == NUM && forall k :: 0 <= k < NUM && k !in idx ==> desc[k] == old(desc)[k]
    {
      ok := true;
      for j := 0 to |idx|
        invariant ok && |desc| == |free| == NUM && (forall k :: 0 <= k < NUM && k !in idx ==> desc[k] == old(desc)[k])
        invariant Reserved(free0, free, idx[j..])
      {
        assert idx[j..] == [idx[j]] + idx[j + 1..] && idx[j..][0] == idx[j];
        assert !free[idx[j]];
        ok := FreeDesc(idx[j]);
      }
    }

    /** The part of virtio_disk_rw that formats the three descriptors. */
    method Format(idx: seq<nat>, b: nat, op: Op)
      requires |desc| == |ops| == |info| == NUM && |idx| == 3 && idx[0] < NUM && idx[1] < NUM && idx[2] < NUM
      requires idx[0] != idx[1] && idx[0] != idx[2] && idx[1] != idx[2]
      modifies `desc, `ops, `info
      ensures |desc| == |ops| == |info| == NUM && Spells(desc, ops, info, idx[0], Req(idx[1], idx[2], b, op, Posted))
      ensures forall k :: 0 <= k < NUM && k != idx[0] && k != idx[1] && k != idx[2] ==> desc[k] == old(desc)[k]
      ensures forall k :: 0 <= k < NUM && k != idx[0] ==> ops[k] == old(ops)[k] && info[k] == old(info)[k]
    {
      ops := ops[idx[0] := op];
      desc := desc[idx[0] := Desc(Header(idx[0]), 16, true, false, idx[1])];
      desc := desc[idx[1] := Desc(Buffer(b), BSIZE, true, !op.write, idx[2])];
      info := info[idx[0] := Info(b, 0xff)];
      desc := desc[idx[2] := Desc(Status(idx[0]), 1, false, true, 0)];
    }

    /** virtio_disk_rw up to its wait: false if it must first sleep for descriptors. The
        buffer is locked by the caller, so it is in no other request. */
    method Submit(b: nat, write: bool, blockno: nat) returns (ok: bool, ghost h: nat)
      requires Valid() && b !in byBuf
      modifies `free, `desc, `ops, `info, `busy, `part, `byBuf, `availRing, `availIdx, `availQ, `reqs
      ensures Valid()
      ensures !ok ==> reqs == old(reqs) && part == old(part) && free == old(free) && busy == old(busy)
                      && exists x, y :: OnlyFree(free, x, y)
      ensures ok ==> h !in old(reqs) && h in reqs && reqs == old(reqs)[h := reqs[h]] && busy == old(busy) + {b}
                     && reqs[h].buf == b && reqs[h].phase == Posted
                       && reqs[h].op == Op(write, blockno * (BSIZE / 512) % 0x1_0000_0000)
                     && availQ == old(availQ) + [h]
    {
      var idx;
      h := 0;
      ok, idx := Alloc3Desc();
      if !ok {
        FewFree(free, idx);
        FreeDontMatter(free, old(desc), desc, ops, info, reqs, part);
        return;
      }
      var op := Op(write, blockno * (BSIZE / 512) % 0x1_0000_0000);
      Format(idx, b, op);
      h := idx[0];
      EnterNew(idx, b, Req(idx[1], idx[2], b, op, Posted), old(free), old(desc), old(ops), old(info));
    }

    /** The rest of it: b->disk, and the avail ring. */
    method EnterNew(idx: seq<nat>, b: nat, ghost r: Req, ghost free0: seq<bool>, ghost desc0: seq<Desc>,
                    ghost ops0: seq<Op>, ghost info0: seq<Info>)
      requires |idx| == 3 && r.second == idx[1] && r.third == idx[2] && r.buf == b && r.phase == Posted
      requires Chained(free0, desc0, ops0, info0, reqs, part) && Rings() && Buffers(reqs, busy, byBuf) && b !in byBuf
      requires |desc| == |ops| == |info| == NUM && Spells(desc, ops, info, idx[0], r)
      requires idx[0] != idx[1] && idx[0] != idx[2] && idx[1] != idx[2]
      requires free0[idx[0]] && free0[idx[1]] && free0[idx[2]]
      requires free == free0[idx[0] := false][idx[1] := false][idx[2] := false]
      requires forall k :: 0 <= k < NUM && !free0[k] ==> desc[k] == desc0[k] && ops[k] == ops0[k] && info[k] == info0[k]
      modifies `busy, `part, `byBuf, `availRing, `availIdx, `availQ, `reqs
      ensures Valid() && idx[0] !in old(reqs) && reqs == old(reqs)[idx[0] := r]
      ensures busy == old(busy) + {b} && availQ == old(availQ) + [idx[0]]
    {
      ghost var h := idx[0];
      EnterKeeps(free0, desc0, ops0, info0, desc, ops, info, reqs, part, busy, byBuf, h, r);
      Enter(idx[0], b, r, reqs[h := r], part[h := h][r.second := h][r.third := h], byBuf[b := h]);
    }

    method Enter(h: nat, b: nat, ghost r: Req, ghost reqs': Reqs, ghost part': map<nat, nat>,
                 ghost byBuf': map<nat, nat>)
      requires Rings() && h !in reqs && h < NUM && r.phase == Posted && forall g :: g in reqs ==> g < NUM
      requires reqs' == reqs[h := r] && Chained(free, desc, ops, info, reqs', part')
      requires Buffers(reqs', busy + {b}, byBuf')
      modifies `busy, `part, `byBuf, `availRing, `availIdx, `availQ, `reqs
      ensures Valid() && reqs == reqs' && busy == old(busy) + {b} && availQ == old(availQ) + [h]
    {
      ghost var busy' := busy + {b};
      busy, part, byBuf := busy + {b}, part', byBuf';
      assert Rings() == old(Rings());
      Post(h, r);
      assert Chained(free, desc, ops, info, reqs, part) == Chained(free, desc, ops, info, reqs', part');
      assert Buffers(reqs, busy, byBuf) == Buffers(reqs', busy', byBuf');
    }

    /** The avail ring gets head h. */
    method Post(h: nat, ghost r: Req)
      requires Rings() && h !in reqs && h < NUM && r.phase == Posted && forall g :: g in reqs ==> g < NUM
      modifies `availRing, `availIdx, `availQ, `reqs
      ensures Rings() && reqs == old(reqs)[h := r] && availQ == old(availQ) + [h]
    {
      IndexedAdd(availRing, availQ, taken, reqs, reqs[h := r], Posted, devIdx, availIdx, h);
      RingKeep(usedRing, usedQ, seen, reqs, reqs[h := r], Used);
      availRing := availRing[availIdx % NUM := h];
      availIdx := (availIdx + 1) % WORD;
      availQ := availQ + [h];
      reqs := reqs[h := r];
    }

    /** What the device finds by following the chain at head h. */
    method ReadChain(h: nat, ghost r: Req) returns (op: Op, b: nat, status: nat)
      requires |desc| == |ops| == |info| == NUM && Spells(desc, ops, info, h, r)
      ensures op == r.op && b == r.buf && status == h
    {
      op := ops[desc[h].addr.i];
      b := desc[desc[h].next].addr.b;
      status := desc[desc[desc[h].next].next].addr.i;
    }

    /** The device takes the next request, if there is one, and reads its chain. */
    method DeviceTake() returns (some: bool, h: nat, op: Op, b: nat, status: nat)
      requires Valid()
      modifies `devIdx, `availQ, `taken, `reqs
      ensures Valid() && (some <==> |old(availQ)| > 0)
      ensures !some ==> reqs == old(reqs)
      ensures some ==> h == old(availQ)[0] && availQ == old(availQ)[1..] && h in old(reqs)
                       && reqs == Moved(old(reqs), h, Working)
      ensures some ==> op == reqs[h].op && b == reqs[h].buf && status == h
    {
      h, op, b, status := 0, Op(false, 0), 0, 0;
      IndexedEmpty(availRing, availQ, taken, reqs, Posted, devIdx, availIdx);
      some := devIdx != availIdx;
      if some {
        h := TakeAvail();
        assert Spells(desc, ops, info, h, reqs[h]);
        op, b, status := ReadChain(h, reqs[h]);
      }
    }

    method TakeAvail() returns (h: nat)
      requires Valid() && |availQ| > 0
      modifies `devIdx, `availQ, `taken, `reqs
      ensures Valid() && h == old(availQ)[0] && availQ == old(availQ)[1..] && h in old(reqs)
              && reqs == Moved(old(reqs), h, Working)
    {
      assert availQ[0] in availQ;
      ghost var g := availQ[0];
      IndexedTake(availRing, availQ, taken, reqs, Moved(reqs, g, Working), Posted, devIdx, availIdx);
      RingKeep(usedRing, usedQ, seen, reqs, Moved(reqs, g, Working), Used);
      MovedChained(free, desc, ops, info, info, reqs, part, g, Working);
      MovedBuffers(reqs, busy, byBuf, g, Working);
      h := availRing[devIdx % NUM];
      devIdx := (devIdx + 1) % WORD;
      availQ, taken, reqs := availQ[1..], taken + 1, Moved(reqs, g, Working);
    }

    /** The data of one request, to or from the disk. */
    method Transfer(op: Op, b: nat)
      modifies `mem, `disk
      ensures disk == if op.write then old(disk)[op.sector := At(old(mem), b)] else old(disk)
      ensures mem == if op.write then old(mem) else old(mem)[b := At(old(disk), op.sector)]
    {
      if op.write {
        disk := disk[op.sector := At(mem, b)];
      } else {
        mem := mem[b := At(disk, op.sector)];
      }
    }

    /** The device completes a request it has taken, in any order: it follows the chain,
        moves the data unless the operation fails, and writes the status. */
    method DeviceComplete(h: nat, status: nat)
      requires Valid() && h in reqs && reqs[h].phase == Working
      modifies `info, `usedRing, `usedDev, `usedQ, `reqs, `mem, `disk
      ensures Valid() && reqs == Moved(old(reqs), h, Used) && usedQ == old(usedQ) + [h]
      ensures h < |old(info)| && info == old(info)[h := old(info)[h].(status := status)]
      ensures disk == if status == 0 && reqs[h].op.write then old(disk)[reqs[h].op.sector := At(old(mem), reqs[h].buf)]
                      else old(disk)
      ensures mem == if status == 0 && !reqs[h].op.write then old(mem)[reqs[h].buf := At(old(disk), reqs[h].op.sector)]
                     else old(mem)
    {
      HeadsBelow(free, reqs, part);
      assert Spells(desc, ops, info, h, reqs[h]);
      var op, b, st := ReadChain(h, reqs[h]);
      if status == 0 {
        Transfer(op, b);
      }
      assert Valid() == old(Valid());
      SetStatus(h, st, status);
      PutUsed(h);
    }

    /** The status byte of a request that is with the device. */
    method SetStatus(ghost h: nat, st: nat, status: nat)
      requires Valid() && h in reqs && st == h < NUM
      modifies `info
      ensures Valid() && h < |old(info)| && info == old(info)[h := old(info)[h].(status := status)]
    {
      SameChains(free, desc, ops, info, info[h := info[h].(status := status)], reqs, part);
      info := info[st := info[st].(status := status)];
    }

    method PutUsed(h: nat)
      requires Valid() && h in reqs && reqs[h].phase == Working && h < NUM && forall g :: g in reqs ==> g < NUM
      modifies `usedRing, `usedDev, `usedQ, `reqs
      ensures Valid() && reqs == Moved(old(reqs), h, Used) && usedQ == old(usedQ) + [h]
    {
      MovedChained(free, desc, ops, info, info, reqs, part, h, Used);
      MovedBuffers(reqs, busy, byBuf, h, Used);
      IndexedAdd(usedRing, usedQ, seen, reqs, Moved(reqs, h, Used), Used, usedIdx, usedDev, h);
      RingKeep(availRing, availQ, taken, reqs, Moved(reqs, h, Used), Posted);
      usedRing := usedRing[usedDev % NUM := h];
      usedDev := (usedDev + 1) % WORD;
      usedQ, reqs := usedQ + [h], Moved(reqs, h, Used);
    }

    /** One round of virtio_disk_intr: the oldest completion not yet seen, if any. A
        panic stands for a status that is not zero. */
    method IntrStep() returns (more: bool, panic: bool)
      requires Valid()
      modifies `usedIdx, `busy, `usedQ, `seen, `reqs
      ensures Valid() && (more <==> |old(usedQ)| > 0)
      ensures !more || panic ==> reqs == old(reqs) && busy == old(busy) && usedQ == old(usedQ)
      ensures if more then old(usedQ)[0] < |info| && (panic <==> info[old(usedQ)[0]].status != 0) else !panic
      ensures more && !panic ==> var h := old(usedQ)[0];
                h in old(reqs) && old(reqs)[h].phase == Used && usedQ == old(usedQ)[1..]
                  && reqs == Moved(old(reqs), h, Done) && busy == old(busy) - {reqs[h].buf}
    {
      IndexedEmpty(usedRing, usedQ, seen, reqs, Used, usedIdx, usedDev);
      more, panic := usedIdx != usedDev, false;
      if more {
        assert usedQ[0] in usedQ;
        ghost var reqs' := Moved(reqs, usedQ[0], Done);
        IndexedTake(usedRing, usedQ, seen, reqs, reqs', Used, usedIdx, usedDev);
        RingKeep(availRing, availQ, taken, reqs, reqs', Posted);
        var id := usedRing[usedIdx % NUM];
        MovedChained(free, desc, ops, info, info, reqs, part, id, Done);
        MovedBuffers(reqs, busy, byBuf, id, Done);
        assert Spells(desc, ops, info, id, reqs[id]);
        if info[id].status != 0 {
          return true, true;
        }
        busy := busy - {info[id].buf};
        usedIdx := (usedIdx + 1) % WORD;
        usedQ, seen, reqs := usedQ[1..], seen + 1, reqs';
      }
    }

    /** The first k completions all succeeded. */
    ghost predicate Succeeded(q: seq<nat>, k: nat)
      reads `info
    {
      k <= |q| && forall i {:trigger q[i]} :: 0 <= i < k ==> q[i] < |info| && info[q[i]].status == 0
    }

    /** virtio_disk_intr: every completion there is, or those before the first that
        failed, on which it panics. The ghost result counts them. */
    method Intr() returns (panic: bool, ghost k: nat)
      requires Valid()
      modifies `usedIdx, `busy, `usedQ, `seen, `reqs
      ensures Valid() && Succeeded(old(usedQ), k) && usedQ == old(usedQ)[k..]
      ensures Acknowledged(old(reqs), reqs)
      ensures panic <==> k < |old(usedQ)|
      ensures panic ==> old(usedQ)[k] < |info| && info[old(usedQ)[k]].status != 0
    {
      panic, k := false, 0;
      var more := true;
      while more
        invariant Valid() && !panic && Acknowledged(old(reqs), reqs) && (!more ==> usedQ == [])
        invariant Succeeded(old(usedQ), k) && usedQ == old(usedQ)[k..]
        decreases more, |usedQ|
      {
        more, panic, k := IntrNext(old(reqs), old(usedQ), k);
        if panic {
          return;
        }
      }
    }

    /** The same round, after k others. */
    method IntrNext(ghost reqs0: Reqs, ghost q: seq<nat>, ghost k: nat) returns (more: bool, panic: bool, ghost k': nat)
      requires Valid() && Acknowledged(reqs0, reqs) && Succeeded(q, k) && usedQ == q[k..]
      modifies `usedIdx, `busy, `usedQ, `seen, `reqs
      ensures Valid() && Acknowledged(reqs0, reqs) && Succeeded(q, k') && usedQ == q[k'..] && (panic ==> more)
      ensures k' == k + (if more && !panic then 1 else 0) && (more <==> k < |q|)
      ensures panic ==> q[k] < |info| && info[q[k]].status != 0
    {
      ghost var reqs1 := reqs;
      assert usedQ != [] ==> usedQ[0] == q[k] && usedQ[1..] == q[k + 1..];
      more, panic := IntrStep();
      k' := if more && !panic then k + 1 else k;
      if !panic {
        OneMoreSeen(reqs0, reqs1, reqs);
      }
    }

    /** free_chain from head h. */
    method FreeChain(h: nat, ghost r: Req) returns (ok: bool)
      requires |free| == |desc| == |ops| == |info| == NUM && h < NUM && r.second < NUM && r.third < NUM
      requires h != r.second && h != r.third && r.second != r.third && !free[h] && !free[r.second] && !free[r.third]
      requires desc[h].more && desc[h].next == r.second && desc[r.second].more && desc[r.second].next == r.third
               && !desc[r.third].more
      modifies `free, `desc
      ensures ok && free == old(free)[h := true][r.second := true][r.third := true]
      ensures desc == old(desc)[h := EMPTY][r.second := EMPTY][r.third := EMPTY]
    {
      ghost var step := 0;
      var i := h;
      ok := true;
      while true
        invariant 0 <= step <= 2 && ok && i == (if step == 0 then h else if step == 1 then r.second else r.third)
        invariant step == 0 ==> free == old(free) && desc == old(desc)
        invariant step == 1 ==> free == old(free)[h := true] && desc == old(desc)[h := EMPTY]
        invariant step == 2 ==>
                    free == old(free)[h := true][r.second := true] && desc == old(desc)[h := EMPTY][r.second := EMPTY]
        decreases 2 - step
      {
        var flag, nxt := desc[i].more, desc[i].next;
        ok := FreeDesc(i);
        if !flag {
          break;
        }
        i := nxt;
        step := step + 1;
      }
    }

    /** virtio_disk_rw after its wait: the request of head h, done, gives back its
        descriptors. */
    method Finish(h: nat) returns (ok: bool)
      requires Valid() && h in reqs && reqs[h].phase == Done
      modifies `free, `desc, `info, `reqs, `part, `byBuf
      ensures Valid() && ok && reqs == old(reqs) - {h}
      ensures forall i {:trigger free[i]} :: 0 <= i < NUM ==> (free[i] <==> old(free)[i] || InChain(h, old(reqs)[h], i))
    {
      ghost var r := reqs[h];
      assert Spells(desc, ops, info, h, r) && HasChain(reqs, part, h);
      info := info[h := info[h].(buf := NOBUF)];
      ok := FreeChain(h, r);
      Forget(h, old(free), old(desc), old(info));
    }

    /** The request of head h is no more. */
    ghost method Forget(h: nat, free0: seq<bool>, desc0: seq<Desc>, info0: seq<Info>)
      requires Chained(free0, desc0, ops, info0, reqs, part) && Rings() && Buffers(reqs, busy, byBuf) && h in reqs
               && reqs[h].phase == Done
      requires HasChain(reqs, part, h) && h < NUM && reqs[h].second < NUM && reqs[h].third < NUM
      requires free == free0[h := true][reqs[h].second := true][reqs[h].third := true]
      requires desc == desc0[h := EMPTY][reqs[h].second := EMPTY][reqs[h].third := EMPTY]
               && info == info0[h := info0[h].(buf := NOBUF)]
      modifies `reqs, `part, `byBuf
      ensures Valid() && reqs == old(reqs) - {h}
    {
      RemoveKeeps(free0, desc0, ops, info0, free, desc, info, reqs, part, busy, byBuf, h);
      RingKeep(availRing, availQ, taken, reqs, reqs - {h}, Posted);
      RingKeep(usedRing, usedQ, seen, reqs, reqs - {h}, Used);
      part := part - {h, reqs[h].second, reqs[h].third};
      byBuf := byBuf - {reqs[h].buf};
      reqs := reqs - {h};
    }
  }

  /** Some requests in the used ring are done now; no other changed. */
  ghost predicate Acknowledged(reqs: Reqs, reqs': Reqs) {
    && reqs'.Keys == reqs.Keys
    && forall h {:trigger reqs'[h]} :: h in reqs ==>
         reqs'[h] == reqs[h] || (reqs[h].phase == Used && reqs'[h] == reqs[h].(phase := Done))
  }

  lemma OneMoreSeen(reqs0: Reqs, reqs1: Reqs, reqs2: Reqs)
    requires Acknowledged(reqs0, reqs1)
    requires reqs2 == reqs1 || exists h :: h in reqs1 && reqs1[h].phase == Used && reqs2 == Moved(reqs1, h, Done)
    ensures Acknowledged(reqs0, reqs2)
  {
    if reqs2 != reqs1 {
      var h :| h in reqs1 && reqs1[h].phase == Used && reqs2 == Moved(reqs1, h, Done);
      forall g | g in reqs0
        ensures reqs2[g] == reqs0[g] || (reqs0[g].phase == Used && reqs2[g] == reqs0[g].(phase := Done))
      {
        var x := reqs1[g];
      }
    }
  }

  /** A request removed with its chain and its buffer. */
  lemma RemoveKeeps(free: seq<bool>, desc: seq<Desc>, ops: seq<Op>, info: seq<Info>, free': seq<bool>,
                    desc': seq<Desc>, info': seq<Info>,
                    reqs: Reqs, part: map<nat, nat>, busy: set<nat>, byBuf: map<nat, nat>, h: nat)
    requires Chained(free, desc, ops, info, reqs, part) && Buffers(reqs, busy, byBuf) && h in reqs
             && reqs[h].phase == Done
    requires HasChain(reqs, part, h) && h < NUM && reqs[h].second < NUM && reqs[h].third < NUM
    requires var r := reqs[h];
             && free' == free[h := true][r.second := true][r.third := true]
             && desc' == desc[h := EMPTY][r.second := EMPTY][r.third := EMPTY]
             && info' == info[h := info[h].(buf := NOBUF)]
    ensures Chained(free', desc', ops, info', reqs - {h}, part - {h, reqs[h].second, reqs[h].third})
    ensures Buffers(reqs - {h}, busy, byBuf - {reqs[h].buf})
  {
    var r := reqs[h];
    var reqs', part', byBuf' := reqs - {h}, part - {h, r.second, r.third}, byBuf - {r.buf};
    assert HasBuffer(reqs, busy, byBuf, h);
    forall g | g in reqs'
      ensures HasChain(reqs', part', g) && Spells(desc', ops, info', g, reqs'[g]) && HasBuffer(reqs', busy, byBuf', g)
    {
      assert HasChain(reqs, part, g) && Spells(desc, ops, info, g, reqs[g]) && HasBuffer(reqs, busy, byBuf, g);
    }
    forall i | i in part'
      ensures InPart(reqs', part', i)
    {
      assert InPart(reqs, part, i);
    }
    forall b | b in byBuf'
      ensures InRequest(reqs', byBuf', b)
    {
      assert InRequest(reqs, byBuf, b);
    }
  }

  lemma FewFree(free: seq<bool>, idx: seq<nat>)
    requires |free| == NUM && |idx| <= 2 && forall k :: 0 <= k < NUM && free[k] ==> k in idx
    ensures exists x, y :: OnlyFree(free, x, y)
  {
    var x, y := if |idx| > 0 then idx[0] else 0, if |idx| > 1 then idx[1] else 0;
    assert OnlyFree(free, x, y);
  }

  /** No descriptor but x and y is free. */
  ghost predicate OnlyFree(free: seq<bool>, x: nat, y: nat) {
    forall k :: 0 <= k < |free| && free[k] ==> k == x || k == y
  }

  /** Three free descriptors become the chain of a new request. */
  lemma NewChain(free: seq<bool>, reqs: Reqs, part: map<nat, nat>, h: nat, r: Req)
    requires Partition(free, reqs, part) && h < NUM && r.second < NUM && r.third < NUM
    requires h != r.second && h != r.third && r.second != r.third && free[h] && free[r.second] && free[r.third]
    ensures h !in reqs
    ensures Partition(free[h := false][r.second := false][r.third := false], reqs[h := r],
                      part[h := h][r.second := h][r.third := h])
  {
    assert h !in part && r.second !in part && r.third !in part;
    assert h in reqs ==> HasChain(reqs, part, h);
    var reqs', part' := reqs[h := r], part[h := h][r.second := h][r.third := h];
    forall g | g in reqs'
      ensures HasChain(reqs', part', g)
    {
      assert g != h ==> HasChain(reqs, part, g);
    }
    forall i | i in part'
      ensures InPart(reqs', part', i)
    {
      assert i in part ==> InPart(reqs, part, i);
    }
  }

  /** Formatting free descriptors disturbs no request. */
  lemma StillSpell(free: seq<bool>, desc: seq<Desc>, ops: seq<Op>, info: seq<Info>, desc': seq<Desc>, ops': seq<Op>,
                   info': seq<Info>,
                   reqs: Reqs, part: map<nat, nat>, h: nat, r: Req)
    requires |desc| == |ops| == |info| == |desc'| == |ops'| == |info'| == NUM && Partition(free, reqs, part)
    requires h < NUM && r.second < NUM && r.third < NUM && free[h] && free[r.second] && free[r.third]
    requires Chained(free, desc, ops, info, reqs, part)
    requires forall k :: 0 <= k < NUM && !free[k] ==> desc'[k] == desc[k] && ops'[k] == ops[k] && info'[k] == info[k]
    requires Spells(desc', ops', info', h, r) && h != r.second && h != r.third && r.second != r.third
    ensures h !in reqs
    ensures Chained(free[h := false][r.second := false][r.third := false], desc', ops', info', reqs[h := r],
                    part[h := h][r.second := h][r.third := h])
  {
    NewChain(free, reqs, part, h, r);
    var reqs' := reqs[h := r];
    forall g | g in reqs'
      ensures Spells(desc', ops', info', g, reqs'[g])
    {
      if g != h {
        assert Spells(desc, ops, info, g, reqs[g]);
        assert HasChain(reqs, part, g);
      }
    }
  }

  /** A formatted chain enters as a request that is posted. */
  lemma EnterKeeps(free: seq<bool>, desc: seq<Desc>, ops: seq<Op>, info: seq<Info>, desc': seq<Desc>, ops': seq<Op>,
                   info': seq<Info>, reqs: Reqs, part: map<nat, nat>, busy: set<nat>, byBuf: map<nat, nat>,
                   h: nat, r: Req)
    requires |desc'| == |ops'| == |info'| == NUM && Chained(free, desc, ops, info, reqs, part)
    requires Spells(desc', ops', info', h, r) && h != r.second && h != r.third && r.second != r.third
    requires free[h] && free[r.second] && free[r.third]
    requires forall k :: 0 <= k < NUM && !free[k] ==> desc'[k] == desc[k] && ops'[k] == ops[k] && info'[k] == info[k]
    requires Buffers(reqs, busy, byBuf) && r.buf !in byBuf && r.phase != Done
    ensures h !in reqs && (forall g :: g in reqs ==> g < NUM)
            && Buffers(reqs[h := r], busy + {r.buf}, byBuf[r.buf := h])
    ensures Chained(free[h := false][r.second := false][r.third := false], desc', ops', info', reqs[h := r],
                    part[h := h][r.second := h][r.third := h])
  {
    HeadsBelow(free, reqs, part);
    StillSpell(free, desc, ops, info, desc', ops', info', reqs, part, h, r);
    NewBuffer(reqs, busy, byBuf, h, r);
  }

  lemma NewBuffer(reqs: Reqs, busy: set<nat>, byBuf: map<nat, nat>, h: nat, r: Req)
    requires Buffers(reqs, busy, byBuf) && h !in reqs && r.buf !in byBuf && r.phase != Done
    ensures Buffers(reqs[h := r], busy + {r.buf}, byBuf[r.buf := h])
  {
    var reqs', busy', byBuf' := reqs[h := r], busy + {r.buf}, byBuf[r.buf := h];
    forall g | g in reqs'
      ensures HasBuffer(reqs', busy', byBuf', g)
    {
      assert g != h ==> HasBuffer(reqs, busy, byBuf, g);
    }
    forall b | b in byBuf'
      ensures InRequest(reqs', byBuf', b)
    {
      assert b != r.buf ==> InRequest(reqs, byBuf, b);
    }
  }

  /** The descriptors in idx, all free before, are the ones taken since. */
  ghost predicate Reserved(free0: seq<bool>, free: seq<bool>, idx: seq<nat>) {
    && |free0| == |free| == NUM && Distinct(idx)
      && (forall x {:trigger idx[x]} :: 0 <= x < |idx| ==> idx[x] < NUM && free0[idx[x]])
    && (forall k {:trigger free[k]} :: 0 <= k < NUM ==> (free[k] <==> free0[k] && k !in idx))
  }
}
