/** xv6/kernel/bio.c: the block buffer cache, threaded on a circular list kept
    in order of last release. Each method is one section under bcache.lock (or
    one disk transfer under the buffer's sleep lock), so any interleaving of
    processes is a sequence of these calls. */
module BufferCache {
  import opened Disk
  import opened Distinctness
  import opened LruRing

  datatype Option<T> = None | Some(value: T)

  datatype Buf = Buf(valid: bool, dev: nat, blockno: nat, refcnt: nat, data: Block)

  const HEAD := NBUF

  predicate Caches(b: Buf, dev: nat, blockno: nat) {
    b.dev == dev && b.blockno == blockno
  }

  /** No block of a real device has two buffers. At boot every buffer claims
      block 0 of device 0, so device 0 is excluded. */
  ghost predicate Unique(bufs: seq<Buf>) {
    forall i, j :: 0 <= i < j < |bufs| && bufs[i].dev == bufs[j].dev != 0 ==> bufs[i].blockno != bufs[j].blockno
  }

  ghost predicate Cached(bufs: seq<Buf>, dev: nat, blockno: nat) {
    exists i :: 0 <= i < |bufs| && Caches(bufs[i], dev, blockno)
  }

  /** Some buffer holds the contents of block b and is referenced, so it cannot
      be recycled. */
  ghost predicate Pinned(bufs: seq<Buf>, b: nat) {
    exists i :: 0 <= i < |bufs| && Caches(bufs[i], ROOTDEV, b) && bufs[i].valid && bufs[i].refcnt > 0
  }

  ghost predicate SomeFree(bufs: seq<Buf>) {
    exists i :: 0 <= i < |bufs| && bufs[i].refcnt == 0
  }

  /** The cache in front of `disk` behaves as the plain block store `view`: a
      valid buffer holds its block's contents, and a block whose contents are
      not on disk yet is pinned. */
  ghost predicate Coherent(bufs: seq<Buf>, disk: Image, view: Image) {
    && |view| == |disk|
    && (forall i :: 0 <= i < |bufs| && bufs[i].dev == ROOTDEV ==>
          bufs[i].blockno < |disk| && (bufs[i].valid ==> bufs[i].data == view[bufs[i].blockno]))
    && (forall b {:trigger Pinned(bufs, b)} :: 0 <= b < |disk| && view[b] != disk[b] ==> Pinned(bufs, b))
  }

  /** The list is sorted by the time of the last move to the front. */
  ghost predicate RecencyOrder(order: seq<nat>, stamp: seq<nat>, clock: nat) {
    && (forall k :: 0 <= k < |order| ==> order[k] < |stamp| && stamp[order[k]] < clock)
    && (forall j, k :: 0 <= j < k < |order| ==> stamp[order[k]] < stamp[order[j]])
  }

  class BufferCache {
    var bufs: seq<Buf>
    var next: seq<nat>
    var prev: seq<nat>
    var disk: Image

    ghost var order: seq<nat>     // the list, most recently released first
    ghost var view: Image         // the block store clients see
    ghost var history: seq<Image> // the disk after every block write so far
    ghost var stamp: seq<nat>     // when each buffer last moved to the front
    ghost var clock: nat

    ghost predicate Valid()
      reads this
    {
      && |bufs| == NBUF && |order| == NBUF && |stamp| == NBUF
      && Forward(next, HEAD, order) && Backward(prev, HEAD, order)
      && Unique(bufs)
      && Coherent(bufs, disk, view)
      && RecencyOrder(order, stamp, clock)
    }

    /** binit, on a machine booting with the given disk. */
    constructor (d: Image)
      ensures Valid() && fresh(this)
      ensures disk == d && view == d && history == []
      ensures forall i :: 0 <= i < NBUF ==> bufs[i].refcnt == 0 && bufs[i].dev == 0
    {
      var next': seq<nat> := seq(NBUF + 1, _ => HEAD);
      var prev': seq<nat> := seq(NBUF + 1, _ => HEAD);
      ghost var order': seq<nat> := [];
      ghost var stamp': seq<nat> := seq(NBUF, _ => 0);
      for b := 0 to NBUF
        invariant Forward(next', HEAD, order') && Backward(prev', HEAD, order')
        invariant |order'| == b && |stamp'| == NBUF && RecencyOrder(order', stamp', b)
        invariant forall k :: 0 <= k < |order'| ==> order'[k] < b
      {
        PushForward(next', HEAD, order', b);
        PushBackward(prev', HEAD, order', b);
        var first := next'[HEAD];
        prev' := prev'[b := HEAD][first := b];
        next' := next'[b := first][HEAD := b];
        order', stamp' := [b] + order', stamp'[b := b];
      }
      bufs := seq(NBUF, _ => Buf(false, 0, 0, 0, Block([])));
      next, prev, disk := next', prev', d;
      order, stamp, clock, view, history := order', stamp', NBUF, d, [];
    }

    /** The forward scan of bget: the buffer caching a block, or HEAD. */
    method FindCached(dev: nat, blockno: nat) returns (b: nat)
      requires Valid()
      ensures b == HEAD <==> !Cached(bufs, dev, blockno)
      ensures b != HEAD ==> b < NBUF && Caches(bufs[b], dev, blockno)
    {
      ghost var k := 0;
      assert HEAD == Before(HEAD, order, 0);
      b := next[HEAD];
      while b != HEAD
        invariant 0 <= k <= NBUF && b == After(HEAD, order, k)
        invariant forall j :: 0 <= j < k ==> !Caches(bufs[order[j]], dev, blockno)
        decreases NBUF - k
      {
        if bufs[b].dev == dev && bufs[b].blockno == blockno {
          return;
        }
        assert b == Before(HEAD, order, k + 1) && next[b] == After(HEAD, order, k + 1);
        b := next[b];
        k := k + 1;
      }
      forall i | 0 <= i < NBUF
        ensures !Caches(bufs[i], dev, blockno)
      {
        var j := PositionOf(HEAD, order, i);
      }
    }

    /** The backward scan of bget: the least recently released buffer that
        nobody references, or HEAD. */
    method FindFree() returns (b: nat)
      requires Valid()
      ensures b == HEAD <==> !SomeFree(bufs)
      ensures b != HEAD ==> b < NBUF && bufs[b].refcnt == 0
      ensures b != HEAD ==> forall i :: 0 <= i < NBUF && bufs[i].refcnt == 0 ==> stamp[b] <= stamp[i]
    {
      ghost var k := NBUF;
      assert HEAD == After(HEAD, order, NBUF);
      b := prev[HEAD];
      while b != HEAD
        invariant 0 <= k <= NBUF && b == Before(HEAD, order, k)
        invariant forall j :: k <= j < NBUF ==> bufs[order[j]].refcnt > 0
        decreases k
      {
        if bufs[b].refcnt == 0 {
          forall i | 0 <= i < NBUF && bufs[i].refcnt == 0
            ensures stamp[b] <= stamp[i]
          {
            var j := PositionOf(HEAD, order, i);
          }
          return;
        }
        assert b == After(HEAD, order, k - 1) && prev[b] == Before(HEAD, order, k - 1);
        b := prev[b];
        k := k - 1;
      }
      forall i | 0 <= i < NBUF
        ensures bufs[i].refcnt > 0
      {
        var j := PositionOf(HEAD, order, i);
      }
    }

    /** bget: find or recycle a buffer for the block and take a reference to
        it. The result is None where the kernel panics with "no buffers". */
    method Bget(dev: nat, blockno: nat) returns (r: Option<nat>)
      requires Valid() && dev != 0
      requires dev == ROOTDEV ==> blockno < |disk|
      modifies `bufs
      ensures Valid()
      ensures r.None? <==> !Cached(old(bufs), dev, blockno) && !SomeFree(old(bufs))
      ensures r.None? ==> bufs == old(bufs)
      ensures r.Some? ==> r.value < NBUF && bufs == old(bufs)[r.value := bufs[r.value]]
      ensures r.Some? && Cached(old(bufs), dev, blockno) ==>
                var was := old(bufs)[r.value];
                Caches(was, dev, blockno) && bufs[r.value] == was.(refcnt := was.refcnt + 1)
      ensures r.Some? && !Cached(old(bufs), dev, blockno) ==>
                var was := old(bufs)[r.value];
                && was.refcnt == 0
                && bufs[r.value] == was.(dev := dev, blockno := blockno, valid := false, refcnt := 1)
                && forall i :: 0 <= i < NBUF && old(bufs)[i].refcnt == 0 ==> stamp[r.value] <= stamp[i]
    {
      var b := FindCached(dev, blockno);
      if b != HEAD {
        RecountKeeps(bufs, disk, view, b, bufs[b].refcnt + 1);
        bufs := bufs[b := bufs[b].(refcnt := bufs[b].refcnt + 1)];
        return Some(b);
      }
      b := FindFree();
      if b != HEAD {
        RecycleKeeps(bufs, disk, view, b, dev, blockno);
        bufs := bufs[b := bufs[b].(dev := dev, blockno := blockno, valid := false, refcnt := 1)];
        return Some(b);
      }
      return None;
    }

    /** bread: a referenced buffer holding the block's current contents. */
    method Bread(blockno: nat) returns (r: Option<nat>)
      requires Valid() && blockno < |disk|
      modifies `bufs
      ensures Valid()
      ensures r.None? <==> !Cached(old(bufs), ROOTDEV, blockno) && !SomeFree(old(bufs))
      ensures r.None? ==> bufs == old(bufs)
      ensures r.Some? ==>
                && r.value < NBUF && bufs == old(bufs)[r.value := bufs[r.value]]
                && Caches(bufs[r.value], ROOTDEV, blockno)
                && bufs[r.value].valid && bufs[r.value].data == view[blockno]
                && bufs[r.value].refcnt == old(bufs)[r.value].refcnt + 1
                && (old(bufs)[r.value].refcnt > 0 ==> Caches(old(bufs)[r.value], ROOTDEV, blockno))
                && (Cached(old(bufs), ROOTDEV, blockno) ==> Caches(old(bufs)[r.value], ROOTDEV, blockno))
                && (Caches(old(bufs)[r.value], ROOTDEV, blockno) && old(bufs)[r.value].valid ==>
                      bufs[r.value] == old(bufs)[r.value].(refcnt := bufs[r.value].refcnt))
    {
      r := Bget(ROOTDEV, blockno);
      if r.Some? && !bufs[r.value].valid {
        FillKeeps(bufs, disk, view, r.value);
        bufs := bufs[r.value := bufs[r.value].(data := disk[blockno], valid := true)];
      }
    }

    /** A client overwrites the contents of a buffer it holds. */
    method Modify(i: nat, data: Block)
      requires Valid() && i < NBUF
      requires bufs[i].dev == ROOTDEV && bufs[i].valid && bufs[i].refcnt > 0
      modifies `bufs, `view
      ensures Valid()
      ensures bufs == old(bufs)[i := old(bufs)[i].(data := data)]
      ensures view == old(view)[bufs[i].blockno := data]
    {
      ModifyKeeps(bufs, disk, view, i, data);
      view := view[bufs[i].blockno := data];
      bufs := bufs[i := bufs[i].(data := data)];
    }

    /** bwrite: one atomic block write, after which the machine may crash. */
    method Bwrite(i: nat)
      requires Valid() && i < NBUF
      requires bufs[i].dev == ROOTDEV && bufs[i].valid && bufs[i].refcnt > 0
      modifies `disk, `history
      ensures Valid()
      ensures disk == old(disk)[bufs[i].blockno := bufs[i].data]
      ensures history == old(history) + [disk]
    {
      disk := disk[bufs[i].blockno := bufs[i].data];
      history := history + [disk];
    }

    /** bpin: keep a buffer from being recycled. */
    method Bpin(i: nat)
      requires Valid() && i < NBUF
      modifies `bufs
      ensures Valid()
      ensures bufs == old(bufs)[i := old(bufs)[i].(refcnt := old(bufs)[i].refcnt + 1)]
    {
      RecountKeeps(bufs, disk, view, i, bufs[i].refcnt + 1);
      bufs := bufs[i := bufs[i].(refcnt := bufs[i].refcnt + 1)];
    }

    /** The last reference to a buffer may be dropped only once its contents
        are on disk. */
    ghost predicate MayDrop(i: nat)
      requires Valid() && i < NBUF
      reads this
    {
      bufs[i].refcnt == 1 && bufs[i].dev == ROOTDEV ==> view[bufs[i].blockno] == disk[bufs[i].blockno]
    }

    /** bunpin. */
    method Bunpin(i: nat)
      requires Valid() && i < NBUF && bufs[i].refcnt > 0 && MayDrop(i)
      modifies `bufs
      ensures Valid()
      ensures bufs == old(bufs)[i := old(bufs)[i].(refcnt := old(bufs)[i].refcnt - 1)]
    {
      RecountKeeps(bufs, disk, view, i, bufs[i].refcnt - 1);
      bufs := bufs[i := bufs[i].(refcnt := bufs[i].refcnt - 1)];
    }

    /** brelse: drop a reference; a buffer nobody references any more moves to
        the front of the list. */
    method Brelse(i: nat)
      requires Valid() && i < NBUF && bufs[i].refcnt > 0 && MayDrop(i)
      modifies `bufs, `next, `prev, `order, `stamp, `clock
      ensures Valid()
      ensures bufs == old(bufs)[i := old(bufs)[i].(refcnt := old(bufs)[i].refcnt - 1)]
      ensures if bufs[i].refcnt == 0 then MovedToFront(old(order), order, i) else order == old(order)
    {
      RecountKeeps(bufs, disk, view, i, bufs[i].refcnt - 1);
      bufs := bufs[i := bufs[i].(refcnt := bufs[i].refcnt - 1)];
      if bufs[i].refcnt == 0 {
        MoveToFront(i);
      }
    }

    /** The list surgery at the end of brelse. */
    method MoveToFront(i: nat)
      requires Valid() && i < NBUF
      modifies `next, `prev, `order, `stamp, `clock
      ensures Valid()
      ensures MovedToFront(old(order), order, i)
    {
      ghost var p := PositionOf(HEAD, order, i);
      MoveToFrontLinks(next, prev, HEAD, order, p);
      MoveToFrontRecency(order, stamp, clock, p);
      prev := prev[next[i] := prev[i]];
      next := next[prev[i] := next[i]];
      next := next[i := next[HEAD]];
      prev := prev[i := HEAD];
      assert next[HEAD] == next[i];
      prev := prev[next[HEAD] := i];
      next := next[HEAD := i];
      order, stamp, clock := [i] + Remove(order, p), stamp[i := clock], clock + 1;
    }
  }

  /** Recycling an unreferenced buffer loses nothing. */
  lemma RecycleKeeps(bufs: seq<Buf>, disk: Image, view: Image, i: nat, dev: nat, blockno: nat)
    requires Unique(bufs) && Coherent(bufs, disk, view)
    requires i < |bufs| && bufs[i].refcnt == 0
    requires dev != 0 && !Cached(bufs, dev, blockno) && (dev == ROOTDEV ==> blockno < |disk|)
    ensures var bufs' := bufs[i := bufs[i].(dev := dev, blockno := blockno, valid := false, refcnt := 1)];
            Unique(bufs') && Coherent(bufs', disk, view)
  {
    var bufs' := bufs[i := bufs[i].(dev := dev, blockno := blockno, valid := false, refcnt := 1)];
    forall b | 0 <= b < |disk| && view[b] != disk[b]
      ensures Pinned(bufs', b)
    {
      assert Pinned(bufs, b);
      var j :| 0 <= j < |bufs| && Caches(bufs[j], ROOTDEV, b) && bufs[j].valid && bufs[j].refcnt > 0;
      assert bufs'[j] == bufs[j];
    }
    forall j | 0 <= j < |bufs| && j != i
      ensures !Caches(bufs[j], dev, blockno)
    {
    }
  }

  /** A reference count may reach zero only for a block already on disk. */
  lemma RecountKeeps(bufs: seq<Buf>, disk: Image, view: Image, i: nat, c: nat)
    requires Unique(bufs) && Coherent(bufs, disk, view) && i < |bufs|
    requires c == 0 && bufs[i].dev == ROOTDEV ==> view[bufs[i].blockno] == disk[bufs[i].blockno]
    ensures var bufs' := bufs[i := bufs[i].(refcnt := c)];
            Unique(bufs') && Coherent(bufs', disk, view)
  {
    var bufs' := bufs[i := bufs[i].(refcnt := c)];
    forall b | 0 <= b < |disk| && view[b] != disk[b]
      ensures Pinned(bufs', b)
    {
      assert Pinned(bufs, b);
      var j :| 0 <= j < |bufs| && Caches(bufs[j], ROOTDEV, b) && bufs[j].valid && bufs[j].refcnt > 0;
      assert Caches(bufs'[j], ROOTDEV, b) && bufs'[j].valid && bufs'[j].refcnt > 0;
    }
  }

  /** A block without a valid buffer is clean, so the disk holds its contents. */
  lemma FillKeeps(bufs: seq<Buf>, disk: Image, view: Image, i: nat)
    requires Unique(bufs) && Coherent(bufs, disk, view)
    requires i < |bufs| && bufs[i].dev == ROOTDEV && !bufs[i].valid
    ensures view[bufs[i].blockno] == disk[bufs[i].blockno]
    ensures var bufs' := bufs[i := bufs[i].(data := disk[bufs[i].blockno], valid := true)];
            Unique(bufs') && Coherent(bufs', disk, view)
  {
    var bufs' := bufs[i := bufs[i].(data := disk[bufs[i].blockno], valid := true)];
    forall b | 0 <= b < |disk| && view[b] != disk[b]
      ensures Pinned(bufs', b) && b != bufs[i].blockno
    {
      assert Pinned(bufs, b);
      var j :| 0 <= j < |bufs| && Caches(bufs[j], ROOTDEV, b) && bufs[j].valid && bufs[j].refcnt > 0;
      assert Caches(bufs'[j], ROOTDEV, b) && bufs'[j].valid && bufs'[j].refcnt > 0;
    }
  }

  lemma ModifyKeeps(bufs: seq<Buf>, disk: Image, view: Image, i: nat, data: Block)
    requires Unique(bufs) && Coherent(bufs, disk, view) && i < |bufs|
    requires bufs[i].dev == ROOTDEV && bufs[i].valid && bufs[i].refcnt > 0
    ensures var bufs' := bufs[i := bufs[i].(data := data)];
            Unique(bufs') && Coherent(bufs', disk, view[bufs[i].blockno := data])
  {
    var bufs' := bufs[i := bufs[i].(data := data)];
    var view' := view[bufs[i].blockno := data];
    forall b | 0 <= b < |disk| && view'[b] != disk[b]
      ensures Pinned(bufs', b)
    {
      if b == bufs[i].blockno {
        assert Caches(bufs'[i], ROOTDEV, b);
      } else {
        assert Pinned(bufs, b);
      var j :| 0 <= j < |bufs| && Caches(bufs[j], ROOTDEV, b) && bufs[j].valid && bufs[j].refcnt > 0;
        assert bufs'[j] == bufs[j];
      }
    }
  }

  lemma MoveToFrontRecency(order: seq<nat>, stamp: seq<nat>, clock: nat, p: nat)
    requires RecencyOrder(order, stamp, clock) && p < |order|
    ensures RecencyOrder([order[p]] + Remove(order, p), stamp[order[p] := clock], clock + 1)
  {
  }
}
