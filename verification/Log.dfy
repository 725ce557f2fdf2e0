/** xv6/kernel/log.c: the redo log over the buffer cache. A method returns false
    where the kernel panics because no buffer is free; the machine then stops
    with the disk as it stands. */
module Log {
  import opened Disk
  import opened LogFormat
  import opened BufferCache
  import opened LogProtocol
  import opened Distinctness

  /** Every reference is accounted for: a buffer is referenced once by the log if
      its block is in `pins`, and once for every unreleased bread in `holders`. */
  ghost predicate Exact(bufs: seq<Buf>, pins: set<nat>, holders: multiset<nat>) {
    && (forall i :: 0 <= i < |bufs| && bufs[i].dev == ROOTDEV ==>
          bufs[i].refcnt == (if bufs[i].blockno in pins then 1 else 0) + holders[bufs[i].blockno])
    && (forall b {:trigger Pinned(bufs, b)} :: b in pins || b in holders ==> Pinned(bufs, b))
  }

  /** Referenced buffers are as they were and no new reference is left over. */
  ghost predicate Stable(was: seq<Buf>, now: seq<Buf>) {
    |was| == |now| && forall i :: 0 <= i < |was| ==>
      if was[i].refcnt > 0 then now[i] == was[i] else now[i].refcnt == 0
  }

  /** As Stable, except that block b lost one reference. */
  ghost predicate Released(was: seq<Buf>, now: seq<Buf>, b: nat) {
    |was| == |now| && forall i :: 0 <= i < |was| ==>
      if was[i].refcnt == 0 then now[i].refcnt == 0
      else if Caches(was[i], ROOTDEV, b) then now[i] == was[i].(refcnt := was[i].refcnt - 1)
      else now[i] == was[i]
  }

  ghost predicate AllFree(bufs: seq<Buf>) {
    forall i :: 0 <= i < |bufs| ==> bufs[i].refcnt == 0
  }

  lemma StableKeeps(was: seq<Buf>, now: seq<Buf>, b: nat)
    requires Stable(was, now)
    ensures Pinned(was, b) ==> Pinned(now, b)
    ensures SomeFree(was) <==> SomeFree(now)
  {
    if Pinned(was, b) {
      var i :| 0 <= i < |was| && Caches(was[i], ROOTDEV, b) && was[i].valid && was[i].refcnt > 0;
      assert Caches(now[i], ROOTDEV, b);
    }
    if SomeFree(was) {
      var i :| 0 <= i < |was| && was[i].refcnt == 0;
      assert now[i].refcnt == 0;
    }
  }

  lemma ReleasedKeeps(was: seq<Buf>, now: seq<Buf>, b: nat, c: nat)
    requires Released(was, now, b)
    ensures b != c && Pinned(was, c) ==> Pinned(now, c)
    ensures SomeFree(was) ==> SomeFree(now)
  {
    if b != c && Pinned(was, c) {
      assert Pinned(was, c);
      var i :| 0 <= i < |was| && Caches(was[i], ROOTDEV, c) && was[i].valid && was[i].refcnt > 0;
      assert now[i] == was[i];
    }
    if SomeFree(was) {
      var i :| 0 <= i < |was| && was[i].refcnt == 0;
      assert now[i].refcnt == 0;
    }
  }

  ghost predicate AllPinned(bufs: seq<Buf>, bs: set<nat>, holders: multiset<nat>) {
    forall b {:trigger Pinned(bufs, b)} :: b in bs || b in holders ==> Pinned(bufs, b)
  }

  lemma ReleasedPins(was: seq<Buf>, now: seq<Buf>, pins: set<nat>, holders: multiset<nat>, b: nat)
    requires Exact(was, pins, holders) && Released(was, now, b) && b in pins
    ensures AllPinned(now, pins - {b}, holders)
  {
    forall c | c in pins - {b} || c in holders
      ensures Pinned(now, c)
    {
      assert Pinned(was, c);
      var i :| 0 <= i < |was| && Caches(was[i], ROOTDEV, c) && was[i].valid && was[i].refcnt > 0;
      assert Caches(now[i], ROOTDEV, c) && now[i].valid && now[i].refcnt > 0;
    }
  }

  /** Dropping the log's reference to b leaves the others accounted for. */
  lemma ReleasedExact(was: seq<Buf>, now: seq<Buf>, pins: set<nat>, holders: multiset<nat>, b: nat)
    requires Exact(was, pins, holders) && Released(was, now, b) && b in pins && Unique(now)
    ensures Exact(now, pins - {b}, holders)
  {
    ReleasedPins(was, now, pins, holders, b);
    forall i | 0 <= i < |now| && now[i].dev == ROOTDEV
      ensures now[i].refcnt == (if now[i].blockno in pins - {b} then 1 else 0) + holders[now[i].blockno]
    {
      if was[i].refcnt == 0 {
        FreeIsUnowned(now, pins - {b}, holders, i);
      }
    }
  }

  lemma FreeIsUnowned(bufs: seq<Buf>, pins: set<nat>, holders: multiset<nat>, i: nat)
    requires Unique(bufs) && AllPinned(bufs, pins, holders)
    requires i < |bufs| && bufs[i].dev == ROOTDEV && bufs[i].refcnt == 0
    ensures bufs[i].blockno !in pins && holders[bufs[i].blockno] == 0
  {
    assert !Pinned(bufs, bufs[i].blockno);
  }

  lemma StableExact(was: seq<Buf>, now: seq<Buf>, pins: set<nat>, holders: multiset<nat>)
    requires Exact(was, pins, holders) && Stable(was, now) && Unique(now)
    ensures Exact(now, pins, holders)
  {
    forall c | c in pins || c in holders
      ensures Pinned(now, c)
    {
      StableKeeps(was, now, c);
    }
    forall i | 0 <= i < |now| && now[i].dev == ROOTDEV
      ensures now[i].refcnt == (if now[i].blockno in pins then 1 else 0) + holders[now[i].blockno]
    {
      if was[i].refcnt == 0 {
        FreeIsUnowned(now, pins, holders, i);
      }
    }
  }

  /** A commit: the contents it found in the cache, and the operations that had
      ended by then, whose changes are therefore among them. */
  datatype Save = Save(image: Image, ops: set<nat>)

  /** Each commit covers the operations of the one before. */
  ghost predicate Growing(saves: seq<Save>) {
    forall j, k :: 0 <= j <= k < |saves| ==> saves[j].ops <= saves[k].ops
  }

  /** The disk recovers to the contents of the last commit, and after every block
      write so far it recovered to those of the commit `source` names, never to an
      earlier one than before. */
  ghost predicate Safe(start: nat, disk: Image, history: seq<Image>, saves: seq<Save>, source: seq<nat>) {
    && |saves| > 0 && RecoversTo(start, disk, saves[|saves| - 1].image)
    && |source| == |history|
    && (forall k :: 0 <= k < |source| ==> source[k] < |saves| && RecoversTo(start, history[k], saves[source[k]].image))
    && (forall j, k :: 0 <= j <= k < |source| ==> source[j] <= source[k])
  }

  /** The commits that block writes recover to, the first n to the last one. */
  ghost function Sources(last: nat, more: nat, n: nat): (r: seq<nat>)
    ensures |r| == more && forall k :: 0 <= k < more ==> r[k] == if k < n then last else last + 1
  {
    seq(more, k requires 0 <= k => if k < n then last else last + 1)
  }

  lemma SafeBoot(start: nat, d: Image)
    requires WellFormed(start, d)
    ensures Safe(start, Recover(start, d), RecoveryStates(start, d), [Save(Recover(start, d), {})],
                 Sources(0, |RecoveryStates(start, d)|, |RecoveryStates(start, d)|))
  {
    var h := RecoveryStates(start, d);
    EmptyLogRecovers(start, Recover(start, d), Recover(start, d));
    forall j | 0 <= j < |h|
      ensures RecoversTo(start, h[j], Recover(start, d))
    {
      CrashInRecovery(start, d, j);
    }
  }

  /** A run of block writes of which the first n recover to what the disk did before
      them, and the others to v, ends with v saved. */
  lemma SafeAfter(start: nat, d: Image, h: seq<Image>, saves: seq<Save>, source: seq<nat>, d': Image, h': seq<Image>,
                  save: Save, n: nat)
    requires Safe(start, d, h, saves, source) && Fits(start, d) && Count(start, d) == 0
    requires h <= h' && RecoversTo(start, d', save.image)
    requires forall k :: |h| <= k < |h'| ==> RecoversTo(start, h'[k], if k < |h| + n then d else save.image)
    ensures Safe(start, d', h', saves + [save], source + Sources(|saves| - 1, |h'| - |h|, n))
  {
    var saves' := saves + [save];
    var source' := source + Sources(|saves| - 1, |h'| - |h|, n);
    forall k | 0 <= k < |source'|
      ensures source'[k] < |saves'| && RecoversTo(start, h'[k], saves'[source'[k]].image)
    {
      if k < |h| {
        assert h'[k] == h[k] && source'[k] == source[k];
      }
    }
  }

  /** Every sync call awaits the next commit at the latest, and the commit it awaits,
      if there, covers the operations it promises. */
  ghost predicate Kept(promises: set<(nat, set<nat>)>, ncommit: nat, ended: set<nat>, saves: seq<Save>) {
    forall p :: p in promises ==> p.0 <= ncommit + 1 && p.1 <= ended && (p.0 < |saves| ==> p.1 <= saves[p.0].ops)
  }

  /** How log_write ends; the last two are its panics. */
  datatype Outcome = Done | TooBig | Outside

  class Log {
    const cache: BufferCache
    const start: nat
    var n: nat
    var block: seq<nat>
    var outstanding: nat
    var committing: bool
    var ncommit: nat

    ghost var unused: map<nat, nat>           // open operations and the blocks each may still append
    ghost var ended: set<nat>                 // operations that have ended
    ghost var saves: seq<Save>                // what boot recovered, and the commits since, in order
    ghost var source: seq<nat>                // which of them the disk recovers to after each block write
    ghost var promises: set<(nat, set<nat>)>  // sync calls: the count awaited, the operations promised

    constructor (c: BufferCache, s: nat)
      ensures cache == c && start == s && n == 0 && block == seq(LOGBLOCKS, _ => 0)
      ensures Admission() && outstanding == 0 && !committing && ncommit == 0 && ended == {} && promises == {}
    {
      cache, start, n, block := c, s, 0, seq(LOGBLOCKS, _ => 0);
      outstanding, committing, ncommit := 0, false, 0;
      unused, ended, promises, saves, source := map[], {}, {}, [], [];
    }

    /** Log space is reserved for every open operation, a commit runs alone, and an
        idle log is empty. */
    ghost predicate Admission()
      reads `n, `outstanding, `committing, `unused, `ended
    {
      Admits(n)
    }

    /** The same, for a log of k entries. */
    ghost predicate Admits(k: nat)
      reads `outstanding, `committing, `unused, `ended
    {
      && |unused| == outstanding
      && (forall op :: op in unused ==> unused[op] <= MAXOPBLOCKS && op !in ended)
      && k + Reserved(unused) <= LOGBLOCKS
      && (committing ==> outstanding == 0)
      && (!committing && outstanding == 0 ==> k == 0)
    }

    /** The last commit is saved already, but not yet counted. */
    ghost predicate Saved()
      reads `ncommit, `saves
    {
      |saves| == ncommit + 2
    }

    /** Every crash so far would have recovered to the contents of a commit, and a
        crash now to those of the last one; it covers the operations promised to
        every sync call that may return, and if the log is idle, all that have ended
        and all that the cache shows. */
    ghost predicate Durable()
      reads `outstanding, `committing, `ncommit, `ended, `promises, `saves, `source, cache`disk, cache`history,
            cache`view
    {
      && Safe(start, cache.disk, cache.history, saves, source) && Growing(saves)
      && (|saves| == ncommit + 1 || (Saved() && committing))
      && saves[|saves| - 1].ops <= ended
      && (Saved() || (!committing && outstanding == 0) ==>
            saves[|saves| - 1].ops == ended && SameHome(start, cache.view, saves[|saves| - 1].image))
      && Kept(promises, ncommit, ended, saves)
    }

    /** One pass of begin_op's loop under log.lock; false where it sleeps. */
    method BeginOp(ghost op: nat) returns (admitted: bool)
      requires Admission() && op !in unused && op !in ended
      modifies `outstanding, `unused
      ensures Admission() && (old(Durable()) ==> Durable())
      ensures admitted <==> !committing && n + (old(outstanding) + 1) * MAXOPBLOCKS <= LOGBLOCKS
      ensures admitted ==> outstanding == old(outstanding) + 1 && unused == old(unused)[op := MAXOPBLOCKS]
      ensures !admitted ==> outstanding == old(outstanding) && unused == old(unused)
    {
      if committing {
        return false;
      }
      if n + (outstanding + 1) * MAXOPBLOCKS > LOGBLOCKS {
        return false;
      }
      ReservedBound(unused);
      ReservedAt(unused[op := MAXOPBLOCKS], op);
      assert unused[op := MAXOPBLOCKS] - {op} == unused;
      outstanding := outstanding + 1;
      unused := unused[op := MAXOPBLOCKS];
      return true;
    }

    /** The first critical section of end_op. The "log.committing" panic is the
        case `committing` here, which cannot arise. */
    method EndOp(ghost op: nat) returns (doCommit: bool)
      requires Admission() && op in unused
      modifies `outstanding, `committing, `unused, `ended
      ensures Admission() && !old(committing) && (old(Durable()) ==> Durable() && !Saved())
      ensures outstanding == old(outstanding) - 1
      ensures unused == old(unused) - {op} && ended == old(ended) + {op}
      ensures doCommit <==> outstanding == 0
      ensures committing == doCommit
    {
      Retire(unused, op);
      outstanding := outstanding - 1;
      unused := unused - {op};
      ended := ended + {op};
      doCommit := outstanding == 0;
      committing := doCommit;
    }

    /** The critical section after commit() returns. */
    method FinishCommit()
      requires Admission() && Durable() && committing && n == 0 && Saved()
      modifies `committing, `ncommit
      ensures Admission() && Durable() && !committing && ncommit == old(ncommit) + 1
    {
      committing := false;
      ncommit := ncommit + 1;
    }

    /** The contents a crash now recovers to are those of a commit that began after
        all of these operations had ended. */
    ghost predicate OnDisk(ops: set<nat>)
      reads `saves, cache`disk
    {
      exists k :: 0 <= k < |saves| && ops <= saves[k].ops && RecoversTo(start, cache.disk, saves[k].image)
    }

    /** sys_sync up to its wait loop: the commit count to wait for, if any, and
        the operations it promises are on disk when it returns. */
    method SyncStart() returns (ticket: Option<nat>, ghost promised: set<nat>)
      requires Durable()
      modifies `promises
      ensures Durable() && (old(Admission()) ==> Admission()) && promised == ended
      ensures ticket.None? <==> !committing && outstanding == 0
      ensures ticket.None? ==> OnDisk(promised) && promises == old(promises)
      ensures ticket.Some? ==> ticket.value == ncommit + 1 && promises == old(promises) + {(ticket.value, promised)}
    {
      promised := ended;
      if committing || outstanding > 0 {
        ticket := Some(ncommit + 1);
        promises := promises + {(ticket.value, promised)};
      } else {
        ticket := None;
      }
    }

    /** The test of sys_sync's wait loop: when it lets the call return, every
        promised operation is on disk. */
    method SyncCheck(ticket: nat, ghost promised: set<nat>) returns (done: bool)
      requires Durable() && (ticket, promised) in promises
      ensures done <==> ncommit >= ticket
      ensures done ==> OnDisk(promised)
    {
      done := !(ncommit < ticket);
    }

    /** The body of write_log's loop: copy one pinned block from the cache to
        the log. */
    method WriteLogBlock(tail: nat) returns (ok: bool)
      requires cache.Valid() && Fits(start, cache.disk) && tail < LOGBLOCKS == |block|
      requires IsHome(start, |cache.disk|, block[tail]) && Pinned(cache.bufs, block[tail])
      requires forall i :: 0 <= i < NBUF && Caches(cache.bufs[i], ROOTDEV, start + tail + 1) ==>
                 cache.bufs[i].refcnt == 0
      modifies cache
      ensures cache.Valid()
      ensures ok <==> SomeFree(old(cache.bufs))
      ensures Stable(old(cache.bufs), cache.bufs)
      ensures !ok ==> cache.disk == old(cache.disk) && cache.view == old(cache.view)
                      && cache.history == old(cache.history)
      ensures ok ==> var data := old(cache.view)[block[tail]];
                     && cache.disk == old(cache.disk)[start + tail + 1 := data]
                     && cache.view == old(cache.view)[start + tail + 1 := data]
                     && cache.history == old(cache.history) + [cache.disk]
    {
      var to := ReadLogBlock(start + tail + 1);
      if to.None? {
        return false;
      }
      CopyPinned(block[tail], to.value);
      return true;
    }

    /** bread of a log block, which only the log ever references. */
    method ReadLogBlock(l: nat) returns (r: Option<nat>)
      requires cache.Valid() && l < |cache.disk|
      requires forall i :: 0 <= i < NBUF && Caches(cache.bufs[i], ROOTDEV, l) ==> cache.bufs[i].refcnt == 0
      modifies cache`bufs
      ensures cache.Valid()
      ensures r.Some? <==> SomeFree(old(cache.bufs))
      ensures r.None? ==> cache.bufs == old(cache.bufs)
      ensures r.Some? ==>
                && r.value < NBUF && cache.bufs == old(cache.bufs)[r.value := cache.bufs[r.value]]
                && old(cache.bufs)[r.value].refcnt == 0 && cache.bufs[r.value].refcnt == 1
                && Caches(cache.bufs[r.value], ROOTDEV, l) && cache.bufs[r.value].valid
                && cache.bufs[r.value].data == cache.view[l] == cache.disk[l]
                && forall b :: Pinned(old(cache.bufs), b) ==> Pinned(cache.bufs, b)
    {
      assert !Pinned(cache.bufs, l);
      r := cache.Bread(l);
      if r.Some? {
        forall b | Pinned(old(cache.bufs), b)
          ensures Pinned(cache.bufs, b)
        {
          PinnedElsewhere(old(cache.bufs), cache.bufs, r.value, b);
        }
      }
    }

    /** The rest of the loop body: from is the pinned buffer of block b. */
    method CopyPinned(b: nat, to: nat)
      requires cache.Valid() && to < NBUF && Pinned(cache.bufs, b) && b < |cache.disk|
      requires cache.bufs[to].dev == ROOTDEV && cache.bufs[to].blockno != b
      requires cache.bufs[to].valid && cache.bufs[to].refcnt > 0
      modifies cache
      ensures cache.Valid()
      ensures var data := old(cache.view)[b];
              && cache.bufs ==
                 old(cache.bufs)[to := old(cache.bufs)[to].(data := data, refcnt := old(cache.bufs)[to].refcnt - 1)]
              && cache.disk == old(cache.disk)[cache.bufs[to].blockno := data]
              && cache.view == old(cache.view)[cache.bufs[to].blockno := data]
              && cache.history == old(cache.history) + [cache.disk]
    {
      ghost var p := PinnedAt(cache.bufs, b);
      var from := cache.Bread(b);
      assert from == Some(p);
      Store(to, cache.bufs[from.value].data);
      DropBoth(from.value, to);
    }

    /** The body of install_trans's loop: copy one log block to its home. */
    method InstallBlock(tail: nat, recovering: bool) returns (ok: bool)
      requires cache.Valid() && Fits(start, cache.disk) && tail < LOGBLOCKS == |block|
      requires IsHome(start, |cache.disk|, block[tail])
      requires recovering ==> AllFree(cache.bufs)
      requires !recovering ==>
                 && Pinned(cache.bufs, block[tail])
                 && cache.view[start + tail + 1] == cache.view[block[tail]]
                 && forall i :: 0 <= i < NBUF && Caches(cache.bufs[i], ROOTDEV, start + tail + 1) ==>
                     cache.bufs[i].refcnt == 0
      modifies cache
      ensures cache.Valid()
      ensures recovering ==> ok && AllFree(cache.bufs)
      ensures !recovering ==> (ok <==> SomeFree(old(cache.bufs)))
      ensures !recovering && ok ==> Released(old(cache.bufs), cache.bufs, block[tail])
      ensures !ok ==> cache.bufs == old(cache.bufs) && cache.disk == old(cache.disk)
                      && cache.view == old(cache.view) && cache.history == old(cache.history)
      ensures ok ==> var data := old(cache.view)[start + tail + 1];
                     && cache.disk == old(cache.disk)[block[tail] := data]
                     && cache.view == old(cache.view)[block[tail] := data]
                     && cache.history == old(cache.history) + [cache.disk]
    {
      assert recovering ==> cache.bufs[0].refcnt == 0 && SomeFree(cache.bufs);
      var lbuf := ReadLogBlock(start + tail + 1);
      if lbuf.None? {
        return false;
      }
      if recovering {
        CopyCold(block[tail], lbuf.value);
      } else {
        CopyHome(block[tail], lbuf.value);
      }
      return true;
    }

    /** The rest of the loop body in a running system: the home block is pinned
        and already holds the logged contents. */
    method CopyHome(b: nat, l: nat)
      requires cache.Valid() && l < NBUF && Pinned(cache.bufs, b) && b < |cache.disk|
      requires cache.bufs[l].dev == ROOTDEV && cache.bufs[l].blockno != b
      requires cache.bufs[l].valid && cache.bufs[l].refcnt == 1 && cache.bufs[l].data == cache.view[b]
      requires cache.view[cache.bufs[l].blockno] == cache.disk[cache.bufs[l].blockno]
      modifies cache
      ensures cache.Valid()
      ensures cache.bufs[l] == old(cache.bufs)[l].(refcnt := 0)
      ensures forall i :: 0 <= i < NBUF && i != l ==>
                cache.bufs[i] == if Caches(old(cache.bufs)[i], ROOTDEV, b)
                                 then old(cache.bufs)[i].(refcnt := old(cache.bufs)[i].refcnt - 1)
                                 else old(cache.bufs)[i]
      ensures cache.disk == old(cache.disk)[b := old(cache.view)[b]] && cache.view == old(cache.view)
      ensures cache.history == old(cache.history) + [cache.disk]
    {
      ghost var was := cache.bufs;
      ghost var p := PinnedAt(was, b);
      var dbuf := cache.Bread(b);
      assert dbuf == Some(p);
      Store(dbuf.value, cache.bufs[l].data);
      cache.Bunpin(dbuf.value);
      assert cache.bufs == was && cache.view == old(cache.view);
      DropBoth(l, dbuf.value);
    }

    /** memmove(buf->data, data, BSIZE); bwrite(buf); */
    method Store(i: nat, data: Block)
      requires cache.Valid() && i < NBUF
      requires cache.bufs[i].dev == ROOTDEV && cache.bufs[i].valid && cache.bufs[i].refcnt > 0
      modifies cache`bufs, cache`view, cache`disk, cache`history
      ensures cache.Valid()
      ensures cache.bufs == old(cache.bufs)[i := old(cache.bufs)[i].(data := data)]
      ensures cache.view == old(cache.view)[cache.bufs[i].blockno := data]
      ensures cache.disk == old(cache.disk)[cache.bufs[i].blockno := data]
      ensures cache.history == old(cache.history) + [cache.disk]
    {
      cache.Modify(i, data);
      cache.Bwrite(i);
    }

    /** brelse(i); brelse(j); of two buffers whose blocks are on disk. */
    method DropBoth(i: nat, j: nat)
      requires cache.Valid() && i < NBUF && j < NBUF && i != j
      requires cache.bufs[i].refcnt > 0 && cache.bufs[j].refcnt > 0
      requires cache.MayDrop(i) && cache.MayDrop(j)
      modifies cache`bufs, cache`next, cache`prev, cache`order, cache`stamp, cache`clock
      ensures cache.Valid()
      ensures cache.bufs == old(cache.bufs)[i := old(cache.bufs)[i].(refcnt := old(cache.bufs)[i].refcnt - 1)]
                                           [j := old(cache.bufs)[j].(refcnt := old(cache.bufs)[j].refcnt - 1)]
    {
      cache.Brelse(i);
      cache.Brelse(j);
    }

    /** The rest of the loop body at boot: nothing is pinned. */
    method CopyCold(b: nat, l: nat)
      requires cache.Valid() && l < NBUF && b < |cache.disk|
      requires cache.bufs[l].dev == ROOTDEV && cache.bufs[l].blockno != b
      requires cache.bufs[l].valid && cache.bufs[l].refcnt == 1
      requires cache.view[cache.bufs[l].blockno] == cache.disk[cache.bufs[l].blockno]
      requires forall i :: 0 <= i < NBUF && i != l ==> cache.bufs[i].refcnt == 0
      modifies cache
      ensures cache.Valid() && AllFree(cache.bufs)
      ensures cache.disk == old(cache.disk)[b := old(cache.bufs)[l].data]
      ensures cache.view == old(cache.view)[b := old(cache.bufs)[l].data]
      ensures cache.history == old(cache.history) + [cache.disk]
    {
      assert cache.bufs[if l == 0 then 1 else 0].refcnt == 0 && SomeFree(cache.bufs);
      var dbuf := cache.Bread(b);
      Store(dbuf.value, cache.bufs[l].data);
      DropBoth(l, dbuf.value);
    }

    predicate InLog(b: Buf) {
      b.dev == ROOTDEV && start <= b.blockno <= start + LOGBLOCKS
    }

    /** Buffers of log blocks are referenced by nobody between log operations. */
    ghost predicate LogAreaFree()
      reads cache
    {
      forall i :: 0 <= i < |cache.bufs| && InLog(cache.bufs[i]) ==> cache.bufs[i].refcnt == 0
    }

    /** write_log: copy the logged blocks from the cache to the log. */
    method WriteLog() returns (ok: bool)
      requires cache.Valid() && Fits(start, cache.disk) && Logged(start, |cache.disk|, block, n) && n > 0
      requires LogAreaFree() && forall i :: 0 <= i < n ==> Pinned(cache.bufs, block[i])
      modifies cache
      ensures cache.Valid() && Stable(old(cache.bufs), cache.bufs)
      ensures ok <==> SomeFree(old(cache.bufs))
      ensures !ok ==> cache.disk == old(cache.disk) && cache.view == old(cache.view)
                      && cache.history == old(cache.history)
      ensures ok ==> var d, v := old(cache.disk), old(cache.view);
                     && cache.disk == LogCopied(start, d, v, block, n)
                     && cache.view == LogCopied(start, v, v, block, n)
                     && cache.history == old(cache.history) + LogWrites(start, d, v, block, n)
    {
      ghost var d, v, h, was := cache.disk, cache.view, cache.history, cache.bufs;
      for tail := 0 to n
        invariant cache.Valid() && |cache.disk| == |d| && Fits(start, cache.disk) && LogAreaFree()
        invariant Stable(was, cache.bufs) && (tail > 0 ==> SomeFree(was))
        invariant cache.disk == LogCopied(start, d, v, block, tail)
        invariant cache.view == LogCopied(start, v, v, block, tail)
        invariant cache.history == h + LogWrites(start, d, v, block, tail)
      {
        assert IsHome(start, |d|, block[tail]);
        StableKeeps(was, cache.bufs, block[tail]);
        LogStep(start, d, v, block, tail, h);
        ok := WriteLogBlock(tail);
        if !ok {
          return;
        }
      }
      return true;
    }

    /** The part of write_head that fills in the header's words. */
    method FillHeader(words: seq<int>) returns (r: seq<int>)
      requires |words| == WORDS && n <= LOGBLOCKS == |block|
      ensures r == HeaderWords(words, n, block, n)
    {
      r := words[0 := n];
      for i := 0 to n
        invariant r == HeaderWords(words, n, block, i)
      {
        r := r[1 + i := block[i]];
      }
    }

    /** write_head: write the in-memory header to disk, in one block write. */
    method WriteHead() returns (ok: bool)
      requires cache.Valid() && Fits(start, cache.disk) && n <= LOGBLOCKS == |block| && LogAreaFree()
      modifies cache
      ensures cache.Valid() && Stable(old(cache.bufs), cache.bufs)
      ensures ok <==> SomeFree(old(cache.bufs))
      ensures !ok ==> cache.disk == old(cache.disk) && cache.view == old(cache.view)
                      && cache.history == old(cache.history)
      ensures ok ==> && cache.disk == HeaderWritten(start, old(cache.disk), n, block)
                     && cache.view == old(cache.view)[start := cache.disk[start]]
                     && cache.history == old(cache.history) + [cache.disk]
    {
      var buf := ReadLogBlock(start);
      if buf.None? {
        return false;
      }
      var words := FillHeader(cache.bufs[buf.value].data.words);
      Store(buf.value, Block(words));
      cache.Brelse(buf.value);
      return true;
    }

    /** The part of read_head that copies the header's words. */
    method CopyHeader(words: seq<int>)
      requires |words| == WORDS && 0 <= words[0] <= LOGBLOCKS == |block|
      requires forall j :: 1 <= j <= words[0] ==> words[j] >= 0
      modifies `n, `block
      ensures n == words[0] && |block| == LOGBLOCKS
      ensures forall i :: 0 <= i < n ==> block[i] == words[1 + i]
    {
      n := words[0];
      for i := 0 to n
        modifies `block
        invariant n == words[0] && |block| == LOGBLOCKS
        invariant forall j :: 0 <= j < i ==> block[j] == words[1 + j]
      {
        block := block[i := words[1 + i]];
      }
    }

    /** read_head: read the header from disk into memory. At boot no buffer is
        referenced, so this cannot fail. */
    method ReadHead()
      requires cache.Valid() && AllFree(cache.bufs) && WellFormed(start, cache.disk) && |block| == LOGBLOCKS
      modifies cache`bufs, cache`next, cache`prev, cache`order, cache`stamp, cache`clock, `n, `block
      ensures cache.Valid() && AllFree(cache.bufs)
      ensures |block| == LOGBLOCKS && n == Count(start, cache.disk)
      ensures forall i :: 0 <= i < n ==> block[i] == Entry(start, cache.disk, i)
    {
      assert cache.bufs[0].refcnt == 0 && SomeFree(cache.bufs);
      var buf := ReadLogBlock(start);
      forall j | 1 <= j <= Count(start, cache.disk)
        ensures cache.disk[start].words[j] >= 0
      {
        assert IsHome(start, |cache.disk|, Entry(start, cache.disk, j - 1));
      }
      CopyHeader(cache.bufs[buf.value].data.words);
      cache.Brelse(buf.value);
    }

    /** install_trans in a running system: copy the log home and unpin. */
    method InstallTrans(ghost holders: multiset<nat>) returns (ok: bool)
      requires cache.Valid() && Fits(start, cache.disk) && Logged(start, |cache.disk|, block, n) && n > 0
      requires Exact(cache.bufs, Pins(block, 0, n), holders)
      requires forall b :: b in holders ==> IsHome(start, |cache.disk|, b)
      requires forall i :: 0 <= i < n ==> block[i] < |cache.view| && cache.view[block[i]] == cache.view[start + 1 + i]
      modifies cache
      ensures cache.Valid()
      ensures ok <==> SomeFree(old(cache.bufs))
      ensures !ok ==> cache.bufs == old(cache.bufs) && cache.disk == old(cache.disk)
                      && cache.view == old(cache.view) && cache.history == old(cache.history)
      ensures ok ==> && Exact(cache.bufs, {}, holders) && SomeFree(cache.bufs)
                     && cache.view == old(cache.view)
                     && cache.disk == Installed(start, old(cache.disk), old(cache.view), block, n)
                     && cache.history ==
                        old(cache.history) + InstallWrites(start, old(cache.disk), old(cache.view), block, n)
    {
      ghost var d, v, h := cache.disk, cache.view, cache.history;
      for tail := 0 to n
        invariant cache.Valid() && |cache.disk| == |d| && cache.view == v
        invariant Exact(cache.bufs, Pins(block, tail, n), holders)
        invariant if tail == 0 then cache.bufs == old(cache.bufs) else SomeFree(old(cache.bufs)) && SomeFree(cache.bufs)
        invariant cache.disk == Installed(start, d, v, block, tail)
        invariant cache.history == h + InstallWrites(start, d, v, block, tail)
      {
        InstallStep(start, d, v, block, tail, h);
        ok := InstallAndUnpin(tail, holders);
        if !ok {
          return;
        }
      }
      assert Pins(block, n, n) == {};
      return true;
    }

    /** One iteration of install_trans(0), with the references it leaves. */
    method InstallAndUnpin(tail: nat, ghost holders: multiset<nat>) returns (ok: bool)
      requires cache.Valid() && Fits(start, cache.disk) && Logged(start, |cache.disk|, block, n) && tail < n
      requires Exact(cache.bufs, Pins(block, tail, n), holders)
      requires forall b :: b in holders ==> IsHome(start, |cache.disk|, b)
      requires cache.view[block[tail]] == cache.view[start + 1 + tail]
      modifies cache
      ensures cache.Valid() && cache.view == old(cache.view)
      ensures ok <==> SomeFree(old(cache.bufs))
      ensures !ok ==> cache.bufs == old(cache.bufs) && cache.disk == old(cache.disk)
                      && cache.history == old(cache.history)
      ensures ok ==> && Exact(cache.bufs, Pins(block, tail + 1, n), holders) && SomeFree(cache.bufs)
                     && cache.disk == old(cache.disk)[block[tail] := cache.view[start + tail + 1]]
                     && cache.history == old(cache.history) + [cache.disk]
    {
      ghost var was := cache.bufs;
      assert IsHome(start, |cache.disk|, block[tail]);
      assert block[tail] in Pins(block, tail, n);
      LogBlockFree(was, Pins(block, tail, n), holders, start, |cache.disk|, start + tail + 1);
      ok := InstallBlock(tail, false);
      if ok {
        ReleasedExact(was, cache.bufs, Pins(block, tail, n), holders, block[tail]);
        PinsStep(block, tail, n);
        ReleasedKeeps(was, cache.bufs, block[tail], 0);
      }
    }

    /** The state outside commit: the on-disk log is empty, every block that
        differs from disk is in the header or being edited by a process that
        holds it, and every buffer reference is accounted for. */
    ghost predicate Inv(holders: multiset<nat>, edited: set<nat>)
      reads `n, `block, cache
    {
      && cache.Valid() && Fits(start, cache.disk) && Count(start, cache.disk) == 0
      && Logged(start, |cache.disk|, block, n)
      && Exact(cache.bufs, Pins(block, 0, n), holders)
      && (forall b :: b in holders ==> IsHome(start, |cache.disk|, b))
      && (forall b :: IsHome(start, |cache.disk|, b) && cache.disk[b] != cache.view[b] ==>
            b in block[..n] || b in edited)
      && (forall b :: b in edited ==> b in holders)
    }

    /** commit: write the transaction to the log, write the header, install,
        and clear the header. It fails exactly when every buffer is referenced,
        and then before writing anything. */
    method Commit(ghost holders: multiset<nat>) returns (ok: bool)
      requires Inv(holders, {})
      modifies cache, `n
      ensures ok <==> old(n) == 0 || SomeFree(old(cache.bufs))
      ensures !ok ==> cache.disk == old(cache.disk) && cache.history == old(cache.history) && n == old(n)
      ensures ok ==> Inv(holders, {}) && n == 0 && SameHome(start, cache.disk, old(cache.view))
                     && SameHome(start, cache.view, old(cache.view))
      ensures old(cache.history) <= cache.history
      ensures ok ==> |cache.history| == |old(cache.history)| + if old(n) > 0 then 2 * old(n) + 2 else 0
      ensures forall k :: |old(cache.history)| <= k < |cache.history| ==>
                RecoversTo(start, cache.history[k],
                           if k < |old(cache.history)| + old(n) then old(cache.disk) else old(cache.view))
    {
      ok := true;
      if n > 0 {
        ok := CommitSome(holders);
        if ok {
          assert Pins(block, 0, n) == {};
          CommitStatesAtomic(start, old(cache.disk), old(cache.view), block, old(n));
        }
      }
    }

    /** The body of commit, for a transaction that wrote something. */
    method CommitSome(ghost holders: multiset<nat>) returns (ok: bool)
      requires Inv(holders, {}) && n > 0
      modifies cache, `n
      ensures ok <==> SomeFree(old(cache.bufs))
      ensures !ok ==> cache.disk == old(cache.disk) && cache.history == old(cache.history) && n == old(n)
      ensures ok ==> && cache.Valid() && n == 0 && Exact(cache.bufs, {}, holders)
                     && Fits(start, cache.disk) && Count(start, cache.disk) == 0
                     && SameHome(start, cache.disk, old(cache.view)) && SameHome(start, cache.view, old(cache.view))
                     && cache.history == old(cache.history)
                          + CommitStates(start, old(cache.disk), old(cache.view), block, old(n))
    {
      ghost var d, v, h := cache.disk, cache.view, cache.history;
      CommitEnds(start, d, v, block, n);
      CommitHistory(start, d, v, block, n, h);
      ok := ReachCommitPoint(holders);
      if ok {
        InstallAndClear(holders);
      }
    }

    /** LogAndCommit, with the references and contents it leaves. */
    method ReachCommitPoint(ghost holders: multiset<nat>) returns (ok: bool)
      requires Inv(holders, {}) && n > 0
      modifies cache
      ensures cache.Valid()
      ensures ok <==> SomeFree(old(cache.bufs))
      ensures !ok ==> cache.disk == old(cache.disk) && cache.history == old(cache.history)
      ensures ok ==> var d, v := old(cache.disk), old(cache.view);
                     && cache.disk == HeaderWritten(start, LogCopied(start, d, v, block, n), n, block)
                     && cache.history == old(cache.history) + LogWrites(start, d, v, block, n) + [cache.disk]
                     && Exact(cache.bufs, Pins(block, 0, n), holders) && SomeFree(cache.bufs)
                     && SameHome(start, cache.view, v) && Mirrored(start, cache.disk, cache.view, block, n)
    {
      ghost var was := cache.bufs;
      ReadyToCommit(holders);
      AfterCommitPoint(start, cache.disk, cache.view, block, n);
      ok := LogAndCommit();
      if ok {
        StableExact(was, cache.bufs, Pins(block, 0, n), holders);
        StableKeeps(was, cache.bufs, 0);
      }
    }

    /** write_log(); write_head(); up to and including the commit point. */
    method LogAndCommit() returns (ok: bool)
      requires cache.Valid() && Fits(start, cache.disk) && Logged(start, |cache.disk|, block, n) && n > 0
      requires LogAreaFree() && forall i :: 0 <= i < n ==> Pinned(cache.bufs, block[i])
      modifies cache
      ensures cache.Valid() && Stable(old(cache.bufs), cache.bufs)
      ensures ok <==> SomeFree(old(cache.bufs))
      ensures !ok ==> cache.disk == old(cache.disk) && cache.view == old(cache.view)
                      && cache.history == old(cache.history)
      ensures ok ==> var d, v := old(cache.disk), old(cache.view);
                     && cache.disk == HeaderWritten(start, LogCopied(start, d, v, block, n), n, block)
                     && cache.view == LogCopied(start, v, v, block, n)[start := cache.disk[start]]
                     && cache.history == old(cache.history) + LogWrites(start, d, v, block, n) + [cache.disk]
    {
      ok := WriteLog();
      if !ok {
        return;
      }
      ghost var mid := cache.bufs;
      StableKeeps(old(cache.bufs), mid, 0);
      ok := WriteHead();
      assert ok;
    }

    /** install_trans(0); log.lh.n = 0; write_head(); */
    method InstallAndClear(ghost holders: multiset<nat>)
      requires cache.Valid() && Fits(start, cache.disk) && Logged(start, |cache.disk|, block, n) && n > 0
      requires Exact(cache.bufs, Pins(block, 0, n), holders) && SomeFree(cache.bufs)
      requires forall b :: b in holders ==> IsHome(start, |cache.disk|, b)
      requires Mirrored(start, cache.disk, cache.view, block, n)
      modifies cache, `n
      ensures cache.Valid() && n == 0 && Exact(cache.bufs, {}, holders)
      ensures |cache.disk| == |old(cache.disk)| && cache.view == old(cache.view)[start := cache.disk[start]]
      ensures var c := old(cache.disk);
              && cache.disk == HeaderWritten(start, Installed(start, c, c, block, old(n)), 0, block)
              && cache.history == old(cache.history) + InstallWrites(start, c, c, block, old(n)) + [cache.disk]
    {
      InstallFromCache(start, cache.disk, cache.view, block, n);
      var ok := InstallTrans(holders);
      assert ok;
      n := 0;
      ghost var mid := cache.bufs;
      AreaFree(holders, {});
      ok := WriteHead();
      assert ok;
      StableExact(mid, cache.bufs, {}, holders);
    }

    lemma ReadyToCommit(holders: multiset<nat>)
      requires Inv(holders, {})
      ensures LogAreaFree() && forall i :: 0 <= i < n ==> Pinned(cache.bufs, block[i])
    {
      forall i | 0 <= i < n
        ensures Pinned(cache.bufs, block[i])
      {
        assert block[i] in Pins(block, 0, n);
      }
    }

    lemma AreaFree(holders: multiset<nat>, pins: set<nat>)
      requires cache.Valid() && Exact(cache.bufs, pins, holders)
      requires forall b :: b in pins || b in holders ==> IsHome(start, |cache.disk|, b)
      ensures LogAreaFree()
    {
    }

    /** install_trans(1): at boot, copy a committed transaction home. */
    method InstallRecovering()
      requires cache.Valid() && AllFree(cache.bufs) && cache.view == cache.disk
      requires WellFormed(start, cache.disk) && |block| == LOGBLOCKS && n == Count(start, cache.disk)
      requires forall i :: 0 <= i < n ==> block[i] == Entry(start, cache.disk, i)
      modifies cache
      ensures cache.Valid() && AllFree(cache.bufs) && cache.view == cache.disk
      ensures cache.disk == Replay(start, old(cache.disk), old(cache.disk), n)
      ensures cache.history == old(cache.history) + RecoveryWrites(start, old(cache.disk), n)
    {
      ghost var d, h := cache.disk, cache.history;
      for tail := 0 to n
        invariant cache.Valid() && AllFree(cache.bufs) && cache.view == cache.disk
        invariant cache.disk == Replay(start, d, d, tail)
        invariant cache.history == h + RecoveryWrites(start, d, tail)
      {
        assert IsHome(start, |d|, Entry(start, d, tail));
        assert cache.disk[start] == d[start] && cache.disk[start + tail + 1] == d[start + tail + 1];
        var ok := InstallBlock(tail, true);
        assert cache.disk == Replay(start, d, d, tail + 1);
        assert RecoveryWrites(start, d, tail + 1) == RecoveryWrites(start, d, tail) + [cache.disk];
      }
    }

    /** The body of recover_from_log. */
    method ReplayLog()
      requires cache.Valid() && AllFree(cache.bufs) && cache.view == cache.disk
      requires WellFormed(start, cache.disk) && |block| == LOGBLOCKS
      modifies cache, `n, `block
      ensures Inv(multiset{}, {}) && n == 0 && AllFree(cache.bufs)
      ensures cache.disk == cache.view == Recover(start, old(cache.disk))
      ensures cache.history == old(cache.history) + RecoveryStates(start, old(cache.disk))
    {
      ReadHead();
      InstallRecovering();
      n := 0;
      assert cache.bufs[0].refcnt == 0 && SomeFree(cache.bufs);
      var ok := WriteHead();
      assert ok;
      assert Pins(block, 0, n) == {};
    }

    /** recover_from_log: what initlog runs at every boot. */
    method RecoverFromLog()
      requires cache.Valid() && AllFree(cache.bufs) && cache.view == cache.disk && cache.history == []
      requires WellFormed(start, cache.disk) && |block| == LOGBLOCKS
      requires Admission() && outstanding == 0 && !committing && ncommit == 0 && ended == {} && promises == {}
      modifies cache, `n, `block, `saves, `source
      ensures Inv(multiset{}, {}) && Admission() && Durable() && n == 0 && AllFree(cache.bufs)
      ensures cache.disk == cache.view == Recover(start, old(cache.disk)) && saves == [Save(cache.disk, {})]
      ensures cache.history == RecoveryStates(start, old(cache.disk))
    {
      ghost var d := cache.disk;
      SafeBoot(start, d);
      ReplayLog();
      assert cache.history == RecoveryStates(start, d);
      saves, source := [Save(cache.disk, {})], Sources(0, |cache.history|, |cache.history|);
    }

    /** bread by file system code: take a reference to a home block. */
    method Get(b: nat, ghost holders: multiset<nat>, ghost edited: set<nat>) returns (r: Option<nat>)
      requires Inv(holders, edited) && IsHome(start, |cache.disk|, b)
      modifies cache`bufs
      ensures r.None? ==> Inv(holders, edited)
      ensures r.None? <==> !Cached(old(cache.bufs), ROOTDEV, b) && !SomeFree(old(cache.bufs))
      ensures r.Some? ==> Inv(holders + multiset{b}, edited) && r.value < NBUF
                          && cache.bufs == old(cache.bufs)[r.value := cache.bufs[r.value]]
                          && cache.bufs[r.value].refcnt == old(cache.bufs)[r.value].refcnt + 1
                          && (old(cache.bufs)[r.value].refcnt > 0 ==> Caches(old(cache.bufs)[r.value], ROOTDEV, b))
                          && Caches(cache.bufs[r.value], ROOTDEV, b) && cache.bufs[r.value].valid
                          && cache.bufs[r.value].data == cache.view[b]
    {
      ghost var was := cache.bufs;
      r := cache.Bread(b);
      if r.Some? {
        GetExact(was, cache.bufs, Pins(block, 0, n), holders, r.value, b);
      }
    }

    /** File system code changes a buffer it holds, inside an operation. */
    method Edit(i: nat, data: Block, ghost holders: multiset<nat>, ghost edited: set<nat>)
      requires Inv(holders, edited) && i < NBUF && cache.bufs[i].dev == ROOTDEV
      requires cache.bufs[i].valid && cache.bufs[i].blockno in holders
      modifies cache`bufs, cache`view
      ensures Inv(holders, edited + {old(cache.bufs)[i].blockno})
      ensures cache.bufs == old(cache.bufs)[i := old(cache.bufs)[i].(data := data)]
      ensures cache.view == old(cache.view)[old(cache.bufs)[i].blockno := data]
      ensures old(Durable()) && outstanding > 0 && !committing ==> Durable()
    {
      ghost var was := cache.bufs;
      cache.Modify(i, data);
      EditExact(was, cache.bufs, Pins(block, 0, n), holders, i);
    }

    /** brelse by file system code, of a buffer not left half edited. */
    method Put(i: nat, ghost holders: multiset<nat>, ghost edited: set<nat>)
      requires Inv(holders, edited) && i < NBUF && cache.bufs[i].dev == ROOTDEV
      requires cache.bufs[i].blockno in holders && cache.bufs[i].blockno !in edited
      modifies cache`bufs, cache`next, cache`prev, cache`order, cache`stamp, cache`clock
      ensures Inv(holders - multiset{old(cache.bufs)[i].blockno}, edited)
      ensures old(cache.bufs)[i].refcnt > 0
      ensures cache.bufs == old(cache.bufs)[i := old(cache.bufs)[i].(refcnt := old(cache.bufs)[i].refcnt - 1)]
    {
      ghost var was := cache.bufs;
      cache.Brelse(i);
      PutExact(was, cache.bufs, Pins(block, 0, n), holders, i);
    }

    /** log_write's search: where the block is in the header, or n. */
    method FindEntry(b: nat) returns (i: nat)
      requires n <= |block|
      ensures i <= n && b !in block[..i]
      ensures i < n ==> block[i] == b
    {
      i := 0;
      while i < n && block[i] != b
        invariant i <= n && b !in block[..i]
      {
        i := i + 1;
      }
    }

    /** log_write: record an edited block and pin its buffer. Within its budget
        of MAXOPBLOCKS appended blocks an operation never finds the log too
        full to append; a write to a block that is already logged still panics
        if the log happens to be full. */
    method LogWrite(i: nat, ghost op: nat, ghost holders: multiset<nat>, ghost edited: set<nat>) returns (r: Outcome)
      requires Inv(holders, edited) && Admission()
      requires i < NBUF && cache.bufs[i].dev == ROOTDEV && cache.bufs[i].valid && cache.bufs[i].blockno in holders
      requires outstanding > 0 ==> op in unused && (cache.bufs[i].blockno in block[..n] || unused[op] > 0)
      modifies cache`bufs, `n, `block, `unused
      ensures r.TooBig? <==> old(n) == LOGBLOCKS
      ensures r.Outside? <==> old(n) < LOGBLOCKS && outstanding == 0
      ensures !r.Done? ==> unchanged(cache) && unchanged(this)
      ensures outstanding > 0 && old(cache.bufs)[i].blockno !in old(block)[..old(n)] ==> r.Done?
      ensures r.Done? ==> Inv(holders, edited - {old(cache.bufs)[i].blockno}) && Admission()
      ensures r.Done? && old(cache.bufs)[i].blockno in old(block)[..old(n)] ==>
                n == old(n) && block == old(block) && unused == old(unused) && cache.bufs == old(cache.bufs)
      ensures r.Done? && old(cache.bufs)[i].blockno !in old(block)[..old(n)] ==>
                && n == old(n) + 1 && block[..n] == old(block)[..old(n)] + [old(cache.bufs)[i].blockno]
                && unused == old(unused)[op := old(unused)[op] - 1]
                && cache.bufs == old(cache.bufs)[i := old(cache.bufs)[i].(refcnt := old(cache.bufs)[i].refcnt + 1)]
    {
      if op in unused {
        ReservedAt(unused, op);
      }
      if n >= LOGBLOCKS {
        return TooBig;
      }
      if outstanding < 1 {
        return Outside;
      }
      Record(i, op, holders, edited);
      return Done;
    }

    /** log_write past its checks. */
    method Record(i: nat, ghost op: nat, ghost holders: multiset<nat>, ghost edited: set<nat>)
      requires Inv(holders, edited) && Admission() && n < LOGBLOCKS && op in unused
      requires i < NBUF && cache.bufs[i].dev == ROOTDEV && cache.bufs[i].valid && cache.bufs[i].blockno in holders
      requires cache.bufs[i].blockno in block[..n] || unused[op] > 0
      modifies cache`bufs, `n, `block, `unused
      ensures Inv(holders, edited - {old(cache.bufs)[i].blockno}) && Admission()
      ensures old(cache.bufs)[i].blockno in old(block)[..old(n)] ==>
                n == old(n) && block == old(block) && unused == old(unused) && cache.bufs == old(cache.bufs)
      ensures old(cache.bufs)[i].blockno !in old(block)[..old(n)] ==>
                && n == old(n) + 1 && block[..n] == old(block)[..old(n)] + [old(cache.bufs)[i].blockno]
                && unused == old(unused)[op := old(unused)[op] - 1]
                && cache.bufs == old(cache.bufs)[i := old(cache.bufs)[i].(refcnt := old(cache.bufs)[i].refcnt + 1)]
    {
      var k := FindEntry(cache.bufs[i].blockno);
      if k == n {
        assert block[..k] == block[..n];
        Charge(op);
        Append(i, holders, edited);
      } else {
        assert block[..n][k] == block[k];
        Absorb(i, k, holders, edited);
      }
    }

    /** Bookkeeping: the block about to be appended comes out of op's budget. */
    ghost method Charge(op: nat)
      requires Admission() && op in unused && unused[op] > 0
      modifies `unused
      ensures unused == old(unused)[op := old(unused)[op] - 1] && Admits(n + 1)
    {
      SpendOne(unused, op);
      unused := unused[op := unused[op] - 1];
    }

    /** The case of log_write that finds the block already logged. */
    method Absorb(i: nat, k: nat, ghost holders: multiset<nat>, ghost edited: set<nat>)
      requires Inv(holders, edited) && Admission() && i < NBUF && k < n && block[k] == cache.bufs[i].blockno
      modifies `block
      ensures Admission()
      ensures block == old(block) && cache.bufs[i].blockno in block[..n]
      ensures Inv(holders, edited - {cache.bufs[i].blockno})
    {
      assert block[..n][k] == block[k];
      block := block[k := cache.bufs[i].blockno];
    }

    /** The case of log_write that adds an entry. */
    method Append(i: nat, ghost holders: multiset<nat>, ghost edited: set<nat>)
      requires Inv(holders, edited) && n < LOGBLOCKS && Admits(n + 1)
      requires i < NBUF && cache.bufs[i].dev == ROOTDEV && cache.bufs[i].valid && cache.bufs[i].blockno in holders
      requires cache.bufs[i].blockno !in block[..n]
      modifies cache`bufs, `n, `block
      ensures Admission()
      ensures Inv(holders, edited - {old(cache.bufs)[i].blockno})
      ensures n == old(n) + 1 && block[..n] == old(block)[..old(n)] + [old(cache.bufs)[i].blockno]
      ensures cache.bufs == old(cache.bufs)[i := old(cache.bufs)[i].(refcnt := old(cache.bufs)[i].refcnt + 1)]
    {
      AppendEntry(i, holders, edited);
    }

    method AppendEntry(i: nat, ghost holders: multiset<nat>, ghost edited: set<nat>)
      requires Inv(holders, edited) && n < LOGBLOCKS
      requires i < NBUF && cache.bufs[i].dev == ROOTDEV && cache.bufs[i].valid && cache.bufs[i].blockno in holders
      requires cache.bufs[i].blockno !in block[..n]
      modifies cache`bufs, `n, `block
      ensures Inv(holders, edited - {old(cache.bufs)[i].blockno})
      ensures n == old(n) + 1 && block[..n] == old(block)[..old(n)] + [old(cache.bufs)[i].blockno]
      ensures cache.bufs == old(cache.bufs)[i := old(cache.bufs)[i].(refcnt := old(cache.bufs)[i].refcnt + 1)]
    {
      AppendLogged(start, |cache.disk|, block, n, cache.bufs[i].blockno);
      PinExact(cache.bufs, block, n, holders, i);
      block := block[n := cache.bufs[i].blockno];
      cache.Bpin(i);
      n := n + 1;
    }

    /** The committing process runs commit(): what the cache held is saved, for the
        operations that had ended. */
    method RunCommit(ghost holders: multiset<nat>) returns (ok: bool)
      requires Inv(holders, {}) && Admission() && Durable() && committing && !Saved()
      modifies cache, `n, `saves, `source
      ensures ok <==> old(n) == 0 || SomeFree(old(cache.bufs))
      ensures Durable() && old(cache.history) <= cache.history && old(source) <= source
      ensures forall j :: |old(source)| <= j < |source| ==> source[j] >= |old(saves)| - 1
      ensures !ok ==> saves == old(saves)
      ensures ok ==> Inv(holders, {}) && Admission() && n == 0 && Saved()
                     && saves == old(saves) + [Save(old(cache.view), ended)]
                     && SameHome(start, cache.disk, old(cache.view)) && SameHome(start, cache.view, old(cache.view))
    {
      ghost var d, h, save := cache.disk, cache.history, Save(cache.view, ended);
      ghost var k := n;
      ok := Commit(holders);
      if ok {
        RecordSave(d, h, save, k);
      }
    }

    /** Bookkeeping: the commit is complete. */
    ghost method RecordSave(d: Image, h: seq<Image>, save: Save, k: nat)
      requires Safe(start, d, h, saves, source) && Growing(saves) && |saves| == ncommit + 1 && committing
      requires saves[|saves| - 1].ops <= ended == save.ops && Kept(promises, ncommit, ended, saves)
      requires Fits(start, d) && Count(start, d) == 0 && h <= cache.history
      requires Fits(start, cache.disk) && Count(start, cache.disk) == 0 && SameHome(start, cache.disk, save.image)
      requires SameHome(start, cache.view, save.image)
      requires forall i :: |h| <= i < |cache.history| ==>
                 RecoversTo(start, cache.history[i], if i < |h| + k then d else save.image)
      modifies `saves, `source
      ensures Durable() && Saved() && saves == old(saves) + [save] && old(source) <= source
      ensures forall j :: |old(source)| <= j < |source| ==> source[j] >= |old(saves)| - 1
    {
      EmptyLogRecovers(start, cache.disk, save.image);
      SafeAfter(start, d, h, saves, source, cache.disk, cache.history, save, k);
      source := source + Sources(|saves| - 1, |cache.history| - |h|, k);
      saves := saves + [save];
    }
  }

  /** The blocks the log still pins when its entries from k on are not installed. */
  ghost function Pins(block: seq<nat>, k: nat, n: nat): set<nat>
    requires k <= n <= |block|
  {
    set i | k <= i < n :: block[i]
  }

  /** One more reference to block b, in a buffer that was b's or was free. */
  lemma GetExact(was: seq<Buf>, now: seq<Buf>, pins: set<nat>, holders: multiset<nat>, i: nat, b: nat)
    requires Exact(was, pins, holders) && Unique(was) && Unique(now) && i < |was| == |now|
    requires now == was[i := now[i]] && Caches(now[i], ROOTDEV, b) && now[i].valid
    requires now[i].refcnt == was[i].refcnt + 1
    requires was[i].refcnt > 0 ==> Caches(was[i], ROOTDEV, b)
    ensures Exact(now, pins, holders + multiset{b})
  {
    forall c | c in pins || c in holders + multiset{b}
      ensures Pinned(now, c)
    {
      if c == b {
        assert Caches(now[i], ROOTDEV, b);
      } else {
        assert Pinned(was, c);
        var j :| 0 <= j < |was| && Caches(was[j], ROOTDEV, c) && was[j].valid && was[j].refcnt > 0;
        assert now[j] == was[j];
      }
    }
    if was[i].refcnt == 0 {
      forall j | 0 <= j < |was|
        ensures !(Caches(was[j], ROOTDEV, b) && was[j].valid && was[j].refcnt > 0)
      {
        assert j != i ==> now[j] == was[j];
      }
      assert !Pinned(was, b);
    }
  }

  /** The log pins the block it appends. */
  lemma PinExact(was: seq<Buf>, block: seq<nat>, n: nat, holders: multiset<nat>, i: nat)
    requires n < |block| && Exact(was, Pins(block, 0, n), holders) && Unique(was) && i < |was|
    requires was[i].dev == ROOTDEV && was[i].blockno in holders && was[i].blockno !in block[..n]
    ensures Exact(was[i := was[i].(refcnt := was[i].refcnt + 1)], Pins(block[n := was[i].blockno], 0, n + 1), holders)
  {
    var b := was[i].blockno;
    var now := was[i := was[i].(refcnt := was[i].refcnt + 1)];
    assert Pins(block[n := b], 0, n + 1) == Pins(block, 0, n) + {b} by {
      assert forall j :: 0 <= j < n ==> block[n := b][j] == block[j];
      assert block[n := b][n] == b;
    }
    assert b !in Pins(block, 0, n);
    forall c | c in Pins(block, 0, n) + {b} || c in holders
      ensures Pinned(now, c)
    {
      assert Pinned(was, c);
      var j :| 0 <= j < |was| && Caches(was[j], ROOTDEV, c) && was[j].valid && was[j].refcnt > 0;
      assert Caches(now[j], ROOTDEV, c) && now[j].valid && now[j].refcnt > 0;
    }
  }

  lemma EditExact(was: seq<Buf>, now: seq<Buf>, pins: set<nat>, holders: multiset<nat>, i: nat)
    requires Exact(was, pins, holders) && i < |was| == |now|
    requires now == was[i := was[i].(data := now[i].data)]
    ensures Exact(now, pins, holders)
  {
    forall c | c in pins || c in holders
      ensures Pinned(now, c)
    {
      assert Pinned(was, c);
      var j :| 0 <= j < |was| && Caches(was[j], ROOTDEV, c) && was[j].valid && was[j].refcnt > 0;
      assert Caches(now[j], ROOTDEV, c) && now[j].valid && now[j].refcnt > 0;
    }
  }

  lemma PutExact(was: seq<Buf>, now: seq<Buf>, pins: set<nat>, holders: multiset<nat>, i: nat)
    requires Exact(was, pins, holders) && Unique(was) && i < |was| == |now|
    requires was[i].dev == ROOTDEV && was[i].blockno in holders
    requires was[i].refcnt > 0 && now == was[i := was[i].(refcnt := was[i].refcnt - 1)]
    ensures Exact(now, pins, holders - multiset{was[i].blockno})
  {
    var b := was[i].blockno;
    forall c | c in pins || c in holders - multiset{b}
      ensures Pinned(now, c)
    {
      assert Pinned(was, c);
      var j :| 0 <= j < |was| && Caches(was[j], ROOTDEV, c) && was[j].valid && was[j].refcnt > 0;
      assert Caches(now[j], ROOTDEV, c) && now[j].valid && now[j].refcnt > 0;
    }
  }

  lemma PinsStep(block: seq<nat>, k: nat, n: nat)
    requires k < n <= |block| && Distinct(block[..n])
    ensures Pins(block, k, n) - {block[k]} == Pins(block, k + 1, n)
  {
    assert forall i :: 0 <= i < n ==> block[i] == block[..n][i];
  }

  /** Neither pins nor holders name log blocks, so those are unreferenced. */
  lemma LogBlockFree(bufs: seq<Buf>, pins: set<nat>, holders: multiset<nat>, start: nat, size: nat, l: nat)
    requires Exact(bufs, pins, holders) && start <= l <= start + LOGBLOCKS
    requires forall b :: b in pins || b in holders ==> IsHome(start, size, b)
    ensures forall i :: 0 <= i < |bufs| && Caches(bufs[i], ROOTDEV, l) ==> bufs[i].refcnt == 0
  {
  }

  lemma PinnedAt(bufs: seq<Buf>, b: nat) returns (p: nat)
    requires Pinned(bufs, b) && Unique(bufs)
    ensures p < |bufs| && Caches(bufs[p], ROOTDEV, b) && bufs[p].valid && bufs[p].refcnt > 0
    ensures Cached(bufs, ROOTDEV, b)
    ensures forall i :: 0 <= i < |bufs| && Caches(bufs[i], ROOTDEV, b) ==> i == p
  {
    p :| 0 <= p < |bufs| && Caches(bufs[p], ROOTDEV, b) && bufs[p].valid && bufs[p].refcnt > 0;
  }

  /** Changing a buffer that was unreferenced unpins nothing. */
  lemma PinnedElsewhere(was: seq<Buf>, now: seq<Buf>, t: nat, b: nat)
    requires t < |was| == |now| && now == was[t := now[t]] && was[t].refcnt == 0
    requires Pinned(was, b)
    ensures Pinned(now, b)
  {
    var p :| 0 <= p < |was| && Caches(was[p], ROOTDEV, b) && was[p].valid && was[p].refcnt > 0;
    assert now[p] == was[p];
  }

  /** The log blocks reserved for the open operations together. */
  ghost function Reserved(m: map<nat, nat>): nat {
    if m == map[] then 0 else var k :| k in m; m[k] + Reserved(m - {k})
  }

  lemma {:induction false} ReservedAt(m: map<nat, nat>, k: nat)
    requires k in m
    ensures Reserved(m) == m[k] + Reserved(m - {k})
    decreases |m|
  {
    var j :| j in m && Reserved(m) == m[j] + Reserved(m - {j});
    if j != k {
      ReservedAt(m - {j}, k);
      ReservedAt(m - {k}, j);
      assert m - {j} - {k} == m - {k} - {j};
    }
  }

  lemma Retire(m: map<nat, nat>, k: nat)
    requires k in m
    ensures |m - {k}| == |m| - 1 && Reserved(m - {k}) <= Reserved(m)
  {
    assert (m - {k}).Keys == m.Keys - {k};
    ReservedAt(m, k);
  }

  /** Appending one block uses up one reserved block. */
  lemma SpendOne(m: map<nat, nat>, k: nat)
    requires k in m && m[k] > 0
    ensures var m' := m[k := m[k] - 1];
            m'.Keys == m.Keys && |m'| == |m| && Reserved(m') == Reserved(m) - 1
  {
    var m' := m[k := m[k] - 1];
    assert m'.Keys == m.Keys;
    ReservedAt(m, k);
    ReservedAt(m', k);
    assert m' - {k} == m - {k};
  }

  lemma {:induction false} ReservedBound(m: map<nat, nat>)
    requires forall k :: k in m ==> m[k] <= MAXOPBLOCKS
    ensures Reserved(m) <= |m| * MAXOPBLOCKS
    decreases |m|
  {
    if m != map[] {
      var j :| j in m && Reserved(m) == m[j] + Reserved(m - {j});
      ReservedBound(m - {j});
      assert (m - {j}).Keys == m.Keys - {j};
    }
  }

  /** The buffers in which the first k logged blocks are pinned. */
  lemma {:induction false} PinnedBuffers(bufs: seq<Buf>, block: seq<nat>, n: nat, holders: multiset<nat>, k: nat)
    returns (where: seq<nat>)
    requires n <= |block| && Exact(bufs, Pins(block, 0, n), holders) && Distinct(block[..n]) && k <= n
    ensures |where| == k && Nodes(|bufs|, where)
    ensures forall j :: 0 <= j < k ==>
              where[j] < |bufs| && bufs[where[j]].blockno == block[j] && bufs[where[j]].refcnt > 0
  {
    where := [];
    if k > 0 {
      var front := PinnedBuffers(bufs, block, n, holders, k - 1);
      assert block[k - 1] in Pins(block, 0, n);
      assert Pinned(bufs, block[k - 1]);
      var p :| 0 <= p < |bufs| && Caches(bufs[p], ROOTDEV, block[k - 1]) && bufs[p].valid && bufs[p].refcnt > 0;
      where := front + [p];
      forall j | 0 <= j < k - 1
        ensures where[j] != p
      {
        assert block[..n][j] != block[..n][k - 1];
      }
    }
  }

  /** A transaction that fills the log pins every buffer of the cache, because
      NBUF == LOGBLOCKS; by the contract of Commit it can then never commit. */
  lemma FullLogLeavesNoBuffer(bufs: seq<Buf>, block: seq<nat>, holders: multiset<nat>)
    requires |bufs| == NBUF && |block| == LOGBLOCKS
    requires Exact(bufs, Pins(block, 0, LOGBLOCKS), holders) && Distinct(block[..LOGBLOCKS])
    ensures !SomeFree(bufs)
  {
    var where := PinnedBuffers(bufs, block, LOGBLOCKS, holders, LOGBLOCKS);
    forall i | 0 <= i < NBUF
      ensures bufs[i].refcnt > 0
    {
      var j := PositionOf(NBUF, where, i);
    }
  }
}
