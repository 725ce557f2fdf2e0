/** commit() one block write at a time, while other processes read: reading a file takes
    no transaction, so bread and brelse of home blocks may come between any two writes.
    Any interleaving is a sequence of the calls below. */
module CommitSteps {
  import opened Disk
  import opened LogFormat
  import opened BufferCache
  import opened LogProtocol
  import opened Distinctness
  import opened Log

  /** The disk, the cached contents and the disk writes so far when a commit begins. */
  datatype Txn = Txn(d: Image, v: Image, h: seq<Image>)

  /** A transaction of n blocks, over an empty log. */
  ghost predicate Ready(start: nat, block: seq<nat>, n: nat, t: Txn) {
    && Fits(start, t.d) && Count(start, t.d) == 0 && |t.d| == |t.v| && Logged(start, |t.d|, block, n) && n > 0
    && forall b :: IsHome(start, |t.d|, b) && t.d[b] != t.v[b] ==> b in block[..n]
  }

  /** The disk at the commit point. */
  ghost function Header(start: nat, block: seq<nat>, n: nat, t: Txn): Image
    requires Ready(start, block, n, t)
  {
    HeaderWritten(start, LogCopied(start, t.d, t.v, block, n), n, block)
  }

  /** The disk after k writes: n log blocks, the header, n home blocks. */
  ghost function DiskAt(start: nat, block: seq<nat>, n: nat, t: Txn, k: nat): Image
    requires Ready(start, block, n, t) && k <= 2 * n + 1
  {
    if k <= n then LogCopied(start, t.d, t.v, block, k)
    else Installed(start, Header(start, block, n, t), Header(start, block, n, t), block, k - n - 1)
  }

  /** What clients of the cache see then. */
  ghost function ViewAt(start: nat, block: seq<nat>, n: nat, t: Txn, k: nat): Image
    requires Ready(start, block, n, t) && k <= 2 * n + 1
  {
    if k <= n then LogCopied(start, t.v, t.v, block, k)
    else LogCopied(start, t.v, t.v, block, n)[start := Header(start, block, n, t)[start]]
  }

  lemma WriteStates(start: nat, block: seq<nat>, n: nat, t: Txn, k: nat)
    requires Ready(start, block, n, t) && k <= 2 * n + 1
    ensures |CommitStates(start, t.d, t.v, block, n)| == 2 * n + 2
    ensures var h := CommitStates(start, t.d, t.v, block, n);
            && h[..k] + [h[k]] == h[..k + 1] && t.h + h[..k] + [h[k]] == t.h + h[..k + 1]
            && (k <= 2 * n ==> h[k] == DiskAt(start, block, n, t, k + 1))
            && (k == 2 * n + 1 ==> h[k] == HeaderWritten(start, DiskAt(start, block, n, t, k), 0, block))
  {
    CommitStateAt(start, t.d, t.v, block, n, k);
    TakeMore(t.h, CommitStates(start, t.d, t.v, block, n), k);
  }

  lemma TakeMore<T>(a: seq<T>, h: seq<T>, k: nat)
    requires k < |h|
    ensures h[..k] + [h[k]] == h[..k + 1] && a + h[..k] + [h[k]] == a + h[..k + 1]
  {
  }

  /** The blocks the log still pins then. */
  ghost function PinsAt(block: seq<nat>, n: nat, k: nat): set<nat>
    requires n <= |block| && k <= 2 * n + 1
  {
    Pins(block, if k <= n then 0 else k - n - 1, n)
  }

  lemma PinsInstalling(block: seq<nat>, n: nat, k: nat, tail: nat)
    requires n <= |block| && n < k <= 2 * n && tail == k - n - 1
    ensures PinsAt(block, n, k) == Pins(block, tail, n) && PinsAt(block, n, k + 1) == Pins(block, tail + 1, n)
  {
  }

  /** The commit has made k of its writes, and every reference is accounted for. */
  ghost predicate Underway(log: Log, t: Txn, k: nat, holders: multiset<nat>)
    reads log`n, log`block, log.cache
  {
    && Ready(log.start, log.block, log.n, t) && k <= 2 * log.n + 1 && log.cache.Valid()
    && log.cache.disk == DiskAt(log.start, log.block, log.n, t, k)
    && log.cache.view == ViewAt(log.start, log.block, log.n, t, k)
    && |CommitStates(log.start, t.d, t.v, log.block, log.n)| == 2 * log.n + 2
    && log.cache.history == t.h + CommitStates(log.start, t.d, t.v, log.block, log.n)[..k]
    && Exact(log.cache.bufs, PinsAt(log.block, log.n, k), holders)
    && forall b :: b in holders ==> IsHome(log.start, |log.cache.disk|, b)
  }

  // ---- what each write does to disk and view ----

  lemma LogOneValues(start: nat, block: seq<nat>, n: nat, t: Txn, k: nat)
    requires Ready(start, block, n, t) && k < n
    ensures var data := ViewAt(start, block, n, t, k)[block[k]];
            && DiskAt(start, block, n, t, k + 1) == DiskAt(start, block, n, t, k)[start + k + 1 := data]
            && ViewAt(start, block, n, t, k + 1) == ViewAt(start, block, n, t, k)[start + k + 1 := data]
  {
    LogStep(start, t.d, t.v, block, k, []);
  }

  lemma HeaderValues(start: nat, block: seq<nat>, n: nat, t: Txn)
    requires Ready(start, block, n, t)
    ensures DiskAt(start, block, n, t, n + 1) == HeaderWritten(start, DiskAt(start, block, n, t, n), n, block)
    ensures ViewAt(start, block, n, t, n + 1)
            == ViewAt(start, block, n, t, n)[start := DiskAt(start, block, n, t, n + 1)[start]]
  {
  }

  lemma InstallOneValues(start: nat, block: seq<nat>, n: nat, t: Txn, k: nat)
    requires Ready(start, block, n, t) && n < k <= 2 * n
    ensures var tail, disk, view := k - n - 1, DiskAt(start, block, n, t, k), ViewAt(start, block, n, t, k);
            && view[block[tail]] == view[start + 1 + tail]
            && DiskAt(start, block, n, t, k + 1) == disk[block[tail] := view[start + tail + 1]]
            && ViewAt(start, block, n, t, k + 1) == view
  {
    var c := Header(start, block, n, t);
    AfterCommitPoint(start, t.d, t.v, block, n);
    InstallStep(start, c, c, block, k - n - 1, []);
  }

  /** The log area fits throughout. */
  lemma StillFits(start: nat, block: seq<nat>, n: nat, t: Txn, k: nat)
    requires Ready(start, block, n, t) && k <= 2 * n + 1
    ensures Fits(start, DiskAt(start, block, n, t, k)) && |DiskAt(start, block, n, t, k)| == |t.d|
    ensures |ViewAt(start, block, n, t, k)| == |t.d|
  {
    if k <= n {
      LogCopiedAt(start, t.d, t.v, block, k);
    } else {
      CommitAtomic(start, t.d, t.v, block, n, k - 1);
    }
  }

  /** Readers see the new contents throughout, and what is not pinned is on disk. */
  lemma HomeAt(start: nat, block: seq<nat>, n: nat, t: Txn, k: nat, b: nat)
    requires Ready(start, block, n, t) && k <= 2 * n + 1 && IsHome(start, |t.d|, b)
    ensures |DiskAt(start, block, n, t, k)| == |ViewAt(start, block, n, t, k)| == |t.d|
    ensures ViewAt(start, block, n, t, k)[b] == t.v[b]
    ensures b !in PinsAt(block, n, k) ==> DiskAt(start, block, n, t, k)[b] == t.v[b]
  {
    StillFits(start, block, n, t, k);
    LogCopiedAt(start, t.v, t.v, block, if k <= n then k else n);
    LogCopiedAt(start, t.d, t.v, block, if k <= n then k else n);
    if b !in PinsAt(block, n, k) {
      if k > n {
        InstalledAt(start, block, n, t, k - n - 1, b);
      } else {
        CleanAtFirst(start, block, n, t, b);
      }
    }
  }

  lemma CleanAtFirst(start: nat, block: seq<nat>, n: nat, t: Txn, b: nat)
    requires Ready(start, block, n, t) && IsHome(start, |t.d|, b) && b !in Pins(block, 0, n)
    ensures t.d[b] == t.v[b]
  {
  }

  lemma {:induction false} InstalledAt(start: nat, block: seq<nat>, n: nat, t: Txn, j: nat, b: nat)
    requires Ready(start, block, n, t) && j <= n && IsHome(start, |t.d|, b) && b !in Pins(block, j, n)
    ensures var c := Header(start, block, n, t);
            Installed(start, c, c, block, j)[b] == t.v[b]
  {
    var c := Header(start, block, n, t);
    LogCopiedAt(start, t.d, t.v, block, n);
    if j == 0 {
      CleanAtFirst(start, block, n, t, b);
    } else if b != block[j - 1] {
      assert b !in Pins(block, j - 1, n);
      InstalledAt(start, block, n, t, j - 1, b);
    }
  }

  // ---- the steps ----

  /** commit() is called. */
  method Begin(log: Log, ghost holders: multiset<nat>) returns (ghost t: Txn)
    requires log.Inv(holders, {}) && log.n > 0
    ensures t == Txn(log.cache.disk, log.cache.view, log.cache.history) && Underway(log, t, 0, holders)
  {
    t := Txn(log.cache.disk, log.cache.view, log.cache.history);
    WriteStates(log.start, log.block, log.n, t, 0);
  }

  /** One round of write_log. Like the other steps it fails exactly when no buffer is
      free at that moment. */
  method LogOne(log: Log, ghost t: Txn, k: nat, ghost holders: multiset<nat>) returns (ok: bool)
    requires Underway(log, t, k, holders) && k < log.n
    modifies log.cache
    ensures ok <==> SomeFree(old(log.cache.bufs))
    ensures Underway(log, t, if ok then k + 1 else k, holders)
  {
    ghost var was := log.cache.bufs;
    LogOneValues(log.start, log.block, log.n, t, k);
    WriteStates(log.start, log.block, log.n, t, k);
    StillFits(log.start, log.block, log.n, t, k);
    assert log.block[k] in Pins(log.block, 0, log.n) && Pinned(was, log.block[k]);
    LogBlockFree(was, Pins(log.block, 0, log.n), holders, log.start, |log.cache.disk|, log.start + k + 1);
    ok := log.WriteLogBlock(k);
    StableExact(was, log.cache.bufs, Pins(log.block, 0, log.n), holders);
  }

  /** write_head, the commit point. */
  method PutHeader(log: Log, ghost t: Txn, ghost holders: multiset<nat>) returns (ok: bool)
    requires Underway(log, t, log.n, holders)
    modifies log.cache
    ensures ok <==> SomeFree(old(log.cache.bufs))
    ensures Underway(log, t, if ok then log.n + 1 else log.n, holders)
  {
    ghost var was := log.cache.bufs;
    HeaderValues(log.start, log.block, log.n, t);
    WriteStates(log.start, log.block, log.n, t, log.n);
    StillFits(log.start, log.block, log.n, t, log.n);
    log.AreaFree(holders, Pins(log.block, 0, log.n));
    ok := log.WriteHead();
    StableExact(was, log.cache.bufs, Pins(log.block, 0, log.n), holders);
  }

  /** One round of install_trans. */
  method InstallOne(log: Log, ghost t: Txn, k: nat, ghost holders: multiset<nat>) returns (ok: bool)
    requires Underway(log, t, k, holders) && log.n < k <= 2 * log.n
    modifies log.cache
    ensures ok <==> SomeFree(old(log.cache.bufs))
    ensures Underway(log, t, if ok then k + 1 else k, holders)
  {
    InstallOneValues(log.start, log.block, log.n, t, k);
    WriteStates(log.start, log.block, log.n, t, k);
    StillFits(log.start, log.block, log.n, t, k);
    var tail := k - log.n - 1;
    PinsInstalling(log.block, log.n, k, tail);
    ok := log.InstallAndUnpin(tail, holders);
    if ok {
      assert log.cache.disk == DiskAt(log.start, log.block, log.n, t, k + 1);
    }
  }

  /** log.lh.n = 0 and the last write_head: the commit is over. */
  method ClearHeader(log: Log, ghost t: Txn, ghost holders: multiset<nat>) returns (ok: bool)
    requires Underway(log, t, 2 * log.n + 1, holders)
    modifies log`n, log.cache
    ensures ok <==> SomeFree(old(log.cache.bufs))
    ensures ok ==> log.Inv(holders, {}) && log.n == 0 && SameHome(log.start, log.cache.disk, t.v)
                   && SameHome(log.start, log.cache.view, t.v)
                   && log.cache.history == old(log.cache.history) + [log.cache.disk]
    ensures ok ==> log.cache.history == t.h + CommitStates(log.start, t.d, t.v, log.block, old(log.n))
    ensures !ok ==> log.cache.history == old(log.cache.history)
  {
    ghost var was, n := log.cache.bufs, log.n;
    ghost var h := CommitStates(log.start, t.d, t.v, log.block, n);
    WriteStates(log.start, log.block, n, t, 2 * n + 1);
    StillFits(log.start, log.block, n, t, 2 * n + 1);
    log.AreaFree(holders, Pins(log.block, n, n));
    log.n := 0;
    ok := log.WriteHead();
    if ok {
      Cleared(log.start, log.block, n, t);
      assert Pins(log.block, n, n) == {} == Pins(log.block, 0, 0);
      StableExact(was, log.cache.bufs, {}, holders);
      assert h[..2 * n + 2] == h;
    }
  }

  lemma Cleared(start: nat, block: seq<nat>, n: nat, t: Txn)
    requires Ready(start, block, n, t)
    ensures var d := DiskAt(start, block, n, t, 2 * n + 1);
            var v := ViewAt(start, block, n, t, 2 * n + 1);
            && Fits(start, d) && |d| == |v| == |t.d|
            && Count(start, HeaderWritten(start, d, 0, block)) == 0 && Fits(start, HeaderWritten(start, d, 0, block))
            && SameHome(start, HeaderWritten(start, d, 0, block), t.v) && SameHome(start, v, t.v)
  {
    StillFits(start, block, n, t, 2 * n + 1);
    forall b: nat | IsHome(start, |t.d|, b)
      ensures DiskAt(start, block, n, t, 2 * n + 1)[b] == t.v[b] == ViewAt(start, block, n, t, 2 * n + 1)[b]
    {
      assert Pins(block, n, n) == {};
      HomeAt(start, block, n, t, 2 * n + 1, b);
    }
  }

  /** bread by another process, at any point of the commit: it finds the new contents. */
  method Read(log: Log, b: nat, ghost t: Txn, k: nat, ghost holders: multiset<nat>) returns (r: Option<nat>)
    requires Underway(log, t, k, holders) && IsHome(log.start, |log.cache.disk|, b)
    modifies log.cache`bufs
    ensures r.None? <==> !Cached(old(log.cache.bufs), ROOTDEV, b) && !SomeFree(old(log.cache.bufs))
    ensures r.None? ==> Underway(log, t, k, holders)
    ensures r.Some? ==> Underway(log, t, k, holders + multiset{b}) && r.value < |log.cache.bufs| && b < |t.v|
                        && Caches(log.cache.bufs[r.value], ROOTDEV, b) && log.cache.bufs[r.value].data == t.v[b]
  {
    ghost var was := log.cache.bufs;
    HomeAt(log.start, log.block, log.n, t, k, b);
    r := log.cache.Bread(b);
    if r.Some? {
      GetExact(was, log.cache.bufs, PinsAt(log.block, log.n, k), holders, r.value, b);
    }
  }

  lemma LastReference(bufs: seq<Buf>, pins: set<nat>, holders: multiset<nat>, i: nat)
    requires Exact(bufs, pins, holders) && i < |bufs| && bufs[i].dev == ROOTDEV && bufs[i].blockno in holders
    ensures bufs[i].refcnt > 0 && (bufs[i].refcnt == 1 ==> bufs[i].blockno !in pins)
  {
  }

  /** brelse by another process. */
  method Release(log: Log, i: nat, ghost t: Txn, k: nat, ghost holders: multiset<nat>)
    requires Underway(log, t, k, holders) && i < |log.cache.bufs|
    requires log.cache.bufs[i].dev == ROOTDEV && log.cache.bufs[i].blockno in holders
    modifies log.cache`bufs, log.cache`next, log.cache`prev, log.cache`order, log.cache`stamp, log.cache`clock
    ensures Underway(log, t, k, holders - multiset{old(log.cache.bufs)[i].blockno})
  {
    ghost var was, pins := log.cache.bufs, PinsAt(log.block, log.n, k);
    LastReference(was, pins, holders, i);
    HomeAt(log.start, log.block, log.n, t, k, was[i].blockno);
    log.cache.Brelse(i);
    PutExact(was, log.cache.bufs, pins, holders, i);
  }

  /** However the reads fell, a crash at any write so far leaves all the old contents, or
      all the new ones from the header write on. */
  lemma AtomicThroughout(log: Log, t: Txn, k: nat, holders: multiset<nat>)
    requires Underway(log, t, k, holders)
    ensures |log.cache.history| == |t.h| + k
    ensures forall j :: |t.h| <= j < |log.cache.history| ==>
              RecoversTo(log.start, log.cache.history[j], if j < |t.h| + log.n then t.d else t.v)
  {
    CommitStatesAtomic(log.start, t.d, t.v, log.block, log.n);
  }
}
