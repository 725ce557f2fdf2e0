/** The single writes of a commit with what each of them means for sys_sync, which may
    run between any two: after every write the disk recovers to the last commit that
    reached its header write, and to no earlier one. */
module SyncSteps {
  import opened Disk
  import opened LogFormat
  import opened BufferCache
  import opened LogProtocol
  import opened Log
  import opened CommitSteps

  /** What the log remembers of commits and of sync calls. */
  datatype Books = Books(saves: seq<Save>, source: seq<nat>, ncommit: nat, ended: set<nat>,
                         promises: set<(nat, set<nat>)>)

  /** The books of log. */
  ghost function BooksOf(log: Log): Books
    reads log`saves, log`source, log`ncommit, log`ended, log`promises
  {
    Books(log.saves, log.source, log.ncommit, log.ended, log.promises)
  }

  /** While a commit runs: every disk image so far recovers to the commit the books name
      and the disk to the last one, which from the header write on is the running one,
      for all operations that have ended. */
  ghost predicate Booked(start: nat, disk: Image, view: Image, history: seq<Image>, b: Books, t: Txn, committed: bool) {
    && Safe(start, disk, history, b.saves, b.source) && Growing(b.saves)
    && |b.saves| == b.ncommit + (if committed then 2 else 1)
    && b.saves[|b.saves| - 1].ops <= b.ended && Kept(b.promises, b.ncommit, b.ended, b.saves)
    && SameHome(start, view, t.v) && SavedAs(start, b.saves[|b.saves| - 1], t, committed, b.ended)
  }

  ghost predicate SavedAs(start: nat, save: Save, t: Txn, committed: bool, ended: set<nat>) {
    if committed then save == Save(t.v, ended) else SameHome(start, t.d, save.image)
  }

  /** What end_op and sys_sync enter is the same. */
  ghost predicate SameCalls(b: Books, c: Books) {
    b.ncommit == c.ncommit && b.ended == c.ended && b.promises == c.promises
  }

  /** Books that have the first k writes of transaction t. */
  ghost predicate BookedAt(start: nat, block: seq<nat>, n: nat, t: Txn, k: nat, b: Books) {
    && Ready(start, block, n, t) && k <= 2 * n + 1
    && Booked(start, DiskAt(start, block, n, t, k), ViewAt(start, block, n, t, k), Images(start, block, n, t, k), b, t,
              k > n)
  }

  /** The disk images up to then. */
  ghost function Images(start: nat, block: seq<nat>, n: nat, t: Txn, k: nat): seq<Image>
    requires Ready(start, block, n, t) && k <= 2 * n + 1
  {
    WriteStates(start, block, n, t, k);
    t.h + CommitStates(start, t.d, t.v, block, n)[..k]
  }

  // ---- one write more ----

  /** It recovers to the last commit, or to one that it completes. */
  lemma SafeWrite(start: nat, d: Image, h: seq<Image>, saves: seq<Save>, source: seq<nat>, d': Image,
                  saves': seq<Save>)
    requires Safe(start, d, h, saves, source) && saves <= saves' && RecoversTo(start, d', saves'[|saves'| - 1].image)
    ensures Safe(start, d', h + [d'], saves', source + [|saves'| - 1])
  {
    var h', source' := h + [d'], source + [|saves'| - 1];
    forall k | 0 <= k < |source'|
      ensures source'[k] < |saves'| && RecoversTo(start, h'[k], saves'[source'[k]].image)
    {
      if k < |h| {
        assert h'[k] == h[k] && source'[k] == source[k] && saves'[source[k]] == saves[source[k]];
      }
    }
  }

  /** What the disk recovers to after k + 1 writes. */
  lemma NextRecovers(start: nat, block: seq<nat>, n: nat, t: Txn, k: nat, save: Save, ended: set<nat>)
    requires Ready(start, block, n, t) && k <= 2 * n && SavedAs(start, save, t, k > n, ended)
    ensures RecoversTo(start, DiskAt(start, block, n, t, k + 1), if k == n then t.v else save.image)
  {
    WriteStates(start, block, n, t, k);
    CommitStatesAtomic(start, t.d, t.v, block, n);
  }

  lemma ViewIsNew(start: nat, block: seq<nat>, n: nat, t: Txn, k: nat)
    requires Ready(start, block, n, t) && k <= 2 * n + 1
    ensures SameHome(start, ViewAt(start, block, n, t, k), t.v)
  {
    StillFits(start, block, n, t, k);
    forall b: nat | IsHome(start, |t.d|, b)
      ensures ViewAt(start, block, n, t, k)[b] == t.v[b]
    {
      HomeAt(start, block, n, t, k, b);
    }
  }

  /** The books after a write, which may be that of the header. */
  ghost function Entered(b: Books, t: Txn, atHeader: bool): (r: Books)
    ensures SameCalls(r, b)
  {
    var saves := if atHeader then b.saves + [Save(t.v, b.ended)] else b.saves;
    b.(saves := saves, source := b.source + [if |saves| > 0 then |saves| - 1 else 0])
  }

  lemma BookedNext(start: nat, d: Image, view: Image, h: seq<Image>, b: Books, t: Txn, committed: bool,
                   d': Image, view': Image, atHeader: bool)
    requires Booked(start, d, view, h, b, t, committed) && (atHeader ==> !committed)
    requires RecoversTo(start, d', if atHeader then t.v else b.saves[|b.saves| - 1].image)
    requires SameHome(start, view', t.v)
    ensures Booked(start, d', view', h + [d'], Entered(b, t, atHeader), t, committed || atHeader)
  {
    SafeWrite(start, d, h, b.saves, b.source, d', Entered(b, t, atHeader).saves);
  }

  /** The books after write k. */
  lemma BookedStep(start: nat, block: seq<nat>, n: nat, t: Txn, k: nat, b: Books, k': nat, b': Books)
    requires BookedAt(start, block, n, t, k, b) && k <= 2 * n && k' == k + 1 && b' == Entered(b, t, k == n)
    ensures BookedAt(start, block, n, t, k', b')
  {
    var d, v, d', v' := DiskAt(start, block, n, t, k), ViewAt(start, block, n, t, k),
                        DiskAt(start, block, n, t, k + 1), ViewAt(start, block, n, t, k + 1);
    NextRecovers(start, block, n, t, k, b.saves[|b.saves| - 1], b.ended);
    ViewIsNew(start, block, n, t, k + 1);
    BookedNext(start, d, v, Images(start, block, n, t, k), b, t, k > n, d', v', k == n);
    NextImage(start, block, n, t, k);
  }

  lemma NextImage(start: nat, block: seq<nat>, n: nat, t: Txn, k: nat)
    requires Ready(start, block, n, t) && k <= 2 * n
    ensures Images(start, block, n, t, k + 1) == Images(start, block, n, t, k) + [DiskAt(start, block, n, t, k + 1)]
  {
    WriteStates(start, block, n, t, k);
  }

  /** One sync call more, for all operations that have ended. */
  ghost function Called(b: Books): Books {
    b.(promises := b.promises + {(b.ncommit + 1, b.ended)})
  }

  lemma BookedCall(start: nat, block: seq<nat>, n: nat, t: Txn, k: nat, b: Books, b': Books)
    requires BookedAt(start, block, n, t, k, b) && b' == Called(b)
    ensures BookedAt(start, block, n, t, k, b')
  {
  }

  // ---- the steps ----

  /** end_op has set committing, and commit() is called. */
  method Start(log: Log, ghost holders: multiset<nat>) returns (ghost t: Txn)
    requires log.Inv(holders, {}) && log.Durable() && log.committing && !log.Saved() && log.n > 0
    ensures t == Txn(log.cache.disk, log.cache.view, log.cache.history) && Underway(log, t, 0, holders)
    ensures BookedAt(log.start, log.block, log.n, t, 0, BooksOf(log))
  {
    t := Begin(log, holders);
    assert Images(log.start, log.block, log.n, t, 0) == log.cache.history;
  }

  /** At every point of the commit the log is durable, in the sense sys_sync asks for. */
  ghost method Settle(log: Log, t: Txn, k: nat, holders: multiset<nat>, b: Books)
    requires Underway(log, t, k, holders) && log.committing && SameCalls(b, BooksOf(log))
    requires BookedAt(log.start, log.block, log.n, t, k, b)
    modifies log`saves, log`source
    ensures log.Durable() && (log.Saved() <==> k > log.n) && BooksOf(log) == b
  {
    log.saves, log.source := b.saves, b.source;
  }

  /** sys_sync up to its wait, under log.lock. */
  method Ask(log: Log, ghost b: Books) returns (ticket: nat, ghost b': Books)
    requires log.Durable() && log.committing && b == BooksOf(log)
    modifies log`promises
    ensures ticket == log.ncommit + 1 && b' == BooksOf(log) == Called(b)
  {
    var r;
    ghost var promised;
    r, promised := log.SyncStart();
    ticket, b' := r.value, Called(b);
  }

  /** sys_sync, at any point of the commit: it waits for this commit, which goes on as
      before. */
  method Sync(log: Log, ghost t: Txn, k: nat, ghost holders: multiset<nat>, ghost b: Books)
    returns (ticket: nat, ghost b': Books)
    requires Underway(log, t, k, holders) && log.committing && SameCalls(b, BooksOf(log))
    requires BookedAt(log.start, log.block, log.n, t, k, b)
    modifies log`saves, log`source, log`promises
    ensures ticket == log.ncommit + 1 && b' == BooksOf(log) == Called(b)
  {
    Settle(log, t, k, holders, b);
    ticket, b' := Ask(log, b);
  }

  /** The next write of commit(), in the order of the code. */
  method Write(log: Log, ghost t: Txn, k: nat, ghost holders: multiset<nat>) returns (ok: bool)
    requires Underway(log, t, k, holders) && k <= 2 * log.n
    modifies log.cache
    ensures ok <==> SomeFree(old(log.cache.bufs))
    ensures Underway(log, t, if ok then k + 1 else k, holders)
  {
    if k < log.n {
      ok := LogOne(log, t, k, holders);
    } else if k == log.n {
      ok := PutHeader(log, t, holders);
    } else {
      ok := InstallOne(log, t, k, holders);
    }
  }

  // ---- the end of the commit ----

  /** The last write leaves the header empty, and recovers to the new contents too. */
  lemma BookedEnd(start: nat, block: seq<nat>, n: nat, t: Txn, b: Books, h0: seq<Image>, d: Image, v: Image,
                  h: seq<Image>)
    requires BookedAt(start, block, n, t, 2 * n + 1, b) && Fits(start, d) && Count(start, d) == 0
    requires SameHome(start, d, t.v) && SameHome(start, v, t.v)
    requires h0 == Images(start, block, n, t, 2 * n + 1) && h == h0 + [d]
    ensures Booked(start, d, v, h, Entered(b, t, false), t, true)
  {
    EmptyLogRecovers(start, d, t.v);
    BookedNext(start, DiskAt(start, block, n, t, 2 * n + 1), ViewAt(start, block, n, t, 2 * n + 1),
               h0, b, t, true, d, v, false);
  }

  /** The last write of commit(), and what is to be entered in the books. */
  method Clear(log: Log, ghost t: Txn, ghost holders: multiset<nat>, ghost b: Books)
    returns (ok: bool, ghost d: Image, ghost v: Image, ghost h: seq<Image>)
    requires Underway(log, t, 2 * log.n + 1, holders) && BookedAt(log.start, log.block, log.n, t, 2 * log.n + 1, b)
    modifies log.cache, log`n
    ensures d == log.cache.disk && v == log.cache.view && h == log.cache.history
    ensures ok ==> log.Inv(holders, {}) && log.n == 0 && Booked(log.start, d, v, h, Entered(b, t, false), t, true)
  {
    ghost var block, n, h0 := log.block, log.n, log.cache.history;
    assert h0 == Images(log.start, block, n, t, 2 * n + 1);
    ok := ClearHeader(log, t, holders);
    d, v, h := log.cache.disk, log.cache.view, log.cache.history;
    if ok {
      BookedEnd(log.start, block, n, t, b, h0, d, v, h);
    }
  }

  ghost method SettleEnd(log: Log, t: Txn, holders: multiset<nat>, d: Image, v: Image, h: seq<Image>, b: Books)
    requires log.Inv(holders, {}) && log.committing && SameCalls(b, BooksOf(log))
    requires d == log.cache.disk && v == log.cache.view && h == log.cache.history
    requires Booked(log.start, d, v, h, b, t, true)
    modifies log`saves, log`source
    ensures log.Durable() && log.Saved() && BooksOf(log) == b && log.Inv(holders, {})
  {
    log.saves, log.source := b.saves, b.source;
    assert log.Inv(holders, {}) == old(log.Inv(holders, {}));
  }

  /** The end of commit(): the log is empty and durable, and sync calls may return once
      the commit is counted. */
  method End(log: Log, ghost t: Txn, ghost holders: multiset<nat>, ghost b: Books) returns (ok: bool)
    requires Underway(log, t, 2 * log.n + 1, holders) && BookedAt(log.start, log.block, log.n, t, 2 * log.n + 1, b)
    requires log.committing && SameCalls(b, BooksOf(log))
    modifies log.cache, log`n, log`saves, log`source
    ensures ok ==> log.Inv(holders, {}) && log.n == 0 && log.Durable() && log.Saved()
  {
    ghost var d, v, h;
    ok, d, v, h := Clear(log, t, holders, b);
    if ok {
      SettleEnd(log, t, holders, d, v, h, Entered(b, t, false));
    }
  }

  // ---- all ways to interleave ----

  /** What happens during a commit: its next write but the last, or a sync call. */
  datatype Event = Wrote | Asked

  function Step(e: Event): nat {
    if e == Wrote then 1 else 0
  }

  function WriteCount(es: seq<Event>): nat {
    if es == [] then 0 else Step(es[0]) + WriteCount(es[1..])
  }

  /** The books after an event, when k writes have been made. */
  ghost function Next(b: Books, t: Txn, n: nat, k: nat, e: Event): Books {
    if e == Wrote then Entered(b, t, k == n) else Called(b)
  }

  ghost function After(b: Books, t: Txn, n: nat, k: nat, es: seq<Event>): Books
    decreases |es|
  {
    if es == [] then b else After(Next(b, t, n, k, es[0]), t, n, k + Step(es[0]), es[1..])
  }

  /** The books are right after the event if they were before it; said with `==`, which
      leaves the comparison whole. */
  lemma BookedEvent(start: nat, block: seq<nat>, n: nat, t: Txn, k: nat, b: Books, e: Event, k': nat, b': Books)
    requires k' == k + Step(e) <= 2 * n + 1 && b' == Next(b, t, n, k, e)
    ensures BookedAt(start, block, n, t, k, b) ==> BookedAt(start, block, n, t, k', b') == true
  {
    if BookedAt(start, block, n, t, k, b) {
      if e == Wrote {
        BookedStep(start, block, n, t, k, b, k', b');
      } else {
        BookedCall(start, block, n, t, k, b, b');
      }
    }
  }

  lemma {:induction false} BookedEvents(start: nat, block: seq<nat>, n: nat, t: Txn, k: nat, b: Books,
                                        es: seq<Event>, last: nat, r: Books)
    requires last == k + WriteCount(es) <= 2 * n + 1 && r == After(b, t, n, k, es)
    ensures BookedAt(start, block, n, t, k, b) ==> BookedAt(start, block, n, t, last, r) == true
    decreases |es|
  {
    if es != [] {
      var k1, b1 := k + Step(es[0]), Next(b, t, n, k, es[0]);
      BookedEvent(start, block, n, t, k, b, es[0], k1, b1);
      BookedEvents(start, block, n, t, k1, b1, es[1..], last, r);
    }
  }

  /** However sync calls fall between the writes, the books are right at every point. */
  lemma {:induction false} BookedThroughout(start: nat, block: seq<nat>, n: nat, t: Txn, k: nat, b: Books,
                                            es: seq<Event>, last: nat, r: Books)
    requires BookedAt(start, block, n, t, k, b) && last == k + WriteCount(es) <= 2 * n + 1
    requires r == After(b, t, n, k, es)
    ensures BookedAt(start, block, n, t, last, r)
  {
    BookedEvents(start, block, n, t, k, b, es, last, r);
  }

  /** And when the commit is over, the disk recovers to contents that cover every
      operation any of these calls was made for. */
  lemma SyncServed(start: nat, block: seq<nat>, n: nat, t: Txn, b: Books, es: seq<Event>, d: Image, v: Image,
                   h: seq<Image>, promised: set<nat>, ticket: nat)
    requires BookedAt(start, block, n, t, 0, b) && WriteCount(es) == 2 * n + 1
    requires (ticket, promised) in After(b, t, n, 0, es).promises
    requires Fits(start, d) && Count(start, d) == 0 && SameHome(start, d, t.v) && SameHome(start, v, t.v)
    requires h == Images(start, block, n, t, 2 * n + 1) + [d]
    ensures var saves := After(b, t, n, 0, es).saves;
            |saves| > 0 && promised <= saves[|saves| - 1].ops && RecoversTo(start, d, saves[|saves| - 1].image)
  {
    var r := After(b, t, n, 0, es);
    BookedThroughout(start, block, n, t, 0, b, es, 2 * n + 1, r);
    BookedEnd(start, block, n, t, r, Images(start, block, n, t, 2 * n + 1), d, v, h);
  }
}
