/** Two runs that end in a panic although every operation keeps to its budget: three
    operations, admitted together, append MAXOPBLOCKS blocks each and fill the log. */
module FullLog {
  import opened Disk
  import opened LogFormat
  import opened BufferCache
  import opened Distinctness
  import opened Log

  /** Room for the log and for LOGBLOCKS blocks behind it. */
  predicate Roomy(start: nat, d: Image) {
    WellFormed(start, d) && start + 2 * LOGBLOCKS < |d|
  }

  /** The first k entries are the first k blocks behind the log area. */
  ghost predicate Listed(block: seq<nat>, start: nat, k: nat) {
    k <= |block| && forall j :: 0 <= j < k ==> block[j] == start + LOGBLOCKS + 1 + j
  }

  lemma NotListed(block: seq<nat>, start: nat, k: nat, b: nat)
    requires Listed(block, start, k) && b == start + LOGBLOCKS + 1 + k
    ensures b !in block[..k]
  {
  }

  lemma ListedMore(block: seq<nat>, block': seq<nat>, start: nat, k: nat, b: nat)
    requires Listed(block, start, k) && b == start + LOGBLOCKS + 1 + k
    requires k < |block'| && block'[..k + 1] == block[..k] + [b]
    ensures Listed(block', start, k + 1)
  {
    assert forall j :: 0 <= j < k + 1 ==> block'[j] == block'[..k + 1][j];
  }

  /** Exactly the buffers in refs are referenced. */
  ghost predicate Referenced(bufs: seq<Buf>, refs: set<nat>) {
    && (forall i :: i in refs ==> i < |bufs|)
    && forall i :: 0 <= i < |bufs| ==> (bufs[i].refcnt > 0 <==> i in refs)
  }

  lemma FewReferences(bufs: seq<Buf>, refs: set<nat>)
    requires |refs| < |bufs| && Referenced(bufs, refs)
    ensures SomeFree(bufs)
  {
    BelowSize(|bufs|);
    if forall i :: 0 <= i < |bufs| ==> i in refs {
      SubsetSize(Below(|bufs|), refs);
    }
  }

  /** Between two appends: k blocks behind the log area are in it, and so many buffers
      are referenced. */
  ghost predicate Filled(log: Log, k: nat, refs: set<nat>)
    reads log, log.cache
  {
    && log.Inv(multiset{}, {}) && log.Admission() && !log.committing
    && log.n == k <= LOGBLOCKS && log.start + 2 * LOGBLOCKS < |log.cache.disk|
    && Listed(log.block, log.start, k) && |refs| == k && Referenced(log.cache.bufs, refs)
  }

  /** bread of a block that is not logged yet finds a free buffer. */
  method GetNew(log: Log, b: nat, ghost refs: set<nat>) returns (i: nat)
    requires log.Inv(multiset{}, {}) && |refs| < NBUF && Referenced(log.cache.bufs, refs)
    requires IsHome(log.start, |log.cache.disk|, b) && b !in log.block[..log.n]
    modifies log.cache`bufs
    ensures log.Inv(multiset{b}, {}) && i < NBUF && i !in refs && Referenced(log.cache.bufs, refs + {i})
    ensures Caches(log.cache.bufs[i], ROOTDEV, b) && log.cache.bufs[i].valid && log.cache.bufs[i].refcnt == 1
  {
    ghost var was := log.cache.bufs;
    FewReferences(was, refs);
    assert b !in Pins(log.block, 0, log.n);
    var got := log.Get(b, multiset{}, {});
    i := got.value;
    assert multiset{} + multiset{b} == multiset{b};
  }

  /** log_write of that block, and brelse. */
  method LogNew(log: Log, i: nat, b: nat, ghost op: nat, ghost refs: set<nat>, ghost unused: map<nat, nat>)
    requires log.Inv(multiset{b}, {}) && log.Admission() && log.outstanding > 0 && log.n < LOGBLOCKS
    requires unused == log.unused && op in unused && unused[op] > 0 && b !in log.block[..log.n] && i < NBUF
    requires Caches(log.cache.bufs[i], ROOTDEV, b) && log.cache.bufs[i].valid && log.cache.bufs[i].refcnt == 1
    requires i in refs && Referenced(log.cache.bufs, refs)
    modifies log`n, log`block, log`unused
    modifies log.cache`bufs, log.cache`next, log.cache`prev, log.cache`order, log.cache`stamp, log.cache`clock
    ensures log.Inv(multiset{}, {}) && log.Admission() && Referenced(log.cache.bufs, refs)
    ensures log.n == old(log.n) + 1 && log.block[..log.n] == old(log.block)[..old(log.n)] + [b]
    ensures log.unused == unused[op := unused[op] - 1]
  {
    var r := log.LogWrite(i, op, multiset{b}, {});
    assert {} - {b} == {};
    assert multiset{b} - multiset{b} == multiset{};
    log.Put(i, multiset{b}, {});
  }

  /** bread, log_write and brelse of a block that is not logged yet. */
  method Append(log: Log, b: nat, ghost op: nat, ghost refs: set<nat>, ghost unused: map<nat, nat>)
    returns (ghost refs': set<nat>)
    requires log.Inv(multiset{}, {}) && log.Admission() && log.outstanding > 0 && log.n < LOGBLOCKS
    requires IsHome(log.start, |log.cache.disk|, b) && b !in log.block[..log.n]
    requires unused == log.unused && op in unused && unused[op] > 0
    requires |refs| == log.n && Referenced(log.cache.bufs, refs)
    modifies log`n, log`block, log`unused
    modifies log.cache`bufs, log.cache`next, log.cache`prev, log.cache`order, log.cache`stamp, log.cache`clock
    ensures log.Inv(multiset{}, {}) && log.Admission() && log.unused == unused[op := unused[op] - 1]
    ensures log.n == old(log.n) + 1 && log.block[..log.n] == old(log.block)[..old(log.n)] + [b]
    ensures |refs'| == log.n && Referenced(log.cache.bufs, refs')
  {
    var i := GetNew(log, b, refs);
    refs' := refs + {i};
    LogNew(log, i, b, op, refs', unused);
  }

  /** One block more. */
  method AppendOne(log: Log, k: nat, ghost op: nat, ghost refs: set<nat>) returns (ghost refs': set<nat>)
    requires Filled(log, k, refs) && k < LOGBLOCKS && op in log.unused && log.unused[op] > 0 && log.outstanding > 0
    modifies log`n, log`block, log`unused
    modifies log.cache`bufs, log.cache`next, log.cache`prev, log.cache`order, log.cache`stamp, log.cache`clock
    ensures Filled(log, k + 1, refs')
    ensures log.unused == old(log.unused)[op := old(log.unused)[op] - 1]
  {
    var b := log.start + LOGBLOCKS + 1 + k;
    ghost var list := log.block;
    NotListed(list, log.start, k, b);
    refs' := Append(log, b, op, refs, log.unused);
    ListedMore(list, log.block, log.start, k, b);
  }

  /** MAXOPBLOCKS blocks by one operation. */
  method AppendAll(log: Log, k: nat, ghost op: nat, ghost refs: set<nat>) returns (ghost refs': set<nat>)
    requires Filled(log, k, refs) && k + MAXOPBLOCKS <= LOGBLOCKS && log.outstanding > 0
    requires op in log.unused && log.unused[op] == MAXOPBLOCKS
    modifies log`n, log`block, log`unused
    modifies log.cache`bufs, log.cache`next, log.cache`prev, log.cache`order, log.cache`stamp, log.cache`clock
    ensures Filled(log, k + MAXOPBLOCKS, refs') && log.unused == old(log.unused)[op := 0]
  {
    refs' := refs;
    for j := 0 to MAXOPBLOCKS
      invariant Filled(log, k + j, refs') && log.unused == old(log.unused)[op := MAXOPBLOCKS - j]
    {
      refs' := AppendOne(log, k + j, op, refs');
    }
  }

  /** begin_op by one operation more, while the log is empty. */
  method AdmitOne(log: Log, ghost op: nat)
    requires Filled(log, 0, {}) && log.outstanding < 3 && op !in log.unused && log.ended == {}
    modifies log`outstanding, log`unused
    ensures Filled(log, 0, {}) && log.outstanding == old(log.outstanding) + 1
    ensures log.unused == old(log.unused)[op := MAXOPBLOCKS] && log.ended == {}
  {
    var admitted := log.BeginOp(op);
    assert log.Inv(multiset{}, {});
  }

  method Boot(start: nat, d: Image) returns (log: Log)
    requires Roomy(start, d)
    ensures fresh(log) && fresh(log.cache) && log.start == start && Filled(log, 0, {})
    ensures log.outstanding == 0 && log.unused == map[] && log.ended == {}
  {
    var cache := new BufferCache(d);
    log := new Log(cache, start);
    log.RecoverFromLog();
  }

  /** The budgets of k operations just admitted. */
  ghost function Budgets(k: nat): (m: map<nat, nat>)
    ensures forall op: nat :: op in m <==> op < k
    ensures forall op :: op in m ==> m[op] == MAXOPBLOCKS
  {
    if k == 0 then map[] else Budgets(k - 1)[k - 1 := MAXOPBLOCKS]
  }

  /** A machine that boots with disk d and admits k operations. */
  method Admit(start: nat, d: Image, k: nat) returns (log: Log)
    requires Roomy(start, d) && k <= 3
    ensures fresh(log) && fresh(log.cache) && log.start == start && Filled(log, 0, {})
    ensures log.outstanding == k && log.ended == {} && log.unused == Budgets(k)
  {
    if k == 0 {
      log := Boot(start, d);
    } else {
      log := Admit(start, d, k - 1);
      AdmitOne(log, k - 1);
    }
  }

  /** The budgets of three operations of which the first k have used theirs. */
  ghost function Spent(k: nat): (m: map<nat, nat>)
    requires k <= 3
    ensures forall op: nat :: op in m <==> op < 3
    ensures forall op :: op in m ==> m[op] == if op < k then 0 else MAXOPBLOCKS
  {
    if k == 0 then Budgets(3) else Spent(k - 1)[k - 1 := 0]
  }

  /** The next of the three operations appends all it may. */
  method FillNext(log: Log, k: nat, n: nat, ghost refs: set<nat>) returns (ghost refs': set<nat>)
    requires k < 3 && n == MAXOPBLOCKS * k && Filled(log, n, refs) && log.outstanding == 3 && log.unused == Spent(k)
    modifies log`n, log`block, log`unused
    modifies log.cache`bufs, log.cache`next, log.cache`prev, log.cache`order, log.cache`stamp, log.cache`clock
    ensures Filled(log, n + MAXOPBLOCKS, refs') && log.unused == Spent(k + 1)
  {
    refs' := AppendAll(log, n, k, refs);
  }

  /** Every disk with enough room comes to hold a full log: three operations are
      open, and k of them have appended all they may. */
  method Fill(start: nat, d: Image, k: nat) returns (log: Log, ghost refs: set<nat>)
    requires Roomy(start, d) && k <= 3
    ensures fresh(log) && fresh(log.cache) && log.start == start && Filled(log, MAXOPBLOCKS * k, refs)
    ensures log.outstanding == 3 && log.unused == Spent(k)
  {
    if k == 0 {
      log := Admit(start, d, 3);
      refs := {};
    } else {
      log, refs := Fill(start, d, k - 1);
      refs := FillNext(log, k - 1, MAXOPBLOCKS * (k - 1), refs);
    }
  }

  /** log_write panics on a block it would only have to absorb. */
  method AbsorbingPanics(start: nat, d: Image) returns (log: Log, i: nat, r: Outcome)
    requires Roomy(start, d)
    ensures log.outstanding == 3 && log.n == LOGBLOCKS == |log.block| && i < |log.cache.bufs|
    ensures log.cache.bufs[i].dev == ROOTDEV && log.cache.bufs[i].blockno in log.block && r == TooBig
  {
    ghost var refs;
    log, refs := Fill(start, d, 3);
    i := GetLogged(log, start + LOGBLOCKS + 1);
    r := log.LogWrite(i, 0, multiset{start + LOGBLOCKS + 1}, {});
  }

  /** bread of the first block logged. */
  method GetLogged(log: Log, b: nat) returns (i: nat)
    requires log.Inv(multiset{}, {}) && log.n > 0 && b == log.block[0]
    modifies log.cache`bufs
    ensures log.Inv(multiset{b}, {}) && i < |log.cache.bufs| == NBUF && b in log.block[..log.n]
    ensures Caches(log.cache.bufs[i], ROOTDEV, b) && log.cache.bufs[i].valid
  {
    assert log.block[..log.n][0] == b && b in Pins(log.block, 0, log.n) && Pinned(log.cache.bufs, b);
    var got := log.Get(b, multiset{}, {});
    i := got.value;
    assert multiset{} + multiset{b} == multiset{b};
  }

  /** end_op, after which nothing is held and nothing logged has changed. */
  method CloseOne(log: Log, ghost op: nat)
    requires log.Inv(multiset{}, {}) && log.Admission() && op in log.unused
    modifies log`outstanding, log`committing, log`unused, log`ended
    ensures log.Inv(multiset{}, {}) && log.Admission() && log.outstanding == old(log.outstanding) - 1
    ensures log.unused == old(log.unused) - {op} && log.committing == (log.outstanding == 0)
  {
    var doCommit := log.EndOp(op);
    assert log.Inv(multiset{}, {});
  }

  /** The operations still open after k of the three have ended. */
  function Open(k: nat): set<nat> {
    if k == 0 then {0, 1, 2} else if k == 1 then {1, 2} else if k == 2 then {2} else {}
  }

  /** The log is full, and k of the three operations have ended. */
  ghost predicate Closed(log: Log, k: nat)
    reads log, log.cache
  {
    && log.Inv(multiset{}, {}) && log.Admission() && log.n == LOGBLOCKS
    && k <= 3 && log.outstanding == 3 - k && log.committing == (k == 3) && log.unused.Keys == Open(k)
  }

  method CloseNext(log: Log, k: nat)
    requires Closed(log, k) && k < 3
    modifies log`outstanding, log`committing, log`unused, log`ended
    ensures Closed(log, k + 1)
  {
    assert k in Open(k) && Open(k) - {k} == Open(k + 1);
    CloseOne(log, k);
  }

  /** All three operations have filled the log and ended. */
  method Close(start: nat, d: Image) returns (log: Log)
    requires Roomy(start, d)
    ensures fresh(log) && fresh(log.cache) && Closed(log, 3)
  {
    ghost var refs;
    log, refs := Fill(start, d, 3);
    assert Closed(log, 0);
    CloseNext(log, 0);
    CloseNext(log, 1);
    CloseNext(log, 2);
  }

  /** The last end_op of a full log starts a commit that finds no buffer: the kernel
      panics with nothing written. */
  method FullCommitPanics(start: nat, d: Image) returns (log: Log, ok: bool)
    requires Roomy(start, d)
    ensures log.committing && log.outstanding == 0 && log.Admission() && log.n == LOGBLOCKS && !ok
  {
    log := Close(start, d);
    FullLogLeavesNoBuffer(log.cache.bufs, log.block, multiset{});
    ok := log.Commit(multiset{});
  }
}
