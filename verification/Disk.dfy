/** Kernel parameters (xv6/kernel/param.h, xv6/kernel/fs.h) and the disk as a
    sequence of blocks of 32-bit words. */
module Disk {
  const MAXOPBLOCKS := 10
  const LOGBLOCKS := 30
  const NBUF := 30
  const ROOTDEV := 1
  const WORDS := 256

  /** A block's contents as 32-bit words. Every block has WORDS of them; only
      the log header is ever read as words, and LogFormat says so there. */
  datatype Block = Block(words: seq<int>)

  type Image = seq<Block>
}

/** The on-disk log: its layout, what its header says, and what recovering from
    it means. The log occupies blocks start .. start + LOGBLOCKS: one header
    block followed by LOGBLOCKS log blocks. */
module LogFormat {
  import opened Disk

  /** The log area fits on the disk, with a whole block for the header. */
  predicate Fits(start: nat, d: Image) {
    start + LOGBLOCKS < |d| && |d[start].words| == WORDS
  }

  /** A block outside the log area, the only kind a transaction may update. */
  predicate IsHome(start: nat, size: nat, b: int) {
    0 <= b < size && !(start <= b <= start + LOGBLOCKS)
  }

  /** The header's entry count and its i-th home block number. */
  function Count(start: nat, d: Image): int
    requires Fits(start, d)
  {
    d[start].words[0]
  }

  function Entry(start: nat, d: Image, i: nat): int
    requires Fits(start, d) && i < LOGBLOCKS
  {
    d[start].words[1 + i]
  }

  predicate WellFormed(start: nat, d: Image) {
    && Fits(start, d)
    && 0 <= Count(start, d) <= LOGBLOCKS
    && forall i :: 0 <= i < Count(start, d) ==> IsHome(start, |d|, Entry(start, d, i))
  }

  /** The two images agree on every home block. */
  ghost predicate SameHome(start: nat, d: Image, e: Image) {
    |d| == |e| && forall b :: IsHome(start, |d|, b) ==> d[b] == e[b]
  }

  /** The two images agree on the whole log area. */
  ghost predicate SameLog(start: nat, d: Image, e: Image) {
    |d| == |e| && forall b :: start <= b <= start + LOGBLOCKS && b < |d| ==> d[b] == e[b]
  }

  /** Copy the first k logged blocks of `src` to their home locations in `d`. */
  function Replay(start: nat, d: Image, src: Image, k: nat): (r: Image)
    requires |d| == |src| && WellFormed(start, src) && k <= Count(start, src)
    ensures SameLog(start, r, d)
  {
    if k == 0 then d
    else Replay(start, d, src, k - 1)[Entry(start, src, k - 1) := src[start + k]]
  }

  function ClearCount(start: nat, d: Image): (r: Image)
    requires Fits(start, d)
    ensures SameHome(start, r, d) && Fits(start, r) && Count(start, r) == 0
  {
    d[start := Block(d[start].words[0 := 0])]
  }

  /** What a completed recovery leaves on the disk. */
  function Recover(start: nat, d: Image): (r: Image)
    requires WellFormed(start, d)
    ensures |r| == |d| && WellFormed(start, r)
  {
    ClearCount(start, Replay(start, d, d, Count(start, d)))
  }

  /** The images the disk goes through while recovery runs on `d`: one after
      each block write, in order. */
  function RecoveryWrites(start: nat, d: Image, k: nat): (h: seq<Image>)
    requires WellFormed(start, d) && k <= Count(start, d)
    ensures |h| == k
    ensures forall j :: 0 <= j < k ==> h[j] == Replay(start, d, d, j + 1)
  {
    if k == 0 then [] else RecoveryWrites(start, d, k - 1) + [Replay(start, d, d, k)]
  }

  function RecoveryStates(start: nat, d: Image): (h: seq<Image>)
    requires WellFormed(start, d)
  {
    RecoveryWrites(start, d, Count(start, d)) + [Recover(start, d)]
  }

  /** The last of the first k entries naming block b, or k if there is none. */
  function LastEntry(start: nat, src: Image, k: nat, b: nat): (i: nat)
    requires WellFormed(start, src) && k <= Count(start, src)
    ensures i < k ==> Entry(start, src, i) == b
    ensures forall j :: (if i < k then i + 1 else 0) <= j < k ==> Entry(start, src, j) != b
    ensures i <= k
  {
    if k == 0 then 0
    else if Entry(start, src, k - 1) == b then k - 1
    else var i := LastEntry(start, src, k - 1, b);
         if i == k - 1 then k else i
  }

  /** Block by block, replaying writes the last logged copy of b, or leaves b alone. */
  lemma {:induction false} ReplayAt(start: nat, d: Image, src: Image, k: nat, b: nat)
    requires |d| == |src| && WellFormed(start, src) && k <= Count(start, src)
    requires b < |d|
    ensures var i := LastEntry(start, src, k, b);
            Replay(start, d, src, k)[b] == if i < k then src[start + i + 1] else d[b]
  {
    if k > 0 {
      ReplayAt(start, d, src, k - 1, b);
    }
  }

  /** Redo is idempotent: replaying the whole log over a disk on which a prefix
      was already replayed gives what replaying it once gives. */
  lemma ReplayAgain(start: nat, d: Image, j: nat)
    requires WellFormed(start, d) && j <= Count(start, d)
    ensures var r := Replay(start, d, d, j);
            WellFormed(start, r) && Count(start, r) == Count(start, d)
            && Replay(start, r, r, Count(start, r)) == Replay(start, d, d, Count(start, d))
  {
    var r := Replay(start, d, d, j);
    var n := Count(start, d);
    SameHeader(start, d, r);
    forall b | 0 <= b < |d|
      ensures Replay(start, r, r, n)[b] == Replay(start, d, d, n)[b]
    {
      ReplayAgainAt(start, d, r, n, j, b);
    }
  }

  lemma {:induction false} ReplayAgainAt(start: nat, d: Image, r: Image, n: nat, j: nat, b: nat)
    requires WellFormed(start, d) && WellFormed(start, r) && r[start] == d[start] && |r| == |d|
    requires n == Count(start, d) == Count(start, r) && j <= n && b < |d| && r == Replay(start, d, d, j)
    ensures Replay(start, r, r, n)[b] == Replay(start, d, d, n)[b]
  {
    ReplayAt(start, r, r, n, b);
    ReplayAt(start, d, d, n, b);
    SameLastEntry(start, d, r, n, b);
    var i := LastEntry(start, d, n, b);
    if i < n {
      ReplayAt(start, d, d, j, start + i + 1);
    } else {
      ReplayAt(start, d, d, j, b);
      LastEntryMonotone(start, d, j, n, b);
    }
  }

  lemma SameHeader(start: nat, d: Image, e: Image)
    requires WellFormed(start, d) && |d| == |e| && d[start] == e[start]
    ensures WellFormed(start, e) && Count(start, e) == Count(start, d)
  {
    forall i | 0 <= i < Count(start, e)
      ensures IsHome(start, |e|, Entry(start, e, i))
    {
      assert Entry(start, e, i) == Entry(start, d, i);
    }
  }

  lemma {:induction false} SameLastEntry(start: nat, d: Image, e: Image, k: nat, b: nat)
    requires WellFormed(start, d) && WellFormed(start, e) && d[start] == e[start]
    requires k <= Count(start, d)
    ensures LastEntry(start, d, k, b) == LastEntry(start, e, k, b)
  {
    if k > 0 {
      SameLastEntry(start, d, e, k - 1, b);
    }
  }

  lemma LastEntryMonotone(start: nat, d: Image, j: nat, n: nat, b: nat)
    requires WellFormed(start, d) && j <= n <= Count(start, d)
    ensures LastEntry(start, d, j, b) < j ==> LastEntry(start, d, n, b) < n
  {
  }

  /** A crash after any write of a recovery loses nothing: recovering again ends
      in the same home contents. */
  lemma CrashInRecovery(start: nat, d: Image, j: nat)
    requires WellFormed(start, d) && j < |RecoveryStates(start, d)|
    ensures var e := RecoveryStates(start, d)[j];
            |e| == |d| && WellFormed(start, e)
            && SameHome(start, Recover(start, e), Recover(start, d))
  {
    var n := Count(start, d);
    if j < n {
      ReplayAgain(start, d, j + 1);
    }
  }

  /** A history of boots, each cut short by a crash after one of its recovery's
      writes; the next boot starts from the disk the crash left. */
  predicate CrashChain(start: nat, chain: seq<Image>) {
    && |chain| > 0
    && WellFormed(start, chain[0])
    && (|chain| > 1 ==> chain[1] in RecoveryStates(start, chain[0]) && CrashChain(start, chain[1..]))
  }

  /** However many boots crash part way through recovery, the first recovery to
      complete leaves the home blocks the very first one would have left. */
  lemma {:induction false} AnyNumberOfCrashes(start: nat, chain: seq<Image>)
    requires CrashChain(start, chain)
    ensures var last := chain[|chain| - 1];
            WellFormed(start, last)
            && SameHome(start, Recover(start, last), Recover(start, chain[0]))
  {
    if |chain| > 1 {
      AnyNumberOfCrashes(start, chain[1..]);
      var d := chain[0];
      var j :| 0 <= j < |RecoveryStates(start, d)| && RecoveryStates(start, d)[j] == chain[1];
      CrashInRecovery(start, d, j);
    }
  }
}
