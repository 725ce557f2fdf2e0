/** The disk images a commit goes through, and what a crash in any of them
    recovers to. */
module LogProtocol {
  import opened Disk
  import opened LogFormat
  import opened Distinctness

  /** The in-memory header names n distinct home blocks. */
  ghost predicate Logged(start: nat, size: nat, block: seq<nat>, n: nat) {
    && n <= LOGBLOCKS == |block|
    && Distinct(block[..n])
    && forall i :: 0 <= i < n ==> IsHome(start, size, block[i])
  }

  lemma AppendLogged(start: nat, size: nat, block: seq<nat>, n: nat, b: nat)
    requires Logged(start, size, block, n) && n < LOGBLOCKS && IsHome(start, size, b) && b !in block[..n]
    ensures block[n := b][..n + 1] == block[..n] + [b]
    ensures Logged(start, size, block[n := b], n + 1)
  {
    var was, now := block[..n], block[n := b][..n + 1];
    assert now == was + [b];
  }

  /** `d` after the first k blocks listed in `block` were copied from `v` to the log. */
  ghost function LogCopied(start: nat, d: Image, v: Image, block: seq<nat>, k: nat): (r: Image)
    requires start + LOGBLOCKS < |d| == |v| && k <= LOGBLOCKS == |block|
    requires forall i :: 0 <= i < k ==> block[i] < |v|
    ensures |r| == |d| && r[start] == d[start]
  {
    if k == 0 then d else LogCopied(start, d, v, block, k - 1)[start + k := v[block[k - 1]]]
  }

  lemma {:induction false} LogCopiedAt(start: nat, d: Image, v: Image, block: seq<nat>, k: nat)
    requires start + LOGBLOCKS < |d| == |v| && k <= LOGBLOCKS == |block|
    requires forall i :: 0 <= i < k ==> block[i] < |v|
    ensures var r := LogCopied(start, d, v, block, k);
            && (forall b :: start < b <= start + k ==> r[b] == v[block[b - start - 1]])
            && (forall b :: 0 <= b < |d| && !(start < b <= start + k) ==> r[b] == d[b])
  {
    if k > 0 {
      LogCopiedAt(start, d, v, block, k - 1);
    }
  }

  /** The images after each of the first k block writes of write_log. */
  ghost function LogWrites(start: nat, d: Image, v: Image, block: seq<nat>, k: nat): (r: seq<Image>)
    requires start + LOGBLOCKS < |d| == |v| && k <= LOGBLOCKS == |block|
    requires forall i :: 0 <= i < k ==> block[i] < |v|
    ensures |r| == k && forall j :: 0 <= j < k ==> r[j] == LogCopied(start, d, v, block, j + 1)
  {
    if k == 0 then [] else LogWrites(start, d, v, block, k - 1) + [LogCopied(start, d, v, block, k)]
  }

  /** What one iteration of write_log adds. */
  lemma LogStep(start: nat, d: Image, v: Image, block: seq<nat>, k: nat, h: seq<Image>)
    requires start + LOGBLOCKS < |d| == |v| && k < LOGBLOCKS == |block|
    requires forall i :: 0 <= i <= k ==> block[i] < |v|
    requires IsHome(start, |v|, block[k])
    ensures LogCopied(start, v, v, block, k)[block[k]] == v[block[k]]
    ensures LogCopied(start, d, v, block, k + 1) == LogCopied(start, d, v, block, k)[start + k + 1 := v[block[k]]]
    ensures LogCopied(start, v, v, block, k + 1) == LogCopied(start, v, v, block, k)[start + k + 1 := v[block[k]]]
    ensures h + LogWrites(start, d, v, block, k + 1)
         == h + LogWrites(start, d, v, block, k) + [LogCopied(start, d, v, block, k + 1)]
  {
    LogCopiedAt(start, v, v, block, k);
  }

  /** Header words after writing the count and the first k block numbers. */
  function HeaderWords(words: seq<int>, n: int, block: seq<nat>, k: nat): (r: seq<int>)
    requires |words| == WORDS && k <= LOGBLOCKS == |block|
    ensures |r| == WORDS && r[0] == n
    ensures forall i :: 0 <= i < k ==> r[1 + i] == block[i]
    ensures forall i :: k < i < WORDS ==> r[i] == words[i]
  {
    if k == 0 then words[0 := n] else HeaderWords(words, n, block, k - 1)[k := block[k - 1]]
  }

  /** `d` with its header rewritten by write_head. */
  function HeaderWritten(start: nat, d: Image, n: nat, block: seq<nat>): (r: Image)
    requires Fits(start, d) && n <= LOGBLOCKS == |block|
    ensures |r| == |d| && Fits(start, r) && Count(start, r) == n
    ensures forall i :: 0 <= i < n ==> Entry(start, r, i) == block[i]
    ensures forall b :: 0 <= b < |d| && b != start ==> r[b] == d[b]
  {
    d[start := Block(HeaderWords(d[start].words, n, block, n))]
  }

  /** `d` after the first k log blocks of `v` were copied home. */
  ghost function Installed(start: nat, d: Image, v: Image, block: seq<nat>, k: nat): (r: Image)
    requires start + LOGBLOCKS < |d| == |v| && k <= LOGBLOCKS == |block|
    requires forall i :: 0 <= i < k ==> IsHome(start, |d|, block[i])
    ensures |r| == |d|
    ensures SameLog(start, r, d)
  {
    if k == 0 then d
    else
      assert IsHome(start, |d|, block[k - 1]);
      Installed(start, d, v, block, k - 1)[block[k - 1] := v[start + k]]
  }

  /** The images after each of the first k block writes of install_trans. */
  ghost function InstallWrites(start: nat, d: Image, v: Image, block: seq<nat>, k: nat): (r: seq<Image>)
    requires start + LOGBLOCKS < |d| == |v| && k <= LOGBLOCKS == |block|
    requires forall i :: 0 <= i < k ==> IsHome(start, |d|, block[i])
    ensures |r| == k && forall j :: 0 <= j < k ==> r[j] == Installed(start, d, v, block, j + 1)
  {
    if k == 0 then [] else InstallWrites(start, d, v, block, k - 1) + [Installed(start, d, v, block, k)]
  }

  /** What one iteration of install_trans adds. */
  lemma InstallStep(start: nat, d: Image, v: Image, block: seq<nat>, k: nat, h: seq<Image>)
    requires start + LOGBLOCKS < |d| == |v| && k < LOGBLOCKS == |block|
    requires forall i :: 0 <= i <= k ==> IsHome(start, |d|, block[i])
    ensures Installed(start, v, v, block, k)[start + k + 1] == v[start + k + 1]
    ensures Installed(start, d, v, block, k + 1) == Installed(start, d, v, block, k)[block[k] := v[start + k + 1]]
    ensures Installed(start, v, v, block, k + 1) == Installed(start, v, v, block, k)[block[k] := v[start + k + 1]]
    ensures h + InstallWrites(start, d, v, block, k + 1)
         == h + InstallWrites(start, d, v, block, k) + [Installed(start, d, v, block, k + 1)]
  {
  }

  ghost predicate RecoversTo(start: nat, d: Image, target: Image) {
    |d| == |target| && WellFormed(start, d) && SameHome(start, Recover(start, d), target)
  }

  lemma HeaderWellFormed(start: nat, d: Image, n: nat, block: seq<nat>)
    requires Fits(start, d) && Logged(start, |d|, block, n)
    ensures WellFormed(start, HeaderWritten(start, d, n, block))
  {
    var r := HeaderWritten(start, d, n, block);
    forall i | 0 <= i < Count(start, r)
      ensures IsHome(start, |r|, Entry(start, r, i))
    {
      assert Entry(start, r, i) == block[i];
    }
  }

  /** Before the header says otherwise, recovery finds an empty log. */
  lemma EmptyLogRecovers(start: nat, d: Image, target: Image)
    requires Fits(start, d) && Count(start, d) == 0 && SameHome(start, d, target)
    ensures RecoversTo(start, d, target)
  {
  }

  /** Installing is replaying, once the disk's header and log say the same. */
  lemma {:induction false} InstalledIsReplay(start: nat, d: Image, v: Image, block: seq<nat>, n: nat, k: nat)
    requires WellFormed(start, d) && |v| == |d| && n == Count(start, d) && k <= n && |block| == LOGBLOCKS
    requires forall i :: 0 <= i < n ==> Entry(start, d, i) == block[i]
    requires forall b :: start < b <= start + n ==> v[b] == d[b]
    requires forall i :: 0 <= i < k ==> IsHome(start, |d|, block[i])
    ensures Installed(start, d, v, block, k) == Replay(start, d, d, k)
  {
    if k > 0 {
      InstalledIsReplay(start, d, v, block, n, k - 1);
      assert Entry(start, d, k - 1) == block[k - 1];
    }
  }

  /** The disk at the moment the header is written: the log holds the new
      contents of every block that is not yet home. */
  ghost predicate Committed(start: nat, d: Image, v: Image, block: seq<nat>, n: nat) {
    && |v| == |d| && WellFormed(start, d) && Logged(start, |d|, block, n) && n == Count(start, d)
    && (forall i :: 0 <= i < n ==> Entry(start, d, i) == block[i] && d[start + 1 + i] == v[block[i]])
    && (forall b :: IsHome(start, |d|, b) && b !in block[..n] ==> d[b] == v[b])
  }

  /** Writing the header is the commit point: from here recovery yields v. */
  lemma CommitPoint(start: nat, d: Image, v: Image, block: seq<nat>, n: nat)
    requires Committed(start, d, v, block, n)
    ensures RecoversTo(start, d, v)
  {
    forall b | IsHome(start, |d|, b)
      ensures Recover(start, d)[b] == v[b]
    {
      ReplayAt(start, d, d, n, b);
      var i := LastEntry(start, d, n, b);
      if i < n {
        assert Entry(start, d, i) == block[i] && d[start + 1 + i] == v[block[i]];
      } else {
        assert forall j :: 0 <= j < n ==> block[j] != b;
      }
    }
  }

  /** ... and still does after any number of installed blocks. */
  lemma InstallRecovers(start: nat, d: Image, v: Image, block: seq<nat>, n: nat, k: nat)
    requires Committed(start, d, v, block, n) && k <= n
    ensures RecoversTo(start, Replay(start, d, d, k), v)
  {
    CommitPoint(start, d, v, block, n);
    ReplayAgain(start, d, k);
  }

  /** The images after each block write of commit(), from disk d and cached
      contents v: the log blocks, the header, the home blocks, the header. */
  ghost function CommitState(start: nat, d: Image, v: Image, block: seq<nat>, n: nat, k: nat): Image
    requires Fits(start, d) && |d| == |v| && Logged(start, |d|, block, n) && k <= 2 * n + 1
  {
    if k < n then LogCopied(start, d, v, block, k + 1)
    else
      var c := HeaderWritten(start, LogCopied(start, d, v, block, n), n, block);
      if k <= 2 * n then Installed(start, c, c, block, k - n)
      else HeaderWritten(start, Installed(start, c, c, block, n), 0, block)
  }

  /** Crash atomicity of commit: a crash after any of its first n writes
      recovers to the old contents, after any later one to the new contents. */
  lemma CommitAtomic(start: nat, d: Image, v: Image, block: seq<nat>, n: nat, k: nat)
    requires Fits(start, d) && Count(start, d) == 0 && |d| == |v| && Logged(start, |d|, block, n)
    requires forall b :: IsHome(start, |d|, b) && d[b] != v[b] ==> b in block[..n]
    requires k <= 2 * n + 1
    ensures RecoversTo(start, CommitState(start, d, v, block, n, k), if k < n then d else v)
  {
    if k < n {
      var s := LogCopied(start, d, v, block, k + 1);
      LogCopiedAt(start, d, v, block, k + 1);
      assert s[start] == d[start];
      EmptyLogRecovers(start, s, d);
    } else {
      var c := HeaderWritten(start, LogCopied(start, d, v, block, n), n, block);
      HeaderCommits(start, d, v, block, n, c);
      var j := if k <= 2 * n then k - n else n;
      InstalledIsReplay(start, c, c, block, n, j);
      InstallRecovers(start, c, v, block, n, j);
      if k > 2 * n {
        ClearedRecovers(start, c, v, block, n);
      }
    }
  }

  /** With the log written, the header write commits. */
  lemma HeaderCommits(start: nat, d: Image, v: Image, block: seq<nat>, n: nat, c: Image)
    requires Fits(start, d) && |d| == |v| && Logged(start, |d|, block, n)
    requires forall b :: IsHome(start, |d|, b) && d[b] != v[b] ==> b in block[..n]
    requires c == HeaderWritten(start, LogCopied(start, d, v, block, n), n, block)
    ensures Committed(start, c, v, block, n)
  {
    var l := LogCopied(start, d, v, block, n);
    LogCopiedAt(start, d, v, block, n);
    HeaderWellFormed(start, l, n, block);
    assert forall b :: IsHome(start, |d|, b) ==> c[b] == d[b];
    forall i | 0 <= i < n
      ensures Entry(start, c, i) == block[i] && c[start + 1 + i] == v[block[i]]
    {
      assert c[start + 1 + i] == l[start + 1 + i];
    }
  }

  /** The header cleared, after everything is installed. */
  lemma ClearedRecovers(start: nat, c: Image, v: Image, block: seq<nat>, n: nat)
    requires Committed(start, c, v, block, n) && n <= LOGBLOCKS == |block|
    ensures RecoversTo(start, HeaderWritten(start, Replay(start, c, c, n), 0, block), v)
  {
    EmptyLogRecovers(start, HeaderWritten(start, Replay(start, c, c, n), 0, block), Recover(start, c));
    CommitPoint(start, c, v, block, n);
  }

  /** All the images of a commit, in order. */
  ghost function CommitStates(start: nat, d: Image, v: Image, block: seq<nat>, n: nat): (r: seq<Image>)
    requires Fits(start, d) && |d| == |v| && Logged(start, |d|, block, n)
  {
    var c := HeaderWritten(start, LogCopied(start, d, v, block, n), n, block);
    LogWrites(start, d, v, block, n) + [c] + InstallWrites(start, c, c, block, n)
      + [HeaderWritten(start, Installed(start, c, c, block, n), 0, block)]
  }

  lemma CommitStateAt(start: nat, d: Image, v: Image, block: seq<nat>, n: nat, k: nat)
    requires Fits(start, d) && |d| == |v| && Logged(start, |d|, block, n) && k <= 2 * n + 1
    ensures |CommitStates(start, d, v, block, n)| == 2 * n + 2
    ensures CommitStates(start, d, v, block, n)[k] == CommitState(start, d, v, block, n, k)
  {
    var c := HeaderWritten(start, LogCopied(start, d, v, block, n), n, block);
    var logging, installing := LogWrites(start, d, v, block, n), InstallWrites(start, c, c, block, n);
    var h := CommitStates(start, d, v, block, n);
    assert |h| == 2 * n + 2;
    if k < n {
      assert h[k] == logging[k];
    } else if n < k <= 2 * n {
      assert h[k] == installing[k - n - 1];
    }
  }

  /** Crash atomicity of commit(): see CommitAtomic. */
  lemma CommitStatesAtomic(start: nat, d: Image, v: Image, block: seq<nat>, n: nat)
    requires Fits(start, d) && Count(start, d) == 0 && |d| == |v| && Logged(start, |d|, block, n)
    requires forall b :: IsHome(start, |d|, b) && d[b] != v[b] ==> b in block[..n]
    ensures var h := CommitStates(start, d, v, block, n);
            && |h| == 2 * n + 2
            && (forall k :: 0 <= k < n ==> RecoversTo(start, h[k], d))
            && (forall k :: n <= k < |h| ==> RecoversTo(start, h[k], v))
            && Count(start, h[2 * n + 1]) == 0 && SameHome(start, h[2 * n + 1], v)
  {
    var h := CommitStates(start, d, v, block, n);
    assert |h| == 2 * n + 2;
    forall k | 0 <= k < 2 * n + 2
      ensures RecoversTo(start, h[k], if k < n then d else v)
    {
      CommitStateAt(start, d, v, block, n, k);
      CommitAtomic(start, d, v, block, n, k);
    }
    CommitStateAt(start, d, v, block, n, 2 * n + 1);
  }

  /** The whole of it: whatever write of a commit the machine crashes after, and
      however often it crashes again while recovering, the first recovery to complete
      leaves all the old contents, or all the new ones from the header write on. */
  lemma CrashAnywhere(start: nat, d: Image, v: Image, block: seq<nat>, n: nat, k: nat, chain: seq<Image>)
    requires Fits(start, d) && Count(start, d) == 0 && |d| == |v| && Logged(start, |d|, block, n)
    requires forall b :: IsHome(start, |d|, b) && d[b] != v[b] ==> b in block[..n]
    requires k < |CommitStates(start, d, v, block, n)| && CrashChain(start, chain)
    requires chain[0] == CommitStates(start, d, v, block, n)[k]
    ensures var last := chain[|chain| - 1];
            WellFormed(start, last) && SameHome(start, Recover(start, last), if k < n then d else v)
  {
    CommitStatesAtomic(start, d, v, block, n);
    AnyNumberOfCrashes(start, chain);
  }

  /** install_trans reads the log through the cache; what it reads is what the
      disk holds, so it writes what Installed says of the disk alone. */
  lemma {:induction false} InstallFromCache(start: nat, d: Image, v: Image, block: seq<nat>, k: nat)
    requires start + LOGBLOCKS < |d| == |v| && k <= LOGBLOCKS == |block|
    requires forall i :: 0 <= i < k ==> IsHome(start, |d|, block[i])
    requires forall b :: start < b <= start + k ==> v[b] == d[b]
    ensures Installed(start, d, v, block, k) == Installed(start, d, d, block, k)
    ensures InstallWrites(start, d, v, block, k) == InstallWrites(start, d, d, block, k)
  {
    if k > 0 {
      InstallFromCache(start, d, v, block, k - 1);
    }
  }

  /** The log blocks hold the logged blocks' contents, in the cache as on disk. */
  ghost predicate Mirrored(start: nat, c: Image, w: Image, block: seq<nat>, n: nat)
    requires n <= LOGBLOCKS == |block|
  {
    && start + LOGBLOCKS < |c| == |w|
    && (forall i :: 0 <= i < n ==> block[i] < |w| && w[block[i]] == w[start + 1 + i])
    && (forall b :: start < b <= start + n ==> w[b] == c[b])
  }

  /** Once the header is on disk, the cache still shows the new contents, and
      the log blocks hold them both in the cache and on disk. */
  lemma AfterCommitPoint(start: nat, d: Image, v: Image, block: seq<nat>, n: nat)
    requires Fits(start, d) && |d| == |v| && Logged(start, |d|, block, n)
    ensures var c := HeaderWritten(start, LogCopied(start, d, v, block, n), n, block);
            var w := LogCopied(start, v, v, block, n)[start := c[start]];
            SameHome(start, w, v) && Mirrored(start, c, w, block, n)
  {
    LogCopiedAt(start, v, v, block, n);
    LogCopiedAt(start, d, v, block, n);
    var l, m := LogCopied(start, d, v, block, n), LogCopied(start, v, v, block, n);
    forall i | 0 <= i < n
      ensures m[block[i]] == m[start + 1 + i]
    {
      assert IsHome(start, |d|, block[i]);
    }
  }

  /** The last image of a commit: an empty log and the new contents at home. */
  lemma CommitEnds(start: nat, d: Image, v: Image, block: seq<nat>, n: nat)
    requires Fits(start, d) && Count(start, d) == 0 && |d| == |v| && Logged(start, |d|, block, n)
    requires forall b :: IsHome(start, |d|, b) && d[b] != v[b] ==> b in block[..n]
    ensures var c := HeaderWritten(start, LogCopied(start, d, v, block, n), n, block);
            var e := HeaderWritten(start, Installed(start, c, c, block, n), 0, block);
            Fits(start, e) && Count(start, e) == 0 && SameHome(start, e, v)
  {
    CommitAtomic(start, d, v, block, n, 2 * n + 1);
  }

  lemma CommitHistory(start: nat, d: Image, v: Image, block: seq<nat>, n: nat, h: seq<Image>)
    requires Fits(start, d) && |d| == |v| && Logged(start, |d|, block, n)
    ensures var c := HeaderWritten(start, LogCopied(start, d, v, block, n), n, block);
            h + LogWrites(start, d, v, block, n) + [c] + InstallWrites(start, c, c, block, n)
              + [HeaderWritten(start, Installed(start, c, c, block, n), 0, block)]
            == h + CommitStates(start, d, v, block, n)
  {
    var c := HeaderWritten(start, LogCopied(start, d, v, block, n), n, block);
    Regroup(h, LogWrites(start, d, v, block, n), [c], InstallWrites(start, c, c, block, n),
            [HeaderWritten(start, Installed(start, c, c, block, n), 0, block)]);
  }

  lemma Regroup<T>(h: seq<T>, a: seq<T>, b: seq<T>, c: seq<T>, d: seq<T>)
    ensures h + a + b + c + d == h + (a + b + c + d)
  {
  }
}
