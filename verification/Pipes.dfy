/** xv6/kernel/pipe.c: a ring of PIPESIZE bytes between free-running 32-bit counters.
    A method is what pipewrite or piperead does from taking the lock to releasing it;
    between two such sections any others may run. */
module Pipes {

  const PIPESIZE := 512
  const WORD := 0x1_0000_0000

  datatype Outcome = Returned(value: int) | Asleep

  /** Byte counts that differ by no more than the ring have distinct counters. */
  lemma CountersTell(m: nat, n: nat)
    requires m <= n <= m + PIPESIZE
    ensures m % WORD == n % WORD <==> m == n
    ensures n % WORD == (m % WORD + PIPESIZE) % WORD <==> n == m + PIPESIZE
    ensures n % WORD % PIPESIZE == n % PIPESIZE && (n % WORD + 1) % WORD == (n + 1) % WORD
  {
    CounterSlot(n);
    CounterSum(m, PIPESIZE);
    CounterSum(n, 1);
    CounterEqual(m, n);
    CounterEqual(n, m + PIPESIZE);
  }

  lemma CounterSlot(n: nat)
    ensures n % WORD % PIPESIZE == n % PIPESIZE
  {
    var q := n / WORD;
    assert n == q * WORD + n % WORD && WORD == 0x80_0000 * PIPESIZE;
    assert n % WORD == (n % WORD / PIPESIZE) * PIPESIZE + n % WORD % PIPESIZE;
    Multiple(q * 0x80_0000 + n % WORD / PIPESIZE, n % WORD % PIPESIZE);
  }

  lemma Multiple(q: nat, r: nat)
    requires r < PIPESIZE
    ensures (q * PIPESIZE + r) % PIPESIZE == r
  {
  }

  lemma CounterSum(m: nat, k: nat)
    requires k <= PIPESIZE
    ensures (m % WORD + k) % WORD == (m + k) % WORD
  {
  }

  lemma CounterEqual(m: nat, n: nat)
    requires m <= n <= m + PIPESIZE
    ensures m % WORD == n % WORD <==> m == n
  {
  }

  class Pipe {
    var data: seq<bv8>
    var nread: nat
    var nwrite: nat
    var readopen: bool
    var writeopen: bool
    ghost var accepted: seq<bv8>    // all bytes ever put in
    ghost var delivered: seq<bv8>   // all bytes ever taken out

    /** Bytes come out in the order they went in; those still inside are the ring's. */
    ghost predicate Valid()
      reads this
    {
      && |data| == PIPESIZE && |delivered| <= |accepted| <= |delivered| + PIPESIZE
      && nread == |delivered| % WORD && nwrite == |accepted| % WORD
      && delivered == accepted[..|delivered|]
      && (forall k {:trigger accepted[k]} :: |delivered| <= k < |accepted| ==> data[k % PIPESIZE] == accepted[k])
    }

    /** pipealloc. */
    constructor ()
      ensures Valid() && accepted == [] && delivered == [] && readopen && writeopen
    {
      data := seq(PIPESIZE, _ => 0);
      nread, nwrite, readopen, writeopen := 0, 0, true, true;
      accepted, delivered := [], [];
    }

    /** pipeclose: true if that was the last end, and the pipe's page is freed. */
    method Close(writable: bool) returns (gone: bool)
      requires Valid()
      modifies `readopen, `writeopen
      ensures Valid() && readopen == (old(readopen) && writable) && writeopen == (old(writeopen) && !writable)
      ensures gone <==> !readopen && !writeopen
    {
      if writable {
        writeopen := false;
      } else {
        readopen := false;
      }
      gone := !readopen && !writeopen;
    }

    /** pi->data[pi->nwrite++ % PIPESIZE] = ch. */
    method Put(ch: bv8)
      requires Valid() && |accepted| < |delivered| + PIPESIZE
      modifies `data, `nwrite, `accepted
      ensures Valid() && accepted == old(accepted) + [ch]
    {
      CountersTell(|accepted|, |accepted|);
      ghost var n := |accepted|;
      data := data[nwrite % PIPESIZE := ch];
      nwrite := (nwrite + 1) % WORD;
      accepted := accepted + [ch];
      forall k | |delivered| <= k < |accepted|
        ensures data[k % PIPESIZE] == accepted[k]
      {
        if k < n {
          SlotsApart(k, n);
          assert old(accepted)[k] == accepted[k];
        }
      }
    }

    /** pi->nwrite == pi->nread + PIPESIZE. */
    method Full() returns (full: bool)
      requires Valid()
      ensures full <==> |accepted| == |delivered| + PIPESIZE
    {
      CountersTell(|delivered|, |accepted|);
      full := nwrite == (nread + PIPESIZE) % WORD;
    }

    /** pi->nread == pi->nwrite. */
    method Empty() returns (empty: bool)
      requires Valid()
      ensures empty <==> |accepted| == |delivered|
    {
      CountersTell(|delivered|, |accepted|);
      empty := nread == nwrite;
    }

    /** pi->data[pi->nread % PIPESIZE]. */
    method Peek() returns (ch: bv8)
      requires Valid() && |delivered| < |accepted|
      ensures ch == accepted[|delivered|]
    {
      CounterSlot(|delivered|);
      ch := data[nread % PIPESIZE];
    }

    /** pi->nread++. */
    method Advance(ghost ch: bv8)
      requires Valid() && |delivered| < |accepted| && ch == accepted[|delivered|]
      modifies `nread, `delivered
      ensures Valid() && delivered == old(delivered) + [ch]
    {
      CounterSum(|delivered|, 1);
      delivered := delivered + [ch];
      nread := (nread + 1) % WORD;
    }

    /** pipewrite from byte i of src on, until it returns or sleeps. `readable` is how
        many bytes of src can be read. */
    method Write(src: seq<bv8>, start: nat, readable: nat, killed: bool) returns (i: nat, r: Outcome)
      requires Valid() && start <= |src|
      modifies `data, `nwrite, `accepted
      ensures Valid() && start <= i <= |src| && accepted == old(accepted) + src[start..i]
      ensures r == Asleep ==> i < |src| && readopen && !killed && |accepted| == |delivered| + PIPESIZE
      ensures r == Returned(-1) ==> i < |src| && (!readopen || killed || (i == 0 && readable == 0))
      ensures r.Returned? && r.value != -1 ==> r.value == i && (i == |src| || i >= readable)
    {
      i := start;
      assert src[start..i] == [];
      while i < |src|
        invariant start <= i <= |src| && Valid() && accepted == old(accepted) + src[start..i]
      {
        if !readopen || killed {
          return i, Returned(-1);
        }
        var full := Full();
        if full {
          return i, Asleep;
        }
        if i >= readable {
          return i, Returned(if i == 0 then -1 else i);
        }
        Put(src[i]);
        assert src[start..i] + [src[i]] == src[start..i + 1];
        i := i + 1;
      }
      r := Returned(i);
    }

    /** piperead of up to n bytes, until it returns or sleeps. `room` is how many bytes
        the destination can take. */
    method Read(n: nat, room: nat, killed: bool) returns (dst: seq<bv8>, r: Outcome)
      requires Valid()
      modifies `nread, `delivered
      ensures Valid() && delivered == old(delivered) + dst
      ensures r == Asleep ==> dst == [] && |accepted| == |delivered| && writeopen && !killed
      ensures r == Returned(-1) ==>
                dst == [] && ((|accepted| == |delivered| && writeopen && killed) || (room == 0 && n > 0))
      ensures r.Returned? && r.value != -1 ==>
                r.value == |dst| && (|dst| == n || |accepted| == |delivered| || |dst| >= room > 0)
    {
      dst := [];
      var empty := Empty();
      if empty && writeopen {
        return [], if killed then Returned(-1) else Asleep;
      }
      var i := 0;
      while i < n
        invariant 0 <= i <= n && |dst| == i && Valid() && delivered == old(delivered) + dst
        invariant i > 0 ==> i <= room
      {
        empty := Empty();
        if empty {
          break;
        }
        var ch := Peek();
        if i >= room {
          return dst, Returned(if i == 0 then -1 else i);
        }
        dst := dst + [ch];
        Advance(ch);
        i := i + 1;
      }
      r := Returned(i);
    }
  }

  /** Less than a ring apart, two bytes have two slots. */
  lemma SlotsApart(k: nat, n: nat)
    requires k < n < k + PIPESIZE
    ensures k % PIPESIZE != n % PIPESIZE
  {
  }
}
