/** xv6/kernel/fs.c: block allocation, block mapping, truncation, reading and
    writing of inodes, over a plain block store, with the inode's lock held. */
module Fs {
  import opened Bytes
  import opened Distinctness
  import Disk
  import opened Files

  class FileSystem {
    var bitmap: Bitmap
    var data: Blocks           // blocks read as bytes
    var ind: Indirect          // blocks read as addresses
    var inodes: Inodes
    const bmapstart: nat
    const inodestart: nat
    var dinodes: Inodes        // the inodes on disk
    ghost var use: Uses
    ghost var logged: set<nat> // blocks passed to log_write in this transaction

    ghost predicate Blocky()
      reads `data, `use
    {
      forall b {:trigger data[b]} {:trigger b in data} :: b in use ==> b in data && |data[b]| == BSIZE
    }

    ghost predicate Valid()
      reads `bitmap, `data, `ind, `inodes, `use
    {
      && Inv(bitmap, inodes, ind, use) && Blocky() && AtRest(use)
      && forall i {:trigger Full(inodes[i], ind)} :: i in inodes ==> Full(inodes[i], ind)
    }

    /** Every inode on disk is as it is in memory. */
    ghost predicate Synced()
      reads `inodes, `dinodes
    {
      dinodes == inodes
    }

    /** A new file system: the first nmeta blocks are boot block, superblock, log,
        inodes and bitmap, and all others free. */
    constructor (nblocks: nat, nmeta: nat, bmapstart: nat, inodestart: nat)
      requires 0 < nmeta <= nblocks
      ensures Valid() && Synced() && bitmap == seq(nblocks, b => b < nmeta) && inodes == map[]
      ensures this.bmapstart == bmapstart && this.inodestart == inodestart
    {
      bitmap := seq(nblocks, b => b < nmeta);
      data := map b | b in Range(0, nblocks) :: Zeroes();
      ind, inodes, dinodes, logged := map[], map[], map[], {};
      this.bmapstart, this.inodestart := bmapstart, inodestart;
      use := map b | b in Range(0, nblocks) :: if b < nmeta then Meta else Free;
    }

    /** The bitmap block of block b. */
    function Bblock(b: nat): nat {
      b / BPB + bmapstart
    }

    /** balloc: the lowest free block, zeroed, or 0 if there is none. */
    method Balloc() returns (b: nat)
      requires Inv(bitmap, inodes, ind, use) && Blocky()
      modifies `bitmap, `data, `ind, `use, `logged
      ensures Inv(bitmap, inodes, ind, use) && Blocky()
      ensures b == 0 ==> (forall c :: 0 <= c < |bitmap| ==> bitmap[c]) && bitmap == old(bitmap) && data == old(data)
                         && ind == old(ind) && use == old(use) && logged == old(logged)
      ensures b != 0 ==> b in old(use) && old(use)[b] == Free && use == old(use)[b := Held]
      ensures b != 0 ==>
                b < |bitmap| == |old(bitmap)| && (forall c :: 0 <= c < b ==> old(bitmap)[c])
                  && bitmap == old(bitmap)[b := true]
                         && data == old(data)[b := Zeroes()] && ind == old(ind)[b := seq(NINDIRECT, _ => 0)]
      ensures b != 0 ==> logged == old(logged) + {Bblock(b), b} && IsBitmapBlock(|bitmap|, bmapstart, Bblock(b))
    {
      var base := 0;
      while base < |bitmap|
        invariant 0 <= base && bitmap == old(bitmap) && data == old(data) && ind == old(ind) && use == old(use)
                  && logged == old(logged)
        invariant forall c {:trigger bitmap[c]} :: 0 <= c < base && c < |bitmap| ==> bitmap[c]
        decreases |bitmap| - base
      {
        var bi := 0;
        while bi < BPB && base + bi < |bitmap|
          invariant 0 <= bi <= BPB && base + bi <= |bitmap|
          invariant bitmap == old(bitmap) && data == old(data) && ind == old(ind) && use == old(use)
                    && logged == old(logged)
          invariant forall c {:trigger bitmap[c]} :: 0 <= c < base + bi ==> bitmap[c]
        {
          if !bitmap[base + bi] {
            b := base + bi;
            Take(b);
            return;
          }
          bi := bi + 1;
        }
        base := base + BPB;
      }
      b := 0;
    }

    /** balloc's use of the free block b. */
    method Take(b: nat)
      requires Inv(bitmap, inodes, ind, use) && Blocky() && b < |bitmap| && !bitmap[b]
      modifies `bitmap, `data, `ind, `use, `logged
      ensures Inv(bitmap, inodes, ind, use) && Blocky()
      ensures b != 0 && b in old(use) && old(use)[b] == Free && use == old(use)[b := Held]
              && bitmap == old(bitmap)[b := true]
      ensures data == old(data)[b := Zeroes()] && ind == old(ind)[b := seq(NINDIRECT, _ => 0)]
      ensures logged == old(logged) + {Bblock(b), b} && IsBitmapBlock(|bitmap|, bmapstart, Bblock(b))
    {
      assert use[b] == Free;
      RetagInv(bitmap, inodes, ind, ind[b := seq(NINDIRECT, _ => 0)], use, b, Held);
      bitmap := bitmap[b := true];
      logged := logged + {Bblock(b)};
      data := data[b := Zeroes()];
      ind := ind[b := seq(NINDIRECT, _ => 0)];
      logged := logged + {b};
      use := use[b := Held];
    }

    /** The bitmap, the inodes and the blocks agree. */
    ghost predicate Sound()
      reads `bitmap, `data, `ind, `inodes, `use
    {
      Inv(bitmap, inodes, ind, use) && Blocky()
    }

    /** Allocate a block for direct slot bn of inode i. */
    method AllocDirect(i: nat, bn: nat) returns (addr: nat)
      requires Sound() && i in inodes && bn < NDIRECT && BlockOf(inodes[i], ind, bn) == 0
      modifies `bitmap, `data, `ind, `inodes, `use, `logged
      ensures Sound() && |bitmap| == |old(bitmap)|
              && Bmapped(old(inodes), old(ind), old(data), old(use), inodes, ind, data, use, i, bn)
      ensures BlockOf(inodes[i], ind, bn) == addr
      ensures addr == 0 ==> bitmap == old(bitmap) && forall c :: 0 <= c < |bitmap| ==> bitmap[c]
      ensures forall c :: c in logged ==>
                c in old(logged) || IsBitmapBlock(|bitmap|, bmapstart, c) || (c != 0 && c == addr)
    {
      assert Ok(inodes, ind, use, i);
      addr := Balloc();
      if addr == 0 {
        return;
      }
      NewBlock(old(bitmap), inodes, inodes[i].(addrs := inodes[i].addrs[bn := addr]), old(ind), ind,
               old(use), old(data), i, bn, addr);
      inodes := inodes[i := inodes[i].(addrs := inodes[i].addrs[bn := addr])];
      use := use[addr := Data(i, bn)];
      assert use == old(use)[addr := Data(i, bn)];
    }

    /** Allocate the indirect block of inode i. */
    method AllocIndirect(i: nat, ghost bn: nat) returns (addr: nat)
      requires Sound() && i in inodes && |inodes[i].addrs| == NDIRECT + 1 && inodes[i].addrs[NDIRECT] == 0
      modifies `bitmap, `data, `ind, `inodes, `use, `logged
      ensures Sound() && |bitmap| == |old(bitmap)|
              && Bmapped(old(inodes), old(ind), old(data), old(use), inodes, ind, data, use, i, bn)
      ensures inodes[i] == old(inodes)[i].(addrs := old(inodes)[i].addrs[NDIRECT := addr])
      ensures BlockOf(inodes[i], ind, bn) == BlockOf(old(inodes)[i], old(ind), bn) 
      ensures addr == 0 ==> forall c :: 0 <= c < |bitmap| ==> bitmap[c]
      ensures forall c :: c in logged ==>
                c in old(logged) || IsBitmapBlock(|bitmap|, bmapstart, c) || (c != 0 && c == addr)
    {
      assert Ok(inodes, ind, use, i);
      addr := Balloc();
      if addr == 0 {
        assert inodes[i].addrs == inodes[i].addrs[NDIRECT := 0];
        return;
      }
      NewIndirect(old(bitmap), inodes, old(ind), old(use), old(data), i, bn, addr);
      inodes := inodes[i := inodes[i].(addrs := inodes[i].addrs[NDIRECT := addr])];
      use := use[addr := Ind(i)];
      assert use == old(use)[addr := Ind(i)];
    }

    /** Allocate a block for entry j of inode i's indirect block a. */
    method AllocEntry(i: nat, a: nat, j: nat) returns (addr: nat)
      requires Sound() && i in inodes && |inodes[i].addrs| == NDIRECT + 1 && inodes[i].addrs[NDIRECT] == a && a != 0
      requires j < NINDIRECT && BlockOf(inodes[i], ind, NDIRECT + j) == 0
      modifies `bitmap, `data, `ind, `inodes, `use, `logged
      ensures Sound() && |bitmap| == |old(bitmap)|
              && Bmapped(old(inodes), old(ind), old(data), old(use), inodes, ind, data, use, i, NDIRECT + j)
                && inodes == old(inodes)
      ensures BlockOf(inodes[i], ind, NDIRECT + j) == addr
              && (addr == 0 ==> forall c :: 0 <= c < |bitmap| ==> bitmap[c])
      ensures forall c :: c in logged ==>
                c in old(logged) || IsBitmapBlock(|bitmap|, bmapstart, c) || (c != 0 && (c == addr || c == a))
    {
      assert Ok(inodes, ind, use, i);
      addr := Balloc();
      if addr != 0 {
        NewBlock(old(bitmap), inodes, inodes[i], old(ind), SetEntry(ind, a, j, addr),
                 old(use), old(data), i, NDIRECT + j, addr);
        ind := SetEntry(ind, a, j, addr);
        logged := logged + {a};
        use := use[addr := Data(i, NDIRECT + j)];
        assert use == old(use)[addr := Data(i, NDIRECT + j)];
        assert inodes == inodes[i := inodes[i]];
      }
    }

    /** The indirect half of bmap: entry j of inode i's indirect block. */
    method BmapIndirect(i: nat, j: nat) returns (addr: nat)
      requires Sound() && i in inodes && j < NINDIRECT
      modifies `bitmap, `data, `ind, `inodes, `use, `logged
      ensures Sound() && |bitmap| == |old(bitmap)|
              && Bmapped(old(inodes), old(ind), old(data), old(use), inodes, ind, data, use, i, NDIRECT + j)
      ensures |inodes[i].addrs| == NDIRECT + 1 && BlockOf(inodes[i], ind, NDIRECT + j) == addr
      ensures BlockOf(old(inodes)[i], old(ind), NDIRECT + j) != 0 ==>
                logged == old(logged) && inodes == old(inodes) && ind == old(ind) && data == old(data)
                  && use == old(use) && bitmap == old(bitmap)
      ensures addr == 0 ==> forall c :: 0 <= c < |bitmap| ==> bitmap[c]
      ensures Logs(old(logged), logged, |bitmap|, bmapstart, inodes[i], ind, NDIRECT + j, NDIRECT + j + 1)
    {
      assert Ok(inodes, ind, use, i);
      var a := inodes[i].addrs[NDIRECT];
      if a == 0 {
        a := AllocIndirect(i, NDIRECT + j);
        if a == 0 {
          return 0;
        }
      }
      assert Ok(inodes, ind, use, i);
      addr := ind[a][j];
      if addr == 0 {
        ghost var n1, i1, d1, u1 := inodes, ind, data, use;
        addr := AllocEntry(i, a, j);
        BmappedThen(old(inodes), old(ind), old(data), old(use), n1, i1, d1, u1, inodes, ind, data, use, i, NDIRECT + j);
      }
    }

    /** bmap: the block of file block bn, allocated if it is not there; 0 if the disk
        is full. A false result stands for its panic. */
    method Bmap(i: nat, bn: nat) returns (ok: bool, addr: nat)
      requires Valid() && i in inodes
      modifies `bitmap, `data, `ind, `inodes, `use, `logged
      ensures Valid() && |bitmap| == |old(bitmap)| && (ok <==> bn < MAXFILE)
      ensures Bmapped(old(inodes), old(ind), old(data), old(use), inodes, ind, data, use, i, bn)
      ensures |inodes[i].addrs| == NDIRECT + 1 && BlockOf(inodes[i], ind, bn) == addr
      ensures BlockOf(old(inodes)[i], old(ind), bn) != 0 ==>
                logged == old(logged) && inodes == old(inodes) && ind == old(ind) && data == old(data)
                  && use == old(use) && bitmap == old(bitmap)
      ensures ok && addr == 0 ==> forall c :: 0 <= c < |bitmap| ==> bitmap[c]
      ensures addr == 0 && bn < NDIRECT ==> bitmap == old(bitmap)
      ensures Logs(old(logged), logged, |bitmap|, bmapstart, inodes[i], ind, bn, bn + 1)
    {
      assert Ok(inodes, ind, use, i);
      ok, addr := true, 0;
      if bn < NDIRECT {
        addr := inodes[i].addrs[bn];
        if addr == 0 {
          addr := AllocDirect(i, bn);
        }
      } else if bn - NDIRECT < NINDIRECT {
        addr := BmapIndirect(i, bn - NDIRECT);
      } else {
        ok := false;
      }
      assert Ok(inodes, ind, use, i);
      StaysFull(old(inodes), old(ind), inodes, ind, i, bn);
    }

    /** The part of a round of writei that bmap and the copy make up: bytes, which fit
        in one block, at off. False if the disk is full. */
    method WriteBlock(i: nat, off: nat, bytes: seq<bv8>) returns (ok: bool)
      requires Valid() && i in inodes && off / BSIZE < MAXFILE && off % BSIZE + |bytes| <= BSIZE
      modifies `bitmap, `data, `ind, `inodes, `use, `logged
      ensures Valid() && |bitmap| == |old(bitmap)|
      ensures Stepped(old(Now()), Now(), |bitmap|, bmapstart, i, off, if ok then bytes else [])
      ensures !ok ==> AllSet(bitmap) && (off / BSIZE < NDIRECT ==> bitmap == old(bitmap))
    {
      var mapped, addr := Bmap(i, off / BSIZE);
      if addr == 0 {
        BmappedWrote(old(inodes), old(ind), old(data), old(use), inodes, ind, data, use, data, i, off / BSIZE, off, []);
        return false;
      }
      assert Ok(inodes, ind, use, i);
      ghost var d1 := data;
      PatchWrote(bitmap, inodes, ind, use, data, i, off, bytes);
      data := data[addr := Patch(data[addr], off % BSIZE, bytes)];
      logged := logged + {addr};
      BmappedWrote(old(inodes), old(ind), old(data), old(use), inodes, ind, d1, use, data, i, off / BSIZE, off, bytes);
      return true;
    }

    ghost function Now(): State
      reads `inodes, `ind, `data, `use, `logged
    {
      State(inodes, ind, data, use, logged)
    }

    /** Since state s only file i changed: n bytes of src were written at off, in file
        blocks below hi, and its size not yet updated. */
    ghost predicate Writing(bits: nat, s: State, i: nat, off: nat, src: seq<bv8>, n: nat, hi: nat)
      reads this
    {
      && Valid() && |bitmap| == bits && n <= |src|
      && Progress(s, Now(), bits, bmapstart, i, off, src[..n], hi)
    }

    lemma WritingStart(i: nat, off: nat, src: seq<bv8>)
      requires Valid() && i in inodes && off <= inodes[i].size
      ensures Writing(|bitmap|, Now(), i, off, src, 0, off / BSIZE)
    {
      assert Full(inodes[i], ind) && Ok(inodes, ind, use, i);
    }

    /** One round of writei: k bytes of src, from tot on, into the block of pos. */
    method WriteStep(i: nat, off: nat, src: seq<bv8>, tot: nat, pos: nat, k: nat, ghost s: State) returns (ok: bool)
      requires tot + k <= |src| && pos == off + tot && Writing(|bitmap|, s, i, off, src, tot, pos / BSIZE)
      requires pos / BSIZE < MAXFILE && pos % BSIZE + k <= BSIZE
      modifies `bitmap, `data, `ind, `inodes, `use, `logged
      ensures |bitmap| == |old(bitmap)|
      ensures Writing(|bitmap|, s, i, off, src, if ok then tot + k else tot, pos / BSIZE + 1)
      ensures !ok ==> AllSet(bitmap) && (pos / BSIZE < NDIRECT ==> bitmap == old(bitmap))
    {
      ghost var s1, x := Now(), src[..tot];
      ok := WriteBlock(i, pos, src[tot..tot + k]);
      ghost var y := if ok then src[tot..tot + k] else [];
      PrefixMore(src, tot, k, ok);
      ProgressMore(s, s1, Now(), |bitmap|, bmapstart, i, off, x, y, pos);
    }

    /** iupdate: the inode's own block is written. */
    method Iupdate(i: nat)
      requires i in inodes
      modifies `dinodes, `logged
      ensures dinodes == old(dinodes)[i := inodes[i]] && logged == old(logged) + {Iblock(i)}
    {
      dinodes := dinodes[i := inodes[i]];
      logged := logged + {Iblock(i)};
    }

    /** The block of inode i. */
    function Iblock(i: nat): nat {
      i / IPB + inodestart
    }

    /** One round of writei's loop; false where it breaks off. */
    method WriteRound(i: nat, off: nat, src: seq<bv8>, fault: nat, tot: nat, ghost hi: nat, ghost s: State)
      returns (more: bool, next: nat, ghost stored: nat)
      requires tot < |src| && Rolling(off, |src|, fault, tot, hi) && off + |src| <= MAXFILE * BSIZE
      requires Writing(|bitmap|, s, i, off, src, tot, hi)
      modifies `bitmap, `data, `ind, `inodes, `use, `logged
      ensures |bitmap| == |old(bitmap)| && hi + 1 <= (off + |src| + BSIZE - 1) / BSIZE
      ensures Writing(|bitmap|, s, i, off, src, stored, hi + 1)
      ensures RoundDone(off, |src|, fault, tot, hi, more, next, stored, AllSet(bitmap))
      ensures stored == 0 < fault && off / BSIZE < NDIRECT ==> AllSet(old(bitmap))
    {
      var m := RoundSize(off, |src|, tot);
      var readable := Readable(fault, tot, m);
      var ok := WriteStep(i, off, src, tot, off + tot, readable, s);
      RoundEnds(off, |src|, fault, tot, hi, ok, AllSet(bitmap));
      more := ok && readable == m;
      next, stored := if more then tot + m else tot, if ok then tot + readable else tot;
    }

    /** The loop of writei. `fault` is how many bytes of src can be read before the
        copy fails; the ghost result counts the bytes stored. */
    method WriteLoop(i: nat, off: nat, src: seq<bv8>, fault: nat) returns (tot: nat, ghost stored: nat, ghost hi: nat)
      requires Valid() && i in inodes && off <= inodes[i].size && off + |src| <= MAXFILE * BSIZE
      modifies `bitmap, `data, `ind, `inodes, `use, `logged
      ensures |bitmap| == |old(bitmap)| && Partial(off, |src|, fault, tot, stored, AllSet(bitmap))
      ensures Writing(|bitmap|, old(Now()), i, off, src, stored, hi) && hi <= (off + |src| + BSIZE - 1) / BSIZE
      ensures stored == 0 < |src| && fault > 0 && off / BSIZE < NDIRECT ==> AllSet(old(bitmap))
    {
      tot, stored, hi := 0, 0, off / BSIZE;
      WritingStart(i, off, src);
      var more := true;
      while tot < |src| && more
        invariant |bitmap| == |old(bitmap)| && hi <= (off + |src| + BSIZE - 1) / BSIZE
        invariant Writing(|bitmap|, old(Now()), i, off, src, stored, hi)
        invariant more ==> stored == tot && Rolling(off, |src|, fault, tot, hi)
        invariant !more ==> Partial(off, |src|, fault, tot, stored, AllSet(bitmap))
        invariant tot == 0 && more ==> bitmap == old(bitmap)
        invariant !more && stored == 0 < |src| && fault > 0 && off / BSIZE < NDIRECT ==> AllSet(old(bitmap))
        decreases more, |src| - tot
      {
        more, tot, stored := WriteRound(i, off, src, fault, tot, hi, old(Now()));
        hi := hi + 1;
      }
    }

    /** The end of writei: the size, and the inode's own block. */
    method Finish(i: nat, pos: nat, ghost s: State, ghost off: nat, ghost src: seq<bv8>, ghost n: nat, ghost hi: nat)
      requires Writing(|bitmap|, s, i, off, src, n, hi) && pos <= off + n && pos <= MAXFILE * BSIZE
      modifies `inodes, `dinodes, `logged
      ensures Valid() && i in inodes && inodes[i].size == (if pos > s.inodes[i].size then pos else s.inodes[i].size)
      ensures Wrote(s.inodes, s.ind, s.data, inodes, ind, data, i, off, src[..n])
      ensures dinodes == old(dinodes)[i := inodes[i]]
      ensures Logs(s.logged + {Iblock(i)}, logged, |bitmap|, bmapstart, inodes[i], ind, off / BSIZE, hi)
    {
      assert Full(inodes[i], ind);
      if pos > inodes[i].size {
        ResizeInv(bitmap, inodes, ind, use, i, pos);
        ResizeWrote(s.inodes, s.ind, s.data, inodes, ind, data, i, off, src[..n], pos);
        inodes := inodes[i := inodes[i].(size := pos)];
      }
      Iupdate(i);
      StillFull(old(inodes), inodes, ind, i);
      SameLogs(s.logged, old(logged), Iblock(i), |bitmap|, bmapstart, old(inodes)[i], inodes[i], ind, off / BSIZE, hi);
    }

    /** writei: src to file i at off. `fault` is how many bytes of src can be read. The
        ghost result counts the bytes stored: more than the ones reported if reading
        src failed within a block. */
    method Writei(i: nat, off: nat, src: seq<bv8>, fault: nat) returns (r: int, ghost stored: nat)
      requires Valid() && i in inodes
      modifies `bitmap, `data, `ind, `inodes, `dinodes, `use, `logged
      ensures Valid() && |bitmap| == |old(bitmap)| && i in inodes
      ensures r == -1 <==> off > old(inodes)[i].size || off + |src| >= 0x1_0000_0000 || off + |src| > MAXFILE * BSIZE
      ensures r == -1 ==>
                stored == 0 && inodes == old(inodes) && ind == old(ind) && data == old(data) && use == old(use)
                  && logged == old(logged)
      ensures r != -1 ==> 0 <= r <= |src| && Partial(off, |src|, fault, r, stored, AllSet(bitmap))
      ensures r != -1 && stored == 0 < |src| && fault > 0 && off / BSIZE < NDIRECT ==> AllSet(old(bitmap))
      ensures r != -1 ==> dinodes == old(dinodes)[i := inodes[i]]
      ensures old(Synced()) ==> Synced()
      ensures r != -1 ==> inodes[i].size == (if off + r > old(inodes)[i].size then off + r else old(inodes)[i].size)
      ensures r != -1 ==>
                Wrote(old(inodes), old(ind), old(data), inodes, ind, data, i, off, src[..stored])
                  && GrownUse(old(use), use, i)
      ensures OthersKept(old(inodes), old(ind), old(data), inodes, ind, data, i)
      ensures r == |src| ==>
                Content(inodes[i], ind, data) == Splice(Content(old(inodes)[i], old(ind), old(data)), off, src)
      ensures r != -1 ==>
                Logs(old(logged) + {Iblock(i)}, logged, |bitmap|, bmapstart, inodes[i], ind,
                     off / BSIZE, (off + |src| + BSIZE - 1) / BSIZE)
    {
      stored := 0;
      if off > inodes[i].size || off + |src| >= 0x1_0000_0000 {
        return -1, 0;
      }
      if off + |src| > MAXFILE * BSIZE {
        return -1, 0;
      }
      var tot;
      ghost var hi;
      tot, stored, hi := WriteLoop(i, off, src, fault);
      Finish(i, off + tot, old(Now()), off, src, stored, hi);
      WroteKeeps(old(inodes), old(ind), old(data), inodes, ind, data, i, off, src[..stored]);
      if tot == |src| {
        assert src[..stored] == src;
        WroteSplice(old(inodes), old(ind), old(data), inodes, ind, data, i, off, src);
      }
      MoreLogs(old(logged) + {Iblock(i)}, logged, |bitmap|, bmapstart, inodes[i], ind,
               off / BSIZE, hi, (off + |src| + BSIZE - 1) / BSIZE);
      r := tot;
    }

    /** bmap of a block that is there, as every block below the size is. */
    method Bfind(i: nat, bn: nat) returns (addr: nat)
      requires Valid() && i in inodes && bn < MAXFILE && BlockOf(inodes[i], ind, bn) != 0
      modifies `bitmap, `data, `ind, `inodes, `use, `logged
      ensures Valid() && bitmap == old(bitmap) && data == old(data) && ind == old(ind) && inodes == old(inodes)
              && use == old(use) && logged == old(logged)
      ensures addr == BlockOf(inodes[i], ind, bn) && addr in data && |data[addr]| == BSIZE
    {
      var ok;
      ok, addr := Bmap(i, bn);
      assert Ok(inodes, ind, use, i);
    }

    /** One round of readi: m bytes at pos, all of one block. */
    method ReadStep(i: nat, pos: nat, m: nat) returns (bytes: seq<bv8>)
      requires Valid() && i in inodes && 0 < m && pos + m <= inodes[i].size && pos % BSIZE + m <= BSIZE
      modifies `bitmap, `data, `ind, `inodes, `use, `logged
      ensures Valid() && bitmap == old(bitmap) && data == old(data) && ind == old(ind) && inodes == old(inodes)
              && use == old(use) && logged == old(logged)
      ensures bytes == Content(inodes[i], ind, data)[pos..pos + m]
    {
      assert Full(inodes[i], ind) && Ok(inodes, ind, use, i);
      assert BlockOf(inodes[i], ind, pos / BSIZE) != 0;
      var addr := Bfind(i, pos / BSIZE);
      BlockRead(inodes[i], ind, data, pos, m);
      bytes := data[addr][pos % BSIZE..pos % BSIZE + m];
    }

    /** readi: up to n bytes of file i from off. `room` is how many bytes dst can take
        before the copy fails. Nothing is allocated. */
    method Readi(i: nat, off: nat, n: nat, room: nat) returns (r: int, dst: seq<bv8>)
      requires Valid() && i in inodes
      modifies `bitmap, `data, `ind, `inodes, `use, `logged
      ensures Valid() && bitmap == old(bitmap) && data == old(data) && ind == old(ind) && inodes == old(inodes)
              && use == old(use) && logged == old(logged)
      ensures off > inodes[i].size || off + n >= 0x1_0000_0000 ==> r == 0 && dst == []
      ensures off <= inodes[i].size && off + n < 0x1_0000_0000 ==>
                var len := if off + n > inodes[i].size then inodes[i].size - off else n;
                && (r == -1 <==> len > room)
                && (r != -1 ==> r == len && dst == Content(inodes[i], ind, data)[off..off + len])
    {
      dst := [];
      if off > inodes[i].size || off + n >= 0x1_0000_0000 {
        return 0, [];
      }
      var len := if off + n > inodes[i].size then inodes[i].size - off else n;
      var tot, pos := 0, off;
      ghost var c := Content(inodes[i], ind, data);
      while tot < len
        invariant 0 <= tot <= len && tot <= room && pos == off + tot && Valid()
        invariant bitmap == old(bitmap) && data == old(data) && ind == old(ind) && inodes == old(inodes)
                  && use == old(use) && logged == old(logged)
        invariant dst == c[off..pos]
      {
        var m := if len - tot < BSIZE - pos % BSIZE then len - tot else BSIZE - pos % BSIZE;
        var bytes := ReadStep(i, pos, m);
        if tot + m > room {
          return -1, dst;
        }
        SliceMore(c, off, pos, m);
        dst := dst + bytes;
        tot, pos := tot + m, pos + m;
      }
      r := tot;
    }

    /** begin_op, writei and end_op of one chunk. */
    method Transact(i: nat, pos: nat, chunk: seq<bv8>, fault: nat) returns (r: int, ghost stored: nat)
      requires Valid() && i in inodes && |chunk| <= MAXCHUNK
      modifies `bitmap, `data, `ind, `inodes, `dinodes, `use, `logged
      ensures Valid() && |bitmap| == |old(bitmap)| && i in inodes && (|bitmap| <= BPB ==> |logged| <= 7)
      ensures old(Synced()) ==> Synced()
      ensures Result(pos, |chunk|, fault, old(inodes)[i].size, r, stored, inodes[i].size, AllSet(bitmap))
      ensures stored <= |chunk| && Changed(old(Now()), Now(), i, pos, chunk[..stored])
    {
      logged := {};
      r, stored := Writei(i, pos, chunk, fault);
      if r != -1 && |bitmap| <= BPB {
        assert Ok(inodes, ind, use, i);
        assert {} + {Iblock(i)} == {Iblock(i)};
        Footprint(Iblock(i), logged, |bitmap|, bmapstart, inodes[i], ind,
                  pos / BSIZE, (pos + |chunk| + BSIZE - 1) / BSIZE);
      }
    }

    /** What filewrite has done since state s, when k bytes of src are written at off. */
    ghost predicate Chunked(bits: nat, s: State, i: nat, off: nat, src: seq<bv8>, k: nat)
      reads this
    {
      Valid() && |bitmap| == bits && k <= |src| && Changed(s, Now(), i, off, src[..k])
    }

    /** One transaction of filewrite: bytes k to k + n1 of src, which follow those
        written since state s. */
    method WriteChunk(i: nat, pos: nat, src: seq<bv8>, k: nat, n1: nat, fault: nat, ghost s: State, ghost off: nat)
      returns (r: int, ghost stored: nat, ghost full: bool)
      requires Chunked(|bitmap|, s, i, off, src, k) && k <= fault && k + n1 <= |src| && n1 <= MAXCHUNK && pos == off + k
      modifies `bitmap, `data, `ind, `inodes, `dinodes, `use, `logged
      ensures |bitmap| == |old(bitmap)| && (|bitmap| <= BPB ==> |logged| <= 7) && (old(Synced()) ==> Synced())
      ensures k <= stored && Chunked(|bitmap|, s, i, off, src, stored) && i in old(inodes) && (full ==> AllSet(bitmap))
      ensures Result(pos, n1, fault - k, old(inodes)[i].size, r, stored - k, inodes[i].size, full)
    {
      ghost var s1, part := Now(), 0;
      r, part := Transact(i, pos, src[k..k + n1], fault - k);
      stored, full := k + part, AllSet(bitmap);
      ChangedMore(s, s1, Now(), i, off, src, k, n1, part, pos);
    }

    /** One round of filewrite's loop; false where it breaks off. */
    method NextChunk(i: nat, off: nat, src: seq<bv8>, fault: nat, k: nat, newoff: nat, ghost s: State)
      returns (more: bool, k': nat, newoff': nat, ghost stored: nat, ghost full: bool)
      requires k < |src| && Chunked(|bitmap|, s, i, off, src, k)
      requires ChunkLoop(off, |src|, fault, s.inodes[i].size, true, k, newoff, k, inodes[i].size, false)
      modifies `bitmap, `data, `ind, `inodes, `dinodes, `use, `logged
      ensures |bitmap| == |old(bitmap)| && (|bitmap| <= BPB ==> |logged| <= 7) && (old(Synced()) ==> Synced())
      ensures Chunked(|bitmap|, s, i, off, src, stored) && (more ==> k' > k) && (full ==> AllSet(bitmap))
      ensures ChunkLoop(off, |src|, fault, s.inodes[i].size, more, k', newoff', stored, inodes[i].size, full)
    {
      var n1 := ChunkSize(|src|, k);
      ghost var size := inodes[i].size;
      var r;
      r, stored, full := WriteChunk(i, newoff, src, k, n1, fault, s, off);
      ChunkStep(off, |src|, fault, s.inodes[i].size, k, newoff, size, r, stored, inodes[i].size, full);
      newoff' := if r > 0 then newoff + r else newoff;
      more := r == n1;
      k' := if more then k + r else k;
    }

    /** The loop of filewrite. */
    method WriteChunks(i: nat, off: nat, src: seq<bv8>, fault: nat)
      returns (k: nat, newoff: nat, ghost stored: nat, ghost worst: nat, ghost full: bool)
      requires Valid() && i in inodes
      modifies `bitmap, `data, `ind, `inodes, `dinodes, `use, `logged
      ensures Chunked(|old(bitmap)|, old(Now()), i, off, src, stored) && (old(Synced()) ==> Synced())
      ensures (|bitmap| <= BPB ==> worst <= 7) && (full ==> AllSet(bitmap))
      ensures ChunkLoop(off, |src|, fault, old(inodes)[i].size, k == |src|, k, newoff, stored, inodes[i].size, full)
    {
      k, newoff, stored, worst, full := 0, off, 0, 0, false;
      var more := true;
      while k < |src| && more
        invariant Chunked(|old(bitmap)|, old(Now()), i, off, src, stored) && (old(Synced()) ==> Synced())
        invariant (|bitmap| <= BPB ==> worst <= 7) && (more ==> stored == k)
        invariant ChunkLoop(off, |src|, fault, old(inodes)[i].size, more, k, newoff, stored, inodes[i].size, full)
        invariant full ==> AllSet(bitmap)
        decreases more, |src| - k
      {
        more, k, newoff, stored, full := NextChunk(i, off, src, fault, k, newoff, old(Now()));
        worst := if |logged| > worst then |logged| else worst;
      }
    }

    /** filewrite on an inode, from file offset off: one transaction a chunk. The ghost
        results are the bytes stored and the most blocks any one transaction logged. */
    method Filewrite(i: nat, off: nat, src: seq<bv8>, fault: nat)
      returns (ret: int, newoff: nat, ghost stored: nat, ghost worst: nat)
      requires Valid() && i in inodes
      modifies `bitmap, `data, `ind, `inodes, `dinodes, `use, `logged
      ensures Valid() && |bitmap| == |old(bitmap)| && (ret == |src| || ret == -1) && stored <= |src|
      ensures |bitmap| <= BPB ==> worst <= 7 <= Disk.MAXOPBLOCKS
      ensures old(Synced()) ==> Synced()
      ensures off <= newoff && (ret == -1 ==> newoff < off + |src|)
      ensures PartialFile(off, |src|, fault, newoff - off, stored,
                          AllSet(bitmap) || Refused(off, |src|, old(inodes)[i].size))
      ensures Wrote(old(inodes), old(ind), old(data), inodes, ind, data, i, off, src[..stored])
      ensures GrownUse(old(use), use, i) && OthersKept(old(inodes), old(ind), old(data), inodes, ind, data, i)
      ensures ret == |src| > 0 ==>
                newoff == off + |src| && off <= old(inodes)[i].size
                && Content(inodes[i], ind, data) == Splice(Content(old(inodes)[i], old(ind), old(data)), off, src)
    {
      var k;
      ghost var full;
      k, newoff, stored, worst, full := WriteChunks(i, off, src, fault);
      ret := if k == |src| then |src| else -1;
      WroteKeeps(old(inodes), old(ind), old(data), inodes, ind, data, i, off, src[..stored]);
      if k == |src| > 0 {
        assert src[..stored] == src;
        WroteSplice(old(inodes), old(ind), old(data), inodes, ind, data, i, off, src);
      }
    }

    /** bfree: false stands for its panic on a block that is free. */
    method Bfree(b: nat) returns (ok: bool)
      requires b < |bitmap|
      modifies `bitmap, `logged
      ensures ok == old(bitmap)[b] && bitmap == old(bitmap)[b := false]
      ensures logged == if ok then old(logged) + {Bblock(b)} else old(logged)
    {
      ok := bitmap[b];
      if ok {
        bitmap := bitmap[b := false];
        logged := logged + {Bblock(b)};
      }
    }

    /** itrunc's first loop: the direct blocks. */
    method FreeDirect(i: nat) returns (ok: bool)
      requires Inv(bitmap, inodes, ind, use) && i in inodes
      modifies `bitmap, `inodes, `logged
      ensures ok && Freed(bitmap, use, i, NDIRECT) && |bitmap| == |old(bitmap)|
      ensures i in inodes && inodes == old(inodes)[i := inodes[i]] && inodes[i].size == old(inodes)[i].size
      ensures |old(inodes)[i].addrs| == NDIRECT + 1
      ensures inodes[i].addrs == seq(NDIRECT, _ => 0) + [old(inodes)[i].addrs[NDIRECT]]
    {
      ok := true;
      assert Ok(inodes, ind, use, i);
      for k := 0 to NDIRECT
        invariant ok && Freed(bitmap, use, i, k) && |bitmap| == |old(bitmap)|
        invariant inodes.Keys == old(inodes).Keys && inodes == old(inodes)[i := inodes[i]]
                  && inodes[i].size == old(inodes)[i].size
        invariant |inodes[i].addrs| == NDIRECT + 1
        invariant forall x {:trigger inodes[i].addrs[x]} :: 0 <= x <= NDIRECT ==>
                    inodes[i].addrs[x] == if x < k then 0 else old(inodes)[i].addrs[x]
      {
        FreedStep(old(bitmap), bitmap, old(inodes), ind, use, i, k);
        if inodes[i].addrs[k] != 0 {
          ok := Bfree(inodes[i].addrs[k]);
          inodes := inodes[i := inodes[i].(addrs := inodes[i].addrs[k := 0])];
        }
      }
    }

    /** itrunc's second loop: the blocks of indirect block a, and a itself. */
    method FreeIndirect(a: nat, ghost i: nat, ghost bits0: Bitmap, ghost n0: Inodes) returns (ok: bool)
      requires Inv(bits0, n0, ind, use) && i in n0 && |n0[i].addrs| == NDIRECT + 1 && n0[i].addrs[NDIRECT] == a != 0
      requires Freed(bitmap, use, i, NDIRECT) && |bitmap| == |bits0|
      modifies `bitmap, `logged
      ensures ok && |bitmap| == |bits0|
      ensures forall b {:trigger bitmap[b]} :: 0 <= b < |bitmap| ==> (bitmap[b] <==> use[b] != Free && !Owns(use, b, i))
    {
      ok := true;
      assert Ok(n0, ind, use, i);
      for j := 0 to NINDIRECT
        invariant ok && Freed(bitmap, use, i, NDIRECT + j) && |bitmap| == |bits0|
      {
        FreedStep(bits0, bitmap, n0, ind, use, i, NDIRECT + j);
        if ind[a][j] != 0 {
          ok := Bfree(ind[a][j]);
        }
      }
      ok := Bfree(a);
      AllFreed(bits0, bitmap, n0, ind, use, i, a);
    }

    /** itrunc: the file is empty, its blocks are free, and no panic is reached. */
    method Itrunc(i: nat) returns (ok: bool)
      requires Valid() && i in inodes
      modifies `bitmap, `inodes, `dinodes, `use, `logged
      ensures Valid() && ok && inodes == old(inodes)[i := EMPTY] && use == Truncated(old(use), i)
      ensures dinodes == old(dinodes)[i := EMPTY] && (old(Synced()) ==> Synced())
    {
      ok := FreeDirect(i);
      var a := inodes[i].addrs[NDIRECT];
      if a != 0 {
        ok := FreeIndirect(a, i, old(bitmap), old(inodes));
        inodes := inodes[i := inodes[i].(addrs := inodes[i].addrs[NDIRECT := 0])];
      } else {
        NoneLeft(old(bitmap), bitmap, old(inodes), ind, use, i);
      }
      TruncInv(old(bitmap), bitmap, old(inodes), ind, use, i);
      inodes := inodes[i := inodes[i].(size := 0)];
      assert inodes[i].addrs == EMPTY.addrs;
      assert inodes == old(inodes)[i := EMPTY];
      use := Truncated(use, i);
      Iupdate(i);
      forall j | j in inodes
        ensures Full(inodes[j], ind)
      {
        assert j != i ==> Full(old(inodes)[j], ind);
      }
    }

    /** ialloc: the lowest inode number below ninodes that is free on disk, with an
        empty file, or 0. */
    method Ialloc(ninodes: nat) returns (i: nat)
      requires Valid() && Synced()
      modifies `inodes, `dinodes, `logged
      ensures Valid() && Synced()
      ensures i == 0 ==> inodes == old(inodes) && forall k :: 0 < k < ninodes ==> k in inodes
      ensures i != 0 ==>
                i !in old(inodes) && i < ninodes && (forall k :: 0 < k < i ==> k in old(inodes))
                  && inodes == old(inodes)[i := EMPTY]
    {
      i := 1;
      while i < ninodes
        invariant 1 <= i && forall k :: 0 < k < i ==> k in dinodes
      {
        if i !in dinodes {
          AddInv(bitmap, inodes, ind, use, i);
          inodes := inodes[i := EMPTY];
          Iupdate(i);
          forall j | j in inodes
            ensures Full(inodes[j], ind)
          {
            assert j != i ==> Full(old(inodes)[j], ind);
          }
          return;
        }
        i := i + 1;
      }
      i := 0;
    }

    /** ifree: the inode of an empty file, off the disk and out of memory. */
    method Ifree(i: nat)
      requires Valid() && i in inodes && inodes[i] == EMPTY
      modifies `inodes, `dinodes, `logged
      ensures Valid() && inodes == old(inodes) - {i} && dinodes == old(dinodes) - {i}
    {
      RemoveInv(bitmap, inodes, ind, use, i);
      inodes := inodes - {i};
      dinodes := dinodes - {i};
      logged := logged + {Iblock(i)};
      forall j | j in inodes
        ensures Full(inodes[j], ind)
      {
        assert Full(old(inodes)[j], ind);
      }
    }

    /** iput of an inode in memory with so many references and links; `loaded` is its
        valid flag. */
    method Iput(i: nat, refs: nat, loaded: bool, nlink: nat) returns (ok: bool, refs': nat)
      requires Valid() && Synced() && i in inodes && refs > 0
      modifies `bitmap, `inodes, `dinodes, `use, `logged
      ensures Valid() && Synced() && ok && refs' == refs - 1
      ensures if refs == 1 && loaded && nlink == 0 then inodes == old(inodes) - {i} && use == Truncated(old(use), i)
              else inodes == old(inodes) && use == old(use) && bitmap == old(bitmap) && logged == old(logged)
    {
      var last := refs == 1 && loaded && nlink == 0;
      ok := true;
      if last {
        ok := Itrunc(i);
      }
      refs' := refs - 1;
      if last {
        Ifree(i);
      }
    }
  }

  /** The shortest write that stores more than it reports: two bytes to a new file, of
      which one can be read. */
  method StoresUnreported(nblocks: nat, nmeta: nat) returns (fs: FileSystem, r: int, ghost stored: nat)
    requires 0 < nmeta < nblocks
    ensures fs.Valid() && r == 0 && stored == 1
  {
    fs := new FileSystem(nblocks, nmeta, 0, 0);
    assert !fs.bitmap[nmeta] && 1 !in fs.inodes;
    var i := fs.Ialloc(2);
    assert i == 1;
    r, stored := fs.Writei(i, 0, [1, 2], 1);
  }
}
