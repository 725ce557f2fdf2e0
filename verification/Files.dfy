/** Inodes, their blocks and the free-block bitmap of xv6/kernel/fs.c, as values:
    which block belongs to what, and the bytes a file stands for. */
module Files {
  import opened Bytes
  import opened Distinctness
  import Disk

  const BSIZE := 1024
  const NDIRECT := 12
  const NINDIRECT := 256
  const MAXFILE := NDIRECT + NINDIRECT
  const MAXCHUNK := 3 * BSIZE
  const IPB := BSIZE / 64              // a dinode takes 64 bytes

  /** An inode's size in bytes and its NDIRECT + 1 block addresses, 0 for none. */
  datatype Inode = Inode(size: nat, addrs: seq<nat>)

  type Inodes = map<nat, Inode>

  /** Blocks read as NINDIRECT block addresses. */
  type Indirect = map<nat, seq<nat>>

  type Blocks = map<nat, seq<bv8>>

  /** What a disk block is for: boot block, log, inodes and bitmap are Meta; Held is
      a block that balloc has handed out and that is not yet in an inode. */
  datatype Use = Free | Meta | Held | Data(inum: nat, bn: nat) | Ind(inum: nat)

  type Uses = map<nat, Use>

  /** The bitmap, a bit a block. */
  type Bitmap = seq<bool>

  // ---- bits in bytes ----

  /** 1 << k. */
  function Mask(k: nat): bv8
    requires k < 8
  {
    if k == 0 then 1 else if k == 1 then 2 else if k == 2 then 4 else if k == 3 then 8
    else if k == 4 then 16 else if k == 5 then 32 else if k == 6 then 64 else 128
  }

  predicate BitIn(x: bv8, k: nat)
    requires k < 8
  {
    x & Mask(k) != 0
  }

  /** The byte operations of balloc and bfree set and clear one bit and no other, so
      the bitmap can be taken bit by bit. */
  lemma MaskBits(x: bv8, i: nat, j: nat)
    requires i < 8 && j < 8
    ensures BitIn(x | Mask(i), j) <==> i == j || BitIn(x, j)
    ensures BitIn(x & !Mask(i), j) <==> i != j && BitIn(x, j)
  {
  }

  // ---- which block ----

  /** The block of file block bn, or 0: what bmap finds without allocating. */
  function BlockOf(ip: Inode, ind: Indirect, bn: nat): nat {
    if bn < NDIRECT then
      if bn < |ip.addrs| then ip.addrs[bn] else 0
    else if bn < MAXFILE && NDIRECT < |ip.addrs| && ip.addrs[NDIRECT] != 0
            && ip.addrs[NDIRECT] in ind && bn - NDIRECT < |ind[ip.addrs[NDIRECT]]| then
      ind[ip.addrs[NDIRECT]][bn - NDIRECT]
    else 0
  }

  /** Entry j of the indirect block a, overwritten. */
  function SetEntry(ind: Indirect, a: nat, j: nat, b: nat): Indirect
    requires a in ind && j < |ind[a]|
  {
    var row: seq<nat> := ind[a];
    ind[a := row[j := b]]
  }

  /** Inode i is well formed and its blocks are its own. */
  ghost predicate InodeOk(ip: Inode, ind: Indirect, use: Uses, i: nat) {
    && |ip.addrs| == NDIRECT + 1 && ip.size <= MAXFILE * BSIZE
    && (ip.addrs[NDIRECT] != 0 ==>
          && ip.addrs[NDIRECT] in ind && |ind[ip.addrs[NDIRECT]]| == NINDIRECT
          && ip.addrs[NDIRECT] in use && use[ip.addrs[NDIRECT]] == Ind(i))
    && (forall bn {:trigger BlockOf(ip, ind, bn)} :: 0 <= bn < MAXFILE && BlockOf(ip, ind, bn) != 0 ==>
          BlockOf(ip, ind, bn) in use && use[BlockOf(ip, ind, bn)] == Data(i, bn))
  }

  /** Every block below the size is there. */
  ghost predicate Full(ip: Inode, ind: Indirect) {
    forall bn {:trigger BlockOf(ip, ind, bn)} :: 0 <= bn && bn * BSIZE < ip.size ==> BlockOf(ip, ind, bn) != 0
  }

  /** A block counted as an inode's really is. */
  ghost predicate Backed(inodes: Inodes, ind: Indirect, b: nat, u: Use) {
    match u
    case Data(i, bn) => i in inodes && bn < MAXFILE && BlockOf(inodes[i], ind, bn) == b
    case Ind(i) => i in inodes && |inodes[i].addrs| == NDIRECT + 1 && inodes[i].addrs[NDIRECT] == b
    case _ => true
  }

  ghost predicate Ok(inodes: Inodes, ind: Indirect, use: Uses, i: nat) {
    i in inodes && InodeOk(inodes[i], ind, use, i)
  }

  /** The set bits are the metadata and, disjointly, the blocks of the inodes. */
  ghost predicate Inv(bits: Bitmap, inodes: Inodes, ind: Indirect, use: Uses) {
    && (forall b :: b in use <==> 0 <= b < |bits|) && 0 in use && use[0] == Meta
    && (forall b {:trigger bits[b]} {:trigger use[b]} :: 0 <= b < |bits| ==> (bits[b] <==> use[b] != Free))
    && (forall i {:trigger Ok(inodes, ind, use, i)} :: i in inodes ==> Ok(inodes, ind, use, i))
    && (forall b {:trigger Backed(inodes, ind, b, use[b])} :: b in use ==> Backed(inodes, ind, b, use[b]))
  }

  /** Block b belongs to inode i. */
  predicate Owns(use: Uses, b: nat, i: nat) {
    b in use && ((use[b].Data? && use[b].inum == i) || (use[b].Ind? && use[b].inum == i))
  }

  // ---- steps ----

  /** A block that no inode owns may change between free and held. */
  lemma RetagInv(bits: Bitmap, inodes: Inodes, ind: Indirect, ind': Indirect, use: Uses, b: nat, u: Use)
    requires Inv(bits, inodes, ind, use) && b < |bits| && (use[b].Free? || use[b].Held?) && (u.Free? || u.Held?)
    requires forall c {:trigger ind'[c]} {:trigger c in ind'} :: c != b && c in ind ==> c in ind' && ind'[c] == ind[c]
    ensures Inv(bits[b := u != Free], inodes, ind', use[b := u])
  {
    var use' := use[b := u];
    forall i | i in inodes
      ensures Ok(inodes, ind', use', i)
    {
      assert Ok(inodes, ind, use, i);
      SameBlocks(inodes[i], ind, ind', use, use', i);
    }
    forall c | c in use'
      ensures Backed(inodes, ind', c, use'[c])
    {
      if c != b {
        assert Backed(inodes, ind, c, use[c]);
        KeptBacking(inodes, ind, ind', use, b, c);
      }
    }
  }

  /** Changes outside an inode's own blocks do not concern it. */
  lemma SameBlocks(ip: Inode, ind: Indirect, ind': Indirect, use: Uses, use': Uses, i: nat)
    requires InodeOk(ip, ind, use, i)
    requires forall b {:trigger Owns(use, b, i)} :: Owns(use, b, i) ==> b in use' && use'[b] == use[b]
    requires forall b {:trigger ind'[b]} {:trigger b in ind'} :: Owns(use, b, i) && b in ind ==>
               b in ind' && ind'[b] == ind[b]
    ensures InodeOk(ip, ind', use', i) && forall bn :: BlockOf(ip, ind', bn) == BlockOf(ip, ind, bn)
  {
    var a := ip.addrs[NDIRECT];
    if a != 0 {
      assert Owns(use, a, i) && a in ind';
    }
    forall bn
      ensures BlockOf(ip, ind', bn) == BlockOf(ip, ind, bn)
    {
    }
    forall bn | 0 <= bn < MAXFILE && BlockOf(ip, ind', bn) != 0
      ensures BlockOf(ip, ind', bn) in use' && use'[BlockOf(ip, ind', bn)] == Data(i, bn)
    {
      assert Owns(use, BlockOf(ip, ind, bn), i);
    }
  }

  lemma KeptBacking(inodes: Inodes, ind: Indirect, ind': Indirect, use: Uses, b: nat, c: nat)
    requires forall i {:trigger Ok(inodes, ind, use, i)} :: i in inodes ==> Ok(inodes, ind, use, i)
    requires b in use && (use[b].Free? || use[b].Held?) && c in use && Backed(inodes, ind, c, use[c])
    requires forall c {:trigger ind'[c]} {:trigger c in ind'} :: c != b && c in ind ==> c in ind' && ind'[c] == ind[c]
    ensures Backed(inodes, ind', c, use[c])
  {
    if use[c].Data? {
      var i := use[c].inum;
      assert Ok(inodes, ind, use, i);
      SameBlocks(inodes[i], ind, ind', use, use, i);
    }
  }

  /** A held block becomes file block bn of inode i, wherever its address is kept. */
  lemma AssignInv(bits: Bitmap, inodes: Inodes, ip: Inode, ind: Indirect, ind': Indirect, use: Uses, i: nat, bn: nat,
                  b: nat)
    requires Inv(bits, inodes, ind, use) && i in inodes && bn < MAXFILE && b in use && use[b] == Held
    requires |ip.addrs| == NDIRECT + 1 && ip.size == inodes[i].size && |inodes[i].addrs| == NDIRECT + 1
    requires ip.addrs[NDIRECT] == inodes[i].addrs[NDIRECT]
    requires BlockOf(inodes[i], ind, bn) == 0 && BlockOf(ip, ind', bn) == b
    requires forall k {:trigger BlockOf(ip, ind', k)} :: 0 <= k < MAXFILE && k != bn ==>
               BlockOf(ip, ind', k) == BlockOf(inodes[i], ind, k)
    requires forall c {:trigger ind'[c]} {:trigger c in ind'} :: c in ind ==>
               c in ind' && |ind'[c]| == |ind[c]| && (c != ip.addrs[NDIRECT] ==> ind'[c] == ind[c])
    ensures Inv(bits, inodes[i := ip], ind', use[b := Data(i, bn)])
  {
    var use', inodes' := use[b := Data(i, bn)], inodes[i := ip];
    assert Ok(inodes, ind, use, i);
    forall j | j in inodes'
      ensures Ok(inodes', ind', use', j)
    {
      assert Ok(inodes, ind, use, j);
      if j == i {
        OwnAssign(inodes[i], ip, ind, ind', use, i, bn, b);
      } else {
        SameBlocks(inodes[j], ind, ind', use, use', j);
      }
    }
    forall c | c in use'
      ensures Backed(inodes', ind', c, use'[c])
    {
      assert Backed(inodes, ind, c, use[c]);
      if c != b && use[c].Data? && use[c].inum != i {
        assert Ok(inodes, ind, use, use[c].inum);
        SameBlocks(inodes[use[c].inum], ind, ind', use, use', use[c].inum);
      }
    }
  }

  lemma OwnAssign(ip: Inode, ip': Inode, ind: Indirect, ind': Indirect, use: Uses, i: nat, bn: nat, b: nat)
    requires InodeOk(ip, ind, use, i) && bn < MAXFILE && b in use && use[b] == Held
    requires |ip'.addrs| == NDIRECT + 1 && ip'.size == ip.size && ip'.addrs[NDIRECT] == ip.addrs[NDIRECT]
    requires BlockOf(ip', ind', bn) == b
    requires forall k {:trigger BlockOf(ip', ind', k)} :: 0 <= k < MAXFILE && k != bn ==>
               BlockOf(ip', ind', k) == BlockOf(ip, ind, k)
    requires forall c {:trigger c in ind'} :: c in ind ==> c in ind' && |ind'[c]| == |ind[c]|
    ensures InodeOk(ip', ind', use[b := Data(i, bn)], i)
  {
    var use' := use[b := Data(i, bn)];
    forall k | 0 <= k < MAXFILE && BlockOf(ip', ind', k) != 0
      ensures BlockOf(ip', ind', k) in use' && use'[BlockOf(ip', ind', k)] == Data(i, k)
    {
      if k != bn {
        assert BlockOf(ip, ind, k) != 0;
      }
    }
    if ip.addrs[NDIRECT] != 0 {
      assert ip.addrs[NDIRECT] in ind';
    }
  }

  /** A held, zeroed block becomes the indirect block of inode i; no file block moves. */
  lemma IndirectInv(bits: Bitmap, inodes: Inodes, ind: Indirect, use: Uses, i: nat, b: nat)
    requires Inv(bits, inodes, ind, use) && i in inodes && |inodes[i].addrs| == NDIRECT + 1
             && inodes[i].addrs[NDIRECT] == 0
    requires b in use && use[b] == Held && b in ind && ind[b] == seq(NINDIRECT, _ => 0)
    ensures var ip := inodes[i].(addrs := inodes[i].addrs[NDIRECT := b]);
            && Inv(bits, inodes[i := ip], ind, use[b := Ind(i)])
            && forall k :: BlockOf(ip, ind, k) == BlockOf(inodes[i], ind, k)
  {
    var ip := inodes[i].(addrs := inodes[i].addrs[NDIRECT := b]);
    var use', inodes' := use[b := Ind(i)], inodes[i := ip];
    assert Ok(inodes, ind, use, i);
    forall k
      ensures BlockOf(ip, ind, k) == BlockOf(inodes[i], ind, k)
    {
    }
    forall j | j in inodes'
      ensures Ok(inodes', ind, use', j)
    {
      assert Ok(inodes, ind, use, j);
      if j == i {
        assert InodeOk(ip, ind, use', i) by {
          forall k | 0 <= k < MAXFILE && BlockOf(ip, ind, k) != 0
            ensures BlockOf(ip, ind, k) in use' && use'[BlockOf(ip, ind, k)] == Data(i, k)
          {
            assert BlockOf(inodes[i], ind, k) != 0;
          }
        }
      } else {
        SameBlocks(inodes[j], ind, ind, use, use', j);
      }
    }
    forall c | c in use'
      ensures Backed(inodes', ind, c, use'[c])
    {
      assert Backed(inodes, ind, c, use[c]);
    }
  }

  // ---- what a file says ----

  /** Byte k of the file; 0 where it has no block. */
  function ByteAt(ip: Inode, ind: Indirect, data: Blocks, k: nat): bv8 {
    if BlockOf(ip, ind, k / BSIZE) != 0 && BlockOf(ip, ind, k / BSIZE) in data
      && |data[BlockOf(ip, ind, k / BSIZE)]| == BSIZE
    then data[BlockOf(ip, ind, k / BSIZE)][k % BSIZE] else 0
  }

  /** The file's contents. */
  function Content(ip: Inode, ind: Indirect, data: Blocks): (c: seq<bv8>)
    ensures |c| == ip.size && forall k {:trigger c[k]} :: 0 <= k < |c| ==> c[k] == ByteAt(ip, ind, data, k)
  {
    seq(ip.size, k requires 0 <= k => ByteAt(ip, ind, data, k))
  }

  /** Every file reads as before, with the size it had. */
  ghost predicate SameBytes(inodes: Inodes, ind: Indirect, data: Blocks, inodes': Inodes, ind': Indirect,
                            data': Blocks) {
    && inodes'.Keys == inodes.Keys
    && (forall j {:trigger inodes'[j]} :: j in inodes ==> inodes'[j].size == inodes[j].size)
    && (forall j, k {:trigger ByteAt(inodes'[j], ind', data', k)} :: j in inodes && 0 <= k ==>
          ByteAt(inodes'[j], ind', data', k) == ByteAt(inodes[j], ind, data, k))
  }

  lemma SameBytesThen(n0: Inodes, i0: Indirect, d0: Blocks, n1: Inodes, i1: Indirect, d1: Blocks, n2: Inodes,
                      i2: Indirect, d2: Blocks)
    requires SameBytes(n0, i0, d0, n1, i1, d1) && SameBytes(n1, i1, d1, n2, i2, d2)
    ensures SameBytes(n0, i0, d0, n2, i2, d2)
  {
    forall j, k: nat | j in n0
      ensures ByteAt(n2[j], i2, d2, k) == ByteAt(n0[j], i0, d0, k)
    {
      var x := ByteAt(n1[j], i1, d1, k);
    }
    forall j | j in n0
      ensures n2[j].size == n0[j].size
    {
      var x := n1[j];
    }
  }

  /** A change to a block that no inode owns is not seen in any file. */
  lemma UnownedUnseen(bits: Bitmap, inodes: Inodes, ind: Indirect, ind': Indirect, use: Uses, data: Blocks,
                      data': Blocks, b: nat)
    requires Inv(bits, inodes, ind, use) && b in use && (use[b].Free? || use[b].Held?)
    requires forall c {:trigger ind'[c]} {:trigger c in ind'} :: c != b && c in ind ==> c in ind' && ind'[c] == ind[c]
    requires forall c {:trigger data'[c]} {:trigger c in data'} :: c != b ==>
               (c in data' <==> c in data) && (c in data ==> data'[c] == data[c])
    ensures SameBytes(inodes, ind, data, inodes, ind', data')
  {
    forall j, k: nat | j in inodes
      ensures ByteAt(inodes[j], ind', data', k) == ByteAt(inodes[j], ind, data, k)
    {
      assert Ok(inodes, ind, use, j);
      SameBlocks(inodes[j], ind, ind', use, use, j);
      var c := BlockOf(inodes[j], ind, k / BSIZE);
      assert c == BlockOf(inodes[j], ind', k / BSIZE);
      assert c == b ==> k / BSIZE < MAXFILE;
    }
  }

  function Zeroes(): (z: seq<bv8>)
    ensures |z| == BSIZE && forall k :: 0 <= k < BSIZE ==> z[k] == 0
  {
    seq(BSIZE, _ => 0)
  }

  /** A zeroed block where there was none is not seen in any file. */
  lemma AssignUnseen(bits: Bitmap, inodes: Inodes, ip: Inode, ind: Indirect, ind': Indirect, use: Uses, data: Blocks,
                     i: nat, bn: nat, b: nat)
    requires Inv(bits, inodes, ind, use) && i in inodes && ip.size == inodes[i].size
    requires BlockOf(inodes[i], ind, bn) == 0 && BlockOf(ip, ind', bn) == b && b in data && data[b] == Zeroes()
    requires forall k {:trigger BlockOf(ip, ind', k)} :: 0 <= k && k != bn ==>
               BlockOf(ip, ind', k) == BlockOf(inodes[i], ind, k)
    requires forall c {:trigger ind'[c]} {:trigger c in ind'} :: c in ind && !Owns(use, c, i) ==>
               c in ind' && ind'[c] == ind[c]
    ensures SameBytes(inodes, ind, data, inodes[i := ip], ind', data)
  {
    forall j, k: nat | j in inodes
      ensures ByteAt(inodes[i := ip][j], ind', data, k) == ByteAt(inodes[j], ind, data, k)
    {
      if j != i {
        assert Ok(inodes, ind, use, j);
        SameBlocks(inodes[j], ind, ind', use, use, j);
      }
    }
  }

  /** Every file block but block bn of inode i is where it was. */
  ghost predicate SameMap(inodes: Inodes, ind: Indirect, inodes': Inodes, ind': Indirect, i: nat, bn: nat) {
    && inodes'.Keys == inodes.Keys
    && (forall j {:trigger inodes'[j]} :: j in inodes && j != i ==> inodes'[j] == inodes[j])
    && (forall j, k {:trigger BlockOf(inodes'[j], ind', k)} :: j in inodes && 0 <= k && !(j == i && k == bn) ==>
          BlockOf(inodes'[j], ind', k) == BlockOf(inodes[j], ind, k))
  }

  lemma SameMapThen(n0: Inodes, i0: Indirect, n1: Inodes, i1: Indirect, n2: Inodes, i2: Indirect, i: nat, bn: nat)
    requires SameMap(n0, i0, n1, i1, i, bn) && SameMap(n1, i1, n2, i2, i, bn)
    ensures SameMap(n0, i0, n2, i2, i, bn)
  {
    forall j, k: nat | j in n0 && !(j == i && k == bn)
      ensures BlockOf(n2[j], i2, k) == BlockOf(n0[j], i0, k)
    {
      var x := BlockOf(n1[j], i1, k);
    }
    forall j | j in n0 && j != i
      ensures n2[j] == n0[j]
    {
      var x := n1[j];
    }
  }

  /** A change to a block that no inode owns moves no file block. */
  lemma UnownedSameMap(bits: Bitmap, inodes: Inodes, ind: Indirect, ind': Indirect, use: Uses, b: nat, i: nat, bn: nat)
    requires Inv(bits, inodes, ind, use) && b in use && (use[b].Free? || use[b].Held?)
    requires forall c {:trigger ind'[c]} {:trigger c in ind'} :: c != b && c in ind ==> c in ind' && ind'[c] == ind[c]
    ensures forall j, k {:trigger BlockOf(inodes[j], ind', k)} :: j in inodes && 0 <= k ==>
              BlockOf(inodes[j], ind', k) == BlockOf(inodes[j], ind, k)
    ensures SameMap(inodes, ind, inodes, ind', i, bn)
  {
    forall j, k: nat | j in inodes
      ensures BlockOf(inodes[j], ind', k) == BlockOf(inodes[j], ind, k)
    {
      assert Ok(inodes, ind, use, j);
      SameBlocks(inodes[j], ind, ind', use, use, j);
    }
  }

  lemma AssignSameMap(bits: Bitmap, inodes: Inodes, ip: Inode, ind: Indirect, ind': Indirect, use: Uses, i: nat,
                      bn: nat)
    requires Inv(bits, inodes, ind, use) && i in inodes
    requires forall k {:trigger BlockOf(ip, ind', k)} :: 0 <= k && k != bn ==>
               BlockOf(ip, ind', k) == BlockOf(inodes[i], ind, k)
    requires forall c {:trigger ind'[c]} {:trigger c in ind'} :: c in ind && !Owns(use, c, i) ==>
               c in ind' && ind'[c] == ind[c]
    ensures SameMap(inodes, ind, inodes[i := ip], ind', i, bn)
  {
    forall j, k: nat | j in inodes && !(j == i && k == bn)
      ensures BlockOf(inodes[i := ip][j], ind', k) == BlockOf(inodes[j], ind, k)
    {
      if j != i {
        assert Ok(inodes, ind, use, j);
        SameBlocks(inodes[j], ind, ind', use, use, j);
      }
    }
  }

  /** Blocks that stay put, and one that can only appear, keep every file full. */
  lemma StaysFull(inodes: Inodes, ind: Indirect, inodes': Inodes, ind': Indirect, i: nat, bn: nat)
    requires SameMap(inodes, ind, inodes', ind', i, bn) && i in inodes && inodes'[i].size == inodes[i].size
    requires BlockOf(inodes[i], ind, bn) != 0 ==> BlockOf(inodes'[i], ind', bn) != 0
    requires forall j {:trigger Full(inodes[j], ind)} :: j in inodes ==> Full(inodes[j], ind)
    ensures forall j {:trigger Full(inodes'[j], ind')} :: j in inodes' ==> Full(inodes'[j], ind')
  {
    forall j | j in inodes'
      ensures Full(inodes'[j], ind')
    {
      assert Full(inodes[j], ind);
      forall k: nat | k * BSIZE < inodes'[j].size
        ensures BlockOf(inodes'[j], ind', k) != 0
      {
        assert j != i ==> inodes'[j] == inodes[j];
        assert BlockOf(inodes[j], ind, k) != 0;
      }
    }
  }

  /** What one allocation by bmap comes to: the free block b, zeroed, is block bn of
      inode i, whose address is then kept in ip or in the indirect block. */
  lemma NewBlock(bits: Bitmap, inodes: Inodes, ip: Inode, ind: Indirect, ind': Indirect, use: Uses, data: Blocks,
                 i: nat, bn: nat, b: nat)
    requires Inv(bits, inodes, ind, use) && i in inodes && bn < MAXFILE && b in use && use[b] == Free
    requires |ip.addrs| == NDIRECT + 1 && ip.size == inodes[i].size && |inodes[i].addrs| == NDIRECT + 1
    requires ip.addrs[NDIRECT] == inodes[i].addrs[NDIRECT] && BlockOf(inodes[i], ind, bn) == 0
    requires var ind1 := ind[b := seq(NINDIRECT, _ => 0)];
             && BlockOf(ip, ind', bn) == b
             && (forall k {:trigger BlockOf(ip, ind', k)} ::
                  0 <= k && k != bn ==> BlockOf(ip, ind', k) == BlockOf(inodes[i], ind1, k))
             && (forall c {:trigger ind'[c]} {:trigger c in ind'} :: c in ind1 ==>
                   c in ind' && |ind'[c]| == |ind1[c]| && (c != ip.addrs[NDIRECT] ==> ind'[c] == ind1[c]))
             && (ind' != ind1 ==> ip.addrs[NDIRECT] != 0)
    ensures Inv(bits[b := true], inodes[i := ip], ind', use[b := Data(i, bn)])
    ensures SameBytes(inodes, ind, data, inodes[i := ip], ind', data[b := Zeroes()])
    ensures SameMap(inodes, ind, inodes[i := ip], ind', i, bn)
  {
    var ind1, data1, use1 := ind[b := seq(NINDIRECT, _ => 0)], data[b := Zeroes()], use[b := Held];
    RetagInv(bits, inodes, ind, ind1, use, b, Held);
    UnownedUnseen(bits, inodes, ind, ind1, use, data, data1, b);
    UnownedSameMap(bits, inodes, ind, ind1, use, b, i, bn);
    AssignInv(bits[b := true], inodes, ip, ind1, ind', use1, i, bn, b);
    assert use1[b := Data(i, bn)] == use[b := Data(i, bn)];
    assert Ok(inodes, ind1, use1, i);
    AssignUnseen(bits[b := true], inodes, ip, ind1, ind', use1, data1, i, bn, b);
    AssignSameMap(bits[b := true], inodes, ip, ind1, ind', use1, i, bn);
    SameBytesThen(inodes, ind, data, inodes, ind1, data1, inodes[i := ip], ind', data1);
    SameMapThen(inodes, ind, inodes, ind1, inodes[i := ip], ind', i, bn);
  }

  /** The same for the indirect block itself. */
  lemma NewIndirect(bits: Bitmap, inodes: Inodes, ind: Indirect, use: Uses, data: Blocks, i: nat, bn: nat, b: nat)
    requires Inv(bits, inodes, ind, use) && i in inodes && b in use && use[b] == Free
    requires |inodes[i].addrs| == NDIRECT + 1 && inodes[i].addrs[NDIRECT] == 0
    ensures var ip, ind' := inodes[i].(addrs := inodes[i].addrs[NDIRECT := b]), ind[b := seq(NINDIRECT, _ => 0)];
            && Inv(bits[b := true], inodes[i := ip], ind', use[b := Ind(i)])
            && SameBytes(inodes, ind, data, inodes[i := ip], ind', data[b := Zeroes()])
            && SameMap(inodes, ind, inodes[i := ip], ind', i, bn)
            && BlockOf(ip, ind', bn) == BlockOf(inodes[i], ind, bn)
  {
    var ip, ind' := inodes[i].(addrs := inodes[i].addrs[NDIRECT := b]), ind[b := seq(NINDIRECT, _ => 0)];
    var data', use1 := data[b := Zeroes()], use[b := Held];
    RetagInv(bits, inodes, ind, ind', use, b, Held);
    UnownedUnseen(bits, inodes, ind, ind', use, data, data', b);
    UnownedSameMap(bits, inodes, ind, ind', use, b, i, bn);
    IndirectInv(bits[b := true], inodes, ind', use1, i, b);
    assert use1[b := Ind(i)] == use[b := Ind(i)];
    forall j, k: nat | j in inodes
      ensures BlockOf(inodes[i := ip][j], ind', k) == BlockOf(inodes[j], ind, k)
      ensures ByteAt(inodes[i := ip][j], ind', data', k) == ByteAt(inodes[j], ind, data, k)
    {
      var x, y := BlockOf(inodes[j], ind', k), BlockOf(inodes[j], ind', k / BSIZE);
      assert ByteAt(inodes[i := ip][j], ind', data', k) == ByteAt(inodes[j], ind', data', k);
    }
  }

  /** The only blocks that changed hands were free and are now inode i's. */
  ghost predicate GrownUse(use: Uses, use': Uses, i: nat) {
    use'.Keys == use.Keys && forall b {:trigger use'[b]} :: b in use && use'[b] != use[b] ==>
        use[b] == Free && Owns(use', b, i)
  }

  /** What bmap may do: allocate block bn of inode i, and its indirect block, unseen
      by any reader. */
  ghost predicate Bmapped(n0: Inodes, i0: Indirect, d0: Blocks, u0: Uses, n1: Inodes, i1: Indirect, d1: Blocks,
                          u1: Uses, i: nat, bn: nat) {
    SameBytes(n0, i0, d0, n1, i1, d1) && SameMap(n0, i0, n1, i1, i, bn) && GrownUse(u0, u1, i)
      && KeepsIndirect(n0, n1, i)
  }

  /** An inode's indirect block, once it has one, stays the same. */
  ghost predicate KeepsIndirect(n0: Inodes, n1: Inodes, i: nat) {
    && i in n0 && i in n1 && |n0[i].addrs| == NDIRECT + 1 && |n1[i].addrs| == NDIRECT + 1
    && (n0[i].addrs[NDIRECT] != 0 ==> n1[i].addrs[NDIRECT] == n0[i].addrs[NDIRECT])
  }

  lemma BmappedThen(n0: Inodes, i0: Indirect, d0: Blocks, u0: Uses, n1: Inodes, i1: Indirect, d1: Blocks, u1: Uses,
                    n2: Inodes, i2: Indirect, d2: Blocks, u2: Uses, i: nat, bn: nat)
    requires Bmapped(n0, i0, d0, u0, n1, i1, d1, u1, i, bn) && Bmapped(n1, i1, d1, u1, n2, i2, d2, u2, i, bn)
    ensures Bmapped(n0, i0, d0, u0, n2, i2, d2, u2, i, bn)
  {
    SameBytesThen(n0, i0, d0, n1, i1, d1, n2, i2, d2);
    SameMapThen(n0, i0, n1, i1, n2, i2, i, bn);
    forall b | b in u0 && u2[b] != u0[b]
      ensures u0[b] == Free && Owns(u2, b, i)
    {
      var x := u1[b];
    }
  }

  // ---- writing ----

  /** Every file reads as before, but for these bytes of file i at off. */
  ghost predicate Wrote(n0: Inodes, i0: Indirect, d0: Blocks, n1: Inodes, i1: Indirect, d1: Blocks, i: nat, off: nat,
                        bytes: seq<bv8>) {
    && n1.Keys == n0.Keys
    && (forall j {:trigger n1[j]} :: j in n0 && j != i ==> n1[j] == n0[j])
    && (forall j, k {:trigger ByteAt(n1[j], i1, d1, k)} :: j in n0 && 0 <= k ==>
          ByteAt(n1[j], i1, d1, k) ==
              if j == i && off <= k < off + |bytes| then bytes[k - off] else ByteAt(n0[j], i0, d0, k))
  }

  /** Bytes copied into block bn of file i change that file there, and nothing else. */
  lemma PatchWrote(bits: Bitmap, inodes: Inodes, ind: Indirect, use: Uses, data: Blocks, i: nat, off: nat,
                   bytes: seq<bv8>)
    requires Inv(bits, inodes, ind, use) && i in inodes && off / BSIZE < MAXFILE
             && BlockOf(inodes[i], ind, off / BSIZE) != 0
    requires var b := BlockOf(inodes[i], ind, off / BSIZE);
             b in data && |data[b]| == BSIZE && off % BSIZE + |bytes| <= BSIZE
    ensures var b := BlockOf(inodes[i], ind, off / BSIZE);
            Wrote(inodes, ind, data, inodes, ind, data[b := Patch(data[b], off % BSIZE, bytes)], i, off, bytes)
  {
    var b := BlockOf(inodes[i], ind, off / BSIZE);
    var data' := data[b := Patch(data[b], off % BSIZE, bytes)];
    assert Ok(inodes, ind, use, i);
    forall j, k: nat | j in inodes
      ensures ByteAt(inodes[j], ind, data', k) ==
              if j == i && off <= k < off + |bytes| then bytes[k - off] else ByteAt(inodes[j], ind, data, k)
    {
      assert Ok(inodes, ind, use, j);
      if j == i && k / BSIZE == off / BSIZE {
        assert off <= k < off + |bytes| <==> off % BSIZE <= k % BSIZE < off % BSIZE + |bytes|;
      } else {
        var c := BlockOf(inodes[j], ind, k / BSIZE);
      }
    }
  }

  lemma WroteThen(n0: Inodes, i0: Indirect, d0: Blocks, n1: Inodes, i1: Indirect, d1: Blocks, n2: Inodes, i2: Indirect,
                  d2: Blocks,
                  i: nat, off: nat, x: seq<bv8>, y: seq<bv8>)
    requires Wrote(n0, i0, d0, n1, i1, d1, i, off, x) && Wrote(n1, i1, d1, n2, i2, d2, i, off + |x|, y)
    ensures Wrote(n0, i0, d0, n2, i2, d2, i, off, x + y)
  {
    forall j, k: nat | j in n0
      ensures ByteAt(n2[j], i2, d2, k) ==
              if j == i && off <= k < off + |x + y| then (x + y)[k - off] else ByteAt(n0[j], i0, d0, k)
    {
      var m := ByteAt(n1[j], i1, d1, k);
    }
    forall j | j in n0 && j != i
      ensures n2[j] == n0[j]
    {
      var m := n1[j];
    }
  }

  lemma SliceMore(c: seq<bv8>, off: nat, pos: nat, m: nat)
    requires off <= pos <= pos + m <= |c|
    ensures c[off..pos] + c[pos..pos + m] == c[off..pos + m]
  {
  }

  lemma SlicesJoin(src: seq<bv8>, k: nat, n: nat, s: nat)
    requires k + n <= |src| && s <= n
    ensures src[..k] + src[k..k + n][..s] == src[..k + s]
  {
    assert src[k..k + n][..s] == src[k..k + s];
  }

  /** An allocation followed by a write is, to readers, the write. */
  lemma BmappedWrote(n0: Inodes, i0: Indirect, d0: Blocks, u0: Uses, n1: Inodes, i1: Indirect, d1: Blocks, u1: Uses,
                     d2: Blocks,
                     i: nat, bn: nat, off: nat, bytes: seq<bv8>)
    requires Bmapped(n0, i0, d0, u0, n1, i1, d1, u1, i, bn) && Wrote(n1, i1, d1, n1, i1, d2, i, off, bytes)
    ensures Wrote(n0, i0, d0, n1, i1, d2, i, off, bytes)
  {
    forall j, k: nat | j in n0
      ensures ByteAt(n1[j], i1, d2, k) ==
                if j == i && off <= k < off + |bytes| then bytes[k - off] else ByteAt(n0[j], i0, d0, k)
    {
      var m := ByteAt(n1[j], i1, d1, k);
    }
  }

  /** Every block below byte n is there. */
  ghost predicate Covered(ip: Inode, ind: Indirect, n: nat) {
    forall bn {:trigger BlockOf(ip, ind, bn)} :: 0 <= bn && bn * BSIZE < n ==> BlockOf(ip, ind, bn) != 0
  }

  /** Block c is one of file blocks lo to hi. */
  ghost predicate AmongBlocks(ip: Inode, ind: Indirect, c: nat, lo: nat, hi: nat) {
    exists bn {:trigger BlockOf(ip, ind, bn)} :: lo <= bn < hi && BlockOf(ip, ind, bn) == c
  }

  /** Blocks named before block bn was mapped are named still. */
  lemma AmongKept(n0: Inodes, i0: Indirect, n1: Inodes, i1: Indirect, i: nat, bn: nat, c: nat, lo: nat, hi: nat)
    requires SameMap(n0, i0, n1, i1, i, bn) && i in n0 && hi <= bn && AmongBlocks(n0[i], i0, c, lo, hi)
    ensures AmongBlocks(n1[i], i1, c, lo, bn + 1)
  {
    var k :| lo <= k < hi && BlockOf(n0[i], i0, k) == c;
    assert BlockOf(n1[i], i1, k) == c;
  }

  lemma CoveredMore(n0: Inodes, i0: Indirect, n1: Inodes, i1: Indirect, i: nat, off: nat, m: nat)
    requires SameMap(n0, i0, n1, i1, i, off / BSIZE) && i in n0 && Covered(n0[i], i0, off)
    requires off % BSIZE + m <= BSIZE
             && (BlockOf(n1[i], i1, off / BSIZE) != 0 || (BlockOf(n0[i], i0, off / BSIZE) == 0 && m == 0))
    ensures Covered(n1[i], i1, off + m)
  {
    forall k: nat | k * BSIZE < off + m
      ensures BlockOf(n1[i], i1, k) != 0
    {
      if k * BSIZE < off {
        assert BlockOf(n0[i], i0, k) != 0;
      }
    }
  }

  /** c with bytes put in at off, reaching past its end if need be. */
  function Splice(c: seq<bv8>, off: nat, bytes: seq<bv8>): seq<bv8>
    requires off <= |c|
  {
    c[..off] + bytes + if off + |bytes| <= |c| then c[off + |bytes|..] else []
  }

  lemma WroteSplice(n0: Inodes, i0: Indirect, d0: Blocks, n1: Inodes, i1: Indirect, d1: Blocks, i: nat, off: nat,
                    bytes: seq<bv8>)
    requires Wrote(n0, i0, d0, n1, i1, d1, i, off, bytes) && i in n0 && off <= n0[i].size
    requires n1[i].size == if off + |bytes| > n0[i].size then off + |bytes| else n0[i].size
    ensures Content(n1[i], i1, d1) == Splice(Content(n0[i], i0, d0), off, bytes)
  {
    var c, c' := Content(n0[i], i0, d0), Content(n1[i], i1, d1);
    var s := Splice(c, off, bytes);
    assert |s| == |c'|;
    forall k | 0 <= k < |c'|
      ensures c'[k] == s[k]
    {
    }
  }

  /** Every file but i has the contents it had. */
  ghost predicate OthersKept(n0: Inodes, i0: Indirect, d0: Blocks, n1: Inodes, i1: Indirect, d1: Blocks, i: nat) {
    n1.Keys == n0.Keys && forall j {:trigger n1[j]} :: j in n0 && j != i ==>
      Content(n1[j], i1, d1) == Content(n0[j], i0, d0)
  }

  lemma WroteKeeps(n0: Inodes, i0: Indirect, d0: Blocks, n1: Inodes, i1: Indirect, d1: Blocks, i: nat, off: nat,
                   bytes: seq<bv8>)
    requires Wrote(n0, i0, d0, n1, i1, d1, i, off, bytes)
    ensures OthersKept(n0, i0, d0, n1, i1, d1, i)
  {
    forall j | j in n0 && j != i
      ensures Content(n1[j], i1, d1) == Content(n0[j], i0, d0)
    {
      SameContent(n0, i0, d0, n1, i1, d1, i, off, bytes, j);
    }
  }

  /** A file that reads as before is as it was. */
  lemma SameContent(n0: Inodes, i0: Indirect, d0: Blocks, n1: Inodes, i1: Indirect, d1: Blocks, i: nat, off: nat,
                    bytes: seq<bv8>, j: nat)
    requires Wrote(n0, i0, d0, n1, i1, d1, i, off, bytes) && j in n0 && j != i
    ensures Content(n1[j], i1, d1) == Content(n0[j], i0, d0)
  {
    var c, c' := Content(n0[j], i0, d0), Content(n1[j], i1, d1);
    forall k | 0 <= k < |c'|
      ensures c'[k] == c[k]
    {
      assert c'[k] == ByteAt(n1[j], i1, d1, k);
    }
  }

  ghost predicate AllSet(bits: Bitmap) {
    forall c :: 0 <= c < |bits| ==> bits[c]
  }

  /** How writei ends that reports r of len bytes and has stored `stored`, when its
      source can be read for `fault` bytes. It reports whole blocks only; it has stored
      more than it reports if and only if the source fails within a block, unless the
      disk was full before it got there, and then by less than a block. */
  ghost predicate Partial(off: nat, len: nat, fault: nat, r: nat, stored: nat, full: bool) {
    && r <= stored <= len && stored <= fault
    && (0 < r < len ==> (off + r) % BSIZE == 0)
    && (r < len ==> stored == fault || full)
    && (stored > r ==> stored == fault && 0 < fault < len && (off + fault) % BSIZE != 0 && fault - r < BSIZE)
    && (stored == r && 0 < fault < len && (off + fault) % BSIZE != 0 ==> full)
  }

  /** The same for filewrite, which writes chunk by chunk; where a chunk begins, too, a
      failing source leaves nothing extra. `stopped` says that the disk was full or a
      chunk refused. */
  ghost predicate PartialFile(off: nat, len: nat, fault: nat, done: nat, stored: nat, stopped: bool) {
    && done <= stored <= len && stored <= fault
    && (done < len ==> stored == fault || stopped)
    && (stored > done ==> stored == fault && 0 < fault < len && fault % MAXCHUNK != 0
                          && (off + fault) % BSIZE != 0 && fault - done < BSIZE)
    && (stored == done && 0 < fault < len && fault % MAXCHUNK != 0 && (off + fault) % BSIZE != 0 ==> stopped)
  }

  lemma ChunkEnds(off: nat, len: nat, fault: nat, k: nat, n: nat, r: nat, s: nat, full: bool)
    requires k % MAXCHUNK == 0 && k < len && k <= fault && n == if len - k > MAXCHUNK then MAXCHUNK else len - k
    requires Partial(off + k, n, fault - k, r, s, full) && r < n
    ensures PartialFile(off, len, fault, k + r, k + s, full)
  {
    if 0 < fault - k < n {
      assert fault % MAXCHUNK == fault - k by {
        assert fault == (k / MAXCHUNK) * MAXCHUNK + (fault - k);
      }
    }
    if fault == k + MAXCHUNK {
      assert fault == (k / MAXCHUNK + 1) * MAXCHUNK;
    }
  }

  /** A write of len bytes at off to a file of this size is refused, at once or later. */
  predicate Refused(off: nat, len: nat, size: nat) {
    off > size || off + len > MAXFILE * BSIZE
  }

  /** Where filewrite's loop stands, in a file that had size0 bytes. */
  ghost predicate ChunkLoop(off: nat, len: nat, fault: nat, size0: nat, more: bool, k: nat, newoff: nat, stored: nat,
                            size: nat, full: bool) {
    && k <= len && off <= newoff && (k > 0 ==> off <= size0)
    && size == (if newoff > off && newoff > size0 then newoff else size0)
    && (more ==> newoff == off + k && stored == k <= fault && (k < len ==> k % MAXCHUNK == 0))
    && (!more ==> k < len && newoff < off + len
                  && PartialFile(off, len, fault, newoff - off, stored, full || Refused(off, len, size0)))
  }

  /** What writei of n bytes at pos comes to, in a file that had `size` bytes. */
  ghost predicate Result(pos: nat, n: nat, fault: nat, size: nat, r: int, s: nat, size': nat, full: bool) {
    && (r == -1 <==> pos > size || pos + n >= 0x1_0000_0000 || pos + n > MAXFILE * BSIZE)
    && (r == -1 ==> s == 0 && size' == size)
    && (r != -1 ==> 0 <= r <= s <= n && Partial(pos, n, fault, r, s, full)
                    && size' == if pos + r > size then pos + r else size)
  }

  /** How much filewrite writes next. */
  function ChunkSize(len: nat, k: nat): (n: nat)
    requires k < len
    ensures 0 < n <= MAXCHUNK && k + n <= len
  {
    var max := ((Disk.MAXOPBLOCKS - 1 - 1 - 2) / 2) * BSIZE;
    if len - k > max then max else len - k
  }

  /** One round of filewrite's loop, in which writei returned r, with `stored` bytes
      stored in all. */
  lemma ChunkStep(off: nat, len: nat, fault: nat, size0: nat, k: nat, pos: nat, size: nat, r: int, stored: nat,
                  size': nat, full: bool)
    requires k < len && k <= stored && ChunkLoop(off, len, fault, size0, true, k, pos, k, size, false)
    requires Result(pos, ChunkSize(len, k), fault - k, size, r, stored - k, size', full)
    ensures var more := r == ChunkSize(len, k);
            ChunkLoop(off, len, fault, size0, more, if more then k + r else k, if r > 0 then pos + r else pos, stored,
                      size', full)
  {
    var n := ChunkSize(len, k);
    if r == n {
      assert k + n < len ==> k + n == (k / MAXCHUNK + 1) * MAXCHUNK;
    } else if r != -1 {
      ChunkEnds(off, len, fault, k, n, r, stored - k, full);
    }
  }

  /** Where writei's loop stands after tot bytes, in file blocks below hi. */
  ghost predicate Rolling(off: nat, len: nat, fault: nat, tot: nat, hi: nat) {
    && tot <= len && tot <= fault && (0 < tot < len ==> (off + tot) % BSIZE == 0)
    && (tot < len ==> hi == (off + tot) / BSIZE) && hi <= (off + len + BSIZE - 1) / BSIZE
  }

  /** The size of its next round, and how much of that can be read. */
  function RoundSize(off: nat, len: nat, tot: nat): (m: nat)
    requires tot < len
    ensures 0 < m <= len - tot && (off + tot) % BSIZE + m <= BSIZE
  {
    if len - tot < BSIZE - (off + tot) % BSIZE then len - tot else BSIZE - (off + tot) % BSIZE
  }

  function Readable(fault: nat, tot: nat, m: nat): (k: nat)
    ensures k <= m
  {
    if tot + m <= fault then m else if tot <= fault then fault - tot else 0
  }

  /** A round of it that goes on with `next` bytes reported, or breaks off. */
  ghost predicate RoundDone(off: nat, len: nat, fault: nat, tot: nat, hi: nat, more: bool, next: nat, stored: nat,
                            full: bool) {
    if more then stored == next > tot && Rolling(off, len, fault, next, hi + 1)
    else next == tot && Partial(off, len, fault, tot, stored, full)
  }

  lemma RoundEnds(off: nat, len: nat, fault: nat, tot: nat, hi: nat, ok: bool, full: bool)
    requires tot < len && Rolling(off, len, fault, tot, hi) && (ok || full)
    ensures hi + 1 <= (off + len + BSIZE - 1) / BSIZE
    ensures var m := RoundSize(off, len, tot);
            var k := Readable(fault, tot, m);
            RoundDone(off, len, fault, tot, hi, ok && k == m, if ok && k == m then tot + m else tot,
                      if ok then tot + k else tot, full)
  {
    var m := RoundSize(off, len, tot);
    var k := Readable(fault, tot, m);
    var q := (off + tot) / BSIZE;
    if 0 < k < m {
      assert (off + fault) % BSIZE == (off + tot) % BSIZE + k by {
        assert off + fault == q * BSIZE + ((off + tot) % BSIZE + k);
      }
    }
    if tot + m < len {
      assert off + tot + m == (q + 1) * BSIZE;
    }
  }

  lemma PrefixMore(src: seq<bv8>, tot: nat, k: nat, ok: bool)
    requires tot + k <= |src|
    ensures src[..tot] + (if ok then src[tot..tot + k] else []) == src[..if ok then tot + k else tot]
  {
  }

  /** A new size for inode i, up to which its blocks are there. */
  lemma ResizeInv(bits: Bitmap, inodes: Inodes, ind: Indirect, use: Uses, i: nat, n: nat)
    requires Inv(bits, inodes, ind, use) && i in inodes && n <= MAXFILE * BSIZE
    ensures Inv(bits, inodes[i := inodes[i].(size := n)], ind, use)
    ensures forall k {:trigger BlockOf(inodes[i].(size := n), ind, k)} :: 0 <= k ==>
              BlockOf(inodes[i].(size := n), ind, k) == BlockOf(inodes[i], ind, k)
  {
    var ip, inodes' := inodes[i].(size := n), inodes[i := inodes[i].(size := n)];
    forall k: nat
      ensures BlockOf(ip, ind, k) == BlockOf(inodes[i], ind, k)
    {
    }
    forall j | j in inodes'
      ensures Ok(inodes', ind, use, j)
    {
      assert Ok(inodes, ind, use, j);
    }
    forall c | c in use
      ensures Backed(inodes', ind, c, use[c])
    {
      assert Backed(inodes, ind, c, use[c]);
    }
  }

  lemma ResizeWrote(n0: Inodes, i0: Indirect, d0: Blocks, n1: Inodes, i1: Indirect, d1: Blocks, i: nat, off: nat,
                    bytes: seq<bv8>, n: nat)
    requires Wrote(n0, i0, d0, n1, i1, d1, i, off, bytes) && i in n0
    ensures Wrote(n0, i0, d0, n1[i := n1[i].(size := n)], i1, d1, i, off, bytes)
  {
    var n2 := n1[i := n1[i].(size := n)];
    forall j, k: nat | j in n0
      ensures ByteAt(n2[j], i1, d1, k) == ByteAt(n1[j], i1, d1, k)
    {
      assert BlockOf(n2[j], i1, k / BSIZE) == BlockOf(n1[j], i1, k / BSIZE);
    }
  }

  const BPB := BSIZE * 8

  /** c is one of the bitmap blocks of a disk of n blocks. */
  ghost predicate IsBitmapBlock(n: nat, bmapstart: nat, c: nat) {
    exists b {:trigger b / BPB} :: 0 <= b < n && c == b / BPB + bmapstart
  }

  /** The log has gained bitmap blocks, the inode's indirect block, and its file
      blocks lo to hi, at most. */
  ghost predicate Logs(l0: set<nat>, l: set<nat>, n: nat, bmapstart: nat, ip: Inode, ind: Indirect, lo: nat, hi: nat) {
    forall c {:trigger c in l} :: c in l ==>
      c in l0 || IsBitmapBlock(n, bmapstart, c)
      || (c != 0 && NDIRECT < |ip.addrs| && c == ip.addrs[NDIRECT]) || AmongBlocks(ip, ind, c, lo, hi)
  }

  lemma LogsMore(l0: set<nat>, l1: set<nat>, l2: set<nat>, n: nat, bmapstart: nat,
                 n1: Inodes, i1: Indirect, n2: Inodes, i2: Indirect, i: nat, lo: nat, bn: nat)
    requires SameMap(n1, i1, n2, i2, i, bn) && KeepsIndirect(n1, n2, i) && lo <= bn
    requires Logs(l0, l1, n, bmapstart, n1[i], i1, lo, bn) && Logs(l1, l2, n, bmapstart, n2[i], i2, bn, bn + 1)
    ensures Logs(l0, l2, n, bmapstart, n2[i], i2, lo, bn + 1)
  {
    forall c | c in l2
      ensures c in l0 || IsBitmapBlock(n, bmapstart, c)
              || (c != 0 && c == n2[i].addrs[NDIRECT]) || AmongBlocks(n2[i], i2, c, lo, bn + 1)
    {
      if c in l1 && AmongBlocks(n1[i], i1, c, lo, bn) {
        AmongKept(n1, i1, n2, i2, i, bn, c, lo, bn);
      }
    }
  }

  /** What writei works on; `logged` are the blocks passed to log_write. */
  datatype State = State(inodes: Inodes, ind: Indirect, data: Blocks, use: Uses, logged: set<nat>)

  /** From s to s', file i got these bytes at pos, in one block, or that block could
      not be had; its size stayed. n is the size of the bitmap. */
  ghost predicate Stepped(s: State, s': State, n: nat, bmapstart: nat, i: nat, pos: nat, bytes: seq<bv8>) {
    && i in s.inodes && i in s'.inodes && s'.inodes[i].size == s.inodes[i].size && |s'.inodes[i].addrs| == NDIRECT + 1
    && Wrote(s.inodes, s.ind, s.data, s'.inodes, s'.ind, s'.data, i, pos, bytes) && GrownUse(s.use, s'.use, i)
    && SameMap(s.inodes, s.ind, s'.inodes, s'.ind, i, pos / BSIZE) && KeepsIndirect(s.inodes, s'.inodes, i)
    && pos % BSIZE + |bytes| <= BSIZE
    && (BlockOf(s'.inodes[i], s'.ind, pos / BSIZE) != 0
        || (BlockOf(s.inodes[i], s.ind, pos / BSIZE) == 0 && bytes == []))
    && Logs(s.logged, s'.logged, n, bmapstart, s'.inodes[i], s'.ind, pos / BSIZE, pos / BSIZE + 1)
  }

  /** From s to s', file i got these bytes at off, in blocks below hi that are all
      there; its size stayed. */
  ghost predicate Progress(s: State, s': State, n: nat, bmapstart: nat, i: nat, off: nat, bytes: seq<bv8>, hi: nat) {
    && i in s.inodes && i in s'.inodes && s'.inodes[i].size == s.inodes[i].size && |s'.inodes[i].addrs| == NDIRECT + 1
    && Wrote(s.inodes, s.ind, s.data, s'.inodes, s'.ind, s'.data, i, off, bytes) && GrownUse(s.use, s'.use, i)
    && Covered(s'.inodes[i], s'.ind, off + |bytes|)
    && Logs(s.logged, s'.logged, n, bmapstart, s'.inodes[i], s'.ind, off / BSIZE, hi)
  }

  lemma ProgressMore(s0: State, s1: State, s2: State, n: nat, bmapstart: nat, i: nat, off: nat, x: seq<bv8>,
                     y: seq<bv8>, pos: nat)
    requires pos == off + |x| && Progress(s0, s1, n, bmapstart, i, off, x, pos / BSIZE)
    requires Stepped(s1, s2, n, bmapstart, i, pos, y)
    ensures Progress(s0, s2, n, bmapstart, i, off, x + y, pos / BSIZE + 1)
  {
    WroteThen(s0.inodes, s0.ind, s0.data, s1.inodes, s1.ind, s1.data, s2.inodes, s2.ind, s2.data, i, off, x, y);
    UseThen(s0.use, s1.use, s2.use, i);
    CoveredMore(s1.inodes, s1.ind, s2.inodes, s2.ind, i, pos, |y|);
    LogsMore(s0.logged, s1.logged, s2.logged, n, bmapstart, s1.inodes, s1.ind, s2.inodes, s2.ind, i,
             off / BSIZE, pos / BSIZE);
  }

  /** From s to s' only file i changed: it got these bytes at off, and blocks that had
      been free. */
  ghost predicate Changed(s: State, s': State, i: nat, off: nat, bytes: seq<bv8>) {
    && i in s.inodes && i in s'.inodes && GrownUse(s.use, s'.use, i)
    && Wrote(s.inodes, s.ind, s.data, s'.inodes, s'.ind, s'.data, i, off, bytes)
  }

  lemma ChangedMore(s0: State, s1: State, s2: State, i: nat, off: nat, src: seq<bv8>, k: nat, n: nat, part: nat,
                    pos: nat)
    requires k + n <= |src| && part <= n && pos == off + k && Changed(s0, s1, i, off, src[..k])
    requires Changed(s1, s2, i, pos, src[k..k + n][..part])
    ensures Changed(s0, s2, i, off, src[..k + part])
  {
    SlicesJoin(src, k, n, part);
    UseThen(s0.use, s1.use, s2.use, i);
    WroteThen(s0.inodes, s0.ind, s0.data, s1.inodes, s1.ind, s1.data, s2.inodes, s2.ind, s2.data, i, off, src[..k],
              src[k..k + n][..part]);
  }

  lemma UseThen(u0: Uses, u1: Uses, u2: Uses, i: nat)
    requires GrownUse(u0, u1, i) && GrownUse(u1, u2, i)
    ensures GrownUse(u0, u2, i)
  {
    forall b | b in u0 && u2[b] != u0[b]
      ensures u0[b] == Free && Owns(u2, b, i)
    {
      var x := u1[b];
    }
  }

  /** A size up to which the blocks are there keeps every file full. */
  lemma StillFull(n0: Inodes, n1: Inodes, ind: Indirect, i: nat)
    requires i in n0 && i in n1 && n1 == n0[i := n0[i].(size := n1[i].size)] && Covered(n0[i], ind, n1[i].size)
    requires forall j {:trigger Full(n0[j], ind)} :: j in n0 ==> Full(n0[j], ind)
    ensures forall j {:trigger Full(n1[j], ind)} :: j in n1 ==> Full(n1[j], ind)
  {
    forall j | j in n1
      ensures Full(n1[j], ind)
    {
      assert Full(n0[j], ind);
      if j == i {
        forall k: nat | k * BSIZE < n1[i].size
          ensures BlockOf(n1[i], ind, k) != 0
        {
          assert BlockOf(n1[i], ind, k) == BlockOf(n0[i], ind, k);
        }
      }
    }
  }

  lemma SameLogs(l0: set<nat>, l: set<nat>, c: nat, n: nat, bmapstart: nat, ip: Inode, ip': Inode, ind: Indirect,
                 lo: nat, hi: nat)
    requires Logs(l0, l, n, bmapstart, ip, ind, lo, hi) && ip'.addrs == ip.addrs
    ensures Logs(l0 + {c}, l + {c}, n, bmapstart, ip', ind, lo, hi)
  {
    forall x | x in l + {c}
      ensures x in l0 + {c} || IsBitmapBlock(n, bmapstart, x)
              || (x != 0 && NDIRECT < |ip'.addrs| && x == ip'.addrs[NDIRECT]) || AmongBlocks(ip', ind, x, lo, hi)
    {
      if x != c && AmongBlocks(ip, ind, x, lo, hi) {
        var bn :| lo <= bn < hi && BlockOf(ip, ind, bn) == x;
        assert BlockOf(ip', ind, bn) == x;
      }
    }
  }

  lemma MoreLogs(l0: set<nat>, l: set<nat>, n: nat, bmapstart: nat, ip: Inode, ind: Indirect, lo: nat, hi: nat,
                 hi': nat)
    requires Logs(l0, l, n, bmapstart, ip, ind, lo, hi) && hi <= hi'
    ensures Logs(l0, l, n, bmapstart, ip, ind, lo, hi')
  {
  }

  /** Bytes of one block, read in place, are the file's. */
  lemma BlockRead(ip: Inode, ind: Indirect, data: Blocks, pos: nat, m: nat)
    requires pos % BSIZE + m <= BSIZE && pos + m <= ip.size && BlockOf(ip, ind, pos / BSIZE) != 0
    requires BlockOf(ip, ind, pos / BSIZE) in data && |data[BlockOf(ip, ind, pos / BSIZE)]| == BSIZE
    ensures data[BlockOf(ip, ind, pos / BSIZE)][pos % BSIZE..pos % BSIZE + m] == Content(ip, ind, data)[pos..pos + m]
  {
    var c, d := Content(ip, ind, data)[pos..pos + m], data[BlockOf(ip, ind, pos / BSIZE)][pos % BSIZE..pos % BSIZE + m];
    forall k | 0 <= k < m
      ensures c[k] == d[k]
    {
      assert (pos + k) / BSIZE == pos / BSIZE && (pos + k) % BSIZE == pos % BSIZE + k;
    }
  }

  /** With one bitmap block, a write to at most four file blocks logs at most seven. */
  lemma Footprint(c: nat, l: set<nat>, n: nat, bmapstart: nat, ip: Inode, ind: Indirect, lo: nat, hi: nat)
    requires Logs({c}, l, n, bmapstart, ip, ind, lo, hi) && n <= BPB && hi <= lo + 4 && NDIRECT < |ip.addrs|
    ensures |l| <= 7
  {
    var all := {c, bmapstart, ip.addrs[NDIRECT], BlockOf(ip, ind, lo), BlockOf(ip, ind, lo + 1),
                BlockOf(ip, ind, lo + 2), BlockOf(ip, ind, lo + 3)};
    forall x | x in l
      ensures x in all
    {
      if AmongBlocks(ip, ind, x, lo, hi) {
        var bn :| lo <= bn < hi && BlockOf(ip, ind, bn) == x;
        assert bn == lo || bn == lo + 1 || bn == lo + 2 || bn == lo + 3;
      } else if IsBitmapBlock(n, bmapstart, x) {
        var b :| 0 <= b < n && x == b / BPB + bmapstart;
        assert b / BPB == 0;
      }
    }
    SubsetSize(l, all);
  }

  // ---- truncating ----

  /** The bits after itrunc has freed the first k file blocks of inode i. */
  ghost predicate Freed(bits: Bitmap, use: Uses, i: nat, k: nat) {
    && (forall b :: b in use <==> 0 <= b < |bits|)
    && (forall b {:trigger bits[b]} :: 0 <= b < |bits| ==>
          (bits[b] <==> use[b] != Free && !(use[b].Data? && use[b].inum == i && use[b].bn < k)))
  }

  /** The next file block, if there is one, is still marked in use, and freeing it is
      freeing it alone. */
  lemma FreedStep(bits0: Bitmap, bits: Bitmap, inodes: Inodes, ind: Indirect, use: Uses, i: nat, k: nat)
    requires Inv(bits0, inodes, ind, use) && i in inodes && k < MAXFILE && Freed(bits, use, i, k)
    ensures var b := BlockOf(inodes[i], ind, k);
            if b == 0 then Freed(bits, use, i, k + 1)
            else b < |bits| && bits[b] && Freed(bits[b := false], use, i, k + 1)
  {
    var b := BlockOf(inodes[i], ind, k);
    assert Ok(inodes, ind, use, i);
    forall c | c in use && use[c] == Data(i, k)
      ensures c == b && b != 0
    {
      assert Backed(inodes, ind, c, use[c]);
    }
  }

  /** The uses once everything inode i owns is free. */
  function Truncated(use: Uses, i: nat): Uses {
    map b | b in use :: if Owns(use, b, i) then Free else use[b]
  }

  const EMPTY := Inode(0, seq(NDIRECT + 1, _ => 0))

  lemma TruncInv(bits0: Bitmap, bits: Bitmap, inodes: Inodes, ind: Indirect, use: Uses, i: nat)
    requires Inv(bits0, inodes, ind, use) && i in inodes && |bits| == |bits0|
    requires forall b {:trigger bits[b]} :: 0 <= b < |bits| ==> (bits[b] <==> use[b] != Free && !Owns(use, b, i))
    ensures Inv(bits, inodes[i := EMPTY], ind, Truncated(use, i))
    ensures forall k {:trigger BlockOf(EMPTY, ind, k)} :: 0 <= k ==> BlockOf(EMPTY, ind, k) == 0
  {
    var use', inodes' := Truncated(use, i), inodes[i := EMPTY];
    forall j | j in inodes'
      ensures Ok(inodes', ind, use', j)
    {
      if j != i {
        assert Ok(inodes, ind, use, j);
        SameBlocks(inodes[j], ind, ind, use, use', j);
      }
    }
    forall c | c in use'
      ensures Backed(inodes', ind, c, use'[c])
    {
      assert Backed(inodes, ind, c, use[c]);
    }
  }

  /** All file blocks freed, and the indirect block: nothing of inode i is left. */
  lemma AllFreed(bits0: Bitmap, bits: Bitmap, inodes: Inodes, ind: Indirect, use: Uses, i: nat, a: nat)
    requires Inv(bits0, inodes, ind, use) && i in inodes && |inodes[i].addrs| == NDIRECT + 1
             && inodes[i].addrs[NDIRECT] == a
    requires a < |bits| && a != 0 && !bits[a] && exists bits1 ::
               Freed(bits1, use, i, MAXFILE) && a < |bits1| && bits == bits1[a := false]
    ensures forall b {:trigger bits[b]} :: 0 <= b < |bits| ==> (bits[b] <==> use[b] != Free && !Owns(use, b, i))
  {
    var bits1 :| Freed(bits1, use, i, MAXFILE) && a < |bits1| && bits == bits1[a := false];
    assert Ok(inodes, ind, use, i);
    forall b | 0 <= b < |bits|
      ensures bits[b] <==> use[b] != Free && !Owns(use, b, i)
    {
      assert b in use && Backed(inodes, ind, b, use[b]);
      assert b != a ==> bits[b] == bits1[b];
    }
  }

  lemma NoneLeft(bits0: Bitmap, bits: Bitmap, inodes: Inodes, ind: Indirect, use: Uses, i: nat)
    requires Inv(bits0, inodes, ind, use) && i in inodes && |inodes[i].addrs| == NDIRECT + 1
             && inodes[i].addrs[NDIRECT] == 0
    requires Freed(bits, use, i, NDIRECT)
    ensures forall b {:trigger bits[b]} :: 0 <= b < |bits| ==> (bits[b] <==> use[b] != Free && !Owns(use, b, i))
  {
    forall b | 0 <= b < |bits|
      ensures bits[b] <==> use[b] != Free && !Owns(use, b, i)
    {
      assert b in use && Backed(inodes, ind, b, use[b]);
    }
  }

  lemma AddInv(bits: Bitmap, inodes: Inodes, ind: Indirect, use: Uses, i: nat)
    requires Inv(bits, inodes, ind, use) && i !in inodes
    ensures Inv(bits, inodes[i := EMPTY], ind, use)
    ensures forall k {:trigger BlockOf(EMPTY, ind, k)} :: 0 <= k ==> BlockOf(EMPTY, ind, k) == 0
  {
    var inodes' := inodes[i := EMPTY];
    forall j | j in inodes'
      ensures Ok(inodes', ind, use, j)
    {
      if j != i {
        assert Ok(inodes, ind, use, j);
      }
    }
    forall c | c in use
      ensures Backed(inodes', ind, c, use[c])
    {
      assert Backed(inodes, ind, c, use[c]);
    }
  }

  lemma RemoveInv(bits: Bitmap, inodes: Inodes, ind: Indirect, use: Uses, i: nat)
    requires Inv(bits, inodes, ind, use) && i in inodes && inodes[i] == EMPTY
    ensures Inv(bits, inodes - {i}, ind, use)
  {
    var inodes' := inodes - {i};
    forall j | j in inodes'
      ensures Ok(inodes', ind, use, j)
    {
      assert Ok(inodes, ind, use, j);
    }
    forall c | c in use
      ensures Backed(inodes', ind, c, use[c])
    {
      assert Backed(inodes, ind, c, use[c]);
    }
  }

  /** Between operations no block is in hand. */
  ghost predicate AtRest(use: Uses) {
    forall b {:trigger use[b]} :: b in use ==> use[b] != Held
  }

  /** Block b is one of the file's blocks, or its indirect block. */
  ghost predicate Has(ip: Inode, ind: Indirect, b: nat) {
    b != 0 && ((NDIRECT < |ip.addrs| && ip.addrs[NDIRECT] == b)
               || exists k {:trigger BlockOf(ip, ind, k)} :: 0 <= k < MAXFILE && BlockOf(ip, ind, k) == b)
  }

  /** What the uses mean: between operations a bit is set exactly for metadata and for
      the blocks of files, never for both; no two files share a block; and no file
      uses a block twice. */
  lemma OneOwner(bits: Bitmap, inodes: Inodes, ind: Indirect, use: Uses, b: nat)
    requires Inv(bits, inodes, ind, use) && AtRest(use) && b < |bits|
    ensures bits[b] <==> use[b] == Meta || exists i {:trigger inodes[i]} :: i in inodes && Has(inodes[i], ind, b)
    ensures forall i {:trigger inodes[i]} :: i in inodes && Has(inodes[i], ind, b) ==> use[b] != Meta
    ensures forall i, j {:trigger inodes[i], inodes[j]} ::
              i in inodes && j in inodes && Has(inodes[i], ind, b) && Has(inodes[j], ind, b) ==> i == j
    ensures forall i, k, l {:trigger BlockOf(inodes[i], ind, k), BlockOf(inodes[i], ind, l)} ::
              i in inodes && 0 <= k < MAXFILE && 0 <= l < MAXFILE
              && BlockOf(inodes[i], ind, k) == BlockOf(inodes[i], ind, l) == b != 0 ==>
                k == l && (NDIRECT < |inodes[i].addrs| ==> inodes[i].addrs[NDIRECT] != b)
  {
    forall i | i in inodes && Has(inodes[i], ind, b)
      ensures Owns(use, b, i)
    {
      assert Ok(inodes, ind, use, i);
    }
    assert Backed(inodes, ind, b, use[b]);
    if bits[b] && use[b] != Meta {
      var i := use[b].inum;
      assert i in inodes && Has(inodes[i], ind, b);
    }
    forall i | i in inodes
      ensures InodeOk(inodes[i], ind, use, i)
    {
      assert Ok(inodes, ind, use, i);
    }
  }
}
