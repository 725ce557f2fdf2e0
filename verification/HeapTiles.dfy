/** The heap of xv6/user/umalloc.c seen whole: consecutive blocks, free or live,
    that tile the memory obtained from sbrk. Addresses and sizes are in Header
    units. */
module HeapTiles {
  import opened Distinctness
  import opened FreeRing

  const BASE := 0   // the address of `base`, below the heap

  datatype Tile = Tile(addr: nat, size: nat, free: bool)

  type Tiles = seq<Tile>

  function End(ts: Tiles, lo: nat): nat {
    if ts == [] then lo else ts[|ts| - 1].addr + ts[|ts| - 1].size
  }

  /** The tiles follow one another without gap or overlap, from lo on. */
  ghost predicate Tiled(ts: Tiles, lo: nat) {
    && (forall i :: 0 <= i < |ts| ==> ts[i].size > 0)
    && (forall i :: 0 <= i < |ts| ==> ts[i].addr == End(ts[..i], lo))
  }

  /** No two neighbours are both free. */
  ghost predicate Coalesced(ts: Tiles) {
    forall i, j :: 0 <= i < |ts| && j == i + 1 && j < |ts| ==> !(ts[i].free && ts[j].free)
  }

  /** The free list, in address order. */
  function FreeAddrs(ts: Tiles): seq<nat> {
    if ts == [] then []
    else FreeAddrs(ts[..|ts| - 1]) + if ts[|ts| - 1].free then [ts[|ts| - 1].addr] else []
  }

  function Units(ts: Tiles, free: bool): nat {
    if ts == [] then 0
    else Units(ts[..|ts| - 1], free) + if ts[|ts| - 1].free == free then ts[|ts| - 1].size else 0
  }

  lemma {:induction false} FreeAppend(a: Tiles, b: Tiles)
    ensures FreeAddrs(a + b) == FreeAddrs(a) + FreeAddrs(b)
  {
    if b == [] {
      assert a + b == a;
    } else {
      var n := |b| - 1;
      FreeAppend(a, b[..n]);
      assert (a + b)[..|a + b| - 1] == a + b[..n];
    }
  }

  lemma TiledPrefix(ts: Tiles, lo: nat, n: nat)
    requires Tiled(ts, lo) && n <= |ts|
    ensures Tiled(ts[..n], lo)
  {
    forall i | 0 <= i < n
      ensures ts[..n][i].addr == End(ts[..n][..i], lo)
    {
      assert ts[..n][..i] == ts[..i];
    }
  }

  lemma TiledSuffix(ts: Tiles, lo: nat, n: nat)
    requires Tiled(ts, lo) && n <= |ts|
    ensures Tiled(ts[n..], End(ts[..n], lo))
  {
    forall i | 0 <= i < |ts| - n
      ensures ts[n..][i].addr == End(ts[n..][..i], End(ts[..n], lo))
    {
      assert ts[n + i].addr == End(ts[..n + i], lo);
      if i > 0 {
        assert ts[n..][..i][i - 1] == ts[..n + i][n + i - 1];
      }
    }
  }

  lemma TiledJoin(a: Tiles, b: Tiles, lo: nat)
    requires Tiled(a, lo) && Tiled(b, End(a, lo))
    ensures Tiled(a + b, lo) && End(a + b, lo) == End(b, End(a, lo))
  {
    forall i | 0 <= i < |a + b|
      ensures (a + b)[i].addr == End((a + b)[..i], lo)
    {
      if i < |a| {
        assert (a + b)[..i] == a[..i];
      } else {
        assert (a + b)[..i] == a + b[..i - |a|];
        assert b[i - |a|].addr == End(b[..i - |a|], End(a, lo));
      }
    }
  }

  ghost predicate Ascending(s: seq<nat>) {
    forall i, j :: 0 <= i < j < |s| ==> s[i] < s[j]
  }

  /** The free list is ascending and lies within the heap. */
  lemma {:induction false} FreeSorted(ts: Tiles, lo: nat)
    requires Tiled(ts, lo)
    ensures Ascending(FreeAddrs(ts)) && lo <= End(ts, lo)
    ensures forall k :: 0 <= k < |FreeAddrs(ts)| ==> lo <= FreeAddrs(ts)[k] < End(ts, lo)
  {
    if ts != [] {
      var n := |ts| - 1;
      TiledPrefix(ts, lo, n);
      FreeSorted(ts[..n], lo);
      assert ts[n].addr == End(ts[..n], lo);
    }
  }

  /** Every unit obtained from sbrk is free or live. */
  lemma {:induction false} UnitsConserved(ts: Tiles, lo: nat)
    requires Tiled(ts, lo)
    ensures Units(ts, true) + Units(ts, false) == End(ts, lo) - lo
  {
    if ts != [] {
      var n := |ts| - 1;
      TiledPrefix(ts, lo, n);
      UnitsConserved(ts[..n], lo);
      assert ts[n].addr == End(ts[..n], lo);
    }
  }

  /** Tiles do not overlap. */
  lemma {:induction false} TilesDisjoint(ts: Tiles, lo: nat, i: nat, j: nat)
    requires Tiled(ts, lo) && i < j < |ts|
    ensures ts[i].addr + ts[i].size <= ts[j].addr
    decreases j
  {
    assert ts[j].addr == End(ts[..j], lo);
    if i + 1 < j {
      TilesDisjoint(ts, lo, i, j - 1);
    }
  }

  ghost predicate IsLive(ts: Tiles, a: nat, n: nat) {
    Tile(a, n, false) in ts
  }

  /** Tiles j up to k replaced by mid. */
  function Splice(ts: Tiles, j: nat, k: nat, mid: Tiles): Tiles
    requires j <= k <= |ts|
  {
    ts[..j] + mid + ts[k..]
  }

  lemma SpliceTiled(ts: Tiles, lo: nat, j: nat, k: nat, mid: Tiles)
    requires Tiled(ts, lo) && j <= k <= |ts| && Tiled(mid, End(ts[..j], lo))
    requires End(mid, End(ts[..j], lo)) == End(ts[..k], lo)
    ensures Tiled(Splice(ts, j, k, mid), lo) && End(Splice(ts, j, k, mid), lo) == End(ts, lo)
  {
    TiledPrefix(ts, lo, j);
    TiledSuffix(ts, lo, k);
    TiledJoin(ts[..j], mid, lo);
    TiledJoin(ts[..j] + mid, ts[k..], lo);
    assert k == |ts| ==> ts[..k] == ts;
  }

  lemma SpliceAt(ts: Tiles, j: nat, k: nat, mid: Tiles)
    requires j <= k <= |ts|
    ensures var r, m := Splice(ts, j, k, mid), |mid|;
            forall x :: 0 <= x < |r| ==>
              r[x] == if x < j then ts[x] else if x < j + m then mid[x - j] else ts[x - j - m + k]
  {
  }

  lemma SpliceCoalesced(ts: Tiles, j: nat, k: nat, mid: Tiles)
    requires Coalesced(ts) && Coalesced(mid) && j <= k <= |ts| && mid != []
    requires j > 0 ==> !(ts[j - 1].free && mid[0].free)
    requires k < |ts| ==> !(mid[|mid| - 1].free && ts[k].free)
    ensures Coalesced(Splice(ts, j, k, mid))
  {
    var r := Splice(ts, j, k, mid);
    var m := |mid|;
    SpliceAt(ts, j, k, mid);
    forall x, y | 0 <= x < |r| && y == x + 1 && y < |r|
      ensures !(r[x].free && r[y].free)
    {
      if y < j {
        assert !(ts[x].free && ts[y].free);
      } else if j <= x && y < j + m {
        var u, v := x - j, y - j;
        assert v == u + 1 && !(mid[u].free && mid[v].free);
      } else if x >= j + m {
        var u, v := x - j - m + k, y - j - m + k;
        assert v == u + 1 && !(ts[u].free && ts[v].free);
      }
    }
  }

  /** The tiles that freeing tile i merges: from First up to Past. */
  function First(ts: Tiles, i: nat): nat
    requires i < |ts|
  {
    if i > 0 && ts[i - 1].free then i - 1 else i
  }

  function Past(ts: Tiles, i: nat): nat
    requires i < |ts|
  {
    if i + 1 < |ts| && ts[i + 1].free then i + 2 else i + 1
  }

  function Merged(ts: Tiles, i: nat): Tile
    requires i < |ts|
  {
    Tile(ts[First(ts, i)].addr,
         (if First(ts, i) < i then ts[i - 1].size else 0) + ts[i].size
         + (if Past(ts, i) > i + 1 then ts[i + 1].size else 0),
         true)
  }

  /** Tile i freed and merged with its free neighbours. */
  function Freed(ts: Tiles, i: nat): Tiles
    requires i < |ts|
  {
    Splice(ts, First(ts, i), Past(ts, i), [Merged(ts, i)])
  }

  lemma FreedKeeps(ts: Tiles, lo: nat, i: nat)
    requires Tiled(ts, lo) && Coalesced(ts) && i < |ts| && !ts[i].free
    ensures Tiled(Freed(ts, i), lo) && End(Freed(ts, i), lo) == End(ts, lo)
    ensures Coalesced(Freed(ts, i))
  {
    var j, k, m := First(ts, i), Past(ts, i), [Merged(ts, i)];
    Span(ts, lo, j, k);
    assert Tiled(m, End(ts[..j], lo)) && End(m, End(ts[..j], lo)) == End(ts[..k], lo);
    SpliceTiled(ts, lo, j, k, m);
    assert j > 0 ==> !ts[j - 1].free;
    assert k < |ts| ==> !ts[k].free;
    SpliceCoalesced(ts, j, k, m);
  }

  /** What n units taken from the end of a free tile leave of it. */
  function Cut(t: Tile, n: nat): Tiles
    requires 0 < n <= t.size
  {
    if t.size == n then [t.(free := false)]
    else [Tile(t.addr, t.size - n, true), Tile(t.addr + t.size - n, n, false)]
  }

  function Taken(ts: Tiles, i: nat, n: nat): Tiles
    requires i < |ts| && 0 < n <= ts[i].size
  {
    Splice(ts, i, i + 1, Cut(ts[i], n))
  }

  lemma TakenKeeps(ts: Tiles, lo: nat, i: nat, n: nat)
    requires Tiled(ts, lo) && Coalesced(ts) && i < |ts| && ts[i].free && 0 < n <= ts[i].size
    ensures Tiled(Taken(ts, i, n), lo) && End(Taken(ts, i, n), lo) == End(ts, lo)
    ensures Coalesced(Taken(ts, i, n))
  {
    var m := Cut(ts[i], n);
    Span(ts, lo, i, i + 1);
    assert Tiled(m, End(ts[..i], lo)) && End(m, End(ts[..i], lo)) == End(ts[..i + 1], lo);
    SpliceTiled(ts, lo, i, i + 1, m);
    assert i > 0 ==> !ts[i - 1].free;
    SpliceCoalesced(ts, i, i + 1, m);
  }

  /** Where up to three consecutive tiles begin and end. */
  lemma Span(ts: Tiles, lo: nat, j: nat, k: nat)
    requires Tiled(ts, lo) && j < k <= |ts| && k <= j + 3
    ensures ts[j].addr == End(ts[..j], lo)
    ensures End(ts[..k], lo) == ts[j].addr + ts[j].size + (if k > j + 1 then ts[j + 1].size else 0)
                                + if k > j + 2 then ts[j + 2].size else 0
  {
    assert ts[j].addr == End(ts[..j], lo);
    if k > j + 1 {
      assert ts[j + 1].addr == End(ts[..j + 1], lo);
    }
    if k > j + 2 {
      assert ts[j + 2].addr == End(ts[..j + 2], lo);
    }
  }

  lemma SpliceFree(ts: Tiles, j: nat, k: nat, mid: Tiles)
    requires j <= k <= |ts|
    ensures FreeAddrs(Splice(ts, j, k, mid)) == FreeAddrs(ts[..j]) + FreeAddrs(mid) + FreeAddrs(ts[k..])
  {
    FreeAppend(ts[..j], mid);
    FreeAppend(ts[..j] + mid, ts[k..]);
  }

  /** Every entry of the free list is the address of a free tile. */
  lemma {:induction false} FreeTileAt(ts: Tiles, q: nat) returns (m: nat)
    requires q in FreeAddrs(ts)
    ensures m < |ts| && ts[m].free && ts[m].addr == q
  {
    var n := |ts| - 1;
    if ts[n].free && ts[n].addr == q {
      m := n;
    } else {
      m := FreeTileAt(ts[..n], q);
    }
  }

  /** The ring of free blocks, entered at base. */
  function FreeNodes(ts: Tiles): seq<nat> {
    [BASE] + FreeAddrs(ts)
  }

  lemma FreeNodesSorted(ts: Tiles, lo: nat)
    requires Tiled(ts, lo) && BASE < lo
    ensures Ascending(FreeNodes(ts)) && Distinct(FreeNodes(ts))
  {
    FreeSorted(ts, lo);
  }

  /** The place in the ring of the last free block below tile i. */
  function Place(ts: Tiles, i: nat): nat
    requires i < |ts|
  {
    |FreeAddrs(ts[..i])|
  }

  lemma SingleFree(t: Tile)
    ensures FreeAddrs([t]) == if t.free then [t.addr] else []
  {
    assert [t][..0] == [];
  }

  lemma FreeCons(t: Tile, b: Tiles)
    ensures FreeAddrs([t] + b) == (if t.free then [t.addr] else []) + FreeAddrs(b)
  {
    FreeAppend([t], b);
    SingleFree(t);
  }

  /** The free list below tile i, and from tile k on. */
  lemma Below(ts: Tiles, lo: nat, i: nat)
    requires Tiled(ts, lo) && i <= |ts|
    ensures forall x :: x in FreeAddrs(ts[..i]) ==> lo <= x < End(ts[..i], lo)
  {
    TiledPrefix(ts, lo, i);
    FreeSorted(ts[..i], lo);
  }

  lemma Above(ts: Tiles, lo: nat, k: nat)
    requires Tiled(ts, lo) && k <= |ts|
    ensures lo <= End(ts[..k], lo) && forall x :: x in FreeAddrs(ts[k..]) ==> End(ts[..k], lo) <= x
  {
    TiledPrefix(ts, lo, k);
    FreeSorted(ts[..k], lo);
    TiledSuffix(ts, lo, k);
    FreeSorted(ts[k..], End(ts[..k], lo));
  }

  lemma {:induction false} AroundNodes(ts: Tiles, i: nat)
    requires i < |ts| && !ts[i].free
    ensures FreeNodes(ts) == [BASE] + FreeAddrs(ts[..i]) + FreeAddrs(ts[i + 1..])
  {
    FreeAppend(ts[..i], [ts[i]] + ts[i + 1..]);
    FreeCons(ts[i], ts[i + 1..]);
    assert ts == ts[..i] + ([ts[i]] + ts[i + 1..]);
  }

  lemma Around(ts: Tiles, lo: nat, i: nat)
    requires Tiled(ts, lo) && BASE < lo && i < |ts| && !ts[i].free
    ensures FreeNodes(ts) == [BASE] + FreeAddrs(ts[..i]) + FreeAddrs(ts[i + 1..])
    ensures lo <= ts[i].addr && ts[i].addr !in FreeNodes(ts)
    ensures forall x :: x in FreeAddrs(ts[..i]) ==> x < ts[i].addr
    ensures forall x {:trigger x in FreeAddrs(ts[i + 1..])} :: x in FreeAddrs(ts[i + 1..]) ==>
              ts[i].addr + ts[i].size <= x
  {
    Below(ts, lo, i);
    Above(ts, lo, i);
    Above(ts, lo, i + 1);
    Span(ts, lo, i, i + 1);
    AroundNodes(ts, i);
  }

  lemma Lowest(ts: Tiles, lo: nat, i: nat)
    requires Tiled(ts, lo) && i < |ts|
    ensures lo <= ts[i].addr
  {
    Above(ts, lo, i);
    Span(ts, lo, i, i + 1);
  }

  /** The free tiles above tile i. */
  lemma NextFree(ts: Tiles, i: nat)
    requires i + 1 < |ts|
    ensures FreeAddrs(ts[i + 1..]) == (if ts[i + 1].free then [ts[i + 1].addr] else []) + FreeAddrs(ts[i + 2..])
  {
    assert ts[i + 1..] == [ts[i + 1]] + ts[i + 2..];
    FreeCons(ts[i + 1], ts[i + 2..]);
  }

  /** The first of them starts where tile i ends exactly when it is the next tile. */
  lemma FirstFree(ts: Tiles, lo: nat, i: nat)
    requires Tiled(ts, lo) && i < |ts| && FreeAddrs(ts[i + 1..]) != []
    ensures i + 1 < |ts| && (ts[i].addr + ts[i].size == FreeAddrs(ts[i + 1..])[0] <==> ts[i + 1].free)
  {
    NextFree(ts, i);
    Span(ts, lo, i, i + 1);
    Span(ts, lo, i + 1, i + 2);
    var b := FreeAddrs(ts[i + 2..]);
    if !ts[i + 1].free {
      Above(ts, lo, i + 2);
      assert b[0] in b;
    }
  }

  lemma NextNode(a: seq<nat>, b: seq<nat>)
    ensures Next([BASE] + a + b, |a|) == if b == [] then BASE else b[0]
  {
  }

  /** free()'s first test: the next free block starts where tile i ends exactly
      when the next tile is free. */
  lemma NextTest(ts: Tiles, lo: nat, i: nat)
    requires Tiled(ts, lo) && BASE < lo && i < |ts| && !ts[i].free
    ensures var r, t := FreeNodes(ts), Place(ts, i);
            && t < |r|
            && (ts[i].addr + ts[i].size == Next(r, t) <==> Past(ts, i) == i + 2)
            && (Past(ts, i) == i + 2 ==>
                  t + 1 < |r| && r[t + 1] == ts[i + 1].addr
                    && FreeAddrs(ts[i + 1..]) == [r[t + 1]] + FreeAddrs(ts[i + 2..]))
  {
    AroundNodes(ts, i);
    NextNode(FreeAddrs(ts[..i]), FreeAddrs(ts[i + 1..]));
    Lowest(ts, lo, i);
    if FreeAddrs(ts[i + 1..]) != [] {
      FirstFree(ts, lo, i);
    }
    if i + 1 < |ts| {
      NextFree(ts, i);
    }
  }

  /** A free tile just before tile i is the last free one below it. */
  lemma PrevFree(ts: Tiles, i: nat)
    requires 0 < i <= |ts| && ts[i - 1].free
    ensures FreeAddrs(ts[..i]) == FreeAddrs(ts[..i - 1]) + [ts[i - 1].addr]
  {
    assert ts[..i][..i - 1] == ts[..i - 1];
  }

  /** If that tile is live, the last free one ends at it or below. */
  lemma PrevLive(ts: Tiles, lo: nat, i: nat)
    requires Tiled(ts, lo) && 0 < i <= |ts| && !ts[i - 1].free && FreeAddrs(ts[..i]) != []
    ensures var a := FreeAddrs(ts[..i]);
            exists m :: 0 <= m < i - 1 && ts[m].addr == a[|a| - 1] && ts[m].addr + ts[m].size <= ts[i - 1].addr
  {
    assert ts[..i][..i - 1] == ts[..i - 1];
    var a := FreeAddrs(ts[..i]);
    var m := FreeTileAt(ts[..i - 1], a[|a| - 1]);
    TilesDisjoint(ts, lo, m, i - 1);
  }

  /** The last free tile below tile i, with its size, ends below it unless it is the
      tile just before. */
  lemma LastFree(ts: Tiles, lo: nat, i: nat, size: map<nat, nat>)
    requires Tiled(ts, lo) && BASE < lo && i < |ts| && FreeAddrs(ts[..i]) != []
    requires forall k :: 0 <= k < |ts| ==> ts[k].addr in size && size[ts[k].addr] == ts[k].size
    ensures var a := FreeAddrs(ts[..i]);
            var x := a[|a| - 1];
            i > 0 && x in size && (x + size[x] == ts[i].addr <==> ts[i - 1].free)
  {
    Span(ts, lo, i - 1, i);
    Span(ts, lo, i, i + 1);
    if ts[i - 1].free {
      PrevFree(ts, i);
    } else {
      PrevLive(ts, lo, i);
    }
  }

  /** free()'s second test: the free block below ends where tile i starts
      exactly when the tile before is free. */
  lemma PrevTest(ts: Tiles, lo: nat, i: nat, size: map<nat, nat>)
    requires Tiled(ts, lo) && BASE < lo && i < |ts| && !ts[i].free
    requires BASE in size && size[BASE] == 0
    requires forall k :: 0 <= k < |ts| ==> ts[k].addr in size && size[ts[k].addr] == ts[k].size
    ensures var r, t := FreeNodes(ts), Place(ts, i);
            && t < |r| && r[t] in size
            && (r[t] + size[r[t]] == ts[i].addr <==> First(ts, i) == i - 1)
            && (First(ts, i) == i - 1 ==> r[t] == ts[i - 1].addr
                                          && FreeAddrs(ts[..i]) == FreeAddrs(ts[..i - 1]) + [r[t]])
  {
    AroundNodes(ts, i);
    Lowest(ts, lo, i);
    var a := FreeAddrs(ts[..i]);
    if a != [] {
      LastFree(ts, lo, i, size);
    }
    if i > 0 && ts[i - 1].free {
      PrevFree(ts, i);
    }
  }

  /** The ring after free(): what each outcome of its two tests does to it. */
  function FreedRing(r: seq<nat>, t: nat, b: nat, mergePrev: bool, mergeNext: bool): seq<nat>
    requires t < |r| && (mergeNext ==> t + 1 < |r|)
  {
    if mergePrev then if mergeNext then r[..t + 1] + r[t + 2..] else r
    else if mergeNext then r[t + 1 := b] else r[..t + 1] + [b] + r[t + 1..]
  }

  lemma FreedNodes(ts: Tiles, lo: nat, i: nat, size: map<nat, nat>)
    requires Tiled(ts, lo) && BASE < lo && i < |ts| && !ts[i].free
    requires BASE in size && size[BASE] == 0
    requires forall k :: 0 <= k < |ts| ==> ts[k].addr in size && size[ts[k].addr] == ts[k].size
    ensures var r, t := FreeNodes(ts), Place(ts, i);
            && t < |r| && (Past(ts, i) == i + 2 ==> t + 1 < |r|)
            && FreeNodes(Freed(ts, i)) == FreedRing(r, t, ts[i].addr, First(ts, i) == i - 1, Past(ts, i) == i + 2)
  {
    NextTest(ts, lo, i);
    PrevTest(ts, lo, i, size);
    AroundNodes(ts, i);
    FreedAddrs(ts, i);
    Assemble(FreeAddrs(ts[..i]), FreeAddrs(ts[i + 1..]), FreeAddrs(ts[..First(ts, i)]), FreeAddrs(ts[Past(ts, i)..]),
             ts[i].addr, Merged(ts, i).addr, First(ts, i) == i - 1, Past(ts, i) == i + 2);
  }

  lemma FreedAddrs(ts: Tiles, i: nat)
    requires i < |ts|
    ensures FreeNodes(Freed(ts, i))
         == [BASE] + FreeAddrs(ts[..First(ts, i)]) + [Merged(ts, i).addr] + FreeAddrs(ts[Past(ts, i)..])
  {
    SpliceFree(ts, First(ts, i), Past(ts, i), [Merged(ts, i)]);
    SingleFree(Merged(ts, i));
    Regroup([BASE], FreeAddrs(ts[..First(ts, i)]), [Merged(ts, i).addr], FreeAddrs(ts[Past(ts, i)..]));
  }

  lemma Regroup(a: seq<nat>, b: seq<nat>, c: seq<nat>, d: seq<nat>)
    ensures a + (b + c + d) == a + b + c + d
  {
  }

  /** a and b are the free addresses below and above the freed block, a' and b'
      those outside the merged block. */
  lemma Assemble(a: seq<nat>, b: seq<nat>, a': seq<nat>, b': seq<nat>, block: nat, merged: nat,
                 mergePrev: bool, mergeNext: bool)
    requires if mergePrev then a == a' + [merged] else a == a' && merged == block
    requires if mergeNext then b != [] && b == [b[0]] + b' else b == b'
    ensures [BASE] + a' + [merged] + b' == FreedRing([BASE] + a + b, |a|, block, mergePrev, mergeNext)
  {
    var r, t := [BASE] + a + b, |a|;
    assert r[..t + 1] == [BASE] + a && r[t + 1..] == b;
    if mergeNext {
      assert b[1..] == b' && r[t + 2..] == b';
      assert r[t + 1 := block] == [BASE] + a + [block] + b';
    }
  }

  /** Freeing tile i makes it, and only it, no longer live. */
  lemma FreedLive(ts: Tiles, lo: nat, i: nat, a: nat, n: nat)
    requires Tiled(ts, lo) && i < |ts| && !ts[i].free
    ensures IsLive(Freed(ts, i), a, n) <==> IsLive(ts, a, n) && a != ts[i].addr
  {
    var x, j, k := Tile(a, n, false), First(ts, i), Past(ts, i);
    if IsLive(ts, a, n) {
      var m :| 0 <= m < |ts| && ts[m] == x;
      KeptTile(ts, lo, i, m);
    }
    if IsLive(Freed(ts, i), a, n) {
      assert x in ts[..j] || x in ts[k..];
      var m :| (0 <= m < j || k <= m < |ts|) && ts[m] == x;
      OtherAddress(ts, lo, i, m);
    }
  }

  lemma OtherAddress(ts: Tiles, lo: nat, i: nat, m: nat)
    requires Tiled(ts, lo) && i < |ts| && m < |ts| && m != i
    ensures ts[m].addr != ts[i].addr
  {
    if m < i {
      TilesDisjoint(ts, lo, m, i);
    } else {
      TilesDisjoint(ts, lo, i, m);
    }
  }

  lemma KeptTile(ts: Tiles, lo: nat, i: nat, m: nat)
    requires Tiled(ts, lo) && i < |ts| && m < |ts| && !ts[m].free
    ensures m != i ==> ts[m] in Freed(ts, i) && ts[m].addr != ts[i].addr
  {
    var j, k := First(ts, i), Past(ts, i);
    if m < i {
      assert ts[..j][m] == ts[m];
      OtherAddress(ts, lo, i, m);
    } else if m > i {
      assert ts[k..][m - k] == ts[m];
      OtherAddress(ts, lo, i, m);
    }
  }

  /** The address of the n units Taken hands out. */
  function Given(t: Tile, n: nat): nat
    requires n <= t.size
  {
    t.addr + t.size - n
  }

  /** Taking n units makes them, and nothing else, live. */
  lemma TakenLive(ts: Tiles, lo: nat, i: nat, n: nat, a: nat, s: nat)
    requires Tiled(ts, lo) && i < |ts| && ts[i].free && 0 < n <= ts[i].size
    ensures IsLive(Taken(ts, i, n), a, s) <==> IsLive(ts, a, s) || (a == Given(ts[i], n) && s == n)
    ensures !IsLive(ts, Given(ts[i], n), s)
  {
    var x := Tile(a, s, false);
    assert ts == ts[..i] + [ts[i]] + ts[i + 1..];
    assert x in ts <==> x in ts[..i] || x in ts[i + 1..];
    var g := Tile(Given(ts[i], n), s, false);
    if g in ts {
      var m :| 0 <= m < |ts| && ts[m] == g;
      if m < i {
        TilesDisjoint(ts, lo, m, i);
      } else {
        TilesDisjoint(ts, lo, i, m);
      }
    }
  }

  lemma {:induction false} AroundFree(ts: Tiles, i: nat)
    requires i < |ts| && ts[i].free
    ensures FreeAddrs(ts) == FreeAddrs(ts[..i]) + [ts[i].addr] + FreeAddrs(ts[i + 1..])
  {
    FreeAppend(ts[..i], [ts[i]] + ts[i + 1..]);
    FreeCons(ts[i], ts[i + 1..]);
    assert ts == ts[..i] + ([ts[i]] + ts[i + 1..]);
  }

  lemma {:induction false} AroundCut(ts: Tiles, i: nat, n: nat)
    requires i < |ts| && ts[i].free && 0 < n <= ts[i].size
    ensures FreeAddrs(Taken(ts, i, n)) ==
            FreeAddrs(ts[..i]) + (if n == ts[i].size then [] else [ts[i].addr]) + FreeAddrs(ts[i + 1..])
  {
    SpliceFree(ts, i, i + 1, Cut(ts[i], n));
    CutFree(ts[i], n);
  }

  /** The ring loses a block exactly when all of it is taken. */
  lemma TakenNodes(ts: Tiles, lo: nat, i: nat, n: nat)
    requires Tiled(ts, lo) && BASE < lo && i < |ts| && ts[i].free && 0 < n <= ts[i].size
    ensures var r, t := FreeNodes(ts), Place(ts, i);
            && t + 1 < |r| && r[t + 1] == ts[i].addr
            && FreeNodes(Taken(ts, i, n)) == if n == ts[i].size then r[..t + 1] + r[t + 2..] else r
  {
    AroundFree(ts, i);
    AroundCut(ts, i, n);
    RingWithout(FreeAddrs(ts[..i]), ts[i].addr, FreeAddrs(ts[i + 1..]));
  }

  lemma RingWithout(a: seq<nat>, x: nat, b: seq<nat>)
    ensures var r := [BASE] + (a + [x] + b);
            r[|a| + 1] == x && r[..|a| + 1] + r[|a| + 2..] == [BASE] + (a + [] + b)
  {
    var r := [BASE] + (a + [x] + b);
    assert r == [BASE] + a + [x] + b;
    assert r[..|a| + 1] == [BASE] + a && r[|a| + 2..] == b;
  }

  lemma CutFree(t: Tile, n: nat)
    requires t.free && 0 < n <= t.size
    ensures FreeAddrs(Cut(t, n)) == if n == t.size then [] else [t.addr]
  {
    var c := Cut(t, n);
    if n == t.size {
      SingleFree(c[0]);
    } else {
      assert c == [c[0]] + [c[1]];
      FreeCons(c[0], [c[1]]);
      SingleFree(c[1]);
    }
  }
}
