/** xv6/user/umalloc.c: the Kernighan and Ritchie allocator. Addresses and sizes
    are in Header units of 16 bytes; base lies below the heap and only morecore
    moves the break, so the memory it gets is contiguous. */
module Umalloc {
  import opened Distinctness
  import opened FreeRing
  import opened HeapTiles

  const NULL := -1
  const HEADER := 16
  const MINCORE := 4096

  /** The loop test of free(), at block p whose successor is nx. */
  predicate Stops(p: nat, nx: nat, b: nat) {
    (b > p && b < nx) || (p >= nx && (b > p || b < nx))
  }

  /** The search in free() stops at the last free block below b, and nowhere else. */
  lemma StopsOnlyAtPlace(r: seq<nat>, t: nat, b: nat, j: nat)
    requires Ascending(r) && t < |r| && j < |r| && r[0] < b
    requires forall k :: 0 <= k <= t ==> r[k] < b
    requires forall k :: t < k < |r| ==> b < r[k]
    ensures Stops(r[j], Next(r, j), b) <==> j == t
  {
  }

  ghost predicate Sized(ts: Tiles, size: map<nat, nat>) {
    forall k :: 0 <= k < |ts| ==> ts[k].addr in size && size[ts[k].addr] == ts[k].size
  }

  lemma PlaceSplits(ts: Tiles, lo: nat, i: nat)
    requires Tiled(ts, lo) && BASE < lo && i < |ts| && !ts[i].free
    ensures var r, t, b := FreeNodes(ts), Place(ts, i), ts[i].addr;
            && t < |r| && b !in r && r[0] < b && Ascending(r)
            && (forall k :: 0 <= k <= t ==> r[k] < b)
            && (forall k :: t < k < |r| ==> b < r[k])
  {
    Around(ts, lo, i);
    FreeNodesSorted(ts, lo);
    var r, t, a, b := FreeNodes(ts), Place(ts, i), FreeAddrs(ts[..i]), FreeAddrs(ts[i + 1..]);
    forall k | 0 <= k <= t
      ensures r[k] < ts[i].addr
    {
      if k > 0 {
        assert r[k] == a[k - 1] && a[k - 1] in a;
      }
    }
    forall k | t < k < |r|
      ensures ts[i].addr < r[k]
    {
      assert r[k] == b[k - t - 1] && b[k - t - 1] in b;
    }
  }

  /** What free() does to the links: bp after p, merged as its tests say. */
  function FreedLinks(ptr: map<nat, nat>, p: nat, bp: nat, mergePrev: bool, mergeNext: bool): map<nat, nat>
    requires p in ptr && (mergeNext ==> ptr[p] in ptr)
  {
    var after := if mergeNext then ptr[ptr[p]] else ptr[p];
    ptr[bp := after][p := if mergePrev then after else bp]
  }

  lemma FreedLinksRing(ptr: map<nat, nat>, r: seq<nat>, t: nat, bp: nat, mergePrev: bool, mergeNext: bool)
    requires Ring(ptr, r) && t < |r| && bp !in r && (mergeNext ==> t + 1 < |r|)
    ensures ptr[r[t]] == Next(r, t)
    ensures Ring(FreedLinks(ptr, r[t], bp, mergePrev, mergeNext), FreedRing(r, t, bp, mergePrev, mergeNext))
  {
    assert ptr[r[t]] == Next(r, t);
    if mergePrev && mergeNext {
      RingFrame(ptr, r, bp, ptr[r[t + 1]]);
      RemoveAfter(ptr[bp := ptr[r[t + 1]]], r, t);
    } else if mergePrev {
      RingFrame(ptr, r, bp, ptr[r[t]]);
      assert ptr[bp := ptr[r[t]]][r[t] := ptr[r[t]]] == ptr[bp := ptr[r[t]]];
    } else if mergeNext {
      ReplaceAfter(ptr, r, t, bp);
    } else {
      InsertAfter(ptr, r, t, bp);
    }
  }

  /** What free() does to the sizes. */
  function FreedSizes(size: map<nat, nat>, p: nat, nx: nat, bp: nat, mergePrev: bool, mergeNext: bool): map<nat, nat>
    requires bp in size && p in size && (mergeNext ==> nx in size)
  {
    var n := size[bp] + if mergeNext then size[nx] else 0;
    var grown := size[bp := n];
    if mergePrev then grown[p := grown[p] + n] else grown
  }

  lemma FreedSized(ts: Tiles, lo: nat, i: nat, size: map<nat, nat>, p: nat, nx: nat)
    requires Tiled(ts, lo) && BASE < lo && i < |ts| && !ts[i].free && Sized(ts, size)
    requires p in size && p != ts[i].addr && BASE in size && size[BASE] == 0
    requires First(ts, i) == i - 1 ==> p == ts[i - 1].addr
    requires Past(ts, i) == i + 2 ==> nx == ts[i + 1].addr
    ensures Past(ts, i) == i + 2 ==> nx in size
    ensures var size' := FreedSizes(size, p, nx, ts[i].addr, First(ts, i) == i - 1, Past(ts, i) == i + 2);
            Sized(Freed(ts, i), size') && BASE in size' && size'[BASE] == 0
  {
    var j, k := First(ts, i), Past(ts, i);
    var size' := FreedSizes(size, p, nx, ts[i].addr, j == i - 1, k == i + 2);
    var r := Freed(ts, i);
    forall x | 0 <= x < |r|
      ensures r[x].addr in size' && size'[r[x].addr] == r[x].size
    {
      if x != j {
        var y := if x < j then x else x - j - 1 + k;
        assert r[x] == ts[y];
        KeptSize(ts, lo, i, size, p, nx, y);
      } else {
        assert r[x] == Merged(ts, i);
      }
    }
    AboveBase(ts, lo, i);
    AboveBase(ts, lo, j);
  }

  /** free() changes no size but those of the blocks it merges. */
  lemma KeptSize(ts: Tiles, lo: nat, i: nat, size: map<nat, nat>, p: nat, nx: nat, y: nat)
    requires Tiled(ts, lo) && i < |ts| && !ts[i].free && Sized(ts, size) && p in size && p != ts[i].addr
    requires First(ts, i) == i - 1 ==> p == ts[i - 1].addr
    requires Past(ts, i) == i + 2 ==> nx in size
    requires y < First(ts, i) || Past(ts, i) <= y < |ts|
    ensures var size' := FreedSizes(size, p, nx, ts[i].addr, First(ts, i) == i - 1, Past(ts, i) == i + 2);
            ts[y].addr in size' && size'[ts[y].addr] == ts[y].size
  {
    OtherAddress(ts, lo, i, y);
    OtherAddress(ts, lo, First(ts, i), y);
  }

  lemma AboveBase(ts: Tiles, lo: nat, i: nat)
    requires Tiled(ts, lo) && i < |ts|
    ensures lo <= ts[i].addr
  {
    Above(ts, lo, i);
    Span(ts, lo, i, i + 1);
  }

  /** A heap, its links and its sizes that belong together. */
  ghost predicate Consistent(ts: Tiles, lo: nat, ptr: map<nat, nat>, size: map<nat, nat>) {
    && BASE < lo && Tiled(ts, lo) && Coalesced(ts) && Sized(ts, size)
    && Ring(ptr, FreeNodes(ts)) && BASE in size && size[BASE] == 0
  }

  /** What the two tests of free() find out, at the block p its search finds. */
  lemma FreeTests(ts: Tiles, lo: nat, i: nat, ptr: map<nat, nat>, size: map<nat, nat>)
    requires Consistent(ts, lo, ptr, size) && i < |ts| && !ts[i].free
    ensures Place(ts, i) < |FreeNodes(ts)|
    ensures var p, bp := FreeNodes(ts)[Place(ts, i)], ts[i].addr;
            && p in ptr && p in size && bp in size && p != bp && ptr[p] != bp
            && ptr[p] == Next(FreeNodes(ts), Place(ts, i)) && ptr[p] in ptr
            && (bp + size[bp] == ptr[p] <==> Past(ts, i) == i + 2)
            && (p + size[p] == bp <==> First(ts, i) == i - 1)
            && (Past(ts, i) == i + 2 ==> ptr[p] == ts[i + 1].addr && ptr[p] in size)
            && (First(ts, i) == i - 1 ==> p == ts[i - 1].addr)
  {
    PlaceSplits(ts, lo, i);
    NextTest(ts, lo, i);
    PrevTest(ts, lo, i, size);
    var r, t := FreeNodes(ts), Place(ts, i);
    assert r[t] in ptr && ptr[r[t]] == Next(r, t);
    var n := if t + 1 < |r| then t + 1 else 0;
    assert r[n] in ptr;
  }

  lemma FreeConsistent(ts: Tiles, lo: nat, i: nat, ptr: map<nat, nat>, size: map<nat, nat>)
    requires Consistent(ts, lo, ptr, size) && i < |ts| && !ts[i].free
    requires Place(ts, i) < |FreeNodes(ts)|
    requires var p := FreeNodes(ts)[Place(ts, i)];
             && p in ptr && p in size && ptr[p] in ptr && p != ts[i].addr
             && (Past(ts, i) == i + 2 ==> ptr[p] == ts[i + 1].addr && ptr[p] in size)
             && (First(ts, i) == i - 1 ==> p == ts[i - 1].addr)
    ensures var p, bp, mp, mn := FreeNodes(ts)[Place(ts, i)], ts[i].addr, First(ts, i) == i - 1, Past(ts, i) == i + 2;
            && Consistent(Freed(ts, i), lo, FreedLinks(ptr, p, bp, mp, mn), FreedSizes(size, p, ptr[p], bp, mp, mn))
            && p in FreeNodes(Freed(ts, i))
            && End(Freed(ts, i), lo) == End(ts, lo)
  {
    var r, t, bp, mp, mn := FreeNodes(ts), Place(ts, i), ts[i].addr, First(ts, i) == i - 1, Past(ts, i) == i + 2;
    FreedKeeps(ts, lo, i);
    FreedNodes(ts, lo, i, size);
    FreedSized(ts, lo, i, size, r[t], ptr[r[t]]);
    PlaceSplits(ts, lo, i);
    FreedLinksRing(ptr, r, t, bp, mp, mn);
    assert FreedRing(r, t, bp, mp, mn)[t] == r[t];
  }

  /** malloc's link change, when it takes n units of tile i after block prevp. */
  function TakenLinks(ptr: map<nat, nat>, prevp: nat, p: nat, whole: bool): map<nat, nat>
    requires p in ptr
  {
    if whole then ptr[prevp := ptr[p]] else ptr
  }

  function TakenSizes(size: map<nat, nat>, p: nat, n: nat): map<nat, nat>
    requires p in size && n <= size[p]
  {
    if size[p] == n then size else size[p := size[p] - n][p + size[p] - n := n]
  }

  lemma TakenSized(ts: Tiles, lo: nat, i: nat, n: nat, size: map<nat, nat>)
    requires Tiled(ts, lo) && BASE < lo && i < |ts| && ts[i].free && 0 < n <= ts[i].size && Sized(ts, size)
    requires BASE in size && size[BASE] == 0
    ensures var size' := TakenSizes(size, ts[i].addr, n);
            Sized(Taken(ts, i, n), size') && BASE in size' && size'[BASE] == 0
  {
    var size', r, c := TakenSizes(size, ts[i].addr, n), Taken(ts, i, n), Cut(ts[i], n);
    AboveBase(ts, lo, i);
    forall x | 0 <= x < |r|
      ensures r[x].addr in size' && size'[r[x].addr] == r[x].size
    {
      if x < i {
        assert r[x] == ts[x];
        TilesDisjoint(ts, lo, x, i);
      } else if x < i + |c| {
        assert r[x] == c[x - i];
      } else {
        var y := x - |c| + 1;
        assert r[x] == ts[y];
        TilesDisjoint(ts, lo, i, y);
      }
    }
  }

  lemma TakeConsistent(ts: Tiles, lo: nat, i: nat, n: nat, ptr: map<nat, nat>, size: map<nat, nat>)
    requires Consistent(ts, lo, ptr, size) && i < |ts| && ts[i].free && 0 < n <= ts[i].size
    ensures Place(ts, i) + 1 < |FreeNodes(ts)| && FreeNodes(ts)[Place(ts, i) + 1] == ts[i].addr
    ensures ts[i].addr in ptr && ts[i].addr in size
    ensures var prevp := FreeNodes(ts)[Place(ts, i)];
            && Consistent(Taken(ts, i, n), lo, TakenLinks(ptr, prevp, ts[i].addr, n == ts[i].size),
                          TakenSizes(size, ts[i].addr, n))
            && prevp in FreeNodes(Taken(ts, i, n)) && End(Taken(ts, i, n), lo) == End(ts, lo)
  {
    TakenKeeps(ts, lo, i, n);
    TakenNodes(ts, lo, i, n);
    TakenSized(ts, lo, i, n, size);
    var r, t := FreeNodes(ts), Place(ts, i);
    assert r[t + 1] in ptr;
    RemoveAfter(ptr, r, t);
    assert FreeNodes(Taken(ts, i, n))[t] == r[t];
  }

  /** The heap grown by a block of n units at its end. */
  lemma GrowConsistent(ts: Tiles, lo: nat, n: nat, ptr: map<nat, nat>, size: map<nat, nat>)
    requires Consistent(ts, lo, ptr, size) && n > 0
    ensures var hp := End(ts, lo);
            && Consistent(ts + [Tile(hp, n, false)], lo, ptr, size[hp := n])
            && FreeNodes(ts + [Tile(hp, n, false)]) == FreeNodes(ts)
            && End(ts + [Tile(hp, n, false)], lo) == hp + n
  {
    GrowTiles(ts, lo, n);
    FreeSorted(ts, lo);
    forall k | 0 <= k < |ts|
      ensures ts[k].addr != End(ts, lo)
    {
      Before(ts, lo, k);
    }
  }

  lemma GrowTiles(ts: Tiles, lo: nat, n: nat)
    requires Tiled(ts, lo) && Coalesced(ts) && n > 0
    ensures var r := ts + [Tile(End(ts, lo), n, false)];
            Tiled(r, lo) && Coalesced(r) && FreeAddrs(r) == FreeAddrs(ts) && End(r, lo) == End(ts, lo) + n
  {
    var hp := End(ts, lo);
    var t := Tile(hp, n, false);
    assert Tiled([t], hp);
    TiledJoin(ts, [t], lo);
    FreeAppend(ts, [t]);
    SingleFree(t);
    SpliceCoalesced(ts, |ts|, |ts|, [t]);
    assert Splice(ts, |ts|, |ts|, [t]) == ts + [t];
  }

  lemma Before(ts: Tiles, lo: nat, k: nat)
    requires Tiled(ts, lo) && k < |ts|
    ensures ts[k].addr < End(ts, lo)
  {
    if k < |ts| - 1 {
      TilesDisjoint(ts, lo, k, |ts| - 1);
    }
  }

  lemma {:induction false} Within(ts: Tiles, lo: nat, k: nat)
    requires Tiled(ts, lo) && k < |ts|
    ensures lo <= ts[k].addr < End(ts, lo)
  {
    Before(ts, lo, k);
    if k > 0 {
      TilesDisjoint(ts, lo, 0, k);
    }
  }

  /** nunits: room for nbytes, rounded up, and a header. */
  function UnitsFor(nbytes: nat): (n: nat)
    ensures n >= 1 && (n - 1) * HEADER >= nbytes && nbytes > (n - 2) * HEADER
  {
    (nbytes + HEADER - 1) / HEADER + 1
  }

  /** The int that sbrk receives for a request of n units. */
  function SbrkArgument(n: nat): int {
    var low := (n * HEADER) % 0x1_0000_0000;
    if low < 0x8000_0000 then low else low - 0x1_0000_0000
  }

  /** Where sbrk moves the break: growproc leaves it when asked to give back more than
      there is. */
  function SbrkTo(brk: nat, arg: int): nat {
    if arg >= 0 then brk + arg / HEADER else if -arg / HEADER <= brk then brk - -arg / HEADER else brk
  }

  /** The break moves by as many units as morecore records exactly when they come to
      less than 2^31 bytes; otherwise it stays behind the end of what is recorded. */
  lemma RequestExact(brk: nat, n: nat)
    requires 0 < n <= UnitsFor(0xFFFF_FFFF)
    ensures SbrkTo(brk, SbrkArgument(n)) == brk + n <==> n < 0x800_0000
    ensures n >= 0x800_0000 ==> SbrkTo(brk, SbrkArgument(n)) < brk + n
  {
  }

  /** Steps round a ring of n blocks from the j-th to the k-th. */
  function Round(j: nat, k: nat, n: nat): nat
    requires j < n && k < n
  {
    if k >= j then k - j else k + n - j
  }

  /** The block after the j-th, of n round a ring. */
  function Succ(j: nat, n: nat): (i: nat)
    requires j < n
    ensures i < n
  {
    if j + 1 < n then j + 1 else 0
  }

  ghost predicate SameLive(a: Tiles, b: Tiles) {
    forall x, n :: IsLive(a, x, n) <==> IsLive(b, x, n)
  }

  /** A block of n units at q, new, is the one difference in what is live. */
  ghost predicate Gains(was: Tiles, now: Tiles, q: nat, n: nat) {
    && (forall m {:trigger IsLive(was, q, m)} :: !IsLive(was, q, m))
    && (forall a, m :: IsLive(now, a, m) <==> IsLive(was, a, m) || (a == q && m == n))
  }

  /** The block at q, and no other, is no longer live. */
  ghost predicate Loses(was: Tiles, now: Tiles, q: nat) {
    forall a, m :: IsLive(now, a, m) <==> IsLive(was, a, m) && a != q
  }

  lemma FreedLives(ts: Tiles, lo: nat, i: nat)
    requires Tiled(ts, lo) && i < |ts| && !ts[i].free
    ensures Loses(ts, Freed(ts, i), ts[i].addr)
  {
    forall a, m
      ensures IsLive(Freed(ts, i), a, m) <==> IsLive(ts, a, m) && a != ts[i].addr
    {
      FreedLive(ts, lo, i, a, m);
    }
  }

  lemma GainsSame(was: Tiles, mid: Tiles, now: Tiles, q: nat, n: nat)
    requires SameLive(was, mid) && Gains(mid, now, q, n)
    ensures Gains(was, now, q, n)
  {
  }

  /** Two live blocks of one heap share no unit. */
  lemma LiveDisjoint(ts: Tiles, lo: nat, a: nat, n: nat, b: nat, m: nat)
    requires Tiled(ts, lo) && IsLive(ts, a, n) && IsLive(ts, b, m) && (a != b || n != m)
    ensures a + n <= b || b + m <= a
  {
    var i :| 0 <= i < |ts| && ts[i] == Tile(a, n, false);
    var j :| 0 <= j < |ts| && ts[j] == Tile(b, m, false);
    if i < j {
      TilesDisjoint(ts, lo, i, j);
    } else {
      TilesDisjoint(ts, lo, j, i);
    }
  }

  /** The g-th block on the free list has n units or more. */
  ghost predicate Fits(ts: Tiles, size: map<nat, nat>, g: nat, n: nat) {
    g < |FreeNodes(ts)| && FreeNodes(ts)[g] in size && size[FreeNodes(ts)[g]] >= n
  }

  /** malloc's search stands at the j-th block, having set out from the k-th:
      once the heap has grown the g-th block fits and is not behind it, and until
      then no block behind it fits. */
  ghost predicate Hunt(ts: Tiles, size: map<nat, nat>, j: nat, k: nat, n: nat, grown: bool, g: nat) {
    var len := |FreeNodes(ts)|;
    && j < len && k < len
    && (grown ==> Fits(ts, size, g, n) && Round(j, g, len) <= Round(j, k, len))
    && (!grown ==> forall m: nat {:trigger Fits(ts, size, m, n)} ::
                     m < len && Round(m, k, len) > Round(j, k, len) ==> !Fits(ts, size, m, n))
  }

  lemma HuntStart(ts: Tiles, size: map<nat, nat>, k: nat, n: nat, grown: bool, g: nat)
    requires k < |FreeNodes(ts)| && (grown ==> Fits(ts, size, g, n))
    ensures Hunt(ts, size, Succ(k, |FreeNodes(ts)|), k, n, grown, g)
  {
  }

  lemma HuntStep(ts: Tiles, size: map<nat, nat>, j: nat, k: nat, n: nat, grown: bool, g: nat)
    requires Hunt(ts, size, j, k, n, grown, g) && !Fits(ts, size, j, n)
    ensures j != k ==> Hunt(ts, size, Succ(j, |FreeNodes(ts)|), k, n, grown, g)
    ensures j != k ==> Round(Succ(j, |FreeNodes(ts)|), k, |FreeNodes(ts)|) < Round(j, k, |FreeNodes(ts)|)
    ensures j == k ==> !grown && forall m :: !Fits(ts, size, m, n)
  {
  }

  /** Every block on the ring has a size, and a link to the next one. */
  lemma NodeKnown(ts: Tiles, lo: nat, ptr: map<nat, nat>, size: map<nat, nat>, j: nat)
    requires Consistent(ts, lo, ptr, size) && j < |FreeNodes(ts)|
    ensures var r := FreeNodes(ts);
            && r[j] in size && r[j] in ptr && ptr[r[j]] == Next(r, j)
            && (j == 0 ==> size[r[j]] == 0)
  {
    var r := FreeNodes(ts);
    if j > 0 {
      var m := FreeTileAt(ts, r[j]);
    }
  }

  /** A large enough block on the ring is a free tile, and its place is known. */
  lemma FitsAt(ts: Tiles, lo: nat, ptr: map<nat, nat>, size: map<nat, nat>, j: nat, n: nat) returns (i: nat)
    requires Consistent(ts, lo, ptr, size) && 0 < j < |FreeNodes(ts)|
    requires FreeNodes(ts)[j] in size && 0 < n <= size[FreeNodes(ts)[j]]
    ensures i < |ts| && ts[i].free && ts[i].addr == FreeNodes(ts)[j] && n <= ts[i].size == size[ts[i].addr]
    ensures Place(ts, i) == j - 1
  {
    i := FreeTileAt(ts, FreeNodes(ts)[j]);
    TakeConsistent(ts, lo, i, n, ptr, size);
    FreeNodesSorted(ts, lo);
  }

  lemma TakenLives(ts: Tiles, lo: nat, i: nat, n: nat)
    requires Tiled(ts, lo) && i < |ts| && ts[i].free && 0 < n <= ts[i].size
    ensures Gains(ts, Taken(ts, i, n), Given(ts[i], n), n)
  {
    forall a, m
      ensures IsLive(Taken(ts, i, n), a, m) <==> IsLive(ts, a, m) || (a == Given(ts[i], n) && m == n)
      ensures !IsLive(ts, Given(ts[i], n), m)
    {
      TakenLive(ts, lo, i, n, a, m);
    }
  }

  class Allocator {
    var ptr: map<nat, nat>
    var size: map<nat, nat>
    var freep: int
    var brk: nat
    const heap: nat
    ghost var tiles: Tiles

    ghost predicate Valid()
      reads this
    {
      && BASE < heap
      && (freep == NULL ==> tiles == [])
      && (freep != NULL ==> Consistent(tiles, heap, ptr, size) && freep in FreeNodes(tiles))
    }

    /** What the allocator has recorded is what sbrk has given it. */
    ghost predicate Backed()
      reads this
    {
      brk == End(tiles, heap)
    }

    constructor (start: nat)
      requires BASE < start
      ensures Valid() && Backed() && freep == NULL && tiles == [] && heap == brk == start
    {
      ptr, size, freep, brk, heap, tiles := map[], map[], NULL, start, start, [];
    }

    /** The search loop of free(), from freep round the ring. */
    static method Search(ptr: map<nat, nat>, freep: nat, bp: nat, ghost r: seq<nat>, ghost t: nat) returns (p: nat)
      requires Ring(ptr, r) && freep in r && Ascending(r) && t < |r| && r[0] < bp
      requires forall k :: 0 <= k <= t ==> r[k] < bp
      requires forall k :: t < k < |r| ==> bp < r[k]
      ensures p == r[t]
    {
      ghost var j :| 0 <= j < |r| && r[j] == freep;
      p := freep;
      while !(bp > p && bp < ptr[p])
        invariant 0 <= j < |r| && p == r[j]
        decreases if t >= j then t - j else t + |r| - j
      {
        StopsOnlyAtPlace(r, t, bp, j);
        if p >= ptr[p] && (bp > p || bp < ptr[p]) {
          break;
        }
        p := ptr[p];
        j := if j + 1 < |r| then j + 1 else 0;
      }
      StopsOnlyAtPlace(r, t, bp, j);
    }

    /** free()'s work on the ring: block bp, tile i, joins it. */
    method Insert(bp: nat, ghost i: nat)
      requires Valid() && freep != NULL && i < |tiles| && !tiles[i].free && bp == tiles[i].addr
      modifies `ptr, `size, `freep
      ensures Consistent(Freed(tiles, i), heap, ptr, size) && freep in FreeNodes(Freed(tiles, i))
      ensures End(Freed(tiles, i), heap) == End(tiles, heap)
    {
      PlaceSplits(tiles, heap, i);
      FreeTests(tiles, heap, i, ptr, size);
      FreeConsistent(tiles, heap, i, ptr, size);
      var p := Search(ptr, freep, bp, FreeNodes(tiles), Place(tiles, i));
      Link(p, bp);
      freep := p;
    }

    /** free(): give tile i, the live block before ap, back to the free list. */
    method Free(ap: nat, ghost i: nat)
      requires Valid() && freep != NULL && i < |tiles| && !tiles[i].free && ap == tiles[i].addr + 1
      modifies `ptr, `size, `freep, `tiles
      ensures Valid() && freep != NULL
      ensures tiles == Freed(old(tiles), i) && End(tiles, heap) == End(old(tiles), heap)
      ensures Loses(old(tiles), tiles, ap - 1)
    {
      Insert(ap - 1, i);
      FreedLives(tiles, heap, i);
      tiles := Freed(tiles, i);
    }

    /** The part of free() after its search. */
    method Link(p: nat, bp: nat)
      requires p in ptr && p in size && bp in size && p != bp
      requires bp + size[bp] == ptr[p] ==> ptr[p] in ptr && ptr[p] in size && ptr[p] != bp
      modifies `ptr, `size
      ensures ptr == FreedLinks(old(ptr), p, bp, p + old(size)[p] == bp, bp + old(size)[bp] == old(ptr)[p])
      ensures size == FreedSizes(old(size), p, old(ptr)[p], bp, p + old(size)[p] == bp,
                                 bp + old(size)[bp] == old(ptr)[p])
    {
      if bp + size[bp] == ptr[p] {
        size := size[bp := size[bp] + size[ptr[p]]];
        ptr := ptr[bp := ptr[ptr[p]]];
      } else {
        ptr := ptr[bp := ptr[p]];
      }
      if p + size[p] == bp {
        size := size[p := size[p] + size[bp]];
        ptr := ptr[p := ptr[bp]];
      } else {
        ptr := ptr[p := bp];
      }
    }

    /** sbrk grants units at the end of the heap, or so morecore takes it, and they get
        a header. */
    method Extend(units: nat) returns (hp: nat)
      requires Valid() && Backed() && freep != NULL && 0 < units <= UnitsFor(0xFFFF_FFFF)
      modifies `brk, `size, `tiles
      ensures Valid() && hp == old(brk) && brk == SbrkTo(hp, SbrkArgument(units)) && End(tiles, heap) == hp + units
      ensures tiles == old(tiles) + [Tile(hp, units, false)]
    {
      hp := brk;
      brk := SbrkTo(brk, SbrkArgument(units));
      GrowConsistent(tiles, heap, units, ptr, size);
      size := size[hp := units];
      tiles := tiles + [Tile(hp, units, false)];
    }

    /** The heap and the break after morecore has recorded n units more. */
    ghost predicate Grown(brk0: nat, n: nat)
      reads this
    {
      && End(tiles, heap) == brk0 + n && brk == SbrkTo(brk0, SbrkArgument(n))
      && (Backed() <==> n < 0x800_0000) && brk <= End(tiles, heap)
    }

    /** morecore: at least nu units more, freed so that malloc finds them. The
        result is freep, or NULL if sbrk refuses. */
    method Morecore(nu: nat, grant: bool) returns (p: int)
      requires Valid() && Backed() && freep != NULL && 0 < nu <= UnitsFor(0xFFFF_FFFF)
      modifies this
      ensures Valid() && freep != NULL && SameLive(old(tiles), tiles)
      ensures !grant ==> p == NULL && tiles == old(tiles) && brk == old(brk) && freep == old(freep) && size == old(size)
      ensures grant ==> p == freep && exists g :: Fits(tiles, size, g, nu)
      ensures grant ==> Grown(old(brk), if nu < MINCORE then MINCORE else nu)
    {
      var units := if nu < MINCORE then MINCORE else nu;
      if !grant {
        return NULL;
      }
      RequestExact(brk, units);
      var hp := Extend(units);
      ghost var mid := tiles;
      Free(hp + 1, |tiles| - 1);
      GrownFits(mid, heap, |mid| - 1, size, nu);
      GrownLive(old(tiles), heap, units);
      return freep;
    }

    /** The part of malloc after its search: the tail of block p, or all of it. */
    method Carve(prevp: nat, p: nat, n: nat) returns (q: nat)
      requires p in ptr && p in size && n <= size[p]
      modifies `ptr, `size
      ensures ptr == TakenLinks(old(ptr), prevp, p, n == old(size)[p])
      ensures size == TakenSizes(old(size), p, n) && q == p + old(size)[p] - n
    {
      q := p;
      if size[p] == n {
        ptr := ptr[prevp := ptr[p]];
      } else {
        size := size[p := size[p] - n];
        q := q + size[p];
        size := size[q := n];
      }
    }

    /** malloc's use of the j-th free block, large enough and linked after prevp. */
    method Take(prevp: nat, p: nat, n: nat, ghost j: nat) returns (q: nat)
      requires Cursor(prevp, p, j) && p in size && 0 < n <= size[p]
      modifies `ptr, `size, `freep, `tiles
      ensures Valid() && freep != NULL && End(tiles, heap) == End(old(tiles), heap)
      ensures Gains(old(tiles), tiles, q, n)
    {
      NodeKnown(tiles, heap, ptr, size, j);
      ghost var i := FitsAt(tiles, heap, ptr, size, j, n);
      TakenLives(tiles, heap, i, n);
      q := TakeTile(prevp, p, n, i);
    }

    /** All or the tail of the free block at p, which is tile i. */
    method TakeTile(prevp: nat, p: nat, n: nat, ghost i: nat) returns (q: nat)
      requires Valid() && freep != NULL && i < |tiles| && tiles[i].free && tiles[i].addr == p
      requires p in size && 0 < n <= tiles[i].size == size[p]
      requires Place(tiles, i) < |FreeNodes(tiles)| && FreeNodes(tiles)[Place(tiles, i)] == prevp
      modifies `ptr, `size, `freep, `tiles
      ensures Valid() && freep != NULL && End(tiles, heap) == End(old(tiles), heap)
      ensures tiles == Taken(old(tiles), i, n) && q == Given(old(tiles)[i], n)
    {
      TakeConsistent(tiles, heap, i, n, ptr, size);
      q := Carve(prevp, p, n);
      freep := prevp;
      tiles := Taken(tiles, i, n);
    }

    /** malloc's first call puts base, an empty block, on the ring. */
    method EnsureBase()
      requires Valid()
      modifies `ptr, `size, `freep
      ensures Valid() && freep != NULL && (old(freep) != NULL ==> size == old(size))
    {
      if freep == NULL {
        ptr := ptr[BASE := BASE];
        size := size[BASE := 0];
        freep := BASE;
        assert FreeNodes(tiles) == [BASE];
      }
    }

    /** malloc's search stands at the j-th block p of the ring, after prevp. */
    ghost predicate Cursor(prevp: nat, p: nat, j: nat)
      reads this
    {
      && Valid() && freep != NULL
      && j < |FreeNodes(tiles)| && FreeNodes(tiles)[j] == p && (j > 0 ==> FreeNodes(tiles)[j - 1] == prevp)
    }

    /** One step of that search, from block p to the next. */
    method Advance(p: nat, ghost j: nat) returns (q: nat, ghost i: nat)
      requires Valid() && freep != NULL && j < |FreeNodes(tiles)| && FreeNodes(tiles)[j] == p
      ensures Cursor(p, q, i) && q in size && i == Succ(j, |FreeNodes(tiles)|)
    {
      NodeKnown(tiles, heap, ptr, size, j);
      q := ptr[p];
      i := Succ(j, |FreeNodes(tiles)|);
      NodeKnown(tiles, heap, ptr, size, i);
    }

    /** malloc's search: a block of nunits or more, after its predecessor in the
        ring, growing the heap once, and only if the ring holds none. */
    method Find(nunits: nat, grant: bool) returns (found: bool, prevp: nat, p: int, ghost j: nat, ghost grown: bool)
      requires Valid() && Backed() && freep != NULL && 0 < nunits <= UnitsFor(0xFFFF_FFFF)
      modifies this
      ensures Valid() && freep != NULL && SameLive(old(tiles), tiles)
      ensures found ==> p >= 0 && Cursor(prevp, p, j) && p in size && size[p] >= nunits
      ensures !found ==> !grant && forall m :: !Fits(tiles, size, m, nunits)
      ensures grown ==> grant && forall m :: !Fits(old(tiles), old(size), m, nunits)
      ensures if grown then Grown(old(brk), if nunits < MINCORE then MINCORE else nunits)
              else brk == old(brk) && tiles == old(tiles)
    {
      ghost var k: nat := RingIndex();
      grown := false;
      ghost var g := k;
      HuntStart(tiles, size, k, nunits, grown, g);
      prevp := freep;
      p, j := Advance(prevp, k);
      while size[p] < nunits
        invariant p >= 0 && Cursor(prevp, p, j) && p in size && SameLive(old(tiles), tiles)
        invariant Hunt(tiles, size, j, k, nunits, grown, g) && FreeNodes(tiles)[k] == freep
        invariant if grown then Grown(old(brk), if nunits < MINCORE then MINCORE else nunits)
                  else brk == old(brk) && tiles == old(tiles) && size == old(size)
        invariant grown ==> grant && forall m :: !Fits(old(tiles), old(size), m, nunits)
        decreases !grown, Round(j, k, |FreeNodes(tiles)|)
      {
        HuntStep(tiles, size, j, k, nunits, grown, g);
        if p == freep {
          p := Morecore(nunits, grant);
          if p == NULL {
            found := false;
            return;
          }
          k := RingIndex();
          g :| Fits(tiles, size, g, nunits);
          j, grown := k, true;
          HuntStart(tiles, size, k, nunits, grown, g);
        }
        prevp := p;
        p, j := Advance(prevp, j);
      }
      found := true;
    }

    /** malloc's search and its use of the block found. */
    method Allocate(nunits: nat, grant: bool) returns (r: nat, ghost grown: bool)
      requires Valid() && Backed() && freep != NULL && 0 < nunits <= UnitsFor(0xFFFF_FFFF)
      modifies this
      ensures Valid() && freep != NULL
      ensures r == 0 ==> !grant && SameLive(old(tiles), tiles) && forall m :: !Fits(tiles, size, m, nunits)
      ensures r != 0 ==> Gains(old(tiles), tiles, r - 1, nunits)
      ensures grown ==> grant && forall m :: !Fits(old(tiles), old(size), m, nunits)
      ensures if grown then Grown(old(brk), if nunits < MINCORE then MINCORE else nunits)
              else Backed() && brk == old(brk)
    {
      var found, prevp, p;
      ghost var j;
      found, prevp, p, j, grown := Find(nunits, grant);
      if !found {
        return 0, grown;
      }
      ghost var mid := tiles;
      var q := Take(prevp, p, nunits, j);
      GainsSame(old(tiles), mid, tiles, q, nunits);
      r := q + 1;
    }

    /** malloc of a number of bytes that is a C uint: a payload address, or 0. `grant`
        says whether sbrk would extend the heap if asked. The ghost result says whether
        it was asked, and did: then what the allocator has recorded is there exactly if
        the request came to less than 2^27 units. */
    method Malloc(nbytes: nat, grant: bool) returns (r: nat, ghost grown: bool)
      requires Valid() && Backed() && nbytes <= 0xFFFF_FFFF
      modifies this
      ensures Valid() && freep != NULL
      ensures r == 0 ==> !grant && SameLive(old(tiles), tiles) && forall m :: !Fits(tiles, size, m, UnitsFor(nbytes))
      ensures r != 0 ==> Gains(old(tiles), tiles, r - 1, UnitsFor(nbytes))
      ensures grown ==> grant && (old(freep) != NULL ==> forall m :: !Fits(old(tiles), old(size), m, UnitsFor(nbytes)))
      ensures Backed() <==> !(grown && UnitsFor(nbytes) >= 0x800_0000)
      ensures if grown then Grown(old(brk), if UnitsFor(nbytes) < MINCORE then MINCORE else UnitsFor(nbytes))
              else brk == old(brk)
    {
      EnsureBase();
      r, grown := Allocate(UnitsFor(nbytes), grant);
    }

    /** Where freep stands in the ring. */
    ghost function RingIndex(): (k: nat)
      reads this
      requires Valid() && freep != NULL
      ensures k < |FreeNodes(tiles)| && FreeNodes(tiles)[k] == freep
    {
      var k :| 0 <= k < |FreeNodes(tiles)| && FreeNodes(tiles)[k] == freep;
      k
    }
  }

  /** A request for nearly 4 GB that is met without a byte from the kernel: malloc's
      first call, of 0xFFFFFFF0 bytes. */
  method HugeRequest(start: nat) returns (a: Allocator, r: nat)
    requires BASE < start
    ensures a.Valid() && r != 0 && IsLive(a.tiles, r - 1, UnitsFor(0xFFFF_FFF0))
    ensures a.brk == start && !a.Backed() && End(a.tiles, a.heap) == start + UnitsFor(0xFFFF_FFF0)
  {
    a := new Allocator(start);
    ghost var grown;
    r, grown := a.Malloc(0xFFFF_FFF0, true);
    assert SbrkArgument(UnitsFor(0xFFFF_FFF0)) == 0;
    assert IsLive(a.tiles, r - 1, UnitsFor(0xFFFF_FFF0));
    ghost var k :| 0 <= k < |a.tiles| && a.tiles[k] == Tile(r - 1, UnitsFor(0xFFFF_FFF0), false);
    Within(a.tiles, a.heap, k);
  }

  /** A block appended and freed leaves the live blocks as they were. */
  lemma GrownLive(ts: Tiles, lo: nat, n: nat)
    requires Tiled(ts, lo) && n > 0
    requires Tiled(ts + [Tile(End(ts, lo), n, false)], lo)
    ensures SameLive(ts, Freed(ts + [Tile(End(ts, lo), n, false)], |ts|))
  {
    var mid := ts + [Tile(End(ts, lo), n, false)];
    forall a, m
      ensures IsLive(ts, a, m) <==> IsLive(Freed(mid, |ts|), a, m)
    {
      FreedLive(mid, lo, |ts|, a, m);
      if Tile(a, m, false) in ts {
        var k :| 0 <= k < |ts| && ts[k] == Tile(a, m, false);
        Before(ts, lo, k);
      }
    }
  }

  /** The freed last block, merged or not, is on the free list and large enough. */
  lemma GrownFits(ts: Tiles, lo: nat, i: nat, size: map<nat, nat>, n: nat)
    requires Tiled(ts, lo) && i == |ts| - 1 && !ts[i].free && n <= ts[i].size && Sized(Freed(ts, i), size)
    ensures exists g :: Fits(Freed(ts, i), size, g, n)
  {
    FreedAddrs(ts, i);
    var j, m := First(ts, i), Merged(ts, i);
    var r, g := FreeNodes(Freed(ts, i)), 1 + |FreeAddrs(ts[..j])|;
    assert r[g] == m.addr;
    assert Freed(ts, i)[j] == m;
    assert Fits(Freed(ts, i), size, g, n);
  }
}
