/** xv6/kernel/kalloc.c and vm.c over one pool of physical pages. Addresses are
    bytes, physical pages are numbers (address / PGSIZE), page 0 stands for NULL.
    A page serves as bytes (`data`) or as 512 entries (`pt`). */
module Vm {
  import opened Bytes
  import opened Distinctness
  import opened Sv39
  import opened PageOwners
  import opened VmRelations

  datatype Mapping = Mapped | NoMemory | MapPanic

  datatype Walked = Found(page: nat, slot: nat) | Absent | WalkPanic

  class Memory {
    var freelist: seq<nat>
    var pt: Tables
    var data: Data
    const lo: nat
    const hi: nat
    ghost var spaces: Spaces
    ghost var owner: Owners
    var sz: map<nat, nat>      // p->sz, by page table

    ghost predicate Valid()
      reads this
    {
      && 0 < lo && Bounds()
      && Inv(freelist, pt, spaces, owner)
      && Sized()
    }

    /** kinit: freerange puts every page of the pool on the free list. */
    constructor (lo: nat, hi: nat)
      requires 0 < lo <= hi
      ensures Valid() && Procs() && this.lo == lo && this.hi == hi && spaces == map[]
      ensures forall p :: lo <= p < hi ==> p in freelist
    {
      this.lo, this.hi := lo, hi;
      freelist, pt, spaces, sz := [], map[], map[], map[];
      data := map p | p in Range(lo, hi) :: Fill(0);
      owner := map p | p in Range(lo, hi) :: Held;
      new;
      for p := lo to hi
        invariant Valid() && spaces == map[] && sz == map[]
        invariant forall q :: q in owner && q < p ==> owner[q] == Free
        invariant forall q :: q in owner && q >= p ==> owner[q] == Held
      {
        Release(p);
      }
      forall p | lo <= p < hi
        ensures p in freelist
      {
        assert owner[p] == Free;
      }
    }

    /** The pool is the pages from lo to hi. */
    ghost predicate Bounds()
      reads `owner
    {
      forall p :: p in owner <==> lo <= p < hi
    }

    /** kfree: false stands for its panic, outside the pool. */
    method Kfree(p: nat) returns (ok: bool)
      requires Bounds()
      modifies `freelist, `data
      ensures ok <==> p in owner
      ensures ok ==> freelist == [p] + old(freelist) && data == old(data)[p := Fill(1)]
      ensures !ok ==> freelist == old(freelist) && data == old(data)
    {
      if p < lo || p >= hi {
        return false;
      }
      data := data[p := Fill(1)];
      freelist := [p] + freelist;
      return true;
    }

    /** kfree of a page that is nobody else's. */
    method Release(p: nat)
      requires Valid() && p in owner && owner[p] == Held
      modifies `freelist, `data, `owner
      ensures Valid() && owner == old(owner)[p := Free] && freelist == [p] + old(freelist)
      ensures data == old(data)[p := Fill(1)]
    {
      var ok := Kfree(p);
      PushPool(old(freelist), owner, p);
      Retag(old(freelist), freelist, pt, spaces, owner, p, Free);
      owner := owner[p := Free];
    }

    method Kalloc() returns (p: nat)
      requires Valid()
      modifies `freelist, `data, `owner
      ensures Valid() && (p == 0 <==> old(freelist) == [])
      ensures p == 0 ==> freelist == [] && data == old(data) && owner == old(owner)
      ensures p != 0 ==> p in owner && old(owner)[p] == Free && owner == old(owner)[p := Held]
      ensures p != 0 ==> data == old(data)[p := Fill(5)]
    {
      if freelist == [] {
        return 0;
      }
      p := freelist[0];
      PopPool(freelist, owner);
      Retag(freelist, freelist[1..], pt, spaces, owner, p, Held);
      freelist := freelist[1..];
      owner := owner[p := Held];
      data := data[p := Fill(5)];
    }

    /** The part of walk that adds table n, linked from slot k of the table in p. */
    method NewTable(p: nat, k: nat, ghost t: nat, ghost n: Node) returns (q: nat)
      requires Valid() && t in spaces && n !in spaces[t].tables && n.level < 2
      requires Parent(n) in spaces[t].tables && spaces[t].tables[Parent(n)] == p && k == Slot(n)
      modifies `freelist, `data, `owner, `pt, `spaces
      ensures Valid() && Kept(old(data), data, old(owner)) && Grown(old(spaces), spaces, old(owner), owner, t)
      ensures q == 0 ==> freelist == [] && spaces == old(spaces) && owner == old(owner) && data == old(data)
      ensures q != 0 ==> n in spaces[t].tables && spaces[t].tables[n] == q
    {
      q := Kalloc();
      if q == 0 {
        return;
      }
      LinkInv(freelist, pt, spaces, owner, t, n, q);
      pt := pt[q := Zeroes()];
      pt := Put(pt, p, k, Link(q));
      spaces := spaces[t := WithTable(spaces[t], n, q)];
      owner := owner[q := TableOf(t, n)];
    }

    /** Since a state with these spaces, owners and bytes, space t gained tables. */
    ghost predicate Walking(s0: Spaces, o0: Owners, d0: Data, t: nat)
      reads this
    {
      Valid() && Kept(d0, data, o0) && Grown(s0, spaces, o0, owner, t)
    }

    /** One level of walk: from table n, in page p, through its slot k. */
    method Descend(t: nat, p: nat, k: nat, alloc: bool, ghost n: Node, ghost s0: Spaces, ghost o0: Owners,
                   ghost d0: Data)
      returns (q: nat)
      requires Walking(s0, o0, d0, t) && n in spaces[t].tables && spaces[t].tables[n] == p && n.level > 0 && k < 512
      modifies `freelist, `data, `owner, `pt, `spaces
      ensures Walking(s0, o0, d0, t)
      ensures !alloc ==> freelist == old(freelist) && data == old(data) && owner == old(owner)
                         && pt == old(pt) && spaces == old(spaces)
      ensures q != 0 ==> Child(n, k) in spaces[t].tables && spaces[t].tables[Child(n, k)] == q
      ensures q == 0 ==> Child(n, k) !in spaces[t].tables && (alloc ==> freelist == [])
    {
      assert SpaceOk(pt, owner, t, spaces[t]);
      ChildEntry(pt, t, spaces[t], n, k);
      if pt[p][k].v {
        q := pt[p][k].page;
        assert spaces[t].tables[Child(n, k)] in owner;
      } else if !alloc {
        q := 0;
      } else {
        ghost var s1, o1, d1 := spaces, owner, data;
        q := NewTable(p, k, t, Child(n, k));
        GrownTransitive(s0, s1, spaces, o0, o1, owner, d0, d1, data, t);
      }
    }

    /** walk: the slot for va in the tree of space t. Without alloc nothing changes;
        with it, missing tables are added, even if a later one cannot be. */
    method Walk(t: nat, va: nat, alloc: bool) returns (r: Walked)
      requires Valid() && t in spaces
      modifies `freelist, `data, `owner, `pt, `spaces
      ensures Walking(old(spaces), old(owner), old(data), t)
      ensures r == WalkPanic <==> va >= MAXVA
      ensures !alloc || r == WalkPanic ==> freelist == old(freelist) && data == old(data) && owner == old(owner)
                                           && pt == old(pt) && spaces == old(spaces)
      ensures r.Found? ==> NodeFor(0, va / PGSIZE) in spaces[t].tables
                           && r == Found(spaces[t].tables[NodeFor(0, va / PGSIZE)], va / PGSIZE % 512)
      ensures r == Absent ==> NodeFor(0, va / PGSIZE) !in spaces[t].tables && (alloc ==> freelist == [])
    {
      if va >= MAXVA {
        return WalkPanic;
      }
      PxDescends(2, va);
      var level, page := 2, t;
      assert SpaceOk(pt, owner, t, spaces[t]);
      while level > 0
        invariant 0 <= level <= 2 && Walking(old(spaces), old(owner), old(data), t)
        invariant NodeFor(level, va / PGSIZE) in spaces[t].tables
                  && spaces[t].tables[NodeFor(level, va / PGSIZE)] == page
        invariant !alloc ==> freelist == old(freelist) && data == old(data) && owner == old(owner)
                             && pt == old(pt) && spaces == old(spaces)
      {
        ghost var n := NodeFor(level, va / PGSIZE);
        var next := Descend(t, page, Px(level, va), alloc, n, old(spaces), old(owner), old(data));
        PxDescends(level, va);
        if next == 0 {
          assert SpaceOk(pt, owner, t, spaces[t]);
          NoTableBelow(pt, t, spaces[t], level - 1, va / PGSIZE);
          return Absent;
        }
        page := next;
        level := level - 1;
      }
      PxDescends(0, va);
      return Found(page, Px(0, va));
    }

    /** One round of mappages: page number v = a / PGSIZE to page p. */
    method MapOne(t: nat, a: nat, p: nat, perm: Perm) returns (r: Mapping)
      requires Valid() && t in spaces && (perm.r || perm.w || perm.x)
      requires (a / PGSIZE < USERTOP ==> p in owner && owner[p] == Held) && (perm.u ==> a / PGSIZE < USERTOP)
      modifies `freelist, `data, `owner, `pt, `spaces
      ensures Valid() && Kept(old(data), data, old(owner))
      ensures r == MapPanic <==> a >= MAXVA || a / PGSIZE in old(spaces)[t].leaves
      ensures r == NoMemory ==> freelist == []
      ensures MappedRange(old(spaces), spaces, old(owner), owner, t, a / PGSIZE, if r == Mapped then 1 else 0, p, perm)
    {
      assert SpaceOk(pt, owner, t, spaces[t]);
      LookUp(pt, t, spaces[t], a / PGSIZE);
      var w := Walk(t, a, true);
      if w == Absent {
        return NoMemory;
      }
      if w == WalkPanic {
        return MapPanic;
      }
      ghost var s1, o1 := spaces, owner;
      r := SetEntry(t, a / PGSIZE, p, perm, w.page, w.slot);
      if r == Mapped {
        GrownThenSet(old(spaces), s1, old(owner), o1, t, a / PGSIZE, p, perm);
      }
    }

    /** The rest of that round, once walk has found the slot of page v. */
    method SetEntry(t: nat, ghost v: nat, p: nat, perm: Perm, page: nat, slot: nat) returns (r: Mapping)
      requires Valid() && t in spaces && (perm.r || perm.w || perm.x)
      requires (v < USERTOP ==> p in owner && owner[p] == Held) && (perm.u ==> v < USERTOP)
      requires NodeFor(0, v) in spaces[t].tables && page == spaces[t].tables[NodeFor(0, v)] && slot == v % 512
      modifies `owner, `pt, `spaces
      ensures Valid() && r != NoMemory && (r == MapPanic <==> v in old(spaces)[t].leaves)
      ensures r == Mapped ==>
                spaces == SetLeaf(old(spaces), t, v, Pte(true, p, perm)) && owner == Given(old(owner), t, v, p)
      ensures r == MapPanic ==> spaces == old(spaces) && owner == old(owner)
    {
      assert SpaceOk(pt, owner, t, spaces[t]);
      LookUp(pt, t, spaces[t], v);
      assert TableOk(pt, spaces[t], NodeFor(0, v));
      if pt[page][slot].v {
        return MapPanic;
      }
      MapInv(freelist, pt, spaces, owner, t, v, Pte(true, p, perm));
      pt := Put(pt, page, slot, Pte(true, p, perm));
      spaces := SetLeaf(spaces, t, v, Pte(true, p, perm));
      owner := Given(owner, t, v, p);
      return Mapped;
    }

    /** A round of mappages after `done` of n pages, in terms of the state it began in. */
    method MapNext(t: nat, a: nat, pa: nat, perm: Perm, ghost s0: Spaces, ghost o0: Owners, ghost d0: Data,
                   ghost v: nat, ghost n: nat, ghost done: nat, ghost p: nat)
      returns (r: Mapping)
      requires Valid() && (perm.r || perm.w || perm.x)
      requires MappedRange(s0, spaces, o0, owner, t, v, done, p, perm) && Kept(d0, data, o0) && Ready(o0, v, n, p)
      requires done < n && a / PGSIZE == v + done && pa == p + done && (perm.u ==> v + n <= USERTOP)
      modifies `freelist, `data, `owner, `pt, `spaces
      ensures Valid() && Kept(d0, data, o0)
      ensures MappedRange(s0, spaces, o0, owner, t, v, if r == Mapped then done + 1 else done, p, perm)
      ensures r == MapPanic ==> a >= MAXVA || v + done in s0[t].leaves
      ensures r == NoMemory ==> freelist == []
    {
      ghost var s1, o1, d1 := spaces, owner, data;
      StillReady(s0, s1, o0, o1, t, v, n, done, p, perm);
      r := MapOne(t, a, pa, perm);
      MappedNext(d0, d1, data, s0, s1, spaces, o0, o1, owner, t, v, done, if r == Mapped then 1 else 0, p, perm);
    }

    /** mappages: size bytes from va on to the pages from p on. The ghost result
        counts the pages it mapped, a prefix of the range unless it succeeds. */
    method Mappages(t: nat, va: nat, size: nat, p: nat, perm: Perm) returns (r: Mapping, ghost done: nat)
      requires Valid() && t in spaces && (perm.r || perm.w || perm.x)
      requires Ready(owner, va / PGSIZE, size / PGSIZE, p) && (perm.u ==> va / PGSIZE + size / PGSIZE <= USERTOP)
      modifies `freelist, `data, `owner, `pt, `spaces
      ensures Valid() && Kept(old(data), data, old(owner))
      ensures MappedRange(old(spaces), spaces, old(owner), owner, t, va / PGSIZE, done, p, perm)
      ensures va % PGSIZE != 0 || size % PGSIZE != 0 || size == 0 ==> r == MapPanic && done == 0
      ensures r == Mapped ==> done == size / PGSIZE > 0
      ensures r == NoMemory ==> done < size / PGSIZE && freelist == []
      ensures r == MapPanic ==>
                va % PGSIZE != 0 || size % PGSIZE != 0 || size == 0
                || (done < size / PGSIZE
                    && (va + done * PGSIZE >= MAXVA || va / PGSIZE + done in old(spaces)[t].leaves))
    {
      done := 0;
      if va % PGSIZE != 0 || size % PGSIZE != 0 || size == 0 {
        return MapPanic, 0;
      }
      var a, last, pa := va, va + size - PGSIZE, p;
      while true
        invariant a == va + done * PGSIZE <= last && pa == p + done
        invariant Valid() && Kept(old(data), data, old(owner))
        invariant MappedRange(old(spaces), spaces, old(owner), owner, t, va / PGSIZE, done, p, perm)
        decreases last - a
      {
        r := MapNext(t, a, pa, perm, old(spaces), old(owner), old(data), va / PGSIZE, size / PGSIZE, done, p);
        if r != Mapped {
          return;
        }
        done := done + 1;
        if a == last {
          break;
        }
        a := a + PGSIZE;
        pa := pa + 1;
      }
    }

    /** One round of uvmunmap. */
    method UnmapOne(t: nat, a: nat, doFree: bool) returns (ok: bool)
      requires Valid() && t in spaces && (doFree ==> a / PGSIZE < USERTOP)
      modifies `freelist, `data, `owner, `pt, `spaces
      ensures Valid() && (ok <==> a < MAXVA) && Kept(old(data), data, owner)
      ensures UnmappedRange(old(spaces), spaces, old(owner), owner, t, a / PGSIZE, if ok then 1 else 0,
                            if doFree then Free else Held)
    {
      var w := Walk(t, a, false);
      if w == WalkPanic {
        return false;
      }
      assert SpaceOk(pt, owner, t, spaces[t]);
      LookUp(pt, t, spaces[t], a / PGSIZE);
      if w.Found? {
        assert TableOk(pt, spaces[t], NodeFor(0, a / PGSIZE));
      }
      if w == Absent || !pt[w.page][w.slot].v {
        NothingMapped(spaces, owner, t, a / PGSIZE);
        return true;
      }
      ClearEntry(t, a / PGSIZE, w.page, w.slot, doFree);
      return true;
    }

    /** The rest of that round, for a page v that is mapped. */
    method ClearEntry(t: nat, ghost v: nat, page: nat, slot: nat, doFree: bool)
      requires Valid() && t in spaces && v in spaces[t].leaves && (doFree ==> v < USERTOP)
      requires NodeFor(0, v) in spaces[t].tables && page == spaces[t].tables[NodeFor(0, v)] && slot == v % 512
      requires IsTable(pt, page) && pt[page][slot] == spaces[t].leaves[v]
      modifies `freelist, `data, `owner, `pt, `spaces
      ensures Valid() && Kept(old(data), data, owner)
      ensures UnmappedRange(old(spaces), spaces, old(owner), owner, t, v, 1, if doFree then Free else Held)
    {
      assert SpaceOk(pt, owner, t, spaces[t]);
      ghost var p, o := spaces[t].leaves[v].page, if doFree then Free else Held;
      if doFree {
        var ok := Kfree(pt[page][slot].page);
        PushPool(old(freelist), owner, p);
      }
      UnmapInv(old(freelist), freelist, pt, spaces, owner, t, v, o);
      pt := Put(pt, page, slot, ZERO);
      owner := Taken(spaces, owner, t, v, o);
      spaces := SetLeaf(spaces, t, v, ZERO);
      OneUnmapped(old(freelist), old(pt), old(spaces), old(owner), t, v, o);
    }

    /** uvmunmap: false stands for its panics. */
    method Uvmunmap(t: nat, va: nat, npages: nat, doFree: bool) returns (ok: bool)
      requires Valid() && t in spaces && (doFree ==> va / PGSIZE + npages <= USERTOP)
      modifies `freelist, `data, `owner, `pt, `spaces
      ensures Valid() && (ok <==> va % PGSIZE == 0 && (npages == 0 || va + npages * PGSIZE <= MAXVA))
      ensures ok ==> Kept(old(data), data, owner)
      ensures ok ==> UnmappedRange(old(spaces), spaces, old(owner), owner, t, va / PGSIZE, npages,
                                   if doFree then Free else Held)
    {
      if va % PGSIZE != 0 {
        return false;
      }
      ghost var i, o := 0, if doFree then Free else Held;
      var a := va;
      while a < va + npages * PGSIZE
        invariant 0 <= i <= npages && a == va + i * PGSIZE && Valid() && (i > 0 ==> a <= MAXVA)
        invariant Kept(old(data), data, owner)
        invariant UnmappedRange(old(spaces), spaces, old(owner), owner, t, va / PGSIZE, i, o)
      {
        ghost var s1, o1, d1 := spaces, owner, data;
        ok := UnmapOne(t, a, doFree);
        if !ok {
          return;
        }
        UnmappedThen(old(spaces), s1, spaces, old(owner), o1, owner, old(data), d1, data, t, va / PGSIZE, i, 1, o);
        a := a + PGSIZE;
        i := i + 1;
      }
      return true;
    }


    /** freewalk on table n, in page p: every table below it goes back to the free
        list, and it too. A false result stands for the panic on a leaf. */
    method Freewalk(p: nat, ghost sp: Space, ghost t: nat, ghost n: Node) returns (ok: bool, ghost f: seq<nat>)
      requires Bounds() && Sized() && n in sp.tables && sp.tables[n] == p && n.level <= 2
      requires TablesOf(owner, t, sp) && Rooted(sp) && Doomed(pt, sp, n)
      modifies `freelist, `data, `pt
      ensures ok <==> Leafless(sp, n, 512)
      ensures ok ==> freelist == f + old(freelist) && Subtree(f, owner, t, n) && Sized()
      ensures ok ==> OnlyChanged(old(pt), pt, f) && OnlyChanged(old(data), data, f)
      decreases n.level, 2
    {
      assert Tidy(pt, sp, n);
      ok, f := true, [];
      for i := 0 to 512
        invariant ok && Swept(p, i, sp, t, n, f, old(pt), old(data), old(freelist)) && Leafless(sp, n, i)
      {
        ok, f := FreeSlot(p, i, sp, t, n, f, old(pt), old(data), old(freelist));
        if !ok {
          return;
        }
      }
      f := FreeSelf(p, sp, t, n, f, old(pt), old(data), old(freelist));
    }

    /** The end of freewalk: the table itself. */
    method FreeSelf(p: nat, ghost sp: Space, ghost t: nat, ghost n: Node, ghost f: seq<nat>,
                    ghost pt0: Tables, ghost d0: Data, ghost free0: seq<nat>)
      returns (ghost h: seq<nat>)
      requires Bounds() && n in sp.tables && sp.tables[n] == p && n.level <= 2 && TablesOf(owner, t, sp)
      requires Swept(p, 512, sp, t, n, f, pt0, d0, free0)
      modifies `freelist, `data
      ensures freelist == h + free0 && Subtree(h, owner, t, n) && Sized()
      ensures OnlyChanged(pt0, pt, h) && OnlyChanged(d0, data, h)
    {
      var ok := Kfree(p);
      WholeSubtree(owner, sp, t, n, f);
      h := [p] + f;
    }

    /** freewalk has dealt with the first i slots of table n, in page p, freeing f. */
    ghost predicate Swept(p: nat, i: nat, sp: Space, t: nat, n: Node, f: seq<nat>, pt0: Tables, d0: Data,
                          free0: seq<nat>)
      requires i <= 512
      reads `freelist, `data, `pt, `owner
    {
      && freelist == f + free0 && Branches(f, owner, t, n, i) && Sized()
      && OnlyChanged(pt0, pt, f + [p]) && OnlyChanged(d0, data, f)
      && IsTable(pt, p) && IsTable(pt0, p) && pt[p][i..] == pt0[p][i..]
    }

    /** One round of freewalk, at slot i of table n. */
    method FreeSlot(p: nat, i: nat, ghost sp: Space, ghost t: nat, ghost n: Node, ghost f: seq<nat>,
                    ghost pt0: Tables, ghost d0: Data, ghost free0: seq<nat>)
      returns (ok: bool, ghost h: seq<nat>)
      requires Bounds() && n in sp.tables && sp.tables[n] == p && n.level <= 2
      requires TablesOf(owner, t, sp) && Rooted(sp) && Doomed(pt0, sp, n)
      requires i < 512 && Swept(p, i, sp, t, n, f, pt0, d0, free0) && Leafless(sp, n, i)
      modifies `freelist, `data, `pt
      ensures ok <==> Leafless(sp, n, i + 1)
      ensures ok ==> Swept(p, i + 1, sp, t, n, h, pt0, d0, free0)
      decreases n.level, 1
    {
      Onward(pt[p], pt0[p], i, ZERO);
      assert Tidy(pt0, sp, n);
      LeaflessNext(pt0, sp, n, i);
      if pt[p][i].v && !Leafy(pt[p][i]) {
        ok, h := FreeBranch(p, i, sp, t, n, f, pt0, d0, free0);
      } else {
        ok, h := !pt[p][i].v, f;
        if ok {
          EmptyBranch(pt0, owner, sp, t, n, i, f);
        }
      }
    }

    /** One round of freewalk, at a slot that leads to a lower table. */
    method FreeBranch(p: nat, i: nat, ghost sp: Space, ghost t: nat, ghost n: Node, ghost f: seq<nat>,
                      ghost pt0: Tables, ghost d0: Data, ghost free0: seq<nat>)
      returns (ok: bool, ghost h: seq<nat>)
      requires Bounds() && n in sp.tables && sp.tables[n] == p && n.level <= 2
      requires TablesOf(owner, t, sp) && Rooted(sp) && Doomed(pt0, sp, n)
      requires i < 512 && Swept(p, i, sp, t, n, f, pt0, d0, free0)
      requires pt[p][i] == At(pt0, p, i) && pt[p][i].v && !Leafy(pt[p][i])
      modifies `freelist, `data, `pt
      ensures ok <==> n.level > 0 && Leafless(sp, Child(n, i), 512)
      ensures ok ==> Swept(p, i + 1, sp, t, n, h, pt0, d0, free0)
      decreases n.level, 0
    {
      Onward(pt[p], pt0[p], i, ZERO);
      NextBranch(pt0, pt, sp, t, owner, n, i, f);
      ghost var pt1, d1, g := pt, data, [];
      ok, g := Freewalk(pt[p][i].page, sp, t, Child(n, i));
      if !ok {
        return ok, f;
      }
      h := JoinBranch(owner, sp, t, n, i, f, g);
      assert owner[p] == TableOf(t, n) && p !in g;
      Regrouped(g, f, free0);
      ChangedBoth(pt0, pt1, pt, f, g, p);
      ChangedBoth(d0, d1, data, f, g, p);
      pt := Put(pt, p, i, ZERO);
    }

    ghost predicate Sized()
      reads `data, `owner
    {
      forall q {:trigger data[q]} {:trigger q in data} :: q in owner ==> q in data && |data[q]| == PGSIZE
    }

    /** uvmcreate: an empty space, or 0. */
    method Uvmcreate() returns (t: nat)
      requires Valid()
      modifies `freelist, `data, `owner, `pt, `spaces
      ensures Valid() && Kept(old(data), data, old(owner)) && (t == 0 <==> old(freelist) == [])
      ensures t == 0 ==> spaces == old(spaces) && owner == old(owner)
      ensures t != 0 ==> t !in old(spaces) && spaces == old(spaces)[t := WithTable(BARE, ROOT, t)]
      ensures t != 0 ==> t in owner && old(owner)[t] == Free && owner == old(owner)[t := TableOf(t, ROOT)]
    {
      t := Kalloc();
      if t == 0 {
        return;
      }
      RootInv(freelist, pt, spaces, owner, t);
      pt := pt[t := Zeroes()];
      spaces := spaces[t := WithTable(BARE, ROOT, t)];
      owner := owner[t := TableOf(t, ROOT)];
    }

    /** freewalk from the root of a space: a false result stands for its panic. */
    method Drop(t: nat) returns (ok: bool)
      requires Valid() && t in spaces
      modifies `freelist, `data, `owner, `pt, `spaces
      ensures ok <==> old(spaces)[t].leaves == map[]
      ensures ok ==> Valid() && Kept(old(data), data, owner)
      ensures ok ==> spaces == old(spaces) - {t} && owner == Dropped(old(owner), t)
    {
      ReadyToDrop(freelist, pt, spaces, owner, t);
      ghost var f;
      ok, f := Freewalk(t, spaces[t], t, ROOT);
      if !ok {
        return;
      }
      DropPool(old(freelist), old(pt), spaces, owner, t, f);
      DropInv(old(freelist), freelist, old(pt), pt, spaces, owner, t);
      spaces := spaces - {t};
      owner := Dropped(owner, t);
    }

    /** uvmfree: the space's user pages and tables all return to the free list, unless
        a page is mapped at or above the size, for which freewalk panics. */
    method Uvmfree(t: nat, sz: nat) returns (ok: bool)
      requires Valid() && t in spaces && sz <= TRAPFRAME
      modifies `freelist, `data, `owner, `pt, `spaces
      ensures ok <==> Ends(old(spaces)[t], Pages(sz))
      ensures ok ==> Valid() && Kept(old(data), data, owner)
      ensures ok ==> spaces == old(spaces) - {t} && Released(old(owner), owner, t)
    {
      if sz > 0 {
        ok := Uvmunmap(t, 0, Pages(sz), true);
      }
      UnmapThenDrop(pt, old(spaces), spaces, old(owner), owner, t, Pages(sz));
      ok := Drop(t);
    }

    /** kalloc, fill, mappages, and kfree if that fails: how uvmalloc, uvmcopy and
        vmfault add a user page at address a. */
    method NewPage(t: nat, a: nat, bytes: seq<bv8>, perm: Perm) returns (p: nat)
      requires Valid() && t in spaces && a % PGSIZE == 0 && a < TRAPFRAME && a / PGSIZE !in spaces[t].leaves
      requires |bytes| == PGSIZE && (perm.r || perm.w || perm.x)
      modifies `freelist, `data, `owner, `pt, `spaces
      ensures Valid() && Kept(old(data), data, old(owner))
      ensures p == 0 ==> Grown(old(spaces), spaces, old(owner), owner, t) && |freelist| <= 1
      ensures p != 0 ==> Fresh(old(spaces), spaces, old(owner), owner, t, a / PGSIZE, a / PGSIZE + 1)
      ensures p != 0 ==> a / PGSIZE in spaces[t].leaves && spaces[t].leaves[a / PGSIZE] == Pte(true, p, perm)
      ensures p != 0 ==> p in data && data[p] == bytes
    {
      p := Kalloc();
      if p == 0 {
        return;
      }
      data := data[p := bytes];
      var ok := Place(t, a, p, perm, old(owner));
      if !ok {
        return 0;
      }
    }

    /** mappages on a page just taken, and kfree if that fails. */
    method Place(t: nat, a: nat, p: nat, perm: Perm, ghost o0: Owners) returns (ok: bool)
      requires Valid() && t in spaces && a % PGSIZE == 0 && a < TRAPFRAME && a / PGSIZE !in spaces[t].leaves
      requires p in o0 && o0[p] == Free && owner == o0[p := Held] && (perm.r || perm.w || perm.x)
      modifies `freelist, `data, `owner, `pt, `spaces
      ensures Valid() && Kept(old(data), data, o0)
      ensures !ok ==> Grown(old(spaces), spaces, o0, owner, t) && freelist == [p]
      ensures ok ==> Fresh(old(spaces), spaces, o0, owner, t, a / PGSIZE, a / PGSIZE + 1)
      ensures ok ==> a / PGSIZE in spaces[t].leaves && spaces[t].leaves[a / PGSIZE] == Pte(true, p, perm)
                     && data[p] == old(data)[p]
    {
      var r, done := Mappages(t, a, PGSIZE, p, perm);
      if r != Mapped {
        GrownNone(old(spaces), spaces, o0, owner, t, a / PGSIZE, p, perm);
        Release(p);
        return false;
      }
      FreshOne(freelist, pt, old(spaces), spaces, o0, owner, t, a / PGSIZE, p, perm);
      return true;
    }

    /** uvmdealloc: shrink from oldsz to newsz bytes. */
    method Uvmdealloc(t: nat, oldsz: nat, newsz: nat) returns (sz: nat)
      requires Valid() && t in spaces && oldsz <= TRAPFRAME
      modifies `freelist, `data, `owner, `pt, `spaces
      ensures Valid() && Kept(old(data), data, owner) && sz == if newsz < oldsz then newsz else oldsz
      ensures UnmappedRange(old(spaces), spaces, old(owner), owner, t, Pages(sz), Pages(oldsz) - Pages(sz), Free)
    {
      if newsz >= oldsz {
        return oldsz;
      }
      if Pages(newsz) * PGSIZE < Pages(oldsz) * PGSIZE {
        var npages := (Pages(oldsz) * PGSIZE - Pages(newsz) * PGSIZE) / PGSIZE;
        var ok := Uvmunmap(t, Pages(newsz) * PGSIZE, npages, true);
      }
      return newsz;
    }

    /** uvmalloc: grow from oldsz to newsz bytes, with zeroed pages. The ghost result
        says whether it succeeded; if not, the size returned is 0 and only page
        tables may be left over. */
    method Uvmalloc(t: nat, oldsz: nat, newsz: nat, xperm: Perm) returns (sz: nat, ghost ok: bool)
      requires Valid() && newsz <= TRAPFRAME && oldsz <= TRAPFRAME
      requires Bounded(freelist, pt, spaces, owner, t, Pages(oldsz))
      modifies `freelist, `data, `owner, `pt, `spaces
      ensures Valid() && Kept(old(data), data, old(owner))
      ensures newsz < oldsz ==> ok && sz == oldsz && spaces == old(spaces) && owner == old(owner)
      ensures newsz >= oldsz && ok ==>
                && sz == newsz && Fresh(old(spaces), spaces, old(owner), owner, t, Pages(oldsz), Pages(newsz))
                && ZeroPages(spaces[t], data, Pages(oldsz), Pages(newsz), xperm.(r := true, u := true))
      ensures !ok ==> sz == 0 && Grown(old(spaces), spaces, old(owner), owner, t)
    {
      if newsz < oldsz {
        return oldsz, true;
      }
      var start := Pages(oldsz) * PGSIZE;
      var a := start;
      ghost var i := Pages(oldsz);
      while a < newsz
        invariant a == i * PGSIZE && Pages(oldsz) <= i <= Pages(newsz)
        invariant Added(old(spaces), old(owner), old(data), t, Pages(oldsz), i, xperm)
      {
        var added := AllocPage(t, a, i, xperm,
                               old(freelist), old(pt), old(spaces), old(owner), old(data), Pages(oldsz));
        if !added {
          Undo(t, a, start, old(freelist), old(pt), old(spaces), old(owner), old(data), Pages(oldsz), i);
          return 0, false;
        }
        a := a + PGSIZE;
        i := i + 1;
      }
      return newsz, true;
    }

    /** uvmalloc has added pages first to i to the space it found. */
    ghost predicate Added(s0: Spaces, o0: Owners, d0: Data, t: nat, first: nat, i: nat, xperm: Perm)
      reads this
    {
      && Valid() && Kept(d0, data, o0) && Fresh(s0, spaces, o0, owner, t, first, i)
      && ZeroPages(spaces[t], data, first, i, xperm.(r := true, u := true))
    }

    /** uvmalloc's way back: the pages from start to a, all of them new, go. */
    method Undo(t: nat, a: nat, start: nat, ghost f0: seq<nat>, ghost pt0: Tables, ghost s0: Spaces, ghost o0: Owners,
                ghost d0: Data,
                ghost first: nat, ghost i: nat)
      requires a == i * PGSIZE && start == first * PGSIZE && first <= i <= USERTOP
      requires Valid() && Bounded(f0, pt0, s0, o0, t, first) && Kept(d0, data, o0)
               && Fresh(s0, spaces, o0, owner, t, first, i)
      modifies `freelist, `data, `owner, `pt, `spaces
      ensures Valid() && Kept(d0, data, o0) && Grown(s0, spaces, o0, owner, t)
    {
      ghost var s1, o1, d1 := spaces, owner, data;
      var back := Uvmdealloc(t, a, start);
      FreshUndone(s0, s1, spaces, o0, o1, owner, d0, d1, data, t, first, i);
    }

    /** One round of uvmalloc, in terms of the state it began in. */
    method AllocPage(t: nat, a: nat, ghost v: nat, xperm: Perm,
                     ghost f0: seq<nat>, ghost pt0: Tables, ghost s0: Spaces, ghost o0: Owners,
                     ghost d0: Data, ghost first: nat)
      returns (ok: bool)
      requires a == v * PGSIZE && first <= v < USERTOP
      requires Bounded(f0, pt0, s0, o0, t, first) && Added(s0, o0, d0, t, first, v, xperm)
      modifies `freelist, `data, `owner, `pt, `spaces
      ensures ok ==> Added(s0, o0, d0, t, first, v + 1, xperm)
      ensures !ok ==> Valid() && Kept(d0, data, o0) && Fresh(s0, spaces, o0, owner, t, first, v)
    {
      ghost var s1, o1, d1 := spaces, owner, data;
      assert SpaceOk(pt, owner, t, spaces[t]);
      var p := NewPage(t, a, Fill(0), xperm.(r := true, u := true));
      if p == 0 {
        GrownFresh(s1, spaces, o1, owner, t);
        FreshThen(s0, s1, spaces, o0, o1, owner, d0, d1, data, t, first, v, v);
        return false;
      }
      FreshThen(s0, s1, spaces, o0, o1, owner, d0, d1, data, t, first, v, v + 1);
      ZeroPagesKept(s1, spaces, o1, owner, d1, data, t, first, v, xperm.(r := true, u := true));
      return true;
    }

    /** walkaddr: the page user address va is on, or 0 if users may not see it. */
    method Walkaddr(t: nat, va: nat) returns (p: nat)
      requires Valid() && t in spaces
      modifies `freelist, `data, `owner, `pt, `spaces
      ensures Valid() && data == old(data) && owner == old(owner) && pt == old(pt) && spaces == old(spaces)
              && freelist == old(freelist)
      ensures p != 0 <==> va < MAXVA && Readable(spaces[t], va / PGSIZE)
      ensures p != 0 ==> p == spaces[t].leaves[va / PGSIZE].page
    {
      if va >= MAXVA {
        return 0;
      }
      var w := Walk(t, va, false);
      assert SpaceOk(pt, owner, t, spaces[t]);
      LookUp(pt, t, spaces[t], va / PGSIZE);
      if w == Absent {
        return 0;
      }
      assert TableOk(pt, spaces[t], NodeFor(0, va / PGSIZE));
      if !pt[w.page][w.slot].v || !pt[w.page][w.slot].perm.u {
        return 0;
      }
      return pt[w.page][w.slot].page;
    }

    /** ismapped: the page of va has an entry, for users or not. */
    method IsMapped(t: nat, va: nat) returns (there: bool)
      requires Valid() && t in spaces && va < MAXVA
      modifies `freelist, `data, `owner, `pt, `spaces
      ensures Valid() && data == old(data) && owner == old(owner) && pt == old(pt) && spaces == old(spaces)
              && freelist == old(freelist)
      ensures there <==> va / PGSIZE in spaces[t].leaves
    {
      var w := Walk(t, va, false);
      assert SpaceOk(pt, owner, t, spaces[t]);
      LookUp(pt, t, spaces[t], va / PGSIZE);
      if w == Absent {
        return false;
      }
      assert TableOk(pt, spaces[t], NodeFor(0, va / PGSIZE));
      there := pt[w.page][w.slot].v;
    }

    /** vmfault: allocate the page of va if it lies below psz and is not there yet;
        user memory stays as it is seen. */
    method Vmfault(t: nat, psz: nat, va: nat) returns (p: nat)
      requires Valid() && t in spaces && psz <= TRAPFRAME
      modifies `freelist, `data, `owner, `pt, `spaces
      ensures Valid() && Unseen(old(spaces), old(owner), old(data), t)
      ensures p == 0 ==> Grown(old(spaces), spaces, old(owner), owner, t)
                         && (va >= psz || va / PGSIZE in old(spaces)[t].leaves || |freelist| <= 1)
      ensures p != 0 ==> va < psz && va / PGSIZE !in old(spaces)[t].leaves
                         && Fresh(old(spaces), spaces, old(owner), owner, t, va / PGSIZE, va / PGSIZE + 1)
                         && va / PGSIZE in spaces[t].leaves
                           && spaces[t].leaves[va / PGSIZE] == Pte(true, p, Perm(true, true, false, true))
    {
      if va >= psz {
        return 0;
      }
      var a := va / PGSIZE * PGSIZE;
      var there := IsMapped(t, a);
      if there {
        return 0;
      }
      p := NewPage(t, a, Fill(0), Perm(true, true, false, true));
      GrownFresh(old(spaces), spaces, old(owner), owner, t);
      FreshUnseen(old(freelist), old(pt), old(spaces), spaces, old(owner), owner, old(data), data, t,
                  a / PGSIZE, a / PGSIZE + if p == 0 then 0 else 1);
    }

    /** Only tables and zeroed pages may have been added since. */
    ghost predicate Unseen(s0: Spaces, o0: Owners, d0: Data, t: nat)
      reads this
    {
      t in s0 && t in spaces && Kept(d0, data, o0) && SameMem(s0[t], d0, spaces[t], data)
        && OthersSame(s0, d0, spaces, data, t)
    }

    /** How copyout and copyin find the page of va: walkaddr, or else vmfault. */
    method Resolve(t: nat, psz: nat, va: nat) returns (p: nat)
      requires Valid() && t in spaces && psz <= TRAPFRAME
      modifies `freelist, `data, `owner, `pt, `spaces
      ensures Valid() && Unseen(old(spaces), old(owner), old(data), t) && LeavesGrow(old(spaces)[t], spaces[t])
      ensures p == 0 ==> !(va < MAXVA && Readable(old(spaces)[t], va / PGSIZE))
      ensures p != 0 ==> va < TRAPFRAME && Readable(spaces[t], va / PGSIZE) && p == spaces[t].leaves[va / PGSIZE].page
      ensures p != 0 ==> p in data && |data[p]| == PGSIZE
      ensures Faulted(old(spaces), spaces, old(owner), owner, t, psz)
    {
      p := Walkaddr(t, va);
      if p == 0 {
        p := Vmfault(t, psz, va);
      }
      FaultedOne(old(spaces), spaces, old(owner), owner, t, psz, va / PGSIZE);
      assert SpaceOk(pt, owner, t, spaces[t]);
    }

    /** One round of copyout: as much of bytes as fits on the page of va, or none. */
    method CopyoutPage(t: nat, psz: nat, va: nat, bytes: seq<bv8>) returns (n: nat)
      requires Valid() && t in spaces && psz <= TRAPFRAME && |bytes| > 0
      modifies `freelist, `data, `owner, `pt, `spaces
      ensures Valid() && t in spaces && LeavesGrow(old(spaces)[t], spaces[t])
              && OthersSame(old(spaces), old(data), spaces, data, t)
      ensures n <= |bytes| && Written(old(spaces)[t], old(data), spaces[t], data, va, bytes[..n])
      ensures Faulted(old(spaces), spaces, old(owner), owner, t, psz)
      ensures n == 0 ==> va >= MAXVA || !Writable(old(spaces)[t], va / PGSIZE)
      ensures n > 0 ==> Readable(spaces[t], va / PGSIZE) && va < TRAPFRAME
                        && n == if PGSIZE - va % PGSIZE > |bytes| then |bytes| else PGSIZE - va % PGSIZE
    {
      var va0 := va / PGSIZE * PGSIZE;
      if va0 >= MAXVA {
        FaultedOne(spaces, spaces, owner, owner, t, psz, 0);
        return 0;
      }
      var p := Resolve(t, psz, va0);
      if p == 0 {
        return 0;
      }
      var w := IsWritable(t, va0);
      if !w {
        return 0;
      }
      n := PGSIZE - (va - va0);
      if n > |bytes| {
        n := |bytes|;
      }
      ghost var s1, d1 := spaces, data;
      PatchWritten(freelist, pt, spaces, owner, data, t, va, bytes[..n]);
      data := data[p := Patch(data[p], va - va0, bytes[..n])];
      WrittenThen(old(spaces)[t], old(data), s1[t], d1, spaces[t], data, va, [], bytes[..n]);
      OthersThen(old(spaces), old(data), s1, d1, spaces, data, t);
    }

    /** The PTE_W test of copyout. */
    method IsWritable(t: nat, va: nat) returns (w: bool)
      requires Valid() && t in spaces && va < MAXVA && va / PGSIZE in spaces[t].leaves
      modifies `freelist, `data, `owner, `pt, `spaces
      ensures Valid() && data == old(data) && owner == old(owner) && pt == old(pt) && spaces == old(spaces)
              && freelist == old(freelist)
      ensures w <==> spaces[t].leaves[va / PGSIZE].perm.w
    {
      var e := Walk(t, va, false);
      assert SpaceOk(pt, owner, t, spaces[t]);
      LookUp(pt, t, spaces[t], va / PGSIZE);
      assert TableOk(pt, spaces[t], NodeFor(0, va / PGSIZE));
      w := pt[e.page][e.slot].perm.w;
    }

    /** The round of copyout for the page of va, after done bytes. */
    method CopyoutNext(t: nat, psz: nat, va: nat, rest: seq<bv8>, ghost s0: Spaces, ghost o0: Owners, ghost d0: Data,
                       ghost dstva: nat, ghost src: seq<bv8>, ghost done: nat)
      returns (n: nat)
      requires Valid() && psz <= TRAPFRAME && done < |src| && rest == src[done..] && va == dstva + done
      requires Copied(s0, d0, spaces, data, t, dstva, src, done) && Faulted(s0, spaces, o0, owner, t, psz)
      modifies `freelist, `data, `owner, `pt, `spaces
      ensures Valid() && n <= |rest| && Copied(s0, d0, spaces, data, t, dstva, src, done + n)
      ensures Faulted(s0, spaces, o0, owner, t, psz)
      ensures n == 0 ==> va >= MAXVA || !Writable(s0[t], va / PGSIZE)
      ensures n > 0 ==> va + n <= TRAPFRAME
      ensures 0 < n < |rest| ==> va + n == va / PGSIZE * PGSIZE + PGSIZE
    {
      ghost var s1, o1, d1 := spaces, owner, data;
      n := CopyoutPage(t, psz, va, rest);
      FaultedThen(s0, s1, spaces, o0, o1, owner, t, psz);
      CopiedMore(s0, d0, s1, d1, spaces, data, t, dstva, src, done, n);
    }

    /** copyout: src to user address dstva. The ghost result counts the bytes
        copied, a prefix unless it succeeds. */
    method Copyout(t: nat, psz: nat, dstva: nat, src: seq<bv8>) returns (ok: bool, ghost done: nat)
      requires Valid() && t in spaces && psz <= TRAPFRAME
      modifies `freelist, `data, `owner, `pt, `spaces
      ensures Valid() && Copied(old(spaces), old(data), spaces, data, t, dstva, src, done)
      ensures ok <==> done == |src|
      ensures done > 0 ==> dstva + done <= TRAPFRAME
      ensures !ok ==> dstva + done >= MAXVA || !Writable(old(spaces)[t], (dstva + done) / PGSIZE)
      ensures Faulted(old(spaces), spaces, old(owner), owner, t, psz)
      ensures old(Procs()) && psz == sz[t] ==> Procs()
    {
      var va, rest := dstva, src;
      done := 0;
      FaultedOne(spaces, spaces, owner, owner, t, psz, 0);
      while |rest| > 0
        invariant done <= |src| && rest == src[done..] && (|rest| > 0 ==> va == dstva + done) && Valid()
        invariant Copied(old(spaces), old(data), spaces, data, t, dstva, src, done)
                  && (done > 0 ==> dstva + done <= TRAPFRAME)
        invariant Faulted(old(spaces), spaces, old(owner), owner, t, psz)
        decreases |rest|
      {
        var n := CopyoutNext(t, psz, va, rest, old(spaces), old(owner), old(data), dstva, src, done);
        FaultedSizes(old(spaces), spaces, old(owner), owner, t, psz, sz);
        if n == 0 {
          return false, done;
        }
        rest := rest[n..];
        done := done + n;
        va := va / PGSIZE * PGSIZE + PGSIZE;
      }
      FaultedSizes(old(spaces), spaces, old(owner), owner, t, psz, sz);
      return true, done;
    }

    /** The page of va, as copyin finds it. */
    method Look(t: nat, psz: nat, va: nat, ghost s0: Spaces, ghost o0: Owners, ghost d0: Data) returns (p: nat)
      requires Valid() && psz <= TRAPFRAME && Looked(s0, o0, d0, t, psz)
      modifies `freelist, `data, `owner, `pt, `spaces
      ensures Valid() && Looked(s0, o0, d0, t, psz)
      ensures p == 0 ==> !(va < MAXVA && Readable(s0[t], va / PGSIZE))
      ensures p != 0 ==> va < TRAPFRAME && Readable(spaces[t], va / PGSIZE) && p == spaces[t].leaves[va / PGSIZE].page
      ensures p != 0 ==> p in data && |data[p]| == PGSIZE
    {
      ghost var s1, o1, d1 := spaces, owner, data;
      p := Resolve(t, psz, va);
      LookedMore(s0, d0, s1, d1, spaces, data, t);
      FaultedThen(s0, s1, spaces, o0, o1, owner, t, psz);
    }

    /** The round of copyin for the page of va: the bytes it reads, or none. */
    method CopyinNext(t: nat, psz: nat, va: nat, rest: nat, ghost s0: Spaces, ghost o0: Owners, ghost d0: Data)
      returns (more: seq<bv8>)
      requires Valid() && psz <= TRAPFRAME && rest > 0 && Looked(s0, o0, d0, t, psz)
      modifies `freelist, `data, `owner, `pt, `spaces
      ensures Valid() && Looked(s0, o0, d0, t, psz) && |more| <= rest
      ensures more == [] ==> va >= MAXVA || !Readable(s0[t], va / PGSIZE)
      ensures more != [] ==> va + |more| <= TRAPFRAME && Reads(spaces[t], data, va, more)
      ensures 0 < |more| < rest ==> va + |more| == va / PGSIZE * PGSIZE + PGSIZE
    {
      var va0 := va / PGSIZE * PGSIZE;
      var p := Look(t, psz, va0, s0, o0, d0);
      if p == 0 {
        return [];
      }
      var n := PGSIZE - (va - va0);
      if n > rest {
        n := rest;
      }
      more := data[p][va - va0..va - va0 + n];
      ReadPage(spaces[t], data, va, n);
    }

    /** Copying in has changed nothing a user can see, and added pages below psz only. */
    ghost predicate Looked(s0: Spaces, o0: Owners, d0: Data, t: nat, psz: nat)
      reads `spaces, `owner, `data
    {
      && t in s0 && t in spaces && SameMem(s0[t], d0, spaces[t], data) && OthersSame(s0, d0, spaces, data, t)
      && LeavesGrow(s0[t], spaces[t]) && Faulted(s0, spaces, o0, owner, t, psz)
    }

    /** copyin: len bytes from user address srcva; what users see does not change. */
    method Copyin(t: nat, psz: nat, srcva: nat, len: nat) returns (ok: bool, dst: seq<bv8>)
      requires Valid() && t in spaces && psz <= TRAPFRAME
      modifies `freelist, `data, `owner, `pt, `spaces
      ensures Valid() && t in spaces && SameMem(old(spaces)[t], old(data), spaces[t], data)
              && OthersSame(old(spaces), old(data), spaces, data, t)
      ensures Reads(old(spaces)[t], old(data), srcva, dst)
      ensures ok <==> |dst| == len
      ensures |dst| <= len && (!ok ==> srcva + |dst| >= MAXVA || !Readable(old(spaces)[t], (srcva + |dst|) / PGSIZE))
      ensures Faulted(old(spaces), spaces, old(owner), owner, t, psz)
      ensures old(Procs()) && psz == sz[t] ==> Procs()
    {
      FaultedOne(spaces, spaces, owner, owner, t, psz, 0);
      var va, rest := srcva, len;
      dst := [];
      while rest > 0
        invariant rest >= 0 && |dst| + rest == len && (rest > 0 ==> va == srcva + |dst|) && Valid()
        invariant Looked(old(spaces), old(owner), old(data), t, psz) && (|dst| > 0 ==> srcva + |dst| <= TRAPFRAME)
        invariant Reads(old(spaces)[t], old(data), srcva, dst)
        decreases rest
      {
        var more := CopyinNext(t, psz, va, rest, old(spaces), old(owner), old(data));
        FaultedSizes(old(spaces), spaces, old(owner), owner, t, psz, sz);
        if more == [] {
          return false, dst;
        }
        ReadMore(old(spaces)[t], old(data), spaces[t], data, srcva, dst, more);
        dst := dst + more;
        rest := rest - |more|;
        va := va / PGSIZE * PGSIZE + PGSIZE;
      }
      FaultedSizes(old(spaces), spaces, old(owner), owner, t, psz, sz);
      return true, dst;
    }

    /** What copyout has stored, copyin finds again, across page boundaries and
        whether the pages were there before or not. */
    method CopyRoundTrip(t: nat, psz: nat, va: nat, src: seq<bv8>) returns (stored: bool, ok: bool, dst: seq<bv8>)
      requires Valid() && t in spaces && psz <= TRAPFRAME
      modifies `freelist, `data, `owner, `pt, `spaces
      ensures stored ==> ok && dst == src
    {
      ghost var done;
      stored, done := Copyout(t, psz, va, src);
      ghost var s1, d1 := spaces, data;
      ok, dst := Copyin(t, psz, va, |src|);
      if stored {
        forall k | 0 <= k < |dst|
          ensures dst[k] == src[k]
        {
          assert dst[k] == Mem(s1[t], d1, va + k);
        }
      }
    }

    /** uvmcopy: the first sz bytes of space `from`, page by page, into space t. */
    method Uvmcopy(from: nat, t: nat, sz: nat) returns (ok: bool)
      requires Valid() && from in spaces && from != t && sz <= TRAPFRAME && Bounded(freelist, pt, spaces, owner, t, 0)
      modifies `freelist, `data, `owner, `pt, `spaces
      ensures Valid() && Kept(old(data), data, old(owner))
      ensures ok ==> Fresh(old(spaces), spaces, old(owner), owner, t, 0, Pages(sz))
                     && CopyOf(old(spaces)[from], old(data), spaces[t], data, Pages(sz))
      ensures !ok ==> Grown(old(spaces), spaces, old(owner), owner, t)
    {
      var i := 0;
      ghost var v := 0;
      while i < sz
        invariant i == v * PGSIZE && 0 <= v <= Pages(sz)
        invariant Copying(old(spaces), old(owner), old(data), from, t, v)
      {
        var added := CopyPage(from, t, i, v, old(freelist), old(pt), old(spaces), old(owner), old(data));
        if !added {
          UndoCopy(t, i, v, old(freelist), old(pt), old(spaces), old(owner), old(data));
          return false;
        }
        i := i + PGSIZE;
        v := v + 1;
      }
      return true;
    }

    /** The error path of uvmcopy. */
    method UndoCopy(t: nat, a: nat, ghost v: nat, ghost f0: seq<nat>, ghost pt0: Tables, ghost s0: Spaces,
                    ghost o0: Owners, ghost d0: Data)
      requires Valid() && a == v * PGSIZE && v <= USERTOP && Bounded(f0, pt0, s0, o0, t, 0)
      requires Kept(d0, data, o0) && Fresh(s0, spaces, o0, owner, t, 0, v)
      modifies `freelist, `data, `owner, `pt, `spaces
      ensures Valid() && Kept(d0, data, o0) && Grown(s0, spaces, o0, owner, t)
    {
      ghost var s1, o1, d1 := spaces, owner, data;
      var done := Uvmunmap(t, 0, a / PGSIZE, true);
      FreshUndone(s0, s1, spaces, o0, o1, owner, d0, d1, data, t, 0, v);
    }

    /** uvmcopy has dealt with the first v pages. */
    ghost predicate Copying(s0: Spaces, o0: Owners, d0: Data, from: nat, t: nat, v: nat)
      reads this
    {
      && Valid() && from in s0 && (forall p :: p in o0 ==> p in d0)
      && Kept(d0, data, o0) && Fresh(s0, spaces, o0, owner, t, 0, v)
      && CopyOf(s0[from], d0, spaces[t], data, v)
    }

    /** One round of uvmcopy. */
    method CopyPage(from: nat, t: nat, a: nat, ghost v: nat,
                    ghost f0: seq<nat>, ghost pt0: Tables, ghost s0: Spaces, ghost o0: Owners, ghost d0: Data)
      returns (ok: bool)
      requires a == v * PGSIZE && v < USERTOP && from != t
      requires Bounded(f0, pt0, s0, o0, t, 0) && Copying(s0, o0, d0, from, t, v)
      modifies `freelist, `data, `owner, `pt, `spaces
      ensures ok ==> Copying(s0, o0, d0, from, t, v + 1)
      ensures !ok ==> Valid() && Kept(d0, data, o0) && Fresh(s0, spaces, o0, owner, t, 0, v)
    {
      var w := Walk(from, a, false);
      assert SpaceOk(pt, owner, from, spaces[from]);
      LookUp(pt, from, spaces[from], v);
      if w == Absent || !At(pt, w.page, w.slot).v {
        assert SamePage(s0[from], d0, spaces[t], data, v);
        return true;
      }
      SourcePage(f0, pt0, s0, spaces, o0, owner, d0, data, from, t, v);
      ok := CopyMapped(from, t, a, v, pt[w.page][w.slot], f0, pt0, s0, o0, d0);
    }

    /** The rest of that round, for a page that `from` maps with entry e. */
    method CopyMapped(from: nat, t: nat, a: nat, ghost v: nat, e: Pte,
                      ghost f0: seq<nat>, ghost pt0: Tables, ghost s0: Spaces, ghost o0: Owners, ghost d0: Data)
      returns (ok: bool)
      requires a == v * PGSIZE && v < USERTOP && from != t
      requires Bounded(f0, pt0, s0, o0, t, 0) && Copying(s0, o0, d0, from, t, v)
      requires v in s0[from].leaves && s0[from].leaves[v] == e && Leafy(e)
      requires e.page in data && e.page in d0 && data[e.page] == d0[e.page] && |data[e.page]| == PGSIZE
      modifies `freelist, `data, `owner, `pt, `spaces
      ensures ok ==> Copying(s0, o0, d0, from, t, v + 1)
      ensures !ok ==> Valid() && Kept(d0, data, o0) && Fresh(s0, spaces, o0, owner, t, 0, v)
    {
      ghost var s1, o1, d1 := spaces, owner, data;
      assert SpaceOk(pt, owner, t, spaces[t]);
      var p := NewPage(t, a, data[e.page], e.perm);
      if p == 0 {
        GrownFresh(s1, spaces, o1, owner, t);
        FreshThen(s0, s1, spaces, o0, o1, owner, d0, d1, data, t, 0, v, v);
        return false;
      }
      FreshThen(s0, s1, spaces, o0, o1, owner, d0, d1, data, t, 0, v, v + 1);
      CopyKept(s0[from], d0, s1, spaces, o1, owner, d1, data, t, v);
      assert SamePage(s0[from], d0, spaces[t], data, v);
      return true;
    }

    // ---- processes: proc.c and sysproc.c ----

    /** Every space is a process's, with pages below its size, and above them only
        the trampoline and the trapframe. */
    ghost predicate Procs()
      reads `spaces, `sz
    {
      WithinSizes(spaces, sz)
    }

    /** Space t is new, of pages that were free, and maps just the pages in high. */
    ghost predicate Building(s0: Spaces, o0: Owners, d0: Data, t: nat, high: set<nat>)
      reads this
    {
      && Valid() && t !in s0 && t in spaces && spaces == s0[t := spaces[t]] && spaces[t].leaves.Keys == high
      && Since(o0, owner, t) && Kept(d0, data, o0)
    }

    method MapHigh(t: nat, va: nat, p: nat, perm: Perm, ghost s0: Spaces, ghost o0: Owners, ghost d0: Data,
                   ghost high: set<nat>)
      returns (ok: bool)
      requires Building(s0, o0, d0, t, high) && TRAPFRAME <= va < MAXVA && va % PGSIZE == 0 && va / PGSIZE !in high
      requires (perm.r || perm.w || perm.x) && !perm.u
      modifies `freelist, `data, `owner, `pt, `spaces
      ensures Building(s0, o0, d0, t, if ok then high + {va / PGSIZE} else high)
    {
      ghost var s1, o1, d1 := spaces, owner, data;
      var r, done := Mappages(t, va, PGSIZE, p, perm);
      SinceMapped(s1, spaces, o0, o1, owner, d0, d1, data, t, va / PGSIZE, done, p, perm);
      return r == Mapped;
    }

    method UnmapHigh(t: nat, va: nat, ghost s0: Spaces, ghost o0: Owners, ghost d0: Data, ghost high: set<nat>)
      requires Building(s0, o0, d0, t, high) && TRAPFRAME <= va < MAXVA && va % PGSIZE == 0
      modifies `freelist, `data, `owner, `pt, `spaces
      ensures Building(s0, o0, d0, t, high - {va / PGSIZE})
    {
      ghost var s1, o1, d1 := spaces, owner, data;
      ghost var f1, pt1 := freelist, pt;
      var ok := Uvmunmap(t, va, 1, false);
      SinceUnmapped(f1, pt1, s1, spaces, o0, o1, owner, d0, d1, data, t, va / PGSIZE);
    }

    /** uvmfree of a space that is new and maps nothing: all is as before it. */
    method Discard(t: nat, ghost f0: seq<nat>, ghost pt0: Tables, ghost s0: Spaces, ghost o0: Owners, ghost d0: Data)
      requires Building(s0, o0, d0, t, {}) && Inv(f0, pt0, s0, o0)
      modifies `freelist, `data, `owner, `pt, `spaces
      ensures Valid() && spaces == s0 && owner == o0 && Kept(d0, data, o0)
    {
      ghost var o1, d1 := owner, data;
      var ok := Uvmfree(t, 0);
      SinceReleased(f0, pt0, s0, o0, o1, owner, d0, d1, data, t);
    }

    /** proc_pagetable: a space with trampoline and trapframe mapped, or 0 with every
        page where it was. */
    method ProcPagetable(trampoline: nat, trapframe: nat) returns (t: nat)
      requires Valid()
      modifies `freelist, `data, `owner, `pt, `spaces
      ensures t == 0 ==> Valid() && spaces == old(spaces) && owner == old(owner) && Kept(old(data), data, old(owner))
      ensures t != 0 ==> Building(old(spaces), old(owner), old(data), t, {TRAMPOLINE / PGSIZE, TRAPFRAME / PGSIZE})
    {
      t := Uvmcreate();
      if t == 0 {
        return;
      }
      var ok := MapHigh(t, TRAMPOLINE, trampoline, Perm(true, false, true, false),
                        old(spaces), old(owner), old(data), {});
      if !ok {
        Discard(t, old(freelist), old(pt), old(spaces), old(owner), old(data));
        return 0;
      }
      ok := MapHigh(t, TRAPFRAME, trapframe, Perm(true, true, false, false),
                    old(spaces), old(owner), old(data), {TRAMPOLINE / PGSIZE});
      if !ok {
        UnmapHigh(t, TRAMPOLINE, old(spaces), old(owner), old(data), {TRAMPOLINE / PGSIZE});
        Discard(t, old(freelist), old(pt), old(spaces), old(owner), old(data));
        return 0;
      }
    }

    /** allocproc's page table: a process of size 0. */
    method Create(trampoline: nat, trapframe: nat) returns (t: nat)
      requires Valid() && Procs()
      modifies `freelist, `data, `owner, `pt, `spaces, `sz
      ensures Valid() && Procs() && Kept(old(data), data, old(owner))
      ensures t == 0 ==> spaces == old(spaces) && owner == old(owner) && sz == old(sz)
      ensures t != 0 ==> Building(old(spaces), old(owner), old(data), t, {TRAMPOLINE / PGSIZE, TRAPFRAME / PGSIZE})
                         && sz == old(sz)[t := 0]
    {
      t := ProcPagetable(trampoline, trapframe);
      if t != 0 {
        sz := sz[t := 0];
        forall s | s in spaces
          ensures Sensible(spaces[s], sz[s])
        {
          assert s != t ==> Sensible(old(spaces)[s], old(sz)[s]);
        }
      }
    }

    /** The first half of proc_freepagetable: trampoline and trapframe go, unfreed. */
    method Unhook(t: nat, ghost n: nat)
      requires Valid() && t in spaces && Sensible(spaces[t], n)
      modifies `freelist, `data, `owner, `pt, `spaces
      ensures Valid() && Kept(old(data), data, owner) && owner == old(owner)
      ensures t in spaces && spaces == old(spaces)[t := spaces[t]] && Ends(spaces[t], Pages(n))
    {
      ghost var s0, o0, f0, pt0 := spaces, owner, freelist, pt;
      var ok := Uvmunmap(t, TRAMPOLINE, 1, false);
      HighUnmapped(f0, pt0, s0, spaces, o0, owner, t, TRAMPOLINE / PGSIZE);
      ghost var s1, f1, pt1, d1 := spaces, freelist, pt, data;
      ok := Uvmunmap(t, TRAPFRAME, 1, false);
      HighUnmapped(f1, pt1, s1, spaces, o0, owner, t, TRAPFRAME / PGSIZE);
      KeptTransitive(old(data), d1, data, owner, owner);
    }

    /** proc_freepagetable: all of the process's pages and tables are free again. */
    method ProcFreepagetable(t: nat)
      requires Valid() && Procs() && t in spaces
      modifies `freelist, `data, `owner, `pt, `spaces, `sz
      ensures Valid() && Procs() && Kept(old(data), data, owner)
      ensures spaces == old(spaces) - {t} && sz == old(sz) - {t} && Released(old(owner), owner, t)
    {
      assert Sensible(spaces[t], sz[t]);
      Unhook(t, sz[t]);
      ghost var d1 := data;
      var ok := Uvmfree(t, sz[t]);
      sz := sz - {t};
      KeptAfter(old(data), d1, data, old(owner), owner);
      forall s | s in spaces
        ensures Sensible(spaces[s], sz[s])
      {
        assert Sensible(old(spaces)[s], old(sz)[s]);
      }
    }

    /** growproc by n > 0 bytes: zeroed pages, or -1 with the size as it was. */
    method GrowBy(t: nat, n: nat) returns (r: int)
      requires Valid() && Procs() && t in spaces && n > 0
      modifies `freelist, `data, `owner, `pt, `spaces, `sz
      ensures Valid() && Procs() && Unseen(old(spaces), old(owner), old(data), t)
      ensures r == 0 ==> sz == old(sz)[t := old(sz)[t] + n]
                         && Fresh(old(spaces), spaces, old(owner), owner, t, Pages(old(sz)[t]), Pages(sz[t]))
                         && ZeroPages(spaces[t], data, Pages(old(sz)[t]), Pages(sz[t]), Perm(true, true, false, true))
      ensures r != 0 ==> r == -1 && sz == old(sz) && Grown(old(spaces), spaces, old(owner), owner, t)
      ensures old(sz)[t] + n > TRAPFRAME ==> r == -1 && spaces == old(spaces) && owner == old(owner)
    {
      assert Sensible(spaces[t], sz[t]);
      if sz[t] + n > TRAPFRAME {
        return -1;
      }
      var newsz, ok := Uvmalloc(t, sz[t], sz[t] + n, Perm(false, true, false, false));
      GrownFresh(old(spaces), spaces, old(owner), owner, t);
      FreshUnseen(old(freelist), old(pt), old(spaces), spaces, old(owner), owner, old(data), data, t, Pages(sz[t]),
                  if ok then Pages(sz[t] + n) else Pages(sz[t]));
      if newsz == 0 {
        SensibleFresh(old(spaces), spaces, old(owner), owner, t, old(sz), sz, 0, 0);
        return -1;
      }
      sz := sz[t := newsz];
      SensibleFresh(old(spaces), spaces, old(owner), owner, t, old(sz), sz, Pages(old(sz)[t]), Pages(newsz));
      return 0;
    }

    /** growproc by -n bytes, n > 0: the size wraps round when n exceeds it, and then
        uvmdealloc does nothing. */
    method ShrinkBy(t: nat, n: nat) returns (r: int)
      requires Valid() && Procs() && t in spaces && 0 < n <= 0x8000_0000
      modifies `freelist, `data, `owner, `pt, `spaces, `sz
      ensures Valid() && Procs() && Kept(old(data), data, owner) && r == 0
      ensures sz == old(sz)[t := if n <= old(sz)[t] then old(sz)[t] - n else old(sz)[t]]
      ensures UnmappedRange(old(spaces), spaces, old(owner), owner, t,
                            Pages(sz[t]), Pages(old(sz)[t]) - Pages(sz[t]), Free)
    {
      assert Sensible(spaces[t], sz[t]);
      var newsz := Uvmdealloc(t, sz[t], (sz[t] - n) % 0x1_0000_0000_0000_0000);
      sz := sz[t := newsz];
      forall s | s in spaces
        ensures Sensible(spaces[s], sz[s])
      {
        assert Sensible(old(spaces)[s], old(sz)[s]);
      }
      return 0;
    }

    /** sys_sbrk, lazily: the size grows and no page is allocated. */
    method SbrkLazy(t: nat, n: nat) returns (r: int)
      requires Valid() && Procs() && t in spaces
      modifies `sz
      ensures Valid() && Procs()
      ensures if old(sz)[t] + n > TRAPFRAME then r == -1 && sz == old(sz)
              else r == old(sz)[t] && sz == old(sz)[t := r + n]
    {
      assert Sensible(spaces[t], sz[t]);
      if sz[t] + n > TRAPFRAME {
        return -1;
      }
      r := sz[t];
      sz := sz[t := sz[t] + n];
      forall s | s in spaces
        ensures Sensible(spaces[s], sz[s])
      {
        assert Sensible(spaces[s], old(sz)[s]);
      }
    }

    /** A page fault of a process: vmfault below its size. */
    method Fault(t: nat, va: nat) returns (p: nat)
      requires Valid() && Procs() && t in spaces
      modifies `freelist, `data, `owner, `pt, `spaces
      ensures Valid() && Procs() && Unseen(old(spaces), old(owner), old(data), t)
      ensures p != 0 ==> va < sz[t] && Writable(spaces[t], va / PGSIZE) && spaces[t].leaves[va / PGSIZE].page == p
      ensures p == 0 ==> va >= sz[t] || va / PGSIZE in old(spaces)[t].leaves || |freelist| <= 1
    {
      assert Sensible(spaces[t], sz[t]);
      p := Vmfault(t, sz[t], va);
      GrownFresh(old(spaces), spaces, old(owner), owner, t);
      SensibleFresh(old(spaces), spaces, old(owner), owner, t, sz, sz,
                    if p == 0 then 0 else va / PGSIZE, if p == 0 then 0 else va / PGSIZE + 1);
    }

    /** kfork's memory: a process with the same user memory, or 0 with every page
        where it was. */
    method Fork(from: nat, trampoline: nat, trapframe: nat) returns (t: nat)
      requires Valid() && Procs() && from in spaces
      modifies `freelist, `data, `owner, `pt, `spaces, `sz
      ensures Valid() && Procs() && Kept(old(data), data, old(owner))
      ensures t == 0 ==> spaces == old(spaces) && owner == old(owner) && sz == old(sz)
      ensures t != 0 ==>
                t !in old(spaces) && t in spaces && spaces == old(spaces)[t := spaces[t]] && Since(old(owner), owner, t)
                         && sz == old(sz)[t := old(sz)[from]]
                         && CopyOf(old(spaces)[from], old(data), spaces[t], data, Pages(sz[t]))
                         && SameMem(old(spaces)[from], old(data), spaces[t], data)
    {
      assert Sensible(spaces[from], sz[from]);
      t := Create(trampoline, trapframe);
      if t == 0 {
        return;
      }
      var ok := CopyInto(from, t, old(freelist), old(pt), old(spaces), old(owner), old(data), old(sz));
      if !ok {
        return 0;
      }
      assert Sensible(spaces[t], sz[t]);
      CopiedSame(old(spaces)[from], old(data), spaces[t], data, Pages(sz[t]));
    }

    /** The rest of kfork's memory: copy into the new space, or drop it. */
    method CopyInto(from: nat, t: nat, ghost f0: seq<nat>, ghost pt0: Tables, ghost s0: Spaces, ghost o0: Owners,
                    ghost d0: Data, ghost sz0: map<nat, nat>)
      returns (ok: bool)
      requires Building(s0, o0, d0, t, {TRAMPOLINE / PGSIZE, TRAPFRAME / PGSIZE}) && Procs() && sz == sz0[t := 0]
               && t !in sz0
      requires Inv(f0, pt0, s0, o0) && from in s0 && from in sz0 && forall p :: p in o0 ==> p in d0
      modifies `freelist, `data, `owner, `pt, `spaces, `sz
      ensures Valid() && Procs() && Kept(d0, data, o0)
      ensures !ok ==> spaces == s0 && owner == o0 && sz == sz0
      ensures ok ==> t in spaces && spaces == s0[t := spaces[t]] && Since(o0, owner, t) && sz == sz0[t := sz0[from]]
                     && CopyOf(s0[from], d0, spaces[t], data, Pages(sz[t]))
    {
      assert Sensible(spaces[from], sz[from]) && Sensible(spaces[t], 0);
      ghost var s1, o1, d1 := spaces, owner, data;
      ok := Uvmcopy(from, t, sz[from]);
      GrownFresh(s1, spaces, o1, owner, t);
      SinceFresh(s1, spaces, o0, o1, owner, d0, d1, data, t, if ok then Pages(sz[from]) else 0);
      if !ok {
        SensibleFresh(s1, spaces, o1, owner, t, sz, sz, 0, 0);
        ghost var o2, d2 := owner, data;
        ProcFreepagetable(t);
        SinceReleased(f0, pt0, s0, o0, o2, owner, d0, d2, data, t);
      } else {
        sz := sz[t := sz[from]];
        SensibleFresh(s1, spaces, o1, owner, t, sz0[t := 0], sz, 0, Pages(sz[t]));
        CopySince(f0, pt0, s0, o0, d0, d1, from, spaces[t], data, Pages(sz[t]));
      }
    }
  }
}
