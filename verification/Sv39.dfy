/** The three-level page tables of xv6/kernel/vm.c, by section 4.4 (Sv39) of the
    RISC-V Privileged Architecture v1.12: a radix tree in physical pages and the
    flat map from virtual page numbers that it stands for. */
module Sv39 {

  const PGSIZE := 4096
  const MAXVA := 0x40_0000_0000          // 2^38, one bit less than Sv39 allows
  const TRAMPOLINE := MAXVA - PGSIZE
  const TRAPFRAME := TRAMPOLINE - PGSIZE
  const USERTOP := TRAPFRAME / PGSIZE    // user page numbers lie below this one

  datatype Perm = Perm(r: bool, w: bool, x: bool, u: bool)

  /** A page-table entry: V, the permission bits and a physical page number. */
  datatype Pte = Pte(v: bool, page: nat, perm: Perm)

  const NOTHING := Perm(false, false, false, false)
  const ZERO := Pte(false, 0, NOTHING)

  /** An entry with none of R, W and X points to a lower table. */
  predicate Leafy(e: Pte) {
    e.v && (e.perm.r || e.perm.w || e.perm.x)
  }

  function Link(p: nat): Pte {
    Pte(true, p, NOTHING)
  }

  function Bit(b: bool): nat {
    if b then 1 else 0
  }

  /** A 64-bit word's view of an entry: the page number above ten bits of flags. */
  function Word(e: Pte): nat {
    Bit(e.v) + 2 * (Bit(e.perm.r) + 2 * (Bit(e.perm.w) + 2 * (Bit(e.perm.x) + 2 * (Bit(e.perm.u) + 2 * (32 * e.page)))))
  }

  function Entry(w: nat): Pte {
    Pte(w % 2 == 1, w / 2 / 2 / 2 / 2 / 2 / 32,
        Perm(w / 2 % 2 == 1, w / 2 / 2 % 2 == 1, w / 2 / 2 / 2 % 2 == 1, w / 2 / 2 / 2 / 2 % 2 == 1))
  }

  lemma Halve(b: bool, q: nat)
    ensures (Bit(b) + 2 * q) / 2 == q && ((Bit(b) + 2 * q) % 2 == 1 <==> b)
  {
  }

  /** Packing into a word loses nothing, so typed entries are as good as words. */
  lemma WordRoundTrip(e: Pte)
    ensures Entry(Word(e)) == e
  {
    var u := Bit(e.perm.u) + 2 * (32 * e.page);
    var x := Bit(e.perm.x) + 2 * u;
    var w := Bit(e.perm.w) + 2 * x;
    var r := Bit(e.perm.r) + 2 * w;
    Halve(e.v, r);
    Halve(e.perm.r, w);
    Halve(e.perm.w, x);
    Halve(e.perm.x, u);
    Halve(e.perm.u, 32 * e.page);
  }

  // ---- tree positions ----

  /** A table's place in the tree: its level, and the part of the page number
      that the tables above it have consumed. */
  datatype Node = Node(level: nat, index: nat)

  function Parent(n: Node): Node {
    Node(n.level + 1, n.index / 512)
  }

  function Slot(n: Node): nat {
    n.index % 512
  }

  function Child(n: Node, k: nat): Node
    requires n.level > 0
  {
    Node(n.level - 1, n.index * 512 + k)
  }

  const ROOT := Node(2, 0)

  /** PX(level, va). */
  function Px(level: nat, va: nat): (k: nat)
    requires level <= 2
    ensures k < 512
  {
    (va / if level == 0 then 0x1000 else if level == 1 then 0x20_0000 else 0x4000_0000) % 512
  }

  /** The table at a level that serves virtual page v. */
  function NodeFor(level: nat, v: nat): Node
    requires level <= 2
  {
    Node(level, v / if level == 0 then 0x200 else if level == 1 then 0x4_0000 else 0x800_0000)
  }

  /** The nine-bit fields of an address lead from the root to its own table. */
  lemma PxDescends(level: nat, va: nat)
    requires level <= 2
    ensures va < MAXVA ==> NodeFor(2, va / PGSIZE) == ROOT
    ensures level > 0 ==> Child(NodeFor(level, va / PGSIZE), Px(level, va)) == NodeFor(level - 1, va / PGSIZE)
    ensures level == 0 ==> NodeFor(0, va / PGSIZE).index * 512 + Px(0, va) == va / PGSIZE
  {
    var v := va / PGSIZE;
    assert va / 0x20_0000 == v / 0x200 && va / 0x4000_0000 == v / 0x4_0000;
    assert v / 0x4_0000 == v / 0x200 / 0x200 && v / 0x800_0000 == v / 0x4_0000 / 0x200;
  }

  /** Distinct pages below MAXVA get distinct slots: equal fields at all three
      levels mean equal page numbers. */
  lemma SlotsDistinct(va: nat, vb: nat)
    requires va < MAXVA && vb < MAXVA
    requires Px(2, va) == Px(2, vb) && Px(1, va) == Px(1, vb) && Px(0, va) == Px(0, vb)
    ensures va / PGSIZE == vb / PGSIZE
  {
    PxDescends(2, va);
    PxDescends(2, vb);
    PxDescends(1, va);
    PxDescends(1, vb);
    PxDescends(0, va);
    PxDescends(0, vb);
  }

  // ---- address spaces ----

  type Tables = map<nat, seq<Pte>>

  /** What a page table stands for: which page holds each of its tables, and the
      flat map from virtual page numbers to entries. */
  datatype Space = Space(tables: map<Node, nat>, leaves: map<nat, Pte>)

  predicate IsTable(pt: Tables, p: nat) {
    p in pt && |pt[p]| == 512
  }

  function At(pt: Tables, p: nat, k: nat): Pte {
    if IsTable(pt, p) && k < 512 then pt[p][k] else ZERO
  }

  /** Table n is in memory, and linked from its parent unless it is the root. */
  ghost predicate TableOk(pt: Tables, sp: Space, n: Node) {
    && n in sp.tables && IsTable(pt, sp.tables[n])
    && (n == ROOT || (n.level < 2 && Parent(n) in sp.tables
                      && At(pt, sp.tables[Parent(n)], Slot(n)) == Link(sp.tables[n])))
  }

  /** A valid entry of table n leads to another table, or is a leaf. */
  ghost predicate SlotOk(sp: Space, n: Node, k: nat) {
    if n.level > 0 then Child(n, k) in sp.tables else n.index * 512 + k in sp.leaves
  }

  ghost predicate LeafOk(pt: Tables, sp: Space, v: nat) {
    && v in sp.leaves && Leafy(sp.leaves[v])
    && NodeFor(0, v) in sp.tables && At(pt, sp.tables[NodeFor(0, v)], v % 512) == sp.leaves[v]
  }

  /** The tables in memory, from root t, are exactly those of sp and spell its map. */
  ghost predicate Shape(pt: Tables, t: nat, sp: Space) {
    && ROOT in sp.tables && sp.tables[ROOT] == t
    && (forall n {:trigger TableOk(pt, sp, n)} :: n in sp.tables ==> TableOk(pt, sp, n))
    && (forall n, k {:trigger SlotOk(sp, n, k)} :: n in sp.tables && At(pt, sp.tables[n], k).v ==> SlotOk(sp, n, k))
    && (forall v {:trigger LeafOk(pt, sp, v)} :: v in sp.leaves ==> LeafOk(pt, sp, v))
  }

  /** No page holds two of the tables. */
  ghost predicate Injective(sp: Space) {
    forall m, n :: m in sp.tables && n in sp.tables && sp.tables[m] == sp.tables[n] ==> m == n
  }

  /** Slot k of the table in page p, overwritten. */
  function Put(pt: Tables, p: nat, k: nat, e: Pte): (r: Tables)
    requires IsTable(pt, p) && k < 512
  {
    pt[p := pt[p][k := e]]
  }

  lemma PutAt(pt: Tables, p: nat, k: nat, e: Pte)
    requires IsTable(pt, p) && k < 512
    ensures forall q, j :: At(Put(pt, p, k, e), q, j) == if q == p && j == k then e else At(pt, q, j)
    ensures forall q :: IsTable(Put(pt, p, k, e), q) <==> IsTable(pt, q)
  {
  }

  /** Only the space's own tables matter. */
  lemma ShapeFrame(pt: Tables, pt': Tables, t: nat, sp: Space)
    requires Shape(pt, t, sp)
    requires forall n :: n in sp.tables && sp.tables[n] in pt ==>
                           sp.tables[n] in pt' && pt'[sp.tables[n]] == pt[sp.tables[n]]
    ensures Shape(pt', t, sp)
  {
    forall n, k | n in sp.tables
      ensures At(pt', sp.tables[n], k) == At(pt, sp.tables[n], k)
    {
      assert TableOk(pt, sp, n);
    }
    forall n | n in sp.tables
      ensures TableOk(pt', sp, n)
    {
      assert TableOk(pt, sp, n);
    }
    forall v | v in sp.leaves
      ensures LeafOk(pt', sp, v)
    {
      assert LeafOk(pt, sp, v);
    }
  }

  /** Reading after a zeroed page p was linked from slot k of the table in q. */
  lemma LinkedAt(pt: Tables, q: nat, k: nat, p: nat)
    requires IsTable(pt, q) && k < 512 && p != q
    ensures var pt' := Put(pt[p := seq(512, _ => ZERO)], q, k, Link(p));
            && (forall r, j ::
                  At(pt', r, j) == if r == q && j == k then Link(p) else if r == p then ZERO else At(pt, r, j))
            && (forall r :: IsTable(pt', r) <==> r == p || IsTable(pt, r))
  {
    PutAt(pt[p := seq(512, _ => ZERO)], q, k, Link(p));
  }

  /** A zeroed page, linked where no table was, extends the tree by an empty table. */
  lemma LinkShape(pt: Tables, t: nat, sp: Space, n: Node, p: nat)
    requires Shape(pt, t, sp) && Injective(sp) && n !in sp.tables && n.level < 2 && Parent(n) in sp.tables
    requires forall m :: m in sp.tables ==> sp.tables[m] != p
    ensures IsTable(pt, sp.tables[Parent(n)])
    ensures Shape(Put(pt[p := seq(512, _ => ZERO)], sp.tables[Parent(n)], Slot(n), Link(p)), t,
                  sp.(tables := sp.tables[n := p]))
  {
    var q := sp.tables[Parent(n)];
    assert TableOk(pt, sp, Parent(n));
    LinkedAt(pt, q, Slot(n), p);
    var pt' := Put(pt[p := seq(512, _ => ZERO)], q, Slot(n), Link(p));
    var sp' := sp.(tables := sp.tables[n := p]);
    forall m | m in sp'.tables
      ensures TableOk(pt', sp', m)
    {
      if m != n {
        assert TableOk(pt, sp, m);
        SameSlot(m, n);
      }
    }
    forall m, k | m in sp'.tables && At(pt', sp'.tables[m], k).v
      ensures SlotOk(sp', m, k)
    {
      SlotOfChild(n);
      if m != n && !(m == Parent(n) && k == Slot(n)) {
        assert SlotOk(sp, m, k);
      }
    }
    forall v | v in sp'.leaves
      ensures LeafOk(pt', sp', v)
    {
      assert LeafOk(pt, sp, v);
    }
  }

  lemma SlotIndex(i: nat, k: nat, v: nat)
    ensures k < 512 && i * 512 + k == v ==> i == v / 512 && k == v % 512
  {
  }

  lemma SameSlot(m: Node, n: Node)
    ensures Parent(m) == Parent(n) && Slot(m) == Slot(n) ==> m == n
  {
  }

  lemma SlotOfChild(n: Node)
    ensures Child(Parent(n), Slot(n)) == n
  {
  }

  lemma LeafSlots(pt: Tables, t: nat, sp: Space, v: nat, e: Pte, m: Node, k: nat)
    requires Shape(pt, t, sp) && Injective(sp) && NodeFor(0, v) in sp.tables && IsTable(pt, sp.tables[NodeFor(0, v)])
    requires m in sp.tables && At(Put(pt, sp.tables[NodeFor(0, v)], v % 512, e), sp.tables[m], k).v
    ensures SlotOk(sp.(leaves := if e.v then sp.leaves[v := e] else sp.leaves - {v}), m, k)
  {
    PutAt(pt, sp.tables[NodeFor(0, v)], v % 512, e);
    if !(m == NodeFor(0, v) && k == v % 512) {
      assert SlotOk(sp, m, k);
      SlotIndex(m.index, k, v);
    }
  }

  /** Writing the slot of page v inserts into the flat map, or, with an invalid
      entry, removes from it, and changes nothing else. */
  lemma LeafShape(pt: Tables, t: nat, sp: Space, v: nat, e: Pte)
    requires Shape(pt, t, sp) && Injective(sp) && NodeFor(0, v) in sp.tables && (e.v ==> Leafy(e))
    ensures IsTable(pt, sp.tables[NodeFor(0, v)])
    ensures Shape(Put(pt, sp.tables[NodeFor(0, v)], v % 512, e), t,
                  sp.(leaves := if e.v then sp.leaves[v := e] else sp.leaves - {v}))
  {
    var q := sp.tables[NodeFor(0, v)];
    assert TableOk(pt, sp, NodeFor(0, v));
    var pt' := Put(pt, q, v % 512, e);
    var sp' := sp.(leaves := if e.v then sp.leaves[v := e] else sp.leaves - {v});
    PutAt(pt, q, v % 512, e);
    forall m | m in sp'.tables
      ensures TableOk(pt', sp', m)
    {
      assert TableOk(pt, sp, m);
    }
    forall m, k | m in sp'.tables && At(pt', sp'.tables[m], k).v
      ensures SlotOk(sp', m, k)
    {
      LeafSlots(pt, t, sp, v, e, m, k);
    }
    forall u | u in sp'.leaves
      ensures LeafOk(pt', sp', u)
    {
      if u != v {
        assert LeafOk(pt, sp, u);
      }
    }
  }

  /** The slot of page v holds the flat map's entry, or an invalid one. */
  lemma LookUp(pt: Tables, t: nat, sp: Space, v: nat)
    requires Shape(pt, t, sp)
    ensures NodeFor(0, v) !in sp.tables ==> v !in sp.leaves
    ensures NodeFor(0, v) in sp.tables ==>
              (At(pt, sp.tables[NodeFor(0, v)], v % 512).v <==> v in sp.leaves)
              && (v in sp.leaves ==> At(pt, sp.tables[NodeFor(0, v)], v % 512) == sp.leaves[v])
  {
    var n := NodeFor(0, v);
    if n in sp.tables && At(pt, sp.tables[n], v % 512).v {
      assert SlotOk(sp, n, v % 512);
    }
    if v in sp.leaves {
      assert LeafOk(pt, sp, v);
    }
  }

  /** Slot k of an upper table is valid exactly when the table below it exists. */
  lemma ChildEntry(pt: Tables, t: nat, sp: Space, n: Node, k: nat)
    requires Shape(pt, t, sp) && n in sp.tables && n.level > 0 && k < 512
    ensures IsTable(pt, sp.tables[n]) && n.level <= 2 && Parent(Child(n, k)) == n && Slot(Child(n, k)) == k
    ensures At(pt, sp.tables[n], k).v <==> Child(n, k) in sp.tables
    ensures Child(n, k) in sp.tables ==> At(pt, sp.tables[n], k) == Link(sp.tables[Child(n, k)])
  {
    assert TableOk(pt, sp, n);
    if At(pt, sp.tables[n], k).v {
      assert SlotOk(sp, n, k);
    }
    if Child(n, k) in sp.tables {
      assert TableOk(pt, sp, Child(n, k));
    }
  }

  /** No table on the way down, no table at the bottom. */
  lemma NoTableBelow(pt: Tables, t: nat, sp: Space, level: nat, v: nat)
    requires Shape(pt, t, sp) && level < 2
    ensures NodeFor(level, v) !in sp.tables ==> NodeFor(0, v) !in sp.tables
  {
    if NodeFor(0, v) in sp.tables {
      assert TableOk(pt, sp, NodeFor(0, v));
      assert v / 0x4_0000 == v / 0x200 / 0x200;
    }
  }

  // ---- subtrees ----

  /** Slots between a table at a level and one `levels` above it. */
  function Span(levels: nat): nat {
    if levels == 0 then 1 else if levels == 1 then 0x200 else 0x4_0000
  }

  /** Table m is n, or lies below it. */
  predicate Under(m: Node, n: Node) {
    m.level <= n.level <= 2 && m.index / Span(n.level - m.level) == n.index
  }

  /** The slot of table n that leads to the table m below it. */
  function Branch(m: Node, n: Node): nat
    requires m.level < n.level
  {
    m.index / Span(n.level - 1 - m.level) % 512
  }

  lemma UnderBranch(m: Node, n: Node, k: nat)
    requires 0 < n.level <= 2 && k < 512
    ensures Under(m, Child(n, k)) <==> Under(m, n) && m.level < n.level && Branch(m, n) == k
    ensures Under(m, n) && m.level == n.level ==> m == n
    ensures !Under(n, Child(n, k))
  {
    if m.level < n.level {
      var x := m.index / Span(n.level - 1 - m.level);
      assert m.index / Span(n.level - m.level) == x / 512;
      assert x / 512 == n.index && x % 512 == k <==> x == n.index * 512 + k;
    }
  }

  lemma UnderRoot(pt: Tables, t: nat, sp: Space, m: Node)
    requires Shape(pt, t, sp) && m in sp.tables
    ensures Under(m, ROOT)
  {
    assert TableOk(pt, sp, m);
    if m.level < 2 {
      assert TableOk(pt, sp, Parent(m));
      if m.level < 1 {
        assert TableOk(pt, sp, Parent(Parent(m)));
      }
    }
  }

  /** Table m holds links to the tables below it, leaves of sp, and nothing else. */
  ghost predicate Tidy(pt: Tables, sp: Space, m: Node) {
    && m in sp.tables && IsTable(pt, sp.tables[m])
    && forall k {:trigger At(pt, sp.tables[m], k)} :: k < 512 ==>
         if !SlotOk(sp, m, k) then !At(pt, sp.tables[m], k).v
         else if m.level > 0 then At(pt, sp.tables[m], k) == Link(sp.tables[Child(m, k)])
         else Leafy(At(pt, sp.tables[m], k))
  }

  lemma TidyTable(pt: Tables, t: nat, sp: Space, m: Node)
    requires Shape(pt, t, sp) && m in sp.tables
    ensures Tidy(pt, sp, m)
  {
    assert TableOk(pt, sp, m);
    forall k: nat | k < 512
      ensures if !SlotOk(sp, m, k) then !At(pt, sp.tables[m], k).v
              else if m.level > 0 then At(pt, sp.tables[m], k) == Link(sp.tables[Child(m, k)])
              else Leafy(At(pt, sp.tables[m], k))
    {
      if m.level > 0 {
        ChildEntry(pt, t, sp, m, k);
      } else if SlotOk(sp, m, k) {
        assert LeafOk(pt, sp, m.index * 512 + k);
      }
    }
  }
}
