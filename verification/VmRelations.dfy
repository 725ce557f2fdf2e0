/** What the operations of vm.c do to address spaces, owners and contents, as
    relations between states that compose. */
module VmRelations {
  import opened Bytes
  import opened Distinctness
  import opened Sv39
  import opened PageOwners

  type Data = map<nat, seq<bv8>>

  function Fill(b: bv8): (s: seq<bv8>)
    ensures |s| == PGSIZE && forall k :: 0 <= k < PGSIZE ==> s[k] == b
  {
    seq(PGSIZE, _ => b)
  }

  /** Pages that were not free keep their bytes. */
  ghost predicate Kept(data: Data, data': Data, owner: Owners) {
    forall p {:trigger data'[p]} {:trigger p in data'} :: p in owner && owner[p] != Free && p in data ==>
        p in data' && data'[p] == data[p]
  }

  /** Space t gained tables, taken from free pages, and nothing else changed. */
  ghost predicate Grown(spaces: Spaces, spaces': Spaces, owner: Owners, owner': Owners, t: nat) {
    && t in spaces && t in spaces' && spaces' == spaces[t := spaces'[t]] && spaces'[t].leaves == spaces[t].leaves
    && (forall n {:trigger n in spaces[t].tables} :: n in spaces[t].tables ==>
          n in spaces'[t].tables && spaces'[t].tables[n] == spaces[t].tables[n])
    && owner'.Keys == owner.Keys
    && (forall p {:trigger owner'[p]} :: p in owner && owner'[p] != owner[p] ==>
          owner[p] == Free && owner'[p].TableOf? && owner'[p].root == t)
  }

  lemma GrownTransitive(s0: Spaces, s1: Spaces, s2: Spaces, o0: Owners, o1: Owners, o2: Owners, d0: Data, d1: Data,
                        d2: Data, t: nat)
    requires Grown(s0, s1, o0, o1, t) && Grown(s1, s2, o1, o2, t) && Kept(d0, d1, o0) && Kept(d1, d2, o1)
    ensures Grown(s0, s2, o0, o2, t) && Kept(d0, d2, o0)
  {
    forall p | p in o0
      ensures o2[p] != o0[p] ==> o0[p] == Free && o2[p].TableOf? && o2[p].root == t
      ensures o0[p] != Free ==> o1[p] != Free
    {
      var x := o1[p];
    }
    KeptTransitive(d0, d1, d2, o0, o1);
  }

  lemma KeptTransitive(d0: Data, d1: Data, d2: Data, o0: Owners, o1: Owners)
    requires Kept(d0, d1, o0) && Kept(d1, d2, o1)
    requires forall p {:trigger o1[p]} {:trigger p in o1} :: p in o0 && o0[p] != Free ==> p in o1 && o1[p] != Free
    ensures Kept(d0, d2, o0)
  {
    forall p | p in o0 && o0[p] != Free && p in d0
      ensures p in d2 && d2[p] == d0[p]
    {
      assert p in d1 && p in o1;
    }
  }

  /** Space t now maps the n pages from v on to those from p on, with the tables
      that takes, and nothing else changed: user pages passed from held to mapped. */
  ghost predicate MappedRange(spaces: Spaces, spaces': Spaces, owner: Owners, owner': Owners,
                              t: nat, v: nat, n: nat, p: nat, perm: Perm)
  {
    && t in spaces && t in spaces' && spaces' == spaces[t := spaces'[t]]
    && (forall m {:trigger m in spaces[t].tables} :: m in spaces[t].tables ==>
          m in spaces'[t].tables && spaces'[t].tables[m] == spaces[t].tables[m])
    && InsertedRange(spaces[t].leaves, spaces'[t].leaves, v, n, p, perm)
    && owner'.Keys == owner.Keys
    && (forall q {:trigger owner'[q]} :: q in owner && owner'[q] != owner[q] ==>
          || (owner[q] == Free && owner'[q].TableOf? && owner'[q].root == t)
          || (owner[q] == Held && p <= q < p + n && v + (q - p) < USERTOP && owner'[q] == LeafOf(t, v + (q - p))))
  }

  /** The flat map with n consecutive entries inserted, none of them there before. */
  ghost predicate InsertedRange(m: map<nat, Pte>, m': map<nat, Pte>, v: nat, n: nat, p: nat, perm: Perm) {
    && (forall u {:trigger u in m'} :: u in m' <==> u in m || v <= u < v + n)
    && (forall u {:trigger m'[u]} :: u in m' ==> m'[u] == if v <= u < v + n then Pte(true, p + (u - v), perm) else m[u])
    && (forall u {:trigger u in m} :: v <= u < v + n ==> u !in m)
  }

  lemma InsertedThen(m0: map<nat, Pte>, m1: map<nat, Pte>, m2: map<nat, Pte>, v: nat, n: nat, k: nat, p: nat,
                     perm: Perm)
    requires InsertedRange(m0, m1, v, n, p, perm) && InsertedRange(m1, m2, v + n, k, p + n, perm)
    ensures InsertedRange(m0, m2, v, n + k, p, perm)
  {
    forall u: nat | v <= u < v + n + k
      ensures u !in m0
    {
      assert u in m0 ==> u in m1;
    }
  }

  /** Two ranges mapped one after the other. */
  lemma MappedThen(s0: Spaces, s1: Spaces, s2: Spaces, o0: Owners, o1: Owners, o2: Owners,
                   t: nat, v: nat, n: nat, k: nat, p: nat, perm: Perm)
    requires MappedRange(s0, s1, o0, o1, t, v, n, p, perm) && MappedRange(s1, s2, o1, o2, t, v + n, k, p + n, perm)
    ensures MappedRange(s0, s2, o0, o2, t, v, n + k, p, perm)
  {
    InsertedThen(s0[t].leaves, s1[t].leaves, s2[t].leaves, v, n, k, p, perm);
    forall q | q in o0 && o2[q] != o0[q]
      ensures || (o0[q] == Free && o2[q].TableOf? && o2[q].root == t)
              || (o0[q] == Held && p <= q < p + n + k && v + (q - p) < USERTOP && o2[q] == LeafOf(t, v + (q - p)))
    {
      var x := o1[q];
    }
  }

  /** The pages to be mapped below USERTOP are in the kernel's hands. */
  ghost predicate Ready(owner: Owners, v: nat, n: nat, p: nat) {
    forall q {:trigger owner[q]} {:trigger q in owner} :: p <= q < p + n && v + (q - p) < USERTOP ==>
        q in owner && owner[q] == Held
  }

  lemma StillReady(s0: Spaces, s1: Spaces, o0: Owners, o1: Owners, t: nat, v: nat, n: nat, k: nat, p: nat, perm: Perm)
    requires MappedRange(s0, s1, o0, o1, t, v, k, p, perm) && Ready(o0, v, n, p) && k < n
    ensures v + k < USERTOP ==> p + k in o1 && o1[p + k] == Held
  {
    if v + k < USERTOP {
      assert p + k in o0;
    }
  }

  /** mappages' progress by one more round. */
  lemma MappedNext(d0: Data, d1: Data, d2: Data, s0: Spaces, s1: Spaces, s2: Spaces, o0: Owners, o1: Owners, o2: Owners,
                   t: nat, v: nat, n: nat, k: nat, p: nat, perm: Perm)
    requires Kept(d0, d1, o0) && Kept(d1, d2, o1)
    requires MappedRange(s0, s1, o0, o1, t, v, n, p, perm) && MappedRange(s1, s2, o1, o2, t, v + n, k, p + n, perm)
    ensures Kept(d0, d2, o0) && MappedRange(s0, s2, o0, o2, t, v, n + k, p, perm)
    ensures forall u :: u in s1[t].leaves ==> u in s0[t].leaves || v <= u < v + n
  {
    MappedThen(s0, s1, s2, o0, o1, o2, t, v, n, k, p, perm);
    forall q | q in o0 && o0[q] != Free
      ensures q in o1 && o1[q] != Free
    {
      var x := o1[q];
    }
    KeptTransitive(d0, d1, d2, o0, o1);
  }

  /** Tables added, then one entry set. */
  lemma GrownThenSet(s0: Spaces, s1: Spaces, o0: Owners, o1: Owners, t: nat, v: nat, p: nat, perm: Perm)
    requires Grown(s0, s1, o0, o1, t) && v !in s0[t].leaves
    requires v < USERTOP ==> p in o0 && o0[p] == Held && o1[p] == Held
    ensures MappedRange(s0, SetLeaf(s1, t, v, Pte(true, p, perm)), o0, Given(o1, t, v, p), t, v, 1, p, perm)
  {
    var o2 := Given(o1, t, v, p);
    forall q | q in o0 && o2[q] != o0[q]
      ensures || (o0[q] == Free && o2[q].TableOf? && o2[q].root == t)
              || (o0[q] == Held && p <= q < p + 1 && v + (q - p) < USERTOP && o2[q] == LeafOf(t, v + (q - p)))
    {
      assert q != p || v >= USERTOP ==> o2[q] == o1[q];
    }
  }

  /** Space t no longer maps the n pages from v on; those user pages are now o's. */
  ghost predicate UnmappedRange(spaces: Spaces, spaces': Spaces, owner: Owners, owner': Owners,
                                t: nat, v: nat, n: nat, o: Owner)
  {
    && t in spaces && t in spaces' && spaces' == spaces[t := spaces'[t]] && spaces'[t].tables == spaces[t].tables
    && RemovedRange(spaces[t].leaves, spaces'[t].leaves, v, n)
    && owner'.Keys == owner.Keys
    && (forall q {:trigger owner'[q]} :: q in owner ==> owner'[q] == if Within(owner[q], t, v, n) then o else owner[q])
  }

  ghost predicate RemovedRange(m: map<nat, Pte>, m': map<nat, Pte>, v: nat, n: nat) {
    && (forall u {:trigger u in m'} :: u in m' <==> u in m && !(v <= u < v + n))
    && (forall u {:trigger m'[u]} :: u in m' ==> m'[u] == m[u])
  }

  /** The page is mapped by space t at one of the n pages from v on. */
  predicate Within(o: Owner, t: nat, v: nat, n: nat) {
    o.LeafOf? && o.root == t && v <= o.vpn < v + n
  }

  /** Two ranges unmapped one after the other. */
  lemma UnmappedThen(s0: Spaces, s1: Spaces, s2: Spaces, o0: Owners, o1: Owners, o2: Owners,
                     d0: Data, d1: Data, d2: Data, t: nat, v: nat, n: nat, k: nat, o: Owner)
    requires (o.Free? || o.Held?) && Kept(d0, d1, o1) && Kept(d1, d2, o2)
    requires UnmappedRange(s0, s1, o0, o1, t, v, n, o) && UnmappedRange(s1, s2, o1, o2, t, v + n, k, o)
    ensures UnmappedRange(s0, s2, o0, o2, t, v, n + k, o) && Kept(d0, d2, o2)
  {
    forall q | q in o0
      ensures o2[q] == if Within(o0[q], t, v, n + k) then o else o0[q]
      ensures o2[q] != Free ==> o1[q] != Free
    {
      assert o1[q] == if Within(o0[q], t, v, n) then o else o0[q];
    }
    forall q | q in o2 && o2[q] != Free && q in d0
      ensures q in d2 && d2[q] == d0[q]
    {
      assert q in o1 && q in d1;
    }
  }

  /** sp's tables are exactly the pages that count as tables of space t. */
  ghost predicate TablesOf(owner: Owners, t: nat, sp: Space) {
    && (forall m {:trigger sp.tables[m]} :: m in sp.tables ==>
          sp.tables[m] in owner && owner[sp.tables[m]] == TableOf(t, m))
    && (forall q {:trigger owner[q]} :: q in owner && owner[q].TableOf? && owner[q].root == t ==>
          owner[q].node in sp.tables && sp.tables[owner[q].node] == q)
  }

  ghost predicate OnlyChanged<T>(m: map<nat, T>, m': map<nat, T>, f: seq<nat>) {
    forall q {:trigger m'[q]} {:trigger q in m'} :: q in m && q !in f ==> q in m' && m'[q] == m[q]
  }

  lemma ChangedBoth<T>(m: map<nat, T>, m1: map<nat, T>, m2: map<nat, T>, f: seq<nat>, g: seq<nat>, p: nat)
    requires OnlyChanged(m1, m2, g)
    ensures OnlyChanged(m, m1, f) ==> OnlyChanged(m, m2, g + f)
    ensures OnlyChanged(m, m1, f + [p]) ==> OnlyChanged(m, m2, (g + f) + [p])
  {
  }

  lemma Regrouped(g: seq<nat>, f: seq<nat>, rest: seq<nat>)
    ensures g + (f + rest) == (g + f) + rest
  {
  }

  /** The table is n, or below it, in the tree of space t. */
  predicate InSubtree(o: Owner, t: nat, n: Node) {
    o.TableOf? && o.root == t && Under(o.node, n)
  }

  /** The table is below n, through one of its first i slots. */
  predicate InBranches(o: Owner, t: nat, n: Node, i: nat) {
    InSubtree(o, t, n) && o.node.level < n.level && Branch(o.node, n) < i
  }

  ghost predicate Subtree(f: seq<nat>, owner: Owners, t: nat, n: Node) {
    Distinct(f) && forall q {:trigger q in f} {:trigger owner[q]} :: q in f <==> q in owner && InSubtree(owner[q], t, n)
  }

  ghost predicate Branches(f: seq<nat>, owner: Owners, t: nat, n: Node, i: nat) {
    Distinct(f) && forall q {:trigger q in f} {:trigger owner[q]} :: q in f <==>
        q in owner && InBranches(owner[q], t, n, i)
  }

  lemma NothingMapped(spaces: Spaces, owner: Owners, t: nat, v: nat)
    requires t in spaces && v !in spaces[t].leaves
    requires forall p {:trigger Backed(spaces, p, owner[p])} :: p in owner ==> Backed(spaces, p, owner[p])
    ensures forall o :: UnmappedRange(spaces, spaces, owner, owner, t, v, 1, o)
  {
    forall q | q in owner
      ensures !Within(owner[q], t, v, 1)
    {
      assert Backed(spaces, q, owner[q]);
    }
  }

  lemma OneUnmapped(free: seq<nat>, pt: Tables, spaces: Spaces, owner: Owners, t: nat, v: nat, o: Owner)
    requires Inv(free, pt, spaces, owner) && t in spaces && v in spaces[t].leaves
    ensures UnmappedRange(spaces, SetLeaf(spaces, t, v, ZERO), owner, Taken(spaces, owner, t, v, o), t, v, 1, o)
  {
    assert SpaceOk(pt, owner, t, spaces[t]);
    forall q | q in owner
      ensures Within(owner[q], t, v, 1) <==> v < USERTOP && q == spaces[t].leaves[v].page
    {
      assert Backed(spaces, q, owner[q]);
    }
  }

  /** Two tables that agree from slot i on, also after that slot is cleared. */
  lemma Onward<T>(a: seq<T>, b: seq<T>, i: nat, x: T)
    requires i < |a| == |b| && a[i..] == b[i..]
    ensures a[i] == b[i] && a[i + 1..] == b[i + 1..] && a[i := x][i + 1..] == b[i + 1..]
  {
    assert a[i] == a[i..][0] && b[i] == b[i..][0];
    assert a[i + 1..] == a[i..][1..] && b[i + 1..] == b[i..][1..];
  }

  /** What freewalk has freed so far lies outside the subtree it enters next. */
  lemma NextBranch(pt0: Tables, pt: Tables, sp: Space, t: nat, owner: Owners, n: Node, i: nat, f: seq<nat>)
    requires n in sp.tables && n.level <= 2 && i < 512 && TablesOf(owner, t, sp) && Branches(f, owner, t, n, i)
    requires Doomed(pt0, sp, n) && OnlyChanged(pt0, pt, f + [sp.tables[n]])
    requires At(pt0, sp.tables[n], i).v && !Leafy(At(pt0, sp.tables[n], i))
    ensures n.level > 0 && Child(n, i) in sp.tables && At(pt0, sp.tables[n], i) == Link(sp.tables[Child(n, i)])
    ensures Doomed(pt, sp, Child(n, i))
  {
    assert Under(n, n) && Tidy(pt0, sp, n);
    forall m | m in sp.tables && Under(m, Child(n, i))
      ensures Tidy(pt, sp, m)
    {
      UnderBranch(m, n, i);
      assert Tidy(pt0, sp, m);
      var q := sp.tables[m];
      assert owner[q] == TableOf(t, m) && owner[sp.tables[n]] == TableOf(t, n);
      assert q !in f + [sp.tables[n]];
      forall k ensures At(pt, q, k) == At(pt0, q, k) {
      }
    }
  }

  /** The subtree freed through slot i, together with those before it. */
  lemma JoinBranch(owner: Owners, sp: Space, t: nat, n: Node, i: nat, f: seq<nat>, g: seq<nat>) returns (h: seq<nat>)
    requires 0 < n.level <= 2 && i < 512 && Branches(f, owner, t, n, i) && Subtree(g, owner, t, Child(n, i))
    ensures h == g + f && Branches(h, owner, t, n, i + 1)
  {
    h := g + f;
    forall q | q in owner && owner[q].TableOf?
      ensures InBranches(owner[q], t, n, i + 1) <==>
                InBranches(owner[q], t, n, i) || InSubtree(owner[q], t, Child(n, i))
      ensures !(InBranches(owner[q], t, n, i) && InSubtree(owner[q], t, Child(n, i)))
    {
      UnderBranch(owner[q].node, n, i);
    }
    DistinctJoin(g, f);
  }

  /** Nothing lies below an empty slot. */
  lemma EmptyBranch(pt: Tables, owner: Owners, sp: Space, t: nat, n: Node, i: nat, f: seq<nat>)
    requires Tidy(pt, sp, n) && TablesOf(owner, t, sp) && Rooted(sp) && !At(pt, sp.tables[n], i).v
    requires n.level <= 2 && i < 512 && Branches(f, owner, t, n, i)
    ensures Branches(f, owner, t, n, i + 1)
  {
    if n.level > 0 {
      assert Child(n, i) !in sp.tables;
      forall q | q in owner && owner[q].TableOf? && owner[q].root == t
        ensures InBranches(owner[q], t, n, i + 1) <==> InBranches(owner[q], t, n, i)
      {
        UnderBranch(owner[q].node, n, i);
        if Under(owner[q].node, Child(n, i)) {
          Climb(sp, owner[q].node, Child(n, i));
        }
      }
    }
  }

  /** All the branches of table n, and n. */
  lemma WholeSubtree(owner: Owners, sp: Space, t: nat, n: Node, f: seq<nat>)
    requires n in sp.tables && n.level <= 2 && TablesOf(owner, t, sp) && Branches(f, owner, t, n, 512)
    ensures Subtree([sp.tables[n]] + f, owner, t, n)
  {
    var p := sp.tables[n];
    assert owner[p] == TableOf(t, n);
    forall q | q in owner && q != p
      ensures InSubtree(owner[q], t, n) <==> InBranches(owner[q], t, n, 512)
    {
    }
    DistinctJoin([p], f);
  }

  /** The tables at and below n hold what sp says. */
  ghost predicate Doomed(pt: Tables, sp: Space, n: Node) {
    forall m {:trigger Tidy(pt, sp, m)} :: m in sp.tables && Under(m, n) ==> Tidy(pt, sp, m)
  }

  /** Above every table there are tables up to the root. */
  ghost predicate Rooted(sp: Space) {
    && (forall m {:trigger sp.tables[m]} :: m in sp.tables ==> m == ROOT || (m.level < 2 && Parent(m) in sp.tables))
    && (forall v {:trigger v in sp.leaves} :: v in sp.leaves ==> NodeFor(0, v) in sp.tables)
  }

  /** The slot of table n that leads to page v. */
  function Through(n: Node, v: nat): nat {
    if n.level == 0 then v % 512 else Branch(NodeFor(0, v), n)
  }

  /** No page is mapped through the first i slots of table n. */
  ghost predicate Leafless(sp: Space, n: Node, i: nat) {
    forall v {:trigger v in sp.leaves} :: v in sp.leaves && Under(NodeFor(0, v), n) ==> Through(n, v) >= i
  }

  /** Nor through one slot more, if that is empty or leads to a table without leaves. */
  lemma LeaflessNext(pt: Tables, sp: Space, n: Node, i: nat)
    requires n.level <= 2 && i < 512 && Tidy(pt, sp, n) && Rooted(sp) && Leafless(sp, n, i)
    ensures var e := At(pt, sp.tables[n], i);
            Leafless(sp, n, i + 1) <==> !e.v || (!Leafy(e) && n.level > 0 && Leafless(sp, Child(n, i), 512))
  {
    var e := At(pt, sp.tables[n], i);
    if n.level == 0 {
      var v := n.index * 512 + i;
      assert e.v <==> SlotOk(sp, n, i);
      assert Under(NodeFor(0, v), n) && Through(n, v) == i;
    } else {
      var c := Child(n, i);
      forall v | v in sp.leaves
        ensures Under(NodeFor(0, v), c) ==> c in sp.tables && Through(c, v) < 512
        ensures Under(NodeFor(0, v), c) <==> Under(NodeFor(0, v), n) && Through(n, v) == i
      {
        UnderBranch(NodeFor(0, v), n, i);
        if Under(NodeFor(0, v), c) {
          Climb(sp, NodeFor(0, v), c);
        }
      }
    }
  }

  lemma Climb(sp: Space, m: Node, c: Node)
    requires Rooted(sp) && m in sp.tables && Under(m, c) && c.level < 2
    ensures c in sp.tables
  {
    var q := sp.tables[m];
  }

  /** What freewalk needs to know of a space. */
  lemma ReadyToDrop(free: seq<nat>, pt: Tables, spaces: Spaces, owner: Owners, t: nat)
    requires Inv(free, pt, spaces, owner) && t in spaces
    ensures ROOT in spaces[t].tables && spaces[t].tables[ROOT] == t
    ensures TablesOf(owner, t, spaces[t]) && Rooted(spaces[t]) && Doomed(pt, spaces[t], ROOT)
    ensures Leafless(spaces[t], ROOT, 512) <==> spaces[t].leaves == map[]
  {
    var sp := spaces[t];
    assert SpaceOk(pt, owner, t, sp);
    forall m | m in sp.tables
      ensures Tidy(pt, sp, m) && (m == ROOT || (m.level < 2 && Parent(m) in sp.tables))
    {
      TidyTable(pt, t, sp, m);
      assert TableOk(pt, sp, m);
    }
    forall v | v in sp.leaves
      ensures NodeFor(0, v) in sp.tables && Under(NodeFor(0, v), ROOT) && Through(ROOT, v) < 512
    {
      assert LeafOk(pt, sp, v);
      UnderRoot(pt, t, sp, NodeFor(0, v));
    }
    forall q | q in owner && owner[q].TableOf? && owner[q].root == t
      ensures owner[q].node in sp.tables && sp.tables[owner[q].node] == q
    {
      assert Backed(spaces, q, owner[q]);
    }
  }

  /** Every table of space t, freed: the free list is in order again. */
  lemma DropPool(free: seq<nat>, pt: Tables, spaces: Spaces, owner: Owners, t: nat, f: seq<nat>)
    requires Inv(free, pt, spaces, owner) && t in spaces && Subtree(f, owner, t, ROOT)
    ensures Pool(f + free, Dropped(owner, t))
  {
    var owner' := Dropped(owner, t);
    assert SpaceOk(pt, owner, t, spaces[t]);
    forall q | q in owner && owner[q].TableOf? && owner[q].root == t
      ensures q in f
    {
      assert Backed(spaces, q, owner[q]);
      UnderRoot(pt, t, spaces[t], owner[q].node);
    }
    forall q
      ensures q in f + free <==> q in owner' && owner'[q] == Free
      ensures q in f ==> q !in free
    {
      if q in owner {
        assert q in f || q !in f;
      }
    }
    DistinctJoin(f, free);
  }

  /** Every page that was space t's is free, and no other changed hands. */
  ghost predicate Released(owner: Owners, owner': Owners, t: nat) {
    owner'.Keys == owner.Keys
    && forall q {:trigger owner'[q]} :: q in owner ==> owner'[q] == if Belongs(owner, q, t) then Free else owner[q]
  }

  /** Pages up to a size in bytes: PGROUNDUP(sz) / PGSIZE. */
  function Pages(sz: nat): (n: nat)
    ensures (n - 1) * PGSIZE < sz <= n * PGSIZE
  {
    (sz + PGSIZE - 1) / PGSIZE
  }

  /** No page is mapped from the n-th on. */
  ghost predicate Ends(sp: Space, n: nat) {
    forall v {:trigger v in sp.leaves} :: v in sp.leaves ==> v < n
  }

  lemma UnmapThenDrop(pt: Tables, spaces: Spaces, spaces': Spaces, owner: Owners, owner': Owners, t: nat, n: nat)
    requires UnmappedRange(spaces, spaces', owner, owner', t, 0, n, Free)
    requires forall p {:trigger Backed(spaces, p, owner[p])} :: p in owner ==> Backed(spaces, p, owner[p])
    ensures spaces'[t].leaves == map[] <==> Ends(spaces[t], n)
    ensures spaces' - {t} == spaces - {t}
    ensures Ends(spaces[t], n) ==> Released(owner, Dropped(owner', t), t)
  {
    assert forall v :: v in spaces'[t].leaves <==> v in spaces[t].leaves && v >= n;
    forall q | q in owner && Ends(spaces[t], n)
      ensures Dropped(owner', t)[q] == if Belongs(owner, q, t) then Free else owner[q]
    {
      assert Backed(spaces, q, owner[q]);
    }
  }

  /** Space t gained tables and user pages among lo..hi, all taken from free pages,
      and nothing else changed. */
  ghost predicate Fresh(spaces: Spaces, spaces': Spaces, owner: Owners, owner': Owners, t: nat, lo: nat, hi: nat) {
    && t in spaces && t in spaces' && spaces' == spaces[t := spaces'[t]]
    && (forall n {:trigger n in spaces[t].tables} :: n in spaces[t].tables ==>
          n in spaces'[t].tables && spaces'[t].tables[n] == spaces[t].tables[n])
    && Extended(spaces[t].leaves, spaces'[t].leaves, lo, hi)
    && owner'.Keys == owner.Keys
    && (forall p {:trigger owner'[p]} :: p in owner && owner'[p] != owner[p] ==>
          owner[p] == Free && NewUse(owner'[p], t, lo, hi))
  }

  ghost predicate Extended(m: map<nat, Pte>, m': map<nat, Pte>, lo: nat, hi: nat) {
    && (forall u {:trigger u in m'} {:trigger m'[u]} :: u in m ==> u in m' && m'[u] == m[u])
    && (forall u {:trigger u in m'} :: u in m' && u !in m ==> lo <= u < hi)
  }

  predicate NewUse(o: Owner, t: nat, lo: nat, hi: nat) {
    (o.TableOf? && o.root == t) || Within(o, t, lo, if lo <= hi then hi - lo else 0)
  }

  lemma GrownFresh(spaces: Spaces, spaces': Spaces, owner: Owners, owner': Owners, t: nat)
    requires t in spaces
    ensures Grown(spaces, spaces', owner, owner', t) ==> forall n :: Fresh(spaces, spaces', owner, owner', t, n, n)
    ensures forall n :: Fresh(spaces, spaces', owner, owner', t, n, n) ==> Grown(spaces, spaces', owner, owner', t)
  {
    forall n | Fresh(spaces, spaces', owner, owner', t, n, n)
      ensures Grown(spaces, spaces', owner, owner', t)
    {
      assert spaces'[t].leaves.Keys == spaces[t].leaves.Keys;
    }
  }

  /** Fresh pages in a range, then in one that reaches as far or further. */
  lemma FreshThen(s0: Spaces, s1: Spaces, s2: Spaces, o0: Owners, o1: Owners, o2: Owners, d0: Data, d1: Data, d2: Data,
                  t: nat, lo: nat, mid: nat, hi: nat)
    requires lo <= mid <= hi && Kept(d0, d1, o0) && Kept(d1, d2, o1)
    requires Fresh(s0, s1, o0, o1, t, lo, mid) && Fresh(s1, s2, o1, o2, t, mid, hi)
    ensures Fresh(s0, s2, o0, o2, t, lo, hi) && Kept(d0, d2, o0)
  {
    forall p | p in o0 && o2[p] != o0[p]
      ensures o0[p] == Free && NewUse(o2[p], t, lo, hi)
    {
      var x := o1[p];
    }
    forall p | p in o0 && o0[p] != Free
      ensures p in o1 && o1[p] != Free
    {
      var x := o1[p];
    }
    KeptTransitive(d0, d1, d2, o0, o1);
  }

  /** Fresh pages unmapped again: only tables are left over. */
  lemma FreshUndone(s0: Spaces, s1: Spaces, s2: Spaces, o0: Owners, o1: Owners, o2: Owners, d0: Data, d1: Data,
                    d2: Data, t: nat, lo: nat, hi: nat)
    requires t in s0 && lo <= hi && Kept(d0, d1, o0) && Kept(d1, d2, o2)
             && (forall v :: lo <= v < hi ==> v !in s0[t].leaves)
    requires Fresh(s0, s1, o0, o1, t, lo, hi) && UnmappedRange(s1, s2, o1, o2, t, lo, hi - lo, Free)
    requires forall p {:trigger Backed(s0, p, o0[p])} :: p in o0 ==> Backed(s0, p, o0[p])
    ensures Grown(s0, s2, o0, o2, t) && Kept(d0, d2, o0)
  {
    assert s2[t].leaves.Keys == s0[t].leaves.Keys;
    forall p | p in o0
      ensures o2[p] != o0[p] ==> o0[p] == Free && o2[p].TableOf? && o2[p].root == t
      ensures o0[p] != Free ==> o1[p] != Free && o2[p] != Free
    {
      assert Backed(s0, p, o0[p]);
      var x := o1[p];
      assert o2[p] == if Within(o1[p], t, lo, hi - lo) then Free else o1[p];
    }
    forall p | p in o0 && o0[p] != Free && p in d0
      ensures p in d2 && d2[p] == d0[p]
    {
      assert p in d1 && p in o2;
    }
  }

  /** A page taken, mapped at v, and nothing else but tables. */
  lemma FreshOne(free: seq<nat>, pt: Tables, s0: Spaces, s1: Spaces, o0: Owners, o1: Owners, t: nat, v: nat, p: nat,
                 perm: Perm)
    requires p in o0 && o0[p] == Free && v < USERTOP && Inv(free, pt, s1, o1)
    requires MappedRange(s0, s1, o0[p := Held], o1, t, v, 1, p, perm)
    ensures Fresh(s0, s1, o0, o1, t, v, v + 1)
    ensures v in s1[t].leaves && s1[t].leaves[v] == Pte(true, p, perm)
  {
    assert SpaceOk(pt, o1, t, s1[t]);
    assert v in s1[t].leaves && s1[t].leaves[v].page == p;
    forall q | q in o0 && o1[q] != o0[q]
      ensures o0[q] == Free && NewUse(o1[q], t, v, v + 1)
    {
    }
  }

  /** A page taken, not mapped, and given back. */
  lemma GrownNone(s0: Spaces, s1: Spaces, o0: Owners, o1: Owners, t: nat, v: nat, p: nat, perm: Perm)
    requires p in o0 && o0[p] == Free && MappedRange(s0, s1, o0[p := Held], o1, t, v, 0, p, perm)
    ensures p in o1 && o1[p] == Held && Grown(s0, s1, o0, o1[p := Free], t)
  {
    var x := o1[p];
    assert s1[t].leaves.Keys == s0[t].leaves.Keys;
    var o2 := o1[p := Free];
    forall q | q in o0 && o2[q] != o0[q]
      ensures o0[q] == Free && o2[q].TableOf? && o2[q].root == t
    {
      assert q != p && o2[q] == o1[q];
    }
  }

  /** Pages lo to hi are mapped with these permissions, and hold zeroes. */
  ghost predicate ZeroPages(sp: Space, data: Data, lo: nat, hi: nat, perm: Perm) {
    forall u {:trigger sp.leaves[u]} {:trigger u in sp.leaves} :: lo <= u < hi ==>
      u in sp.leaves && sp.leaves[u].perm == perm && sp.leaves[u].page in data && data[sp.leaves[u].page] == Fill(0)
  }

  lemma ZeroPagesKept(s0: Spaces, s1: Spaces, o0: Owners, o1: Owners, d0: Data, d1: Data, t: nat, lo: nat, hi: nat,
                      perm: Perm)
    requires Fresh(s0, s1, o0, o1, t, hi, hi + 1) && Kept(d0, d1, o0) && Owned(t, s0[t], o0) && hi <= USERTOP
    requires ZeroPages(s0[t], d0, lo, hi, perm)
    ensures ZeroPages(s1[t], d1, lo, hi, perm)
  {
    forall u: nat | lo <= u < hi
      ensures u in s1[t].leaves && s1[t].leaves[u].perm == perm && s1[t].leaves[u].page in d1
              && d1[s1[t].leaves[u].page] == Fill(0)
    {
      assert u in s0[t].leaves && s0[t].leaves[u].page in o0;
      assert u in s1[t].leaves && s1[t].leaves[u].page in d1;
    }
  }

  // ---- what user code sees ----

  /** The byte at a user address; a page not allocated yet reads as zero. */
  function Mem(sp: Space, data: Data, va: nat): bv8 {
    if va / PGSIZE in sp.leaves && sp.leaves[va / PGSIZE].page in data && |data[sp.leaves[va / PGSIZE].page]| == PGSIZE
    then data[sp.leaves[va / PGSIZE].page][va % PGSIZE] else 0
  }

  /** User memory is as before, but for these bytes at va. */
  ghost predicate Written(sp: Space, data: Data, sp': Space, data': Data, va: nat, bytes: seq<bv8>) {
    forall x {:trigger Mem(sp', data', x)} :: 0 <= x < TRAPFRAME ==>
      Mem(sp', data', x) == if va <= x < va + |bytes| then bytes[x - va] else Mem(sp, data, x)
  }

  ghost predicate SameMem(sp: Space, data: Data, sp': Space, data': Data) {
    forall x {:trigger Mem(sp', data', x)} :: 0 <= x < TRAPFRAME ==> Mem(sp', data', x) == Mem(sp, data, x)
  }

  /** The user memory of all spaces but t is as before. */
  ghost predicate OthersSame(spaces: Spaces, data: Data, spaces': Spaces, data': Data, t: nat) {
    forall s {:trigger spaces'[s]} {:trigger s in spaces'} :: s in spaces && s != t ==>
      s in spaces' && SameMem(spaces[s], data, spaces'[s], data')
  }

  /** Fresh pages, if they hold zeroes, cannot be seen. */
  lemma FreshUnseen(free: seq<nat>, pt: Tables, s0: Spaces, s1: Spaces, o0: Owners, o1: Owners, d0: Data, d1: Data,
                    t: nat, lo: nat, hi: nat)
    requires Fresh(s0, s1, o0, o1, t, lo, hi) && Kept(d0, d1, o0) && hi <= USERTOP
    requires Inv(free, pt, s0, o0) && forall p :: p in o0 ==> p in d0
    requires forall u {:trigger s1[t].leaves[u]} :: u in s1[t].leaves && u !in s0[t].leaves ==>
               s1[t].leaves[u].page in d1 && d1[s1[t].leaves[u].page] == Fill(0)
    ensures SameMem(s0[t], d0, s1[t], d1) && OthersSame(s0, d0, s1, d1, t)
  {
    forall s, x: nat | s in s0 && x < TRAPFRAME
      ensures s in s1 && Mem(s1[s], d1, x) == Mem(s0[s], d0, x)
    {
      assert SpaceOk(pt, o0, s, s0[s]);
      MemKept(s0[s], s1[s], o0, d0, d1, s, x);
    }
  }

  lemma MemKept(sp: Space, sp': Space, owner: Owners, d0: Data, d1: Data, t: nat, x: nat)
    requires Owned(t, sp, owner) && Kept(d0, d1, owner) && x < TRAPFRAME && (forall p :: p in owner ==> p in d0)
    requires x / PGSIZE in sp.leaves ==> x / PGSIZE in sp'.leaves && sp'.leaves[x / PGSIZE] == sp.leaves[x / PGSIZE]
    requires x / PGSIZE in sp'.leaves && x / PGSIZE !in sp.leaves ==>
               sp'.leaves[x / PGSIZE].page in d1 && d1[sp'.leaves[x / PGSIZE].page] == Fill(0)
    ensures Mem(sp', d1, x) == Mem(sp, d0, x)
  {
    if x / PGSIZE in sp.leaves {
      var p := sp.leaves[x / PGSIZE].page;
      assert p in owner && p in d1;
    }
  }

  /** Space t maps no user page from the n-th on. */
  ghost predicate Bounded(free: seq<nat>, pt: Tables, spaces: Spaces, owner: Owners, t: nat, n: nat) {
    Inv(free, pt, spaces, owner) && t in spaces && forall v {:trigger v in spaces[t].leaves} :: n <= v < USERTOP ==>
        v !in spaces[t].leaves
  }

  /** Users may read the page. */
  predicate Readable(sp: Space, v: nat) {
    v in sp.leaves && sp.leaves[v].perm.u
  }

  /** Users may write the page. */
  predicate Writable(sp: Space, v: nat) {
    Readable(sp, v) && sp.leaves[v].perm.w
  }

  /** Every byte of a range lies on a page that users may read. */
  ghost predicate AllReadable(sp: Space, va: nat, n: nat) {
    forall x {:trigger Readable(sp, x / PGSIZE)} :: va <= x < va + n ==> Readable(sp, x / PGSIZE)
  }

  ghost predicate LeavesGrow(sp: Space, sp': Space) {
    forall u {:trigger u in sp'.leaves} {:trigger sp'.leaves[u]} :: u in sp.leaves ==>
        u in sp'.leaves && sp'.leaves[u] == sp.leaves[u]
  }

  /** memmove into a user page changes those bytes of that space's memory alone. */
  lemma PatchWritten(free: seq<nat>, pt: Tables, spaces: Spaces, owner: Owners, data: Data, t: nat, va: nat,
                     bytes: seq<bv8>)
    requires Inv(free, pt, spaces, owner) && t in spaces && va / PGSIZE in spaces[t].leaves && va < TRAPFRAME
    requires var p := spaces[t].leaves[va / PGSIZE].page;
             p in data && |data[p]| == PGSIZE && va % PGSIZE + |bytes| <= PGSIZE
    ensures var p := spaces[t].leaves[va / PGSIZE].page;
            var data' := data[p := Patch(data[p], va % PGSIZE, bytes)];
            Written(spaces[t], data, spaces[t], data', va, bytes) && OthersSame(spaces, data, spaces, data', t)
  {
    var v := va / PGSIZE;
    var p := spaces[t].leaves[v].page;
    var data' := data[p := Patch(data[p], va % PGSIZE, bytes)];
    assert SpaceOk(pt, owner, t, spaces[t]) && owner[p] == LeafOf(t, v);
    forall s, x: nat | s in spaces && x < TRAPFRAME && (s != t || x / PGSIZE != v)
      ensures Mem(spaces[s], data', x) == Mem(spaces[s], data, x)
    {
      assert SpaceOk(pt, owner, s, spaces[s]);
      if x / PGSIZE in spaces[s].leaves {
        assert owner[spaces[s].leaves[x / PGSIZE].page] == LeafOf(s, x / PGSIZE);
      }
    }
    forall x: nat | x < TRAPFRAME
      ensures Mem(spaces[t], data', x) == if va <= x < va + |bytes| then bytes[x - va] else Mem(spaces[t], data, x)
    {
      if x / PGSIZE == v {
        assert va <= x < va + |bytes| <==> va % PGSIZE <= x % PGSIZE < va % PGSIZE + |bytes|;
      }
    }
  }

  lemma WrittenThen(sp0: Space, d0: Data, sp1: Space, d1: Data, sp2: Space, d2: Data, va: nat, x: seq<bv8>, y: seq<bv8>)
    requires Written(sp0, d0, sp1, d1, va, x) && Written(sp1, d1, sp2, d2, va + |x|, y)
    ensures Written(sp0, d0, sp2, d2, va, x + y)
  {
    forall z: nat | z < TRAPFRAME
      ensures Mem(sp2, d2, z) == if va <= z < va + |x + y| then (x + y)[z - va] else Mem(sp0, d0, z)
    {
      var m := Mem(sp1, d1, z);
    }
  }

  lemma OthersThen(s0: Spaces, d0: Data, s1: Spaces, d1: Data, s2: Spaces, d2: Data, t: nat)
    requires OthersSame(s0, d0, s1, d1, t) && OthersSame(s1, d1, s2, d2, t)
    ensures OthersSame(s0, d0, s2, d2, t)
  {
    forall s | s in s0 && s != t
      ensures s in s2 && SameMem(s0[s], d0, s2[s], d2)
    {
      assert s in s1;
      forall x: nat | x < TRAPFRAME
        ensures Mem(s2[s], d2, x) == Mem(s0[s], d0, x)
      {
        var m := Mem(s1[s], d1, x);
      }
    }
  }

  /** copyout has put the first `done` bytes of src at va, in space t alone. */
  ghost predicate Copied(s0: Spaces, d0: Data, s: Spaces, d: Data, t: nat, va: nat, src: seq<bv8>, done: nat) {
    && t in s0 && t in s && done <= |src| && LeavesGrow(s0[t], s[t]) && OthersSame(s0, d0, s, d, t)
    && Written(s0[t], d0, s[t], d, va, src[..done]) && AllReadable(s[t], va, done)
  }

  /** copyout's progress after one more page. */
  lemma CopiedMore(s0: Spaces, d0: Data, s1: Spaces, d1: Data, s2: Spaces, d2: Data, t: nat, va: nat, src: seq<bv8>,
                   done: nat, n: nat)
    requires Copied(s0, d0, s1, d1, t, va, src, done) && t in s2 && done + n <= |src| && LeavesGrow(s1[t], s2[t])
    requires OthersSame(s1, d1, s2, d2, t) && Written(s1[t], d1, s2[t], d2, va + done, src[done..][..n])
    requires n > 0 ==> Readable(s2[t], (va + done) / PGSIZE) && n <= PGSIZE - (va + done) % PGSIZE
    ensures Copied(s0, d0, s2, d2, t, va, src, done + n)
    ensures forall v :: Writable(s0[t], v) ==> Writable(s1[t], v)
  {
    OthersThen(s0, d0, s1, d1, s2, d2, t);
    WrittenThen(s0[t], d0, s1[t], d1, s2[t], d2, va, src[..done], src[done..][..n]);
    assert src[..done] + src[done..][..n] == src[..done + n];
    forall u | u in s0[t].leaves
      ensures u in s2[t].leaves && s2[t].leaves[u] == s0[t].leaves[u]
    {
      assert u in s1[t].leaves;
    }
    forall x: nat | va <= x < va + done + n
      ensures Readable(s2[t], x / PGSIZE)
    {
      if x < va + done {
        assert Readable(s1[t], x / PGSIZE);
      } else {
        assert x / PGSIZE == (va + done) / PGSIZE;
      }
    }
  }

  /** Two steps that users cannot see are one. */
  lemma LookedMore(s0: Spaces, d0: Data, s1: Spaces, d1: Data, s2: Spaces, d2: Data, t: nat)
    requires t in s0 && t in s1 && t in s2 && LeavesGrow(s0[t], s1[t]) && LeavesGrow(s1[t], s2[t])
    requires OthersSame(s0, d0, s1, d1, t) && OthersSame(s1, d1, s2, d2, t)
    requires SameMem(s0[t], d0, s1[t], d1) && SameMem(s1[t], d1, s2[t], d2)
    ensures LeavesGrow(s0[t], s2[t]) && OthersSame(s0, d0, s2, d2, t) && SameMem(s0[t], d0, s2[t], d2)
  {
    OthersThen(s0, d0, s1, d1, s2, d2, t);
    forall x: nat | x < TRAPFRAME
      ensures Mem(s2[t], d2, x) == Mem(s0[t], d0, x)
    {
      var m := Mem(s1[t], d1, x);
    }
    forall u | u in s0[t].leaves
      ensures u in s2[t].leaves && s2[t].leaves[u] == s0[t].leaves[u]
    {
      assert u in s1[t].leaves;
    }
  }

  /** These bytes are user memory from va on. */
  ghost predicate Reads(sp: Space, data: Data, va: nat, bytes: seq<bv8>) {
    forall k {:trigger bytes[k]} :: 0 <= k < |bytes| ==> bytes[k] == Mem(sp, data, va + k)
  }

  /** Bytes of one page, read in place, are user memory. */
  lemma ReadPage(sp: Space, data: Data, va: nat, n: nat)
    requires va / PGSIZE in sp.leaves && va % PGSIZE + n <= PGSIZE
    requires var p := sp.leaves[va / PGSIZE].page; p in data && |data[p]| == PGSIZE
    ensures Reads(sp, data, va, data[sp.leaves[va / PGSIZE].page][va % PGSIZE..va % PGSIZE + n])
  {
    var bytes := data[sp.leaves[va / PGSIZE].page][va % PGSIZE..va % PGSIZE + n];
    forall k | 0 <= k < |bytes|
      ensures bytes[k] == Mem(sp, data, va + k)
    {
      assert (va + k) / PGSIZE == va / PGSIZE && (va + k) % PGSIZE == va % PGSIZE + k;
    }
  }

  lemma ReadMore(sp0: Space, d0: Data, sp1: Space, d1: Data, va: nat, x: seq<bv8>, y: seq<bv8>)
    requires SameMem(sp0, d0, sp1, d1) && Reads(sp0, d0, va, x) && Reads(sp1, d1, va + |x|, y)
             && va + |x| + |y| <= TRAPFRAME
    ensures Reads(sp0, d0, va, x + y)
  {
    forall k | 0 <= k < |x + y|
      ensures (x + y)[k] == Mem(sp0, d0, va + k)
    {
      if k >= |x| {
        assert y[k - |x|] == Mem(sp1, d1, va + k);
      }
    }
  }

  /** Page u is mapped in both spaces or in neither, with the same rights and bytes. */
  ghost predicate SamePage(sp: Space, d: Data, sp': Space, d': Data, u: nat) {
    && (u in sp'.leaves <==> u in sp.leaves)
    && (u in sp.leaves ==> && sp'.leaves[u].perm == sp.leaves[u].perm
                           && sp.leaves[u].page in d && sp'.leaves[u].page in d'
                           && d'[sp'.leaves[u].page] == d[sp.leaves[u].page])
  }

  /** The first n pages are the same. */
  ghost predicate CopyOf(sp: Space, d: Data, sp': Space, d': Data, n: nat) {
    forall u {:trigger SamePage(sp, d, sp', d', u)} :: 0 <= u < n ==> SamePage(sp, d, sp', d', u)
  }

  /** A copy of all there is reads the same everywhere. */
  lemma CopiedSame(sp: Space, d: Data, sp': Space, d': Data, n: nat)
    requires CopyOf(sp, d, sp', d', n)
    requires forall v {:trigger v in sp.leaves} :: n <= v < USERTOP ==> v !in sp.leaves
    requires forall v {:trigger v in sp'.leaves} :: n <= v < USERTOP ==> v !in sp'.leaves
    ensures SameMem(sp, d, sp', d')
  {
    forall x: nat | x < TRAPFRAME
      ensures Mem(sp', d', x) == Mem(sp, d, x)
    {
      if x / PGSIZE < n {
        assert SamePage(sp, d, sp', d', x / PGSIZE);
      }
    }
  }

  /** A step that adds page v at most does not disturb the pages copied before. */
  lemma CopyKept(sp: Space, d: Data, s1: Spaces, s2: Spaces, o1: Owners, o2: Owners, d1: Data, d2: Data, t: nat, v: nat)
    requires Fresh(s1, s2, o1, o2, t, v, v + 1) && Kept(d1, d2, o1) && Owned(t, s1[t], o1) && v <= USERTOP
    requires CopyOf(sp, d, s1[t], d1, v)
    ensures CopyOf(sp, d, s2[t], d2, v)
  {
    forall u | 0 <= u < v
      ensures SamePage(sp, d, s2[t], d2, u)
    {
      assert SamePage(sp, d, s1[t], d1, u);
      assert u in s1[t].leaves <==> u in s2[t].leaves;
      if u in s1[t].leaves {
        assert s1[t].leaves[u].page in o1;
        assert s2[t].leaves[u].page in d2;
      }
    }
  }

  /** The page uvmcopy copies from is as it was when it began. */
  lemma SourcePage(f0: seq<nat>, pt0: Tables, s0: Spaces, s1: Spaces, o0: Owners, o1: Owners, d0: Data, d1: Data,
                   from: nat, t: nat, v: nat)
    requires Bounded(f0, pt0, s0, o0, t, 0) && from in s0 && v in s0[from].leaves && v < USERTOP
    requires Fresh(s0, s1, o0, o1, t, 0, v) && Kept(d0, d1, o0) && forall p :: p in o0 ==> p in d0
    ensures Leafy(s0[from].leaves[v])
    ensures var p := s0[from].leaves[v].page; p in o1 && p in d0 && p in d1 && d1[p] == d0[p]
  {
    assert SpaceOk(pt0, o0, from, s0[from]);
    assert LeafOk(pt0, s0[from], v);
    var p := s0[from].leaves[v].page;
    assert p in o0 && p in d1;
  }

  // ---- whole processes ----

  /** User pages below sz bytes, and above them at most trapframe and trampoline. */
  ghost predicate Sensible(sp: Space, sz: nat) {
    sz <= TRAPFRAME && forall v {:trigger v in sp.leaves} :: v in sp.leaves ==>
        v < Pages(sz) || USERTOP <= v <= USERTOP + 1
  }

  /** Every page that changed hands was free and is now space t's. */
  ghost predicate Since(o0: Owners, o: Owners, t: nat) {
    o.Keys == o0.Keys && forall q {:trigger o[q]} :: q in o0 && o[q] != o0[q] ==> o0[q] == Free && Belongs(o, q, t)
  }

  lemma SinceMapped(s1: Spaces, s2: Spaces, o0: Owners, o1: Owners, o2: Owners, d0: Data, d1: Data, d2: Data,
                    t: nat, v: nat, n: nat, p: nat, perm: Perm)
    requires Since(o0, o1, t) && Kept(d0, d1, o0) && Kept(d1, d2, o1)
    requires v >= USERTOP && MappedRange(s1, s2, o1, o2, t, v, n, p, perm)
    ensures Since(o0, o2, t) && Kept(d0, d2, o0)
  {
    forall q | q in o0
      ensures o2[q] != o0[q] ==> o0[q] == Free && Belongs(o2, q, t)
      ensures o0[q] != Free ==> o1[q] != Free
    {
      var x := o1[q];
      var y := o2[q];
    }
    KeptTransitive(d0, d1, d2, o0, o1);
  }

  lemma SinceUnmapped(free: seq<nat>, pt: Tables, s1: Spaces, s2: Spaces, o0: Owners, o1: Owners, o2: Owners,
                      d0: Data, d1: Data, d2: Data, t: nat, v: nat)
    requires Since(o0, o1, t) && Kept(d0, d1, o0) && Kept(d1, d2, o2) && Inv(free, pt, s1, o1)
    requires v >= USERTOP && UnmappedRange(s1, s2, o1, o2, t, v, 1, Held)
    ensures Since(o0, o2, t) && Kept(d0, d2, o0)
  {
    forall q | q in o0
      ensures o2[q] == o1[q] && (o0[q] != Free ==> o1[q] != Free)
    {
      assert Backed(s1, q, o1[q]);
      var y := o2[q];
    }
    forall q | q in o0 && o0[q] != Free && q in d0
      ensures q in d2 && d2[q] == d0[q]
    {
      assert q in d1;
    }
  }

  lemma SinceReleased(f0: seq<nat>, pt0: Tables, s0: Spaces, o0: Owners, o1: Owners, o2: Owners, d0: Data, d1: Data,
                      d2: Data, t: nat)
    requires Inv(f0, pt0, s0, o0) && t !in s0 && Since(o0, o1, t) && Released(o1, o2, t) && Kept(d0, d1, o0)
             && Kept(d1, d2, o2)
    ensures o2 == o0 && Kept(d0, d2, o0)
  {
    forall q | q in o0
      ensures o2[q] == o0[q]
    {
      assert Backed(s0, q, o0[q]);
      var x, y := o1[q], o2[q];
    }
    assert o2 == o0;
    KeptTransitive(d0, d1, d2, o0, o2);
  }

  /** Unmapping a page above the user's leaves every owner as it was. */
  lemma HighUnmapped(free: seq<nat>, pt: Tables, s1: Spaces, s2: Spaces, o1: Owners, o2: Owners, t: nat, v: nat)
    requires Inv(free, pt, s1, o1) && v >= USERTOP && UnmappedRange(s1, s2, o1, o2, t, v, 1, Held)
    ensures o2 == o1
  {
    forall q | q in o1
      ensures o2[q] == o1[q]
    {
      assert Backed(s1, q, o1[q]);
    }
  }

  lemma KeptAfter(d0: Data, d1: Data, d2: Data, o1: Owners, o2: Owners)
    requires Kept(d0, d1, o1) && Kept(d1, d2, o2)
    requires forall q {:trigger o2[q]} :: q in o2 && o2[q] != Free ==> q in o1 && o1[q] != Free
    ensures Kept(d0, d2, o2)
  {
    forall q | q in o2 && o2[q] != Free && q in d0
      ensures q in d2 && d2[q] == d0[q]
    {
      assert q in o1 && q in d1;
    }
  }

  /** Fresh pages below the new size keep every process in order. */
  /** Space t may have gained tables, and pages below psz, all of them free before. */
  ghost predicate Faulted(s0: Spaces, s1: Spaces, o0: Owners, o1: Owners, t: nat, psz: nat) {
    Fresh(s0, s1, o0, o1, t, 0, Pages(psz))
  }

  lemma FaultedThen(s0: Spaces, s1: Spaces, s2: Spaces, o0: Owners, o1: Owners, o2: Owners, t: nat, psz: nat)
    requires Faulted(s0, s1, o0, o1, t, psz) && Faulted(s1, s2, o1, o2, t, psz)
    ensures Faulted(s0, s2, o0, o2, t, psz)
  {
    forall p | p in o0 && o2[p] != o0[p]
      ensures o0[p] == Free && NewUse(o2[p], t, 0, Pages(psz))
    {
      var x := o1[p];
    }
    forall n | n in s0[t].tables
      ensures n in s2[t].tables && s2[t].tables[n] == s0[t].tables[n]
    {
      assert n in s1[t].tables;
    }
    forall u
      ensures u in s0[t].leaves ==> u in s2[t].leaves && s2[t].leaves[u] == s0[t].leaves[u]
      ensures u in s2[t].leaves && u !in s0[t].leaves ==> 0 <= u < Pages(psz)
    {
      assert u in s1[t].leaves ==> u in s2[t].leaves;
    }
  }

  lemma FaultedOne(s0: Spaces, s1: Spaces, o0: Owners, o1: Owners, t: nat, psz: nat, v: nat)
    requires Grown(s0, s1, o0, o1, t) || (v < Pages(psz) && Fresh(s0, s1, o0, o1, t, v, v + 1))
    ensures Faulted(s0, s1, o0, o1, t, psz)
  {
  }

  /** No process's space reaches beyond its size. */
  ghost predicate WithinSizes(spaces: Spaces, sz: map<nat, nat>) {
    && sz.Keys == spaces.Keys
    && forall t {:trigger Sensible(spaces[t], sz[t])} :: t in spaces ==> Sensible(spaces[t], sz[t])
  }

  lemma FaultedSizes(s0: Spaces, s1: Spaces, o0: Owners, o1: Owners, t: nat, psz: nat, sz: map<nat, nat>)
    requires Faulted(s0, s1, o0, o1, t, psz)
    ensures WithinSizes(s0, sz) && psz == sz[t] ==> WithinSizes(s1, sz)
  {
    if WithinSizes(s0, sz) && psz == sz[t] {
      assert Sensible(s0[t], sz[t]);
      SensibleFresh(s0, s1, o0, o1, t, sz, sz, 0, Pages(psz));
    }
  }

  lemma SensibleFresh(s0: Spaces, s1: Spaces, o0: Owners, o1: Owners, t: nat, sz0: map<nat, nat>, sz1: map<nat, nat>,
                      lo: nat, hi: nat)
    requires t in s0 && t in sz0 && t in sz1 && sz1 == sz0[t := sz1[t]] && sz0.Keys == s0.Keys
             && sz0[t] <= sz1[t] <= TRAPFRAME
    requires forall s {:trigger Sensible(s0[s], sz0[s])} :: s in s0 ==> Sensible(s0[s], sz0[s])
    requires Fresh(s0, s1, o0, o1, t, lo, hi) && hi <= Pages(sz1[t])
    ensures sz1.Keys == s1.Keys && forall s {:trigger Sensible(s1[s], sz1[s])} :: s in s1 ==> Sensible(s1[s], sz1[s])
  {
    forall s | s in s1
      ensures Sensible(s1[s], sz1[s])
    {
      assert Sensible(s0[s], sz0[s]);
      if s == t {
        assert Pages(sz0[t]) <= Pages(sz1[t]);
      }
    }
  }

  lemma SinceFresh(s1: Spaces, s2: Spaces, o0: Owners, o1: Owners, o2: Owners, d0: Data, d1: Data, d2: Data, t: nat,
                   n: nat)
    requires Since(o0, o1, t) && Kept(d0, d1, o0) && Kept(d1, d2, o1) && Fresh(s1, s2, o1, o2, t, 0, n)
    ensures Since(o0, o2, t) && Kept(d0, d2, o0)
  {
    forall q | q in o0
      ensures o2[q] != o0[q] ==> o0[q] == Free && Belongs(o2, q, t)
      ensures o0[q] != Free ==> o1[q] != Free
    {
      var x, y := o1[q], o2[q];
    }
    KeptTransitive(d0, d1, d2, o0, o1);
  }

  /** A copy of pages that had not changed is a copy of what they were. */
  lemma CopySince(f0: seq<nat>, pt0: Tables, s0: Spaces, o0: Owners, d0: Data, d1: Data, from: nat, sp: Space, d: Data,
                  n: nat)
    requires Inv(f0, pt0, s0, o0) && from in s0 && Kept(d0, d1, o0) && (forall p :: p in o0 ==> p in d0) && n <= USERTOP
    requires CopyOf(s0[from], d1, sp, d, n)
    ensures CopyOf(s0[from], d0, sp, d, n)
  {
    assert SpaceOk(pt0, o0, from, s0[from]);
    forall u | 0 <= u < n
      ensures SamePage(s0[from], d0, sp, d, u)
    {
      assert SamePage(s0[from], d1, sp, d, u);
      if u in s0[from].leaves {
        var p := s0[from].leaves[u].page;
        assert p in o0 && p in d1;
      }
    }
  }

  /** What the owners mean: a page of the pool is free, or one space's table, or one
      space's user page, or held, and never two of these. */
  lemma UsedOnce(free: seq<nat>, pt: Tables, spaces: Spaces, owner: Owners, p: nat)
    requires Inv(free, pt, spaces, owner) && p in owner
    ensures p in free <==> owner[p] == Free
    ensures forall t, n {:trigger spaces[t].tables[n]} ::
              t in spaces && n in spaces[t].tables && spaces[t].tables[n] == p ==> owner[p] == TableOf(t, n)
    ensures forall t, v {:trigger spaces[t].leaves[v]} ::
              t in spaces && v in spaces[t].leaves && v < USERTOP && spaces[t].leaves[v].page == p ==>
              owner[p] == LeafOf(t, v)
    ensures owner[p].TableOf? ==> exists t, n :: t in spaces && n in spaces[t].tables && spaces[t].tables[n] == p
    ensures owner[p].LeafOf? ==>
              exists t, v :: t in spaces && v in spaces[t].leaves && v < USERTOP && spaces[t].leaves[v].page == p
  {
    assert Backed(spaces, p, owner[p]);
    forall t | t in spaces
      ensures Owned(t, spaces[t], owner)
    {
      assert SpaceOk(pt, owner, t, spaces[t]);
    }
  }
}
