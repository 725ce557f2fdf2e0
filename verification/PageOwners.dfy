/** Who owns each page of the pool that kalloc.c manages: every page is free, in
    the kernel's hands, a page table of one address space, or mapped by one. */
module PageOwners {
  import opened Distinctness
  import opened Sv39

  datatype Owner = Free | Held | TableOf(root: nat, node: Node) | LeafOf(root: nat, vpn: nat)

  type Owners = map<nat, Owner>

  type Spaces = map<nat, Space>

  /** The free list holds the free pages, each once. */
  ghost predicate Pool(free: seq<nat>, owner: Owners) {
    && Distinct(free)
    && (forall p {:trigger p in free} {:trigger owner[p]} :: p in free <==> p in owner && owner[p] == Free)
  }

  /** Space t's tables and user pages are its own, and users see only those. */
  ghost predicate Owned(t: nat, sp: Space, owner: Owners) {
    && (forall n {:trigger sp.tables[n]} :: n in sp.tables ==>
          sp.tables[n] in owner && owner[sp.tables[n]] == TableOf(t, n))
    && (forall v {:trigger sp.leaves[v]} :: v in sp.leaves && v < USERTOP ==>
          sp.leaves[v].page in owner && owner[sp.leaves[v].page] == LeafOf(t, v))
    && (forall v {:trigger sp.leaves[v]} :: v in sp.leaves && sp.leaves[v].perm.u ==> v < USERTOP)
  }

  /** A page counted as a table or a user page really is one. */
  ghost predicate Backed(spaces: Spaces, p: nat, o: Owner) {
    match o
    case TableOf(t, n) => t in spaces && n in spaces[t].tables && spaces[t].tables[n] == p
    case LeafOf(t, v) => t in spaces && v in spaces[t].leaves && v < USERTOP && spaces[t].leaves[v].page == p
    case _ => true
  }

  ghost predicate SpaceOk(pt: Tables, owner: Owners, t: nat, sp: Space) {
    Shape(pt, t, sp) && Owned(t, sp, owner)
  }

  /** The four uses partition the pool. */
  ghost predicate Inv(free: seq<nat>, pt: Tables, spaces: Spaces, owner: Owners) {
    && Pool(free, owner)
    && (forall t {:trigger SpaceOk(pt, owner, t, spaces[t])} :: t in spaces ==> SpaceOk(pt, owner, t, spaces[t]))
    && (forall p {:trigger Backed(spaces, p, owner[p])} :: p in owner ==> Backed(spaces, p, owner[p]))
  }

  lemma OwnedInjective(t: nat, sp: Space, owner: Owners)
    requires Owned(t, sp, owner)
    ensures Injective(sp)
  {
  }

  /** Two distinct spaces have no table and no user page in common. */
  lemma SpacesDisjoint(free: seq<nat>, pt: Tables, spaces: Spaces, owner: Owners, s: nat, t: nat)
    requires Inv(free, pt, spaces, owner) && s in spaces && t in spaces && s != t
    ensures forall m, n :: m in spaces[s].tables && n in spaces[t].tables ==> spaces[s].tables[m] != spaces[t].tables[n]
    ensures forall u, v :: u in spaces[s].leaves && u < USERTOP && v in spaces[t].leaves && v < USERTOP ==>
              spaces[s].leaves[u].page != spaces[t].leaves[v].page
  {
    assert SpaceOk(pt, owner, s, spaces[s]) && SpaceOk(pt, owner, t, spaces[t]);
  }

  /** A page that no space owns may change owner, between free and held. */
  lemma Retag(free: seq<nat>, free': seq<nat>, pt: Tables, spaces: Spaces, owner: Owners, p: nat, o: Owner)
    requires Inv(free, pt, spaces, owner) && p in owner && (owner[p].Free? || owner[p].Held?) && (o.Free? || o.Held?)
    requires Pool(free', owner[p := o])
    ensures Inv(free', pt, spaces, owner[p := o])
  {
    forall t | t in spaces
      ensures SpaceOk(pt, owner[p := o], t, spaces[t])
    {
      assert SpaceOk(pt, owner, t, spaces[t]);
    }
    var owner' := owner[p := o];
    forall q | q in owner'
      ensures Backed(spaces, q, owner'[q])
    {
      if q != p {
        assert Backed(spaces, q, owner[q]);
      }
    }
  }

  lemma PopPool(free: seq<nat>, owner: Owners)
    requires Pool(free, owner) && free != []
    ensures free[0] in owner && owner[free[0]] == Free && Pool(free[1..], owner[free[0] := Held])
  {
    assert free[0] in free;
    assert free == [free[0]] + free[1..];
  }

  lemma PushPool(free: seq<nat>, owner: Owners, p: nat)
    requires Pool(free, owner) && p in owner && owner[p] != Free
    ensures Pool([p] + free, owner[p := Free])
  {
  }

  /** Page p keeps its owner, and its contents as a table. */
  ghost predicate Untouched(pt: Tables, pt': Tables, owner: Owners, owner': Owners, p: nat) {
    p in owner && p in owner' && owner'[p] == owner[p] && (p in pt ==> p in pt' && pt'[p] == pt[p])
  }

  ghost predicate Belongs(owner: Owners, p: nat, t: nat) {
    p in owner && (owner[p].TableOf? || owner[p].LeafOf?) && owner[p].root == t
  }

  /** A space does not see a change to pages that are not its own. */
  lemma OtherSpace(pt: Tables, pt': Tables, owner: Owners, owner': Owners, t: nat, sp: Space)
    requires SpaceOk(pt, owner, t, sp)
    requires forall p :: Belongs(owner, p, t) ==> Untouched(pt, pt', owner, owner', p)
    ensures SpaceOk(pt', owner', t, sp)
  {
    forall n | n in sp.tables
      ensures Untouched(pt, pt', owner, owner', sp.tables[n])
    {
      assert Belongs(owner, sp.tables[n], t);
    }
    ShapeFrame(pt, pt', t, sp);
    forall v | v in sp.leaves && v < USERTOP
      ensures Untouched(pt, pt', owner, owner', sp.leaves[v].page)
    {
      assert Belongs(owner, sp.leaves[v].page, t);
    }
  }

  function Zeroes(): (z: seq<Pte>)
    ensures |z| == 512 && forall k :: 0 <= k < 512 ==> z[k] == ZERO
  {
    seq(512, _ => ZERO)
  }

  /** The space with table n in page p. */
  function WithTable(sp: Space, n: Node, p: nat): Space {
    sp.(tables := sp.tables[n := p])
  }

  /** walk: a held page becomes the empty table n of space t. */
  lemma LinkInv(free: seq<nat>, pt: Tables, spaces: Spaces, owner: Owners, t: nat, n: Node, p: nat)
    requires Inv(free, pt, spaces, owner) && t in spaces && p in owner && owner[p] == Held
    requires n !in spaces[t].tables && n.level < 2 && Parent(n) in spaces[t].tables
    ensures IsTable(pt, spaces[t].tables[Parent(n)]) && spaces[t].tables[Parent(n)] != p
    ensures Inv(free, Put(pt[p := Zeroes()], spaces[t].tables[Parent(n)], Slot(n), Link(p)),
                spaces[t := WithTable(spaces[t], n, p)], owner[p := TableOf(t, n)])
  {
    var q := spaces[t].tables[Parent(n)];
    assert SpaceOk(pt, owner, t, spaces[t]);
    OwnedInjective(t, spaces[t], owner);
    LinkShape(pt, t, spaces[t], n, p);
    var pt', owner' := Put(pt[p := Zeroes()], q, Slot(n), Link(p)), owner[p := TableOf(t, n)];
    var spaces' := spaces[t := WithTable(spaces[t], n, p)];
    assert Pool(free, owner');
    forall s | s in spaces'
      ensures SpaceOk(pt', owner', s, spaces'[s])
    {
      if s != t {
        assert SpaceOk(pt, owner, s, spaces[s]);
        OtherSpace(pt, pt', owner, owner', s, spaces[s]);
      }
    }
    BackedStep(spaces, spaces', owner, owner', t, p);
  }

  /** A change that only adds to space t, and retags page p alone. */
  lemma BackedStep(spaces: Spaces, spaces': Spaces, owner: Owners, owner': Owners, t: nat, p: nat)
    requires forall q :: q in owner ==> Backed(spaces, q, owner[q])
    requires t in spaces && t in spaces' && spaces' == spaces[t := spaces'[t]]
    requires owner'.Keys == owner.Keys && forall q {:trigger owner'[q]} :: q in owner && q != p ==>
               owner'[q] == owner[q]
    requires forall n {:trigger n in spaces'[t].tables} :: n in spaces[t].tables ==>
               n in spaces'[t].tables && spaces'[t].tables[n] == spaces[t].tables[n]
    requires forall v {:trigger v in spaces'[t].leaves} ::
               v in spaces[t].leaves && v < USERTOP && spaces[t].leaves[v].page != p ==>
               v in spaces'[t].leaves && spaces'[t].leaves[v] == spaces[t].leaves[v]
    requires p in owner ==> Backed(spaces', p, owner'[p])
    ensures forall q :: q in owner' ==> Backed(spaces', q, owner'[q])
  {
    forall q | q in owner'
      ensures Backed(spaces', q, owner'[q])
    {
      if q != p {
        assert owner'[q] == owner[q] && Backed(spaces, q, owner[q]);
      }
    }
  }

  /** The space with entry e for page v, or none if e is not valid. */
  function WithLeaf(sp: Space, v: nat, e: Pte): Space {
    sp.(leaves := if e.v then sp.leaves[v := e] else sp.leaves - {v})
  }

  /** The spaces after space t's entry for page v is set to e. */
  function SetLeaf(spaces: Spaces, t: nat, v: nat, e: Pte): Spaces
    requires t in spaces
  {
    spaces[t := WithLeaf(spaces[t], v, e)]
  }

  /** Writing one leaf slot leaves the other spaces alone. */
  lemma LeafSpaces(pt: Tables, spaces: Spaces, owner: Owners, owner': Owners, t: nat, v: nat, e: Pte)
    requires forall s {:trigger SpaceOk(pt, owner, s, spaces[s])} :: s in spaces ==> SpaceOk(pt, owner, s, spaces[s])
    requires t in spaces && NodeFor(0, v) in spaces[t].tables && IsTable(pt, spaces[t].tables[NodeFor(0, v)])
             && (e.v ==> Leafy(e))
    requires forall s, p :: s != t && Belongs(owner, p, s) ==> p in owner' && owner'[p] == owner[p]
    requires Owned(t, WithLeaf(spaces[t], v, e), owner')
    ensures var pt', spaces' := Put(pt, spaces[t].tables[NodeFor(0, v)], v % 512, e), SetLeaf(spaces, t, v, e);
            forall s {:trigger SpaceOk(pt', owner', s, spaces'[s])} :: s in spaces' ==>
                SpaceOk(pt', owner', s, spaces'[s])
  {
    var q := spaces[t].tables[NodeFor(0, v)];
    assert SpaceOk(pt, owner, t, spaces[t]);
    OwnedInjective(t, spaces[t], owner);
    LeafShape(pt, t, spaces[t], v, e);
    var pt', spaces' := Put(pt, q, v % 512, e), SetLeaf(spaces, t, v, e);
    forall s | s in spaces'
      ensures SpaceOk(pt', owner', s, spaces'[s])
    {
      if s != t {
        assert SpaceOk(pt, owner, s, spaces[s]);
        OtherSpace(pt, pt', owner, owner', s, spaces[s]);
      }
    }
  }

  /** The owners once space t maps page v to e.page: a user page becomes its own. */
  function Given(owner: Owners, t: nat, v: nat, p: nat): Owners {
    if v < USERTOP then owner[p := LeafOf(t, v)] else owner
  }

  lemma MapInv(free: seq<nat>, pt: Tables, spaces: Spaces, owner: Owners, t: nat, v: nat, e: Pte)
    requires Inv(free, pt, spaces, owner) && t in spaces && v !in spaces[t].leaves && Leafy(e)
    requires NodeFor(0, v) in spaces[t].tables && IsTable(pt, spaces[t].tables[NodeFor(0, v)])
    requires v < USERTOP ==> e.page in owner && owner[e.page] == Held
    requires e.perm.u ==> v < USERTOP
    ensures Inv(free, Put(pt, spaces[t].tables[NodeFor(0, v)], v % 512, e),
                SetLeaf(spaces, t, v, e), Given(owner, t, v, e.page))
  {
    var owner' := Given(owner, t, v, e.page);
    assert SpaceOk(pt, owner, t, spaces[t]);
    assert Owned(t, WithLeaf(spaces[t], v, e), owner');
    LeafSpaces(pt, spaces, owner, owner', t, v, e);
    var spaces' := SetLeaf(spaces, t, v, e);
    if e.page in owner {
      assert Backed(spaces, e.page, owner[e.page]);
    }
    BackedStep(spaces, spaces', owner, owner', t, e.page);
  }

  /** The owners once space t no longer maps page v: its user page is o's. */
  function Taken(spaces: Spaces, owner: Owners, t: nat, v: nat, o: Owner): Owners
    requires t in spaces && v in spaces[t].leaves
  {
    if v < USERTOP then owner[spaces[t].leaves[v].page := o] else owner
  }

  lemma UnmapInv(free: seq<nat>, free': seq<nat>, pt: Tables, spaces: Spaces, owner: Owners, t: nat, v: nat, o: Owner)
    requires Inv(free, pt, spaces, owner) && t in spaces && v in spaces[t].leaves && (o.Free? || o.Held?)
    requires NodeFor(0, v) in spaces[t].tables && IsTable(pt, spaces[t].tables[NodeFor(0, v)])
    requires Pool(free', Taken(spaces, owner, t, v, o))
    ensures Inv(free', Put(pt, spaces[t].tables[NodeFor(0, v)], v % 512, ZERO),
                SetLeaf(spaces, t, v, ZERO), Taken(spaces, owner, t, v, o))
  {
    var owner', p := Taken(spaces, owner, t, v, o), spaces[t].leaves[v].page;
    assert SpaceOk(pt, owner, t, spaces[t]);
    assert Owned(t, WithLeaf(spaces[t], v, ZERO), owner');
    LeafSpaces(pt, spaces, owner, owner', t, v, ZERO);
    if p in owner {
      assert Backed(spaces, p, owner[p]);
    }
    BackedStep(spaces, SetLeaf(spaces, t, v, ZERO), owner, owner', t, p);
  }

  const BARE := Space(map[], map[])

  /** uvmcreate: a held page becomes the root of an empty space. */
  lemma RootInv(free: seq<nat>, pt: Tables, spaces: Spaces, owner: Owners, p: nat)
    requires Inv(free, pt, spaces, owner) && p in owner && owner[p] == Held
    ensures p !in spaces
    ensures Inv(free, pt[p := Zeroes()], spaces[p := WithTable(BARE, ROOT, p)], owner[p := TableOf(p, ROOT)])
  {
    if p in spaces {
      assert SpaceOk(pt, owner, p, spaces[p]);
    }
    var pt', spaces', owner' := pt[p := Zeroes()], spaces[p := WithTable(BARE, ROOT, p)], owner[p := TableOf(p, ROOT)];
    forall s | s in spaces'
      ensures SpaceOk(pt', owner', s, spaces'[s])
    {
      if s != p {
        assert SpaceOk(pt, owner, s, spaces[s]);
        OtherSpace(pt, pt', owner, owner', s, spaces[s]);
      }
    }
    forall q | q in owner'
      ensures Backed(spaces', q, owner'[q])
    {
      if q != p {
        assert Backed(spaces, q, owner[q]);
      }
    }
  }

  /** The owners once every table of space t is free. */
  function Dropped(owner: Owners, t: nat): Owners {
    map p | p in owner :: if owner[p].TableOf? && owner[p].root == t then Free else owner[p]
  }

  /** freewalk: a space without leaves gives back all its tables. */
  lemma DropInv(free: seq<nat>, free': seq<nat>, pt: Tables, pt': Tables, spaces: Spaces, owner: Owners, t: nat)
    requires Inv(free, pt, spaces, owner) && t in spaces && spaces[t].leaves == map[]
    requires Pool(free', Dropped(owner, t))
    requires forall p :: p in pt && !(p in owner && owner[p].TableOf? && owner[p].root == t) ==>
               p in pt' && pt'[p] == pt[p]
    ensures Inv(free', pt', spaces - {t}, Dropped(owner, t))
  {
    var spaces', owner' := spaces - {t}, Dropped(owner, t);
    forall s | s in spaces'
      ensures SpaceOk(pt', owner', s, spaces'[s])
    {
      assert SpaceOk(pt, owner, s, spaces[s]);
      OtherSpace(pt, pt', owner, owner', s, spaces[s]);
    }
    forall q | q in owner'
      ensures Backed(spaces', q, owner'[q])
    {
      assert Backed(spaces, q, owner[q]);
    }
  }
}
