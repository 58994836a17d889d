/** The blocks `alloc` has handed out and `dealloc` has not yet taken back, next
    to the free list of src/allocator.rs.

    A live block is its used header's address and `size`.  The caller's side of
    the `GlobalAlloc` contract is that `dealloc` receives only such a block; the
    predicate `BlocksOk` says that live blocks sit above the list's head, inside
    the address space, and overlap neither a free segment nor each other.  Both
    `alloc` and `dealloc` keep it, so the `assert!` of the insertion scan never
    fires, however the blocks are freed. */
module LiveBlocks {
  import opened Wrappers
  import opened Segments
  import opened FreeList

  /** No two live blocks overlap. */
  ghost predicate BlocksApart(live: map<int, nat>)
  {
    forall h, g :: h in live && g in live && h != g ==> Disjoint(Node(h, live[h]), g, live[g])
  }

  ghost predicate BlocksOk(list: seq<Node>, live: map<int, nat>)
  {
    && (forall h :: h in live ==>
          && list != [] && list[0].addr < h
          && FreeEnd(h, live[h]) < AddressSpace
          && Apart(list, h, live[h]))
    && BlocksApart(live)
  }

  /** A live header is not the header of a free segment. */
  lemma LiveIsNotNode(list: seq<Node>, live: map<int, nat>, g: int)
    requires BlocksOk(list, live) && g in live
    ensures forall j :: 0 <= j < |list| ==> list[j].addr != g
  {
    forall j | 0 <= j < |list| ensures list[j].addr != g {
      assert Disjoint(list[j], g, live[g]);
    }
  }

  /** `alloc` keeps the live blocks apart: the carved block is new, lies inside the
      segment it came from, and so overlaps no other live block and no free
      segment left behind. */
  lemma AllocKeepsBlocks(list: seq<Node>, layout: Layout, live: map<int, nat>)
    requires ValidLayout(layout) && WellFormed(list) && AllocNoWrap(list, layout)
    requires BlocksOk(list, live)
    ensures var c := AllocList(list, layout).value;
            && c.header !in live
            && BlocksOk(c.list, live[c.header := c.usedSize])
  {
    var c := AllocList(list, layout).value;
    AllocIsFirstFit(list, layout);
    AllocCarvesTop(list, layout);
    AllocBlockIsDisjoint(list, layout);
    CarveKeepsBlocks(list, c.list, c.index, Node(c.header, c.usedSize), live);
  }

  /** Shrinking segment `i` in place and handing out a block inside the bytes it
      gave up keeps the live blocks apart. */
  lemma CarveKeepsBlocks(list: seq<Node>, l: seq<Node>, i: nat, block: Node, live: map<int, nat>)
    requires BlocksOk(list, live) && |l| == |list| && i < |list|
    requires forall j :: 0 <= j < |list| && j != i ==> l[j] == list[j]
    requires l[i].addr == list[i].addr && End(l[i]) <= End(list[i])
    requires WellFormed(list) && list[i].addr < block.addr && End(block) <= End(list[i])
    requires Apart(l, block.addr, block.size)
    ensures block.addr !in live
    ensures BlocksOk(l, live[block.addr := block.size])
  {
    var live' := live[block.addr := block.size];
    forall g | g in live
      ensures g != block.addr
      ensures Disjoint(block, g, live[g]) && Disjoint(Node(g, live[g]), block.addr, block.size)
      ensures Apart(l, g, live[g])
    {
      assert Disjoint(list[i], g, live[g]);
      forall j | 0 <= j < |l| ensures Disjoint(l[j], g, live[g]) {
        assert Disjoint(list[j], g, live[g]);
      }
    }
    assert l[0].addr == list[0].addr;
    assert list[0].addr <= list[i].addr by {
      if i > 0 {
        assert End(list[0]) < list[i].addr;
      }
    }
    assert BlocksApart(live');
  }

  /** A block apart from the free list and from the freed block is apart from the
      list `dealloc` leaves. */
  lemma InsertKeepsApart(list: seq<Node>, h: int, size: nat, g: int, gsize: nat)
    requires WellFormed(list) && InsertList(list, h, size).Ok?
    requires Apart(list, g, gsize) && Disjoint(Node(h, size), g, gsize)
    ensures Apart(InsertList(list, h, size).value, g, gsize)
  {
    InsertListAgrees(list, h, size);
    var k := ScanFrom(list, h, 0).value;
    var succ := list[k + 1..];
    var s := SpliceMerge(list[k], Node(h, size), succ);
    assert Apart(succ, g, gsize) by {
      forall j | 0 <= j < |succ| ensures Disjoint(succ[j], g, gsize) {
        assert succ[j] == list[k + 1 + j];
      }
    }
    assert Disjoint(list[k], g, gsize);
    SpliceMergeApart(list[k], Node(h, size), succ, g, gsize);
    var t := list[..k] + s;
    forall j | 0 <= j < |t| ensures Disjoint(t[j], g, gsize) {
      if j < k {
        assert t[j] == list[j];
      } else {
        assert t[j] == s[j - k];
      }
    }
  }

  /** `dealloc` of a live block succeeds, keeps the free list well formed, and keeps
      every other live block apart: neither the `assert!` of the scan nor its
      final `panic!` is reached. */
  lemma InsertKeepsBlocks(list: seq<Node>, h: int, live: map<int, nat>)
    requires WellFormed(list) && BlocksOk(list, live) && h in live
    ensures InsertList(list, h, live[h]).Ok?
    ensures var l := InsertList(list, h, live[h]).value;
            && WellFormed(l)
            && BlocksOk(l, live - {h})
            && l[0].addr == list[0].addr
  {
    var size := live[h];
    LiveIsNotNode(list, live, h);
    InsertPanics(list, h, size);
    assert InsertList(list, h, size).Ok?;
    InsertKeepsWellFormed(list, h, size);
    var l := InsertList(list, h, size).value;
    var live' := live - {h};
    forall g | g in live' ensures Apart(l, g, live'[g]) {
      InsertKeepsApart(list, h, size, g, live[g]);
    }
  }
}
