/** The kernel heap of src/allocator.rs: the `Allocator` object, its `init`, and the
    `GlobalAlloc` entry points `alloc` and `dealloc`.

    Memory is an arena of headers: `headers` maps an address to the eight bytes
    stored there, read as a `FreeSegment` or a `UsedSegment`.  Only header bytes
    are recorded; payload bytes are not part of the model.  The free list is the
    chain of `next_segment` pointers from `firstFree`; the ghost sequence `nodes`
    names its node addresses in list order, and `FreeList()` reads the chain as
    the value the operations in free_list.dfy are stated on. */
module Heap {
  import opened Wrappers
  import opened Segments
  import opened FreeList
  import opened LiveBlocks

  const Mib: nat := 1024 * 1024
  const U64Modulus: nat := 0x1_0000_0000_0000_0000

  /** One `MultibootMmapEntry` as `init` uses it: a region's `u64` base and length. */
  datatype MmapEntry = MmapEntry(addr: nat, len: nat)

  /** `iter().find(|entry| entry.addr == base)`: the first entry based at `base`. */
  function FindEntry(memoryMap: seq<MmapEntry>, base: int): (r: Option<nat>)
    ensures r.Some? ==> r.value < |memoryMap| && memoryMap[r.value].addr == base
    ensures r.Some? ==> forall j :: 0 <= j < r.value ==> memoryMap[j].addr != base
    ensures r.None? ==> forall j :: 0 <= j < |memoryMap| ==> memoryMap[j].addr != base
  {
    if memoryMap == [] then None
    else if memoryMap[0].addr == base then Some(0)
    else match FindEntry(memoryMap[1..], base)
      case None => None
      case Some(i) => Some(i + 1)
  }

  /** The stored `size` of the header at `a`, or 0 when nothing is known there. */
  function SizeIn(headers: map<int, Header>, a: int): nat
  {
    if a in headers then headers[a].size else 0
  }

  /** The successor pointer the node at position `i` must hold. */
  function NextOf(nodes: seq<int>, i: nat): int
    requires i < |nodes|
  {
    if i + 1 < |nodes| then nodes[i + 1] else Null
  }

  /** The free list read from memory along the given node addresses. */
  function ListOf(nodes: seq<int>, headers: map<int, Header>): seq<Node>
  {
    seq(|nodes|, i requires 0 <= i < |nodes| => Node(nodes[i], SizeIn(headers, nodes[i])))
  }

  /** Rewriting a header that is not a node leaves the list unchanged. */
  lemma ListOfOther(nodes: seq<int>, headers: map<int, Header>, a: int, hd: Header)
    requires forall i :: 0 <= i < |nodes| ==> nodes[i] != a
    ensures ListOf(nodes, headers[a := hd]) == ListOf(nodes, headers)
  {
  }

  ghost predicate Ascending(nodes: seq<int>)
  {
    forall i, j :: 0 <= i < j < |nodes| ==> nodes[i] < nodes[j]
  }

  /** Position `i` of the chain: a non-null address holding a free header whose
      `next_segment` is the following node, or `Null` at the end. */
  ghost predicate LinkAt(nodes: seq<int>, headers: map<int, Header>, i: int)
  {
    && 0 <= i < |nodes|
    && Null < nodes[i]
    && nodes[i] in headers && headers[nodes[i]].Free?
    && headers[nodes[i]].next == NextOf(nodes, i)
  }

  /** `first` and the `next_segment` pointers form a null-terminated chain through
      `nodes`, at ascending non-null addresses, each holding a free header. */
  ghost predicate Chain(first: int, nodes: seq<int>, headers: map<int, Header>)
  {
    && first == (if nodes == [] then Null else nodes[0])
    && Ascending(nodes)
    && (forall i :: 0 <= i < |nodes| ==> LinkAt(nodes, headers, i))
  }

  /** Rewriting a header that is not a node keeps the chain and the list. */
  lemma ChainOther(first: int, nodes: seq<int>, headers: map<int, Header>, a: int, hd: Header)
    requires Chain(first, nodes, headers)
    requires forall i :: 0 <= i < |nodes| ==> nodes[i] != a
    ensures Chain(first, nodes, headers[a := hd])
    ensures ListOf(nodes, headers[a := hd]) == ListOf(nodes, headers)
  {
    var headers' := headers[a := hd];
    forall i | 0 <= i < |nodes| ensures LinkAt(nodes, headers', i) {
      assert LinkAt(nodes, headers, i);
    }
    ListOfOther(nodes, headers, a, hd);
  }

  /** The facts the chain holds about node `j` and its successor. */
  lemma NodeFacts(first: int, nodes: seq<int>, headers: map<int, Header>, j: nat)
    requires Chain(first, nodes, headers) && j < |nodes|
    ensures Null < nodes[j] && nodes[j] in headers && headers[nodes[j]].Free?
    ensures headers[nodes[j]].next == NextOf(nodes, j)
    ensures j + 1 < |nodes| ==> nodes[j] < nodes[j + 1] && nodes[j + 1] in headers && headers[nodes[j + 1]].Free?
  {
    assert LinkAt(nodes, headers, j);
    if j + 1 < |nodes| {
      assert LinkAt(nodes, headers, j + 1);
    }
  }

  /** Shrinking node `i` and writing a used header outside the chain keeps the chain
      and changes only node `i` of the list. */
  lemma CarveStep(first: int, nodes: seq<int>, headers: map<int, Header>, i: nat, freeSize: nat, header: int, usedSize: nat)
    requires Chain(first, nodes, headers) && i < |nodes|
    requires forall j :: 0 <= j < |nodes| ==> nodes[j] != header
    ensures var a := nodes[i];
            var headers' := headers[a := Free(freeSize, NextOf(nodes, i))][header := Used(usedSize)];
            && Chain(first, nodes, headers')
            && ListOf(nodes, headers') == ListOf(nodes, headers)[i := Node(a, freeSize)]
  {
    NodeFacts(first, nodes, headers, i);
    var a := nodes[i];
    var headers' := headers[a := Free(freeSize, NextOf(nodes, i))][header := Used(usedSize)];
    forall j | 0 <= j < |nodes| ensures LinkAt(nodes, headers', j) {
      assert LinkAt(nodes, headers, j);
      if j < i {
        assert nodes[j] < nodes[i];
      } else if j > i {
        assert nodes[i] < nodes[j];
      }
    }
    var list := ListOf(nodes, headers);
    forall j | 0 <= j < |nodes| ensures ListOf(nodes, headers')[j] == list[i := Node(a, freeSize)][j] {
      if j < i {
        assert nodes[j] < nodes[i];
      } else if j > i {
        assert nodes[i] < nodes[j];
      }
    }
  }

  /** The node addresses after splicing `h` in after position `k`. */
  lemma SpliceNodes(nodes: seq<int>, k: nat, h: int)
    requires Ascending(nodes) && k < |nodes|
    requires nodes[k] < h && (k + 1 < |nodes| ==> h < nodes[k + 1])
    ensures var nodes' := nodes[..k + 1] + [h] + nodes[k + 1..];
            && |nodes'| == |nodes| + 1
            && (forall i :: 0 <= i <= k ==> nodes'[i] == nodes[i])
            && nodes'[k + 1] == h
            && (forall i :: k + 1 < i < |nodes'| ==> nodes'[i] == nodes[i - 1])
            && Ascending(nodes')
  {
    var nodes' := nodes[..k + 1] + [h] + nodes[k + 1..];
    forall i, j | 0 <= i < j < |nodes'| ensures nodes'[i] < nodes'[j] {
      if j > k + 1 && i <= k {
        assert nodes[i] <= nodes[k];
      }
      if j > k + 2 && i == k + 1 {
        assert nodes[k + 1] <= nodes[j - 1];
      }
    }
  }

  /** The memory of a carve that stays inside its segment: node `k` is shrunk to end
      at `header`, and the used block from `header` runs to the segment's old end.
      The chain is kept, the list changes only at node `k` and stays well formed,
      and live blocks stay apart and under their used headers, the new one
      included. */
  lemma CarveMemory(first: int, nodes: seq<int>, headers: map<int, Header>, live: map<int, nat>,
                    k: nat, header: int, freeSize: nat, usedSize: nat)
    requires Chain(first, nodes, headers) && WellFormed(ListOf(nodes, headers)) && k < |nodes|
    requires FreeEnd(nodes[k], freeSize) == header
    requires UsedStart(header) + usedSize == End(ListOf(nodes, headers)[k])
    ensures var headers' := headers[nodes[k] := Free(freeSize, NextOf(nodes, k))][header := Used(usedSize)];
            var l := ListOf(nodes, headers)[k := Node(nodes[k], freeSize)];
            && Chain(first, nodes, headers')
            && ListOf(nodes, headers') == l
            && WellFormed(l)
            && (BlocksOk(ListOf(nodes, headers), live) && UsedAt(headers, live) ==>
                  BlocksOk(l, live[header := usedSize]) && UsedAt(headers', live[header := usedSize]))
  {
    var list := ListOf(nodes, headers);
    var l := list[k := Node(nodes[k], freeSize)];
    assert l[k] == Node(list[k].addr, freeSize);
    ShrinkKeepsWellFormed(list, l, k);
    assert Apart(l, header, usedSize) by {
      forall j | 0 <= j < |l| ensures Disjoint(l[j], header, usedSize) {
        if j < k {
          assert End(list[j]) < list[k].addr;
        } else if j > k {
          assert End(list[k]) < list[j].addr;
        }
      }
    }
    forall j | 0 <= j < |nodes| ensures nodes[j] != header {
      assert Disjoint(l[j], header, usedSize);
    }
    CarveStep(first, nodes, headers, k, freeSize, header, usedSize);
    if BlocksOk(list, live) && UsedAt(headers, live) {
      CarveKeepsBlocks(list, l, k, Node(header, usedSize), live);
      forall g | g in live && g != header ensures g != nodes[k] {
        LiveIsNotNode(list, live, g);
        assert list[k].addr == nodes[k];
      }
    }
  }

  /** Splicing the free header at `h` in after node `k` keeps the chain, and the list
      gains `h` at position `k + 1`. */
  lemma SpliceStep(first: int, nodes: seq<int>, headers: map<int, Header>, k: nat, h: int)
    requires Chain(first, nodes, headers) && k < |nodes|
    requires nodes[k] < h && (k + 1 < |nodes| ==> h < nodes[k + 1])
    requires h in headers && headers[h].Free?
    ensures nodes[k] in headers && headers[nodes[k]].Free?
    ensures var a, next := nodes[k], NextOf(nodes, k);
            var headers' := headers[a := Free(headers[a].size, h)][h := Free(headers[h].size, next)];
            var nodes' := nodes[..k + 1] + [h] + nodes[k + 1..];
            var list := ListOf(nodes, headers);
            && Chain(first, nodes', headers')
            && ListOf(nodes', headers') == list[..k + 1] + [Node(h, headers[h].size)] + list[k + 1..]
  {
    NodeFacts(first, nodes, headers, k);
    var a, next := nodes[k], NextOf(nodes, k);
    var headers' := headers[a := Free(headers[a].size, h)][h := Free(headers[h].size, next)];
    var nodes' := nodes[..k + 1] + [h] + nodes[k + 1..];
    SpliceNodes(nodes, k, h);
    SpliceLinks(first, nodes, headers, k, h);
    // Only `next` pointers changed: every stored size is as before.
    forall x ensures SizeIn(headers', x) == SizeIn(headers, x) {
    }
    var list := ListOf(nodes, headers);
    var spliced := list[..k + 1] + [Node(h, headers[h].size)] + list[k + 1..];
    forall i | 0 <= i < |nodes'| ensures ListOf(nodes', headers')[i] == spliced[i] {
      if i <= k {
        assert spliced[i] == list[i];
      } else if i > k + 1 {
        assert spliced[i] == list[i - 1];
      }
    }
  }

  lemma SpliceLinks(first: int, nodes: seq<int>, headers: map<int, Header>, k: nat, h: int)
    requires Chain(first, nodes, headers) && k < |nodes|
    requires nodes[k] < h && (k + 1 < |nodes| ==> h < nodes[k + 1])
    requires h in headers && headers[h].Free?
    requires nodes[k] in headers && headers[nodes[k]].Free?
    ensures var a, next := nodes[k], NextOf(nodes, k);
            var headers' := headers[a := Free(headers[a].size, h)][h := Free(headers[h].size, next)];
            Chain(first, nodes[..k + 1] + [h] + nodes[k + 1..], headers')
  {
    var a, next := nodes[k], NextOf(nodes, k);
    var headers' := headers[a := Free(headers[a].size, h)][h := Free(headers[h].size, next)];
    var nodes' := nodes[..k + 1] + [h] + nodes[k + 1..];
    SpliceNodes(nodes, k, h);
    assert LinkAt(nodes, headers, k);
    forall i | 0 <= i < |nodes'| ensures LinkAt(nodes', headers', i) {
      if i < k {
        assert LinkAt(nodes, headers, i);
        assert nodes'[i] < nodes'[k] < nodes'[k + 1];
      } else if i > k + 1 {
        assert LinkAt(nodes, headers, i - 1);
        assert nodes'[k] < nodes'[k + 1] < nodes'[i];
      }
    }
  }

  /** The node addresses after removing position `j + 1`. */
  lemma RemoveNode(nodes: seq<int>, j: nat)
    requires Ascending(nodes) && j + 1 < |nodes|
    ensures var nodes' := nodes[..j + 1] + nodes[j + 2..];
            && |nodes'| == |nodes| - 1
            && (forall i :: 0 <= i <= j ==> nodes'[i] == nodes[i])
            && (forall i :: j < i < |nodes'| ==> nodes'[i] == nodes[i + 1])
            && Ascending(nodes')
  {
    var nodes' := nodes[..j + 1] + nodes[j + 2..];
    forall i, i' | 0 <= i < i' < |nodes'| ensures nodes'[i] < nodes'[i'] {
      if i <= j < i' {
        assert nodes[i] < nodes[i' + 1];
      }
    }
  }

  /** When node `j` ends exactly at node `j + 1`, absorbing it keeps the chain, and the
      list is `MergeAt` of the old list. */
  lemma MergeStep(first: int, nodes: seq<int>, headers: map<int, Header>, j: nat)
    requires Chain(first, nodes, headers) && j + 1 < |nodes|
    requires nodes[j] in headers && nodes[j + 1] in headers && headers[nodes[j + 1]].Free?
    requires FreeEnd(nodes[j], headers[nodes[j]].size) == nodes[j + 1]
    ensures var a, b := nodes[j], nodes[j + 1];
            var headers' := headers[a := Free(headers[a].size + FreeSegmentSize + headers[b].size, headers[b].next)];
            var nodes' := nodes[..j + 1] + nodes[j + 2..];
            && Chain(first, nodes', headers')
            && ListOf(nodes', headers') == MergeAt(ListOf(nodes, headers), j)
  {
    MergeLinks(first, nodes, headers, j);
    MergeList(nodes, headers, j);
  }

  lemma MergeList(nodes: seq<int>, headers: map<int, Header>, j: nat)
    requires Ascending(nodes) && j + 1 < |nodes|
    requires nodes[j] in headers && nodes[j + 1] in headers && headers[nodes[j + 1]].Free?
    requires FreeEnd(nodes[j], headers[nodes[j]].size) == nodes[j + 1]
    ensures var a, b := nodes[j], nodes[j + 1];
            var headers' := headers[a := Free(headers[a].size + FreeSegmentSize + headers[b].size, headers[b].next)];
            ListOf(nodes[..j + 1] + nodes[j + 2..], headers') == MergeAt(ListOf(nodes, headers), j)
  {
    var a, b := nodes[j], nodes[j + 1];
    var headers' := headers[a := Free(headers[a].size + FreeSegmentSize + headers[b].size, headers[b].next)];
    var nodes' := nodes[..j + 1] + nodes[j + 2..];
    RemoveNode(nodes, j);
    var list := ListOf(nodes, headers);
    var merged := MergeIfAdjacent(list[j], list[j + 1]);
    assert merged.Some?;
    var result := list[..j] + [merged.value] + list[j + 2..];
    forall i | 0 <= i < |nodes'| ensures ListOf(nodes', headers')[i] == result[i] {
      if i < j {
        assert result[i] == list[i];
        assert nodes[i] < nodes[j];
        assert SizeIn(headers', nodes[i]) == SizeIn(headers, nodes[i]);
      } else if i > j {
        assert |list[..j] + [merged.value]| == j + 1;
        assert result[i] == list[j + 2..][i - (j + 1)];
        assert nodes[j] < nodes[i + 1];
        assert SizeIn(headers', nodes[i + 1]) == SizeIn(headers, nodes[i + 1]);
      } else {
        assert result[i] == merged.value;
      }
    }
  }

  lemma MergeLinks(first: int, nodes: seq<int>, headers: map<int, Header>, j: nat)
    requires Chain(first, nodes, headers) && j + 1 < |nodes|
    requires nodes[j] in headers && nodes[j + 1] in headers && headers[nodes[j + 1]].Free?
    ensures var a, b := nodes[j], nodes[j + 1];
            var headers' := headers[a := Free(headers[a].size + FreeSegmentSize + headers[b].size, headers[b].next)];
            Chain(first, nodes[..j + 1] + nodes[j + 2..], headers')
  {
    var a, b := nodes[j], nodes[j + 1];
    var headers' := headers[a := Free(headers[a].size + FreeSegmentSize + headers[b].size, headers[b].next)];
    var nodes' := nodes[..j + 1] + nodes[j + 2..];
    RemoveNode(nodes, j);
    forall i | 0 <= i < |nodes'| ensures LinkAt(nodes', headers', i) {
      if i < j {
        assert LinkAt(nodes, headers, i);
        assert nodes'[i] < nodes'[j];
      } else if i > j {
        assert LinkAt(nodes, headers, i + 1);
        assert nodes'[j] < nodes'[i];
      } else {
        assert LinkAt(nodes, headers, j);
        assert LinkAt(nodes, headers, j + 1);
      }
    }
  }

  /** `merge_if_adjacent(a, b)` on the header arena, as written.  The `usize` sum
      `size + 8` may overflow; the wrapping pointer `add` is compared with `b`, null
      included; on a match `b`'s header is read, through the null pointer when `b` is
      null, and the `usize` sum of the two sizes may overflow.  A merge absorbs `b`'s
      header and payload into `a` and takes over `b`'s successor; no other header
      changes.  Between segments of the address space it cannot panic. */
  function MergeHeaders(headers: map<int, Header>, a: int, b: int): (r: Result<map<int, Header>>)
    requires a in headers && headers[a].Free?
    requires b != Null ==> b in headers && headers[b].Free?
    ensures r.Panic? ==> r.reason == ArithmeticOverflow || r.reason == NullDereference
    ensures headers[a].size + FreeSegmentSize >= AddressSpace ==> r == Panic(ArithmeticOverflow)
    ensures r.Ok? ==> r.value.Keys == headers.Keys && r.value[a].Free? && r.value[a].size < AddressSpace
    ensures r.Ok? ==> forall x :: x in headers && x != a ==> r.value[x] == headers[x]
    ensures r.Ok? && Wrap(FreeEnd(a, headers[a].size)) == b ==>
              && b != Null
              && r.value[a].size == headers[a].size + FreeSegmentSize + headers[b].size
              && r.value[a].next == headers[b].next
    ensures r.Ok? && Wrap(FreeEnd(a, headers[a].size)) != b ==> r.value == headers
    ensures (0 <= a && FreeEnd(a, headers[a].size) < AddressSpace &&
             (b != Null ==> FreeEnd(b, headers[b].size) < AddressSpace)) ==> r.Ok?
  {
    var size := headers[a].size;
    if size + FreeSegmentSize >= AddressSpace then Panic(ArithmeticOverflow)
    else if Wrap(FreeEnd(a, size)) != b then Ok(headers)
    else if b == Null then Panic(NullDereference)
    else if size + FreeSegmentSize + headers[b].size >= AddressSpace then Panic(ArithmeticOverflow)
    else Ok(headers[a := Free(size + FreeSegmentSize + headers[b].size, headers[b].next)])
  }

  /** The merge on the header arena and the merge on values make the same checks and
      fail with the same reason. */
  lemma MergeHeadersChecked(headers: map<int, Header>, a: int, b: int, n: Node, m: Option<Node>)
    requires a in headers && headers[a].Free? && (b != Null ==> b in headers && headers[b].Free?)
    requires n == Node(a, headers[a].size) && (m.None? <==> b == Null)
    requires m.Some? ==> m.value == Node(b, headers[b].size)
    ensures MergeHeaders(headers, a, b).Panic? <==> MergeChecked(n, m).Panic?
    ensures MergeHeaders(headers, a, b).Panic? ==> MergeHeaders(headers, a, b).reason == MergeChecked(n, m).reason
  {
  }

  /** Three writes, at `it` and `h`, then at `h`, then at `it`, leave every other
      header as it was. */
  lemma ComposeFrames(headers0: map<int, Header>, spliced: map<int, Header>, merged: map<int, Header>,
                      headers: map<int, Header>, it: int, h: int)
    requires forall a :: a in headers0 && a != it && a != h ==> a in spliced && spliced[a] == headers0[a]
    requires forall a :: a in spliced && a != h ==> a in merged && merged[a] == spliced[a]
    requires forall a :: a in merged && a != it ==> a in headers && headers[a] == merged[a]
    ensures forall a :: a in headers0 && a != it && a != h ==> a in headers && headers[a] == headers0[a]
  {
  }

  /** The list's node addresses after the merge at position `j`. */
  function MergeNodes(nodes: seq<int>, headers: map<int, Header>, j: nat): seq<int>
    requires j < |nodes| && nodes[j] in headers
  {
    if j + 1 < |nodes| && FreeEnd(nodes[j], headers[nodes[j]].size) == nodes[j + 1]
    then nodes[..j + 1] + nodes[j + 2..]
    else nodes
  }

  /** The merge of node `j` with its successor in exact arithmetic keeps the chain and
      the nodes up to `j`, and acts on the list as `MergeAt`. */
  lemma MergeEffect(first: int, nodes: seq<int>, headers: map<int, Header>, j: nat)
    requires Chain(first, nodes, headers) && j < |nodes|
    ensures var a, b := nodes[j], NextOf(nodes, j);
            && a > Null && a in headers && headers[a].Free?
            && (FreeEnd(a, headers[a].size) == b ==> j + 1 < |nodes| && b in headers && headers[b].Free?)
            && var headers' := if FreeEnd(a, headers[a].size) == b
                               then headers[a := Free(headers[a].size + FreeSegmentSize + headers[b].size, headers[b].next)]
                               else headers;
               var nodes' := MergeNodes(nodes, headers, j);
               && Chain(first, nodes', headers')
               && ListOf(nodes', headers') == MergeAt(ListOf(nodes, headers), j)
               && j < |nodes'| && (forall i :: 0 <= i <= j ==> nodes'[i] == nodes[i])
  {
    NodeFacts(first, nodes, headers, j);
    var a, b := nodes[j], NextOf(nodes, j);
    if j + 1 < |nodes| && FreeEnd(a, headers[a].size) == b {
      MergeStep(first, nodes, headers, j);
      RemoveNode(nodes, j);
    } else {
      NoMerge(nodes, headers, j);
    }
  }

  lemma NoMerge(nodes: seq<int>, headers: map<int, Header>, j: nat)
    requires j < |nodes| && nodes[j] in headers
    requires FreeEnd(nodes[j], headers[nodes[j]].size) != NextOf(nodes, j)
    ensures MergeAt(ListOf(nodes, headers), j) == ListOf(nodes, headers)
  {
  }

  class Allocator {
    /** `first_free`: the head of the free list, or `Null`. */
    var firstFree: int
    /** The header bytes of the heap arena, by address. */
    var headers: map<int, Header>
    /** The free-list node addresses, in list order. */
    ghost var nodes: seq<int>
    /** The blocks handed out by `alloc` and not yet freed: used header to size. */
    ghost var live: map<int, nat>

    /** `firstFree` and the `next_segment` pointers form a null-terminated chain
        through `nodes`, at ascending addresses, each holding a free header. */
    ghost predicate Linked()
      reads this
    {
      Chain(firstFree, nodes, headers)
    }

    ghost function FreeList(): seq<Node>
      reads this
    {
      ListOf(nodes, headers)
    }

    /** The free-list invariant: a linked chain whose segments are separated and lie
        in the address space. */
    ghost predicate ListValid()
      reads this
    {
      Linked() && WellFormed(FreeList())
    }

    ghost predicate LiveHeaders()
      reads this
    {
      UsedAt(headers, live)
    }

    /** The allocator invariant: the free-list invariant, and live blocks that overlap
        neither the free segments nor each other. */
    ghost predicate Valid()
      reads this
    {
      ListValid() && BlocksOk(FreeList(), live) && LiveHeaders()
    }

    /** `Allocator::new`: the head is null, so the free list is empty. */
    constructor ()
      ensures Valid() && firstFree == Null && FreeList() == [] && live == map[]
    {
      firstFree := Null;
      headers := map[];
      nodes := [];
      live := map[];
    }

    /** `Allocator::init`: find the memory-map entry that starts 1 MiB below the
        kernel, and make everything from `kernelEnd` to the end of that entry a single
        free segment with no successor.  The `u64` subtraction in the search runs
        once per entry, so it panics only on a non-empty map; each other subtraction
        that would underflow panics too, and the `as usize` cast keeps the low 32
        bits.  The segment is inside the address space exactly when it ends below
        2^32. */
    method Init(memoryMap: seq<MmapEntry>, kernelStart: nat, kernelEnd: nat) returns (r: Result<()>)
      requires kernelStart <= kernelEnd < AddressSpace
      requires forall i :: 0 <= i < |memoryMap| ==> memoryMap[i].addr < U64Modulus && memoryMap[i].len < U64Modulus
      modifies this
      ensures memoryMap == [] ==> r == Panic(NoMemoryRegion)
      ensures memoryMap != [] && kernelStart < Mib ==> r == Panic(ArithmeticOverflow)
      ensures kernelStart >= Mib && FindEntry(memoryMap, kernelStart - Mib).None? ==> r == Panic(NoMemoryRegion)
      ensures kernelStart >= Mib && FindEntry(memoryMap, kernelStart - Mib).Some? ==>
                var e := memoryMap[FindEntry(memoryMap, kernelStart - Mib).value];
                var reserved := kernelEnd - e.addr;
                var remaining := Wrap(e.len - reserved);
                && (r.Ok? <==> e.len >= reserved && remaining >= FreeSegmentSize)
                && (r.Panic? ==> r.reason == ArithmeticOverflow)
                && (r.Ok? ==>
                      && firstFree == kernelEnd && nodes == [kernelEnd] && live == map[]
                      && headers == old(headers)[kernelEnd := Free(remaining - FreeSegmentSize, Null)]
                      && Linked() && End(FreeList()[0]) == kernelEnd + remaining
                      && (Valid() <==> kernelEnd + remaining < AddressSpace))
                && (r.Ok? && e.len - reserved < AddressSpace ==> End(FreeList()[0]) == e.addr + e.len)
      ensures r.Panic? ==> unchanged(this)
    {
      HeaderSizesAgree();
      if memoryMap == [] {
        return Panic(NoMemoryRegion);
      }
      if kernelStart < Mib {
        return Panic(ArithmeticOverflow);
      }
      var found := FindEntry(memoryMap, kernelStart - Mib);
      if found.None? {
        return Panic(NoMemoryRegion);
      }
      var entry := memoryMap[found.value];
      var reserved := kernelEnd - entry.addr;
      if entry.len < reserved {
        return Panic(ArithmeticOverflow);
      }
      var remaining := Wrap(entry.len - reserved);
      if remaining < FreeSegmentSize {
        return Panic(ArithmeticOverflow);
      }
      headers := headers[kernelEnd := Free(remaining - FreeSegmentSize, Null)];
      firstFree := kernelEnd;
      nodes := [kernelEnd];
      live := map[];
      assert LinkAt(nodes, headers, 0);
      return Ok(());
    }

    /** `GlobalAlloc::alloc`: walk the list, carve the block from the top of the first
        segment `get_header_ptr` accepts, and return its payload address.  The outcome
        is that of `AllocList`.  Memory changes only at the shrunk node and at the new
        used header; when the second `update_size` panics, the node has already been
        shrunk.  Without a wrap the free list becomes `AllocList`'s and the invariants
        are kept. */
    method Alloc(layout: Layout) returns (r: Result<int>)
      requires ListValid() && ValidLayout(layout)
      modifies this
      ensures nodes == old(nodes) && firstFree == old(firstFree)
      ensures var spec := AllocList(old(FreeList()), layout);
              && (spec.Panic? ==> r == Panic(spec.reason) && live == old(live))
              && (spec == Panic(AllocFailed) ==> unchanged(this))
      ensures var list := old(FreeList());
              r.Panic? && FirstFitFrom(list, layout, 0).Some? ==>
                var k := FirstFitFrom(list, layout, 0).value;
                var free := UpdatedFreeSize(list[k].addr, HeaderPtr(list[k], layout).value);
                headers == if free.Panic? then old(headers)
                           else old(headers)[old(nodes)[k] := Free(free.value, NextOf(old(nodes), k))]
      ensures var spec := AllocList(old(FreeList()), layout);
              spec.Ok? ==>
                var c := spec.value;
                && r == Ok(c.ptr)
                && headers == old(headers)[old(nodes)[c.index] := Free(c.list[c.index].size, NextOf(old(nodes), c.index))]
                                          [c.header := Used(c.usedSize)]
                && live == old(live)[c.header := c.usedSize]
      ensures AllocNoWrap(old(FreeList()), layout) ==>
                ListValid() && FreeList() == AllocList(old(FreeList()), layout).value.list
      ensures old(Valid()) && AllocNoWrap(old(FreeList()), layout) ==> Valid()
    {
      ghost var list := FreeList();
      var it, header, k := FindFit(layout);
      if it == Null {
        AllocIsFirstFit(list, layout);
        return Panic(AllocFailed);
      }
      AllocStopsAt(list, layout, k);
      r := CarveSegment(it, header, k);
    }

    /** The walk of `alloc`: follow the list from its head until `get_header_ptr`
        accepts a segment, and return that segment's header address, its position and
        the header `get_header_ptr` returned; `Null` when the walk falls off the end. */
    method FindFit(layout: Layout) returns (it: int, header: int, ghost k: nat)
      requires ListValid() && ValidLayout(layout)
      ensures it == Null <==> FirstFitFrom(FreeList(), layout, 0).None?
      ensures it != Null ==>
                && FirstFitFrom(FreeList(), layout, 0) == Some(k)
                && k < |nodes| && nodes[k] == it
                && HeaderPtr(FreeList()[k], layout) == Some(header)
                && FreeStart(it) <= header < AddressSpace
    {
      ghost var list := FreeList();
      it := firstFree;
      k := 0;
      while it != Null
        invariant k <= |nodes| && it == (if k < |nodes| then nodes[k] else Null)
        invariant FirstFitFrom(list, layout, k) == FirstFitFrom(list, layout, 0)
        decreases |nodes| - k
      {
        assert LinkAt(nodes, headers, k);
        var segment := Node(it, headers[it].size);
        assert segment == list[k];
        match HeaderPtr(segment, layout)
        case None =>
          assert FirstFitFrom(list, layout, k) == FirstFitFrom(list, layout, k + 1);
          it := headers[it].next;
          k := k + 1;
        case Some(h) =>
          assert InAddressSpace(segment) && StartPtr(segment) == FreeStart(it);
          return it, h, k;
      }
      header := 0;
    }

    /** The body of `alloc` once `get_header_ptr` has accepted node `it`, position
        `k` of the list, with the header `header`: remember the segment's end, set the
        segment's size so that it ends at the header, set the used header's size so
        that the block reaches the old end, and return its payload.  Each
        `update_size` may panic, the first before anything is written.  When the
        header's payload starts inside the segment, the invariants are kept. */
    method CarveSegment(it: int, header: int, ghost k: nat) returns (r: Result<int>)
      requires ListValid() && k < |nodes| && nodes[k] == it
      requires FreeStart(it) <= header < AddressSpace
      modifies this
      ensures nodes == old(nodes) && firstFree == old(firstFree)
      ensures var spec := CarveAt(old(FreeList()), k, header);
              var free := UpdatedFreeSize(it, header);
              spec.Panic? ==>
                && r == Panic(spec.reason) && live == old(live)
                && headers == if free.Panic? then old(headers)
                              else old(headers)[it := Free(free.value, NextOf(old(nodes), k))]
      ensures var spec := CarveAt(old(FreeList()), k, header);
              spec.Ok? ==>
                var c := spec.value;
                && r == Ok(c.ptr)
                && headers == old(headers)[it := Free(c.list[k].size, NextOf(old(nodes), k))][header := Used(c.usedSize)]
                && live == old(live)[header := c.usedSize]
      ensures var spec := CarveAt(old(FreeList()), k, header);
              spec.Ok? && UsedStart(header) <= End(old(FreeList())[k]) ==>
                && ListValid() && FreeList() == spec.value.list
                && (old(Valid()) ==> Valid())
    {
      ghost var first0, nodes0, headers0, live0 := firstFree, nodes, headers, live;
      ghost var list := ListOf(nodes0, headers0);
      ghost var valid0 := BlocksOk(list, live0) && UsedAt(headers0, live0);
      assert LinkAt(nodes, headers, k);
      var segment := Node(it, headers[it].size);
      assert segment == list[k] && InAddressSpace(segment);
      // Store the segment end before updating the size.
      var segmentEnd := EndPtr(segment);
      assert segmentEnd == End(segment);
      var free := UpdatedFreeSize(it, header);
      if free.Panic? {
        return Panic(free.reason);
      }
      headers := headers[it := Free(free.value, headers[it].next)];
      var used := UpdatedUsedSize(header, segmentEnd);
      if used.Panic? {
        return Panic(used.reason);
      }
      headers := headers[header := Used(used.value)];
      live := live[header := used.value];
      assert CarveAt(list, k, header) ==
        Ok(Carve(k, header, used.value, Wrap(UsedStart(header)), list[k := Node(it, free.value)]));
      if UsedStart(header) <= segmentEnd {
        CarveMemory(first0, nodes0, headers0, live0, k, header, free.value, used.value);
      }
      return Ok(Wrap(UsedStart(header)));
    }

    /** `merge_if_adjacent(a, b)` for the node `a` at position `j` and its successor
        `b`, null when `a` is the last node: the header arena changes as `MergeHeaders`
        says, and the chain is kept.  When `a` or `b` lies in the address space, the
        wrapping comparison agrees with exact arithmetic, so a merge that succeeds
        turns the free list into `MergeAt` of the old one. */
    method MergeIfAdjacent(a: int, b: int, ghost j: nat) returns (r: Result<()>)
      requires Linked() && j < |nodes| && nodes[j] == a && b == NextOf(nodes, j)
      requires b < AddressSpace || (a in headers && FreeEnd(a, headers[a].size) < AddressSpace)
      modifies this
      ensures a in old(headers) && old(headers)[a].Free?
      ensures b != Null ==> b in old(headers) && old(headers)[b].Free?
      ensures var m := MergeHeaders(old(headers), a, b);
              && (m.Panic? ==> r == Panic(m.reason) && unchanged(this))
              && (m.Ok? ==> r == Ok(()) && headers == m.value)
      ensures forall x :: x in old(headers) && x != a ==> x in headers && headers[x] == old(headers)[x]
      ensures Linked() && firstFree == old(firstFree) && live == old(live)
      ensures r.Ok? ==> FreeList() == MergeAt(old(FreeList()), j)
      ensures j < |nodes| && forall i :: 0 <= i <= j ==> nodes[i] == old(nodes)[i]
    {
      NodeFacts(firstFree, nodes, headers, j);
      MergeEffect(firstFree, nodes, headers, j);
      var size := headers[a].size;
      if size + FreeSegmentSize >= AddressSpace {
        return Panic(ArithmeticOverflow);
      }
      if Wrap(a + size + FreeSegmentSize) == b {
        if b == Null {
          return Panic(NullDereference);
        }
        assert FreeEnd(a, size) == b;
        var merged := size + FreeSegmentSize + headers[b].size;
        if merged >= AddressSpace {
          return Panic(ArithmeticOverflow);
        }
        headers := headers[a := Free(merged, headers[b].next)];
        nodes := nodes[..j + 1] + nodes[j + 2..];
      } else {
        assert FreeEnd(a, size) != b;
      }
      return Ok(());
    }

    /** The splice of `insert_segment_into_list` once the scan has stopped at node
        `it`, position `k`, whose successor is `next`: `it` now points at `h`, and `h`
        at `next`. */
    method SpliceIn(it: int, h: int, next: int, ghost k: nat)
      requires Linked() && k < |nodes| && nodes[k] == it && next == NextOf(nodes, k)
      requires it < h && (next == Null || next > h)
      requires h in headers && headers[h].Free?
      modifies this
      ensures it in old(headers)
      ensures headers == old(headers)[it := Free(old(headers)[it].size, h)][h := Free(old(headers)[h].size, next)]
      ensures forall a :: a in old(headers) && a != it && a != h ==> a in headers && headers[a] == old(headers)[a]
      ensures nodes == old(nodes)[..k + 1] + [h] + old(nodes)[k + 1..]
      ensures Linked() && firstFree == old(firstFree) && live == old(live)
      ensures FreeList() == old(FreeList())[..k + 1] + [Node(h, old(headers)[h].size)] + old(FreeList())[k + 1..]
    {
      NodeFacts(firstFree, nodes, headers, k);
      SpliceStep(firstFree, nodes, headers, k, h);
      SpliceNodes(nodes, k, h);
      headers := headers[it := Free(headers[it].size, h)];
      headers := headers[h := Free(headers[h].size, next)];
      nodes := nodes[..k + 1] + [h] + nodes[k + 1..];
    }

    /** The splice of `h` after node `it`, position `k`, and the forward merge of `h`
        with its successor `next`.  It panics as that merge does in `MergeChecked`; on
        success `h` follows `it`, carries the merged size, and the free list is the
        splice merged at `k + 1`.  Only the headers at `it` and `h` are written. */
    method SpliceAndMergeForward(it: int, h: int, next: int, ghost k: nat) returns (r: Result<()>)
      requires Linked() && k < |nodes| && nodes[k] == it && next == NextOf(nodes, k)
      requires it < h && (next == Null || next > h) && next < AddressSpace
      requires h in headers && headers[h].Free?
      modifies this
      ensures Linked() && firstFree == old(firstFree) && live == old(live)
      ensures var list := old(FreeList());
              var freed := Node(h, old(headers)[h].size);
              var forward := MergeChecked(freed, if k + 1 < |list| then Some(list[k + 1]) else None);
              && (forward.Panic? ==> r == Panic(forward.reason))
              && (forward.Ok? ==> r == Ok(()))
              && (r.Ok? ==> && it in old(headers) && k + 1 < |nodes| && nodes[k] == it && nodes[k + 1] == h
                            && it in headers && headers[it].Free? && headers[it].size == old(headers)[it].size
                            && h in headers && headers[h].Free?
                            && headers[h].size == (if forward.value.Some? then forward.value.value.size else freed.size)
                            && FreeList() == MergeAt(list[..k + 1] + [freed] + list[k + 1..], k + 1))
      ensures forall a :: a in old(headers) && a != it && a != h ==> a in headers && headers[a] == old(headers)[a]
    {
      ghost var headers0 := headers;
      ghost var nodes0 := nodes;
      ghost var list := FreeList();
      ghost var size := headers[h].size;
      ghost var b := if k + 1 < |list| then Some(list[k + 1]) else None;
      NodeFacts(firstFree, nodes, headers, k);
      SpliceIn(it, h, next, k);
      ghost var spliced := headers;
      if next != Null {
        assert list[k + 1] == Node(nodes0[k + 1], headers0[next].size);
      }
      MergeHeadersChecked(spliced, h, next, Node(h, size), b);
      r := MergeIfAdjacent(h, next, k + 1);
    }

    /** The splice and the two merges of `insert_segment_into_list` once the scan has
        stopped at node `it`, position `k`, whose successor is `next`.  It panics as
        `SpliceMergeChecked` does; on success the free list becomes the splice.  Only
        the headers at `it` and `h` are written. */
    method SpliceAndMerge(it: int, h: int, next: int, ghost k: nat) returns (r: Result<()>)
      requires Linked() && k < |nodes| && nodes[k] == it && next == NextOf(nodes, k)
      requires it < h && (next == Null || next > h) && next < AddressSpace
      requires it in headers && FreeEnd(it, headers[it].size) < AddressSpace
      requires h in headers && headers[h].Free?
      modifies this
      ensures Linked() && firstFree == old(firstFree) && live == old(live)
      ensures var list := old(FreeList());
              var spec := SpliceMergeChecked(list[k], Node(h, old(headers)[h].size), list[k + 1..]);
              && (spec.Panic? ==> r == Panic(spec.reason))
              && (spec.Ok? ==> r == Ok(()))
              && (r.Ok? ==> FreeList() == list[..k] + SpliceMerge(list[k], Node(h, old(headers)[h].size), list[k + 1..]))
      ensures forall a :: a in old(headers) && a != it && a != h ==> a in headers && headers[a] == old(headers)[a]
    {
      ghost var headers0 := headers;
      ghost var list := FreeList();
      ghost var size := headers[h].size;
      ghost var succ := list[k + 1..];
      ghost var b := if succ != [] then Some(succ[0]) else None;
      ghost var forward := MergeChecked(Node(h, size), b);
      NodeFacts(firstFree, nodes, headers, k);
      assert list[k] == Node(it, headers[it].size);
      if succ != [] {
        assert succ[0] == list[k + 1];
      }
      r := SpliceAndMergeForward(it, h, next, k);
      if r.Panic? {
        return;
      }
      ghost var merged := headers;
      ghost var mid := if forward.value.Some? then forward.value.value else Node(h, size);
      MergeHeadersChecked(merged, it, h, list[k], Some(mid));
      r := MergeIfAdjacent(it, h, k);
      ComposeFrames(headers0, merged, merged, headers, it, h);
      if r.Ok? {
        SpliceAsMerges(list, k, Node(h, size));
      }
    }

    /** `insert_segment_into_list`: scan from the head for the last node below `h`,
        splice the free header at `h` in after it, then merge forward and backward.
        The outcome and the new free list are those of `InsertList`.  Only headers of
        old nodes and of `h` are written, none when the scan panics; a merge that
        panics leaves the chain linked. */
    method InsertSegmentIntoList(h: int)
      returns (r: Result<()>)
      requires Linked() && WellFormed(FreeList()) && h > Null
      requires h in headers && headers[h].Free? && headers[h].next == Null
      requires Apart(FreeList(), h, headers[h].size)
      modifies this
      ensures var spec := InsertList(old(FreeList()), h, old(headers)[h].size);
              && (spec.Panic? ==> r == Panic(spec.reason))
              && (spec.Ok? ==> r == Ok(()) && FreeList() == spec.value)
              && (spec.Ok? && FreeEnd(h, old(headers)[h].size) < AddressSpace ==> WellFormed(FreeList()))
      ensures ScanFrom(old(FreeList()), h, 0).Panic? ==> unchanged(this)
      ensures Linked() && firstFree == old(firstFree) && live == old(live)
      ensures forall a :: a in old(headers) && a !in old(nodes) && a != h ==> a in headers && headers[a] == old(headers)[a]
    {
      ghost var list := FreeList();
      ghost var size := headers[h].size;
      forall i | 0 <= i < |nodes| ensures nodes[i] != h {
        assert Disjoint(list[i], h, size);
      }
      var scan, k := ScanForPredecessor(h);
      if scan.Panic? {
        return Panic(scan.reason);
      }
      var it := scan.value;
      assert LinkAt(nodes, headers, k) && it in nodes;
      var next := headers[it].next;
      assert list[k] == Node(it, headers[it].size);
      if k + 1 < |nodes| {
        assert list[k + 1].addr == next;
      }
      InsertAtScan(list, h, size, k);
      r := SpliceAndMerge(it, h, next, k);
    }

    /** The scan of `insert_segment_into_list`: walk from the head while the next node
        lies below `h`, and return the last node below `h` and its position.  It
        fails with the `assert!` when a node at or above `h` is met first, and with
        the final `panic!` when the list is empty. */
    method ScanForPredecessor(h: int) returns (r: Result<int>, ghost k: nat)
      requires Linked()
      ensures r.Panic? <==> ScanFrom(FreeList(), h, 0).Panic?
      ensures r.Panic? ==> r.reason == ScanFrom(FreeList(), h, 0).reason
      ensures r.Ok? ==> ScanFrom(FreeList(), h, 0) == Ok(k) && k < |nodes| && nodes[k] == r.value
    {
      ghost var list := FreeList();
      var it := firstFree;
      k := 0;
      while it != Null
        invariant k <= |nodes| && it == (if k < |nodes| then nodes[k] else Null)
        invariant k < |nodes| ==> LinkAt(nodes, headers, k)
        invariant ScanFrom(list, h, k) == ScanFrom(list, h, 0)
        decreases |nodes| - k
      {
        assert LinkAt(nodes, headers, k);
        if !(it < h) {
          return Panic(AssertFailed), k;
        }
        var next := headers[it].next;
        if next == Null || next > h {
          return Ok(it), k;
        }
        it := next;
        k := k + 1;
      }
      return Panic(InsertFailed), k;
    }

    /** `convert_used_to_free_segment`: rewrite the used header at `h` as a free header
        of the same size with a null successor, then insert it into the list. */
    method ConvertUsedToFreeSegment(h: int) returns (r: Result<()>)
      requires ListValid() && h > Null
      requires h in headers && headers[h].Used?
      requires Apart(FreeList(), h, headers[h].size)
      modifies this
      ensures var spec := InsertList(old(FreeList()), h, old(headers)[h].size);
              && (spec.Panic? ==> r == Panic(spec.reason))
              && (spec.Ok? ==> r == Ok(()) && Linked() && FreeList() == spec.value)
              && (spec.Ok? && FreeEnd(h, old(headers)[h].size) < AddressSpace ==> ListValid())
      ensures ScanFrom(old(FreeList()), h, 0).Panic? ==>
                nodes == old(nodes) && headers == old(headers)[h := Free(old(headers)[h].size, Null)]
      ensures Linked() && firstFree == old(firstFree) && live == old(live)
      ensures forall a :: a in old(headers) && a !in old(nodes) && a != h ==> a in headers && headers[a] == old(headers)[a]
    {
      ghost var list := FreeList();
      forall i | 0 <= i < |nodes| ensures nodes[i] != h {
        assert Disjoint(list[i], h, headers[h].size);
      }
      var size := headers[h].size;
      ChainOther(firstFree, nodes, headers, h, Free(size, Null));
      headers := headers[h := Free(size, Null)];
      r := InsertSegmentIntoList(h);
    }

    /** `GlobalAlloc::dealloc`: the header is the used header just below `ptr`; the
        layout is ignored.  On any used header that overlaps no free segment it acts
        as `InsertList`; on a live block, the caller's side of the `GlobalAlloc`
        contract, it always succeeds and keeps every invariant. */
    method Dealloc(ptr: int, layout: Layout) returns (r: Result<()>)
      requires ListValid() && HeaderOfAllocated(ptr) > Null
      requires HeaderOfAllocated(ptr) in headers && headers[HeaderOfAllocated(ptr)].Used?
      requires Apart(FreeList(), HeaderOfAllocated(ptr), headers[HeaderOfAllocated(ptr)].size)
      modifies this
      ensures var h := HeaderOfAllocated(ptr);
              var spec := InsertList(old(FreeList()), h, old(headers)[h].size);
              && (spec.Panic? ==> r == Panic(spec.reason))
              && (spec.Ok? ==> r == Ok(()) && Linked() && FreeList() == spec.value)
              && (spec.Ok? && FreeEnd(h, old(headers)[h].size) < AddressSpace ==> ListValid())
      ensures var h := HeaderOfAllocated(ptr);
              ScanFrom(old(FreeList()), h, 0).Panic? ==>
                nodes == old(nodes) && headers == old(headers)[h := Free(old(headers)[h].size, Null)]
      ensures Linked() && firstFree == old(firstFree) && live == old(live) - {HeaderOfAllocated(ptr)}
      ensures var h := HeaderOfAllocated(ptr);
              forall a :: a in old(headers) && a !in old(nodes) && a != h ==> a in headers && headers[a] == old(headers)[a]
      ensures old(Valid()) && HeaderOfAllocated(ptr) in old(live) ==> r == Ok(()) && Valid()
    {
      var h := HeaderOfAllocated(ptr);
      ghost var list := FreeList();
      ghost var wasValid := Valid() && h in live;
      r := ConvertUsedToFreeSegment(h);
      live := live - {h};
      if wasValid {
        InsertKeepsBlocks(list, h, old(live));
        forall g | g in live ensures g in headers && headers[g] == Used(live[g]) {
          LiveIsNotNode(list, old(live), g);
          assert g !in old(nodes) by {
            forall j | 0 <= j < |old(nodes)| ensures old(nodes)[j] != g {
              assert list[j].addr == old(nodes)[j];
            }
          }
        }
      }
    }
  }

  /** Every live block still carries its used header. */
  ghost predicate UsedAt(headers: map<int, Header>, live: map<int, nat>)
  {
    forall h :: h in live ==> h in headers && headers[h] == Used(live[h])
  }

}
