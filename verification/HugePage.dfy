/** The bump allocator that hands out parts of one huge page, and never takes them back. */
module HugePage {
  import opened Machine

  const HUGE_PAGE_SIZE := 2 * 0x10_0000 - 1

  /** The page starts with its own descriptor: two pointers and an int, padded. */
  const HEADER := 24

  const LINE := 64

  /** Addresses and sizes are 64-bit. */
  const SPACE: int := 0x1_0000_0000_0000_0000

  datatype Block = Block(addr: nat, size: nat)

  /** Where the next block of this size goes: at the bump pointer, or on the next cache line if it is small and would not fit in this one. */
  function Placed(ptr: nat, size: nat): (addr: nat)
    ensures ptr <= addr
    ensures addr != ptr ==> size < LINE && addr < ptr + size
    ensures size < LINE ==> addr % LINE + size <= LINE
  {
    if size < LINE && ptr % LINE + size > LINE then (ptr + LINE) / LINE * LINE else ptr
  }

  /** No address between the bump pointer and the block would do: a small block there would cross a line. */
  lemma PlacedIsLeast(ptr: nat, size: nat, a: nat)
    requires ptr <= a < Placed(ptr, size)
    ensures size < 64 && a % 64 + size > 64
  {
    assert a / 64 == ptr / 64;
  }

  function Limit(start: nat): nat {
    start + HUGE_PAGE_SIZE
  }

  /** The bump pointer and the granted blocks after some requests. */
  datatype Page = Page(ptr: nat, blocks: seq<Block>)

  /** One request; the end of the block is computed modulo 2^64. */
  function Allocated(start: nat, p: Page, size: nat): Page {
    var addr := Placed(p.ptr, size);
    var end := (addr + size) % SPACE;
    if end > Limit(start) then p else Page(end, p.blocks + [Block(addr, size)])
  }

  /** The end of the requested block does not wrap. */
  predicate NoWrap(p: Page, size: nat) {
    Placed(p.ptr, size) + size < SPACE
  }

  function Served(start: nat, requests: seq<nat>): Page
    decreases |requests|
  {
    if requests == [] then Page(start + HEADER, [])
    else Allocated(start, Served(start, requests[..|requests| - 1]), requests[|requests| - 1])
  }

  /** Inside the page, behind the header, and within one cache line if smaller than a line. */
  predicate WellPlaced(start: nat, ptr: nat, b: Block) {
    && start + HEADER <= b.addr && b.addr + b.size <= ptr
    && (b.size < LINE ==> b.addr % LINE + b.size <= LINE)
  }

  predicate Before(b: Block, c: Block) {
    b.addr + b.size <= c.addr
  }

  /** Blocks lie in the order granted, so no two overlap. */
  ghost predicate LaidOut(start: nat, p: Page) {
    && start + HEADER <= p.ptr <= Limit(start)
    && (forall i :: 0 <= i < |p.blocks| ==> WellPlaced(start, p.ptr, p.blocks[i]))
    && (forall i, j :: 0 <= i < j < |p.blocks| ==> Before(p.blocks[i], p.blocks[j]))
  }

  lemma EndDoesNotWrap(start: nat, p: Page, size: nat)
    requires NoWrap(p, size)
    ensures var addr := Placed(p.ptr, size);
            Allocated(start, p, size) == if addr + size > Limit(start) then p else Page(addr + size, p.blocks + [Block(addr, size)])
  {
  }

  lemma GrantedIsLaidOut(start: nat, p: Page, addr: nat, size: nat)
    requires LaidOut(start, p) && addr == Placed(p.ptr, size) && addr + size <= Limit(start)
    ensures LaidOut(start, Page(addr + size, p.blocks + [Block(addr, size)]))
  {
    var p' := Page(addr + size, p.blocks + [Block(addr, size)]);
    forall i | 0 <= i < |p'.blocks|
      ensures WellPlaced(start, p'.ptr, p'.blocks[i])
    {
      assert i < |p.blocks| ==> WellPlaced(start, p.ptr, p.blocks[i]);
    }
    forall i, j | 0 <= i < j < |p'.blocks|
      ensures Before(p'.blocks[i], p'.blocks[j])
    {
      assert WellPlaced(start, p.ptr, p.blocks[i]);
      assert j < |p.blocks| ==> Before(p.blocks[i], p.blocks[j]);
    }
  }

  lemma AllocatedKeepsLayout(start: nat, p: Page, size: nat)
    requires LaidOut(start, p) && NoWrap(p, size)
    ensures LaidOut(start, Allocated(start, p, size))
  {
    EndDoesNotWrap(start, p, size);
    if Placed(p.ptr, size) + size <= Limit(start) {
      GrantedIsLaidOut(start, p, Placed(p.ptr, size), size);
    }
  }

  /** A request whose end wraps is granted a block that leaves the page. */
  lemma WrappedRequestIsGranted(start: nat, p: Page, size: nat)
    requires LaidOut(start, p) && size < SPACE && Limit(start) + LINE < SPACE && !NoWrap(p, size)
    ensures var p' := Allocated(start, p, size);
            p'.blocks == p.blocks + [Block(p.ptr, size)] && p.ptr + size > Limit(start) && !LaidOut(start, p')
  {
    var p' := Allocated(start, p, size);
    assert p'.ptr == p.ptr + size - SPACE;
    assert !WellPlaced(start, p'.ptr, p'.blocks[|p.blocks|]);
  }

  /** One request keeps the layout if and only if the end of its block does not wrap. */
  lemma LayoutKeptExactlyWhen(start: nat, p: Page, size: nat)
    requires LaidOut(start, p) && size < SPACE && Limit(start) + LINE < SPACE
    ensures LaidOut(start, Allocated(start, p, size)) <==> NoWrap(p, size)
  {
    if NoWrap(p, size) {
      AllocatedKeepsLayout(start, p, size);
    } else {
      WrappedRequestIsGranted(start, p, size);
    }
  }

  ghost predicate NeverWraps(start: nat, requests: seq<nat>) {
    forall i :: 0 <= i < |requests| ==> NoWrapAt(start, requests, i)
  }

  ghost predicate NoWrapAt(start: nat, requests: seq<nat>, i: nat)
    requires i < |requests|
  {
    NoWrap(Served(start, requests[..i]), requests[i])
  }

  /** After every sequence of requests whose ends do not wrap the granted blocks are disjoint, inside the page, behind the header, and cache-line friendly. */
  lemma {:induction false} EveryRunIsLaidOut(start: nat, requests: seq<nat>)
    requires NeverWraps(start, requests)
    ensures LaidOut(start, Served(start, requests))
    decreases |requests|
  {
    if requests != [] {
      var n := |requests| - 1;
      PrefixNeverWraps(start, requests, n);
      EveryRunIsLaidOut(start, requests[..n]);
      assert NoWrapAt(start, requests, n);
      AllocatedKeepsLayout(start, Served(start, requests[..n]), requests[n]);
    }
  }

  lemma PrefixNeverWraps(start: nat, requests: seq<nat>, n: nat)
    requires NeverWraps(start, requests) && n <= |requests|
    ensures NeverWraps(start, requests[..n])
  {
    forall i | 0 <= i < n
      ensures NoWrapAt(start, requests[..n], i)
    {
      assert NoWrapAt(start, requests, i) && requests[..n][..i] == requests[..i];
    }
  }

  /** The page is laid out throughout a run if and only if no request of the run wraps. */
  lemma LaidOutThroughoutExactlyWhen(start: nat, requests: seq<nat>)
    requires Limit(start) + LINE < SPACE && forall i :: 0 <= i < |requests| ==> requests[i] < SPACE
    ensures (forall n :: 0 <= n <= |requests| ==> LaidOut(start, Served(start, requests[..n]))) <==> NeverWraps(start, requests)
  {
    if NeverWraps(start, requests) {
      forall n | 0 <= n <= |requests|
        ensures LaidOut(start, Served(start, requests[..n]))
      {
        PrefixNeverWraps(start, requests, n);
        EveryRunIsLaidOut(start, requests[..n]);
      }
    } else if forall n :: 0 <= n <= |requests| ==> LaidOut(start, Served(start, requests[..n])) {
      var i :| 0 <= i < |requests| && !NoWrapAt(start, requests, i);
      assert LaidOut(start, Served(start, requests[..i + 1]));
      assert requests[..i + 1][..i] == requests[..i];
      LayoutKeptExactlyWhen(start, Served(start, requests[..i]), requests[i]);
    }
  }

  /** Requests of less than 2^63 bytes on a page in the lower half of the address space never wrap. */
  lemma SmallRequestsNeverWrap(start: nat, requests: seq<nat>)
    requires Limit(start) + LINE < SPACE / 2 && forall i :: 0 <= i < |requests| ==> requests[i] < SPACE / 2
    ensures NeverWraps(start, requests)
    decreases |requests|
  {
    if requests != [] {
      var n := |requests| - 1;
      SmallRequestsNeverWrap(start, requests[..n]);
      EveryRunIsLaidOut(start, requests[..n]);
      forall i | 0 <= i < |requests|
        ensures NoWrapAt(start, requests, i)
      {
        if i < n {
          assert NoWrapAt(start, requests[..n], i) && requests[..n][..i] == requests[..i];
        }
      }
    }
  }

  function Bytes(bs: seq<Block>): nat {
    if bs == [] then 0 else Bytes(bs[..|bs| - 1]) + bs[|bs| - 1].size
  }

  function SmallBlocks(bs: seq<Block>): nat {
    if bs == [] then 0 else SmallBlocks(bs[..|bs| - 1]) + if bs[|bs| - 1].size < LINE then 1 else 0
  }

  /** What is used is what was granted plus less than a line of padding for each small block. */
  ghost predicate Padded(start: nat, p: Page) {
    start + HEADER + Bytes(p.blocks) <= p.ptr <= start + HEADER + Bytes(p.blocks) + 63 * SmallBlocks(p.blocks)
  }

  lemma CountsSnoc(bs: seq<Block>, b: Block)
    ensures Bytes(bs + [b]) == Bytes(bs) + b.size
    ensures SmallBlocks(bs + [b]) == SmallBlocks(bs) + if b.size < LINE then 1 else 0
  {
    assert (bs + [b])[..|bs|] == bs;
  }

  lemma GrantedIsPadded(start: nat, p: Page, addr: nat, size: nat)
    requires Padded(start, p) && p.ptr <= addr && (addr != p.ptr ==> size < LINE && addr < p.ptr + size)
    ensures Padded(start, Page(addr + size, p.blocks + [Block(addr, size)]))
  {
    CountsSnoc(p.blocks, Block(addr, size));
  }

  lemma PaddingStep(start: nat, p: Page, size: nat)
    requires Padded(start, p) && NoWrap(p, size)
    ensures Padded(start, Allocated(start, p, size))
  {
    EndDoesNotWrap(start, p, size);
    GrantedIsPadded(start, p, Placed(p.ptr, size), size);
  }

  lemma {:induction false} PaddingIsBounded(start: nat, requests: seq<nat>)
    requires NeverWraps(start, requests)
    ensures Padded(start, Served(start, requests))
    decreases |requests|
  {
    if requests != [] {
      var n := |requests| - 1;
      PrefixNeverWraps(start, requests, n);
      assert NoWrapAt(start, requests, n);
      PaddingIsBounded(start, requests[..n]);
      PaddingStep(start, Served(start, requests[..n]), requests[n]);
    }
  }

  class HugePage {
    const start: nat
    var ptr: nat

    /** The blocks granted so far. */
    ghost var blocks: seq<Block>

    ghost function View(): Page
      reads this
    {
      Page(ptr, blocks)
    }

    constructor (start: nat)
      ensures this.start == start && View() == Served(start, [])
    {
      this.start := start;
      ptr := start + HEADER;
      blocks := [];
    }

    /** One request: the block's address, or nothing if the page has no room, and then the page is unchanged. */
    method Alloc(size: nat) returns (r: Option<nat>)
      requires size < SPACE
      modifies this
      ensures View() == Allocated(start, old(View()), size)
      ensures r.None? <==> (Placed(old(ptr), size) + size) % SPACE > Limit(start)
      ensures r.None? ==> View() == old(View())
      ensures r.Some? ==> blocks == old(blocks) + [Block(r.value, size)]
    {
      var addr := ptr;
      if size < 64 {
        if ptr % 64 + size > 64 {
          addr := (addr + 64) / 64 * 64;
        }
      }
      if (addr + size) % SPACE > start + HUGE_PAGE_SIZE {
        return None;
      }
      ptr := (addr + size) % SPACE;
      blocks := blocks + [Block(addr, size)];
      return Some(addr);
    }
  }
}
