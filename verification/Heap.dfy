/** The kernel's bump allocator (src/kernel/memory.c). */
module Heap {
  import opened Machine

  /** The three addresses the allocator keeps. */
  datatype Arena = Arena(start: word, end: word, current: word)

  /** A heap whose end stays a page clear of the top of the address space, so that rounding up never wraps. */
  predicate ArenaOk(a: Arena) {
    0 < a.start <= a.current <= a.end <= TWO32 - 4096
  }

  /** One allocation, in 32-bit arithmetic; address 0 is the null pointer. */
  function Alloc(a: Arena, size: word, alignment: word): (Arena, word)
    requires alignment >= 1
  {
    var start := RoundUpWord(a.current, alignment);
    var end := Wrap(start + size);
    if end > a.end then (a, 0) else (a.(current := end), start)
  }

  /** Whether one request's end address stays below 2^32: the guard under which the allocator is sound. */
  predicate NoWrap(a: Arena, size: word, alignment: word)
    requires alignment >= 1
  {
    RoundUpWord(a.current, alignment) + size < TWO32
  }

  predicate Fits(a: Arena, size: word, alignment: word)
    requires alignment >= 1
  {
    RoundUpWord(a.current, alignment) + size <= a.end
  }

  /** A returned block is aligned and lies in the heap above everything handed out before; failure changes nothing. */
  lemma AllocBlock(a: Arena, size: word, alignment: word)
    requires ArenaOk(a) && 1 <= alignment <= 4096 && NoWrap(a, size, alignment)
    ensures var (b, p) := Alloc(a, size, alignment);
            && ArenaOk(b) && b.start == a.start && b.end == a.end
            && (p != 0 <==> Fits(a, size, alignment))
            && (p == 0 ==> b == a)
            && (p != 0 ==> a.current <= p < a.current + alignment && b.current == p + size <= b.end)
    ensures Alloc(a, size, alignment).1 % alignment == 0
  {
    hide RoundUp;
    RoundUpIsLeastMultiple(a.current, alignment);
  }

  /** An accepted request is sound (its block ends where the heap pointer now is, at or above its start) exactly
      when its end did not wrap. */
  lemma AcceptedIsSoundIffNoWrap(a: Arena, size: word, alignment: word)
    requires ArenaOk(a) && 1 <= alignment <= 4096
    requires Wrap(RoundUpWord(a.current, alignment) + size) <= a.end
    ensures var (b, p) := Alloc(a, size, alignment);
            p != 0 && (NoWrap(a, size, alignment) <==> b.current == p + size)
                && (NoWrap(a, size, alignment) <==> b.current >= p)
  {
    hide RoundUp;
    RoundUpIsLeastMultiple(a.current, alignment);
  }

  /** A request that wraps is accepted and drops the heap pointer below the heap's own start. */
  lemma WrappingRequestExample()
    ensures var a := Arena(0x200000, 0x2200000, 0x200000);
            var (b, p) := Alloc(a, 0xFFFF_0000, 16);
            ArenaOk(a) && p == 0x200000 && b.current == 0x1F0000 < a.start
  {
    assert RoundUpWord(0x200000, 16) == 0x200000;
  }

  // ---- whole runs ----

  /** After such a request the allocator hands out memory below its own heap, and what it handed out before again. */
  lemma WrappedRunOverlaps()
    ensures var a := Arena(0x200000, 0x2200000, 0x200000);
            var requests := [Request(0x1000, 16), Request(0xFFFF_0000, 16), Request(0x1_0000, 16)];
            var blocks := Run(a, requests).1;
            && ArenaOk(a)
            && blocks == [Block(0x200000, 0x1000), Block(0x201000, 0xFFFF_0000), Block(0x1F1000, 0x1_0000)]
            && !Disjoint(blocks[0], blocks[2]) && blocks[2].address < a.start
  {
    var a := Arena(0x200000, 0x2200000, 0x200000);
    var requests := [Request(0x1000, 16), Request(0xFFFF_0000, 16), Request(0x1_0000, 16)];
    assert Alloc(a, 0x1000, 16) == (a.(current := 0x201000), 0x200000);
    assert Alloc(a.(current := 0x201000), 0xFFFF_0000, 16) == (a.(current := 0x1F1000), 0x201000);
    assert Alloc(a.(current := 0x1F1000), 0x1_0000, 16) == (a.(current := 0x201000), 0x1F1000);
    assert requests[1..] == [requests[1], requests[2]] && requests[1..][1..] == [requests[2]];
    assert requests[1..][1..][1..] == [];
  }

  datatype Request = Request(size: word, alignment: word)
  datatype Block = Block(address: word, size: word)

  /** The allocator after a run of requests, and the blocks of the successful ones, oldest first. */
  function Run(a: Arena, requests: seq<Request>): (Arena, seq<Block>)
    requires forall r <- requests :: r.alignment >= 1
    decreases |requests|
  {
    if requests == [] then (a, [])
    else
      var r := requests[0];
      var (b, p) := Alloc(a, r.size, r.alignment);
      var (c, rest) := Run(b, requests[1..]);
      (c, if p == 0 then rest else [Block(p, r.size)] + rest)
  }

  predicate RunNoWrap(a: Arena, requests: seq<Request>)
    decreases |requests|
  {
    requests == [] ||
    (var r := requests[0];
     && 1 <= r.alignment <= 4096 && NoWrap(a, r.size, r.alignment)
     && RunNoWrap(Alloc(a, r.size, r.alignment).0, requests[1..]))
  }

  predicate Disjoint(b: Block, c: Block) {
    b.address + b.size <= c.address || c.address + c.size <= b.address
  }

  /** Over every non-wrapping run the blocks lie in the heap above its starting point and are pairwise disjoint, and the
      heap pointer never moves down. */
  lemma {:induction false} RunBlocksDisjoint(a: Arena, requests: seq<Request>)
    requires ArenaOk(a) && (forall r <- requests :: r.alignment >= 1) && RunNoWrap(a, requests)
    ensures var (b, blocks) := Run(a, requests);
            && ArenaOk(b) && b.start == a.start && b.end == a.end && b.current >= a.current
            && (forall i | 0 <= i < |blocks| ::
                  a.current <= blocks[i].address && blocks[i].address + blocks[i].size <= b.current)
            && (forall i, j | 0 <= i < j < |blocks| :: Disjoint(blocks[i], blocks[j]))
    decreases |requests|
  {
    hide RoundUpWord;
    if requests != [] {
      var r := requests[0];
      AllocBlock(a, r.size, r.alignment);
      RunBlocksDisjoint(Alloc(a, r.size, r.alignment).0, requests[1..]);
    }
  }

  /** The allocator's globals, updated in place. */
  class Allocator {
    var heapStart: word
    var heapEnd: word
    var heapCurrent: word

    ghost function View(): Arena
      reads this
    {
      Arena(heapStart, heapEnd, heapCurrent)
    }

    /** The heap is the 32 MiB above the page-aligned end of the kernel image. */
    constructor (kernelEnd: word)
      requires 0 < kernelEnd <= TWO32 - 0x2000000 - 8192
      ensures ArenaOk(View())
      ensures heapStart % 4096 == 0 && kernelEnd <= heapStart < kernelEnd + 4096
      ensures heapEnd == heapStart + 0x2000000 && heapCurrent == heapStart
    {
      hide AlignUp;
      AlignUp4096(kernelEnd);
      var start := AlignUp(kernelEnd, 4096);
      heapStart, heapCurrent := start, start;
      heapEnd := Wrap(start + 32 * 1024 * 1024);
    }

    method KmallocAligned(size: word, alignment: word, ghost k: nat) returns (p: word)
      requires k < 32 && alignment == Pow2(k)
      modifies this
      ensures (View(), p) == Alloc(old(View()), size, alignment)
    {
      hide AlignUp, RoundUp;
      AlignUpRounds(heapCurrent, alignment, k);
      var start := AlignUp(heapCurrent, alignment);
      var end := Wrap(start + size);
      if end > heapEnd {
        return 0;
      }
      heapCurrent := end;
      return start;
    }

    method Kmalloc(size: word) returns (p: word)
      modifies this
      ensures (View(), p) == Alloc(old(View()), size, 16)
    {
      hide AlignUp, RoundUp;
      AlignUp16(heapCurrent);
      var start := AlignUp(heapCurrent, 16);
      var end := Wrap(start + size);
      if end > heapEnd {
        return 0;
      }
      heapCurrent := end;
      return start;
    }
  }
}
