/** The user address ranges of a process and the checks the kernel makes before touching them (src/kernel/process.c). */
module UserMemory {
  import opened Machine

  /** Where a process's image and stack are. */
  datatype Regions = Regions(imageBase: word, imageSize: word, stackBottom: word, stackTop: word)

  /** process_validate_user_range, in 32-bit arithmetic. */
  predicate ValidRange(r: Regions, address: word, size: nat) {
    address + size < TWO32 &&
    ((address >= r.imageBase && address + size <= Wrap(r.imageBase + r.imageSize)) ||
     (address >= r.stackBottom && address + size <= r.stackTop))
  }

  /** Image below stack with a gap between them, as the kernel lays them out. */
  predicate Separated(r: Regions) {
    0 < r.imageBase && r.imageBase + r.imageSize < r.stackBottom <= r.stackTop
  }

  /** A byte of the image or of the stack. */
  predicate InRegions(r: Regions, a: nat) {
    r.imageBase <= a < r.imageBase + r.imageSize || r.stackBottom <= a < r.stackTop
  }

  /** A range is valid exactly when each of its bytes is one of the image or one of the stack. */
  lemma ValidRangeIff(r: Regions, address: word, size: nat)
    requires Separated(r) && size > 0
    ensures ValidRange(r, address, size) <==>
              forall a: nat | address <= a < address + size :: InRegions(r, a)
  {
    if forall a: nat | address <= a < address + size :: InRegions(r, a) {
      assert InRegions(r, address) && InRegions(r, address + size - 1);
      assert !InRegions(r, r.imageBase + r.imageSize);
    }
  }

  /** A range of kernel memory outside both regions. */
  predicate OffRegions(r: Regions, data: nat, size: nat) {
    && (data + size <= r.imageBase || r.imageBase + r.imageSize <= data)
    && (data + size <= r.stackBottom || r.stackTop <= data)
  }

  function Min(a: nat, b: nat): nat {
    if a < b then a else b
  }

  /** A range checked piece by piece, each piece at the address where the last one ended. */
  predicate ChunksValid(r: Regions, address: word, size: nat, chunk: nat)
    requires chunk > 0
    decreases size
  {
    size == 0 ||
    (var n := Min(size, chunk);
     ValidRange(r, address, n) && ChunksValid(r, Wrap(address + n), size - n, chunk))
  }

  /** Checking in pieces accepts exactly the ranges that checking at once accepts, when the regions do not touch. */
  lemma {:induction false} ChunksValidIffWhole(r: Regions, address: word, size: nat, chunk: nat)
    requires Separated(r) && chunk > 0 && size > 0
    ensures ChunksValid(r, address, size, chunk) <==> ValidRange(r, address, size)
    decreases size
  {
    hide Wrap;
    var n := Min(size, chunk);
    SmallWrap(r.imageBase + r.imageSize);
    if size > n && ValidRange(r, address, n) {
      SmallWrap(address + n);
      ChunksValidIffWhole(r, address + n, size - n, chunk);
    }
  }

  /** One step of the piecewise check. */
  lemma ChunkStep(r: Regions, address: word, size: nat, chunk: nat)
    requires Separated(r) && chunk > 0 && size > 0
    ensures var n := Min(size, chunk);
            && (ChunksValid(r, address, size, chunk) <==>
                  ValidRange(r, address, n) && ChunksValid(r, Wrap(address + n), size - n, chunk))
            && (ValidRange(r, address, n) ==> Wrap(address + n) == address + n)
  {
    hide Separated;
    if ValidRange(r, address, Min(size, chunk)) {
      BelowEnd(r, address, Min(size, chunk));
    }
  }

  lemma BelowEnd(r: Regions, address: word, size: nat)
    requires ValidRange(r, address, size)
    ensures Wrap(address + size) == address + size
  {
  }

  /** With touching regions the checks differ: here 128 bytes across the border pass in pieces of 64. */
  lemma TouchingRegionsDiffer()
    ensures var r := Regions(0x400000, 0x100000, 0x500000, 0x600000);
            ChunksValid(r, 0x4FFFC0, 128, 64) && !ValidRange(r, 0x4FFFC0, 128)
  {
    var r := Regions(0x400000, 0x100000, 0x500000, 0x600000);
    assert ChunksValid(r, 0x500000, 64, 64);
  }

  /** Memory large enough to hold both regions at their addresses. */
  predicate Holds(r: Regions, mem: array<byte>) {
    Separated(r) && r.stackTop <= mem.Length <= TWO32
  }

  method CopyFromUser(mem: array<byte>, r: Regions, src: word, size: word) returns (ok: bool, data: seq<byte>)
    requires Holds(r, mem)
    ensures ok <==> ValidRange(r, src, size)
    ensures ok ==> src + size <= mem.Length && data == mem[src..src + size]
  {
    if !ValidRange(r, src, size) {
      return false, [];
    }
    return true, mem[src..src + size];
  }

  method CopyToUser(mem: array<byte>, r: Regions, dst: word, data: seq<byte>) returns (ok: bool)
    requires Holds(r, mem) && |data| < TWO32
    modifies mem
    ensures ok <==> ValidRange(r, dst, |data|)
    ensures ok ==> dst + |data| <= mem.Length && mem[dst..dst + |data|] == data
    ensures forall a | 0 <= a < mem.Length && !(ok && dst <= a < dst + |data|) :: mem[a] == old(mem[a])
  {
    if !ValidRange(r, dst, |data|) {
      return false;
    }
    for i := 0 to |data|
      invariant forall j | 0 <= j < i :: mem[dst + j] == data[j]
      invariant forall a | 0 <= a < mem.Length && !(dst <= a < dst + i) :: mem[a] == old(mem[a])
    {
      mem[dst + i] := data[i];
    }
    return true;
  }

  ghost predicate ReadableByte(mem: seq<byte>, r: Regions, a: nat) {
    a < |mem| && a < TWO32 && ValidRange(r, a, 1)
  }

  ghost predicate TextByte(mem: seq<byte>, r: Regions, a: nat) {
    ReadableByte(mem, r, a) && mem[a] != 0
  }

  /** The n bytes at src are readable and not NUL, and the next one is readable and NUL. */
  ghost predicate TerminatedAt(mem: seq<byte>, r: Regions, src: word, n: nat) {
    && (forall a | src <= a < src + n :: TextByte(mem, r, a))
    && ReadableByte(mem, r, src + n) && mem[src + n] == 0
  }

  /** Copy a NUL-terminated string into a buffer of dstSize bytes, checking one byte at a time: it succeeds exactly when
      a terminator comes within the buffer and every byte up to it is in a user region. */
  method CopyUserString(mem: array<byte>, r: Regions, src: word, dstSize: nat) returns (ok: bool, text: seq<byte>)
    requires Holds(r, mem)
    ensures ok <==> src != 0 && exists n | 0 <= n < dstSize - 1 :: TerminatedAt(mem[..], r, src, n)
    ensures ok ==> |text| < dstSize - 1 && TerminatedAt(mem[..], r, src, |text|)
    ensures ok ==> src + |text| < mem.Length && forall j | 0 <= j < |text| :: text[j] == mem[src + j]
  {
    hide ValidRange, Separated;
    text := [];
    if dstSize == 0 || src == 0 {
      return false, [];
    }
    while |text| + 1 < dstSize
      invariant |text| <= dstSize - 1 && src + |text| < TWO32
      invariant forall a | src <= a < src + |text| :: TextByte(mem[..], r, a)
      invariant forall j | 0 <= j < |text| :: src + j < mem.Length && text[j] == mem[src + j]
      decreases dstSize - |text|
    {
      var here := Wrap(src + |text|);
      if !ValidRange(r, here, 1) {
        NoTerminator(mem[..], r, src, |text|);
        return false, [];
      }
      BelowTop(r, here);
      if mem[here] == 0 {
        assert TerminatedAt(mem[..], r, src, |text|);
        return true, text;
      }
      text := text + [mem[here]];
    }
    NoTerminator(mem[..], r, src, |text|);
    return false, [];
  }

  lemma BelowTop(r: Regions, a: word)
    requires Separated(r) && ValidRange(r, a, 1)
    ensures a < r.stackTop
  {
  }

  /** Text bytes up to k, and none or an unreadable byte there, leave a terminator only beyond k. */
  lemma NoTerminator(mem: seq<byte>, r: Regions, src: word, k: nat)
    requires forall a | src <= a < src + k :: TextByte(mem, r, a)
    ensures forall n | 0 <= n < k :: !TerminatedAt(mem, r, src, n)
    ensures !ReadableByte(mem, r, src + k) ==> forall n | 0 <= n :: !TerminatedAt(mem, r, src, n)
  {
    forall n | 0 <= n < k
      ensures !TerminatedAt(mem, r, src, n)
    {
      assert TextByte(mem, r, src + n);
    }
    if !ReadableByte(mem, r, src + k) {
      forall n | k <= n
        ensures !TerminatedAt(mem, r, src, n)
      {
        assert !TextByte(mem, r, src + k);
      }
    }
  }
}
