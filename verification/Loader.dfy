/** exec_load in src/kernel/exec.c: segments copied over a cleared image, in one 32-bit memory that also holds the
    file. */
module Loader {
  import opened Machine
  import opened Memory
  import opened UserMemory
  import opened Elf

  function Peek(mem: array<byte>, a: int): byte
    requires mem.Length == TWO32
    reads mem
  {
    mem[Wrap(a)]
  }

  function PeekHalf(mem: array<byte>, a: int): (h: nat)
    requires mem.Length == TWO32
    reads mem
    ensures h < 65536
  {
    var low: int, high: int := Peek(mem, a), Peek(mem, a + 1);
    low + 256 * high
  }

  /** The file's bytes are in memory at an address. */
  ghost predicate FileAt(mem: array<byte>, data: word, b: seq<byte>)
    reads mem
  {
    mem.Length == TWO32 && data + |b| <= TWO32 && mem[data..data + |b|] == b
  }

  lemma PeekFile(mem: array<byte>, data: word, b: seq<byte>, o: nat)
    requires FileAt(mem, data, b)
    ensures o + 2 <= |b| ==> PeekHalf(mem, data + o) == Half(b, o)
    ensures o + 4 <= |b| ==> WordIn(mem[..], data + o) == WordAt(b, o)
    ensures o < |b| ==> Peek(mem, data + o) == b[o]
  {
    forall k | o <= k < |b|
      ensures Peek(mem, data + k) == b[k]
    {
      assert mem[data..data + |b|][k] == mem[data + k];
    }
  }

  /** elf_header_valid on the file in memory. */
  method CheckHeader(mem: array<byte>, data: word, size: word, ghost b: seq<byte>) returns (ok: bool)
    requires FileAt(mem, data, b) && |b| == size
    ensures ok <==> HeaderValid(b)
  {
    hide WordIn, PeekHalf, Peek, WordAt, Half;
    PeekFile(mem, data, b, 0);
    PeekFile(mem, data, b, 4);
    PeekFile(mem, data, b, 5);
    PeekFile(mem, data, b, 16);
    PeekFile(mem, data, b, 18);
    PeekFile(mem, data, b, 42);
    ok := size >= HEADER_SIZE
       && WordIn(mem[..], data + 0) == ELF_MAGIC && Peek(mem, data + 4) == 1 && Peek(mem, data + 5) == 1
       && PeekHalf(mem, data + 16) == 2 && PeekHalf(mem, data + 18) == 3 && PeekHalf(mem, data + 42) == PROGRAM_SIZE;
  }

  /** One program header, read from memory. */
  method ReadProgram(mem: array<byte>, data: word, ghost b: seq<byte>, o: word) returns (p: Program)
    requires FileAt(mem, data, b) && o + PROGRAM_SIZE <= |b|
    ensures p == ProgramAt(b, o)
  {
    hide WordIn, WordAt;
    PeekFile(mem, data, b, o);
    PeekFile(mem, data, b, o + 4);
    PeekFile(mem, data, b, o + 8);
    PeekFile(mem, data, b, o + 16);
    PeekFile(mem, data, b, o + 20);
    p := Program(WordIn(mem[..], data + o), WordIn(mem[..], data + (o + 4)), WordIn(mem[..], data + (o + 8)),
                 WordIn(mem[..], data + (o + 16)), WordIn(mem[..], data + (o + 20)));
  }

  /** memcpy of file bytes to a place that does not overlap the file. */
  method CopyFile(mem: array<byte>, dest: word, data: word, ghost b: seq<byte>, offset: word, count: word)
    requires FileAt(mem, data, b) && offset + count <= |b| && dest + count <= TWO32
    requires count == 0 || dest + count <= data || data + |b| <= dest
    modifies mem
    ensures forall a | 0 <= a < TWO32 ::
              mem[a] == if dest <= a < dest + count then b[offset + (a - dest)] else old(mem[a])
  {
    for i := 0 to count
      invariant forall a | 0 <= a < TWO32 ::
                  mem[a] == if dest <= a < dest + i then b[offset + (a - dest)] else old(mem[a])
    {
      assert mem[data + (offset + i)] == b[offset + i] by {
        assert old(mem[data..data + |b|][offset + i]) == b[offset + i];
      }
      mem[dest + i] := mem[data + (offset + i)];
    }
  }

  /** Memory is as the given segments leave it, over a cleared image. */
  ghost predicate Loaded(mem: array<byte>, before: seq<byte>, b: seq<byte>, r: Regions, programs: seq<Program>)
    reads mem
  {
    mem.Length == |before| == TWO32 && forall a | 0 <= a < TWO32 :: mem[a] == LoadedByte(b, r, programs, a, before[a])
  }

  /** One accepted segment: memory cleared, then the file part copied over it. */
  method LoadSegment(mem: array<byte>, data: word, ghost b: seq<byte>, r: Regions, p: Program,
                     ghost before: seq<byte>, ghost programs: seq<Program>)
    requires FileAt(mem, data, b) && p.kind == PT_LOAD && SegmentTame(b, data, p)
    requires Loaded(mem, before, b, r, programs)
    modifies mem
    ensures FileAt(mem, data, b)
    ensures Loaded(mem, before, b, r, programs + [p])
  {
    hide LoadedByte;
    ghost var start := mem[..];
    if |b| > 0 {
      Apart(b, data, p);
    }
    MemSet(mem, p.vaddr, 0, p.memsz);
    FileStays(mem, start, data, b);
    CopyFile(mem, p.vaddr, data, b, p.offset, p.filesz);
    FileStays(mem, start, data, b);
    forall a | 0 <= a < TWO32
      ensures mem[a] == LoadedByte(b, r, programs + [p], a, before[a])
    {
      OneMoreSegment(b, r, programs, p, a, before[a]);
    }
  }

  /** The writes of a tame segment are off the file. */
  lemma Apart(b: seq<byte>, data: word, p: Program)
    requires p.kind == PT_LOAD && SegmentTame(b, data, p) && |b| > 0
    ensures p.memsz == 0 || p.vaddr + p.memsz <= data || data + |b| <= p.vaddr
    ensures p.filesz == 0 || p.vaddr + p.filesz <= data || data + |b| <= p.vaddr
  {
    assert !Covers(p, data);
    if data <= p.vaddr < data + |b| {
      assert !Covers(p, p.vaddr);
    }
  }

  lemma FileStays(mem: array<byte>, start: seq<byte>, data: word, b: seq<byte>)
    requires mem.Length == |start| == TWO32 && data + |b| <= TWO32 && start[data..data + |b|] == b
    requires forall a | data <= a < data + |b| :: mem[a] == start[a]
    ensures FileAt(mem, data, b)
  {
    assert mem[data..data + |b|] == start[data..data + |b|];
  }

  lemma OneMoreSegment(b: seq<byte>, r: Regions, programs: seq<Program>, p: Program, a: nat, before: byte)
    ensures LoadedByte(b, r, programs + [p], a, before)
            == if Covers(p, a) then SegmentByte(b, p, a) else LoadedByte(b, r, programs, a, before)
  {
    assert (programs + [p])[..|programs|] == programs;
  }

  /** A program header that is not a load segment changes nothing. */
  lemma SkippedSegment(mem: array<byte>, before: seq<byte>, b: seq<byte>, r: Regions, programs: seq<Program>,
                       p: Program)
    requires Loaded(mem, before, b, r, programs) && p.kind != PT_LOAD
    ensures Loaded(mem, before, b, r, programs + [p])
  {
    forall a | 0 <= a < TWO32
      ensures mem[a] == LoadedByte(b, r, programs + [p], a, before[a])
    {
      OneMoreSegment(b, r, programs, p, a, before[a]);
    }
  }

  /** The loop over the program headers: it ends early at the first segment that fails a check. */
  method LoadSegments(mem: array<byte>, r: Regions, data: word, ghost b: seq<byte>, size: word, table: word, count: nat,
                      ghost before: seq<byte>)
      returns (ok: bool)
    requires FileAt(mem, data, b) && |b| == size && Tame(b, data, r)
    requires TableInFile(b) && table == TableStart(b) && count == TableLength(b)
    requires Loaded(mem, before, b, r, Programs(b, 0))
    modifies mem
    ensures FileAt(mem, data, b)
    ensures ok <==> forall i | 0 <= i < count :: Accepted(b, r, Programs(b, count)[i])
    ensures ok ==> Loaded(mem, before, b, r, Programs(b, count))
    ensures OutsideKept(mem, before, b, r)
  {
    hide WordAt, Half, ProgramAt, HeaderValid, SegmentTame, Loaded, RegionContains, Accepted, FileAt, Contained,
         OutsideKept, LeWord;
    for index := 0 to count
      invariant FileAt(mem, data, b)
      invariant Loaded(mem, before, b, r, Programs(b, index))
      invariant forall i | 0 <= i < index :: Accepted(b, r, Programs(b, count)[i])
    {
      TableEntry(b, index);
      var p := ReadProgram(mem, data, b, table + index * PROGRAM_SIZE);
      if p.kind != PT_LOAD {
        NotLoaded(b, r, p);
        SkippedSegment(mem, before, b, r, Programs(b, index), p);
        continue;
      }
      if Wrap(p.offset + p.filesz) > size || !RegionContains(r, p.vaddr, p.memsz) {
        Rejected(b, r, p);
        OnlyImage(mem, before, b, r, index);
        return false;
      }
      Passed(b, r, p);
      LoadSegment(mem, data, b, r, p, before, Programs(b, index));
    }
    OnlyImage(mem, before, b, r, count);
    return true;
  }

  /** Bytes outside the image are untouched when all segments of the file end in the image. */
  ghost predicate OutsideKept(mem: array<byte>, before: seq<byte>, b: seq<byte>, r: Regions)
    reads mem
  {
    mem.Length == |before| == TWO32 &&
    (Contained(b, r) ==> forall a | 0 <= a < TWO32 && !InImage(r, a) :: mem[a] == before[a])
  }

  /** exec_load up to the entry check: it succeeds exactly for acceptable files; then every byte of memory is what the
      segments in order leave over a cleared image, and the file is intact. When all segments end in the image nothing
      else is written, even on failure. */
  method Load(mem: array<byte>, r: Regions, found: bool, data: word, size: word, ghost b: seq<byte>)
      returns (ok: bool, entry: word)
    requires FileAt(mem, data, b) && |b| == size && Tame(b, data, r)
    modifies mem
    ensures FileAt(mem, data, b)
    ensures ok <==> found && Acceptable(b, r)
    ensures ok ==> entry == Entry(b) && Loaded(mem, old(mem[..]), b, r, Programs(b, TableLength(b)))
    ensures OutsideKept(mem, old(mem[..]), b, r)
  {
    hide WordIn, PeekHalf, WordAt, Half, ProgramAt, HeaderValid, SegmentTame, Loaded, RegionContains, Accepted,
         Contained;
    if !found {
      return false, 0;
    }
    var valid := CheckHeader(mem, data, size, b);
    if !valid {
      return false, 0;
    }
    HeaderLong(b);
    PeekFile(mem, data, b, 28);
    PeekFile(mem, data, b, 44);
    PeekFile(mem, data, b, 24);
    var table, count, start := WordIn(mem[..], data + 28), PeekHalf(mem, data + 44), WordIn(mem[..], data + 24);
    TableWraps(table, count);
    if Wrap(table + Wrap(count * PROGRAM_SIZE)) > size {
      return false, 0;
    }
    ghost var before := mem[..];
    MemSet(mem, r.imageBase, 0, r.imageSize);
    FileStays(mem, before, data, b);
    ClearedImage(mem, before, b, r);
    ok := LoadSegments(mem, r, data, b, size, table, count, before);
    if !ok {
      SomeRejected(b, r);
      return false, 0;
    }
    EntryInside(r, start);
    AllAccepted(b, r);
    return RegionContains(r, start, 1), start;
  }

  lemma SomeRejected(b: seq<byte>, r: Regions)
    requires TableInFile(b) && exists i | 0 <= i < TableLength(b) :: !Accepted(b, r, Programs(b, TableLength(b))[i])
    ensures !Acceptable(b, r)
  {
  }

  lemma HeaderLong(b: seq<byte>)
    requires HeaderValid(b)
    ensures |b| >= HEADER_SIZE
  {
  }

  lemma TableWraps(table: word, count: nat)
    requires count < 65536 && table + count * PROGRAM_SIZE < TWO32
    ensures Wrap(table + Wrap(count * PROGRAM_SIZE)) == table + count * PROGRAM_SIZE
  {
  }

  lemma ClearedImage(mem: array<byte>, before: seq<byte>, b: seq<byte>, r: Regions)
    requires TableInFile(b) && mem.Length == |before| == TWO32
    requires forall a | 0 <= a < TWO32 ::
               mem[a] == if r.imageBase <= a < r.imageBase + r.imageSize then 0 else before[a]
    ensures Loaded(mem, before, b, r, Programs(b, 0))
  {
  }

  lemma TableEntry(b: seq<byte>, index: nat)
    requires TableInFile(b) && index < TableLength(b)
    ensures TableStart(b) + index * PROGRAM_SIZE + PROGRAM_SIZE <= |b|
    ensures Programs(b, TableLength(b))[index] == ProgramAt(b, TableStart(b) + index * PROGRAM_SIZE)
    ensures Programs(b, TableLength(b))[index] in Programs(b, TableLength(b))
    ensures Programs(b, index + 1) == Programs(b, index) + [Programs(b, TableLength(b))[index]]
  {
  }

  lemma NotLoaded(b: seq<byte>, r: Regions, p: Program)
    requires p.kind != PT_LOAD
    ensures Accepted(b, r, p)
  {
  }

  lemma Rejected(b: seq<byte>, r: Regions, p: Program)
    requires p.kind == PT_LOAD && (Wrap(p.offset + p.filesz) > |b| || !RegionContains(r, p.vaddr, p.memsz))
    ensures !Accepted(b, r, p)
  {
  }

  lemma Passed(b: seq<byte>, r: Regions, p: Program)
    requires Wrap(p.offset + p.filesz) <= |b| && RegionContains(r, p.vaddr, p.memsz)
    ensures Accepted(b, r, p)
  {
  }

  /** Outside the image nothing changes while the segments accepted so far end in it. */
  lemma OnlyImage(mem: array<byte>, before: seq<byte>, b: seq<byte>, r: Regions, n: nat)
    requires TableInFile(b) && n <= TableLength(b) && r.imageBase + r.imageSize < TWO32
    requires Loaded(mem, before, b, r, Programs(b, n))
    requires forall i | 0 <= i < n :: Accepted(b, r, Programs(b, TableLength(b))[i])
    ensures OutsideKept(mem, before, b, r)
  {
    hide ProgramAt, Accepted, FileFits, Covers, LoadedByte;
    if Contained(b, r) {
      forall a | 0 <= a < TWO32 && !InImage(r, a)
        ensures mem[a] == before[a]
      {
        forall j | 0 <= j < n
          ensures !Covers(Programs(b, n)[j], a)
        {
          var p := Programs(b, TableLength(b))[j];
          assert Programs(b, n)[j] == p && p in Programs(b, TableLength(b));
          ContainedIffFileFits(b, r, p);
        }
        UncoveredByte(b, r, Programs(b, n), a, before[a]);
      }
    }
  }

  lemma EntryInside(r: Regions, start: word)
    requires r.imageBase + r.imageSize < TWO32
    ensures RegionContains(r, start, 1) <==> InImage(r, start)
  {
    AcceptedMemoryInside(r, start, 1);
  }

  lemma AllAccepted(b: seq<byte>, r: Regions)
    requires TableInFile(b) && forall i | 0 <= i < TableLength(b) :: Accepted(b, r, Programs(b, TableLength(b))[i])
    ensures forall p | p in Programs(b, TableLength(b)) :: Accepted(b, r, p)
  {
  }
}
