/** Executable files as src/kernel/exec.c reads them: 32-bit ELF headers and program headers, and the image that loading
    should leave in memory (the Program Header chapter of the System V ABI). */
module Elf {
  import opened Machine
  import opened UserMemory

  const HEADER_SIZE: nat := 52
  const PROGRAM_SIZE: nat := 32
  const ELF_MAGIC: word := 0x464C_457F
  const PT_LOAD: word := 1

  datatype Program = Program(kind: word, offset: word, vaddr: word, filesz: word, memsz: word)

  function Half(b: seq<byte>, o: nat): (h: nat)
    requires o + 2 <= |b|
    ensures h < 65536
  {
    var low: int, high: int := b[o], b[o + 1];
    low + 256 * high
  }

  /** elf_header_valid. */
  predicate HeaderValid(b: seq<byte>) {
    && |b| >= HEADER_SIZE
    && WordAt(b, 0) == ELF_MAGIC && b[4] == 1 && b[5] == 1
    && Half(b, 16) == 2 && Half(b, 18) == 3 && Half(b, 42) == PROGRAM_SIZE
  }

  function Entry(b: seq<byte>): word
    requires |b| >= HEADER_SIZE
  {
    WordAt(b, 24)
  }

  function TableStart(b: seq<byte>): word
    requires |b| >= HEADER_SIZE
  {
    WordAt(b, 28)
  }

  function TableLength(b: seq<byte>): (n: nat)
    requires |b| >= HEADER_SIZE
    ensures n < 65536
  {
    Half(b, 44)
  }

  /** A valid header whose program table lies in the file, without wrap-around. */
  predicate TableInFile(b: seq<byte>) {
    HeaderValid(b) && TableStart(b) + TableLength(b) * PROGRAM_SIZE <= |b|
  }

  function ProgramAt(b: seq<byte>, o: nat): Program
    requires o + PROGRAM_SIZE <= |b|
  {
    Program(WordAt(b, o), WordAt(b, o + 4), WordAt(b, o + 8), WordAt(b, o + 16), WordAt(b, o + 20))
  }

  /** The first n program headers. */
  function Programs(b: seq<byte>, n: nat): (s: seq<Program>)
    requires TableInFile(b) && n <= TableLength(b)
    ensures |s| == n
    ensures forall i | 0 <= i < n :: s[i] == ProgramAt(b, TableStart(b) + i * PROGRAM_SIZE)
  {
    if n == 0 then [] else Programs(b, n - 1) + [ProgramAt(b, TableStart(b) + (n - 1) * PROGRAM_SIZE)]
  }

  /** exec_region_contains, in 32-bit arithmetic. */
  predicate RegionContains(r: Regions, start: word, size: word) {
    start >= r.imageBase && Wrap(start + size) >= start && Wrap(start + size) <= Wrap(r.imageBase + r.imageSize)
  }

  predicate InImage(r: Regions, a: nat) {
    r.imageBase <= a < r.imageBase + r.imageSize
  }

  /** The two checks on a segment. */
  predicate Accepted(b: seq<byte>, r: Regions, p: Program) {
    p.kind != PT_LOAD || (Wrap(p.offset + p.filesz) <= |b| && RegionContains(r, p.vaddr, p.memsz))
  }

  /** The bytes a segment writes: its memory, and its file bytes even where they reach beyond its memory. */
  predicate Covers(p: Program, a: nat) {
    p.kind == PT_LOAD && p.vaddr <= a && (a < p.vaddr + p.memsz || a < p.vaddr + p.filesz)
  }

  /** A segment whose file bytes are in the file, and whose writes stay below the end of memory and off the file. */
  predicate SegmentTame(b: seq<byte>, data: word, p: Program) {
    && p.offset + p.filesz <= |b|
    && p.vaddr + p.filesz <= TWO32 && p.vaddr + p.memsz <= TWO32
    && (forall a | data <= a < data + |b| :: !Covers(p, a))
  }

  /** The file lies in memory outside the image, its table's end does not wrap, and its accepted segments are tame. */
  predicate Tame(b: seq<byte>, data: word, r: Regions) {
    && data + |b| <= TWO32 && r.imageBase + r.imageSize < TWO32
    && (data + |b| <= r.imageBase || r.imageBase + r.imageSize <= data)
    && (HeaderValid(b) ==> TableStart(b) + TableLength(b) * PROGRAM_SIZE < TWO32)
    && (TableInFile(b) ==> forall p | p in Programs(b, TableLength(b)) && p.kind == PT_LOAD && Accepted(b, r, p) ::
          SegmentTame(b, data, p))
  }

  /** The value of one byte when the given segments have been loaded in order, over an image of zeros. */
  function LoadedByte(b: seq<byte>, r: Regions, programs: seq<Program>, a: nat, before: byte): byte {
    if programs == [] then
      if InImage(r, a) then 0 else before
    else
      var p := programs[|programs| - 1];
      if Covers(p, a) then SegmentByte(b, p, a) else LoadedByte(b, r, programs[..|programs| - 1], a, before)
  }

  /** The file byte below filesz, zero above. */
  function SegmentByte(b: seq<byte>, p: Program, a: nat): byte
    requires Covers(p, a)
  {
    if a < p.vaddr + p.filesz && p.offset + (a - p.vaddr) < |b| then b[p.offset + (a - p.vaddr)] else 0
  }

  /** Each byte comes from the last segment that covers it. */
  lemma {:induction false} LastSegmentWins(b: seq<byte>, r: Regions, programs: seq<Program>, k: nat, a: nat,
                                           before: byte)
    requires k < |programs| && Covers(programs[k], a)
    requires forall j | k < j < |programs| :: !Covers(programs[j], a)
    ensures LoadedByte(b, r, programs, a, before) == SegmentByte(b, programs[k], a)
  {
    if k < |programs| - 1 {
      LastSegmentWins(b, r, programs[..|programs| - 1], k, a, before);
    }
  }

  /** A byte no segment covers is zero in the image and untouched elsewhere. */
  lemma {:induction false} UncoveredByte(b: seq<byte>, r: Regions, programs: seq<Program>, a: nat, before: byte)
    requires forall j | 0 <= j < |programs| :: !Covers(programs[j], a)
    ensures LoadedByte(b, r, programs, a, before) == if InImage(r, a) then 0 else before
  {
    if programs != [] {
      UncoveredByte(b, r, programs[..|programs| - 1], a, before);
    }
  }

  /** The address is among the bytes the segment has in the file, or among those it has in memory. */
  predicate Reaches(p: Program, a: nat) {
    p.kind == 1 && p.vaddr <= a < p.vaddr + (if p.filesz > p.memsz then p.filesz else p.memsz)
  }

  /** What loading leaves at the i-th byte of a segment that no later one reaches: the i-th byte from the segment's
      offset in the file on, as far as its file size goes, and zero behind that. */
  lemma LoadedFromFile(b: seq<byte>, r: Regions, programs: seq<Program>, k: nat, i: nat, before: byte)
    requires k < |programs| && Reaches(programs[k], programs[k].vaddr + i)
    requires programs[k].offset + programs[k].filesz <= |b|
    requires forall j | k < j < |programs| :: !Reaches(programs[j], programs[k].vaddr + i)
    ensures LoadedByte(b, r, programs, programs[k].vaddr + i, before)
            == if i < programs[k].filesz then b[programs[k].offset + i] else 0
  {
    var a := programs[k].vaddr + i;
    assert forall p :: Reaches(p, a) <==> Covers(p, a);
    LastSegmentWins(b, r, programs, k, a, before);
  }

  /** elf_header_valid, byte by byte: the magic number, 32 bits, little-endian, an executable, for this processor, with
      program headers of the known size. */
  lemma HeaderIffBytes(b: seq<byte>)
    ensures HeaderValid(b) <==>
              && |b| >= 52 && b[..6] == [0x7F, 0x45, 0x4C, 0x46, 1, 1]
              && b[16..20] == [2, 0, 3, 0] && b[42..44] == [32, 0]
  {
    if |b| >= 52 {
      assert WordAt(b, 0) == ELF_MAGIC <==> b[0] == 0x7F && b[1] == 0x45 && b[2] == 0x4C && b[3] == 0x46;
    }
  }

  /** Where no sum wraps around, a file is loaded exactly when its header is valid, its program table lies in it, every
      loadable segment has its file bytes in the file and its memory in the image, and the entry is in the image. */
  lemma AcceptableIff(b: seq<byte>, r: Regions)
    requires r.imageBase + r.imageSize < TWO32
    requires TableInFile(b) ==> forall p | p in Programs(b, TableLength(b)) :: p.offset + p.filesz < TWO32
    ensures Acceptable(b, r) <==>
              && HeaderValid(b) && WordAt(b, 28) + 32 * Half(b, 44) <= |b|
              && (forall p | p in Programs(b, TableLength(b)) && p.kind == 1 ::
                    p.offset + p.filesz <= |b| && r.imageBase <= p.vaddr
                    && p.vaddr + p.memsz <= r.imageBase + r.imageSize)
              && r.imageBase <= WordAt(b, 24) < r.imageBase + r.imageSize
  {
    hide Programs, WordAt;
    if TableInFile(b) {
      forall p | p in Programs(b, TableLength(b)) && p.kind == 1
        ensures Accepted(b, r, p) <==> p.offset + p.filesz <= |b| && r.imageBase <= p.vaddr
                                       && p.vaddr + p.memsz <= r.imageBase + r.imageSize
      {
        AcceptedMemoryInside(r, p.vaddr, p.memsz);
      }
    }
  }

  /** The segment's file bytes end inside the image. */
  predicate FileFits(r: Regions, p: Program) {
    p.kind == PT_LOAD && p.filesz > 0 ==> p.vaddr + p.filesz <= r.imageBase + r.imageSize
  }

  /** An accepted segment writes inside the image only, exactly when its file bytes fit too: filesz is never compared
      with memsz. */
  lemma ContainedIffFileFits(b: seq<byte>, r: Regions, p: Program)
    requires Accepted(b, r, p) && r.imageBase + r.imageSize < TWO32
    ensures (forall a: nat | Covers(p, a) :: InImage(r, a)) <==> FileFits(r, p)
  {
    if p.kind == PT_LOAD {
      AcceptedMemoryInside(r, p.vaddr, p.memsz);
      if !FileFits(r, p) {
        assert Covers(p, p.vaddr + p.filesz - 1);
        assert !InImage(r, p.vaddr + p.filesz - 1);
      }
    }
  }

  /** The check on a segment's memory is exact: the memory lies in the image. */
  lemma AcceptedMemoryInside(r: Regions, start: word, size: word)
    requires r.imageBase + r.imageSize < TWO32
    ensures RegionContains(r, start, size) <==> r.imageBase <= start && start + size <= r.imageBase + r.imageSize
  {
  }

  /** Segments that keep the rule filesz <= memsz are tame and end in the image: the loader's checks are enough for
      them. */
  lemma RuleKeptIsTame(b: seq<byte>, data: word, r: Regions, p: Program)
    requires p.kind == PT_LOAD && Accepted(b, r, p) && p.filesz <= p.memsz && p.offset + p.filesz < TWO32
    requires r.imageBase + r.imageSize < TWO32 && (data + |b| <= r.imageBase || r.imageBase + r.imageSize <= data)
    ensures SegmentTame(b, data, p) && FileFits(r, p)
  {
    AcceptedMemoryInside(r, p.vaddr, p.memsz);
  }

  /** The file is loaded: everything the loader checks. */
  predicate Acceptable(b: seq<byte>, r: Regions) {
    && TableInFile(b)
    && (forall p | p in Programs(b, TableLength(b)) :: Accepted(b, r, p))
    && InImage(r, Entry(b))
  }

  /** All segments end inside the image. */
  predicate Contained(b: seq<byte>, r: Regions) {
    TableInFile(b) ==> forall p | p in Programs(b, TableLength(b)) :: FileFits(r, p)
  }

  /** Loading the file leaves the byte at an address outside the image as it was. */
  predicate KeepsByte(b: seq<byte>, r: Regions, a: nat, before: byte)
    requires TableInFile(b)
  {
    InImage(r, a) || LoadedByte(b, r, Programs(b, TableLength(b)), a, before) == before
  }

  /** An accepted file leaves memory outside the image alone, whatever is there, exactly when the file bytes of all its
      segments end inside the image. */
  lemma OutsideKeptIffContained(b: seq<byte>, r: Regions)
    requires Acceptable(b, r) && r.imageBase + r.imageSize < TWO32
    ensures (forall a: nat, before: byte :: KeepsByte(b, r, a, before)) <==> Contained(b, r)
  {
    hide Covers, FileFits, LoadedByte, Accepted, Programs;
    var programs := Programs(b, TableLength(b));
    if Contained(b, r) {
      forall a: nat, before: byte
        ensures KeepsByte(b, r, a, before)
      {
        if !InImage(r, a) {
          CoveredInside(b, r, programs, a);
          UncoveredByte(b, r, programs, a, before);
        }
      }
    } else {
      var p :| p in programs && !FileFits(r, p);
      ContainedIffFileFits(b, r, p);
      var a: nat :| Covers(p, a) && !InImage(r, a);
      var i :| 0 <= i < |programs| && programs[i] == p;
      var k := LastCover(programs, i, a);
      var written := SegmentByte(b, programs[k], a);
      var before: byte := if written == 0 then 1 else 0;
      LastSegmentWins(b, r, programs, k, a, before);
      assert !KeepsByte(b, r, a, before);
    }
  }

  lemma CoveredInside(b: seq<byte>, r: Regions, programs: seq<Program>, a: nat)
    requires r.imageBase + r.imageSize < TWO32 && !InImage(r, a)
    requires forall p | p in programs :: Accepted(b, r, p) && FileFits(r, p)
    ensures forall j | 0 <= j < |programs| :: !Covers(programs[j], a)
  {
    hide Covers, FileFits, Accepted, InImage;
    forall j | 0 <= j < |programs|
      ensures !Covers(programs[j], a)
    {
      ContainedIffFileFits(b, r, programs[j]);
    }
  }

  /** The last segment that covers a byte. */
  lemma LastCover(programs: seq<Program>, i: nat, a: nat) returns (k: nat)
    requires i < |programs| && Covers(programs[i], a)
    ensures k < |programs| && Covers(programs[k], a)
    ensures forall j | k < j < |programs| :: !Covers(programs[j], a)
    decreases |programs| - i
  {
    hide Covers;
    if j :| i < j < |programs| && Covers(programs[j], a) {
      k := LastCover(programs, j, a);
    } else {
      k := i;
    }
  }
}
