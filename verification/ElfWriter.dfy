/** Executable files written in the layout of include/bucketos/elf.h, as the counterpart of what src/kernel/exec.c
    reads. */
module ElfWriter {
  import opened Machine
  import opened Elf
  import opened UserMemory

  function HalfBytes(h: nat): (s: seq<byte>)
    requires h < 65536
    ensures |s| == 2
  {
    [h % 256, h / 256]
  }

  const IDENT: seq<byte> := [0x7F, 0x45, 0x4C, 0x46, 1, 1, 1, 0, 0, 0, 0, 0, 0, 0, 0, 0]

  function Kind(): (h: seq<byte>)
    ensures |h| == 24
  {
    IDENT + HalfBytes(2) + HalfBytes(3) + LeBytes(1)
  }

  function Places(entry: word): (h: seq<byte>)
    ensures |h| == 16
  {
    LeBytes(entry) + LeBytes(HEADER_SIZE) + LeBytes(0) + LeBytes(0)
  }

  function Counts(n: nat): (h: seq<byte>)
    requires n < 65536
    ensures |h| == 12
  {
    HalfBytes(HEADER_SIZE) + HalfBytes(PROGRAM_SIZE) + HalfBytes(n) + Zeros(6)
  }

  /** An executable's header, its program table right behind it. */
  function Header(entry: word, n: nat): (h: seq<byte>)
    requires n < 65536
    ensures |h| == HEADER_SIZE
  {
    Kind() + Places(entry) + Counts(n)
  }

  /** A program header; physical address, flags and alignment are nothing the kernel looks at. */
  function ProgramBytes(p: Program): (b: seq<byte>)
    ensures |b| == PROGRAM_SIZE
  {
    LeBytes(p.kind) + LeBytes(p.offset) + LeBytes(p.vaddr) + LeBytes(p.vaddr) + LeBytes(p.filesz) + LeBytes(p.memsz)
        + LeBytes(7) + LeBytes(4096)
  }

  function TableBytes(programs: seq<Program>): (b: seq<byte>)
    ensures |b| == PROGRAM_SIZE * |programs|
  {
    if programs == [] then [] else TableBytes(programs[..|programs| - 1]) + ProgramBytes(programs[|programs| - 1])
  }

  function File(entry: word, programs: seq<Program>, contents: seq<byte>): seq<byte>
    requires |programs| < 65536
  {
    Header(entry, |programs|) + TableBytes(programs) + contents
  }

  lemma HalfRoundTrip(b: seq<byte>, o: nat, h: nat)
    requires h < 65536 && o + 2 <= |b| && b[o..o + 2] == HalfBytes(h)
    ensures Half(b, o) == h
  {
    assert b[o] == b[o..o + 2][0] && b[o + 1] == b[o..o + 2][1];
  }

  lemma WordRoundTrip(b: seq<byte>, o: nat, w: word)
    requires o + 4 <= |b| && b[o..o + 4] == LeBytes(w)
    ensures WordAt(b, o) == w
  {
    hide LeBytes, LeWord;
    LeRoundTrip(w);
    var s := b[o..o + 4];
    assert s[0] == b[o] && s[1] == b[o + 1] && s[2] == b[o + 2] && s[3] == b[o + 3];
  }

  /** Where the fields of a written header are. */
  lemma HeaderFields(entry: word, n: nat)
    requires n < 65536
    ensures var h := Header(entry, n);
            && h[0..4] == LeBytes(ELF_MAGIC) && h[4] == 1 && h[5] == 1
            && h[16..18] == HalfBytes(2) && h[18..20] == HalfBytes(3) && h[24..28] == LeBytes(entry)
            && h[28..32] == LeBytes(HEADER_SIZE) && h[42..44] == HalfBytes(PROGRAM_SIZE) && h[44..46] == HalfBytes(n)
  {
    hide Kind, Places, Counts;
    KindFields();
    PlacesFields(entry);
    CountsFields(n);
    var h := Header(entry, n);
    assert forall i, j | 0 <= i <= j <= 24 :: h[i..j] == Kind()[i..j];
    assert forall i, j | 0 <= i <= j <= 16 :: h[24 + i..24 + j] == Places(entry)[i..j];
    assert forall i, j | 0 <= i <= j <= 12 :: h[40 + i..40 + j] == Counts(n)[i..j];
    assert h[24..28] == Places(entry)[0..4] && h[28..32] == Places(entry)[4..8];
    assert h[42..44] == Counts(n)[2..4] && h[44..46] == Counts(n)[4..6];
  }

  lemma KindFields()
    ensures var h := Kind();
            h[0..4] == LeBytes(ELF_MAGIC) && h[4] == 1 && h[5] == 1 && h[16..18] == HalfBytes(2)
                && h[18..20] == HalfBytes(3)
  {
    hide HalfBytes;
    assert LeBytes(ELF_MAGIC) == [0x7F, 0x45, 0x4C, 0x46];
  }

  lemma PlacesFields(entry: word)
    ensures Places(entry)[0..4] == LeBytes(entry) && Places(entry)[4..8] == LeBytes(HEADER_SIZE)
  {
    hide LeBytes;
  }

  lemma CountsFields(n: nat)
    requires n < 65536
    ensures Counts(n)[2..4] == HalfBytes(PROGRAM_SIZE) && Counts(n)[4..6] == HalfBytes(n)
  {
    hide HalfBytes;
  }

  lemma HeaderParses(entry: word, n: nat, rest: seq<byte>)
    requires n < 65536
    ensures var b := Header(entry, n) + rest;
            HeaderValid(b) && Entry(b) == entry && TableStart(b) == HEADER_SIZE && TableLength(b) == n
  {
    hide LeBytes, HalfBytes, Header, WordAt, Half;
    HeaderFields(entry, n);
    var h := Header(entry, n);
    var b := h + rest;
    assert forall i, j | 0 <= i <= j <= HEADER_SIZE :: b[i..j] == h[i..j];
    WordRoundTrip(b, 0, ELF_MAGIC);
    HalfRoundTrip(b, 16, 2);
    HalfRoundTrip(b, 18, 3);
    WordRoundTrip(b, 24, entry);
    WordRoundTrip(b, 28, HEADER_SIZE);
    HalfRoundTrip(b, 42, PROGRAM_SIZE);
    HalfRoundTrip(b, 44, n);
  }

  lemma ProgramParses(before: seq<byte>, p: Program, rest: seq<byte>)
    ensures ProgramAt(before + ProgramBytes(p) + rest, |before|) == p
  {
    hide LeBytes, LeWord;
    var b, o := before + ProgramBytes(p) + rest, |before|;
    assert forall i, j | 0 <= i <= j <= PROGRAM_SIZE :: b[o + i..o + j] == ProgramBytes(p)[i..j];
    WordRoundTrip(b, o, p.kind);
    WordRoundTrip(b, o + 4, p.offset);
    WordRoundTrip(b, o + 8, p.vaddr);
    WordRoundTrip(b, o + 16, p.filesz);
    WordRoundTrip(b, o + 20, p.memsz);
  }

  /** The first programs of a table are read back whatever follows them. */
  lemma {:induction false} TableParses(entry: word, programs: seq<Program>, n: nat, rest: seq<byte>)
    requires |programs| < 65536 && n <= |programs|
    requires HEADER_SIZE + PROGRAM_SIZE * |programs| <= |Header(entry, |programs|) + TableBytes(programs[..n]) + rest|
    ensures var b := Header(entry, |programs|) + TableBytes(programs[..n]) + rest;
            TableInFile(b)
            && TableLength(b) == |programs|
    ensures Programs(Header(entry, |programs|) + TableBytes(programs[..n]) + rest, n) == programs[..n]
    decreases n
  {
    hide Header, TableInFile, TableLength, TableStart, ProgramAt, ProgramBytes, HeaderValid;
    var b := Header(entry, |programs|) + TableBytes(programs[..n]) + rest;
    TableIn(entry, |programs|, TableBytes(programs[..n]) + rest, b);
    if n > 0 {
      var p := programs[n - 1];
      assert programs[..n][..n - 1] == programs[..n - 1];
      var before := Header(entry, |programs|) + TableBytes(programs[..n - 1]);
      assert b == Header(entry, |programs|) + TableBytes(programs[..n - 1]) + (ProgramBytes(p) + rest);
      assert b == before + ProgramBytes(p) + rest;
      TableParses(entry, programs, n - 1, ProgramBytes(p) + rest);
      ProgramParses(before, p, rest);
      LastProgram(b, n, p);
    }
  }

  lemma LastProgram(b: seq<byte>, n: nat, p: Program)
    requires TableInFile(b) && TableStart(b) == HEADER_SIZE && 1 <= n <= TableLength(b)
    requires p == ProgramAt(b, HEADER_SIZE + PROGRAM_SIZE * (n - 1))
    ensures Programs(b, n) == Programs(b, n - 1) + [p]
  {
  }

  lemma TableIn(entry: word, n: nat, rest: seq<byte>, b: seq<byte>)
    requires n < 65536 && b == Header(entry, n) + rest && HEADER_SIZE + PROGRAM_SIZE * n <= |b|
    ensures TableInFile(b) && TableLength(b) == n && TableStart(b) == HEADER_SIZE && Entry(b) == entry
  {
    hide Header, HeaderValid;
    HeaderParses(entry, n, rest);
  }

  /** A written file is read back: a valid header, the entry, and exactly its programs. */
  lemma FileRoundTrip(entry: word, programs: seq<Program>, contents: seq<byte>)
    requires |programs| < 65536
    ensures var b := File(entry, programs, contents);
            TableInFile(b) && Entry(b) == entry && TableLength(b) == |programs| && Programs(b, |programs|) == programs
  {
    hide Header, TableInFile, HeaderValid, TableLength, TableStart, Entry, Programs, TableBytes;
    var b := File(entry, programs, contents);
    assert programs[..|programs|] == programs;
    assert b == Header(entry, |programs|) + (TableBytes(programs) + contents);
    TableIn(entry, |programs|, TableBytes(programs) + contents, b);
    TableParses(entry, programs, |programs|, contents);
  }

  /** From one end to the other: when a segment of a written file names some of the file's contents, and no later
      segment reaches its memory, the image holds those contents, and zeros behind them. */
  lemma ImageHoldsContents(entry: word, programs: seq<Program>, contents: seq<byte>, r: Regions, k: nat, start: nat,
                           i: nat, before: byte)
    requires k < |programs| < 65536 && start + programs[k].filesz <= |contents|
    requires programs[k].kind == 1 && programs[k].offset == 52 + 32 * |programs| + start
    requires programs[k].filesz <= programs[k].memsz && i < programs[k].memsz
    requires forall j | k < j < |programs| :: !Reaches(programs[j], programs[k].vaddr + i)
    ensures var b := File(entry, programs, contents);
            && TableInFile(b) && TableLength(b) == |programs|
            && LoadedByte(b, r, Programs(b, TableLength(b)), programs[k].vaddr + i, before)
               == if i < programs[k].filesz then contents[start + i] else 0
  {
    hide Header, TableInFile, HeaderValid, TableLength, TableStart, Entry, Programs, TableBytes, LoadedByte;
    var b := File(entry, programs, contents);
    FileRoundTrip(entry, programs, contents);
    ContentsAt(entry, programs, contents, start + i);
    LoadedFromFile(b, r, programs, k, i, before);
  }

  lemma ContentsAt(entry: word, programs: seq<Program>, contents: seq<byte>, j: nat)
    requires |programs| < 65536
    ensures var b := File(entry, programs, contents); var first := 52 + 32 * |programs|;
            |b| == first + |contents| && (j < |contents| ==> b[first + j] == contents[j])
  {
    hide Header, TableBytes;
  }

  /** The user regions of the kernel. */
  const USER_REGIONS: Regions := Regions(0x40_0000, 0x10_0000, 0x7E_0000, 0x80_0000)

  /** A file whose one segment has a byte of memory, the last of the image, but two bytes of file. */
  function Overlong(): seq<byte> {
    File(0x40_0000, [Program(PT_LOAD, 0, 0x4F_FFFF, 2, 1)], [])
  }

  /** The loader accepts it, and the letter E of the file's magic number is written right behind the image. */
  lemma OverlongFileEscapes(before: byte)
    ensures var b := Overlong();
            && Acceptable(b, USER_REGIONS) && Tame(b, 0x30_0000, USER_REGIONS) && !Contained(b, USER_REGIONS)
               && !InImage(USER_REGIONS, 0x50_0000)
            && LoadedByte(b, USER_REGIONS, Programs(b, TableLength(b)), 0x50_0000, before) == 0x45
  {
    hide Header, HeaderValid, TableBytes, Programs;
    var p := Program(PT_LOAD, 0, 0x4F_FFFF, 2, 1);
    var b := Overlong();
    FileRoundTrip(0x40_0000, [p], []);
    MagicFirst(b);
    assert Accepted(b, USER_REGIONS, p) && !FileFits(USER_REGIONS, p) && Covers(p, 0x50_0000);
    assert Programs(b, 1) == [p];
    assert p in [p];
    LastSegmentWins(b, USER_REGIONS, [p], 0, 0x50_0000, before);
    assert SegmentByte(b, p, 0x50_0000) == b[1];
  }

  lemma MagicFirst(b: seq<byte>)
    requires b == Overlong()
    ensures |b| >= 2 && b[1] == 0x45
  {
    hide TableBytes, Places, Counts, HalfBytes, LeBytes;
    assert b[1] == Header(0x40_0000, 1)[1] == Kind()[1] == IDENT[1];
  }
}
