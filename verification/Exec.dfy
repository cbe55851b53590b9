/** exec_run_argv in src/kernel/exec.c: the arguments go to the stack first, then the file is loaded below them. */
module Exec {
  import opened Machine
  import opened UserMemory
  import opened Elf
  import opened ArgumentStack
  import opened Ownership
  import opened Processes
  import opened Scheduler
  import opened Syscalls
  import Loader

  /** The file lies outside the user stack. */
  predicate OffStack(b: seq<byte>, data: word, r: Regions) {
    data + |b| <= r.stackBottom || r.stackTop <= data
  }

  /** The system after exec: unchanged unless the file is loaded, and then a process more if a slot is free. */
  function AfterExec(s: System, loaded: bool, name: seq<byte>, entry: word, r: Regions, capacity: nat): (System, bool) {
    if loaded then Executed(s, name, entry, r, capacity) else (s, false)
  }

  /** exec succeeds exactly when the file is there and acceptable and a process slot is free. Then a new process at the
      file's entry is current and running, its image is loaded and, when all segments end inside the image, its
      arguments can be read from the stack pointer; memory outside image and stack is untouched. */
  method RunArgv(k: Kernel, r: Regions, found: bool, data: word, size: word, ghost b: seq<byte>,
                 path: seq<byte>, argc: int, argv: seq<text>)
      returns (ok: bool, entry: word, sp: word)
    requires k.Valid() && Loader.FileAt(k.mem, data, b) && |b| == size
    requires Tame(b, data, r) && OffStack(b, data, r) && Separated(r)
    requires Clamp(argc) <= |argv| && Fits(r.stackBottom, r.stackTop, argv[..Clamp(argc)])
    modifies k.mem, k.table, k.table.slots, k.scheduler, k.scheduler.ring
    ensures k.Valid()
    ensures (k.View(), ok) == AfterExec(old(k.View()), found && Acceptable(b, r), path,
                                        if Acceptable(b, r) then Entry(b) else 0, r, k.scheduler.ring.Length)
    ensures ok <==> found && Acceptable(b, r) && exists i | 0 <= i < |old(k.table.slots[..])| ::
              Reusable(old(k.table.slots[..])[i])
    ensures ok ==> entry == Entry(b) && InImage(r, entry)
    ensures ok ==> Started(k, entry, r)
    ensures ok ==> forall a | 0 <= a < TWO32 && InImage(r, a) ::
              k.mem[a] == LoadedByte(b, r, Programs(b, TableLength(b)), a, 0)
    ensures ok && Contained(b, r) ==> sp % 4 == 0 && r.stackBottom <= sp <= r.stackTop
    ensures ok && Contained(b, r) ==> Decode(k.mem[..], sp) == argv[..Clamp(argc)]
    ensures Contained(b, r) ==> forall a | 0 <= a < TWO32 && !InImage(r, a) && !(r.stackBottom <= a < r.stackTop) ::
              k.mem[a] == old(k.mem[a])
  {
    hide Executed, InSlots, Decode, StackPointer, Acceptable, Contained, Tame, LoadedByte, Programs, HeaderValid, Half,
         WordAt,
         TableLength, Entry, TableInFile, OffStack, Fits, FdsOk, Reusable;
    ghost var before, slots := k.View(), k.table.slots[..];
    ok, entry, sp := PrepareAndLoad(k.mem, r, found, data, size, b, argc, argv);
    if !ok {
      return;
    }
    InsideImage(b, r);
    ExecFindsSlot(before, path, entry, r, k.scheduler.ring.Length);
    ghost var bytes := k.mem[..];
    ok := k.Exec(path, entry, r);
    assert k.mem[..] == bytes;
    if ok {
      NewInCall(before, path, entry, r, k.scheduler.ring.Length);
      NewProcessFields(before, path, entry, r, k.scheduler.ring.Length);
    }
  }

  /** The current process runs at the entry, in the given regions, with its console descriptors. */
  predicate Started(k: Kernel, entry: word, r: Regions)
    reads k, k.table, k.table.slots
  {
    0 <= k.table.current < k.table.slots.Length &&
    var p := k.table.slots[k.table.current];
    p.state == Running && p.entry == entry && p.regions == r && p.fds == FIRST_FDS
  }

  lemma NewProcessFields(s: System, name: seq<byte>, entry: word, r: Regions, capacity: nat)
    requires Executed(s, name, entry, r, capacity).1
    ensures var t := Executed(s, name, entry, r, capacity).0;
            HasCurrent(t) && Current(t).entry == entry && Current(t).regions == r
  {
    hide Registered, Selected;
  }

  /** The stack and the image: arguments first, then the file below them. */
  method PrepareAndLoad(mem: array<byte>, r: Regions, found: bool, data: word, size: word, ghost b: seq<byte>,
                        argc: int, argv: seq<text>)
      returns (ok: bool, entry: word, sp: word)
    requires Loader.FileAt(mem, data, b) && |b| == size && Tame(b, data, r) && OffStack(b, data, r) && Separated(r)
    requires Clamp(argc) <= |argv| && Fits(r.stackBottom, r.stackTop, argv[..Clamp(argc)])
    modifies mem
    ensures ok <==> found && Acceptable(b, r)
    ensures ok ==> entry == Entry(b) && InImage(r, entry)
    ensures ok ==> forall a | 0 <= a < TWO32 && InImage(r, a) ::
              mem[a] == LoadedByte(b, r, Programs(b, TableLength(b)), a, 0)
    ensures ok && Contained(b, r) ==> sp % 4 == 0 && r.stackBottom <= sp <= r.stackTop
    ensures ok && Contained(b, r) ==> Decode(mem[..], sp) == argv[..Clamp(argc)]
    ensures Contained(b, r) ==> forall a | 0 <= a < TWO32 && !InImage(r, a) && !(r.stackBottom <= a < r.stackTop) ::
              mem[a] == old(mem[a])
  {
    hide Decode, Block, StackPointer, Acceptable, Contained, Tame, LoadedByte, Programs, HeaderValid, Half, WordAt,
         TableLength,
         Entry, TableInFile;
    ghost var start, args := mem[..], argv[..Clamp(argc)];
    sp := PrepareStack(mem, r.stackBottom, r.stackTop, argc, argv);
    ghost var prepared := mem[..];
    FileUntouched(mem, start, data, b, r, sp);
    ok, entry := Loader.Load(mem, r, found, data, size, b);
    if Contained(b, r) {
      BlockSurvives(mem[..], prepared, r.stackTop, args);
      BlockDecodes(mem[..], r.stackTop, args);
    }
    if ok {
      InsideImage(b, r);
      forall a | 0 <= a < TWO32 && InImage(r, a)
        ensures mem[a] == LoadedByte(b, r, Programs(b, TableLength(b)), a, 0)
      {
        BeforeIrrelevant(b, r, Programs(b, TableLength(b)), a, prepared[a], 0);
      }
    }
  }

  lemma FileUntouched(mem: array<byte>, start: seq<byte>, data: word, b: seq<byte>, r: Regions, sp: word)
    requires mem.Length == |start| == TWO32 && data + |b| <= TWO32 && start[data..data + |b|] == b
    requires OffStack(b, data, r) && r.stackBottom <= sp && Kept(mem[..], start, sp, r.stackTop)
    ensures Loader.FileAt(mem, data, b)
  {
    assert mem[data..data + |b|] == start[data..data + |b|];
  }

  lemma InsideImage(b: seq<byte>, r: Regions)
    requires Acceptable(b, r)
    ensures TableInFile(b) && |b| >= HEADER_SIZE && InImage(r, Entry(b))
  {
  }

  /** What was in the image before does not matter. */
  lemma {:induction false} BeforeIrrelevant(b: seq<byte>, r: Regions, programs: seq<Program>, a: nat, x: byte, y: byte)
    requires InImage(r, a)
    ensures LoadedByte(b, r, programs, a, x) == LoadedByte(b, r, programs, a, y)
  {
    if programs != [] {
      BeforeIrrelevant(b, r, programs[..|programs| - 1], a, x, y);
    }
  }
}
