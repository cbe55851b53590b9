/** The screen shared by the terminal and the process that holds the framebuffer: the lock of src/kernel/syscall.c and
    the console of src/kernel/console.c joined with the terminal of src/kernel/terminal.c. */
module SharedScreen {
  import opened Machine
  import opened UserMemory
  import opened Processes
  import opened Ownership
  import opened Runs
  import opened Syscalls
  import opened FramebufferCalls
  import opened ConsoleInput
  import Blit
  import Fairness
  import Framebuffer
  import Glyphs
  import Terminal
  import Transcript

  /** Exec, the system calls, a key, and a process storing to its own memory. */
  datatype Action =
    | StartProcess(name: seq<byte>, entry: word, regions: Regions)
    | OpenPath(path: seq<byte>, file: FileResult)
    | CloseFd(fd: word)
    | YieldCpu
    | ExitWith(code: word)
    | WriteOut(outFd: word, text: word, length: word)
    | ReadConsoleInto(inFd: word, buffer: word, requested: word)
    | ClearConsole
    | PutPixel(pixelFd: word, x: word, y: word, color: word)
    | FillRect(fillFd: word, fill: word)
    | BlitRect(blitFd: word, blit: word)
    | Key(c: byte)
    | Store(address: word, bytes: seq<byte>)

  /** What an action did to the console or to the display. */
  datatype Mark =
    | Unseen
    | Sent(text: seq<byte>)
    | Echoed(c: byte)
    | Wiped
    | Drew(x: word, y: word, width: word, height: word)

  // ---- what the marks say ----

  /** The transcript after one more action. */
  function Marked(log: Transcript.Log, m: Mark, color: byte, width: nat, height: nat): (after: Transcript.Log)
    requires Transcript.LogOk(log, width, height) && (width >= Transcript.VGA_WIDTH || height == 1)
    ensures Transcript.LogOk(after, width, height)
  {
    match m
    case Sent(text) => Transcript.PutText(log, text, color, width, height)
    case Echoed(c) =>
      Transcript.NeverUnsafe(log, c, width, height);
      Transcript.PutKeepsLog(log, c, color, width, height);
      Transcript.Put(log, c, color, width, height)
    case Wiped => Transcript.Cleared(color, width, height)
    case _ => log
  }

  /** The transcript after a run: everything written and typed since the screen was last cleared. */
  function Played(log: Transcript.Log, marks: seq<Mark>, color: byte, width: nat, height: nat): (after: Transcript.Log)
    requires Transcript.LogOk(log, width, height) && (width >= Transcript.VGA_WIDTH || height == 1)
    ensures Transcript.LogOk(after, width, height)
    decreases |marks|
  {
    if marks == [] then log
    else
      var n := |marks| - 1;
      Marked(Played(log, marks[..n], color, width, height), marks[n], color, width, height)
  }

  function SentBy(m: Mark): seq<byte> {
    if m.Sent? then m.text else []
  }

  /** The bytes that system calls wrote to the console. */
  function SentText(marks: seq<Mark>): seq<byte>
    decreases |marks|
  {
    if marks == [] then [] else SentText(marks[..|marks| - 1]) + SentBy(marks[|marks| - 1])
  }

  function ShownBy(m: Mark): seq<byte> {
    match m
    case Sent(text) => text
    case Echoed(c) => [c]
    case _ => []
  }

  /** The characters of a run's output: what was written, and what was typed. */
  function Shown(marks: seq<Mark>): seq<byte>
    decreases |marks|
  {
    if marks == [] then [] else Shown(marks[..|marks| - 1]) + ShownBy(marks[|marks| - 1])
  }

  lemma MarkedText(log: Transcript.Log, s: seq<byte>, m: Mark, color: byte, width: nat, height: nat)
    requires Transcript.LogOk(log, width, height) && (width >= Transcript.VGA_WIDTH || height == 1) && m != Wiped
    ensures Marked(Transcript.PutText(log, s, color, width, height), m, color, width, height)
            == Transcript.PutText(log, s + ShownBy(m), color, width, height)
  {
    hide Transcript.LogOk, Transcript.Put, Transcript.PutText, Transcript.Unsafe;
    if m.Sent? {
      TextGrows(log, s, m.text, color, width, height);
    } else if m.Echoed? {
      Transcript.PutTextThen(log, s, m.c, color, width, height);
    } else {
      assert s + ShownBy(m) == s;
    }
  }

  /** A run without a clear leaves the transcript of its output, character after character. */
  lemma {:induction false} PlayedIsText(log: Transcript.Log, marks: seq<Mark>, color: byte, width: nat, height: nat)
    requires Transcript.LogOk(log, width, height) && (width >= Transcript.VGA_WIDTH || height == 1)
    requires forall j | 0 <= j < |marks| :: marks[j] != Wiped
    ensures Played(log, marks, color, width, height)
            == Transcript.PutText(log, Shown(marks), color, width, height)
    decreases |marks|
  {
    hide Transcript.LogOk, Marked, ShownBy;
    if marks != [] {
      var n := |marks| - 1;
      PlayedIsText(log, marks[..n], color, width, height);
      MarkedText(log, Shown(marks[..n]), marks[n], color, width, height);
    }
  }

  /** After a clear nothing before it matters. */
  lemma {:induction false} PlayedSinceClear(log: Transcript.Log, a: seq<Mark>, b: seq<Mark>, color: byte, width: nat,
                                            height: nat)
    requires Transcript.LogOk(log, width, height) && (width >= Transcript.VGA_WIDTH || height == 1)
    ensures Transcript.LogOk(Transcript.Cleared(color, width, height), width, height)
    ensures Played(log, a + [Wiped] + b, color, width, height)
            == Played(Transcript.Cleared(color, width, height), b, color, width, height)
    decreases |b|
  {
    hide Transcript.LogOk, Transcript.Put, Transcript.PutText, Transcript.Unsafe;
    ClearedOk(log, color, width, height);
    var all := a + [Wiped] + b;
    var n := |all| - 1;
    if b == [] {
      assert all[n] == Wiped;
    } else {
      assert all[..n] == a + [Wiped] + b[..|b| - 1] && all[n] == b[|b| - 1];
      PlayedSinceClear(log, a, b[..|b| - 1], color, width, height);
    }
  }

  lemma ClearedOk(log: Transcript.Log, color: byte, width: nat, height: nat)
    requires Transcript.LogOk(log, width, height)
    ensures Transcript.LogOk(Transcript.Cleared(color, width, height), width, height)
  {
  }

  lemma {:induction false} TextGrows(log: Transcript.Log, a: seq<byte>, b: seq<byte>, color: byte, width: nat,
                                     height: nat)
    requires Transcript.LogOk(log, width, height) && (width >= Transcript.VGA_WIDTH || height == 1)
    ensures Transcript.PutText(log, a + b, color, width, height)
            == Transcript.PutText(Transcript.PutText(log, a, color, width, height), b, color, width, height)
    decreases |a|
  {
    hide Transcript.Put, Transcript.LogOk;
    if a == [] {
      assert a + b == b;
    } else {
      assert (a + b)[0] == a[0] && (a + b)[1..] == a[1..] + b;
      Transcript.NeverUnsafe(log, a[0], width, height);
      Transcript.PutKeepsLog(log, a[0], color, width, height);
      TextGrows(Transcript.Put(log, a[0], color, width, height), a[1..], b, color, width, height);
    }
  }

  predicate DrewOn(m: Mark, px: nat, py: nat) {
    m.Drew? && Blit.InRect(m.x, m.y, m.width, m.height, px, py)
  }

  /** Since an action, some call drew on the pixel. */
  predicate DrawnSince(marks: seq<Mark>, since: nat, px: nat, py: nat) {
    exists j | since <= j < |marks| :: DrewOn(marks[j], px, py)
  }

  /** The marks an action can leave. */
  predicate Leaves(a: Action, m: Mark) {
    match a
    case WriteOut(_, _, _) => m.Sent?
    case ClearConsole => m == Wiped
    case PutPixel(_, x, y, _) => m == Unseen || m == Drew(x, y, 1, 1)
    case FillRect(_, _) => m == Unseen || m.Drew?
    case BlitRect(_, _) => m == Unseen || m.Drew?
    case Key(c) => m == Unseen || m == Echoed(c)
    case _ => m == Unseen
  }

  /** A mark for each of the first actions; an action that is not allowed leaves none. */
  predicate MarksOf(actions: seq<Action>, marks: seq<Mark>) {
    |marks| <= |actions| && forall j | 0 <= j < |marks| :: marks[j] == Unseen || Leaves(actions[j], marks[j])
  }

  lemma OneMoreMark(actions: seq<Action>, marks: seq<Mark>, m: Mark)
    requires MarksOf(actions, marks) && |marks| < |actions| && (m == Unseen || Leaves(actions[|marks|], m))
    ensures MarksOf(actions, marks + [m])
  {
    hide Leaves;
  }

  /** A call draws only for the framebuffer's owner, in the rectangle it asks for, after the checks of its request. */
  predicate Draws(k: Kernel, d: Framebuffer.Display, a: Action, m: Mark)
    requires k.Valid()
    reads k, k.table, k.table.slots, k.scheduler, k.scheduler.ring, k.mem
  {
    && k.table.current >= 0
    && match a
       case PutPixel(fd, x, y, _) => MayDraw(k, d, fd) && x < d.width && y < d.height && m == Drew(x, y, 1, 1)
       case FillRect(fd, fill) =>
         && MayDraw(k, d, fd) && RectAccepted(d, k.CurrentRegions(), k.mem[..], fill)
         && var (x, y, width, height, _) := RectRequest(k.mem[..], fill); m == Drew(x, y, width, height)
       case BlitRect(fd, blit) =>
         && MayDraw(k, d, fd) && BlitChecked(d, k.CurrentRegions(), k.mem[..], blit)
         && var q := BlitRequest(k.mem[..], blit); m == Drew(q.dstX, q.dstY, q.width, q.height)
       case _ => false
  }

  // ---- what the screen shows ----

  /** The screen shows the grid: as pixels with the cursor underlined, or as VGA text with the hardware cursor. */
  ghost predicate ShowsGrid(t: Terminal.Terminal)
    requires t.Geometry()
    reads t, t.cells, t.vga, t.display.vram
  {
    if t.useFramebuffer then forall x: nat, y: nat | x < t.width && y < t.height :: t.ShowsCursorRightly(x, y)
    else t.VgaShows() && t.hardwareCursor == (t.row * Transcript.VGA_WIDTH + t.column) % 65536
  }

  /** The pixel that the rendering of a transcript has at a place. */
  function PictureAt(t: Terminal.Terminal, log: Transcript.Log, px: nat, py: nat): word
    requires t.Geometry() && Transcript.LogOk(log, t.width, t.height)
    requires px < Glyphs.FONT_WIDTH * t.width && py < Glyphs.FONT_HEIGHT * t.height
  {
    var x, y, top := px / Glyphs.FONT_WIDTH, py / Glyphs.FONT_HEIGHT, Transcript.Top(log, t.height);
    Glyphs.CellPixel(t.font, log.rows[top + y][x], px - Glyphs.FONT_WIDTH * x, py - Glyphs.FONT_HEIGHT * y,
                     x == log.column && y == log.row - top)
  }

  /** The display is the rendering of a transcript, but for what calls drew on it since an action. */
  ghost predicate ShowsPicture(t: Terminal.Terminal, log: Transcript.Log, marks: seq<Mark>, since: nat)
    requires t.Geometry() && t.useFramebuffer && Transcript.LogOk(log, t.width, t.height)
    reads t.display.vram
  {
    forall px: nat, py: nat | px < Glyphs.FONT_WIDTH * t.width && py < Glyphs.FONT_HEIGHT * t.height
                              && !DrawnSince(marks, since, px, py) ::
      t.display.Pixel(px, py) == PictureAt(t, log, px, py)
  }

  /** An unlocked display is the rendering of the transcript. */
  lemma GridIsPicture(t: Terminal.Terminal, marks: seq<Mark>)
    requires t.Valid() && t.useFramebuffer && !t.locked
    ensures Transcript.LogOk(t.log, t.width, t.height) && ShowsPicture(t, t.log, marks, |marks|)
  {
    forall px: nat, py: nat | px < Glyphs.FONT_WIDTH * t.width && py < Glyphs.FONT_HEIGHT * t.height
      ensures t.display.Pixel(px, py) == PictureAt(t, t.log, px, py)
    {
      hide Glyphs.CellPixel, t.display.Pixel;
      var x, y := px / Glyphs.FONT_WIDTH, py / Glyphs.FONT_HEIGHT;
      assert x < t.width && y < t.height && Glyphs.InCell(x, y, px, py);
      assert t.ShowsCursorRightly(x, y);
    }
  }

  // ---- the joined system ----

  /** The arrays of kernel, queue and terminal are different ones. */
  predicate Apart(k: Kernel, t: Terminal.Terminal, input: Input) {
    && t.display.vram != k.mem && t.display.vram as object != k.scheduler.ring
       && t.display.vram as object != k.table.slots
    && t.vga as object != k.mem && t.vga as object != k.scheduler.ring && t.vga as object != k.table.slots
    && t.cells as object != k.mem && t.cells as object != k.scheduler.ring && t.cells as object != k.table.slots
    && input.queue != k.mem && input.queue != t.display.vram && input.queue as object != t.vga
    && input.queue as object != t.cells && input.queue as object != k.scheduler.ring
    && input.queue as object != k.table.slots
  }

  /** A sound system, a queue, and a terminal with the same lock. */
  ghost predicate Joined(k: Kernel, t: Terminal.Terminal, input: Input)
    reads k, k.table, k.table.slots, k.scheduler, k.scheduler.ring, t, t.cells, t.vga, t.display.vram, input
  {
    && k.Valid() && t.Valid() && input.Valid() && Apart(k, t, input) && Inv(k.View(), k.scheduler.ring.Length)
    && k.locked == t.locked && (t.width >= Transcript.VGA_WIDTH || t.height == 1)
  }

  /** Calls and stores come from a live process whose regions are in memory; processes start while exec is safe. */
  predicate Allowed(k: Kernel, a: Action)
    reads k, k.table, k.table.slots
  {
    match a
    case StartProcess(_, _, _) =>
      FirstReusable(k.table.slots[..], 0) == k.table.slots.Length || k.table.nextPid != k.owner
    case Key(_) => true
    case _ =>
      && 0 <= k.table.current < k.table.slots.Length
      && Live(k.table.slots[k.table.current]) && Holds(k.table.slots[k.table.current].regions, k.mem)
      && (a.Store? ==> |a.bytes| < TWO32)
  }

  predicate NobodyHolds(k: Kernel)
    reads k.table, k.table.slots
  {
    forall i | 0 <= i < k.table.slots.Length :: !HoldsFramebuffer(k.table.slots[i])
  }

  /** Kernel, queue and terminal at power-on. */
  method PowerOn(slots: nat, capacity: nat, mem: array<byte>, display: Framebuffer.Display, font: Glyphs.Font,
                 vga: array<nat>, room: nat)
      returns (k: Kernel, t: Terminal.Terminal, input: Input)
    requires slots <= capacity && room > 0 && display.Valid() && Glyphs.FontOk(font)
    requires vga.Length == Transcript.VGA_WIDTH * Terminal.VGA_HEIGHT
    requires vga as object != display.vram && vga as object != mem && mem != display.vram
    modifies display.vram, vga
    ensures t.width >= Transcript.VGA_WIDTH || t.height == 1 ==> Joined(k, t, input)
    ensures k.Valid() && k.mem == mem && t.display == display && k.View() == Initial(slots) && k.output == []
    ensures input.Valid() && input.Pending() == [] && input.queue.Length == room
    ensures t.Valid() && ShowsGrid(t) && !t.locked && t.log == Transcript.Cleared(0x0F, t.width, t.height)
  {
    k := new Kernel(slots, capacity, mem);
    t := new Terminal.Terminal(display, font, vga);
    input := new Input(room);
    InitialIsSound(slots, capacity);
  }

  // ---- one action ----

  /** What the terminal is told when a call is over: while it is locked after that, no pixel has changed. */
  method PassLock(k: Kernel, t: Terminal.Terminal)
    requires k.Valid() && t.Valid() && t.vga as object != k.table.slots && t.vga as object != k.scheduler.ring
    requires t.display.vram as object != k.table.slots && t.display.vram as object != k.scheduler.ring
    modifies t, t.display.vram, t.vga
    ensures k.Valid() && t.Valid() && t.locked == k.locked && k.View() == old(k.View())
    ensures t.log == old(t.log) && t.color == old(t.color)
    ensures t.locked ==> unchanged(t.display.vram)
  {
    hide k.View, Inv;
    t.SetFramebufferLock(k.locked);
  }

  predicate ChangesHolders(a: Action) {
    a.StartProcess? || a.OpenPath? || a.CloseFd? || a.YieldCpu? || a.ExitWith?
  }

  /** The event of the system that an action stands for. */
  ghost function EventOf(a: Action, d: Framebuffer.Display): Event
    requires ChangesHolders(a)
  {
    match a
    case StartProcess(name, entry, regions) => Exec(name, entry, regions)
    case OpenPath(path, file) => Open(Named(path, file), Available(d))
    case CloseFd(fd) => Close(fd)
    case YieldCpu => Yield
    case ExitWith(code) => Exit(code)
  }

  method HolderCall(k: Kernel, d: Framebuffer.Display, a: Action)
    requires k.Valid() && ChangesHolders(a) && (a.OpenPath? ==> k.table.current >= 0)
    modifies k`owner, k`locked, k.table, k.table.slots, k.scheduler, k.scheduler.ring
    ensures k.Valid() && k.View() == Step(old(k.View()), EventOf(a, d), k.scheduler.ring.Length)
  {
    hide Opened, Closed, Left, YieldedSystem, Executed;
    match a {
      case StartProcess(name, entry, regions) => var ok := k.Exec(name, entry, regions);
      case OpenPath(path, file) => var fd := k.OpenNamed(path, file, Available(d));
      case CloseFd(fd) => var r := k.Close(fd);
      case YieldCpu => k.Yield();
      case ExitWith(code) => k.Exit(code);
    }
  }

  lemma AllowedIsEnabled(k: Kernel, d: Framebuffer.Display, a: Action)
    requires k.Valid() && Allowed(k, a) && ChangesHolders(a)
    ensures Enabled(k.View(), EventOf(a, d))
  {
  }

  /** The system calls that change who holds what, and exec. */
  method ChangeHolders(k: Kernel, t: Terminal.Terminal, ghost input: Input, a: Action)
    requires Joined(k, t, input) && Allowed(k, a) && ChangesHolders(a)
    modifies k`owner, k`locked, k.table, k.table.slots, k.scheduler, k.scheduler.ring, t, t.display.vram, t.vga
    ensures Joined(k, t, input) && t.log == old(t.log) && t.color == old(t.color) && k.output == old(k.output)
    ensures Leaves(a, Unseen) && (t.locked ==> unchanged(t.display.vram))
  {
    hide Inv, k.View, Step, EventOf, Enabled;
    AllowedIsEnabled(k, t.display, a);
    StepKeeps(k.View(), EventOf(a, t.display), k.scheduler.ring.Length);
    HolderCall(k, t.display, a);
    PassLock(k, t);
  }

  predicate IsDrawing(a: Action) {
    a.PutPixel? || a.FillRect? || a.BlitRect?
  }

  predicate Drawable(k: Kernel, d: Framebuffer.Display)
    reads k.table, k.table.slots
  {
    && d.vram != k.mem && d.vram as object != k.scheduler.ring && d.vram as object != k.table.slots
    && 0 <= k.table.current < k.table.slots.Length && Holds(k.CurrentRegions(), k.mem)
  }

  method FillCall(k: Kernel, d: Framebuffer.Display, fd: word, fill: word) returns (ghost m: Mark)
    requires k.Valid() && d.Valid() && Drawable(k, d)
    modifies d.vram
    ensures m == Unseen ==> unchanged(d.vram)
    ensures m != Unseen ==> Draws(k, d, FillRect(fd, fill), m) && Blit.OutsideKept(d, m.x, m.y, m.width, m.height)
  {
    hide MayDraw, RectAccepted, RectRequest, Blit.OutsideKept, Holds, d.Valid, k.Valid, d.Pixel;
    var r := FbFillRect(k, d, fd, fill);
    m := Unseen;
    if r == 0 {
      ghost var (x, y, width, height, _) := RectFilled(k, d, fill);
      m := Drew(x, y, width, height);
    }
  }

  /** The rectangle an accepted fill asks for. */
  ghost function RectFilled(k: Kernel, d: Framebuffer.Display, fill: word): (word, word, word, word, word)
    requires 0 <= k.table.current < k.table.slots.Length && RectAccepted(d, k.CurrentRegions(), k.mem[..], fill)
    reads k, k.table, k.table.slots, k.mem
  {
    RectRequest(k.mem[..], fill)
  }

  method BlitCall(k: Kernel, d: Framebuffer.Display, fd: word, blit: word) returns (ghost m: Mark)
    requires k.Valid() && d.Valid() && Drawable(k, d)
    modifies d.vram
    ensures m == Unseen ==> unchanged(d.vram)
    ensures m != Unseen ==> Draws(k, d, BlitRect(fd, blit), m) && Blit.OutsideKept(d, m.x, m.y, m.width, m.height)
  {
    hide MayDraw, BlitAccepted, BlitRequest, Blit.OutsideKept, Holds, d.Valid, k.Valid, d.Pixel, Blit.Checked,
         ValidRange;
    var r := FbBlit(k, d, fd, blit);
    m := Unseen;
    if MayDraw(k, d, fd) && BlitChecked(d, k.CurrentRegions(), k.mem[..], blit) {
      ghost var q := BlitRequest(k.mem[..], blit);
      m := Drew(q.dstX, q.dstY, q.width, q.height);
    }
  }

  method DrawCall(k: Kernel, d: Framebuffer.Display, a: Action) returns (ghost m: Mark)
    requires k.Valid() && d.Valid() && Drawable(k, d) && IsDrawing(a)
    modifies d.vram
    ensures Leaves(a, m) && (m == Unseen ==> unchanged(d.vram))
    ensures m != Unseen ==> Draws(k, d, a, m) && Blit.OutsideKept(d, m.x, m.y, m.width, m.height)
  {
    hide MayDraw, RectAccepted, RectRequest, BlitChecked, BlitRequest, Blit.OutsideKept, Holds, d.Valid, k.Valid;
    match a {
      case PutPixel(fd, x, y, color) =>
        var r := FbPutPixel(k, d, fd, x, y, color);
        m := if r == 0 then Drew(x, y, 1, 1) else Unseen;
      case FillRect(fd, fill) => m := FillCall(k, d, fd, fill);
      case BlitRect(fd, blit) => m := BlitCall(k, d, fd, blit);
    }
  }

  /** The calls that draw. The terminal is locked then: a process with a framebuffer descriptor is the owner. */
  method Draw(k: Kernel, t: Terminal.Terminal, ghost input: Input, a: Action) returns (ghost m: Mark)
    requires Joined(k, t, input) && Allowed(k, a) && IsDrawing(a)
    modifies t.display.vram
    ensures Joined(k, t, input) && Leaves(a, m)
    ensures m == Unseen ==> unchanged(t.display.vram)
    ensures m != Unseen ==> t.locked && old(Draws(k, t.display, a, m))
                            && Blit.OutsideKept(t.display, m.x, m.y, m.width, m.height)
  {
    hide Inv, k.View, Blit.OutsideKept, RectAccepted, BlitChecked, RectRequest, BlitRequest, MayDraw;
    JoinedTerminal(k, t, input);
    m := DrawCall(k, t.display, a);
    if m != Unseen {
      DrawerHasLock(k, t, a, m);
    }
    if t.locked {
      t.DrawnOver();
    }
  }

  lemma DrawerHasLock(k: Kernel, t: Terminal.Terminal, a: Action, m: Mark)
    requires k.Valid() && Inv(k.View(), k.scheduler.ring.Length) && Draws(k, t.display, a, m)
    ensures k.locked
  {
    hide Inv, k.View, MayDraw, RectAccepted, BlitChecked, RectRequest, BlitRequest;
    OwnerHasLock(k, t.display, if a.PutPixel? then a.pixelFd else if a.FillRect? then a.fillFd else a.blitFd);
  }

  lemma OwnerHasLock(k: Kernel, d: Framebuffer.Display, fd: word)
    requires k.Valid() && Inv(k.View(), k.scheduler.ring.Length) && MayDraw(k, d, fd)
    ensures k.locked
  {
    hide Fairness.RingOk, Fairness.AllRegistered, SlotsOk;
    OneHolds(k.table.slots[k.table.current], fd);
  }

  predicate Prints(a: Action) {
    a.WriteOut? || a.ClearConsole? || a.Key?
  }

  method WriteCall(k: Kernel, t: Terminal.Terminal, ghost input: Input, fd: word, text: word, length: word)
    returns (ghost m: Mark)
    requires Joined(k, t, input) && Allowed(k, WriteOut(fd, text, length))
    modifies k`output, t, t.cells, t.display.vram, t.vga
    ensures Joined(k, t, input) && m.Sent? && k.output == old(k.output) + m.text
    ensures t.color == old(t.color) && (t.locked ==> unchanged(t.display.vram))
    ensures Transcript.LogOk(old(t.log), t.width, t.height)
    ensures t.log == Marked(old(t.log), m, t.color, t.width, t.height)
  {
    hide Inv, k.View, ValidRange, Transcript.LogOk;
    JoinedTerminal(k, t, input);
    var before := |k.output|;
    var r;
    ghost var count;
    r, count := k.Write(fd, text, length);
    m := Sent(k.output[before..]);
    t.WriteText(k.output[before..]);
  }

  method ClearCall(k: Kernel, t: Terminal.Terminal, ghost input: Input)
    requires Joined(k, t, input)
    modifies t, t.cells, t.display.vram, t.vga
    ensures Joined(k, t, input) && t.color == old(t.color) && (t.locked ==> unchanged(t.display.vram))
    ensures t.log == Transcript.Cleared(t.color, t.width, t.height)
  {
    hide Inv, k.View, Transcript.LogOk;
    t.Clear();
  }

  /** console_push_input: a key is shown exactly when it finds room in the queue. */
  method KeyTyped(k: Kernel, t: Terminal.Terminal, input: Input, c: byte) returns (ghost m: Mark)
    requires Joined(k, t, input)
    modifies input`tail, input`count, input.queue, t, t.cells, t.display.vram, t.vga
    ensures Joined(k, t, input) && m == if |old(input.Pending())| < input.queue.Length then Echoed(c) else Unseen
    ensures t.color == old(t.color) && (t.locked ==> unchanged(t.display.vram))
    ensures Transcript.LogOk(old(t.log), t.width, t.height)
    ensures t.log == Marked(old(t.log), m, t.color, t.width, t.height)
  {
    hide Inv, k.View, Transcript.LogOk, Transcript.Put;
    JoinedTerminal(k, t, input);
    Transcript.NeverUnsafe(t.log, c, t.width, t.height);
    var accepted := input.Push(c);
    m := Unseen;
    if accepted {
      m := Echoed(c);
      t.PutChar(c);
    }
  }

  /** Output, a typed character and clearing reach the transcript, locked or not; a locked display is left alone. */
  method Print(k: Kernel, t: Terminal.Terminal, input: Input, a: Action) returns (ghost m: Mark)
    requires Joined(k, t, input) && Allowed(k, a) && Prints(a)
    modifies k`output, input`tail, input`count, input.queue, t, t.cells, t.display.vram, t.vga
    ensures Joined(k, t, input) && Leaves(a, m) && k.output == old(k.output) + SentBy(m)
    ensures Transcript.LogOk(old(t.log), t.width, t.height) && t.color == old(t.color)
    ensures t.log == Marked(old(t.log), m, t.color, t.width, t.height)
    ensures t.locked ==> unchanged(t.display.vram)
  {
    hide Joined, Allowed, Transcript.LogOk, Transcript.Put, Transcript.PutText;
    JoinedTerminal(k, t, input);
    match a {
      case WriteOut(fd, text, length) => m := WriteCall(k, t, input, fd, text, length);
      case ClearConsole =>
        m := Wiped;
        ClearCall(k, t, input);
      case Key(c) => m := KeyTyped(k, t, input, c);
    }
  }

  predicate TouchesMemory(a: Action) {
    a.ReadConsoleInto? || a.Store?
  }

  /** Bytes that come into a process's memory, from the console or from itself, are not seen. */
  method StoreBytes(k: Kernel, ghost t: Terminal.Terminal, input: Input, a: Action)
    requires Joined(k, t, input) && Allowed(k, a) && TouchesMemory(a)
    modifies k.mem, input`head, input`count
    ensures Joined(k, t, input) && Leaves(a, Unseen) && unchanged(t.display.vram)
  {
    hide Inv, k.View, ValidRange;
    if a.Store? {
      var ok := CopyToUser(k.mem, k.CurrentRegions(), a.address, a.bytes);
    } else if k.Using(a.inFd) && k.KindOf(a.inFd) == Console {
      var r := ReadConsole(k, input, a.inFd, a.buffer, a.requested);
    }
  }

  /** One action: it leaves its mark on the transcript; a display that is locked afterwards has changed at most in the
      rectangle that a call drew. */
  method Act(k: Kernel, t: Terminal.Terminal, input: Input, a: Action) returns (ghost m: Mark)
    requires Joined(k, t, input) && Allowed(k, a)
    modifies k, k.table, k.table.slots, k.scheduler, k.scheduler.ring, k.mem, input, input.queue
    modifies t, t.cells, t.display.vram, t.vga
    ensures Joined(k, t, input) && Leaves(a, m) && k.output == old(k.output) + SentBy(m)
    ensures Transcript.LogOk(old(t.log), t.width, t.height) && t.color == old(t.color)
    ensures t.log == Marked(old(t.log), m, t.color, t.width, t.height)
    ensures m.Drew? ==> t.locked && old(t.locked) && old(Draws(k, t.display, a, m))
                        && Blit.OutsideKept(t.display, m.x, m.y, m.width, m.height)
    ensures t.locked && !m.Drew? ==> unchanged(t.display.vram)
  {
    hide Joined, Transcript.LogOk, Draws, Blit.OutsideKept, Allowed, Transcript.Put, Transcript.PutText;
    m := Unseen;
    JoinedTerminal(k, t, input);
    if Prints(a) {
      m := Print(k, t, input, a);
    } else if ChangesHolders(a) {
      ChangeHolders(k, t, input, a);
    } else if TouchesMemory(a) {
      StoreBytes(k, t, input, a);
    } else {
      m := Draw(k, t, input, a);
    }
  }

  lemma JoinedTerminal(k: Kernel, t: Terminal.Terminal, input: Input)
    requires Joined(k, t, input)
    ensures k.Valid() && t.Valid() && Transcript.LogOk(t.log, t.width, t.height) && k.locked == t.locked
    ensures t.display.Valid() && t.Geometry() && (t.width >= Transcript.VGA_WIDTH || t.height == 1)
  {
    t.ValidLog();
  }

  // ---- whole runs ----

  /** What was drawn stays drawn. */
  lemma DrawnGrows(marks: seq<Mark>, since: nat, m: Mark)
    ensures forall px: nat, py: nat | DrawnSince(marks, since, px, py) :: DrawnSince(marks + [m], since, px, py)
    ensures since <= |marks| ==> forall px: nat, py: nat | DrewOn(m, px, py) :: DrawnSince(marks + [m], since, px, py)
  {
    hide DrewOn;
    var more := marks + [m];
    assert more[|marks|] == m;
    forall px: nat, py: nat | DrawnSince(marks, since, px, py)
      ensures DrawnSince(more, since, px, py)
    {
      var j :| since <= j < |marks| && DrewOn(marks[j], px, py);
      assert DrewOn(more[j], px, py);
    }
  }

  /** Drawing in a rectangle leaves the rest of the picture. */
  twostate lemma PictureDrawn(p: (Terminal.Terminal, Transcript.Log, seq<Mark>, nat, Mark))
    requires p.0.Geometry() && p.0.useFramebuffer && Transcript.LogOk(p.1, p.0.width, p.0.height)
    requires p.3 <= |p.2| && p.4.Drew? && Blit.OutsideKept(p.0.display, p.4.x, p.4.y, p.4.width, p.4.height)
    requires old(ShowsPicture(p.0, p.1, p.2, p.3))
    ensures ShowsPicture(p.0, p.1, p.2 + [p.4], p.3)
  {
    hide p.0.display.Pixel, PictureAt, DrawnSince, Blit.InRect;
    var (t, log, marks, since, m) := p;
    DrawnGrows(marks, since, m);
    forall px: nat, py: nat | px < Glyphs.FONT_WIDTH * t.width && py < Glyphs.FONT_HEIGHT * t.height
                              && !DrawnSince(marks + [m], since, px, py)
      ensures t.display.Pixel(px, py) == PictureAt(t, log, px, py)
    {
      assert t.display.OnScreen(px, py) && !DrewOn(m, px, py) && !DrawnSince(marks, since, px, py);
    }
  }

  /** A display left alone keeps showing the picture. */
  lemma PictureStays(t: Terminal.Terminal, log: Transcript.Log, marks: seq<Mark>, since: nat, m: Mark)
    requires t.Geometry() && t.useFramebuffer && Transcript.LogOk(log, t.width, t.height)
    requires ShowsPicture(t, log, marks, since)
    ensures ShowsPicture(t, log, marks + [m], since)
  {
    hide t.display.Pixel, PictureAt, DrawnSince;
    DrawnGrows(marks, since, m);
  }

  /** The marks account for the transcript and, while a display is locked whose lock was seen being taken, for what it
      shows. */
  ghost predicate Accounts(t: Terminal.Terminal, start: Transcript.Log, marks: seq<Mark>, since: nat, known: bool)
    requires t.Geometry() && Transcript.LogOk(start, t.width, t.height)
    requires t.width >= Transcript.VGA_WIDTH || t.height == 1
    reads t, t.display.vram
  {
    && t.log == Played(start, marks, t.color, t.width, t.height)
    && (known && t.useFramebuffer && t.locked ==>
          since <= |marks|
          && ShowsPicture(t, Played(start, marks[..since], t.color, t.width, t.height), marks, since))
  }

  lemma PlayedMore(start: Transcript.Log, marks: seq<Mark>, m: Mark, since: nat, color: byte, width: nat, height: nat)
    requires Transcript.LogOk(start, width, height) && (width >= Transcript.VGA_WIDTH || height == 1)
    requires since <= |marks|
    ensures Played(start, marks + [m], color, width, height)
            == Marked(Played(start, marks, color, width, height), m, color, width, height)
    ensures (marks + [m])[..since] == marks[..since] && marks[..|marks|] == marks
    ensures SentText(marks + [m]) == SentText(marks) + SentBy(m)
  {
    hide Marked, Transcript.LogOk;
    var more := marks + [m];
    assert more[..|more| - 1] == marks && more[|more| - 1] == m;
  }

  /** One action, with its mark. */
  method ActMarked(k: Kernel, t: Terminal.Terminal, input: Input, a: Action, ghost start: Transcript.Log,
                   ghost marks: seq<Mark>, ghost since: nat, ghost known: bool)
    returns (ghost m: Mark, ghost since': nat)
    requires Joined(k, t, input) && Allowed(k, a)
    requires t.Geometry() && Transcript.LogOk(start, t.width, t.height)
    requires Accounts(t, start, marks, since, known) && since <= |marks|
    modifies k, k.table, k.table.slots, k.scheduler, k.scheduler.ring, k.mem, input, input.queue
    modifies t, t.cells, t.display.vram, t.vga
    ensures Joined(k, t, input) && Leaves(a, m) && k.output == old(k.output) + SentBy(m) && t.color == old(t.color)
    ensures t.Geometry() && since' <= |marks| + 1 && Accounts(t, start, marks + [m], since', known)
  {
    hide Joined, Allowed, Transcript.LogOk, Marked, Leaves, Draws, Blit.OutsideKept, ShowsPicture, t.Geometry;
    JoinedTerminal(k, t, input);
    ghost var before, locked := t.log, t.locked;
    since' := if locked then since else |marks|;
    if t.useFramebuffer && !locked {
      GridIsPicture(t, marks);
    }
    m := Act(k, t, input, a);
    JoinedTerminal(k, t, input);
    PlayedMore(start, marks, m, since', t.color, t.width, t.height);
    if known && t.useFramebuffer && t.locked {
      ghost var log := Played(start, marks[..since'], t.color, t.width, t.height);
      if m.Drew? {
        PictureDrawn((t, log, marks, since', m));
      } else {
        PictureStays(t, log, marks, since', m);
      }
    }
  }

  /** Over every run of exec, system calls, keys and stores: the grid is always the window of everything written and
      typed since the last clear. Whenever no process holds a framebuffer descriptor, and in text mode always, the
      screen shows the grid. While a process holds one, the display is what it was before the framebuffer was taken, the
      rendering of the transcript at that time, but for the rectangles that accepted calls have drawn since. */
  method RunShared(k: Kernel, t: Terminal.Terminal, input: Input, actions: seq<Action>)
      returns (ghost marks: seq<Mark>, ghost since: nat)
    requires Joined(k, t, input)
    modifies k, k.table, k.table.slots, k.scheduler, k.scheduler.ring, k.mem, input, input.queue
    modifies t, t.cells, t.display.vram, t.vga
    ensures Joined(k, t, input) && t.Geometry() && t.color == old(t.color)
    ensures NobodyHolds(k) || !t.useFramebuffer ==> ShowsGrid(t)
    ensures |marks| == |actions| && MarksOf(actions, marks)
    ensures Transcript.LogOk(old(t.log), t.width, t.height)
    ensures t.log == Played(old(t.log), marks, t.color, t.width, t.height)
    ensures k.output == old(k.output) + SentText(marks)
    ensures t.useFramebuffer && !old(k.locked) && !NobodyHolds(k) ==>
              since <= |marks|
              && ShowsPicture(t, Played(old(t.log), marks[..since], t.color, t.width, t.height), marks, since)
  {
    hide Joined, Transcript.LogOk, Allowed, Leaves, Marked, Played, ShowsPicture, t.Geometry, ShowsGrid, MarksOf,
         SentText,
         NobodyHolds;
    JoinedTerminal(k, t, input);
    NoMarks(t, t.log, actions, !k.locked);
    marks, since := [], 0;
    for n := 0 to |actions|
      invariant Joined(k, t, input) && t.Geometry() && t.color == old(t.color)
      invariant |marks| == n && since <= n
      invariant MarksOf(actions, marks)
      invariant k.output == old(k.output) + SentText(marks)
      invariant Accounts(t, old(t.log), marks, since, !old(k.locked))
    {
      ghost var m := Unseen;
      if Allowed(k, actions[n]) {
        ghost var output := k.output;
        m, since := ActMarked(k, t, input, actions[n], old(t.log), marks, since, !old(k.locked));
        SentMore(old(k.output), output, k.output, marks, m);
        OneMoreMark(actions, marks, m);
        marks := marks + [m];
      } else {
        NothingMore(t, old(t.log), marks, since, !old(k.locked));
        OneMoreMark(actions, marks, Unseen);
        marks := marks + [Unseen];
      }
    }
    LockedIffHeld(k, t, input);
  }

  lemma NoMarks(t: Terminal.Terminal, start: Transcript.Log, actions: seq<Action>, known: bool)
    requires t.Geometry() && Transcript.LogOk(start, t.width, t.height) && start == t.log
    requires (t.width >= Transcript.VGA_WIDTH || t.height == 1) && (known ==> !t.locked)
    ensures Accounts(t, start, [], 0, known) && MarksOf(actions, []) && SentText([]) == []
  {
  }

  lemma SentMore(start: seq<byte>, before: seq<byte>, now: seq<byte>, marks: seq<Mark>, m: Mark)
    requires before == start + SentText(marks) && now == before + SentBy(m)
    ensures now == start + SentText(marks + [m])
  {
    hide SentBy;
    var more := marks + [m];
    assert more[..|more| - 1] == marks && more[|more| - 1] == m;
    AppendTwice(start, SentText(marks), SentBy(m));
  }

  lemma AppendTwice(a: seq<byte>, b: seq<byte>, c: seq<byte>)
    ensures (a + b) + c == a + (b + c)
  {
  }

  lemma NothingMore(t: Terminal.Terminal, start: Transcript.Log, marks: seq<Mark>, since: nat, known: bool)
    requires t.Geometry() && Transcript.LogOk(start, t.width, t.height)
    requires t.width >= Transcript.VGA_WIDTH || t.height == 1
    requires Accounts(t, start, marks, since, known) && since <= |marks|
    ensures Accounts(t, start, marks + [Unseen], since, known) && SentText(marks + [Unseen]) == SentText(marks)
  {
    hide Transcript.LogOk, ShowsPicture, t.Geometry;
    PlayedMore(start, marks, Unseen, since, t.color, t.width, t.height);
    if known && t.useFramebuffer && t.locked {
      PictureStays(t, Played(start, marks[..since], t.color, t.width, t.height), marks, since, Unseen);
    }
  }

  /** The terminal is locked exactly while a process holds the framebuffer, and shows the grid when it is not. */
  lemma LockedIffHeld(k: Kernel, t: Terminal.Terminal, input: Input)
    requires Joined(k, t, input)
    ensures t.Geometry() && (t.locked <==> !NobodyHolds(k))
    ensures !t.locked || !t.useFramebuffer ==> ShowsGrid(t)
  {
    hide Fairness.RingOk, Fairness.AllRegistered, SlotsOk, HoldsFramebuffer;
    LockMeansOneHolder(k.View(), k.scheduler.ring.Length);
  }
}
