/** The argument block exec_prepare_stack builds on the user stack (src/kernel/exec.c), and its reader. */
module ArgumentStack {
  import opened Machine

  const ARG_MAX: nat := 16

  type text = t: seq<byte> | 0 !in t

  /** min(argc, 16), and 0 for a negative count. */
  function Clamp(argc: int): (n: nat)
    ensures n <= ARG_MAX && n <= (if argc < 0 then 0 else argc)
  {
    if argc < 0 then 0 else if argc > ARG_MAX then ARG_MAX else argc
  }

  lemma ClampIs(argc: int)
    ensures 0 <= argc <= 16 ==> Clamp(argc) == argc
    ensures argc < 0 ==> Clamp(argc) == 0
    ensures argc > 16 ==> Clamp(argc) == 16
  {
  }

  // ---- reading ----

  /** The bytes up to the next NUL. */
  function ReadText(m: seq<byte>, a: nat): (t: text)
    decreases |m| - a
  {
    if a >= |m| || m[a] == 0 then [] else [m[a]] + ReadText(m, a + 1)
  }

  /** The texts behind the first n pointers of a vector. */
  function Vector(m: seq<byte>, a: nat, n: nat): (s: seq<text>)
    requires |m| == TWO32
    ensures |s| == n
    ensures forall i | 0 <= i < n :: s[i] == ReadText(m, WordIn(m, a + 4 * i))
  {
    if n == 0 then [] else Vector(m, a, n - 1) + [ReadText(m, WordIn(m, a + 4 * (n - 1)))]
  }

  /** What a program finds at its stack pointer: the count, a pointer to the vector, and in the vector one pointer for
      each argument. */
  function Decode(m: seq<byte>, sp: word): seq<text>
    requires |m| == TWO32
  {
    Vector(m, WordIn(m, sp + 4), WordIn(m, sp))
  }

  // ---- layout ----

  /** Bytes taken by the strings with their terminators. */
  function TextSize(args: seq<text>): nat {
    if args == [] then 0 else |args[0]| + 1 + TextSize(args[1..])
  }

  /** The address below the strings, rounded down to a word. */
  function VectorEnd(top: word, args: seq<text>): int {
    (top - TextSize(args)) - (top - TextSize(args)) % 4
  }

  /** The stack pointer after everything is pushed: strings, padding, NULL, vector, vector pointer, count. */
  function StackPointer(top: word, args: seq<text>): int {
    VectorEnd(top, args) - 4 - 4 * |args| - 8
  }

  predicate Fits(bottom: word, top: word, args: seq<text>) {
    bottom <= StackPointer(top, args)
  }

  /** The address of one string: below it only the strings before it. */
  function TextAt(top: word, args: seq<text>, i: nat): int
    requires i <= |args|
  {
    top - TextSize(args[i..])
  }

  predicate StoredText(m: seq<byte>, a: int, t: text) {
    0 <= a && a + |t| < |m| && m[a..a + |t|] == t && m[a + |t|] == 0
  }

  /** The finished block. */
  predicate Block(m: seq<byte>, top: word, args: seq<text>) {
    && |m| == TWO32 && StackPointer(top, args) >= 0
    && var sp := StackPointer(top, args);
    && WordIn(m, sp) == |args| && WordIn(m, sp + 4) == sp + 8
    && WordIn(m, sp + 8 + 4 * |args|) == 0
    && forall i | 0 <= i < |args| ::
         0 <= TextAt(top, args, i) && WordIn(m, sp + 8 + 4 * i) == TextAt(top, args, i)
             && StoredText(m, TextAt(top, args, i), args[i])
  }

  lemma {:induction false} ReadStored(m: seq<byte>, a: nat, t: text)
    requires StoredText(m, a, t)
    ensures ReadText(m, a) == t
    decreases |t|
  {
    if t != [] {
      assert m[a] == m[a..a + |t|][0];
      assert m[a + 1..a + 1 + |t[1..]|] == m[a..a + |t|][1..];
      ReadStored(m, a + 1, t[1..]);
    }
  }

  /** Behind argv[i] are the characters of the i-th argument and a NUL, above the vector and below the top. */
  predicate ArgumentAt(m: seq<byte>, argv: word, top: word, args: seq<text>, i: nat)
    requires |m| == TWO32 && i < |args|
  {
    var p := WordIn(m, argv + 4 * i);
    && argv + 4 * |args| + 4 <= p && p + |args[i]| < top
    && m[p..p + |args[i]|] == args[i] && m[p + |args[i]|] == 0
  }

  lemma NoWaste(top: word, args: seq<text>)
    ensures top - TextSize(args) - 3 <= StackPointer(top, args) + 4 * (|args| + 3) <= top - TextSize(args)
  {
    hide TextSize;
  }

  /** A finished block, byte by byte, as a C program finds it at its stack pointer: argc, argv, argv[argc] == NULL, and
      behind each argv[i] the characters of the argument and a NUL, all of it below the top of the stack and with no
      more than three bytes unused. */
  lemma BlockInMemory(m: seq<byte>, top: word, args: seq<text>)
    requires Block(m, top, args)
    ensures var sp := StackPointer(top, args);
            && sp % 4 == 0 && WordIn(m, sp) == |args|
            && top - TextSize(args) - 3 <= sp + 4 * (|args| + 3) <= top - TextSize(args)
            && var argv := WordIn(m, sp + 4);
            && WordIn(m, argv + 4 * |args|) == 0
            && forall i | 0 <= i < |args| :: ArgumentAt(m, argv, top, args, i)
  {
    hide WordIn, TextAt, VectorEnd, TextSize;
    WordAligned(top, args);
    NoWaste(top, args);
    var argv := StackPointer(top, args) + 8;
    forall i | 0 <= i < |args|
      ensures ArgumentAt(m, argv, top, args, i)
    {
      FitsText(top, args, i);
      TextOrder(top, args, i, i);
    }
  }

  /** Reading a finished block gives back the arguments. */
  lemma BlockDecodes(m: seq<byte>, top: word, args: seq<text>)
    requires Block(m, top, args)
    ensures StackPointer(top, args) < TWO32 && Decode(m, StackPointer(top, args)) == args
  {
    hide WordIn, ReadText, TextAt, StoredText, Vector, VectorEnd;
    var sp := StackPointer(top, args);
    BelowTop(top, args);
    var found := Vector(m, sp + 8, |args|);
    forall i | 0 <= i < |args|
      ensures found[i] == args[i]
    {
      ReadStored(m, TextAt(top, args, i), args[i]);
    }
  }

  lemma BelowTop(top: word, args: seq<text>)
    ensures StackPointer(top, args) <= top
  {
  }

  // ---- building ----

  /** Bytes stored from an address on, in 32-bit arithmetic. */
  method StoreBytes(mem: array<byte>, dest: word, s: seq<byte>)
    requires mem.Length == TWO32
    modifies mem
    ensures dest + |s| <= TWO32 ==> Stored(mem[..], old(mem[..]), dest, s)
  {
    ghost var before := mem[..];
    for i := 0 to |s|
      invariant dest + |s| <= TWO32 ==> Stored(mem[..], before, dest, s[..i])
    {
      mem[Wrap(dest + i)] := s[i];
    }
    assert s[..|s|] == s;
  }

  /** One memory differs from another exactly by the bytes s at dest. */
  predicate Stored(m: seq<byte>, before: seq<byte>, dest: nat, s: seq<byte>) {
    |m| == |before| == TWO32 && dest + |s| <= TWO32 &&
    forall a | 0 <= a < TWO32 :: m[a] == if dest <= a < dest + |s| then s[a - dest] else before[a]
  }

  /** Memory outside [low, high) is as it was. */
  predicate Kept(m: seq<byte>, before: seq<byte>, low: int, high: nat) {
    |m| == |before| == TWO32 && forall a | 0 <= a < TWO32 && !(low <= a < high) :: m[a] == before[a]
  }

  lemma StoredKept(m: seq<byte>, middle: seq<byte>, before: seq<byte>, dest: nat, s: seq<byte>, high: nat)
    requires Stored(m, middle, dest, s) && Kept(middle, before, dest + |s|, high) && dest + |s| <= high
    ensures Kept(m, before, dest, high)
  {
  }

  lemma StoredKeptGap(m: seq<byte>, before: seq<byte>, low: int, low': int, high: nat)
    requires Kept(m, before, low, high) && low' <= low
    ensures Kept(m, before, low', high)
  {
  }

  lemma KeptSelf(m: seq<byte>, top: word)
    requires |m| == TWO32
    ensures Kept(m, m, top, top)
  {
  }

  lemma StoredString(m: seq<byte>, before: seq<byte>, dest: nat, t: text)
    requires Stored(m, before, dest, t + [0])
    ensures StoredText(m, dest, t)
  {
    var s := t + [0];
    assert forall a | dest <= a < dest + |s| :: m[a] == s[a - dest];
    assert m[dest..dest + |t|] == t;
    assert s[|t|] == 0;
  }

  lemma StoredWord(m: seq<byte>, before: seq<byte>, dest: nat, w: word)
    requires Stored(m, before, dest, LeBytes(w))
    ensures WordIn(m, dest) == w
  {
    hide LeBytes, LeWord, Wrap;
    LeRoundTrip(w);
    forall i | 0 <= i < 4
      ensures m[Wrap(dest + i)] == LeBytes(w)[i]
    {
      SmallWrap(dest + i);
    }
  }

  lemma WordAbove(m: seq<byte>, before: seq<byte>, dest: nat, s: seq<byte>, a: nat)
    requires Stored(m, before, dest, s) && dest + |s| <= a && a + 4 <= TWO32
    ensures WordIn(m, a) == WordIn(before, a)
  {
    hide LeWord, Wrap;
    SmallWrap(a);
    SmallWrap(a + 1);
    SmallWrap(a + 2);
    SmallWrap(a + 3);
  }

  /** The strings from index on are in place. */
  predicate TextsFrom(m: seq<byte>, top: word, args: seq<text>, index: nat) {
    forall j | index <= j < |args| :: StoredText(m, TextAt(top, args, j), args[j])
  }

  /** The vector at a place is filled from index on, and ended by NULL. */
  predicate VectorFrom(m: seq<byte>, top: word, args: seq<text>, vector: nat, index: nat) {
    && |m| == TWO32 && vector + 4 * |args| + 4 <= TWO32
    && WordIn(m, vector + 4 * |args|) == 0
    && forall j | index <= j < |args| :: WordIn(m, vector + 4 * j) == TextAt(top, args, j)
  }

  lemma {:induction false} TextSizeFrom(args: seq<text>, i: nat)
    requires i <= |args|
    ensures TextSize(args[i..]) <= TextSize(args)
    ensures i < |args| ==> TextSize(args[i..]) == |args[i]| + 1 + TextSize(args[i + 1..])
    decreases i
  {
    if i > 0 {
      assert args[1..][i - 1..] == args[i..];
      TextSizeFrom(args[1..], i - 1);
    } else {
      assert args[0..] == args;
    }
    if i < |args| {
      assert args[i..][0] == args[i] && args[i..][1..] == args[i + 1..];
    }
  }

  /** Strings lie above the strings before them, and all of them above the vector. */
  lemma {:induction false} TextOrder(top: word, args: seq<text>, i: nat, j: nat)
    requires i <= j < |args|
    ensures TextAt(top, args, i) <= TextAt(top, args, j) && TextAt(top, args, j) + |args[j]| + 1 <= top
    ensures VectorEnd(top, args) <= TextAt(top, args, i)
    decreases j - i
  {
    TextSizeFrom(args, i);
    TextSizeFrom(args, j);
    if i < j {
      TextOrder(top, args, i + 1, j);
    } else {
      TextSizeFrom(args, j + 1);
      assert |args[j..]| >= 1;
    }
  }

  lemma TextsBelowStore(m: seq<byte>, before: seq<byte>, dest: nat, s: seq<byte>, top: word, args: seq<text>,
                        index: nat)
    requires Stored(m, before, dest, s) && TextsFrom(before, top, args, index) && index <= |args|
    requires index < |args| ==> dest + |s| <= TextAt(top, args, index)
    ensures TextsFrom(m, top, args, index)
  {
    hide TextAt, VectorEnd;
    forall j | index <= j < |args|
      ensures StoredText(m, TextAt(top, args, j), args[j])
    {
      TextOrder(top, args, index, j);
      SameText(m, before, dest, s, TextAt(top, args, j), args[j]);
    }
  }

  lemma SameText(m: seq<byte>, before: seq<byte>, dest: nat, s: seq<byte>, a: nat, t: text)
    requires Stored(m, before, dest, s) && dest + |s| <= a && StoredText(before, a, t)
    ensures StoredText(m, a, t)
  {
    assert m[a..a + |t|] == before[a..a + |t|];
  }

  lemma FitsText(top: word, args: seq<text>, i: nat)
    requires i <= |args| && StackPointer(top, args) >= 0
    ensures 0 <= VectorEnd(top, args) <= TextAt(top, args, i) <= top
    ensures i < |args| ==> TextAt(top, args, i) == TextAt(top, args, i + 1) - (|args[i]| + 1)
    ensures i == |args| ==> TextAt(top, args, i) == top
  {
    TextSizeFrom(args, i);
    if i < |args| {
      TextOrder(top, args, i, i);
    }
  }

  /** One string pushed below the strings already there. */
  lemma TextPushed(m: seq<byte>, before: seq<byte>, start: seq<byte>, top: word, args: seq<text>, i: nat)
    requires i < |args| && StackPointer(top, args) >= 0
    requires 0 <= TextAt(top, args, i) && Stored(m, before, TextAt(top, args, i), args[i] + [0])
    requires TextsFrom(before, top, args, i + 1) && Kept(before, start, TextAt(top, args, i + 1), top)
    ensures TextsFrom(m, top, args, i) && Kept(m, start, TextAt(top, args, i), top)
  {
    hide TextAt, VectorEnd, StackPointer, Stored, StoredText, Kept;
    FitsText(top, args, i);
    FitsText(top, args, i + 1);
    StoredKept(m, before, start, TextAt(top, args, i), args[i] + [0], top);
    StoredString(m, before, TextAt(top, args, i), args[i]);
    TextsBelowStore(m, before, TextAt(top, args, i), args[i] + [0], top, args, i + 1);
  }

  /** The strings, last first, each below the one after it. */
  method PushTexts(mem: array<byte>, top: word, argv: seq<text>, n: nat, pointers: array<word>) returns (sp: word)
    requires mem.Length == TWO32 && n <= |argv| && n <= pointers.Length && mem as object != pointers
    modifies mem, pointers
    ensures StackPointer(top, argv[..n]) >= 0 ==>
              && sp == TextAt(top, argv[..n], 0)
              && (forall i | 0 <= i < n :: pointers[i] == TextAt(top, argv[..n], i))
              && TextsFrom(mem[..], top, argv[..n], 0) && Kept(mem[..], old(mem[..]), sp, top)
  {
    hide TextAt, StackPointer, Kept, StoredText;
    ghost var args, start := argv[..n], mem[..];
    ghost var fits := StackPointer(top, args) >= 0;
    sp := top;
    var index := n;
    if fits {
      FitsText(top, args, n);
      KeptSelf(start, top);
    }
    while index > 0
      invariant 0 <= index <= n
      invariant fits ==> sp == TextAt(top, args, index) && TextsFrom(mem[..], top, args, index)
      invariant fits ==> Kept(mem[..], start, TextAt(top, args, index), top)
      invariant fits ==> forall i | index <= i < n :: pointers[i] == TextAt(top, args, i)
    {
      index := index - 1;
      var length := |argv[index]| + 1;
      ghost var before := mem[..];
      if fits {
        FitsText(top, args, index);
        SmallWrap(sp - length);
      }
      sp := Wrap(sp - length);
      StoreBytes(mem, sp, argv[index] + [0]);
      pointers[index] := sp;
      if fits {
        FitsText(top, args, index + 1);
        TextPushed(mem[..], before, start, top, args, index);
      }
    }
  }

  /** One pointer pushed below the part of the vector already there. */
  lemma PointerPushed(m: seq<byte>, before: seq<byte>, start: seq<byte>, top: word, args: seq<text>, vector: nat,
                      i: nat, w: word)
    requires i < |args| && vector + 4 * |args| + 4 == VectorEnd(top, args) <= TWO32 && w == TextAt(top, args, i)
    requires Stored(m, before, vector + 4 * i, LeBytes(w)) && VectorEnd(top, args) <= top
    requires VectorFrom(before, top, args, vector, i + 1) && TextsFrom(before, top, args, 0)
    requires Kept(before, start, vector + 4 * (i + 1), top)
    ensures VectorFrom(m, top, args, vector, i) && TextsFrom(m, top, args, 0) && Kept(m, start, vector + 4 * i, top)
  {
    hide TextAt, VectorEnd, Stored, StoredText, Kept, LeBytes, WordIn;
    StoredKept(m, before, start, vector + 4 * i, LeBytes(w), top);
    StoredWord(m, before, vector + 4 * i, w);
    WordAbove(m, before, vector + 4 * i, LeBytes(w), vector + 4 * |args|);
    forall j | i <= j < |args|
      ensures WordIn(m, vector + 4 * j) == TextAt(top, args, j)
    {
      if j > i {
        WordAbove(m, before, vector + 4 * i, LeBytes(w), vector + 4 * j);
      }
    }
    TextOrder(top, args, 0, 0);
    TextsBelowStore(m, before, vector + 4 * i, LeBytes(w), top, args, 0);
  }

  /** One word pushed below the finished vector. */
  lemma WordPushed(m: seq<byte>, before: seq<byte>, start: seq<byte>, top: word, args: seq<text>, vector: nat,
                   dest: nat, w: word)
    requires dest + 4 <= vector && vector + 4 * |args| + 4 == VectorEnd(top, args) <= top
    requires Stored(m, before, dest, LeBytes(w))
    requires VectorFrom(before, top, args, vector, 0) && TextsFrom(before, top, args, 0)
             && Kept(before, start, dest + 4, top)
    ensures VectorFrom(m, top, args, vector, 0) && TextsFrom(m, top, args, 0) && Kept(m, start, dest, top)
            && WordIn(m, dest) == w
  {
    hide TextAt, VectorEnd, Stored, StoredText, Kept, LeBytes, WordIn;
    StoredKept(m, before, start, dest, LeBytes(w), top);
    StoredWord(m, before, dest, w);
    WordAbove(m, before, dest, LeBytes(w), vector + 4 * |args|);
    forall j | 0 <= j < |args|
      ensures WordIn(m, vector + 4 * j) == TextAt(top, args, j)
    {
      WordAbove(m, before, dest, LeBytes(w), vector + 4 * j);
    }
    if |args| > 0 {
      TextOrder(top, args, 0, 0);
    }
    TextsBelowStore(m, before, dest, LeBytes(w), top, args, 0);
  }

  /** The NULL that ends the vector, stored below the padding. */
  lemma NullPushed(m: seq<byte>, before: seq<byte>, start: seq<byte>, top: word, args: seq<text>, vector: nat)
    requires vector + 4 * |args| + 4 == VectorEnd(top, args) <= TextAt(top, args, 0) <= top
    requires Stored(m, before, vector + 4 * |args|, LeBytes(0))
    requires TextsFrom(before, top, args, 0) && Kept(before, start, TextAt(top, args, 0), top)
    ensures VectorFrom(m, top, args, vector, |args|) && TextsFrom(m, top, args, 0)
            && Kept(m, start, vector + 4 * |args|, top)
  {
    hide TextAt, VectorEnd, Stored, StoredText, Kept, LeBytes, WordIn;
    StoredKeptGap(before, start, TextAt(top, args, 0), vector + 4 * |args| + 4, top);
    StoredKept(m, before, start, vector + 4 * |args|, LeBytes(0), top);
    StoredWord(m, before, vector + 4 * |args|, 0);
    TextsBelowStore(m, before, vector + 4 * |args|, LeBytes(0), top, args, 0);
  }

  lemma Aligned(top: word, args: seq<text>)
    requires StackPointer(top, args) >= 0
    ensures 0 <= TextAt(top, args, 0) <= top && AlignDown(TextAt(top, args, 0), 4) == VectorEnd(top, args)
  {
    hide AlignDown;
    assert args[0..] == args;
    FitsText(top, args, 0);
    assert Pow2(2) == 4 by {
      assert Pow2(1) == 2;
    }
    AlignDownRounds(TextAt(top, args, 0), 4, 2);
  }

  /** The pointers, last first, below the terminating NULL. */
  method PushVector(mem: array<byte>, top: word, ghost args: seq<text>, n: nat, pointers: array<word>, start: word,
                    ghost before: seq<byte>)
      returns (sp: word)
    requires mem.Length == TWO32 && n == |args| <= pointers.Length && mem as object != pointers
    requires StackPointer(top, args) >= 0 ==> start == VectorEnd(top, args) && TextsFrom(mem[..], top, args, 0)
    requires StackPointer(top, args) >= 0 ==> forall i | 0 <= i < n :: pointers[i] == TextAt(top, args, i)
    requires StackPointer(top, args) >= 0 ==> Kept(mem[..], before, TextAt(top, args, 0), top)
    modifies mem
    ensures StackPointer(top, args) >= 0 ==> sp == StackPointer(top, args) + 8 && VectorFrom(mem[..], top, args, sp, 0)
    ensures StackPointer(top, args) >= 0 ==> TextsFrom(mem[..], top, args, 0) && Kept(mem[..], before, sp, top)
  {
    hide TextAt, VectorEnd, Stored, StoredText, Kept, LeBytes, WordIn, TextsFrom, VectorFrom;
    ghost var fits, vector, middle := StackPointer(top, args) >= 0, StackPointer(top, args) + 8, mem[..];
    if fits {
      FitsText(top, args, 0);
      SmallWrap(start - 4);
    }
    sp := Wrap(start - 4);
    StoreBytes(mem, sp, LeBytes(0));
    if fits {
      NullPushed(mem[..], middle, before, top, args, vector);
    }
    var index := n;
    while index > 0
      invariant 0 <= index <= n
      invariant fits ==> sp == vector + 4 * index && VectorFrom(mem[..], top, args, vector, index)
      invariant fits ==> TextsFrom(mem[..], top, args, 0) && Kept(mem[..], before, sp, top)
    {
      index := index - 1;
      middle := mem[..];
      if fits {
        SmallWrap(sp - 4);
      }
      sp := Wrap(sp - 4);
      StoreBytes(mem, sp, LeBytes(pointers[index]));
      if fits {
        PointerPushed(mem[..], middle, before, top, args, vector, index, pointers[index]);
      }
    }
  }

  /** One word pushed. */
  method PushWord(mem: array<byte>, start: word, w: word) returns (sp: word)
    requires mem.Length == TWO32
    modifies mem
    ensures start >= 4 ==> sp == start - 4 && Stored(mem[..], old(mem[..]), sp, LeBytes(w))
  {
    hide Stored, LeBytes;
    if start >= 4 {
      SmallWrap(start - 4);
    }
    sp := Wrap(start - 4);
    StoreBytes(mem, sp, LeBytes(w));
  }

  /** exec_prepare_stack: when the block fits, reading memory from the returned pointer gives back the first min(argc,
      16) arguments, the pointer is word-aligned, and only the stack is written. */
  method PrepareStack(mem: array<byte>, bottom: word, top: word, argc: int, argv: seq<text>) returns (sp: word)
    requires mem.Length == TWO32 && Clamp(argc) <= |argv|
    modifies mem
    ensures Fits(bottom, top, argv[..Clamp(argc)]) ==>
              && sp % 4 == 0 && bottom <= sp <= top
              && Decode(mem[..], sp) == argv[..Clamp(argc)]
              && Kept(mem[..], old(mem[..]), sp, top)
              && Block(mem[..], top, argv[..Clamp(argc)]) && sp == StackPointer(top, argv[..Clamp(argc)])
  {
    hide TextAt, VectorEnd, Stored, StoredText, Kept, LeBytes, WordIn, TextsFrom, VectorFrom, Block, Decode, AlignDown;
    ghost var args, start := argv[..Clamp(argc)], mem[..];
    ghost var fits := StackPointer(top, args) >= 0;
    var n: int := argc;
    if n < 0 {
      n := 0;
    }
    if n > ARG_MAX {
      n := ARG_MAX;
    }
    var pointers := new word[ARG_MAX];
    sp := PushTexts(mem, top, argv, n, pointers);
    if fits {
      Aligned(top, args);
    }
    sp := AlignDown(sp, 4);
    sp := PushVector(mem, top, args, n, pointers, sp, start);
    ghost var vector, middle := sp, mem[..];
    sp := PushWord(mem, sp, sp);
    if fits {
      FitsText(top, args, 0);
      WordPushed(mem[..], middle, start, top, args, vector, sp, vector);
      middle := mem[..];
    }
    sp := PushWord(mem, sp, n);
    if fits {
      WordPushed(mem[..], middle, start, top, args, vector, sp, n);
      WordAbove(mem[..], middle, sp, LeBytes(n), vector - 4);
      BlockDone(mem[..], top, args, sp);
      BlockDecodes(mem[..], top, args);
      WordAligned(top, args);
    }
  }

  lemma BlockDone(m: seq<byte>, top: word, args: seq<text>, sp: nat)
    requires sp == StackPointer(top, args) && VectorFrom(m, top, args, sp + 8, 0) && TextsFrom(m, top, args, 0)
    requires WordIn(m, sp) == |args| && WordIn(m, sp + 4) == sp + 8
    ensures Block(m, top, args)
  {
    hide TextAt, VectorEnd, WordIn;
  }

  lemma WordAligned(top: word, args: seq<text>)
    ensures StackPointer(top, args) % 4 == 0 && StackPointer(top, args) <= top
  {
  }

  /** A block stays readable while memory from its start to the top of the stack is kept. */
  lemma BlockSurvives(m: seq<byte>, before: seq<byte>, top: word, args: seq<text>)
    requires Block(before, top, args) && |m| == TWO32
    requires forall a | StackPointer(top, args) <= a < top :: m[a] == before[a]
    ensures Block(m, top, args)
  {
    hide TextAt, VectorEnd, WordIn, StoredText;
    var sp := StackPointer(top, args);
    FitsText(top, args, 0);
    FourBytes(m, before, sp);
    FourBytes(m, before, sp + 4);
    FourBytes(m, before, sp + 8 + 4 * |args|);
    forall i | 0 <= i < |args|
      ensures WordIn(m, sp + 8 + 4 * i) == WordIn(before, sp + 8 + 4 * i)
              && StoredText(m, TextAt(top, args, i), args[i])
    {
      FourBytes(m, before, sp + 8 + 4 * i);
      FitsText(top, args, i);
      TextOrder(top, args, i, i);
      TextKept(m, before, TextAt(top, args, i), args[i]);
    }
  }

  lemma TextKept(m: seq<byte>, before: seq<byte>, a: nat, t: text)
    requires |m| == |before| && StoredText(before, a, t) && forall x | a <= x <= a + |t| :: m[x] == before[x]
    ensures StoredText(m, a, t)
  {
    assert m[a..a + |t|] == before[a..a + |t|];
  }

  lemma FourBytes(m: seq<byte>, before: seq<byte>, a: nat)
    requires |m| == |before| == TWO32 && a + 4 <= TWO32 && forall x | a <= x < a + 4 :: m[x] == before[x]
    ensures WordIn(m, a) == WordIn(before, a)
  {
    hide LeWord, Wrap;
    SmallWrap(a);
    SmallWrap(a + 1);
    SmallWrap(a + 2);
    SmallWrap(a + 3);
  }
}
