/** Directory and table entries of 32-bit paging, and the access they grant (sections 4.3 and 4.6 of the Intel SDM,
    volume 3A). */
module PageEntries {
  import opened Machine

  const PAGE_SIZE: word := 4096
  const ENTRIES: nat := 1024
  const PAGES: nat := 0x10_0000
  const PRESENT: word := 1
  const WRITABLE: word := 2
  const USER: word := 4
  const FRAME_MASK: word := 0xFFFF_F000

  predicate Present(e: word) { e % 2 == 1 }
  predicate Writable(e: word) { e / 2 % 2 == 1 }
  predicate User(e: word) { e / 4 % 2 == 1 }
  function Frame(e: word): (f: word)
    ensures f % PAGE_SIZE == 0
  {
    e - e % PAGE_SIZE
  }

  /** The flag combinations the kernel maps with. */
  predicate Flags(flags: word) {
    flags == 0 || flags == WRITABLE || flags == USER || flags == WRITABLE + USER
  }

  lemma LowBits(e: word)
    ensures Bit(e, 0) <==> Present(e)
    ensures Bit(e, 1) <==> Writable(e)
    ensures Bit(e, 2) <==> User(e)
  {
    assert e / 2 / 2 == e / 4;
  }

  /** An entry whose low three bits are known. */
  lemma Decompose(e: word, base: nat, low: nat)
    requires e == base + low && base % 8 == 0 && low < 8
    ensures Present(e) <==> low % 2 == 1
    ensures Writable(e) <==> low == 2 || low == 3 || low == 6 || low == 7
    ensures User(e) <==> low >= 4
  {
    var q := base / 8;
    assert e == 8 * q + low;
    EvenPlus(4 * q, low);
    EvenPlus(2 * q, low / 2);
    EvenPlus(q, low / 4);
    assert e / 2 == 4 * q + low / 2;
    assert e / 4 == 2 * q + low / 4;
  }

  lemma EvenPlus(x: nat, y: nat)
    ensures (2 * x + y) % 2 == y % 2
  {
  }

  lemma FrameOf(e: word, base: word, low: nat)
    requires e == base + low && base % 8 == 0 && low < 8
    ensures Frame(e) == Frame(base)
  {
    var q, r := base / PAGE_SIZE, base % PAGE_SIZE;
    assert base == q * PAGE_SIZE + r;
    assert r % 8 == 0 && r <= 4088;
    assert e == q * PAGE_SIZE + (r + low);
  }

  /** The kernel's tests and masks read the fields of an entry. */
  lemma EntryTests(e: word)
    ensures And(e, PRESENT) != 0 <==> Present(e)
    ensures And(e, USER) != 0 <==> User(e)
    ensures And(e, FRAME_MASK) == Frame(e)
  {
    hide And, Bit;
    assert Pow2(0) == 1 && Pow2(2) == 4;
    OneBit(e, 0);
    OneBit(e, 2);
    LowBits(e);
    MaskFrame(e);
  }

  lemma MaskFrame(e: word)
    ensures And(e, FRAME_MASK) == Frame(e)
  {
    hide And;
    Pow2Values();
    AndNotMask(e, 4096, 12);
    assert Not(Wrap(4095)) == FRAME_MASK;
  }

  /** ORing flags and PRESENT into a frame address builds an entry with exactly those fields. */
  lemma BuildEntry(address: word, flags: word)
    requires Flags(flags)
    ensures var e := Or(Or(And(address, FRAME_MASK), flags), PRESENT);
            && e < TWO32 && Present(e) && Frame(e) == Frame(address)
            && (Writable(e) <==> flags == WRITABLE || flags == WRITABLE + USER)
            && (User(e) <==> flags == USER || flags == WRITABLE + USER)
  {
    hide And, Or, Bit, Present, Writable, User;
    MaskFrame(address);
    var f := Frame(address);
    FrameAligned(f);
    assert Pow2(0) == 1;
    Pow2Values();
    OrDisjoint(f, flags, 12);
    OneBit(f + flags, 0);
    LowBits(f + flags);
    Decompose(f + flags, f, flags);
    Decompose(f + flags + 1, f, flags + 1);
    FrameOf(f + flags + 1, f, flags + 1);
  }

  lemma FrameAligned(f: word)
    requires f % PAGE_SIZE == 0
    ensures f % 8 == 0 && f <= TWO32 - PAGE_SIZE && Frame(f) == f
  {
  }

  /** The same for a directory entry. */
  lemma BuildDirectoryEntry(table: word, flags: word)
    requires table % PAGE_SIZE == 0 && (flags == 0 || flags == USER)
    ensures var e := Or(Or(Or(And(table, FRAME_MASK), PRESENT), WRITABLE), flags);
            && e < TWO32 && Present(e) && Frame(e) == table && Writable(e) && (User(e) <==> flags == USER)
  {
    hide And, Or, Bit, Frame, Present, Writable, User;
    MaskFrame(table);
    FrameAligned(table);
    assert Pow2(0) == 1 && Pow2(1) == 2 && Pow2(2) == 4;
    Decompose(table, table, 0);
    Decompose(table + 1, table, 1);
    Decompose(table + 3, table, 3);
    LowBits(table);
    LowBits(table + 1);
    LowBits(table + 3);
    OneBit(table, 0);
    OneBit(table + 1, 1);
    OneBit(table + 3, 2);
    OrZero(table + 3);
    Decompose(table + 3 + flags, table, 3 + flags);
    FrameOf(table + 3 + flags, table, 3 + flags);
  }

  lemma OrZero(x: nat)
    ensures Or(x, 0) == x
  {
  }

  /** ORing the user flag into a directory entry changes nothing but that flag. */
  lemma AddUser(e: word, flags: word)
    requires flags == 0 || flags == USER
    ensures var e' := Or(e, flags);
            && e' < TWO32
            && (Present(e') <==> Present(e)) && Frame(e') == Frame(e) && (Writable(e') <==> Writable(e))
            && (User(e') <==> User(e) || flags == USER)
  {
    hide Or, Bit, Frame, Present, Writable, User;
    assert Pow2(2) == 4;
    OneBit(e, 2);
    LowBits(e);
    OrZero(e);
    var base, low := e - e % 8, e % 8;
    assert base % 8 == 0;
    Decompose(e, base, low);
    FrameOf(e, base, low);
    if flags == USER && low < 4 {
      Decompose(e + 4, base, low + 4);
      FrameOf(e + 4, base, low + 4);
    }
  }

  /** Directory index and table index of an address. */
  lemma Indices(address: word)
    ensures address / 0x40_0000 == address / PAGE_SIZE / ENTRIES
    ensures And(address / PAGE_SIZE, 0x3FF) == address / PAGE_SIZE % ENTRIES
  {
    hide And;
    assert Pow2(8) == 256;
    assert Pow2(10) == 1024;
    AndLowMask(address / PAGE_SIZE, 10);
  }
}
