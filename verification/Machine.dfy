/** 32-bit machine arithmetic: words, bytes, wrap-around, and the bitwise operations the kernel uses on addresses and
    page-table entries. Bitwise operations are defined digit by digit on naturals, so facts about masks are proved
    rather than assumed. */
module Machine {
  const TWO32: int := 0x1_0000_0000

  type byte = b: int | 0 <= b < 256
  type word = w: int | 0 <= w < TWO32

  function Wrap(x: int): word {
    x % TWO32
  }

  /** Whole turns of the address space do not show. */
  lemma WrapTurns(x: int, k: int)
    ensures Wrap(x + k * TWO32) == Wrap(x)
  {
    ModUnique(x + k * TWO32, TWO32, x / TWO32 + k, x % TWO32);
  }

  lemma SmallWrap(x: int)
    requires 0 <= x < TWO32
    ensures Wrap(x) == x
  {
  }

  function And(x: nat, y: nat): nat {
    if x == 0 || y == 0 then 0
    else 2 * And(x / 2, y / 2) + (if x % 2 == 1 && y % 2 == 1 then 1 else 0)
  }

  function Or(x: nat, y: nat): nat {
    if x == 0 then y
    else if y == 0 then x
    else 2 * Or(x / 2, y / 2) + (if x % 2 == 1 || y % 2 == 1 then 1 else 0)
  }

  /** Bitwise complement of a 32-bit word. */
  function Not(x: word): word {
    TWO32 - 1 - x
  }

  function Pow2(k: nat): (p: nat)
    ensures p >= 1
  {
    if k == 0 then 1 else 2 * Pow2(k - 1)
  }

  lemma {:induction false} Pow2Monotone(j: nat, k: nat)
    requires j <= k
    ensures Pow2(j) <= Pow2(k)
    ensures Pow2(k) == Pow2(j) * Pow2(k - j)
    decreases k
  {
    if j < k {
      Pow2Monotone(j, k - 1);
      calc {
        Pow2(k);
        2 * (Pow2(j) * Pow2(k - 1 - j));
        Pow2(j) * (2 * Pow2(k - 1 - j));
        Pow2(j) * Pow2(k - j);
      }
    }
  }

  lemma Pow2Values()
    ensures Pow2(3) == 8 && Pow2(4) == 16 && Pow2(9) == 512 && Pow2(12) == 4096
  {
    assert Pow2(8) == 256;
  }

  lemma Pow2Word()
    ensures Pow2(32) == TWO32
  {
    Pow2Values();
    Pow2Monotone(12, 24);
    Pow2Monotone(8, 32);
    assert Pow2(8) == 256;
  }

  lemma AndStep(x: nat, m: nat)
    ensures And(x, 2 * m) == 2 * And(x / 2, m)
    ensures And(x, 2 * m + 1) == 2 * And(x / 2, m) + x % 2
  {
    assert (2 * m) / 2 == m && (2 * m) % 2 == 0;
    assert (2 * m + 1) / 2 == m && (2 * m + 1) % 2 == 1;
  }

  /** Masking an n-bit number with the ones at positions k..n clears exactly its low k bits. */
  lemma {:induction false} AndHighMask(x: nat, n: nat, k: nat)
    requires x < Pow2(n) && k <= n
    ensures Pow2(k) <= Pow2(n)
    ensures And(x, Pow2(n) - Pow2(k)) == x - x % Pow2(k)
    decreases n
  {
    hide And;
    Pow2Monotone(k, n);
    if n == 0 {
      AndZero(x);
    } else {
      var k' := if k == 0 then 0 else k - 1;
      AndHighMask(x / 2, n - 1, k');
      AndStep(x, Pow2(n - 1) - Pow2(k'));
      if k == 0 {
        assert Pow2(n) - Pow2(k) == 2 * (Pow2(n - 1) - Pow2(k')) + 1;
      } else {
        assert Pow2(n) - Pow2(k) == 2 * (Pow2(n - 1) - Pow2(k'));
        ModHalf(x, Pow2(k'));
      }
    }
  }

  lemma AndZero(x: nat)
    ensures And(x, 0) == 0
  {
  }

  /** Masking with k low ones keeps exactly the remainder modulo 2^k. */
  lemma {:induction false} AndLowMask(x: nat, k: nat)
    ensures And(x, Pow2(k) - 1) == x % Pow2(k)
    decreases k
  {
    if k > 0 {
      AndLowMask(x / 2, k - 1);
      LowMaskStep(x, Pow2(k - 1), Pow2(k));
    }
  }

  lemma LowMaskStep(x: nat, m: nat, p: nat)
    requires m >= 1 && p == 2 * m && And(x / 2, m - 1) == (x / 2) % m
    ensures And(x, p - 1) == x % p
  {
    hide And;
    assert p - 1 == 2 * (m - 1) + 1;
    AndStep(x, m - 1);
    ModHalf(x, m);
  }

  lemma ModHalf(x: nat, m: nat)
    requires m >= 1
    ensures x % (2 * m) == 2 * ((x / 2) % m) + x % 2
  {
    var h, b := x / 2, x % 2;
    var q, r := h / m, h % m;
    assert h == q * m + r;
    assert x == q * (2 * m) + (2 * r + b) by {
      assert 2 * (q * m) == q * (2 * m);
    }
    ModUnique(x, 2 * m, q, 2 * r + b);
  }

  lemma ModUnique(x: int, m: int, q: int, r: int)
    requires m > 0 && 0 <= r < m && x == q * m + r
    ensures x / m == q && x % m == r
  {
    var q', r' := x / m, x % m;
    assert x == q' * m + r';
    QuotientUnique(m, q, r, q', r');
  }

  /** Reduction of a sum that goes around at most once. */
  lemma SmallSum(x: nat, c: nat)
    requires 0 < c && x < 2 * c
    ensures x % c == if x < c then x else x - c
  {
    ModUnique(x, c, if x < c then 0 else 1, if x < c then x else x - c);
  }

  lemma QuotientUnique(m: int, q: int, r: int, q': int, r': int)
    requires 0 <= r < m && 0 <= r' < m && q * m + r == q' * m + r'
    ensures q == q' && r == r'
  {
    var d := q' - q;
    assert d * m == r - r';
    if d > 0 {
      MulGrows(d, m);
    } else if d < 0 {
      assert (-d) * m == r' - r;
      MulGrows(-d, m);
    }
  }

  lemma MulGrows(d: int, m: int)
    requires d >= 1 && m >= 0
    ensures d * m >= m
  {
  }

  /** Disjoint bit patterns: ORing a multiple of 2^k with a number below 2^k is addition. */
  lemma {:induction false} OrDisjoint(hi: nat, lo: nat, k: nat)
    requires hi % Pow2(k) == 0 && lo < Pow2(k)
    ensures Or(hi, lo) == hi + lo
    decreases k
  {
    if k > 0 && hi != 0 && lo != 0 {
      ModHalf(hi, Pow2(k - 1));
      OrDisjoint(hi / 2, lo / 2, k - 1);
    }
  }

  // ---- single bits ----

  predicate Bit(x: nat, k: nat) {
    if k == 0 then x % 2 == 1 else Bit(x / 2, k - 1)
  }

  /** Testing and setting one bit. */
  lemma {:induction false} OneBit(x: nat, k: nat)
    ensures And(x, Pow2(k)) == if Bit(x, k) then Pow2(k) else 0
    ensures Or(x, Pow2(k)) == if Bit(x, k) then x else x + Pow2(k)
  {
    if k > 0 {
      OneBit(x / 2, k - 1);
    } else {
      AndZero(x / 2);
    }
  }

  // ---- alignment (memory.c and paging.c share this shape) ----

  /** (value + mask) & ~mask, in 32-bit arithmetic, with mask = alignment - 1. */
  function AlignUp(value: word, alignment: word): word {
    AndWord(Wrap(value + Wrap(alignment - 1)), Not(Wrap(alignment - 1)))
  }

  function AlignDown(value: word, alignment: word): word {
    AndWord(value, Not(Wrap(alignment - 1)))
  }

  function AndWord(x: word, y: word): word {
    AndBound(x, y);
    And(x, y)
  }

  lemma {:induction false} AndBound(x: nat, y: nat)
    ensures And(x, y) <= x && And(x, y) <= y
  {
    if x != 0 && y != 0 {
      AndBound(x / 2, y / 2);
    }
  }

  lemma AlignUpMasks(value: word, alignment: word, s: word)
    requires 1 <= alignment && s == Wrap(value + (alignment - 1))
    ensures AlignUp(value, alignment) == AndWord(s, Not(Wrap(alignment - 1)))
  {
    hide AndWord;
    assert Wrap(alignment - 1) == alignment - 1;
  }

  /** The mask arithmetic is rounding up to a multiple of the power of two, except that the sum wraps in the last
      alignment - 1 values of the address space, where the result is 0. */
  lemma AlignUpRounds(value: word, alignment: word, k: nat)
    requires k < 32 && alignment == Pow2(k)
    ensures AlignUp(value, alignment) == RoundUpWord(value, alignment)
  {
    hide AlignUp, AndWord, RoundUpWord;
    var s := Wrap(value + (alignment - 1));
    AlignUpMasks(value, alignment, s);
    AndNotMask(s, alignment, k);
    WrappedSumRounds(value, alignment, s);
  }

  /** The three alignments the kernel uses: heap blocks, archive records, pages. */
  lemma AlignUp16(value: word)
    ensures AlignUp(value, 16) == RoundUpWord(value, 16)
  {
    hide AlignUp, RoundUpWord;
    Pow2Values();
    AlignUpRounds(value, 16, 4);
  }

  lemma AlignUp512(value: word)
    ensures AlignUp(value, 512) == RoundUpWord(value, 512)
  {
    hide AlignUp, RoundUpWord;
    Pow2Values();
    AlignUpRounds(value, 512, 9);
  }

  lemma AlignUp4096(value: word)
    ensures AlignUp(value, 4096) == RoundUpWord(value, 4096)
  {
    hide AlignUp, RoundUpWord;
    Pow2Values();
    AlignUpRounds(value, 4096, 12);
  }

  lemma WrappedSumRounds(value: word, a: word, s: word)
    requires 1 <= a && s == Wrap(value + (a - 1))
    ensures s - s % a == RoundUpWord(value, a)
  {
    if value > TWO32 - a {
      assert s == value + (a - 1) - TWO32;
      ModUnique(s, a, 0, s);
    }
  }

  lemma AlignDownRounds(value: word, alignment: word, k: nat)
    requires k < 32 && alignment == Pow2(k)
    ensures AlignDown(value, alignment) == value - value % alignment
  {
    AndNotMask(value, alignment, k);
  }

  lemma Pow2Below32(k: nat)
    requires k < 32
    ensures Pow2(k) < TWO32 == Pow2(32)
  {
    Pow2Word();
    Pow2Monotone(k, 31);
    assert Pow2(32) == 2 * Pow2(31);
  }

  lemma AndNotMask(x: word, a: nat, k: nat)
    requires k < 32 && a == Pow2(k) && a < TWO32
    ensures AndWord(x, Not(Wrap(a - 1))) == x - x % a
  {
    hide And;
    Pow2Below32(k);
    var n := 32;
    AndHighMask(x, n, k);
    assert Not(Wrap(a - 1)) == Pow2(n) - a;
  }

  function RoundUp(value: nat, m: nat): (r: nat)
    requires m >= 1
    ensures value <= r < value + m
  {
    value + (m - 1) - (value + (m - 1)) % m
  }

  /** Rounding up in 32-bit arithmetic: 0 where the rounded value does not fit in a word. */
  function RoundUpWord(value: word, m: word): word
    requires m >= 1
  {
    if value <= TWO32 - m then RoundUp(value, m) else 0
  }

  /** Rounding up commutes with adding a multiple. */
  lemma RoundUpShift(base: nat, x: nat, m: nat)
    requires m >= 1 && base % m == 0
    ensures RoundUp(base + x, m) == base + RoundUp(x, m)
  {
    var y := x + (m - 1);
    assert base == (base / m) * m && y == (y / m) * m + y % m;
    assert base + y == (base / m + y / m) * m + y % m;
    ModUnique(base + y, m, base / m + y / m, y % m);
  }

  lemma SumOfMultiples(x: nat, y: nat, m: nat)
    requires m >= 1 && x % m == 0
    ensures (x + y) % m == y % m
  {
    assert x == (x / m) * m && y == (y / m) * m + y % m;
    assert x + y == (x / m + y / m) * m + y % m;
    ModUnique(x + y, m, x / m + y / m, y % m);
  }

  /** RoundUp is the least multiple of m not below value. */
  lemma RoundUpIsLeastMultiple(value: nat, m: nat)
    requires m >= 1
    ensures RoundUp(value, m) % m == 0
    ensures value <= RoundUp(value, m) < value + m
    ensures forall x: nat | x % m == 0 && x >= value :: x >= RoundUp(value, m)
  {
    MultipleBelow(value + (m - 1), m);
    forall x: nat | x % m == 0 && x >= value
      ensures x >= RoundUp(value, m)
    {
      if x < RoundUp(value, m) {
        MultiplesApart(x, RoundUp(value, m), m);
      }
    }
  }

  lemma MultipleBelow(x: nat, m: nat)
    requires m >= 1
    ensures (x - x % m) % m == 0 && x - x % m >= 0
  {
    assert x - x % m == (x / m) * m;
    ModUnique(x - x % m, m, x / m, 0);
  }

  lemma MultiplesApart(x: int, y: int, m: int)
    requires m >= 1 && x % m == 0 && y % m == 0 && x < y
    ensures x + m <= y
  {
    var p, q := x / m, y / m;
    QuotientsApart(p, q, m);
  }

  lemma QuotientsApart(p: int, q: int, m: int)
    requires m >= 1 && p * m < q * m
    ensures p * m + m <= q * m
  {
    if p < q {
      assert (q - p) * m == q * m - p * m;
      MulGrows(q - p, m);
    } else {
      MulMonotone(q, p, m);
    }
  }

  lemma MulMonotone(p: int, q: int, m: int)
    requires p <= q && m >= 0
    ensures p * m <= q * m
  {
    assert (q - p) * m >= 0;
  }

  // ---- little-endian words ----

  function LeBytes(w: word): (s: seq<byte>)
    ensures |s| == 4
  {
    [w % 256, (w / 256) % 256, (w / 65536) % 256, w / 16777216]
  }

  function LeWord(b0: byte, b1: byte, b2: byte, b3: byte): word {
    b0 + 256 * b1 + 65536 * b2 + 16777216 * b3
  }

  /** The word stored at a place of a byte string. */
  function WordAt(b: seq<byte>, o: nat): word
    requires o + 4 <= |b|
  {
    LeWord(b[o], b[o + 1], b[o + 2], b[o + 3])
  }

  /** The word stored at an address of the whole memory, addresses in 32-bit arithmetic. */
  function WordIn(m: seq<byte>, a: int): word
    requires |m| == TWO32
  {
    LeWord(m[Wrap(a)], m[Wrap(a + 1)], m[Wrap(a + 2)], m[Wrap(a + 3)])
  }

  function Zeros(n: nat): (s: seq<byte>)
    ensures |s| == n && forall i | 0 <= i < n :: s[i] == 0
  {
    seq(n, _ => 0)
  }

  /** A word has its bytes once. */
  lemma LeUnique(b: seq<byte>, c: seq<byte>)
    requires |b| == |c| == 4
    ensures LeWord(b[0], b[1], b[2], b[3]) == LeWord(c[0], c[1], c[2], c[3]) <==> b == c
  {
    if LeWord(b[0], b[1], b[2], b[3]) == LeWord(c[0], c[1], c[2], c[3]) {
      var b1: int, b2: int, b3: int := b[1], b[2], b[3];
      var c1: int, c2: int, c3: int := c[1], c[2], c[3];
      LastDigit(b[0], b1 + 256 * b2 + 65536 * b3, c[0], c1 + 256 * c2 + 65536 * c3);
      LastDigit(b[1], b2 + 256 * b3, c[1], c2 + 256 * c3);
      LastDigit(b[2], b3, c[2], c3);
    }
  }

  lemma LastDigit(low: byte, high: nat, low': byte, high': nat)
    requires low + 256 * high == low' + 256 * high'
    ensures low == low' && high == high'
  {
  }

  lemma LeRoundTrip(w: word)
    ensures var s := LeBytes(w); LeWord(s[0], s[1], s[2], s[3]) == w
  {
    assert (w / 256) / 256 == w / 65536;
    assert (w / 65536) / 256 == w / 16777216;
  }
}
