/** Reading ustar archives (the tar_ functions of src/kernel/ramfs.c; the format is the "ustar Interchange Format" of
    the pax utility in IEEE Std 1003.1). */
module Ustar {
  import opened Machine
  import opened Paths

  const BLOCK: nat := 512
  const PATH_SIZE: nat := 256
  const SPACE: byte := 32
  const ZERO: byte := 48

  /** The bytes of a fixed-size field before its NUL, or all of it. */
  function CStr(field: seq<byte>): (s: seq<byte>)
    ensures CString(s) && |s| <= |field|
  {
    if field == [] || field[0] == NUL then [] else [field[0]] + CStr(field[1..])
  }

  // ---- octal numbers ----

  /** Value of a plain char on a machine where char is signed. */
  function SignedChar(b: byte): int {
    if b < 128 then b else b - 256
  }

  /** The digits of a number field: everything before the first NUL or space. */
  function Digits(text: seq<byte>): (d: seq<byte>)
    ensures d <= text
    ensures |d| < |text| ==> text[|d|] == NUL || text[|d|] == SPACE
    ensures NUL !in d && SPACE !in d
  {
    if text == [] || text[0] == NUL || text[0] == SPACE then [] else [text[0]] + Digits(text[1..])
  }

  /** The exact integer a digit string denotes in base eight. */
  function OctalSum(d: seq<byte>): int {
    if d == [] then 0 else 8 * OctalSum(d[..|d| - 1]) + (SignedChar(d[|d| - 1]) - ZERO)
  }

  /** The parsed size is the denoted integer modulo 2^32. */
  method ParseOctal(text: seq<byte>) returns (value: word)
    ensures value == Wrap(OctalSum(Digits(text)))
  {
    hide Wrap, OctalSum, Digits, SignedChar;
    value := 0;
    OctalStart(text);
    for i := 0 to |text|
      invariant text[..i] <= Digits(text)
      invariant value == Wrap(OctalSum(text[..i]))
    {
      if text[i] == NUL || text[i] == SPACE {
        DigitsEnd(text, i);
        break;
      }
      DigitsGoOn(text, i);
      OctalStep(text, i);
      value := Wrap(Wrap(8 * value) + (SignedChar(text[i]) - ZERO));
    }
    DigitsAll(text);
  }

  lemma OctalStart(text: seq<byte>)
    ensures Wrap(OctalSum([])) == 0 && text[..0] == []
  {
  }

  lemma DigitsAll(text: seq<byte>)
    ensures text[..|text|] <= Digits(text) ==> Digits(text) == text && text[..|text|] == text
  {
    hide Digits;
    assert text[..|text|] == text;
  }

  /** One more digit, in 32-bit arithmetic. */
  lemma OctalStep(text: seq<byte>, i: nat)
    requires i < |text|
    ensures Wrap(Wrap(8 * Wrap(OctalSum(text[..i]))) + (SignedChar(text[i]) - ZERO)) == Wrap(OctalSum(text[..i + 1]))
  {
    hide Wrap, SignedChar;
    assert text[..i + 1][..i] == text[..i];
    WrapOctalStep(OctalSum(text[..i]), SignedChar(text[i]) - ZERO);
  }

  lemma DigitsEnd(text: seq<byte>, i: nat)
    requires i < |text| && (text[i] == NUL || text[i] == SPACE) && text[..i] <= Digits(text)
    ensures Digits(text) == text[..i]
  {
    var d := Digits(text);
    assert !(|d| > i);
  }

  lemma DigitsGoOn(text: seq<byte>, i: nat)
    requires i < |text| && text[i] != NUL && text[i] != SPACE && text[..i] <= Digits(text)
    ensures text[..i + 1] <= Digits(text)
  {
    hide Digits;
    var d := Digits(text);
    assert |d| > i;
    assert d[..i + 1] == text[..i + 1];
  }

  lemma WrapOctalStep(a: int, b: int)
    ensures Wrap(Wrap(8 * Wrap(a)) + b) == Wrap(8 * a + b)
  {
    var q := a / TWO32;
    var r: int := Wrap(a);
    assert a == q * TWO32 + r;
    var q' := (8 * r) / TWO32;
    var r': int := Wrap(8 * r);
    assert 8 * r == q' * TWO32 + r';
    assert 8 * a + b == (r' + b) + (8 * q + q') * TWO32;
    WrapTurns(r' + b, 8 * q + q');
  }

  function Pow8(w: nat): nat {
    if w == 0 then 1 else 8 * Pow8(w - 1)
  }

  /** Every size of 32 bits has at most eleven octal digits. */
  lemma ElevenDigits()
    ensures Pow8(11) == 2 * TWO32
  {
    assert Pow8(3) == 0x200;
    assert Pow8(6) == 0x200 * Pow8(3);
    assert Pow8(9) == 0x200 * Pow8(6);
    assert Pow8(11) == 0x40 * Pow8(9);
  }

  /** n written as w octal digits. */
  function OctalDigits(n: nat, w: nat): (d: seq<byte>)
    ensures |d| == w
    ensures forall b <- d :: ZERO <= b < ZERO + 8
  {
    if w == 0 then [] else OctalDigits(n / 8, w - 1) + [ZERO + n % 8]
  }

  /** Writing a size in octal and parsing it back gives the size. */
  lemma {:induction false} OctalRoundTrip(n: nat, w: nat)
    requires n < Pow8(w)
    ensures OctalSum(OctalDigits(n, w)) == n
  {
    if w > 0 {
      OctalRoundTrip(n / 8, w - 1);
      var d := OctalDigits(n, w);
      assert d[..w - 1] == OctalDigits(n / 8, w - 1);
    }
  }

  lemma {:induction false} DigitsOfDigits(d: seq<byte>, rest: seq<byte>)
    requires NUL !in d && SPACE !in d && rest != [] && rest[0] == NUL
    ensures Digits(d + rest) == d
  {
    if d == [] {
      assert d + rest == rest;
    } else {
      assert (d + rest)[1..] == d[1..] + rest;
      DigitsOfDigits(d[1..], rest);
    }
  }

  // ---- paths ----

  /** Components that name the directory they stand in are dropped. */
  function Normalize(c: Path): Path {
    if c == [] then []
    else if c[0] == [DOT] then Normalize(c[1..])
    else [c[0]] + Normalize(c[1..])
  }

  /** Appending one component to a path under construction, within the path buffer. */
  function AppendComponent(path: seq<byte>, component: seq<byte>): (r: seq<byte>)
    requires 1 <= |path| < PATH_SIZE
    ensures 1 <= |r| < PATH_SIZE
  {
    if component == [] || component == [DOT] then path
    else if |path| > 1 && |path| + 1 >= PATH_SIZE then path
    else
      var p := if |path| > 1 then path + [SLASH] else path;
      if |p| + |component| >= PATH_SIZE then p else p + component
  }

  function AppendAll(path: seq<byte>, c: Path): (r: seq<byte>)
    requires 1 <= |path| < PATH_SIZE
    ensures 1 <= |r| < PATH_SIZE
    decreases |c|
  {
    if c == [] then path else AppendAll(AppendComponent(path, c[0]), c[1..])
  }

  /** The path of a header: prefix and name components behind one leading slash, without a trailing slash. */
  function BuildPath(prefix: seq<byte>, name: seq<byte>): (r: seq<byte>) {
    var p := AppendAll(AppendAll([SLASH], Components(prefix)), Components(name));
    if |p| > 1 && p[|p| - 1] == SLASH then p[..|p| - 1] else p
  }

  /** One of the two component loops: cut the string at its slashes, append every piece. */
  method AppendField(path: seq<byte>, field: seq<byte>) returns (r: seq<byte>)
    requires 1 <= |path| < PATH_SIZE
    ensures r == AppendAll(path, Components(field))
    ensures 1 <= |r| < PATH_SIZE
  {
    hide Components, AppendComponent;
    r := path;
    var component := field;
    while component != []
      invariant 1 <= |r| < PATH_SIZE
      invariant AppendAll(path, Components(field)) == AppendAll(r, Components(component))
      decreases |component|
    {
      var n := SegmentLength(component);
      ComponentsUnfold(component);
      var next := component[n..];
      AppendPiece(r, component[..n], Components(next));
      if next != [] {
        ComponentsUnfold(next);
        next := next[1..];
      }
      r := AppendComponent(r, component[..n]);
      component := next;
    }
    ComponentsOfEmpty();
  }

  lemma AppendPiece(path: seq<byte>, piece: seq<byte>, rest: Path)
    requires 1 <= |path| < PATH_SIZE
    ensures AppendAll(path, [piece] + rest) == AppendAll(AppendComponent(path, piece), rest)
    ensures AppendComponent(path, []) == path
  {
    assert ([piece] + rest)[1..] == rest;
  }

  method BuildHeaderPath(prefix: seq<byte>, name: seq<byte>) returns (path: seq<byte>)
    ensures path == BuildPath(CStr(prefix), CStr(name))
  {
    hide Components, AppendAll, CStr;
    path := [SLASH];
    path := AppendField(path, CStr(prefix));
    path := AppendField(path, CStr(name));
    if |path| > 1 && path[|path| - 1] == SLASH {
      path := path[..|path| - 1];
    }
  }

  /** Absolute path of a component sequence, "/" for the empty one. */
  function Canonical(c: Path): seq<byte> {
    if c == [] then [SLASH] else Join(c)
  }

  /** The built path is the canonical path of the normalized components exactly when that fits the buffer. */
  lemma BuildPathIsCanonical(prefix: seq<byte>, name: seq<byte>)
    ensures var c := Normalize(Components(prefix) + Components(name));
            BuildPath(prefix, name) == Canonical(c) <==> |Canonical(c)| < PATH_SIZE
  {
    hide Components, Normalize, Canonical, AppendAll;
    var p, n := Components(prefix), Components(name);
    ComponentsWellFormed(prefix);
    ComponentsWellFormed(name);
    if |Canonical(Normalize(p + n))| < PATH_SIZE {
      BuiltIsCanonical(p, n);
    }
  }

  lemma BuiltIsCanonical(p: Path, n: Path)
    requires forall m <- p + n :: m != [] && SLASH !in m
    requires |Canonical(Normalize(p + n))| < PATH_SIZE
    ensures AppendAll(AppendAll([SLASH], p), n) == Canonical(Normalize(p + n))
    ensures var c := Canonical(Normalize(p + n)); |c| > 1 ==> c[|c| - 1] != SLASH
  {
    hide Normalize, Join, AppendAll;
    var c, cp, cn := Normalize(p + n), Normalize(p), Normalize(n);
    NormalizeConcat(p, n);
    NormalizeWellFormed(p + n);
    assert forall m <- p :: m in p + n;
    assert forall m <- n :: m in p + n;
    NormalizeWellFormed(p);
    AppendAllJoins(cp, n);
    assert [] + cp == cp;
    AppendAllJoins([], p);
    CanonicalEnd(c);
  }

  lemma {:induction false} NormalizeConcat(a: Path, b: Path)
    ensures Normalize(a + b) == Normalize(a) + Normalize(b)
  {
    if a == [] {
      assert a + b == b;
    } else {
      assert (a + b)[1..] == a[1..] + b;
      NormalizeConcat(a[1..], b);
    }
  }

  lemma {:induction false} NormalizeWellFormed(c: Path)
    requires forall n <- c :: n != [] && SLASH !in n
    ensures forall n <- Normalize(c) :: n != [] && SLASH !in n && n in c
  {
    if c != [] {
      assert c[0] in c && forall n <- c[1..] :: n in c;
      NormalizeWellFormed(c[1..]);
    }
  }

  lemma {:induction false} JoinConcat(a: Path, b: Path)
    ensures Join(a + b) == Join(a) + Join(b)
  {
    if a == [] {
      assert a + b == b;
    } else {
      assert (a + b)[1..] == a[1..] + b;
      JoinConcat(a[1..], b);
      assert [SLASH] + a[0] + Join(a[1..] + b) == [SLASH] + a[0] + Join(a[1..]) + Join(b);
    }
  }

  lemma {:induction false} AppendAllJoins(done: Path, c: Path)
    requires (forall n <- done :: n != []) && (forall n <- c :: n != [])
    requires |Canonical(done + Normalize(c))| < PATH_SIZE
    ensures 1 <= |Canonical(done)| < PATH_SIZE
    ensures AppendAll(Canonical(done), c) == Canonical(done + Normalize(c))
    decreases |c|
  {
    hide Join, Canonical, AppendComponent, Normalize;
    CanonicalGrows(done, Normalize(c));
    NormalizeUnfold(c);
    if c == [] {
      assert done + [] == done;
    } else {
      var n := c[0];
      assert n in c && forall m <- c[1..] :: m in c;
      if n == [DOT] {
        AppendAllJoins(done, c[1..]);
      } else {
        assert done + Normalize(c) == done + [n] + Normalize(c[1..]);
        CanonicalGrows(done + [n], Normalize(c[1..]));
        AppendAllJoins(done + [n], c[1..]);
        AppendJoins(done, n);
      }
      AppendPiece(Canonical(done), n, c[1..]);
      assert c == [n] + c[1..];
    }
  }

  lemma NormalizeUnfold(c: Path)
    ensures c == [] ==> Normalize(c) == []
    ensures c != [] ==> Normalize(c) == if c[0] == [DOT] then Normalize(c[1..]) else [c[0]] + Normalize(c[1..])
    ensures forall path | 1 <= |path| < PATH_SIZE :: AppendComponent(path, [DOT]) == path
  {
  }

  lemma CanonicalGrows(done: Path, rest: Path)
    requires forall n <- done :: n != []
    ensures 1 <= |Canonical(done)| <= |Canonical(done + rest)|
  {
    JoinConcat(done, rest);
    JoinLength(done);
    if done == [] {
      assert done + rest == rest;
    }
    if rest != [] {
      assert |Join(rest)| >= 1;
    }
  }

  lemma AppendJoins(done: Path, n: Name)
    requires (forall n <- done :: n != []) && n != [] && n != [DOT] && |Canonical(done + [n])| < PATH_SIZE
    ensures 1 <= |Canonical(done)| < PATH_SIZE
    ensures AppendComponent(Canonical(done), n) == Canonical(done + [n])
  {
    hide Join;
    JoinAppend(done, n);
    JoinLength(done);
    if done == [] {
      assert Join(done) == [] && [] + [SLASH] + n == [SLASH] + n;
    }
  }

  lemma JoinLength(c: Path)
    requires forall n <- c :: n != []
    ensures c == [] ==> Join(c) == []
    ensures c != [] ==> |Join(c)| > 1
  {
    assert c != [] ==> c[0] in c && |c[0]| >= 1;
  }

  lemma {:induction false} CanonicalEnd(c: Path)
    requires forall n <- c :: n != [] && SLASH !in n
    ensures c != [] ==> |Join(c)| > 1 && Join(c)[|Join(c)| - 1] != SLASH
  {
    if c != [] {
      var p, n := c[..|c| - 1], c[|c| - 1];
      assert c == p + [n] && n in c;
      JoinAppend(p, n);
      assert Join(c)[|Join(c)| - 1] == n[|n| - 1];
    }
  }
}
