/** Path strings and the component sequences they denote (src/kernel/ramfs.c). A C string is modelled by its bytes
    before the terminating NUL. */
module Paths {
  import opened Machine

  const SLASH: byte := 47
  const DOT: byte := 46
  const NUL: byte := 0

  const NODE_NAME_MAX: nat := 31
  const PARTIAL_SIZE: nat := 128

  type Name = seq<byte>
  type Path = seq<Name>

  predicate CString(s: seq<byte>) {
    NUL !in s
  }

  /** A file name the tree may hold. */
  predicate NameOk(n: Name) {
    1 <= |n| <= NODE_NAME_MAX && SLASH !in n && NUL !in n
  }

  /** Length of the first segment of s: up to the first slash, or the whole of s. */
  function SegmentLength(s: seq<byte>): (n: nat)
    ensures n <= |s|
    ensures forall i | 0 <= i < n :: s[i] != SLASH
    ensures n < |s| ==> s[n] == SLASH
  {
    if s == [] || s[0] == SLASH then 0 else 1 + SegmentLength(s[1..])
  }

  /** The non-empty components of a path string, in order. */
  function Components(s: seq<byte>): Path
    decreases |s|
  {
    if s == [] then []
    else if s[0] == SLASH then Components(s[1..])
    else
      var n := SegmentLength(s);
      [s[..n]] + Components(s[n..])
  }

  lemma ComponentsUnfold(s: seq<byte>)
    requires s != []
    ensures s[0] == SLASH <==> SegmentLength(s) == 0
    ensures s[0] == SLASH ==> Components(s) == Components(s[1..])
    ensures s[0] != SLASH ==> Components(s) == [s[..SegmentLength(s)]] + Components(s[SegmentLength(s)..])
  {
  }

  lemma ComponentsOfEmpty()
    ensures Components([]) == []
  {
  }

  /** Every component is non-empty and slash-free. */
  lemma {:induction false} ComponentsWellFormed(s: seq<byte>)
    ensures forall c <- Components(s) :: c != [] && SLASH !in c
    ensures CString(s) ==> forall c <- Components(s) :: CString(c)
    decreases |s|
  {
    if s != [] {
      if s[0] == SLASH {
        ComponentsWellFormed(s[1..]);
      } else {
        ComponentsWellFormed(s[SegmentLength(s)..]);
      }
    }
  }

  /** A slash separates: the components on either side of it are independent. */
  lemma {:induction false} ComponentsConcat(a: seq<byte>, b: seq<byte>)
    requires b == [] || b[0] == SLASH || a == [] || a[|a| - 1] == SLASH
    ensures Components(a + b) == Components(a) + Components(b)
    decreases |a|
  {
    var ab := a + b;
    if a == [] || b == [] {
      assert ab == if a == [] then b else a;
    } else if a[0] == SLASH {
      assert ab[1..] == a[1..] + b;
      ComponentsConcat(a[1..], b);
    } else {
      var n := SegmentLength(a);
      SegmentPrefix(a, b);
      assert ab[..n] == a[..n] && ab[n..] == a[n..] + b;
      ComponentsConcat(a[n..], b);
    }
  }

  lemma {:induction false} SegmentPrefix(a: seq<byte>, b: seq<byte>)
    requires SegmentLength(a) < |a| || b == [] || b[0] == SLASH
    ensures SegmentLength(a + b) == SegmentLength(a)
  {
    if a == [] {
      assert a + b == b;
    } else if a[0] != SLASH {
      assert (a + b)[1..] == a[1..] + b;
      SegmentPrefix(a[1..], b);
    }
  }

  /** A slash-free string is its own only component. */
  lemma ComponentsOfName(n: seq<byte>)
    requires n != [] && SLASH !in n
    ensures Components(n) == [n]
  {
    assert SegmentLength(n) == |n|;
    assert n[..|n|] == n && n[|n|..] == [];
  }

  /** Absolute path string of a component sequence. */
  function Join(p: Path): seq<byte> {
    if p == [] then [] else [SLASH] + p[0] + Join(p[1..])
  }

  lemma ComponentsSkipSlash(s: seq<byte>)
    ensures Components([SLASH] + s) == Components(s)
  {
    assert ([SLASH] + s)[1..] == s;
  }

  lemma JoinStep(name: Name, tail: seq<byte>)
    requires name != [] && SLASH !in name && (tail == [] || tail[0] == SLASH)
    ensures Components([SLASH] + name + tail) == [name] + Components(tail)
  {
    hide Components;
    var rest := name + tail;
    assert [SLASH] + name + tail == [SLASH] + rest;
    ComponentsSkipSlash(rest);
    ComponentsConcat(name, tail);
    ComponentsOfName(name);
  }

  /** Joining and splitting are inverse on well-formed component sequences. */
  lemma {:induction false} ComponentsOfJoin(p: Path)
    requires forall c <- p :: c != [] && SLASH !in c
    ensures Components(Join(p)) == p
  {
    if p != [] {
      assert p[0] in p && forall c <- p[1..] :: c in p;
      ComponentsOfJoin(p[1..]);
      var tail := Join(p[1..]);
      JoinStep(p[0], tail);
    }
  }

  lemma {:induction false} JoinAppend(p: Path, c: Name)
    ensures Join(p + [c]) == Join(p) + [SLASH] + c
  {
    if p == [] {
      assert p + [c] == [c];
      assert [c][1..] == [];
    } else {
      JoinAppend(p[1..], c);
      assert (p + [c])[1..] == p[1..] + [c];
      assert Join(p + [c]) == [SLASH] + p[0] + (Join(p[1..]) + [SLASH] + c);
    }
  }

  /** A directory's path, a slash and a name, taken apart again. */
  lemma SlashSlices(dir: seq<byte>, name: seq<byte>)
    ensures var path := dir + [SLASH] + name;
            path[..|dir|] == dir && path[|dir|] == SLASH && path[|dir| + 1..] == name
  {
  }

  /** Position of the last slash of an absolute path. */
  function LastSlash(s: seq<byte>): (k: nat)
    requires s != [] && s[0] == SLASH
    ensures k < |s| && s[k] == SLASH
    ensures forall i | k < i < |s| :: s[i] != SLASH
  {
    if s[|s| - 1] == SLASH then |s| - 1
    else
      var k := LastSlash(s[..|s| - 1]);
      k
  }

  lemma LastSlashUnique(s: seq<byte>, k: nat)
    requires s != [] && s[0] == SLASH
    requires k < |s| && s[k] == SLASH && SLASH !in s[k + 1..]
    ensures LastSlash(s) == k
  {
    assert k <= LastSlash(s);
  }

  lemma ComponentsAfterSlash(name: seq<byte>)
    requires SLASH !in name
    ensures Components([SLASH] + name) == if name == [] then [] else [name]
  {
    ComponentsSkipSlash(name);
    if name != [] {
      ComponentsOfName(name);
    }
  }

  /** What follows the last slash is the last component, unless it is empty. */
  lemma ComponentsSplitLast(s: seq<byte>, k: nat)
    requires k < |s| && s[k] == SLASH && SLASH !in s[k + 1..]
    ensures Components(s) == Components(s[..k]) + (if k + 1 == |s| then [] else [s[k + 1..]])
  {
    hide Components;
    var name := s[k + 1..];
    var tail := [SLASH] + name;
    assert s[k..] == tail && s == s[..k] + s[k..];
    ComponentsConcat(s[..k], tail);
    ComponentsAfterSlash(name);
  }

  lemma LastSlashSplits(s: seq<byte>)
    requires s != [] && s[0] == SLASH
    ensures SLASH !in s[LastSlash(s) + 1..]
  {
    hide LastSlash;
    var k := LastSlash(s);
    var name := s[k + 1..];
    forall i | 0 <= i < |name|
      ensures name[i] != SLASH
    {
      assert name[i] == s[k + 1 + i];
    }
  }

  // ---- component sequences as tree positions ----

  function Parent(p: Path): Path
    requires p != []
  {
    p[..|p| - 1]
  }

  function Last(p: Path): Name
    requires p != []
  {
    p[|p| - 1]
  }

  function Child(p: Path, n: Name): (q: Path)
    ensures q != [] && Parent(q) == p && Last(q) == n && |q| == |p| + 1
  {
    p + [n]
  }

  lemma ChildOfParent(q: Path)
    requires q != []
    ensures Child(Parent(q), Last(q)) == q
  {
  }
}
