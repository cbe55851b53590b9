/** Writing ustar archives, as the counterpart of the loader's parser: what is written is what is read. */
module Archive {
  import opened Machine
  import opened Paths
  import opened FileSystem
  import opened Ustar
  import opened Initrd
  import opened Replay

  /** A record with the two header fields its path is to be written in. */
  datatype Entry = Entry(record: Record, prefix: seq<byte>, name: seq<byte>)

  /** One header can describe it: the size is a word, and the fields fit and build the path. */
  predicate Writable(e: Entry) {
    && |e.record.data| < TWO32 && |e.prefix| <= 155 && |e.name| <= 100 && CString(e.prefix) && CString(e.name)
    && BuildPath(e.prefix, e.name) == e.record.path
  }

  function Header(e: Entry): (h: seq<byte>)
    requires Writable(e)
    ensures |h| == BLOCK
  {
    Front(e) + Back(e)
  }

  /** Name, modes and owners left zero, and size. */
  function Front(e: Entry): (h: seq<byte>)
    requires Writable(e)
    ensures |h| == 156
  {
    e.name + Zeros(124 - |e.name|) + OctalDigits(|e.record.data|, 11) + Zeros(21)
  }

  /** Kind and prefix. */
  function Back(e: Entry): (h: seq<byte>)
    requires Writable(e)
    ensures |h| == 356
  {
    [e.record.kind] + Zeros(188) + e.prefix + Zeros(167 - |e.prefix|)
  }

  function RecordsOf(es: seq<Entry>): (rs: seq<Record>)
    ensures |rs| == |es| && forall i | 0 <= i < |es| :: rs[i] == es[i].record
  {
    seq(|es|, i requires 0 <= i < |es| => es[i].record)
  }

  function Padding(size: nat): nat {
    RecordLength(size) - BLOCK - size
  }

  /** The headers and padded data, then two zero blocks. */
  function Encode(es: seq<Entry>): seq<byte>
    requires forall e <- es :: Writable(e)
  {
    if es == [] then Zeros(2 * BLOCK)
    else Header(es[0]) + es[0].record.data + Zeros(Padding(|es[0].record.data|)) + Encode(es[1..])
  }

  /** A written header carries its record's path, size and kind, and is not empty. */
  lemma HeaderFields(e: Entry)
    requires Writable(e)
    ensures var h := Header(e);
            && h[0..100] == e.name + Zeros(100 - |e.name|)
            && h[124..136] == OctalDigits(|e.record.data|, 11) + [NUL]
            && h[156] == e.record.kind && h[345..500] == e.prefix + Zeros(155 - |e.prefix|)
            && !EmptyHeader(h)
  {
    hide Front, Back, Writable;
    var h, digits := Header(e), OctalDigits(|e.record.data|, 11);
    FrontFields(e);
    BackFields(e);
    assert h[0..100] == Front(e)[0..100] && h[124..136] == Front(e)[124..136] && h[345..500] == Back(e)[189..344];
    assert digits[0] in digits && h[124] == h[124..136][0] == digits[0];
  }

  lemma FrontFields(e: Entry)
    requires Writable(e)
    ensures Front(e)[0..100] == e.name + Zeros(100 - |e.name|)
    ensures Front(e)[124..136] == OctalDigits(|e.record.data|, 11) + [NUL]
  {
    hide OctalDigits, BuildPath;
    var digits := OctalDigits(|e.record.data|, 11);
    assert Front(e)[124..135] == digits;
    assert Front(e)[124..136] == digits + [NUL];
  }

  lemma BackFields(e: Entry)
    requires Writable(e)
    ensures Back(e)[0] == e.record.kind && Back(e)[189..344] == e.prefix + Zeros(155 - |e.prefix|)
  {
    hide BuildPath;
  }

  lemma {:induction false} CStrOfPadded(s: seq<byte>, n: nat)
    requires CString(s)
    ensures CStr(s + Zeros(n)) == s
  {
    if s != [] {
      assert (s + Zeros(n))[1..] == s[1..] + Zeros(n);
      CStrOfPadded(s[1..], n);
    } else {
      assert s + Zeros(n) == Zeros(n);
    }
  }

  lemma {:induction false} NormalizeIdentity(c: Path)
    requires [DOT] !in c
    ensures Normalize(c) == c
  {
    if c != [] {
      assert c[0] in c && forall n <- c[1..] :: n in c;
      NormalizeIdentity(c[1..]);
    }
  }

  // ---- how a path may be written ----

  /** Every path the tree can hold is written by its directory and its last component, whatever its length. */
  lemma SplitFieldsBuild(c: Path)
    requires c != [] && (forall n <- c :: NameOk(n)) && [DOT] !in c && |Canonical(c)| < PARTIAL_SIZE
    ensures var prefix, name := Join(Parent(c)), Last(c);
            && |prefix| <= 155 && |name| <= 100 && CString(prefix) && CString(name)
            && BuildPath(prefix, name) == Canonical(c)
  {
    hide Components, BuildPath, Join;
    var p, name := Parent(c), Last(c);
    assert c == p + [name] && name in c && forall n <- p :: n in c;
    JoinAppend(p, name);
    JoinIsCString(p);
    ComponentsOfJoin(p);
    ComponentsOfName(name);
    NormalizeIdentity(c);
    BuildPathIsCanonical(Join(p), name);
  }

  lemma {:induction false} JoinIsCString(c: Path)
    requires forall n <- c :: NameOk(n)
    ensures CString(Join(c))
  {
    if c != [] {
      assert c[0] in c && forall n <- c[1..] :: n in c;
      JoinIsCString(c[1..]);
    }
  }

  /** The way of an archive of a whole directory: a dot in front of the path, "./" for the root itself. */
  lemma DottedNameBuilds(c: Path)
    requires (forall n <- c :: NameOk(n)) && [DOT] !in c && |Canonical(c)| < PARTIAL_SIZE
    ensures CString([DOT] + Canonical(c)) && BuildPath([], [DOT] + Canonical(c)) == Canonical(c)
  {
    hide Components, BuildPath, Join;
    JoinIsCString(c);
    JoinAbsolute(c);
    DottedComponents(c);
    NormalizeIdentity(c);
    ComponentsOfEmpty();
    assert [] + ([[DOT]] + c) == [[DOT]] + c;
    assert ([[DOT]] + c)[1..] == c;
    BuildPathIsCanonical([], [DOT] + Canonical(c));
  }

  lemma DottedComponents(c: Path)
    requires forall n <- c :: NameOk(n)
    ensures Components([DOT] + Canonical(c)) == [[DOT]] + c
  {
    hide Components, Join;
    JoinAbsolute(c);
    ComponentsConcat([DOT], Canonical(c));
    ComponentsOfName([DOT]);
    if c == [] {
      var none: seq<byte> := [];
      assert [SLASH] + none == [SLASH];
      ComponentsSkipSlash(none);
      ComponentsOfEmpty();
    } else {
      ComponentsOfJoin(c);
    }
  }

  /** One way to write a directory or file record. */
  function Written(r: Record): Entry {
    var c := Components(r.path);
    if c == [] then Entry(r, [], [DOT, SLASH]) else Entry(r, Join(Parent(c)), Last(c))
  }

  /** Every well-formed directory or file has a header, the root included: dots are the only names that cannot be
      written. */
  lemma WellFormedIsWritable(r: Record)
    requires WellFormed(r) && (r.IsDirectory() || r.IsFile()) && [DOT] !in Components(r.path)
    ensures Writable(Written(r)) && Written(r).record == r
  {
    hide Components, BuildPath, Join;
    var c := Components(r.path);
    if c == [] {
      DottedNameBuilds(c);
      assert [DOT] + Canonical(c) == [DOT, SLASH];
    } else {
      SplitFieldsBuild(c);
    }
  }

  // ---- reading back ----

  /** Parsing a written record gives the record back, and what follows it is what follows. */
  lemma RecordRoundTrip(e: Entry, rest: seq<byte>)
    requires Writable(e) && |rest| >= BLOCK
    ensures var r := e.record;
            var a := Header(e) + r.data + Zeros(Padding(|r.data|)) + rest;
            && !AtEnd(a) && SizeOf(a) == |r.data| && BLOCK + SizeOf(a) <= |a|
            && FirstRecord(a) == r && RestOf(a) == rest
  {
    hide Header, BuildPath, CStr, Digits, OctalSum, OctalDigits;
    var r, h := e.record, Header(e);
    var a := h + r.data + Zeros(Padding(|r.data|)) + rest;
    HeaderFields(e);
    assert a[..BLOCK] == h;
    assert a[0..100] == h[0..100] && a[124..136] == h[124..136] && a[345..500] == h[345..500] && a[156] == h[156];
    SizeRoundTrip(|r.data|);
    CStrOfPadded(e.name, 100 - |e.name|);
    CStrOfPadded(e.prefix, 155 - |e.prefix|);
    var i :| 0 <= i < BLOCK && h[i] != NUL;
    assert a[i] == h[i];
    assert a[BLOCK..BLOCK + |r.data|] == r.data;
    assert a[RecordLength(|r.data|)..] == rest;
  }

  lemma SizeRoundTrip(n: nat)
    requires n < TWO32
    ensures Wrap(OctalSum(Digits(OctalDigits(n, 11) + [NUL]))) == n
  {
    hide OctalDigits, OctalSum, Digits;
    var d := OctalDigits(n, 11);
    ElevenDigits();
    OctalRoundTrip(n, 11);
    DigitsOfDigits(d, [NUL]);
  }

  lemma {:induction false} EncodeLength(es: seq<Entry>)
    requires forall e <- es :: Writable(e)
    ensures |Encode(es)| >= 2 * BLOCK
  {
    if es != [] {
      assert es[0] in es && forall e <- es[1..] :: e in es;
      EncodeLength(es[1..]);
    }
  }

  /** Writing entries and parsing them back gives their records. */
  lemma {:induction false} ArchiveRoundTrip(es: seq<Entry>)
    requires forall e <- es :: Writable(e)
    ensures InBounds(Encode(es)) && Records(Encode(es)) == RecordsOf(es)
    decreases |es|
  {
    hide Header, SizeOf, FirstRecord, RestOf, AtEnd, Writable, Encode, Records, InBounds, Zeros;
    if es == [] {
      EndOfArchive();
    } else {
      assert es[0] in es && forall e <- es[1..] :: e in es;
      ArchiveRoundTrip(es[1..]);
      EncodeLength(es[1..]);
      RecordRoundTrip(es[0], Encode(es[1..]));
      EncodeUnfold(es);
      ParseUnfold(Encode(es));
      assert RecordsOf(es) == [es[0].record] + RecordsOf(es[1..]);
    }
  }

  lemma EndOfArchive()
    ensures InBounds(Encode([])) && Records(Encode([])) == []
  {
    hide SizeOf;
    assert forall i | 0 <= i < BLOCK :: Encode([])[i] == NUL;
    assert AtEnd(Encode([]));
  }

  lemma EncodeUnfold(es: seq<Entry>)
    requires es != [] && forall e <- es :: Writable(e)
    ensures forall e <- es[1..] :: Writable(e)
    ensures Writable(es[0])
    ensures Encode(es) == Header(es[0]) + es[0].record.data + Zeros(Padding(|es[0].record.data|)) + Encode(es[1..])
  {
    hide Writable, Header, Zeros;
  }

  lemma ParseUnfold(a: seq<byte>)
    requires !AtEnd(a) && BLOCK + SizeOf(a) <= |a| && InBounds(RestOf(a))
    ensures InBounds(a) && Records(a) == [FirstRecord(a)] + Records(RestOf(a))
  {
    hide SizeOf, FirstRecord, RestOf, AtEnd;
  }

  /** End to end: loading a written archive of well-formed records is their ideal replay. */
  lemma LoadWrittenArchive(fs: Fs, es: seq<Entry>)
    requires TreeOk(fs.tree) && FitsAll(fs.tree, RecordsOf(es)) && Room(fs.arena, NeedAll(RecordsOf(es)))
    requires forall e <- es :: Writable(e)
    ensures InBounds(Encode(es)) && Loadable(Records(Encode(es)))
    ensures LoadRecords(fs, Records(Encode(es))).tree == ApplyAll(fs.tree, RecordsOf(es))
  {
    hide *;
    ArchiveRoundTrip(es);
    LoadIsReplay(fs, RecordsOf(es));
  }
}
