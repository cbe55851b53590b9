/** Byte-addressed memory and the two bulk operations of src/kernel/string.c. */
module Memory {
  import opened Machine

  /** The bytes outside a range of addresses are as they were. */
  predicate KeptOutside(now: seq<byte>, before: seq<byte>, low: nat, high: nat) {
    |now| == |before| && forall a | 0 <= a < |before| && (a < low || high <= a) :: now[a] == before[a]
  }

  lemma KeptInTwo(now: seq<byte>, middle: seq<byte>, before: seq<byte>, low: nat, low': nat, high: nat)
    requires KeptOutside(now, middle, low', high) && KeptOutside(middle, before, low, high) && low <= low'
    ensures KeptOutside(now, before, low, high)
  {
  }

  lemma KeptRange(now: seq<byte>, before: seq<byte>, low: nat, high: nat, a: nat, b: nat)
    requires KeptOutside(now, before, low, high) && a <= b <= |before| && (b <= low || high <= a)
    ensures |now| == |before| && now[a..b] == before[a..b]
  {
  }

  /** memcpy from a source that does not overlap the destination. */
  method MemCpy(mem: array<byte>, dest: nat, src: seq<byte>)
    requires dest + |src| <= mem.Length
    modifies mem
    ensures mem[dest..dest + |src|] == src
    ensures forall a | 0 <= a < mem.Length && !(dest <= a < dest + |src|) :: mem[a] == old(mem[a])
  {
    for i := 0 to |src|
      invariant forall j | 0 <= j < i :: mem[dest + j] == src[j]
      invariant forall a | 0 <= a < mem.Length && !(dest <= a < dest + i) :: mem[a] == old(mem[a])
    {
      mem[dest + i] := src[i];
    }
  }

  method MemSet(mem: array<byte>, dest: nat, value: byte, count: nat)
    requires dest + count <= mem.Length
    modifies mem
    ensures forall a | 0 <= a < mem.Length ::
              mem[a] == if dest <= a < dest + count then value else old(mem[a])
  {
    for i := 0 to count
      invariant forall a | 0 <= a < mem.Length :: mem[a] == if dest <= a < dest + i then value else old(mem[a])
    {
      mem[dest + i] := value;
    }
  }
}
