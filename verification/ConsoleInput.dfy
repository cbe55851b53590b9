/** The console's input queue (src/kernel/console.c) and the system call that reads from it. */
module ConsoleInput {
  import opened Machine
  import opened RingPlaces
  import opened UserMemory
  import opened Processes
  import opened Ownership
  import opened Syscalls

  class Input {
    const queue: array<byte>
    var head: nat
    var tail: nat
    var count: nat

    ghost predicate Valid()
      reads this
    {
      queue.Length > 0 && head < queue.Length && count <= queue.Length && tail == Place(queue.Length, head, count)
    }

    /** The characters typed and not read yet, oldest first. */
    ghost function Pending(): (s: seq<byte>)
      requires Valid()
      reads this, queue
      ensures |s| == count
    {
      seq(count, i requires 0 <= i && Valid() reads this, queue => queue[Place(queue.Length, head, i)])
    }

    constructor (capacity: nat)
      requires capacity > 0
      ensures Valid() && fresh(queue) && queue.Length == capacity && Pending() == []
    {
      PlaceHere(capacity, 0);
      queue := new byte[capacity](_ => 0);
      head, tail, count := 0, 0, 0;
    }

    /** The queue part of console_push_input: a character that finds the queue full is dropped. */
    method Push(c: byte) returns (accepted: bool)
      requires Valid()
      modifies this`tail, this`count, queue
      ensures Valid() && (accepted <==> |old(Pending())| < queue.Length)
      ensures Pending() == if accepted then old(Pending()) + [c] else old(Pending())
    {
      hide Place, Next;
      if count >= queue.Length {
        return false;
      }
      ghost var before := Pending();
      queue[tail] := c;
      PlaceAfter(queue.Length, head, count);
      tail := Next(queue.Length, tail);
      count := count + 1;
      forall i | 0 <= i < count
        ensures Pending()[i] == (before + [c])[i]
      {
        if i < count - 1 {
          PlacesApart(queue.Length, head, i, count - 1);
        }
      }
      return true;
    }

    /** One turn of console_read. */
    method Take() returns (c: byte)
      requires Valid() && count > 0
      modifies this`head, this`count
      ensures Valid() && old(Pending()) == [c] + Pending()
    {
      hide Place, Next;
      ghost var before, first := Pending(), head;
      PlaceHere(queue.Length, head);
      c := queue[head];
      PlaceAfter(queue.Length, head, count - 1);
      head := Next(queue.Length, head);
      count := count - 1;
      forall i | 0 <= i < count
        ensures Pending()[i] == before[i + 1]
      {
        PlaceAfter(queue.Length, first, i);
      }
      Shifted(before, c, Pending());
    }

    /** console_read: the oldest characters, up to a number of them. */
    method Read(size: nat) returns (text: seq<byte>)
      requires Valid()
      modifies this`head, this`count
      ensures Valid() && |text| == Min(size, |old(Pending())|) && old(Pending()) == text + Pending()
    {
      hide Place, Next;
      text := [];
      ghost var start := Pending();
      while |text| < size && count > 0
        invariant Valid() && |text| <= size && start == text + Pending()
        decreases count
      {
        ghost var before := Pending();
        var c := Take();
        assert text + before == text + [c] + Pending();
        text := text + [c];
      }
    }
  }

  /** How many characters a read takes from the queue: all that are asked for, as far as there are some, but no more
      than 64. */
  function Wanted(pending: nat, requested: word): (n: nat)
    ensures n <= 64 && n <= requested && n <= pending && (n == 64 || n == requested || n == pending)
  {
    Min(Min(requested, WRITE_CHUNK), pending)
  }

  /** syscall_read on the console. Characters leave the queue before their copy is checked: when some were waiting and
      the buffer is not a user range, and only then, they are lost. */
  method ReadConsole(k: Kernel, input: Input, fd: word, buffer: word, requested: word) returns (r: word)
    requires k.Valid() && k.Using(fd) && k.KindOf(fd) == Console && Holds(k.CurrentRegions(), k.mem)
    requires input.Valid() && input.queue != k.mem
    modifies input`head, input`count, k.mem
    ensures k.Valid() && k.View() == old(k.View()) && input.Valid()
    ensures var n := Wanted(|old(input.Pending())|, requested);
            && input.Pending() == old(input.Pending())[if buffer == 0 then 0 else n..]
            && r == (if buffer == 0 then FAIL else if n == 0 then 0
                     else if ValidRange(k.CurrentRegions(), buffer, n) then n else FAIL)
            && (r == FAIL && input.Pending() != old(input.Pending())
                <==> buffer != 0 && n > 0 && !ValidRange(k.CurrentRegions(), buffer, n))
            && (n > 0 && r == n ==> buffer + n <= k.mem.Length
                                    && k.mem[buffer..buffer + n] == old(input.Pending())[..n])
            && (forall a | 0 <= a < k.mem.Length && !(r == n && buffer <= a < buffer + n) ::
                  k.mem[a] == old(k.mem[a]))
  {
    hide ValidRange, Separated;
    if buffer == 0 {
      return FAIL;
    }
    var chunk := if requested < WRITE_CHUNK then requested else WRITE_CHUNK;
    var text := input.Read(chunk);
    assert old(input.Pending())[|text|..] == input.Pending() && old(input.Pending())[..|text|] == text;
    if |text| == 0 {
      return 0;
    }
    var copied := CopyToUser(k.mem, k.CurrentRegions(), buffer, text);
    return if copied then |text| else FAIL;
  }
}
