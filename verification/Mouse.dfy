/** The mouse driver of src/kernel/mouse.c: packets assembled byte by byte, and a ring buffer of events. */
module Mouse {
  import opened Machine
  import opened RingPlaces

  const PACKET_SIZE: nat := 3

  datatype MouseEvent = MouseEvent(dx: int, dy: int, buttons: bv8, changed: bv8)

  /** A byte read as a signed number. */
  function Signed(b: bv8): (n: int)
    ensures -128 <= n < 128
  {
    if b < 128 then b as int else b as int - 256
  }

  /** The byte of the negated movement, as an int8_t conversion leaves it. */
  function Negated(b: bv8): bv8 {
    0 - b
  }

  /** dy is the movement negated, except that -128 stays as it is. */
  lemma DyIsNegated(b: bv8)
    ensures Signed(Negated(b)) == (if b == 0x80 then Signed(b) else -Signed(b))
  {
    if b == 0 {
      assert Negated(b) == 0;
    } else {
      assert (0 - b) as int == 256 - b as int;
    }
  }

  // ---- the reference parser ----

  datatype Packet = Packet(first: bv8, second: bv8, third: bv8)

  /** Skip to a byte with bit 3 set, take three bytes, repeat. */
  function Parse(bytes: seq<bv8>): seq<Packet> {
    if bytes == [] then []
    else if bytes[0] & 0x08 == 0 then Parse(bytes[1..])
    else if |bytes| < PACKET_SIZE then []
    else [Packet(bytes[0], bytes[1], bytes[2])] + Parse(bytes[PACKET_SIZE..])
  }

  /** The event of a packet, after the buttons seen last. */
  function EventOf(p: Packet, last: bv8): MouseEvent {
    MouseEvent(Signed(p.second), Signed(Negated(p.third)), p.first & 0x07, (p.first & 0x07) ^ last)
  }

  /** What an event says: the second byte as a signed movement, the third one negated, where -128 has no negation and
      stays, the low three bits of the first as buttons, and which of them are not as they were. */
  lemma EventFields(p: Packet, last: bv8)
    ensures var e := EventOf(p, last);
            && e.dx == (p.second as int) - (if p.second >= 0x80 then 256 else 0)
            && e.dy == (if p.third == 0x80 then -128
                        else if p.third > 0x80 then 256 - p.third as int
                        else -(p.third as int))
            && e.buttons as int == p.first as int % 8 && e.changed ^ last == e.buttons
  {
    DyIsNegated(p.third);
    LowBits(p.first);
    XorBack(p.first & 0x07, last);
  }

  lemma LowBits(b: bv8)
    ensures (b & 0x07) as int == b as int % 8
  {
    assert b & 0x07 == b % 8;
  }

  lemma XorBack(x: bv8, y: bv8)
    ensures (x ^ y) ^ y == x
  {
  }

  /** Bytes without bit 3 are skipped until a packet starts, which takes three bytes, whatever the other two are. */
  lemma {:induction false} ParseSkipsToPacket(stray: seq<bv8>, a: bv8, b: bv8, c: bv8, rest: seq<bv8>)
    requires (forall x | x in stray :: x & 0x08 == 0) && a & 0x08 != 0
    ensures Parse(stray + [a, b, c] + rest) == [Packet(a, b, c)] + Parse(rest)
    decreases |stray|
  {
    var all := stray + [a, b, c] + rest;
    if stray == [] {
      assert all[PACKET_SIZE..] == rest;
    } else {
      assert stray[0] in stray && forall x | x in stray[1..] :: x in stray;
      assert all[1..] == stray[1..] + [a, b, c] + rest;
      ParseSkipsToPacket(stray[1..], a, b, c, rest);
    }
  }

  function EventsOf(packets: seq<Packet>, last: bv8): seq<MouseEvent> {
    if packets == [] then [] else [EventOf(packets[0], last)] + EventsOf(packets[1..], packets[0].first & 0x07)
  }

  // ---- the state machine ----

  /** Bytes of an unfinished packet, and the buttons seen last. */
  datatype Assembly = Assembly(pending: seq<bv8>, last: bv8)

  /** One byte: maybe an event. */
  function Fed(a: Assembly, data: bv8): (Assembly, seq<MouseEvent>) {
    if a.pending == [] && data & 0x08 == 0 then (a, [])
    else
      var pending := a.pending + [data];
      if |pending| < PACKET_SIZE then (Assembly(pending, a.last), [])
      else
        var e := EventOf(Packet(pending[0], pending[1], pending[2]), a.last);
        (Assembly([], e.buttons), [e])
  }

  /** All events of a stream of bytes. */
  function Emitted(a: Assembly, bytes: seq<bv8>): seq<MouseEvent>
    decreases |bytes|
  {
    if bytes == [] then [] else Fed(a, bytes[0]).1 + Emitted(Fed(a, bytes[0]).0, bytes[1..])
  }

  function AfterAll(a: Assembly, bytes: seq<bv8>): Assembly
    decreases |bytes|
  {
    if bytes == [] then a else AfterAll(Fed(a, bytes[0]).0, bytes[1..])
  }

  /** The state machine emits the events of the reference parser, for every stream. */
  lemma {:induction false} EmitsWhatParserReads(last: bv8, bytes: seq<bv8>)
    ensures Emitted(Assembly([], last), bytes) == EventsOf(Parse(bytes), last)
    decreases |bytes|
  {
    hide EventOf;
    if bytes != [] {
      if bytes[0] & 0x08 == 0 {
        EmitsWhatParserReads(last, bytes[1..]);
      } else if |bytes| >= PACKET_SIZE {
        PacketFed(last, bytes);
        EmitsWhatParserReads(bytes[0] & 0x07, bytes[PACKET_SIZE..]);
      } else {
        Unfinished(last, bytes);
      }
    }
  }

  lemma PacketFed(last: bv8, bytes: seq<bv8>)
    requires |bytes| >= PACKET_SIZE && bytes[0] & 0x08 != 0
    ensures Emitted(Assembly([], last), bytes)
            == [EventOf(Packet(bytes[0], bytes[1], bytes[2]), last)]
                + Emitted(Assembly([], bytes[0] & 0x07), bytes[PACKET_SIZE..])
  {
    hide Signed, Negated, Emitted;
    var start, one, two := Assembly([], last), Assembly([bytes[0]], last), Assembly([bytes[0], bytes[1]], last);
    assert bytes[1..][1..] == bytes[2..] && bytes[2..][1..] == bytes[PACKET_SIZE..];
    assert [bytes[0]] + [bytes[1]] == two.pending;
    EmitStep(start, bytes);
    assert Fed(start, bytes[0]).0 == one && Fed(start, bytes[0]).1 == [];
    EmitStep(one, bytes[1..]);
    assert Fed(one, bytes[1]).0 == two && Fed(one, bytes[1]).1 == [];
    EmitStep(two, bytes[2..]);
    assert Fed(two, bytes[2]).0 == Assembly([], bytes[0] & 0x07);
  }

  lemma EmitStep(a: Assembly, bytes: seq<bv8>)
    requires bytes != []
    ensures Emitted(a, bytes) == Fed(a, bytes[0]).1 + Emitted(Fed(a, bytes[0]).0, bytes[1..])
  {
    hide Fed;
  }

  lemma Unfinished(last: bv8, bytes: seq<bv8>)
    requires 1 <= |bytes| < PACKET_SIZE && bytes[0] & 0x08 != 0
    ensures Emitted(Assembly([], last), bytes) == []
  {
    hide EventOf, Emitted;
    var one, two := Assembly([bytes[0]], last), if |bytes| == 2 then Assembly([bytes[0], bytes[1]], last)
        else Assembly([], last);
    EmitStep(Assembly([], last), bytes);
    assert Fed(Assembly([], last), bytes[0]).0 == one && Fed(Assembly([], last), bytes[0]).1 == [];
    if |bytes| == 2 {
      EmitStep(one, bytes[1..]);
      assert one.pending + [bytes[1]] == two.pending;
      assert Fed(one, bytes[1]).0 == two && Fed(one, bytes[1]).1 == [];
      NothingEmitted(two, bytes[1..][1..]);
    } else {
      NothingEmitted(one, bytes[1..]);
    }
  }

  lemma NothingEmitted(a: Assembly, bytes: seq<bv8>)
    requires |bytes| == 0
    ensures Emitted(a, bytes) == []
  {
  }

  /** All changes put together. */
  function Changes(events: seq<MouseEvent>): bv8 {
    if events == [] then 0 else events[0].changed ^ Changes(events[1..])
  }

  /** A byte makes at most one event, and its changes are the difference of the buttons. */
  lemma FedChange(a: Assembly, data: bv8)
    ensures var (next, events) := Fed(a, data);
            if events == [] then next.last == a.last else |events| == 1 && events[0].changed == next.last ^ a.last
  {
  }

  lemma OneMoreChange(e: MouseEvent, rest: seq<MouseEvent>)
    ensures Changes([e] + rest) == e.changed ^ Changes(rest)
  {
    assert ([e] + rest)[1..] == rest;
  }

  /** From any point of a stream on, the changes add up to the difference between the buttons before and after. */
  lemma {:induction false} ChangesAddUp(a: Assembly, bytes: seq<bv8>)
    ensures Changes(Emitted(a, bytes)) == a.last ^ AfterAll(a, bytes).last
    decreases |bytes|
  {
    hide Fed, Changes;
    if bytes == [] {
      XorSelf(a.last);
      NoChanges();
    } else {
      var (next, events) := Fed(a, bytes[0]);
      var rest := Emitted(next, bytes[1..]);
      FedChange(a, bytes[0]);
      ChangesAddUp(next, bytes[1..]);
      if events == [] {
        assert events + rest == rest;
      } else {
        assert events == [events[0]];
        OneMoreChange(events[0], rest);
        XorChain(next.last, a.last, AfterAll(a, bytes).last);
      }
    }
  }

  lemma NoChanges()
    ensures Changes([]) == 0
  {
  }

  lemma XorSelf(x: bv8)
    ensures x ^ x == 0 && 0 ^ x == x
  {
  }

  lemma XorChain(x: bv8, y: bv8, z: bv8)
    ensures (x ^ y) ^ (x ^ z) == y ^ z
  {
  }

  /** Since start-up, the changes of all events together are the buttons held now. */
  lemma ChangesAreButtons(bytes: seq<bv8>)
    ensures Changes(Emitted(Assembly([], 0), bytes)) == AfterAll(Assembly([], 0), bytes).last
  {
    ChangesAddUp(Assembly([], 0), bytes);
    XorSelf(AfterAll(Assembly([], 0), bytes).last);
  }

  // ---- the driver ----

  class Driver {
    const queue: array<MouseEvent>
    var head: nat
    var tail: nat
    var count: nat
    const packet: array<bv8>
    var packetIndex: nat
    var lastButtons: bv8

    ghost predicate Valid()
      reads this
    {
      && packet.Length == PACKET_SIZE && packetIndex < PACKET_SIZE && queue as object != packet
      && queue.Length > 0 && head < queue.Length && count <= queue.Length
      && tail == Place(queue.Length, head, count)
    }

    /** The queued events, oldest first. */
    ghost function Pending(): (s: seq<MouseEvent>)
      requires Valid()
      reads this, queue
      ensures |s| == count
    {
      seq(count, i requires 0 <= i && Valid() reads this, queue => queue[Place(queue.Length, head, i)])
    }

    ghost function State(): Assembly
      requires Valid()
      reads this, packet
    {
      Assembly(packet[..packetIndex], lastButtons)
    }

    constructor (capacity: nat)
      requires capacity > 0
      ensures Valid() && queue.Length == capacity && Pending() == [] && State() == Assembly([], 0)
      ensures fresh(queue) && fresh(packet)
    {
      PlaceHere(capacity, 0);
      queue := new MouseEvent[capacity](_ => MouseEvent(0, 0, 0, 0));
      packet := new bv8[PACKET_SIZE](_ => 0);
      head, tail, count, packetIndex, lastButtons := 0, 0, 0, 0, 0;
    }

    /** mouse_queue_push: the newest event is dropped when the queue is full. */
    method Push(e: MouseEvent)
      requires Valid()
      modifies this`tail, this`count, queue
      ensures Valid()
      ensures Pending() == if |old(Pending())| < queue.Length then old(Pending()) + [e] else old(Pending())
    {
      hide Place, Next;
      if count >= queue.Length {
        return;
      }
      ghost var before := Pending();
      queue[tail] := e;
      PlaceAfter(queue.Length, head, count);
      tail := Next(queue.Length, tail);
      count := count + 1;
      forall i | 0 <= i < count
        ensures Pending()[i] == (before + [e])[i]
      {
        if i < count - 1 {
          PlacesApart(queue.Length, head, i, count - 1);
        }
      }
    }

    /** The oldest event leaves the queue. */
    method Pop() returns (e: MouseEvent)
      requires Valid() && count > 0
      modifies this`head, this`count
      ensures Valid() && old(Pending()) == [e] + Pending()
    {
      hide Place, Next;
      ghost var before, first := Pending(), head;
      PlaceHere(queue.Length, head);
      e := queue[head];
      PlaceAfter(queue.Length, head, count - 1);
      head := Next(queue.Length, head);
      count := count - 1;
      forall i | 0 <= i < count
        ensures Pending()[i] == before[i + 1]
      {
        PlaceAfter(queue.Length, first, i);
      }
      Shifted(before, e, Pending());
    }

    /** mouse_read_events: the oldest events, up to a number of them. */
    method ReadEvents(max: nat) returns (events: seq<MouseEvent>)
      requires Valid()
      modifies this`head, this`count
      ensures Valid()
      ensures |events| == (if max < |old(Pending())| then max else |old(Pending())|)
      ensures old(Pending()) == events + Pending()
    {
      hide Place, Next;
      events := [];
      ghost var start := Pending();
      while |events| < max && count > 0
        invariant Valid() && |events| <= max && start == events + Pending()
        decreases count
      {
        ghost var before := Pending();
        var e := Pop();
        assert events + before == events + [e] + Pending();
        events := events + [e];
      }
    }

    static method DecodePacket(first: bv8, second: bv8, third: bv8, last: bv8) returns (e: MouseEvent)
      ensures e == EventOf(Packet(first, second, third), last)
    {
      var buttons := first & 0x07;
      var changed := buttons ^ last;
      e := MouseEvent(Signed(second), Signed(Negated(third)), buttons, changed);
    }

    /** The third byte of a packet: its event is pushed. */
    method Complete()
      requires Valid() && packetIndex == 0
      modifies this`lastButtons, this`tail, this`count, queue
      ensures Valid() && var e := EventOf(Packet(packet[0], packet[1], packet[2]), old(lastButtons));
                         && lastButtons == e.buttons
                         && Pending() == if |old(Pending())| < queue.Length then old(Pending()) + [e]
                            else old(Pending())
    {
      hide Place, Next, EventOf;
      var e := DecodePacket(packet[0], packet[1], packet[2], lastButtons);
      lastButtons := e.buttons;
      Push(e);
    }

    /** mouse_handle_irq: without a byte, or with one from the keyboard, nothing happens. */
    method HandleIrq(status: bv8, data: bv8)
      requires Valid()
      modifies this, queue, packet
      ensures Valid()
      ensures status & 0x01 == 0 || status & 0x20 == 0 ==> State() == old(State()) && Pending() == old(Pending())
      ensures status & 0x01 != 0 && status & 0x20 != 0 ==>
                && State() == Fed(old(State()), data).0
                && var queued := old(Pending()) + Fed(old(State()), data).1;
                   Pending() == if |queued| <= queue.Length then queued else old(Pending())
    {
      hide Place, Next, EventOf;
      if status & 0x01 == 0 {
        return;
      }
      if status & 0x20 == 0 {
        return;
      }
      ghost var before, events := State(), Pending();
      assert |before.pending| == packetIndex && events + [] == events;
      if packetIndex == 0 && data & 0x08 == 0 {
        return;
      }
      packet[packetIndex] := data;
      packetIndex := packetIndex + 1;
      assert packet[..packetIndex] == before.pending + [data];
      if packetIndex < PACKET_SIZE {
        return;
      }
      packetIndex := 0;
      Complete();
      assert packet[..0] == [];
    }
  }
}
