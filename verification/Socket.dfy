/** The write side of the socket class.  The queue holds message buffers and the front one is consumed
    in place; what the operating system answers to a write is a parameter. */
module Sockets {
  import opened Bytes
  import opened MessageBuffers
  import opened WriteQueue

  class Socket {
    var closed: bool
    var closing: bool
    var writingAsync: bool
    var writeQueue: seq<MessageBuffer>

    /** The bytes taken by the operating system, the packets that left the queue, and the waits. */
    ghost var wire: bytes
    ghost var retired: seq<Packet>
    ghost var waits: nat

    ghost function PacketOf(b: MessageBuffer): Packet
      requires b.Valid()
      reads b, b.data
    {
      Packet(b.data[..b.writePos], b.readPos)
    }

    ghost predicate Valid()
      reads this, writeQueue
    {
      && (forall i :: 0 <= i < |writeQueue| ==> writeQueue[i].Valid())
      && (forall i, j :: 0 <= i < j < |writeQueue| ==> writeQueue[i] != writeQueue[j])
    }

    ghost function Pending(): seq<Packet>
      requires Valid()
      reads this, writeQueue, set b | b in writeQueue :: b.data
    {
      seq(|writeQueue|, i requires 0 <= i < |writeQueue| reads this, writeQueue, set b | b in writeQueue :: b.data
                          requires Valid() => PacketOf(writeQueue[i]))
    }

    ghost function Now(): Writer
      requires Valid()
      reads this, writeQueue, set b | b in writeQueue :: b.data
    {
      Writer(Pending(), writingAsync, closed, closing, wire, retired, waits)
    }

    constructor ()
      ensures Valid() && Now() == Init(false)
    {
      closed, closing, writingAsync := false, false, false;
      writeQueue := [];
      wire, retired, waits := [], [], 0;
    }

    method CloseSocket()
      requires Valid()
      modifies this`closed
      ensures Valid() && Now() == Step(old(Now()), Close)
    {
      closed := true;
    }

    /** Takes over a buffer; nobody else refers to it. */
    method QueuePacket(packet: MessageBuffer)
      requires Valid() && packet.Valid() && packet !in writeQueue && packet.readPos == 0
      modifies this`writeQueue
      ensures Valid() && writeQueue == old(writeQueue) + [packet]
      ensures Now() == Step(old(Now()), Queue(packet.Active()))
    {
      writeQueue := writeQueue + [packet];
      assert packet.data[..packet.writePos] == packet.Active();
    }

    /** As the session sends: an empty packet is not queued. */
    method SendPacket(value: bytes)
      requires Valid()
      modifies this`writeQueue
      ensures Valid()
      ensures value == [] ==> Now() == old(Now())
      ensures value != [] ==> Now() == Step(old(Now()), Queue(value))
      ensures forall b :: b in writeQueue ==> b in old(writeQueue) || fresh(b)
    {
      if value == [] {
        return;
      }
      ghost var before := Pending();
      var buffer := new MessageBuffer(|value|);
      buffer.Write(value);
      assert Pending() == before;
      QueuePacket(buffer);
      assert old(Now()).queue == before;
    }

    /** One attempt to write the front packet. */
    method AttemptFront(answer: Answer) returns (again: bool)
      requires Valid()
      modifies this, writeQueue
      ensures Valid() && (writeQueue == old(writeQueue) || (old(writeQueue) != [] && writeQueue == old(writeQueue)[1..]))
      ensures (Now(), again) == HandleQueue(old(Now()), answer)
    {
      if writeQueue == [] {
        return false;
      }
      hide Consume, Pop;
      var message := writeQueue[0];
      var size := message.ActiveSize();
      assert Now().queue[0] == PacketOf(message) && size == Remaining(Now().queue[0]);
      var sent := Taken(answer, size);
      if answer.WouldBlock? {
        again := HandleQueueAsync();
        return;
      }
      if answer.HardError? || sent == 0 {
        PopFront();
        return false;
      }
      ConsumeFront(message, sent);
      if sent < size {
        again := HandleQueueAsync();
        return;
      }
      PopFront();
      again := writeQueue != [];
    }

    /** The operating system has taken bytes of the front packet. */
    method ConsumeFront(message: MessageBuffer, sent: nat)
      requires Valid() && writeQueue != [] && message == writeQueue[0] && sent <= |message.Active()|
      modifies this`wire, message`readPos
      ensures Valid() && Now() == Consume(old(Now()), sent) && Now().queue != []
    {
      ghost var w := Now();
      wire := wire + message.data[message.readPos..message.readPos + sent];
      SliceOfFront(message.data[..], message.writePos, message.readPos, sent);
      message.ReadCompleted(sent);
      assert Pending() == [w.queue[0].(pos := w.queue[0].pos + sent)] + w.queue[1..];
    }

    method PopFront()
      requires Valid() && writeQueue != []
      modifies this`writeQueue, this`closed, this`retired
      ensures Valid() && Now() == Pop(old(Now())) && writeQueue == old(writeQueue)[1..]
    {
      ghost var w := Now();
      retired := retired + [PacketOf(writeQueue[0])];
      writeQueue := writeQueue[1..];
      assert Pending() == w.queue[1..];
      if closing && writeQueue == [] {
        CloseSocket();
      }
    }

    /** At most one wait is outstanding. */
    method HandleQueueAsync() returns (again: bool)
      requires Valid()
      modifies this`writingAsync, this`waits
      ensures Valid() && !again && Now() == HandleAsync(old(Now()))
    {
      if writingAsync {
        return false;
      }
      writingAsync := true;
      waits := waits + 1;
      again := false;
    }

    /** One tick: writes until an attempt does not ask for another one. */
    method Update(answers: nat -> Answer) returns (alive: bool)
      requires Valid()
      modifies this, writeQueue
      ensures Valid() && (Now(), alive) == UpdateStep(old(Now()), answers)
      ensures alive == !old(closed)
    {
      if closed {
        return false;
      }
      if writingAsync || (writeQueue == [] && !closing) {
        return true;
      }
      Drain(answers);
      alive := true;
    }

    method Drain(answers: nat -> Answer)
      requires Valid()
      modifies this, writeQueue
      ensures Valid() && Now() == DrainFrom(old(Now()), answers, 0)
    {
      hide HandleQueue, DrainFrom;
      ghost var target := DrainFrom(Now(), answers, 0);
      ghost var queue := writeQueue;
      var i: nat := 0;
      var again := true;
      while again
        invariant Valid() && |writeQueue| <= |queue| && writeQueue == queue[|queue| - |writeQueue|..]
        invariant target == if again then DrainFrom(Now(), answers, i) else Now()
        decreases again, |Now().queue|
      {
        DrainUnfolds(Now(), answers, i);
        again := AttemptFront(answers(i));
        i := i + 1;
      }
    }

    /** The callback of a wait. */
    method OnWritable(answer: Answer)
      requires Valid() && waits > 0
      modifies this, writeQueue
      ensures Valid() && Now() == WakeupStep(old(Now()), answer)
    {
      ghost var w := Now();
      waits := waits - 1;
      writingAsync := false;
      assert Now() == w.(writingAsync := false, waits := w.waits - 1);
      var again := AttemptFront(answer);
    }
  }

  lemma SliceOfFront(data: bytes, writePos: nat, readPos: nat, n: nat)
    requires readPos + n <= writePos <= |data|
    ensures data[..writePos][readPos..readPos + n] == data[readPos..readPos + n]
  {
  }
}
