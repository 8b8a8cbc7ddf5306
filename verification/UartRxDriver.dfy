/** The receiver of fsl_uart.c as it is programmed, proved to refine the abstract receiver of UartRx. */
module UartRxDriver {
  import opened Machine
  import opened UartRx

  datatype RxState = RxIdle | RxBusy
  datatype Status = Success | StatusRxBusy | NoTransferInProgress

  // ---------------------------------------------------------------------------------------------
  // The ring: an array with a head and a tail index represents a queue
  // ---------------------------------------------------------------------------------------------

  function Advance(size: nat, i: nat): nat {
    if i + 1 == size then 0 else i + 1
  }

  /** The bytes from `tail` up to `head`, going round the end of the array. */
  ghost function QueueOf(ring: seq<byte>, head: nat, tail: nat): seq<byte>
    requires head <= |ring| && tail <= |ring|
  {
    if tail <= head then ring[tail..head] else ring[tail..] + ring[..head]
  }

  lemma QueuePop(ring: seq<byte>, head: nat, tail: nat)
    requires head < |ring| && tail < |ring| && head != tail
    ensures QueueOf(ring, head, tail) == [ring[tail]] + QueueOf(ring, head, Advance(|ring|, tail))
  {
  }

  lemma QueuePush(ring: seq<byte>, head: nat, tail: nat, b: byte)
    requires head < |ring| && tail < |ring| && |QueueOf(ring, head, tail)| < |ring| - 1
    ensures QueueOf(ring[head := b], Advance(|ring|, head), tail) == QueueOf(ring, head, tail) + [b]
  {
  }

  /** On a full ring the driver first moves the tail past the oldest byte. */
  lemma QueuePushFull(ring: seq<byte>, head: nat, tail: nat, b: byte)
    requires head < |ring| && tail < |ring| && |QueueOf(ring, head, tail)| == |ring| - 1
    ensures QueueOf(ring[head := b], Advance(|ring|, head), Advance(|ring|, tail))
            == (QueueOf(ring, head, tail) + [b])[1..]
  {
    if |ring| > 1 {
      QueuePop(ring, head, tail);
      QueuePush(ring, head, Advance(|ring|, tail), b);
    }
  }

  // ---------------------------------------------------------------------------------------------
  // Chunks
  // ---------------------------------------------------------------------------------------------

  /** `k` bytes moved from the hardware FIFO to the pending buffer at once. */
  function DeliverMany(s: Rx, k: nat): (t: Rx)
    requires Ok(s) && 0 < k <= s.want && k <= |s.port.fifo|
    ensures t.want > 0 ==> Ok(t)
    ensures Ok(t.(want := 0)) && t.start <= t.dst <= |t.user.memory|
  {
    var chunk := s.port.fifo[..k];
    s.(user := s.user.(memory := Store(s.user.memory, s.dst, chunk)), dst := s.dst + k, want := s.want - k,
       log := s.log.(read := s.log.read + chunk, fates := s.log.fates + Given(chunk)),
       port := s.port.(fifo := s.port.fifo[k..]))
  }

  lemma GivenSplit(a: seq<byte>, b: seq<byte>)
    ensures Given(a + b) == Given(a) + Given(b)
  {
  }

  lemma StoreNothing(memory: seq<byte>, at: nat)
    requires at <= |memory|
    ensures Store(memory, at, []) == memory
  {
  }

  lemma StoreSplit(memory: seq<byte>, at: nat, a: seq<byte>, b: seq<byte>)
    requires at + |a| + |b| <= |memory|
    ensures Store(memory, at, a + b) == Store(Store(memory, at, a), at + |a|, b)
  {
  }

  lemma StoreOne(memory: seq<byte>, at: nat, a: seq<byte>, b: byte)
    requires at + |a| < |memory|
    ensures Store(memory, at, a + [b]) == Store(memory, at, a)[at + |a| := b]
  {
  }

  lemma DeliverNext(s: Rx, k: nat)
    requires Ok(s) && 1 < k <= s.want && k <= |s.port.fifo|
    ensures DeliverMany(s, k) == DeliverMany(DeliverMany(s, 1), k - 1)
  {
    hide Given, Store;
    var a, b := s.port.fifo[..1], s.port.fifo[1..][..k - 1];
    assert a + b == s.port.fifo[..k];
    assert s.port.fifo[1..][k - 1..] == s.port.fifo[k..];
    assert s.log.read + (a + b) == s.log.read + a + b;
    GivenSplit(a, b);
    StoreSplit(s.user.memory, s.dst, a, b);
    assert s.log.fates + Given(a + b) == s.log.fates + Given(a) + Given(b);
  }

  lemma DeliverOne(s: Rx)
    requires Ok(s) && 0 < s.want && s.port.fifo != []
    ensures DeliverMany(s, 1) == Deliver(PopFifo(s), s.port.fifo[0])
  {
    assert s.port.fifo[..1] == [s.port.fifo[0]] && Given([s.port.fifo[0]]) == [ToUser(s.port.fifo[0])];
  }

  /** Taking a chunk and then draining is draining byte by byte. */
  lemma {:induction false} DrainChunk(s: Rx, k: nat)
    requires Ok(s) && 0 < k <= s.want && k <= |s.port.fifo|
    ensures var t := DeliverMany(s, k);
            Drain(s) == Drain(if t.want > 0 then t else Complete(t))
    decreases k
  {
    hide Deliver, Complete, Push;
    DeliverOne(s);
    assert Drain(s) == Drain(TakeByte(PopFifo(s), s.port.fifo[0]));
    if k > 1 {
      DrainChunk(DeliverMany(s, 1), k - 1);
      DeliverNext(s, k);
    }
  }

  // ---------------------------------------------------------------------------------------------
  // The driver
  // ---------------------------------------------------------------------------------------------

  class Uart {
    var rxRingBuffer: array?<byte>
    var rxRingBufferSize: nat
    var rxRingBufferHead: uint16
    var rxRingBufferTail: uint16
    var rxData: nat
    var rxDataSize: nat
    var rxDataSizeAll: nat
    var rxState: RxState

    var port: Port
    var user: User
    ghost var start: nat
    ghost var taken: nat
    ghost var log: Log

    ghost predicate Valid()
      reads this, rxRingBuffer
    {
      && RingValid()
      && (rxState == RxBusy <==> rxDataSize > 0)
      && Ok(View())
    }

    ghost predicate RingValid()
      reads this`rxRingBuffer, this`rxRingBufferSize, this`rxRingBufferHead, this`rxRingBufferTail
    {
      && (rxRingBuffer == null ==> rxRingBufferSize == 0 && rxRingBufferHead == rxRingBufferTail == 0)
      && (rxRingBuffer != null ==>
            && 1 <= rxRingBufferSize == rxRingBuffer.Length <= 0x1_0000
            && rxRingBufferHead < rxRingBufferSize && rxRingBufferTail < rxRingBufferSize)
    }

    ghost function Queue(): seq<byte>
      reads this`rxRingBuffer, this`rxRingBufferHead, this`rxRingBufferTail, rxRingBuffer
    {
      if rxRingBuffer != null && rxRingBufferHead <= rxRingBuffer.Length && rxRingBufferTail <= rxRingBuffer.Length
      then QueueOf(rxRingBuffer[..], rxRingBufferHead, rxRingBufferTail)
      else []
    }

    ghost function View(): Rx
      reads this, rxRingBuffer
    {
      Rx(rxRingBufferSize, Queue(), start, taken, rxData, rxDataSize, rxDataSizeAll, port, user, log)
    }

    /** UART_TransferCreateHandle, on a peripheral that has received nothing. */
    constructor (user: User)
      requires forall p | p in user.plan && p.Some? :: Admitted(p.value, |user.memory|)
      ensures Valid() && IsInitial(View()) && this.user == user && rxRingBuffer == null
    {
      rxRingBuffer, rxRingBufferSize, rxRingBufferHead, rxRingBufferTail := null, 0, 0, 0;
      rxData, rxDataSize, rxDataSizeAll, rxState := 0, 0, 0, RxIdle;
      port, this.user, start, taken, log := Port(false, []), user, 0, 0, Log([], [], [], 0, 0);
    }

    /** UART_TransferGetRxRingBufferLength. */
    method RingBufferLength() returns (size: nat)
      requires RingValid()
      ensures size == |Queue()|
    {
      if rxRingBufferTail > rxRingBufferHead {
        size := rxRingBufferHead + rxRingBufferSize - rxRingBufferTail;
      } else {
        size := rxRingBufferHead - rxRingBufferTail;
      }
    }

    /** The front and the back of the ring, as the indices see them. */
    lemma RingFront()
      requires RingValid() && rxRingBuffer != null
      ensures Queue() != [] ==>
                && Queue()[0] == rxRingBuffer[rxRingBufferTail]
                && Queue()[1..] == QueueOf(rxRingBuffer[..], rxRingBufferHead, Advance(rxRingBufferSize, rxRingBufferTail))
    {
      if rxRingBufferHead != rxRingBufferTail {
        QueuePop(rxRingBuffer[..], rxRingBufferHead, rxRingBufferTail);
      }
    }

    lemma RingBack(b: byte)
      requires RingValid() && rxRingBuffer != null
      ensures var ring, h, t := rxRingBuffer[..], rxRingBufferHead, rxRingBufferTail;
              var next := Advance(|ring|, h);
              if |Queue()| == |ring| - 1
              then QueueOf(ring[h := b], next, Advance(|ring|, t)) == (Queue() + [b])[1..]
              else QueueOf(ring[h := b], next, t) == Queue() + [b]
    {
      if |Queue()| == rxRingBufferSize - 1 {
        QueuePushFull(rxRingBuffer[..], rxRingBufferHead, rxRingBufferTail, b);
      } else {
        QueuePush(rxRingBuffer[..], rxRingBufferHead, rxRingBufferTail, b);
      }
    }

    /** UART_TransferIsRxRingBufferFull. */
    method IsRingBufferFull() returns (full: bool)
      requires RingValid() && rxRingBuffer != null
      ensures full <==> |Queue()| == rxRingBufferSize - 1
    {
      var length := RingBufferLength();
      full := length == rxRingBufferSize - 1;
    }

    /** The copying loop of UART_TransferReceiveNonBlocking. */
    method CopyFromRing(dst: nat, n: nat)
      requires RingValid() && rxRingBuffer != null
      requires n <= |Queue()| && dst + n <= |user.memory|
      modifies this`rxRingBufferTail, this`user
      ensures RingValid()
      ensures Queue() == old(Queue())[n..]
      ensures user == old(user).(memory := Store(old(user.memory), dst, old(Queue())[..n]))
    {
      hide QueueOf, Store;
      ghost var q := Queue();
      ghost var memory := user.memory;
      StoreNothing(memory, dst);
      var i := 0;
      while i < n
        invariant i <= n
        invariant rxRingBufferTail < rxRingBufferSize
        invariant Queue() == q[i..]
        invariant user == old(user).(memory := Store(memory, dst, q[..i]))
      {
        RingFront();
        StoreOne(memory, dst, q[..i], q[i]);
        assert q[..i + 1] == q[..i] + [q[i]];
        user := user.(memory := user.memory[dst + i := rxRingBuffer[rxRingBufferTail]]);
        if rxRingBufferTail + 1 == rxRingBufferSize {
          rxRingBufferTail := 0;
        } else {
          rxRingBufferTail := rxRingBufferTail + 1;
        }
        i := i + 1;
      }
    }

    /** UART_TransferReceiveNonBlocking. */
    method ReceiveNonBlocking(dst: nat, size: nat) returns (status: Status, receivedBytes: nat)
      requires Valid() && Admitted(Request(dst, size), |user.memory|)
      modifies this
      ensures Valid() && rxRingBuffer == old(rxRingBuffer)
      ensures View() == Receive(old(View()), Request(dst, size))
      ensures status == if old(rxState) == RxBusy then StatusRxBusy else Success
      ensures receivedBytes == if status == Success then Min(size, |old(Queue())|) else 0
      decreases |user.plan|, 1
    {
      hide QueueOf, Given, Idle, Store, TakeFront;
      ghost var s, r := View(), Request(dst, size);
      receivedBytes := 0;
      if rxState == RxBusy {
        return StatusRxBusy, 0;
      }
      var bytesToReceive := size;
      if rxRingBuffer != null {
        receivedBytes := ReceiveFromRing(dst, size);
        bytesToReceive := bytesToReceive - receivedBytes;
        if bytesToReceive == 0 {
          log := log.(handed := log.handed + [user.memory[dst..dst + size]]);
          assert View() == HandOver(TakeFront(s, r), dst, dst + size);
          NotifyRxIdle();
        }
      } else {
        SaveRequest(dst, 0, bytesToReceive);
        port := port.(rie := true);
        TakeNothing(s, r);
      }
      status := Success;
    }

    lemma TakeNothing(s: Rx, r: Request)
      requires Ok(s) && s.queue == [] && Admitted(r, |s.user.memory|)
      ensures TakeFront(s, r) == SetRie(s, true)
    {
      StoreNothing(s.user.memory, r.dst);
      assert s.log.fates + Given([]) == s.log.fates;
    }

    /** What is still missing of a request is saved in the handle. */
    method SaveRequest(dst: nat, received: nat, missing: nat)
      modifies this`rxData, this`rxDataSize, this`rxDataSizeAll, this`rxState, this`start, this`taken
      ensures rxData == dst + received && rxDataSize == missing && rxDataSizeAll == missing
      ensures rxState == RxBusy && start == dst && taken == received
    {
      rxData := dst + received;
      rxDataSize := missing;
      rxDataSizeAll := missing;
      rxState := RxBusy;
      start := dst;
      taken := received;
    }

    /** The part of UART_TransferReceiveNonBlocking during which the receive interrupt is disabled. */
    method ReceiveFromRing(dst: nat, size: nat) returns (bytesToCopy: nat)
      requires Valid() && rxRingBuffer != null && rxState == RxIdle
      requires Admitted(Request(dst, size), |user.memory|)
      modifies this
      ensures Valid() && rxRingBuffer == old(rxRingBuffer)
      ensures bytesToCopy == Min(size, |old(Queue())|)
      ensures user.plan == old(user.plan)
      ensures View() ==
              var t := TakeFront(old(View()), Request(dst, size));
              if bytesToCopy == size then t
              else t.(start := dst, taken := bytesToCopy, dst := dst + bytesToCopy,
                      want := size - bytesToCopy, all := size - bytesToCopy)
    {
      hide QueueOf, Given, Store;
      ghost var q := Queue();
      port := port.(rie := false);
      bytesToCopy := RingBufferLength();
      if bytesToCopy > 0 {
        bytesToCopy := Min(size, bytesToCopy);
        CopyFromRing(dst, bytesToCopy);
      } else {
        StoreNothing(user.memory, dst);
      }
      log := log.(fates := log.fates + Given(q[..bytesToCopy]));
      if bytesToCopy < size {
        SaveRequest(dst, bytesToCopy, size - bytesToCopy);
      }
      port := port.(rie := true);
    }

    /** The callback with kStatus_UART_RxIdle. */
    method NotifyRxIdle()
      requires Valid()
      modifies this
      ensures Valid() && rxRingBuffer == old(rxRingBuffer)
      ensures View() == Idle(old(View()))
      decreases |user.plan|, 0
    {
      hide Receive, QueueOf, Store, Given;
      log := log.(idles := log.idles + 1);
      if user.plan != [] {
        var next := user.plan[0];
        user := user.(plan := user.plan[1..]);
        match next {
          case None =>
          case Some(r) =>
            var status, received := ReceiveNonBlocking(r.dst, r.size);
        }
      }
    }

    /** UART_TransferAbortReceive. */
    method AbortReceive()
      requires Valid()
      modifies this
      ensures Valid() && rxRingBuffer == old(rxRingBuffer)
      ensures View() == Abort(old(View()))
    {
      hide QueueOf;
      if rxRingBuffer == null {
        port := port.(rie := false);
      }
      if rxDataSize > 0 {
        log := log.(handed := log.handed + [user.memory[start..rxData]]);
      }
      rxDataSize := 0;
      rxState := RxIdle;
    }

    /** UART_TransferGetReceiveCount: what the request has received since it became pending. */
    method GetReceiveCount() returns (status: Status, count: nat)
      requires Valid()
      ensures status == if View().want == 0 then NoTransferInProgress else Success
      ensures status == NoTransferInProgress ==> count == 0
      ensures status == Success ==> count == CountOf(View()) && count + View().taken == |Partial(View())|
    {
      if rxState == RxIdle {
        return NoTransferInProgress, 0;
      }
      return Success, rxDataSizeAll - rxDataSize;
    }

    /** UART_TransferStartRingBuffer. */
    method StartRingBuffer(buffer: array<byte>)
      requires Valid() && 1 <= buffer.Length <= 0x1_0000
      modifies this
      ensures Valid() && rxRingBuffer == buffer
      ensures View() == StartRing(old(View()), buffer.Length)
    {
      hide Lost;
      log := log.(fates := log.fates + Lost(Queue()));
      rxRingBuffer := buffer;
      rxRingBufferSize := buffer.Length;
      rxRingBufferHead := 0;
      rxRingBufferTail := 0;
      port := port.(rie := true);
    }

    /** UART_TransferStopRingBuffer. */
    method StopRingBuffer()
      requires Valid()
      modifies this
      ensures Valid() && rxRingBuffer == null
      ensures View() == StopRing(old(View()))
    {
      hide QueueOf, Lost;
      log := log.(fates := log.fates + Lost(Queue()));
      if rxState == RxIdle {
        port := port.(rie := false);
      }
      rxRingBuffer := null;
      rxRingBufferSize := 0;
      rxRingBufferHead := 0;
      rxRingBufferTail := 0;
    }

    /** UART_ReadNonBlocking into the pending buffer. */
    method ReadNonBlocking(length: nat)
      requires 0 < length <= |port.fifo| && rxData + length <= |user.memory|
      modifies this`port, this`log, this`user
      ensures var chunk := old(port.fifo)[..length];
              && port == old(port).(fifo := old(port.fifo)[length..])
              && log == old(log).(read := old(log.read) + chunk, fates := old(log.fates) + Given(chunk))
              && user == old(user).(memory := Store(old(user.memory), rxData, chunk))
    {
      hide Given, Store;
      ghost var was, memory, read := port.fifo, user.memory, log.read;
      StoreNothing(memory, rxData);
      var i := 0;
      while i < length
        invariant i <= length
        invariant port == old(port).(fifo := was[i..])
        invariant log == old(log).(read := read + was[..i])
        invariant user == old(user).(memory := Store(memory, rxData, was[..i]))
      {
        StoreOne(memory, rxData, was[..i], was[i]);
        assert was[..i + 1] == was[..i] + [was[i]];
        user := user.(memory := user.memory[rxData + i := port.fifo[0]]);
        log := log.(read := log.read + [port.fifo[0]]);
        port := port.(fifo := port.fifo[1..]);
        i := i + 1;
      }
      log := log.(fates := log.fates + Given(was[..length]));
    }

    /** The overrun notification, whose callback leaves the driver alone, and the room made after it. */
    method MakeRoom(ghost b: byte)
      requires RingValid() && rxRingBuffer != null
      modifies this`rxRingBufferTail, this`log
      ensures if |old(Queue())| == rxRingBufferSize - 1
              then
                && rxRingBufferTail == Advance(rxRingBufferSize, old(rxRingBufferTail))
                && log == old(log).(overruns := old(log.overruns) + 1,
                                    fates := old(log.fates) + [Dropped((old(Queue()) + [b])[0])])
              else rxRingBufferTail == old(rxRingBufferTail) && log == old(log)
    {
      hide QueueOf;
      ghost var q := Queue();
      var full := IsRingBufferFull();
      if full {
        log := log.(overruns := log.overruns + 1);
      }
      full := IsRingBufferFull();
      if full {
        if rxRingBufferTail + 1 == rxRingBufferSize {
          rxRingBufferTail := 0;
        } else {
          rxRingBufferTail := rxRingBufferTail + 1;
        }
        log := log.(fates := log.fates + [Dropped((q + [b])[0])]);
      }
    }

    /** The data register is read into the ring buffer. */
    method StoreByte()
      requires RingValid() && rxRingBuffer != null && port.fifo != []
      modifies rxRingBuffer, this`rxRingBufferHead, this`log, this`port
      ensures rxRingBuffer[..] == old(rxRingBuffer[..])[old(rxRingBufferHead) := old(port.fifo)[0]]
      ensures rxRingBufferHead == Advance(rxRingBufferSize, old(rxRingBufferHead))
      ensures port == old(port).(fifo := old(port.fifo)[1..])
      ensures log == old(log).(read := old(log.read) + [old(port.fifo)[0]])
    {
      rxRingBuffer[rxRingBufferHead] := port.fifo[0];
      log := log.(read := log.read + [port.fifo[0]]);
      port := port.(fifo := port.fifo[1..]);
      if rxRingBufferHead + 1 == rxRingBufferSize {
        rxRingBufferHead := 0;
      } else {
        rxRingBufferHead := rxRingBufferHead + 1;
      }
    }

    /** One turn of the handler's ring-buffer loop. */
    method PutInRing()
      requires Valid() && rxRingBuffer != null && port.fifo != []
      modifies this, rxRingBuffer
      ensures Valid() && rxRingBuffer == old(rxRingBuffer)
      ensures View() == Push(PopFifo(old(View())), old(port.fifo)[0])
    {
      hide QueueOf;
      RingBack(port.fifo[0]);
      MakeRoom(port.fifo[0]);
      StoreByte();
    }

    /** The handler's first loop: chunks go to the pending buffer as long as there is one. */
    method FillPending(count: nat) returns (left: nat)
      requires Valid() && count == |port.fifo|
      modifies this
      ensures Valid() && rxRingBuffer == old(rxRingBuffer)
      ensures left == |port.fifo| && (left > 0 ==> rxDataSize == 0)
      ensures Drain(View()) == Drain(old(View()))
    {
      hide QueueOf, Drain, DeliverMany, Idle;
      left := count;
      while left > 0 && rxDataSize > 0
        invariant Valid() && rxRingBuffer == old(rxRingBuffer)
        invariant left == |port.fifo|
        invariant Drain(View()) == Drain(old(View()))
        decreases left
      {
        ghost var s := View();
        var tempCount := Min(rxDataSize, left);
        MoveChunk(tempCount);
        left := left - tempCount;
        DrainChunk(s, tempCount);
      }
    }

    /** The body of that loop, with the notification when the request is complete. */
    method MoveChunk(tempCount: nat)
      requires Valid() && 0 < tempCount <= rxDataSize && tempCount <= |port.fifo|
      modifies this
      ensures Valid() && rxRingBuffer == old(rxRingBuffer)
      ensures port.fifo == old(port.fifo)[tempCount..]
      ensures View() == var t := DeliverMany(old(View()), tempCount); if t.want > 0 then t else Complete(t)
    {
      hide QueueOf, Store, Given, Idle;
      ReadNonBlocking(tempCount);
      rxData := rxData + tempCount;
      rxDataSize := rxDataSize - tempCount;
      if rxDataSize == 0 {
        rxState := RxIdle;
        log := log.(handed := log.handed + [user.memory[start..rxData]]);
        NotifyRxIdle();
      }
    }

    /** The handler's second loop: the rest goes to the ring buffer. */
    method FillRing(count: nat)
      requires Valid() && count == |port.fifo| && rxRingBuffer != null
      requires count > 0 ==> rxDataSize == 0
      modifies this, rxRingBuffer
      ensures Valid() && rxRingBuffer == old(rxRingBuffer)
      ensures View() == Drain(old(View()))
    {
      hide QueueOf, Push;
      var left := count;
      while left > 0
        invariant Valid() && rxRingBuffer == old(rxRingBuffer)
        invariant left == |port.fifo|
        invariant left > 0 ==> rxDataSize == 0
        invariant Drain(View()) == Drain(old(View()))
        decreases left
      {
        left := left - 1;
        PutInRing();
      }
    }

    /** UART_TransferHandleIRQ, receive part. */
    method HandleIRQ()
      requires Valid()
      modifies this, rxRingBuffer
      ensures Valid() && rxRingBuffer == old(rxRingBuffer)
      ensures View() == Irq(old(View()))
    {
      hide QueueOf;
      if |port.fifo| > 0 && port.rie {
        var count := FillPending(|port.fifo|);
        if rxRingBuffer != null {
          FillRing(count);
        } else if rxDataSize == 0 {
          port := port.(rie := false);
        }
      }
    }
  }
}
