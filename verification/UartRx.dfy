/**
 The interrupt-driven receiver of fsl_uart.c: a pending user buffer, a software ring buffer, and the
 interrupt handler that fills them from the hardware FIFO.

 `Rx` is the abstract receiver, in which the ring buffer is a bounded queue and the handler takes one
 byte at a time. The lemmas about runs are about `Rx`. Module UartRxDriver holds the driver itself,
 with its array, its wrapping indices and its chunked reads, proved to refine `Rx`.
 */
module UartRx {
  import opened Machine

  /** A call of UART_TransferReceiveNonBlocking: `size` bytes wanted at `dst` in user memory. */
  datatype Request = Request(dst: nat, size: nat)

  /** What became of a byte read from the data register. */
  datatype Fate = ToUser(b: byte) | Dropped(b: byte)

  /**
   - `ringSize` is 0 when no ring buffer is installed; `queue` is what the ring buffer holds;
   - `dst`, `want` and `all` are rxData, rxDataSize and rxDataSizeAll; `start` is where the pending
     request began and `taken` how many bytes it took from the ring buffer when it was made.
   */
  datatype Rx = Rx(
    ringSize: nat, queue: seq<byte>,
    start: nat, taken: nat, dst: nat, want: nat, all: nat,
    port: Port, user: User, log: Log)

  /** The peripheral: its receive interrupt enable and its receive FIFO. */
  datatype Port = Port(rie: bool, fifo: seq<byte>)

  /** The user: memory, and what the callback does at the coming RxIdle notifications, in order. */
  datatype User = User(memory: seq<byte>, plan: seq<Option<Request>>)

  /**
   The bytes read from the data register, what became of each, and, request by request, what the
   user's buffer held when the request ended; then the number of RxIdle and overrun notifications.
   */
  datatype Log = Log(read: seq<byte>, fates: seq<Fate>, handed: seq<seq<byte>>, idles: nat, overruns: nat)

  /** The request is one the driver's assertions admit, and its buffer lies in user memory. */
  predicate Admitted(r: Request, memory: nat) {
    r.size > 0 && r.dst + r.size <= memory
  }

  predicate Ok(s: Rx) {
    && (s.ringSize > 0 ==> |s.queue| < s.ringSize)
    && (s.ringSize == 0 ==> s.queue == [])
    && (s.want > 0 ==> s.dst + s.want <= |s.user.memory| && s.want <= s.all)
    && (s.want > 0 ==> s.start + s.taken <= s.dst && s.all - s.want == s.dst - s.start - s.taken)
    && (forall p | p in s.user.plan && p.Some? :: Admitted(p.value, |s.user.memory|))
  }

  // ---------------------------------------------------------------------------------------------
  // Operations
  // ---------------------------------------------------------------------------------------------

  /** `memory` with `bytes` stored at `at`. */
  function Store(memory: seq<byte>, at: nat, bytes: seq<byte>): (r: seq<byte>)
    requires at + |bytes| <= |memory|
    ensures |r| == |memory| && r[at..at + |bytes|] == bytes
  {
    memory[..at] + bytes + memory[at + |bytes|..]
  }

  function Given(bytes: seq<byte>): (r: seq<Fate>)
    ensures |r| == |bytes|
  {
    seq(|bytes|, i requires 0 <= i < |bytes| => ToUser(bytes[i]))
  }

  function Lost(bytes: seq<byte>): (r: seq<Fate>)
    ensures |r| == |bytes|
  {
    seq(|bytes|, i requires 0 <= i < |bytes| => Dropped(bytes[i]))
  }

  function SetRie(s: Rx, rie: bool): Rx {
    s.(port := s.port.(rie := rie))
  }

  /** The hardware FIFO gives up its first byte. */
  function PopFifo(s: Rx): Rx
    requires s.port.fifo != []
  {
    s.(port := s.port.(fifo := s.port.fifo[1..]))
  }

  /** A request has ended with its bytes at `from..to` in user memory. */
  function HandOver(s: Rx, from: nat, to: nat): Rx
    requires from <= to <= |s.user.memory|
  {
    s.(log := s.log.(handed := s.log.handed + [s.user.memory[from..to]]))
  }

  /** The ring buffer is replaced by an empty one of another size. */
  function LoseRing(s: Rx, size: nat): Rx {
    s.(ringSize := size, queue := [], log := s.log.(fates := s.log.fates + Lost(s.queue)))
  }

  /** A request takes what the ring buffer has for it. */
  function TakeFront(s: Rx, r: Request): (t: Rx)
    requires Ok(s) && Admitted(r, |s.user.memory|)
    ensures |t.user.memory| == |s.user.memory|
  {
    var n := Min(r.size, |s.queue|);
    SetRie(s.(queue := s.queue[n..], user := s.user.(memory := Store(s.user.memory, r.dst, s.queue[..n])),
              log := s.log.(fates := s.log.fates + Given(s.queue[..n]))), true)
  }

  /** UART_TransferReceiveNonBlocking; a request while one is pending changes nothing. */
  function Receive(s: Rx, r: Request): (t: Rx)
    requires Ok(s) && Admitted(r, |s.user.memory|)
    ensures Ok(t) && |t.user.memory| == |s.user.memory| && t.port.fifo == s.port.fifo && t.ringSize == s.ringSize
    ensures |t.user.plan| <= |s.user.plan|
    decreases |s.user.plan|, 1
  {
    if s.want > 0 then s
    else
      var n := Min(r.size, |s.queue|);
      var t := TakeFront(s, r);
      if n < r.size then
        t.(start := r.dst, taken := n, dst := r.dst + n, want := r.size - n, all := r.size - n)
      else
        Idle(HandOver(t, r.dst, r.dst + r.size))
  }

  /** The RxIdle notification: the callback may ask for more at once. */
  function Idle(s: Rx): (t: Rx)
    requires Ok(s)
    ensures Ok(t) && |t.user.memory| == |s.user.memory| && t.port.fifo == s.port.fifo && t.ringSize == s.ringSize
    ensures |t.user.plan| <= |s.user.plan|
    decreases |s.user.plan|, 0
  {
    var t := s.(log := s.log.(idles := s.log.idles + 1));
    if s.user.plan == [] then t
    else
      var t := t.(user := s.user.(plan := s.user.plan[1..]));
      match s.user.plan[0]
      case None => t
      case Some(r) => Receive(t, r)
  }

  /** The handler stores one byte in the pending buffer. */
  function Deliver(s: Rx, b: byte): (t: Rx)
    requires Ok(s) && s.want > 0
  {
    s.(user := s.user.(memory := Store(s.user.memory, s.dst, [b])), dst := s.dst + 1, want := s.want - 1,
       log := s.log.(read := s.log.read + [b], fates := s.log.fates + [ToUser(b)]))
  }

  /** The last byte of a request has been stored. */
  function Complete(s: Rx): (t: Rx)
    requires Ok(s) && s.want == 0 && s.start <= s.dst <= |s.user.memory|
    ensures Ok(t) && |t.user.memory| == |s.user.memory| && t.port.fifo == s.port.fifo && t.ringSize == s.ringSize
  {
    Idle(HandOver(s, s.start, s.dst))
  }

  /** The handler puts one byte into the ring buffer; a full one loses its oldest byte. */
  function Push(s: Rx, b: byte): (t: Rx)
    requires Ok(s) && s.ringSize > 0
    ensures Ok(t) && t.want == s.want && t.port == s.port
  {
    var q := s.queue + [b];
    if |s.queue| == s.ringSize - 1 then
      s.(queue := q[1..], log := s.log.(read := s.log.read + [b], fates := s.log.fates + [Dropped(q[0])],
                                        overruns := s.log.overruns + 1))
    else
      s.(queue := q, log := s.log.(read := s.log.read + [b]))
  }

  function TakeByte(s: Rx, b: byte): (t: Rx)
    requires Ok(s) && (s.want > 0 || s.ringSize > 0)
    ensures Ok(t) && |t.user.memory| == |s.user.memory| && t.port.fifo == s.port.fifo && t.ringSize == s.ringSize
  {
    if s.want > 0 then
      var t := Deliver(s, b);
      if t.want == 0 then Complete(t) else t
    else Push(s, b)
  }

  /** Take bytes from the hardware FIFO as long as there is room for them. */
  function Drain(s: Rx): (t: Rx)
    requires Ok(s)
    ensures Ok(t) && |t.user.memory| == |s.user.memory| && t.ringSize == s.ringSize
    decreases |s.port.fifo|
  {
    if s.port.fifo == [] || (s.want == 0 && s.ringSize == 0) then s
    else Drain(TakeByte(PopFifo(s), s.port.fifo[0]))
  }

  /** UART_TransferHandleIRQ, receive part. */
  function Irq(s: Rx): (t: Rx)
    requires Ok(s)
    ensures Ok(t) && |t.user.memory| == |s.user.memory|
  {
    if s.port.fifo == [] || !s.port.rie then s
    else
      var t := Drain(s);
      if t.ringSize == 0 && t.want == 0 then SetRie(t, false) else t
  }

  /** UART_TransferAbortReceive. */
  function Abort(s: Rx): (t: Rx)
    requires Ok(s)
    ensures Ok(t) && |t.user.memory| == |s.user.memory|
  {
    SetRie(if s.want > 0 then HandOver(s, s.start, s.dst).(want := 0) else s, s.port.rie && s.ringSize > 0)
  }

  /** UART_TransferStartRingBuffer; the bytes of a ring buffer it replaces are lost. */
  function StartRing(s: Rx, size: nat): (t: Rx)
    requires Ok(s) && size > 0
    ensures Ok(t) && |t.user.memory| == |s.user.memory|
  {
    SetRie(LoseRing(s, size), true)
  }

  /** UART_TransferStopRingBuffer. */
  function StopRing(s: Rx): (t: Rx)
    requires Ok(s)
    ensures Ok(t) && |t.user.memory| == |s.user.memory|
  {
    SetRie(LoseRing(s, 0), s.port.rie && s.want > 0)
  }

  // ---------------------------------------------------------------------------------------------
  // Runs
  // ---------------------------------------------------------------------------------------------

  /** The depth of the largest hardware FIFO. */
  const DEPTH := 8

  datatype Event =
    | Arrive(b: byte)
    | Ask(r: Request)
    | Interrupt
    | AbortCall
    | StartCall(size: nat)
    | StopCall

  /** No line errors: a byte arrives only while the hardware FIFO has room. */
  predicate Enabled(s: Rx, e: Event) {
    match e
    case Arrive(_) => |s.port.fifo| < DEPTH
    case Ask(r) => Admitted(r, |s.user.memory|)
    case StartCall(size) => 1 <= size <= 65536
    case _ => true
  }

  function Step(s: Rx, e: Event): (t: Rx)
    requires Ok(s) && Enabled(s, e)
    ensures Ok(t) && |t.user.memory| == |s.user.memory|
  {
    match e
    case Arrive(b) => s.(port := s.port.(fifo := s.port.fifo + [b]))
    case Ask(r) => Receive(s, r)
    case Interrupt => Irq(s)
    case AbortCall => Abort(s)
    case StartCall(size) => StartRing(s, size)
    case StopCall => StopRing(s)
  }

  /** `run` is the list of states a list of events leads through. */
  ghost predicate IsRun(events: seq<Event>, run: seq<Rx>) {
    && |run| == |events| + 1
    && IsInitial(run[0])
    && forall k | 0 <= k < |events| :: Linked(events, run, k)
  }

  ghost predicate Linked(events: seq<Event>, run: seq<Rx>, k: nat)
    requires k < |events| && k + 1 < |run|
  {
    Ok(run[k]) && Enabled(run[k], events[k]) && run[k + 1] == Step(run[k], events[k])
  }

  /** After UART_TransferCreateHandle, with any user memory and any plan of the callback. */
  predicate IsInitial(s: Rx) {
    && Ok(s)
    && s.ringSize == 0 && s.want == 0 && !s.port.rie
    && s.port.fifo == [] && s.log == Log([], [], [], 0, 0)
  }

  /** The bytes that reached the receiver. */
  function Arrived(events: seq<Event>): seq<byte> {
    if events == [] then []
    else
      var last := events[|events| - 1];
      Arrived(events[..|events| - 1]) + if last.Arrive? then [last.b] else []
  }

  function Bytes(fates: seq<Fate>): (r: seq<byte>)
    ensures |r| == |fates|
  {
    seq(|fates|, i requires 0 <= i < |fates| => fates[i].b)
  }

  /** The bytes given to the user, in the order in which they were read. */
  function Delivered(fates: seq<Fate>): seq<byte> {
    if fates == [] then []
    else
      var last := fates[|fates| - 1];
      Delivered(fates[..|fates| - 1]) + if last.ToUser? then [last.b] else []
  }

  /** What the pending request has received so far, as it stands in the user's buffer. */
  function Partial(s: Rx): seq<byte>
    requires Ok(s)
  {
    if s.want > 0 then s.user.memory[s.start..s.dst] else []
  }

  /**
   The invariant of every run. A pending request implies an empty ring buffer, the interrupt is
   enabled exactly when a byte has somewhere to go, every byte read from the data register has met
   its fate in order or waits in the ring buffer, and the user's buffers, request by request, hold
   exactly the delivered bytes.
   */
  ghost predicate Inv(s: Rx) {
    && Ok(s)
    && (s.want > 0 ==> s.queue == [])
    && s.port.rie == (s.ringSize > 0 || s.want > 0)
    && Bytes(s.log.fates) + s.queue == s.log.read
    && Flat(s.log.handed) + Partial(s) == Delivered(s.log.fates)
  }

  // ---------------------------------------------------------------------------------------------
  // The invariant holds in every run
  // ---------------------------------------------------------------------------------------------

  lemma BytesAppend(a: seq<Fate>, b: seq<Fate>)
    ensures Bytes(a + b) == Bytes(a) + Bytes(b)
  {
  }

  lemma {:induction false} DeliveredAppend(a: seq<Fate>, b: seq<Fate>)
    ensures Delivered(a + b) == Delivered(a) + Delivered(b)
    decreases |b|
  {
    if b == [] {
      assert a + b == a;
    } else {
      var init := b[..|b| - 1];
      assert (a + b)[..|a + b| - 1] == a + init;
      DeliveredAppend(a, init);
    }
  }

  lemma {:induction false} GivenFates(bytes: seq<byte>)
    ensures Bytes(Given(bytes)) == bytes && Delivered(Given(bytes)) == bytes
    decreases |bytes|
  {
    if bytes != [] {
      var init := bytes[..|bytes| - 1];
      GivenFates(init);
      assert Given(bytes)[..|bytes| - 1] == Given(init);
    }
  }

  lemma {:induction false} LostFates(bytes: seq<byte>)
    ensures Bytes(Lost(bytes)) == bytes && Delivered(Lost(bytes)) == []
    decreases |bytes|
  {
    if bytes != [] {
      var init := bytes[..|bytes| - 1];
      LostFates(init);
      assert Lost(bytes)[..|bytes| - 1] == Lost(init);
    }
  }

  /** `Inv` where the interrupt enable is about to be set. */
  ghost predicate Kept(s: Rx) {
    && Ok(s)
    && (s.want > 0 ==> s.queue == [])
    && Bytes(s.log.fates) + s.queue == s.log.read
    && Flat(s.log.handed) + Partial(s) == Delivered(s.log.fates)
  }

  lemma TakeFrontKeeps(s: Rx, r: Request)
    requires Kept(s) && s.want == 0 && Admitted(r, |s.user.memory|)
    ensures var t := TakeFront(s, r);
            var n := Min(r.size, |s.queue|);
            && Ok(t) && Bytes(t.log.fates) + t.queue == t.log.read
            && t.user.memory[r.dst..r.dst + n] == s.queue[..n]
            && Flat(t.log.handed) + s.queue[..n] == Delivered(t.log.fates)
  {
    hide Bytes, Delivered, Flat, Given;
    var front := s.queue[..Min(r.size, |s.queue|)];
    BytesAppend(s.log.fates, Given(front));
    DeliveredAppend(s.log.fates, Given(front));
    GivenFates(front);
  }

  lemma {:induction false} ReceiveKeeps(s: Rx, r: Request)
    requires Kept(s) && Admitted(r, |s.user.memory|)
    ensures Kept(Receive(s, r)) && Receive(s, r).log.read == s.log.read
    ensures s.want == 0 ==> Receive(s, r).port.rie
    decreases |s.user.plan|, 1
  {
    hide Bytes, Delivered, Flat, Store, Given;
    if s.want == 0 {
      var t := TakeFront(s, r);
      TakeFrontKeeps(s, r);
      if |s.queue| >= r.size {
        var piece := t.user.memory[r.dst..r.dst + r.size];
        FlatSnoc(t.log.handed, piece);
        IdleKeeps(HandOver(t, r.dst, r.dst + r.size));
      }
    }
  }

  lemma {:induction false} IdleKeeps(s: Rx)
    requires Kept(s) && s.want == 0
    ensures Kept(Idle(s))
    ensures Idle(s).log.read == s.log.read && (s.port.rie ==> Idle(s).port.rie) && (Idle(s).want > 0 ==> Idle(s).port.rie)
    decreases |s.user.plan|, 0
  {
    hide Bytes, Delivered, Flat, Store;
    if s.user.plan != [] && s.user.plan[0].Some? {
      ReceiveKeeps(s.(log := s.log.(idles := s.log.idles + 1), user := s.user.(plan := s.user.plan[1..])),
                   s.user.plan[0].value);
    }
  }

  lemma DeliverKeeps(s: Rx, b: byte)
    requires Kept(s) && s.want > 0
    ensures var t := Deliver(s, b);
            && t.start <= t.dst <= |t.user.memory|
            && Bytes(t.log.fates) + t.queue == t.log.read
            && Flat(t.log.handed) + t.user.memory[t.start..t.dst] == Delivered(t.log.fates)
  {
    hide Bytes, Delivered, Flat, Given;
    var t := Deliver(s, b);
    BytesAppend(s.log.fates, [ToUser(b)]);
    DeliveredAppend(s.log.fates, [ToUser(b)]);
    OneFate(b);
    assert t.user.memory[t.start..t.dst] == s.user.memory[s.start..s.dst] + [b];
  }

  lemma OneFate(b: byte)
    ensures Bytes([ToUser(b)]) == [b] && Delivered([ToUser(b)]) == [b]
    ensures Bytes([Dropped(b)]) == [b] && Delivered([Dropped(b)]) == []
  {
    assert [ToUser(b)] == Given([b]) && [Dropped(b)] == Lost([b]);
    GivenFates([b]);
    LostFates([b]);
  }

  lemma PushKeeps(s: Rx, b: byte)
    requires Kept(s) && s.want == 0 && s.ringSize > 0
    ensures Kept(Push(s, b))
  {
    hide Bytes, Delivered, Flat;
    var q := s.queue + [b];
    BytesAppend(s.log.fates, [Dropped(q[0])]);
    DeliveredAppend(s.log.fates, [Dropped(q[0])]);
    OneFate(q[0]);
    assert [q[0]] + q[1..] == q;
    assert Bytes(s.log.fates) + q == s.log.read + [b];
  }

  /** One byte moved out of the hardware FIFO. */
  lemma TakeByteKeeps(s: Rx)
    requires Kept(s) && s.port.rie && (s.want > 0 || s.ringSize > 0) && s.port.fifo != []
    ensures var t := TakeByte(PopFifo(s), s.port.fifo[0]);
            Kept(t) && t.port.rie && t.log.read == s.log.read + [s.port.fifo[0]]
  {
    hide Bytes, Delivered, Flat, Store, Receive;
    var b := s.port.fifo[0];
    var u := PopFifo(s);
    if s.want > 0 {
      var t := Deliver(u, b);
      DeliverKeeps(u, b);
      if t.want == 0 {
        FlatSnoc(s.log.handed, t.user.memory[t.start..t.dst]);
        IdleKeeps(HandOver(t, t.start, t.dst));
      }
    } else {
      PushKeeps(u, b);
    }
  }

  lemma {:induction false} DrainKeeps(s: Rx)
    requires Ok(s) && Kept(s) && s.port.rie
    ensures Kept(Drain(s)) && Drain(s).port.rie
    ensures Drain(s).log.read + Drain(s).port.fifo == s.log.read + s.port.fifo
    decreases |s.port.fifo|
  {
    hide Kept, TakeByte;
    if s.port.fifo != [] && (s.want > 0 || s.ringSize > 0) {
      TakeByteKeeps(s);
      DrainKeeps(TakeByte(PopFifo(s), s.port.fifo[0]));
      assert s.log.read + s.port.fifo == (s.log.read + [s.port.fifo[0]]) + s.port.fifo[1..];
    }
  }

  /** Every event keeps the invariant; only an arrival adds to the bytes read or waiting to be read. */
  lemma StepKeeps(s: Rx, e: Event)
    requires Inv(s) && Enabled(s, e)
    ensures Inv(Step(s, e))
    ensures Step(s, e).log.read + Step(s, e).port.fifo == s.log.read + s.port.fifo + (if e.Arrive? then [e.b] else [])
  {
    hide Bytes, Delivered, Flat, Drain, TakeByte, Store;
    match e
    case Arrive(b) =>
      assert s.log.read + (s.port.fifo + [b]) == s.log.read + s.port.fifo + [b];
    case Ask(r) =>
      ReceiveKeeps(s, r);
      assert s.ringSize == 0 && s.want == 0 ==> Receive(s, r).want > 0;
    case Interrupt =>
      if s.port.fifo != [] && s.port.rie {
        DrainKeeps(s);
      }
    case AbortCall =>
      if s.want > 0 {
        FlatSnoc(s.log.handed, s.user.memory[s.start..s.dst]);
      }
    case StartCall(size) => LosesRing(s);
    case StopCall => LosesRing(s);
  }

  lemma LosesRing(s: Rx)
    requires Inv(s)
    ensures var fates := s.log.fates + Lost(s.queue); Bytes(fates) == s.log.read && Delivered(fates) == Delivered(s.log.fates)
  {
    LostFates(s.queue);
    BytesAppend(s.log.fates, Lost(s.queue));
    DeliveredAppend(s.log.fates, Lost(s.queue));
  }

  lemma {:induction false} RunKeeps(events: seq<Event>, run: seq<Rx>, k: nat)
    requires IsRun(events, run) && k < |run|
    ensures Inv(run[k])
    ensures run[k].log.read + run[k].port.fifo == Arrived(events[..k])
    decreases k
  {
    if k == 0 {
      assert run[0].user.memory[0..0] == [];
    } else {
      RunKeeps(events, run, k - 1);
      assert Linked(events, run, k - 1);
      StepKeeps(run[k - 1], events[k - 1]);
      assert events[..k][..k - 1] == events[..k - 1];
    }
  }

  /**
   Conservation over every run: the bytes given to users or lost to an overrun, in order, then the
   ring buffer, then the hardware FIFO, are the bytes that arrived; and what the users' buffers hold,
   request by request, is exactly the bytes given to them.
   */
  lemma Conservation(events: seq<Event>, run: seq<Rx>)
    requires IsRun(events, run)
    ensures var s := run[|events|];
            && Ok(s)
            && Bytes(s.log.fates) + s.queue + s.port.fifo == Arrived(events)
            && Flat(s.log.handed) + Partial(s) == Delivered(s.log.fates)
  {
    RunKeeps(events, run, |events|);
    assert events[..|events|] == events;
  }

  // ---------------------------------------------------------------------------------------------
  // Notifications
  // ---------------------------------------------------------------------------------------------

  /** The bytes lost so far, less those a notification told of. */
  function Unannounced(s: Rx): int {
    |s.log.fates| - |Delivered(s.log.fates)| - s.log.overruns
  }

  /** The requests that have ended, less those a notification told of. */
  function Unanswered(s: Rx): int {
    |s.log.handed| - s.log.idles
  }

  lemma {:induction false} ReceiveAnnounces(s: Rx, r: Request)
    requires Ok(s) && Admitted(r, |s.user.memory|)
    ensures Unannounced(Receive(s, r)) == Unannounced(s) && Unanswered(Receive(s, r)) == Unanswered(s)
    decreases |s.user.plan|, 1
  {
    hide Delivered, Store, Given;
    if s.want == 0 {
      var front := s.queue[..Min(r.size, |s.queue|)];
      DeliveredAppend(s.log.fates, Given(front));
      GivenFates(front);
      if |s.queue| >= r.size {
        IdleAnnounces(HandOver(TakeFront(s, r), r.dst, r.dst + r.size));
      }
    }
  }

  /** The RxIdle notification answers one request. */
  lemma {:induction false} IdleAnnounces(s: Rx)
    requires Ok(s)
    ensures Unannounced(Idle(s)) == Unannounced(s) && Unanswered(Idle(s)) == Unanswered(s) - 1
    decreases |s.user.plan|, 0
  {
    hide Delivered, Receive;
    if s.user.plan != [] && s.user.plan[0].Some? {
      ReceiveAnnounces(s.(log := s.log.(idles := s.log.idles + 1), user := s.user.(plan := s.user.plan[1..])),
                       s.user.plan[0].value);
    }
  }

  lemma TakeByteAnnounces(s: Rx, b: byte)
    requires Ok(s) && (s.want > 0 || s.ringSize > 0)
    ensures Unannounced(TakeByte(s, b)) == Unannounced(s) && Unanswered(TakeByte(s, b)) == Unanswered(s)
  {
    hide Delivered, Store, Idle;
    OneFate(b);
    DeliveredAppend(s.log.fates, [ToUser(b)]);
    if s.want > 0 {
      var t := Deliver(s, b);
      if t.want == 0 { IdleAnnounces(HandOver(t, t.start, t.dst)); }
    } else {
      var lost := (s.queue + [b])[0];
      OneFate(lost);
      DeliveredAppend(s.log.fates, [Dropped(lost)]);
    }
  }

  lemma {:induction false} DrainAnnounces(s: Rx)
    requires Ok(s)
    ensures Unannounced(Drain(s)) == Unannounced(s) && Unanswered(Drain(s)) == Unanswered(s)
    decreases |s.port.fifo|
  {
    hide Delivered, TakeByte;
    if s.port.fifo != [] && (s.want > 0 || s.ringSize > 0) {
      TakeByteAnnounces(PopFifo(s), s.port.fifo[0]);
      DrainAnnounces(TakeByte(PopFifo(s), s.port.fifo[0]));
    }
  }

  /** The bytes in a ring buffer that an event takes away. */
  function Replaced(s: Rx, e: Event): nat {
    if e.StartCall? || e.StopCall? then |s.queue| else 0
  }

  /** A pending request that an event aborts. */
  function Aborted(s: Rx, e: Event): nat {
    if e.AbortCall? && s.want > 0 then 1 else 0
  }

  /** Only replacing a ring buffer loses bytes without a notification, and only an abort ends a request without one. */
  lemma StepAnnounces(s: Rx, e: Event)
    requires Ok(s) && Enabled(s, e)
    ensures Unannounced(Step(s, e)) == Unannounced(s) + Replaced(s, e)
    ensures Unanswered(Step(s, e)) == Unanswered(s) + Aborted(s, e)
  {
    hide Delivered, Drain, Receive;
    match e
    case Arrive(b) =>
    case Ask(r) => ReceiveAnnounces(s, r);
    case Interrupt => DrainAnnounces(s);
    case AbortCall =>
    case StartCall(_) =>
      LostFates(s.queue);
      DeliveredAppend(s.log.fates, Lost(s.queue));
    case StopCall =>
      LostFates(s.queue);
      DeliveredAppend(s.log.fates, Lost(s.queue));
  }

  /** How many bytes were in the ring buffers replaced in the first k events. */
  function ReplacedBytes(events: seq<Event>, run: seq<Rx>, k: nat): nat
    requires k <= |events| < |run|
  {
    if k == 0 then 0 else ReplacedBytes(events, run, k - 1) + Replaced(run[k - 1], events[k - 1])
  }

  function AbortedRequests(events: seq<Event>, run: seq<Rx>, k: nat): nat
    requires k <= |events| < |run|
  {
    if k == 0 then 0 else AbortedRequests(events, run, k - 1) + Aborted(run[k - 1], events[k - 1])
  }

  /**
   Over every run: each byte lost either came with an overrun notification of its own or was in a ring buffer
   that was replaced; each request that has ended had its RxIdle notification, unless it was aborted.
   */
  lemma {:induction false} Announced(events: seq<Event>, run: seq<Rx>, k: nat)
    requires IsRun(events, run) && k < |run|
    ensures |run[k].log.fates| - |Delivered(run[k].log.fates)| == run[k].log.overruns + ReplacedBytes(events, run, k)
    ensures |run[k].log.handed| == run[k].log.idles + AbortedRequests(events, run, k)
    decreases k
  {
    if k > 0 {
      Announced(events, run, k - 1);
      assert Linked(events, run, k - 1);
      StepAnnounces(run[k - 1], events[k - 1]);
    }
  }

  lemma {:induction false} NoneReplaced(events: seq<Event>, run: seq<Rx>, k: nat)
    requires k <= |events| < |run|
    ensures ReplacedBytes(events, run, k) == 0 <==> forall i | 0 <= i < k :: Replaced(run[i], events[i]) == 0
    decreases k
  {
    if k > 0 { NoneReplaced(events, run, k - 1); }
  }

  lemma {:induction false} AllDelivered(fates: seq<Fate>)
    ensures |Delivered(fates)| <= |fates|
    ensures |Delivered(fates)| == |fates| ==> Delivered(fates) == Bytes(fates)
    decreases |fates|
  {
    if fates != [] {
      AllDelivered(fates[..|fates| - 1]);
      assert Bytes(fates) == Bytes(fates[..|fates| - 1]) + [fates[|fates| - 1].b];
    }
  }

  /**
   The users' buffers, then the ring buffer, then the hardware FIFO, hold the bytes that arrived, all of them
   and in order, exactly when there was no overrun notification and no ring buffer was replaced or taken away
   with bytes in it. In any case the number of missing bytes is the number of notifications and of such bytes.
   */
  lemma NothingLost(events: seq<Event>, run: seq<Rx>)
    requires IsRun(events, run)
    ensures var s := run[|events|];
            && Ok(s)
            && (s.log.overruns == 0 && (forall i | 0 <= i < |events| :: Replaced(run[i], events[i]) == 0) <==>
                Flat(s.log.handed) + Partial(s) + s.queue + s.port.fifo == Arrived(events))
            && |Arrived(events)| == |Flat(s.log.handed) + Partial(s) + s.queue + s.port.fifo|
                                    + s.log.overruns + ReplacedBytes(events, run, |events|)
  {
    Conservation(events, run);
    Announced(events, run, |events|);
    NoneReplaced(events, run, |events|);
    hide Delivered, Bytes, Flat, Partial, Replaced;
    AllDelivered(run[|events|].log.fates);
  }

  // ---------------------------------------------------------------------------------------------
  // The receive count
  // ---------------------------------------------------------------------------------------------

  /** What UART_TransferGetReceiveCount returns for a pending request. */
  function CountOf(s: Rx): int {
    s.all - s.want
  }

  /** A call that leaves a request pending has taken the whole ring buffer. */
  lemma RequestTakesRing(s: Rx, r: Request)
    requires Ok(s) && s.want == 0 && Admitted(r, |s.user.memory|) && |s.queue| < r.size
    ensures var t := Receive(s, r);
            t.want > 0 && t.taken == |s.queue| && t.start == r.dst && t.log.handed == s.log.handed
  {
  }

  lemma {:induction false} ReceiveSame(s: Rx, r: Request)
    requires Ok(s) && Admitted(r, |s.user.memory|)
    ensures s.log.handed <= Receive(s, r).log.handed
    decreases |s.user.plan|, 1
  {
    hide Store, Given;
    if s.want == 0 && |s.queue| >= r.size {
      IdleSame(HandOver(TakeFront(s, r), r.dst, r.dst + r.size));
    }
  }

  lemma {:induction false} IdleSame(s: Rx)
    requires Ok(s)
    ensures s.log.handed <= Idle(s).log.handed
    decreases |s.user.plan|, 0
  {
    hide Receive;
    if s.user.plan != [] && s.user.plan[0].Some? {
      ReceiveSame(s.(log := s.log.(idles := s.log.idles + 1), user := s.user.(plan := s.user.plan[1..])),
                  s.user.plan[0].value);
    }
  }

  /** From `s` to `t` no ended request is forgotten, and if none has ended the pending one is still the same. */
  predicate SameRequest(s: Rx, t: Rx) {
    && s.log.handed <= t.log.handed
    && (s.want > 0 && |t.log.handed| == |s.log.handed| ==> t.want > 0 && t.taken == s.taken && t.start == s.start)
  }

  lemma {:induction false} DrainSame(s: Rx)
    requires Ok(s)
    ensures SameRequest(s, Drain(s))
    decreases |s.port.fifo|
  {
    if s.port.fifo != [] && (s.want > 0 || s.ringSize > 0) {
      TakeByteSame(PopFifo(s), s.port.fifo[0]);
      hide TakeByte;
      DrainSame(TakeByte(PopFifo(s), s.port.fifo[0]));
    }
  }

  lemma TakeByteSame(s: Rx, b: byte)
    requires Ok(s) && (s.want > 0 || s.ringSize > 0)
    ensures SameRequest(s, TakeByte(s, b))
  {
    hide Store, Idle;
    if s.want > 0 {
      var t := Deliver(s, b);
      if t.want == 0 { IdleSame(HandOver(t, t.start, t.dst)); }
    }
  }

  lemma StepSame(s: Rx, e: Event)
    requires Ok(s) && Enabled(s, e)
    ensures SameRequest(s, Step(s, e))
  {
    hide Drain;
    match e
    case Ask(r) => ReceiveSame(s, r);
    case Interrupt => DrainSame(s);
    case _ =>
  }

  lemma {:induction false} RunSame(events: seq<Event>, run: seq<Rx>, j: nat, k: nat)
    requires IsRun(events, run) && j <= k < |run|
    ensures SameRequest(run[j], run[k])
    decreases k
  {
    if j < k {
      RunSame(events, run, j, k - 1);
      assert Linked(events, run, k - 1);
      StepSame(run[k - 1], events[k - 1]);
    }
  }

  /** In every run the count of a pending request misses exactly the bytes it took from the ring buffer. */
  lemma CountMisses(events: seq<Event>, run: seq<Rx>, k: nat)
    requires IsRun(events, run) && k < |run|
    ensures Ok(run[k]) && (run[k].want > 0 ==> CountOf(run[k]) + run[k].taken == |Partial(run[k])|)
  {
    RunKeeps(events, run, k);
  }

  /**
   Over every run: as long as a request is pending, the count is the number of bytes it has received if, and
   only if, the ring buffer was empty when it was made; otherwise it is short by what the ring held.
   */
  lemma CountExact(events: seq<Event>, run: seq<Rx>, j: nat, k: nat)
    requires IsRun(events, run) && j < k < |run| && events[j].Ask? && run[j].want == 0
    requires |run[j].queue| < events[j].r.size
    requires |run[k].log.handed| == |run[j].log.handed|
    ensures Ok(run[k]) && run[k].want > 0 && CountOf(run[k]) + |run[j].queue| == |Partial(run[k])|
    ensures CountOf(run[k]) == |Partial(run[k])| <==> run[j].queue == []
  {
    assert Linked(events, run, j);
    RequestTakesRing(run[j], events[j].r);
    RunSame(events, run, j + 1, k);
    CountMisses(events, run, k);
  }

  /** A handle whose ring buffer of eight bytes holds `queue`, with `fifo` still in the peripheral. */
  function Ringing(queue: seq<byte>, fifo: seq<byte>): Rx {
    Rx(8, queue, 0, 0, 0, 0, 0, Port(true, fifo), User([0, 0, 0], []), Log(queue, [], [], 0, 0))
  }

  lemma TwoIntoRing(b: byte, c: byte)
    ensures Ok(Ringing([], [b, c])) && Irq(Ringing([], [b, c])) == Ringing([b, c], [])
  {
    PushRinging([], b, [c]);
    PushRinging([b], c, []);
    assert [] + [b] == [b] && [b] + [c] == [b, c] && [c] + [] == [c];
    hide TakeByte;
    assert Drain(Ringing([], [b, c])) == Drain(Ringing([b], [c]));
    assert Drain(Ringing([b], [c])) == Drain(Ringing([b, c], []));
    assert Drain(Ringing([b, c], [])) == Ringing([b, c], []);
  }

  lemma PushRinging(queue: seq<byte>, b: byte, rest: seq<byte>)
    requires |queue| < 7
    ensures Ok(Ringing(queue, [b] + rest))
    ensures TakeByte(PopFifo(Ringing(queue, [b] + rest)), b) == Ringing(queue + [b], rest)
  {
    assert ([b] + rest)[1..] == rest;
  }

  /** Three bytes are asked for while the ring holds two: both are in the user's buffer, and the count is 0. */
  lemma ThreeOfTwo(b: byte, c: byte)
    ensures var s := Ringing([b, c], []);
            Ok(s) && var t := Receive(s, Request(0, 3)); t.want == 1 && CountOf(t) == 0 && Partial(t) == [b, c]
  {
    var s := Ringing([b, c], []);
    var front := s.queue[..2];
    assert front == [b, c];
    hide Store;
    var memory := Store(s.user.memory, 0, front);
    assert memory[0..0 + |front|] == front;
    assert Receive(s, Request(0, 3)).user.memory == memory;
  }

  /** A run in which the count is 0 although two bytes of the pending request are in the user's buffer. */
  lemma CountFallsShort(b: byte, c: byte) returns (events: seq<Event>, run: seq<Rx>)
    ensures IsRun(events, run) && |events| == 5
    ensures Ok(run[5]) && run[5].want == 1 && CountOf(run[5]) == 0 && Partial(run[5]) == [b, c]
  {
    var start := Ringing([], []).(ringSize := 0, port := Port(false, []));
    events := [StartCall(8), Arrive(b), Arrive(c), Interrupt, Ask(Request(0, 3))];
    TwoIntoRing(b, c);
    ThreeOfTwo(b, c);
    assert Step(start, StartCall(8)) == Ringing([], []);
    hide Irq, Receive, Partial;
    run := [start, Ringing([], []), Ringing([], [b]), Ringing([], [b, c]), Ringing([b, c], []),
            Receive(Ringing([b, c], []), Request(0, 3))];
    assert [b] + [c] == [b, c] && [] + [b] == [b];
    assert Linked(events, run, 0) && Linked(events, run, 1) && Linked(events, run, 2);
    assert Linked(events, run, 3) && Linked(events, run, 4);
  }

  /** In every run a pending request implies that the ring buffer is empty. */
  lemma PendingImpliesEmptyRing(events: seq<Event>, run: seq<Rx>, k: nat)
    requires IsRun(events, run) && k < |run|
    ensures run[k].want > 0 ==> run[k].queue == []
    ensures run[k].port.rie <==> (run[k].ringSize > 0 || run[k].want > 0)
  {
    RunKeeps(events, run, k);
  }

  // ---------------------------------------------------------------------------------------------
  // The ring buffer as a bounded queue
  // ---------------------------------------------------------------------------------------------

  /** The last `n` bytes of `s`, or all of it. */
  function LastOf(s: seq<byte>, n: nat): (r: seq<byte>)
    ensures |r| == Min(|s|, n)
  {
    if |s| <= n then s else s[|s| - n..]
  }

  /**
   With no request pending, the handler moves the whole FIFO into the ring buffer, which then holds
   the last `ringSize - 1` bytes of what it held and what came; the bytes before them are lost, each
   with one overrun notification.
   */
  lemma {:induction false} RingKeepsNewest(s: Rx)
    requires Ok(s) && s.want == 0 && s.ringSize > 0
    ensures Newest(s, Drain(s), s.port.fifo) && Drain(s).port.fifo == []
    decreases |s.port.fifo|
  {
    hide Newest;
    if s.port.fifo == [] {
      NewestNone(s);
    } else {
      var u := PopFifo(s);
      var t := Push(u, s.port.fifo[0]);
      NewestPush(u, s.port.fifo[0]);
      RingKeepsNewest(t);
      assert Drain(s) == Drain(t);
      NewestChain(u, t, Drain(t), [s.port.fifo[0]], s.port.fifo[1..]);
      assert [s.port.fifo[0]] + s.port.fifo[1..] == s.port.fifo;
      NewestSame(s, u, Drain(t), s.port.fifo);
    }
  }

  /** From `s` to `t` the bytes `pushed` went into the ring buffer, and its oldest bytes out of it. */
  ghost predicate Newest(s: Rx, t: Rx, pushed: seq<byte>) {
    var all := s.queue + pushed;
    && s.ringSize == t.ringSize > 0
    && t.queue == LastOf(all, s.ringSize - 1)
    && t.want == s.want && t.user.memory == s.user.memory
    && t.log.read == s.log.read + pushed
    && t.log.fates == s.log.fates + Lost(all[..|all| - |t.queue|])
    && t.log.overruns == s.log.overruns + |all| - |t.queue|
  }

  lemma NewestNone(s: Rx)
    requires Ok(s) && s.ringSize > 0
    ensures Newest(s, s, [])
  {
    assert s.queue + [] == s.queue && s.log.read + [] == s.log.read && s.log.fates + Lost([]) == s.log.fates;
  }

  lemma NewestSame(s: Rx, u: Rx, t: Rx, pushed: seq<byte>)
    requires u == s.(port := u.port) && Newest(u, t, pushed)
    ensures Newest(s, t, pushed)
  {
  }

  lemma NewestPush(s: Rx, b: byte)
    requires Ok(s) && s.ringSize > 0
    ensures Newest(s, Push(s, b), [b])
  {
    var all := s.queue + [b];
    if |s.queue| == s.ringSize - 1 {
      assert Lost(all[..1]) == [Dropped(all[0])];
    } else {
      assert Lost(all[..0]) == [];
    }
  }

  lemma LostAppend(a: seq<byte>, b: seq<byte>)
    ensures Lost(a + b) == Lost(a) + Lost(b)
  {
  }

  /** Keeping the newest bytes twice is keeping the newest bytes once. */
  lemma LastOfChain(all: seq<byte>, second: seq<byte>, n: nat)
    ensures var kept := LastOf(all, n);
            var mid := kept + second;
            var total := all + second;
            && LastOf(mid, n) == LastOf(total, n)
            && total[..|total| - |LastOf(total, n)|]
               == all[..|all| - |kept|] + mid[..|mid| - |LastOf(mid, n)|]
  {
    var total := all + second;
    if |all| <= n {
      assert all[..0] + total[..|total| - |LastOf(total, n)|] == total[..|total| - |LastOf(total, n)|];
    } else {
      var d := |all| - n;
      var mid := all[d..] + second;
      assert mid[|second|..] == total[d + |second|..];
      assert all[..d] + mid[..|second|] == total[..d + |second|];
    }
  }

  lemma NewestChain(s: Rx, t: Rx, u: Rx, first: seq<byte>, second: seq<byte>)
    requires Newest(s, t, first) && Newest(t, u, second)
    ensures Newest(s, u, first + second)
  {
    hide LastOf, Lost;
    var all, mid := s.queue + first, t.queue + second;
    LastOfChain(all, second, s.ringSize - 1);
    LostAppend(all[..|all| - |t.queue|], mid[..|mid| - |u.queue|]);
    assert all + second == s.queue + (first + second);
    assert s.log.read + (first + second) == s.log.read + first + second;
  }
}
