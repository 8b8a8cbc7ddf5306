/**
 What the receiver does for its users: an interrupt serves the pending request and the ring buffer, every
 request gets the bytes that come in their order, and memory is written for requests only.
 */
module UartRxService {
  import opened Machine
  import opened UartRx
  import opened UartRxDriver

  // ---------------------------------------------------------------------------------------------
  // One interrupt
  // ---------------------------------------------------------------------------------------------

  lemma {:induction false} DrainServes(s: Rx)
    requires Ok(s)
    ensures var t := Drain(s); t.port.fifo == [] || (t.want == 0 && t.ringSize == 0)
    decreases |s.port.fifo|
  {
    hide TakeByte;
    if s.port.fifo != [] && (s.want > 0 || s.ringSize > 0) {
      DrainServes(TakeByte(PopFifo(s), s.port.fifo[0]));
    }
  }

  /** An interrupt leaves no byte in the hardware FIFO for which there is a request or a ring buffer. */
  lemma IrqServes(s: Rx)
    requires Inv(s)
    ensures var t := Irq(s); t.port.fifo == [] || (t.want == 0 && t.ringSize == 0)
  {
    DrainServes(s);
    hide Drain;
  }

  /** The callback will ask for nothing at the coming notification. */
  predicate Silent(u: User) {
    u.plan == [] || u.plan[0].None?
  }

  function AfterNotification(u: User): User {
    if u.plan == [] then u else u.(plan := u.plan[1..])
  }

  lemma SilentIdle(s: Rx)
    requires Ok(s) && Silent(s.user)
    ensures Idle(s) == s.(user := AfterNotification(s.user), log := s.log.(idles := s.log.idles + 1))
  {
  }

  /** A request for more bytes than there are gets them all, in order, where it wants them, and stays pending. */
  lemma LongRequest(s: Rx)
    requires Inv(s) && |s.port.fifo| < s.want
    ensures var t, fifo := Irq(s), s.port.fifo;
            && t.port.fifo == [] && t.want == s.want - |fifo| && t.start == s.start
            && t.user == s.user.(memory := Store(s.user.memory, s.dst, fifo))
            && Partial(t) == Partial(s) + fifo
            && t.log.handed == s.log.handed && t.log.idles == s.log.idles
  {
    hide Given, Bytes, Delivered, Flat;
    var fifo := s.port.fifo;
    if fifo == [] {
      StoreNothing(s.user.memory, s.dst);
    } else {
      DrainChunk(s, |fifo|);
      assert fifo[..|fifo|] == fifo;
      StoredBehind(s.user.memory, s.start, s.dst, fifo);
      hide Store;
      assert Drain(s) == DeliverMany(s, |fifo|);
    }
  }

  lemma StoredBehind(memory: seq<byte>, start: nat, dst: nat, bytes: seq<byte>)
    requires start <= dst && dst + |bytes| <= |memory|
    ensures Store(memory, dst, bytes)[start..dst + |bytes|] == memory[start..dst] + bytes
  {
  }

  /**
   A request for no more bytes than there are ends with what it had and the bytes it was missing, in order, and is
   notified. If the callback then asks for nothing, that is all that happens, and the bytes that are left go to
   the ring buffer, or wait in the hardware FIFO with the interrupt off.
   */
  lemma ShortRequest(s: Rx)
    requires Inv(s) && 0 < s.want <= |s.port.fifo|
    ensures var t, taken, left := Irq(s), s.port.fifo[..s.want], s.port.fifo[s.want..];
            && s.log.handed + [Partial(s) + taken] <= t.log.handed
            && t.log.idles - s.log.idles == |t.log.handed| - |s.log.handed|
            && (Silent(s.user) ==>
                  && t.log.handed == s.log.handed + [Partial(s) + taken] && t.want == 0
                  && t.user == AfterNotification(s.user.(memory := Store(s.user.memory, s.dst, taken)))
                  && (s.ringSize > 0 ==> t.port.fifo == [] && t.queue == LastOf(left, s.ringSize - 1))
                  && (s.ringSize == 0 ==> t.port == Port(false, left)))
  {
    hide Given, Bytes, Delivered, Flat, Store, DeliverMany, Drain, Idle, LastOf;
    StepAnnounces(s, Interrupt);
    DrainChunk(s, s.want);
    var h := HandedOver(s);
    IdleSame(h);
    DrainSame(Idle(h));
    if Silent(s.user) {
      SilentIdle(h);
      RestToRing(Idle(h));
      assert [] + h.port.fifo == h.port.fifo;
    }
  }

  /** The state in which a request has got its last byte and its end is about to be notified. */
  lemma HandedOver(s: Rx) returns (h: Rx)
    requires Inv(s) && 0 < s.want <= |s.port.fifo|
    ensures var d := DeliverMany(s, s.want);
            && Ok(h) && d.want == 0 && Complete(d) == Idle(h)
            && h.log.handed == s.log.handed + [Partial(s) + s.port.fifo[..s.want]] && h.log.idles == s.log.idles
            && h.want == 0 && h.queue == [] && h.ringSize == s.ringSize
            && h.user == s.user.(memory := Store(s.user.memory, s.dst, s.port.fifo[..s.want]))
            && h.port == s.port.(fifo := s.port.fifo[s.want..])
  {
    hide Given, Bytes, Delivered, Flat, Idle;
    var d := DeliverMany(s, s.want);
    StoredBehind(s.user.memory, s.start, s.dst, s.port.fifo[..s.want]);
    hide Store;
    h := HandOver(d, d.start, d.dst);
  }

  /** With no request pending the bytes go to the ring buffer, or stay. */
  lemma RestToRing(s: Rx)
    requires Ok(s) && s.want == 0
    ensures var t := Drain(s);
            && t.want == 0 && t.user == s.user && t.log.handed == s.log.handed && t.ringSize == s.ringSize
            && (s.ringSize > 0 ==> t.port.fifo == [] && t.queue == LastOf(s.queue + s.port.fifo, s.ringSize - 1))
            && (s.ringSize == 0 ==> t == s)
  {
    DrainIdle(s);
    if s.ringSize > 0 {
      RingKeepsNewest(s);
    }
  }

  lemma {:induction false} DrainIdle(s: Rx)
    requires Ok(s) && s.want == 0
    ensures Drain(s).want == 0 && Drain(s).user == s.user && Drain(s).log.handed == s.log.handed
    decreases |s.port.fifo|
  {
    if s.port.fifo != [] && s.ringSize > 0 {
      DrainIdle(Push(PopFifo(s), s.port.fifo[0]));
    }
  }

  // ---------------------------------------------------------------------------------------------
  // Requests and the ring buffer
  // ---------------------------------------------------------------------------------------------

  /** A request that the ring buffer can satisfy ends at once with the oldest bytes of it, and is notified. */
  lemma RequestFromRing(s: Rx, r: Request)
    requires Ok(s) && s.want == 0 && Admitted(r, |s.user.memory|) && r.size <= |s.queue|
    ensures var t, front := Receive(s, r), s.queue[..r.size];
            && s.log.handed + [front] <= t.log.handed
            && t.log.idles - s.log.idles == |t.log.handed| - |s.log.handed|
            && (Silent(s.user) ==>
                  && t.log.handed == s.log.handed + [front] && t.want == 0 && t.queue == s.queue[r.size..]
                  && t.user == AfterNotification(s.user.(memory := Store(s.user.memory, r.dst, front))))
  {
    ReceiveAnnounces(s, r);
    hide Given, Delivered, Store;
    var h := HandOver(TakeFront(s, r), r.dst, r.dst + r.size);
    IdleSame(h);
    if Silent(s.user) {
      SilentIdle(h);
    }
  }

  /** One that it cannot takes all of it and stays pending for the rest. */
  lemma RequestPastRing(s: Rx, r: Request)
    requires Ok(s) && s.want == 0 && Admitted(r, |s.user.memory|) && |s.queue| < r.size
    ensures var t := Receive(s, r);
            && t.queue == [] && t.want == r.size - |s.queue| && Partial(t) == s.queue
            && t.user == s.user.(memory := Store(s.user.memory, r.dst, s.queue))
            && t.log.handed == s.log.handed && t.log.idles == s.log.idles
  {
    assert s.queue[..|s.queue|] == s.queue;
  }

  /** An abort ends the request with what it has received; what was buffered stays. */
  lemma AbortEnds(s: Rx)
    requires Inv(s)
    ensures var t := Abort(s);
            && t.want == 0 && t.user == s.user && t.ringSize == s.ringSize && t.queue == s.queue
            && t.port.fifo == s.port.fifo && t.log.idles == s.log.idles
            && t.log.handed == s.log.handed + (if s.want > 0 then [Partial(s)] else [])
  {
  }

  // ---------------------------------------------------------------------------------------------
  // Over every run
  // ---------------------------------------------------------------------------------------------

  /** After an interrupt all bytes that have arrived are read, unless there is neither a request nor a ring buffer. */
  lemma InterruptReadsAll(events: seq<Event>, run: seq<Rx>, k: nat)
    requires IsRun(events, run) && k < |events| && events[k].Interrupt?
    ensures run[k + 1].want > 0 || run[k + 1].ringSize > 0 ==> run[k + 1].log.read == Arrived(events[..k + 1])
  {
    RunKeeps(events, run, k);
    RunKeeps(events, run, k + 1);
    assert Linked(events, run, k);
    IrqServes(run[k]);
  }

  /**
   The request that is to be the h-th one to end, for `size` bytes of `came`: it has ended with them, or it is
   pending and has received all of `came` that is not in the hardware FIFO.
   */
  ghost predicate Serving(s: Rx, h: nat, size: nat, came: seq<byte>) {
    && Inv(s)
    && if |s.log.handed| > h then size <= |came| && s.log.handed[h] == came[..size]
       else
         && |s.log.handed| == h && s.want > 0 && s.want + |Partial(s)| == size
         && Partial(s) + s.port.fifo == came
  }

  /** The byte an event brings. */
  function Brought(e: Event): seq<byte> {
    if e.Arrive? then [e.b] else []
  }

  lemma StepServes(s: Rx, e: Event, h: nat, size: nat, came: seq<byte>)
    requires Serving(s, h, size, came) && Enabled(s, e) && !e.AbortCall?
    ensures Serving(Step(s, e), h, size, came + Brought(e))
  {
    StepKeeps(s, e);
    if |s.log.handed| > h {
      StepSame(s, e);
      hide Step, Inv;
      assert (came + Brought(e))[..size] == came[..size];
    } else if e.Interrupt? {
      InterruptServes(s, h, size, came);
      assert came + [] == came;
    } else {
      OtherServes(s, e, h, size, came);
    }
  }

  lemma InterruptServes(s: Rx, h: nat, size: nat, came: seq<byte>)
    requires Serving(s, h, size, came) && |s.log.handed| == h && Inv(Irq(s))
    ensures Serving(Irq(s), h, size, came)
  {
    hide Inv, Irq, Store, Silent, AfterNotification, LastOf;
    OkOf(s);
    if s.want <= |s.port.fifo| {
      ShortRequest(s);
      assert came[..size] == Partial(s) + s.port.fifo[..s.want];
    } else {
      LongRequest(s);
      assert came + [] == came;
    }
  }

  lemma OtherServes(s: Rx, e: Event, h: nat, size: nat, came: seq<byte>)
    requires Serving(s, h, size, came) && |s.log.handed| == h && Enabled(s, e) && Inv(Step(s, e))
    requires !e.AbortCall? && !e.Interrupt?
    ensures Serving(Step(s, e), h, size, came + Brought(e))
  {
    hide Inv, Lost;
    OkOf(s);
    assert came + [] == came;
    match e
    case Arrive(b) => assert Partial(s) + (s.port.fifo + [b]) == Partial(s) + s.port.fifo + [b];
    case Ask(_) =>
    case StartCall(_) =>
    case StopCall =>
  }

  lemma OkOf(s: Rx)
    requires Inv(s)
    ensures Ok(s)
  {
  }

  lemma {:induction false} RunServes(events: seq<Event>, run: seq<Rx>, j: nat, k: nat)
    requires IsRun(events, run) && j < k <= |events| && events[j].Ask? && run[j].want == 0
    requires |run[j].queue| < events[j].r.size
    requires forall i | j < i < k :: !events[i].AbortCall?
    ensures Serving(run[k], |run[j].log.handed|, events[j].r.size,
                    run[j].queue + run[j].port.fifo + Arrived(events[j + 1..k]))
    decreases k
  {
    hide Serving, Inv, Arrived, Receive;
    assert Linked(events, run, k - 1);
    RunKeeps(events, run, k);
    if k == j + 1 {
      RequestServes(run[j], events[j].r);
      assert events[j + 1..k] == [];
      NothingArrived();
      assert run[j].queue + run[j].port.fifo + [] == run[j].queue + run[j].port.fifo;
    } else {
      RunServes(events, run, j, k - 1);
      hide Step;
      var came := run[j].queue + run[j].port.fifo;
      StepServes(run[k - 1], events[k - 1], |run[j].log.handed|, events[j].r.size, came + Arrived(events[j + 1..k - 1]));
      ArrivedMore(events, j + 1, k - 1);
      assert came + Arrived(events[j + 1..k - 1]) + Brought(events[k - 1]) == came + Arrived(events[j + 1..k]);
    }
  }

  lemma NothingArrived()
    ensures Arrived([]) == []
  {
  }

  lemma RequestServes(s: Rx, r: Request)
    requires Ok(s) && s.want == 0 && Admitted(r, |s.user.memory|) && |s.queue| < r.size && Inv(Receive(s, r))
    ensures Serving(Receive(s, r), |s.log.handed|, r.size, s.queue + s.port.fifo)
  {
    RequestPastRing(s, r);
    hide Inv, Receive;
  }

  lemma ArrivedMore(events: seq<Event>, j: nat, k: nat)
    requires j <= k < |events|
    ensures Arrived(events[j..k + 1]) == Arrived(events[j..k]) + Brought(events[k])
  {
    assert events[j..k + 1][..k - j] == events[j..k];
  }

  /**
   Over every run: a request that is not aborted has ended after an interrupt if, and only if, as many bytes as it
   asks for were in the ring buffer and the hardware FIFO or have arrived since. It has then got the first of
   these bytes, in order, and otherwise all of them.
   */
  lemma EveryRequestServed(events: seq<Event>, run: seq<Rx>, j: nat, k: nat)
    requires IsRun(events, run) && j + 1 < k <= |events| && events[j].Ask? && run[j].want == 0
    requires |run[j].queue| < events[j].r.size
    requires events[k - 1].Interrupt? && forall i | j < i < k :: !events[i].AbortCall?
    ensures var came := run[j].queue + run[j].port.fifo + Arrived(events[j + 1..k]);
            var size, h := events[j].r.size, |run[j].log.handed|;
            && (|run[k].log.handed| > h <==> |came| >= size)
            && (|came| >= size ==> run[k].log.handed[h] == came[..size])
            && (|came| < size ==> Ok(run[k]) && run[k].want == size - |came| && Partial(run[k]) == came)
  {
    RunServes(events, run, j, k);
    RunKeeps(events, run, k - 1);
    assert Linked(events, run, k - 1);
    IrqServes(run[k - 1]);
    hide Arrived, Bytes, Delivered, Flat, Irq;
    if |run[k].log.handed| <= |run[j].log.handed| {
      assert Partial(run[k]) + [] == Partial(run[k]);
    }
  }

  lemma StepUntouched(s: Rx, e: Event)
    requires Ok(s) && Enabled(s, e) && s.want == 0 && !e.Ask?
    ensures Step(s, e).want == 0 && Step(s, e).user == s.user && Step(s, e).log.handed == s.log.handed
  {
    hide Drain;
    if e.Interrupt? {
      DrainIdle(s);
    }
  }

  /** Over every run: without a pending request, as after an abort, user memory does not change until the next one. */
  lemma {:induction false} MemoryUntouched(events: seq<Event>, run: seq<Rx>, j: nat, k: nat)
    requires IsRun(events, run) && j <= k < |run| && run[j].want == 0
    requires forall i | j <= i < k :: !events[i].Ask?
    ensures run[k].want == 0 && run[k].user == run[j].user && run[k].log.handed == run[j].log.handed
    decreases k
  {
    if j < k {
      MemoryUntouched(events, run, j, k - 1);
      assert Linked(events, run, k - 1);
      StepUntouched(run[k - 1], events[k - 1]);
    }
  }

  // ---------------------------------------------------------------------------------------------
  // A session with the driver
  // ---------------------------------------------------------------------------------------------

  /** A request, the bytes it is for, and an interrupt: the bytes are in the user's memory, and nothing else is changed. */
  method ReceiveOnce(uart: Uart, dst: nat, bytes: seq<byte>) returns (status: Status)
    requires uart.Valid() && Inv(uart.View()) && uart.rxState == RxIdle && uart.rxRingBuffer == null
    requires uart.port.fifo == [] && uart.user.plan == []
    requires 0 < |bytes| <= DEPTH && dst + |bytes| <= |uart.user.memory|
    modifies uart
    ensures status == Success && uart.Valid() && uart.rxState == RxIdle && !uart.port.rie && uart.port.fifo == []
    ensures uart.user.memory == old(uart.user.memory[..dst]) + bytes + old(uart.user.memory[dst + |bytes|..])
    ensures uart.log.idles == old(uart.log.idles) + 1
  {
    hide QueueOf, Irq, Receive, Store, Inv, Silent, AfterNotification, Partial;
    SessionServes(uart.View(), Request(dst, |bytes|), bytes);
    var received;
    status, received := uart.ReceiveNonBlocking(dst, |bytes|);
    uart.port := uart.port.(fifo := bytes);
    uart.HandleIRQ();
  }

  lemma SessionServes(s: Rx, r: Request, bytes: seq<byte>)
    requires Inv(s) && s.want == 0 && s.ringSize == 0 && s.port.fifo == [] && s.user.plan == []
    requires 0 < |bytes| == r.size && Admitted(r, |s.user.memory|)
    ensures var t := Receive(s, r);
            var u := t.(port := t.port.(fifo := bytes));
            && t.ringSize == 0 && Ok(u) && Irq(u).want == 0 && Irq(u).port == Port(false, [])
            && Irq(u).user.memory == s.user.memory[..r.dst] + bytes + s.user.memory[r.dst + r.size..]
            && Irq(u).log.idles == s.log.idles + 1
  {
    var t := Receive(s, r);
    StepKeeps(s, Ask(r));
    RequestPastRing(s, r);
    StoreNothing(s.user.memory, r.dst);
    var u := t.(port := t.port.(fifo := bytes));
    OtherBytes(t, bytes);
    hide Irq, Receive, Inv;
    ShortRequest(u);
    assert bytes[..|bytes|] == bytes && bytes[|bytes|..] == [];
  }

  lemma OtherBytes(s: Rx, bytes: seq<byte>)
    requires Inv(s)
    ensures Inv(s.(port := s.port.(fifo := bytes)))
  {
  }
}
