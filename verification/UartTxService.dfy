/** What the transmitter does for its users: an interrupt fills the FIFO, and every request is sent as it is. */
module UartTxService {
  import opened Machine
  import opened UartTx

  // ---------------------------------------------------------------------------------------------
  // One interrupt
  // ---------------------------------------------------------------------------------------------

  /** The callback will send nothing at the coming notification. */
  predicate Silent(s: Tx) {
    s.plan == [] || s.plan[0].None?
  }

  /** The whole request has been written and notified, and the callback has sent nothing. */
  function Finished(s: Tx): Tx {
    s.(rest := [], port := Port(false, s.port.used + |s.rest|, s.port.size), plan := if s.plan == [] then [] else s.plan[1..],
       log := Log(s.log.written + s.rest, s.log.pieces + [s.data], s.log.completed + 1, s.log.idles + 1))
  }

  lemma SilentComplete(s: Tx)
    requires Ok(s) && s.rest != [] && s.port.used + |s.rest| <= s.port.size && Silent(s)
    ensures Complete(WriteMany(s, |s.rest|)) == Finished(s)
  {
    assert s.rest[..|s.rest|] == s.rest && s.rest[|s.rest|..] == [];
  }

  /** From `s` to `t` what has ended stays ended, and each end has its notification. */
  predicate Grown(s: Tx, t: Tx) {
    && s.log.pieces <= t.log.pieces && s.log.written <= t.log.written
    && t.log.idles - s.log.idles == |t.log.pieces| - |s.log.pieces|
  }

  lemma {:induction false} FillGrows(s: Tx, room: nat)
    requires Ok(s) && s.port.used + room <= s.port.size
    ensures Grown(s, Fill(s, room))
    decreases room
  {
    if room > 0 && s.rest != [] {
      WriteByteGrows(s);
      hide WriteByte;
      FillGrows(WriteByte(s), room - 1);
    }
  }

  lemma WriteByteGrows(s: Tx)
    requires Ok(s) && s.rest != [] && s.port.used < s.port.size
    ensures Grown(s, WriteByte(s))
  {
  }

  lemma CompleteSends(s: Tx)
    requires Ok(s) && s.rest != [] && s.port.used + |s.rest| <= s.port.size
    ensures var t := Complete(WriteMany(s, |s.rest|));
            && t.log.pieces == s.log.pieces + [s.data] && t.log.written == s.log.written + s.rest
            && t.log.idles == s.log.idles + 1 && (Silent(s) ==> t.rest == [])
            && t.port.used == s.port.used + |s.rest| && t.port.size == s.port.size
  {
    assert s.rest[..|s.rest|] == s.rest && s.rest[|s.rest|..] == [];
  }

  lemma FillNothing(s: Tx, room: nat)
    requires Ok(s) && s.port.used + room <= s.port.size && (room == 0 || s.rest == [])
    ensures Fill(s, room) == s
  {
  }

  /** Filling writes the first bytes that are left to send, in order; the last of them ends the request. */
  lemma FillSends(s: Tx, room: nat)
    requires Ok(s) && s.rest != [] && s.port.used + room <= s.port.size
    ensures var t := Fill(s, room);
            if |s.rest| > room then
              t == s.(rest := s.rest[room..], port := s.port.(used := s.port.used + room),
                      log := s.log.(written := s.log.written + s.rest[..room]))
            else
              && s.log.pieces + [s.data] <= t.log.pieces && s.log.written + s.rest <= t.log.written
              && t.log.idles - s.log.idles == |t.log.pieces| - |s.log.pieces|
              && (Silent(s) ==> t == Finished(s))
  {
    hide Fill, Silent, Finished;
    if |s.rest| > room { FillSome(s, room); } else { FillAll(s, room); }
  }

  lemma FillSome(s: Tx, room: nat)
    requires Ok(s) && s.port.used + room <= s.port.size && |s.rest| > room
    ensures Fill(s, room) == s.(rest := s.rest[room..], port := s.port.(used := s.port.used + room),
                                log := s.log.(written := s.log.written + s.rest[..room]))
  {
    if room == 0 {
      assert s.rest[0..] == s.rest && s.log.written + s.rest[..0] == s.log.written;
    } else {
      hide Fill;
      FillChunk(s, room, room);
      FillNothing(WriteMany(s, room), 0);
    }
  }

  lemma FillAll(s: Tx, room: nat)
    requires Ok(s) && s.rest != [] && s.port.used + room <= s.port.size && |s.rest| <= room
    ensures var t := Fill(s, room);
            && s.log.pieces + [s.data] <= t.log.pieces && s.log.written + s.rest <= t.log.written
            && t.log.idles - s.log.idles == |t.log.pieces| - |s.log.pieces|
            && (Silent(s) ==> t == Finished(s))
  {
    var k := |s.rest|;
    hide Fill, Complete, Finished, Silent;
    FillChunk(s, k, room);
    var t := WriteMany(s, k);
    hide WriteMany;
    CompleteSends(s);
    FillGrows(Complete(t), room - k);
    if Silent(s) {
      SilentComplete(s);
      FillNothing(Complete(t), room - k);
    }
  }

  /**
   With the data register empty an interrupt leaves nothing to send or a full FIFO, and it writes what is left to
   send in order; with the data register full it does nothing.
   */
  lemma IrqSends(s: Tx)
    requires Inv(s)
    ensures Irq(s, false) == s
    ensures var t, room := Irq(s, true), s.port.size - s.port.used;
            && (t.rest == [] || t.port.used == t.port.size)
            && (if s.rest == [] then t == s
                else if |s.rest| > room then
                  && t.rest == s.rest[room..] && t.data == s.data && t.log.pieces == s.log.pieces
                  && t.log.written == s.log.written + s.rest[..room]
                else
                  && s.log.pieces + [s.data] <= t.log.pieces && s.log.written + s.rest <= t.log.written
                  && t.log.idles - s.log.idles == |t.log.pieces| - |s.log.pieces|
                  && (Silent(s) ==> t == Finished(s)))
  {
    OkOf(s);
    if s.rest != [] {
      var room := s.port.size - s.port.used;
      FillKeeps(s, room);
      FillSends(s, room);
      hide Fill, Flat, Finished, Silent;
    }
  }

  /** An abort leaves nothing to send; what has been written is the end of the request. */
  lemma AbortStops(s: Tx)
    requires Inv(s)
    ensures var t := Abort(s);
            && t.rest == [] && !t.port.tie && t.port.used == s.port.used && t.plan == s.plan
            && t.log.written == s.log.written && t.log.idles == s.log.idles
            && t.log.pieces == s.log.pieces + (if s.rest == [] then [] else [Sent(s)])
  {
  }

  // ---------------------------------------------------------------------------------------------
  // Over every run
  // ---------------------------------------------------------------------------------------------

  /** How many bytes the peripheral has taken out of its FIFO. */
  function Shifts(events: seq<Event>): nat {
    if events == [] then 0
    else Shifts(events[..|events| - 1]) + if events[|events| - 1].Shift? then 1 else 0
  }

  /**
   The request that is to be the p-th one to end: it has ended as a whole, or it is being sent and has used the
   slots of the FIFO that were free or have become free since. `slots` is how many these can have been.
   */
  ghost predicate Sending(s: Tx, p: nat, data: seq<byte>, size: nat, slots: nat) {
    && Inv(s) && s.port.size == size
    && if |s.log.pieces| > p then s.log.pieces[p] == data && |data| <= slots
       else
         && |s.log.pieces| == p && s.data == data && s.rest != []
         && |data| - |s.rest| + (size - s.port.used) == slots
  }

  lemma StepSends(s: Tx, e: Event, p: nat, data: seq<byte>, size: nat, slots: nat)
    requires Sending(s, p, data, size, slots) && Enabled(s, e) && !e.AbortCall?
    ensures Sending(Step(s, e), p, data, size, slots + if e.Shift? then 1 else 0)
  {
    StepKeeps(s, e);
    hide Flat;
    if e == Interrupt(true) {
      IrqSizes(s);
      IrqSends(s);
      IrqGrows(s);
      hide Fill, Irq, Finished;
    }
  }

  lemma IrqGrows(s: Tx)
    requires Ok(s)
    ensures Grown(s, Irq(s, true))
  {
    FillGrows(s, s.port.size - s.port.used);
  }

  /** An interrupt uses a slot for each byte. */
  lemma IrqSizes(s: Tx)
    requires Inv(s)
    ensures var t := Irq(s, true); |t.log.written| - |s.log.written| == t.port.used - s.port.used
  {
    OkOf(s);
    if s.port.tie { FillKeeps(s, s.port.size - s.port.used); }
    hide Inv, Fill, Flat;
  }

  lemma {:induction false} RunSends(events: seq<Event>, run: seq<Tx>, j: nat, k: nat)
    requires IsRun(events, run) && j < k <= |events| && Ok(run[j]) && events[j].Ask? && run[j].rest == []
    requires forall i | j < i < k :: !events[i].AbortCall?
    ensures Sending(run[k], |run[j].log.pieces|, events[j].data, run[j].port.size,
                    run[j].port.size - run[j].port.used + Shifts(events[j + 1..k]))
    decreases k
  {
    assert Linked(events, run, k - 1);
    Conservation(events, run, k);
    hide Flat, Irq, Abort;
    if k > j + 1 {
      RunSends(events, run, j, k - 1);
      assert events[j + 1..k][..k - j - 2] == events[j + 1..k - 1];
      StepSends(run[k - 1], events[k - 1], |run[j].log.pieces|, events[j].data, run[j].port.size,
                run[j].port.size - run[j].port.used + Shifts(events[j + 1..k - 1]));
    }
  }

  /**
   Over every run: a request that is not aborted has been sent as a whole after an interrupt with the data register
   empty if, and only if, the FIFO had a slot for each of its bytes, at the request or since. Otherwise as many
   of its bytes are written as there were slots.
   */
  lemma EveryRequestSent(events: seq<Event>, run: seq<Tx>, j: nat, k: nat)
    requires IsRun(events, run) && j + 1 < k <= |events| && Ok(run[j]) && events[j].Ask? && run[j].rest == []
    requires events[k - 1] == Interrupt(true) && forall i | j < i < k :: !events[i].AbortCall?
    ensures var data, p := events[j].data, |run[j].log.pieces|;
            var slots := run[j].port.size - run[j].port.used + Shifts(events[j + 1..k]);
            && (|run[k].log.pieces| > p <==> |data| <= slots)
            && (|data| <= slots ==> run[k].log.pieces[p] == data)
            && (|data| > slots ==> Ok(run[k]) && run[k].data == data && Sent(run[k]) == data[..slots])
  {
    RunSends(events, run, j, k);
    Conservation(events, run, k - 1);
    assert Linked(events, run, k - 1);
    IrqSends(run[k - 1]);
    hide Flat, Irq, Shifts;
  }

  lemma StepQuiet(s: Tx, e: Event)
    requires Inv(s) && Enabled(s, e) && s.rest == [] && !e.Ask?
    ensures Step(s, e).rest == [] && Step(s, e).log == s.log
  {
  }

  /** Over every run: with nothing left to send, as after an abort, nothing is written until the next request. */
  lemma {:induction false} QuietUntilAsked(events: seq<Event>, run: seq<Tx>, j: nat, k: nat)
    requires IsRun(events, run) && j <= k < |run| && run[j].rest == []
    requires forall i | j <= i < k :: !events[i].Ask?
    ensures run[k].rest == [] && run[k].log == run[j].log
    decreases k
  {
    if j < k {
      QuietUntilAsked(events, run, j, k - 1);
      Conservation(events, run, k - 1);
      assert Linked(events, run, k - 1);
      StepQuiet(run[k - 1], events[k - 1]);
    }
  }

  // ---------------------------------------------------------------------------------------------
  // A session with the driver
  // ---------------------------------------------------------------------------------------------

  /** A request that fits the empty FIFO and one interrupt: the bytes are written, and TxIdle is notified once. */
  method SendOnce(uart: Uart, data: seq<byte>) returns (status: Status)
    requires uart.Valid() && Inv(uart.View()) && uart.txState == TxIdle && uart.plan == []
    requires uart.port.used == 0 && 0 < |data| <= uart.port.size
    modifies uart
    ensures status == Success && uart.Valid() && uart.txState == TxIdle && uart.port == Port(false, |data|, old(uart.port.size))
    ensures uart.log.written == old(uart.log.written) + data && uart.log.idles == old(uart.log.idles) + 1
  {
    hide Irq, Inv, Send;
    SessionSends(uart.View(), data);
    status := uart.SendNonBlocking(data);
    uart.HandleIRQ(true);
  }

  lemma SessionSends(s: Tx, data: seq<byte>)
    requires Inv(s) && s.rest == [] && s.plan == [] && s.port.used == 0 && 0 < |data| <= s.port.size
    ensures var t := Irq(Send(s, data), true);
            && t.rest == [] && t.port == Port(false, |data|, s.port.size)
            && t.log.written == s.log.written + data && t.log.idles == s.log.idles + 1
  {
    SendKeeps(s, data);
    hide Irq, Inv;
    IrqSends(Send(s, data));
  }
}
