/**
 The interrupt-driven transmitter of fsl_uart.c.

 `Tx` is the abstract transmitter, which writes one byte at a time; class `Uart` is the driver with its
 pointer, its counters and its chunked writes, proved to refine `Tx`. The callback may start the next
 request from inside the interrupt handler.
 */
module UartTx {
  import opened Machine

  /**
   - `data` is the request last started and `rest` what is left of it;
   - `port` is the peripheral, `plan` what the user's callback sends at the coming TxIdle
     notifications, in order.
   */
  datatype Tx = Tx(data: seq<byte>, rest: seq<byte>, port: Port, plan: seq<Option<seq<byte>>>, log: Log)

  /** Transmit interrupt enable, number of bytes in the transmit FIFO, and its size. */
  datatype Port = Port(tie: bool, used: nat, size: nat)

  /** The bytes written to D, what each ended request wrote, and the number of TxIdle notifications. */
  datatype Log = Log(written: seq<byte>, pieces: seq<seq<byte>>, completed: nat, idles: nat)

  predicate Ok(s: Tx) {
    && s.port.used <= s.port.size
    && |s.rest| <= |s.data| && s.data[|s.data| - |s.rest|..] == s.rest
    && forall p | p in s.plan && p.Some? :: p.value != []
  }

  // ---------------------------------------------------------------------------------------------
  // Operations
  // ---------------------------------------------------------------------------------------------

  /** What the request last started has written. */
  function Sent(s: Tx): seq<byte>
    requires Ok(s)
  {
    s.data[..|s.data| - |s.rest|]
  }

  /** UART_TransferSendNonBlocking; refused, without effect, while a request is being sent. */
  function Send(s: Tx, data: seq<byte>): (t: Tx)
    requires Ok(s) && data != []
    ensures Ok(t) && t.log == s.log && t.port.used == s.port.used && t.port.size == s.port.size
  {
    if s.rest != [] then s
    else s.(data := data, rest := data, port := s.port.(tie := true))
  }

  /** The TxIdle notification: the callback may send more at once. */
  function Idle(s: Tx): (t: Tx)
    requires Ok(s)
    ensures Ok(t) && t.log == s.log.(idles := s.log.idles + 1)
    ensures t.port.used == s.port.used && t.port.size == s.port.size
  {
    var t := s.(log := s.log.(idles := s.log.idles + 1));
    if s.plan == [] then t
    else
      var t := t.(plan := s.plan[1..]);
      match s.plan[0]
      case None => t
      case Some(data) => Send(t, data)
  }

  /** The handler writes one byte; with the last one the request is complete. */
  function WriteByte(s: Tx): (t: Tx)
    requires Ok(s) && s.rest != [] && s.port.used < s.port.size
    ensures Ok(t) && t.port.used == s.port.used + 1 && t.port.size == s.port.size
  {
    var t := s.(rest := s.rest[1..], port := s.port.(used := s.port.used + 1),
                log := s.log.(written := s.log.written + [s.rest[0]]));
    if t.rest == [] then Complete(t) else t
  }

  function Complete(s: Tx): (t: Tx)
    requires Ok(s) && s.rest == []
    ensures Ok(t) && t.port.used == s.port.used && t.port.size == s.port.size
  {
    Idle(s.(port := s.port.(tie := false),
            log := s.log.(pieces := s.log.pieces + [s.data], completed := s.log.completed + 1)))
  }

  /** Write bytes as long as `room` slots are free and something is left to send. */
  function Fill(s: Tx, room: nat): (t: Tx)
    requires Ok(s) && s.port.used + room <= s.port.size
    ensures Ok(t) && t.port.size == s.port.size
    decreases room
  {
    if room == 0 || s.rest == [] then s else Fill(WriteByte(s), room - 1)
  }

  /** UART_TransferHandleIRQ, transmit part; `tdre` is the transmit data register empty flag. */
  function Irq(s: Tx, tdre: bool): (t: Tx)
    requires Ok(s)
    ensures Ok(t) && t.port.size == s.port.size
  {
    if tdre && s.port.tie then Fill(s, s.port.size - s.port.used) else s
  }

  /** UART_TransferAbortSend. */
  function Abort(s: Tx): (t: Tx)
    requires Ok(s)
    ensures Ok(t) && t.port.size == s.port.size
  {
    s.(rest := [], port := s.port.(tie := false),
       log := if s.rest == [] then s.log else s.log.(pieces := s.log.pieces + [Sent(s)]))
  }

  // ---------------------------------------------------------------------------------------------
  // Runs
  // ---------------------------------------------------------------------------------------------

  datatype Event = Ask(data: seq<byte>) | Interrupt(tdre: bool) | AbortCall | Shift

  predicate Enabled(s: Tx, e: Event) {
    match e
    case Ask(data) => data != []
    case Shift => s.port.used > 0
    case _ => true
  }

  /** `Shift` is the peripheral taking a byte out of its FIFO. */
  function Step(s: Tx, e: Event): (t: Tx)
    requires Ok(s) && Enabled(s, e)
    ensures Ok(t)
  {
    match e
    case Ask(data) => Send(s, data)
    case Interrupt(tdre) => Irq(s, tdre)
    case AbortCall => Abort(s)
    case Shift => s.(port := s.port.(used := s.port.used - 1))
  }

  predicate IsInitial(s: Tx) {
    Ok(s) && s.data == [] && !s.port.tie && s.log == Log([], [], 0, 0)
  }

  ghost predicate Linked(events: seq<Event>, run: seq<Tx>, k: nat)
    requires k < |events| && k + 1 < |run|
  {
    Ok(run[k]) && Enabled(run[k], events[k]) && run[k + 1] == Step(run[k], events[k])
  }

  ghost predicate IsRun(events: seq<Event>, run: seq<Tx>) {
    && |run| == |events| + 1
    && IsInitial(run[0])
    && forall k | 0 <= k < |events| :: Linked(events, run, k)
  }

  /**
   The invariant of every run: the transmit interrupt is enabled exactly while something is left to
   send; the bytes written to D are what each ended request wrote, in order, and what the present one
   has written; and the callback has been notified once per completed request.
   */
  ghost predicate Inv(s: Tx) {
    && Ok(s)
    && (s.port.tie <==> s.rest != [])
    && s.log.written == Flat(s.log.pieces) + (if s.rest == [] then [] else Sent(s))
    && s.log.idles == s.log.completed
  }

  lemma SendKeeps(s: Tx, data: seq<byte>)
    requires Inv(s) && data != []
    ensures Inv(Send(s, data))
    ensures s.rest == [] ==> Send(s, data).rest == data
  {
  }

  lemma IdleKeeps(s: Tx)
    requires Ok(s) && s.rest == [] && !s.port.tie
    requires s.log.written == Flat(s.log.pieces) && s.log.idles + 1 == s.log.completed
    ensures Inv(Idle(s))
  {
    if s.plan != [] && s.plan[0].Some? {
      SendKeeps(s.(plan := s.plan[1..], log := s.log.(idles := s.log.idles + 1)), s.plan[0].value);
    }
  }

  lemma WriteByteKeeps(s: Tx)
    requires Inv(s) && s.rest != [] && s.port.used < s.port.size
    ensures Inv(WriteByte(s)) && WriteByte(s).log.written == s.log.written + [s.rest[0]]
  {
    hide Flat;
    var n := |s.data| - |s.rest|;
    assert s.data[n..][0] == s.rest[0];
    assert s.data[..n + 1] == s.data[..n] + [s.rest[0]];
    if |s.rest| == 1 {
      assert s.data[..n + 1] == s.data;
      FlatSnoc(s.log.pieces, s.data);
    }
    var t := s.(rest := s.rest[1..], port := s.port.(used := s.port.used + 1),
                log := s.log.(written := s.log.written + [s.rest[0]]));
    if t.rest == [] {
      IdleKeeps(t.(port := t.port.(tie := false),
                   log := t.log.(pieces := t.log.pieces + [t.data], completed := t.log.completed + 1)));
    }
  }

  /** An interrupt writes at most as many bytes as the FIFO has room for, and stops early only when done. */
  lemma {:induction false} FillKeeps(s: Tx, room: nat)
    requires Inv(s) && s.port.used + room <= s.port.size
    ensures var t := Fill(s, room);
            && Inv(t)
            && s.log.written <= t.log.written
            && |t.log.written| - |s.log.written| == t.port.used - s.port.used <= room
            && (t.port.used - s.port.used < room ==> t.rest == [])
    decreases room
  {
    hide Inv, WriteByte;
    assert Ok(s) by { OkOf(s); }
    if room > 0 && s.rest != [] {
      WriteByteKeeps(s);
      FillKeeps(WriteByte(s), room - 1);
    }
  }

  lemma OkOf(s: Tx)
    requires Inv(s)
    ensures Ok(s)
  {
  }

  lemma StepKeeps(s: Tx, e: Event)
    requires Inv(s) && Enabled(s, e)
    ensures Inv(Step(s, e))
  {
    match e
    case Ask(data) => SendKeeps(s, data);
    case Interrupt(tdre) =>
      if tdre && s.port.tie {
        FillKeeps(s, s.port.size - s.port.used);
      }
    case AbortCall =>
      if s.rest != [] {
        FlatSnoc(s.log.pieces, Sent(s));
      }
    case Shift =>
  }

  /** Conservation over every run: see `Inv`. */
  lemma {:induction false} Conservation(events: seq<Event>, run: seq<Tx>, k: nat)
    requires IsRun(events, run) && k < |run|
    ensures Inv(run[k])
    decreases k
  {
    if k > 0 {
      Conservation(events, run, k - 1);
      assert Linked(events, run, k - 1);
      StepKeeps(run[k - 1], events[k - 1]);
    }
  }

  /**
   While a request is being sent, what it has written followed by what is left of it is the request,
   and it is the end of what has been written to D.
   */
  lemma RequestConserved(events: seq<Event>, run: seq<Tx>, k: nat)
    requires IsRun(events, run) && k < |run| && Ok(run[k]) && run[k].rest != []
    ensures Sent(run[k]) + run[k].rest == run[k].data
    ensures run[k].log.written == Flat(run[k].log.pieces) + Sent(run[k])
  {
    Conservation(events, run, k);
  }

  // ---------------------------------------------------------------------------------------------
  // The driver
  // ---------------------------------------------------------------------------------------------

  datatype TxState = TxIdle | TxBusy
  datatype Status = Success | StatusTxBusy | NoTransferInProgress

  /** A chunk of `k` bytes written at once. */
  function WriteMany(s: Tx, k: nat): (t: Tx)
    requires Ok(s) && 0 < k <= |s.rest| && s.port.used + k <= s.port.size
    ensures Ok(t) && |t.rest| == |s.rest| - k && t.port.used == s.port.used + k && t.port.size == s.port.size
  {
    s.(rest := s.rest[k..], port := s.port.(used := s.port.used + k),
       log := s.log.(written := s.log.written + s.rest[..k]))
  }

  lemma WriteOne(s: Tx)
    requires Ok(s) && s.rest != [] && s.port.used < s.port.size
    ensures var t := WriteMany(s, 1);
            WriteByte(s) == if t.rest == [] then Complete(t) else t
  {
    hide Complete;
    assert s.rest[..1] == [s.rest[0]];
  }

  lemma WriteNext(s: Tx, k: nat)
    requires Ok(s) && 1 < k <= |s.rest| && s.port.used + k <= s.port.size
    ensures WriteMany(s, k) == WriteMany(WriteMany(s, 1), k - 1)
  {
    assert s.rest[1..][k - 1..] == s.rest[k..];
    assert s.rest[..1] + s.rest[1..][..k - 1] == s.rest[..k];
    assert s.log.written + s.rest[..1] + s.rest[1..][..k - 1] == s.log.written + s.rest[..k];
  }

  /** Writing a chunk and then filling is filling byte by byte. */
  lemma {:induction false} FillChunk(s: Tx, k: nat, room: nat)
    requires Ok(s) && 0 < k <= |s.rest| && k <= room && s.port.used + room <= s.port.size
    ensures var t := WriteMany(s, k);
            Fill(s, room) == Fill(if t.rest == [] then Complete(t) else t, room - k)
    decreases k
  {
    hide Complete, WriteByte;
    WriteOne(s);
    assert Fill(s, room) == Fill(WriteByte(s), room - 1);
    if k > 1 {
      FillChunk(WriteMany(s, 1), k - 1, room - 1);
      WriteNext(s, k);
    }
  }

  class Uart {
    // uart_handle_t; the user's buffer is `buffer` and txData an index into it
    var buffer: seq<byte>
    var txData: nat
    var txDataSize: nat
    var txDataSizeAll: nat
    var txState: TxState
    // the peripheral and the user
    var port: Port
    var plan: seq<Option<seq<byte>>>
    ghost var log: Log

    ghost predicate Valid()
      reads this
    {
      && txData + txDataSize <= |buffer|
      && (txDataSize > 0 ==> txData + txDataSize == txDataSizeAll == |buffer|)
      && (txState == TxBusy <==> txDataSize > 0)
      && Ok(View())
    }

    ghost function View(): Tx
      reads this
    {
      Tx(buffer, if txData + txDataSize <= |buffer| then buffer[txData..txData + txDataSize] else [], port, plan, log)
    }

    constructor (size: nat, plan: seq<Option<seq<byte>>>)
      requires forall p | p in plan && p.Some? :: p.value != []
      ensures Valid() && IsInitial(View()) && this.plan == plan && port.size == size
    {
      buffer, txData, txDataSize, txDataSizeAll, txState := [], 0, 0, 0, TxIdle;
      port, this.plan, log := Port(false, 0, size), plan, Log([], [], 0, 0);
    }

    /** UART_TransferSendNonBlocking. */
    method SendNonBlocking(data: seq<byte>) returns (status: Status)
      requires Valid() && data != []
      modifies this
      ensures Valid() && View() == Send(old(View()), data)
      ensures status == if old(txState) == TxBusy then StatusTxBusy else Success
    {
      if txState == TxBusy {
        status := StatusTxBusy;
      } else {
        buffer := data;
        txData := 0;
        txDataSize := |data|;
        txDataSizeAll := |data|;
        txState := TxBusy;
        port := port.(tie := true);
        status := Success;
      }
    }

    /** UART_TransferAbortSend. */
    method AbortSend()
      requires Valid()
      modifies this
      ensures Valid() && View() == Abort(old(View()))
    {
      port := port.(tie := false);
      if txDataSize > 0 {
        log := log.(pieces := log.pieces + [buffer[..txData]]);
      }
      txDataSize := 0;
      txState := TxIdle;
    }

    /** UART_TransferGetSendCount. */
    method GetSendCount() returns (status: Status, count: nat)
      requires Valid()
      ensures status == if View().rest == [] then NoTransferInProgress else Success
      ensures count == if View().rest == [] then 0 else |Sent(View())|
    {
      if txState == TxIdle {
        return NoTransferInProgress, 0;
      }
      return Success, txDataSizeAll - txDataSize;
    }

    /** The callback with kStatus_UART_TxIdle. */
    method NotifyTxIdle()
      requires Valid()
      modifies this
      ensures Valid() && View() == Idle(old(View()))
    {
      log := log.(idles := log.idles + 1);
      hide Send;
      if plan != [] {
        var next := plan[0];
        plan := plan[1..];
        match next {
          case None =>
          case Some(data) =>
            var status := SendNonBlocking(data);
        }
      }
    }

    /** UART_WriteNonBlocking. */
    method WriteNonBlocking(length: nat)
      requires txData + length <= |buffer| && port.used + length <= port.size
      modifies this`port, this`log
      ensures port == old(port).(used := old(port.used) + length)
      ensures log == old(log).(written := old(log.written) + buffer[txData..txData + length])
    {
      var i := 0;
      while i < length
        invariant i <= length
        invariant port == old(port).(used := old(port.used) + i)
        invariant log == old(log).(written := old(log.written) + buffer[txData..txData + i])
      {
        port := port.(used := port.used + 1);
        log := log.(written := log.written + [buffer[txData + i]]);
        i := i + 1;
      }
    }

    /** A chunk is written and the pointer and the counter follow. */
    method MoveChunk(tempCount: nat)
      requires Valid() && 0 < tempCount <= txDataSize && port.used + tempCount <= port.size
      modifies this`port, this`log, this`txData, this`txDataSize
      ensures txDataSize == old(txDataSize) - tempCount
      ensures txData + txDataSize == |buffer| && View() == WriteMany(old(View()), tempCount)
    {
      ghost var s := View();
      assert s.rest[..tempCount] == buffer[txData..txData + tempCount];
      assert s.rest[tempCount..] == buffer[txData + tempCount..txData + txDataSize];
      WriteNonBlocking(tempCount);
      txData := txData + tempCount;
      txDataSize := txDataSize - tempCount;
    }

    /** The body of the handler's transmit loop. */
    method WriteChunk(tempCount: nat)
      requires Valid() && 0 < tempCount <= txDataSize && port.used + tempCount <= port.size
      modifies this
      ensures Valid()
      ensures View() == var t := WriteMany(old(View()), tempCount); if t.rest == [] then Complete(t) else t
      ensures port.used == old(port.used) + tempCount && port.size == old(port.size)
    {
      hide Idle, WriteMany;
      MoveChunk(tempCount);
      ghost var t := View();
      if txDataSize == 0 {
        txState := TxIdle;
        port := port.(tie := false);
        log := log.(pieces := log.pieces + [buffer], completed := log.completed + 1);
        NotifyTxIdle();
      }
    }

    /** UART_TransferHandleIRQ, transmit part. */
    method HandleIRQ(tdre: bool)
      requires Valid()
      modifies this
      ensures Valid() && View() == Irq(old(View()), tdre)
    {
      hide Complete, WriteMany, WriteByte;
      ghost var s := View();
      if tdre && port.tie {
        var count: nat := port.size - port.used;
        ghost var room: nat := count;
        while count > 0 && txDataSize > 0
          invariant Valid()
          invariant port.used + count <= port.size
          invariant Fill(View(), count) == Fill(s, room)
          decreases count
        {
          ghost var t := View();
          var tempCount := Min(txDataSize, count);
          WriteChunk(tempCount);
          FillChunk(t, tempCount, count);
          count := count - tempCount;
        }
      }
    }
  }
}
