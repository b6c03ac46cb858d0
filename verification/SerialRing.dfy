/** The interrupt-driven serial rings of HardwareSerial.cpp and HardwareSerial_private.h: the
    transmit side as a state machine of main-line and interrupt steps, and both rings in place. */
module SerialRing {
  import opened Arithmetic

  type Byte = b: int | 0 <= b < 256

  // ---------- ring arithmetic ----------

  /** Bytes between tail and head of a ring of `n` cells. */
  function Count(head: nat, tail: nat, n: nat): (c: nat)
    requires head < n && tail < n
    ensures c < n
  {
    if head >= tail then head - tail else n + head - tail
  }

  function Next(i: nat, n: nat): (r: nat)
    requires i < n
    ensures r < n
  {
    if i + 1 == n then 0 else i + 1
  }

  /** The code writes the successor with a remainder. */
  lemma NextIsMod(i: nat, n: nat)
    requires i < n
    ensures (i + 1) % n == Next(i, n)
  {
  }

  /** The queued bytes, oldest first. */
  function Queued(buf: seq<Byte>, head: nat, tail: nat): (q: seq<Byte>)
    requires head < |buf| && tail < |buf|
    ensures |q| == Count(head, tail, |buf|)
  {
    if head >= tail then buf[tail..head] else buf[tail..] + buf[..head]
  }

  lemma PushQueued(buf: seq<Byte>, head: nat, tail: nat, c: Byte)
    requires head < |buf| && tail < |buf| && Next(head, |buf|) != tail
    ensures Queued(buf[head := c], Next(head, |buf|), tail) == Queued(buf, head, tail) + [c]
  {
    var b := buf[head := c];
    var i := Next(head, |buf|);
    if head >= tail {
      assert b[tail..head] == buf[tail..head];
      if i == 0 {
        assert b[tail..] == b[tail..head] + [c];
      }
    } else {
      assert b[tail..] == buf[tail..] && b[..i] == buf[..head] + [c];
    }
  }

  lemma PopQueued(buf: seq<Byte>, head: nat, tail: nat)
    requires head < |buf| && tail < |buf| && head != tail
    ensures Queued(buf, head, tail) == [buf[tail]] + Queued(buf, head, Next(tail, |buf|))
  {
    if head > tail {
      assert buf[tail..head] == [buf[tail]] + buf[tail + 1..head];
    } else {
      assert buf[tail..] == [buf[tail]] + buf[tail + 1..];
      if tail + 1 == |buf| {
        assert buf[tail + 1..] == [] && buf[0..head] == buf[..head];
      } else {
        Regroup([buf[tail]], buf[tail + 1..], buf[..head]);
      }
    }
  }

  lemma Regroup(a: seq<Byte>, b: seq<Byte>, c: seq<Byte>)
    ensures a + b + c == a + (b + c)
  {
  }

  // ---------- the transmit side as a state machine ----------

  /** Where the main line is inside write(c): outside, about to look at the ring, or waiting
      with the next head position computed. */
  datatype Writer = Idle | Entered(c: Byte) | Waiting(c: Byte, i: nat)

  /** The ring, the control bits, and the logs of bytes accepted, bytes handed to the data register
      and bytes that have left on the line. UDRE: data register empty. TXC: transmission complete.
      `shifting`: the shift register holds a byte. `written`: write() has been called. */
  datatype Uart = Uart(buf: seq<Byte>, head: nat, tail: nat, udrie: bool, udre: bool, txc: bool, shifting: bool,
                       written: bool, interrupts: bool, writer: Writer,
                       accepted: seq<Byte>, sent: seq<Byte>, out: seq<Byte>) {
    predicate Fits() {
      |buf| >= 2 && head < |buf| && tail < |buf|
    }

    function Queue(): seq<Byte>
      requires Fits()
    {
      Queued(buf, head, tail)
    }

    /** availableForWrite. */
    function Free(): int {
      if head >= tail then |buf| - 1 - head + tail else tail - head - 1
    }
  }

  /** The transmit-empty interrupt handler: hand over the oldest byte, disable itself when the
      ring has run empty. */
  function Handler(u: Uart): Uart
    requires u.Fits()
  {
    var tail := Next(u.tail, |u.buf|);
    u.(tail := tail, sent := u.sent + [u.buf[u.tail]], udre := false, txc := false,
       udrie := u.udrie && u.head != tail)
  }

  /** One step of anything: the main line, the interrupt, or the hardware. */
  datatype Event =
    | CallWrite(c: Byte)        // write(c) is entered
    | Look                      // the empty-ring shortcut, or computing the next head
    | PollHandler               // the waiting loop with interrupts off runs the handler itself
    | Publish                   // store the byte, publish the head and set UDRIE: one step
    | Interrupt                 // the handler runs as an interrupt
    | FlushPoll                 // flush with interrupts off runs the handler itself
    | Load                      // the byte moves from the data register into the shift register
    | FrameOut                  // its last bit has left; TXC is set if no byte is there to follow
    | SetInterrupts(on: bool)   // sei / cli

  predicate Enabled(u: Uart, e: Event) {
    match e
    case CallWrite(c) => u.writer.Idle?
    case Look => u.writer.Entered?
    case PollHandler => u.writer.Waiting? && u.writer.i == u.tail && !u.interrupts && u.udre
    case Publish => u.writer.Waiting? && u.writer.i != u.tail
    case Interrupt => u.interrupts && u.udrie && u.udre
    case FlushPoll => u.writer.Idle? && u.udrie && !u.interrupts && u.udre
    case Load => !u.udre && !u.shifting
    case FrameOut => u.shifting && |u.out| < |u.sent|
    case SetInterrupts(on) => true
  }

  function Step(u: Uart, e: Event): Uart
    requires u.Fits() && Enabled(u, e)
  {
    match e
    case CallWrite(c) => u.(writer := Entered(c), written := true)
    case Look =>
      if u.head == u.tail && u.udre then
        u.(writer := Idle, sent := u.sent + [u.writer.c], accepted := u.accepted + [u.writer.c],
           udre := false, txc := false)
      else u.(writer := Waiting(u.writer.c, Next(u.head, |u.buf|)))
    case PollHandler => Handler(u)
    case Publish =>
      u.(buf := u.buf[u.head := u.writer.c], head := Next(u.head, |u.buf|), udrie := true,
         accepted := u.accepted + [u.writer.c], writer := Idle)
    case Interrupt => Handler(u)
    case FlushPoll => Handler(u)
    case Load => u.(udre := true, shifting := true)
    case FrameOut => u.(shifting := false, out := u.out + [u.sent[|u.out|]], txc := u.txc || u.udre)
    case SetInterrupts(on) => u.(interrupts := on)
  }

  /** After begin(): nothing queued, the interrupt disabled, the data register empty. */
  predicate Initial(u: Uart) {
    && u.Fits() && u.head == u.tail && !u.udrie && u.udre && !u.shifting && !u.written
    && u.writer.Idle? && u.accepted == u.sent == u.out == []
  }

  /** Bytes in the data register and in the shift register. */
  function InFlight(u: Uart): nat {
    (if u.udre then 0 else 1) + if u.shifting then 1 else 0
  }

  /** What has left on the line is what was sent but for the bytes in flight; TXC says that none
      is; and once a byte was written, its absence that something is still to come. */
  ghost predicate LineInv(u: Uart) {
    && u.out <= u.sent && |u.sent| == |u.out| + InFlight(u)
    && (u.txc ==> InFlight(u) == 0)
    && (u.written && !u.writer.Entered? && !u.txc ==> u.udrie || InFlight(u) > 0)
  }

  /** In order and complete: what was sent followed by what is queued is what was accepted; and
      the interrupt is enabled exactly while something is queued. */
  ghost predicate Inv(u: Uart) {
    && u.Fits() && LineInv(u)
    && u.accepted == u.sent + u.Queue()
    && (u.udrie <==> u.head != u.tail)
    && (u.writer.Waiting? ==> u.writer.i == Next(u.head, |u.buf|))
    && (!u.written ==> u.writer.Idle? && u.accepted == [])
  }

  lemma HandlerKeepsInv(u: Uart)
    requires Inv(u) && u.head != u.tail && u.udre
    ensures Inv(Handler(u))
  {
    PopQueued(u.buf, u.head, u.tail);
    var h := Handler(u);
    assert u.sent + ([u.buf[u.tail]] + h.Queue()) == h.sent + h.Queue();
  }

  lemma PublishKeepsInv(u: Uart)
    requires Inv(u) && Enabled(u, Publish)
    ensures Inv(Step(u, Publish))
  {
    PushQueued(u.buf, u.head, u.tail, u.writer.c);
    assert u.sent + u.Queue() + [u.writer.c] == u.sent + (u.Queue() + [u.writer.c]);
  }

  lemma LookKeepsInv(u: Uart)
    requires Inv(u) && Enabled(u, Look)
    ensures Inv(Step(u, Look))
  {
    if u.head == u.tail {
      assert u.Queue() == [];
    }
  }

  lemma StepKeepsInv(u: Uart, e: Event)
    requires Inv(u) && Enabled(u, e)
    ensures Inv(Step(u, e))
  {
    match e
    case PollHandler => HandlerKeepsInv(u);
    case Interrupt => HandlerKeepsInv(u);
    case FlushPoll => HandlerKeepsInv(u);
    case Publish => PublishKeepsInv(u);
    case Look => LookKeepsInv(u);
    case _ =>
  }

  /** A run: every event enabled when it happens. */
  ghost predicate Runs(u: Uart, es: seq<Event>, v: Uart)
    decreases |es|
  {
    if es == [] then u == v
    else u.Fits() && Enabled(u, es[0]) && Runs(Step(u, es[0]), es[1..], v)
  }

  /** Under any interleaving of main line, interrupt and hardware: no byte is lost, repeated or
      reordered; UDRIE says whether anything is queued; and queued plus free is the ring less one. */
  lemma {:induction false} AnyInterleaving(u: Uart, es: seq<Event>, v: Uart)
    requires Inv(u) && Runs(u, es, v)
    ensures Inv(v)
    ensures |v.Queue()| + v.Free() == |v.buf| - 1
    decreases |es|
  {
    if es != [] {
      StepKeepsInv(u, es[0]);
      AnyInterleaving(Step(u, es[0]), es[1..], v);
    }
  }

  lemma {:induction false} FromReset(u: Uart, es: seq<Event>, v: Uart)
    requires Initial(u) && Runs(u, es, v)
    ensures v.Fits() && v.accepted == v.sent + v.Queue()
    ensures v.udrie <==> v.Queue() != []
    ensures |v.Queue()| + v.Free() == |v.buf| - 1
  {
    AnyInterleaving(u, es, v);
  }

  /** The condition on which flush() returns: nothing was ever written, or the loop may end. */
  predicate FlushReturns(u: Uart) {
    !u.written || (!u.udrie && u.txc)
  }

  /** When flush() returns, everything accepted has left on the line. */
  lemma FlushedMeansOut(u: Uart, es: seq<Event>, v: Uart)
    requires Initial(u) && Runs(u, es, v) && FlushReturns(v)
    ensures v.out == v.accepted && InFlight(v) == 0 && v.Fits() && v.Queue() == []
  {
    AnyInterleaving(u, es, v);
    assert v.sent + [] == v.sent && v.out == v.sent[..|v.out|];
  }

  /** Steps until the line is idle: three for each byte queued, two and one for those in flight. */
  function StepsLeft(u: Uart): nat
    requires u.Fits()
  {
    3 * |u.Queue()| + (if u.udre then 0 else 2) + if u.shifting then 1 else 0
  }

  predicate IsDraining(e: Event) {
    e.Interrupt? || e.FlushPoll? || e.Load? || e.FrameOut?
  }

  lemma DrainOne(u: Uart, e: Event)
    requires Inv(u) && IsDraining(e) && Enabled(u, e)
    ensures StepsLeft(Step(u, e)) == StepsLeft(u) - 1
    ensures var v := Step(u, e); v.writer == u.writer && v.written == u.written
  {
    if e.Interrupt? || e.FlushPoll? {
      PopQueued(u.buf, u.head, u.tail);
    }
  }

  /** While flush() waits, hardware, handler or the poll can move on; */
  lemma FlushNeverStuck(u: Uart)
    requires Inv(u) && u.writer.Idle? && !FlushReturns(u)
    ensures exists e :: IsDraining(e) && Enabled(u, e)
  {
    assert IsDraining(Load) && IsDraining(FrameOut) && IsDraining(Interrupt) && IsDraining(FlushPoll);
    assert Enabled(u, Load) || Enabled(u, FrameOut) || Enabled(u, Interrupt) || Enabled(u, FlushPoll);
  }

  /** and it returns after exactly the steps left, in whatever order they come. */
  lemma {:induction false} FlushReturnsIff(u: Uart, es: seq<Event>, v: Uart)
    requires Inv(u) && u.writer.Idle? && u.written && Runs(u, es, v)
    requires forall k :: 0 <= k < |es| ==> IsDraining(es[k])
    ensures |es| <= StepsLeft(u) && (FlushReturns(v) <==> |es| == StepsLeft(u))
    decreases |es|
  {
    if es != [] {
      DrainOne(u, es[0]);
      StepKeepsInv(u, es[0]);
      FlushReturnsIff(Step(u, es[0]), es[1..], v);
    }
  }

  /** A waiting writer is never stuck: either it may publish, or the hardware, the handler or
      the poll can still move. */
  lemma NoDeadlock(u: Uart)
    requires Inv(u) && u.writer.Waiting?
    ensures Enabled(u, Publish) || Enabled(u, Load) || Enabled(u, FrameOut) || Enabled(u, Interrupt)
            || Enabled(u, PollHandler)
  {
  }

  // ---------- the rings in place ----------

  class HardwareSerial {
    const txBuffer: array<Byte>
    const rxBuffer: array<Byte>
    var txHead: nat
    var txTail: nat
    var rxHead: nat
    var rxTail: nat
    var udrie: bool
    var udre: bool
    var txc: bool
    var written: bool
    /** The global interrupt flag SREG_I. */
    var interrupts: bool
    /** Whether the shift register holds a byte. */
    ghost var shifting: bool
    /** Every byte taken over from callers, put into the data register, and sent out on the line. */
    ghost var accepted: seq<Byte>
    ghost var sent: seq<Byte>
    ghost var out: seq<Byte>

    constructor (txSize: nat, rxSize: nat)
      requires 2 <= txSize <= 256 && 2 <= rxSize <= 256
      ensures Valid() && Initial(View(Idle)) && RxQueue() == [] && !written
      ensures txBuffer.Length == txSize && rxBuffer.Length == rxSize && fresh(txBuffer) && fresh(rxBuffer)
    {
      txBuffer := new Byte[txSize];
      rxBuffer := new Byte[rxSize];
      txHead, txTail, rxHead, rxTail := 0, 0, 0, 0;
      udrie, udre, txc, written := false, true, false, false;
      interrupts, shifting, accepted, sent, out := false, false, [], [], [];
    }

    /** The transmit side as a state of the machine above. */
    ghost function View(writer: Writer): Uart
      reads this, txBuffer
    {
      Uart(txBuffer[..], txHead, txTail, udrie, udre, txc, shifting, written, interrupts, writer, accepted, sent, out)
    }

    ghost predicate Valid()
      reads this
    {
      && 2 <= txBuffer.Length && txHead < txBuffer.Length && txTail < txBuffer.Length
      && 2 <= rxBuffer.Length && rxHead < rxBuffer.Length && rxTail < rxBuffer.Length
      && txBuffer != rxBuffer
    }

    ghost function RxQueue(): seq<Byte>
      reads this, rxBuffer
      requires Valid()
    {
      Queued(rxBuffer[..], rxHead, rxTail)
    }

    /** _tx_udr_empty_irq. */
    method TxUdrEmptyIrq(ghost writer: Writer)
      requires Valid()
      modifies this`txTail, this`udrie, this`udre, this`txc, this`sent
      ensures Valid() && View(writer) == Handler(old(View(writer)))
    {
      NextIsMod(txTail, txBuffer.Length);
      var c := txBuffer[txTail];
      txTail := (txTail + 1) % txBuffer.Length;
      sent, udre, txc := sent + [c], false, false;
      if txHead == txTail {
        udrie := false;
      }
    }

    method AvailableForWrite() returns (n: int)
      requires Valid()
      ensures n + |View(Idle).Queue()| == txBuffer.Length - 1
    {
      var head, tail := txHead, txTail;
      if head >= tail {
        return txBuffer.Length - 1 - head + tail;
      }
      n := tail - head - 1;
    }

    /** The head of write(): the empty-ring shortcut, or the next head position. */
    method LookAtRing(c: Byte) returns (i: nat, direct: bool)
      requires Valid()
      modifies this`written, this`sent, this`accepted, this`udre, this`txc
      ensures Valid()
      ensures View(if direct then Idle else Waiting(c, i)) == Step(Step(old(View(Idle)), CallWrite(c)), Look)
    {
      written := true;
      if txHead == txTail && udre {
        sent, accepted, udre, txc := sent + [c], accepted + [c], false, false;
        return 0, true;
      }
      NextIsMod(txHead, txBuffer.Length);
      i := (txHead + 1) % txBuffer.Length;
      direct := false;
    }

    /** What the hardware does until its data register is empty. */
    method DataRegisterEmpties(ghost writer: Writer)
      requires Valid() && Inv(View(writer))
      modifies this`udre, this`txc, this`shifting, this`out
      ensures Valid() && Inv(View(writer)) && udre
    {
      if !udre {
        ghost var u := View(writer);
        if shifting {
          StepKeepsInv(u, FrameOut);
          u := Step(u, FrameOut);
          shifting, out := u.shifting, u.out;
        }
        StepKeepsInv(u, Load);
        udre, shifting := true, true;
      }
    }

    /** The waiting loop with interrupts off: poll the data register and run the handler itself.
        `ready` says at which polls the data register has emptied; the loop ends unless at none. */
    method WaitForRoom(c: Byte, i: nat, ready: seq<bool>) returns (room: bool)
      requires Valid() && Inv(View(Waiting(c, i))) && !interrupts
      modifies this`txTail, this`udrie, this`udre, this`txc, this`shifting, this`sent, this`out
      ensures Valid() && Inv(View(Waiting(c, i))) && room == (i != txTail)
      ensures !room ==> forall j :: 0 <= j < |ready| ==> !ready[j]
    {
      var k := 0;
      while i == txTail
        invariant Valid() && Inv(View(Waiting(c, i))) && 0 <= k <= |ready|
        invariant i == txTail ==> forall j :: 0 <= j < k ==> !ready[j]
        decreases i == txTail, |ready| - k
      {
        if k == |ready| {
          return false;
        }
        if ready[k] {
          DataRegisterEmpties(Waiting(c, i));
        }
        k := k + 1;
        if udre {
          StepKeepsInv(View(Waiting(c, i)), PollHandler);
          TxUdrEmptyIrq(Waiting(c, i));
        }
      }
      room := true;
    }

    /** Store the byte, publish the head, set UDRIE. */
    method PublishByte(c: Byte, i: nat)
      requires Valid() && i == Next(txHead, txBuffer.Length) && i != txTail
      modifies this`txHead, this`udrie, this`accepted, txBuffer
      ensures Valid() && View(Idle) == Step(old(View(Waiting(c, i))), Publish)
      ensures RxQueue() == old(RxQueue())
    {
      txBuffer[txHead] := c;
      txHead := i;
      udrie := true;
      accepted := accepted + [c];
    }

    /** write() with interrupts off: unless the data register never empties, the byte is accepted
        behind all earlier ones. */
    method Write(c: Byte, ready: seq<bool>) returns (done: bool)
      requires Valid() && Inv(View(Idle)) && !interrupts
      modifies this`written, this`txHead, this`txTail, this`udrie, this`udre, this`txc, this`shifting, this`accepted,
               this`sent, this`out, txBuffer
      ensures Valid() && written && (done ==> Inv(View(Idle)) && accepted == old(accepted) + [c])
      ensures !done ==> accepted == old(accepted) && forall j :: 0 <= j < |ready| ==> !ready[j]
    {
      StepKeepsInv(View(Idle), CallWrite(c));
      StepKeepsInv(Step(View(Idle), CallWrite(c)), Look);
      var i, direct := LookAtRing(c);
      if direct {
        return true;
      }
      done := WaitForRoom(c, i, ready);
      if done {
        StepKeepsInv(View(Waiting(c, i)), Publish);
        PublishByte(c, i);
      }
    }

    method Available() returns (n: nat)
      requires Valid()
      ensures n == |RxQueue()|
    {
      n := (rxBuffer.Length + rxHead - rxTail) % rxBuffer.Length;
      AvailableIsMod(rxHead, rxTail, rxBuffer.Length);
    }

    method Peek() returns (c: int)
      requires Valid()
      ensures c == if RxQueue() == [] then -1 else RxQueue()[0]
    {
      if rxHead == rxTail {
        return -1;
      }
      PopQueued(rxBuffer[..], rxHead, rxTail);
      c := rxBuffer[rxTail];
    }

    method Read() returns (c: int)
      requires Valid()
      modifies this`rxTail
      ensures Valid()
      ensures old(RxQueue()) == [] ==> c == -1 && RxQueue() == []
      ensures old(RxQueue()) != [] ==> c == old(RxQueue())[0] && RxQueue() == old(RxQueue())[1..]
    {
      if rxHead == rxTail {
        return -1;
      }
      PopQueued(rxBuffer[..], rxHead, rxTail);
      NextIsMod(rxTail, rxBuffer.Length);
      c := rxBuffer[rxTail];
      rxTail := (rxTail + 1) % rxBuffer.Length;
    }

    /** _rx_complete_irq: a byte with a parity error, or for which there is no room, is dropped. */
    method RxCompleteIrq(c: Byte, parityError: bool)
      requires Valid()
      modifies this`rxHead, rxBuffer
      ensures Valid()
      ensures RxQueue() == if parityError || |old(RxQueue())| == rxBuffer.Length - 1 then old(RxQueue())
                           else old(RxQueue()) + [c]
      ensures txBuffer[..] == old(txBuffer[..])
    {
      if !parityError {
        NextIsMod(rxHead, rxBuffer.Length);
        var i := (rxHead + 1) % rxBuffer.Length;
        if i != rxTail {
          PushQueued(rxBuffer[..], rxHead, rxTail, c);
          rxBuffer[rxHead] := c;
          rxHead := i;
        }
      }
    }
  }

  lemma AvailableIsMod(head: nat, tail: nat, n: nat)
    requires head < n && tail < n
    ensures (n + head - tail) % n == Count(head, tail, n)
  {
    if head >= tail {
      ModOnce(head - tail, n);
    }
  }

  lemma ModOnce(x: nat, n: nat)
    requires x < n
    ensures (n + x) % n == x
  {
    DivMod(n + x, n, 1, x);
  }
}
