/** The JTAG UART driver as code: every method is a run of the step relation of module JtagUart. */
module JtagDriver {
  import opened Bytes
  import opened Rings
  import opened JtagUart

  // ---------------------------------------------------------------- reachability

  ghost predicate IsRun(run: seq<Uart>, s: Uart, t: Uart) {
    Run(run) && run[0] == s && run[|run| - 1] == t
  }

  ghost predicate Reaches(s: Uart, t: Uart) {
    exists run :: IsRun(run, s, t)
  }

  lemma ReachesItself(s: Uart)
    ensures Reaches(s, s)
  {
    assert IsRun([s], s, s);
  }

  lemma ReachesOn(s: Uart, t: Uart, a: Action, u: Uart)
    requires Reaches(s, t) && Honest(a) && Next(t, a) == Some(u)
    ensures Reaches(s, u)
  {
    var run :| IsRun(run, s, t);
    var longer := run + [u];
    assert Follows(t, u);
    forall i | 0 < i < |longer|
      ensures Follows(longer[i - 1], longer[i])
    {
      assert longer[i - 1] == run[i - 1];
      if i < |run| {
        assert Follows(run[i - 1], run[i]);
      }
    }
    assert IsRun(longer, s, u);
  }

  lemma ReachesThrough(s: Uart, t: Uart, u: Uart)
    requires Reaches(s, t) && Reaches(t, u)
    ensures Reaches(s, u)
  {
    var first :| IsRun(first, s, t);
    var second :| IsRun(second, t, u);
    var run := first + second[1..];
    forall i | 0 < i < |run|
      ensures Follows(run[i - 1], run[i])
    {
      if i < |first| {
        assert Follows(first[i - 1], first[i]);
      } else {
        var j := i - |first| + 1;
        assert Follows(second[j - 1], second[j]);
      }
    }
    assert IsRun(run, s, u);
  }

  lemma ReachesKeeps(s: Uart, t: Uart)
    requires Reaches(s, t) && Inv(s)
    ensures Inv(t)
  {
    var run :| IsRun(run, s, t);
    RunKeeps(run, |run| - 1);
  }

  lemma KeepsBounds(s: Uart)
    requires Inv(s)
    ensures InBounds(s.rx) && InBounds(s.tx)
  {
  }

  lemma EntersAndLeaves(s: Uart, space: nat)
    requires Inv(s)
    ensures s.isr == Off ==> Next(s, Interrupt) == Some(s.(isr := Top))
    ensures s.isr == Top ==> Next(s, Control(false, false, space)) == Some(s.(isr := Off))
  {
  }

  lemma CopyingFacts(s: Uart)
    requires Inv(s) && s.writer.WCopy?
    ensures InBounds(s.rx) && InBounds(s.tx) && s.tx.in_ + s.writer.n <= |s.tx.buf|
    ensures s.writer.done + s.writer.n <= |s.writer.wcall.data| && s.writer.k <= s.writer.n
    ensures Filled(s.tx) + s.writer.n < |s.tx.buf|
  {
    hide Contents, Level, ReaderInv;
  }

  lemma TakingFacts(s: Uart)
    requires Inv(s) && s.reader.RCopy?
    ensures InBounds(s.rx) && InBounds(s.tx) && s.rx.out + s.reader.n <= |s.rx.buf| && s.reader.n <= Filled(s.rx)
    ensures 0 < s.reader.n && |s.reader.got| + s.reader.n <= s.reader.rcall.space && |s.reader.piece| <= s.reader.n
  {
    hide Contents, Level, WriterInv;
  }

  lemma FedLevel(rd: nat, wr: nat, n: nat, len: nat)
    requires rd < len && wr < len && wr + n <= len && Level(rd, wr, len) + n < len
    ensures Level(rd, (wr + n) % len, len) == Level(rd, wr, len) + n
  {
    Wrap(wr, n, len);
  }

  lemma DrainedLevel(rd: nat, wr: nat, n: nat, len: nat)
    requires rd < len && wr < len && rd + n <= len && n <= Level(rd, wr, len)
    ensures Level((rd + n) % len, wr, len) == Level(rd, wr, len) - n
  {
    Wrap(rd, n, len);
  }

  lemma SampleFacts(s: Uart)
    requires Inv(s) && s.writer.WSample?
    ensures s.writer.done <= |s.writer.wcall.data|
  {
    hide Contents, Level, ReaderInv;
  }

  /** The step of a writer that looks for room. */
  lemma SampleStep(s: Uart)
    requires InBounds(s.rx) && InBounds(s.tx) && s.isr == Off && s.writer.WSample?
    ensures var c, done, room := s.writer.wcall, s.writer.done, Room(s.tx.in_, s.tx.out, |s.tx.buf|);
      Next(s, WriterStep) == Some(s.(writer :=
        if done >= |c.data| || room <= 0 then WKick(c, done, s.tx.out)
        else WCopy(c, done, Min(room, |c.data| - done), 0)))
  {
  }

  /** What a waiting writer compares, and a waiting reader. */
  lemma RoomWait(s: Uart)
    requires Inv(s) && s.writer.WWait?
    ensures InBounds(s.tx) && (s.writer.out == s.tx.out <==> Filled(s.tx) == |s.tx.buf| - 1)
  {
    WaitsAreExact(s);
    FullIsLevel(s.tx);
    hide Contents, Level, ReaderInv, WriterInv;
  }

  lemma DataWait(s: Uart)
    requires Inv(s) && s.reader.RWait?
    ensures InBounds(s.rx) && (s.reader.seen == s.rx.in_ <==> s.rx.in_ == s.rx.out) && 0 <= Filled(s.rx) < |s.rx.buf|
    ensures s.rx.in_ == s.rx.out <==> Filled(s.rx) == 0
  {
    hide Contents, WriterInv;
  }

  lemma DrainedIsSent(s: Uart)
    requires Inv(s) && s.tx.out == s.tx.in_
    ensures s.tx.fed == s.tx.drained
  {
    ContentsSize(s.tx.buf, s.tx.out, s.tx.in_);
    hide Contents, Level, ReaderInv, WriterInv;
  }

  const INT_MAX := 0x7FFF_FFFF

  /** RI, WI and WSPACE of the control register. */
  datatype ControlWord = ControlWord(ri: bool, wi: bool, space: nat)

  /** RVALID, RAVAIL and DATA of the data register. */
  datatype DataWord = DataWord(valid: bool, avail: bool, b: Byte)

  // ---------------------------------------------------------------- the driver

  class Driver {
    const rxBuf: array<Byte>
    const txBuf: array<Byte>
    const timeout: nat            // seconds until the host counts as inactive
    var hostInactive: nat         // seconds without the host
    var rxIn: nat
    var rxOut: nat
    var txIn: nat
    var txOut: nat
    var irqEnable: Enable
    var control: Enable           // control register of the device
    ghost var taken: seq<Byte>    // bytes the device has delivered
    ghost var returned: seq<Byte> // bytes read has removed
    ghost var accepted: seq<Byte> // bytes write has put in
    ghost var sent: seq<Byte>     // bytes the device has been given

    /** The state of the step relation this driver is in, for given positions of the three parties. */
    ghost function State(w: Writer, r: Reader, i: Isr): Uart
      reads this, rxBuf, txBuf
    {
      Uart(Channel(rxBuf[..], rxIn, rxOut, taken, returned), Channel(txBuf[..], txIn, txOut, accepted, sent),
           irqEnable, control, w, r, i)
    }

    /** Bytes in the transmit ring, and in the receive ring. */
    ghost function TxLevel(): int
      reads this
    {
      Level(txOut, txIn, txBuf.Length)
    }

    ghost function RxLevel(): int
      reads this
    {
      Level(rxOut, rxIn, rxBuf.Length)
    }

    /** altera_avalon_jtag_uart_init; without an alarm the host never counts as inactive. */
    constructor (len: nat, timeout: nat, alarm: bool)
      requires 0 < len
      ensures fresh(rxBuf) && fresh(txBuf) && rxBuf != txBuf && rxBuf.Length == txBuf.Length == len
      ensures State(WIdle, RIdle, Off) == Initial(len)
      ensures hostInactive == 0 && this.timeout == if alarm then timeout else INT_MAX
    {
      rxBuf, txBuf := new Byte[len](_ => 0), new Byte[len](_ => 0);
      rxIn, rxOut, txIn, txOut := 0, 0, 0, 0;
      irqEnable, control := Enable(true, false), Enable(true, false);
      taken, returned, accepted, sent := [], [], [], [];
      hostInactive := 0;
      this.timeout := if alarm then timeout else INT_MAX;
    }

    /** The alarm of the driver, once a second; ac: the host has been there since the last time. */
    method Timeout(ac: bool, ghost w: Writer, ghost r: Reader)
      requires rxBuf != txBuf && Inv(State(w, r, Off))
      modifies this`control, this`hostInactive
      ensures State(w, r, Off) == old(State(w, r, Off))
      ensures hostInactive == if ac then 0 else if old(hostInactive) < INT_MAX - 2 then old(hostInactive) + 1 else old(hostInactive)
    {
      hide Fifo, WriterInv, ReaderInv;
      assert control == irqEnable;
      if ac {
        control := irqEnable;
        hostInactive := 0;
      } else if hostInactive < INT_MAX - 2 {
        hostInactive := hostInactive + 1;
      }
    }

    /**
     * The interrupt routine. c is the first control word it reads and d the first data word; after
     * them the device answers as it likes, asking for attention at most rounds times in a row.
     */
    method Irq(rounds: nat, c: ControlWord, d: DataWord, ghost w: Writer, ghost r: Reader)
      requires rxBuf != txBuf && Inv(State(w, r, Off)) && (d.avail ==> d.valid)
      modifies this`rxIn, this`taken, this`txOut, this`sent, this`irqEnable, this`control, rxBuf
      ensures Reaches(old(State(w, r, Off)), State(w, r, Off))
      ensures OnlyIrq(old(txIn), old(txOut), old(rxIn), old(rxOut))
      ensures OnlyMore(old(taken), old(irqEnable))
      ensures !c.ri && !c.wi ==> State(w, r, Off) == old(State(w, r, Off))
      ensures Served(c, d, old(txOut), old(rxIn), old(rxOut), old(taken))
    {
      hide Reaches, Inv, Next, Level;
      ghost var s0 := State(w, r, Off);
      ReachesItself(s0);
      EntersAndLeaves(s0, 0);
      ReachesOn(s0, s0, Interrupt, State(w, r, Top));
      var left, control, data := rounds, c, d;
      ghost var begun := false;
      while control.ri || control.wi
        invariant Reaches(s0, State(w, r, Top)) && (data.avail ==> data.valid)
        invariant OnlyIrq(old(txIn), old(txOut), old(rxIn), old(rxOut)) && OnlyMore(old(taken), old(irqEnable))
        invariant if begun then Served(c, d, old(txOut), old(rxIn), old(rxOut), old(taken))
                  else control == c && data == d && State(w, r, Off) == s0
        invariant begun ==> c.ri || c.wi
        decreases left + if control.ri || control.wi then 1 else 0
      {
        Round(s0, w, r, control, data);
        begun := true;
        if left == 0 {
          control := ControlWord(false, false, 0);
        } else {
          left := left - 1;
          control := *;
          var valid: bool, avail: bool, b: Byte := *, *, *;
          data := DataWord(valid, valid && avail, b);
        }
      }
      ghost var t := State(w, r, Top);
      ReachesKeeps(s0, t);
      EntersAndLeaves(t, control.space);
      ReachesOn(s0, t, Control(control.ri, control.wi, control.space), State(w, r, Off));
    }

    /** One round of the interrupt routine, for a control word that asks for something. */
    method Round(ghost s0: Uart, ghost w: Writer, ghost r: Reader, c: ControlWord, d: DataWord)
      requires rxBuf != txBuf && Inv(s0) && Reaches(s0, State(w, r, Top)) && (c.ri || c.wi) && (d.avail ==> d.valid)
      modifies this`rxIn, this`taken, this`txOut, this`sent, this`irqEnable, this`control, rxBuf
      ensures Reaches(s0, State(w, r, Top))
      ensures OnlyIrq(old(txIn), old(txOut), old(rxIn), old(rxOut)) && OnlyMore(old(taken), old(irqEnable))
      ensures Served(c, d, old(txOut), old(rxIn), old(rxOut), old(taken))
    {
      hide Reaches, Inv;
      ghost var t := State(w, r, Top);
      ReachesKeeps(s0, t);
      KeepsBounds(t);
      if c.ri {
        ReachesOn(s0, t, Control(c.ri, c.wi, c.space), State(w, r, Rx(true, c.wi, c.space)));
        Receive(s0, w, r, c.wi, c.space, d);
      } else {
        ReachesOn(s0, t, Control(c.ri, c.wi, c.space), State(w, r, Tx(c.space)));
      }
      if c.wi {
        Transmit(s0, w, r, c.space);
      }
    }

    /** The indices the interrupt routine moves only free cells of the transmit ring and fill cells of the receive ring. */
    ghost predicate OnlyIrq(txIn0: nat, txOut0: nat, rxIn0: nat, rxOut0: nat)
      reads this
    {
      && txIn == txIn0 && rxOut == rxOut0
      && TxLevel() <= Level(txOut0, txIn0, txBuf.Length)
      && RxLevel() >= Level(rxOut0, rxIn0, rxBuf.Length)
    }

    /** It takes bytes from the device and never switches an interrupt on. */
    ghost predicate OnlyMore(taken0: seq<Byte>, enable0: Enable)
      reads this
    {
      taken0 <= taken && (irqEnable.re ==> enable0.re) && (irqEnable.we ==> enable0.we)
    }

    /**
     * What the first words c and d lead to. A write request frees as many cells as the device has
     * space for, and switches write interrupts off when more was offered than there was to send. A
     * read request takes the byte offered, unless the ring is full; then read interrupts go off.
     */
    ghost predicate Served(c: ControlWord, d: DataWord, txOut0: nat, rxIn0: nat, rxOut0: nat, taken0: seq<Byte>)
      reads this
    {
      var tx0, rx0 := Level(txOut0, txIn, txBuf.Length), Level(rxOut0, rxIn0, rxBuf.Length);
      && (c.wi ==> TxLevel() <= if c.space < tx0 then tx0 - c.space else 0)
      && (c.wi && c.space > tx0 ==> !irqEnable.we)
      && (c.ri && rx0 == rxBuf.Length - 1 ==> !irqEnable.re)
      && (c.ri && rx0 < rxBuf.Length - 1 && d.valid ==> taken0 + [d.b] <= taken && RxLevel() > rx0)
    }

    /** The receive branch. */
    method Receive(ghost s0: Uart, ghost w: Writer, ghost r: Reader, ghost wi: bool, ghost space: nat, d: DataWord)
      requires rxBuf != txBuf && Inv(s0) && Reaches(s0, State(w, r, Rx(true, wi, space))) && (d.avail ==> d.valid)
      modifies this`rxIn, this`taken, this`irqEnable, this`control, rxBuf
      ensures Reaches(s0, State(w, r, if wi then Tx(space) else Top))
      ensures OnlyIrq(old(txIn), old(txOut), old(rxIn), old(rxOut)) && OnlyMore(old(taken), old(irqEnable))
      ensures txOut == old(txOut)
      ensures var rx0 := old(RxLevel());
        if rx0 == rxBuf.Length - 1 then !irqEnable.re else d.valid ==> old(taken) + [d.b] <= taken && RxLevel() > rx0
    {
      hide Reaches, Inv;
      var avail := Fill(s0, w, r, wi, space, d);
      ghost var t := State(w, r, RxEnd(avail, wi, space));
      ReachesKeeps(s0, t);
      KeepsBounds(t);
      if avail {
        irqEnable := irqEnable.(re := false);
        control := irqEnable;
      }
      ReachesOn(s0, t, IsrStep, State(w, r, if wi then Tx(space) else Top));
    }

    /** The receive loop: data words into the ring until it is full or the device has no more. */
    method Fill(ghost s0: Uart, ghost w: Writer, ghost r: Reader, ghost wi: bool, ghost space: nat, d: DataWord)
      returns (avail: bool)
      requires rxBuf != txBuf && Inv(s0) && Reaches(s0, State(w, r, Rx(true, wi, space))) && (d.avail ==> d.valid)
      modifies this`rxIn, this`taken, rxBuf
      ensures Reaches(s0, State(w, r, RxEnd(avail, wi, space)))
      ensures OnlyIrq(old(txIn), old(txOut), old(rxIn), old(rxOut)) && old(taken) <= taken
      ensures var rx0 := old(RxLevel());
        if rx0 == rxBuf.Length - 1 then avail else d.valid ==> old(taken) + [d.b] <= taken && RxLevel() > rx0
    {
      hide Reaches, Inv;
      avail := true;
      var data, more := d, true;
      ghost var begun := false;
      while more
        invariant Reaches(s0, State(w, r, if more then Rx(avail, wi, space) else RxEnd(avail, wi, space)))
        invariant OnlyIrq(old(txIn), old(txOut), old(rxIn), old(rxOut)) && old(taken) <= taken
        invariant data.avail ==> data.valid
        invariant begun && old(RxLevel()) == rxBuf.Length - 1 ==> !more
        invariant if begun
          then var rx0 := old(RxLevel());
            if rx0 == rxBuf.Length - 1 then avail else d.valid ==> old(taken) + [d.b] <= taken && RxLevel() > rx0
          else more && avail && data == d && rxIn == old(rxIn) && taken == old(taken)
        decreases more, rxBuf.Length - RxLevel()
      {
        avail, more := FillStep(s0, w, r, wi, space, avail, data);
        begun := true;
        var valid: bool, next: bool, b: Byte := *, *, *;
        data := DataWord(valid, valid && next, b);
      }
    }

    /** One round of the receive loop; more tells whether there is another one. */
    method FillStep(ghost s0: Uart, ghost w: Writer, ghost r: Reader, ghost wi: bool, ghost space: nat,
                    avail0: bool, d: DataWord)
      returns (avail: bool, more: bool)
      requires rxBuf != txBuf && Inv(s0) && Reaches(s0, State(w, r, Rx(avail0, wi, space))) && (d.avail ==> d.valid)
      modifies this`rxIn, this`taken, rxBuf
      ensures Reaches(s0, State(w, r, if more then Rx(avail, wi, space) else RxEnd(avail, wi, space)))
      ensures var rx0 := old(RxLevel());
        if rx0 == rxBuf.Length - 1 then !more && avail == avail0 else more == d.valid && avail == d.avail
      ensures if more
        then RxLevel() == old(RxLevel()) + 1 && taken == old(taken) + [d.b]
        else rxIn == old(rxIn) && taken == old(taken)
      ensures RxLevel() <= rxBuf.Length
    {
      hide Reaches, Inv;
      ghost var t := State(w, r, Rx(avail0, wi, space));
      ReachesKeeps(s0, t);
      KeepsBounds(t);
      Wrap(rxIn, 1, rxBuf.Length);
      avail, more := avail0, false;
      var next := (rxIn + 1) % rxBuf.Length;
      if next == rxOut {
        ReachesOn(s0, t, IsrStep, State(w, r, RxEnd(avail, wi, space)));
        return;
      }
      avail := d.avail;
      if !d.valid {
        ReachesOn(s0, t, Data(d.valid, d.avail, d.b), State(w, r, RxEnd(avail, wi, space)));
        return;
      }
      more := true;
      rxBuf[rxIn] := d.b;
      rxIn := next;
      taken := taken + [d.b];
      assert rxBuf[..] == t.rx.buf[t.rx.in_ := d.b];
      ReachesOn(s0, t, Data(d.valid, d.avail, d.b), State(w, r, Rx(avail, wi, space)));
    }

    /** The transmit branch. */
    method Transmit(ghost s0: Uart, ghost w: Writer, ghost r: Reader, space: nat)
      requires rxBuf != txBuf && Inv(s0) && Reaches(s0, State(w, r, Tx(space)))
      modifies this`txOut, this`sent, this`irqEnable, this`control
      ensures Reaches(s0, State(w, r, Top))
      ensures OnlyIrq(old(txIn), old(txOut), old(rxIn), old(rxOut))
      ensures var tx0 := old(TxLevel());
        if space > tx0 then TxLevel() == 0 && irqEnable == old(irqEnable).(we := false)
        else TxLevel() == tx0 - space && irqEnable == old(irqEnable)
    {
      hide Reaches, Inv;
      var left: nat := space;
      ReachesKeeps(s0, State(w, r, Tx(left)));
      KeepsBounds(State(w, r, Tx(left)));
      while left > 0 && txOut != txIn
        invariant Reaches(s0, State(w, r, Tx(left))) && Inv(State(w, r, Tx(left))) && txOut < txBuf.Length
        invariant left <= space && irqEnable == old(irqEnable)
        invariant TxLevel() == old(TxLevel()) - (space - left)
      {
        SendOne(s0, w, r, left);
        left := left - 1;
      }
      ghost var t := State(w, r, Tx(left));
      KeepsBounds(t);
      if left > 0 {
        irqEnable := irqEnable.(we := false);
        control := irqEnable;
      }
      ReachesOn(s0, t, IsrStep, State(w, r, Top));
    }

    /** One byte to the device. */
    method SendOne(ghost s0: Uart, ghost w: Writer, ghost r: Reader, ghost left: nat)
      requires rxBuf != txBuf && Inv(s0) && Reaches(s0, State(w, r, Tx(left))) && left > 0 && txOut != txIn
      modifies this`txOut, this`sent
      ensures Reaches(s0, State(w, r, Tx(left - 1))) && Inv(State(w, r, Tx(left - 1))) && txOut < txBuf.Length
      ensures TxLevel() == old(TxLevel()) - 1
    {
      hide Reaches, Inv;
      ghost var t := State(w, r, Tx(left));
      ReachesKeeps(s0, t);
      KeepsBounds(t);
      Wrap(txOut, 1, txBuf.Length);
      sent := sent + [txBuf[txOut]];
      txOut := (txOut + 1) % txBuf.Length;
      ReachesOn(s0, t, IsrStep, State(w, r, Tx(left - 1)));
      ReachesKeeps(s0, State(w, r, Tx(left - 1)));
    }

    /** Any number of interrupts. */
    method Irqs(ghost s0: Uart, ghost w: Writer, ghost r: Reader)
      requires rxBuf != txBuf && Inv(s0) && Reaches(s0, State(w, r, Off))
      modifies this`rxIn, this`taken, this`txOut, this`sent, this`irqEnable, this`control, rxBuf
      ensures Reaches(s0, State(w, r, Off)) && Inv(State(w, r, Off))
      ensures OnlyIrq(old(txIn), old(txOut), old(rxIn), old(rxOut))
    {
      hide Reaches, Inv;
      var count: nat := *;
      ReachesKeeps(s0, State(w, r, Off));
      while count > 0
        invariant Reaches(s0, State(w, r, Off)) && Inv(State(w, r, Off))
        invariant OnlyIrq(old(txIn), old(txOut), old(rxIn), old(rxOut))
      {
        var rounds: nat, c: ControlWord, valid: bool, avail: bool, b: Byte := *, *, *, *, *;
        OneIrq(s0, rounds, c, DataWord(valid, valid && avail, b), w, r);
        count := count - 1;
      }
    }

    /** One interrupt in the course of a run. */
    method OneIrq(ghost s0: Uart, rounds: nat, c: ControlWord, d: DataWord, ghost w: Writer, ghost r: Reader)
      requires rxBuf != txBuf && Inv(s0) && Reaches(s0, State(w, r, Off)) && (d.avail ==> d.valid)
      modifies this`rxIn, this`taken, this`txOut, this`sent, this`irqEnable, this`control, rxBuf
      ensures Reaches(s0, State(w, r, Off)) && Inv(State(w, r, Off))
      ensures OnlyIrq(old(txIn), old(txOut), old(rxIn), old(rxOut))
      ensures Served(c, d, old(txOut), old(rxIn), old(rxOut), old(taken))
    {
      hide Reaches, Inv;
      ghost var t := State(w, r, Off);
      ReachesKeeps(s0, t);
      Irq(rounds, c, d, w, r);
      ReachesThrough(s0, t, State(w, r, Off));
      ReachesKeeps(s0, State(w, r, Off));
    }

    /** A point of a thread at which interrupts and the alarm may come. */
    method Interrupts(ghost s0: Uart, ghost w: Writer, ghost r: Reader)
      requires rxBuf != txBuf && Inv(s0) && Reaches(s0, State(w, r, Off))
      modifies this, rxBuf, txBuf
      ensures Reaches(s0, State(w, r, Off)) && Inv(State(w, r, Off))
      ensures OnlyIrq(old(txIn), old(txOut), old(rxIn), old(rxOut))
    {
      hide Reaches, Inv;
      var count: nat := *;
      Irqs(s0, w, r);
      while count > 0
        invariant Reaches(s0, State(w, r, Off)) && Inv(State(w, r, Off))
        invariant OnlyIrq(old(txIn), old(txOut), old(rxIn), old(rxOut))
      {
        var ac: bool := *;
        Timeout(ac, w, r);
        Irqs(s0, w, r);
        count := count - 1;
      }
    }

    /** A wait on a ring of len cells comes to an end: the ring can move, or the host can become inactive. */
    predicate CanEnd(len: nat)
    {
      1 < len || timeout <= INT_MAX - 2
    }

    /** The host stays away until it counts as inactive. */
    method HostLeaves(ghost w: Writer, ghost r: Reader)
      requires rxBuf != txBuf && Inv(State(w, r, Off)) && timeout <= INT_MAX - 2
      modifies this`control, this`hostInactive
      ensures State(w, r, Off) == old(State(w, r, Off)) && hostInactive >= timeout
    {
      hide Inv;
      while hostInactive < timeout
        invariant State(w, r, Off) == old(State(w, r, Off))
      {
        Timeout(false, w, r);
      }
    }

    /** What ends a wait of the writer: the host takes a byte, or leaves. */
    method HostReads(ghost s0: Uart, ghost w: Writer, ghost r: Reader)
      requires rxBuf != txBuf && Inv(s0) && Reaches(s0, State(w, r, Off)) && (0 < TxLevel() || timeout <= INT_MAX - 2)
      modifies this, rxBuf, txBuf
      ensures Reaches(s0, State(w, r, Off)) && Inv(State(w, r, Off))
      ensures OnlyIrq(old(txIn), old(txOut), old(rxIn), old(rxOut))
      ensures hostInactive >= timeout || TxLevel() < old(TxLevel())
    {
      hide Reaches, Inv;
      ReachesKeeps(s0, State(w, r, Off));
      KeepsBounds(State(w, r, Off));
      var leave: bool := *;
      if timeout <= INT_MAX - 2 && (leave || txOut == txIn) {
        HostLeaves(w, r);
      } else {
        OneIrq(s0, 0, ControlWord(false, true, 1), DataWord(false, false, 0), w, r);
      }
    }

    /** What ends a wait of the reader: the host sends a byte, or leaves. */
    method HostWrites(ghost s0: Uart, ghost w: Writer, ghost r: Reader)
      requires rxBuf != txBuf && Inv(s0) && Reaches(s0, State(w, r, Off))
      requires RxLevel() < rxBuf.Length - 1 || timeout <= INT_MAX - 2
      modifies this, rxBuf, txBuf
      ensures Reaches(s0, State(w, r, Off)) && Inv(State(w, r, Off))
      ensures OnlyIrq(old(txIn), old(txOut), old(rxIn), old(rxOut))
      ensures hostInactive >= timeout || RxLevel() > old(RxLevel())
    {
      hide Reaches, Inv;
      ReachesKeeps(s0, State(w, r, Off));
      KeepsBounds(State(w, r, Off));
      var leave: bool, b: Byte := *, *;
      if timeout <= INT_MAX - 2 && (leave || (rxIn + 1) % rxBuf.Length == rxOut) {
        HostLeaves(w, r);
      } else {
        FullIsLevel(State(w, r, Off).rx);
        OneIrq(s0, 0, ControlWord(true, false, 0), DataWord(true, false, b), w, r);
      }
    }

    // ---------------------------------------------------------------- write

    ghost predicate TxFull()
      reads this
    {
      TxLevel() == txBuf.Length - 1
    }

    /** memcpy and the store to tx_in. */
    method CopyChunk(ghost s0: Uart, ghost c: WriteCall, ghost r: Reader, data: seq<Byte>, done: nat, n: nat)
      requires rxBuf != txBuf && Inv(s0) && data == c.data && Reaches(s0, State(WCopy(c, done, n, 0), r, Off))
      modifies this, rxBuf, txBuf
      ensures done + n <= |data| && Reaches(s0, State(WSample(c, done + n), r, Off))
      ensures TxLevel() <= old(TxLevel()) + n
    {
      hide Reaches, Inv;
      ReachesKeeps(s0, State(WCopy(c, done, n, 0), r, Off));
      CopyingFacts(State(WCopy(c, done, n, 0), r, Off));
      var k := 0;
      while k < n
        invariant TxLevel() <= old(TxLevel()) && k <= n && done + n <= |data|
        invariant Reaches(s0, State(WCopy(c, done, n, k), r, Off))
      {
        Interrupts(s0, WCopy(c, done, n, k), r);
        CopyByte(s0, c, r, data[done + k], done, n, k);
        k := k + 1;
      }
      Interrupts(s0, WCopy(c, done, n, k), r);
      ghost var t := State(WCopy(c, done, n, k), r, Off);
      CopyingFacts(t);
      FedLevel(txOut, txIn, n, txBuf.Length);
      txIn := (txIn + n) % txBuf.Length;
      accepted := accepted + data[done..done + n];
      ReachesOn(s0, t, WriterStep, State(WSample(c, done + n), r, Off));
    }

    /** One byte of the memcpy. */
    method CopyByte(ghost s0: Uart, ghost c: WriteCall, ghost r: Reader, b: Byte, ghost done: nat, ghost n: nat, k: nat)
      requires rxBuf != txBuf && Inv(s0) && Reaches(s0, State(WCopy(c, done, n, k), r, Off)) && k < n
      requires Inv(State(WCopy(c, done, n, k), r, Off)) && done + k < |c.data| && b == c.data[done + k]
      modifies txBuf
      ensures Reaches(s0, State(WCopy(c, done, n, k + 1), r, Off))
    {
      hide Reaches, Inv;
      ghost var t := State(WCopy(c, done, n, k), r, Off);
      CopyingFacts(t);
      txBuf[txIn + k] := b;
      assert txBuf[..] == t.tx.buf[t.tx.in_ + k := b];
      ReachesOn(s0, t, WriterStep, State(WCopy(c, done, n, k + 1), r, Off));
    }

    /** The inner loop: as much as fits; k is where it leaves the writer. */
    method CopyIn(ghost s0: Uart, ghost c: WriteCall, ghost r: Reader, data: seq<Byte>, done0: nat)
      returns (done: nat, out: nat, ghost k: Writer)
      requires rxBuf != txBuf && Inv(s0) && data == c.data && Reaches(s0, State(WSample(c, done0), r, Off))
      modifies this, rxBuf, txBuf
      ensures done0 <= done <= |data| && k.WKick? && k.wcall == c && k.done == done && (done < |data| ==> k.out == out)
      ensures Reaches(s0, State(k, r, Off))
      ensures done0 < |data| && !old(TxFull()) ==> done0 < done
      ensures done == |data| || done - done0 + old(TxLevel()) >= txBuf.Length - 1
    {
      hide Reaches, Fifo, ReaderInv, WriterInv, Contents, Next, WriterNext;
      ReachesKeeps(s0, State(WSample(c, done0), r, Off));
      SampleFacts(State(WSample(c, done0), r, Off));
      done, out := done0, 0;
      while done < |data|
        invariant done0 <= done <= |data| && Reaches(s0, State(WSample(c, done), r, Off))
        invariant done == done0 && !old(TxFull()) ==> !TxFull()
        invariant TxLevel() <= old(TxLevel()) + (done - done0)
      {
        ghost var w := WSample(c, done);
        Interrupts(s0, w, r);
        ghost var t := State(w, r, Off);
        RoomFits(txIn, txOut, txBuf.Length);
        SampleStep(t);
        var in_ := txIn;
        out := txOut;
        var n :=
          if in_ < out then out - 1 - in_
          else if out > 0 then txBuf.Length - in_
          else txBuf.Length - 1 - in_;
        if n == 0 {
          k := WKick(c, done, out);
          ReachesOn(s0, t, WriterStep, State(k, r, Off));
          return;
        }
        if n > |data| - done {
          n := |data| - done;
        }
        ReachesOn(s0, t, WriterStep, State(WCopy(c, done, n, 0), r, Off));
        CopyChunk(s0, c, r, data, done, n);
        done := done + n;
      }
      ghost var t := State(WSample(c, done), r, Off);
      ReachesKeeps(s0, t);
      SampleStep(t);
      k := WKick(c, done, txOut);
      ReachesOn(s0, t, WriterStep, State(k, r, Off));
    }

    /** The critical section that enables write interrupts. */
    method Kick(ghost s0: Uart, ghost k: Writer, ghost next: Writer, ghost r: Reader)
      requires rxBuf != txBuf && Inv(s0) && Reaches(s0, State(k, r, Off)) && k.WKick?
      requires next == if k.done < |k.wcall.data| && !k.wcall.nonblock then WWait(k.wcall, k.done, k.out)
                       else WDone(k.wcall, k.done)
      modifies this, rxBuf, txBuf
      ensures Reaches(s0, State(next, r, Off))
    {
      hide Reaches, Fifo, ReaderInv;
      Interrupts(s0, k, r);
      ghost var t := State(k, r, Off);
      irqEnable := irqEnable.(we := true);
      control := irqEnable;
      ReachesOn(s0, t, WriterStep, State(next, r, Off));
    }

    /** Waiting until tx_out has moved away from out, or the host is inactive. */
    method WaitForRoom(ghost s0: Uart, ghost c: WriteCall, ghost r: Reader, done: nat, out: nat) returns (moved: bool)
      requires rxBuf != txBuf && Inv(s0) && Reaches(s0, State(WWait(c, done, out), r, Off)) && CanEnd(txBuf.Length)
      modifies this, rxBuf, txBuf
      ensures Reaches(s0, State(if moved then WSample(c, done) else WDone(c, done), r, Off))
      ensures moved <==> !TxFull()
      ensures !moved ==> hostInactive >= timeout
    {
      hide Reaches, Inv;
      ghost var w := WWait(c, done, out);
      var spins: nat := *;
      ReachesKeeps(s0, State(w, r, Off));
      RoomWait(State(w, r, Off));
      while out == txOut && hostInactive < timeout
        invariant Reaches(s0, State(w, r, Off)) && Inv(State(w, r, Off)) && (out == txOut <==> TxFull())
        decreases spins, TxLevel(), if hostInactive < timeout then 1 else 0
      {
        if spins > 0 {
          Interrupts(s0, w, r);
          spins := spins - 1;
        } else {
          HostReads(s0, w, r);
        }
        RoomWait(State(w, r, Off));
      }
      Irqs(s0, w, r);
      ghost var t := State(w, r, Off);
      RoomWait(t);
      KeepsBounds(t);
      moved := out != txOut;
      ReachesOn(s0, t, WriterStep, State(if moved then WSample(c, done) else WDone(c, done), r, Off));
    }

    /** write. The reader stands at r. */
    method Write(data: seq<Byte>, nonblock: bool, ghost r: Reader) returns (ret: int)
      requires rxBuf != txBuf && Inv(State(WIdle, r, Off)) && (nonblock || CanEnd(txBuf.Length))
      modifies this, rxBuf, txBuf
      ensures Reaches(old(State(WIdle, r, Off)), State(WIdle, r, Off))
      ensures ret > 0 ==> ret <= |data| && accepted == old(accepted) + data[..ret]
      ensures var room := txBuf.Length - 1 - old(TxLevel());
        |data| > 0 && room > 0 ==> ret >= Min(|data|, room)
      ensures !nonblock && |data| > 0 && ret < |data| ==> TxFull() && hostInactive >= timeout
      ensures ret <= 0 ==> accepted == old(accepted) && ret == if nonblock then -EWOULDBLOCK else -EIO
    {
      hide Reaches, Fifo, ReaderInv;
      ghost var s0, c := State(WIdle, r, Off), WriteCall(data, nonblock, accepted);
      ReachesItself(s0);
      ReachesOn(s0, s0, Action.Write(data, nonblock), State(WSample(c, 0), r, Off));
      var done := 0;
      while true
        invariant done <= |data| && Reaches(s0, State(WSample(c, done), r, Off))
        invariant (done == 0 && TxLevel() == old(TxLevel())) || done >= Min(|data|, txBuf.Length - 1 - old(TxLevel()))
        decreases |data| - done, if TxFull() then 1 else 0
      {
        hide Inv;
        var out: nat;
        ghost var k: Writer;
        done, out, k := CopyIn(s0, c, r, data, done);
        ghost var wait := done < |data| && !nonblock;
        Kick(s0, k, if wait then WWait(c, done, k.out) else WDone(c, done), r);
        if done == |data| || nonblock {
          break;
        }
        var moved := WaitForRoom(s0, c, r, done, out);
        if !moved {
          break;
        }
      }
      ghost var t := State(WDone(c, done), r, Off);
      ReachesKeeps(s0, t);
      ReachesOn(s0, t, WriterStep, State(WIdle, r, Off));
      ret := if done > 0 then done else if nonblock then -EWOULDBLOCK else -EIO;
    }

    // ---------------------------------------------------------------- read

    /** memcpy and the store to rx_out. */
    method TakeChunk(ghost s0: Uart, ghost c: ReadCall, ghost w: Writer, got: seq<Byte>, n: nat)
      returns (piece: seq<Byte>)
      requires rxBuf != txBuf && Inv(s0) && Reaches(s0, State(w, RCopy(c, got, n, []), Off))
      modifies this, rxBuf, txBuf
      ensures RxLevel() >= old(RxLevel()) - n
      ensures |piece| == n > 0 && |got| + n <= c.space && Reaches(s0, State(w, RSample(c, got + piece), Off))
    {
      hide Reaches, Fifo, WriterInv;
      piece := [];
      ReachesKeeps(s0, State(w, RCopy(c, got, n, piece), Off));
      while |piece| < n
        invariant RxLevel() >= old(RxLevel())
        invariant |piece| <= n && 0 < n && |got| + n <= c.space
        invariant Reaches(s0, State(w, RCopy(c, got, n, piece), Off))
      {
        Interrupts(s0, w, RCopy(c, got, n, piece));
        hide Inv;
        ghost var t := State(w, RCopy(c, got, n, piece), Off);
        piece := piece + [rxBuf[rxOut + |piece|]];
        ReachesOn(s0, t, ReaderStep, State(w, RCopy(c, got, n, piece), Off));
      }
      Interrupts(s0, w, RCopy(c, got, n, piece));
      ghost var t := State(w, RCopy(c, got, n, piece), Off);
      TakingFacts(t);
      DrainedLevel(rxOut, rxIn, n, rxBuf.Length);
      rxOut := (rxOut + n) % rxBuf.Length;
      returned := returned + piece;
      ReachesOn(s0, t, ReaderStep, State(w, RSample(c, got + piece), Off));
    }

    ghost predicate RxEmpty()
      reads this
    {
      rxIn == rxOut
    }

    /** The inner loop: as much as is there; next is where it leaves the reader. */
    method TakeOut(ghost s0: Uart, ghost c: ReadCall, ghost w: Writer, space: nat, nonblock: bool)
      returns (got: seq<Byte>, seen: nat, ghost next: Reader)
      requires rxBuf != txBuf && Inv(s0) && space == c.space && nonblock == c.nonblock
      requires Reaches(s0, State(w, RSample(c, []), Off))
      modifies this, rxBuf, txBuf
      ensures Reaches(s0, State(w, next, Off)) && |got| <= space
      ensures next == if got != [] then RKick(c, got) else if space == 0 || nonblock then RDone(c, got) else RWait(c, seen)
      ensures space > 0 && !old(RxEmpty()) ==> got != []
      ensures |got| == space || |got| >= old(RxLevel())
    {
      hide Reaches, Fifo, WriterInv;
      got, seen := [], 0;
      ReachesKeeps(s0, State(w, RSample(c, got), Off));
      ghost var t;
      while |got| < space
        invariant |got| <= space && Reaches(s0, State(w, RSample(c, got), Off))
        invariant RxLevel() >= old(RxLevel()) - |got|
        invariant got == [] && !old(RxEmpty()) ==> !RxEmpty()
      {
        Interrupts(s0, w, RSample(c, got));
        t := State(w, RSample(c, got), Off);
        ReadyFits(rxIn, rxOut, rxBuf.Length);
        seen := rxIn;
        var out := rxOut;
        var n := if seen >= out then seen - out else rxBuf.Length - out;
        if n == 0 {
          break;
        }
        if n > space - |got| {
          n := space - |got|;
        }
        ReachesOn(s0, t, ReaderStep, State(w, RCopy(c, got, n, []), Off));
        var piece := TakeChunk(s0, c, w, got, n);
        got := got + piece;
      }
      t := State(w, RSample(c, got), Off);
      ReachesKeeps(s0, t);
      next := if got != [] then RKick(c, got) else if space == 0 || nonblock then RDone(c, got) else RWait(c, seen);
      ReachesOn(s0, t, ReaderStep, State(w, next, Off));
    }

    /** Waiting until rx_in has moved away from seen, or the host is inactive. */
    method WaitForData(ghost s0: Uart, ghost c: ReadCall, ghost w: Writer, seen: nat) returns (moved: bool)
      requires rxBuf != txBuf && Inv(s0) && Reaches(s0, State(w, RWait(c, seen), Off)) && CanEnd(rxBuf.Length)
      modifies this, rxBuf, txBuf
      ensures Reaches(s0, State(w, if moved then RSample(c, []) else RDone(c, []), Off))
      ensures moved <==> !RxEmpty()
      ensures !moved ==> hostInactive >= timeout
    {
      hide Reaches, Inv;
      ghost var r := RWait(c, seen);
      var spins: nat := *;
      ReachesKeeps(s0, State(w, r, Off));
      DataWait(State(w, r, Off));
      while seen == rxIn && hostInactive < timeout
        invariant Reaches(s0, State(w, r, Off)) && Inv(State(w, r, Off)) && (seen == rxIn <==> RxEmpty())
        invariant rxOut == old(rxOut) && RxLevel() <= rxBuf.Length
        decreases spins, rxBuf.Length - RxLevel(), if hostInactive < timeout then 1 else 0
      {
        if spins > 0 {
          Interrupts(s0, w, r);
          spins := spins - 1;
        } else {
          HostWrites(s0, w, r);
        }
        DataWait(State(w, r, Off));
      }
      Irqs(s0, w, r);
      ghost var t := State(w, r, Off);
      DataWait(t);
      KeepsBounds(t);
      moved := seen != rxIn;
      ReachesOn(s0, t, ReaderStep, State(w, if moved then RSample(c, []) else RDone(c, []), Off));
    }

    /** read: the bytes for the buffer and the return value. The writer stands at w. */
    method Read(space: nat, nonblock: bool, ghost w: Writer) returns (got: seq<Byte>, ret: int)
      requires rxBuf != txBuf && Inv(State(w, RIdle, Off)) && (nonblock || CanEnd(rxBuf.Length))
      modifies this, rxBuf, txBuf
      ensures Reaches(old(State(w, RIdle, Off)), State(w, RIdle, Off))
      ensures |got| <= space && returned == old(returned) + got
      ensures |got| >= Min(space, old(RxLevel()))
      ensures !nonblock && space > 0 && got == [] ==> RxEmpty() && hostInactive >= timeout
      ensures ret == if got != [] then |got| else if nonblock then -EWOULDBLOCK else -EIO
    {
      hide Reaches, Fifo, WriterInv;
      ghost var s0, c := State(w, RIdle, Off), ReadCall(space, nonblock, returned);
      ReachesItself(s0);
      ReachesOn(s0, s0, Action.Read(space, nonblock), State(w, RSample(c, []), Off));
      ghost var again := false;
      while true
        invariant Reaches(s0, State(w, RSample(c, []), Off))
        invariant again ==> !RxEmpty() && space > 0 && old(RxLevel()) <= 0
        invariant !again ==> RxLevel() == old(RxLevel())
        decreases if again then 0 else 1
      {
        hide Inv;
        var seen: nat;
        ghost var next: Reader;
        got, seen, next := TakeOut(s0, c, w, space, nonblock);
        if got != [] {
          EnableReading(s0, c, w, got);
          break;
        }
        if space == 0 || nonblock {
          break;
        }
        var moved := WaitForData(s0, c, w, seen);
        if !moved {
          break;
        }
        again := true;
      }
      ghost var t := State(w, RDone(c, got), Off);
      ReachesKeeps(s0, t);
      ReachesOn(s0, t, ReaderStep, State(w, RIdle, Off));
      ret := if got != [] then |got| else if nonblock then -EWOULDBLOCK else -EIO;
    }

    /** The critical section that enables read interrupts. */
    method EnableReading(ghost s0: Uart, ghost c: ReadCall, ghost w: Writer, ghost got: seq<Byte>)
      requires rxBuf != txBuf && Inv(s0) && Reaches(s0, State(w, RKick(c, got), Off))
      modifies this, rxBuf, txBuf
      ensures Reaches(s0, State(w, RDone(c, got), Off))
    {
      hide Reaches, Fifo, WriterInv;
      Interrupts(s0, w, RKick(c, got));
      ghost var t := State(w, RKick(c, got), Off);
      irqEnable := irqEnable.(re := true);
      control := irqEnable;
      ReachesOn(s0, t, ReaderStep, State(w, RDone(c, got), Off));
    }

    /** close: 0 with an active host means that everything write has accepted has been sent. */
    method Close(nonblock: bool, ghost w: Writer, ghost r: Reader) returns (ret: int)
      requires rxBuf != txBuf && Inv(State(w, r, Off))
      modifies this, rxBuf, txBuf
      ensures Reaches(old(State(w, r, Off)), State(w, r, Off))
      ensures ret == 0 || (nonblock && ret == -EWOULDBLOCK && txOut != txIn && hostInactive < timeout)
      ensures ret == 0 ==> accepted == sent || hostInactive >= timeout
      ensures nonblock && old(txOut != txIn && hostInactive < timeout) ==> ret == -EWOULDBLOCK
      ensures nonblock ==> State(w, r, Off) == old(State(w, r, Off)) && hostInactive == old(hostInactive)
    {
      hide Reaches, Inv;
      ghost var s0 := State(w, r, Off);
      ReachesItself(s0);
      var spins: nat := *;
      KeepsBounds(State(w, r, Off));
      while txOut != txIn && hostInactive < timeout
        invariant Reaches(s0, State(w, r, Off)) && Inv(State(w, r, Off)) && txOut < txBuf.Length && txIn < txBuf.Length
        invariant nonblock ==> State(w, r, Off) == s0 && hostInactive == old(hostInactive)
        decreases spins, TxLevel(), if hostInactive < timeout then 1 else 0
      {
        if nonblock {
          return -EWOULDBLOCK;
        }
        if spins > 0 {
          Interrupts(s0, w, r);
          spins := spins - 1;
        } else {
          HostReads(s0, w, r);
        }
        KeepsBounds(State(w, r, Off));
      }
      ret := 0;
      if txOut == txIn {
        DrainedIsSent(State(w, r, Off));
      }
    }
  }
}
