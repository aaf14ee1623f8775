/** The interrupt-driven JTAG UART driver: writer and reader threads and the interrupt routine as a step relation. */
module JtagUart {
  import opened Bytes
  import opened Rings

  // ---------------------------------------------------------------- state

  /** The enable bits of the control register: read interrupts and write interrupts. */
  datatype Enable = Enable(re: bool, we: bool)

  /** A call of write; base is what had been accepted before it. */
  datatype WriteCall = WriteCall(data: seq<Byte>, nonblock: bool, base: seq<Byte>)

  /** A call of read; base is what had been returned before it. */
  datatype ReadCall = ReadCall(space: nat, nonblock: bool, base: seq<Byte>)

  /** Where the writer stands; done bytes of the call are in the ring. */
  datatype Writer =
    | WIdle
    | WSample(wcall: WriteCall, done: nat)                      // before reading tx_out
    | WCopy(wcall: WriteCall, done: nat, n: nat, k: nat)        // k of n bytes copied, tx_in not yet stored
    | WKick(wcall: WriteCall, done: nat, out: nat)              // before the critical section; out as last read
    | WWait(wcall: WriteCall, done: nat, out: nat)              // waiting for tx_out to move away from out
    | WDone(wcall: WriteCall, done: nat)

  /** Where the reader stands; got has been copied out and removed from the ring. */
  datatype Reader =
    | RIdle
    | RSample(rcall: ReadCall, got: seq<Byte>)                  // before reading rx_in
    | RCopy(rcall: ReadCall, got: seq<Byte>, n: nat, piece: seq<Byte>) // part of n bytes copied, rx_out not yet stored
    | RWait(rcall: ReadCall, seen: nat)                         // waiting for rx_in to move away from seen
    | RKick(rcall: ReadCall, got: seq<Byte>)                    // before the critical section
    | RDone(rcall: ReadCall, got: seq<Byte>)

  /** Where the interrupt routine stands; wi and space are the fields of the control word it read. */
  datatype Isr =
    | Off
    | Top
    | Rx(avail: bool, wi: bool, space: nat)
    | RxEnd(avail: bool, wi: bool, space: nat)
    | Tx(space: nat)

  /** A ring with the bytes ever put in and the bytes ever taken out. */
  datatype Channel = Channel(buf: seq<Byte>, in_: nat, out: nat, fed: seq<Byte>, drained: seq<Byte>)

  /** The driver state and the enable bits of the control register. */
  datatype Uart = Uart(rx: Channel, tx: Channel, irqEnable: Enable, control: Enable,
                       writer: Writer, reader: Reader, isr: Isr)

  function Initial(len: nat): Uart {
    var empty := Channel(seq(len, i => 0), 0, 0, [], []);
    Uart(empty, empty, Enable(true, false), Enable(true, false), WIdle, RIdle, Off)
  }

  /** Everything that can happen next. The device chooses the arguments of Control and Data. */
  datatype Action =
    | Write(data: seq<Byte>, nonblock: bool)
    | Read(space: nat, nonblock: bool)
    | WriterStep
    | ReaderStep
    | Interrupt
    | Control(ri: bool, wi: bool, space: nat)
    | Data(valid: bool, avail: bool, b: Byte)
    | IsrStep
    | Timeout

  /** RAVAIL is 0 when RVALID is 0. */
  predicate Honest(a: Action) {
    a.Data? && a.avail ==> a.valid
  }

  // ---------------------------------------------------------------- rings

  predicate InBounds(ch: Channel) {
    ch.in_ < |ch.buf| && ch.out < |ch.buf|
  }

  predicate Full(ch: Channel)
    requires InBounds(ch)
  {
    (ch.in_ + 1) % |ch.buf| == ch.out
  }

  /** b stored k cells behind the write index. */
  function Stored(ch: Channel, k: nat, b: Byte): Channel
    requires ch.in_ + k < |ch.buf|
  {
    ch.(buf := ch.buf[ch.in_ + k := b])
  }

  /** The write index moved over the bytes s. */
  function Fed(ch: Channel, s: seq<Byte>): Channel
    requires InBounds(ch)
  {
    ch.(in_ := (ch.in_ + |s|) % |ch.buf|, fed := ch.fed + s)
  }

  /** The read index moved over the bytes s. */
  function Drained(ch: Channel, s: seq<Byte>): Channel
    requires InBounds(ch)
  {
    ch.(out := (ch.out + |s|) % |ch.buf|, drained := ch.drained + s)
  }

  /** First in, first out: what was put in is what was taken out and then what is in the ring. */
  ghost predicate Fifo(ch: Channel) {
    InBounds(ch) && ch.fed == ch.drained + Contents(ch.buf, ch.out, ch.in_)
  }

  function Filled(ch: Channel): int {
    Level(ch.out, ch.in_, |ch.buf|)
  }

  lemma StoredKeeps(ch: Channel, k: nat, b: Byte)
    requires Fifo(ch) && ch.in_ + k < |ch.buf| && Filled(ch) + k < |ch.buf|
    ensures Fifo(Stored(ch, k, b))
  {
    PutFree(ch.buf, ch.out, ch.in_, k, b);
  }

  lemma FedKeeps(ch: Channel, s: seq<Byte>)
    requires Fifo(ch) && ch.in_ + |s| <= |ch.buf| && Filled(ch) + |s| < |ch.buf|
    requires ch.buf[ch.in_..ch.in_ + |s|] == s
    ensures Fifo(Fed(ch, s)) && Filled(Fed(ch, s)) == Filled(ch) + |s|
  {
    hide Contents;
    PushMany(ch.buf, ch.out, ch.in_, |s|);
    Wrap(ch.in_, |s|, |ch.buf|);
    var held := Contents(ch.buf, ch.out, ch.in_);
    assert ch.drained + held + s == ch.drained + (held + s);
  }

  lemma DrainedKeeps(ch: Channel, s: seq<Byte>)
    requires Fifo(ch) && ch.out + |s| <= |ch.buf| && |s| <= Filled(ch) && ch.buf[ch.out..ch.out + |s|] == s
    ensures Fifo(Drained(ch, s)) && Filled(Drained(ch, s)) == Filled(ch) - |s|
  {
    hide Contents, Level;
    PopMany(ch.buf, ch.out, ch.in_, |s|);
    var rest := Contents(ch.buf, (ch.out + |s|) % |ch.buf|, ch.in_);
    assert ch.drained + (s + rest) == ch.drained + s + rest;
  }

  lemma FullIsLevel(ch: Channel)
    requires InBounds(ch)
    ensures Full(ch) <==> Filled(ch) == |ch.buf| - 1
    ensures Filled(ch) == 0 <==> ch.in_ == ch.out
  {
    Wrap(ch.in_, 1, |ch.buf|);
  }

  // ---------------------------------------------------------------- steps of the writer

  /** The number of bytes write copies at once. */
  function Room(in_: nat, out: nat, len: nat): int {
    if in_ < out then out - 1 - in_ else if out > 0 then len - in_ else len - 1 - in_
  }

  function Min(a: int, b: int): int {
    if a < b then a else b
  }

  /** The writer's next step on its ring; the kick concerns `Next`. */
  function WriterNext(tx: Channel, w: Writer): Option<(Channel, Writer)>
    requires InBounds(tx)
  {
    match w
    case WIdle => None
    case WSample(c, done) =>
      var room := Room(tx.in_, tx.out, |tx.buf|);
      Some((tx, if done >= |c.data| || room <= 0 then WKick(c, done, tx.out)
                else WCopy(c, done, Min(room, |c.data| - done), 0)))
    case WCopy(c, done, n, k) =>
      if tx.in_ + n > |tx.buf| || done + n > |c.data| then None
      else if k < n then Some((Stored(tx, k, c.data[done + k]), WCopy(c, done, n, k + 1)))
      else Some((Fed(tx, c.data[done..done + n]), WSample(c, done + n)))
    case WKick(c, done, out) =>
      Some((tx, if done < |c.data| && !c.nonblock then WWait(c, done, out) else WDone(c, done)))
    case WWait(c, done, out) => Some((tx, if out == tx.out then WDone(c, done) else WSample(c, done)))
    case WDone(_, _) => Some((tx, WIdle))
  }

  // ---------------------------------------------------------------- steps of the reader

  /** The number of bytes read copies at once. */
  function Ready(in_: nat, out: nat, len: nat): int {
    if in_ >= out then in_ - out else len - out
  }

  function ReaderNext(rx: Channel, r: Reader): Option<(Channel, Reader)>
    requires InBounds(rx)
  {
    match r
    case RIdle => None
    case RSample(c, got) =>
      var ready := Ready(rx.in_, rx.out, |rx.buf|);
      Some((rx, if |got| < c.space && ready > 0 then RCopy(c, got, Min(ready, c.space - |got|), [])
                else if got != [] then RKick(c, got)
                else if c.space == 0 || c.nonblock then RDone(c, got)
                else RWait(c, rx.in_)))
    case RCopy(c, got, n, piece) =>
      if rx.out + n > |rx.buf| then None
      else if |piece| < n then Some((rx, RCopy(c, got, n, piece + [rx.buf[rx.out + |piece|]])))
      else Some((Drained(rx, piece), RSample(c, got + piece)))
    case RWait(c, seen) => Some((rx, if seen == rx.in_ then RDone(c, []) else RSample(c, [])))
    case RKick(c, got) => Some((rx, RDone(c, got)))
    case RDone(_, _) => Some((rx, RIdle))
  }

  // ---------------------------------------------------------------- all steps

  /** irq_enable changed and stored in the control register, with interrupts off. */
  function Enabled(s: Uart, e: Enable): Uart {
    s.(irqEnable := e, control := e)
  }

  function WriterStepped(s: Uart): Option<Uart>
    requires InBounds(s.tx)
  {
    var n := WriterNext(s.tx, s.writer);
    if n.None? then None
    else
      var t := s.(tx := n.value.0, writer := n.value.1);
      Some(if s.writer.WKick? then Enabled(t, s.irqEnable.(we := true)) else t)
  }

  function ReaderStepped(s: Uart): Option<Uart>
    requires InBounds(s.rx)
  {
    var n := ReaderNext(s.rx, s.reader);
    if n.None? then None
    else
      var t := s.(rx := n.value.0, reader := n.value.1);
      Some(if s.reader.RKick? then Enabled(t, s.irqEnable.(re := true)) else t)
  }

  /** The control word read at the top of the interrupt routine. */
  function ControlRead(s: Uart, ri: bool, wi: bool, space: nat): Option<Uart> {
    if s.isr != Top then None
    else Some(s.(isr := if !ri && !wi then Off else if ri then Rx(true, wi, space) else Tx(space)))
  }

  /** The data word read in the receive loop. */
  function DataRead(s: Uart, valid: bool, avail: bool, b: Byte): Option<Uart>
    requires InBounds(s.rx)
  {
    if !s.isr.Rx? || Full(s.rx) then None
    else if !valid then Some(s.(isr := RxEnd(avail, s.isr.wi, s.isr.space)))
    else Some(s.(rx := Fed(Stored(s.rx, 0, b), [b]), isr := Rx(avail, s.isr.wi, s.isr.space)))
  }

  /** Steps of the interrupt routine that read nothing from the device. */
  function IsrStepped(s: Uart): Option<Uart>
    requires InBounds(s.rx) && InBounds(s.tx)
  {
    match s.isr
    case Off => None
    case Top => None
    case Rx(avail, wi, space) => if Full(s.rx) then Some(s.(isr := RxEnd(avail, wi, space))) else None
    case RxEnd(avail, wi, space) =>
      var t := if avail then Enabled(s, s.irqEnable.(re := false)) else s;
      Some(t.(isr := if wi then Tx(space) else Top))
    case Tx(space) =>
      if space > 0 && s.tx.out != s.tx.in_ then
        Some(s.(tx := Drained(s.tx, [s.tx.buf[s.tx.out]]), isr := Tx(space - 1)))
      else
        var t := if space > 0 then Enabled(s, s.irqEnable.(we := false)) else s;
        Some(t.(isr := Top))
  }

  /** The state after an action, None when it cannot happen. Threads stand still while the interrupt routine runs. */
  function Next(s: Uart, a: Action): Option<Uart> {
    if !InBounds(s.rx) || !InBounds(s.tx) then None
    else if s.isr != Off then
      match a
      case Control(ri, wi, space) => ControlRead(s, ri, wi, space)
      case Data(valid, avail, b) => DataRead(s, valid, avail, b)
      case IsrStep => IsrStepped(s)
      case _ => None
    else
      match a
      case Write(data, nonblock) =>
        if s.writer == WIdle then Some(s.(writer := WSample(WriteCall(data, nonblock, s.tx.fed), 0))) else None
      case Read(space, nonblock) =>
        if s.reader == RIdle then Some(s.(reader := RSample(ReadCall(space, nonblock, s.rx.drained), []))) else None
      case WriterStep => WriterStepped(s)
      case ReaderStep => ReaderStepped(s)
      case Interrupt => Some(s.(isr := Top))
      case Timeout => Some(s.(control := s.irqEnable))
      case _ => None
  }

  // ---------------------------------------------------------------- the invariant

  /** The bytes of the call that have been accepted are its first done bytes. */
  ghost predicate Accepted(tx: Channel, c: WriteCall, done: nat) {
    done <= |c.data| && tx.fed == c.base + c.data[..done]
  }

  /** With the read index at out the ring is full. */
  ghost predicate FullAt(tx: Channel, out: nat) {
    out < |tx.buf| && Level(out, tx.in_, |tx.buf|) == |tx.buf| - 1
  }

  ghost predicate WriterInv(tx: Channel, w: Writer) {
    match w
    case WIdle => true
    case WSample(c, done) => Accepted(tx, c, done)
    case WCopy(c, done, n, k) =>
      && Accepted(tx, c, done) && 0 < n && done + n <= |c.data| && k <= n
      && tx.in_ + n <= |tx.buf| && Filled(tx) + n < |tx.buf|
      && tx.buf[tx.in_..tx.in_ + k] == c.data[done..done + k]
    case WKick(c, done, out) => Accepted(tx, c, done) && (done < |c.data| ==> FullAt(tx, out))
    case WWait(c, done, out) => Accepted(tx, c, done) && done < |c.data| && FullAt(tx, out)
    case WDone(c, done) => Accepted(tx, c, done)
  }

  ghost predicate Returned(rx: Channel, c: ReadCall, got: seq<Byte>) {
    |got| <= c.space && rx.drained == c.base + got
  }

  ghost predicate ReaderInv(rx: Channel, r: Reader) {
    match r
    case RIdle => true
    case RSample(c, got) => Returned(rx, c, got)
    case RCopy(c, got, n, piece) =>
      && Returned(rx, c, got) && 0 < n && |got| + n <= c.space && |piece| <= n
      && rx.out + n <= |rx.buf| && n <= Filled(rx)
      && piece == rx.buf[rx.out..rx.out + |piece|]
    case RWait(c, seen) => Returned(rx, c, []) && seen == rx.out
    case RKick(c, got) => Returned(rx, c, got) && got != []
    case RDone(c, got) => Returned(rx, c, got)
  }

  /** A writer that will still run its kick. */
  predicate KickPending(w: Writer) {
    w.WSample? || w.WCopy? || w.WKick?
  }

  /** A reader that has taken data from the ring and has not yet enabled read interrupts. */
  predicate EnablePending(r: Reader) {
    (r.RSample? && r.got != []) || (r.RCopy? && r.got != []) || r.RKick?
  }

  /** No wake-up is lost, in the driver's shadow word and in the device. */
  ghost predicate Awake(s: Uart) {
    && InBounds(s.rx) && InBounds(s.tx)
    && s.control == s.irqEnable
    && (s.tx.out != s.tx.in_ ==> s.irqEnable.we || KickPending(s.writer))
    && (!s.irqEnable.re ==> Full(s.rx) || EnablePending(s.reader))
    && (s.isr.RxEnd? && s.isr.avail ==> Full(s.rx))
  }

  ghost predicate Inv(s: Uart) {
    Fifo(s.rx) && Fifo(s.tx) && WriterInv(s.tx, s.writer) && ReaderInv(s.rx, s.reader) && Awake(s)
  }

  lemma InitialInv(len: nat)
    requires 0 < len
    ensures Inv(Initial(len))
  {
  }

  // ---------------------------------------------------------------- what the writer keeps

  /** Room is what fits without wrapping and without filling the last cell; none is left exactly in a full ring. */
  lemma RoomFits(in_: nat, out: nat, len: nat)
    requires in_ < len && out < len
    ensures 0 <= Room(in_, out, len) && in_ + Room(in_, out, len) <= len
    ensures Level(out, in_, len) + Room(in_, out, len) < len
    ensures Room(in_, out, len) == 0 <==> Level(out, in_, len) == len - 1
  {
  }

  ghost predicate WriterSafe(tx: Channel, w: Writer) {
    Fifo(tx) && WriterInv(tx, w)
  }

  lemma SliceGrows(a: seq<Byte>, i: nat, d: seq<Byte>, j: nat, k: nat)
    requires i + k < |a| && j + k < |d| && a[i..i + k] == d[j..j + k]
    ensures a[i + k := d[j + k]][i..i + k + 1] == d[j..j + k + 1]
  {
    var b := a[i + k := d[j + k]];
    assert b[i..i + k] == a[i..i + k];
    assert b[i..i + k + 1] == b[i..i + k] + [d[j + k]];
    assert d[j..j + k + 1] == d[j..j + k] + [d[j + k]];
  }

  lemma WriterCopies(tx: Channel, w: Writer)
    requires WriterSafe(tx, w) && w.WCopy? && w.k < w.n
    ensures WriterNext(tx, w).Some? && WriterSafe(WriterNext(tx, w).value.0, WriterNext(tx, w).value.1)
  {
    assert InBounds(tx);
    hide Fifo, Contents, Level;
    SliceGrows(tx.buf, tx.in_, w.wcall.data, w.done, w.k);
    StoredKeeps(tx, w.k, w.wcall.data[w.done + w.k]);
  }

  lemma AcceptsMore(fed: seq<Byte>, base: seq<Byte>, d: seq<Byte>, done: nat, n: nat)
    requires done + n <= |d| && fed == base + d[..done]
    ensures fed + d[done..done + n] == base + d[..done + n]
  {
    assert d[..done + n] == d[..done] + d[done..done + n];
  }

  lemma Published(tx: Channel, c: WriteCall, done: nat, n: nat)
    requires Fifo(tx) && Accepted(tx, c, done) && done + n <= |c.data|
    requires tx.in_ + n <= |tx.buf| && Filled(tx) + n < |tx.buf|
    requires tx.buf[tx.in_..tx.in_ + n] == c.data[done..done + n]
    ensures InBounds(tx) && Fifo(Fed(tx, c.data[done..done + n])) && Accepted(Fed(tx, c.data[done..done + n]), c, done + n)
  {
    assert InBounds(tx);
    hide Fifo, Filled, Contents, Level;
    FedKeeps(tx, c.data[done..done + n]);
    AcceptsMore(tx.fed, c.base, c.data, done, n);
  }

  lemma WriterPublishes(tx: Channel, w: Writer)
    requires WriterSafe(tx, w) && w.WCopy? && w.k == w.n
    ensures WriterNext(tx, w).Some? && WriterSafe(WriterNext(tx, w).value.0, WriterNext(tx, w).value.1)
  {
    hide Fifo, Accepted, Filled;
    Published(tx, w.wcall, w.done, w.n);
    hide Fed;
  }

  lemma WriterNextKeeps(tx: Channel, w: Writer)
    requires WriterSafe(tx, w) && w != WIdle
    ensures WriterNext(tx, w).Some? && WriterSafe(WriterNext(tx, w).value.0, WriterNext(tx, w).value.1)
  {
    if w.WSample? {
      RoomFits(tx.in_, tx.out, |tx.buf|);
      hide Fifo, Contents, Room;
      assert InBounds(tx);
    } else if w.WCopy? && w.k < w.n {
      WriterCopies(tx, w);
    } else if w.WCopy? {
      WriterPublishes(tx, w);
    }
    hide Contents;
  }

  // ---------------------------------------------------------------- what the reader keeps

  lemma ReadyFits(in_: nat, out: nat, len: nat)
    requires in_ < len && out < len
    ensures 0 <= Ready(in_, out, len) <= Level(out, in_, len) && out + Ready(in_, out, len) <= len
    ensures Ready(in_, out, len) == 0 <==> in_ == out
  {
  }

  ghost predicate ReaderSafe(rx: Channel, r: Reader) {
    Fifo(rx) && ReaderInv(rx, r)
  }

  lemma ReaderTakes(rx: Channel, r: Reader)
    requires ReaderSafe(rx, r) && r.RCopy? && |r.piece| == r.n
    ensures ReaderNext(rx, r).Some? && ReaderSafe(ReaderNext(rx, r).value.0, ReaderNext(rx, r).value.1)
  {
    DrainedKeeps(rx, r.piece);
    hide Fifo;
  }

  lemma ReaderNextKeeps(rx: Channel, r: Reader)
    requires ReaderSafe(rx, r) && r != RIdle
    ensures ReaderNext(rx, r).Some? && ReaderSafe(ReaderNext(rx, r).value.0, ReaderNext(rx, r).value.1)
  {
    if r.RSample? {
      ReadyFits(rx.in_, rx.out, |rx.buf|);
      hide Contents, Ready;
    } else if r.RCopy? && |r.piece| == r.n {
      ReaderTakes(rx, r);
    }
    hide Contents;
  }

  // ---------------------------------------------------------------- threads against the interrupt routine

  lemma OneByte(buf: seq<Byte>, i: nat, s: seq<Byte>)
    requires i < |buf| && |s| == 1 && s[0] == buf[i]
    ensures buf[i..i + 1] == s
  {
  }

  /** Taking bytes out of the transmit ring does not disturb the writer. */
  lemma WriterUndisturbed(tx: Channel, w: Writer, s: seq<Byte>)
    requires WriterSafe(tx, w) && |s| == 1 && tx.out != tx.in_ && s[0] == tx.buf[tx.out]
    ensures WriterSafe(Drained(tx, s), w)
  {
    assert InBounds(tx);
    hide Fifo, Contents, Level;
    FullIsLevel(tx);
    OneByte(tx.buf, tx.out, s);
    DrainedKeeps(tx, s);
  }

  /** Putting a byte into the receive ring does not disturb the reader. */
  lemma ReaderUndisturbed(rx: Channel, r: Reader, b: Byte)
    requires ReaderSafe(rx, r) && !Full(rx)
    ensures ReaderSafe(Fed(Stored(rx, 0, b), [b]), r)
  {
    assert InBounds(rx);
    hide Fifo, Contents;
    FullIsLevel(rx);
    StoredKeeps(rx, 0, b);
    var ch := Stored(rx, 0, b);
    OneByte(ch.buf, ch.in_, [b]);
    FedKeeps(ch, [b]);
    if r.RCopy? {
      PieceStands(rx, r, b);
    }
  }

  lemma PieceStands(rx: Channel, r: Reader, b: Byte)
    requires InBounds(rx) && ReaderInv(rx, r) && r.RCopy?
    ensures var c := Stored(rx, 0, b).buf; r.piece == c[rx.out..rx.out + |r.piece|]
  {
    var c := Stored(rx, 0, b).buf;
    forall k | rx.out <= k < rx.out + |r.piece|
      ensures c[k] == rx.buf[k]
    {
    }
  }

  // ---------------------------------------------------------------- every step keeps the invariant

  lemma WriterSteppedKeeps(s: Uart)
    requires Inv(s) && WriterStepped(s).Some?
    ensures Inv(WriterStepped(s).value)
  {
    WriterNextKeeps(s.tx, s.writer);
    hide Fifo, WriterInv, ReaderInv;
  }

  lemma ReaderSteppedKeeps(s: Uart)
    requires Inv(s) && s.isr == Off && ReaderStepped(s).Some?
    ensures Inv(ReaderStepped(s).value)
  {
    ReaderNextKeeps(s.rx, s.reader);
    if s.reader.RCopy? && |s.reader.piece| == s.reader.n {
      assert s.reader.got + s.reader.piece != [];
    }
    assert InBounds(ReaderNext(s.rx, s.reader).value.0);
    hide Fifo, WriterInv;
  }

  lemma DataReadKeeps(s: Uart, valid: bool, avail: bool, b: Byte)
    requires Inv(s) && DataRead(s, valid, avail, b).Some? && (avail ==> valid)
    ensures Inv(DataRead(s, valid, avail, b).value)
  {
    if valid {
      ReaderUndisturbed(s.rx, s.reader, b);
    }
    hide Fifo, WriterInv, ReaderInv;
  }

  lemma IsrSteppedKeeps(s: Uart)
    requires Inv(s) && IsrStepped(s).Some?
    ensures Inv(IsrStepped(s).value)
  {
    if s.isr.Tx? && s.isr.space > 0 && s.tx.out != s.tx.in_ {
      WriterUndisturbed(s.tx, s.writer, [s.tx.buf[s.tx.out]]);
    }
    hide Fifo, WriterInv, ReaderInv;
  }

  lemma CallKeeps(s: Uart, a: Action)
    requires Inv(s) && (a.Write? || a.Read?) && Next(s, a).Some?
    ensures Inv(Next(s, a).value)
  {
    hide Fifo, Contents;
  }

  /** Every step, given a device whose RAVAIL is 0 when RVALID is 0. */
  lemma NextKeeps(s: Uart, a: Action)
    requires Inv(s) && Honest(a) && Next(s, a).Some?
    ensures Inv(Next(s, a).value)
  {
    match a
    case Write(_, _) => CallKeeps(s, a);
    case Read(_, _) => CallKeeps(s, a);
    case WriterStep => WriterSteppedKeeps(s);
    case ReaderStep => ReaderSteppedKeeps(s);
    case Data(valid, avail, b) => DataReadKeeps(s, valid, avail, b);
    case IsrStep => IsrSteppedKeeps(s);
    case Interrupt => hide Fifo, WriterInv, ReaderInv;
    case Timeout => hide Fifo, WriterInv, ReaderInv;
    case Control(ri, wi, space) => hide Fifo, WriterInv, ReaderInv;
  }

  // ---------------------------------------------------------------- runs

  ghost predicate Follows(s: Uart, t: Uart) {
    exists a :: Honest(a) && Next(s, a) == Some(t)
  }

  /** Any interleaving of the two threads, interrupts and timer, with any honest device. */
  ghost predicate Run(run: seq<Uart>) {
    run != [] && forall i :: 0 < i < |run| ==> Follows(run[i - 1], run[i])
  }

  lemma {:induction false} RunKeeps(run: seq<Uart>, i: nat)
    requires Run(run) && Inv(run[0]) && i < |run|
    ensures Inv(run[i])
    decreases i
  {
    if i > 0 {
      RunKeeps(run, i - 1);
      assert Follows(run[i - 1], run[i]);
      var a :| Honest(a) && Next(run[i - 1], a) == Some(run[i]);
      NextKeeps(run[i - 1], a);
    }
  }

  const EWOULDBLOCK := 11
  const EIO := 5

  /** What a call of write returns: the bytes put in, or -EWOULDBLOCK, or -EIO. */
  function WriteResult(c: WriteCall, done: nat): int {
    if done > 0 then done else if c.nonblock then -EWOULDBLOCK else -EIO
  }

  /** First in, first out over every run: nothing is lost, doubled or reordered on either side. */
  lemma FifoOrder(run: seq<Uart>, len: nat, i: nat)
    requires 0 < len && Run(run) && run[0] == Initial(len) && i < |run|
    ensures var tx, rx := run[i].tx, run[i].rx;
      && tx.fed == tx.drained + Contents(tx.buf, tx.out, tx.in_)
      && rx.fed == rx.drained + Contents(rx.buf, rx.out, rx.in_)
  {
    InitialInv(len);
    RunKeeps(run, i);
  }

  /** When write returns a positive number, exactly so many bytes have been put in: the first ones of the call. */
  lemma WriteReturns(run: seq<Uart>, len: nat, i: nat)
    requires 0 < len && Run(run) && run[0] == Initial(len) && i < |run| && run[i].writer.WDone?
    ensures var c := run[i].writer.wcall; var n := WriteResult(c, run[i].writer.done);
      && n <= |c.data|
      && run[i].tx.fed == c.base + if n > 0 then c.data[..n] else []
  {
    InitialInv(len);
    RunKeeps(run, i);
  }

  /** What read hands over is what left the ring during the call, at most as much as was asked for. */
  lemma ReadReturns(run: seq<Uart>, len: nat, i: nat)
    requires 0 < len && Run(run) && run[0] == Initial(len) && i < |run| && run[i].reader.RDone?
    ensures var c := run[i].reader.rcall;
      |run[i].reader.got| <= c.space && run[i].rx.drained == c.base + run[i].reader.got
  {
    InitialInv(len);
    RunKeeps(run, i);
  }

  /** No lost wake-up over every run, in terms of what the device sees. */
  lemma NoLostWakeUp(run: seq<Uart>, len: nat, i: nat)
    requires 0 < len && Run(run) && run[0] == Initial(len) && i < |run|
    ensures var s := run[i];
      && InBounds(s.rx)
      && (Contents(s.tx.buf, s.tx.out, s.tx.in_) != [] ==> s.control.we || KickPending(s.writer))
      && (!s.control.re ==> Full(s.rx) || EnablePending(s.reader))
  {
    InitialInv(len);
    RunKeeps(run, i);
    ContentsSize(run[i].tx.buf, run[i].tx.out, run[i].tx.in_);
  }

  /** The wait loops compare one index, yet they are exact: no change means still full, or still empty. */
  lemma WaitsAreExact(s: Uart)
    requires Inv(s)
    ensures s.writer.WWait? ==> (s.writer.out == s.tx.out <==> Full(s.tx))
    ensures s.reader.RWait? ==> (s.reader.seen == s.rx.in_ <==> Contents(s.rx.buf, s.rx.out, s.rx.in_) == [])
  {
    FullIsLevel(s.tx);
    ContentsSize(s.rx.buf, s.rx.out, s.rx.in_);
  }

  /** The condition on the device is needed: an answer without data that announces more switches reading off for good. */
  lemma HonestyIsNeeded(s: Uart, b: Byte)
    requires Inv(s) && s.isr.Rx? && !Full(s.rx) && !EnablePending(s.reader)
    ensures Next(s, Data(false, true, b)).Some?
    ensures Next(Next(s, Data(false, true, b)).value, IsrStep).Some?
    ensures !Awake(Next(Next(s, Data(false, true, b)).value, IsrStep).value)
  {
    hide Fifo, WriterInv, ReaderInv;
  }

  /** Such a state comes about as soon as the first read interrupt is served. */
  lemma DishonestyMatters(len: nat)
    requires 1 < len
    ensures Next(Initial(len), Interrupt).Some?
    ensures var s := Next(Initial(len), Interrupt).value;
      && Next(s, Control(true, false, 0)).Some?
      && var t := Next(s, Control(true, false, 0)).value;
        Inv(t) && t.isr.Rx? && !Full(t.rx) && !EnablePending(t.reader)
  {
    InitialInv(len);
    var s := Next(Initial(len), Interrupt).value;
    NextKeeps(Initial(len), Interrupt);
    NextKeeps(s, Control(true, false, 0));
    FullIsLevel(Initial(len).rx);
    hide Fifo, WriterInv, ReaderInv;
  }
}
