/**
 * The receive-and-rebroadcast module `SerialRXModule` (lib/serial_module.h,
 * whose members lib/serial_module.cc defines a second time with the same
 * bodies). The software serial port is two fields: `rx`, the bytes waiting
 * to be read, which the environment may extend between calls, and `tx`, the
 * bytes written so far. `millis()` is a parameter.
 */
module SerialModule {
  import opened Bytes
  import opened FrameFormat
  import opened FirmwareMessage
  import opened TimedCallbacks

  /** Where the read loop of `Tick` leaves the parser, how many bytes it read, and whether a frame completed. */
  datatype Pumped = Pumped(next: Fields, read: nat, finished: bool)

  /**
   * The read loop of `Tick` from parser state `m` over the waiting bytes
   * `rx`: the parser state it leaves, how many bytes it read, and whether it
   * stopped on a completed frame. A byte that leaves the parser in error
   * clears it, and reading goes on with the next byte.
   */
  function Pump(m: Fields, rx: seq<Byte>): (r: Pumped)
    ensures r.read <= |rx|
    ensures r.finished ==> 1 <= r.read
    ensures !r.finished ==> r.read == |rx|
    decreases |rx|
  {
    if rx == [] then Pumped(m, 0, false)
    else
      var t := Settle(m, rx[0]);
      if t.complete then Pumped(t.next, 1, true)
      else
        var rest := Pump(t.next, rx[1..]);
        Pumped(rest.next, rest.read + 1, rest.finished)
  }

  /** One pass of the read loop: feed `b`, and clear the parser if that left it in error. */
  function Settle(m: Fields, b: Byte): Stepped
  {
    var t := Step(m, b);
    if t.complete || !t.next.error then t else Stepped(Cleared(t.next), false)
  }

  /** Every fed byte leaves the parser without error. */
  predicate NoErrorAlong(m: Fields, bs: seq<Byte>)
    decreases |bs|
  {
    bs == [] || (!Step(m, bs[0]).next.error && NoErrorAlong(Step(m, bs[0]).next, bs[1..]))
  }

  /** `error_` is sticky, so a parse that ends without error never had one. */
  lemma {:induction false} NoErrorAtEnd(m: Fields, bs: seq<Byte>)
    requires !m.error && !Feed(m, bs).next.error
    ensures NoErrorAlong(m, bs)
    decreases |bs|
  {
    if bs != [] {
      var q := Step(m, bs[0]).next;
      if q.error {
        ErrorNeverCompletes(q, bs[1..]);
        assert false;
      }
      NoErrorAtEnd(q, bs[1..]);
    }
  }

  /**
   * When feeding `xs` raises no error and completes on its last byte only,
   * the read loop stops right there and leaves `ys` unread.
   */
  lemma {:induction false} PumpStopsAtCompletion(m: Fields, xs: seq<Byte>, ys: seq<Byte>)
    requires xs != [] && NoErrorAlong(m, xs)
    requires forall i :: 0 <= i < |xs| - 1 ==> !Feed(m, xs).completions[i]
    requires Feed(m, xs).completions[|xs| - 1]
    ensures Pump(m, xs + ys) == Pumped(Feed(m, xs).next, |xs|, true)
    decreases |xs|
  {
    var t := Step(m, xs[0]);
    assert (xs + ys)[0] == xs[0] && (xs + ys)[1..] == xs[1..] + ys;
    FeedCons(m, xs[0], xs[1..]);
    assert [xs[0]] + xs[1..] == xs;
    if |xs| == 1 {
      assert Feed(m, xs).completions[0] == t.complete;
    } else {
      assert !t.complete by {
        assert Feed(m, xs).completions[0] == t.complete;
      }
      forall i | 0 <= i < |xs[1..]| - 1
        ensures !Feed(t.next, xs[1..]).completions[i]
      {
        assert Feed(t.next, xs[1..]).completions[i] == Feed(m, xs).completions[i + 1];
      }
      assert Feed(t.next, xs[1..]).completions[|xs[1..]| - 1] == Feed(m, xs).completions[|xs| - 1];
      PumpStopsAtCompletion(t.next, xs[1..], ys);
    }
  }

  /**
   * The read loop over a frame from the host encoder whose NUL-terminated
   * command fits the buffer, followed by anything: it starts from a cleared
   * message, reads exactly the frame and stops with the frame decoded.
   */
  lemma PumpFrame(s: Fields, a: Byte, c: seq<Byte>, t: Byte, rest: seq<Byte>)
    requires |c| + 1 <= MAX_BUFFER_SIZE
    ensures var f := Frame(a, c, t);
      var r := Pump(Cleared(s), f + rest);
      && r.read == |f| && r.finished
      && r.next.address == a && r.next.addressLength == 1 && r.next.commandLength == |c| + 1
      && r.next.command[..|c| + 1] == c + [0] && !r.next.error
      && r.next.sums.second == f[|f| - 2] && r.next.sums.first == f[|f| - 1]
  {
    var f := Frame(a, c, t);
    RoundTrip(s, a, c, t);
    NoErrorAtEnd(Cleared(s), f);
    PumpStopsAtCompletion(Cleared(s), f, rest);
  }

  /** A byte that leaves the parser in error without completing clears it; the loop goes on. */
  lemma PumpRestartsAfterError(m: Fields, b: Byte, rest: seq<Byte>)
    requires Step(m, b).next.error && !Step(m, b).complete
    ensures var r := Pump(Cleared(Step(m, b).next), rest);
      Pump(m, [b] + rest) == Pumped(r.next, r.read + 1, r.finished)
  {
    assert ([b] + rest)[0] == b && ([b] + rest)[1..] == rest;
  }

  /** All fields of a `SerialRXModule`, with the port's two directions and the timer. */
  datatype Module = Module(
    message: Fields,
    rx: seq<Byte>,
    tx: seq<Byte>,
    clearOnNextTick: bool,
    sending: bool,
    buffer: Buffer,
    lengthSending: int,
    timer: Timer)

  /** The sending length fits the buffer, and a timer is running while a frame waits. */
  predicate Inv(s: Module)
  {
    0 <= s.lengthSending <= MAX_BUFFER_SIZE && (s.sending ==> s.timer.live)
  }

  /** `SendBytes()`: the first `length_sending_` buffer bytes go out in order. */
  function SendAll(s: Module): (r: Module)
    requires 0 <= s.lengthSending <= MAX_BUFFER_SIZE
    ensures r.tx == s.tx + s.buffer[..s.lengthSending] && !r.sending
    ensures r == s.(tx := r.tx, sending := false)
  {
    s.(tx := s.tx + s.buffer[..s.lengthSending], sending := false)
  }

  /** The module after a `Tick`, and whether it returned `&message_`. */
  datatype TickResult = TickResult(state: Module, returned: bool)

  /** One `Tick()` at time `now`. */
  function Ticked(s: Module, now: U32): TickResult
    requires Inv(s)
  {
    if s.sending then
      var u := Updated(s.timer, now);
      TickResult(if u.fired then SendAll(s).(timer := u.timer) else s, false)
    else
      var m := if s.clearOnNextTick then Cleared(s.message) else s.message;
      var p := Pump(m, s.rx);
      TickResult(s.(message := p.next, rx := s.rx[p.read..], clearOnNextTick := p.finished), p.finished)
  }

  /**
   * The outgoing frame laid out by `AcceptMessage`: address length, command
   * length, a zero timeout, the low byte of the address, the command bytes,
   * then the second and the first checksum.
   */
  function Layout(msg: Fields): (r: seq<Byte>)
    requires msg.commandLength <= MAX_BUFFER_SIZE
    ensures |r| == msg.commandLength + 6
  {
    [msg.addressLength, msg.commandLength, 0, msg.address % 256]
      + msg.command[..msg.commandLength] + [msg.sums.second, msg.sums.first]
  }

  /** The condition under which `AcceptMessage` takes the message. */
  predicate Takes(s: Module, msg: Fields)
  {
    !s.sending && msg.address != 0
  }

  /** The module after `AcceptMessage`, and whether it took the message. */
  datatype AcceptResult = AcceptResult(state: Module, accepted: bool)

  /**
   * `AcceptMessage(msg)` at time `now`. Refused, with nothing changed, while
   * a frame is waiting to go out or when the address is 0; otherwise the
   * frame is laid into the buffer and a zero-delay timer is started.
   */
  function Accept(s: Module, msg: Fields, now: U32): (r: AcceptResult)
    requires Takes(s, msg) ==> msg.commandLength + 6 <= MAX_BUFFER_SIZE
    ensures r.accepted <==> Takes(s, msg)
    ensures !r.accepted ==> r.state == s
    ensures r.accepted ==>
      && r.state.buffer[..msg.commandLength + 6] == Layout(msg)
      && r.state.buffer[msg.commandLength + 6..] == s.buffer[msg.commandLength + 6..]
      && r.state.lengthSending == msg.commandLength + 6 && r.state.sending
      && r.state.timer == Started(0, now)
      && r.state == s.(buffer := r.state.buffer, lengthSending := r.state.lengthSending,
                       sending := true, timer := r.state.timer)
  {
    if Takes(s, msg) then
      var layout := Layout(msg);
      var buffer: Buffer := layout + s.buffer[|layout|..];
      assert buffer[..|layout|] == layout && buffer[|layout|..] == s.buffer[|layout|..];
      AcceptResult(s.(buffer := buffer, lengthSending := |layout|, sending := true, timer := Started(0, now)), true)
    else AcceptResult(s, false)
  }

  /** `Tick` keeps the invariant. */
  lemma TickKeepsInv(s: Module, now: U32)
    requires Inv(s)
    ensures Inv(Ticked(s, now).state)
  {
  }

  /** `AcceptMessage` keeps the invariant. */
  lemma AcceptKeepsInv(s: Module, msg: Fields, now: U32)
    requires Inv(s) && (Takes(s, msg) ==> msg.commandLength + 6 <= MAX_BUFFER_SIZE)
    ensures Inv(Accept(s, msg, now).state)
  {
  }

  /**
   * While a frame waits to go out, `Tick` reads nothing and returns NULL;
   * it only updates the timer, and the frame goes out when the timer fires.
   */
  lemma SendingReadsNothing(s: Module, now: U32)
    requires Inv(s) && s.sending
    ensures var r := Ticked(s, now);
      && !r.returned && r.state.rx == s.rx && r.state.message == s.message
      && (Due(s.timer.start, s.timer.delay, now) ==> r.state.tx == s.tx + s.buffer[..s.lengthSending] && !r.state.sending)
      && (!Due(s.timer.start, s.timer.delay, now) ==> r.state == s)
  {
  }

  /**
   * A frame from the host encoder waiting on the port of an idle module
   * whose message is being started afresh (or was cleared), followed by any
   * bytes: `Tick` returns the message decoded from the frame, leaves the
   * following bytes unread and arranges a clear for the next `Tick`.
   */
  lemma TickReceivesFrame(s: Module, now: U32, a: Byte, c: seq<Byte>, t: Byte, rest: seq<Byte>)
    requires Inv(s) && !s.sending && |c| + 1 <= MAX_BUFFER_SIZE
    requires s.clearOnNextTick || s.message == Cleared(s.message)
    requires s.rx == Frame(a, c, t) + rest
    ensures var r := Ticked(s, now);
      && r.returned && r.state.rx == rest && r.state.clearOnNextTick
      && r.state.message.address == a && r.state.message.commandLength == |c| + 1
      && r.state.message.command[..|c| + 1] == c + [0]
      && r.state.tx == s.tx && !r.state.sending
  {
    PumpFrame(s.message, a, c, t, rest);
    var f := Frame(a, c, t);
    assert (f + rest)[|f|..] == rest;
  }

  /** After a `Tick` that returned the message, the next idle `Tick` clears it before reading. */
  lemma ClearedOnNextTick(s: Module, now: U32, later: U32)
    requires Inv(s) && Ticked(s, now).returned
    ensures var s1 := Ticked(s, now).state;
      Inv(s1) && Ticked(s1, later) == Ticked(s1.(message := Cleared(s1.message), clearOnNextTick := false), later)
  {
  }

  /**
   * Re-encoding a message decoded from a frame with timeout byte 0 and a
   * non-zero address reproduces that frame byte for byte.
   */
  lemma ReencodeReproducesFrame(s: Fields, a: Byte, c: seq<Byte>)
    requires |c| + 7 <= MAX_BUFFER_SIZE
    ensures var q := Feed(Cleared(s), Frame(a, c, 0)).next;
      q.commandLength + 6 <= MAX_BUFFER_SIZE && Layout(q) == Frame(a, c, 0)
  {
    var f := Frame(a, c, 0);
    RoundTrip(s, a, c, 0);
    var q := Feed(Cleared(s), f).next;
    FrameParts(a, c, 0);
    assert q.command[..q.commandLength] == c + [0];
  }

  /**
   * Accepted, then sent: once `AcceptMessage` takes a message, the next
   * `Tick` at a later millisecond writes exactly its layout to the port.
   */
  lemma AcceptThenSend(s: Module, msg: Fields, now: U32, later: U32)
    requires Inv(s) && Takes(s, msg) && msg.commandLength + 6 <= MAX_BUFFER_SIZE
    requires later != now
    ensures var r := Ticked(Accept(s, msg, now).state, later).state;
      r.tx == s.tx + Layout(msg) && !r.sending && !r.timer.live
  {
    var a := Accept(s, msg, now).state;
    assert Elapsed(now, later) > 0;
    assert a.buffer[..a.lengthSending] == Layout(msg);
  }

  /** The module object. */
  class SerialRXModule {
    const address: int
    const message: Message
    var rx: seq<Byte>
    var tx: seq<Byte>
    var clearOnNextTick: bool
    var sending: bool
    const bytesSending: array<Byte>
    var lengthSending: int
    var timedCallback: TimedCallback?

    ghost predicate Valid()
      reads this, timedCallback
    {
      && message.Valid() && bytesSending.Length == MAX_BUFFER_SIZE && bytesSending != message.command
      && 0 <= lengthSending <= MAX_BUFFER_SIZE
      && (sending ==> timedCallback != null && timedCallback.live)
    }

    /** The timer's fields; a module that never started one has a dead timer. */
    function TimerState(): Timer
      reads this, timedCallback
    {
      if timedCallback == null then Timer(0, 0, false) else timedCallback.State()
    }

    function State(): Module
      requires Valid()
      reads this, message, message.command, bytesSending, timedCallback
    {
      Module(message.State(), rx, tx, clearOnNextTick, sending, bytesSending[..], lengthSending, TimerState())
    }

    /** `SerialRXModule(software_serial, address)`: idle, with nothing waiting on the port. */
    constructor (address: int)
      ensures Valid() && fresh(message) && fresh(message.command) && fresh(bytesSending)
      ensures State() == Module(Empty, [], [], false, false, Zeros(), 0, Timer(0, 0, false))
    {
      this.address := address;
      message := new Message();
      bytesSending := new Byte[MAX_BUFFER_SIZE](_ => 0);
      rx, tx := [], [];
      clearOnNextTick, sending, lengthSending := false, false, 0;
      timedCallback := null;
      new;
      assert bytesSending[..] == Zeros();
    }

    /** `Tick()`: null, or this module's own message when a frame completed. */
    method Tick(now: U32) returns (result: Message?)
      requires Valid()
      modifies this, message, message.command, timedCallback
      ensures Valid() && State() == Ticked(old(State()), now).state
      ensures (result != null) == Ticked(old(State()), now).returned
      ensures result != null ==> result == message
    {
      if sending {
        var fired := timedCallback.Update(now);
        if fired {
          SendBytes();
        }
        return null;
      }
      if clearOnNextTick {
        clearOnNextTick := false;
        message.Clear();
      }
      var finished := ReadUntilComplete();
      if finished {
        clearOnNextTick := true;
        return message;
      }
      return null;
    }

    /**
     * The `while (available())` loop of `Tick`: feed waiting bytes until a
     * frame completes, clearing the message after each error.
     */
    method ReadUntilComplete() returns (finished: bool)
      requires Valid() && !sending
      modifies this, message, message.command
      ensures Valid() && !sending && finished == Pump(old(message.State()), old(rx)).finished
      ensures message.State() == Pump(old(message.State()), old(rx)).next
      ensures rx == old(rx)[Pump(old(message.State()), old(rx)).read..]
      ensures tx == old(tx) && lengthSending == old(lengthSending) && timedCallback == old(timedCallback)
      ensures clearOnNextTick == old(clearOnNextTick)
    {
      ghost var start, rx0 := message.State(), rx;
      finished := false;
      while rx != []
        invariant Valid() && !sending && clearOnNextTick == old(clearOnNextTick)
        invariant tx == old(tx) && lengthSending == old(lengthSending) && timedCallback == old(timedCallback)
        invariant |rx| <= |rx0| && rx == rx0[|rx0| - |rx|..]
        invariant Pump(message.State(), rx).next == Pump(start, rx0).next
        invariant Pump(message.State(), rx).finished == Pump(start, rx0).finished
        invariant |rx0| - |rx| + Pump(message.State(), rx).read == Pump(start, rx0).read
        decreases |rx|
      {
        var b := rx[0];
        rx := rx[1..];
        finished := Absorb(b);
        if finished {
          return;
        }
      }
    }

    /** The body of the read loop of `Tick`: feed `b` and clear the message after an error. */
    method Absorb(b: Byte) returns (finished: bool)
      requires message.Valid()
      modifies message, message.command
      ensures message.Valid() && Stepped(message.State(), finished) == Settle(old(message.State()), b)
    {
      finished := message.AddByte(b);
      if !finished && message.Error() {
        message.Clear();
      }
    }

    /** `AcceptMessage(msg)` at time `now`; true when the frame was taken for sending. */
    method AcceptMessage(msg: Message, now: U32) returns (accepted: bool)
      requires Valid() && msg.Valid() && msg.command != bytesSending
      requires !sending && msg.address != 0 ==> msg.commandLength + 6 <= MAX_BUFFER_SIZE
      modifies this, bytesSending
      ensures Valid() && AcceptResult(State(), accepted) == Accept(old(State()), msg.State(), now)
    {
      if !sending {
        if msg.address != 0 {
          ghost var before := bytesSending[..];
          LayOut(msg);
          ghost var n := msg.commandLength + 6;
          assert bytesSending[..] == bytesSending[..n] + bytesSending[n..];
          assert before[n..] == old(bytesSending[n..]);
          lengthSending := msg.commandLength + 4 + 2;
          sending := true;
          timedCallback := new TimedCallback(0, now);
          return true;
        }
      }
      return false;
    }

    /** The buffer-filling part of `AcceptMessage`: header, command bytes, then the two sums. */
    method LayOut(msg: Message)
      requires msg.Valid() && bytesSending.Length == MAX_BUFFER_SIZE && msg.command != bytesSending
      requires msg.commandLength + 6 <= MAX_BUFFER_SIZE
      modifies bytesSending
      ensures bytesSending[..msg.commandLength + 6] == Layout(msg.State())
      ensures bytesSending[msg.commandLength + 6..] == old(bytesSending[msg.commandLength + 6..])
    {
      var length := msg.commandLength;
      bytesSending[0] := msg.addressLength;
      bytesSending[1] := length;
      bytesSending[2] := 0;
      bytesSending[3] := msg.address % 256;
      for i := 0 to length
        invariant bytesSending[0] == msg.addressLength && bytesSending[1] == length
        invariant bytesSending[2] == 0 && bytesSending[3] == msg.address % 256
        invariant forall j :: 0 <= j < i ==> bytesSending[4 + j] == msg.command[j]
        invariant forall j :: 4 + length <= j < MAX_BUFFER_SIZE ==> bytesSending[j] == old(bytesSending[j])
      {
        bytesSending[4 + i] := msg.command[i];
      }
      bytesSending[length + 4] := msg.secondChecksum;
      bytesSending[length + 4 + 1] := msg.firstChecksum;
      ghost var layout := Layout(msg.State());
      forall j | 0 <= j < length + 6
        ensures bytesSending[j] == layout[j]
      {
        if 4 <= j < 4 + length {
          assert layout[j] == msg.State().command[..length][j - 4];
        }
      }
    }

    /** `SendBytes()`: write the waiting frame, then stop sending. */
    method SendBytes()
      requires bytesSending.Length == MAX_BUFFER_SIZE && 0 <= lengthSending <= MAX_BUFFER_SIZE
      modifies this
      ensures lengthSending == old(lengthSending) && tx == old(tx) + bytesSending[..lengthSending]
      ensures !sending && rx == old(rx) && clearOnNextTick == old(clearOnNextTick)
      ensures timedCallback == old(timedCallback)
    {
      var written := tx;
      for i := 0 to lengthSending
        invariant written == tx + bytesSending[..i]
      {
        written := written + [bytesSending[i]];
        assert bytesSending[..i + 1] == bytesSending[..i] + [bytesSending[i]];
      }
      tx := written;
      sending := false;
    }
  }
}
