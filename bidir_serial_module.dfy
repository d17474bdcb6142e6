/**
 * The bidirectional handshake module `BidirSerialRXModule`
 * (lib/bidir_serial_module.h). Each `Tick` reads a status byte from the
 * peer, runs the receive state machine (possibly feeding one message byte
 * to the parser), then runs the transmit state machine, which writes a
 * status byte and possibly one byte of the outgoing frame. The serial port
 * is `rx` (bytes waiting) and `tx` (bytes written). The byte the parser
 * receives is a parameter of `Tick`, because the source feeds it a fresh
 * `Serial.read()` rather than the byte it has just read.
 */
module BidirSerialModule {
  import opened Bytes
  import opened FirmwareMessage

  const READY_AND_SENDING: Byte := 0x52
  const READY_AND_DONE: Byte := 0x53
  const SENT_LAST: Byte := 0x54
  const ERROR: Byte := 0x45

  /** What `ReadFlushingErrors` returns, the byte it outputs, and how many bytes it read. */
  datatype Flushing = Flushing(found: bool, output: Byte, read: nat)

  /** The loop of `ReadFlushingErrors` from the given point on. */
  function Flush(rx: seq<Byte>, readSomething: bool, output: Byte): (r: Flushing)
    ensures r.found <==> readSomething || rx != []
    ensures r.read <= |rx| && (rx != [] ==> 1 <= r.read)
    decreases |rx|
  {
    if rx == [] then Flushing(readSomething, output, 0)
    else if rx[0] != ERROR then Flushing(true, rx[0], 1)
    else
      var r := Flush(rx[1..], true, ERROR);
      Flushing(r.found, r.output, r.read + 1)
  }

  /** `ReadFlushingErrors(&output)` with `output` initially 0x00. */
  function Flushed(rx: seq<Byte>): Flushing
  {
    Flush(rx, false, 0)
  }

  /**
   * What `ReadFlushingErrors` promises: false exactly when nothing is
   * waiting; otherwise it reads up to and including the first non-ERROR byte
   * and outputs it, or reads everything and outputs ERROR when every waiting
   * byte is ERROR.
   */
  lemma {:induction false} FlushedMeaning(rx: seq<Byte>)
    ensures var r := Flushed(rx);
      && (r.found <==> rx != [])
      && (rx == [] ==> r.read == 0)
      && (rx != [] ==> 1 <= r.read <= |rx| && r.output == rx[r.read - 1])
      && (forall i :: 0 <= i < r.read - 1 ==> rx[i] == ERROR)
      && (rx != [] ==> (r.output == ERROR <==> (forall i :: 0 <= i < |rx| ==> rx[i] == ERROR)))
      && (rx != [] && r.output == ERROR ==> r.read == |rx|)
    decreases |rx|
  {
    if rx != [] && rx[0] == ERROR {
      FlushTail(rx[1..]);
      if rx[1..] != [] {
        FlushedMeaning(rx[1..]);
        assert Flush(rx, false, 0).read == Flushed(rx[1..]).read + 1;
        forall i | 0 <= i < Flushed(rx).read - 1
          ensures rx[i] == ERROR
        {
          if i > 0 {
            assert rx[i] == rx[1..][i - 1];
          }
        }
        if forall i :: 0 <= i < |rx[1..]| ==> rx[1..][i] == ERROR {
          forall i | 0 <= i < |rx|
            ensures rx[i] == ERROR
          {
            if i > 0 {
              assert rx[i] == rx[1..][i - 1];
            }
          }
        }
      }
    }
  }

  /** After an initial ERROR the loop goes on as from scratch, except for what an empty rest outputs. */
  lemma FlushTail(rest: seq<Byte>)
    ensures rest != [] ==> Flush(rest, true, ERROR) == Flushed(rest)
    ensures rest == [] ==> Flush(rest, true, ERROR) == Flushing(true, ERROR, 0)
  {
  }

  /** What `ReadWithTimeout` returns, and the byte it outputs. */
  datatype Drain = Drain(ok: bool, output: Byte)

  /**
   * The drain part of `ReadWithTimeout(&output)` with `output` initially
   * 0x00: everything waiting is read, the output is the last byte read, and
   * the result is true exactly when one byte was read.
   */
  function Drained(rx: seq<Byte>): (r: Drain)
    ensures r.ok <==> |rx| == 1
    ensures rx != [] ==> r.output == rx[|rx| - 1]
  {
    Drain(|rx| == 1, if rx == [] then 0 else rx[|rx| - 1])
  }

  /** All fields of a `BidirSerialRXModule`, with the port's two directions. */
  datatype Bidir = Bidir(
    address: int,
    transmitState: Byte,
    receiveState: Byte,
    message: Fields,
    buffer: Buffer,
    nextSendIndex: int,
    lengthSending: int,
    rx: seq<Byte>,
    tx: seq<Byte>)

  predicate IsStatus(x: Byte)
  {
    x == READY_AND_SENDING || x == READY_AND_DONE || x == SENT_LAST
  }

  /**
   * Both machines are in one of the three states; a transmit in progress
   * has a non-empty frame, and the send index never passes its length.
   */
  predicate Inv(s: Bidir)
  {
    && IsStatus(s.transmitState) && IsStatus(s.receiveState)
    && 0 <= s.nextSendIndex <= s.lengthSending <= MAX_BUFFER_SIZE
    && (s.transmitState != READY_AND_DONE ==> 1 <= s.lengthSending)
    && (s.transmitState == READY_AND_SENDING ==> s.nextSendIndex < s.lengthSending)
  }

  /**
   * `ResetRX()`: the receive machine returns to READY_AND_DONE with a
   * cleared message, and any transmit in progress restarts from byte 0.
   */
  function RXReset(s: Bidir): (r: Bidir)
    ensures r.nextSendIndex == 0 && r.message == Cleared(s.message) && r.receiveState == READY_AND_DONE
    ensures r.transmitState == if s.transmitState != READY_AND_DONE then READY_AND_SENDING else READY_AND_DONE
    ensures r.tx == s.tx && r.rx == s.rx && r.buffer == s.buffer && r.lengthSending == s.lengthSending
  {
    var q := s.(nextSendIndex := 0, message := Cleared(s.message), receiveState := READY_AND_DONE);
    if s.transmitState != READY_AND_DONE then q.(transmitState := READY_AND_SENDING, nextSendIndex := 0) else q
  }

  /** `SendError()`: one ERROR byte is written, then `ResetRX()`. */
  function ErrorSent(s: Bidir): (r: Bidir)
    ensures r == RXReset(s).(tx := s.tx + [ERROR])
  {
    RXReset(s.(tx := s.tx + [ERROR]))
  }

  /** The transmit half of `Tick`. */
  function Transmitted(s: Bidir): Bidir
    requires Inv(s)
  {
    if s.transmitState == SENT_LAST then s.(transmitState := READY_AND_DONE, tx := s.tx + [READY_AND_DONE])
    else if s.transmitState == READY_AND_DONE then s.(tx := s.tx + [READY_AND_DONE])
    else
      var q := s.(tx := s.tx + [READY_AND_SENDING, s.buffer[s.nextSendIndex]], nextSendIndex := s.nextSendIndex + 1);
      if q.nextSendIndex == q.lengthSending then q.(transmitState := SENT_LAST) else q
  }

  /**
   * The module after the receive half of `Tick`, whether `Tick` goes on to
   * the transmit half, and whether the message completed.
   */
  datatype Received = Received(state: Bidir, proceed: bool, finished: bool)

  /**
   * The receive half of `Tick` on status byte `x` (not ERROR) with `fed` the
   * byte given to the parser.
   */
  function Receive(s: Bidir, x: Byte, fed: Byte): Received
  {
    if (s.receiveState == READY_AND_SENDING || s.receiveState == READY_AND_DONE) && x == READY_AND_SENDING then
      if !Drained(s.rx).ok then Received(ErrorSent(s.(rx := [])), false, false)
      else
        var t := Step(s.message, fed);
        Received(s.(rx := [], message := t.next, receiveState := if t.complete then SENT_LAST else READY_AND_SENDING), true, t.complete)
    else if s.receiveState == SENT_LAST && x != READY_AND_SENDING then
      Received(s.(receiveState := READY_AND_DONE, message := Cleared(s.message)), true, false)
    else Received(ErrorSent(s), false, false)
  }

  /** The module after a `Tick`, and whether it returned the message. */
  datatype TickResult = TickResult(state: Bidir, returned: bool)

  /**
   * One `Tick()`. With nothing waiting it does nothing (the timeout branch
   * is not modelled).
   */
  function Ticked(s: Bidir, fed: Byte): TickResult
    requires Inv(s)
  {
    var f := Flushed(s.rx);
    if !f.found then TickResult(s, false)
    else
      var s1 := s.(rx := s.rx[f.read..]);
      if f.output == ERROR then TickResult(Transmitted(RXReset(s1)), false)
      else
        var r := Receive(s1, f.output, fed);
        if r.proceed then TickResult(Transmitted(r.state), r.finished) else TickResult(r.state, false)
  }

  lemma ResetRXKeepsInv(s: Bidir)
    requires Inv(s)
    ensures Inv(RXReset(s)) && Inv(ErrorSent(s))
  {
  }

  lemma TransmitKeepsInv(s: Bidir)
    requires Inv(s)
    ensures Inv(Transmitted(s))
  {
  }

  /** `Tick` keeps the invariant; in particular the send index never exceeds `length_sending_`. */
  lemma TickKeepsInv(s: Bidir, fed: Byte)
    requires Inv(s)
    ensures Inv(Ticked(s, fed).state)
  {
    var f := Flushed(s.rx);
    if f.found {
      var s1 := s.(rx := s.rx[f.read..]);
      ResetRXKeepsInv(s1);
      if f.output != ERROR {
        var r := Receive(s1, f.output, fed);
        ResetRXKeepsInv(s1.(rx := []));
        if r.proceed {
          TransmitKeepsInv(r.state);
        }
      }
    }
  }

  /**
   * What one `Tick` writes: nothing, a lone ERROR (every `SendError` path
   * returns before the transmit half), READY_AND_DONE, or
   * READY_AND_SENDING followed by the next frame byte.
   */
  lemma TickOutput(s: Bidir, fed: Byte)
    requires Inv(s)
    ensures |s.tx| <= |Ticked(s, fed).state.tx| && Ticked(s, fed).state.tx[..|s.tx|] == s.tx
    ensures var out := Ticked(s, fed).state.tx[|s.tx|..];
      || out == [] || out == [ERROR] || out == [READY_AND_DONE]
      || (exists k :: 0 <= k < s.lengthSending && out == [READY_AND_SENDING, s.buffer[k]])
  {
    var f := Flushed(s.rx);
    if f.found {
      var s1 := s.(rx := s.rx[f.read..]);
      var before: Bidir;
      if f.output == ERROR {
        before := RXReset(s1);
      } else {
        var r := Receive(s1, f.output, fed);
        ResetRXKeepsInv(s1.(rx := []));
        if !r.proceed {
          assert Ticked(s, fed).state.tx[|s.tx|..] == [ERROR];
          return;
        }
        before := r.state;
      }
      assert before.tx == s.tx && Inv(before) && before.buffer == s.buffer;
      assert Ticked(s, fed).state == Transmitted(before);
      if before.transmitState == READY_AND_SENDING {
        var k := before.nextSendIndex;
        assert Ticked(s, fed).state.tx[|s.tx|..] == [READY_AND_SENDING, s.buffer[k]];
      } else {
        assert Ticked(s, fed).state.tx[|s.tx|..] == [READY_AND_DONE];
      }
    }
  }

  /** An incoming ERROR only resets the receiver: no ERROR is sent back, and the transmit half runs. */
  lemma IncomingErrorResets(s: Bidir, fed: Byte)
    requires Inv(s) && s.rx != [] && forall i :: 0 <= i < |s.rx| ==> s.rx[i] == ERROR
    ensures Ticked(s, fed) == TickResult(Transmitted(RXReset(s.(rx := []))), false)
  {
    FlushedMeaning(s.rx);
  }

  /**
   * The receive transitions on a status byte `x` other than ERROR:
   * READY_AND_SENDING and READY_AND_DONE accept only READY_AND_SENDING and
   * then feed one byte, moving to SENT_LAST exactly when the message
   * completed; SENT_LAST accepts anything but READY_AND_SENDING and returns
   * to READY_AND_DONE with a cleared message; anything else sends an error.
   */
  lemma ReceiveTransitions(s: Bidir, x: Byte, fed: Byte)
    requires x != ERROR && IsStatus(s.receiveState) && |s.rx| == 1
    ensures var r := Receive(s, x, fed);
      && ((s.receiveState != SENT_LAST && x == READY_AND_SENDING) ==>
            r.proceed && r.state.message == Step(s.message, fed).next && r.finished == Step(s.message, fed).complete
            && r.state.receiveState == (if r.finished then SENT_LAST else READY_AND_SENDING))
      && ((s.receiveState == SENT_LAST && x != READY_AND_SENDING) ==>
            r.proceed && !r.finished && r.state.receiveState == READY_AND_DONE && r.state.message == Cleared(s.message))
      && ((s.receiveState != SENT_LAST) != (x == READY_AND_SENDING) ==>
            !r.proceed && r.state == ErrorSent(s))
  {
  }

  /** The waiting data after the status byte must be exactly one byte, or an error is sent. */
  lemma PayloadByteMustBeAlone(s: Bidir, fed: Byte)
    requires s.receiveState != SENT_LAST && IsStatus(s.receiveState) && |s.rx| != 1
    ensures Receive(s, READY_AND_SENDING, fed) == Received(ErrorSent(s.(rx := [])), false, false)
  {
  }

  /** The frame `AcceptMessage` lays out: header and command, without checksums. */
  function Layout(msg: Fields): (r: seq<Byte>)
    requires msg.commandLength <= MAX_BUFFER_SIZE
    ensures |r| == msg.commandLength + 4
  {
    [msg.addressLength, msg.commandLength, 0, msg.address % 256] + msg.command[..msg.commandLength]
  }

  /** The frame is laid into the buffer and transmission starts at byte 0. */
  function Load(s: Bidir, msg: Fields): (r: Bidir)
    requires msg.commandLength + 4 <= MAX_BUFFER_SIZE
    ensures r.buffer[..msg.commandLength + 4] == Layout(msg)
    ensures r.buffer[msg.commandLength + 4..] == s.buffer[msg.commandLength + 4..]
  {
    var layout := Layout(msg);
    var buffer: Buffer := layout + s.buffer[|layout|..];
    assert buffer[..|layout|] == layout && buffer[|layout|..] == s.buffer[|layout|..];
    s.(transmitState := READY_AND_SENDING, nextSendIndex := 0, buffer := buffer, lengthSending := |layout|)
  }

  /** `AcceptMessage` would lay out a frame: the transmitter is idle and the address is not local. */
  predicate Takes(s: Bidir, msg: Fields)
  {
    s.transmitState == READY_AND_DONE && msg.address != s.address
  }

  /** The module after `AcceptMessage`, and whether it took the message. */
  datatype AcceptResult = AcceptResult(state: Bidir, accepted: bool)

  /**
   * `AcceptMessage(msg)` as the source writes it: the transmitter enters
   * READY_AND_SENDING at index 0 before the local-address check, so a local
   * message is refused but leaves the transmitter sending.
   */
  function AcceptAsWritten(s: Bidir, msg: Fields): AcceptResult
    requires Takes(s, msg) ==> msg.commandLength + 4 <= MAX_BUFFER_SIZE
  {
    if s.transmitState != READY_AND_DONE then AcceptResult(s, false)
    else
      var q := s.(transmitState := READY_AND_SENDING, nextSendIndex := 0);
      if msg.address == s.address then AcceptResult(q, false)
      else AcceptResult(Load(q, msg), true)
  }

  /**
   * `AcceptMessage(msg)` corrected: refused, with nothing changed, while a
   * transmit is in progress or when the message is for this module;
   * otherwise the frame is laid out and transmission starts.
   */
  function Accept(s: Bidir, msg: Fields): (r: AcceptResult)
    requires Takes(s, msg) ==> msg.commandLength + 4 <= MAX_BUFFER_SIZE
    ensures r.accepted <==> Takes(s, msg)
    ensures !r.accepted ==> r.state == s
    ensures r.accepted ==>
      && r.state.transmitState == READY_AND_SENDING && r.state.nextSendIndex == 0
      && r.state.lengthSending == msg.commandLength + 4
      && r.state.buffer[..msg.commandLength + 4] == Layout(msg)
  {
    if Takes(s, msg) then AcceptResult(Load(s, msg), true) else AcceptResult(s, false)
  }

  /** The corrected `AcceptMessage` agrees with the source on every message that is not local. */
  lemma AcceptAgreesUnlessLocal(s: Bidir, msg: Fields)
    requires Takes(s, msg) ==> msg.commandLength + 4 <= MAX_BUFFER_SIZE
    requires msg.address != s.address
    ensures Accept(s, msg) == AcceptAsWritten(s, msg)
  {
  }

  lemma AcceptKeepsInv(s: Bidir, msg: Fields)
    requires Inv(s) && (Takes(s, msg) ==> msg.commandLength + 4 <= MAX_BUFFER_SIZE)
    ensures Inv(Accept(s, msg).state)
  {
  }

  /**
   * As written, refusing a local message still starts a transmission: from a
   * module with send length 0 (the model's starting value), it leaves the
   * transmitter sending with index 0 and length 0, which breaks the
   * invariant, so what the next `Tick` does is outside the model. Had the
   * refusal changed nothing, as the corrected `Accept` ensures, the next
   * `Tick` on a READY_AND_DONE peer byte would write READY_AND_DONE only.
   */
  lemma LocalMessageStillSent(s: Bidir, msg: Fields, ack: Byte)
    requires Inv(s) && s.transmitState == READY_AND_DONE && s.lengthSending == 0
    requires s.receiveState == SENT_LAST && msg.address == s.address
    requires s.rx == [READY_AND_DONE]
    ensures var r := AcceptAsWritten(s, msg);
      && !r.accepted && !Inv(r.state) && r.state.transmitState == READY_AND_SENDING
      && Ticked(s, ack).state.tx == s.tx + [READY_AND_DONE]
      && Accept(s, msg).state == s
  {
  }

  /**
   * The same stray write with a valid transmit length: after a frame `m1`
   * has gone out, refusing a local message makes the next `Tick` restart the
   * transmission of `m1`'s stale bytes.
   */
  lemma LocalMessageResendsStaleFrame(s: Bidir, msg: Fields)
    requires Inv(s) && s.transmitState == READY_AND_DONE && s.lengthSending >= 1
    requires s.receiveState == SENT_LAST && msg.address == s.address
    requires s.rx == [READY_AND_DONE]
    ensures var q := AcceptAsWritten(s, msg).state;
      && Inv(q) && !AcceptAsWritten(s, msg).accepted
      && Ticked(q, 0).state.tx == s.tx + [READY_AND_SENDING, s.buffer[0]]
      && Ticked(Accept(s, msg).state, 0).state.tx == s.tx + [READY_AND_DONE]
  {
  }

  /** The module object. */
  class BidirSerialRXModule {
    const address: int
    var transmitState: Byte
    var receiveState: Byte
    const incomingMessage: Message
    const bytesSending: array<Byte>
    var nextSendIndex: int
    var lengthSending: int
    var rx: seq<Byte>
    var tx: seq<Byte>

    ghost predicate Valid()
      reads this
    {
      incomingMessage.Valid() && bytesSending.Length == MAX_BUFFER_SIZE
      && bytesSending != incomingMessage.command
    }

    function State(): Bidir
      requires Valid()
      reads this, incomingMessage, incomingMessage.command, bytesSending
    {
      Bidir(address, transmitState, receiveState, incomingMessage.State(), bytesSending[..],
            nextSendIndex, lengthSending, rx, tx)
    }

    /** `BidirSerialRXModule(address, send_only)`: both machines READY_AND_DONE. */
    constructor (address: int, sendOnly: bool)
      ensures Valid() && fresh(incomingMessage) && fresh(incomingMessage.command) && fresh(bytesSending)
      ensures State() == Bidir(address, READY_AND_DONE, READY_AND_DONE, Empty, Zeros(), 0, 0, [], [])
      ensures Inv(State())
    {
      this.address := address;
      transmitState, receiveState := READY_AND_DONE, READY_AND_DONE;
      incomingMessage := new Message();
      bytesSending := new Byte[MAX_BUFFER_SIZE](_ => 0);
      nextSendIndex, lengthSending := 0, 0;
      rx, tx := [], [];
      new;
      assert bytesSending[..] == Zeros();
    }

    /** `Tick()` with `fed` the byte the parser receives. */
    method Tick(fed: Byte) returns (result: Message?)
      requires Valid() && Inv(State())
      modifies this, incomingMessage, incomingMessage.command
      ensures Valid() && State() == Ticked(old(State()), fed).state
      ensures (result != null) == Ticked(old(State()), fed).returned
      ensures result != null ==> result == incomingMessage
    {
      var found, status := ReadFlushingErrors();
      if !found {
        return null;
      }
      if status == ERROR {
        ResetRX();
        Transmit();
        return null;
      }
      var proceed, finished := ReceiveHalf(status, fed);
      if !proceed {
        return null;
      }
      Transmit();
      return if finished then incomingMessage else null;
    }

    /** The `switch (receive_state_)` of `Tick`; false when it sent an error and returned. */
    method ReceiveHalf(status: Byte, fed: Byte) returns (proceed: bool, finished: bool)
      requires Valid()
      modifies this, incomingMessage, incomingMessage.command
      ensures Valid() && Received(State(), proceed, finished) == Receive(old(State()), status, fed)
    {
      finished := false;
      if (receiveState == READY_AND_SENDING || receiveState == READY_AND_DONE) && status == READY_AND_SENDING {
        var ok, nextByte := ReadWithTimeout();
        if !ok {
          SendError();
          return false, false;
        }
        finished := incomingMessage.AddByte(fed);
        receiveState := if finished then SENT_LAST else READY_AND_SENDING;
      } else if receiveState == SENT_LAST && status != READY_AND_SENDING {
        receiveState := READY_AND_DONE;
        incomingMessage.Clear();
      } else {
        SendError();
        return false, false;
      }
      return true, finished;
    }

    /** The `switch (transmit_state_)` of `Tick`. */
    method Transmit()
      requires Valid() && Inv(State())
      modifies this
      ensures Valid() && State() == Transmitted(old(State()))
    {
      if transmitState == SENT_LAST {
        transmitState := READY_AND_DONE;
        tx := tx + [transmitState];
      } else if transmitState == READY_AND_DONE {
        tx := tx + [transmitState];
      } else {
        tx := tx + [transmitState];
        tx := tx + [bytesSending[nextSendIndex]];
        nextSendIndex := nextSendIndex + 1;
        if nextSendIndex == lengthSending {
          transmitState := SENT_LAST;
        }
      }
    }

    /** `ReadFlushingErrors(&output)`. */
    method ReadFlushingErrors() returns (found: bool, output: Byte)
      requires Valid()
      modifies this
      ensures Valid() && |rx| <= |old(rx)| && Flushing(found, output, |old(rx)| - |rx|) == Flushed(old(rx))
      ensures State() == old(State()).(rx := old(rx)[|old(rx)| - |rx|..])
    {
      found, output := false, 0;
      var rest := rx;
      while rest != []
        invariant |rest| <= |rx| && rest == rx[|rx| - |rest|..]
        invariant var r := Flush(rest, found, output); Flushing(r.found, r.output, |rx| - |rest| + r.read) == Flushed(rx)
        decreases |rest|
      {
        found := true;
        output := rest[0];
        rest := rest[1..];
        if output != ERROR {
          break;
        }
      }
      rx := rest;
    }

    /** The drain part of `ReadWithTimeout(&output)`; the wait for a first byte is not modelled. */
    method ReadWithTimeout() returns (ok: bool, output: Byte)
      requires Valid()
      modifies this
      ensures Valid() && Drain(ok, output) == Drained(old(rx)) && State() == old(State()).(rx := [])
    {
      output := 0;
      var bytesRead := 0;
      var rest := rx;
      while rest != []
        invariant |rest| <= |rx| && rest == rx[|rx| - |rest|..] && bytesRead == |rx| - |rest|
        invariant output == if bytesRead == 0 then 0 else rx[bytesRead - 1]
        decreases |rest|
      {
        bytesRead := bytesRead + 1;
        output := rest[0];
        rest := rest[1..];
      }
      rx := rest;
      ok := bytesRead == 1;
    }

    /** `SendError()`. */
    method SendError()
      requires Valid()
      modifies this, incomingMessage
      ensures Valid() && State() == ErrorSent(old(State()))
    {
      tx := tx + [ERROR];
      ResetRX();
    }

    /** `ResetRX()`. */
    method ResetRX()
      requires Valid()
      modifies this, incomingMessage
      ensures Valid() && State() == RXReset(old(State()))
    {
      nextSendIndex := 0;
      incomingMessage.Clear();
      receiveState := READY_AND_DONE;
      if transmitState != READY_AND_DONE {
        transmitState := READY_AND_SENDING;
        nextSendIndex := 0;
      }
    }

    /** `AcceptMessage(msg)`, corrected so that a local message changes nothing. */
    method AcceptMessage(msg: Message) returns (accepted: bool)
      requires Valid() && msg.Valid() && msg.command != bytesSending
      requires Takes(State(), msg.State()) ==> msg.commandLength + 4 <= MAX_BUFFER_SIZE
      modifies this, bytesSending
      ensures Valid() && AcceptResult(State(), accepted) == Accept(old(State()), msg.State())
    {
      if transmitState != READY_AND_DONE {
        return false;
      }
      if msg.address == address {
        return false;
      }
      transmitState := READY_AND_SENDING;
      nextSendIndex := 0;
      LayOut(msg);
      lengthSending := msg.commandLength + 4;
      assert bytesSending[..] == bytesSending[..lengthSending] + bytesSending[lengthSending..];
      return true;
    }

    /** The copy loop of `AcceptMessage`: header and command go to the front of the buffer. */
    method LayOut(msg: Message)
      requires msg.Valid() && bytesSending.Length == MAX_BUFFER_SIZE && msg.command != bytesSending
      requires msg.commandLength + 4 <= MAX_BUFFER_SIZE
      modifies bytesSending
      ensures bytesSending[..msg.commandLength + 4] == Layout(msg.State())
      ensures bytesSending[msg.commandLength + 4..] == old(bytesSending[msg.commandLength + 4..])
    {
      var length := msg.commandLength;
      bytesSending[0] := msg.addressLength;
      bytesSending[1] := length;
      bytesSending[2] := 0;
      bytesSending[3] := msg.address % 256;
      for i := 0 to length
        invariant bytesSending[0] == msg.addressLength && bytesSending[1] == length
        invariant bytesSending[2] == 0 && bytesSending[3] == msg.address % 256
        invariant forall j :: 0 <= j < i ==> bytesSending[4 + j] == msg.command[j]
        invariant forall j :: 4 + length <= j < MAX_BUFFER_SIZE ==> bytesSending[j] == old(bytesSending[j])
      {
        bytesSending[4 + i] := msg.command[i];
      }
      ghost var layout := Layout(msg.State());
      forall j | 0 <= j < length + 4
        ensures bytesSending[j] == layout[j]
      {
        if 4 <= j {
          assert layout[j] == msg.State().command[..length][j - 4];
        }
      }
    }
  }
}
