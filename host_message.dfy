/**
 * The host's incremental frame parser (class `Message` of serial_control.py).
 * `Step` is one call of `AddByte` on the parser's state; the class `Message`
 * keeps that state in fields and its `AddByte` is proved to perform `Step`.
 */
module HostMessage {
  import opened Bytes
  import opened FrameFormat

  /** All fields of a host `Message`. */
  datatype Parser = Parser(
    addressLength: nat,
    commandLength: int,
    timeout: Byte,
    address: nat,
    command: seq<Byte>,
    hasAddressLength: bool,
    hasCommandLength: bool,
    hasTimeout: bool,
    byteIndex: nat,
    sums: Sums,
    error: bool,
    expectedLength: int)

  /** A new `Message(expected_length)`; -1 means no expected length. */
  function Fresh(expectedLength: int): Parser
  {
    Parser(0, 0, 0, 0, [], false, false, false, 0, NoSums, false, expectedLength)
  }

  /** The three header bytes have been read. */
  predicate HeaderDone(p: Parser)
  {
    p.hasAddressLength && p.hasCommandLength && p.hasTimeout
  }

  /** Past the header and the address bytes. */
  predicate PastAddress(p: Parser)
  {
    HeaderDone(p) && p.byteIndex >= p.addressLength
  }

  /** Fold a byte into the running sums. */
  function Fold(p: Parser, b: Byte): Parser
  {
    p.(sums := Add(p.sums, b))
  }

  /** The state after one call of `AddByte`, and whether it returned True (frame complete). */
  datatype Stepped = Stepped(next: Parser, complete: bool)

  /** One call of `AddByte(b)` with `no_checksums` set to `noChecksums`. */
  function Step(p: Parser, b: Byte, noChecksums: bool): Stepped
  {
    if !p.hasAddressLength then Stepped(TakeAddressLength(p, b), false)
    else if !p.hasCommandLength then Stepped(TakeCommandLength(p, b), false)
    else if !p.hasTimeout then Stepped(Fold(p.(timeout := b, hasTimeout := true), b), false)
    else if p.byteIndex < p.addressLength then
      Stepped(Fold(p.(address := Or(p.address, Shifted(b, p.byteIndex)), byteIndex := p.byteIndex + 1), b), false)
    else if p.byteIndex - p.addressLength < p.commandLength then TakeCommandByte(p, b, noChecksums)
    else if p.byteIndex - p.addressLength == p.commandLength then
      Stepped(p.(byteIndex := p.byteIndex + 1, error := p.error || b != p.sums.second), false)
    else if p.byteIndex - p.addressLength == p.commandLength + 1 then
      var q := p.(byteIndex := p.byteIndex + 1, error := p.error || b != p.sums.first);
      Stepped(q, !q.error)
    else Stepped(Fold(p.(error := true), b), false)
  }

  /** The address-length byte: anything but 1 is an error, but it is stored all the same. */
  function TakeAddressLength(p: Parser, b: Byte): Parser
  {
    Fold(p.(error := p.error || b != 1, addressLength := b, hasAddressLength := true), b)
  }

  /** The command-length byte, checked against the expected length when there is one. */
  function TakeCommandLength(p: Parser, b: Byte): Parser
  {
    var q := p.(commandLength := b, hasCommandLength := true);
    var r := if p.expectedLength > -1 && p.addressLength + b != p.expectedLength
             then q.(error := true, commandLength := p.expectedLength - 1, addressLength := 1)
             else q;
    Fold(r, b)
  }

  /** A command byte; with `no_checksums` the last one completes the frame at once. */
  function TakeCommandByte(p: Parser, b: Byte, noChecksums: bool): Stepped
  {
    var q := p.(command := p.command + [b], byteIndex := p.byteIndex + 1);
    if q.byteIndex - q.addressLength == q.commandLength && noChecksums then Stepped(q, true)
    else Stepped(Fold(q, b), false)
  }

  /** The state after a run of `AddByte` calls, and what each call returned. */
  datatype Fed = Fed(next: Parser, completions: seq<bool>)

  /** Feed the bytes one by one. */
  function Feed(p: Parser, bs: seq<Byte>, noChecksums: bool): (r: Fed)
    ensures |r.completions| == |bs|
    decreases |bs|
  {
    if bs == [] then Fed(p, [])
    else
      var s := Step(p, bs[0], noChecksums);
      var rest := Feed(s.next, bs[1..], noChecksums);
      Fed(rest.next, [s.complete] + rest.completions)
  }

  lemma {:induction false} FeedAppend(p: Parser, xs: seq<Byte>, ys: seq<Byte>, nc: bool)
    ensures Feed(p, xs + ys, nc).next == Feed(Feed(p, xs, nc).next, ys, nc).next
    ensures Feed(p, xs + ys, nc).completions == Feed(p, xs, nc).completions + Feed(Feed(p, xs, nc).next, ys, nc).completions
    decreases |xs|
  {
    if xs == [] {
      assert xs + ys == ys;
      assert Feed(p, xs, nc).completions == [];
    } else {
      var s := Step(p, xs[0], nc);
      assert (xs + ys)[0] == xs[0];
      assert (xs + ys)[1..] == xs[1..] + ys;
      FeedAppend(s.next, xs[1..], ys, nc);
      var mid := Feed(s.next, xs[1..], nc);
      var last := Feed(mid.next, ys, nc);
      assert Feed(p, xs, nc).completions == [s.complete] + mid.completions;
      assert Feed(p, xs + ys, nc).completions == [s.complete] + (mid.completions + last.completions);
      assert [s.complete] + (mid.completions + last.completions) == ([s.complete] + mid.completions) + last.completions;
    }
  }

  /** Feeding one byte is one step. */
  lemma FeedOne(p: Parser, b: Byte, nc: bool)
    ensures Feed(p, [b], nc).next == Step(p, b, nc).next
    ensures Feed(p, [b], nc).completions == [Step(p, b, nc).complete]
  {
    assert [b][1..] == [];
    assert Feed(Step(p, b, nc).next, [], nc).completions == [];
  }

  /** Feeding `[b] + bs` is a step followed by feeding `bs`. */
  lemma FeedCons(p: Parser, b: Byte, bs: seq<Byte>, nc: bool)
    ensures Feed(p, [b] + bs, nc).next == Feed(Step(p, b, nc).next, bs, nc).next
    ensures Feed(p, [b] + bs, nc).completions == [Step(p, b, nc).complete] + Feed(Step(p, b, nc).next, bs, nc).completions
  {
    assert ([b] + bs)[0] == b && ([b] + bs)[1..] == bs;
  }

  /** The state after a well-formed header `[1, len, timeout, address]`. */
  function AfterHeader(e: int, len: Byte, timeout: Byte, address: Byte): Parser
  {
    Parser(1, len, timeout, address, [], true, true, true, 1, Checksum([1, len, timeout, address]), false, e)
  }

  lemma FeedHeader(e: int, len: Byte, timeout: Byte, address: Byte, nc: bool)
    requires e == -1 || e == 1 + len
    ensures Feed(Fresh(e), [1, len, timeout, address], nc).next == AfterHeader(e, len, timeout, address)
    ensures Feed(Fresh(e), [1, len, timeout, address], nc).completions == [false, false, false, false]
  {
    var p1 := Step(Fresh(e), 1, nc).next;
    var p2 := Step(p1, len, nc).next;
    var p3 := Step(p2, timeout, nc).next;
    var p4 := Step(p3, address, nc).next;
    assert p4.address == address;
    FeedOne(p3, address, nc);
    FeedCons(p2, timeout, [address], nc);
    assert [timeout] + [address] == [timeout, address];
    FeedCons(p1, len, [timeout, address], nc);
    assert [len] + [timeout, address] == [len, timeout, address];
    FeedCons(Fresh(e), 1, [len, timeout, address], nc);
    assert [1] + [len, timeout, address] == [1, len, timeout, address];
    var h: seq<Byte> := [1, len, timeout, address];
    calc {
      Checksum(h);
      Accumulate(Add(NoSums, 1), h[1..]);
      { assert h[1..] == [len, timeout, address]; }
      Accumulate(Add(Add(NoSums, 1), len), [timeout, address]);
      { assert [timeout, address][1..] == [address]; }
      Accumulate(Add(Add(Add(NoSums, 1), len), timeout), [address]);
      { assert [address][1..] == []; }
      Add(Add(Add(Add(NoSums, 1), len), timeout), address);
    }
  }

  /**
   * Command bytes are appended in order and folded into the sums; no call
   * returns True unless `no_checksums` is set and the last command byte
   * arrives (excluded here).
   */
  lemma {:induction false} FeedPayload(p: Parser, rest: seq<Byte>, nc: bool)
    requires PastAddress(p)
    requires p.byteIndex - p.addressLength + |rest| <= p.commandLength
    requires nc ==> p.byteIndex - p.addressLength + |rest| < p.commandLength
    ensures Feed(p, rest, nc).next
      == p.(command := p.command + rest, byteIndex := p.byteIndex + |rest|, sums := Accumulate(p.sums, rest))
    ensures forall i :: 0 <= i < |rest| ==> !Feed(p, rest, nc).completions[i]
    decreases |rest|
  {
    if rest == [] {
      assert p.command + rest == p.command;
    } else {
      var q := Step(p, rest[0], nc).next;
      assert q == p.(command := p.command + [rest[0]], byteIndex := p.byteIndex + 1, sums := Add(p.sums, rest[0]));
      FeedPayload(q, rest[1..], nc);
      assert p.command + [rest[0]] + rest[1..] == p.command + rest;
    }
  }

  /**
   * A frame with the given trailing checksum bytes, fed with checksums
   * enabled to a new parser: no call returns True before the last byte, the
   * last returns True exactly when both checksum bytes match, and the header
   * fields and the NUL-terminated command are recovered.
   */
  lemma FeedFrame(e: int, a: Byte, c: seq<Byte>, t: Byte, s2: Byte, s1: Byte)
    requires Fits(c) && (e == -1 || e == |c| + 2)
    ensures var body := Body(a, c, t);
      var sums := Checksum(body);
      var ok := s2 == sums.second && s1 == sums.first;
      var r := Feed(Fresh(e), body + [s2, s1], false);
      && |r.completions| == |c| + 7
      && (forall i :: 0 <= i < |c| + 6 ==> !r.completions[i])
      && (r.completions[|c| + 6] <==> ok)
      && r.next.address == a && r.next.command == c + [0] && r.next.timeout == t
      && (r.next.error <==> !ok)
  {
    FeedAppend(Fresh(e), Body(a, c, t), [s2, s1], false);
    FeedBody(e, a, c, t);
    FeedChecksums(Feed(Fresh(e), Body(a, c, t), false).next, s2, s1);
    QuietThenLast(Feed(Fresh(e), Body(a, c, t), false).completions[4..],
                  Feed(Feed(Fresh(e), Body(a, c, t), false).next, [s2, s1], false).completions[1]);
  }

  /** The frame body fed to a new parser: nothing completes, and the state awaits the checksums. */
  lemma FeedBody(e: int, a: Byte, c: seq<Byte>, t: Byte)
    requires Fits(c) && (e == -1 || e == |c| + 2)
    ensures var r := Feed(Fresh(e), Body(a, c, t), false);
      && r.completions == [false, false, false, false] + r.completions[4..]
      && (forall i :: 0 <= i < |r.completions[4..]| ==> !r.completions[4..][i])
      && r.next == AfterHeader(e, |c| + 1, t, a).(command := c + [0], byteIndex := |c| + 2, sums := Checksum(Body(a, c, t)))
  {
    var header: seq<Byte> := [1, |c| + 1, t, a];
    var payload := c + [0];
    var p := AfterHeader(e, |c| + 1, t, a);
    assert Body(a, c, t) == header + payload;
    FeedAppend(Fresh(e), header, payload, false);
    FeedHeader(e, |c| + 1, t, a, false);
    FeedPayload(p, payload, false);
    AccumulateAppend(NoSums, header, payload);
  }

  /** The two checksum bytes: the second returns False, the first True exactly when both match. */
  lemma FeedChecksums(q: Parser, s2: Byte, s1: Byte)
    requires PastAddress(q) && q.byteIndex - q.addressLength == q.commandLength
    ensures var r := Feed(q, [s2, s1], false);
      && r.completions == [false, r.completions[1]]
      && r.next.address == q.address && r.next.command == q.command && r.next.timeout == q.timeout
      && (r.next.error <==> q.error || s2 != q.sums.second || s1 != q.sums.first)
      && (r.completions[1] <==> !r.next.error)
  {
    FeedOne(Step(q, s2, false).next, s1, false);
    FeedCons(q, s2, [s1], false);
    assert [s2] + [s1] == [s2, s1];
  }

  /** Round trip: a frame from the encoder is accepted on its last byte, and only there. */
  lemma RoundTrip(e: int, a: Byte, c: seq<Byte>, t: Byte)
    requires Fits(c) && (e == -1 || e == |c| + 2)
    ensures var r := Feed(Fresh(e), Frame(a, c, t), false);
      && (forall i :: 0 <= i < |c| + 6 ==> !r.completions[i]) && r.completions[|c| + 6]
      && r.next.address == a && r.next.command == c + [0] && r.next.timeout == t && !r.next.error
  {
    var sums := Checksum(Body(a, c, t));
    assert Frame(a, c, t) == Body(a, c, t) + [sums.second, sums.first];
    FeedFrame(e, a, c, t, sums.second, sums.first);
  }

  /** A wrong checksum byte: the frame never completes and the parser reports an error. */
  lemma BadChecksumRejected(e: int, a: Byte, c: seq<Byte>, t: Byte, s2: Byte, s1: Byte)
    requires Fits(c) && (e == -1 || e == |c| + 2)
    requires s2 != Checksum(Body(a, c, t)).second || s1 != Checksum(Body(a, c, t)).first
    ensures var r := Feed(Fresh(e), Body(a, c, t) + [s2, s1], false);
      (forall i :: 0 <= i < |r.completions| ==> !r.completions[i]) && r.next.error
  {
    FeedFrame(e, a, c, t, s2, s1);
  }

  /**
   * A header `[1, n, timeout, address]` and `n` further bytes, whatever they
   * are, fed with checksums enabled: nothing completes, no error, and the
   * parser awaits the checksums of all that was fed.
   */
  lemma FeedHeaderAndPayload(e: int, a: Byte, payload: seq<Byte>, t: Byte)
    requires |payload| < 256 && (e == -1 || e == |payload| + 1)
    ensures var body := [1, |payload|, t, a] + payload;
      var r := Feed(Fresh(e), body, false);
      && (forall i :: 0 <= i < |body| ==> !r.completions[i])
      && PastAddress(r.next) && r.next.byteIndex - r.next.addressLength == r.next.commandLength
      && !r.next.error && r.next.sums == Checksum(body)
  {
    var header: seq<Byte> := [1, |payload|, t, a];
    FeedAppend(Fresh(e), header, payload, false);
    FeedHeader(e, |payload|, t, a, false);
    FeedPayload(AfterHeader(e, |payload|, t, a), payload, false);
    AccumulateAppend(NoSums, header, payload);
    var r := Feed(Fresh(e), header + payload, false);
    forall i | 0 <= i < |header + payload|
      ensures !r.completions[i]
    {
      if i >= 4 {
        assert r.completions[i] == Feed(AfterHeader(e, |payload|, t, a), payload, false).completions[i - 4];
      }
    }
  }

  /** Trailing bytes that are not the sums of such a body: the frame never completes and ends in error. */
  lemma MismatchRejected(e: int, a: Byte, payload: seq<Byte>, t: Byte, s2: Byte, s1: Byte)
    requires |payload| < 256 && (e == -1 || e == |payload| + 1)
    requires var body := [1, |payload|, t, a] + payload;
      s2 != Checksum(body).second || s1 != Checksum(body).first
    ensures var r := Feed(Fresh(e), [1, |payload|, t, a] + payload + [s2, s1], false);
      (forall i :: 0 <= i < |r.completions| ==> !r.completions[i]) && r.next.error
  {
    var body := [1, |payload|, t, a] + payload;
    FeedAppend(Fresh(e), body, [s2, s1], false);
    FeedHeaderAndPayload(e, a, payload, t);
    var q := Feed(Fresh(e), body, false).next;
    FeedChecksums(q, s2, s1);
    var r := Feed(Fresh(e), body + [s2, s1], false);
    forall i | 0 <= i < |r.completions|
      ensures !r.completions[i]
    {
      if i >= |body| {
        assert r.completions[i] == Feed(q, [s2, s1], false).completions[i - |body|];
      }
    }
  }

  /**
   * Checksum sensitivity: an encoded frame with any one byte from the timeout
   * on replaced by a different byte never completes, and the parser reports an
   * error. (A change at index 0 is caught by `AddressLengthChecked`.)
   */
  lemma CorruptedFrameRejected(e: int, a: Byte, c: seq<Byte>, t: Byte, i: nat, x: Byte)
    requires Fits(c) && (e == -1 || e == |c| + 2)
    requires 2 <= i < |c| + 7 && x != Frame(a, c, t)[i]
    ensures var r := Feed(Fresh(e), Frame(a, c, t)[i := x], false);
      (forall k :: 0 <= k < |r.completions| ==> !r.completions[k]) && r.next.error
  {
    var body := Body(a, c, t);
    var sums := Checksum(body);
    var f := Frame(a, c, t);
    assert f == body + [sums.second, sums.first];
    if i < |c| + 5 {
      var changed := body[i := x];
      assert f[i := x] == changed + [sums.second, sums.first];
      ChangedByteChangesChecksum(body, i, x);
      assert changed == [1, |c| + 1, changed[2], changed[3]] + changed[4..];
      MismatchRejected(e, changed[3], changed[4..], changed[2], sums.second, sums.first);
    } else if i == |c| + 5 {
      assert f[i := x] == body + [x, sums.first];
      BadChecksumRejected(e, a, c, t, x, sums.first);
    } else {
      assert f[i := x] == body + [sums.second, x];
      BadChecksumRejected(e, a, c, t, sums.second, x);
    }
  }

  /** `error` is sticky: no call of `AddByte` clears it. */
  lemma StepKeepsError(p: Parser, b: Byte, nc: bool)
    requires p.error
    ensures Step(p, b, nc).next.error
  {
  }

  /** With checksums enabled, a call returns True only on a first-checksum byte that matches, with no error. */
  lemma CompletesOnlyOnGoodChecksum(p: Parser, b: Byte)
    ensures Step(p, b, false).complete
      <==> PastAddress(p) && p.byteIndex - p.addressLength == p.commandLength + 1
           && !p.error && b == p.sums.first
  {
  }

  /**
   * With `no_checksums`, a call returns True on the `command_length`-th
   * command byte whatever `error` says, or on a good first-checksum byte;
   * with `command_length <= 0` the first case cannot arise.
   */
  lemma NoChecksumsCompletion(p: Parser, b: Byte)
    ensures Step(p, b, true).complete
      <==> PastAddress(p)
           && (p.byteIndex - p.addressLength + 1 == p.commandLength
               || (p.byteIndex - p.addressLength == p.commandLength + 1 && !p.error && b == p.sums.first))
  {
  }

  /** Once the error flag is up, the rest of the stream never completes a frame (checksums enabled). */
  lemma {:induction false} ErrorNeverCompletes(p: Parser, bs: seq<Byte>)
    requires p.error
    ensures Feed(p, bs, false).next.error
    ensures forall i :: 0 <= i < |bs| ==> !Feed(p, bs, false).completions[i]
    decreases |bs|
  {
    if bs != [] {
      ErrorNeverCompletes(Step(p, bs[0], false).next, bs[1..]);
    }
  }

  /**
   * An address-length byte other than 1 is flagged but still stored, so the
   * parser keeps consuming that many address bytes; the frame is never delivered.
   */
  lemma AddressLengthChecked(e: int, x: Byte, rest: seq<Byte>)
    requires x != 1
    ensures Step(Fresh(e), x, false).next.error && Step(Fresh(e), x, false).next.addressLength == x
    ensures forall i :: 0 <= i < |rest| + 1 ==> !Feed(Fresh(e), [x] + rest, false).completions[i]
  {
    var p := Step(Fresh(e), x, false).next;
    assert ([x] + rest)[1..] == rest;
    ErrorNeverCompletes(p, rest);
  }

  /**
   * A command-length byte that disagrees with the expected length flags an
   * error and forces address length 1 and command length expected - 1.
   */
  lemma ExpectedLengthResync(p: Parser, b: Byte, nc: bool)
    requires p.hasAddressLength && !p.hasCommandLength
    requires p.expectedLength > -1 && p.addressLength + b != p.expectedLength
    ensures var q := Step(p, b, nc);
      !q.complete && q.next.error && q.next.addressLength == 1 && q.next.commandLength == p.expectedLength - 1
      && q.next.hasCommandLength
  {
  }

  /** Any byte after the second checksum byte is a framing error. */
  lemma ByteAfterEndIsError(p: Parser, b: Byte, nc: bool)
    requires PastAddress(p) && p.byteIndex - p.addressLength > p.commandLength + 1
    ensures Step(p, b, nc).next.error && !Step(p, b, nc).complete
  {
  }

  /**
   * The `no_checksums` fast path: fed `[1, n, timeout, address]` and `n >= 1`
   * command bytes, the parser returns True on the last command byte and never
   * before; the checksum bytes are never needed.
   */
  lemma NoChecksumsFastPath(e: int, a: Byte, cmd: seq<Byte>, t: Byte)
    requires 1 <= |cmd| < 256 && (e == -1 || e == |cmd| + 1)
    ensures var r := Feed(Fresh(e), [1, |cmd|, t, a] + cmd, true);
      (forall i :: 0 <= i < |cmd| + 3 ==> !r.completions[i]) && r.completions[|cmd| + 3]
      && r.next.command == cmd && r.next.address == a && r.next.timeout == t
  {
    FastPathState(e, a, cmd, t);
    FastPathOutputs(e, a, cmd, t);
  }

  lemma FastPathState(e: int, a: Byte, cmd: seq<Byte>, t: Byte)
    requires 1 <= |cmd| < 256 && (e == -1 || e == |cmd| + 1)
    ensures var r := Feed(Fresh(e), [1, |cmd|, t, a] + cmd, true);
      r.next.command == cmd && r.next.address == a && r.next.timeout == t
  {
    FeedAppend(Fresh(e), [1, |cmd|, t, a], cmd, true);
    FeedHeader(e, |cmd|, t, a, true);
    FastPathCommand(AfterHeader(e, |cmd|, t, a), cmd);
  }

  lemma FastPathOutputs(e: int, a: Byte, cmd: seq<Byte>, t: Byte)
    requires 1 <= |cmd| < 256 && (e == -1 || e == |cmd| + 1)
    ensures var r := Feed(Fresh(e), [1, |cmd|, t, a] + cmd, true);
      (forall i :: 0 <= i < |cmd| + 3 ==> !r.completions[i]) && r.completions[|cmd| + 3]
  {
    FeedHeader(e, |cmd|, t, a, true);
    QuietHeaderThenCommand(Fresh(e), [1, |cmd|, t, a], cmd);
  }

  /** A quiet four-byte header followed by the command bytes on the fast path. */
  lemma QuietHeaderThenCommand(p: Parser, header: seq<Byte>, cmd: seq<Byte>)
    requires Feed(p, header, true).completions == [false, false, false, false]
    requires var q := Feed(p, header, true).next;
      PastAddress(q) && q.byteIndex == q.addressLength && q.commandLength == |cmd| >= 1
    ensures var r := Feed(p, header + cmd, true);
      (forall i :: 0 <= i < |cmd| + 3 ==> !r.completions[i]) && r.completions[|cmd| + 3]
  {
    FeedAppend(p, header, cmd, true);
    FastPathCommand(Feed(p, header, true).next, cmd);
    QuietThenTrue(Feed(p, header + cmd, true).completions,
                  Feed(p, header, true).completions, Feed(Feed(p, header, true).next, cmd, true).completions);
  }

  /** After a header announcing `|cmd|` bytes, the command bytes with `no_checksums`. */
  lemma FastPathCommand(p: Parser, cmd: seq<Byte>)
    requires PastAddress(p) && p.byteIndex == p.addressLength && p.commandLength == |cmd| >= 1
    ensures var r := Feed(p, cmd, true);
      && r.next.command == p.command + cmd && r.next.address == p.address && r.next.timeout == p.timeout
      && r.completions[|cmd| - 1] && (forall i :: 0 <= i < |cmd| - 1 ==> !r.completions[i])
  {
    var init, last := cmd[..|cmd| - 1], cmd[|cmd| - 1];
    SplitLast(cmd);
    FeedAppend(p, init, [last], true);
    FeedPayload(p, init, true);
    var q := Feed(p, init, true).next;
    LastCommandByte(q, last);
    FeedOne(q, last, true);
    assert q.command + [last] == p.command + cmd;
  }

  lemma SplitLast(s: seq<Byte>)
    requires s != []
    ensures s == s[..|s| - 1] + [s[|s| - 1]]
  {
  }

  /** Four False calls, then `body`: all False but its last, True one. */
  lemma QuietThenTrue(out: seq<bool>, header: seq<bool>, body: seq<bool>)
    requires out == header + body
    requires header == [false, false, false, false] && body != [] && body[|body| - 1]
    requires forall i :: 0 <= i < |body| - 1 ==> !body[i]
    ensures forall i :: 0 <= i < |body| + 3 ==> !out[i]
    ensures out[|body| + 3]
  {
  }

  lemma LastCommandByte(q: Parser, b: Byte)
    requires PastAddress(q) && q.byteIndex - q.addressLength + 1 == q.commandLength
    ensures Step(q, b, true).complete && Step(q, b, true).next.command == q.command + [b]
    ensures Step(q, b, true).next.address == q.address && Step(q, b, true).next.timeout == q.timeout
  {
    assert Step(q, b, true) == TakeCommandByte(q, b, true);
  }

  /**
   * While the address bytes arrive, `address |= b << (8 * index)` is a
   * little-endian base-256 sum: the address stays below 2^(8 * byte_index).
   */
  lemma AddressLittleEndian(p: Parser, b: Byte, nc: bool)
    requires HeaderDone(p) && p.byteIndex < p.addressLength
    requires p.address < Pow2(8 * p.byteIndex)
    ensures var q := Step(p, b, nc).next;
      q.address == p.address + b * Pow2(8 * p.byteIndex) && q.address < Pow2(8 * q.byteIndex)
  {
    var q := Step(p, b, nc).next;
    assert q.address == Or(p.address, Shifted(b, p.byteIndex)) && q.byteIndex == p.byteIndex + 1;
    AddressByte(p.address, b, p.byteIndex);
  }

  /** The host `Message` object: the parser state held in fields. */
  class Message {
    var addressLength: nat
    var commandLength: int
    var timeout: Byte
    var address: nat
    var command: seq<Byte>
    var hasAddressLength: bool
    var hasCommandLength: bool
    var hasTimeout: bool
    var byteIndex: nat
    var firstChecksum: Byte
    var secondChecksum: Byte
    var error: bool
    var expectedLength: int

    function State(): Parser
      reads this
    {
      Parser(addressLength, commandLength, timeout, address, command, hasAddressLength,
             hasCommandLength, hasTimeout, byteIndex, Sums(firstChecksum, secondChecksum),
             error, expectedLength)
    }

    constructor (expectedLength: int)
      ensures State() == Fresh(expectedLength)
    {
      addressLength, commandLength, timeout := 0, 0, 0;
      address, command := 0, [];
      hasAddressLength, hasCommandLength, hasTimeout := false, false, false;
      byteIndex, firstChecksum, secondChecksum := 0, 0, 0;
      error := false;
      this.expectedLength := expectedLength;
    }

    /** Consume one byte; True when the frame is complete. */
    method AddByte(b: Byte, noChecksums: bool) returns (complete: bool)
      modifies this
      ensures Stepped(State(), complete) == Step(old(State()), b, noChecksums)
    {
      if !hasAddressLength || !hasCommandLength || !hasTimeout || byteIndex < addressLength {
        TakeHeaderByte(b);
        return false;
      }
      if byteIndex - addressLength < commandLength {
        command := command + [b];
        byteIndex := byteIndex + 1;
        if byteIndex - addressLength == commandLength && noChecksums {
          return true;
        }
      } else if byteIndex - addressLength == commandLength {
        byteIndex := byteIndex + 1;
        if b != secondChecksum {
          error := true;
        }
        return false;
      } else if byteIndex - addressLength == commandLength + 1 {
        byteIndex := byteIndex + 1;
        if b != firstChecksum {
          error := true;
        }
        return !error;
      } else {
        error := true;
      }
      var sums := Add(Sums(firstChecksum, secondChecksum), b);
      firstChecksum, secondChecksum := sums.first, sums.second;
      return false;
    }

    /** The branches of `AddByte` for the header and address bytes. */
    method TakeHeaderByte(b: Byte)
      requires !hasAddressLength || !hasCommandLength || !hasTimeout || byteIndex < addressLength
      modifies this
      ensures Stepped(State(), false) == Step(old(State()), b, false)
    {
      if !hasAddressLength {
        if b != 1 {
          error := true;
        }
        addressLength := b;
        hasAddressLength := true;
      } else if !hasCommandLength {
        commandLength := b;
        hasCommandLength := true;
        if expectedLength > -1 && addressLength + commandLength != expectedLength {
          error := true;
          commandLength := expectedLength - 1;
          addressLength := 1;
        }
      } else if !hasTimeout {
        timeout := b;
        hasTimeout := true;
      } else {
        address := Or(address, Shifted(b, byteIndex));
        byteIndex := byteIndex + 1;
      }
      var sums := Add(Sums(firstChecksum, secondChecksum), b);
      firstChecksum, secondChecksum := sums.first, sums.second;
    }

    function Error(): (e: bool)
      reads this
      ensures e == State().error
    {
      error
    }
  }
}
