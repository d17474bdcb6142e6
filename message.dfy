/**
 * The firmware's incremental frame parser (class `Message` of lib/message.h).
 * `Step` is one call of `AddByte` on the parser's fields; the class `Message`
 * keeps those fields, with the command in a fixed array of
 * `MAX_BUFFER_SIZE` bytes, and its methods are proved to perform the
 * functions defined here.
 *
 * Unlike the host parser this one does not check the address length, has no
 * expected length and no `no_checksums` mode, and does not flag bytes that
 * arrive after the frame. Its command writes are not bounds-checked in the
 * source; `Step` here is the corrected parser, which flags a command byte that
 * would fall outside the buffer as an error instead of storing it.
 */
module FirmwareMessage {
  import opened Bytes
  import opened FrameFormat

  const MAX_BUFFER_SIZE := 50

  /** The contents of `command_[MAX_BUFFER_SIZE]`. */
  type Buffer = c: seq<Byte> | |c| == MAX_BUFFER_SIZE witness seq(MAX_BUFFER_SIZE, _ => 0)

  /** A buffer of zero bytes. */
  function Zeros(): Buffer
  {
    seq(MAX_BUFFER_SIZE, _ => 0)
  }

  /** All fields of a firmware `Message`. */
  datatype Fields = Fields(
    addressLength: Byte,
    commandLength: Byte,
    timeout: Byte,
    address: nat,
    command: Buffer,
    hasAddressLength: bool,
    hasCommandLength: bool,
    hasTimeout: bool,
    byteIndex: nat,
    sums: Sums,
    error: bool)

  /**
   * `Clear()`: a new parse begins. The address length, the timeout and the
   * command buffer are left as they were.
   */
  function Cleared(s: Fields): (r: Fields)
    ensures r.addressLength == s.addressLength && r.timeout == s.timeout && r.command == s.command
    ensures !r.hasAddressLength && !r.hasCommandLength && !r.hasTimeout && !r.error
    ensures r.byteIndex == 0 && r.address == 0 && r.commandLength == 0 && r.sums == NoSums
  {
    s.(hasAddressLength := false, hasCommandLength := false, hasTimeout := false, byteIndex := 0,
       address := 0, commandLength := 0, sums := NoSums, error := false)
  }

  /** A new `Message()`: cleared, with the fields `Clear` leaves alone taken as zero. */
  const Empty: Fields := Fields(0, 0, 0, 0, Zeros(), false, false, false, 0, NoSums, false)

  /** `Reset(address, command_length, command)`: a one-byte address and a new command prefix. */
  function Reloaded(s: Fields, address: Byte, cmd: seq<Byte>): (r: Fields)
    requires |cmd| <= MAX_BUFFER_SIZE
    ensures r.address == address && r.addressLength == 1 && r.commandLength == |cmd|
    ensures r.command[..|cmd|] == cmd && r.command[|cmd|..] == s.command[|cmd|..]
    ensures r == s.(address := r.address, addressLength := 1, commandLength := |cmd|, command := r.command)
  {
    var c: Buffer := cmd + s.command[|cmd|..];
    assert c[..|cmd|] == cmd && c[|cmd|..] == s.command[|cmd|..];
    s.(address := address, addressLength := 1, commandLength := |cmd|, command := c)
  }

  /**
   * A `Message(address, command_length, command)`: `Reset` applied to an
   * empty message (the fields the source leaves uninitialised taken as zero).
   */
  function Loaded(address: Byte, cmd: seq<Byte>): Fields
    requires |cmd| <= MAX_BUFFER_SIZE
  {
    Reloaded(Empty, address, cmd)
  }

  /** The three header bytes have been read. */
  predicate HeaderDone(s: Fields)
  {
    s.hasAddressLength && s.hasCommandLength && s.hasTimeout
  }

  /** Past the header and the address bytes. */
  predicate PastAddress(s: Fields)
  {
    HeaderDone(s) && s.byteIndex >= s.addressLength
  }

  /** How many bytes after the address: the command index, then the two checksum positions. */
  function Offset(s: Fields): int
  {
    s.byteIndex - s.addressLength
  }

  /** Fold a byte into the running sums. */
  function Fold(s: Fields, b: Byte): Fields
  {
    s.(sums := Add(s.sums, b))
  }

  /** The next byte is a command byte whose index lies outside `command_`. */
  predicate Overruns(s: Fields)
  {
    PastAddress(s) && Offset(s) < s.commandLength && Offset(s) >= MAX_BUFFER_SIZE
  }

  /** A command byte: stored at its index, or flagged when that index is outside the buffer. */
  function TakeCommandByte(s: Fields, b: Byte): Fields
    requires PastAddress(s) && Offset(s) < s.commandLength
  {
    var k := Offset(s);
    var q := if k < MAX_BUFFER_SIZE then s.(command := s.command[k := b]) else s.(error := true);
    Fold(q.(byteIndex := s.byteIndex + 1), b)
  }

  /** The state after one call of `AddByte`, and whether it returned true (frame complete). */
  datatype Stepped = Stepped(next: Fields, complete: bool)

  /** One call of `AddByte(b)`. */
  function Step(s: Fields, b: Byte): Stepped
  {
    if !s.hasAddressLength then Stepped(Fold(s.(addressLength := b, hasAddressLength := true), b), false)
    else if !s.hasCommandLength then Stepped(Fold(s.(commandLength := b, hasCommandLength := true), b), false)
    else if !s.hasTimeout then Stepped(Fold(s.(timeout := b, hasTimeout := true), b), false)
    else if s.byteIndex < s.addressLength then
      Stepped(Fold(s.(address := Or(s.address, Shifted(b, s.byteIndex)), byteIndex := s.byteIndex + 1), b), false)
    else if Offset(s) < s.commandLength then Stepped(TakeCommandByte(s, b), false)
    else if Offset(s) == s.commandLength then
      Stepped(s.(byteIndex := s.byteIndex + 1, error := s.error || b != s.sums.second), false)
    else if Offset(s) == s.commandLength + 1 then
      var q := s.(byteIndex := s.byteIndex + 1, error := s.error || b != s.sums.first);
      Stepped(q, !q.error)
    else Stepped(Fold(s, b), false)
  }

  /**
   * `AddByte` as the source writes it: the same as `Step` except that a
   * command byte with index `MAX_BUFFER_SIZE` or more is written outside
   * `command_`, which has no defined outcome (None).
   */
  function StepAsWritten(s: Fields, b: Byte): (r: Option<Stepped>)
    ensures r.None? <==> Overruns(s)
    ensures r.Some? ==> r.value == Step(s, b)
  {
    if PastAddress(s) && Offset(s) < s.commandLength && Offset(s) >= MAX_BUFFER_SIZE then None
    else Some(Step(s, b))
  }

  /** The state after a run of `AddByte` calls, and what each call returned. */
  datatype Fed = Fed(next: Fields, completions: seq<bool>)

  /** Feed the bytes one by one. */
  function Feed(s: Fields, bs: seq<Byte>): (r: Fed)
    ensures |r.completions| == |bs|
    decreases |bs|
  {
    if bs == [] then Fed(s, [])
    else
      var t := Step(s, bs[0]);
      var rest := Feed(t.next, bs[1..]);
      Fed(rest.next, [t.complete] + rest.completions)
  }

  lemma {:induction false} FeedAppend(s: Fields, xs: seq<Byte>, ys: seq<Byte>)
    ensures Feed(s, xs + ys).next == Feed(Feed(s, xs).next, ys).next
    ensures Feed(s, xs + ys).completions == Feed(s, xs).completions + Feed(Feed(s, xs).next, ys).completions
    decreases |xs|
  {
    if xs == [] {
      assert xs + ys == ys;
      assert Feed(s, xs).completions == [];
    } else {
      var t := Step(s, xs[0]);
      assert (xs + ys)[0] == xs[0];
      assert (xs + ys)[1..] == xs[1..] + ys;
      FeedAppend(t.next, xs[1..], ys);
      var mid := Feed(t.next, xs[1..]);
      var last := Feed(mid.next, ys);
      assert Feed(s, xs).completions == [t.complete] + mid.completions;
      assert Feed(s, xs + ys).completions == [t.complete] + (mid.completions + last.completions);
      assert [t.complete] + (mid.completions + last.completions) == ([t.complete] + mid.completions) + last.completions;
    }
  }

  lemma FeedOne(s: Fields, b: Byte)
    ensures Feed(s, [b]).next == Step(s, b).next
    ensures Feed(s, [b]).completions == [Step(s, b).complete]
  {
    assert [b][1..] == [];
    assert Feed(Step(s, b).next, []).completions == [];
  }

  lemma FeedCons(s: Fields, b: Byte, bs: seq<Byte>)
    ensures Feed(s, [b] + bs).next == Feed(Step(s, b).next, bs).next
    ensures Feed(s, [b] + bs).completions == [Step(s, b).complete] + Feed(Step(s, b).next, bs).completions
  {
    assert ([b] + bs)[0] == b && ([b] + bs)[1..] == bs;
  }

  /** The state after a header `[1, len, timeout, address]` fed to a cleared message. */
  function AfterHeader(s: Fields, len: Byte, timeout: Byte, address: Byte): Fields
  {
    Fields(1, len, timeout, address, s.command, true, true, true, 1, Checksum([1, len, timeout, address]), false)
  }

  lemma FeedHeader(s: Fields, len: Byte, timeout: Byte, address: Byte)
    ensures Feed(Cleared(s), [1, len, timeout, address]).next == AfterHeader(s, len, timeout, address)
    ensures Feed(Cleared(s), [1, len, timeout, address]).completions == [false, false, false, false]
  {
    var p0 := Cleared(s);
    var p1 := Step(p0, 1).next;
    var p2 := Step(p1, len).next;
    var p3 := Step(p2, timeout).next;
    var p4 := Step(p3, address).next;
    assert p4.address == address;
    FeedOne(p3, address);
    FeedCons(p2, timeout, [address]);
    assert [timeout] + [address] == [timeout, address];
    FeedCons(p1, len, [timeout, address]);
    assert [len] + [timeout, address] == [len, timeout, address];
    FeedCons(p0, 1, [len, timeout, address]);
    assert [1] + [len, timeout, address] == [1, len, timeout, address];
    var h: seq<Byte> := [1, len, timeout, address];
    calc {
      Checksum(h);
      Accumulate(Add(NoSums, 1), h[1..]);
      { assert h[1..] == [len, timeout, address]; }
      Accumulate(Add(Add(NoSums, 1), len), [timeout, address]);
      { assert [timeout, address][1..] == [address]; }
      Accumulate(Add(Add(Add(NoSums, 1), len), timeout), [address]);
      { assert [address][1..] == []; }
      Add(Add(Add(Add(NoSums, 1), len), timeout), address);
    }
  }

  /** `buf` with `data` written from index `k` on. */
  function Overwrite(buf: Buffer, k: nat, data: seq<Byte>): (r: Buffer)
    requires k + |data| <= MAX_BUFFER_SIZE
    ensures r[..k] == buf[..k] && r[k..k + |data|] == data && r[k + |data|..] == buf[k + |data|..]
  {
    var r: Buffer := buf[..k] + data + buf[k + |data|..];
    assert r[..k] == buf[..k] && r[k..k + |data|] == data && r[k + |data|..] == buf[k + |data|..];
    r
  }

  lemma OverwriteCons(buf: Buffer, k: nat, data: seq<Byte>)
    requires data != [] && k + |data| <= MAX_BUFFER_SIZE
    ensures Overwrite(buf[k := data[0]], k + 1, data[1..]) == Overwrite(buf, k, data)
  {
    var lhs := Overwrite(buf[k := data[0]], k + 1, data[1..]);
    var rhs := Overwrite(buf, k, data);
    forall i | 0 <= i < MAX_BUFFER_SIZE
      ensures lhs[i] == rhs[i]
    {
      if i < k {
        assert lhs[i] == lhs[..k + 1][i] && rhs[i] == rhs[..k][i];
      } else if i == k {
        assert lhs[i] == lhs[..k + 1][i] && rhs[i] == rhs[k..k + |data|][0];
      } else if i < k + |data| {
        assert lhs[i] == lhs[k + 1..k + |data|][i - k - 1] && rhs[i] == rhs[k..k + |data|][i - k];
      } else {
        assert lhs[i] == lhs[k + |data|..][i - k - |data|] && rhs[i] == rhs[k + |data|..][i - k - |data|];
      }
    }
  }

  /** A command byte that fits the buffer is stored at its index and folded into the sums. */
  lemma PayloadStep(s: Fields, b: Byte)
    requires PastAddress(s) && Offset(s) < s.commandLength && Offset(s) < MAX_BUFFER_SIZE
    ensures Step(s, b)
      == Stepped(s.(command := s.command[Offset(s) := b], byteIndex := s.byteIndex + 1, sums := Add(s.sums, b)), false)
  {
  }

  /**
   * Command bytes that fit the buffer are stored at consecutive indices and
   * folded into the sums; no call returns true.
   */
  lemma {:induction false} FeedPayload(s: Fields, rest: seq<Byte>)
    requires PastAddress(s)
    requires Offset(s) + |rest| <= s.commandLength && Offset(s) + |rest| <= MAX_BUFFER_SIZE
    ensures Feed(s, rest).next
      == s.(command := Overwrite(s.command, Offset(s), rest), byteIndex := s.byteIndex + |rest|,
            sums := Accumulate(s.sums, rest))
    ensures forall i :: 0 <= i < |rest| ==> !Feed(s, rest).completions[i]
    decreases |rest|
  {
    if rest == [] {
      assert Overwrite(s.command, Offset(s), rest) == s.command;
    } else {
      OverwriteCons(s.command, s.byteIndex - s.addressLength, rest);
      PayloadStep(s, rest[0]);
      FeedPayload(Step(s, rest[0]).next, rest[1..]);
    }
  }

  /**
   * A frame with the given trailing checksum bytes whose NUL-terminated
   * command fits the buffer, fed to a cleared message: no call returns true
   * before the last byte, the last does exactly when both checksum bytes
   * match, the header fields and the command are recovered, and the sums
   * left behind are the sums of the body.
   */
  lemma FeedFrame(s: Fields, a: Byte, c: seq<Byte>, t: Byte, s2: Byte, s1: Byte)
    requires |c| + 1 <= MAX_BUFFER_SIZE
    ensures var body := Body(a, c, t);
      var ok := s2 == Checksum(body).second && s1 == Checksum(body).first;
      var r := Feed(Cleared(s), body + [s2, s1]);
      && |r.completions| == |c| + 7
      && (forall i :: 0 <= i < |c| + 6 ==> !r.completions[i])
      && (r.completions[|c| + 6] <==> ok)
      && r.next.address == a && r.next.addressLength == 1 && r.next.commandLength == |c| + 1
      && r.next.command[..|c| + 1] == c + [0] && r.next.timeout == t
      && r.next.sums == Checksum(body)
      && (r.next.error <==> !ok)
  {
    FeedAppend(Cleared(s), Body(a, c, t), [s2, s1]);
    FeedBody(s, a, c, t);
    FeedChecksums(Feed(Cleared(s), Body(a, c, t)).next, s2, s1);
    QuietThenLast(Feed(Cleared(s), Body(a, c, t)).completions[4..],
                  Feed(Feed(Cleared(s), Body(a, c, t)).next, [s2, s1]).completions[1]);
  }

  /** The frame body fed to a cleared message: nothing completes, and the state awaits the checksums. */
  lemma FeedBody(s: Fields, a: Byte, c: seq<Byte>, t: Byte)
    requires |c| + 1 <= MAX_BUFFER_SIZE
    ensures var r := Feed(Cleared(s), Body(a, c, t));
      && r.completions == [false, false, false, false] + r.completions[4..]
      && (forall i :: 0 <= i < |r.completions[4..]| ==> !r.completions[4..][i])
      && r.next.command[..|c| + 1] == c + [0]
      && r.next == AfterHeader(s, |c| + 1, t, a).(command := r.next.command, byteIndex := |c| + 2,
                                                   sums := Checksum(Body(a, c, t)))
  {
    var header: seq<Byte> := [1, |c| + 1, t, a];
    var payload := c + [0];
    var p := AfterHeader(s, |c| + 1, t, a);
    assert Body(a, c, t) == header + payload;
    FeedAppend(Cleared(s), header, payload);
    FeedHeader(s, |c| + 1, t, a);
    FeedPayload(p, payload);
    AccumulateAppend(NoSums, header, payload);
    assert Overwrite(s.command, 0, payload)[..|c| + 1] == payload;
  }

  /** The two checksum bytes: the second returns false, the first true exactly when both match. */
  lemma FeedChecksums(q: Fields, s2: Byte, s1: Byte)
    requires PastAddress(q) && Offset(q) == q.commandLength
    ensures var r := Feed(q, [s2, s1]);
      && r.completions == [false, r.completions[1]]
      && r.next == q.(byteIndex := q.byteIndex + 2, error := r.next.error)
      && (r.next.error <==> q.error || s2 != q.sums.second || s1 != q.sums.first)
      && (r.completions[1] <==> !r.next.error)
  {
    FeedOne(Step(q, s2).next, s1);
    FeedCons(q, s2, [s1]);
    assert [s2] + [s1] == [s2, s1];
  }

  /**
   * Round trip with the host encoder: a frame whose NUL-terminated command
   * fits the buffer, fed to a cleared message, completes on its last byte and
   * on no other, with `address()`, `address_length()`, `command()` and the
   * timeout recovered, no error, and the checksum fields equal to the frame's
   * last two bytes.
   */
  lemma RoundTrip(s: Fields, a: Byte, c: seq<Byte>, t: Byte)
    requires |c| + 1 <= MAX_BUFFER_SIZE
    ensures var f := Frame(a, c, t);
      var r := Feed(Cleared(s), f);
      && (forall i :: 0 <= i < |f| - 1 ==> !r.completions[i]) && r.completions[|f| - 1]
      && r.next.address == a && r.next.addressLength == 1 && r.next.commandLength == |c| + 1
      && r.next.command[..|c| + 1] == c + [0] && r.next.timeout == t && !r.next.error
      && r.next.sums.second == f[|f| - 2] && r.next.sums.first == f[|f| - 1]
  {
    var sums := Checksum(Body(a, c, t));
    assert Frame(a, c, t) == Body(a, c, t) + [sums.second, sums.first];
    FeedFrame(s, a, c, t, sums.second, sums.first);
  }

  /** `error_` is sticky: no call of `AddByte` clears it. */
  lemma StepKeepsError(s: Fields, b: Byte)
    requires s.error
    ensures Step(s, b).next.error
  {
  }

  /** `AddByte` returns true iff the byte is a first-checksum byte that matches and no error was flagged. */
  lemma CompletesIff(s: Fields, b: Byte)
    ensures Step(s, b).complete
      <==> PastAddress(s) && Offset(s) == s.commandLength + 1 && !s.error && b == s.sums.first
  {
  }

  /** Once `error_` is set the frame never completes: every later call returns false. */
  lemma {:induction false} ErrorNeverCompletes(s: Fields, bs: seq<Byte>)
    requires s.error
    ensures Feed(s, bs).next.error
    ensures forall i :: 0 <= i < |bs| ==> !Feed(s, bs).completions[i]
    decreases |bs|
  {
    if bs != [] {
      ErrorNeverCompletes(Step(s, bs[0]).next, bs[1..]);
    }
  }

  /**
   * Which bytes reach the sums: every header, address, command and overrun
   * byte is folded in; the two checksum bytes are not.
   */
  lemma FoldedUnlessChecksum(s: Fields, b: Byte)
    ensures var checksumByte := PastAddress(s)
              && (Offset(s) == s.commandLength || Offset(s) == s.commandLength + 1);
      Step(s, b).next.sums == if checksumByte then s.sums else Add(s.sums, b)
  {
  }

  /**
   * A mismatching checksum byte flags `error_`, and the frame then never
   * completes, whatever follows.
   */
  lemma BadChecksumNeverCompletes(s: Fields, b: Byte, rest: seq<Byte>)
    requires PastAddress(s)
    requires (Offset(s) == s.commandLength && b != s.sums.second)
          || (Offset(s) == s.commandLength + 1 && b != s.sums.first)
    ensures Step(s, b).next.error && !Step(s, b).complete
    ensures forall i :: 0 <= i < |rest| + 1 ==> !Feed(s, [b] + rest).completions[i]
  {
    FeedCons(s, b, rest);
    ErrorNeverCompletes(Step(s, b).next, rest);
    forall i | 0 <= i < |rest| + 1
      ensures !Feed(s, [b] + rest).completions[i]
    {
      if i > 0 {
        assert Feed(s, [b] + rest).completions[i] == Feed(Step(s, b).next, rest).completions[i - 1];
      }
    }
  }

  /**
   * A header `[1, n, timeout, address]` and `n` further bytes that fit the
   * buffer, whatever they are, fed to a cleared message: nothing completes,
   * no error, and the parser awaits the checksums of all that was fed.
   */
  lemma FeedHeaderAndPayload(s: Fields, a: Byte, payload: seq<Byte>, t: Byte)
    requires |payload| <= MAX_BUFFER_SIZE
    ensures var body := [1, |payload|, t, a] + payload;
      var r := Feed(Cleared(s), body);
      && (forall i :: 0 <= i < |body| ==> !r.completions[i])
      && PastAddress(r.next) && Offset(r.next) == r.next.commandLength
      && !r.next.error && r.next.sums == Checksum(body)
  {
    var header: seq<Byte> := [1, |payload|, t, a];
    FeedAppend(Cleared(s), header, payload);
    FeedHeader(s, |payload|, t, a);
    FeedPayload(AfterHeader(s, |payload|, t, a), payload);
    AccumulateAppend(NoSums, header, payload);
    var r := Feed(Cleared(s), header + payload);
    forall i | 0 <= i < |header + payload|
      ensures !r.completions[i]
    {
      if i >= 4 {
        assert r.completions[i] == Feed(AfterHeader(s, |payload|, t, a), payload).completions[i - 4];
      }
    }
  }

  /** Trailing bytes that are not the sums of such a body: the frame never completes and ends in error. */
  lemma MismatchRejected(s: Fields, a: Byte, payload: seq<Byte>, t: Byte, s2: Byte, s1: Byte)
    requires |payload| <= MAX_BUFFER_SIZE
    requires var body := [1, |payload|, t, a] + payload;
      s2 != Checksum(body).second || s1 != Checksum(body).first
    ensures var r := Feed(Cleared(s), [1, |payload|, t, a] + payload + [s2, s1]);
      (forall i :: 0 <= i < |r.completions| ==> !r.completions[i]) && r.next.error
  {
    var body := [1, |payload|, t, a] + payload;
    FeedAppend(Cleared(s), body, [s2, s1]);
    FeedHeaderAndPayload(s, a, payload, t);
    var q := Feed(Cleared(s), body).next;
    FeedChecksums(q, s2, s1);
    var r := Feed(Cleared(s), body + [s2, s1]);
    forall i | 0 <= i < |r.completions|
      ensures !r.completions[i]
    {
      if i >= |body| {
        assert r.completions[i] == Feed(q, [s2, s1]).completions[i - |body|];
      }
    }
  }

  /**
   * Checksum sensitivity: an encoded frame whose NUL-terminated command fits
   * the buffer, with any one byte from the timeout on replaced by a different
   * byte, never completes, and `error_` is set.
   */
  lemma CorruptedFrameRejected(s: Fields, a: Byte, c: seq<Byte>, t: Byte, i: nat, x: Byte)
    requires |c| + 1 <= MAX_BUFFER_SIZE
    requires 2 <= i < |c| + 7 && x != Frame(a, c, t)[i]
    ensures var r := Feed(Cleared(s), Frame(a, c, t)[i := x]);
      (forall k :: 0 <= k < |r.completions| ==> !r.completions[k]) && r.next.error
  {
    var body := Body(a, c, t);
    var sums := Checksum(body);
    var f := Frame(a, c, t);
    assert f == body + [sums.second, sums.first];
    assert body == [1, |c + [0]|, t, a] + (c + [0]);
    if i < |c| + 5 {
      var changed := body[i := x];
      assert f[i := x] == changed + [sums.second, sums.first];
      ChangedByteChangesChecksum(body, i, x);
      assert changed == [1, |c| + 1, changed[2], changed[3]] + changed[4..];
      MismatchRejected(s, changed[3], changed[4..], changed[2], sums.second, sums.first);
    } else if i == |c| + 5 {
      assert f[i := x] == body + [x, sums.first];
      MismatchRejected(s, a, c + [0], t, x, sums.first);
    } else {
      assert f[i := x] == body + [sums.second, x];
      MismatchRejected(s, a, c + [0], t, sums.second, x);
    }
  }

  /** The address length is stored as received: no check that it is 1. */
  lemma NoAddressLengthCheck(s: Fields, x: Byte)
    ensures Step(Cleared(s), x).next.addressLength == x && !Step(Cleared(s), x).next.error
    ensures !Step(Cleared(s), x).complete
  {
  }

  /** Bytes after the frame neither set `error_` nor complete anything: they only reach the sums. */
  lemma AfterEndOnlyFolds(s: Fields, b: Byte)
    requires PastAddress(s) && Offset(s) > s.commandLength + 1
    ensures Step(s, b) == Stepped(Fold(s, b), false)
  {
  }

  /**
   * On completion the two checksum fields hold the frame's last two bytes:
   * the second checksum byte `x` and the first checksum byte `y`.
   */
  lemma CompletedChecksums(s: Fields, x: Byte, y: Byte)
    requires PastAddress(s) && Offset(s) == s.commandLength
    requires Feed(s, [x, y]).completions[1]
    ensures x == s.sums.second && y == s.sums.first
    ensures Feed(s, [x, y]).next.sums.second == x && Feed(s, [x, y]).next.sums.first == y
  {
    FeedOne(Step(s, x).next, y);
    FeedCons(s, x, [y]);
    assert [x] + [y] == [x, y];
  }

  /** Address bytes: `address_ |= b << (8 * index)` is a little-endian base-256 sum. */
  lemma AddressLittleEndian(s: Fields, b: Byte)
    requires HeaderDone(s) && s.byteIndex < s.addressLength
    requires s.address < Pow2(8 * s.byteIndex)
    ensures var q := Step(s, b).next;
      q.address == s.address + b * Pow2(8 * s.byteIndex) && q.address < Pow2(8 * q.byteIndex)
  {
    var q := Step(s, b).next;
    assert q.address == Or(s.address, Shifted(b, s.byteIndex)) && q.byteIndex == s.byteIndex + 1;
    AddressByte(s.address, b, s.byteIndex);
  }

  /**
   * The corrected parser never writes outside the buffer: a command byte
   * whose index would overrun it leaves the buffer as it was and flags
   * `error_`, so that frame is never delivered.
   */
  lemma OverrunFlagged(s: Fields, b: Byte)
    requires Overruns(s)
    ensures Step(s, b).next.command == s.command && Step(s, b).next.error && !Step(s, b).complete
  {
  }

  /**
   * As written, the source reaches the out-of-bounds write: after a cleared
   * message reads the header `[1, 51, t, a]` and 50 command bytes, the next
   * command byte has index 50 and `StepAsWritten` has no defined outcome.
   */
  lemma OverrunReachable(s: Fields, t: Byte, a: Byte, b: Byte)
    ensures var q := Feed(Cleared(s), [1, 51, t, a] + Zeros()).next;
      Overruns(q) && Offset(q) == MAX_BUFFER_SIZE && StepAsWritten(q, b).None?
  {
    var header: seq<Byte> := [1, 51, t, a];
    FeedAppend(Cleared(s), header, Zeros());
    FeedHeader(s, 51, t, a);
    FeedPayload(AfterHeader(s, 51, t, a), Zeros());
  }

  /** The firmware `Message` object. */
  class Message {
    var addressLength: Byte
    var commandLength: Byte
    var timeout: Byte
    var address: nat
    const command: array<Byte>
    var hasAddressLength: bool
    var hasCommandLength: bool
    var hasTimeout: bool
    var byteIndex: nat
    var firstChecksum: Byte
    var secondChecksum: Byte
    var error: bool

    ghost predicate Valid()
    {
      command.Length == MAX_BUFFER_SIZE
    }

    function State(): Fields
      requires Valid()
      reads this, command
    {
      Fields(addressLength, commandLength, timeout, address, command[..], hasAddressLength,
            hasCommandLength, hasTimeout, byteIndex, Sums(firstChecksum, secondChecksum), error)
    }

    /** `Message()`: a cleared message. */
    constructor ()
      ensures Valid() && fresh(command) && State() == Empty
    {
      command := new Byte[MAX_BUFFER_SIZE](i => 0);
      addressLength, timeout := 0, 0;
      new;
      Clear();
      assert command[..] == Zeros();
    }

    /** `Message(address, command_length, command)`. */
    constructor WithCommand(address: Byte, commandLength: Byte, cmd: array<Byte>)
      requires commandLength <= cmd.Length && commandLength <= MAX_BUFFER_SIZE
      ensures Valid() && fresh(command) && State() == Loaded(address, cmd[..commandLength])
    {
      var buf := new Byte[MAX_BUFFER_SIZE](i => 0);
      var i := 0;
      while i < commandLength
        invariant 0 <= i <= commandLength
        invariant buf[..i] == cmd[..i] && buf[i..] == Zeros()[i..]
      {
        buf[i] := cmd[i];
        i := i + 1;
        assert buf[..i] == buf[..i - 1] + [buf[i - 1]];
      }
      this.address, addressLength, this.commandLength := address, 1, commandLength;
      command := buf;
      timeout := 0;
      hasAddressLength, hasCommandLength, hasTimeout := false, false, false;
      byteIndex, firstChecksum, secondChecksum, error := 0, 0, 0, false;
      new;
      assert command[..] == buf[..i] + buf[i..];
    }

    /** `Reset(address, command_length, command)`: copy the command in and set a one-byte address. */
    method Reset(address: Byte, commandLength: Byte, cmd: array<Byte>)
      requires Valid() && commandLength <= cmd.Length && commandLength <= MAX_BUFFER_SIZE
      modifies this, command
      ensures Valid() && State() == Reloaded(old(State()), address, old(cmd[..commandLength]))
    {
      this.address := address;
      addressLength := 1;
      this.commandLength := commandLength;
      var i := 0;
      while i < commandLength
        modifies command
        invariant 0 <= i <= commandLength
        invariant command[..i] == old(cmd[..i]) && command[i..] == old(command[i..])
        invariant cmd[i..] == old(cmd[i..])
      {
        assert cmd[i] == cmd[i..][0];
        command[i] := cmd[i];
        i := i + 1;
        assert command[..i] == command[..i - 1] + [command[i - 1]];
        assert old(cmd[..i]) == old(cmd[..i - 1]) + [old(cmd[i - 1])];
      }
      assert command[..] == command[..i] + command[i..];
      assert old(command[..])[i..] == old(command[i..]);
      assert command[..] == old(cmd[..commandLength]) + old(command[..])[commandLength..];
    }

    /** `Clear()`. */
    method Clear()
      requires Valid()
      modifies this
      ensures Valid() && State() == Cleared(old(State()))
    {
      hasAddressLength, hasCommandLength, hasTimeout := false, false, false;
      byteIndex, address, commandLength := 0, 0, 0;
      firstChecksum, secondChecksum, error := 0, 0, false;
    }

    /** Consume one byte; true when the frame is complete. */
    method AddByte(b: Byte) returns (complete: bool)
      requires Valid()
      modifies this, command
      ensures Valid() && Stepped(State(), complete) == Step(old(State()), b)
    {
      ghost var s0 := State();
      if !hasAddressLength {
        addressLength := b;
        hasAddressLength := true;
      } else if !hasCommandLength {
        commandLength := b;
        hasCommandLength := true;
      } else if !hasTimeout {
        timeout := b;
        hasTimeout := true;
      } else if byteIndex < addressLength {
        address := Or(address, Shifted(b, byteIndex));
        byteIndex := byteIndex + 1;
      } else if byteIndex - addressLength < commandLength {
        var k := byteIndex - addressLength;
        if k < MAX_BUFFER_SIZE {
          command[k] := b;
          assert command[..] == s0.command[k := b];
        } else {
          error := true;
        }
        byteIndex := byteIndex + 1;
      } else if byteIndex - addressLength == commandLength {
        byteIndex := byteIndex + 1;
        if b != secondChecksum {
          error := true;
        }
        return false;
      } else if byteIndex - addressLength == commandLength + 1 {
        byteIndex := byteIndex + 1;
        if b != firstChecksum {
          error := true;
        }
        return !error;
      }
      firstChecksum := (firstChecksum + b) % 256;
      secondChecksum := (secondChecksum + firstChecksum) % 256;
      return false;
    }

    function Address(): (r: nat)
      requires Valid()
      reads this, command
      ensures r == State().address
    {
      address
    }

    function AddressLength(): (r: Byte)
      requires Valid()
      reads this, command
      ensures r == State().addressLength
    {
      addressLength
    }

    /** `command(&length)`: the buffer and the declared command length. */
    function Command(): (r: (array<Byte>, Byte))
      requires Valid()
      reads this, command
      ensures r.0 == command && r.1 == State().commandLength
    {
      (command, commandLength)
    }

    function Error(): (r: bool)
      requires Valid()
      reads this, command
      ensures r == State().error
    {
      error
    }

    function FirstChecksum(): (r: Byte)
      requires Valid()
      reads this, command
      ensures r == State().sums.first
    {
      firstChecksum
    }

    function SecondChecksum(): (r: Byte)
      requires Valid()
      reads this, command
      ensures r == State().sums.second
    {
      secondChecksum
    }
  }
}
