/**
 * The host side of the link (class `SerialInterface` of serial_control.py).
 * The serial port is a script of read results, `input`, where `None` is a
 * read that came back empty; once the script is used up every read comes
 * back empty, as with the port's zero timeout. Written bytes go to
 * `written`. Clock readings and the device listing are parameters.
 */
module SerialControl {
  import opened Bytes
  import opened FrameFormat
  import opened HostMessage

  /** The marker bytes 'R' and 'E'. */
  const READY_MARKER: Byte := 82
  const ERROR_MARKER: Byte := 69

  const MAX_RETRIES := 1000
  /** Seconds after the last accepted byte at which `Read` starts a new frame. */
  const STALE_AFTER: real := 0.1
  /** Seconds between two device scans. */
  const LOOKUP_INTERVAL: real := 30.0

  predicate IsMarker(b: Byte)
  {
    b == READY_MARKER || b == ERROR_MARKER
  }

  datatype SlaveState = Ready | Error | Unknown

  /** The state after one read in `GetSlaveState`: a marker decides it, anything else leaves it. */
  function Marked(state: SlaveState, b: Option<Byte>): SlaveState
  {
    if b == Some(READY_MARKER) then Ready
    else if b == Some(ERROR_MARKER) then Error
    else state
  }

  /** The state after a run of reads: the last marker among them. */
  function MarkedAll(state: SlaveState, bs: seq<Option<Byte>>): SlaveState
    decreases |bs|
  {
    if bs == [] then state else MarkedAll(Marked(state, bs[0]), bs[1..])
  }

  /** What a call of `GetSlaveState` does: return `state` after `count` reads, or never return. */
  datatype Polled = Never | Got(state: SlaveState, count: nat)

  function Shift(p: Polled, n: nat): Polled
  {
    if p.Never? then Never else Got(p.state, p.count + n)
  }

  /**
   * The loop of `GetSlaveState` at its head in state `state`: the state it
   * returns and how many scripted reads it consumed, or `Never` when no
   * marker ever arrives.
   */
  function PollFrom(input: seq<Option<Byte>>, state: SlaveState): (r: Polled)
    ensures r.Got? ==> r.state != Unknown && r.count <= |input|
    ensures r.Got? && state == Unknown ==> 1 <= r.count
    decreases |input|
  {
    if input == [] then (if state != Unknown then Got(state, 0) else Never)
    else
      var st := Marked(state, input[0]);
      if st != Unknown && input[0].None? then Got(st, 1) else Shift(PollFrom(input[1..], st), 1)
  }

  /** `GetSlaveState()`. */
  function Poll(input: seq<Option<Byte>>): (r: Polled)
    ensures r.Got? ==> r.state != Unknown && 1 <= r.count <= |input|
  {
    PollFrom(input, Unknown)
  }

  lemma MarkedAllCons(state: SlaveState, input: seq<Option<Byte>>, k: nat)
    requires 1 <= k <= |input|
    ensures MarkedAll(state, input[..k]) == MarkedAll(Marked(state, input[0]), input[1..][..k - 1])
  {
    assert input[..k][0] == input[0] && input[..k][1..] == input[1..][..k - 1];
  }

  /**
   * What the loop of `GetSlaveState` computes: it never returns when no
   * marker ever arrives; otherwise it returns the last marker among the reads
   * it consumed, stopping at the first empty read after a marker (or at the
   * end of the script).
   */
  lemma {:induction false} PollFromMeaning(input: seq<Option<Byte>>, state: SlaveState)
    ensures PollFrom(input, state).Never? <==> MarkedAll(state, input) == Unknown
    ensures PollFrom(input, state).Got? ==>
      var k := PollFrom(input, state).count;
      && PollFrom(input, state).state == MarkedAll(state, input[..k])
      && (k == |input| || (1 <= k && input[k - 1].None?))
      && (forall j :: 1 <= j < k && input[j - 1].None? ==> MarkedAll(state, input[..j]) == Unknown)
    decreases |input|
  {
    if input == [] {
      assert input[..0] == input;
    } else {
      var st := Marked(state, input[0]);
      if st != Unknown && input[0].None? {
        assert st == state;
        assert MarkedAll(state, input[..1]) == MarkedAll(st, []) by {
          MarkedAllCons(state, input, 1);
        }
        MarkedAllStays(st, input[1..]);
        assert MarkedAll(state, input) == MarkedAll(st, input[1..]);
      } else {
        PollFromMeaning(input[1..], st);
        assert MarkedAll(state, input) == MarkedAll(st, input[1..]);
        if PollFrom(input, state).Got? {
          var k := PollFrom(input, state).count;
          assert k == PollFrom(input[1..], st).count + 1;
          MarkedAllCons(state, input, k);
          assert k - 1 == |input[1..]| || (1 <= k - 1 && input[1..][k - 2].None?);
          forall j | 1 <= j < k && input[j - 1].None?
            ensures MarkedAll(state, input[..j]) == Unknown
          {
            MarkedAllCons(state, input, j);
            if j == 1 {
              assert input[1..][..0] == [];
            } else {
              assert input[1..][j - 2] == input[j - 1];
            }
          }
        }
      }
    }
  }

  /** Once a marker has been seen the state stays decided. */
  lemma {:induction false} MarkedAllStays(state: SlaveState, bs: seq<Option<Byte>>)
    requires state != Unknown
    ensures MarkedAll(state, bs) != Unknown
    decreases |bs|
  {
    if bs != [] {
      MarkedAllStays(Marked(state, bs[0]), bs[1..]);
    }
  }

  /** `GetSlaveState` never returns UNKNOWN, and returns exactly when some marker arrives. */
  lemma PollNeverUnknown(input: seq<Option<Byte>>)
    ensures Poll(input).Got? ==> Poll(input).state != Unknown
    ensures Poll(input).Got? <==> MarkedAll(Unknown, input) != Unknown
  {
    PollFromMeaning(input, Unknown);
  }

  /** How a READY wait ends: never, or after `count` reads. */
  datatype Wait = Stuck | ReadyAfter(count: nat)

  /** The READY wait of `Write`: polls until READY. */
  function WaitReady(input: seq<Option<Byte>>): (r: Wait)
    ensures r.ReadyAfter? ==> 1 <= r.count <= |input|
    decreases |input|
  {
    var p := Poll(input);
    if p.Never? then Stuck
    else if p.state == Ready then ReadyAfter(p.count)
    else After(WaitReady(input[p.count..]), p.count)
  }

  /** A wait that ends `w` reads later, started `n` reads in. */
  function After(w: Wait, n: nat): Wait
  {
    if w.Stuck? then Stuck else ReadyAfter(n + w.count)
  }

  /** The READY wait over `input`, having consumed `used` reads without seeing READY. */
  ghost predicate Waiting(input: seq<Option<Byte>>, used: nat)
  {
    && used <= |input|
    && WaitReady(input) == After(WaitReady(input[used..]), used)
  }

  lemma WaitingAtStart(input: seq<Option<Byte>>)
    ensures Waiting(input, 0)
  {
    assert input[0..] == input;
  }

  /** One poll of the READY wait: it never returns, returns READY, or goes on waiting. */
  lemma PollStep(input: seq<Option<Byte>>, used: nat, next: nat)
    requires Waiting(input, used)
    requires Poll(input[used..]).Got? ==> next == used + Poll(input[used..]).count
    ensures Poll(input[used..]).Never? ==> WaitReady(input).Stuck?
    ensures Poll(input[used..]).Got? ==> next <= |input| && input[used..][Poll(input[used..]).count..] == input[next..]
    ensures Poll(input[used..]).Got? && Poll(input[used..]).state == Ready ==> WaitReady(input) == ReadyAfter(next)
    ensures Poll(input[used..]).Got? && Poll(input[used..]).state != Ready ==> Waiting(input, next)
  {
    if Poll(input[used..]).Got? {
      assert input[used..][Poll(input[used..]).count..] == input[next..];
    }
  }

  /** How `Write` ends: acknowledged, raising after the last retry, or waiting forever for a marker. */
  datatype Outcome = Acked | Failed | Stalled

  /**
   * One pass of the retry loop of `Write`: `Write` returns `outcome` in it
   * after `consumed` reads and `sent` frames, or the peer answered ERROR to
   * the one frame sent and it retries.
   */
  datatype Pass = Returns(outcome: Outcome, consumed: nat, sent: nat) | Retries(consumed: nat)

  function Attempt(input: seq<Option<Byte>>): (r: Pass)
    ensures r.consumed <= |input|
    ensures r.Returns? ==> r.sent <= 1 && r.outcome != Failed
    ensures r.Retries? ==> 1 <= r.consumed
  {
    var w := WaitReady(input);
    if w.Stuck? then Returns(Stalled, |input|, 0)
    else
      var ack := Poll(input[w.count..]);
      if ack.Never? then Returns(Stalled, |input|, 1)
      else if ack.state == Ready then Returns(Acked, w.count + ack.count, 1)
      else Retries(w.count + ack.count)
  }

  /** The two polls of a pass that got past the READY wait, `wait` reads in. */
  lemma AttemptSteps(input: seq<Option<Byte>>, wait: nat)
    requires WaitReady(input).ReadyAfter? && wait == WaitReady(input).count
    ensures Poll(input[wait..]).Never? ==> Attempt(input) == Returns(Stalled, |input|, 1)
    ensures Poll(input[wait..]).Got? ==>
      && Attempt(input).consumed == wait + Poll(input[wait..]).count
      && input[wait..][Poll(input[wait..]).count..] == input[Attempt(input).consumed..]
    ensures Poll(input[wait..]).Got? && Poll(input[wait..]).state == Ready ==>
      Attempt(input) == Returns(Acked, Attempt(input).consumed, 1)
    ensures Poll(input[wait..]).Got? && Poll(input[wait..]).state != Ready ==> Attempt(input).Retries?
  {
    if Poll(input[wait..]).Got? {
      assert input[wait..][Poll(input[wait..]).count..] == input[Attempt(input).consumed..];
    }
  }

  /** How the retry loop of `Write` ends, the reads it consumed and how many frames it sent. */
  datatype Run = Run(outcome: Outcome, consumed: nat, sent: nat)

  /** The retry loop of `Write` from retry `retry` on. */
  function Attempts(input: seq<Option<Byte>>, retry: nat): (r: Run)
    requires retry <= MAX_RETRIES
    ensures r.consumed <= |input| && r.sent <= MAX_RETRIES - retry
    decreases MAX_RETRIES - retry
  {
    if retry == MAX_RETRIES then Run(Failed, 0, 0)
    else
      var a := Attempt(input);
      if a.Returns? then Run(a.outcome, a.consumed, a.sent)
      else
        var rest := Attempts(input[a.consumed..], retry + 1);
        Run(rest.outcome, a.consumed + rest.consumed, rest.sent + 1)
  }

  /** `n` copies of `frame`. */
  function Repeat(frame: seq<Byte>, n: nat): seq<Byte>
  {
    if n == 0 then [] else Repeat(frame, n - 1) + frame
  }

  /**
   * The retry loop of `Write` at retry `retry`, having consumed `used` reads
   * and sent `frames` frames, still ends as the whole loop over `input` does.
   */
  ghost predicate Resumes(input: seq<Option<Byte>>, used: nat, frames: nat, retry: nat)
  {
    && used <= |input| && retry <= MAX_RETRIES
    && Attempts(input, 0).outcome == Attempts(input[used..], retry).outcome
    && Attempts(input, 0).consumed == used + Attempts(input[used..], retry).consumed
    && Attempts(input, 0).sent == frames + Attempts(input[used..], retry).sent
  }

  lemma ResumesAtStart(input: seq<Option<Byte>>)
    ensures Resumes(input, 0, 0, 0)
  {
    assert input[0..] == input;
  }

  /** A rejected attempt hands over to the next retry. */
  lemma ResumesAfterRejection(input: seq<Option<Byte>>, used: nat, frames: nat, retry: nat, consumed: nat,
                               nextUsed: nat, nextFrames: nat, nextRetry: nat)
    requires Resumes(input, used, frames, retry) && retry < MAX_RETRIES
    requires Attempt(input[used..]).Retries? && consumed == Attempt(input[used..]).consumed
    requires nextUsed == used + consumed && nextFrames == frames + 1 && nextRetry == retry + 1
    ensures Resumes(input, nextUsed, nextFrames, nextRetry)
    ensures input[used..][consumed..] == input[nextUsed..]
  {
    assert input[used..][consumed..] == input[nextUsed..];
  }

  /** Where the retry loop stops: after the last retry, or in an attempt that returns. */
  lemma ResumesStops(input: seq<Option<Byte>>, used: nat, frames: nat, retry: nat)
    requires Resumes(input, used, frames, retry)
    ensures retry == MAX_RETRIES ==> Attempts(input, 0) == Run(Failed, used, frames)
    ensures retry < MAX_RETRIES && Attempt(input[used..]).Returns? ==>
      Attempts(input, 0) == Run(Attempt(input[used..]).outcome, used + Attempt(input[used..]).consumed,
                                frames + Attempt(input[used..]).sent)
  {
  }

  /** `frames + sent` frames after the prefix, once `sent` more went out. */
  lemma SentMore(prefix: seq<Byte>, frame: seq<Byte>, n: nat, sent: nat, m: nat, before: seq<Byte>, after: seq<Byte>)
    requires sent <= 1 && m == n + sent
    requires before == prefix + Repeat(frame, n) && after == before + Repeat(frame, sent)
    ensures after == prefix + Repeat(frame, m)
  {
    if sent == 1 {
      assert Repeat(frame, 1) == [] + frame;
      assert Repeat(frame, n + 1) == Repeat(frame, n) + frame;
    } else {
      assert Repeat(frame, 0) == [];
    }
  }

  /**
   * `Write` sends at most 1000 frames; it raises only after sending all
   * 1000, and an acknowledgement comes after at least one frame.
   */
  lemma {:induction false} AttemptsBounded(input: seq<Option<Byte>>, retry: nat)
    requires retry <= MAX_RETRIES
    ensures Attempts(input, retry).outcome == Failed ==> Attempts(input, retry).sent == MAX_RETRIES - retry
    ensures Attempts(input, retry).outcome == Acked ==> Attempts(input, retry).sent >= 1
    decreases MAX_RETRIES - retry
  {
    if retry < MAX_RETRIES && Attempt(input).Retries? {
      AttemptsBounded(input[Attempt(input).consumed..], retry + 1);
    }
  }

  /** The replies of one failed attempt: READY, then ERROR after the frame. */
  function Rejection(): seq<Option<Byte>>
  {
    [Some(READY_MARKER), None, Some(ERROR_MARKER), None]
  }

  /** `input` is `n` rejections one after the other. */
  predicate RejectedTimes(input: seq<Option<Byte>>, n: nat)
  {
    if n == 0 then input == [] else 4 <= |input| && input[..4] == Rejection() && RejectedTimes(input[4..], n - 1)
  }

  /** A marker followed by an empty read is one complete poll. */
  lemma MarkerPoll(m: Byte, rest: seq<Option<Byte>>)
    requires IsMarker(m)
    ensures Poll([Some(m), None] + rest) == Got(Marked(Unknown, Some(m)), 2)
  {
    var xs := [Some(m), None] + rest;
    var st := Marked(Unknown, Some(m));
    assert xs[0] == Some(m) && xs[1..] == [None] + rest && xs[1..][0] == None;
    assert PollFrom(xs[1..], st) == Got(st, 1);
    assert PollFrom(xs, Unknown) == Shift(PollFrom(xs[1..], st), 1);
  }

  /** One rejected attempt consumes its four reads, sends one frame, and the retry loop goes on. */
  lemma AttemptRejected(input: seq<Option<Byte>>, rest: seq<Option<Byte>>, retry: nat)
    requires retry < MAX_RETRIES && input == Rejection() + rest
    ensures Attempts(input, retry) == Run(Attempts(rest, retry + 1).outcome, 4 + Attempts(rest, retry + 1).consumed,
                                          Attempts(rest, retry + 1).sent + 1)
  {
    var tail := [Some(ERROR_MARKER), None] + rest;
    assert input == [Some(READY_MARKER), None] + tail;
    MarkerPoll(READY_MARKER, tail);
    assert WaitReady(input) == ReadyAfter(2);
    assert input[2..] == tail;
    MarkerPoll(ERROR_MARKER, rest);
    assert tail[2..] == rest;
    assert input[4..] == rest;
    assert Attempt(input) == Retries(4);
  }

  /**
   * A peer that rejects every frame: after 1000 READY/ERROR exchanges
   * `Write` raises, having sent the frame 1000 times.
   */
  lemma {:induction false} RejectedThroughout(input: seq<Option<Byte>>, n: nat, retry: nat)
    requires retry + n == MAX_RETRIES && RejectedTimes(input, n)
    ensures Attempts(input, retry) == Run(Failed, |input|, n)
    decreases n
  {
    if n > 0 {
      assert input == Rejection() + input[4..] by {
        assert input == input[..4] + input[4..];
      }
      AttemptRejected(input, input[4..], retry);
      RejectedThroughout(input[4..], n - 1, retry + 1);
    }
  }

  /** Rejected once, then acknowledged: `Write` returns after sending the frame twice. */
  lemma ErrorThenReady()
    ensures Attempts([Some(READY_MARKER), None, Some(ERROR_MARKER), None,
                      Some(READY_MARKER), None, Some(READY_MARKER), None], 0) == Run(Acked, 8, 2)
  {
    var later := [Some(READY_MARKER), None, Some(READY_MARKER), None];
    var input := [Some(READY_MARKER), None, Some(ERROR_MARKER), None,
                  Some(READY_MARKER), None, Some(READY_MARKER), None];
    assert input == Rejection() + later;
    AttemptRejected(input, later, 0);
    MarkerPoll(READY_MARKER, later[2..]);
    assert later == [Some(READY_MARKER), None] + later[2..];
    MarkerPoll(READY_MARKER, []);
    assert later[2..] == [Some(READY_MARKER), None] + [];
  }

  /** Whether `sub` occurs in `s` (Python's `sub in s` on strings). */
  predicate Contains(s: string, sub: string)
  {
    exists i | 0 <= i <= |s| - |sub| :: OccursAt(s, sub, i)
  }

  predicate OccursAt(s: string, sub: string, i: int)
    requires 0 <= i <= |s| - |sub|
  {
    s[i..i + |sub|] == sub
  }

  /** `["/dev/" + x for x in listing if basename in x]`. */
  function Matching(listing: seq<string>, basename: string): seq<string>
  {
    if listing == [] then []
    else (if Contains(listing[0], basename) then ["/dev/" + listing[0]] else []) + Matching(listing[1..], basename)
  }

  /** `[x for x in ports if x not in seen]`. */
  function Unseen(ports: seq<string>, seen: seq<string>): seq<string>
  {
    if ports == [] then []
    else (if ports[0] !in seen then [ports[0]] else []) + Unseen(ports[1..], seen)
  }

  /** A path is listed exactly when it names a device whose name contains the basename. */
  lemma {:induction false} MatchingMembers(listing: seq<string>, basename: string, p: string)
    ensures p in Matching(listing, basename)
      <==> exists i :: 0 <= i < |listing| && Contains(listing[i], basename) && p == "/dev/" + listing[i]
    decreases |listing|
  {
    if listing != [] {
      MatchingMembers(listing[1..], basename, p);
      if exists i :: 0 <= i < |listing[1..]| && Contains(listing[1..][i], basename) && p == "/dev/" + listing[1..][i] {
        var i :| 0 <= i < |listing[1..]| && Contains(listing[1..][i], basename) && p == "/dev/" + listing[1..][i];
        assert listing[i + 1] == listing[1..][i];
      }
      if exists i :: 0 <= i < |listing| && Contains(listing[i], basename) && p == "/dev/" + listing[i] {
        var i :| 0 <= i < |listing| && Contains(listing[i], basename) && p == "/dev/" + listing[i];
        if i > 0 {
          assert listing[1..][i - 1] == listing[i];
        }
      }
    }
  }

  /**
   * The unseen ports are the ports not in `seen`, and the first of them is
   * the first such port in listing order.
   */
  lemma {:induction false} UnseenMembers(ports: seq<string>, seen: seq<string>)
    ensures forall p :: p in Unseen(ports, seen) <==> p in ports && p !in seen
    ensures Unseen(ports, seen) != [] ==>
      exists i :: 0 <= i < |ports| && ports[i] == Unseen(ports, seen)[0] && (forall j :: 0 <= j < i ==> ports[j] in seen)
    decreases |ports|
  {
    if ports != [] {
      UnseenMembers(ports[1..], seen);
      assert ports == [ports[0]] + ports[1..];
      if ports[0] in seen && Unseen(ports, seen) != [] {
        var i :| 0 <= i < |ports[1..]| && ports[1..][i] == Unseen(ports[1..], seen)[0]
                 && (forall j :: 0 <= j < i ==> ports[1..][j] in seen);
        forall j | 0 <= j < i + 1
          ensures ports[j] in seen
        {
          if j > 0 {
            assert ports[j] == ports[1..][j - 1];
          }
        }
        assert ports[i + 1] == Unseen(ports, seen)[0];
      }
    }
  }

  /** All fields of a `SerialInterface`; `port` is `None` until a device is found. */
  datatype Link = Link(
    lastPortLookupTime: real,
    oldPorts: seq<string>,
    port: Option<string>,
    lastReadTime: real,
    message: Parser,
    deviceBasename: string,
    reading: bool,
    emptyReads: nat,
    input: seq<Option<Byte>>,
    written: seq<Byte>)

  /**
   * `ReconnectIfNeeded()` at time `now` with `listing` the names in /dev/
   * and `connectedAt` the time after connecting.
   */
  function Reconnected(h: Link, now: real, listing: seq<string>, connectedAt: real): Link
  {
    if now > h.lastPortLookupTime + LOOKUP_INTERVAL then
      var found := Unseen(Matching(listing, h.deviceBasename), h.oldPorts);
      if found != [] then h.(port := Some(found[0]), oldPorts := h.oldPorts + found, lastPortLookupTime := connectedAt)
      else h
    else h
  }

  /**
   * `ReconnectIfNeeded` scans at most once per 30 seconds; `old_ports` only
   * grows; a new port is the first matching device path not seen before, and
   * the lookup time moves only when one was found.
   */
  lemma ReconnectProperties(h: Link, now: real, listing: seq<string>, connectedAt: real)
    ensures var r := Reconnected(h, now, listing, connectedAt);
      && (now <= h.lastPortLookupTime + LOOKUP_INTERVAL ==> r == h)
      && |h.oldPorts| <= |r.oldPorts| && r.oldPorts[..|h.oldPorts|] == h.oldPorts
      && (r.lastPortLookupTime != h.lastPortLookupTime ==> r.port != h.port || r.oldPorts != h.oldPorts)
      && (r != h ==>
            && r.port.Some? && r.port.value !in h.oldPorts && r.lastPortLookupTime == connectedAt
            && exists i :: 0 <= i < |listing| && Contains(listing[i], h.deviceBasename) && r.port.value == "/dev/" + listing[i])
      && r.input == h.input && r.written == h.written && r.message == h.message
  {
    var r := Reconnected(h, now, listing, connectedAt);
    var matching := Matching(listing, h.deviceBasename);
    UnseenMembers(matching, h.oldPorts);
    if r != h {
      var found := Unseen(matching, h.oldPorts);
      assert found[0] in found;
      MatchingMembers(listing, h.deviceBasename, found[0]);
    }
  }

  /** The link after a `Read`, and the completed message it returned, if any. */
  datatype Reading = Reading(link: Link, completed: Option<Parser>)

  /** One `Read(no_checksums, expected_length)` at time `now`. */
  function ReadStep(h: Link, now: real, noChecksums: bool, expectedLength: int): Reading
  {
    var m := if now - h.lastReadTime > STALE_AFTER then Fresh(expectedLength) else h.message;
    var b := if h.input == [] then None else h.input[0];
    var h1 := h.(message := m, input := if h.input == [] then [] else h.input[1..]);
    if !(b.Some? && (h.reading || !IsMarker(b.value))) then Reading(h1.(emptyReads := h.emptyReads + 1), None)
    else Taken(h1, b.value, now, noChecksums, expectedLength)
  }

  /**
   * The second half of `Read`: the accepted byte `b` goes to the parser, and
   * a complete or failed frame makes way for a fresh parser.
   */
  function Taken(h: Link, b: Byte, now: real, noChecksums: bool, expectedLength: int): Reading
  {
    var st := Step(h.message, b, noChecksums);
    var h2 := h.(emptyReads := 0, reading := true, lastReadTime := now, message := st.next);
    if st.complete then Reading(h2.(message := Fresh(expectedLength), reading := false), Some(st.next))
    else if st.next.error then Reading(h2.(message := Fresh(expectedLength), reading := false), None)
    else Reading(h2, None)
  }

  /**
   * Between frames, an empty read or a marker byte is dropped and counted;
   * the parser only loses a stale frame.
   */
  lemma MarkersBetweenFramesDropped(h: Link, now: real, nc: bool, e: int)
    requires !h.reading && (h.input == [] || h.input[0].None? || IsMarker(h.input[0].value))
    ensures var r := ReadStep(h, now, nc, e);
      && r.completed.None? && r.link.emptyReads == h.emptyReads + 1 && !r.link.reading
      && r.link.message == (if now - h.lastReadTime > STALE_AFTER then Fresh(e) else h.message)
      && r.link.lastReadTime == h.lastReadTime
  {
  }

  /** A byte more than 0.1 s after the last accepted one starts a new frame. */
  lemma StaleFrameRestarted(h: Link, now: real, nc: bool, e: int)
    requires now - h.lastReadTime > STALE_AFTER && h.input != [] && h.input[0].Some?
    requires h.reading || !IsMarker(h.input[0].value)
    ensures var r := ReadStep(h, now, nc, e);
      var st := Step(Fresh(e), h.input[0].value, nc);
      && (r.completed.Some? <==> st.complete) && (st.complete ==> r.completed.value == st.next)
      && r.link.message == (if st.complete || st.next.error then Fresh(e) else st.next)
      && r.link.lastReadTime == now && r.link.emptyReads == 0
  {
  }

  /**
   * Completion is checked before the error flag: a completed frame is
   * returned even when it is flagged (possible with `no_checksums`), while a
   * flagged frame that did not complete is discarded.
   */
  lemma CompletionBeforeError(h: Link, now: real, nc: bool, e: int)
    requires now - h.lastReadTime <= STALE_AFTER && h.input != [] && h.input[0].Some?
    requires h.reading || !IsMarker(h.input[0].value)
    ensures var r := ReadStep(h, now, nc, e);
      var st := Step(h.message, h.input[0].value, nc);
      && (st.complete ==> r.completed == Some(st.next) && r.link.message == Fresh(e) && !r.link.reading)
      && (!st.complete && st.next.error ==> r.completed.None? && r.link.message == Fresh(e) && !r.link.reading)
      && (!st.complete && !st.next.error ==> r.completed.None? && r.link.message == st.next && r.link.reading)
  {
  }

  /** With `no_checksums`, a flagged frame is still delivered on its last command byte. */
  lemma FlaggedFrameDeliveredWithoutChecksums(h: Link, now: real, e: int)
    requires now - h.lastReadTime <= STALE_AFTER && h.reading && h.input != [] && h.input[0].Some?
    requires PastAddress(h.message) && h.message.byteIndex - h.message.addressLength + 1 == h.message.commandLength
    requires h.message.error
    ensures ReadStep(h, now, true, e).completed.Some? && ReadStep(h, now, true, e).completed.value.error
  {
    NoChecksumsCompletion(h.message, h.input[0].value);
    StepKeepsError(h.message, h.input[0].value, true);
  }

  /** The host link object. */
  class SerialInterface {
    var lastPortLookupTime: real
    var oldPorts: seq<string>
    var port: Option<string>
    var lastReadTime: real
    var message: Message
    const deviceBasename: string
    const baud: int
    var reading: bool
    var emptyReads: nat
    var input: seq<Option<Byte>>
    var written: seq<Byte>

    function State(): Link
      reads this, message
    {
      Link(lastPortLookupTime, oldPorts, port, lastReadTime, message.State(), deviceBasename,
           reading, emptyReads, input, written)
    }

    /** Everything but the port's input and output still as in `h`. */
    predicate Keeps(h: Link)
      reads this, message
    {
      && lastPortLookupTime == h.lastPortLookupTime && oldPorts == h.oldPorts && port == h.port
      && lastReadTime == h.lastReadTime && message.State() == h.message
      && deviceBasename == h.deviceBasename && reading == h.reading && emptyReads == h.emptyReads
    }

    /**
     * `SerialInterface(device_basename, baud)` at time `now`, with the port
     * delivering `input`.
     */
    constructor (deviceBasename: string, baud: int, now: real, listing: seq<string>, connectedAt: real,
                 input: seq<Option<Byte>>)
      ensures State() == Reconnected(Link(0.0, [], None, now, Fresh(-1), deviceBasename, false, 0, input, []),
                                     now, listing, connectedAt)
    {
      lastPortLookupTime := 0.0;
      oldPorts := [];
      port := None;
      lastReadTime := now;
      this.baud := baud;
      message := new Message(-1);
      this.deviceBasename := deviceBasename;
      reading := false;
      emptyReads := 0;
      this.input := input;
      written := [];
      new;
      ReconnectIfNeeded(now, listing, connectedAt);
    }

    /** `ReconnectIfNeeded()`; connecting itself is not modelled. */
    method ReconnectIfNeeded(now: real, listing: seq<string>, connectedAt: real)
      modifies this
      ensures message == old(message)
      ensures State() == Reconnected(old(State()), now, listing, connectedAt)
    {
      if now > lastPortLookupTime + LOOKUP_INTERVAL {
        var serialPorts := Matching(listing, deviceBasename);
        var newPorts := Unseen(serialPorts, oldPorts);
        if newPorts != [] {
          port := Some(newPorts[0]);
          oldPorts := oldPorts + newPorts;
          lastPortLookupTime := connectedAt;
        }
      }
    }

    /** `MessageToBytes(address, command, timeout)`: the frame with its checksum. */
    method MessageToBytes(address: Byte, command: seq<Byte>, timeout: Byte) returns (asBytes: seq<Byte>)
      requires Fits(command)
      ensures asBytes == Frame(address, command, timeout)
    {
      var cmd := command + [0];
      var lenAddr := 1;
      var lenCommand := |cmd|;
      asBytes := [lenAddr, lenCommand, timeout, address];
      for i := 0 to |cmd|
        invariant asBytes == [1, |cmd|, timeout, address] + cmd[..i]
      {
        asBytes := asBytes + [cmd[i]];
        assert cmd[..i + 1] == cmd[..i] + [cmd[i]];
      }
      assert asBytes == Body(address, command, timeout);
      var first, second := Fletcher16Checksum(asBytes);
      asBytes := asBytes + [second, first];
    }

    /** `Fletcher16Checksum(data)`: the two running sums, reduced modulo 256. */
    method Fletcher16Checksum(data: seq<Byte>) returns (firstSum: Byte, secondSum: Byte)
      ensures Sums(firstSum, secondSum) == Checksum(data)
      ensures firstSum == Sum(data) % 256 && secondSum == PrefixSums(data) % 256
    {
      firstSum, secondSum := 0, 0;
      for i := 0 to |data|
        invariant Sums(firstSum, secondSum) == Checksum(data[..i])
      {
        ChecksumSnoc(data[..i], data[i]);
        assert data[..i + 1] == data[..i] + [data[i]];
        firstSum := (firstSum + data[i]) % 256;
        secondSum := (secondSum + firstSum) % 256;
      }
      assert data[..|data|] == data;
      ChecksumClosedForm(data);
    }

    /** `GetSlaveState()`; `None` when no marker ever arrives and the loop never ends. */
    method GetSlaveState() returns (state: Option<SlaveState>)
      modifies this`input
      ensures state.Some? <==> Poll(old(input)).Got?
      ensures state.Some? ==> state.value == Poll(old(input)).state && input == old(input)[Poll(old(input)).count..]
      ensures state.None? ==> input == []
    {
      var st := Unknown;
      var byte: Option<Byte> := None;
      var rest := input;
      while st == Unknown || byte.Some?
        invariant |rest| <= |input| && rest == input[|input| - |rest|..]
        invariant (st == Unknown || byte.Some?) ==> Poll(input) == Shift(PollFrom(rest, st), |input| - |rest|)
        invariant !(st == Unknown || byte.Some?) ==> Poll(input) == Got(st, |input| - |rest|)
        decreases |rest|, if byte.Some? then 1 else 0
      {
        if rest == [] && st == Unknown {
          input := [];
          return None;
        }
        ghost var before, was := rest, st;
        byte := if rest == [] then None else rest[0];
        rest := if rest == [] then [] else rest[1..];
        if byte.Some? {
          if byte.value == READY_MARKER {
            st := Ready;
          }
          if byte.value == ERROR_MARKER {
            st := Error;
          }
        }
        assert before != [] ==> st == Marked(was, before[0]) && rest == before[1..];
        assert before == [] ==> st == was && byte.None?;
      }
      input := rest;
      return Some(st);
    }

    /** The READY wait of `Write`. */
    method WaitForReady() returns (ready: bool)
      modifies this`input
      ensures ready <==> WaitReady(old(input)).ReadyAfter?
      ensures ready ==> input == old(input)[WaitReady(old(input)).count..]
      ensures !ready ==> input == []
    {
      ghost var r0 := input;
      ghost var used: nat := 0;
      WaitingAtStart(r0);
      var st := GetSlaveState();
      if st.Some? {
        used := Poll(r0[0..]).count;
      }
      PollStep(r0, 0, used);
      while st != Some(Ready)
        invariant used <= |r0| && st != Some(Unknown)
        invariant st.None? ==> WaitReady(r0).Stuck? && input == []
        invariant st == Some(Ready) ==> WaitReady(r0) == ReadyAfter(used) && input == r0[used..]
        invariant st == Some(Error) ==> Waiting(r0, used) && input == r0[used..]
        decreases |input| + if st.Some? then 1 else 0
      {
        if st.None? {
          return false;
        }
        assert st.Some? && st.value != Unknown && st.value != Ready;
        assert st.value.Error?;
        assert st == Some(Error);
        ghost var before := used;
        st := GetSlaveState();
        if st.Some? {
          used := before + Poll(r0[before..]).count;
        }
        PollStep(r0, before, used);
      }
      return true;
    }

    /** `self.serial.write(chr(b))` for each byte of `bytes`, in order. */
    method SendBytes(bytes: seq<Byte>)
      modifies this`written
      ensures input == old(input) && written == old(written) + bytes
    {
      ghost var input0, written0 := input, written;
      for k := 0 to |bytes|
        invariant input == input0 && written == written0 + bytes[..k]
      {
        written := written + [bytes[k]];
        assert bytes[..k + 1] == bytes[..k] + [bytes[k]];
      }
      assert bytes[..|bytes|] == bytes;
    }

    /**
     * One pass of the retry loop of `Write`: wait for READY, send the frame,
     * read the reply. `consumed` and `sent` count the reads and frames.
     */
    method TryOnce(address: Byte, command: seq<Byte>, timeout: Byte)
      returns (result: Option<Outcome>, ghost consumed: nat, ghost sent: nat)
      requires Fits(command)
      modifies this`input, this`written
      ensures result.Some? <==> Attempt(old(input)).Returns?
      ensures result.Some? ==> result.value == Attempt(old(input)).outcome && sent == Attempt(old(input)).sent
      ensures result.None? ==> sent == 1
      ensures consumed == Attempt(old(input)).consumed && input == old(input)[consumed..]
      ensures written == old(written) + Repeat(Frame(address, command, timeout), sent)
    {
      ghost var input0 := input;
      var ready := WaitForReady();
      if !ready {
        assert Repeat(Frame(address, command, timeout), 0) == [];
        assert input0[|input0|..] == [];
        return Some(Stalled), |input0|, 0;
      }
      AttemptSteps(input0, WaitReady(input0).count);
      var bytes := MessageToBytes(address, command, timeout);
      SendBytes(bytes);
      assert Repeat(bytes, 1) == bytes by {
        assert Repeat(bytes, 1) == [] + bytes;
      }
      var slaveState := GetSlaveState();
      consumed, sent := Attempt(input0).consumed, 1;
      if slaveState.None? {
        assert input0[|input0|..] == [];
        return Some(Stalled), consumed, sent;
      }
      if slaveState.value == Ready {
        return Some(Acked), consumed, sent;
      }
      return None, consumed, sent;
    }

    /**
     * `Write(address, command, timeout)` at time `now`: reconnect if due,
     * then up to 1000 times wait for READY, send the frame and wait for the
     * reply; READY ends it, ERROR retries.
     */
    method Write(address: Byte, command: seq<Byte>, timeout: Byte, now: real, listing: seq<string>, connectedAt: real)
      returns (outcome: Outcome)
      requires Fits(command)
      modifies this
      ensures message == old(message)
      ensures var h := Reconnected(old(State()), now, listing, connectedAt);
        && outcome == Attempts(h.input, 0).outcome
        && Keeps(h) && input == h.input[Attempts(h.input, 0).consumed..]
        && written == h.written + Repeat(Frame(address, command, timeout), Attempts(h.input, 0).sent)
    {
      ReconnectIfNeeded(now, listing, connectedAt);
      outcome := SendWithRetries(address, command, timeout);
    }

    /** The retry loop of `Write`, after the reconnection check. */
    method SendWithRetries(address: Byte, command: seq<Byte>, timeout: Byte) returns (outcome: Outcome)
      requires Fits(command)
      modifies this`input, this`written
      ensures outcome == Attempts(old(input), 0).outcome
      ensures input == old(input)[Attempts(old(input), 0).consumed..]
      ensures written == old(written) + Repeat(Frame(address, command, timeout), Attempts(old(input), 0).sent)
    {
      ghost var input0, written0 := input, written;
      ghost var frame := Frame(address, command, timeout);
      ghost var used: nat, frames: nat := 0, 0;
      ResumesAtStart(input0);
      var retry := 0;
      while retry < MAX_RETRIES
        invariant Resumes(input0, used, frames, retry)
        invariant input == input0[used..] && written == written0 + Repeat(frame, frames)
      {
        ghost var wb := written;
        var result, consumed, sent := TryOnce(address, command, timeout);
        if result.Some? {
          ResumesStops(input0, used, frames, retry);
          SentMore(written0, frame, frames, sent, Attempts(input0, 0).sent, wb, written);
          return result.value;
        }
        ghost var used1, frames1, retry1 := used, frames, retry;
        used, frames := used + consumed, frames + 1;
        retry := retry + 1;
        ResumesAfterRejection(input0, used1, frames1, retry1, consumed, used, frames, retry);
        SentMore(written0, frame, frames1, sent, frames, wb, written);
      }
      ResumesStops(input0, used, frames, retry);
      SentMore(written0, frame, frames, 0, Attempts(input0, 0).sent, written, written);
      return Failed;
    }

    /**
     * `Read(no_checksums, expected_length)` at time `now`: the completed
     * message, or null.
     */
    method Read(now: real, noChecksums: bool, expectedLength: int) returns (result: Message?)
      modifies this, message
      ensures State() == ReadStep(old(State()), now, noChecksums, expectedLength).link
      ensures (result != null) == ReadStep(old(State()), now, noChecksums, expectedLength).completed.Some?
      ensures result != null ==> result.State() == ReadStep(old(State()), now, noChecksums, expectedLength).completed.value
    {
      if now - lastReadTime > STALE_AFTER {
        message := new Message(expectedLength);
      }
      var byte: Option<Byte> := None;
      if input != [] {
        byte := input[0];
        input := input[1..];
      }
      if !(byte.Some? && (reading || !IsMarker(byte.value))) {
        emptyReads := emptyReads + 1;
        return null;
      }
      result := Take(byte.value, now, noChecksums, expectedLength);
    }

    /** Hand an accepted byte to the parser (the tail of `Read`). */
    method Take(b: Byte, now: real, noChecksums: bool, expectedLength: int) returns (result: Message?)
      modifies this, message
      ensures State() == Taken(old(State()), b, now, noChecksums, expectedLength).link
      ensures (result != null) == Taken(old(State()), b, now, noChecksums, expectedLength).completed.Some?
      ensures result != null ==> result.State() == Taken(old(State()), b, now, noChecksums, expectedLength).completed.value
    {
      emptyReads := 0;
      reading := true;
      lastReadTime := now;
      var complete := message.AddByte(b, noChecksums);
      if complete {
        result := message;
        message := new Message(expectedLength);
        reading := false;
        return result;
      } else if message.Error() {
        message := new Message(expectedLength);
        reading := false;
      }
      return null;
    }

    /** `Clear()`: drop the frame being read. */
    method Clear()
      modifies this
      ensures State() == old(State()).(message := Fresh(-1))
    {
      message := new Message(-1);
    }
  }
}
