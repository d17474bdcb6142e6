/**
 * The wire frame the host encoder emits:
 *   [address_length = 1, command_length, timeout, address, command..., 0, second_sum, first_sum]
 * The command is always sent with a trailing NUL, which command_length counts.
 */
module FrameFormat {
  import opened Bytes

  /** A command fits in a frame when its length plus the trailing NUL fits in one byte. */
  predicate Fits(command: seq<Byte>)
  {
    |command| + 1 < 256
  }

  /** Everything the checksum covers: the four header bytes and the NUL-terminated command. */
  function Body(address: Byte, command: seq<Byte>, timeout: Byte): (r: seq<Byte>)
    requires Fits(command)
    ensures |r| == |command| + 5
  {
    [1, |command| + 1, timeout, address] + command + [0]
  }

  /** The complete frame: the body followed by its sums, second sum first. */
  function Frame(address: Byte, command: seq<Byte>, timeout: Byte): (r: seq<Byte>)
    requires Fits(command)
    ensures |r| == |command| + 7
    ensures r[0] == 1 && r[1] == |command| + 1 && r[2] == timeout && r[3] == address
    ensures r[4..|command| + 4] == command && r[|command| + 4] == 0
    ensures r[|command| + 5] == Checksum(r[..|command| + 5]).second
    ensures r[|command| + 6] == Checksum(r[..|command| + 5]).first
  {
    var body := Body(address, command, timeout);
    var sums := Checksum(body);
    assert (body + [sums.second, sums.first])[..|command| + 5] == body;
    body + [sums.second, sums.first]
  }

  /** The frame splits into the header, the NUL-terminated command and the two sums. */
  lemma FrameParts(address: Byte, command: seq<Byte>, timeout: Byte)
    requires Fits(command)
    ensures var body := Body(address, command, timeout);
      Frame(address, command, timeout)
        == [1, |command| + 1, timeout, address] + (command + [0])
           + [Checksum(body).second, Checksum(body).first]
  {
  }

  /**
   * What the calls of a parser's `AddByte` return over a frame: false for the
   * four header bytes, the quiet payload calls and the second checksum byte;
   * only the call on the last byte may differ.
   */
  lemma QuietThenLast(mid: seq<bool>, last: bool)
    requires forall i :: 0 <= i < |mid| ==> !mid[i]
    ensures var out := [false, false, false, false] + (mid + [false, last]);
      && |out| == |mid| + 6
      && (forall i :: 0 <= i < |mid| + 5 ==> !out[i]) && out[|mid| + 5] == last
  {
    var out := [false, false, false, false] + (mid + [false, last]);
    forall i | 0 <= i < |mid| + 5
      ensures !out[i]
    {
      if 4 <= i < 4 + |mid| {
        assert out[i] == mid[i - 4];
      }
    }
  }
}
