/** The stream socket as the client sees it. The peer's bytes are finite; how recv and send cut them up,
    and when they fail, is decided by arbitrary finite scripts. */
module Sockets {
  import opened Bytes

  /** One answer of the kernel: move at most `max` bytes (0 is a stall), or fail. */
  datatype Turn = Move(max: nat) | Fail

  class Socket {
    var input: seq<byte>
    var turns: seq<Turn>
    var output: seq<byte>

    /** No call is going to fail while bytes are still to come. */
    ghost predicate Healthy()
      reads this
    {
      Fail !in turns
    }

    /** recv. Once the script is over it delivers whatever was asked for, and fails at the end of input. */
    method Recv(buf: array<byte>, at: nat, n: nat) returns (r: int)
      requires at + n <= buf.Length
      modifies `input, `turns, buf
      ensures r <= n
      ensures r < 0 ==> input == old(input) && buf[..] == old(buf[..])
      ensures 0 <= r ==> r <= |old(input)| && input == old(input)[r..]
      ensures 0 <= r ==> buf[..] == old(buf[..at]) + old(input)[..r] + old(buf[at + r..])
      ensures |input| + |turns| <= old(|input| + |turns|)
      ensures 0 <= r && 0 < n ==> |input| + |turns| < old(|input| + |turns|)
      ensures 0 < n && old(input != [] || turns != []) ==> |input| + |turns| < old(|input| + |turns|)
      ensures old(Healthy()) ==> Healthy() && (r < 0 ==> n > 0 && input == [])
    {
      r := n;
      if turns != [] {
        var turn := turns[0];
        turns := turns[1..];
        if turn == Fail { return -1; }
        r := Min(n, turn.max);
      } else if n > 0 && input == [] {
        return -1;
      }
      r := Min(r, |input|);
      ghost var was := buf[..];
      forall k | 0 <= k < r {
        buf[at + k] := input[k];
      }
      assert buf[..] == was[..at] + input[..r] + was[at + r..];
      input := input[r..];
    }

    /** send. Once the script is over it takes everything offered. */
    method Send(data: seq<byte>) returns (r: int)
      modifies `output, `turns
      ensures r <= |data|
      ensures output == if r < 0 then old(output) else old(output) + data[..r]
      ensures 0 <= r && data != [] ==> |data| - r + |turns| < |data| + old(|turns|)
      ensures old(Healthy()) ==> Healthy() && 0 <= r
    {
      r := |data|;
      if turns != [] {
        var turn := turns[0];
        turns := turns[1..];
        if turn == Fail { return -1; }
        r := Min(r, turn.max);
      }
      output := output + data[..r];
    }
  }
}
