/** The marked buffer of libcifs/buffer.h: a region b..x with a cursor p and an end mark e. */
module Buffer {
  import opened Bytes

  /** What a buffer means, with the marks counted from its beginning. */
  datatype Block = Block(bytes: seq<byte>, p: nat, e: nat) {
    predicate Valid() { p <= |bytes| && e <= |bytes| }

    /** Bytes between the cursor and the end mark; negative once the end has moved below the cursor. */
    function Left(): int { e - p }

    function Contents(): seq<byte>
      requires Valid()
    {
      bytes[..e]
    }

    function At(i: nat): Block { this.(p := i) }

    function End(n: nat): Block { this.(e := n) }

    function Put(s: seq<byte>): (r: Block)
      requires p + |s| <= |bytes|
      ensures |r.bytes| == |bytes|
    {
      Block(bytes[..p] + s + bytes[p + |s|..], p + |s|, e)
    }
  }

  /** Memory overwritten at `p` shows the region b..x with the same bytes put at the cursor. */
  lemma {:induction false} PutInPlace(was: seq<byte>, mem: seq<byte>, b: nat, p: nat, x: nat, s: seq<byte>)
    requires b <= p && p + |s| <= x <= |was| && mem == was[..p] + s + was[p + |s|..]
    ensures |mem| == |was| && mem[b..x] == was[b..x][..p - b] + s + was[b..x][p - b + |s|..]
  {
    assert was[b..x][..p - b] == was[b..p] && was[b..x][p - b + |s|..] == was[p + |s|..x];
    assert mem[b..x] == mem[b..p] + mem[p..p + |s|] + mem[p + |s|..x];
  }

  class Buf {
    var mem: array<byte>
    var b: nat
    var p: nat
    var e: nat
    var x: nat

    /** b <= e <= x always holds; p <= e does not, because Resize moves e alone. */
    ghost predicate Valid()
      reads this
    {
      b <= e <= x <= mem.Length && b <= p <= x
    }

    ghost function Abs(): (r: Block)
      requires Valid()
      reads this, mem
      ensures r.Valid() && |r.bytes| == x - b
    {
      Block(mem[b..x], p - b, e - b)
    }

    constructor (size: nat)
      ensures Valid() && fresh(mem) && b == p == 0 && e == x == size == mem.Length
    {
      mem := new byte[size];
      b, p, e, x := 0, 0, size, size;
    }

    /** Lays the buffer over a stretch of somebody else's memory. */
    method Setup(region: array<byte>, begin: nat, size: nat)
      requires begin + size <= region.Length
      modifies this
      ensures Valid() && mem == region && b == p == begin && e == x == begin + size
    {
      mem := region;
      b, p, e, x := begin, begin, begin + size, begin + size;
    }

    method Resize(size: int) returns (r: int)
      requires Valid()
      modifies `e
      ensures Valid()
      ensures r == if size > x - b then -1 else 0
      ensures e == if size < 0 then x else if size > x - b then old(e) else b + size
    {
      if size < 0 {
        e := x;
      } else {
        if size > x - b { return -1; }
        e := b + size;
      }
      return 0;
    }

    method Set(i: nat)
      requires Valid() && b + i <= x
      modifies `p
      ensures Valid() && p == b + i
    {
      p := b + i;
    }

    method Inc(n: nat)
      requires Valid() && p + n <= x
      modifies `p
      ensures Valid() && p == old(p) + n
    {
      p := p + n;
    }

    /** memcpy to the cursor, then advance it. */
    method Write(s: seq<byte>)
      requires Valid() && p + |s| <= x
      modifies `p, mem
      ensures Valid() && Abs() == old(Abs()).Put(s) && p == old(p) + |s|
      ensures mem[..] == old(mem[..p]) + s + old(mem[p + |s|..])
    {
      ghost var was := mem[..];
      forall k | 0 <= k < |s| {
        mem[p + k] := s[k];
      }
      assert mem[..] == was[..p] + s + was[p + |s|..];
      PutInPlace(was, mem[..], b, p, x, s);
      p := p + |s|;
    }
  }
}
