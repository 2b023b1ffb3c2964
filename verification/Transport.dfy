/** libcifs/transport.c: the three receivers that share one stream, the sender, and the packet layer
    that works in place on the connection's two buffers. */
module Transport {
  import opened Bytes
  import opened Buffer
  import opened Sockets
  import opened Framing
  import opened Streams

  /** CIFS_MAX_BUFFER + 4: the largest frame a 16-bit length can announce. */
  const CAPACITY := 65535 + 4

  class Packet {
    const p: Buf
    const b: Buf

    constructor ()
      ensures Valid() && fresh(p) && fresh(b) && fresh(p.mem) && fresh(b.mem)
      ensures p.p == 0 && p.e == p.mem.Length == 65539 && b.b == b.p == b.e == b.x == 0
    {
      p := new Buf(CAPACITY);
      b := new Buf(0);
    }

    ghost predicate Valid()
      reads this, p, b
    {
      p != b && p.Valid() && b.Valid() && p.b == 0 && p.x == p.mem.Length == CAPACITY
    }

    /** The byte block is open for writing behind the parameter words. */
    ghost predicate Open()
      reads this, p, b, p.mem
    {
      Valid() && b.mem == p.mem && b.b == HEADER_SIZE + 2 * p.mem[36] as int && b.x == CAPACITY
      && p.mem[0] == 0 && p.mem[4..8] == MAGIC
    }

    /** The message under construction. */
    ghost function Draft(): Msg
      requires Open()
      reads this, p, b, p.mem
    {
      Msg(p.mem[1], p.mem[4..36], p.mem[37..b.b - 2], p.mem[b.b..b.p])
    }

    method Setup(cmd: byte, wordsSize: nat)
      requires Valid() && wordsSize <= 510
      requires p.mem[0] == 0 && p.mem[4..8] == MAGIC
      modifies p, b, p.mem
      ensures p.mem == old(p.mem) && Open()
      ensures Draft().Command() == cmd && Draft().data == [] && |Draft().words| == (wordsSize + 1) / 2 * 2
      ensures Draft().header == old(p.mem[4..36])[4 := cmd] && Draft().nbtFlags == old(p.mem[1])
      ensures Draft().words == old(p.mem[37..37 + (wordsSize + 1) / 2 * 2])
    {
      var r := p.Resize(-1);
      p.mem[8] := cmd;
      var wc := (wordsSize + 1) / 2;
      p.mem[36] := wc;
      var off := HEADER_SIZE + 2 * wc;
      b.Setup(p.mem, p.b + off, p.e - p.b - off);
    }

    /** h->w[i] = v */
    method PutWord(i: nat, v: nat)
      requires Open() && 2 * i < |Draft().words| && v < 0x1_0000
      modifies p.mem
      ensures Open()
      ensures Draft() == old(Draft().(words := Draft().words[..2 * i] + PutLe16(v) + Draft().words[2 * i + 2..]))
    {
      ghost var was := p.mem[..];
      p.mem[37 + 2 * i] := v % 256;
      p.mem[38 + 2 * i] := v / 256;
      WordPut(was, p.mem[..], i, v, b.b - 2);
      OtherParts(was, p.mem[..], i, b.b, b.p);
      assert p.mem[..][37..b.b - 2] == p.mem[37..b.b - 2] && p.mem[..][b.b..b.p] == p.mem[b.b..b.p];
    }

    static lemma {:induction false} OtherParts(was: seq<byte>, mem: seq<byte>, i: nat, begin: nat, end: nat)
      requires 41 + 2 * i <= begin <= end <= |was| == |mem|
      requires forall k :: 0 <= k < |was| && k != 37 + 2 * i && k != 38 + 2 * i ==> mem[k] == was[k]
      ensures mem[0] == was[0] && mem[1] == was[1] && mem[36] == was[36]
      ensures mem[4..8] == was[4..8] && mem[4..36] == was[4..36] && mem[begin..end] == was[begin..end]
    {
    }

    static lemma {:induction false} WordPut(was: seq<byte>, mem: seq<byte>, i: nat, v: nat, end: nat)
      requires 39 + 2 * i <= end <= |was| && v < 0x1_0000
      requires mem == was[37 + 2 * i := v % 256][38 + 2 * i := v / 256]
      ensures mem[37..end] == was[37..end][..2 * i] + PutLe16(v) + was[37..end][2 * i + 2..]
    {
      assert mem[37..end] == mem[37..37 + 2 * i] + mem[37 + 2 * i..39 + 2 * i] + mem[39 + 2 * i..end];
      assert mem[37 + 2 * i..39 + 2 * i] == PutLe16(v);
      assert mem[37..37 + 2 * i] == was[37..end][..2 * i] && mem[39 + 2 * i..end] == was[37..end][2 * i + 2..];
    }

    /** cifs_write_buf on the byte block. */
    method Append(s: seq<byte>)
      requires Open() && b.p + |s| <= CAPACITY
      modifies b, p.mem
      ensures Open() && Draft() == old(Draft()).(data := old(Draft().data) + s)
    {
      ghost var was := p.mem[..];
      var at := b.p;
      forall k | 0 <= k < |s| {
        p.mem[at + k] := s[k];
      }
      b.Inc(|s|);
      SameFront(was, p.mem[..], at, 37, b.b - 2);
      SameFront(was, p.mem[..], at, 4, 36);
      SameFront(was, p.mem[..], at, 4, 8);
      BlockGrows(was, p.mem[..], b.b, at, s);
    }

    static lemma {:induction false} SameFront(was: seq<byte>, mem: seq<byte>, at: nat, i: nat, j: nat)
      requires i <= j <= at <= |was| == |mem| && forall k :: 0 <= k < at ==> mem[k] == was[k]
      ensures mem[i..j] == was[i..j]
    {
    }

    static lemma {:induction false} BlockGrows(was: seq<byte>, mem: seq<byte>, begin: nat, at: nat, s: seq<byte>)
      requires begin <= at && at + |s| <= |was| == |mem| && forall k :: 0 <= k < at ==> mem[k] == was[k]
      requires forall k :: 0 <= k < |s| ==> mem[at + k] == s[k]
      ensures mem[begin..at + |s|] == was[begin..at] + s
    {
      SameFront(was, mem, at, begin, at);
      assert mem[at..at + |s|] == s;
      assert mem[begin..at + |s|] == mem[begin..at] + mem[at..at + |s|];
    }

    method Unparse() returns (r: nat)
      requires Open()
      modifies p, b, p.mem
      ensures Valid() && p.mem == old(p.mem)
      ensures old(Draft()).Valid() && r == p.e && p.mem[..r] == Encode(old(Draft()))
    {
      ghost var m := Draft();
      ghost var was := p.mem[..];
      b.e := b.p;
      p.e := b.p;
      var size := p.e - p.b - 4;
      p.mem[3] := size % 256;
      p.mem[2] := size / 256;
      var wc := p.mem[36];
      var bc := b.p - b.b;
      p.mem[37 + 2 * wc as int] := bc % 256;
      p.mem[38 + 2 * wc as int] := bc / 256;
      r := size + 4;
      Assembled(p.mem[..], was, m, b.b, b.p);
    }

    /** The finished memory reads as the encoding of the draft. */
    static lemma {:induction false} Assembled(mem: seq<byte>, was: seq<byte>, m: Msg, begin: nat, end: nat)
      requires |mem| == |was| == CAPACITY && HEADER_SIZE <= begin <= end <= CAPACITY
      requires was[0] == 0 && was[4..8] == MAGIC && begin == HEADER_SIZE + 2 * was[36] as int
      requires m == Msg(was[1], was[4..36], was[37..begin - 2], was[begin..end])
      requires mem[2] == (end - 4) / 256 && mem[3] == (end - 4) % 256
      requires mem[begin - 2] == (end - begin) % 256 && mem[begin - 1] == (end - begin) / 256
      requires forall k :: 0 <= k < CAPACITY && k !in {2, 3, begin - 2, begin - 1} ==> mem[k] == was[k]
      ensures m.Valid() && mem[..end] == Encode(m)
    {
      AssembledParts(mem, was, m, begin, end);
      SixParts(mem, begin, end);
    }

    static lemma {:induction false} AssembledParts(mem: seq<byte>, was: seq<byte>, m: Msg, begin: nat, end: nat)
      requires |mem| == |was| == CAPACITY && HEADER_SIZE <= begin <= end <= CAPACITY
      requires was[4..8] == MAGIC && begin == HEADER_SIZE + 2 * was[36] as int && was[0] == 0
      requires m == Msg(was[1], was[4..36], was[37..begin - 2], was[begin..end])
      requires mem[2] == (end - 4) / 256 && mem[3] == (end - 4) % 256
      requires mem[begin - 2] == (end - begin) % 256 && mem[begin - 1] == (end - begin) / 256
      requires forall k :: 0 <= k < CAPACITY && k !in {2, 3, begin - 2, begin - 1} ==> mem[k] == was[k]
      ensures m.Valid() && |m.words| == 2 * was[36] as int
      ensures mem[..4] == [0, m.nbtFlags, (end - 4) / 256, (end - 4) % 256] && mem[4..36] == m.header
      ensures mem[36] == was[36] && mem[37..begin - 2] == m.words
      ensures mem[begin - 2..begin] == PutLe16(end - begin) && mem[begin..end] == m.data
    {
      assert m.header[..4] == was[4..8];
    }

    static lemma {:induction false} SixParts(mem: seq<byte>, begin: nat, end: nat)
      requires HEADER_SIZE <= begin <= end <= |mem|
      ensures mem[..end]
           == mem[..4] + mem[4..36] + [mem[36]] + mem[37..begin - 2] + mem[begin - 2..begin] + mem[begin..end]
    {
      assert mem[..37] == mem[..4] + mem[4..36] + [mem[36]];
      assert mem[..begin] == mem[..37] + mem[37..begin - 2] + mem[begin - 2..begin];
      assert mem[..end] == mem[..begin] + mem[begin..end];
    }

    method Parse() returns (r: int)
      requires Valid()
      modifies b
      ensures Valid()
      ensures r == if Decode(p.mem[..p.e]).Some? then 0 else -1
      ensures r == 0 ==>
        var data := Decode(p.mem[..p.e]).value.data; b.mem == p.mem && b.Abs() == Block(data, 0, |data|)
    {
      ghost var f := p.mem[..p.e];
      var size := p.e - p.b;
      if size < HEADER_SIZE { return -1; }
      assert f[4..8] == p.mem[4..8];
      if p.mem[4..8] != MAGIC { return -1; }
      var wc := p.mem[36] as int;
      assert f[36] == p.mem[36];
      if size < HEADER_SIZE + wc * 2 { return -1; }
      var bc := p.mem[37 + 2 * wc] as int + 256 * p.mem[38 + 2 * wc] as int;
      assert bc == Le16(f, 37 + 2 * wc);
      if size < HEADER_SIZE + wc * 2 + bc { return -1; }
      b.Setup(p.mem, 39 + 2 * wc, bc);
      SliceOfFront(p.mem[..], p.e, 39 + 2 * wc, 39 + 2 * wc + bc);
      assert f == p.mem[..][..p.e];
      assert p.mem[39 + 2 * wc..39 + 2 * wc + bc] == p.mem[..][39 + 2 * wc..39 + 2 * wc + bc];
      return 0;
    }
  }

  /** `h` is the header of a message with `size` more bytes to come. */
  ghost predicate Announces(h: seq<byte>, size: int) {
    |h| == 4 && h[0] == 0 && FrameLength(h) == size
  }

  /** From `s` the header of the next message was consumed, leaving `t`; or there was none. */
  ghost predicate Sized(s: seq<byte>, t: seq<byte>, r: int) {
    if r < 0 then NextMessage(s) == Nothing
    else exists h :: Announces(h, r) && NextMessage(s) == NextMessage(h + t)
  }

  /** The message that a header announces. */
  lemma {:induction false} SizeAnnounced(h: seq<byte>, size: nat, s: seq<byte>)
    requires Announces(h, size)
    ensures size <= |s| ==> NextMessage(h + s) == Message(h + s[..size], s[size..])
    ensures size > |s| ==> NextMessage(h + s) == Nothing
    ensures |h| == 4
  {
    if size <= |s| {
      assert FirstFrame(h + s) == h + s[..size] && AfterFrame(h + s) == s[size..];
    }
  }

  /** A receive buffer part-way through a frame: in its header, or past a complete message header. */
  ghost predicate Underway(mem: seq<byte>, p: nat, e: nat) {
    |mem| == CAPACITY && if e == 4 then p <= 4 else 4 <= p <= e == 4 + FrameLength(mem) && mem[0] == 0
  }

  /** The same for a receiver that takes in frames of every type. */
  ghost predicate InFrame(mem: seq<byte>, p: nat, e: nat) {
    |mem| == CAPACITY && if e == 4 then p < 4 else 4 <= p <= e == 4 + FrameLength(mem)
  }

  lemma {:induction false} Appended(was: seq<byte>, mem: seq<byte>, s: seq<byte>, at: nat, n: nat, e: nat)
    requires InFrame(was, at, e) && at < e
    requires n <= |s| && at + n <= e && mem == was[..at] + s[..n] + was[at + n..]
    ensures mem[..at + n] == was[..at] + s[..n]
    ensures at + n < e ==> InFrame(mem, at + n, e) && !IsFrame(mem[..at + n])
    ensures at + n == e != 4 ==> IsFrame(mem[..e])
    ensures at + n == e == 4 ==> (IsFrame(mem[..e]) <==> FrameLength(mem) == 0)
  {
    assert e != 4 ==> FrameLength(mem) == FrameLength(was);
    assert at + n >= 4 ==> FrameLength(mem[..at + n]) == FrameLength(mem);
  }

  /** Nothing beyond the cursor and the header has been written. */
  ghost predicate Keeps(mem: seq<byte>, stale: seq<byte>, p: nat) {
    |mem| == |stale| && p <= |mem| && 4 <= |mem| && if p < 4 then mem[4..] == stale[4..] else mem[p..] == stale[p..]
  }

  /** recv appended `n` bytes at the cursor: the part read and the part to come still spell the same stream. */
  lemma {:induction false} Grown(was: seq<byte>, mem: seq<byte>, stale: seq<byte>, s: seq<byte>, at: nat, n: nat,
      e: nat)
    requires Underway(was, at, e) && Keeps(was, stale, at)
    requires n <= |s| && at + n <= e && mem == was[..at] + s[..n] + was[at + n..]
    ensures Underway(mem, at + n, e) && Keeps(mem, stale, at + n)
    ensures mem[..at + n] + s[n..] == was[..at] + s
  {
    assert mem[..at + n] == was[..at] + s[..n];
    if at < 4 {
      assert mem[4..] == stale[4..];
    } else {
      assert was[at..][n..] == stale[at..][n..];
    }
  }

  /** At the end of input a frame that is not complete never will be. */
  lemma {:induction false} Stuck(mem: seq<byte>, p: nat, e: nat, input: seq<byte>)
    requires Underway(mem, p, e) && p < e
    ensures input == [] ==> NextMessage(mem[..p] + input) == Nothing
  {
    if input == [] {
      assert mem[..p] + input == mem[..p];
      assert p >= 4 ==> FrameLength(mem[..p]) == FrameLength(mem);
    }
  }

  /** Dropping the payload of a frame of another type does not change what the next message is. */
  lemma {:induction false} Skipped(h: seq<byte>, t: seq<byte>, size: nat)
    requires |h| == 4 && h[0] != 0 && size == FrameLength(h)
    ensures size <= |t| ==> NextMessage(h + t) == NextMessage(t[size..])
    ensures |t| < size ==> NextMessage(h + t) == NextMessage([])
  {
    assert size <= |t| ==> AfterFrame(h + t) == t[size..];
  }

  /** `n` more bytes of the frame `f` went out. */
  lemma {:induction false} Sent(f: seq<byte>, before: seq<byte>, at: nat, part: seq<byte>, n: nat)
    requires at <= |f| && part == f[at..] && n <= |part|
    ensures at + n <= |f| && before + f[..at] + part[..n] == before + f[..at + n]
  {
    assert f[..at] + part[..n] == f[..at + n];
  }

  datatype Arrival = Broken | Arrived(mem: seq<byte>, e: nat, rest: seq<byte>)

  /** A successful cifs_recv as a function: the message mem[..e] over a receive buffer, and the stream left. */
  function Arrive(mem: seq<byte>, s: seq<byte>): (r: Arrival)
    requires |mem| == CAPACITY
    ensures r.Arrived? ==> r.e <= |r.mem| == CAPACITY && |r.rest| < |s|
  {
    match NextMessage(s)
    case Nothing => Broken
    case Message(f, rest) => if Decode(f).None? then Broken else Arrived(f + mem[|f|..], |f|, rest)
  }

  class Conn {
    const sock: Socket
    const i: Packet
    const o: Packet

    constructor (sock: Socket)
      ensures Valid() && this.sock == sock && fresh(i) && fresh(o)
    {
      this.sock := sock;
      i := new Packet();
      o := new Packet();
    }

    ghost predicate Valid()
      reads this, i, i.p, i.b, o, o.p, o.b
    {
      && i.Valid() && o.Valid() && i != o
      && i.p != o.p && i.p != o.b && i.b != o.p && i.b != o.b
      && i.p.mem != o.p.mem
    }

    /** A buffer of somebody else's. */
    ghost predicate Distinct(k: Buf)
      reads this, i, i.p, o, o.p, k
    {
      && k != i.p && k != i.b && k != o.p && k != o.b
      && k.mem != i.p.mem && k.mem != o.p.mem
    }

    /** Sends the message under construction, however the kernel cuts it up. */
    method Send() returns (r: int)
      requires Valid() && o.Open()
      modifies sock, o.p, o.b, o.p.mem
      ensures Valid() && o.p.mem == old(o.p.mem) && sock.input == old(sock.input)
      ensures old(o.Draft()).Valid()
      ensures r == 0 ==> sock.output == old(sock.output) + Encode(old(o.Draft()))
      ensures old(sock.output) <= sock.output <= old(sock.output) + Encode(old(o.Draft()))
      ensures r == -1 ==> |sock.output| < |old(sock.output)| + |Encode(old(o.Draft()))|
      ensures o.p.e == |Encode(old(o.Draft()))| && o.p.mem[..o.p.e] == Encode(old(o.Draft()))
      ensures r == 0 || r == -1
      ensures old(sock.Healthy()) ==> sock.Healthy() && r == 0
    {
      var len := o.Unparse();
      ghost var f := o.p.mem[..len];
      var at := 0;
      while at < len
        invariant at <= len == o.p.e <= o.p.mem.Length && o.p.mem[..len] == f
        invariant Valid() && o.p.mem == old(o.p.mem) && sock.input == old(sock.input)
        invariant sock.output == old(sock.output) + f[..at]
        invariant old(sock.Healthy()) ==> sock.Healthy()
        decreases len - at + |sock.turns|
      {
        var part := o.p.mem[at..len];
        var res := sock.Send(part);
        if res < 0 { return -1; }
        Sent(f, old(sock.output), at, part, res);
        at := at + res;
      }
      assert f[..at] == f;
      return 0;
    }

    /** cifs_recv_skip_sock: drops `size` bytes one at a time. */
    method Skip(size: nat) returns (r: int)
      modifies sock
      ensures r == 0 || r == -1
      ensures |sock.input| + |sock.turns| <= old(|sock.input| + |sock.turns|)
      ensures r == 0 ==> size <= |old(sock.input)| && sock.input == old(sock.input)[size..]
      ensures old(sock.Healthy()) ==> sock.Healthy() && (r < 0 ==> sock.input == [] && |old(sock.input)| < size)
    {
      var one := new byte[1];
      var left := size;
      while left > 0
        invariant 0 <= left <= size && size - left <= |old(sock.input)|
        invariant sock.input == old(sock.input)[size - left..]
        invariant |sock.input| + |sock.turns| <= old(|sock.input| + |sock.turns|)
        invariant old(sock.Healthy()) ==> sock.Healthy()
        decreases |sock.input| + |sock.turns|
      {
        var res := sock.Recv(one, 0, 1);
        if res < 0 { return -1; }
        if res != 0 { left := left - 1; }
      }
      return 0;
    }

    /** The loop around recv at lines 277-282 and 315-320: fills buf[..n]. */
    method Fill(buf: array<byte>, n: nat) returns (r: int)
      requires n <= buf.Length
      modifies sock, buf
      ensures r == 0 || r == -1
      ensures |sock.input| + |sock.turns| <= old(|sock.input| + |sock.turns|)
      ensures 0 < n && r == 0 ==> |sock.input| + |sock.turns| < old(|sock.input| + |sock.turns|)
      ensures buf[n..] == old(buf[n..])
      ensures r == 0 ==> n <= |old(sock.input)|
      ensures r == 0 ==> sock.input == old(sock.input)[n..] && buf[..n] == old(sock.input)[..n]
      ensures old(sock.Healthy()) ==> sock.Healthy() && (r < 0 ==> sock.input == [] && |old(sock.input)| < n)
    {
      var at := 0;
      while at < n
        invariant 0 <= at <= n && at <= |old(sock.input)|
        invariant sock.input == old(sock.input)[at..] && buf[..at] == old(sock.input)[..at] && buf[n..] == old(buf[n..])
        invariant |sock.input| + |sock.turns| <= old(|sock.input| + |sock.turns|)
        invariant 0 < at ==> |sock.input| + |sock.turns| < old(|sock.input| + |sock.turns|)
        invariant old(sock.Healthy()) ==> sock.Healthy()
        decreases |sock.input| + |sock.turns|
      {
        ghost var was, s := buf[..], sock.input;
        var res := sock.Recv(buf, at, n - at);
        if res < 0 { return -1; }
        assert buf[..at + res] == was[..at] + s[..res];
        assert buf[n..] == was[n..];
        at := at + res;
      }
      return 0;
    }

    /** cifs_recv_size: the length of the next message, its header consumed. */
    method RecvSize() returns (r: int)
      modifies sock
      ensures -1 <= r < 0x1_0000
      ensures old(sock.Healthy()) ==> sock.Healthy() && Sized(old(sock.input), sock.input, r)
    {
      var word := new byte[4];
      while true
        invariant old(sock.Healthy()) ==> sock.Healthy() && NextMessage(old(sock.input)) == NextMessage(sock.input)
        decreases |sock.input| + |sock.turns|
      {
        ghost var s := sock.input;
        var res := Fill(word, 4);
        if res < 0 { return -1; }
        ghost var h := word[..];
        assert h == word[..4] && s == h + sock.input;
        var kind := word[0];
        r := word[2] as int * 256 + word[3] as int;
        if kind != 0 && r != 0 {
          Skipped(h, sock.input, r);
          res := Skip(r);
        } else if kind != 0 {
          Skipped(h, sock.input, r);
        }
        if kind == 0 { return; }
      }
    }

    /** cifs_recv_raw: the next message's payload, whole, into the caller's buffer. */
    method RecvRaw(buf: array<byte>, len: nat) returns (r: int)
      requires Valid() && len <= buf.Length && buf != i.p.mem
      modifies sock, buf
      ensures Valid()
      ensures old(sock.Healthy()) ==> sock.Healthy()
      ensures old(sock.Healthy()) ==>
        match NextMessage(old(sock.input))
        case Nothing => r == -1
        case Message(f, rest) =>
          && sock.input == rest && SyncStep(old(State()), State(), f)
          && (|f| - 4 > len ==> r == -1 && buf[..] == old(buf[..]))
          && (|f| - 4 <= len ==> r == |f| - 4 && buf[..r] == f[4..] && buf[r..] == old(buf[r..]))
    {
      hide NextMessage, Announces;
      var size := RecvSize();
      if size < 0 { return -1; }
      ghost var s := sock.input;
      ghost var next := NextMessage(old(sock.input));
      ghost var h: seq<byte> :| old(sock.Healthy()) ==> (Announces(h, size) && next == NextMessage(h + s));
      if size > len {
        var _ := Skip(size);
        r := -1;
      } else {
        var res := Fill(buf, size);
        r := if res < 0 then -1 else size;
      }
      if old(sock.Healthy()) {
        SizeAnnounced(h, size, s);
      }
    }

    /** Lines 340-352: a complete header either opens a message or announces bytes to drop. The branch for
        a buffer that is too small is dead, because 65535 + 4 bytes always fit. */
    method HeaderDone()
      requires Valid() && i.p.p == i.p.e == 4
      modifies sock, i.p`p, i.p`e
      ensures Valid() && i.p.mem == old(i.p.mem)
      ensures |sock.input| + |sock.turns| <= old(|sock.input| + |sock.turns|)
      ensures i.p.mem[0] == 0 ==> i.p.p == 4 && i.p.e == 4 + FrameLength(i.p.mem[..]) && sock.input == old(sock.input)
      ensures i.p.mem[0] != 0 ==> i.p.p == 0 && i.p.e == 4
      ensures old(sock.Healthy()) ==> sock.Healthy()
      ensures old(sock.Healthy()) && i.p.mem[0] != 0 ==>
        NextMessage(i.p.mem[..4] + old(sock.input)) == NextMessage(sock.input)
    {
      var size := i.p.mem[2] as int * 256 + i.p.mem[3] as int;
      if i.p.mem[0] != 0 {
        Skipped(i.p.mem[..4], sock.input, size);
        var _ := Skip(size);
        i.p.Set(0);
      } else {
        var res := i.p.Resize(size + 4);
        assert res == 0;
      }
    }

    /** Lines 336-338: one recv at the cursor. What was read and what is still to come stay the same stream. */
    method Pull(ghost stale: seq<byte>) returns (r: int)
      requires Valid() && i.p.p < i.p.e && Underway(i.p.mem[..], i.p.p, i.p.e) && Keeps(i.p.mem[..], stale, i.p.p)
      modifies sock, i.p`p, i.p.mem
      ensures Valid() && Underway(i.p.mem[..], i.p.p, i.p.e) && Keeps(i.p.mem[..], stale, i.p.p)
      ensures |sock.input| + |sock.turns| <= old(|sock.input| + |sock.turns|)
      ensures r >= 0 ==> |sock.input| + |sock.turns| < old(|sock.input| + |sock.turns|)
      ensures i.p.mem[..i.p.p] + sock.input == old(i.p.mem[..i.p.p] + sock.input)
      ensures old(sock.Healthy()) ==> sock.Healthy()
      ensures r < 0 ==> i.p.p == old(i.p.p)
      ensures old(sock.Healthy()) && r < 0 ==> NextMessage(i.p.mem[..i.p.p] + sock.input) == Nothing
    {
      ghost var was, s, at := i.p.mem[..], sock.input, i.p.p;
      r := sock.Recv(i.p.mem, i.p.p, i.p.e - i.p.p);
      if r < 0 {
        Stuck(was, at, i.p.e, sock.input);
        return;
      }
      i.p.Inc(r);
      Grown(was, i.p.mem[..], stale, s, at, r, i.p.e);
    }

    /** The framing loop of cifs_recv (lines 332-354): the next message at the front of the receive
        buffer, everything beyond it as it was. */
    method RecvFrame() returns (r: int)
      requires Valid()
      modifies sock, i.p`p, i.p`e, i.p.mem
      ensures Valid() && i.p.mem == old(i.p.mem)
      ensures r == 0 || r == -1
      ensures |sock.input| + |sock.turns| <= old(|sock.input| + |sock.turns|)
      ensures r == 0 ==> |sock.input| + |sock.turns| < old(|sock.input| + |sock.turns|) && i.p.e == i.p.p
      ensures r < 0 ==> i.p.p < i.p.e
      ensures old(sock.Healthy()) ==> sock.Healthy() && (r < 0 ==> NextMessage(old(sock.input)) == Nothing)
      ensures old(sock.Healthy()) && r == 0 ==>
        && NextMessage(old(sock.input)) == Message(i.p.mem[..i.p.e], sock.input)
        && i.p.mem[i.p.e..] == old(i.p.mem[..])[i.p.e..]
    {
      var res := i.p.Resize(4);
      i.p.Set(0);
      ghost var healthy, s0, stale := sock.Healthy(), sock.input, i.p.mem[..];
      assert i.p.mem[..0] + s0 == s0;
      while true
        invariant Valid() && i.p.mem == old(i.p.mem)
        invariant i.p.p < i.p.e && Underway(i.p.mem[..], i.p.p, i.p.e)
        invariant Keeps(i.p.mem[..], stale, i.p.p)
        invariant |sock.input| + |sock.turns| <= old(|sock.input| + |sock.turns|)
        invariant healthy ==> sock.Healthy() && NextMessage(s0) == NextMessage(i.p.mem[..i.p.p] + sock.input)
        decreases |sock.input| + |sock.turns|
      {
        res := Pull(stale);
        if res < 0 { return -1; }
        if i.p.e == i.p.p && i.p.p == 4 {
          HeaderDone();
          assert i.p.mem[..0] + sock.input == sock.input;
        }
        if i.p.e == i.p.p { break; }
      }
      FrameSplits(i.p.mem[..i.p.e], sock.input);
      return 0;
    }

    /** cifs_recv */
    method Recv() returns (r: int)
      requires Valid()
      modifies sock, i.p`p, i.p`e, i.b, i.p.mem
      ensures Valid() && i.p.mem == old(i.p.mem)
      ensures r == 0 || r == -1
      ensures |sock.input| + |sock.turns| <= old(|sock.input| + |sock.turns|)
      ensures r == 0 ==> |sock.input| + |sock.turns| < old(|sock.input| + |sock.turns|)
      ensures r == 0 ==> Decode(i.p.mem[..i.p.e]).Some?
      ensures old(sock.Healthy()) ==> sock.Healthy()
      ensures old(sock.Healthy()) ==>
        Arrive(old(i.p.mem[..]), old(sock.input)) == if r == 0 then Arrived(i.p.mem[..], i.p.e, sock.input) else Broken
      ensures old(sock.Healthy()) ==>
        match NextMessage(old(sock.input))
        case Nothing => r == -1 && i.p.p < i.p.e
        case Message(f, rest) => SyncStep(old(State()), State(), f) && Holds(f, old(i.p.mem[..]), r)
    {
      r := RecvFrame();
      if r == 0 {
        assert i.p.mem[..] == i.p.mem[..i.p.e] + i.p.mem[i.p.e..];
        r := i.Parse();
      }
    }

    /** What cifs_recv leaves behind after consuming the message `f`: the frame at the front of the
        receive buffer, everything beyond it as it was, and the byte block laid over the frame. */
    ghost predicate Holds(f: seq<byte>, stale: seq<byte>, r: int)
      requires Valid()
      reads this, i, i.p, i.b, o, o.p, o.b, i.p.mem, i.b.mem
    {
      && |f| <= |stale| == CAPACITY
      && i.p.e == i.p.p == |f|
      && i.p.mem[..|f|] == f && i.p.mem[|f|..] == stale[|f|..]
      && r == (if Decode(f).Some? then 0 else -1)
      && (r == 0 ==> i.b.Abs() == Block(Decode(f).value.data, 0, |Decode(f).value.data|))
    }

    /** Between two cifs_recv_async calls the receive buffer is done with a frame or part-way through one.
        A buffer nobody has received into is neither. */
    ghost predicate Tracking()
      requires Valid()
      reads this, i, i.p, i.b, o, o.p, o.b, i.p.mem
    {
      i.p.p == i.p.e || (i.p.p < i.p.e && InFrame(i.p.mem[..], i.p.p, i.p.e))
    }

    /** Everything not delivered yet: what the buffer holds of a frame, and what is still in the socket. */
    ghost function State(): Rx
      requires Valid()
      reads this, i, i.p, i.b, o, o.p, o.b, i.p.mem, sock
    {
      Rx(if i.p.p == i.p.e then [] else i.p.mem[..i.p.p], sock.input)
    }

    /** cifs_recv_async: one non-blocking read; 0 says that a whole message stands in the buffer. */
    method RecvAsync() returns (r: int)
      requires Valid() && Tracking()
      modifies sock, i.p`p, i.p`e, i.p.mem
      ensures Valid() && i.p.mem == old(i.p.mem) && Tracking()
      ensures old(sock.Healthy()) ==> sock.Healthy()
      ensures r == 0 || r == -1
      ensures |sock.input| + |sock.turns| <= old(|sock.input| + |sock.turns|)
      ensures r == 0 ==> i.p.e == i.p.p
      ensures old(sock.input != [] || sock.turns != []) ==>
        |sock.input| + |sock.turns| < old(|sock.input| + |sock.turns|)
      ensures PollStep(old(State()), State(), if r == 0 then [i.p.mem[..i.p.e]] else [])
    {
      if i.p.e == i.p.p {
        var _ := i.p.Resize(4);
        i.p.Set(0);
        assert i.p.mem[..0] == [];
      }
      assert i.p.mem[..i.p.p] == old(State().partial);
      r := Poll();
    }

    /** Lines 398-424. */
    method Poll() returns (r: int)
      requires Valid() && i.p.p < i.p.e && InFrame(i.p.mem[..], i.p.p, i.p.e)
      modifies sock, i.p`p, i.p`e, i.p.mem
      ensures Valid() && i.p.mem == old(i.p.mem) && Tracking()
      ensures old(sock.Healthy()) ==> sock.Healthy()
      ensures r == 0 || r == -1
      ensures |sock.input| + |sock.turns| <= old(|sock.input| + |sock.turns|)
      ensures r == 0 ==> i.p.e == i.p.p
      ensures old(sock.input != [] || sock.turns != []) ==>
        |sock.input| + |sock.turns| < old(|sock.input| + |sock.turns|)
      ensures PollStep(Rx(old(i.p.mem[..i.p.p]), old(sock.input)), State(), if r == 0 then [i.p.mem[..i.p.e]] else [])
    {
      ghost var was, s, at := i.p.mem[..], sock.input, i.p.p;
      var size := sock.Recv(i.p.mem, i.p.p, i.p.e - i.p.p);
      ghost var n: nat := if size < 0 then 0 else size;
      Appended(was, i.p.mem[..], s, at, n, i.p.e);
      r := -1;
      if size >= 0 {
        i.p.Inc(size);
        r := Look();
      }
      PollTook(Rx(was[..at], s), State(), n, i.p.mem[..at + n], if r == 0 then [i.p.mem[..i.p.e]] else []);
    }

    /** Lines 403-424: what the bytes read so far make. */
    method Look() returns (r: int)
      requires Valid() && i.p.p <= i.p.e
      requires if i.p.p < i.p.e then InFrame(i.p.mem[..], i.p.p, i.p.e) else i.p.e == 4 || IsFrame(i.p.mem[..i.p.e])
      modifies i.p`p, i.p`e
      ensures Valid() && i.p.mem == old(i.p.mem) && Tracking() && i.p.p == old(i.p.p)
      ensures State().partial == if IsFrame(i.p.mem[..i.p.p]) then [] else i.p.mem[..i.p.p]
      ensures r == if IsMessage(i.p.mem[..i.p.p]) && i.p.p > 4 then 0 else -1
      ensures r == 0 ==> i.p.e == i.p.p
    {
      ghost var got := i.p.mem[..i.p.p];
      assert |got| >= 4 ==> FrameLength(got) == FrameLength(i.p.mem[..]);
      if i.p.e == i.p.p {
        if i.p.p == 4 {
          HeaderRead();
        } else if i.p.mem[0] == 0 {
          return 0;
        }
      }
      return -1;
    }

    /** Lines 405-411: the frame is as long as its header says; again it always fits. */
    method HeaderRead()
      requires Valid() && i.p.p == i.p.e == 4
      modifies i.p`p, i.p`e
      ensures Valid() && i.p.mem == old(i.p.mem) && i.p.p == 4 && i.p.e == 4 + FrameLength(i.p.mem[..])
    {
      var size := i.p.mem[2] as int * 256 + i.p.mem[3] as int + 4;
      var res := i.p.Resize(size);
      assert res == 0;
    }
  }
}
