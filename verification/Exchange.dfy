/** Both ends of a conversation: packets built and sent in place on one connection, and received on another. */
module Exchange {
  import opened Bytes
  import opened Framing
  import opened Transport
  import opened Runs

  /** A packet to send: its command, parameter words and byte block. */
  datatype Order = Order(cmd: byte, words: seq<nat>, data: seq<byte>) {
    /** It fits the header's fields and the buffer. */
    predicate Valid() {
      && |words| <= 255 && (forall w :: w in words ==> w < 0x1_0000)
      && HEADER_SIZE + 2 * |words| + |data| <= CAPACITY
    }
  }

  function WordBytes(words: seq<nat>): (s: seq<byte>)
    ensures |s| == 2 * |words|
  {
    if words == [] then [] else WordBytes(words[..|words| - 1]) + PutLe16(words[|words| - 1])
  }

  /** Each word stands in its place. */
  lemma {:induction false} WordAt(words: seq<nat>, k: nat)
    requires k < |words| && words[k] < 0x1_0000
    ensures Le16(WordBytes(words), 2 * k) == words[k]
  {
    var n := |words| - 1;
    if k < n {
      WordAt(words[..n], k);
    }
  }

  /** The message carries what was ordered. */
  predicate Fulfils(m: Msg, order: Order) {
    m.Valid() && m.Command() == order.cmd && m.words == WordBytes(order.words) && m.data == order.data
  }

  /** The output buffer holds the fixed parts of a header: type 0 and the magic (libcifs/proto.c:9). */
  ghost predicate Ready(o: Packet)
    requires o.Valid()
    reads o, o.p, o.b, o.p.mem
  {
    o.p.mem[0] == 0 && o.p.mem[4..8] == MAGIC
  }

  lemma {:induction false} WordAdded(was: seq<byte>, now: seq<byte>, words: seq<nat>, i: nat)
    requires i < |words| && |was| == 2 * |words| && was[..2 * i] == WordBytes(words[..i])
    requires now == was[..2 * i] + PutLe16(words[i]) + was[2 * i + 2..]
    ensures |now| == 2 * |words| && now[..2 * (i + 1)] == WordBytes(words[..i + 1])
  {
    assert words[..i + 1][..i] == words[..i];
    assert now[..2 * (i + 1)] == was[..2 * i] + PutLe16(words[i]);
  }

  method Build(o: Packet, order: Order)
    requires o.Valid() && Ready(o) && order.Valid()
    modifies o.p, o.b, o.p.mem
    ensures o.p.mem == old(o.p.mem) && o.Open()
    ensures o.Draft().Command() == order.cmd && o.Draft().words == WordBytes(order.words)
    ensures o.Draft().data == order.data && o.Draft().header == old(o.p.mem[4..36])[4 := order.cmd]
  {
    hide WordBytes;
    o.Setup(order.cmd, 2 * |order.words|);
    ghost var header := o.Draft().header;
    var i := 0;
    NoWords(order.words);
    while i < |order.words|
      invariant i <= |order.words| && o.p.mem == old(o.p.mem) && o.Open()
      invariant |o.Draft().words| == 2 * |order.words| && o.Draft().words[..2 * i] == WordBytes(order.words[..i])
      invariant o.Draft().header == header && o.Draft().data == []
    {
      ghost var was := o.Draft().words;
      assert order.words[i] in order.words;
      o.PutWord(i, order.words[i]);
      WordAdded(was, o.Draft().words, order.words, i);
      i := i + 1;
    }
    assert order.words[..i] == order.words;
    o.Append(order.data);
  }

  lemma {:induction false} NoWords(words: seq<nat>)
    ensures WordBytes(words[..0]) == []
  {
  }

  lemma {:induction false} StillReady(mem: seq<byte>, m: Msg)
    requires m.Valid() && |Encode(m)| <= |mem| && mem[..|Encode(m)|] == Encode(m)
    ensures mem[0] == 0 && mem[4..8] == MAGIC && mem[4..36] == m.header
  {
    var f := Encode(m);
    EncodeParts(m);
    SliceOfFront(mem, |f|, 4, 8);
    SliceOfFront(mem, |f|, 4, 36);
    assert mem[0] == mem[..|f|][0];
  }

  /** Builds and sends one packet. */
  method SendOrder(c: Conn, order: Order) returns (ghost m: Msg)
    requires c.Valid() && Ready(c.o) && c.sock.Healthy() && order.Valid()
    modifies c.sock, c.o.p, c.o.b, c.o.p.mem
    ensures c.Valid() && Ready(c.o) && c.o.p.mem == old(c.o.p.mem) && c.sock.Healthy()
    ensures m.Valid() && Fulfils(m, order)
    ensures c.sock.input == old(c.sock.input) && c.sock.output == old(c.sock.output) + Encode(m)
  {
    hide Encode, WordBytes;
    Build(c.o, order);
    m := c.o.Draft();
    var r := c.Send();
    StillReady(c.o.p.mem[..], m);
    assert c.o.p.mem[4..8] == c.o.p.mem[..][4..8];
  }

  /** Builds and sends packet after packet: what goes out is the wire form of the conversation. */
  method SendOrders(c: Conn, orders: seq<Order>) returns (ghost us: seq<Unit>)
    requires c.Valid() && Ready(c.o) && c.sock.Healthy() && forall k :: 0 <= k < |orders| ==> orders[k].Valid()
    modifies c.sock, c.o.p, c.o.b, c.o.p.mem
    ensures c.Valid() && Ready(c.o) && c.o.p.mem == old(c.o.p.mem) && c.sock.Healthy()
    ensures AllValid(us) && c.sock.output == old(c.sock.output) + Wire(us)
    ensures |us| == |PacketsOf(us)| == |orders|
    ensures forall k :: 0 <= k < |orders| ==> Fulfils(PacketsOf(us)[k], orders[k])
  {
    hide Encode, WordBytes, Wire, PacketsOf, Fulfils;
    us := [];
    NothingSent();
    var k := 0;
    while k < |orders|
      invariant k <= |orders| && c.Valid() && Ready(c.o) && c.o.p.mem == old(c.o.p.mem) && c.sock.Healthy()
      invariant AllValid(us) && c.sock.output == old(c.sock.output) + Wire(us)
      invariant |us| == |PacketsOf(us)| == k && forall j :: 0 <= j < k ==> Fulfils(PacketsOf(us)[j], orders[j])
    {
      var m := SendOrder(c, orders[k]);
      WireMore(us, m);
      Regroup(old(c.sock.output), Wire(us), Encode(m));
      us := us + [Unit.Packet(m)];
      k := k + 1;
    }
  }

  lemma {:induction false} NothingSent()
    ensures AllValid([]) && Wire([]) == [] && PacketsOf([]) == []
  {
  }

  lemma {:induction false} WireMore(us: seq<Unit>, m: Msg)
    requires AllValid(us) && m.Valid()
    ensures AllValid(us + [Unit.Packet(m)])
    ensures Wire(us + [Unit.Packet(m)]) == Wire(us) + Encode(m)
    ensures PacketsOf(us + [Unit.Packet(m)]) == PacketsOf(us) + [m]
  {
    hide Encode;
    var vs := us + [Unit.Packet(m)];
    assert forall u :: u in vs ==> u in us || u == Unit.Packet(m);
    if us == [] {
      assert vs[1..] == [] && Wire(vs) == Encode(m) + [];
    } else {
      WireMore(us[1..], m);
      assert vs[0] == us[0] && vs[1..] == us[1..] + [Unit.Packet(m)];
      Regroup(us[0].Frame(), Wire(us[1..]), Encode(m));
    }
  }

  /** One side sends, the other receives what came out: the k-th message received carries the k-th order. */
  method Converse(a: Conn, b: Conn, orders: seq<Order>) returns (got: seq<seq<byte>>)
    requires a.Valid() && Ready(a.o) && a.sock.Healthy() && a.sock.output == []
    requires b.Valid() && b.sock.Healthy() && a.sock != b.sock
    requires {a.o.p, a.o.b} !! {b.i.p, b.i.b, b.o.p, b.o.b}
    requires forall k :: 0 <= k < |orders| ==> orders[k].Valid()
    modifies a.sock, a.o.p, a.o.b, a.o.p.mem, b.sock, b.i.p`p, b.i.p`e, b.i.b, b.i.p.mem
    ensures |got| == |orders|
    ensures forall k :: 0 <= k < |orders| ==> Decode(got[k]).Some? && Fulfils(Decode(got[k]).value, orders[k])
  {
    hide Decode, Wire, PacketsOf, Fulfils, AllValid;
    var us := SendOrders(a, orders);
    b.sock.input := a.sock.output;
    assert b.sock.input == Wire(us) + [];
    got := ReceivePackets(b, |orders|, us, []);
  }
}
