/** The session service as a pure grammar: frames (section 4.3.1 of RFC 1002), the messages a receiver
    is after, and the layout of one SMB message (section 2.2.3 of MS-CIFS). */
module Framing {
  import opened Bytes

  // ---------------------------------------------------------------- frames

  /** The 16-bit length of the frame at the front of `s`; the client ignores the flags byte s[1]. */
  function FrameLength(s: seq<byte>): (n: nat)
    requires |s| >= 4
    ensures n < 0x1_0000
  {
    s[2] as int * 256 + s[3] as int
  }

  predicate HasFrame(s: seq<byte>) {
    |s| >= 4 && |s| >= 4 + FrameLength(s)
  }

  function FirstFrame(s: seq<byte>): seq<byte>
    requires HasFrame(s)
  {
    s[..4 + FrameLength(s)]
  }

  function AfterFrame(s: seq<byte>): seq<byte>
    requires HasFrame(s)
  {
    s[4 + FrameLength(s)..]
  }

  predicate IsFrame(f: seq<byte>) {
    |f| >= 4 && |f| == 4 + FrameLength(f)
  }

  predicate IsMessage(f: seq<byte>) {
    IsFrame(f) && f[0] == 0
  }

  predicate IsChatter(f: seq<byte>) {
    IsFrame(f) && f[0] != 0
  }

  datatype Next = Nothing | Message(frame: seq<byte>, rest: seq<byte>)

  /** What a receiver that skips every frame of another type finds first. */
  function NextMessage(s: seq<byte>): (r: Next)
    ensures r.Message? ==> IsMessage(r.frame) && |r.rest| < |s|
    decreases |s|
  {
    if !HasFrame(s) then Nothing
    else if s[0] == 0 then Message(FirstFrame(s), AfterFrame(s))
    else NextMessage(AfterFrame(s))
  }

  predicate AllChatter(fs: seq<seq<byte>>) {
    forall f :: f in fs ==> IsChatter(f)
  }

  /** The next message is the first one: the stream is some frames of other types, the message, and the rest. */
  lemma {:induction false} NextMessageIsFirst(s: seq<byte>, f: seq<byte>, rest: seq<byte>)
    ensures NextMessage(s) == Message(f, rest) <==>
      IsMessage(f) && exists fs: seq<seq<byte>> :: AllChatter(fs) && s == Concat(fs) + (f + rest)
    decreases |s|
  {
    if NextMessage(s) == Message(f, rest) {
      var _ := ChatterBefore(s);
    }
    if IsMessage(f) {
      forall fs: seq<seq<byte>> | AllChatter(fs) && s == Concat(fs) + (f + rest)
        ensures NextMessage(s) == Message(f, rest)
      {
        ChatterSkipped(fs, f, rest);
      }
    }
  }

  lemma {:induction false} ChatterBefore(s: seq<byte>) returns (fs: seq<seq<byte>>)
    requires NextMessage(s).Message?
    ensures AllChatter(fs) && s == Concat(fs) + (NextMessage(s).frame + NextMessage(s).rest)
    decreases |s|
  {
    if s[0] == 0 {
      fs := [];
    } else {
      var gs := ChatterBefore(AfterFrame(s));
      fs := [FirstFrame(s)] + gs;
      assert fs[1..] == gs;
      assert s == FirstFrame(s) + AfterFrame(s);
    }
  }

  lemma {:induction false} ChatterSkipped(fs: seq<seq<byte>>, f: seq<byte>, rest: seq<byte>)
    requires AllChatter(fs) && IsMessage(f)
    ensures NextMessage(Concat(fs) + (f + rest)) == Message(f, rest)
    decreases |fs|
  {
    if fs == [] {
      FrameSplits(f, rest);
      assert [] + (f + rest) == f + rest;
    } else {
      var later := Concat(fs[1..]) + (f + rest);
      assert fs[0] in fs;
      ChatterSkipped(fs[1..], f, rest);
      FrameSplits(fs[0], later);
      Regroup(fs[0], Concat(fs[1..]), f + rest);
    }
  }

  /** Every complete message of a stream, in order. */
  function Messages(s: seq<byte>): seq<seq<byte>>
    decreases |s|
  {
    match NextMessage(s)
    case Nothing => []
    case Message(frame, rest) => [frame] + Messages(rest)
  }

  function NonEmpty(fs: seq<seq<byte>>): seq<seq<byte>> {
    if fs == [] then [] else (if |fs[0]| > 4 then [fs[0]] else []) + NonEmpty(fs[1..])
  }

  /** A frame byte by byte: type, flags, the length of the payload, high byte first, and the payload. */
  lemma {:induction false} FrameByBytes(kind: byte, flags: byte, high: byte, low: byte, payload: seq<byte>)
    requires |payload| == 256 * high as int + low as int
    ensures IsFrame([kind, flags, high, low] + payload)
    ensures IsMessage([kind, flags, high, low] + payload) <==> kind == 0
  {
  }

  /** Messages of more than a header are kept, as often as there are, and no others. */
  lemma {:induction false} NonEmptyExactly(fs: seq<seq<byte>>, f: seq<byte>)
    ensures multiset(NonEmpty(fs))[f] == if |f| > 4 then multiset(fs)[f] else 0
  {
    if fs != [] {
      NonEmptyExactly(fs[1..], f);
      assert fs == [fs[0]] + fs[1..];
    }
  }

  lemma {:induction false} FrameSplits(f: seq<byte>, rest: seq<byte>)
    requires IsFrame(f)
    ensures HasFrame(f + rest) && FirstFrame(f + rest) == f && AfterFrame(f + rest) == rest
    ensures (f + rest)[0] == f[0]
  {
    assert (f + rest)[..|f|] == f && (f + rest)[|f|..] == rest;
  }

  lemma {:induction false} NonEmptyAppend(fs: seq<seq<byte>>, gs: seq<seq<byte>>)
    ensures NonEmpty(fs + gs) == NonEmpty(fs) + NonEmpty(gs)
  {
    if fs == [] {
      assert fs + gs == gs;
    } else {
      var head, tail := fs[0], fs[1..];
      NonEmptyAppend(tail, gs);
      assert (fs + gs)[0] == head && (fs + gs)[1..] == tail + gs;
      Regroup(if |head| > 4 then [head] else [], NonEmpty(tail), NonEmpty(gs));
    }
  }

  // ---------------------------------------------------------------- staying on frame boundaries

  /** `t` is what is left of `s` after some number of whole frames. */
  predicate OnBoundary(s: seq<byte>, t: seq<byte>)
    decreases |s|
  {
    t == s || (HasFrame(s) && OnBoundary(AfterFrame(s), t))
  }

  lemma {:induction false} OnBoundaryTransitive(s: seq<byte>, t: seq<byte>, u: seq<byte>)
    requires OnBoundary(s, t) && OnBoundary(t, u)
    ensures OnBoundary(s, u)
    decreases |s|
  {
    if t != s {
      OnBoundaryTransitive(AfterFrame(s), t, u);
    }
  }

  lemma {:induction false} NextMessageOnBoundary(s: seq<byte>)
    ensures NextMessage(s).Message? ==> OnBoundary(s, NextMessage(s).rest)
    decreases |s|
  {
    if HasFrame(s) {
      if s[0] == 0 {
        assert OnBoundary(AfterFrame(s), AfterFrame(s));
      } else {
        NextMessageOnBoundary(AfterFrame(s));
      }
    }
  }

  // ---------------------------------------------------------------- one SMB message

  const MAGIC: seq<byte> := [0xFF, 0x53, 0x4D, 0x42]
  /** sizeof(struct cifs_header_s): NBT header, SMB header, word count and the first word. */
  const HEADER_SIZE := 39

  /** A message: the 32 bytes from the magic to the mid, the parameter words and the byte block. */
  datatype Msg = Msg(nbtFlags: byte, header: seq<byte>, words: seq<byte>, data: seq<byte>) {
    predicate Valid() {
      && |header| == 32 && header[..4] == MAGIC
      && |words| % 2 == 0 && |words| <= 510
      && |words| + |data| <= 0xFFFF - 35
    }

    function Command(): byte
      requires |header| == 32
    {
      header[4]
    }
  }

  function Encode(m: Msg): (f: seq<byte>)
    requires m.Valid()
    ensures |f| == HEADER_SIZE + |m.words| + |m.data|
  {
    var size := 35 + |m.words| + |m.data|;
    [0, m.nbtFlags, size / 256, size % 256] + m.header + [|m.words| / 2] + m.words + PutLe16(|m.data|) + m.data
  }

  /** The tests cifs_packet_parse makes, in its order. */
  function Decode(f: seq<byte>): (r: Option<Msg>) {
    if |f| < HEADER_SIZE then None
    else if f[4..8] != MAGIC then None
    else
      var wc := f[36] as int;
      if |f| < HEADER_SIZE + 2 * wc then None
      else
        var bc := Le16(f, 37 + 2 * wc);
        if |f| < HEADER_SIZE + 2 * wc + bc then None
        else Some(Msg(f[1], f[4..36], f[37..37 + 2 * wc], f[39 + 2 * wc..39 + 2 * wc + bc]))
  }

  lemma {:induction false} EncodeIsMessage(m: Msg)
    requires m.Valid()
    ensures IsMessage(Encode(m))
  {
  }

  lemma {:induction false} EncodeParts(m: Msg)
    requires m.Valid()
    ensures var f, w := Encode(m), |m.words|;
      && f[0] == 0 && f[1] == m.nbtFlags && 256 * f[2] as int + f[3] as int == |f| - 4
      && f[4..36] == m.header && f[4..8] == [0xFF, 0x53, 0x4D, 0x42] && f[8] == m.Command() && f[36] == w / 2
      && f[37..37 + w] == m.words && Le16(f, 37 + w) == |m.data| && f[39 + w..] == m.data
  {
    var f, w := Encode(m), |m.words|;
    assert f[4..36] == m.header && f[8] == f[4..36][4];
    assert f[4..8] == m.header[..4];
    assert f[37 + w] == PutLe16(|m.data|)[0] && f[38 + w] == PutLe16(|m.data|)[1];
  }

  lemma {:induction false} DecodeEncode(m: Msg)
    requires m.Valid()
    ensures Decode(Encode(m)) == Some(m)
  {
    EncodeParts(m);
    var f, w := Encode(m), |m.words|;
    assert f[39 + w..39 + w + |m.data|] == f[39 + w..];
  }

  /** Whatever parses is the encoding of what was parsed, up to the NBT header and trailing bytes. */
  lemma {:induction false} EncodeDecode(f: seq<byte>)
    requires IsMessage(f) && Decode(f).Some?
    ensures Decode(f).value.Valid()
    ensures Encode(Decode(f).value)[4..] <= f[4..]
  {
    var m := Decode(f).value;
    var w := |m.words|;
    var n := 39 + w + |m.data|;
    assert w == 2 * (f[36] as int) && w / 2 == f[36];
    assert m.header[..4] == f[4..8];
    assert PutLe16(|m.data|) == f[37 + w..39 + w] by {
      assert |m.data| == Le16(f, 37 + w);
    }
    FiveParts(f, w, n);
    EncodeBehind(m);
    assert f[4..][..n - 4] == f[4..n];
  }

  /** Exactly what parses, and to what: a frame is parsed as the message whose encoding it begins with, flags and
      lengths of the NBT header aside, whatever bytes trail behind. */
  lemma {:induction false} DecodesExactly(f: seq<byte>, m: Msg)
    requires IsMessage(f)
    ensures Decode(f) == Some(m) <==> m.Valid() && f[1] == m.nbtFlags && Encode(m)[4..] <= f[4..]
  {
    if Decode(f).Some? {
      EncodeDecode(f);
    }
    if m.Valid() && f[1] == m.nbtFlags && Encode(m)[4..] <= f[4..] {
      EncodeParts(m);
      TrailingReads(f, Encode(m), m);
    }
  }

  lemma {:induction false} TrailingReads(f: seq<byte>, g: seq<byte>, m: Msg)
    requires |g| >= 39 && |f| >= 4 && g[4..] <= f[4..] && f[1] == m.nbtFlags
    requires m.Valid() && |g| == 39 + |m.words| + |m.data|
    requires g[4..36] == m.header && g[4..8] == MAGIC && g[36] == |m.words| / 2 && g[37..37 + |m.words|] == m.words
    requires Le16(g, 37 + |m.words|) == |m.data| && g[39 + |m.words|..] == m.data
    ensures Decode(f) == Some(m)
  {
    var w, n := |m.words|, |g|;
    assert forall k :: 4 <= k < n ==> f[k] == f[4..][k - 4] == g[4..][k - 4] == g[k];
    assert f[4..8] == g[4..8] && f[4..36] == g[4..36] && f[37..37 + w] == g[37..37 + w];
    assert f[39 + w..n] == g[39 + w..n] == g[39 + w..];
  }

  lemma {:induction false} EncodeBehind(m: Msg)
    requires m.Valid()
    ensures Encode(m)[4..] == m.header + [|m.words| / 2] + m.words + PutLe16(|m.data|) + m.data
  {
  }

  lemma {:induction false} FiveParts(f: seq<byte>, w: nat, n: nat)
    requires 39 + w <= n <= |f|
    ensures f[4..n] == f[4..36] + [f[36]] + f[37..37 + w] + f[37 + w..39 + w] + f[39 + w..n]
  {
  }

  // ---------------------------------------------------------------- a whole conversation

  /** One thing a peer puts on the wire: a message, or a frame of another type (a keep-alive, say). */
  datatype Unit = Packet(m: Msg) | Chatter(frame: seq<byte>) {
    predicate Valid() {
      match this
      case Packet(m) => m.Valid()
      case Chatter(frame) => IsChatter(frame)
    }

    function Frame(): (f: seq<byte>)
      requires Valid()
      ensures IsFrame(f) && (f[0] == 0 <==> Packet?)
    {
      match this
      case Packet(m) => Encode(m)
      case Chatter(frame) => frame
    }
  }

  predicate AllValid(us: seq<Unit>) {
    forall u :: u in us ==> u.Valid()
  }

  function Wire(us: seq<Unit>): seq<byte>
    requires AllValid(us)
  {
    if us == [] then [] else us[0].Frame() + Wire(us[1..])
  }

  function PacketsOf(us: seq<Unit>): seq<Msg> {
    if us == [] then []
    else if us[0].Packet? then [us[0].m] + PacketsOf(us[1..])
    else PacketsOf(us[1..])
  }

  /** The receiver's next message is the sender's next packet, whatever chatter comes first. */
  lemma {:induction false} NextOnWire(us: seq<Unit>, tail: seq<byte>) returns (vs: seq<Unit>)
    requires AllValid(us) && PacketsOf(us) != []
    ensures AllValid(vs) && |vs| < |us|
    ensures PacketsOf(us)[0].Valid() && PacketsOf(vs) == PacketsOf(us)[1..]
    ensures NextMessage(Wire(us) + tail) == Message(Encode(PacketsOf(us)[0]), Wire(vs) + tail)
  {
    var f, rest := us[0].Frame(), Wire(us[1..]) + tail;
    assert Wire(us) + tail == f + rest;
    FrameSplits(f, rest);
    if us[0].Packet? {
      vs := us[1..];
    } else {
      vs := NextOnWire(us[1..], tail);
    }
  }

  /** What is left of a stream after `k` receives. */
  function AfterReceives(s: seq<byte>, k: nat): seq<byte>
    decreases k
  {
    if k == 0 then s else
      match NextMessage(s)
      case Nothing => s
      case Message(_, rest) => AfterReceives(rest, k - 1)
  }

  /** Over any conversation the k-th receive parses the k-th packet: same header, words and byte block. */
  lemma {:induction false} KthReceiveIsKthPacket(us: seq<Unit>, tail: seq<byte>, k: nat)
    requires AllValid(us) && k < |PacketsOf(us)|
    ensures var next := NextMessage(AfterReceives(Wire(us) + tail, k));
      next.Message? && Decode(next.frame) == Some(PacketsOf(us)[k])
    decreases k
  {
    var vs := NextOnWire(us, tail);
    if k == 0 {
      DecodeEncode(PacketsOf(us)[0]);
    } else {
      var j := k - 1;
      assert PacketsOf(us)[k] == PacketsOf(vs)[j];
      KthReceiveIsKthPacket(vs, tail, j);
    }
  }

  /** And after the last packet a receiver finds nothing, whatever chatter the conversation ends with. */
  lemma {:induction false} NothingAfterLastPacket(us: seq<Unit>)
    requires AllValid(us)
    ensures NextMessage(AfterReceives(Wire(us), |PacketsOf(us)|)) == Nothing
    decreases |us|
  {
    if us == [] {
    } else if PacketsOf(us) == [] {
      FrameSplits(us[0].Frame(), Wire(us[1..]));
      NothingAfterLastPacket(us[1..]);
    } else {
      var vs := NextOnWire(us, []);
      assert Wire(us) + [] == Wire(us) && Wire(vs) + [] == Wire(vs);
      NothingAfterLastPacket(vs);
    }
  }
}
