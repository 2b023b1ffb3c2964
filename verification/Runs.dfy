/** Runs of real calls on a connection: what the theorems on streams say of them. */
module Runs {
  import opened Bytes
  import opened Sockets
  import opened Framing
  import opened Streams
  import opened Transport

  lemma {:induction false} InFrameHasNoFrame(mem: seq<byte>, p: nat, e: nat)
    requires InFrame(mem, p, e) && p < e
    ensures !HasFrame(mem[..p])
  {
    assert p >= 4 ==> FrameLength(mem[..p]) == FrameLength(mem);
  }

  /** One cifs_recv_async, by messages: what it returns comes off the front of those still to be delivered. */
  method PollOnce(c: Conn) returns (out: seq<seq<byte>>)
    requires c.Valid() && c.Tracking()
    modifies c.sock, c.i.p`p, c.i.p`e, c.i.p.mem
    ensures c.Valid() && c.Tracking() && c.i.p.mem == old(c.i.p.mem)
    ensures old(c.sock.input != [] || c.sock.turns != []) ==>
      |c.sock.input| + |c.sock.turns| < old(|c.sock.input| + |c.sock.turns|)
    ensures NonEmpty(Messages(old(c.State()).Stream())) == out + NonEmpty(Messages(c.State().Stream()))
  {
    hide PollStep, AsyncStep;
    ghost var s := c.State();
    var r := c.RecvAsync();
    out := if r == 0 then [c.i.p.mem[..c.i.p.e]] else [];
    PollStepIsAsyncStep(s, c.State(), out);
    AsyncStepKeepsMessages(s.Stream(), c.State().Stream(), out);
  }

  /** Polls as long as the socket has anything to say, stalls and failures included: exactly the non-empty
      messages of the stream come out, in order. */
  method Drain(c: Conn) returns (got: seq<seq<byte>>)
    requires c.Valid() && c.Tracking()
    modifies c.sock, c.i.p`p, c.i.p`e, c.i.p.mem
    ensures c.Valid() && c.Tracking() && c.State().Drained()
    ensures got == NonEmpty(Messages(old(c.State()).Stream()))
  {
    hide Messages, NonEmpty, Rx.Stream;
    got := [];
    ghost var all := NonEmpty(Messages(c.State().Stream()));
    while c.sock.input != [] || c.sock.turns != []
      invariant c.Valid() && c.Tracking() && c.i.p.mem == old(c.i.p.mem)
      invariant all == got + NonEmpty(Messages(c.State().Stream()))
      decreases |c.sock.input| + |c.sock.turns|
    {
      var out := PollOnce(c);
      Regroup(got, out, NonEmpty(Messages(c.State().Stream())));
      got := got + out;
    }
    if c.i.p.p < c.i.p.e {
      InFrameHasNoFrame(c.i.p.mem[..], c.i.p.p, c.i.p.e);
    }
    DrainedHasNoMessages(c.State());
    NoneLeft(got, c.State());
  }

  lemma {:induction false} NoneLeft(got: seq<seq<byte>>, s: Rx)
    requires Messages(s.Stream()) == []
    ensures got + NonEmpty(Messages(s.Stream())) == got
  {
  }

  lemma {:induction false} AfterOneMore(s: seq<byte>, k: nat)
    requires NextMessage(AfterReceives(s, k)).Message?
    ensures AfterReceives(s, k + 1) == NextMessage(AfterReceives(s, k)).rest
    decreases k
  {
    if k > 0 && NextMessage(s).Message? {
      AfterOneMore(NextMessage(s).rest, k - 1);
    }
  }

  /** One cifs_recv, when a message that parses comes next. */
  method ReceiveNext(c: Conn, ghost f: seq<byte>, ghost rest: seq<byte>) returns (got: seq<byte>)
    requires c.Valid() && c.sock.Healthy() && NextMessage(c.sock.input) == Message(f, rest) && Decode(f).Some?
    modifies c.sock, c.i.p`p, c.i.p`e, c.i.b, c.i.p.mem
    ensures c.Valid() && c.sock.Healthy() && c.i.p.mem == old(c.i.p.mem)
    ensures got == f && c.sock.input == rest
  {
    hide Arrive, Decode, NextMessage;
    var r := c.Recv();
    assert r == 0;
    got := c.i.p.mem[..c.i.p.e];
  }

  /** k calls of cifs_recv on a healthy connection to a peer that sends the units `us`: all succeed, and the
      j-th brings the j-th packet. */
  method ReceivePackets(c: Conn, k: nat, ghost us: seq<Unit>, ghost tail: seq<byte>) returns (got: seq<seq<byte>>)
    requires c.Valid() && c.sock.Healthy() && AllValid(us)
    requires c.sock.input == Wire(us) + tail && k <= |PacketsOf(us)|
    modifies c.sock, c.i.p`p, c.i.p`e, c.i.b, c.i.p.mem
    ensures c.Valid() && c.sock.Healthy() && c.sock.input == AfterReceives(old(c.sock.input), k)
    ensures |got| == k && forall j :: 0 <= j < k ==> Decode(got[j]) == Some(PacketsOf(us)[j])
  {
    hide Decode, Wire;
    got := [];
    ghost var s := c.sock.input;
    while |got| < k
      invariant c.Valid() && c.sock.Healthy() && c.i.p.mem == old(c.i.p.mem)
      invariant |got| <= k && c.sock.input == AfterReceives(s, |got|)
      invariant forall j :: 0 <= j < |got| ==> Decode(got[j]) == Some(PacketsOf(us)[j])
    {
      ghost var j := |got|;
      KthReceiveIsKthPacket(us, tail, j);
      AfterOneMore(s, j);
      ghost var next := NextMessage(c.sock.input);
      var f := ReceiveNext(c, next.frame, next.rest);
      got := got + [f];
    }
  }

  // ---------------------------------------------------------------- mixing the three receivers

  datatype Request = Receive | ReceiveRaw | Poll {
    function Kind(): Call { if Poll? then Polling else Blocking }
  }

  /** A connection between two calls: what it has not delivered, and how its socket goes on. */
  datatype Moment = Moment(rx: Rx, turns: seq<Turn>) {
    function Size(): nat { |rx.input| + |turns| }

    /** A blocking call is out of place while a frame is half-read. */
    predicate LeavesOut(request: Request) { !request.Poll? && rx.partial != [] }
  }

  /** One call that was made. */
  datatype Done = Done(call: Call, result: int, taken: seq<seq<byte>>, after: Moment)

  /** What a blocking call returns that consumed the message `f`, with room for `len` bytes of payload. */
  function Result(request: Request, f: seq<byte>, len: nat): int {
    if request.ReceiveRaw? then (if |f| - 4 > len then -1 else |f| - 4)
    else if Decode(f).Some? then 0 else -1
  }

  /** The call `d` is what `request` does at the moment `m`. A poll uses up input or a turn while there is any. */
  predicate Fulfilled(m: Moment, request: Request, len: nat, d: Done) {
    d.call == request.Kind() &&
    match request
    case Poll =>
      && PollStep(m.rx, d.after.rx, d.taken) && d.result == (if d.taken == [] then -1 else 0)
      && (m.rx.input != [] || m.turns != [] ==> d.after.Size() < m.Size())
    case _ =>
      && |d.taken| == 1 && SyncStep(m.rx, d.after.rx, d.taken[0])
      && d.result == Result(request, d.taken[0], len)
  }

  /** The log is that of the calls, in order, each made at the moment the one before it left; only blocking ones
      in the middle of a frame are left out. */
  predicate Made(m: Moment, calls: seq<Request>, len: nat, log: seq<Done>)
    decreases |calls|
  {
    if calls == [] then log == []
    else if m.LeavesOut(calls[0]) then Made(m, calls[1..], len, log)
    else log != [] && Fulfilled(m, calls[0], len, log[0]) && Made(log[0].after, calls[1..], len, log[1..])
  }

  function End(m: Moment, log: seq<Done>): Moment {
    if log == [] then m else log[|log| - 1].after
  }

  function Results(log: seq<Done>): seq<int> {
    seq(|log|, k requires 0 <= k < |log| => log[k].result)
  }

  function Events(log: seq<Done>): seq<Event> {
    seq(|log|, k requires 0 <= k < |log| => Event(log[k].call, log[k].taken, log[k].after.rx))
  }

  /** What was made is a run that the theorem on runs speaks of. */
  lemma {:induction false} MadeHappens(m: Moment, calls: seq<Request>, len: nat, log: seq<Done>)
    requires Made(m, calls, len, log)
    ensures Happens(m.rx, Events(log)) && Final(m.rx, Events(log)) == End(m, log).rx
    decreases |calls|
  {
    hide PollStep, SyncStep, AsyncStep;
    if calls == [] {
    } else if m.LeavesOut(calls[0]) {
      MadeHappens(m, calls[1..], len, log);
    } else {
      MadeHappens(log[0].after, calls[1..], len, log[1..]);
      assert Events(log)[0] == Event(log[0].call, log[0].taken, log[0].after.rx);
      assert Events(log)[1..] == Events(log[1..]);
      if calls[0].Poll? {
        PollStepIsAsyncStep(m.rx, log[0].after.rx, log[0].taken);
      }
    }
  }

  lemma {:induction false} MadeMore(m: Moment, calls: seq<Request>, len: nat, log: seq<Done>, request: Request, d: Done)
    requires Made(m, calls, len, log) && !End(m, log).LeavesOut(request) && Fulfilled(End(m, log), request, len, d)
    ensures Made(m, calls + [request], len, log + [d])
    decreases |calls|
  {
    hide Fulfilled;
    if calls == [] {
      assert (calls + [request])[1..] == [] && (log + [d])[1..] == [];
    } else {
      assert (calls + [request])[0] == calls[0] && (calls + [request])[1..] == calls[1..] + [request];
      if m.LeavesOut(calls[0]) {
        MadeMore(m, calls[1..], len, log, request, d);
      } else {
        assert (log + [d])[0] == log[0] && (log + [d])[1..] == log[1..] + [d];
        MadeMore(log[0].after, calls[1..], len, log[1..], request, d);
      }
    }
  }

  lemma {:induction false} LeftOutMore(m: Moment, calls: seq<Request>, len: nat, log: seq<Done>, request: Request)
    requires Made(m, calls, len, log) && End(m, log).LeavesOut(request)
    ensures Made(m, calls + [request], len, log)
    decreases |calls|
  {
    hide Fulfilled;
    if calls == [] {
      assert (calls + [request])[1..] == [];
    } else {
      assert (calls + [request])[0] == calls[0] && (calls + [request])[1..] == calls[1..] + [request];
      if m.LeavesOut(calls[0]) {
        LeftOutMore(m, calls[1..], len, log, request);
      } else {
        LeftOutMore(log[0].after, calls[1..], len, log[1..], request);
      }
    }
  }

  ghost function Now(c: Conn): Moment
    requires c.Valid()
    reads c, c.i, c.i.p, c.i.b, c.o, c.o.p, c.o.b, c.i.p.mem, c.sock
  {
    Moment(c.State(), c.sock.turns)
  }

  method MakePoll(c: Conn, ghost len: nat) returns (r: int, ghost d: Done)
    requires c.Valid() && c.Tracking() && c.sock.Healthy()
    modifies c.sock, c.i.p`p, c.i.p`e, c.i.b, c.i.p.mem
    ensures c.Valid() && c.Tracking() && c.sock.Healthy() && c.i.p.mem == old(c.i.p.mem)
    ensures Fulfilled(old(Now(c)), Poll, len, d) && d.after == Now(c) && d.result == r
  {
    hide PollStep, InFrame;
    r := c.RecvAsync();
    d := Done(Polling, r, if r == 0 then [c.i.p.mem[..c.i.p.e]] else [], Now(c));
  }

  method MakeReceive(c: Conn, ghost len: nat) returns (r: int, ghost d: Done)
    requires c.Valid() && c.Tracking() && c.sock.Healthy() && NextMessage(c.sock.input).Message?
    modifies c.sock, c.i.p`p, c.i.p`e, c.i.b, c.i.p.mem
    ensures c.Valid() && c.Tracking() && c.sock.Healthy() && c.i.p.mem == old(c.i.p.mem)
    ensures Fulfilled(old(Now(c)), Receive, len, d) && d.after == Now(c) && d.result == r
  {
    hide SyncStep, Decode, NextMessage, Arrive, InFrame;
    ghost var f := NextMessage(c.sock.input).frame;
    r := c.Recv();
    d := Done(Blocking, r, [f], Now(c));
  }

  method MakeReceiveRaw(c: Conn, buf: array<byte>) returns (r: int, ghost d: Done)
    requires c.Valid() && c.Tracking() && c.sock.Healthy() && NextMessage(c.sock.input).Message? && buf != c.i.p.mem
    modifies c.sock, buf
    ensures c.Valid() && c.Tracking() && c.sock.Healthy() && c.i.p.mem == old(c.i.p.mem)
    ensures Fulfilled(old(Now(c)), ReceiveRaw, buf.Length, d) && d.after == Now(c) && d.result == r
  {
    hide SyncStep, NextMessage, InFrame;
    ghost var f := NextMessage(c.sock.input).frame;
    r := c.RecvRaw(buf, buf.Length);
    d := Done(Blocking, r, [f], Now(c));
  }

  /** One call, of any of the three kinds. */
  method Make(c: Conn, request: Request, buf: array<byte>) returns (r: int, ghost d: Done)
    requires c.Valid() && c.Tracking() && c.sock.Healthy() && buf != c.i.p.mem
    requires request.Poll? || NextMessage(c.sock.input).Message?
    modifies c.sock, c.i.p`p, c.i.p`e, c.i.b, c.i.p.mem, buf
    ensures c.Valid() && c.Tracking() && c.sock.Healthy() && c.i.p.mem == old(c.i.p.mem)
    ensures Fulfilled(old(Now(c)), request, buf.Length, d) && d.after == Now(c) && d.result == r
  {
    hide Fulfilled, NextMessage;
    match request
    case Poll => r, d := MakePoll(c, buf.Length);
    case Receive => r, d := MakeReceive(c, buf.Length);
    case ReceiveRaw => r, d := MakeReceiveRaw(c, buf);
  }

  /** Makes the calls one after the other on a healthy connection, blocking ones between frames only, and stops
      early only where a blocking call would find that no message is left. All three receivers keep to the run
      that the theorem on runs speaks of. */
  method Mix(c: Conn, calls: seq<Request>, buf: array<byte>)
    returns (made: nat, results: seq<int>, ghost log: seq<Done>)
    requires c.Valid() && c.Tracking() && c.sock.Healthy() && buf != c.i.p.mem
    modifies c.sock, c.i.p`p, c.i.p`e, c.i.b, c.i.p.mem, buf
    ensures c.Valid() && c.Tracking() && c.sock.Healthy()
    ensures made <= |calls| && Made(old(Now(c)), calls[..made], buf.Length, log)
    ensures End(old(Now(c)), log) == Now(c) && results == Results(log)
    ensures made < |calls| ==>
      !calls[made].Poll? && !Now(c).LeavesOut(calls[made]) && NextMessage(c.sock.input) == Nothing
    ensures Happens(old(c.State()), Events(log)) && Final(old(c.State()), Events(log)) == c.State()
  {
    hide Fulfilled, Happens, Final, Decode, NextMessage;
    made, results, log := 0, [], [];
    ghost var m := Now(c);
    while made < |calls|
      invariant c.Valid() && c.Tracking() && c.sock.Healthy() && c.i.p.mem == old(c.i.p.mem)
      invariant made <= |calls| && Made(m, calls[..made], buf.Length, log)
      invariant End(m, log) == Now(c) && results == Results(log)
    {
      var request := calls[made];
      assert calls[..made] + [request] == calls[..made + 1];
      if !request.Poll? && 0 < c.i.p.p && c.i.p.p != c.i.p.e {
        assert |c.State().partial| == c.i.p.p;
        LeftOutMore(m, calls[..made], buf.Length, log, request);
      } else {
        if !request.Poll? && NextMessage(c.sock.input).Nothing? {
          assert !Now(c).LeavesOut(request);
          break;
        }
        var r;
        ghost var d;
        r, d := Make(c, request, buf);
        MadeMore(m, calls[..made], buf.Length, log, request, d);
        results, log := results + [r], log + [d];
      }
      made := made + 1;
    }
    MadeHappens(m, calls[..made], buf.Length, log);
  }
}
